/** The UART interrupt callbacks of Core/Src/stm32f4xx_it.c that hand data
    between the DMA and the ESP8266 driver. `forEsp` says whether the
    interrupting UART is the one wired to the ESP8266 (huart->Instance ==
    ESP_UART); the outcome of re-arming the reception is a parameter. */
module UartIrq {
  import opened Common
  import opened EspDriver

  /** The frame a task sees when it polls rx_flag: the first recvData_len
      bytes of the receive buffer once RECV_DATA is set (at most the buffer). */
  function PendingFrame(esp: Esp8266): (r: Option<seq<char>>)
    reads esp, esp.recvBuffer
    requires esp.Valid()
    ensures r.Some? <==> esp.rxFlag == RECV_DATA
    ensures r.Some? ==> |r.value| == Min(esp.recvDataLen, RECV_DATA_BUFFER)
  {
    if esp.rxFlag == RECV_DATA then
      Some(esp.recvBuffer[..Min(esp.recvDataLen, RECV_DATA_BUFFER)])
    else None
  }

  /** HAL_UARTEx_RxEventCallback: on the ESP8266 UART, record the size,
      raise rx_flag, copy the whole staging buffer to the receive buffer,
      clear the staging buffer and re-arm reception to idle on it. Any other
      UART changes nothing. */
  method RxEventCallback(esp: Esp8266, forEsp: bool, size: u16, rearmOk: bool)
    requires esp.Valid()
    modifies esp, esp.recvBuffer, esp.recvTemp
    ensures esp.Valid()
    ensures !forEsp ==>
              esp.recvDataLen == old(esp.recvDataLen) && esp.rxFlag == old(esp.rxFlag) &&
              esp.rxArmed == old(esp.rxArmed) &&
              esp.recvBuffer[..] == old(esp.recvBuffer[..]) && esp.recvTemp[..] == old(esp.recvTemp[..])
    ensures forEsp ==>
              esp.recvDataLen == size && esp.rxFlag == RECV_DATA && esp.rxArmed == rearmOk &&
              esp.recvBuffer[..] == old(esp.recvTemp[..]) &&
              esp.recvTemp[..] == seq(RECV_DATA_BUFFER, _ => '\0')
    ensures forEsp ==> PendingFrame(esp) == Some(old(esp.recvTemp[..])[..Min(size, RECV_DATA_BUFFER)])
    ensures esp.txBuffer == old(esp.txBuffer) && esp.recvBuffer == old(esp.recvBuffer) &&
      esp.recvTemp == old(esp.recvTemp) && esp.baud == old(esp.baud)
    ensures esp.events == old(esp.events) && esp.sendTask == old(esp.sendTask) &&
      esp.notified == old(esp.notified)
  {
    if forEsp {
      esp.recvDataLen := size;
      esp.rxFlag := RECV_DATA;
      var dst := esp.recvBuffer;
      var src := esp.recvTemp;
      forall i | 0 <= i < RECV_DATA_BUFFER {
        dst[i] := src[i];
      }
      forall i | 0 <= i < RECV_DATA_BUFFER {
        src[i] := '\0';
      }
      esp.rxArmed := rearmOk;
    }
  }

  /** HAL_UART_TxCpltCallback: on the ESP8266 UART, notify the task that
      esp8266_SendAT registered (a NULL handle is notified as None). */
  method TxCpltCallback(esp: Esp8266, forEsp: bool)
    requires esp.Valid()
    modifies esp`notified
    ensures esp.notified == old(esp.notified) + (if forEsp then [esp.sendTask] else [])
  {
    if forEsp {
      esp.notified := esp.notified + [esp.sendTask];
    }
  }
}
