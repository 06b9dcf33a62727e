/** Command framing and transmit timeout of the ESP8266 driver
    (Hardware/esp8266_driver.c).

    The driver's globals become the fields of one `Esp8266` object. What the
    RTOS and the HAL decide (whether the recursive mutex is taken, what
    vsnprintf renders, whether the DMA start succeeds, when the completion
    notification arrives) is passed in as parameters. The mutex operations
    and the DMA starts are recorded, in order, in the `events` trace. */
module EspDriver {
  import opened Common
  import AtParser

  /* ---------------------------------------------------------------- */
  /* Constants of Hardware/esp8266_driver.h                           */
  /* ---------------------------------------------------------------- */

  const ESP_USART_BAUDRATE: nat := 9600
  const COMMAND_BUFFER: nat := 128
  const RECV_DATA_BUFFER: nat := 1024
  const RECV_DATA: u8 := 0xFF
  const NO_DATA: u8 := 0xFE

  /** EspMode_t. */
  const STATION: int := 1
  const SOFTAP: int := 2
  const STATION_SOFTAP: int := 3
  const ESP_ERROR: int := 4

  /* ---------------------------------------------------------------- */
  /* usart_timeout_Calculate                                          */
  /* ---------------------------------------------------------------- */

  /** The timeout before clamping: 10 bit times per byte, 1000000 / baud
      microseconds per bit, plus 50%, in milliseconds; every product is a
      uint32_t and wraps. */
  function RawTimeout(dataLen: u16, baud: nat): u32
    requires baud > 0
  {
    var frameUs := 10 * (1000000 / baud);
    var transfer := (dataLen * frameUs) % U32_MOD;
    ((transfer * 3) % U32_MOD / 2) / 1000
  }

  /** usart_timeout_Calculate(data_len) for a UART running at `baud`. */
  function TimeoutMs(dataLen: u16, baud: nat): (t: u32)
    requires dataLen > 0
    requires baud > 0
    ensures 100 <= t <= 5000
    ensures 100 <= RawTimeout(dataLen, baud) <= 5000 ==> t == RawTimeout(dataLen, baud)
  {
    var raw := RawTimeout(dataLen, baud);
    if raw < 100 then 100 else if raw > 5000 then 5000 else raw
  }

  lemma {:induction false} MulMonotone(a: int, b: int, c: nat)
    requires a <= b
    ensures a * c <= b * c
    decreases c
  {
    if c > 0 {
      MulMonotone(a, b, c - 1);
      assert a * c == a * (c - 1) + a;
      assert b * c == b * (c - 1) + b;
    }
  }

  /** Without wrap-around the raw timeout is the exact quotient. */
  lemma RawTimeoutExact(len: u16, baud: nat)
    requires baud > 0
    requires len * (10 * (1000000 / baud)) * 3 < U32_MOD
    ensures RawTimeout(len, baud) == (len * (10 * (1000000 / baud)) * 3 / 2) / 1000
  {
    var t := len * (10 * (1000000 / baud));
    MulMonotone(0, len, 10 * (1000000 / baud));
    assert 0 <= t < U32_MOD;
    assert t % U32_MOD == t;
    assert (t * 3) % U32_MOD == t * 3;
  }

  /** While no product wraps, a longer frame never gets a shorter timeout. */
  lemma TimeoutMonotone(a: u16, b: u16, baud: nat)
    requires 0 < a <= b
    requires baud > 0
    requires b * (10 * (1000000 / baud)) * 3 < U32_MOD
    ensures TimeoutMs(a, baud) <= TimeoutMs(b, baud)
  {
    var frameUs := 10 * (1000000 / baud);
    MulMonotone(a, b, frameUs);
    RawTimeoutExact(a, baud);
    RawTimeoutExact(b, baud);
  }

  /** At the 9600 baud the driver header configures, nothing wraps for any
      16-bit length, so the timeout is nondecreasing in the length. */
  lemma TimeoutMonotoneAt9600(a: u16, b: u16)
    requires 0 < a <= b
    ensures TimeoutMs(a, ESP_USART_BAUDRATE) <= TimeoutMs(b, ESP_USART_BAUDRATE)
  {
    assert 1000000 / 9600 == 104;
    assert b * (10 * 104) * 3 < U32_MOD;
    TimeoutMonotone(a, b, ESP_USART_BAUDRATE);
  }

  /** At 300 baud the uint32_t products wrap: one byte more turns the
      longest timeout into the shortest. */
  lemma TimeoutWrapsAt300()
    ensures TimeoutMs(42953, 300) == 5000
    ensures TimeoutMs(42954, 300) == 100
  {
    assert 1000000 / 300 == 3333;
  }

  /* ---------------------------------------------------------------- */
  /* esp8266_SendAT                                                   */
  /* ---------------------------------------------------------------- */

  /** What vsnprintf produced: a failure (negative return) or the full
      rendered text, whose length is the value vsnprintf returns. */
  datatype Render = FormatError | Rendered(text: seq<char>)

  /** Observable steps of the driver, in order. */
  datatype Event =
    | Take                      // xSemaphoreTakeRecursive succeeded
    | Give                      // xSemaphoreGiveRecursive
    | Transmit(bytes: seq<char>) // HAL_UART_Transmit_DMA requested
    | Abort                     // HAL_UART_AbortTransmit

  type TaskId = nat

  /** The inputs of one esp8266_SendAT call that the driver does not
      decide. `notifyAfter` is the number of ticks until the completion
      notification arrives, None if it never does. */
  datatype SendEnv = SendEnv(
    taken: bool,
    render: Render,
    dmaOk: bool,
    notifyAfter: Option<nat>,
    busyTx: bool,
    self: TaskId)

  /** The rendered length vsnprintf reports (-1 for a failure). */
  function RenderLen(r: Render): int
  {
    if r.FormatError? then -1 else |r.text|
  }

  /** The command is sent only for a render of 1 to txSize - 4 bytes. */
  predicate Sendable(r: Render, txSize: nat)
  {
    0 < RenderLen(r) < txSize - 3
  }

  /** The framed command handed to the DMA: the text followed by CR LF. */
  function Framed(text: seq<char>): (f: seq<char>)
    ensures |f| == |text| + 2 && f[..|text|] == text && f[|text|..] == "\r\n"
  {
    text + "\r\n"
  }

  /** Outcome of a call: its return value and the events it produced. */
  datatype SendOutcome = SendOutcome(ok: bool, trace: seq<Event>)

  /** The part of esp8266_SendAT after the framed command is ready: start
      the DMA, wait for the completion notification, abort a transfer still
      in progress on timeout, and give the mutex back. */
  function TransmitSpec(env: SendEnv, frame: seq<char>, baud: nat): SendOutcome
    requires 0 < |frame| < 0x1_0000
    requires baud > 0
  {
    if !env.dmaOk then SendOutcome(false, [Transmit(frame), Give])
    else if env.notifyAfter.Some? && env.notifyAfter.value <= TimeoutMs(|frame|, baud)
    then SendOutcome(true, [Transmit(frame), Give])
    else SendOutcome(false, [Transmit(frame)] + (if env.busyTx then [Abort] else []) + [Give])
  }

  /** esp8266_SendAT as a value. */
  function SendSpec(env: SendEnv, txSize: nat, baud: nat): SendOutcome
    requires baud > 0
    requires txSize <= 0x1_0000
  {
    if !env.taken then SendOutcome(false, [])
    else if !Sendable(env.render, txSize) then SendOutcome(false, [Take, Give])
    else
      var tail := TransmitSpec(env, Framed(env.render.text), baud);
      SendOutcome(tail.ok, [Take] + tail.trace)
  }

  function CountOf(tr: seq<Event>, e: Event): nat
  {
    if tr == [] then 0 else CountOf(tr[..|tr| - 1], e) + (if tr[|tr| - 1] == e then 1 else 0)
  }

  lemma {:induction false} CountOfAppend(a: seq<Event>, b: seq<Event>, e: Event)
    ensures CountOf(a + b, e) == CountOf(a, e) + CountOf(b, e)
  {
    if b != [] {
      assert (a + b)[..|a + b| - 1] == a + b[..|b| - 1];
      assert (a + b)[|a + b| - 1] == b[|b| - 1];
      CountOfAppend(a, b[..|b| - 1], e);
    } else {
      assert a + b == a;
    }
  }

  /** A call that did not get the mutex touches nothing; a call that got it
      gives it back exactly once, as its last step, and takes it once, as
      its first. */
  lemma SendLockBalanced(env: SendEnv, txSize: nat, baud: nat)
    requires baud > 0
    requires txSize <= 0x1_0000
    ensures var tr := SendSpec(env, txSize, baud).trace;
      (!env.taken ==> tr == []) &&
      (env.taken ==> |tr| >= 2 && tr[0] == Take && tr[|tr| - 1] == Give &&
                     CountOf(tr, Take) == 1 && CountOf(tr, Give) == 1)
  {
    if env.taken {
      var tr := SendSpec(env, txSize, baud).trace;
      var mid: seq<Event>;
      if !Sendable(env.render, txSize) {
        mid := [];
      } else {
        var frame := Framed(env.render.text);
        var aborted: seq<Event> := if env.dmaOk && !(env.notifyAfter.Some? &&
          env.notifyAfter.value <= TimeoutMs(|frame|, baud)) && env.busyTx then [Abort] else [];
        mid := [Transmit(frame)] + aborted;
      }
      assert tr == [Take] + mid + [Give];
      Bracketed(mid);
    }
  }

  /** A trace that takes the mutex, does neither mutex operation in between,
      and gives it back. */
  lemma Bracketed(mid: seq<Event>)
    requires Take !in mid && Give !in mid
    ensures var tr := [Take] + mid + [Give];
      CountOf(tr, Take) == 1 && CountOf(tr, Give) == 1
  {
    CountNone(mid, Take);
    CountNone(mid, Give);
    CountOfAppend([Take] + mid, [Give], Take);
    CountOfAppend([Take] + mid, [Give], Give);
    CountOfAppend([Take], mid, Take);
    CountOfAppend([Take], mid, Give);
  }

  lemma {:induction false} CountNone(tr: seq<Event>, e: Event)
    requires e !in tr
    ensures CountOf(tr, e) == 0
  {
    if tr != [] {
      CountNone(tr[..|tr| - 1], e);
    }
  }

  /** SendAT returns true exactly when it held the mutex, the render was
      sendable, the DMA started and the notification came within
      usart_timeout_Calculate of the framed length. */
  lemma SendTrueIff(env: SendEnv, txSize: nat, baud: nat)
    requires baud > 0
    requires txSize <= 0x1_0000
    ensures SendSpec(env, txSize, baud).ok <==>
      env.taken && Sendable(env.render, txSize) && env.dmaOk && env.notifyAfter.Some? &&
      env.notifyAfter.value <= TimeoutMs(|env.render.text| + 2, baud)
  {
  }

  /** Nothing is transmitted unless the render is sendable, and then exactly
      the text followed by CR LF. */
  lemma SendTransmitsOnlyFramed(env: SendEnv, txSize: nat, baud: nat, bytes: seq<char>)
    requires baud > 0
    requires txSize <= 0x1_0000
    requires Transmit(bytes) in SendSpec(env, txSize, baud).trace
    ensures env.taken && Sendable(env.render, txSize)
    ensures bytes == env.render.text + "\r\n"
  {
  }

  /** Contents of the transmit buffer after memset and vsnprintf: the text,
      cut to size - 1 bytes, then zero bytes. */
  function RenderedBuffer(r: Render, size: nat): (b: seq<char>)
    ensures |b| == size
  {
    var n := if r.FormatError? || size == 0 then 0 else Min(|r.text|, size - 1);
    (if r.FormatError? then [] else r.text[..n]) + seq(size - n, _ => '\0')
  }

  /** The transmit buffer once SendAT has held the mutex: the rendered
      buffer, with CR, LF and NUL written after a sendable text. */
  function TxAfterSend(r: Render, size: nat): (b: seq<char>)
    ensures |b| == size
  {
    var rendered := RenderedBuffer(r, size);
    if Sendable(r, size) then
      rendered[|r.text| := '\r'][|r.text| + 1 := '\n'][|r.text| + 2 := '\0']
    else rendered
  }

  /** After a sendable command the buffer holds the framed text and then only
      zero bytes. */
  lemma SendBufferFraming(r: Render, size: nat)
    requires Sendable(r, size)
    ensures var b := TxAfterSend(r, size);
      b[..|r.text| + 2] == Framed(r.text) && forall i :: |r.text| + 2 <= i < size ==> b[i] == '\0'
  {
  }

  /* ---------------------------------------------------------------- */
  /* The driver state                                                 */
  /* ---------------------------------------------------------------- */

  class Esp8266 {
    /** esp8266_TxBuffer[Tx_DATA_BUFFER]. */
    var txBuffer: array<char>
    /** esp8266_RecvBuffer[RECV_DATA_BUFFER]. */
    var recvBuffer: array<char>
    /** recv_temp[RECV_DATA_BUFFER], the DMA staging buffer. */
    var recvTemp: array<char>
    var rxFlag: u8
    var recvDataLen: u16
    /** xCurrentSendTaskHandle; None is NULL. */
    var sendTask: Option<TaskId>
    /** ESP_UART_BAUDRATE. */
    var baud: nat
    /** Whether reception to idle is armed on recv_temp. */
    var rxArmed: bool
    /** Mutex operations and DMA starts, oldest first. */
    var events: seq<Event>
    /** Tasks notified by the transmit-complete interrupt, oldest first;
        None is a notification sent to a NULL handle. */
    var notified: seq<Option<TaskId>>

    ghost predicate Valid()
      reads this
    {
      recvBuffer.Length == RECV_DATA_BUFFER && recvTemp.Length == RECV_DATA_BUFFER &&
      recvBuffer != recvTemp && txBuffer != recvBuffer && txBuffer != recvTemp &&
      txBuffer.Length <= 0x1_0000 && baud > 0
    }

    /** The state at reset: zeroed buffers, rx_flag NO_DATA, no send task. */
    constructor (txSize: nat, uartBaud: nat)
      requires txSize <= 0x1_0000
      requires uartBaud > 0
      ensures Valid() && fresh(txBuffer) && fresh(recvBuffer) && fresh(recvTemp)
      ensures txBuffer.Length == txSize && baud == uartBaud
      ensures txBuffer[..] == seq(txSize, _ => '\0')
      ensures recvBuffer[..] == seq(RECV_DATA_BUFFER, _ => '\0')
      ensures recvTemp[..] == seq(RECV_DATA_BUFFER, _ => '\0')
      ensures rxFlag == NO_DATA && sendTask.None? && events == [] && notified == [] && !rxArmed
    {
      txBuffer := new char[txSize](_ => '\0');
      recvBuffer := new char[RECV_DATA_BUFFER](_ => '\0');
      recvTemp := new char[RECV_DATA_BUFFER](_ => '\0');
      rxFlag := NO_DATA;
      recvDataLen := 0;
      sendTask := None;
      baud := uartBaud;
      rxArmed := false;
      events := [];
      notified := [];
    }

    /** esp8266_SendAT. A call that gets the mutex rewrites the transmit
        buffer and leaves no send task registered; one that does not changes
        nothing. */
    method SendAT(env: SendEnv) returns (ok: bool)
      requires Valid()
      modifies this`events, this`sendTask, txBuffer
      ensures Valid()
      ensures ok == SendSpec(env, txBuffer.Length, baud).ok
      ensures events == old(events) + SendSpec(env, txBuffer.Length, baud).trace
      ensures !env.taken ==> sendTask == old(sendTask) && txBuffer[..] == old(txBuffer[..])
      ensures env.taken ==> sendTask.None? && txBuffer[..] == TxAfterSend(env.render, txBuffer.Length)
    {
      if !env.taken {
        return false;
      }
      events := events + [Take];
      var size := txBuffer.Length;
      RenderInto(env.render);
      var len := RenderLen(env.render);
      if len < 0 || len >= size - 3 {
        assert txBuffer[..] == TxAfterSend(env.render, size);
        sendTask := None;
        events := events + [Give];
        return false;
      }
      if len > 0 {
        ok := SendFramed(env, len);
        return ok;
      }
      sendTask := None;
      events := events + [Give];
      return false;
    }

    /** The sendable path of esp8266_SendAT: CR LF after the text, the send
        task registered, and the framed command handed to the DMA. */
    method SendFramed(env: SendEnv, len: int) returns (ok: bool)
      requires Valid() && Sendable(env.render, txBuffer.Length) && len == |env.render.text|
      requires txBuffer[..] == RenderedBuffer(env.render, txBuffer.Length)
      modifies this`events, this`sendTask, txBuffer
      ensures Valid()
      ensures ok == TransmitSpec(env, Framed(env.render.text), baud).ok
      ensures events == old(events) + TransmitSpec(env, Framed(env.render.text), baud).trace
      ensures sendTask.None? && txBuffer[..] == TxAfterSend(env.render, txBuffer.Length)
    {
      var size := txBuffer.Length;
      TerminateLine(len);
      assert txBuffer[..] == TxAfterSend(env.render, size);
      sendTask := Some(env.self);
      var frame := txBuffer[..len + 2];
      assert frame == Framed(env.render.text) by {
        SendBufferFraming(env.render, size);
      }
      ok := TransmitFrame(env, frame);
    }

    /** HAL_UART_Transmit_DMA of the framed command, the wait for the
        transmit-complete notification, and the common exit. */
    method TransmitFrame(env: SendEnv, frame: seq<char>) returns (ok: bool)
      requires 0 < |frame| < 0x1_0000
      requires baud > 0
      modifies this`events, this`sendTask
      ensures ok == TransmitSpec(env, frame, baud).ok
      ensures events == old(events) + TransmitSpec(env, frame, baud).trace
      ensures sendTask.None?
    {
      events := events + [Transmit(frame)];
      if !env.dmaOk {
        sendTask := None;
        events := events + [Give];
        return false;
      }
      if env.notifyAfter.Some? && env.notifyAfter.value <= TimeoutMs(|frame|, baud) {
        events := events + [Give];
        sendTask := None;
        return true;
      }
      if env.busyTx {
        events := events + [Abort];
      }
      sendTask := None;
      events := events + [Give];
      return false;
    }

    /** memset of the transmit buffer followed by vsnprintf into it. */
    method RenderInto(r: Render)
      modifies txBuffer
      ensures txBuffer[..] == RenderedBuffer(r, txBuffer.Length)
    {
      var rendered := RenderedBuffer(r, txBuffer.Length);
      forall i | 0 <= i < txBuffer.Length {
        txBuffer[i] := rendered[i];
      }
    }

    /** Writes CR, LF and NUL after a sendable rendered text. */
    method TerminateLine(len: nat)
      requires len + 2 < txBuffer.Length
      modifies txBuffer
      ensures txBuffer[..] == old(txBuffer[..])[len := '\r'][len + 1 := '\n'][len + 2 := '\0']
    {
      txBuffer[len] := '\r';
      txBuffer[len + 1] := '\n';
      txBuffer[len + 2] := '\0';
    }

    /** esp8266_ConnectModeChange. The mode is checked, the mutex taken, the
        command "AT+CWMODE=<mode>" sent while the mutex is held (so the inner
        take of the recursive mutex succeeds), and the mutex given back. The
        requested mode is returned whatever the send did. */
    method ConnectModeChange(mode: int, taken: bool, inner: SendEnv) returns (r: int)
      requires Valid()
      modifies this`events, this`sendTask, txBuffer
      ensures Valid()
      ensures r == (if mode in {STATION, SOFTAP, STATION_SOFTAP} && taken then mode else ESP_ERROR)
      ensures !(mode in {STATION, SOFTAP, STATION_SOFTAP} && taken) ==>
                events == old(events) && sendTask == old(sendTask) && txBuffer[..] == old(txBuffer[..])
      ensures mode in {STATION, SOFTAP, STATION_SOFTAP} && taken ==>
                events == old(events) + [Take] +
                  SendSpec(ModeCommandEnv(mode, inner), txBuffer.Length, baud).trace + [Give]
      ensures mode in {STATION, SOFTAP, STATION_SOFTAP} && taken ==>
                sendTask.None? && txBuffer[..] == TxAfterSend(Rendered(ModeCommand(mode)), txBuffer.Length)
    {
      if mode != STATION && mode != STATION_SOFTAP && mode != SOFTAP {
        return ESP_ERROR;
      }
      if !taken {
        return ESP_ERROR;
      }
      events := events + [Take];
      var _ := SendAT(ModeCommandEnv(mode, inner));
      events := events + [Give];
      return mode;
    }
  }

  /** The "AT+CWMODE=<mode>" command text. */
  function ModeCommand(mode: nat): seq<char>
  {
    "AT+CWMODE=" + AtParser.Dec(mode)
  }

  /** The inner esp8266_SendAT("%s", atCommand) call: the recursive mutex is
      already held by the caller, so its take succeeds. */
  function ModeCommandEnv(mode: nat, inner: SendEnv): (e: SendEnv)
    ensures e.taken
  {
    inner.(taken := true, render := Rendered(ModeCommand(mode)))
  }

  /** A valid mode change holds the mutex around the inner send and gives it
      back: the trace opens with two takes and closes with two gives. */
  lemma ModeChangeLockBalanced(mode: nat, inner: SendEnv, txSize: nat, baud: nat)
    requires baud > 0
    requires txSize <= 0x1_0000
    ensures var tr := [Take] + SendSpec(ModeCommandEnv(mode, inner), txSize, baud).trace + [Give];
      CountOf(tr, Take) == 2 && CountOf(tr, Give) == 2 && tr[0] == Take && tr[|tr| - 1] == Give
  {
    var env := ModeCommandEnv(mode, inner);
    var t := SendSpec(env, txSize, baud).trace;
    SendLockBalanced(env, txSize, baud);
    CountOfAppend([Take] + t, [Give], Take);
    CountOfAppend([Take] + t, [Give], Give);
    CountOfAppend([Take], t, Take);
    CountOfAppend([Take], t, Give);
  }

  /** The mode command of a valid mode always fits a 32-byte snprintf buffer
      and is sendable through a transmit buffer of COMMAND_BUFFER bytes. */
  lemma ModeCommandFits(mode: nat)
    requires mode in {STATION, SOFTAP, STATION_SOFTAP}
    ensures |ModeCommand(mode)| == 11 < 32
    ensures Sendable(Rendered(ModeCommand(mode)), COMMAND_BUFFER)
  {
  }
}
