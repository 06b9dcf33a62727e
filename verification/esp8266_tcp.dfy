/** Initialisation of the TCP subsystem (Hardware/esp8266_tcp.c): a fixed
    sequence of query and set exchanges with the module, each of which may
    fail, ending in a reset of the static connection handle.

    The outcome of every exchange is an input: whether esp8266_SendAT sent
    the command, whether esp8266_WaitResponse saw "OK", and what
    at_extractString_between_quotes / at_extractNum extracted. */
module EspTcp {
  import opened Common

  /** esp_tcp_err_t. */
  datatype TcpErr =
    | TcpOk
    | ErrTimeout
    | ErrBusy
    | ErrConnectFail
    | ErrNoResponse
    | ErrInvalidArgs

  function Code(e: TcpErr): (c: int)
    ensures -5 <= c <= 0
    ensures c == 0 <==> e == TcpOk
  {
    match e
    case TcpOk => 0
    case ErrTimeout => -1
    case ErrBusy => -2
    case ErrConnectFail => -3
    case ErrNoResponse => -4
    case ErrInvalidArgs => -5
  }

  /** esp_tcp_state_t. */
  datatype TcpState = Disconnected | Connecting | Connected | Disconnecting | StateError

  const HOST_SIZE: nat := 64
  const REMOTE_IP_SIZE: nat := 16

  /** The commands esp8266_tcp_Init may send. */
  datatype Cmd = CwjapQuery | CipmuxQuery | CipmuxSet | CipmodeQuery | CipmodeSet

  function Text(c: Cmd): string
  {
    match c
    case CwjapQuery => "AT+CWJAP?"
    case CipmuxQuery => "AT+CIPMUX?"
    case CipmuxSet => "AT+CIPMUX=0"
    case CipmodeQuery => "AT+CIPMODE?"
    case CipmodeSet => "AT+CIPMODE=0"
  }

  /** Position of a command in the fixed exchange order. */
  function Rank(c: Cmd): nat
  {
    match c
    case CwjapQuery => 0
    case CipmuxQuery => 1
    case CipmuxSet => 2
    case CipmodeQuery => 3
    case CipmodeSet => 4
  }

  /** One exchange: the command was sent, and "OK" was seen afterwards. */
  datatype Exchange = Exchange(sent: bool, answered: bool)

  /** Everything esp8266_tcp_Init learns from the module. */
  datatype TcpEnv = TcpEnv(
    cwjap: Exchange,
    ssid: Option<string>,       // SSID after "+CWJAP:", None if not extracted
    wifiSsid: string,           // hesp8266.WifiSSID
    cipmuxQuery: Exchange,
    cipmux: Option<u32>,        // number after "+CIPMUX:", None if not extracted
    cipmuxSet: Exchange,
    cipmodeQuery: Exchange,
    cipmode: Option<u32>,
    cipmodeSet: Exchange)

  function ExchangeOf(e: TcpEnv, c: Cmd): Exchange
  {
    match c
    case CwjapQuery => e.cwjap
    case CipmuxQuery => e.cipmuxQuery
    case CipmuxSet => e.cipmuxSet
    case CipmodeQuery => e.cipmodeQuery
    case CipmodeSet => e.cipmodeSet
  }

  /** The result of the call and the commands it sent, in order. */
  datatype InitOutcome = InitOutcome(err: TcpErr, sent: seq<Cmd>)

  /** Result of one stage: None to go on to the next stage. */
  datatype Stage = Stage(stop: Option<TcpErr>, sent: seq<Cmd>)

  /** The "+CWJAP?" stage: the station must be joined to the configured AP. */
  function JoinStage(e: TcpEnv): Stage
  {
    if !e.cwjap.sent then Stage(Some(ErrTimeout), [CwjapQuery])
    else if !e.cwjap.answered || e.ssid.None? then Stage(Some(ErrNoResponse), [CwjapQuery])
    else if e.ssid.value != e.wifiSsid then Stage(Some(ErrConnectFail), [CwjapQuery])
    else Stage(None, [CwjapQuery])
  }

  /** A query-then-clear stage (CIPMUX and CIPMODE): a reported 0 is kept, a
      reported 1 is cleared with the set command, anything else fails. */
  function ZeroStage(query: Exchange, value: Option<u32>, clear: Exchange, q: Cmd, s: Cmd): Stage
  {
    if !query.sent then Stage(Some(ErrTimeout), [q])
    else if !query.answered then Stage(Some(ErrNoResponse), [q])
    else if value == Some(1) then
      if !clear.sent then Stage(Some(ErrTimeout), [q, s])
      else if !clear.answered then Stage(Some(ErrNoResponse), [q, s])
      else Stage(None, [q, s])
    else if value == Some(0) then Stage(None, [q])
    else Stage(Some(ErrNoResponse), [q])
  }

  /** esp8266_tcp_Init as a value: the stages in order, the first failure
      ending the call. */
  function InitSpec(e: TcpEnv): InitOutcome
  {
    var join := JoinStage(e);
    if join.stop.Some? then InitOutcome(join.stop.value, join.sent)
    else
      var mux := ZeroStage(e.cipmuxQuery, e.cipmux, e.cipmuxSet, CipmuxQuery, CipmuxSet);
      if mux.stop.Some? then InitOutcome(mux.stop.value, join.sent + mux.sent)
      else
        var mode := ZeroStage(e.cipmodeQuery, e.cipmode, e.cipmodeSet, CipmodeQuery, CipmodeSet);
        if mode.stop.Some? then InitOutcome(mode.stop.value, join.sent + mux.sent + mode.sent)
        else InitOutcome(TcpOk, join.sent + mux.sent + mode.sent)
  }

  /** A query-then-clear exchange that leaves the setting at 0. */
  predicate Settled(query: Exchange, value: Option<u32>, clear: Exchange)
  {
    query.sent && query.answered &&
    (value == Some(0) || (value == Some(1) && clear.sent && clear.answered))
  }

  /** The station is joined to the configured access point. */
  predicate Joined(e: TcpEnv)
  {
    e.cwjap.sent && e.cwjap.answered && e.ssid == Some(e.wifiSsid)
  }

  /** The commands go out in the fixed order CWJAP?, CIPMUX?, [CIPMUX=0],
      CIPMODE?, [CIPMODE=0], starting with CWJAP?. */
  lemma InitOrder(e: TcpEnv)
    ensures var s := InitSpec(e).sent;
      1 <= |s| <= 5 && s[0] == CwjapQuery &&
      forall i, j :: 0 <= i < j < |s| ==> Rank(s[i]) < Rank(s[j])
  {
  }

  /** Initialisation succeeds exactly when the station is joined and both
      settings end at 0. */
  lemma InitOkIff(e: TcpEnv)
    ensures InitSpec(e).err == TcpOk <==>
      Joined(e) && Settled(e.cipmuxQuery, e.cipmux, e.cipmuxSet) &&
      Settled(e.cipmodeQuery, e.cipmode, e.cipmodeSet)
  {
  }

  /** The first failure ends the call: the failing exchange is the last
      command sent. ESP_TCP_ERR_TIMEOUT is returned exactly when that command
      could not be sent; every other failure happened after it was sent. */
  lemma InitFailsAtLastCommand(e: TcpEnv)
    ensures var o := InitSpec(e);
      (o.err == ErrTimeout <==> !ExchangeOf(e, o.sent[|o.sent| - 1]).sent) &&
      (o.err != TcpOk ==> forall i :: 0 <= i < |o.sent| - 1 ==>
         ExchangeOf(e, o.sent[i]).sent && ExchangeOf(e, o.sent[i]).answered)
  {
  }

  /** ESP_TCP_ERR_CONNECT_FAIL is returned exactly when the SSID extracted
      after "+CWJAP:" differs from the configured one. */
  lemma InitConnectFailIff(e: TcpEnv)
    ensures InitSpec(e).err == ErrConnectFail <==>
      e.cwjap.sent && e.cwjap.answered && e.ssid.Some? && e.ssid.value != e.wifiSsid
  {
  }

  /** "AT+CIPMUX=0" is sent exactly when the station is joined and the module
      reported CIPMUX 1; "AT+CIPMODE=0" exactly when, in addition, CIPMUX
      was settled and CIPMODE was reported as 1. */
  lemma InitSetsOnlyOnOne(e: TcpEnv)
    ensures CipmuxSet in InitSpec(e).sent <==>
      Joined(e) && e.cipmuxQuery.sent && e.cipmuxQuery.answered && e.cipmux == Some(1)
    ensures CipmodeSet in InitSpec(e).sent <==>
      Joined(e) && Settled(e.cipmuxQuery, e.cipmux, e.cipmuxSet) &&
      e.cipmodeQuery.sent && e.cipmodeQuery.answered && e.cipmode == Some(1)
  {
  }

  /** esp_tcp_handle_t, the static htcp8266. */
  class TcpHandle {
    var isConnected: bool
    var connId: u8
    var port: u16
    var host: array<char>
    var remoteIp: array<char>
    var state: TcpState
    var remain: u8

    ghost predicate Valid()
      reads this
    {
      host.Length == HOST_SIZE && remoteIp.Length == REMOTE_IP_SIZE && host != remoteIp
    }

    /** The zero-initialised static handle. */
    constructor ()
      ensures Valid() && fresh(host) && fresh(remoteIp)
      ensures !isConnected && connId == 0 && port == 0 && remain == 0 && state == Disconnected
      ensures host[..] == seq(HOST_SIZE, _ => '\0') && remoteIp[..] == seq(REMOTE_IP_SIZE, _ => '\0')
    {
      isConnected := false;
      connId := 0;
      port := 0;
      host := new char[HOST_SIZE](_ => '\0');
      remoteIp := new char[REMOTE_IP_SIZE](_ => '\0');
      state := Disconnected;
      remain := 0;
    }

    /** The success tail of esp8266_tcp_Init. The state field is not
        assigned. */
    method Reset()
      requires Valid()
      modifies this, host, remoteIp
      ensures Valid() && host == old(host) && remoteIp == old(remoteIp)
      ensures !isConnected && connId == 0xFF && remain == 0xFF && port == 0 && state == old(state)
      ensures host[..] == seq(HOST_SIZE, _ => '\0') && remoteIp[..] == seq(REMOTE_IP_SIZE, _ => '\0')
    {
      isConnected := false;
      connId := 0xFF;
      remain := 0xFF;
      port := 0;
      forall i | 0 <= i < HOST_SIZE {
        host[i] := '\0';
      }
      forall i | 0 <= i < REMOTE_IP_SIZE {
        remoteIp[i] := '\0';
      }
    }
  }

  /** esp8266_tcp_Init. Returns the result and the commands sent; the handle
      is written only on success. */
  method Init(h: TcpHandle, e: TcpEnv) returns (err: TcpErr, sent: seq<Cmd>)
    requires h.Valid()
    modifies h, h.host, h.remoteIp
    ensures h.Valid() && h.host == old(h.host) && h.remoteIp == old(h.remoteIp)
    ensures err == InitSpec(e).err && sent == InitSpec(e).sent
    ensures err != TcpOk ==>
              h.isConnected == old(h.isConnected) && h.connId == old(h.connId) &&
              h.port == old(h.port) && h.remain == old(h.remain) && h.state == old(h.state) &&
              h.host[..] == old(h.host[..]) && h.remoteIp[..] == old(h.remoteIp[..])
    ensures err == TcpOk ==>
              !h.isConnected && h.connId == 0xFF && h.remain == 0xFF && h.port == 0 &&
              h.state == old(h.state) &&
              h.host[..] == seq(HOST_SIZE, _ => '\0') && h.remoteIp[..] == seq(REMOTE_IP_SIZE, _ => '\0')
  {
    var outVal: u32 := 0xFF;
    // Is the station joined to the configured access point?
    sent := [CwjapQuery];
    if !e.cwjap.sent {
      return ErrTimeout, sent;
    }
    if !e.cwjap.answered {
      return ErrNoResponse, sent;
    }
    if e.ssid.None? {
      return ErrNoResponse, sent;
    }
    if e.ssid.value != e.wifiSsid {
      return ErrConnectFail, sent;
    }
    // Single-connection mode.
    sent := sent + [CipmuxQuery];
    if !e.cipmuxQuery.sent {
      return ErrTimeout, sent;
    }
    if !e.cipmuxQuery.answered {
      return ErrNoResponse, sent;
    }
    var resB := e.cipmux.Some?;
    if resB {
      outVal := e.cipmux.value;
    }
    if resB && outVal == 1 {
      sent := sent + [CipmuxSet];
      if !e.cipmuxSet.sent {
        return ErrTimeout, sent;
      }
      if !e.cipmuxSet.answered {
        return ErrNoResponse, sent;
      }
    }
    if !resB || (outVal != 1 && outVal != 0) {
      return ErrNoResponse, sent;
    }
    // Normal (non-passthrough) transfer mode.
    sent := sent + [CipmodeQuery];
    if !e.cipmodeQuery.sent {
      return ErrTimeout, sent;
    }
    if !e.cipmodeQuery.answered {
      return ErrNoResponse, sent;
    }
    var resA := e.cipmode.Some?;
    if resA {
      outVal := e.cipmode.value;
    }
    if resA && outVal == 1 {
      sent := sent + [CipmodeSet];
      if !e.cipmodeSet.sent {
        return ErrTimeout, sent;
      }
      if !e.cipmodeSet.answered {
        return ErrNoResponse, sent;
      }
    }
    if !resA || (outVal != 1 && outVal != 0) {
      return ErrNoResponse, sent;
    }
    h.Reset();
    return TcpOk, sent;
  }
}
