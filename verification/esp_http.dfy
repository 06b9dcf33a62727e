/** HTTP/1.1 request building and response handling (Hardware/esp_http.c).

    C strings are character arrays holding a NUL somewhere; their contents
    (`CString`) are the characters before the first NUL. A string argument
    is an `Option<string>` whose value holds no NUL (None is NULL). Reads
    past a string's terminator see NUL bytes (`At`). */
module EspHttp {
  import opened Common
  import opened ByteMatch
  import AtParser
  import EspTcp

  /* ---------------------------------------------------------------- */
  /* Constants and types of Hardware/esp_http.h                       */
  /* ---------------------------------------------------------------- */

  const HTTP_HOST_MAX_LEN: nat := 64
  const HTTP_PATH_MAX_LEN: nat := 256
  const HTTP_EXTRA_HEAD_MAX_LEN: nat := 128
  const HTTP_METHOD_GET: u8 := 0
  const HTTP_METHOD_POST: u8 := 1
  const HTTP_VERSION_1_1: u8 := 0

  /** esp_http_err_t, with ESP_HTTP_ERR_UNKNOWN, which http_json_getString
      returns although the header does not declare it. */
  datatype HttpErr =
    | HttpOk
    | ErrSetVal
    | ErrInvalidArgs
    | ErrBufOverflow
    | ErrOffline
    | ErrBuildReq
    | ErrSendWaitFail
    | ErrExtract
    | ErrUnknown

  /* ---------------------------------------------------------------- */
  /* C strings in character arrays                                    */
  /* ---------------------------------------------------------------- */

  /** Index of the first NUL, or the length when there is none. */
  function NulIndex(a: seq<char>): (n: nat)
    ensures n <= |a|
    ensures CStr(a[..n])
    ensures n < |a| ==> a[n] == '\0'
  {
    AtParser.IndexFrom(a, 0, {'\0'})
  }

  /** The array holds a terminated string. */
  predicate Terminated(a: seq<char>)
  {
    NulIndex(a) < |a|
  }

  /** strlen / the string a character array holds. */
  function CString(a: seq<char>): (s: string)
    ensures CStr(s) && |s| <= |a| && s == a[..|s|]
  {
    a[..NulIndex(a)]
  }

  /** A string followed by NUL reads back as that string, whatever follows. */
  lemma CStringOf(v: string, rest: seq<char>)
    requires CStr(v)
    ensures var a := v + ['\0'] + rest; Terminated(a) && CString(a) == v
  {
    var a := v + ['\0'] + rest;
    AtParser.IndexFromIs(a, 0, {'\0'}, |v|);
    assert a[..|v|] == v;
  }

  /** isspace in the C locale. */
  predicate IsSpace(c: char)
  {
    c == ' ' || c == '\t' || c == '\n' || c == 11 as char || c == 12 as char || c == '\r'
  }

  /* ---------------------------------------------------------------- */
  /* safety_strncpy                                                   */
  /* ---------------------------------------------------------------- */

  /** The prefix of `source` that fits a buffer of `length` bytes with its
      terminator. */
  function Truncated(source: string, length: nat): (t: string)
    requires length > 0
    ensures |t| == Min(|source|, length - 1) && t == source[..|t|]
  {
    source[..Min(|source|, length - 1)]
  }

  /** A string shorter than the buffer is stored whole. */
  lemma TruncatedWhole(source: string, length: nat)
    requires |source| < length
    ensures Truncated(source, length) == source
  {
  }

  /** safety_strncpy: copy at most length - 1 bytes and terminate; nothing
      happens for a NULL source or a zero length. */
  method SafetyStrncpy(dest: array<char>, source: Option<string>, length: nat)
    requires length <= dest.Length
    requires source.Some? ==> CStr(source.value)
    modifies dest
    ensures source.None? || length == 0 ==> dest[..] == old(dest[..])
    ensures source.Some? && length > 0 ==>
              var t := Truncated(source.value, length);
              dest[..] == t + ['\0'] + old(dest[..])[|t| + 1..] &&
              Terminated(dest[..]) && CString(dest[..]) == t
  {
    if source.None? || length == 0 {
      return;
    }
    var s := source.value;
    var n := if |s| < length - 1 then |s| else length - 1;
    forall i | 0 <= i < n {
      dest[i] := s[i];
    }
    dest[n] := '\0';
    assert dest[..] == s[..n] + ['\0'] + old(dest[..])[n + 1..];
    CStringOf(s[..n], old(dest[..])[n + 1..]);
  }

  /* ---------------------------------------------------------------- */
  /* The request object                                               */
  /* ---------------------------------------------------------------- */

  /** esp_http_t. */
  class HttpRequest {
    var host: array<char>
    var path: array<char>
    var extraHeaders: array<char>
    var httpMethod: u8
    var httpVersion: u8
    var totalLen: u16

    /** The three buffers exist with their declared sizes. */
    ghost predicate Shaped()
      reads this
    {
      host.Length == HTTP_HOST_MAX_LEN && path.Length == HTTP_PATH_MAX_LEN &&
      extraHeaders.Length == HTTP_EXTRA_HEAD_MAX_LEN &&
      host != path && host != extraHeaders && path != extraHeaders
    }

    /** An initialised request: every buffer holds a terminated string. */
    ghost predicate Valid()
      reads this, host, path, extraHeaders
    {
      Shaped() && Terminated(host[..]) && Terminated(path[..]) && Terminated(extraHeaders[..])
    }

    function Host(): string
      reads this, host
    {
      CString(host[..])
    }

    function Path(): string
      reads this, path
    {
      CString(path[..])
    }

    function Extra(): string
      reads this, extraHeaders
    {
      CString(extraHeaders[..])
    }

    constructor ()
      ensures Shaped() && fresh(host) && fresh(path) && fresh(extraHeaders)
    {
      host := new char[HTTP_HOST_MAX_LEN];
      path := new char[HTTP_PATH_MAX_LEN];
      extraHeaders := new char[HTTP_EXTRA_HEAD_MAX_LEN];
    }
  }

  /** http_Init: NULL is rejected; otherwise every field is zeroed, the
      method is POST for a non-zero argument and GET for zero, and the
      version is HTTP/1.1. */
  method Init(h: HttpRequest?, httpMethod: u8) returns (r: HttpErr)
    requires h != null ==> h.Shaped()
    modifies h, if h != null then {h.host, h.path, h.extraHeaders} else {}
    ensures r == (if h == null then ErrInvalidArgs else HttpOk)
    ensures h != null ==>
              h.host == old(h.host) && h.path == old(h.path) && h.extraHeaders == old(h.extraHeaders) &&
              h.Valid() &&
              h.host[..] == seq(HTTP_HOST_MAX_LEN, _ => '\0') &&
              h.path[..] == seq(HTTP_PATH_MAX_LEN, _ => '\0') &&
              h.extraHeaders[..] == seq(HTTP_EXTRA_HEAD_MAX_LEN, _ => '\0') &&
              h.Host() == "" && h.Path() == "" && h.Extra() == "" &&
              h.httpMethod == (if httpMethod != 0 then HTTP_METHOD_POST else HTTP_METHOD_GET) &&
              h.httpVersion == HTTP_VERSION_1_1 && h.totalLen == 0
  {
    if h == null {
      return ErrInvalidArgs;
    }
    forall i | 0 <= i < HTTP_HOST_MAX_LEN {
      h.host[i] := '\0';
    }
    forall i | 0 <= i < HTTP_PATH_MAX_LEN {
      h.path[i] := '\0';
    }
    forall i | 0 <= i < HTTP_EXTRA_HEAD_MAX_LEN {
      h.extraHeaders[i] := '\0';
    }
    h.totalLen := 0;
    if httpMethod != 0 {
      h.httpMethod := HTTP_METHOD_POST;
    } else {
      h.httpMethod := HTTP_METHOD_GET;
    }
    h.httpVersion := HTTP_VERSION_1_1;
    CStringOf([], seq(HTTP_HOST_MAX_LEN - 1, _ => '\0'));
    CStringOf([], seq(HTTP_PATH_MAX_LEN - 1, _ => '\0'));
    CStringOf([], seq(HTTP_EXTRA_HEAD_MAX_LEN - 1, _ => '\0'));
    assert h.host[..] == [] + ['\0'] + seq(HTTP_HOST_MAX_LEN - 1, _ => '\0');
    assert h.path[..] == [] + ['\0'] + seq(HTTP_PATH_MAX_LEN - 1, _ => '\0');
    assert h.extraHeaders[..] == [] + ['\0'] + seq(HTTP_EXTRA_HEAD_MAX_LEN - 1, _ => '\0');
    return HttpOk;
  }

  /** http_SetHost: the host is stored truncated to 63 bytes. An empty host
      is stored and reported as ESP_HTTP_ERR_SET_VAL; blanks are accepted. */
  method SetHost(h: HttpRequest?, host: Option<string>) returns (r: HttpErr)
    requires h != null ==> h.Valid()
    requires host.Some? ==> CStr(host.value)
    modifies if h != null then {h.host} else {}
    ensures h != null ==> h.Valid()
    ensures h == null || host.None? ==> r == ErrInvalidArgs
    ensures h != null && host.None? ==> h.host[..] == old(h.host[..])
    ensures h != null && host.Some? ==>
              var t := Truncated(host.value, HTTP_HOST_MAX_LEN);
              h.host[..] == t + ['\0'] + old(h.host[..])[|t| + 1..] &&
              h.Host() == t &&
              r == (if host.value == "" then ErrSetVal else HttpOk)
  {
    if h == null || host.None? {
      return ErrInvalidArgs;
    }
    SafetyStrncpy(h.host, host, HTTP_HOST_MAX_LEN);
    if |CString(h.host[..])| == 0 {
      return ErrSetVal;
    }
    return HttpOk;
  }

  /** http_SetPath: a path must start with '/'; it is stored truncated to
      255 bytes. Since a stored path keeps its '/', ESP_HTTP_ERR_SET_VAL is
      never returned. */
  method SetPath(h: HttpRequest?, path: Option<string>) returns (r: HttpErr)
    requires h != null ==> h.Valid()
    requires path.Some? ==> CStr(path.value)
    modifies if h != null then {h.path} else {}
    ensures h != null ==> h.Valid()
    ensures r != ErrSetVal
    ensures r == ErrInvalidArgs <==> h == null || path.None? || At(path.value, 0) != '/'
    ensures h != null && r == ErrInvalidArgs ==> h.path[..] == old(h.path[..])
    ensures r == HttpOk ==>
              var t := Truncated(path.value, HTTP_PATH_MAX_LEN);
              h.path[..] == t + ['\0'] + old(h.path[..])[|t| + 1..] &&
              h.Path() == t && |t| >= 1 && t[0] == '/'
  {
    if h == null || path.None? {
      return ErrInvalidArgs;
    }
    if At(path.value, 0) != '/' {
      return ErrInvalidArgs;
    }
    SafetyStrncpy(h.path, path, HTTP_PATH_MAX_LEN);
    return HttpOk;
  }

  /* ---------------------------------------------------------------- */
  /* http_AddHeader                                                   */
  /* ---------------------------------------------------------------- */

  /** The header block after appending one header: headers are separated by
      CR LF, the first one is not preceded by it. */
  function AppendHeader(extra: string, header: string): string
  {
    extra + (if |extra| > 0 then "\r\n" else "") + header
  }

  /** The accumulated block is exactly the headers joined by CR LF (for
      non-empty headers). */
  function JoinHeaders(hs: seq<string>): string
  {
    if hs == [] then "" else AppendHeader(JoinHeaders(hs[..|hs| - 1]), hs[|hs| - 1])
  }

  /** Each accepted header extends the block by itself and, after the first,
      a CR LF: the block's length is the sum of the header lengths plus two
      per separator. */
  lemma {:induction false} JoinHeadersLength(hs: seq<string>)
    requires forall i :: 0 <= i < |hs| ==> |hs[i]| > 0
    ensures |JoinHeaders(hs)| == SumLengths(hs) + (if hs == [] then 0 else 2 * (|hs| - 1))
  {
    if hs != [] {
      JoinHeadersLength(hs[..|hs| - 1]);
      if |hs| > 1 {
        assert |hs[..|hs| - 1][0]| > 0;
        JoinNonEmpty(hs[..|hs| - 1]);
      }
    }
  }

  lemma {:induction false} JoinNonEmpty(hs: seq<string>)
    requires hs != [] && |hs[0]| > 0
    ensures |JoinHeaders(hs)| > 0
  {
    if |hs| > 1 {
      JoinNonEmpty(hs[..|hs| - 1]);
    }
  }

  function SumLengths(hs: seq<string>): nat
  {
    if hs == [] then 0 else SumLengths(hs[..|hs| - 1]) + |hs[|hs| - 1]|
  }

  /** http_AddHeader: the header is appended (after CR LF unless the block
      is empty) when the old block, the header and two bytes stay below 128;
      otherwise ESP_HTTP_ERR_BUF_OVRFLW and the block is unchanged. */
  method AddHeader(h: HttpRequest?, header: Option<string>) returns (r: HttpErr)
    requires h != null ==> h.Valid()
    requires header.Some? ==> CStr(header.value)
    modifies if h != null then {h.extraHeaders} else {}
    ensures h != null ==> h.Valid()
    ensures r == ErrInvalidArgs <==> h == null || header.None?
    ensures h != null && header.Some? ==>
              (r == ErrBufOverflow <==>
                 |old(h.Extra())| + |header.value| + 2 >= HTTP_EXTRA_HEAD_MAX_LEN)
    ensures h != null && r != HttpOk ==> h.extraHeaders[..] == old(h.extraHeaders[..])
    ensures r == HttpOk ==>
              var e := AppendHeader(old(h.Extra()), header.value);
              |e| < HTTP_EXTRA_HEAD_MAX_LEN &&
              h.extraHeaders[..] == e + ['\0'] + old(h.extraHeaders[..])[|e| + 1..] &&
              h.Extra() == e
  {
    if h == null || header.None? {
      return ErrInvalidArgs;
    }
    var cur := CString(h.extraHeaders[..]);
    var hdr := header.value;
    if |cur| + |hdr| + 2 >= HTTP_EXTRA_HEAD_MAX_LEN {
      return ErrBufOverflow;
    }
    var add := (if |cur| > 0 then "\r\n" else "") + hdr;
    Strcat(h.extraHeaders, |cur|, add);
    assert cur + add == AppendHeader(cur, hdr);
    assert h.extraHeaders[..] == (cur + add) + ['\0'] + old(h.extraHeaders[..])[|cur + add| + 1..];
    CStringOf(cur + add, old(h.extraHeaders[..])[|cur + add| + 1..]);
    return HttpOk;
  }

  /** strcat into a buffer whose string ends at `at`: the added bytes and a
      new terminator overwrite the old terminator and what followed it. */
  method Strcat(a: array<char>, at: nat, add: string)
    requires at + |add| < a.Length
    requires CStr(a[..at]) && CStr(add)
    modifies a
    ensures a[..] == old(a[..])[..at] + add + ['\0'] + old(a[..])[at + |add| + 1..]
  {
    forall i | 0 <= i < |add| {
      a[at + i] := add[i];
    }
    a[at + |add|] := '\0';
  }

  /* ---------------------------------------------------------------- */
  /* http_RequestBuild                                                */
  /* ---------------------------------------------------------------- */

  /** The GET request for a path, host and header block: request line,
      Host, Connection: close, the extra headers, and the empty line that
      ends the header section (section 3 of RFC 7230). */
  function RequestText(path: string, host: string, extra: string): string
  {
    "GET " + path + " HTTP/1.1\r\n" +
    "Host: " + host + "\r\n" +
    "Connection: close\r\n" +
    (if extra != "" then extra + "\r\n" else "") +
    "\r\n"
  }

  /** The size the pre-check computes; it does not count the CR LF after a
      non-empty header block. */
  function MinNeed(path: string, host: string, extra: string): nat
  {
    4 + |path| + 11 + 6 + |host| + 2 + 19 + |extra| + 2 + 1
  }

  /** The request is one byte shorter than the pre-check's size with no
      extra headers and one byte longer with some. */
  lemma RequestLength(path: string, host: string, extra: string)
    ensures |RequestText(path, host, extra)| ==
            if extra == "" then MinNeed(path, host, extra) - 1 else MinNeed(path, host, extra) + 1
  {
  }

  /** The request opens with the request line and closes with the empty
      line. */
  lemma RequestFraming(path: string, host: string, extra: string)
    ensures var r := RequestText(path, host, extra);
      |r| >= 4 && r[..4] == "GET " && r[|r| - 4..] == "\r\n\r\n" &&
      r[4..4 + |path|] == path && r[4 + |path|..4 + |path| + 11] == " HTTP/1.1\r\n"
  {
  }

  /** What http_RequestBuild returns, in the order it checks. */
  function BuildResult(argsOk: bool, connected: bool, path: string, host: string, extra: string,
                       httpMethod: u8, size: nat): (r: HttpErr)
    ensures r == ErrBuildReq <==>
              argsOk && connected && path != "" && host != "" && httpMethod != HTTP_METHOD_POST &&
              extra != "" && MinNeed(path, host, extra) + 1 == size
    ensures r == HttpOk ==> |RequestText(path, host, extra)| < size
  {
    if !argsOk then ErrInvalidArgs
    else if !connected then ErrOffline
    else if host == "" || path == "" then ErrInvalidArgs
    else if httpMethod == HTTP_METHOD_POST then ErrInvalidArgs
    else if MinNeed(path, host, extra) >= size then ErrBufOverflow
    else if |RequestText(path, host, extra)| >= size then ErrBuildReq
    else HttpOk
  }

  /** With no extra headers the rendering never overflows once the
      pre-check passed. */
  lemma NoBuildReqWithoutHeaders(path: string, host: string, httpMethod: u8, size: nat)
    ensures BuildResult(true, true, path, host, "", httpMethod, size) != ErrBuildReq
  {
  }

  /** The connection check of http_RequestBuild. */
  predicate Online(tcp: EspTcp.TcpHandle)
    reads tcp
  {
    tcp.isConnected && tcp.state == EspTcp.Connected
  }

  /** http_RequestBuild. On success the buffer holds the request and its
      terminator and total_len its length; a render that does not fit is
      left truncated to size - 1 bytes; every earlier failure leaves the
      buffer and total_len untouched. */
  method RequestBuild(h: HttpRequest?, tcp: EspTcp.TcpHandle, outBuf: array?<char>, outBufSize: u16)
    returns (r: HttpErr)
    requires h != null ==> h.Valid()
    requires outBuf != null ==> outBufSize <= outBuf.Length
    requires h != null && outBuf != null ==>
               outBuf != h.host && outBuf != h.path && outBuf != h.extraHeaders
    modifies h, outBuf
    ensures h != null ==>
              h.host == old(h.host) && h.path == old(h.path) && h.extraHeaders == old(h.extraHeaders) &&
              h.httpMethod == old(h.httpMethod) && h.httpVersion == old(h.httpVersion)
    ensures h == null || outBuf == null || outBufSize == 0 ==> r == ErrInvalidArgs
    ensures h != null && outBuf != null && outBufSize > 0 ==>
              r == BuildResult(true, Online(tcp), h.Path(), h.Host(), h.Extra(), h.httpMethod, outBufSize)
    ensures r == HttpOk ==>
              var req := RequestText(h.Path(), h.Host(), h.Extra());
              h.totalLen == |req| &&
              outBuf[..] == req + ['\0'] + old(outBuf[..])[|req| + 1..]
    ensures r == ErrBuildReq ==>
              var req := RequestText(h.Path(), h.Host(), h.Extra());
              h.totalLen == old(h.totalLen) &&
              outBuf[..] == req[..outBufSize - 1] + ['\0'] + old(outBuf[..])[outBufSize..]
    ensures r != HttpOk && r != ErrBuildReq ==>
              (h != null ==> h.totalLen == old(h.totalLen)) &&
              (outBuf != null ==> outBuf[..] == old(outBuf[..]))
  {
    if h == null || outBuf == null || outBufSize == 0 {
      return ErrInvalidArgs;
    }
    if !tcp.isConnected || tcp.state != EspTcp.Connected {
      return ErrOffline;
    }
    var host := CString(h.host[..]);
    var path := CString(h.path[..]);
    var extra := CString(h.extraHeaders[..]);
    if |host| == 0 || |path| == 0 {
      return ErrInvalidArgs;
    }
    if h.httpMethod == HTTP_METHOD_POST {
      return ErrInvalidArgs;
    }
    var len;
    r, len := RenderRequest(outBuf, outBufSize, path, host, extra);
    if r == HttpOk {
      h.totalLen := len;
    }
  }

  /** The size pre-check and the snprintf of http_RequestBuild, for a path,
      host and header block already read from the request. */
  method RenderRequest(outBuf: array<char>, outBufSize: u16, path: string, host: string, extra: string)
    returns (r: HttpErr, len: u16)
    requires 0 < outBufSize <= outBuf.Length
    modifies outBuf
    ensures r == (if MinNeed(path, host, extra) >= outBufSize as int then ErrBufOverflow
                  else if |RequestText(path, host, extra)| >= outBufSize as int then ErrBuildReq
                  else HttpOk)
    ensures r == ErrBufOverflow ==> outBuf[..] == old(outBuf[..])
    ensures r == HttpOk ==>
              var req := RequestText(path, host, extra);
              len as int == |req| && outBuf[..] == req + ['\0'] + old(outBuf[..])[|req| + 1..]
    ensures r == ErrBuildReq ==>
              var req := RequestText(path, host, extra);
              outBuf[..] == req[..outBufSize - 1] + ['\0'] + old(outBuf[..])[outBufSize..]
  {
    var minNeed := 4 + |path| + 11 + 6 + |host| + 2 + 19 + |extra| + 2 + 1;
    if minNeed >= outBufSize as int {
      return ErrBufOverflow, 0;
    }
    var req := RequestText(path, host, extra);
    var n := Snprintf(outBuf, outBufSize, req);
    if n >= outBufSize as int {
      return ErrBuildReq, 0;
    }
    assert req[..|req|] == req;
    return HttpOk, n as u16;
  }

  /** snprintf of an already formatted text into a buffer of `size` bytes:
      at most size - 1 bytes and a terminator are written; the full length
      is returned. */
  method Snprintf(buf: array<char>, size: u16, text: string) returns (len: nat)
    requires 0 < size <= buf.Length
    modifies buf
    ensures len == |text|
    ensures var n := Min(|text|, size - 1);
      buf[..] == text[..n] + ['\0'] + old(buf[..])[n + 1..]
  {
    var n := if |text| < size as int - 1 then |text| else size as int - 1;
    forall i | 0 <= i < n {
      buf[i] := text[i];
    }
    buf[n] := '\0';
    return |text|;
  }

  /* ---------------------------------------------------------------- */
  /* http_extract_json_body                                           */
  /* ---------------------------------------------------------------- */

  const IPD_PREFIX: string := "+IPD,"
  const HEADER_END: string := "\r\n\r\n"

  /** Where the HTTP response starts: after "+IPD,", its digits and the
      ':' that follows them; a response without the envelope starts at 0. */
  function BodyStart(resp: string): (b: nat)
    ensures b <= |resp|
  {
    if |resp| >= 5 && resp[..5] == IPD_PREFIX then
      var p := AtParser.DigitsEnd(resp, 5);
      if At(resp, p) == ':' then p + 1 else p
    else 0
  }

  /** The message body: everything after the first empty line, or None when
      the header section never ends. */
  function JsonBody(resp: string): (r: Option<string>)
  {
    var s := BodyStart(resp);
    match Find(resp[s..], HEADER_END)
    case None => None
    case Some(f) => Some(resp[s + f + 4..])
  }

  /** The number of body bytes copied into an out_size buffer: all of them
      when they fit with their terminator, otherwise out_size - 2. */
  function BodyCopyLen(bodyLen: nat, outSize: nat): (n: nat)
    requires outSize >= 2
    ensures n < outSize
  {
    if bodyLen >= outSize - 1 then outSize - 2 else bodyLen
  }

  /** http_extract_json_body. */
  method ExtractJsonBody(resp: Option<string>, outJson: array?<char>, outSize: u16) returns (ok: bool)
    requires resp.Some? ==> CStr(resp.value)
    requires outJson != null ==> outSize <= outJson.Length
    requires outSize == 1 && resp.Some? && outJson != null ==> JsonBody(resp.value).None?
    modifies outJson
    ensures ok <==> resp.Some? && outJson != null && outSize > 0 && JsonBody(resp.value).Some?
    ensures !ok && outJson != null ==> outJson[..] == old(outJson[..])
    ensures ok ==>
              var body := JsonBody(resp.value).value;
              var n := BodyCopyLen(|body|, outSize);
              outJson[..] == body[..n] + ['\0'] + old(outJson[..])[n + 1..]
  {
    if resp.None? || outJson == null || outSize == 0 {
      return false;
    }
    var s := resp.value;
    var start := SkipEnvelope(s);
    var found := Find(s[start..], HEADER_END);
    if found.None? {
      return false;
    }
    var jsonStart := start + found.value + 4;
    var body := s[jsonStart..];
    assert JsonBody(s) == Some(body);
    var jsonLen := |s| - jsonStart;
    if jsonLen >= outSize as int - 1 {
      jsonLen := outSize as int - 2;
    }
    assert jsonLen == BodyCopyLen(|body|, outSize as int);
    CopyPrefix(outJson, body, jsonLen);
    return true;
  }

  /** The "+IPD,<n>:" check and digit scan. */
  method SkipEnvelope(s: string) returns (start: nat)
    ensures start == BodyStart(s)
  {
    start := 0;
    if |s| >= 5 && s[..5] == IPD_PREFIX {
      var p := 5;
      while p < |s| && AtParser.IsDigit(s[p])
        invariant 5 <= p <= |s|
        invariant AtParser.DigitsEnd(s, 5) == AtParser.DigitsEnd(s, p)
        decreases |s| - p
      {
        p := p + 1;
      }
      start := p;
      if At(s, p) == ':' {
        start := p + 1;
      }
    }
  }

  /** memcpy of n bytes followed by a terminator. */
  method CopyPrefix(dst: array<char>, src: seq<char>, n: nat)
    requires n <= |src| && n < dst.Length
    modifies dst
    ensures dst[..] == src[..n] + ['\0'] + old(dst[..])[n + 1..]
  {
    forall i | 0 <= i < n {
      dst[i] := src[i];
    }
    dst[n] := '\0';
  }

  /** A response whose header section ends at the first empty line yields
      exactly the bytes after it, behind the "+IPD,<n>:" envelope or not. */
  lemma BodyAfterHeaders(resp: string, envelope: string, head: string, body: string)
    requires envelope == "" || (|envelope| >= 6 && envelope[..5] == IPD_PREFIX &&
             AtParser.AllDigits(envelope[5..|envelope| - 1]) && envelope[|envelope| - 1] == ':')
    requires envelope == "" ==> !(|resp| >= 5 && resp[..5] == IPD_PREFIX)
    requires forall j :: 0 <= j < |head| ==> !MatchesAt(head + HEADER_END, HEADER_END, j)
    requires resp == envelope + head + HEADER_END + body
    ensures JsonBody(resp) == Some(body)
  {
    var e := |envelope|;
    if envelope != "" {
      assert resp[..5] == IPD_PREFIX;
      forall k | 5 <= k < e - 1 ensures AtParser.IsDigit(resp[k]) {
        assert resp[k] == envelope[5..e - 1][k - 5];
      }
      DigitsUpTo(resp, 5, e - 1);
      assert At(resp, e - 1) == ':';
    }
    assert BodyStart(resp) == e;
    var rest := resp[e..];
    var hh := head + HEADER_END;
    assert rest == hh + body;
    assert rest[..|hh|] == hh;
    assert rest[|head|..|head| + 4] == HEADER_END;
    forall j | 0 <= j < |head| ensures !MatchesAt(rest, HEADER_END, j) {
      assert !MatchesAt(hh, HEADER_END, j);
      assert j + 4 <= |hh|;
      assert rest[j..j + 4] == hh[j..j + 4] by {
        assert hh[j..j + 4] == rest[..|hh|][j..j + 4];
      }
    }
    FindIsFirstMatch(rest, HEADER_END, |head|);
    assert resp[e + |head| + 4..] == body;
  }

  /** The digit run from q reaches the first non-digit. */
  lemma DigitsUpTo(s: string, q: nat, r: nat)
    requires q <= r < |s|
    requires forall k :: q <= k < r ==> AtParser.IsDigit(s[k])
    requires !AtParser.IsDigit(s[r])
    ensures AtParser.DigitsEnd(s, q) == r
    decreases r - q
  {
    if q < r {
      DigitsUpTo(s, q + 1, r);
    }
  }

  /** Two header lines without a CR in them hold no blank line before the
      one that ends them. */
  lemma NoEarlyHeaderEnd(a: string, b: string)
    requires forall i :: 0 <= i < |a| ==> a[i] != '\r'
    requires |b| > 0 && forall i :: 0 <= i < |b| ==> b[i] != '\r'
    ensures var head := a + "\r\n" + b;
      forall j :: 0 <= j < |head| ==> !MatchesAt(head + HEADER_END, HEADER_END, j)
  {
    var head := a + "\r\n" + b;
    var hay := head + HEADER_END;
    forall j | 0 <= j < |head| ensures !MatchesAt(hay, HEADER_END, j) {
      if j < |a| {
        assert hay[j] == a[j];
      } else if j == |a| {
        assert hay[j + 2] == b[0];
      } else if j == |a| + 1 {
        assert hay[j] == '\n';
      } else {
        assert hay[j] == b[j - |a| - 2];
      }
    }
  }

  /** The example of the response envelope the module delivers. */
  lemma ExtractExample(resp: string)
    requires resp == "+IPD,13:HTTP/1.1 200 OK\r\nX:1\r\n\r\nhello"
    ensures JsonBody(resp) == Some("hello")
  {
    var status := "HTTP/1.1 200 OK";
    var field := "X:1";
    var head := status + "\r\n" + field;
    assert forall i :: 0 <= i < |status| ==> status[i] != '\r';
    assert forall i :: 0 <= i < |field| ==> field[i] != '\r';
    NoEarlyHeaderEnd(status, field);
    assert resp == "+IPD,13:" + head + HEADER_END + "hello";
    BodyAfterHeaders(resp, "+IPD,13:", head, "hello");
  }

  /* ---------------------------------------------------------------- */
  /* http_json_getString                                              */
  /* ---------------------------------------------------------------- */

  /** The characters skip_ws_and_struct steps over. */
  predicate IsStructural(c: char)
  {
    IsSpace(c) || c == ',' || c == ':' || c == '{' || c == '['
  }

  /** skip_ws_and_struct: the first position at or after p that is not
      blank, ',', ':', '{' or '[' (the terminator at the latest). */
  function SkipStruct(s: string, p: nat): (r: nat)
    requires p <= |s|
    decreases |s| - p
    ensures p <= r <= |s|
    ensures forall k :: p <= k < r ==> IsStructural(s[k])
    ensures r < |s| ==> !IsStructural(s[r])
  {
    if p < |s| && IsStructural(s[p]) then SkipStruct(s, p + 1) else p
  }

  /** Where the string value of `key` begins (just after its opening
      quote), judging only the first occurrence of the key: it must be
      preceded by '"' (so not at offset 0), followed by "\":", and the value
      after blanks and , : { [ must open with '"'. */
  function ValueStart(json: string, key: string): (r: Option<nat>)
    ensures r.Some? ==> 0 < r.value <= |json| && json[r.value - 1] == '"'
  {
    match Find(json, key)
    case None => None
    case Some(f) =>
      var e := f + |key|;
      if f == 0 || json[f - 1] != '"' || At(json, e) != '"' || At(json, e + 1) != ':' then None
      else
        var v := SkipStruct(json, e + 1);
        if At(json, v) != '"' then None else Some(v + 1)
  }

  /** The first key, from position j on, that is present and whose first
      occurrence qualifies, with its value's start. */
  function FirstHit(json: string, keys: seq<Option<string>>, j: nat): (r: Option<(nat, nat)>)
    requires j <= |keys|
    decreases |keys| - j
    ensures r.Some? ==> j <= r.value.0 < |keys| && keys[r.value.0].Some? &&
                        ValueStart(json, keys[r.value.0].value) == Some(r.value.1)
    ensures r.Some? ==> forall i :: j <= i < r.value.0 ==>
                          keys[i].None? || ValueStart(json, keys[i].value).None?
    ensures r.None? ==> forall i :: j <= i < |keys| ==>
                          keys[i].None? || ValueStart(json, keys[i].value).None?
  {
    if j == |keys| then None
    else if keys[j].Some? && ValueStart(json, keys[j].value).Some? then
      Some((j, ValueStart(json, keys[j].value).value))
    else FirstHit(json, keys, j + 1)
  }

  /** The number of value bytes the copy loop takes: up to the closing
      quote, at most `limit`. */
  function QuoteDistance(json: string, p: nat, limit: nat): (n: nat)
    decreases limit
    ensures n <= limit
    ensures forall k :: p <= k < p + n ==> At(json, k) != '"'
    ensures n < limit ==> At(json, p + n) == '"'
  {
    if limit == 0 || At(json, p) == '"' then 0 else 1 + QuoteDistance(json, p + 1, limit - 1)
  }

  /** The bytes copied into out_buf before trimming. */
  function RawValue(json: string, start: nat, outSize: nat): (v: seq<char>)
    requires outSize >= 1
    ensures |v| <= outSize - 1
  {
    var n := QuoteDistance(json, start, outSize - 1);
    seq(n, k requires 0 <= k < n => At(json, start + k))
  }

  /** Length of a value once its trailing blanks are removed. */
  function RTrimLen(v: seq<char>): (r: nat)
    ensures r <= |v|
    ensures forall k :: r <= k < |v| ==> IsSpace(v[k])
    ensures r > 0 ==> !IsSpace(v[r - 1])
  {
    if |v| == 0 || !IsSpace(v[|v| - 1]) then |v| else RTrimLen(v[..|v| - 1])
  }

  /** Number of leading blanks. */
  function LSkip(v: seq<char>): (l: nat)
    ensures l <= |v|
    ensures forall k :: 0 <= k < l ==> IsSpace(v[k])
    ensures l < |v| ==> !IsSpace(v[l])
  {
    if |v| == 0 || !IsSpace(v[0]) then 0 else 1 + LSkip(v[1..])
  }

  /** A value with its surrounding blanks removed. */
  function Trim(v: seq<char>): (t: seq<char>)
    ensures |t| > 0 ==> !IsSpace(t[0]) && !IsSpace(t[|t| - 1])
    ensures exists l, r :: 0 <= l <= r <= |v| && t == v[l..r] &&
              (forall k :: 0 <= k < l ==> IsSpace(v[k])) &&
              (forall k :: r <= k < |v| ==> IsSpace(v[k]))
  {
    var r := RTrimLen(v);
    var l := LSkip(v[..r]);
    v[l..r]
  }

  /** Trimming removes exactly the surrounding blanks. */
  lemma TrimPadded(pre: seq<char>, t: seq<char>, post: seq<char>)
    requires forall k :: 0 <= k < |pre| ==> IsSpace(pre[k])
    requires forall k :: 0 <= k < |post| ==> IsSpace(post[k])
    requires |t| > 0 ==> !IsSpace(t[0]) && !IsSpace(t[|t| - 1])
    ensures Trim(pre + t + post) == t
  {
    var v := pre + t + post;
    if |t| == 0 {
      AllSpaceTrim(v);
    } else {
      RTrimLenIs(v, |pre| + |t|);
      assert v[..|pre| + |t|] == pre + t;
      LSkipIs(pre + t, |pre|);
      assert v[|pre|..|pre| + |t|] == t;
    }
  }

  lemma AllSpaceTrim(v: seq<char>)
    requires forall k :: 0 <= k < |v| ==> IsSpace(v[k])
    ensures Trim(v) == []
  {
    RTrimLenIs(v, 0);
  }

  lemma {:induction false} RTrimLenIs(v: seq<char>, r: nat)
    requires r <= |v|
    requires forall k :: r <= k < |v| ==> IsSpace(v[k])
    requires r > 0 ==> !IsSpace(v[r - 1])
    ensures RTrimLen(v) == r
    decreases |v|
  {
    if |v| > r {
      RTrimLenIs(v[..|v| - 1], r);
    }
  }

  lemma {:induction false} LSkipIs(v: seq<char>, l: nat)
    requires l < |v|
    requires forall k :: 0 <= k < l ==> IsSpace(v[k])
    requires !IsSpace(v[l])
    ensures LSkip(v) == l
    decreases l
  {
    if l > 0 {
      LSkipIs(v[1..], l - 1);
    }
  }

  /** out_buf after the value is copied, terminated and right-trimmed:
      the kept bytes, then NUL up to and including the old terminator. */
  function AfterRightTrim(old_: seq<char>, raw: seq<char>): (b: seq<char>)
    requires |raw| < |old_|
    ensures |b| == |old_|
  {
    var r := RTrimLen(raw);
    raw[..r] + seq(|raw| - r + 1, _ => '\0') + old_[|raw| + 1..]
  }

  /** After the right trim the buffer starts with the kept bytes and their
      terminator. */
  lemma KeptPrefix(old_: seq<char>, raw: seq<char>)
    requires |raw| < |old_|
    ensures var b := AfterRightTrim(old_, raw); var r := RTrimLen(raw);
      (forall k :: 0 <= k < r ==> b[k] == raw[k]) && b[r] == '\0'
  {
    var r := RTrimLen(raw);
    var b := AfterRightTrim(old_, raw);
    assert b[r] == seq(|raw| - r + 1, _ => '\0')[0];
  }

  /** out_buf after the left trim's memmove of the kept bytes and their
      terminator to the front. */
  function GetStringBuffer(old_: seq<char>, raw: seq<char>): (b: seq<char>)
    requires |raw| < |old_|
    ensures |b| == |old_|
  {
    var b := AfterRightTrim(old_, raw);
    var r := RTrimLen(raw);
    var l := LSkip(raw[..r]);
    b[l..r + 1] + b[r - l + 1..]
  }

  /** The string left in out_buf is the trimmed value, terminated. */
  lemma GetStringBufferHolds(old_: seq<char>, raw: seq<char>)
    requires |raw| < |old_|
    ensures var b := GetStringBuffer(old_, raw); var t := Trim(raw);
      b[..|t|] == t && b[|t|] == '\0'
  {
    var r := RTrimLen(raw);
    var l := LSkip(raw[..r]);
    var b := AfterRightTrim(old_, raw);
    assert b[l..r] == raw[l..r];
    assert b[r] == '\0';
  }

  /** A flat JSON string field: `pre "key": blanks "v" post`. */
  function FlatField(pre: string, key: string, blanks: string, v: string, post: string): (json: string)
    ensures |json| == |pre| + |key| + |blanks| + |v| + |post| + 5
  {
    pre + ['"'] + key + ['"', ':'] + blanks + ['"'] + v + ['"'] + post
  }

  /** A flat field, found at the key's first occurrence, is the first hit
      for [key]; the copy reads exactly v when it fits, and out_buf ends
      holding v trimmed and terminated. */
  lemma JsonGetStringRoundTrip(pre: string, key: string, blanks: string, v: string, post: string,
                               outSize: nat, old_: seq<char>)
    requires forall k :: 0 <= k < |blanks| ==> IsStructural(blanks[k])
    requires '"' !in v
    requires |v| < outSize <= |old_|
    requires Find(FlatField(pre, key, blanks, v, post), key) == Some(|pre| + 1)
    ensures var json := FlatField(pre, key, blanks, v, post);
            var start: nat := |pre| + |key| + 4 + |blanks|;
            FirstHit(json, [Some(key)], 0) == Some((0, start)) &&
            RawValue(json, start, outSize) == v &&
            var b := GetStringBuffer(old_, RawValue(json, start, outSize));
            b[..|Trim(v)|] == Trim(v) && b[|Trim(v)|] == '\0'
  {
    FlatFieldHit(pre, key, blanks, v, post);
    FlatFieldRaw(pre, key, blanks, v, post, outSize);
    GetStringBufferHolds(old_, v);
  }

  lemma FlatFieldHit(pre: string, key: string, blanks: string, v: string, post: string)
    requires forall k :: 0 <= k < |blanks| ==> IsStructural(blanks[k])
    requires Find(FlatField(pre, key, blanks, v, post), key) == Some(|pre| + 1)
    ensures FirstHit(FlatField(pre, key, blanks, v, post), [Some(key)], 0) ==
              Some((0, (|pre| + |key| + 4 + |blanks|) as nat))
  {
    FieldLayout(pre, key, blanks, v, post);
    HitAt(FlatField(pre, key, blanks, v, post), key, |pre| + 1, |pre| + |key| + 3 + |blanks|);
  }

  lemma FlatFieldRaw(pre: string, key: string, blanks: string, v: string, post: string, outSize: nat)
    requires '"' !in v
    requires |v| < outSize
    ensures RawValue(FlatField(pre, key, blanks, v, post), |pre| + |key| + 4 + |blanks|, outSize) == v
  {
    var json := FlatField(pre, key, blanks, v, post);
    var start := |pre| + |key| + 4 + |blanks|;
    FieldValueLayout(pre, key, blanks, v, post);
    RawAt(json, start, v, outSize);
  }

  /** Where the quotes, the colon and the blanks sit in a flat field. */
  lemma FieldLayout(pre: string, key: string, blanks: string, v: string, post: string)
    requires forall k :: 0 <= k < |blanks| ==> IsStructural(blanks[k])
    ensures var json := FlatField(pre, key, blanks, v, post);
            var e := |pre| + 1 + |key|;
            var q := e + 2 + |blanks|;
            json[|pre|] == '"' && json[e] == '"' && json[e + 1] == ':' && json[q] == '"' &&
            (forall k :: e + 2 <= k < q ==> IsStructural(json[k]))
  {
    var json := FlatField(pre, key, blanks, v, post);
    var a := pre + ['"'] + key + ['"', ':'];
    var e := |pre| + 1 + |key|;
    assert |a| == e + 2;
    assert a[|pre|] == '"' && a[e] == '"' && a[e + 1] == ':';
    var h := a + blanks + ['"'];
    assert h[|a| + |blanks|] == '"';
    assert forall k :: e + 2 <= k < |h| - 1 ==> h[k] == blanks[k - e - 2];
    assert json == h + (v + ['"'] + post);
    assert forall k :: 0 <= k < |h| ==> json[k] == h[k];
  }

  /** Where the value and its closing quote sit in a flat field. */
  lemma FieldValueLayout(pre: string, key: string, blanks: string, v: string, post: string)
    ensures var json := FlatField(pre, key, blanks, v, post);
            var start := |pre| + |key| + 4 + |blanks|;
            json[start..start + |v|] == v && json[start + |v|] == '"'
  {
    var json := FlatField(pre, key, blanks, v, post);
    var h := pre + ['"'] + key + ['"', ':'] + blanks + ['"'];
    assert json == h + v + ['"'] + post;
    assert json[|h|..|h| + |v|] == v;
    assert json[|h| + |v|] == '"';
  }

  /** The first occurrence of key, quoted, then ':' and structural bytes
      up to a quote at q, is the first hit with its value at q + 1. */
  lemma HitAt(json: string, key: string, f: nat, q: nat)
    requires Find(json, key) == Some(f) && 0 < f
    requires f + |key| + 1 < q < |json|
    requires json[f - 1] == '"' && json[f + |key|] == '"' && json[f + |key| + 1] == ':'
    requires forall k :: f + |key| + 2 <= k < q ==> IsStructural(json[k])
    requires json[q] == '"'
    ensures FirstHit(json, [Some(key)], 0) == Some((0, (q + 1) as nat))
  {
    ValueStartAt(json, key, f, q);
  }

  lemma ValueStartAt(json: string, key: string, f: nat, q: nat)
    requires Find(json, key) == Some(f) && 0 < f
    requires f + |key| + 1 < q < |json|
    requires json[f - 1] == '"' && json[f + |key|] == '"' && json[f + |key| + 1] == ':'
    requires forall k :: f + |key| + 2 <= k < q ==> IsStructural(json[k])
    requires json[q] == '"'
    ensures ValueStart(json, key) == Some(q + 1)
  {
    var e := f + |key|;
    assert IsStructural(json[e + 1]);
    assert forall k :: e + 1 <= k < q ==> IsStructural(json[k]);
    assert !IsStructural(json[q]);
    SkipStructIs(json, e + 1, q);
    assert At(json, e) == '"' && At(json, e + 1) == ':' && At(json, q) == '"';
  }

  /** The copy of a value that fits and is closed by a quote is the value. */
  lemma RawAt(json: string, start: nat, v: string, outSize: nat)
    requires start + |v| < |json| && json[start..start + |v|] == v && json[start + |v|] == '"'
    requires '"' !in v
    requires |v| < outSize
    ensures RawValue(json, start, outSize) == v
  {
    assert forall k :: 0 <= k < |v| ==> At(json, start + k) == v[k];
    QuoteDistanceIs(json, start, outSize - 1, |v|);
  }

  /** SkipStruct stops at the first non-structural byte. */
  lemma SkipStructIs(s: string, p: nat, r: nat)
    requires p <= r < |s|
    requires forall k :: p <= k < r ==> IsStructural(s[k])
    requires !IsStructural(s[r])
    ensures SkipStruct(s, p) == r
  {
  }

  /** QuoteDistance stops at the first quote within the limit. */
  lemma QuoteDistanceIs(json: string, p: nat, limit: nat, n: nat)
    requires n <= limit
    requires forall k :: p <= k < p + n ==> At(json, k) != '"'
    requires n < limit ==> At(json, p + n) == '"'
    ensures QuoteDistance(json, p, limit) == n
  {
  }

  /** http_json_getString over keys[0 .. path_cnt). */
  method JsonGetString(json: Option<string>, keys: Option<seq<Option<string>>>,
                       outBuf: array?<char>, outSize: u16) returns (r: HttpErr)
    requires json.Some? ==> CStr(json.value)
    requires keys.Some? ==>
               |keys.value| < 0x100 &&
               forall i :: 0 <= i < |keys.value| && keys.value[i].Some? ==> CStr(keys.value[i].value)
    requires outBuf != null ==> outSize <= outBuf.Length
    requires outSize == 1 && outBuf != null && json.Some? && keys.Some? &&
             FirstHit(json.value, keys.value, 0).Some? ==>
               At(json.value, FirstHit(json.value, keys.value, 0).value.1) == '"'
    modifies outBuf
    ensures r == ErrInvalidArgs <==>
              json.None? || keys.None? || |keys.value| == 0 || outBuf == null || outSize == 0
    ensures r != ErrInvalidArgs ==>
              (r == HttpOk <==> FirstHit(json.value, keys.value, 0).Some?) &&
              (r != HttpOk ==> r == ErrUnknown)
    ensures r != HttpOk && outBuf != null ==> outBuf[..] == old(outBuf[..])
    ensures r == HttpOk ==>
              var start := FirstHit(json.value, keys.value, 0).value.1;
              var raw := RawValue(json.value, start, outSize);
              outBuf[..] == GetStringBuffer(old(outBuf[..]), raw)
  {
    if json.None? || keys.None? || |keys.value| == 0 || outBuf == null || outSize == 0 {
      return ErrInvalidArgs;
    }
    var s := json.value;
    var ks := keys.value;
    var hit := FindKey(s, ks);
    if hit.None? {
      return ErrUnknown;
    }
    CopyTrimmed(s, hit.value.1, outBuf, outSize);
    return HttpOk;
  }

  /** The loop over key_paths: NULL keys are skipped, the first qualifying
      key wins. */
  method FindKey(s: string, ks: seq<Option<string>>) returns (hit: Option<(nat, nat)>)
    requires CStr(s)
    requires forall i :: 0 <= i < |ks| && ks[i].Some? ==> CStr(ks[i].value)
    ensures hit == FirstHit(s, ks, 0)
  {
    for j := 0 to |ks|
      invariant FirstHit(s, ks, 0) == FirstHit(s, ks, j)
    {
      if ks[j].None? {
        continue;
      }
      var start := LocateValue(s, ks[j].value);
      if start.Some? {
        return Some((j, start.value));
      }
    }
    return None;
  }

  /** The strstr and the field-name and value-type checks for one key. */
  method LocateValue(s: string, key: string) returns (v: Option<nat>)
    requires CStr(s) && CStr(key)
    ensures v == ValueStart(s, key)
  {
    var f := Find(s, key);
    if f.None? || f.value == 0 {
      return None;
    }
    var e := f.value + |key|;
    if s[f.value - 1] != '"' || At(s, e) != '"' || At(s, e + 1) != ':' {
      return None;
    }
    var p := e + 1;
    while p < |s| && IsStructural(s[p])
      invariant e + 1 <= p <= |s|
      invariant SkipStruct(s, e + 1) == SkipStruct(s, p)
      decreases |s| - p
    {
      p := p + 1;
    }
    if At(s, p) != '"' {
      return None;
    }
    return Some(p + 1);
  }

  /** The copy loop, the terminator, the right trim and the left trim's
      memmove for a value starting at `start`. */
  method CopyTrimmed(s: string, start: nat, outBuf: array<char>, outSize: u16)
    requires 1 <= outSize <= outBuf.Length
    requires outSize == 1 ==> At(s, start) == '"'
    modifies outBuf
    ensures outBuf[..] == GetStringBuffer(old(outBuf[..]), RawValue(s, start, outSize))
  {
    ghost var old_ := outBuf[..];
    var count := CountValue(s, start, outSize);
    ghost var raw := RawValue(s, start, outSize);
    var copied := seq(count, k requires 0 <= k < count => At(s, start + k));
    assert copied == raw;
    CopyPrefix(outBuf, copied, count);
    assert copied[..count] == raw;
    var r := TrimRight(outBuf, count, raw, old_);
    TrimLeft(outBuf, r, raw, old_);
  }

  /** The left trim: count the leading blanks of the kept bytes and move
      the rest, with its terminator, to the front. */
  method TrimLeft(outBuf: array<char>, r: nat, ghost raw: seq<char>, ghost old_: seq<char>)
    requires |raw| < outBuf.Length == |old_|
    requires r == RTrimLen(raw)
    requires outBuf[..] == AfterRightTrim(old_, raw)
    modifies outBuf
    ensures outBuf[..] == GetStringBuffer(old_, raw)
  {
    KeptPrefix(old_, raw);
    ghost var kept := raw[..r];
    var l := 0;
    while r > 0 && IsSpace(outBuf[l])
      invariant l <= LSkip(kept)
      decreases r - l
    {
      assert outBuf[l] == kept[l];
      l := l + 1;
    }
    assert l == LSkip(kept) by {
      if r > 0 && l < r {
        assert outBuf[l] == kept[l];
      }
    }
    if l > 0 {
      ShiftLeft(outBuf, l, r + 1);
    } else {
      assert outBuf[..] == outBuf[..][l..r + 1] + outBuf[..][r + 1 - l..];
    }
  }

  /** memmove(a, a + l, m - l): the bytes from l up to m move to the front;
      the rest of the array keeps its bytes. */
  method ShiftLeft(a: array<char>, l: nat, m: nat)
    requires l <= m <= a.Length
    modifies a
    ensures a[..] == old(a[..])[l..m] + old(a[..])[m - l..]
  {
    var snap := a[..];
    forall i | 0 <= i < m - l {
      a[i] := snap[l + i];
    }
  }

  /** The copy loop's count: up to the closing quote, at most out_size - 1
      bytes, reading NUL past the end of the document. */
  method CountValue(s: string, start: nat, outSize: u16) returns (count: nat)
    requires outSize >= 1
    requires outSize == 1 ==> At(s, start) == '"'
    ensures count == QuoteDistance(s, start, outSize as int - 1)
  {
    ghost var limit := outSize as int - 1;
    count := 0;
    var p := start;
    while At(s, p) != '"'
      invariant p == start + count && count <= limit && (count < limit || At(s, p) == '"')
      invariant QuoteDistance(s, start, limit) == count + QuoteDistance(s, p, limit - count)
      decreases limit - count
    {
      assert QuoteDistance(s, p, limit - count) == 1 + QuoteDistance(s, p + 1, limit - count - 1);
      count := count + 1;
      p := p + 1;
      if count > outSize as int - 2 {
        break;
      }
    }
  }

  /** Right trim: each trailing blank becomes NUL. */
  method TrimRight(outBuf: array<char>, count: nat, ghost raw: seq<char>, ghost old_: seq<char>)
    returns (r: nat)
    requires count == |raw| < outBuf.Length == |old_|
    requires outBuf[..] == raw + ['\0'] + old_[count + 1..]
    modifies outBuf
    ensures r == RTrimLen(raw)
    ensures outBuf[..] == AfterRightTrim(old_, raw)
  {
    r := count;
    while r > 0 && IsSpace(outBuf[r - 1])
      invariant r <= count
      invariant forall k :: r <= k < count ==> IsSpace(raw[k])
      invariant forall k :: 0 <= k < r ==> outBuf[k] == raw[k]
      invariant forall k :: r <= k <= count ==> outBuf[k] == '\0'
      invariant forall k :: count < k < outBuf.Length ==> outBuf[k] == old_[k]
      decreases r
    {
      r := r - 1;
      outBuf[r] := '\0';
    }
    RTrimLenIs(raw, r);
    RightTrimmedBuffer(outBuf[..], raw, old_, r);
  }

  /** A buffer that agrees with the kept bytes, then NULs up to the old
      terminator, then the old tail, is AfterRightTrim. */
  lemma RightTrimmedBuffer(b: seq<char>, raw: seq<char>, old_: seq<char>, r: nat)
    requires r == RTrimLen(raw) && |raw| < |b| == |old_|
    requires forall k :: 0 <= k < r ==> b[k] == raw[k]
    requires forall k :: r <= k <= |raw| ==> b[k] == '\0'
    requires forall k :: |raw| < k < |b| ==> b[k] == old_[k]
    ensures b == AfterRightTrim(old_, raw)
  {
    var a := AfterRightTrim(old_, raw);
    forall k | 0 <= k < |b| ensures b[k] == a[k] {
      if k < r {
        assert a[k] == raw[..r][k];
      } else if k <= |raw| {
        assert a[k] == seq(|raw| - r + 1, _ => '\0')[k - r];
      }
    }
  }
}
