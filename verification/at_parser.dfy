/** AT response parsing (Drivers/BSP/at_parser.c).

    A response frame is a byte buffer with an explicit length that is NOT
    terminated by NUL. The C code nevertheless dereferences the byte just past
    the frame in a few places; the model reads every such byte as NUL (`At`),
    so a frame is "its bytes followed by NUL bytes".

    C pointers passed in are `Option`s (None is NULL). An out-parameter
    `T *out` is modelled as `Option<T>`: None is a NULL pointer, Some(v) a
    pointer to a variable currently holding v; each method returns the
    variable's new contents, so "left untouched" is stated as equality. */
module AtParser {
  import opened Common
  import opened ByteMatch

  /* ---------------------------------------------------------------- */
  /* Character classes                                                */
  /* ---------------------------------------------------------------- */

  /** The blanks skipped by at_get_num and skip_ws. */
  predicate IsWs(c: char)
  {
    c == ' ' || c == '\t' || c == '\r' || c == '\n'
  }

  predicate IsDigit(c: char)
  {
    '0' <= c <= '9'
  }

  function DigitValue(c: char): (d: nat)
    requires IsDigit(c)
    ensures d < 10
  {
    c as int - '0' as int
  }

  /* ---------------------------------------------------------------- */
  /* Scanning specifications                                          */
  /* ---------------------------------------------------------------- */

  /** First position at or after q whose byte is not a blank. Positions at
      or past the end read as NUL, which is not a blank, so the scan stops
      at the end of the frame at the latest. */
  function WsEnd(buf: seq<char>, q: nat): (r: nat)
    decreases |buf| - q
    ensures q <= r
    ensures r <= |buf| || r == q
    ensures forall k :: q <= k < r ==> k < |buf| && IsWs(buf[k])
    ensures !IsWs(At(buf, r))
  {
    if IsWs(At(buf, q)) then WsEnd(buf, q + 1) else q
  }

  /** End of the maximal run of decimal digits starting at q. */
  function DigitsEnd(buf: seq<char>, q: nat): (r: nat)
    decreases |buf| - q
    ensures q <= r
    ensures r <= |buf| || r == q
    ensures forall k :: q <= k < r ==> k < |buf| && IsDigit(buf[k])
    ensures !IsDigit(At(buf, r))
  {
    if IsDigit(At(buf, q)) then DigitsEnd(buf, q + 1) else q
  }

  /** First index in [q, |s|) holding a byte of `stop`, or |s| if none. */
  function IndexFrom(s: seq<char>, q: nat, stop: set<char>): (r: nat)
    requires q <= |s|
    decreases |s| - q
    ensures q <= r <= |s|
    ensures forall k :: q <= k < r ==> s[k] !in stop
    ensures r < |s| ==> s[r] in stop
  {
    if q == |s| || s[q] in stop then q else IndexFrom(s, q + 1, stop)
  }

  /** IndexFrom is determined by the run of non-stop bytes it closes. */
  lemma IndexFromIs(s: seq<char>, q: nat, stop: set<char>, r: nat)
    requires q <= r <= |s|
    requires forall k :: q <= k < r ==> s[k] !in stop
    requires r < |s| ==> s[r] in stop
    ensures IndexFrom(s, q, stop) == r
  {
  }

  /** strchr(&buf[q], c) over a frame followed by NUL: the first c at or
      after q, or None when a NUL comes first. */
  function StrChr(buf: seq<char>, q: nat, c: char): (r: Option<nat>)
    requires q <= |buf|
    requires c != '\0'
    ensures r.Some? ==> q <= r.value < |buf| && buf[r.value] == c
    ensures r.Some? ==> forall k :: q <= k < r.value ==> buf[k] != c && buf[k] != '\0'
    ensures r.None? ==> exists k :: q <= k <= |buf| && At(buf, k) == '\0' &&
                          forall j :: q <= j < k ==> buf[j] != c
  {
    var k := IndexFrom(buf, q, {c, '\0'});
    if At(buf, k) == c then Some(k) else None
  }

  /* ---------------------------------------------------------------- */
  /* Decimal values                                                   */
  /* ---------------------------------------------------------------- */

  predicate AllDigits(d: seq<char>)
  {
    forall i :: 0 <= i < |d| ==> IsDigit(d[i])
  }

  /** The mathematical value of a digit string. */
  function DecValue(d: seq<char>): nat
    requires AllDigits(d)
  {
    if d == [] then 0 else DecValue(d[..|d| - 1]) * 10 + DigitValue(d[|d| - 1])
  }

  /** What at_get_num accumulates: value = value * 10 + digit in uint32,
      one digit at a time, left to right. */
  function DecValueU32(d: seq<char>): u32
    requires AllDigits(d)
  {
    if d == [] then 0 else (DecValueU32(d[..|d| - 1]) * 10 + DigitValue(d[|d| - 1])) % U32_MOD
  }

  /** The decimal text of n, without leading zeros ("0" for zero). */
  function Dec(n: nat): (d: seq<char>)
    ensures |d| >= 1 && AllDigits(d)
    decreases n
  {
    var last := ('0' as int + n % 10) as char;
    if n < 10 then [last] else Dec(n / 10) + [last]
  }

  lemma AddMultiple(x: int, k: int)
    ensures (x + k * U32_MOD) % U32_MOD == x % U32_MOD
  {
    var q, r := x / U32_MOD, x % U32_MOD;
    assert x + k * U32_MOD == (q + k) * U32_MOD + r;
  }

  lemma ModStep(a: int, d: int)
    ensures ((a % U32_MOD) * 10 + d) % U32_MOD == (a * 10 + d) % U32_MOD
  {
    var q, r := a / U32_MOD, a % U32_MOD;
    assert a * 10 + d == (r * 10 + d) + (q * 10) * U32_MOD;
    AddMultiple(r * 10 + d, q * 10);
  }

  /** The accumulation overflows silently: the result is the digit string's
      value modulo 2^32. */
  lemma {:induction false} DecValueU32Wraps(d: seq<char>)
    requires AllDigits(d)
    ensures DecValueU32(d) == DecValue(d) % U32_MOD
  {
    if d != [] {
      var init := d[..|d| - 1];
      DecValueU32Wraps(init);
      ModStep(DecValue(init), DigitValue(d[|d| - 1]));
    }
  }

  /** Dec and DecValue are inverse: the decimal text of n denotes n. */
  lemma {:induction false} DecValueOfDec(n: nat)
    ensures DecValue(Dec(n)) == n
  {
    var d := Dec(n);
    if n >= 10 {
      DecValueOfDec(n / 10);
      assert d[..|d| - 1] == Dec(n / 10);
    }
  }

  /** Reading back the decimal text of n with 32-bit accumulation gives n
      modulo 2^32, so n itself for every 32-bit value. */
  lemma DecRoundTrip(n: nat)
    ensures DecValueU32(Dec(n)) == n % U32_MOD
  {
    DecValueOfDec(n);
    DecValueU32Wraps(Dec(n));
  }

  /* ---------------------------------------------------------------- */
  /* skip_ws                                                          */
  /* ---------------------------------------------------------------- */

  /** skip_ws: steps over the byte it is given, then over blanks. NULL in,
      NULL out. */
  method SkipWs(buf: seq<char>, p: Option<nat>) returns (r: Option<nat>)
    ensures p.None? ==> r.None?
    ensures p.Some? ==> r == Some(WsEnd(buf, p.value + 1))
    ensures p.Some? ==> p.value < r.value
  {
    if p.None? {
      return None;
    }
    var q := p.value + 1;
    while IsWs(At(buf, q))
      invariant p.value + 1 <= q
      invariant WsEnd(buf, q) == WsEnd(buf, p.value + 1)
      decreases |buf| - q
    {
      q := q + 1;
    }
    return Some(q);
  }

  /* ---------------------------------------------------------------- */
  /* find_nth                                                         */
  /* ---------------------------------------------------------------- */

  /** Number of occurrences of ch in s[..k]. */
  function Occ(s: seq<char>, ch: char, k: nat): nat
    requires k <= |s|
  {
    if k == 0 then 0 else Occ(s, ch, k - 1) + (if s[k - 1] == ch then 1 else 0)
  }

  lemma {:induction false} OccMono(s: seq<char>, ch: char, a: nat, b: nat)
    requires a <= b <= |s|
    ensures Occ(s, ch, a) <= Occ(s, ch, b)
  {
    if a < b {
      OccMono(s, ch, a, b - 1);
    }
  }

  /** The occurrence number actually searched for. With pair set and ch a
      quote, the index of the opening quote of the find_index-th pair,
      2 * find_index - 1, is computed in uint8_t and wraps. */
  function Target(findIndex: u8, ch: char, pair: bool): u8
  {
    if ch == '"' && pair then (2 * findIndex - 1) % U8_MOD else findIndex
  }

  /** Index of the n-th occurrence of ch counting from position i. */
  function NthFrom(s: seq<char>, ch: char, n: nat, i: nat): (r: Option<nat>)
    requires 1 <= n
    requires i <= |s|
    decreases |s| - i
    ensures r.Some? ==> i <= r.value < |s| && s[r.value] == ch
    ensures r.Some? ==> Occ(s, ch, r.value) - Occ(s, ch, i) == n - 1
    ensures r.None? ==> Occ(s, ch, |s|) - Occ(s, ch, i) < n
  {
    if i == |s| then None
    else if s[i] == ch then (if n == 1 then Some(i) else NthFrom(s, ch, n - 1, i + 1))
    else NthFrom(s, ch, n, i + 1)
  }

  /** find_nth(buf, buf_len, find_index, ch, pair). */
  function FindNthSpec(buf: Option<seq<char>>, findIndex: u8, ch: char, pair: bool): (r: Option<nat>)
    ensures r.Some? ==> buf.Some? && 0 < findIndex <= |buf.value|
    ensures r.Some? ==> r.value < |buf.value| && buf.value[r.value] == ch
    ensures r.Some? ==> Occ(buf.value, ch, r.value) + 1 == Target(findIndex, ch, pair)
  {
    if buf.None? || |buf.value| == 0 || findIndex == 0 || findIndex as int > |buf.value| then None
    else NthFrom(buf.value, ch, Target(findIndex, ch, pair), 0)
  }

  /** find_nth finds something exactly when the arguments are accepted and
      the buffer holds at least Target occurrences of ch. */
  lemma FindNthFound(buf: Option<seq<char>>, findIndex: u8, ch: char, pair: bool)
    ensures FindNthSpec(buf, findIndex, ch, pair).Some? <==>
      buf.Some? && 0 < findIndex as int <= |buf.value| &&
      Target(findIndex, ch, pair) <= Occ(buf.value, ch, |buf.value|)
  {
    var r := FindNthSpec(buf, findIndex, ch, pair);
    if r.Some? {
      OccMono(buf.value, ch, r.value + 1, |buf.value|);
    }
  }

  /** The uint8_t wrap: asking for pair 129 finds the first opening quote
      rather than the 257th quote. */
  lemma FindNthPairWraps(buf: seq<char>)
    requires 129 <= |buf|
    ensures FindNthSpec(Some(buf), 129, '"', true) == FindNthSpec(Some(buf), 1, '"', true)
    ensures FindNthSpec(Some(buf), 1, '"', true) == NthFrom(buf, '"', 1, 0)
  {
  }

  method FindNth(buf: Option<seq<char>>, findIndex: u8, ch: char, pair: bool) returns (r: Option<nat>)
    requires buf.Some? ==> |buf.value| < 0x1_0000
    ensures r == FindNthSpec(buf, findIndex, ch, pair)
  {
    if buf.None? || |buf.value| == 0 || findIndex == 0 || findIndex as int > |buf.value| {
      return None;
    }
    var s := buf.value;
    var remaining: u8 := findIndex;
    if ch == '"' && pair {
      remaining := (2 * findIndex - 1) % U8_MOD;
    }
    var i := 0;
    while remaining != 0 && i <= |s| - 1
      invariant i <= |s|
      invariant remaining != 0
      invariant NthFrom(s, ch, remaining, i) == NthFrom(s, ch, Target(findIndex, ch, pair), 0)
      decreases |s| - i
    {
      if s[i] == ch {
        remaining := remaining - 1;
        if remaining == 0 {
          return Some(i);
        }
      }
      i := i + 1;
    }
    return None;
  }

  /* ---------------------------------------------------------------- */
  /* at_get_field                                                     */
  /* ---------------------------------------------------------------- */

  /** at_field_type_t; its declaration is not part of this model, so any
      other value is one constructor. */
  datatype FieldType = InQuotes | AfterColon | BetweenComma | OtherType

  /** The delimiter each mode locates with find_nth. */
  function Delim(t: FieldType): char
  {
    match t
    case InQuotes => '"'
    case AfterColon => ':'
    case BetweenComma => ','
    case OtherType => '\0'
  }

  /** The bytes that end a field in each mode. */
  function Terminators(t: FieldType): set<char>
  {
    match t
    case InQuotes => {'"'}
    case AfterColon => {',', ';', ':', '\0', '\r', '\n'}
    case BetweenComma => {','}
    case OtherType => {}
  }

  /** Where a field's span starts: one past the located delimiter, after
      blanks, and strictly inside the frame. */
  function FieldStart(buf: seq<char>, t: FieldType, index: u8): (r: Option<nat>)
    ensures r.Some? ==> r.value < |buf|
  {
    if t == OtherType then None
    else
      var d := FindNthSpec(Some(buf), index, Delim(t), t == InQuotes);
      if d.None? then None
      else
        var p := WsEnd(buf, d.value + 1);
        if p >= |buf| then None else Some(p)
  }

  datatype Span = Span(start: nat, len: nat)

  /** The field at_get_field reports: the bytes from FieldStart up to the
      first terminator of the mode, which must lie inside the frame. */
  function FieldSpan(buf: seq<char>, t: FieldType, index: u8): (r: Option<Span>)
    ensures r.Some? ==> t != OtherType
    ensures r.Some? ==> r.value.start + r.value.len < |buf|
    ensures r.Some? ==> forall k :: r.value.start <= k < r.value.start + r.value.len ==>
                          buf[k] !in Terminators(t)
    ensures r.Some? ==> buf[r.value.start + r.value.len] in Terminators(t)
    ensures r.Some? ==> exists d :: 0 <= d < r.value.start && buf[d] == Delim(t) &&
                          forall k :: d < k < r.value.start ==> IsWs(buf[k])
    ensures r.Some? ==> var d := FindNthSpec(Some(buf), index, Delim(t), t == InQuotes);
                        d.Some? && r.value.start == WsEnd(buf, d.value + 1)
  {
    match FieldStart(buf, t, index)
    case None => None
    case Some(p) =>
      var e := IndexFrom(buf, p, Terminators(t));
      if e == |buf| then None
      else
        var d := FindNthSpec(Some(buf), index, Delim(t), t == InQuotes).value;
        assert buf[d] == Delim(t);
        Some(Span(p, e - p))
  }

  /** FieldSpan once FieldStart is known: the span ends at the first
      terminator after the start, if the frame has one. */
  lemma FieldSpanFrom(buf: seq<char>, t: FieldType, index: u8, p: nat)
    requires FieldStart(buf, t, index) == Some(p)
    ensures FieldSpan(buf, t, index) ==
      var e := IndexFrom(buf, p, Terminators(t));
      if e == |buf| then None else Some(Span(p, e - p))
  {
  }

  /** What *out_start holds after a false return of at_get_field: the
      IN_QUOTES mode has already stored a start it located. */
  function StartAfterFailure(buf: Option<seq<char>>, t: FieldType, index: u8,
                             outStart: Option<int>, outLen: Option<u16>): Option<int>
  {
    if t == InQuotes && buf.Some? && |buf.value| > 0 && outStart.Some? && outLen.Some? &&
       FieldStart(buf.value, t, index).Some?
    then Some(FieldStart(buf.value, t, index).value)
    else outStart
  }

  /** at_get_field. IN_QUOTES stores the start before it scans, so a failed
      scan still changes *out_start; the other modes write both outputs only
      on success. */
  method GetField(buf: Option<seq<char>>, t: FieldType, index: u8,
                  outStart: Option<int>, outLen: Option<u16>)
    returns (ok: bool, newStart: Option<int>, newLen: Option<u16>)
    requires buf.Some? ==> |buf.value| < 0x1_0000
    ensures newStart.Some? == outStart.Some? && newLen.Some? == outLen.Some?
    ensures ok <==> buf.Some? && |buf.value| > 0 && outStart.Some? && outLen.Some? &&
                    FieldSpan(buf.value, t, index).Some?
    ensures ok ==> newStart == Some(FieldSpan(buf.value, t, index).value.start) &&
                   newLen == Some(FieldSpan(buf.value, t, index).value.len)
    ensures !ok ==> newLen == outLen
    ensures !ok ==> newStart == StartAfterFailure(buf, t, index, outStart, outLen)
  {
    newStart, newLen := outStart, outLen;
    if buf.None? || |buf.value| == 0 || outStart.None? || outLen.None? {
      return false, newStart, newLen;
    }
    if t == OtherType {
      return false, newStart, newLen;
    }
    var s := buf.value;
    var p := LocateField(s, t, index);
    if p.None? {
      return false, newStart, newLen;
    }
    var start := p.value;
    if t == InQuotes {
      newStart := Some(start);
    }
    var e := ScanField(s, start, Terminators(t));
    FieldSpanFrom(s, t, index, start);
    if e.None? {
      return false, newStart, newLen;
    }
    newStart, newLen := Some(start), Some(e.value - start);
    return true, newStart, newLen;
  }

  /** The first half of each mode of at_get_field: find_nth for the mode's
      delimiter, skip_ws, and the check that the start lies in the frame. */
  method LocateField(s: seq<char>, t: FieldType, index: u8) returns (p: Option<nat>)
    requires 0 < |s| < 0x1_0000
    requires t != OtherType
    ensures p == FieldStart(s, t, index)
  {
    var d := FindNth(Some(s), index, Delim(t), t == InQuotes);
    p := SkipWs(s, d);
    if p.Some? && p.value >= |s| {
      p := None;
    }
  }

  /** The scan loop of at_get_field: counts bytes from start until a byte of
      `stop`, failing when the count reaches the end of the frame. */
  method ScanField(s: seq<char>, start: nat, stop: set<char>) returns (e: Option<nat>)
    requires start < |s| < 0x1_0000
    ensures e.Some? <==> IndexFrom(s, start, stop) < |s|
    ensures e.Some? ==> e.value == IndexFrom(s, start, stop) && e.value - start < 0x1_0000
  {
    var q := start;
    var count: u16 := 0;
    while s[q] !in stop
      invariant start <= q < |s|
      invariant count as int == q - start
      invariant IndexFrom(s, q, stop) == IndexFrom(s, start, stop)
      decreases |s| - q
    {
      count := count + 1;
      q := q + 1;
      if q >= |s| {
        return None;
      }
    }
    return Some(q);
  }

  /* ---------------------------------------------------------------- */
  /* at_get_num                                                       */
  /* ---------------------------------------------------------------- */

  /** The search pattern "+KEY:". */
  function NumPattern(key: seq<char>): seq<char>
  {
    "+" + key + ":"
  }

  /** at_get_num as a value: None for every false return. The pattern must
      fit, with its terminator, in 32 bytes; the number is the digit run
      after the first "+KEY:" and any blanks, accumulated modulo 2^32. */
  function GetNumSpec(buf: Option<seq<char>>, key: Option<seq<char>>): (r: Option<u32>)
    ensures r.Some? ==> buf.Some? && key.Some? && |buf.value| > 0 && |key.value| < 30
    ensures r.Some? ==> Find(buf.value, NumPattern(key.value)).Some?
  {
    if buf.None? || key.None? || |buf.value| == 0 then None
    else
      var pat := NumPattern(key.value);
      if |pat| >= 32 then None
      else match Find(buf.value, pat)
        case None => None
        case Some(f) =>
          var p := WsEnd(buf.value, f + |pat|);
          if At(buf.value, p) == '\0' then None
          else
            var q := DigitsEnd(buf.value, p);
            if q == p then None else Some(DecValueU32(buf.value[p..q]))
  }

  /** The blank-skipping loop of at_get_num (it does not step over the
      first byte, unlike skip_ws). */
  method SkipBlanks(s: seq<char>, p0: nat) returns (p: nat)
    ensures p == WsEnd(s, p0)
  {
    p := p0;
    while IsWs(At(s, p))
      invariant p0 <= p
      invariant WsEnd(s, p) == WsEnd(s, p0)
      decreases |s| - p
    {
      p := p + 1;
    }
  }

  /** The digit loop of at_get_num: consumes the digit run at p0 and
      accumulates it in uint32. */
  method AccumulateDigits(s: seq<char>, p0: nat) returns (q: nat, value: u32)
    requires p0 <= |s|
    ensures q == DigitsEnd(s, p0)
    ensures AllDigits(s[p0..q])
    ensures value == DecValueU32(s[p0..q])
  {
    value, q := 0, p0;
    while IsDigit(At(s, q))
      invariant p0 <= q <= |s|
      invariant DigitsEnd(s, q) == DigitsEnd(s, p0)
      invariant AllDigits(s[p0..q])
      invariant value == DecValueU32(s[p0..q])
      decreases |s| - q
    {
      assert s[p0..q + 1][..q - p0] == s[p0..q];
      value := (value * 10 + DigitValue(s[q])) % U32_MOD;
      q := q + 1;
    }
  }

  /** at_get_num. *out_val is written only on success. */
  method GetNum(buf: Option<seq<char>>, key: Option<seq<char>>, outVal: Option<u32>)
    returns (ok: bool, newVal: Option<u32>)
    requires buf.Some? ==> |buf.value| < 0x1_0000
    requires key.Some? ==> CStr(key.value)
    ensures ok <==> outVal.Some? && GetNumSpec(buf, key).Some?
    ensures ok ==> newVal == GetNumSpec(buf, key)
    ensures !ok ==> newVal == outVal
  {
    newVal := outVal;
    if buf.None? || key.None? || outVal.None? || |buf.value| == 0 {
      return false, newVal;
    }
    var s := buf.value;
    var pattern := NumPattern(key.value);
    if |pattern| >= 32 {
      return false, newVal;
    }
    var found := Find(s, pattern);
    if found.None? {
      return false, newVal;
    }
    var p := SkipBlanks(s, found.value + |pattern|);
    if At(s, p) == '\0' {
      return false, newVal;
    }
    var q, value := AccumulateDigits(s, p);
    if q == p {
      return false, newVal;
    }
    return true, Some(value);
  }

  /** WsEnd is the end of the blank run: any r that closes a run of blanks
      starting at q is WsEnd(buf, q). */
  lemma WsEndIs(buf: seq<char>, q: nat, r: nat)
    requires q <= r
    requires forall k :: q <= k < r ==> k < |buf| && IsWs(buf[k])
    requires !IsWs(At(buf, r))
    ensures WsEnd(buf, q) == r
  {
  }

  /** DigitsEnd likewise is determined by the digit run it closes. */
  lemma DigitsEndIs(buf: seq<char>, q: nat, r: nat)
    requires q <= r
    requires forall k :: q <= k < r ==> k < |buf| && IsDigit(buf[k])
    requires !IsDigit(At(buf, r))
    ensures DigitsEnd(buf, q) == r
  {
  }

  /** GetNumSpec in terms of the positions it computes: the first pattern
      match, the end of the blanks after it and the end of the digit run. */
  lemma GetNumSpecAt(buf: seq<char>, key: seq<char>, f: nat, p: nat, q: nat)
    requires |key| < 30
    requires Find(buf, NumPattern(key)) == Some(f)
    requires WsEnd(buf, f + |NumPattern(key)|) == p
    requires IsDigit(At(buf, p))
    requires DigitsEnd(buf, p) == q
    ensures p < q <= |buf|
    ensures GetNumSpec(Some(buf), Some(key)) == Some(DecValueU32(buf[p..q]))
  {
  }

  /** The positions GetNumSpec computes on "+KEY:" ++ blanks ++ digits. */
  lemma NumFramePositions(pat: seq<char>, blanks: seq<char>, d: seq<char>)
    requires forall i :: 0 <= i < |blanks| ==> IsWs(blanks[i])
    requires |d| >= 1 && AllDigits(d)
    ensures Find(pat + blanks + d, pat) == Some(0)
    ensures WsEnd(pat + blanks + d, |pat|) == |pat| + |blanks|
    ensures DigitsEnd(pat + blanks + d, |pat| + |blanks|) == |pat| + |blanks| + |d|
    ensures (pat + blanks + d)[|pat| + |blanks|..] == d
  {
    var pre := pat + blanks;
    var buf := pre + d;
    assert buf == pat + blanks + d;
    assert buf[..|pat|] == pat;
    FindAtStart(buf, pat);
    BlankRun(pat, blanks, d);
    DigitTail(pre, d);
    assert buf[|pre|..] == d;
  }

  /** The blanks after the pattern end where the digits start. */
  lemma BlankRun(pat: seq<char>, blanks: seq<char>, d: seq<char>)
    requires forall i :: 0 <= i < |blanks| ==> IsWs(blanks[i])
    requires |d| >= 1 && IsDigit(d[0])
    ensures WsEnd(pat + blanks + d, |pat|) == |pat| + |blanks|
  {
    var buf := pat + blanks + d;
    var p := |pat| + |blanks|;
    forall k | |pat| <= k < p ensures IsWs(buf[k]) {
      assert buf[k] == blanks[k - |pat|];
    }
    assert At(buf, p) == d[0];
    WsEndIs(buf, |pat|, p);
  }

  /** A digit run at the end of the buffer ends with it. */
  lemma DigitTail(pre: seq<char>, d: seq<char>)
    requires AllDigits(d)
    ensures DigitsEnd(pre + d, |pre|) == |pre| + |d|
  {
    var buf := pre + d;
    forall k | |pre| <= k < |buf| ensures IsDigit(buf[k]) {
      assert buf[k] == d[k - |pre|];
    }
    DigitsEndIs(buf, |pre|, |buf|);
  }

  /** A frame made of "+KEY:", blanks and a digit run yields the digit run's
      value modulo 2^32. */
  lemma NumAfterPattern(key: seq<char>, blanks: seq<char>, d: seq<char>, buf: seq<char>)
    requires |key| < 30
    requires forall i :: 0 <= i < |blanks| ==> IsWs(blanks[i])
    requires |d| >= 1 && AllDigits(d)
    requires buf == NumPattern(key) + blanks + d
    ensures GetNumSpec(Some(buf), Some(key)) == Some(DecValueU32(d))
  {
    var p := |NumPattern(key)| + |blanks|;
    NumFramePositions(NumPattern(key), blanks, d);
    assert At(buf, p) == d[0];
    assert buf[p..|buf|] == buf[p..] == d;
    GetNumSpecAt(buf, key, 0, p, |buf|);
  }

  /** When no digit follows "+key:" and its blanks there is no number, on
      every frame. */
  lemma GetNumNoDigitAfter(buf: seq<char>, key: seq<char>, f: nat)
    requires Find(buf, NumPattern(key)) == Some(f)
    requires !IsDigit(At(buf, WsEnd(buf, f + |NumPattern(key)|)))
    ensures GetNumSpec(Some(buf), Some(key)) == None
  {
  }

  /** A frame that is "+KEY:" followed by the decimal text of n yields n
      modulo 2^32: n itself for every 32-bit value. */
  lemma NumRoundTrip(key: seq<char>, n: nat, buf: seq<char>)
    requires |key| < 30
    requires buf == NumPattern(key) + Dec(n)
    ensures GetNumSpec(Some(buf), Some(key)) == Some(n % U32_MOD)
  {
    var nothing: seq<char> := [];
    assert NumPattern(key) + nothing + Dec(n) == buf;
    NumAfterPattern(key, nothing, Dec(n), buf);
    DecRoundTrip(n);
  }

  lemma GetNumPlain(buf: seq<char>)
    requires buf == "+KEY:123"
    ensures GetNumSpec(Some(buf), Some("KEY")) == Some(123)
  {
    assert Dec(123) == "123";
    assert NumPattern("KEY") + Dec(123) == buf;
    NumRoundTrip("KEY", 123, buf);
  }

  lemma GetNumLeadingBlank(buf: seq<char>)
    requires buf == "+KEY: 42"
    ensures GetNumSpec(Some(buf), Some("KEY")) == Some(42)
  {
    assert NumPattern("KEY") + " " + "42" == buf;
    NumAfterPattern("KEY", " ", "42", buf);
    assert Dec(42) == "42";
    DecRoundTrip(42);
  }

  lemma GetNumNoDigits()
    ensures GetNumSpec(Some("+KEY:abc"), Some("KEY")) == None
  {
    var c := "+KEY:abc";
    assert c[0..5] == "+KEY:";
    FindIsFirstMatch(c, "+KEY:", 0);
    assert WsEnd(c, 5) == 5;
    GetNumNoDigitAfter(c, "KEY", 0);
  }

  /** Keys of 30 characters or more cannot be searched for. */
  lemma GetNumLongKey(buf: Option<seq<char>>, key: seq<char>)
    requires |key| >= 30
    ensures GetNumSpec(buf, Some(key)) == None
  {
  }

  /* ---------------------------------------------------------------- */
  /* at_get_string_between_quotes                                     */
  /* ---------------------------------------------------------------- */

  /** The key as memmem sees it: strlen(key) stored in a uint16_t. */
  function KeyNeedle(key: seq<char>): seq<char>
  {
    key[..|key| % 0x1_0000]
  }

  /** The whole quoted value after the key: the bytes between the first '"'
      at or after the end of the key's first occurrence and the next '"',
      which strchr may find only before a NUL. */
  function QuotedValue(buf: seq<char>, key: seq<char>): (r: Option<seq<char>>)
    ensures r.Some? ==> Find(buf, KeyNeedle(key)).Some?
    ensures r.Some? ==> '"' !in r.value && '\0' !in r.value
  {
    var needle := KeyNeedle(key);
    match Find(buf, needle)
    case None => None
    case Some(f) =>
      var open := IndexFrom(buf, f + |needle|, {'"'});
      if At(buf, open) != '"' then None
      else
        match StrChr(buf, open + 1, '"')
        case None => None
        case Some(close) =>
          var v := buf[open + 1..close];
          assert forall k :: 0 <= k < |v| ==> v[k] == buf[open + 1 + k];
          Some(v)
  }

  /** QuotedValue in terms of the positions it finds: the key's first
      occurrence, the opening quote and the closing quote. */
  lemma QuotedAt(buf: seq<char>, key: seq<char>, f: nat, open: nat, close: nat)
    requires |key| < 0x1_0000
    requires Find(buf, key) == Some(f)
    requires f + |key| <= open < close < |buf|
    requires forall k :: f + |key| <= k < open ==> buf[k] != '"'
    requires buf[open] == '"' && buf[close] == '"'
    requires forall k :: open < k < close ==> buf[k] != '"' && buf[k] != '\0'
    ensures QuotedValue(buf, key) == Some(buf[open + 1..close])
  {
    assert KeyNeedle(key) == key;
    IndexFromIs(buf, f + |key|, {'"'}, open);
    assert At(buf, open) == '"';
    IndexFromIs(buf, open + 1, {'"', '\0'}, close);
    assert StrChr(buf, open + 1, '"') == Some(close);
  }

  /** In a frame with any bytes before and after, a key whose first
      occurrence is the one shown, followed by separator bytes without quotes
      and then a quoted value without quote or NUL, yields that value. */
  lemma QuotedRoundTrip(pre: seq<char>, key: seq<char>, sep: seq<char>, v: seq<char>, post: seq<char>)
    requires |key| < 0x1_0000
    requires Find(pre + key + sep + ['"'] + v + ['"'] + post, key) == Some(|pre|)
    requires '"' !in sep
    requires '"' !in v && '\0' !in v
    ensures QuotedValue(pre + key + sep + ['"'] + v + ['"'] + post, key) == Some(v)
  {
    var buf := pre + key + sep + ['"'] + v + ['"'] + post;
    var keyEnd := |pre| + |key|;
    var open := keyEnd + |sep|;
    var close := open + 1 + |v|;
    forall k | keyEnd <= k < open ensures buf[k] != '"' {
      assert buf[k] == sep[k - keyEnd];
    }
    forall k | open < k < close ensures buf[k] != '"' && buf[k] != '\0' {
      assert buf[k] == v[k - open - 1];
    }
    assert buf[open] == '"' && buf[close] == '"';
    QuotedAt(buf, key, |pre|, open, close);
    assert buf[open + 1..close] == v;
  }

  /** A +CWJAP: reply with bytes after the closing quote yields the SSID. */
  lemma QuotedExample()
    ensures QuotedValue("+CWJAP:\"home\",1", "+CWJAP:") == Some("home")
  {
    var buf := "+CWJAP:\"home\",1";
    assert buf == [] + "+CWJAP:" + [] + ['"'] + "home" + ['"'] + ",1";
    assert buf[..7] == "+CWJAP:";
    FindAtStart(buf, "+CWJAP:");
    QuotedRoundTrip([], "+CWJAP:", [], "home", ",1");
  }

  /** at_get_string_between_quotes: copies the quoted value after key into
      out_val, cut to out_len - 1 bytes, and terminates it with NUL. Nothing
      is written on a false return. */
  method GetStringBetweenQuotes(buf: Option<seq<char>>, key: Option<seq<char>>,
                                outVal: array?<char>, outLen: u8)
    returns (ok: bool)
    requires buf.Some? ==> |buf.value| < 0x1_0000
    requires key.Some? ==> CStr(key.value)
    requires outVal != null ==> outLen as int <= outVal.Length
    modifies outVal
    ensures ok <==> buf.Some? && |buf.value| > 0 && key.Some? && outLen > 0 && outVal != null &&
                    QuotedValue(buf.value, key.value).Some?
    ensures ok ==>
      var v := QuotedValue(buf.value, key.value).value;
      var n := Min(|v|, outLen as int - 1);
      outVal[..n] == v[..n] && outVal[n] == '\0' && outVal[n + 1..] == old(outVal[n + 1..])
    ensures !ok && outVal != null ==> outVal[..] == old(outVal[..])
  {
    if buf.None? || |buf.value| == 0 || key.None? || outLen == 0 || outVal == null {
      return false;
    }
    var s := buf.value;
    var bounds := LocateQuoted(s, key.value);
    if bounds.None? {
      return false;
    }
    var start := bounds.value.start;
    var valLen := bounds.value.len;
    if valLen >= outLen as int {
      valLen := outLen as int - 1;
    }
    forall i | 0 <= i < valLen {
      outVal[i] := s[start + i];
    }
    outVal[valLen] := '\0';
    return true;
  }

  /** The search half of at_get_string_between_quotes: memmem for the key,
      the walk to the opening quote and strchr for the closing one. */
  method LocateQuoted(s: seq<char>, key: seq<char>) returns (b: Option<Span>)
    ensures b.Some? == QuotedValue(s, key).Some?
    ensures b.Some? ==> b.value.start + b.value.len <= |s| &&
                        s[b.value.start..b.value.start + b.value.len] == QuotedValue(s, key).value
  {
    var needle := KeyNeedle(key);
    var found := Find(s, needle);
    if found.None? {
      return None;
    }
    var start := found.value + |needle|;
    while start < |s| && s[start] != '"'
      invariant found.value + |needle| <= start <= |s|
      invariant IndexFrom(s, start, {'"'}) == IndexFrom(s, found.value + |needle|, {'"'})
      decreases |s| - start
    {
      start := start + 1;
    }
    assert start == IndexFrom(s, found.value + |needle|, {'"'});
    if At(s, start) != '"' {
      return None;
    }
    start := start + 1;
    var end := StrChr(s, start, '"');
    if end.None? {
      return None;
    }
    assert QuotedValue(s, key) == Some(s[start..end.value]);
    return Some(Span(start, end.value - start));
  }
}
