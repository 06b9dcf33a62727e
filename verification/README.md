# ESP8266 AT firmware core, modelled in Dafny

This project models the sequential core of an STM32/FreeRTOS firmware that
drives an ESP8266 Wi-Fi module over the Espressif AT instruction set. It
covers six parts:

- **AT response parsing** (`AtParser`, over `ByteMatch`). The bounded
  `memmem` is given as a specification function, `ByteMatch.Find`. On top of
  it sit `find_nth`, `skip_ws`, `at_get_field`, `at_get_num` and
  `at_get_string_between_quotes`. Each is a method with a loop, proved equal
  to a specification function. The lemmas state the round trips (digits
  rendered after `+KEY:` parse back modulo 2^32; a quoted value after a key
  is extracted unchanged) and the bounds of every extracted span.
- **Command framing and the transmit timeout** (`EspDriver`). The driver
  globals become the class `Esp8266`: the transmit buffer, the two receive
  buffers, `rx_flag`, `recvData_len`, the waiting task's handle, and logs of
  lock, DMA and notification events. `SendAT` is proved against `SendSpec`.
  Lemmas about `SendSpec` state lock balance on every path, when the call
  returns true, and that only `text ++ "\r\n"` is ever transmitted.
  `usart_timeout_Calculate` is `TimeoutMs`, with its 32-bit wrap-around
  written out.
- **Receive-frame hand-off** (`UartIrq`): the two UART interrupt callbacks,
  each taken as one sequential update of the `Esp8266` object.
- **TCP initialisation** (`EspTcp`). The outcome of every AT exchange is an
  input (`TcpEnv`). `Init` is proved equal to the state machine `InitSpec`,
  and lemmas list every outcome. The static `esp_tcp_handle_t` is the class
  `TcpHandle`.
- **HTTP request building and response handling** (`EspHttp`):
  - the class `HttpRequest` holds the three fixed-size char arrays of
    `esp_http_t`, and the setters write into them;
  - `RequestBuild` renders the exact GET request (request line, `Host`,
    `Connection: close`, as in sections 3.1.1, 5.4 and 6.1 of RFC 7230);
  - `ExtractJsonBody` strips the `+IPD,<n>:` envelope and copies what follows
    the first empty line (section 3 of RFC 7230);
  - `JsonGetString` looks up a flat string field and trims it.
- **Flash log store** (`FlashLog`). The sector is an `array<u32>` of 16384
  words inside the class `LogStore`, which also holds `write_address`,
  `log_status`, `g_log_enable` and whether the mutex exists. Every public
  operation is a method proved equal to a specification function on a value
  `Store`. Lemmas about those functions cover:
  - the append: the record lands at the aligned write address, and nothing
    else changes;
  - the scans: the contiguous valid prefix;
  - the status arithmetic: utilisation, the full threshold, and the
    `remain_logNum` wrap;
  - index and latest-N access;
  - the newest-first copy of `Log_ReadLatest`;
  - a `Consistent` invariant that `Write` (on success), `Init`, `UpdateStatus`
    and `Clear` keep or establish.

Modelling choices that hold throughout:

- **Frames and C strings are character sequences.** A read at or past the
  end yields NUL (`Common.At`). This is how the parsers' reads past `buf_len`
  (`at_parser.c:62, 66, 149-174, 286`) and `esp_http.c:811` are modelled:
  every frame is treated as followed by a NUL byte.
- **Unsigned C types are subset types** (`u8`, `u16`, `u32`). Each wrap the
  source relies on is written out:
  - `2*find_index-1` in `uint8_t`;
  - the `uint32_t` digit accumulation;
  - the `uint32_t` transfer time in the timeout;
  - `MAX_LOG_NUM - logNum` in `uint16_t`.
- **Outside events are parameters.** Mutex takes, HAL program and erase
  results, DMA start, the completion notification and the `vsnprintf`
  output are all inputs: booleans, or small records of booleans.
- **Undefined macros are parameters.** `Tx_DATA_BUFFER` is the length of the
  transmit buffer, and `ESP_UART_BAUDRATE` is the `baud` parameter. Neither
  is defined in `esp8266_driver.h`, which defines `ESP_USART_BAUDRATE`
  (9600), used by `TimeoutMonotoneAt9600`, and `COMMAND_BUFFER` (128).
- **`ESP_HTTP_ERR_UNKNOWN`** is returned by `http_json_getString` but is
  missing from the error enum. The model adds it to `HttpErr`.
- **`sizeof(LogType_t)` is 72 bytes**, which assumes a one-byte enum: 17 body
  words plus the valid flag. The sector is 128 KB but the log uses 64 KB of
  it. A word read at or past `LOG_FLASH_END` therefore reads as erased, so
  the 911th slot, whose flag lies past the end, is never valid.

## Model

| member | source | states |
|---|---|---|
| ByteMatch.Find | Drivers/BSP/at_parser.c:5-9 | memmem: the first offset where the needle lies wholly inside the haystack, none if there is no such offset; an empty needle is found at 0 |
| ByteMatch.FindInPrefix | Drivers/BSP/at_parser.c:43 | searching only the first `len` bytes finds the same first match as the whole frame when the prefix holds it |
| AtParser.StrChr | Drivers/BSP/at_parser.c:66-76 | strchr: the first position holding the character before any NUL; none means a NUL (or the end) comes first |
| AtParser.WsEnd | Drivers/BSP/at_parser.c:286-289 | the whitespace run ends at the first non-blank position, reading NUL past the end |
| AtParser.DigitsEnd | Drivers/BSP/at_parser.c:167-174 | the digit run ends at the first non-digit position |
| AtParser.SkipWs | Drivers/BSP/at_parser.c:273-292 | NULL stays NULL; otherwise the result steps over the given byte and then over blanks, so it is strictly past the input |
| AtParser.DecValueU32Wraps | Drivers/BSP/at_parser.c:164-174 | the uint32 accumulation value*10+digit equals the exact decimal value modulo 2^32 |
| AtParser.DecRoundTrip | Drivers/BSP/at_parser.c:164-174 | parsing the decimal rendering of n gives n modulo 2^32 |
| AtParser.NthFrom | Drivers/BSP/at_parser.c:231-245 | the position of the n-th occurrence of ch from i, or none when fewer than n occur |
| AtParser.FindNthSpec | Drivers/BSP/at_parser.c:215-258 | a found index is inside the frame, holds ch, and is preceded by exactly target-1 occurrences of ch |
| AtParser.FindNthFound | Drivers/BSP/at_parser.c:217-255 | find_nth succeeds iff the frame exists, 0 < find_index <= buf_len and ch occurs at least target times (target = 2k-1 in uint8 for paired quotes) |
| AtParser.FindNthPairWraps | Drivers/BSP/at_parser.c:226-229 | with paired quotes, find_index 129 wraps to target 1 in uint8 and so finds the first quote |
| AtParser.FindNth | Drivers/BSP/at_parser.c:215-258 | the loop returns exactly FindNthSpec |
| AtParser.FieldSpan | Drivers/BSP/at_parser.c:313-406 | a field span lies inside the frame, holds no terminator of its mode, is followed by one, and starts at WsEnd one past the delimiter FindNthSpec locates, with only blanks between; an unknown mode has none |
| AtParser.FieldSpanFrom | Drivers/BSP/at_parser.c:324-340 | from a located start the span ends at the first terminator, and fails if the frame ends first |
| AtParser.GetField | Drivers/BSP/at_parser.c:296-413 | at_get_field succeeds iff the arguments are present and FieldSpan exists, and then writes its start and length; on failure out_len is untouched and out_start changes only where IN_QUOTES writes it early |
| AtParser.LocateField | Drivers/BSP/at_parser.c:313-320 | find_nth followed by skip_ws yields FieldStart |
| AtParser.ScanField | Drivers/BSP/at_parser.c:324-340 | the terminator scan returns the first terminator position, or fails when it runs to buf_len |
| AtParser.GetNumSpec | Drivers/BSP/at_parser.c:113-188 | a number is only found when buf and key are present, buf is non-empty, the key is under 30 chars and "+key:" occurs in the frame |
| AtParser.AccumulateDigits | Drivers/BSP/at_parser.c:164-174 | the loop stops at the end of the digit run and returns its uint32 value |
| AtParser.GetNum | Drivers/BSP/at_parser.c:113-188 | at_get_num returns true iff out_val is given and GetNumSpec finds a value, which it stores; otherwise out_val is untouched |
| AtParser.GetNumSpecAt | Drivers/BSP/at_parser.c:136-186 | after the first "+key:" and its blanks, the result is the uint32 value of the maximal digit run |
| AtParser.NumFramePositions | Drivers/BSP/at_parser.c:146-174 | in pattern ++ blanks ++ digits the match, blank run and digit run sit at the expected positions |
| AtParser.NumAfterPattern | Drivers/BSP/at_parser.c:146-186 | "+key:" followed by blanks and digits d parses to the value of d |
| AtParser.NumRoundTrip | Drivers/BSP/at_parser.c:125-186 | "+key:" followed by the decimal rendering of n parses back to n modulo 2^32 |
| AtParser.GetNumPlain | Drivers/BSP/at_parser.c:146-186 | "+KEY:123" gives 123 |
| AtParser.GetNumLeadingBlank | Drivers/BSP/at_parser.c:149-152 | "+KEY: 42" gives 42 |
| AtParser.GetNumNoDigits | Drivers/BSP/at_parser.c:177-184 | "+KEY:abc" gives no value |
| AtParser.GetNumNoDigitAfter | Drivers/BSP/at_parser.c:177-184 | for every frame, when the byte after the first "+key:" and its blanks is not a digit, no number is found |
| AtParser.GetNumLongKey | Drivers/BSP/at_parser.c:125-134 | a key of 30 or more chars never yields a value, since "+key:" does not fit in 32 bytes |
| AtParser.QuotedValue | Drivers/BSP/at_parser.c:41-76 | a quoted value exists only when the key occurs, and holds neither '"' nor NUL |
| AtParser.QuotedRoundTrip | Drivers/BSP/at_parser.c:41-87 | pre ++ key ++ sep ++ '"' ++ v ++ '"' ++ post yields exactly v whenever the first match of key is the one after pre and sep and v hold no quote (v no NUL either), whatever pre and post hold |
| AtParser.QuotedAt | Drivers/BSP/at_parser.c:41-87 | the value is the bytes between the first quote after the first key match and the next quote, when no NUL comes between |
| AtParser.QuotedExample | Drivers/BSP/at_parser.c:41-87 | the +CWJAP: reply "home" followed by ",1" yields home |
| AtParser.GetStringBetweenQuotes | Drivers/BSP/at_parser.c:21-88 | true iff the arguments are valid and a quoted value exists; then out_val holds it cut to out_len-1 chars plus NUL, the rest untouched; on false nothing is written |
| AtParser.LocateQuoted | Drivers/BSP/at_parser.c:43-78 | the pointer walk finds the span of the quoted value exactly when QuotedValue exists |
| EspDriver.TimeoutMs | Hardware/esp8266_driver.c:418-432 | the timeout is always in [100, 5000] and equals the raw value when that is in range |
| EspDriver.RawTimeoutExact | Hardware/esp8266_driver.c:422-427 | without uint32 overflow the raw timeout is len*10*(1000000/baud)*3/2/1000 |
| EspDriver.TimeoutMonotone | Hardware/esp8266_driver.c:418-432 | while the transfer time does not overflow, the timeout is nondecreasing in data_len |
| EspDriver.TimeoutMonotoneAt9600 | Hardware/esp8266_driver.c:418-432 | at 9600 baud the timeout is nondecreasing over every uint16 length |
| EspDriver.TimeoutWrapsAt300 | Hardware/esp8266_driver.c:424-430 | at 300 baud the uint32 product wraps: 42953 bytes give 5000 ms but 42954 give 100 ms |
| EspDriver.Framed | Hardware/esp8266_driver.c:132-135 | the framed command is the text followed by CR LF, two bytes longer |
| EspDriver.SendLockBalanced | Hardware/esp8266_driver.c:101-184 | a failed take leaves no event; otherwise the trace starts with the take, ends with the give, and holds exactly one of each |
| EspDriver.SendTrueIff | Hardware/esp8266_driver.c:139-176 | SendAT returns true iff the lock is taken, the render fits, the DMA starts and the notification arrives within the computed timeout |
| EspDriver.SendTransmitsOnlyFramed | Hardware/esp8266_driver.c:116-140 | any transmission was requested under the lock, for a render that fits, and carried exactly text ++ CR LF |
| EspDriver.SendBufferFraming | Hardware/esp8266_driver.c:114-135 | after a sendable render the buffer holds text, CR, LF and then only NULs |
| EspDriver.Esp8266.constructor | Hardware/esp8266_driver.c:14-27 | all buffers zeroed, rx_flag NO_DATA, no waiting task, empty event logs |
| EspDriver.Esp8266.SendAT | Hardware/esp8266_driver.c:101-184 | the result and the appended events are those of SendSpec; with the lock, the task handle ends NULL; the buffer is untouched without the lock and is the zeroed, rendered and framed text with it |
| EspDriver.Esp8266.TransmitFrame | Hardware/esp8266_driver.c:137-183 | the DMA start, the notification wait and the give follow TransmitSpec, and the task handle ends NULL |
| EspDriver.Esp8266.RenderInto | Hardware/esp8266_driver.c:114-116 | memset then vsnprintf leave the buffer as the rendered text truncated to fit, NUL-padded |
| EspDriver.Esp8266.TerminateLine | Hardware/esp8266_driver.c:132-134 | writes CR, LF, NUL after the text and nothing else |
| EspDriver.Esp8266.SendFramed | Hardware/esp8266_driver.c:130-176 | for a render that fits: the buffer ends as text ++ CR LF ++ NUL over the zeroed rest, exactly that frame goes to the DMA, and the result and events are those of TransmitSpec; the task handle ends NULL |
| EspDriver.Esp8266.ConnectModeChange | Hardware/esp8266_driver.c:188-234 | returns the mode iff it is STATION, SOFTAP or STATION_SOFTAP and the lock is taken, even if the inner send failed; otherwise ESP_ERROR with nothing changed; the inner send runs inside the outer take and give; on an accepted mode with the lock the task handle ends NULL and the buffer holds the framed AT+CWMODE=<mode> command |
| EspDriver.ModeChangeLockBalanced | Hardware/esp8266_driver.c:207-231 | the nested recursive takes and gives balance: two of each, outermost first and last |
| EspDriver.ModeCommandFits | Hardware/esp8266_driver.c:211-227 | "AT+CWMODE=<m>" is 11 chars, so both snprintf failure branches are unreachable |
| UartIrq.PendingFrame | Core/Src/stm32f4xx_it.c:76-80 | a frame is pending iff rx_flag is RECV_DATA, and it is recvData_len bytes, at most the buffer |
| UartIrq.RxEventCallback | Core/Src/stm32f4xx_it.c:72-92 | on the ESP UART: length := Size, rx_flag := RECV_DATA, the whole staging buffer is copied, the staging buffer is zeroed, and re-arming is recorded, whatever was pending; any other UART changes nothing |
| UartIrq.TxCpltCallback | Core/Src/stm32f4xx_it.c:95-107 | on the ESP UART exactly one notification goes to the registered task; otherwise none |
| EspTcp.Code | Hardware/esp8266_tcp.h:16-24 | error codes lie in -5..0 and only ESP_TCP_OK is 0 |
| EspTcp.InitOrder | Hardware/esp8266_tcp.c:39-176 | the commands go out in the fixed order CWJAP?, CIPMUX?, [CIPMUX=0], CIPMODE?, [CIPMODE=0], starting with CWJAP? |
| EspTcp.InitOkIff | Hardware/esp8266_tcp.c:39-189 | OK iff the joined SSID matches and both CIPMUX and CIPMODE report 0, or report 1 and are then set to 0 |
| EspTcp.InitFailsAtLastCommand | Hardware/esp8266_tcp.c:73-176 | the call stops at the first failure: TIMEOUT iff the last command could not be sent, and every earlier command was sent and answered |
| EspTcp.InitConnectFailIff | Hardware/esp8266_tcp.c:54-64 | CONNECT_FAIL iff the reported SSID was extracted and differs from the configured one |
| EspTcp.InitSetsOnlyOnOne | Hardware/esp8266_tcp.c:96-166 | the "=0" command is sent iff the query reported 1 |
| EspTcp.TcpHandle.constructor | Hardware/esp8266_tcp.c:5 | the static handle starts zeroed |
| EspTcp.TcpHandle.Reset | Hardware/esp8266_tcp.c:178-183 | is_Connected false, conn_ID and remain 0xFF, Port 0, Host and remote_IP zeroed, state untouched |
| EspTcp.Init | Hardware/esp8266_tcp.c:31-190 | the result and the commands sent are those of InitSpec; no error path touches the handle, and success resets it |
| EspHttp.Truncated | Hardware/esp_http.c:110-118 | the copy is the first min(len, length-1) chars of the source |
| EspHttp.TruncatedWhole | Hardware/esp_http.c:114-115 | a source shorter than the field is copied whole |
| EspHttp.SafetyStrncpy | Hardware/esp_http.c:110-118 | with a source and a non-zero length, dest holds the truncated source, a NUL, and its old tail; otherwise dest is untouched |
| EspHttp.Init | Hardware/esp_http.c:143-169 | NULL gives INVALID_ARGS; otherwise all fields zeroed, method POST iff the argument is non-zero, version 1.1, total_len 0 |
| EspHttp.SetHost | Hardware/esp_http.c:200-225 | NULL gives INVALID_ARGS; otherwise host becomes the truncated argument, and the result is SET_VAL iff it is empty |
| EspHttp.SetPath | Hardware/esp_http.c:249-284 | INVALID_ARGS iff an argument is NULL or the path does not start with '/', with path unchanged; otherwise the truncated path is stored; SET_VAL never occurs |
| EspHttp.JoinHeadersLength | Hardware/esp_http.c:326-346 | headers added one by one take their lengths plus 2 per CR LF separator |
| EspHttp.JoinNonEmpty | Hardware/esp_http.c:341-346 | once a non-empty header is added, the extra headers are non-empty |
| EspHttp.AddHeader | Hardware/esp_http.c:314-349 | INVALID_ARGS iff an argument is NULL; BUF_OVRFLW iff old+new+2 >= 128, with the field unchanged; otherwise the field becomes old ++ (CR LF if old is non-empty) ++ header, still under 128 |
| EspHttp.Strcat | Hardware/esp_http.c:343-346 | strcat writes the addition and a NUL at the old terminator and nothing else |
| EspHttp.RequestLength | Hardware/esp_http.c:427-453 | the rendered request is min_need-1 chars without extra headers and min_need+1 with them |
| EspHttp.RequestFraming | Hardware/esp_http.c:448-453 | the request starts "GET " path " HTTP/1.1\r\n" and ends with an empty line |
| EspHttp.BuildResult | Hardware/esp_http.c:393-463 | BUILD_REQ is returned exactly when all checks pass, extra is non-empty and min_need = size-1; OK implies the request is shorter than the buffer |
| EspHttp.NoBuildReqWithoutHeaders | Hardware/esp_http.c:427-463 | with no extra headers BUILD_REQ cannot occur |
| EspHttp.RequestBuild | Hardware/esp_http.c:393-470 | the result follows the checks in order; OK writes exactly the request plus NUL and sets total_len to its length; BUILD_REQ leaves the truncated snprintf output; every other failure leaves out_buf untouched |
| EspHttp.RenderRequest | Hardware/esp_http.c:427-467 | the pre-check fails with BUF_OVRFLW and leaves the buffer alone; a request that does not fit gives BUILD_REQ with the truncated output; otherwise the buffer holds the request and its NUL and the length is returned |
| EspHttp.Snprintf | Hardware/esp_http.c:448-453 | snprintf returns the full length and writes at most size-1 chars plus NUL |
| EspHttp.BodyStart | Hardware/esp_http.c:643-651 | the search starts inside the response, after the "+IPD,<digits>:" envelope when present |
| EspHttp.BodyCopyLen | Hardware/esp_http.c:659-664 | the copied length always leaves room for the NUL |
| EspHttp.ExtractJsonBody | Hardware/esp_http.c:639-670 | a one-byte buffer is accepted whenever no body is found; true iff the arguments are present and a blank line follows the envelope; then out_json holds the body cut to BodyCopyLen plus NUL; on false it is untouched |
| EspHttp.SkipEnvelope | Hardware/esp_http.c:643-651 | the pointer walk over the envelope stops at BodyStart |
| EspHttp.CopyPrefix | Hardware/esp_http.c:666-667 | memcpy followed by the NUL writes exactly n chars and the terminator |
| EspHttp.BodyAfterHeaders | Hardware/esp_http.c:643-669 | envelope ++ head ++ CRLFCRLF ++ body yields exactly body when head holds no blank line |
| EspHttp.ExtractExample | Hardware/esp_http.c:639-670 | "+IPD,13:HTTP/1.1 200 OK\r\nX:1\r\n\r\nhello" yields "hello" |
| EspHttp.NoEarlyHeaderEnd | Hardware/esp_http.c:654-656 | two header lines free of CR hold no CRLFCRLF before the one that closes them |
| EspHttp.SkipStruct | Hardware/esp_http.c:40-45 | skips exactly the whitespace and , : { [ run, stopping at NUL |
| EspHttp.ValueStart | Hardware/esp_http.c:794-809 | a string value starts just after an opening quote |
| EspHttp.ValueStartAt | Hardware/esp_http.c:794-809 | a key whose first occurrence is preceded by '"', followed by '":', then bytes skip_ws_and_struct steps over and a '"' at q, has its value at q+1 |
| EspHttp.HitAt | Hardware/esp_http.c:790-809 | such a key, alone in key_paths, is the first hit with its value at q+1 |
| EspHttp.RawAt | Hardware/esp_http.c:809-819 | a value without quotes, closed by '"' and shorter than out_size, is copied whole |
| EspHttp.FlatFieldHit | Hardware/esp_http.c:790-809 | in pre "key": blanks "v" post, with the key first found after pre, the key hits with its value right after the opening quote |
| EspHttp.FlatFieldRaw | Hardware/esp_http.c:809-819 | in such a field, a quote-free v shorter than out_size is copied exactly |
| EspHttp.JsonGetStringRoundTrip | Hardware/esp_http.c:790-837 | for every flat field pre "key": blanks "v" post whose key is first found after pre, with v quote-free and shorter than out_size: the key hits, the copy is v, and out_buf ends holding Trim(v) and a NUL |
| EspHttp.FirstHit | Hardware/esp_http.c:790-856 | the first non-NULL key in array order whose first occurrence qualifies; every earlier key is NULL or fails |
| EspHttp.QuoteDistance | Hardware/esp_http.c:811-816 | the copy stops at the closing quote or at the buffer limit, and holds no quote |
| EspHttp.RawValue | Hardware/esp_http.c:809-819 | at most out_size-1 chars are copied |
| EspHttp.RTrimLen | Hardware/esp_http.c:822-825 | right trimming removes exactly the trailing whitespace |
| EspHttp.LSkip | Hardware/esp_http.c:828-832 | left skipping counts exactly the leading whitespace |
| EspHttp.Trim | Hardware/esp_http.c:822-837 | the result is a slice of the value with only whitespace cut on either side, and it neither starts nor ends with whitespace |
| EspHttp.TrimPadded | Hardware/esp_http.c:822-837 | whitespace around a trimmed value is removed exactly |
| EspHttp.AllSpaceTrim | Hardware/esp_http.c:822-825 | an all-whitespace value trims to "" |
| EspHttp.GetStringBufferHolds | Hardware/esp_http.c:818-837 | after the copy and both trims the buffer starts with the trimmed value and a NUL |
| EspHttp.JsonGetString | Hardware/esp_http.c:775-857 | for a non-NULL one-byte out_buf only an empty first-hit value is accepted (the C overruns otherwise); INVALID_ARGS iff an argument is missing or path_cnt is 0; otherwise OK iff some key qualifies, else UNKNOWN; on OK the buffer is the trimmed copy of the first hit's value; on failure it is untouched |
| EspHttp.FindKey | Hardware/esp_http.c:790-847 | the key loop finds exactly FirstHit |
| EspHttp.LocateValue | Hardware/esp_http.c:794-809 | strstr and the quote, colon and structural checks yield ValueStart |
| EspHttp.CopyTrimmed | Hardware/esp_http.c:809-837 | the copy, right trim and left shift leave the buffer as GetStringBuffer |
| EspHttp.TrimLeft | Hardware/esp_http.c:828-837 | the memmove shifts the right-trimmed value left over its leading whitespace |
| EspHttp.ShiftLeft | Hardware/esp_http.c:834-837 | memmove(a, a + l, m - l): bytes l..m move to the front and the rest of the array keeps its bytes |
| EspHttp.CountValue | Hardware/esp_http.c:811-816 | the counting loop returns QuoteDistance with limit out_size-1 |
| EspHttp.TrimRight | Hardware/esp_http.c:822-825 | the loop NULs trailing whitespace and returns RTrimLen |
| EspHttp.RightTrimmedBuffer | Hardware/esp_http.c:822-825 | the buffer state the right-trim loop leaves behind, pointwise, is AfterRightTrim |
| EspHttp.KeptPrefix | Hardware/esp_http.c:822-830 | after the right trim the buffer starts with the kept bytes and a NUL |
| FlashLog.IsValid | Drivers/BSP/flash_log.c:861-880 | true iff the record is present and its flag is LOG_VALID_MAGIC_FLAG |
| FlashLog.PrefixLen | Drivers/BSP/flash_log.c:155-166 | the valid prefix ends inside the log area |
| FlashLog.PrefixSlotsValid | Drivers/BSP/flash_log.c:155-166 | every slot of the valid prefix carries the valid flag |
| FlashLog.ScanStops | Drivers/BSP/flash_log.c:544-557 | the scan stops at LOG_FLASH_END or at the first slot without the flag |
| FlashLog.PrefixOfRun | Drivers/BSP/flash_log.c:155-166 | a run of n valid slots followed by the end or an invalid slot is exactly the prefix counted |
| FlashLog.FullThreshold | Drivers/BSP/flash_log.c:185-200 | the rounded utilisation exceeds 95 iff used >= 62587 bytes |
| FlashLog.StatusOf | Drivers/BSP/flash_log.c:175-201 | the status of n records: logNum n, used 72n, used + free = LOG_FLASH_SIZE, full iff utilisation > 95 |
| FlashLog.RemainWrapsPastMax | Drivers/BSP/flash_log.c:191 | past 900 records remain_logNum wraps in uint16 and exceeds MAX_LOG_NUM |
| FlashLog.StatusFullIff | Drivers/BSP/flash_log.c:185-200 | the store counts as full iff it holds at least 870 records |
| FlashLog.BumpedStatusOf | Drivers/BSP/flash_log.c:451-460 | the status update of one append turns the status of n records into that of n+1 |
| FlashLog.RateStep | Drivers/BSP/flash_log.c:185-200 | after one more record the rounded utilisation fits a byte, and it is above the full threshold iff it was before or becomes so now |
| FlashLog.EraseOutcome | Drivers/BSP/flash_log.c:215-259 | a failed unlock changes nothing; otherwise the erase-magic word is stamped whenever its program succeeds, even after a failed erase, and every other word is erased exactly when the erase succeeds |
| FlashLog.WriteRefusals | Drivers/BSP/flash_log.c:352-417 | logging off, no lock, a bad erase word, no room or a failed unlock each give false with the store unchanged |
| FlashLog.WriteAppends | Drivers/BSP/flash_log.c:368-461 | on success the record with the valid flag sits at the 4-aligned base, no other word changes, write_address grows by 72 and the status is bumped |
| FlashLog.AlignUpBounds | Drivers/BSP/flash_log.c:371-377 | the aligned base is a multiple of 4 within 3 bytes above write_address |
| FlashLog.ProgramRecord | Drivers/BSP/flash_log.c:421-436 | programming the body words and then the valid flag makes the slot read back as the record, and no word outside the slot changes |
| FlashLog.ProgramReadsBack | Drivers/BSP/flash_log.c:421-436 | the programmed slot reads back as the body plus the valid flag |
| FlashLog.ProgramKeepsOthers | Drivers/BSP/flash_log.c:421-436 | every word outside the programmed slot keeps its value |
| FlashLog.WriteMarksValidAfterBodyFailure | Drivers/BSP/flash_log.c:426-473 | after a body word fails the flag is still programmed, the call returns false, and write_address and status are unchanged |
| FlashLog.InitFindsFreeSlot | Drivers/BSP/flash_log.c:529-557 | init moves write_address, aligned, to the first slot from the old address without the flag, or to the end |
| FlashLog.InitWithoutMutex | Drivers/BSP/flash_log.c:503-517 | if no mutex can be created, init only switches logging off |
| FlashLog.UpdateStatusCounts | Drivers/BSP/flash_log.c:151-201 | with logging on and the lock taken, logNum is the valid-prefix length, used is 72 per record, full iff at least 870, flash untouched |
| FlashLog.UpdateStatusGuarded | Drivers/BSP/flash_log.c:145-172 | with logging off or no lock the update changes nothing |
| FlashLog.GetAtIndexIff | Drivers/BSP/flash_log.c:591-637 | succeeds iff index <= MAX_LOG_NUM, the output is given and the valid prefix has more than index records; the copy is valid |
| FlashLog.LatestNIff | Drivers/BSP/flash_log.c:663-738 | succeeds iff the output is given, a take succeeds within the retries, n < logNum and slot logNum-1-n is in range and valid; then it yields that slot's address |
| FlashLog.ReadLatestNewestFirst | Drivers/BSP/flash_log.c:775-848 | when the latest-N lookup succeeds, entry k is record logNum-1-k sanitised, entries past the count are untouched, and the result is at most the count; otherwise nothing is written and 0 is returned |
| FlashLog.DisabledRefusesWrite | Drivers/BSP/flash_log.c:352-358 | with logging off a write changes nothing |
| FlashLog.EnableIdempotent | Drivers/BSP/flash_log.c:61-80 | enabling an enabled log changes nothing |
| FlashLog.ClearNeedsMagic | Drivers/BSP/flash_log.c:293-299 | without the erase magic word, clear changes nothing |
| FlashLog.ConsistentAligned | Drivers/BSP/flash_log.c:368-377 | in a consistent store write_address is the slot after the last record and already aligned |
| FlashLog.ConsistentScan | Drivers/BSP/flash_log.c:544-557 | in a consistent store the scans find exactly logNum records and stop at write_address |
| FlashLog.InitAndUpdateKeepConsistent | Drivers/BSP/flash_log.c:143-204 | re-running init or the status update on a consistent store changes nothing |
| FlashLog.WriteKeepsEarlierRecords | Drivers/BSP/flash_log.c:421-461 | a successful write keeps every earlier record valid |
| FlashLog.WriteKeepsErasedTail | Drivers/BSP/flash_log.c:421-461 | after a successful write everything from the new write_address on is still erased |
| FlashLog.WriteKeepsConsistent | Drivers/BSP/flash_log.c:343-480 | a successful write keeps the store consistent, adds one record, and that record is readable at index logNum |
| FlashLog.WriteSucceeds | Drivers/BSP/flash_log.c:343-480 | on a consistent store with room, logging on and every HAL step succeeding, the write succeeds |
| FlashLog.ClearEmpties | Drivers/BSP/flash_log.c:284-324 | a clear whose erase succeeds, with the lock taken, leaves an empty consistent store with the zero status |
| FlashLog.ReadLatestOnConsistent | Drivers/BSP/flash_log.c:775-848 | on a consistent store the read returns the full count, newest first, every entry valid |
| FlashLog.ReadLatestCountOnConsistent | Drivers/BSP/flash_log.c:813-847 | on a consistent store no copied record fails the magic check, so the full count is returned |
| FlashLog.ReadLatestRecordsOnConsistent | Drivers/BSP/flash_log.c:805-832 | on a consistent store entry k is record logNum-1-k, valid and so unchanged by the sanitising |
| FlashLog.LatestBaseOnConsistent | Drivers/BSP/flash_log.c:775-803 | on a consistent store the latest-N lookup for cnt-1 finds the oldest of the cnt newest records |
| FlashLog.LatestSlotsValid | Drivers/BSP/flash_log.c:813-832 | the copies of the cnt newest records of a consistent store count no invalid record |
| FlashLog.AllValidCount | Drivers/BSP/flash_log.c:812-831 | when every copied entry carries the flag none is counted as failed |
| FlashLog.LogStore.State | Drivers/BSP/flash_log.c:5-17 | the object's fields always form a well-formed store |
| FlashLog.LogStore.constructor | Drivers/BSP/flash_log.c:5-17 | the store starts on a given flash image, write_address at the first record, zero status, logging off, no mutex |
| FlashLog.LogStore.Enable | Drivers/BSP/flash_log.c:61-80 | Log_Enable is EnableSpec |
| FlashLog.LogStore.Disable | Drivers/BSP/flash_log.c:105-117 | Log_Disable switches logging off and changes nothing else |
| FlashLog.LogStore.GetCount | Drivers/BSP/flash_log.c:904-916 | logNum under the lock, 0 without it |
| FlashLog.LogStore.UpdateStatus | Drivers/BSP/flash_log.c:143-204 | Log_UpdateStatus is UpdateStatusSpec |
| FlashLog.LogStore.CountValid | Drivers/BSP/flash_log.c:151-166 | the counting loop returns the valid-prefix length |
| FlashLog.LogStore.Erase | Drivers/BSP/flash_log.c:215-259 | Log_Flash_Erase is EraseSpec |
| FlashLog.LogStore.Init | Drivers/BSP/flash_log.c:501-560 | Log_Flash_Init is InitSpec |
| FlashLog.LogStore.FindFreeSlot | Drivers/BSP/flash_log.c:541-557 | the scan loop returns ScanFrom |
| FlashLog.LogStore.Write | Drivers/BSP/flash_log.c:343-480 | Log_Flash_Write is WriteSpec in result and new state |
| FlashLog.LogStore.ProgramBody | Drivers/BSP/flash_log.c:426-434 | the body loop programs words up to the first failure and reports success iff none failed |
| FlashLog.LogStore.Clear | Drivers/BSP/flash_log.c:284-324 | Log_Flash_ClearLogMes is ClearSpec |
| FlashLog.LogStore.GetAtIndex | Drivers/BSP/flash_log.c:591-637 | the scan returns GetAtIndexSpec |
| FlashLog.LogStore.GetLatestN | Drivers/BSP/flash_log.c:663-738 | the retrying lookup returns LatestNSpec |
| FlashLog.LogStore.ReadLatest | Drivers/BSP/flash_log.c:775-848 | a NULL buffer gives 0; otherwise the buffer and the count are those of ReadLatestSpec |
| FlashLog.LogStore.FillLatest | Drivers/BSP/flash_log.c:805-847 | the copy loop and the magic check leave the sanitised copies newest first in the first cnt entries and return cnt minus the invalid ones |
| FlashLog.LogStore.CopyNewestFirst | Drivers/BSP/flash_log.c:805-810 | the copy loop fills the first cnt entries newest first, the rest untouched |
| FlashLog.LogStore.Validate | Drivers/BSP/flash_log.c:812-847 | the check loop zeroes the flag of each invalid entry and returns cnt minus their number |

## Left out

- esp8266_WaitResponse (Hardware/esp8266_driver.c:238-274) is unfinished: it never reads a frame, has no return on timeout, and subtracts a function pointer. Only its outcome enters the model, as the "OK seen" input of each TCP exchange.
- The memmem body in Hardware/esp8266_driver.c:82-90 is empty; only its specification, `ByteMatch.Find`, is modelled.
- http_Get (Hardware/esp_http.c:525-611) connects and sends over hidden driver globals. Its parts, RequestBuild and extract_json_body, are modelled.
- http_json_getNum (Hardware/esp_http.c:862-949) produces a double through strtod; floating point is not modelled.
- json_util_extractQuotes and the commented-out http_json_getCity (Hardware/esp_http.c:50-82, 675-770) are dead code.
- esp8266_tcp_getState and Log_GetStatus only return pointers to static state. The model reads the fields directly (`EspHttp.Online` reads the `TcpHandle`).
- Log_SelfTest depends on delays; Log_PanicWrite writes Backup SRAM at fault time; _log_write_impl formats with vsnprintf. The formatted record is a parameter of `FlashLog.LogStore.Write`.
- Peripheral and RTOS plumbing is not modelled: UART4_Init, the DMA setup, task creation, the fault handlers, clock enables, the printf retarget and LED loops, and LOG_WRITE and printf side effects.
- Timestamps from xTaskGetTickCount and HAL_GetTick are not modelled.
- Concurrency is not modelled. Mutex takes, task notifications, critical sections and ISR timing are boolean inputs, never interleavings.
- Flash bit semantics are simplified. A successful program stores the word and a failed one leaves it unchanged. The hardware rule that programming can only clear bits is not modelled.
- The `(uint8_t)` cast of the rounded double utilisation is modelled as the exact integer rounding taken modulo 256. That rounding is exact because LOG_FLASH_SIZE is a power of two, and the value never exceeds 100 inside the log area.
- EspHttp.ExtractJsonBody: excludes only a one-byte out_json together with a response whose header end is found. There the C computes out_json_size-2 in size_t (esp_http.c:661-664), which wraps to a huge copy length; this undefined behaviour is not modelled. Every other input with size 1, where the C returns false before the copy, is modelled.
- EspHttp.JsonGetString: excludes only a non-NULL one-byte out_buf together with a first-hit value that is not empty. The comparison count > out_size-2 is done in int (esp_http.c:815), so it does not wrap: it stops the loop at count 1, and the C then copies one byte and writes out_buf[1], past the buffer (esp_http.c:818-819). This overrun is not modelled; an empty value with size 1 is.
- FlashLog.LogStore.ReadLatest: requires the effective ReadNum to be at most 255. The uint8_t loop counter never terminates for larger counts.
- EspDriver.Esp8266.SendAT: the transmit buffer is at most 65536 bytes (Tx_DATA_BUFFER is undefined), so the framed length fits the uint16 DMA length.
- AtParser.GetNum and the other parsers: frames are at most 65535 bytes, since buf_len is a uint16_t.
- EspDriver.Esp8266.ConnectModeChange: the two snprintf failure branches are not modelled, because `ModeCommandFits` proves them unreachable for the three accepted modes.
