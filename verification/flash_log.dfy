/** The flash log store of Drivers/BSP/flash_log.c: fixed-size LogType_t
    records appended to one flash area behind an erase-magic word, a write
    pointer, a valid flag per record and a status block.

    Flash is an array of 32-bit words covering LOG_FLASH_SIZE bytes from
    LOG_FLASH_START_ADDR. The HAL calls (unlock, program, erase) and the
    mutex takes are outcomes passed in by the caller. */
module FlashLog {
  import opened Common

  const LOG_ON: u32 := 0x5AA5_5AA5
  const LOG_OFF: u32 := 0xA5A5_5A5A

  const LOG_FLASH_START_ADDR: int := 0x0806_0000
  const LOG_FLASH_SIZE: int := 0x1_0000
  const LOG_FLASH_END: int := LOG_FLASH_START_ADDR + LOG_FLASH_SIZE
  const OFFSET_ERASEFLAG: int := 4
  const ERASE_FLAG_MAGIC_WORD: u32 := 0x5A5A_5A5A
  const LOG_VALID_MAGIC_FLAG: u32 := 0xA5A5_A5A5
  const LOG_FLASH_ALIGNMENT: int := 4
  const LOG_IS_FULL_PERCENT: int := 95
  const MAX_LOG_NUM: int := 900
  const FLASH_LOG_RETRY_COUNT: int := 3
  const DEFAULT_READNUM: int := 4

  /** sizeof(LogType_t): 4 + 1 (level) + 3 + 16 + 44 + 4 bytes. */
  const LOG_RECORD_SIZE: int := 72
  /** Words programmed from the record before its valid flag. */
  const BODY_WORDS: int := (LOG_RECORD_SIZE - 4) / 4
  const FLASH_WORDS: int := LOG_FLASH_SIZE / 4
  /** The value of an erased flash word. */
  const ERASED_WORD: u32 := 0xFFFF_FFFF
  /** Address of the first record, right after the erase-magic word. */
  const FIRST_RECORD: int := LOG_FLASH_START_ADDR + OFFSET_ERASEFLAG

  /** A LogType_t as it lies in flash: the timestamp, level, task name and
      message words, then the valid flag. */
  datatype LogRecord = LogRecord(body: seq<u32>, validFlag: u32)

  predicate Shaped(r: LogRecord)
  {
    |r.body| == BODY_WORDS
  }

  /** LogStatus_t. */
  datatype LogStatus = LogStatus(logNum: u16, usedBytes: u32, freeBytes: u32,
                                 remainLogNum: u16, utilizationRate: u8, isFull: bool)

  /** The module's static state: flash contents, write_address, log_status,
      g_log_enable and whether xMutexLog exists. */
  datatype Store = Store(mem: seq<u32>, writeAddress: int, status: LogStatus,
                         enable: u32, mutex: bool)

  predicate WellFormed(s: Store)
  {
    |s.mem| == FLASH_WORDS && FIRST_RECORD <= s.writeAddress <= LOG_FLASH_END + LOG_RECORD_SIZE
  }

  /* ---------------------------------------------------------------- */
  /* Reading flash                                                    */
  /* ---------------------------------------------------------------- */

  /** The word at a byte address. The log area is the first half of a
      128 KB sector that the log alone erases and programs, so a word read
      past LOG_FLASH_END is an erased word. */
  function ReadWord(mem: seq<u32>, addr: int): u32
    requires |mem| == FLASH_WORDS
  {
    if LOG_FLASH_START_ADDR <= addr && addr + 4 <= LOG_FLASH_END &&
       (addr - LOG_FLASH_START_ADDR) % 4 == 0
    then mem[(addr - LOG_FLASH_START_ADDR) / 4]
    else ERASED_WORD
  }

  /** The valid_flag of the record at addr holds LOG_VALID_MAGIC_FLAG. */
  predicate SlotValid(mem: seq<u32>, addr: int)
    requires |mem| == FLASH_WORDS
  {
    ReadWord(mem, addr + LOG_RECORD_SIZE - 4) == LOG_VALID_MAGIC_FLAG
  }

  /** *(LogType_t *)addr. */
  function RecordAt(mem: seq<u32>, addr: int): LogRecord
    requires |mem| == FLASH_WORDS
  {
    LogRecord(seq(BODY_WORDS, k requires 0 <= k < BODY_WORDS => ReadWord(mem, addr + 4 * k)),
              ReadWord(mem, addr + LOG_RECORD_SIZE - 4))
  }

  /** The address k records after base. */
  function SlotAddr(base: int, k: int): int
  {
    base + LOG_RECORD_SIZE * k
  }

  /** The number of consecutive valid records from addr, stepping one
      record at a time while below LOG_FLASH_END. */
  function PrefixLen(mem: seq<u32>, addr: int): (n: nat)
    requires |mem| == FLASH_WORDS
    ensures n == 0 || SlotAddr(addr, n) <= LOG_FLASH_END
    decreases LOG_FLASH_END - addr
  {
    if addr >= LOG_FLASH_END || !SlotValid(mem, addr) then 0
    else 1 + PrefixLen(mem, addr + LOG_RECORD_SIZE)
  }

  /** The first address from addr, in steps of one record, that is at or
      past LOG_FLASH_END or holds no valid record. */
  function ScanFrom(mem: seq<u32>, addr: int): int
    requires |mem| == FLASH_WORDS
  {
    SlotAddr(addr, PrefixLen(mem, addr))
  }

  /** Every record the scan passes over is valid. */
  lemma {:induction false} PrefixSlotsValid(mem: seq<u32>, addr: int, k: nat)
    requires |mem| == FLASH_WORDS
    requires k < PrefixLen(mem, addr)
    ensures SlotValid(mem, SlotAddr(addr, k))
    decreases k
  {
    if k > 0 {
      PrefixSlotsValid(mem, addr + LOG_RECORD_SIZE, k - 1);
    }
  }

  /** The scan stops at the end of the area or at a record that is not valid. */
  lemma {:induction false} ScanStops(mem: seq<u32>, addr: int)
    requires |mem| == FLASH_WORDS
    ensures ScanFrom(mem, addr) >= LOG_FLASH_END || !SlotValid(mem, ScanFrom(mem, addr))
    decreases LOG_FLASH_END - addr
  {
    if addr < LOG_FLASH_END && SlotValid(mem, addr) {
      ScanStops(mem, addr + LOG_RECORD_SIZE);
    }
  }

  /** A run of n valid records followed by the end or an invalid record is
      exactly the prefix the scan counts. */
  lemma {:induction false} PrefixOfRun(mem: seq<u32>, addr: int, n: nat)
    requires |mem| == FLASH_WORDS
    requires forall k :: 0 <= k < n ==> SlotAddr(addr, k) < LOG_FLASH_END && SlotValid(mem, SlotAddr(addr, k))
    requires SlotAddr(addr, n) >= LOG_FLASH_END || !SlotValid(mem, SlotAddr(addr, n))
    ensures PrefixLen(mem, addr) == n
    decreases n
  {
    if n > 0 {
      assert SlotAddr(addr, 0) == addr;
      var next := addr + LOG_RECORD_SIZE;
      forall k | 0 <= k < n - 1
        ensures SlotAddr(next, k) < LOG_FLASH_END && SlotValid(mem, SlotAddr(next, k))
      {
        assert SlotAddr(next, k) == SlotAddr(addr, k + 1);
      }
      assert SlotAddr(next, n - 1) == SlotAddr(addr, n);
      PrefixOfRun(mem, next, n - 1);
    }
  }

  /** Log_IsValid: a record is valid when a record is given and its
      valid_flag holds the magic value. */
  function IsValid(log: Option<LogRecord>): (b: bool)
    ensures b <==> log.Some? && log.value.validFlag == LOG_VALID_MAGIC_FLAG
  {
    match log
    case None => false
    case Some(r) => r.validFlag == LOG_VALID_MAGIC_FLAG
  }

  /* ---------------------------------------------------------------- */
  /* Status block                                                     */
  /* ---------------------------------------------------------------- */

  /** (uint8_t)(used * 100.0 / LOG_FLASH_SIZE + 0.5) before the cast: the
      size is a power of two, so the double arithmetic is exact and the
      truncation is a floor. */
  function Rate(used: nat): nat
  {
    (used * 100 + LOG_FLASH_SIZE / 2) / LOG_FLASH_SIZE
  }

  /** A utilisation above LOG_IS_FULL_PERCENT means at least 62587 used bytes. */
  lemma FullThreshold(used: nat)
    ensures Rate(used) > LOG_IS_FULL_PERCENT <==> used >= 62587
  {
  }

  /** The status Log_UpdateStatus computes for n valid records. */
  function StatusOf(n: nat): (st: LogStatus)
    requires LOG_RECORD_SIZE * n <= LOG_FLASH_SIZE
    ensures st.logNum == n && st.usedBytes == LOG_RECORD_SIZE * n
    ensures st.usedBytes + st.freeBytes == LOG_FLASH_SIZE
    ensures st.isFull <==> st.utilizationRate > LOG_IS_FULL_PERCENT
  {
    var used := LOG_RECORD_SIZE * n;
    LogStatus(n, used,
              if used >= LOG_FLASH_SIZE then 0 else LOG_FLASH_SIZE - used,
              (MAX_LOG_NUM - n) % U16_MOD,
              Rate(used), Rate(used) > LOG_IS_FULL_PERCENT)
  }

  /** The area holds 910 records but MAX_LOG_NUM is 900: past 900 records
      remain_logNum wraps around in 16 bits. */
  lemma RemainWrapsPastMax(n: nat)
    requires MAX_LOG_NUM < n && LOG_RECORD_SIZE * n <= LOG_FLASH_SIZE
    ensures StatusOf(n).remainLogNum == U16_MOD + MAX_LOG_NUM - n
    ensures StatusOf(n).remainLogNum > MAX_LOG_NUM
  {
  }

  /** The status is full from 870 records on. */
  lemma {:induction false} StatusFullIff(n: nat)
    requires LOG_RECORD_SIZE * n <= LOG_FLASH_SIZE
    ensures StatusOf(n).isFull <==> n >= 870
  {
    FullThreshold(LOG_RECORD_SIZE * n);
  }

  /** The in-lock status update of a successful Log_Flash_Write, in the
      C widths: the counters wrap, the rate is cast to 8 bits and is_full
      is only ever set. */
  function Bumped(st: LogStatus): LogStatus
  {
    var n := (st.logNum + 1) % U16_MOD;
    var used := (st.usedBytes + LOG_RECORD_SIZE) % U32_MOD;
    var rate := Rate(used) % U8_MOD;
    LogStatus(n, used, (LOG_FLASH_SIZE - used) % U32_MOD, (MAX_LOG_NUM - n) % U16_MOD,
              rate, if rate > LOG_IS_FULL_PERCENT then true else st.isFull)
  }

  /** Inside the log area the rounded utilisation is at most 100 and grows
      with the used bytes. */
  lemma RateBounded(used: nat, more: nat)
    requires used <= more <= LOG_FLASH_SIZE
    ensures Rate(used) <= Rate(more) <= 100
  {
  }

  /** One more record on a status that matches its records gives the
      status of one more record. */
  lemma {:induction false} BumpedStatusOf(n: nat)
    requires LOG_RECORD_SIZE * (n + 1) <= LOG_FLASH_SIZE
    ensures Bumped(StatusOf(n)) == StatusOf(n + 1)
  {
    var used := LOG_RECORD_SIZE * (n + 1);
    var st := StatusOf(n);
    var rate := Rate(used);
    RateStep(n);
    assert (st.logNum + 1) % U16_MOD == n + 1;
    assert (st.usedBytes + LOG_RECORD_SIZE) % U32_MOD == used;
    assert (LOG_FLASH_SIZE - used) % U32_MOD == LOG_FLASH_SIZE - used;
    assert rate % U8_MOD == rate;
    assert (if rate > LOG_IS_FULL_PERCENT then true else st.isFull) == (rate > LOG_IS_FULL_PERCENT);
    var expected := LogStatus(n + 1, used, LOG_FLASH_SIZE - used, (MAX_LOG_NUM - (n + 1)) % U16_MOD,
                              rate, rate > LOG_IS_FULL_PERCENT);
    assert Bumped(st) == expected;
    assert StatusOf(n + 1) == expected;
  }

  /** The utilisation after one more record fits a byte, and the status is
      full after it exactly when it was full before or becomes so now. */
  lemma RateStep(n: nat)
    requires LOG_RECORD_SIZE * (n + 1) <= LOG_FLASH_SIZE
    ensures Rate(LOG_RECORD_SIZE * (n + 1)) < U8_MOD
    ensures Rate(LOG_RECORD_SIZE * (n + 1)) > LOG_IS_FULL_PERCENT || Rate(LOG_RECORD_SIZE * n) > LOG_IS_FULL_PERCENT
            <==> Rate(LOG_RECORD_SIZE * (n + 1)) > LOG_IS_FULL_PERCENT
  {
    RateBounded(LOG_RECORD_SIZE * n, LOG_RECORD_SIZE * (n + 1));
  }

  /* ---------------------------------------------------------------- */
  /* Operations on the store                                          */
  /* ---------------------------------------------------------------- */

  /** Outcomes of HAL_FLASH_Unlock, HAL_FLASHEx_Erase and the program of
      the erase-magic word. */
  datatype EraseEnv = EraseEnv(unlockOk: bool, eraseOk: bool, stampOk: bool)

  function ErasedSector(): seq<u32>
  {
    seq(FLASH_WORDS, _ => ERASED_WORD)
  }

  /** Log_Flash_Erase: after a successful unlock the sector is erased and
      the erase-magic word programmed, the latter even when the erase
      failed. A failed operation leaves the words as they were. */
  function EraseSpec(mem: seq<u32>, e: EraseEnv): (r: seq<u32>)
    requires |mem| == FLASH_WORDS
    ensures |r| == FLASH_WORDS
  {
    if !e.unlockOk then mem
    else
      var erased := if e.eraseOk then ErasedSector() else mem;
      if e.stampOk then erased[0 := ERASE_FLAG_MAGIC_WORD] else erased
  }

  /** The erase-magic word is stamped whenever the unlock and its program
      succeed, even after a failed erase; every other word is erased after a
      successful erase and untouched otherwise. */
  lemma EraseOutcome(mem: seq<u32>, e: EraseEnv)
    requires |mem| == FLASH_WORDS
    ensures !e.unlockOk ==> EraseSpec(mem, e) == mem
    ensures e.unlockOk ==>
              EraseSpec(mem, e)[0] == (if e.stampOk then ERASE_FLAG_MAGIC_WORD else if e.eraseOk then ERASED_WORD else mem[0])
    ensures forall i :: 1 <= i < FLASH_WORDS ==>
              EraseSpec(mem, e)[i] == (if e.unlockOk && e.eraseOk then ERASED_WORD else mem[i])
  {
  }

  /** ( a + 3 ) & ~3 when a is not 4-aligned. */
  function AlignUp(a: int): int
  {
    if a % LOG_FLASH_ALIGNMENT != 0 then (a + 3) / 4 * 4 else a
  }

  /** Log_Flash_Init. */
  function InitSpec(s: Store, mutexOk: bool, e: EraseEnv): (r: Store)
    requires WellFormed(s)
    ensures WellFormed(r)
  {
    if !(s.mutex || mutexOk) then s.(enable := LOG_OFF)
    else
      var mem := if s.mem[0] != ERASE_FLAG_MAGIC_WORD then EraseSpec(s.mem, e) else s.mem;
      var a := AlignUp(s.writeAddress);
      s.(mutex := true, mem := mem, writeAddress := ScanFrom(mem, a))
  }

  /** Log_UpdateStatus. */
  function UpdateStatusSpec(s: Store, lockTaken: bool): (r: Store)
    requires WellFormed(s)
    ensures WellFormed(r)
  {
    if s.enable != LOG_ON || !lockTaken then s
    else s.(status := StatusOf(PrefixLen(s.mem, FIRST_RECORD)))
  }

  /** Outcomes of the mutex take, HAL_FLASH_Unlock, the body programs (the
      first one to fail, BODY_WORDS or more when none does) and the
      program of the valid flag. */
  datatype WriteEnv = WriteEnv(lockTaken: bool, unlockOk: bool, failAt: nat, flagOk: bool)

  /** `words` programmed into mem from word index w on. */
  function Programmed(mem: seq<u32>, w: int, words: seq<u32>): (r: seq<u32>)
    ensures |r| == |mem|
  {
    seq(|mem|, i requires 0 <= i < |mem| => if w <= i < w + |words| then words[i - w] else mem[i])
  }

  /** Log_Flash_Write: whether it succeeds, and the new state. */
  function WriteSpec(s: Store, rec: LogRecord, env: WriteEnv): (r: (bool, Store))
    requires WellFormed(s) && Shaped(rec)
    ensures WellFormed(r.1)
  {
    if s.enable == LOG_OFF || !env.lockTaken then (false, s)
    else
      var base := AlignUp(s.writeAddress);
      if s.mem[0] != ERASE_FLAG_MAGIC_WORD || base + LOG_RECORD_SIZE > LOG_FLASH_END || !env.unlockOk
      then (false, s)
      else
        var w := (base - LOG_FLASH_START_ADDR) / 4;
        var mem1 := Programmed(s.mem, w, rec.body[..Min(env.failAt, BODY_WORDS)]);
        var mem2 := if env.flagOk then mem1[w + BODY_WORDS := LOG_VALID_MAGIC_FLAG] else mem1;
        if env.flagOk && env.failAt >= BODY_WORDS then
          (true, s.(mem := mem2, writeAddress := s.writeAddress + LOG_RECORD_SIZE,
                    status := Bumped(s.status)))
        else (false, s.(mem := mem2))
  }

  /** Log_Flash_ClearLogMes: `e` for its own erase, `initErase` for the
      erase Log_Flash_Init may repeat. */
  function ClearSpec(s: Store, e: EraseEnv, lockTaken: bool, mutexOk: bool, initErase: EraseEnv): (r: Store)
    requires WellFormed(s)
    ensures WellFormed(r)
  {
    if s.mem[0] != ERASE_FLAG_MAGIC_WORD then s
    else
      var cleared := s.(mem := EraseSpec(s.mem, e),
                        status := if lockTaken then StatusOf(0) else s.status,
                        writeAddress := FIRST_RECORD);
      InitSpec(cleared, mutexOk, initErase)
  }

  /** Log_Enable. */
  function EnableSpec(s: Store, mutexOk: bool, e: EraseEnv, lockTaken: bool): (r: Store)
    requires WellFormed(s)
    ensures WellFormed(r)
  {
    if s.enable == LOG_ON then s
    else UpdateStatusSpec(InitSpec(s.(enable := LOG_ON), mutexOk, e), lockTaken)
  }

  /** Log_GetAtIndex: record `index` of the valid prefix. */
  function GetAtIndexSpec(s: Store, index: int, hasOut: bool): Option<LogRecord>
    requires WellFormed(s)
  {
    if index > MAX_LOG_NUM || !hasOut || index < 0 || index >= PrefixLen(s.mem, FIRST_RECORD) then None
    else Some(RecordAt(s.mem, SlotAddr(FIRST_RECORD, index)))
  }

  /** The mutex is taken within FLASH_LOG_RETRY_COUNT attempts. */
  predicate LockAcquired(takes: seq<bool>)
  {
    exists k :: 0 <= k < |takes| && k < FLASH_LOG_RETRY_COUNT && takes[k]
  }

  /** Log_GetLatestN: the address of the n-th newest record by log_status. */
  function LatestNSpec(s: Store, n: int, hasOut: bool, takes: seq<bool>): Option<int>
    requires WellFormed(s)
  {
    if !hasOut || !LockAcquired(takes) then None
    else
      var ln := s.status.logNum;
      if ln == 0 || n >= ln then None
      else
        var addr := SlotAddr(FIRST_RECORD, ln - 1 - n);
        if addr < FIRST_RECORD || addr + LOG_RECORD_SIZE > LOG_FLASH_END || !SlotValid(s.mem, addr) then None
        else Some(addr)
  }

  /** Log_ReadLatest's record count: 0 or more than log_status.logNum
      becomes DEFAULT_READNUM, then at most the buffer capacity. */
  function ReadCount(readNum: int, logNum: int, capacity: int): int
  {
    var r := if readNum == 0 || readNum > logNum then DEFAULT_READNUM else readNum;
    if r > capacity then capacity else r
  }

  /** cnt records from base, newest (highest address) first. */
  function LatestCopies(mem: seq<u32>, base: int, cnt: nat): (r: seq<LogRecord>)
    requires |mem| == FLASH_WORDS
    ensures |r| == cnt
  {
    seq(cnt, k requires 0 <= k < cnt => RecordAt(mem, SlotAddr(base, cnt - 1 - k)))
  }

  /** A copied record without the magic has its valid_flag cleared. */
  function Sanitize(r: LogRecord): LogRecord
  {
    if r.validFlag == LOG_VALID_MAGIC_FLAG then r else r.(validFlag := 0)
  }

  function InvalidCount(rs: seq<LogRecord>): (n: nat)
    ensures n <= |rs|
  {
    if |rs| == 0 then 0
    else InvalidCount(rs[..|rs| - 1]) + (if rs[|rs| - 1].validFlag == LOG_VALID_MAGIC_FLAG then 0 else 1)
  }

  /** Log_ReadLatest into a buffer holding `buf`: the new buffer and the
      number of valid records returned. */
  function ReadLatestSpec(buf: seq<LogRecord>, s: Store, readNum: u16, capacity: u16, takes: seq<bool>)
    : (r: (seq<LogRecord>, int))
    requires WellFormed(s) && capacity <= |buf|
    ensures |r.0| == |buf|
  {
    var cnt := ReadCount(readNum, s.status.logNum, capacity);
    match LatestNSpec(s, (cnt - 1) % U16_MOD, true, takes)
    case None => (buf, 0)
    case Some(base) =>
      var raw := LatestCopies(s.mem, base, cnt);
      (seq(cnt, k requires 0 <= k < cnt => Sanitize(raw[k])) + buf[cnt..], cnt - InvalidCount(raw))
  }

  /* ---------------------------------------------------------------- */
  /* Properties of the operations                                     */
  /* ---------------------------------------------------------------- */

  /** Log_Flash_Write refuses, changing nothing, when logging is off, the
      lock is not taken, the area was never erased, the record does not fit
      or the unlock fails. */
  lemma WriteRefusals(s: Store, rec: LogRecord, env: WriteEnv)
    requires WellFormed(s) && Shaped(rec)
    requires s.enable == LOG_OFF || !env.lockTaken || s.mem[0] != ERASE_FLAG_MAGIC_WORD ||
             AlignUp(s.writeAddress) + LOG_RECORD_SIZE > LOG_FLASH_END || !env.unlockOk
    ensures WriteSpec(s, rec, env) == (false, s)
  {
  }

  /** ( a + 3 ) & ~3 is the next multiple of 4 at or above a. */
  lemma AlignUpBounds(a: int)
    ensures AlignUp(a) % 4 == 0 && a <= AlignUp(a) < a + 4
  {
  }

  /** Programming a body and then the valid flag into the slot at base
      makes that slot read back as the record, and leaves every word
      outside the slot as it was. */
  lemma ProgramRecord(mem: seq<u32>, base: int, body: seq<u32>)
    requires |mem| == FLASH_WORDS && |body| == BODY_WORDS
    requires base % 4 == 0 && LOG_FLASH_START_ADDR <= base && base + LOG_RECORD_SIZE <= LOG_FLASH_END
    ensures var w := (base - LOG_FLASH_START_ADDR) / 4;
      var m := Programmed(mem, w, body)[w + BODY_WORDS := LOG_VALID_MAGIC_FLAG];
      RecordAt(m, base) == LogRecord(body, LOG_VALID_MAGIC_FLAG) &&
      forall a :: (a < base || a >= base + LOG_RECORD_SIZE) ==> ReadWord(m, a) == ReadWord(mem, a)
  {
    ProgramReadsBack(mem, base, body);
    ProgramKeepsOthers(mem, base, body);
  }

  /** The programmed slot reads back as the record. */
  lemma ProgramReadsBack(mem: seq<u32>, base: int, body: seq<u32>)
    requires |mem| == FLASH_WORDS && |body| == BODY_WORDS
    requires base % 4 == 0 && LOG_FLASH_START_ADDR <= base && base + LOG_RECORD_SIZE <= LOG_FLASH_END
    ensures var w := (base - LOG_FLASH_START_ADDR) / 4;
      var m := Programmed(mem, w, body)[w + BODY_WORDS := LOG_VALID_MAGIC_FLAG];
      RecordAt(m, base) == LogRecord(body, LOG_VALID_MAGIC_FLAG)
  {
    var w := (base - LOG_FLASH_START_ADDR) / 4;
    var m := Programmed(mem, w, body)[w + BODY_WORDS := LOG_VALID_MAGIC_FLAG];
    var rd := RecordAt(m, base);
    forall k | 0 <= k < BODY_WORDS ensures rd.body[k] == body[k] {
      assert ReadWord(m, base + 4 * k) == m[w + k];
    }
    assert rd.body == body;
    assert ReadWord(m, base + LOG_RECORD_SIZE - 4) == m[w + BODY_WORDS];
  }

  /** Every word outside the programmed slot keeps its value. */
  lemma ProgramKeepsOthers(mem: seq<u32>, base: int, body: seq<u32>)
    requires |mem| == FLASH_WORDS && |body| == BODY_WORDS
    requires base % 4 == 0 && LOG_FLASH_START_ADDR <= base && base + LOG_RECORD_SIZE <= LOG_FLASH_END
    ensures var w := (base - LOG_FLASH_START_ADDR) / 4;
      var m := Programmed(mem, w, body)[w + BODY_WORDS := LOG_VALID_MAGIC_FLAG];
      forall a :: (a < base || a >= base + LOG_RECORD_SIZE) ==> ReadWord(m, a) == ReadWord(mem, a)
  {
    var w := (base - LOG_FLASH_START_ADDR) / 4;
    var m := Programmed(mem, w, body)[w + BODY_WORDS := LOG_VALID_MAGIC_FLAG];
    forall i | 0 <= i < FLASH_WORDS && (i < w || i > w + BODY_WORDS) ensures m[i] == mem[i] {
    }
  }

  /** A successful write programs the record at the aligned write address
      with the valid flag last, moves write_address by one record and
      counts it in the status; nothing else in flash changes. */
  lemma {:induction false} WriteAppends(s: Store, rec: LogRecord, env: WriteEnv)
    requires WellFormed(s) && Shaped(rec)
    requires WriteSpec(s, rec, env).0
    ensures var base := AlignUp(s.writeAddress);
      var r := WriteSpec(s, rec, env).1;
      base % 4 == 0 && s.writeAddress <= base < s.writeAddress + 4 &&
      RecordAt(r.mem, base) == LogRecord(rec.body, LOG_VALID_MAGIC_FLAG) &&
      (forall a :: (a < base || a >= base + LOG_RECORD_SIZE) ==> ReadWord(r.mem, a) == ReadWord(s.mem, a)) &&
      r.writeAddress == s.writeAddress + LOG_RECORD_SIZE &&
      r.status == Bumped(s.status) && r.enable == s.enable
  {
    var base := AlignUp(s.writeAddress);
    var w := (base - LOG_FLASH_START_ADDR) / 4;
    AlignUpBounds(s.writeAddress);
    assert rec.body[..Min(env.failAt, BODY_WORDS)] == rec.body;
    var m := Programmed(s.mem, w, rec.body)[w + BODY_WORDS := LOG_VALID_MAGIC_FLAG];
    assert WriteSpec(s, rec, env).1 ==
           s.(mem := m, writeAddress := s.writeAddress + LOG_RECORD_SIZE, status := Bumped(s.status));
    ProgramRecord(s.mem, base, rec.body);
  }

  /** When a body word fails to program the valid flag is still written:
      the slot reads as valid although the call fails and leaves
      write_address and log_status alone. */
  lemma WriteMarksValidAfterBodyFailure(s: Store, rec: LogRecord, env: WriteEnv)
    requires WellFormed(s) && Shaped(rec)
    requires s.enable != LOG_OFF && env.lockTaken && env.unlockOk && env.flagOk
    requires s.mem[0] == ERASE_FLAG_MAGIC_WORD && AlignUp(s.writeAddress) + LOG_RECORD_SIZE <= LOG_FLASH_END
    requires env.failAt < BODY_WORDS
    ensures var r := WriteSpec(s, rec, env);
      !r.0 && SlotValid(r.1.mem, AlignUp(s.writeAddress)) &&
      r.1.writeAddress == s.writeAddress && r.1.status == s.status
  {
  }

  /** Log_Flash_Init (with the mutex) leaves write_address 4-aligned at
      the first record from the aligned old write_address on that is not
      valid, or at or past LOG_FLASH_END, every record before it valid. */
  lemma {:induction false} InitFindsFreeSlot(s: Store, mutexOk: bool, e: EraseEnv)
    requires WellFormed(s) && (s.mutex || mutexOk)
    ensures var r := InitSpec(s, mutexOk, e);
      var a := AlignUp(s.writeAddress);
      var n := PrefixLen(r.mem, a);
      r.writeAddress == SlotAddr(a, n) && r.writeAddress % 4 == 0 &&
      (forall k :: 0 <= k < n ==> SlotValid(r.mem, SlotAddr(a, k))) &&
      (r.writeAddress >= LOG_FLASH_END || !SlotValid(r.mem, r.writeAddress))
  {
    var r := InitSpec(s, mutexOk, e);
    var a := AlignUp(s.writeAddress);
    forall k | 0 <= k < PrefixLen(r.mem, a) ensures SlotValid(r.mem, SlotAddr(a, k)) {
      PrefixSlotsValid(r.mem, a, k);
    }
    ScanStops(r.mem, a);
  }

  /** Log_Flash_Init without a mutex switches logging off and changes
      nothing else. */
  lemma InitWithoutMutex(s: Store, e: EraseEnv)
    requires WellFormed(s) && !s.mutex
    ensures InitSpec(s, false, e) == s.(enable := LOG_OFF)
  {
  }

  /** Log_UpdateStatus, when it acts, counts the valid prefix; is_full
      holds exactly from 870 records on. */
  lemma {:induction false} UpdateStatusCounts(s: Store, lockTaken: bool)
    requires WellFormed(s) && s.enable == LOG_ON && lockTaken
    ensures var r := UpdateStatusSpec(s, lockTaken);
      var n := PrefixLen(s.mem, FIRST_RECORD);
      r.status.logNum == n && n <= 910 &&
      r.status.usedBytes == LOG_RECORD_SIZE * n &&
      (forall k :: 0 <= k < n ==> SlotValid(s.mem, SlotAddr(FIRST_RECORD, k))) &&
      (r.status.isFull <==> n >= 870) && r.mem == s.mem
  {
    var n := PrefixLen(s.mem, FIRST_RECORD);
    forall k | 0 <= k < n ensures SlotValid(s.mem, SlotAddr(FIRST_RECORD, k)) {
      PrefixSlotsValid(s.mem, FIRST_RECORD, k);
    }
    StatusFullIff(n);
  }

  /** Log_UpdateStatus does nothing while logging is off or the lock is
      not taken. */
  lemma UpdateStatusGuarded(s: Store, lockTaken: bool)
    requires WellFormed(s) && (s.enable != LOG_ON || !lockTaken)
    ensures UpdateStatusSpec(s, lockTaken) == s
  {
  }

  /** Log_GetAtIndex finds record i exactly when i <= MAX_LOG_NUM, an output
      is given and more than i records are valid in a row. */
  lemma {:induction false} GetAtIndexIff(s: Store, index: nat, hasOut: bool)
    requires WellFormed(s)
    ensures GetAtIndexSpec(s, index, hasOut).Some? <==>
      index <= MAX_LOG_NUM && hasOut && index < PrefixLen(s.mem, FIRST_RECORD)
    ensures GetAtIndexSpec(s, index, hasOut).Some? ==>
      IsValid(GetAtIndexSpec(s, index, hasOut))
  {
    if GetAtIndexSpec(s, index, hasOut).Some? {
      PrefixSlotsValid(s.mem, FIRST_RECORD, index);
    }
  }

  /** Log_GetLatestN fails without a lock, without records or for n not
      below logNum, and otherwise yields the record n places before the
      newest one by log_status, provided it lies in the area and is valid. */
  lemma LatestNIff(s: Store, n: nat, hasOut: bool, takes: seq<bool>)
    requires WellFormed(s)
    ensures LatestNSpec(s, n, hasOut, takes).Some? <==>
      hasOut && LockAcquired(takes) && n < s.status.logNum &&
      SlotAddr(FIRST_RECORD, s.status.logNum - 1 - n) + LOG_RECORD_SIZE <= LOG_FLASH_END &&
      SlotValid(s.mem, SlotAddr(FIRST_RECORD, s.status.logNum - 1 - n))
    ensures LatestNSpec(s, n, hasOut, takes).Some? ==>
      LatestNSpec(s, n, hasOut, takes).value == SlotAddr(FIRST_RECORD, s.status.logNum - 1 - n)
  {
  }

  /** Log_ReadLatest returns the count of valid copies: record k of the
      buffer is the k-th newest by log_status, with its flag cleared when
      it lacks the magic; the rest of the buffer is untouched. */
  lemma {:induction false} ReadLatestNewestFirst(buf: seq<LogRecord>, s: Store, readNum: u16, capacity: u16,
                                                 takes: seq<bool>)
    requires WellFormed(s) && capacity <= |buf|
    requires LockAcquired(takes)
    ensures var cnt := ReadCount(readNum, s.status.logNum, capacity);
      var r := ReadLatestSpec(buf, s, readNum, capacity, takes);
      var ok := LatestNSpec(s, (cnt - 1) % U16_MOD, true, takes).Some?;
      (ok ==> 1 <= cnt <= s.status.logNum && 0 <= r.1 <= cnt && r.0[cnt..] == buf[cnt..] &&
              forall k :: 0 <= k < cnt ==>
                r.0[k] == Sanitize(RecordAt(s.mem, SlotAddr(FIRST_RECORD, s.status.logNum - 1 - k)))) &&
      (!ok ==> r == (buf, 0))
  {
    var cnt := ReadCount(readNum, s.status.logNum, capacity);
    var res := LatestNSpec(s, (cnt - 1) % U16_MOD, true, takes);
    if res.Some? {
      var base := res.value;
      assert cnt >= 1;
      assert base == SlotAddr(FIRST_RECORD, s.status.logNum - cnt);
      var raw := LatestCopies(s.mem, base, cnt);
      var r := ReadLatestSpec(buf, s, readNum, capacity, takes);
      assert r.0 == seq(cnt, k requires 0 <= k < cnt => Sanitize(raw[k])) + buf[cnt..];
      forall k | 0 <= k < cnt
        ensures r.0[k] == Sanitize(RecordAt(s.mem, SlotAddr(FIRST_RECORD, s.status.logNum - 1 - k)))
      {
        assert r.0[k] == Sanitize(raw[k]);
        assert SlotAddr(base, cnt - 1 - k) == SlotAddr(FIRST_RECORD, s.status.logNum - 1 - k);
      }
    }
  }

  /** Log_Disable blocks every later write. */
  lemma DisabledRefusesWrite(s: Store, rec: LogRecord, env: WriteEnv)
    requires WellFormed(s) && Shaped(rec)
    ensures WriteSpec(s.(enable := LOG_OFF), rec, env) == (false, s.(enable := LOG_OFF))
  {
  }

  /** Log_Enable does nothing when logging is already on. */
  lemma EnableIdempotent(s: Store, mutexOk: bool, e: EraseEnv, lockTaken: bool)
    requires WellFormed(s) && s.enable == LOG_ON
    ensures EnableSpec(s, mutexOk, e, lockTaken) == s
  {
  }

  /** Log_Flash_ClearLogMes does nothing unless the erase-magic word is in place. */
  lemma ClearNeedsMagic(s: Store, e: EraseEnv, lockTaken: bool, mutexOk: bool, initErase: EraseEnv)
    requires WellFormed(s) && s.mem[0] != ERASE_FLAG_MAGIC_WORD
    ensures ClearSpec(s, e, lockTaken, mutexOk, initErase) == s
  {
  }

  /* ---------------------------------------------------------------- */
  /* The consistent store                                             */
  /* ---------------------------------------------------------------- */

  /** The store as the design intends it: erased and stamped, n valid
      records from FIRST_RECORD, write_address right after them, every
      word from there on erased, and log_status describing n records. */
  predicate Consistent(s: Store)
  {
    WellFormed(s) && s.mem[0] == ERASE_FLAG_MAGIC_WORD &&
    s.writeAddress <= LOG_FLASH_END &&
    (s.writeAddress - FIRST_RECORD) % LOG_RECORD_SIZE == 0 &&
    s.status == StatusOf((s.writeAddress - FIRST_RECORD) / LOG_RECORD_SIZE) &&
    (forall k :: 0 <= k < (s.writeAddress - FIRST_RECORD) / LOG_RECORD_SIZE ==>
       SlotValid(s.mem, SlotAddr(FIRST_RECORD, k))) &&
    (forall i :: (s.writeAddress - LOG_FLASH_START_ADDR) / 4 <= i < FLASH_WORDS ==> s.mem[i] == ERASED_WORD)
  }

  /** write_address of a consistent store sits right after logNum records
      and is 4-aligned. */
  lemma ConsistentAligned(s: Store)
    requires Consistent(s)
    ensures s.writeAddress == SlotAddr(FIRST_RECORD, s.status.logNum)
    ensures AlignUp(s.writeAddress) == s.writeAddress
  {
    var n := s.status.logNum;
    assert s.writeAddress - FIRST_RECORD == LOG_RECORD_SIZE * n;
    assert s.writeAddress == LOG_FLASH_START_ADDR + 4 * (1 + 18 * n);
  }

  /** In a consistent store the scan from the first record counts exactly
      the records before write_address and stops at write_address. */
  lemma {:induction false} ConsistentScan(s: Store)
    requires Consistent(s)
    ensures PrefixLen(s.mem, FIRST_RECORD) == s.status.logNum
    ensures ScanFrom(s.mem, FIRST_RECORD) == s.writeAddress
    ensures PrefixLen(s.mem, s.writeAddress) == 0
  {
    var n := (s.writeAddress - FIRST_RECORD) / LOG_RECORD_SIZE;
    assert SlotAddr(FIRST_RECORD, n) == s.writeAddress;
    assert !SlotValid(s.mem, s.writeAddress) by {
      var a := s.writeAddress + LOG_RECORD_SIZE - 4;
      if LOG_FLASH_START_ADDR <= a && a + 4 <= LOG_FLASH_END {
        assert s.mem[(a - LOG_FLASH_START_ADDR) / 4] == ERASED_WORD;
      }
    }
    forall k | 0 <= k < n ensures SlotAddr(FIRST_RECORD, k) < LOG_FLASH_END {
    }
    PrefixOfRun(s.mem, FIRST_RECORD, n);
  }

  /** Log_Flash_Init and Log_UpdateStatus leave a consistent store as it is. */
  lemma {:induction false} InitAndUpdateKeepConsistent(s: Store, e: EraseEnv, lockTaken: bool)
    requires Consistent(s) && s.mutex
    ensures InitSpec(s, false, e) == s
    ensures UpdateStatusSpec(s, lockTaken) == s
  {
    ConsistentScan(s);
    ConsistentAligned(s);
  }

  /** A successful write on a consistent store keeps the records before it. */
  lemma {:induction false} WriteKeepsEarlierRecords(s: Store, rec: LogRecord, env: WriteEnv)
    requires Consistent(s) && Shaped(rec)
    requires WriteSpec(s, rec, env).0
    ensures var r := WriteSpec(s, rec, env).1;
      forall k :: 0 <= k < s.status.logNum ==> SlotValid(r.mem, SlotAddr(FIRST_RECORD, k))
  {
    var r := WriteSpec(s, rec, env).1;
    var wa := s.writeAddress;
    ConsistentAligned(s);
    WriteAppends(s, rec, env);
    assert s.status.logNum == (wa - FIRST_RECORD) / LOG_RECORD_SIZE;
    forall k | 0 <= k < s.status.logNum ensures SlotValid(r.mem, SlotAddr(FIRST_RECORD, k)) {
      assert SlotValid(s.mem, SlotAddr(FIRST_RECORD, k));
      assert SlotAddr(FIRST_RECORD, k) + LOG_RECORD_SIZE - 4 < wa;
    }
  }

  /** A successful write on a consistent store leaves every word after the
      new record erased. */
  lemma {:induction false} WriteKeepsErasedTail(s: Store, rec: LogRecord, env: WriteEnv)
    requires Consistent(s) && Shaped(rec)
    requires WriteSpec(s, rec, env).0
    ensures var r := WriteSpec(s, rec, env).1;
      forall i :: (r.writeAddress - LOG_FLASH_START_ADDR) / 4 <= i < FLASH_WORDS ==> r.mem[i] == ERASED_WORD
  {
    var r := WriteSpec(s, rec, env).1;
    ConsistentAligned(s);
    WriteAppends(s, rec, env);
    forall i | (r.writeAddress - LOG_FLASH_START_ADDR) / 4 <= i < FLASH_WORDS
      ensures r.mem[i] == ERASED_WORD
    {
      assert ReadWord(r.mem, LOG_FLASH_START_ADDR + 4 * i) == ReadWord(s.mem, LOG_FLASH_START_ADDR + 4 * i);
    }
  }

  /** A write that succeeds on a consistent store appends exactly one
      record: the store stays consistent, the count grows by one and
      Log_GetAtIndex returns the new record. */
  lemma {:induction false} WriteKeepsConsistent(s: Store, rec: LogRecord, env: WriteEnv)
    requires Consistent(s) && Shaped(rec)
    requires WriteSpec(s, rec, env).0
    ensures var r := WriteSpec(s, rec, env).1;
      Consistent(r) && r.status.logNum == s.status.logNum + 1 &&
      (s.status.logNum <= MAX_LOG_NUM ==>
         GetAtIndexSpec(r, s.status.logNum, true) == Some(LogRecord(rec.body, LOG_VALID_MAGIC_FLAG)))
  {
    var r := WriteSpec(s, rec, env).1;
    var n := s.status.logNum;
    var wa := s.writeAddress;
    ConsistentAligned(s);
    WriteAppends(s, rec, env);
    assert SlotAddr(FIRST_RECORD, n) == wa;
    BumpedStatusOf(n);
    WriteKeepsEarlierRecords(s, rec, env);
    WriteKeepsErasedTail(s, rec, env);
    assert r.writeAddress == wa + LOG_RECORD_SIZE && r.status == StatusOf(n + 1);
    assert r.mem[0] == ERASE_FLAG_MAGIC_WORD by {
      assert ReadWord(r.mem, LOG_FLASH_START_ADDR) == ReadWord(s.mem, LOG_FLASH_START_ADDR);
    }
    assert (r.writeAddress - FIRST_RECORD) / LOG_RECORD_SIZE == n + 1;
    forall k | 0 <= k < n + 1 ensures SlotValid(r.mem, SlotAddr(FIRST_RECORD, k)) {
      if k == n {
        assert SlotValid(r.mem, wa);
      }
    }
    assert Consistent(r);
    ConsistentScan(r);
    assert RecordAt(r.mem, SlotAddr(FIRST_RECORD, n)) == LogRecord(rec.body, LOG_VALID_MAGIC_FLAG);
  }

  /** A consistent store that logs is written as long as the record fits
      and every HAL step succeeds. */
  lemma WriteSucceeds(s: Store, rec: LogRecord, env: WriteEnv)
    requires Consistent(s) && Shaped(rec) && s.enable != LOG_OFF
    requires env.lockTaken && env.unlockOk && env.flagOk && env.failAt >= BODY_WORDS
    requires s.writeAddress + LOG_RECORD_SIZE <= LOG_FLASH_END
    ensures WriteSpec(s, rec, env).0
  {
    ConsistentAligned(s);
  }

  /** A clear whose erase, stamp and lock succeed leaves an empty
      consistent store with write_address at the first record. */
  lemma {:induction false} ClearEmpties(s: Store, e: EraseEnv, mutexOk: bool, initErase: EraseEnv)
    requires WellFormed(s) && s.mem[0] == ERASE_FLAG_MAGIC_WORD
    requires e.unlockOk && e.eraseOk && e.stampOk && (s.mutex || mutexOk)
    ensures var r := ClearSpec(s, e, true, mutexOk, initErase);
      Consistent(r) && r.writeAddress == FIRST_RECORD && r.status == StatusOf(0) &&
      PrefixLen(r.mem, FIRST_RECORD) == 0
  {
    var mem := EraseSpec(s.mem, e);
    assert mem == ErasedSector()[0 := ERASE_FLAG_MAGIC_WORD];
    assert !SlotValid(mem, FIRST_RECORD) by {
      assert ReadWord(mem, FIRST_RECORD + LOG_RECORD_SIZE - 4) == mem[BODY_WORDS + 1];
    }
    assert PrefixLen(mem, FIRST_RECORD) == 0;
    var r := ClearSpec(s, e, true, mutexOk, initErase);
    assert r.writeAddress == FIRST_RECORD;
    assert r.mem == mem;
  }

  /** On a consistent store Log_ReadLatest with a lock returns cnt valid
      records, newest first, whenever cnt records exist. */
  lemma {:induction false} ReadLatestOnConsistent(buf: seq<LogRecord>, s: Store, readNum: u16, capacity: u16,
                                                  takes: seq<bool>)
    requires Consistent(s) && capacity <= |buf| && LockAcquired(takes)
    requires 1 <= ReadCount(readNum, s.status.logNum, capacity) <= s.status.logNum
    ensures var cnt := ReadCount(readNum, s.status.logNum, capacity);
      var r := ReadLatestSpec(buf, s, readNum, capacity, takes);
      r.1 == cnt &&
      forall k :: 0 <= k < cnt ==>
        r.0[k] == RecordAt(s.mem, SlotAddr(FIRST_RECORD, s.status.logNum - 1 - k)) && IsValid(Some(r.0[k]))
  {
    ReadLatestCountOnConsistent(buf, s, readNum, capacity, takes);
    ReadLatestRecordsOnConsistent(buf, s, readNum, capacity, takes);
  }

  /** The count half of ReadLatestOnConsistent: no copied record is invalid. */
  lemma ReadLatestCountOnConsistent(buf: seq<LogRecord>, s: Store, readNum: u16, capacity: u16,
                                    takes: seq<bool>)
    requires Consistent(s) && capacity <= |buf| && LockAcquired(takes)
    requires 1 <= ReadCount(readNum, s.status.logNum, capacity) <= s.status.logNum
    ensures ReadLatestSpec(buf, s, readNum, capacity, takes).1 == ReadCount(readNum, s.status.logNum, capacity)
  {
    var cnt := ReadCount(readNum, s.status.logNum, capacity);
    LatestSlotsValid(s, cnt);
    LatestBaseOnConsistent(s, cnt, takes);
  }

  /** The records half of ReadLatestOnConsistent: the copies are the newest
      records, each valid and so unchanged by the sanitising. */
  lemma ReadLatestRecordsOnConsistent(buf: seq<LogRecord>, s: Store, readNum: u16, capacity: u16,
                                      takes: seq<bool>)
    requires Consistent(s) && capacity <= |buf| && LockAcquired(takes)
    requires 1 <= ReadCount(readNum, s.status.logNum, capacity) <= s.status.logNum
    ensures var cnt := ReadCount(readNum, s.status.logNum, capacity);
      var r := ReadLatestSpec(buf, s, readNum, capacity, takes);
      forall k :: 0 <= k < cnt ==>
        r.0[k] == RecordAt(s.mem, SlotAddr(FIRST_RECORD, s.status.logNum - 1 - k)) && IsValid(Some(r.0[k]))
  {
    var cnt := ReadCount(readNum, s.status.logNum, capacity);
    var ln := s.status.logNum;
    LatestBaseOnConsistent(s, cnt, takes);
    ReadLatestNewestFirst(buf, s, readNum, capacity, takes);
    var r := ReadLatestSpec(buf, s, readNum, capacity, takes);
    forall k | 0 <= k < cnt
      ensures r.0[k] == RecordAt(s.mem, SlotAddr(FIRST_RECORD, ln - 1 - k)) && IsValid(Some(r.0[k]))
    {
      var a := SlotAddr(FIRST_RECORD, ln - 1 - k);
      assert SlotValid(s.mem, a);
      assert RecordAt(s.mem, a).validFlag == LOG_VALID_MAGIC_FLAG;
    }
  }

  /** On a consistent store Log_GetLatestN for cnt - 1 finds the oldest of
      the cnt newest records. */
  lemma LatestBaseOnConsistent(s: Store, cnt: nat, takes: seq<bool>)
    requires Consistent(s) && LockAcquired(takes) && 1 <= cnt <= s.status.logNum
    ensures LatestNSpec(s, (cnt - 1) % U16_MOD, true, takes) ==
            Some(SlotAddr(FIRST_RECORD, s.status.logNum - cnt))
  {
    var ln := s.status.logNum;
    assert (cnt - 1) % U16_MOD == cnt - 1;
    assert SlotValid(s.mem, SlotAddr(FIRST_RECORD, ln - 1 - (cnt - 1)));
    assert ln == (s.writeAddress - FIRST_RECORD) / LOG_RECORD_SIZE;
  }

  /** The cnt newest records of a consistent store are all valid: their
      copies count no invalid record. */
  lemma {:induction false} LatestSlotsValid(s: Store, cnt: nat)
    requires Consistent(s) && 1 <= cnt <= s.status.logNum
    ensures InvalidCount(LatestCopies(s.mem, SlotAddr(FIRST_RECORD, s.status.logNum - cnt), cnt)) == 0
  {
    var ln := s.status.logNum;
    var base := SlotAddr(FIRST_RECORD, ln - cnt);
    var raw := LatestCopies(s.mem, base, cnt);
    assert ln == (s.writeAddress - FIRST_RECORD) / LOG_RECORD_SIZE;
    forall k | 0 <= k < cnt ensures raw[k].validFlag == LOG_VALID_MAGIC_FLAG {
      var a := SlotAddr(FIRST_RECORD, ln - 1 - k);
      assert SlotAddr(base, cnt - 1 - k) == a;
      assert raw[k] == RecordAt(s.mem, a);
      assert SlotValid(s.mem, a);
    }
    AllValidCount(raw);
  }

  lemma {:induction false} AllValidCount(rs: seq<LogRecord>)
    requires forall k :: 0 <= k < |rs| ==> rs[k].validFlag == LOG_VALID_MAGIC_FLAG
    ensures InvalidCount(rs) == 0
    decreases |rs|
  {
    if |rs| > 0 {
      AllValidCount(rs[..|rs| - 1]);
    }
  }

  /* ---------------------------------------------------------------- */
  /* The module's state and its operations                            */
  /* ---------------------------------------------------------------- */

  class LogStore {
    /** The log area, one element per 32-bit word. */
    var flash: array<u32>
    var writeAddress: u32
    var status: LogStatus
    /** g_log_enable. */
    var enable: u32
    /** xMutexLog != NULL. */
    var mutexCreated: bool

    ghost predicate Valid()
      reads this
    {
      flash.Length == FLASH_WORDS &&
      FIRST_RECORD <= writeAddress <= LOG_FLASH_END + LOG_RECORD_SIZE
    }

    function State(): (s: Store)
      reads this, flash
      requires Valid()
      ensures WellFormed(s)
    {
      Store(flash[..], writeAddress, status, enable, mutexCreated)
    }

    /** The statics at reset over the flash contents left by earlier runs:
        write_address at the first record, a zeroed log_status, logging
        off and no mutex. */
    constructor(image: seq<u32>)
      requires |image| == FLASH_WORDS
      ensures Valid() && fresh(flash)
      ensures State() == Store(image, FIRST_RECORD, LogStatus(0, 0, 0, 0, 0, false), LOG_OFF, false)
    {
      flash := new u32[FLASH_WORDS](i requires 0 <= i < FLASH_WORDS => image[i]);
      writeAddress := FIRST_RECORD;
      status := LogStatus(0, 0, 0, 0, 0, false);
      enable := LOG_OFF;
      mutexCreated := false;
    }

    /** Log_Enable. */
    method Enable(mutexOk: bool, e: EraseEnv, lockTaken: bool)
      requires Valid()
      modifies this, flash
      ensures Valid() && flash == old(flash)
      ensures State() == EnableSpec(old(State()), mutexOk, e, lockTaken)
    {
      if enable != LOG_ON {
        enable := LOG_ON;
        Init(mutexOk, e);
        UpdateStatus(lockTaken);
      }
    }

    /** Log_Disable. */
    method Disable()
      requires Valid()
      modifies this`enable
      ensures Valid()
      ensures State() == old(State()).(enable := LOG_OFF)
    {
      if enable != LOG_OFF {
        enable := LOG_OFF;
      }
    }

    /** Log_GetCount: log_status.logNum under the lock, 0 without it. */
    function GetCount(lockTaken: bool): (cnt: u16)
      reads this
      ensures lockTaken ==> cnt == status.logNum
      ensures !lockTaken ==> cnt == 0
    {
      if lockTaken then status.logNum else 0
    }

    /** Log_UpdateStatus: count the valid records from the first one, then
        publish the status under the lock. */
    method UpdateStatus(lockTaken: bool)
      requires Valid()
      modifies this`status
      ensures Valid()
      ensures State() == UpdateStatusSpec(old(State()), lockTaken)
    {
      if enable != LOG_ON {
        return;
      }
      var num := CountValid();
      if !lockTaken {
        return;
      }
      status := StatusOf(num);
    }

    /** The scan of Log_UpdateStatus. */
    method CountValid() returns (num: nat)
      requires Valid()
      ensures num == PrefixLen(flash[..], FIRST_RECORD)
    {
      var addr := FIRST_RECORD;
      num := 0;
      while addr < LOG_FLASH_END && SlotValid(flash[..], addr)
        invariant addr == SlotAddr(FIRST_RECORD, num)
        invariant PrefixLen(flash[..], FIRST_RECORD) == num + PrefixLen(flash[..], addr)
        decreases LOG_FLASH_END - addr
      {
        num := num + 1;
        addr := addr + LOG_RECORD_SIZE;
      }
    }

    /** Log_Flash_Erase. */
    method Erase(e: EraseEnv)
      requires Valid()
      modifies flash
      ensures flash[..] == EraseSpec(old(flash[..]), e)
    {
      if !e.unlockOk {
        return;
      }
      if e.eraseOk {
        forall i | 0 <= i < flash.Length {
          flash[i] := ERASED_WORD;
        }
        assert flash[..] == ErasedSector();
      }
      if e.stampOk {
        flash[0] := ERASE_FLAG_MAGIC_WORD;
      }
    }

    /** Log_Flash_Init: create the mutex if needed, erase a never-erased
        area, align write_address and move it past the valid records. */
    method Init(mutexOk: bool, e: EraseEnv)
      requires Valid()
      modifies this, flash
      ensures Valid() && flash == old(flash)
      ensures State() == InitSpec(old(State()), mutexOk, e)
    {
      if !mutexCreated {
        mutexCreated := mutexOk;
      }
      if !mutexCreated {
        enable := LOG_OFF;
        return;
      }
      if flash[0] != ERASE_FLAG_MAGIC_WORD {
        Erase(e);
      }
      if writeAddress % LOG_FLASH_ALIGNMENT != 0 {
        writeAddress := (writeAddress + 3) / 4 * 4;
      }
      var addr := FindFreeSlot(writeAddress);
      writeAddress := addr;
    }

    /** The scan of Log_Flash_Init from `from`. */
    method FindFreeSlot(from: int) returns (addr: int)
      requires Valid()
      ensures addr == ScanFrom(flash[..], from)
    {
      addr := from;
      ghost var n := 0;
      while addr < LOG_FLASH_END
        invariant addr == SlotAddr(from, n)
        invariant PrefixLen(flash[..], from) == n + PrefixLen(flash[..], addr)
        decreases LOG_FLASH_END - addr
      {
        if !SlotValid(flash[..], addr) {
          break;
        }
        addr := addr + LOG_RECORD_SIZE;
        n := n + 1;
      }
    }

    /** Log_Flash_Write of a record image; the valid flag the caller put in
        it is never programmed. */
    method Write(rec: LogRecord, env: WriteEnv) returns (ok: bool)
      requires Valid() && Shaped(rec)
      modifies this, flash
      ensures Valid() && flash == old(flash)
      ensures (ok, State()) == WriteSpec(old(State()), rec, env)
    {
      if enable == LOG_OFF {
        return false;
      }
      if !env.lockTaken {
        return false;
      }
      var base := writeAddress as int;
      if base % LOG_FLASH_ALIGNMENT != 0 {
        base := (writeAddress + 3) / 4 * 4;
      }
      if flash[0] != ERASE_FLAG_MAGIC_WORD {
        return false;
      }
      if base + LOG_RECORD_SIZE > LOG_FLASH_END {
        return false;
      }
      if !env.unlockOk {
        return false;
      }
      var w := (base - LOG_FLASH_START_ADDR) / 4;
      var bodyOk := ProgramBody(w, rec.body, env.failAt);
      if !env.flagOk {
        return false;
      }
      flash[w + BODY_WORDS] := LOG_VALID_MAGIC_FLAG;
      if !bodyOk {
        return false;
      }
      writeAddress := writeAddress + LOG_RECORD_SIZE;
      status := Bumped(status);
      return true;
    }

    /** The word-by-word program loop of Log_Flash_Write, stopping at the
        first failing word. */
    method ProgramBody(w: nat, body: seq<u32>, failAt: nat) returns (bodyOk: bool)
      requires Valid() && |body| == BODY_WORDS && w + BODY_WORDS < FLASH_WORDS
      modifies flash
      ensures bodyOk <==> failAt >= BODY_WORDS
      ensures flash[..] == Programmed(old(flash[..]), w, body[..Min(failAt, BODY_WORDS)])
    {
      bodyOk := true;
      var j := 0;
      while j < BODY_WORDS
        invariant 0 <= j <= BODY_WORDS && j <= failAt
        invariant flash[..] == Programmed(old(flash[..]), w, body[..j])
      {
        if j == failAt {
          bodyOk := false;
          break;
        }
        flash[w + j] := body[j];
        j := j + 1;
      }
    }

    /** Log_Flash_ClearLogMes. */
    method Clear(e: EraseEnv, lockTaken: bool, mutexOk: bool, initErase: EraseEnv)
      requires Valid()
      modifies this, flash
      ensures Valid() && flash == old(flash)
      ensures State() == ClearSpec(old(State()), e, lockTaken, mutexOk, initErase)
    {
      if flash[0] != ERASE_FLAG_MAGIC_WORD {
        return;
      }
      Erase(e);
      if lockTaken {
        status := StatusOf(0);
      }
      writeAddress := FIRST_RECORD;
      Init(mutexOk, initErase);
    }

    /** Log_GetAtIndex: walk the valid records from the first one; `hasOut`
        says whether an output record was given. */
    method GetAtIndex(index: u16, hasOut: bool) returns (r: Option<LogRecord>)
      requires Valid()
      ensures r == GetAtIndexSpec(State(), index, hasOut)
    {
      if index > MAX_LOG_NUM {
        return None;
      }
      if !hasOut {
        return None;
      }
      var addr := FIRST_RECORD;
      var current := 0;
      while addr < LOG_FLASH_END
        invariant addr == SlotAddr(FIRST_RECORD, current) && current <= index
        invariant PrefixLen(flash[..], FIRST_RECORD) == current + PrefixLen(flash[..], addr)
        decreases LOG_FLASH_END - addr
      {
        if !SlotValid(flash[..], addr) {
          break;
        }
        if current == index {
          return Some(RecordAt(flash[..], addr));
        }
        current := current + 1;
        addr := addr + LOG_RECORD_SIZE;
      }
      return None;
    }

    /** Log_GetLatestN: up to FLASH_LOG_RETRY_COUNT mutex takes, then the
        address of the n-th newest record by log_status. */
    method GetLatestN(n: u16, hasOut: bool, takes: seq<bool>) returns (r: Option<int>)
      requires Valid() && |takes| == FLASH_LOG_RETRY_COUNT
      ensures r == LatestNSpec(State(), n, hasOut, takes)
    {
      if !hasOut {
        return None;
      }
      var count := 0;
      while !takes[count]
        invariant 0 <= count < FLASH_LOG_RETRY_COUNT
        invariant forall k :: 0 <= k < count ==> !takes[k]
        decreases FLASH_LOG_RETRY_COUNT - count
      {
        count := count + 1;
        if count >= FLASH_LOG_RETRY_COUNT {
          return None;
        }
      }
      if status.logNum == 0 || n >= status.logNum {
        return None;
      }
      var target := status.logNum - 1 - n;
      var addr := FIRST_RECORD + target * LOG_RECORD_SIZE;
      if addr < FIRST_RECORD || addr + LOG_RECORD_SIZE > LOG_FLASH_END {
        return None;
      }
      if !SlotValid(flash[..], addr) {
        return None;
      }
      return Some(addr);
    }

    /** Log_ReadLatest into `buffer` (NULL when absent). */
    method ReadLatest(readNum: u16, buffer: array?<LogRecord>, capacity: u16, takes: seq<bool>)
      returns (got: u16)
      requires Valid() && |takes| == FLASH_LOG_RETRY_COUNT
      requires buffer != null ==> capacity <= buffer.Length
      requires ReadCount(readNum, status.logNum, capacity) <= 255
      modifies buffer
      ensures buffer == null ==> got == 0
      ensures buffer != null ==>
                var r := ReadLatestSpec(old(buffer[..]), State(), readNum, capacity, takes);
                buffer[..] == r.0 && got == r.1
    {
      if buffer == null {
        return 0;
      }
      ghost var st := State();
      var cnt := ReadCount(readNum as int, status.logNum as int, capacity as int);
      var latest := GetLatestN(((cnt - 1) % U16_MOD) as u16, true, takes);
      if latest.None? {
        return 0;
      }
      ghost var before := buffer[..];
      var valid := FillLatest(buffer, latest.value, cnt);
      assert ReadLatestSpec(before, st, readNum, capacity, takes) == (buffer[..], valid as int);
      return valid;
    }

    /** The copy and check loops of Log_ReadLatest once the base address is
        known: the sanitised records, newest first, and how many were valid. */
    method FillLatest(buffer: array<LogRecord>, base: int, cnt: nat) returns (valid: u16)
      requires Valid() && 1 <= cnt <= 255 && cnt <= buffer.Length
      modifies buffer
      ensures var raw := LatestCopies(flash[..], base, cnt);
        buffer[..] == seq(cnt, k requires 0 <= k < cnt => Sanitize(raw[k])) + old(buffer[..])[cnt..] &&
        valid == cnt - InvalidCount(raw)
    {
      ghost var before := buffer[..];
      ghost var raw := LatestCopies(flash[..], base, cnt);
      CopyNewestFirst(buffer, base, cnt);
      assert buffer[..][..cnt] == raw;
      ghost var copied := buffer[..];
      valid := Validate(buffer, cnt);
      assert copied[cnt..] == before[cnt..];
    }

    /** The copy loop of Log_ReadLatest: buffer[ReadNum-1] down to buffer[0]
        from consecutive records at base. */
    method CopyNewestFirst(buffer: array<LogRecord>, base: int, cnt: nat)
      requires Valid() && cnt <= buffer.Length
      modifies buffer
      ensures buffer[..] == LatestCopies(flash[..], base, cnt) + old(buffer[..])[cnt..]
    {
      var addr := base;
      var j := cnt - 1;
      while j >= 0
        invariant -1 <= j < cnt
        invariant addr == SlotAddr(base, cnt - 1 - j)
        invariant forall k :: j < k < cnt ==> buffer[k] == RecordAt(flash[..], SlotAddr(base, cnt - 1 - k))
        invariant forall k :: 0 <= k <= j || cnt <= k < buffer.Length ==> buffer[k] == old(buffer[k])
      {
        buffer[j] := RecordAt(flash[..], addr);
        addr := addr + LOG_RECORD_SIZE;
        j := j - 1;
      }
    }

    /** The check loop of Log_ReadLatest: clear the flag of each copy
        without the magic and count those. */
    method Validate(buffer: array<LogRecord>, cnt: nat) returns (valid: u16)
      requires 1 <= cnt <= 255 && cnt <= buffer.Length
      modifies buffer
      ensures buffer[..] == seq(cnt, k requires 0 <= k < cnt => Sanitize(old(buffer[k]))) + old(buffer[..])[cnt..]
      ensures valid == cnt - InvalidCount(old(buffer[..])[..cnt])
    {
      ghost var raw := buffer[..];
      var count := 0;
      var failed := 0;
      while count < cnt
        invariant 0 <= count <= cnt
        invariant failed == InvalidCount(raw[..count])
        invariant forall k :: 0 <= k < count ==> buffer[k] == Sanitize(raw[k])
        invariant forall k :: count <= k < buffer.Length ==> buffer[k] == raw[k]
      {
        assert raw[..count + 1][..count] == raw[..count];
        if buffer[count].validFlag != LOG_VALID_MAGIC_FLAG {
          buffer[count] := buffer[count].(validFlag := 0);
          failed := failed + 1;
        }
        count := count + 1;
      }
      return count - failed;
    }
  }
}
