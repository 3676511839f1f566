/**
 * The STM ("ShrunkTileMap") tilemap compressor of compressors/gfxcomp_stm.c.
 *
 * The compressor reads `width * height` 16-bit tilemap words and writes one
 * byte stream: the width, then one record per run of words, then a zero
 * byte.  A run is an equal run (every word the same), a successive run
 * (every word one more than the one before it) or a raw run (low bytes
 * copied one by one).  The high bytes of the words are not stored per
 * word: a register HH holds the high byte in force, and a HI announcement
 * byte before a record changes it, for that record only ("temporary") or
 * from then on ("permanent").
 *
 * The functions below state the stream the compressor produces;
 * `StmCompressor` is the compressor itself, its globals as fields, proved
 * to write exactly that stream or to fail when it does not fit.
 */
module Stm {
  type Word = w: int | 0 <= w < 0x1_0000
  type Byte = b: int | 0 <= b < 0x100
  type Uint32 = n: int | 0 <= n < 0x1_0000_0000

  datatype Option<T> = None | Some(value: T)

  const RLE_TYPE_NORMAL: Byte := 0x01
  const RLE_TYPE_INCREMENTAL: Byte := 0x03
  const MIN_RLE_LEN: nat := 2
  const MAX_RLE_LEN: nat := MIN_RLE_LEN + 63
  const MAX_RAW_LEN: nat := 63

  /** HI(x) and LO(x) of the C source: the high and the low byte of a word. */
  function Hi(w: Word): Byte { w / 0x100 }
  function Lo(w: Word): Byte { w % 0x100 }

  /** `w & 0xff00`: the word with its low byte cleared. */
  function HighPart(w: Word): Word { w - w % 0x100 }

  /** The number of words the compressor reads: `width * height` in 32-bit unsigned arithmetic. */
  function InSize(width: Uint32, height: Uint32): Uint32
  {
    (width * height) % 0x1_0000_0000
  }

  // ---------------------------------------------------------------------
  // Runs

  /** Two equal words start at `current` (the test of line 118). */
  predicate StartsEqual(words: seq<Word>, current: nat)
  {
    current + 1 < |words| && words[current] == words[current + 1]
  }

  /** `b` is `a` plus one, compared as ints so 0xFFFF, 0x0000 is no pair (lines 133, 138, 154). */
  predicate Successor(a: Word, b: Word)
  {
    a as int + 1 == b as int
  }

  /** Two successive words start at `current` (the test of line 133). */
  predicate StartsSuccessive(words: seq<Word>, current: nat)
  {
    current + 1 < |words| && Successor(words[current], words[current + 1])
  }

  /** Two neighbours a raw run may hold: not equal, not successive, the same high byte. */
  predicate RawPair(a: Word, b: Word)
  {
    a != b && !Successor(a, b) && Hi(a) == Hi(b)
  }

  /** The word at `p` is its predecessor plus one. */
  predicate SuccessorAt(words: seq<Word>, p: nat)
    requires 0 < p < |words|
  {
    Successor(words[p - 1], words[p])
  }

  /** The word at `p` and its predecessor may stand together in a raw run. */
  predicate RawPairAt(words: seq<Word>, p: nat)
    requires 0 < p < |words|
  {
    RawPair(words[p - 1], words[p])
  }

  datatype RunKind = EqualRun | SuccessiveRun | RawRun

  /** The kind of record the compressor chooses at `current`: equal before successive before raw. */
  function KindAt(words: seq<Word>, current: nat): RunKind
  {
    if StartsEqual(words, current) then EqualRun
    else if StartsSuccessive(words, current) then SuccessiveRun
    else RawRun
  }

  /**
   * The length of an equal run, as the loop at line 121 counts it from `i`:
   * every word of the run equals the first, and the run stops only at the
   * cap of 65, at the end of the data or at a different word.
   */
  function EqualRunFrom(words: seq<Word>, current: nat, i: nat): (r: nat)
    requires MIN_RLE_LEN <= i <= MAX_RLE_LEN && current + i <= |words|
    requires forall p | current <= p < current + i :: words[p] == words[current]
    ensures i <= r <= MAX_RLE_LEN && current + r <= |words|
    ensures forall p | current <= p < current + r :: words[p] == words[current]
    ensures r == MAX_RLE_LEN || current + r == |words| || words[current + r] != words[current]
    decreases MAX_RLE_LEN - i
  {
    if i >= MAX_RLE_LEN || current + i >= |words| || words[current] != words[current + i] then i
    else EqualRunFrom(words, current, i + 1)
  }

  /**
   * The length of a successive run, as the loop at line 136 counts it from
   * `i`: every word is one more than the one before it, and the run stops
   * only at the cap of 65, at the end of the data or where a word breaks the
   * sequence.
   */
  function SuccessiveRunFrom(words: seq<Word>, current: nat, i: nat): (r: nat)
    requires MIN_RLE_LEN <= i <= MAX_RLE_LEN && current + i <= |words|
    requires forall p | current < p < current + i :: SuccessorAt(words, p)
    ensures i <= r <= MAX_RLE_LEN && current + r <= |words|
    ensures forall p | current < p < current + r :: SuccessorAt(words, p)
    ensures r == MAX_RLE_LEN || current + r == |words| || !Successor(words[current + r - 1], words[current + r])
    decreases MAX_RLE_LEN - i
  {
    if i >= MAX_RLE_LEN || current + i == |words| || !Successor(words[current + i - 1], words[current + i]) then i
    else SuccessiveRunFrom(words, current, i + 1)
  }

  /** The length of a raw run, as the loop at line 151 counts it from `i` (its properties: `RawRunFromSpec`). */
  function RawRunFrom(words: seq<Word>, current: nat, i: nat): (r: nat)
    requires 1 <= i <= MAX_RAW_LEN && current + i <= |words|
    ensures r <= MAX_RAW_LEN && current + r <= |words|
    decreases MAX_RAW_LEN - i
  {
    if i >= MAX_RAW_LEN || current + i == |words| then i
    else
      var prev, next := words[current + i - 1], words[current + i];
      if prev == next || Successor(prev, next) then i - 1
      else if Hi(prev) != Hi(next) then i
      else RawRunFrom(words, current, i + 1)
  }

  /**
   * A raw run holds between 1 and 63 words, no two neighbours equal or
   * successive and all of one high byte, and it ends only where
   * `RawRunStops` allows.
   */
  lemma {:induction false} RawRunFromSpec(words: seq<Word>, current: nat, i: nat)
    requires 1 <= i <= MAX_RAW_LEN && current + i <= |words|
    requires !StartsEqual(words, current) && !StartsSuccessive(words, current)
    requires forall p | current < p < current + i :: RawPairAt(words, p)
    ensures 1 <= RawRunFrom(words, current, i)
    ensures forall p | current < p < current + RawRunFrom(words, current, i) :: RawPairAt(words, p)
    ensures RawRunStops(words, current, RawRunFrom(words, current, i))
    decreases MAX_RAW_LEN - i
  {
    if i < MAX_RAW_LEN && current + i < |words| {
      var prev, next := words[current + i - 1], words[current + i];
      if !(prev == next || Successor(prev, next)) && Hi(prev) == Hi(next) {
        RawRunFromSpec(words, current, i + 1);
      }
    }
  }

  /**
   * Where a raw run of `r` words at `current` may end: at the cap, at the end
   * of the data, before a change of high byte, or before a word that starts
   * an equal or a successive run.
   */
  predicate RawRunStops(words: seq<Word>, current: nat, r: nat)
    requires 1 <= r && current + r <= |words|
  {
    || r == MAX_RAW_LEN || current + r == |words|
    || Hi(words[current + r - 1]) != Hi(words[current + r])
    || StartsEqual(words, current + r) || StartsSuccessive(words, current + r)
  }

  /** The number of words the record at `current` covers. */
  function RunLength(words: seq<Word>, current: nat): (i: nat)
    requires current < |words|
    ensures 1 <= i && current + i <= |words|
    ensures KindAt(words, current) != RawRun ==> MIN_RLE_LEN <= i <= MAX_RLE_LEN
    ensures KindAt(words, current) == RawRun ==> i <= MAX_RAW_LEN
  {
    if StartsEqual(words, current) then EqualRunFrom(words, current, 2)
    else if StartsSuccessive(words, current) then SuccessiveRunFrom(words, current, 2)
    else
      RawRunFromSpec(words, current, 1);
      RawRunFrom(words, current, 1)
  }

  // ---------------------------------------------------------------------
  // Record bytes

  /** writeRLE's length byte: LO(cnt - 2) shifted left by two, the type in the low bits, kept to 8 bits. */
  function RleHeader(cnt: nat, kind: Byte): Byte
    requires MIN_RLE_LEN <= cnt && kind < 4
  {
    (((cnt - MIN_RLE_LEN) % 0x100) * 4 + kind) % 0x100
  }

  /** The length byte of a raw record: LO(i) shifted left by two, kept to 8 bits. */
  function RawHeader(i: nat): Byte
  {
    ((i % 0x100) * 4) % 0x100
  }

  /**
   * An equal or successive record's length byte is `((cnt - 2) << 2) | kind`
   * with nothing lost to the 8 bits: the type in the low two bits, the length
   * less two above them, never zero.
   */
  lemma RleHeaderFields(cnt: nat, kind: Byte)
    requires MIN_RLE_LEN <= cnt <= MAX_RLE_LEN && 0 < kind < 4
    ensures RleHeader(cnt, kind) == (cnt - MIN_RLE_LEN) * 4 + kind
    ensures RleHeader(cnt, kind) % 4 == kind && RleHeader(cnt, kind) / 4 + MIN_RLE_LEN == cnt
    ensures RleHeader(cnt, kind) != 0
  {
    assert (cnt - MIN_RLE_LEN) % 0x100 == cnt - MIN_RLE_LEN;
  }

  /** A raw record's length byte is `i << 2`, its low two bits clear, never zero. */
  lemma RawHeaderFields(i: nat)
    requires 1 <= i <= MAX_RAW_LEN
    ensures RawHeader(i) == 4 * i && RawHeader(i) % 4 == 0 && RawHeader(i) / 4 == i && RawHeader(i) != 0
  {
    assert i % 0x100 == i;
  }

  /** writeHI's byte: the high byte shifted left by three in 8 bits, bit 2 for temporary, bit 1 set. */
  function Announcement(hi: Byte, temp: bool): Byte
  {
    ((hi * 8) % 0x100) + (if temp then 4 else 0) + 2
  }

  /** The low bytes of the `i` words at `current`, in order. */
  function LowBytes(words: seq<Word>, current: nat, i: nat): (r: seq<Byte>)
    requires current + i <= |words|
    ensures |r| == i && forall k | 0 <= k < i :: r[k] == Lo(words[current + k])
  {
    if i == 0 then [] else LowBytes(words, current, i - 1) + [Lo(words[current + i - 1])]
  }

  /** The data record for the run of `i` words at `current`. */
  function RecordBytes(words: seq<Word>, current: nat, i: nat): seq<Byte>
    requires current < |words| && 1 <= i && current + i <= |words|
  {
    match KindAt(words, current)
    case EqualRun => if i < MIN_RLE_LEN then [] else [RleHeader(i, RLE_TYPE_NORMAL), Lo(words[current])]
    case SuccessiveRun => if i < MIN_RLE_LEN then [] else [RleHeader(i, RLE_TYPE_INCREMENTAL), Lo(words[current])]
    case RawRun => [RawHeader(i)] + LowBytes(words, current, i)
  }

  /**
   * checkHI's choice between a temporary and a permanent announcement for
   * the run of `i` words at `current`, `hh` being cur_HH when checkHI runs:
   * temporary exactly when the word after the run has the old high byte back
   * and the run's own last word does not.
   */
  function Temporary(words: seq<Word>, current: nat, i: nat, hh: Word): (temp: bool)
    requires 1 <= i && current + i <= |words|
  {
    if current + i == |words| then false
    else if Hi(hh) == Hi(words[current + i]) then Hi(words[current + i - 1]) != Hi(words[current + i])
    else false
  }

  /**
   * The value the file-scope `in_size` (line 16) keeps: the compressor
   * assigns only its own local of that name (line 96).
   */
  const STALE_IN_SIZE: nat := 0

  /**
   * checkHI's choice as lines 63-74 are written: the end-of-data test reads
   * the stale file-scope `in_size`, so it never holds for a run of at least
   * one word, and a run that ends the data is compared with the word past
   * the end, `beyond`.  Away from the end it agrees with `Temporary`.
   */
  function TemporaryAsWritten(words: seq<Word>, current: nat, i: nat, hh: Word, beyond: Word): (temp: bool)
    requires 1 <= i && current + i <= |words|
    ensures current + i < |words| ==> temp == Temporary(words, current, i, hh)
  {
    var after := if current + i < |words| then words[current + i] else beyond;
    if current + i == STALE_IN_SIZE then false
    else if Hi(hh) == Hi(after) then Hi(words[current + i - 1]) != Hi(after)
    else false
  }

  /**
   * The last run of [0x0100] after cur_HH = 0 is announced: as written the
   * announcement is temporary (byte 0x0E) when the word past the input has
   * high byte 0 and permanent (0x0A) when it has high byte 1, so the stream
   * depends on memory outside the input; `Temporary` makes it permanent.
   */
  lemma TemporaryAsWrittenReadsPastEnd()
    ensures TemporaryAsWritten([0x0100], 0, 1, 0, 0x0000) && Announcement(1, true) == 0x0E
    ensures !TemporaryAsWritten([0x0100], 0, 1, 0, 0x0100) && Announcement(1, false) == 0x0A
    ensures !Temporary([0x0100], 0, 1, 0)
  {
  }

  /** What one pass of the main loop writes and leaves behind. */
  datatype Step = Step(bytes: seq<Byte>, next: nat, hh: Word)

  /**
   * One pass of the main loop at `current` with cur_HH = `hh`: the
   * announcement when the word's high byte differs from HH's, then the data
   * record; then the new cur_HH (a successive run first takes its last word's
   * high part, line 141; a permanent announcement then sets the run's first
   * word's, line 76).
   */
  function StepAt(words: seq<Word>, current: nat, hh: Word): (s: Step)
    requires current < |words|
    ensures current < s.next <= |words|
    ensures s.next == current + RunLength(words, current)
  {
    var w := words[current];
    var announce := Hi(hh) != Hi(w);
    var i := RunLength(words, current);
    var hh1 := if KindAt(words, current) == SuccessiveRun then HighPart(words[current + i - 1]) else hh;
    var temp := Temporary(words, current, i, hh1);
    Step(HiBytes(announce, w, temp) + RecordBytes(words, current, i), current + i, AfterHI(announce, temp, hh1, w))
  }

  /** What checkHI writes before the run at word `w`: the announcement when one is due. */
  function HiBytes(announce: bool, w: Word, temp: bool): seq<Byte>
  {
    if announce then [Announcement(Hi(w), temp)] else []
  }

  /** cur_HH after checkHI: the run's first word's high part after a permanent announcement, else unchanged. */
  function AfterHI(announce: bool, temp: bool, hh: Word, w: Word): Word
  {
    if announce && !temp then HighPart(w) else hh
  }

  /** A pass in parts: the announcement, if any, then the record; the run's end; cur_HH after checkHI. */
  lemma StepParts(words: seq<Word>, current: nat, hh: Word, i: nat, hh1: Word, temp: bool, announced: seq<Byte>, record: seq<Byte>)
    requires current < |words| && i == RunLength(words, current)
    requires hh1 == if KindAt(words, current) == SuccessiveRun then HighPart(words[current + i - 1]) else hh
    requires temp == Temporary(words, current, i, hh1)
    requires announced == HiBytes(Hi(hh) != Hi(words[current]), words[current], temp)
    requires record == RecordBytes(words, current, i)
    ensures StepAt(words, current, hh) == Step(announced + record, current + i, AfterHI(Hi(hh) != Hi(words[current]), temp, hh1, words[current]))
  {
  }

  /** The records for the words from `current` on, cur_HH being `hh`. */
  function Encode(words: seq<Word>, current: nat, hh: Word): seq<Byte>
    requires current <= |words|
    decreases |words| - current
  {
    if current == |words| then []
    else
      var s := StepAt(words, current, hh);
      s.bytes + Encode(words, s.next, s.hh)
  }

  /** An announcement byte has 10 in its low two bits, whatever the high byte. */
  lemma AnnouncementMarked(hi: Byte, temp: bool)
    ensures Announcement(hi, temp) % 4 == 2
  {
    assert (hi * 8) % 0x100 == 8 * (hi % 0x20);
  }

  /**
   * A pass starts with a byte whose low two bits are 10, an announcement,
   * exactly when the run's high byte differs from cur_HH's (lines 115-116):
   * record length bytes end in 01, 11 or 00.
   */
  lemma AnnouncesExactlyOnChange(words: seq<Word>, current: nat, hh: Word)
    requires current < |words|
    ensures var b := StepAt(words, current, hh).bytes;
            |b| > 0 && (b[0] % 4 == 2 <==> Hi(hh) != Hi(words[current]))
  {
    var w, i := words[current], RunLength(words, current);
    var kind := KindAt(words, current);
    var hh1 := if kind == SuccessiveRun then HighPart(words[current + i - 1]) else hh;
    var temp := Temporary(words, current, i, hh1);
    var record := RecordBytes(words, current, i);
    StepParts(words, current, hh, i, hh1, temp, HiBytes(Hi(hh) != Hi(w), w, temp), record);
    assert |record| > 0 && record[0] % 4 != 2 by {
      match kind
      case EqualRun => RleHeaderFields(i, RLE_TYPE_NORMAL);
      case SuccessiveRun => RleHeaderFields(i, RLE_TYPE_INCREMENTAL);
      case RawRun => RawHeaderFields(i);
    }
    if Hi(hh) != Hi(w) {
      AnnouncementMarked(Hi(w), temp);
    }
  }

  /** The data records alone, back to back, for the runs from `current` on. */
  function RecordsFrom(words: seq<Word>, current: nat): seq<Byte>
    requires current <= |words|
    decreases |words| - current
  {
    if current == |words| then []
    else RecordBytes(words, current, RunLength(words, current)) + RecordsFrom(words, RunEnd(words, current))
  }

  /** Where the run at `current` ends. */
  function RunEnd(words: seq<Word>, current: nat): (next: nat)
    requires current < |words|
    ensures current < next <= |words|
  {
    current + RunLength(words, current)
  }

  /**
   * cur_HH starts at 0 and only an announcement or a successive run within
   * the page changes it, so words that all have high byte 0 get their data
   * records and nothing else.
   */
  lemma {:induction false} LowPageHasNoAnnouncements(words: seq<Word>, current: nat, hh: Word)
    requires current <= |words| && Hi(hh) == 0
    requires forall k | current <= k < |words| :: Hi(words[k]) == 0
    ensures Encode(words, current, hh) == RecordsFrom(words, current)
    decreases |words| - current
  {
    if current < |words| {
      var s := StepAt(words, current, hh);
      EncodeStep(words, current, hh, s.next, s.hh);
      RecordsStep(words, current, s.next);
      LowPageStep(words, current, hh);
      LowPageHasNoAnnouncements(words, s.next, s.hh);
    }
  }

  /** The records from `current` on: the first run's record, then the records after it. */
  lemma RecordsStep(words: seq<Word>, current: nat, next: nat)
    requires current < |words| && next == current + RunLength(words, current)
    ensures RecordsFrom(words, current) == RecordBytes(words, current, RunLength(words, current)) + RecordsFrom(words, next)
  {
    assert next == RunEnd(words, current);
  }

  /** One pass within high byte 0: its record alone, cur_HH staying in the page. */
  lemma LowPageStep(words: seq<Word>, current: nat, hh: Word)
    requires current < |words| && Hi(hh) == 0
    requires forall k | current <= k < |words| :: Hi(words[k]) == 0
    ensures StepAt(words, current, hh).bytes == RecordBytes(words, current, RunLength(words, current))
    ensures Hi(StepAt(words, current, hh).hh) == 0
  {
    var w, i := words[current], RunLength(words, current);
    var hh1 := if KindAt(words, current) == SuccessiveRun then HighPart(words[current + i - 1]) else hh;
    var temp := Temporary(words, current, i, hh1);
    StepParts(words, current, hh, i, hh1, temp, HiBytes(Hi(hh) != Hi(w), w, temp), RecordBytes(words, current, i));
    assert Hi(words[current + i - 1]) == 0;
  }

  /** The whole stream: the width in one byte, the records from cur_HH = 0, the zero terminator. */
  function Compressed(words: seq<Word>, width: Uint32): (r: seq<Byte>)
    ensures |r| >= 2 && r[0] == width % 0x100 && r[|r| - 1] == 0
    ensures |words| == 0 ==> r == [width % 0x100, 0]
  {
    [width % 0x100] + Encode(words, 0, 0) + [0]
  }

  // ---------------------------------------------------------------------
  // Writing under a capacity

  /**
   * The outcome of writing `bs` after the bytes `before` into a buffer of
   * `outsize` bytes, one guarded byte at a time: all of `bs` and success
   * when it fits; otherwise the buffer filled to its end and failure.
   */
  function Emit(before: seq<Byte>, outsize: nat, bs: seq<Byte>): (seq<Byte>, bool)
  {
    if |before| + |bs| <= outsize then (before + bs, true) else ((before + bs)[..outsize], false)
  }

  /** Two writes in a row, the first succeeding, are one write of both. */
  lemma EmitThen(before: seq<Byte>, outsize: nat, bs1: seq<Byte>, bs2: seq<Byte>)
    requires Emit(before, outsize, bs1).1
    ensures Emit(Emit(before, outsize, bs1).0, outsize, bs2) == Emit(before, outsize, bs1 + bs2)
  {
    assert before + bs1 + bs2 == before + (bs1 + bs2);
  }

  /** Once a write fails, whatever was to follow it changes nothing. */
  lemma EmitStopped(before: seq<Byte>, outsize: nat, bs1: seq<Byte>, bs2: seq<Byte>)
    requires !Emit(before, outsize, bs1).1
    ensures Emit(before, outsize, bs1 + bs2) == Emit(before, outsize, bs1)
  {
    assert (before + (bs1 + bs2))[..outsize] == (before + bs1)[..outsize];
  }

  /** One more byte of `target` after its first `j`. */
  lemma EmitStep(before: seq<Byte>, outsize: nat, target: seq<Byte>, j: nat)
    requires j < |target| && Emit(before, outsize, target[..j]).1
    ensures Emit(Emit(before, outsize, target[..j]).0, outsize, [target[j]]) == Emit(before, outsize, target[..j + 1])
    ensures !Emit(before, outsize, target[..j + 1]).1 ==> Emit(before, outsize, target[..j + 1]) == Emit(before, outsize, target)
  {
    assert target[..j] + [target[j]] == target[..j + 1];
    EmitThen(before, outsize, target[..j], [target[j]]);
    if !Emit(before, outsize, target[..j + 1]).1 {
      assert target[..j + 1] + target[j + 1..] == target;
      EmitStopped(before, outsize, target[..j + 1], target[j + 1..]);
    }
  }

  // ---------------------------------------------------------------------
  // The compressor

  /**
   * The state STM_compressTilemap keeps in globals (lines 16-23): the
   * source words, the destination and its size, the pending-announcement
   * flag, the read position, the high byte register and the write position.
   */
  class StmCompressor {
    var buf: seq<Word>
    var outbuf: array<Byte>
    var outsize: nat
    var shouldChangeHH: bool
    var current: nat
    var curHH: Word
    var writepos: nat

    ghost predicate Valid()
      reads this
    {
      writepos <= outsize <= outbuf.Length && current <= |buf|
    }

    /** The bytes written so far. */
    ghost function Written(): seq<Byte>
      reads this, outbuf
      requires Valid()
    {
      outbuf[..writepos]
    }

    /** Lines 96-104: the source, the destination and its size taken over, the registers cleared. */
    constructor (source: seq<Word>, dest: array<Byte>, destLen: nat)
      requires destLen <= dest.Length
      ensures Valid() && buf == source && outbuf == dest && outsize == destLen
      ensures !shouldChangeHH && current == 0 && curHH == 0 && writepos == 0
    {
      buf := source;
      outbuf := dest;
      outsize := destLen;
      shouldChangeHH := false;
      current := 0;
      curHH := 0;
      writepos := 0;
    }

    /** The guarded write every output byte goes through: stored when `writepos < outsize`, else failure. */
    method Put(b: Byte) returns (ok: bool)
      requires Valid()
      modifies this`writepos, outbuf
      ensures Valid()
      ensures (Written(), ok) == Emit(old(Written()), outsize, [b])
      ensures outbuf[outsize..] == old(outbuf[outsize..])
    {
      ghost var before := Written();
      if writepos < outsize {
        outbuf[writepos] := b;
        writepos := writepos + 1;
        ok := true;
        assert Written() == before + [b];
      } else {
        ok := false;
        assert (Written() + [b])[..outsize] == Written();
      }
    }

    /** writeRLE (lines 29-44): the length-and-type byte, then the value. */
    method WriteRLE(val: Byte, cnt: nat, kind: Byte) returns (ok: bool)
      requires Valid() && MIN_RLE_LEN <= cnt && kind < 4
      modifies this`writepos, outbuf
      ensures Valid()
      ensures (Written(), ok) == Emit(old(Written()), outsize, [RleHeader(cnt, kind), val])
      ensures outbuf[outsize..] == old(outbuf[outsize..])
    {
      ghost var before := Written();
      var tmp: Byte := (((cnt - MIN_RLE_LEN) % 0x100) * 4 + kind) % 0x100;
      ok := Put(tmp);
      if !ok {
        EmitStopped(before, outsize, [tmp], [val]);
        return;
      }
      ok := Put(val);
      EmitThen(before, outsize, [tmp], [val]);
      assert [tmp] + [val] == [RleHeader(cnt, kind), val];
    }

    /** writeHI (lines 46-57): the announcement byte. */
    method WriteHI(val: Byte, temp: bool) returns (ok: bool)
      requires Valid()
      modifies this`writepos, outbuf
      ensures Valid()
      ensures (Written(), ok) == Emit(old(Written()), outsize, [Announcement(val, temp)])
      ensures outbuf[outsize..] == old(outbuf[outsize..])
    {
      var v: Byte := (val * 8) % 0x100;
      if temp {
        v := v + 4;
      }
      v := v + 2;
      ok := Put(v);
    }

    /**
     * checkHI (lines 59-81) for a run of `i` words: when an announcement is
     * pending, write it, temporary or permanent as `Temporary` decides,
     * take the run's first high part into cur_HH when it is permanent, and
     * clear the flag.  The end-of-data test compares with the number of
     * words read (see `TemporaryAsWritten` for the line as written).
     */
    method CheckHI(i: nat) returns (ok: bool)
      requires Valid() && current < |buf| && 1 <= i && current + i <= |buf|
      modifies this`writepos, this`curHH, this`shouldChangeHH, outbuf
      ensures Valid()
      ensures (Written(), ok) == Emit(old(Written()), outsize, HiBytes(old(shouldChangeHH), buf[current], Temporary(buf, current, i, old(curHH))))
      ensures ok ==> !shouldChangeHH &&
                     curHH == AfterHI(old(shouldChangeHH), Temporary(buf, current, i, old(curHH)), old(curHH), buf[current])
      ensures outbuf[outsize..] == old(outbuf[outsize..])
    {
      ok := true;
      assert Written() + [] == Written();
      if shouldChangeHH {
        var temp: bool;
        if current + i == |buf| {
          temp := false;
        } else if Hi(curHH) == Hi(buf[current + i]) {
          temp := true;
          if Hi(buf[current + i - 1]) == Hi(buf[current + i]) {
            temp := false;
          }
        } else {
          temp := false;
        }
        ok := WriteHI(Hi(buf[current]), temp);
        if !ok {
          return;
        }
        if !temp {
          curHH := HighPart(buf[current]);
        }
        shouldChangeHH := false;
      }
    }
  
    /** The loop at lines 121-124: the length of the equal run at `current`. */
    method CountEqualRun() returns (i: nat)
      requires Valid() && StartsEqual(buf, current)
      ensures i == EqualRunFrom(buf, current, MIN_RLE_LEN)
    {
      i := MIN_RLE_LEN;
      while i < MAX_RLE_LEN
        invariant MIN_RLE_LEN <= i <= MAX_RLE_LEN && current + i <= |buf|
        invariant forall p | current <= p < current + i :: buf[p] == buf[current]
        invariant EqualRunFrom(buf, current, i) == EqualRunFrom(buf, current, MIN_RLE_LEN)
        decreases MAX_RLE_LEN - i
      {
        if current + i >= |buf| {
          break;
        }
        if buf[current] != buf[current + i] {
          break;
        }
        i := i + 1;
      }
    }

    /** The loop at lines 136-139: the length of the successive run at `current`. */
    method CountSuccessiveRun() returns (i: nat)
      requires Valid() && StartsSuccessive(buf, current)
      ensures i == SuccessiveRunFrom(buf, current, MIN_RLE_LEN)
    {
      i := MIN_RLE_LEN;
      while i < MAX_RLE_LEN
        invariant MIN_RLE_LEN <= i <= MAX_RLE_LEN && current + i <= |buf|
        invariant forall p | current < p < current + i :: SuccessorAt(buf, p)
        invariant SuccessiveRunFrom(buf, current, i) == SuccessiveRunFrom(buf, current, MIN_RLE_LEN)
        decreases MAX_RLE_LEN - i
      {
        if current + i == |buf| {
          break;
        }
        if buf[current + i - 1] as int + 1 != buf[current + i] as int {
          break;
        }
        i := i + 1;
      }
    }

    /** The loop at lines 151-156: the length of the raw run at `current`. */
    method CountRawRun() returns (i: nat)
      requires Valid() && current < |buf| && !StartsEqual(buf, current) && !StartsSuccessive(buf, current)
      ensures i == RunLength(buf, current)
    {
      i := 1;
      while i < MAX_RAW_LEN
        invariant 1 <= i <= MAX_RAW_LEN && current + i <= |buf|
        invariant RawRunFrom(buf, current, i) == RawRunFrom(buf, current, 1)
        decreases MAX_RAW_LEN - i
      {
        if current + i == |buf| {
          break;
        }
        var prev, next := buf[current + i - 1], buf[current + i];
        if prev == next {
          i := i - 1;
          break;
        }
        if prev as int + 1 == next as int {
          i := i - 1;
          break;
        }
        if Hi(prev) != Hi(next) {
          break;
        }
        i := i + 1;
      }
    }
  
    /** Lines 118-130: an equal run, its announcement when one is due, and its record. */
    method EqualRecord() returns (i: nat, ok: bool)
      requires Valid() && StartsEqual(buf, current) && shouldChangeHH == (Hi(curHH) != Hi(buf[current]))
      modifies this`writepos, this`curHH, this`shouldChangeHH, outbuf
      ensures Valid() && i == RunLength(buf, current) && current + i == StepAt(buf, current, old(curHH)).next
      ensures (Written(), ok) == Emit(old(Written()), outsize, StepAt(buf, current, old(curHH)).bytes)
      ensures ok ==> !shouldChangeHH && curHH == StepAt(buf, current, old(curHH)).hh
      ensures outbuf[outsize..] == old(outbuf[outsize..])
    {
      ghost var before := Written();
      ghost var announce, hh := shouldChangeHH, curHH;
      i := CountEqualRun();
      ghost var hiBytes := HiBytes(announce, buf[current], Temporary(buf, current, i, hh));
      ghost var record := RecordBytes(buf, current, i);
      StepParts(buf, current, hh, i, hh, Temporary(buf, current, i, hh), hiBytes, record);
      ok := CheckHI(i);
      if !ok {
        EmitStopped(before, outsize, hiBytes, record);
        return;
      }
      ok := WriteRLE(Lo(buf[current]), i, RLE_TYPE_NORMAL);
      EmitThen(before, outsize, hiBytes, record);
    }

    /**
     * Lines 133-147: a successive run.  cur_HH first takes the run's last
     * word's high part (line 141), and checkHI decides from there.
     */
    method SuccessiveRecord() returns (i: nat, ok: bool)
      requires Valid() && !StartsEqual(buf, current) && StartsSuccessive(buf, current) && shouldChangeHH == (Hi(curHH) != Hi(buf[current]))
      modifies this`writepos, this`curHH, this`shouldChangeHH, outbuf
      ensures Valid() && i == RunLength(buf, current) && current + i == StepAt(buf, current, old(curHH)).next
      ensures (Written(), ok) == Emit(old(Written()), outsize, StepAt(buf, current, old(curHH)).bytes)
      ensures ok ==> !shouldChangeHH && curHH == StepAt(buf, current, old(curHH)).hh
      ensures outbuf[outsize..] == old(outbuf[outsize..])
    {
      ghost var before := Written();
      ghost var announce, hh := shouldChangeHH, curHH;
      i := CountSuccessiveRun();
      curHH := HighPart(buf[current + i - 1]);
      ghost var hiBytes := HiBytes(announce, buf[current], Temporary(buf, current, i, curHH));
      ghost var record := RecordBytes(buf, current, i);
      StepParts(buf, current, hh, i, curHH, Temporary(buf, current, i, curHH), hiBytes, record);
      ok := CheckHI(i);
      if !ok {
        EmitStopped(before, outsize, hiBytes, record);
        return;
      }
      ok := WriteRLE(Lo(buf[current]), i, RLE_TYPE_INCREMENTAL);
      EmitThen(before, outsize, hiBytes, record);
    }

    /** Lines 149-175: a raw run, its announcement when one is due, and its record. */
    method RawRecord() returns (i: nat, ok: bool)
      requires Valid() && current < |buf| && !StartsEqual(buf, current) && !StartsSuccessive(buf, current) && shouldChangeHH == (Hi(curHH) != Hi(buf[current]))
      modifies this`writepos, this`curHH, this`shouldChangeHH, outbuf
      ensures Valid() && i == RunLength(buf, current) && current + i == StepAt(buf, current, old(curHH)).next
      ensures (Written(), ok) == Emit(old(Written()), outsize, StepAt(buf, current, old(curHH)).bytes)
      ensures ok ==> !shouldChangeHH && curHH == StepAt(buf, current, old(curHH)).hh
      ensures outbuf[outsize..] == old(outbuf[outsize..])
    {
      ghost var before := Written();
      ghost var announce, hh := shouldChangeHH, curHH;
      i := CountRawRun();
      ghost var hiBytes := HiBytes(announce, buf[current], Temporary(buf, current, i, hh));
      ghost var record := RecordBytes(buf, current, i);
      StepParts(buf, current, hh, i, hh, Temporary(buf, current, i, hh), hiBytes, record);
      ok := CheckHI(i);
      if !ok {
        EmitStopped(before, outsize, hiBytes, record);
        return;
      }
      ok := WriteRaw(i);
      EmitThen(before, outsize, hiBytes, record);
    }

    /** Lines 161-174: the length byte of a raw record, then the low byte of each of its `i` words. */
    method WriteRaw(i: nat) returns (ok: bool)
      requires Valid() && current + i <= |buf|
      modifies this`writepos, outbuf
      ensures Valid()
      ensures (Written(), ok) == Emit(old(Written()), outsize, [RawHeader(i)] + LowBytes(buf, current, i))
      ensures outbuf[outsize..] == old(outbuf[outsize..])
    {
      ghost var before := Written();
      var tmp: Byte := ((i % 0x100) * 4) % 0x100;
      ok := Put(tmp);
      if !ok {
        EmitStopped(before, outsize, [tmp], LowBytes(buf, current, i));
        return;
      }
      ok := WriteLowBytes(i);
      EmitThen(before, outsize, [tmp], LowBytes(buf, current, i));
    }

    /** The loop at lines 168-174: the low byte of each of the `i` words from `current`, in order. */
    method WriteLowBytes(i: nat) returns (ok: bool)
      requires Valid() && current + i <= |buf|
      modifies this`writepos, outbuf
      ensures Valid()
      ensures (Written(), ok) == Emit(old(Written()), outsize, LowBytes(buf, current, i))
      ensures outbuf[outsize..] == old(outbuf[outsize..])
    {
      ghost var before := Written();
      ghost var target := LowBytes(buf, current, i);
      assert before + target[..0] == before;
      ok := true;
      var j := 0;
      while j < i
        invariant j <= i && Valid()
        invariant (Written(), true) == Emit(before, outsize, target[..j])
        invariant outbuf[outsize..] == old(outbuf[outsize..])
      {
        ok := Put(Lo(buf[current + j]));
        EmitStep(before, outsize, target, j);
        if !ok {
          return;
        }
        j := j + 1;
      }
      assert target[..i] == target;
    }

    /**
     * One pass of the main loop (lines 112-178): flag an announcement when
     * the word's high byte differs from cur_HH's (line 115), write the
     * record the first two words call for, and move past its words.
     */
    method Step() returns (ok: bool)
      requires Valid() && current < |buf| && !shouldChangeHH
      modifies this`writepos, this`curHH, this`shouldChangeHH, this`current, outbuf
      ensures Valid()
      ensures (Written(), ok) == Emit(old(Written()), outsize, StepAt(buf, old(current), old(curHH)).bytes)
      ensures ok ==> !shouldChangeHH && current == StepAt(buf, old(current), old(curHH)).next &&
                     curHH == StepAt(buf, old(current), old(curHH)).hh
      ensures outbuf[outsize..] == old(outbuf[outsize..])
    {
      if Hi(curHH) != Hi(buf[current]) {
        shouldChangeHH := true;
      }
      var i: nat;
      i, ok := Record();
      if !ok {
        return;
      }
      current := current + i;
    }

    /** Lines 118-174: the record for the words at `current`, the source's tests chosen in order. */
    method Record() returns (i: nat, ok: bool)
      requires Valid() && current < |buf| && shouldChangeHH == (Hi(curHH) != Hi(buf[current]))
      modifies this`writepos, this`curHH, this`shouldChangeHH, outbuf
      ensures Valid() && i == RunLength(buf, current) && current + i == StepAt(buf, current, old(curHH)).next
      ensures (Written(), ok) == Emit(old(Written()), outsize, StepAt(buf, current, old(curHH)).bytes)
      ensures ok ==> !shouldChangeHH && curHH == StepAt(buf, current, old(curHH)).hh
      ensures outbuf[outsize..] == old(outbuf[outsize..])
    {
      if current + 1 < |buf| && buf[current] == buf[current + 1] {
        i, ok := EqualRecord();
      } else if current + 1 < |buf| && buf[current] as int + 1 == buf[current + 1] as int {
        i, ok := SuccessiveRecord();
      } else {
        i, ok := RawRecord();
      }
    }

    /**
     * The main loop (lines 112-180): a pass per record until every word is
     * consumed, or until a write fails.
     */
    method WriteRecords() returns (ok: bool)
      requires Valid() && !shouldChangeHH
      modifies this`writepos, this`curHH, this`shouldChangeHH, this`current, outbuf
      ensures Valid()
      ensures (Written(), ok) == Emit(old(Written()), outsize, Encode(buf, old(current), old(curHH)))
      ensures outbuf[outsize..] == old(outbuf[outsize..])
    {
      ghost var goal := Emit(Written(), outsize, Encode(buf, current, curHH));
      ok := true;
      while current < |buf|
        invariant Valid() && !shouldChangeHH
        invariant Emit(Written(), outsize, Encode(buf, current, curHH)) == goal
        invariant outbuf[outsize..] == old(outbuf[outsize..])
        decreases |buf| - current
      {
        ghost var before, at, hh := Written(), current, curHH;
        ghost var step := StepAt(buf, at, hh);
        ok := Step();
        if !ok {
          EncodeStep(buf, at, hh, step.next, step.hh);
          EmitStopped(before, outsize, step.bytes, Encode(buf, step.next, step.hh));
          return;
        }
        EncodeStep(buf, at, hh, current, curHH);
        EmitAfter(before, outsize, StepAt(buf, at, hh).bytes, Encode(buf, current, curHH), Encode(buf, at, hh), Written(), goal);
      }
      assert Written() + [] == Written();
    }

    /**
     * STM_compressTilemap from line 106 on: the width byte, the records, the
     * zero terminator.  The result is the number of bytes written, or 0 when
     * the stream does not fit in `outsize` bytes; no byte at or beyond
     * `outsize` is touched.
     */
    method Run(width: Uint32) returns (result: nat)
      requires Valid() && current == 0 && curHH == 0 && !shouldChangeHH && writepos == 0
      modifies this`writepos, this`curHH, this`shouldChangeHH, this`current, outbuf
      ensures Valid() && (Written(), result > 0) == Emit([], outsize, Compressed(buf, width))
      ensures result > 0 ==> result == |Compressed(buf, width)|
      ensures outbuf[outsize..] == old(outbuf[outsize..])
    {
      ghost var records := Encode(buf, 0, 0);
      var ok := Put(width % 0x100);
      if !ok {
        return 0;
      }
      ghost var header := Written();
      ok := WriteRecords();
      StreamAfterHeader(width % 0x100, header, outsize, records, Written(), ok);
      if !ok {
        return 0;
      }
      ok := Put(0);
      result := if ok then writepos else 0;
    }
  }

  /** The stream after its width byte: the records, then the terminator. */
  lemma StreamAfterHeader(w: Byte, header: seq<Byte>, outsize: nat, records: seq<Byte>, written: seq<Byte>, ok: bool)
    requires (header, true) == Emit([], outsize, [w])
    requires (written, ok) == Emit(header, outsize, records)
    ensures ok ==> Emit(written, outsize, [0]) == Emit([], outsize, [w] + records + [0])
    ensures !ok ==> (written, false) == Emit([], outsize, [w] + records + [0])
  {
    assert header == [w];
    assert [w] + (records + [0]) == [w] + records + [0];
    if ok {
      EmitThen(header, outsize, records, [0]);
    } else {
      EmitStopped(header, outsize, records, [0]);
    }
    EmitThen([], outsize, [w], records + [0]);
  }

  /** The records from `current` on are this pass's bytes, then the records from `next` on. */
  lemma EncodeStep(words: seq<Word>, current: nat, hh: Word, next: nat, nextHH: Word)
    requires current < |words|
    requires next == StepAt(words, current, hh).next && nextHH == StepAt(words, current, hh).hh
    ensures Encode(words, current, hh) == StepAt(words, current, hh).bytes + Encode(words, next, nextHH)
  {
  }

  /** After a successful write of `bytes`, writing the rest comes to the same as writing all of `whole`. */
  lemma EmitAfter(before: seq<Byte>, outsize: nat, bytes: seq<Byte>, rest: seq<Byte>, whole: seq<Byte>,
                  written: seq<Byte>, goal: (seq<Byte>, bool))
    requires whole == bytes + rest && Emit(before, outsize, whole) == goal
    requires (written, true) == Emit(before, outsize, bytes)
    ensures Emit(written, outsize, rest) == goal
  {
    EmitThen(before, outsize, bytes, rest);
  }

  /** Writing from `before` is writing `before` and then the rest from an empty buffer. */
  lemma EmitFromStart(before: seq<Byte>, outsize: nat, bs: seq<Byte>)
    requires |before| <= outsize
    ensures Emit(before, outsize, bs) == Emit([], outsize, before + bs)
  {
    assert [] + (before + bs) == before + bs;
  }

  /**
   * STM_compressTilemap (lines 91-189) on the `width * height` words of
   * `source` (the count in 32-bit unsigned arithmetic, line 96): the
   * compressed stream in `dest` and its length as the result, or 0 when it
   * does not fit in `destLen` bytes, with the first `destLen` bytes then
   * holding as much of the stream as fits; nothing beyond `destLen` is
   * written.
   */
  method CompressTilemap(source: seq<Word>, width: Uint32, height: Uint32, dest: array<Byte>, destLen: Uint32)
    returns (result: nat)
    requires InSize(width, height) <= |source| && destLen <= dest.Length
    modifies dest
    ensures result == (if |Compressed(source[..InSize(width, height)], width)| <= destLen
                       then |Compressed(source[..InSize(width, height)], width)| else 0)
    ensures result > 0 ==> dest[..result] == Compressed(source[..InSize(width, height)], width)
    ensures result == 0 ==> dest[..destLen] == Compressed(source[..InSize(width, height)], width)[..destLen]
    ensures dest[destLen..] == old(dest[destLen..])
  {
    var c := new StmCompressor(source[..InSize(width, height)], dest, destLen);
    result := c.Run(width);
    EmitOutcome(c.Written(), destLen, Compressed(c.buf, width), result);
  }

  /** What a whole-stream write leaves: all of it and its length, or the buffer full and 0. */
  lemma EmitOutcome(written: seq<Byte>, outsize: nat, bs: seq<Byte>, result: nat)
    requires (written, result > 0) == Emit([], outsize, bs)
    requires result > 0 ==> result == |bs|
    ensures result == (if |bs| <= outsize then |bs| else 0)
    ensures result > 0 ==> written == bs
    ensures result == 0 ==> |written| == outsize && written == bs[..outsize]
  {
  }
}
