/**
 * A reference decoder for the STM stream, the inverse the compressor of
 * compressors/gfxcomp_stm.c is checked against: reading the stream back
 * gives the width byte and every word, provided each word's high byte fits
 * in the five bits an announcement carries (words below 0x2000).
 */
module StmDecode {
  import opened Stm

  /** Every word's high byte fits in the five bits of an announcement byte. */
  predicate HighBytesFit(words: seq<Word>)
  {
    forall k | 0 <= k < |words| :: words[k] < 0x2000
  }

  /** One data record read back: its words, the bytes it took, and HH after it. */
  datatype Decoded = Decoded(words: seq<Word>, used: nat, hh: Word)

  /** `n` copies of `w`: an equal run. */
  function Repeated(w: Word, n: nat): (r: seq<Word>)
    ensures |r| == n && forall k | 0 <= k < n :: r[k] == w
  {
    seq(n, _ => w)
  }

  /** `first`, `first + 1`, ..., `n` words: a successive run. */
  function Ascending(first: Word, n: nat): (r: seq<Word>)
    requires first + n <= 0x1_0000
    ensures |r| == n && forall k | 0 <= k < n :: r[k] == first + k
  {
    seq(n, k requires 0 <= k < n => first + k)
  }

  /** The words with high byte `hi` and the given low bytes: a raw run. */
  function WithHigh(hi: Byte, lows: seq<Byte>): (r: seq<Word>)
    ensures |r| == |lows| && forall k | 0 <= k < |lows| :: r[k] == hi as int * 0x100 + lows[k]
  {
    seq(|lows|, k requires 0 <= k < |lows| => hi as int * 0x100 + lows[k])
  }

  /**
   * The data record at the start of `bytes`, its words' high byte being
   * `hi`: type 1 an equal run, type 3 a successive run (which leaves its last
   * word's high part in HH), type 0 a raw run of low bytes.
   */
  function DecodeRecord(bytes: seq<Byte>, hi: Byte, hh: Word): (r: Option<Decoded>)
    ensures r.Some? ==> 0 < r.value.used <= |bytes|
  {
    if |bytes| == 0 || bytes[0] == 0 || bytes[0] % 4 == 2 then None
    else if bytes[0] % 4 == 0 then
      var n := bytes[0] / 4;
      if |bytes| < 1 + n then None
      else Some(Decoded(WithHigh(hi, bytes[1..1 + n]), 1 + n, hh))
    else if |bytes| < 2 then None
    else
      var n, first := bytes[0] / 4 + MIN_RLE_LEN, hi as int * 0x100 + bytes[1];
      if bytes[0] % 4 == RLE_TYPE_NORMAL then Some(Decoded(Repeated(first, n), 2, hh))
      else if first + n > 0x1_0000 then None
      else Some(Decoded(Ascending(first, n), 2, HighPart(first + n - 1)))
  }

  /**
   * One pass: an announcement byte (low bits 10) gives the high byte for the
   * record after it and, when permanent, for the records after that too.
   */
  function DecodeStep(bytes: seq<Byte>, hh: Word): (r: Option<Decoded>)
    ensures r.Some? ==> 0 < r.value.used <= |bytes|
  {
    if |bytes| == 0 || bytes[0] % 4 != 2 then DecodeRecord(bytes, Hi(hh), hh)
    else
      var hi, temp := bytes[0] / 8, (bytes[0] / 4) % 2 == 1;
      match DecodeRecord(bytes[1..], hi, hh)
      case None => None
      case Some(d) =>
        Some(Decoded(d.words, d.used + 1, if temp then d.hh else HighPartOf(hi)))
  }

  /** The records up to the zero terminator, which must be the last byte. */
  function Decode(bytes: seq<Byte>, hh: Word): Option<seq<Word>>
    decreases |bytes|
  {
    if |bytes| == 0 then None
    else if bytes[0] == 0 then (if |bytes| == 1 then Some([]) else None)
    else
      match DecodeStep(bytes, hh)
      case None => None
      case Some(d) =>
        match Decode(bytes[d.used..], d.hh)
        case None => None
        case Some(rest) => Some(d.words + rest)
  }

  /** A whole stream: the width byte, then the records from HH = 0. */
  function Decompress(bytes: seq<Byte>): Option<(Byte, seq<Word>)>
  {
    if |bytes| == 0 then None
    else
      match Decode(bytes[1..], 0)
      case None => None
      case Some(words) => Some((bytes[0], words))
  }

  // ---------------------------------------------------------------------
  // The round trip

  /** Compressing and reading back gives the width's low byte and every word. */
  lemma DecompressCompressed(words: seq<Word>, width: Uint32)
    requires HighBytesFit(words)
    ensures Decompress(Compressed(words, width)) == Some((width % 0x100, words))
  {
    var bytes := Compressed(words, width);
    assert bytes[1..] == Encode(words, 0, 0) + [0];
    DecodeEncode(words, 0, 0);
    assert words[0..] == words;
  }

  /** The records from `current` on, then the terminator, read back as the words from `current` on. */
  lemma {:induction false} DecodeEncode(words: seq<Word>, current: nat, hh: Word)
    requires current <= |words| && HighBytesFit(words)
    ensures Decode(Encode(words, current, hh) + [0], hh) == Some(words[current..])
    decreases |words| - current
  {
    if current == |words| {
      assert Encode(words, current, hh) + [0] == [0];
      assert words[current..] == [];
    } else {
      var s := StepAt(words, current, hh);
      var rest := Encode(words, s.next, s.hh);
      EncodeStep(words, current, hh, s.next, s.hh);
      Regroup(s.bytes, rest, [0]);
      StepDecodes(words, current, hh, rest + [0]);
      DecodeEncode(words, s.next, s.hh);
      DecodeThen(s.bytes, rest + [0], hh, Decoded(words[current..s.next], |s.bytes|, s.hh), words[s.next..]);
      SliceSplit(words, current, s.next);
    }
  }

  /** A pass read back, then the rest of the stream read back from the HH it leaves. */
  lemma DecodeThen(first: seq<Byte>, rest: seq<Byte>, hh: Word, d: Decoded, tail: seq<Word>)
    requires 0 < |first + rest| && (first + rest)[0] != 0 && DecodeStep(first + rest, hh) == Some(d) && d.used == |first|
    requires Decode(rest, d.hh) == Some(tail)
    ensures Decode(first + rest, hh) == Some(d.words + tail)
  {
    assert (first + rest)[d.used..] == rest;
  }

  /** One pass's bytes, whatever follows them, read back as the pass's words and HH. */
  lemma StepDecodes(words: seq<Word>, current: nat, hh: Word, rest: seq<Byte>)
    requires current < |words| && words[current] < 0x2000
    ensures var s := StepAt(words, current, hh);
            (s.bytes + rest)[0] != 0 &&
            DecodeStep(s.bytes + rest, hh) == Some(Decoded(words[current..s.next], |s.bytes|, s.hh))
  {
    var s := StepAt(words, current, hh);
    var w, i := words[current], RunLength(words, current);
    var kind := KindAt(words, current);
    var hh1 := if kind == SuccessiveRun then HighPart(words[current + i - 1]) else hh;
    var record := RecordBytes(words, current, i);
    var temp := Temporary(words, current, i, hh1);
    var announced := HiBytes(Hi(hh) != Hi(w), w, temp);
    StepParts(words, current, hh, i, hh1, temp, announced, record);
    assert (record + rest)[..|record|] == record;
    RecordDecodes(words, current, i, s.next, Hi(w), hh, hh1, record, record + rest);
    var d := Decoded(words[current..s.next], |record|, hh1);
    Regroup(announced, record, rest);
    if Hi(hh) != Hi(w) {
      HighPartSplit(w);
      AnnouncedDecodes(Hi(w), temp, hh, record + rest, d);
    } else {
      assert announced == [];
      assert announced + (record + rest) == record + rest;
    }
  }

  /** A suffix split at `mid`. */
  lemma SliceSplit(words: seq<Word>, from: nat, mid: nat)
    requires from <= mid <= |words|
    ensures words[from..mid] + words[mid..] == words[from..]
  {
  }

  /** Concatenation regrouped. */
  lemma Regroup(a: seq<Byte>, b: seq<Byte>, c: seq<Byte>)
    ensures a + (b + c) == (a + b) + c
  {
  }

  /** An announcement byte, then a record read with its high byte. */
  lemma AnnouncedDecodes(hi: Byte, temp: bool, hh: Word, bytes: seq<Byte>, d: Decoded)
    requires hi < 0x20 && DecodeRecord(bytes, hi, hh) == Some(d)
    ensures DecodeStep([Announcement(hi, temp)] + bytes, hh) ==
            Some(Decoded(d.words, d.used + 1, if temp then d.hh else HighPartOf(hi)))
  {
    AnnouncementFields(hi, temp);
    assert ([Announcement(hi, temp)] + bytes)[1..] == bytes;
  }

  /** A word below 0x2000 has a high byte below 32, and its high part is that byte shifted back. */
  lemma HighPartSplit(w: Word)
    requires w < 0x2000
    ensures Hi(w) < 0x20 && HighPartOf(Hi(w)) == HighPart(w)
  {
  }

  /** The word with high byte `hi` and low byte 0. */
  function HighPartOf(hi: Byte): (w: Word)
    ensures Hi(w) == hi && Lo(w) == 0
  {
    hi as int * 0x100
  }

  /** What an announcement byte holds, for a high byte below 32. */
  lemma AnnouncementFields(hi: Byte, temp: bool)
    requires hi < 0x20
    ensures Announcement(hi, temp) % 4 == 2 && Announcement(hi, temp) / 8 == hi
    ensures ((Announcement(hi, temp) / 4) % 2 == 1) == temp
  {
  }

  /**
   * The data record of the run of `i` words at `current`, whatever follows
   * it, read back as the run's words, HH becoming `hhAfter`.
   */
  lemma RecordDecodes(words: seq<Word>, current: nat, i: nat, next: nat, hi: Byte, hh: Word, hhAfter: Word,
                      record: seq<Byte>, bytes: seq<Byte>)
    requires current < |words| && hi == Hi(words[current]) && i == RunLength(words, current) && next == current + i
    requires record == RecordBytes(words, current, i)
    requires hhAfter == if KindAt(words, current) == SuccessiveRun then HighPart(words[current + i - 1]) else hh
    requires |record| <= |bytes| && bytes[..|record|] == record
    ensures bytes[0] != 0 && bytes[0] % 4 != 2
    ensures DecodeRecord(bytes, hi, hh) == Some(Decoded(words[current..next], |record|, hhAfter))
  {
    if StartsEqual(words, current) {
      assert record == [RleHeader(i, RLE_TYPE_NORMAL), Lo(words[current])];
      assert bytes[0] == record[0] && bytes[1] == record[1];
      EqualDecodes(words, current, i, hi, hh, bytes);
    } else if StartsSuccessive(words, current) {
      assert record == [RleHeader(i, RLE_TYPE_INCREMENTAL), Lo(words[current])];
      assert bytes[0] == record[0] && bytes[1] == record[1];
      SuccessiveDecodes(words, current, i, hi, hh, bytes);
    } else {
      assert record == [RawHeader(i)] + LowBytes(words, current, i);
      RawDecodes(words, current, i, hi, hh, bytes);
    }
  }

  lemma EqualDecodes(words: seq<Word>, current: nat, i: nat, hi: Byte, hh: Word, bytes: seq<Byte>)
    requires StartsEqual(words, current) && i == EqualRunFrom(words, current, MIN_RLE_LEN)
    requires hi == Hi(words[current])
    requires |bytes| >= 2 && bytes[0] == RleHeader(i, RLE_TYPE_NORMAL) && bytes[1] == Lo(words[current])
    ensures bytes[0] != 0 && bytes[0] % 4 == RLE_TYPE_NORMAL
    ensures DecodeRecord(bytes, hi, hh) == Some(Decoded(words[current..current + i], 2, hh))
  {
    var w := words[current];
    RleHeaderFields(i, RLE_TYPE_NORMAL);
    assert hi as int * 0x100 + bytes[1] == w;
    assert Repeated(w, i) == words[current..current + i];
  }

  lemma SuccessiveDecodes(words: seq<Word>, current: nat, i: nat, hi: Byte, hh: Word, bytes: seq<Byte>)
    requires !StartsEqual(words, current) && StartsSuccessive(words, current)
    requires i == SuccessiveRunFrom(words, current, MIN_RLE_LEN)
    requires hi == Hi(words[current])
    requires |bytes| >= 2 && bytes[0] == RleHeader(i, RLE_TYPE_INCREMENTAL) && bytes[1] == Lo(words[current])
    ensures bytes[0] != 0 && bytes[0] % 4 == RLE_TYPE_INCREMENTAL
    ensures DecodeRecord(bytes, hi, hh) ==
            Some(Decoded(words[current..current + i], 2, HighPart(words[current + i - 1])))
  {
    var w := words[current];
    RleHeaderFields(i, RLE_TYPE_INCREMENTAL);
    assert hi as int * 0x100 + bytes[1] == w;
    SuccessiveValues(words, current, i, i - 1);
    assert Ascending(w, i) == words[current..current + i] by {
      forall k | 0 <= k < i
        ensures Ascending(w, i)[k] == words[current..current + i][k]
      {
        SuccessiveValues(words, current, i, k);
      }
    }
  }

  /** In a successive run each word is the first plus its distance from it. */
  lemma {:induction false} SuccessiveValues(words: seq<Word>, current: nat, i: nat, k: nat)
    requires current + i <= |words| && k < i
    requires forall p | current < p < current + i :: SuccessorAt(words, p)
    ensures words[current + k] == words[current] + k
  {
    if k > 0 {
      SuccessiveValues(words, current, i, k - 1);
      assert SuccessorAt(words, current + k);
    }
  }

  lemma RawDecodes(words: seq<Word>, current: nat, i: nat, hi: Byte, hh: Word, bytes: seq<Byte>)
    requires current < |words| && !StartsEqual(words, current) && !StartsSuccessive(words, current)
    requires i == RawRunFrom(words, current, 1)
    requires hi == Hi(words[current])
    requires 1 + i <= |bytes| && bytes[..1 + i] == [RawHeader(i)] + LowBytes(words, current, i)
    ensures bytes[0] != 0 && bytes[0] % 4 == 0
    ensures DecodeRecord(bytes, hi, hh) == Some(Decoded(words[current..current + i], 1 + i, hh))
  {
    RawRunFromSpec(words, current, 1);
    var lows := LowBytes(words, current, i);
    assert bytes[0] == ([RawHeader(i)] + lows)[0];
    RawHeaderFields(i);
    assert bytes[1..1 + i] == lows;
    assert WithHigh(hi, lows) == words[current..current + i] by {
      forall k | 0 <= k < i
        ensures WithHigh(hi, lows)[k] == words[current..current + i][k]
      {
        RawSameHigh(words, current, i, k);
      }
    }
  }

  /** Every word of a raw run has the first word's high byte. */
  lemma {:induction false} RawSameHigh(words: seq<Word>, current: nat, i: nat, k: nat)
    requires current + i <= |words| && k < i
    requires forall p | current < p < current + i :: RawPairAt(words, p)
    ensures Hi(words[current + k]) == Hi(words[current])
  {
    if k > 0 {
      RawSameHigh(words, current, i, k - 1);
      assert RawPairAt(words, current + k);
    }
  }
}
