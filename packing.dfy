/** The packed layout of a trit vector: 16 trits per unsigned 32-bit word,
    2 bits each, trit `p` in field `p % 16` of word `p / 16`. Field codes are
    01 for False, 00 for Unknown and 10 for True; 11 is never written.
    Everything here is a pure function of the word vector; the container class
    keeps one such vector as its storage. */
module Packing {
  import opened Trits

  /** Bits per word (`uint` is 32 bits wide). */
  const WordBits: nat := 32

  /** Trits per word: 2 bits per trit. */
  const TritsPerWord: nat := 16

  /** The 2-bit code of each value. */
  const FalseCode: bv32 := 0x1
  const UnknownCode: bv32 := 0x0
  const TrueCode: bv32 := 0x2

  /** Index of a 2-bit field inside a word. */
  type FieldIndex = k: bv32 | k < 16

  function Code(t: Trit): (c: bv32)
    ensures c < 3
  {
    match t
    case False => FalseCode
    case Unknown => UnknownCode
    case True => TrueCode
  }

  /** The 2-bit field `k` of `w`: field 0 is the two low bits, field `k` is
      field `k - 1` of the word shifted right by one field. */
  function Field(w: bv32, k: FieldIndex): (f: bv32)
    ensures f < 4
  {
    if k == 0 then w & 3 else Field(w >> 2, k - 1)
  }

  /** The trit a 2-bit field holds: the False bit is tested first, then the
      True bit, so the unused pattern 11 reads as False. */
  function FieldTrit(f: bv32): Trit {
    if f & FalseCode != 0 then False
    else if f & TrueCode != 0 then True
    else Unknown
  }

  /** Reads trit `k` of word `w`. Decoding inverts the code; the unused
      pattern 11 reads as False. */
  function Decode(w: bv32, k: FieldIndex): (t: Trit)
    ensures Field(w, k) == Code(t) || (Field(w, k) == 3 && t == False)
  {
    FieldTrit(Field(w, k))
  }

  /** Writes trit `k` of word `w`: field `k` then holds the code of `t`
      (`FieldSetField` adds that the other fields keep their values). */
  function SetField(w: bv32, k: FieldIndex, t: Trit): (r: bv32)
    ensures Field(r, k) == Code(t)
  {
    if k == 0 then
      LowUpdateSetsLow(w, Code(t));
      (w & !3) | Code(t)
    else
      var s := SetField(w >> 2, k - 1, t);
      FieldOfShiftedHigh(s, w, k);
      (s << 2) | (w & 3)
  }

  /** No field of `w` holds the unused pattern 11. */
  ghost predicate WordWellFormed(w: bv32) {
    forall k: FieldIndex :: Field(w, k) != 3
  }

  /** Every word of the vector is well formed. */
  ghost predicate WellFormed(st: seq<bv32>) {
    forall i :: 0 <= i < |st| ==> WordWellFormed(st[i])
  }

  // The three definitions above agree with the word-level formulas written
  // with shifts by twice the field index.

  /** Field `k` is the word shifted right by `2 * k`, masked with 0b11. */
  lemma {:induction false} FieldIsShifted(w: bv32, k: FieldIndex)
    ensures Field(w, k) == (w >> (k * 2)) & 3
  {
    if k > 0 {
      FieldIsShifted(w >> 2, k - 1);
      assert (k - 1) * 2 + 2 == k * 2;
    }
  }

  /** Reading tests the word against the False code shifted into place,
      then against the True code shifted into place. */
  lemma DecodeTestsShiftedCodes(w: bv32, k: FieldIndex)
    ensures Decode(w, k) == if w & (FalseCode << (k * 2)) != 0 then False
                            else if w & (TrueCode << (k * 2)) != 0 then True
                            else Unknown
  {
    FieldIsShifted(w, k);
  }

  /** Writing clears the field with the mask 0b11 shifted into place, then
      ors in the code shifted into place. */
  lemma SetFieldIsShifted(w: bv32, k: FieldIndex, t: Trit)
    ensures SetField(w, k, t) == (w & !(3 << (k * 2))) | (Code(t) << (k * 2))
  {
    var u := (w & !(3 << (k * 2))) | (Code(t) << (k * 2));
    forall j: FieldIndex ensures Field(SetField(w, k, t), j) == Field(u, j) {
      FieldSetField(w, k, j, t);
      ShiftedUpdateField(w, k, j, t);
    }
    FieldsDetermineWord(SetField(w, k, t), u);
  }

  lemma ShiftedUpdateField(w: bv32, k: FieldIndex, j: FieldIndex, t: Trit)
    ensures Field((w & !(3 << (k * 2))) | (Code(t) << (k * 2)), j) ==
            if j == k then Code(t) else Field(w, j)
  {
    FieldIsShifted((w & !(3 << (k * 2))) | (Code(t) << (k * 2)), j);
    FieldIsShifted(w, j);
    ShiftedUpdateBits(w, k, j, t);
  }

  lemma ShiftedUpdateBits(w: bv32, k: FieldIndex, j: FieldIndex, t: Trit)
    ensures (((w & !(3 << (k * 2))) | (Code(t) << (k * 2))) >> (j * 2)) & 3 ==
            if j == k then Code(t) else (w >> (j * 2)) & 3
  {
  }

  /** A word is determined by its sixteen fields. */
  lemma FieldsDetermineWord(a: bv32, b: bv32)
    requires forall j: FieldIndex :: Field(a, j) == Field(b, j)
    ensures a == b
  {
    AgreeAt(a, b, 0); AgreeAt(a, b, 1); AgreeAt(a, b, 2); AgreeAt(a, b, 3);
    AgreeAt(a, b, 4); AgreeAt(a, b, 5); AgreeAt(a, b, 6); AgreeAt(a, b, 7);
    AgreeAt(a, b, 8); AgreeAt(a, b, 9); AgreeAt(a, b, 10); AgreeAt(a, b, 11);
    AgreeAt(a, b, 12); AgreeAt(a, b, 13); AgreeAt(a, b, 14); AgreeAt(a, b, 15);
  }

  lemma AgreeAt(a: bv32, b: bv32, j: FieldIndex)
    requires Field(a, j) == Field(b, j)
    ensures (a >> (j * 2)) & 3 == (b >> (j * 2)) & 3
  {
    FieldIsShifted(a, j);
    FieldIsShifted(b, j);
  }

  // Properties of one word.

  /** Writing field `k` sets it to the code of `t` and leaves every other
      field as it was. */
  lemma {:induction false} FieldSetField(w: bv32, k: FieldIndex, j: FieldIndex, t: Trit)
    ensures Field(SetField(w, k, t), j) == if j == k then Code(t) else Field(w, j)
  {
    if k == 0 {
      SetFieldLowest(w, j, t);
    } else if j == 0 {
      SetFieldKeepsLowest(w, k, t);
    } else {
      SetFieldAbove(w, k, j, t);
      FieldSetField(w >> 2, k - 1, j - 1, t);
      assert Field(w, j) == Field(w >> 2, j - 1);
    }
  }

  /** Writing field 0 puts the code there and keeps fields 1 to 15. */
  lemma SetFieldLowest(w: bv32, j: FieldIndex, t: Trit)
    ensures Field(SetField(w, 0, t), j) == if j == 0 then Code(t) else Field(w, j)
  {
    if j > 0 {
      FieldOfLowUpdate(w, Code(t), j);
    }
  }

  /** Writing a field above field 0 keeps field 0. */
  lemma SetFieldKeepsLowest(w: bv32, k: FieldIndex, t: Trit)
    requires 0 < k
    ensures Field(SetField(w, k, t), 0) == Field(w, 0)
  {
    LowOfShifted(SetField(w >> 2, k - 1, t), w);
  }

  /** Above field 0, writing field `k` of `w` is writing field `k - 1` of
      the word shifted down by one field. */
  lemma SetFieldAbove(w: bv32, k: FieldIndex, j: FieldIndex, t: Trit)
    requires 0 < k && 0 < j
    ensures Field(SetField(w, k, t), j) == Field(SetField(w >> 2, k - 1, t), j - 1)
  {
    FieldOfShiftedHigh(SetField(w >> 2, k - 1, t), w, j);
  }

  /** Shifting `s` up by one field and putting the low bits of `w` below it
      keeps field 0 of `w`. */
  lemma LowOfShifted(s: bv32, w: bv32)
    ensures Field((s << 2) | (w & 3), 0) == Field(w, 0)
  {
  }

  /** Replacing the two low bits by `c` puts `c` in field 0. */
  lemma LowUpdateSetsLow(w: bv32, c: bv32)
    requires c < 4
    ensures Field((w & !3) | c, 0) == c
  {
  }

  /** Replacing the two low bits leaves fields 1 to 15 as they were. */
  lemma FieldOfLowUpdate(w: bv32, c: bv32, j: FieldIndex)
    requires c < 4 && 0 < j
    ensures Field((w & !3) | c, j) == Field(w, j)
  {
    LowUpdateKeepsHigh(w, c);
  }

  /** Field `j` of `s` shifted up by one field, with two low bits below it,
      is field `j - 1` of `s`. */
  lemma FieldOfShiftedHigh(s: bv32, w: bv32, j: FieldIndex)
    requires 0 < j
    ensures Field((s << 2) | (w & 3), j) == Field(s, j - 1)
  {
    HighOfShifted(s, w);
    FieldIgnoresTop(s, j - 1);
  }

  lemma LowUpdateKeepsHigh(w: bv32, c: bv32)
    requires c < 4
    ensures ((w & !3) | c) >> 2 == w >> 2
  {
  }

  lemma HighOfShifted(s: bv32, w: bv32)
    ensures ((s << 2) | (w & 3)) >> 2 == s & 0x3FFF_FFFF
  {
  }

  /** Fields 0 to 14 do not see the two top bits. */
  lemma FieldIgnoresTop(x: bv32, i: FieldIndex)
    requires i < 15
    ensures Field(x & 0x3FFF_FFFF, i) == Field(x, i)
  {
    FieldIsShifted(x & 0x3FFF_FFFF, i);
    FieldIsShifted(x, i);
  }

  /** Encoding round trip on one word: what was written is read back, and
      every other field keeps its value. */
  lemma DecodeSetField(w: bv32, k: FieldIndex, j: FieldIndex, t: Trit)
    ensures Decode(SetField(w, k, t), j) == if j == k then t else Decode(w, j)
  {
    FieldSetField(w, k, j, t);
  }

  /** Writing a field keeps the word free of the pattern 11. */
  lemma SetFieldWellFormed(w: bv32, k: FieldIndex, t: Trit)
    requires WordWellFormed(w)
    ensures WordWellFormed(SetField(w, k, t))
  {
    forall j: FieldIndex ensures Field(SetField(w, k, t), j) != 3 {
      FieldSetField(w, k, j, t);
    }
  }

  /** A zero word holds sixteen Unknown trits. */
  lemma ZeroWordUnknown(k: FieldIndex)
    ensures Decode(0, k) == Unknown && Field(0, k) == UnknownCode
  {
    FieldIsShifted(0, k);
  }

  // ---------------------------------------------------------------------
  // Word vectors

  /** Word of the vector that holds trit `pos`. */
  function WordIndex(pos: nat): nat {
    pos / TritsPerWord
  }

  /** Field inside its word that holds trit `pos`. */
  function FieldOf(pos: nat): FieldIndex {
    FieldIndexOf(pos % TritsPerWord)
  }

  /** The field index numbered `i`, listed so that no integer is converted
      to a bit vector. */
  function FieldIndexOf(i: nat): FieldIndex
    requires i < TritsPerWord
  {
    if i == 0 then 0 else if i == 1 then 1 else if i == 2 then 2 else if i == 3 then 3
    else if i == 4 then 4 else if i == 5 then 5 else if i == 6 then 6 else if i == 7 then 7
    else if i == 8 then 8 else if i == 9 then 9 else if i == 10 then 10 else if i == 11 then 11
    else if i == 12 then 12 else if i == 13 then 13 else if i == 14 then 14 else 15
  }

  /** Number of words needed for `n` trits: the least `w` with `16 * w >= n`,
      the integer form of `ceil(n * 2 / 32)`. */
  function WordsFor(n: nat): (w: nat)
    ensures TritsPerWord * w >= n
    ensures w > 0 ==> TritsPerWord * (w - 1) < n
  {
    (n + TritsPerWord - 1) / TritsPerWord
  }

  /** Trits the vector holds without growing. */
  function CapacityOf(st: seq<bv32>): nat {
    TritsPerWord * |st|
  }

  /** `n` zero words, each holding sixteen Unknown trits. */
  function Zeros(n: nat): (z: seq<bv32>)
    ensures |z| == n && forall i :: 0 <= i < n ==> z[i] == 0
  {
    seq(n, _ => 0)
  }

  function Max(a: nat, b: nat): nat {
    if a < b then b else a
  }

  /** Reads trit `pos` of the vector. A position whose word is at or past the
      end of the vector, in particular any position of an empty vector, reads
      Unknown: reading is total. */
  function ReadTrit(st: seq<bv32>, pos: nat): (t: Trit)
    ensures pos >= CapacityOf(st) ==> t == Unknown
  {
    if WordIndex(pos) >= |st| then Unknown
    else Decode(st[WordIndex(pos)], FieldOf(pos))
  }

  /** Writes trit `pos` of the vector: first appends zero words until the word
      holding `pos` exists (at least one word is always present afterwards),
      then rewrites that one field. */
  function WriteTrit(st: seq<bv32>, pos: nat, v: Trit): (r: seq<bv32>)
    ensures |r| == Max(|st|, WordIndex(pos) + 1)
    ensures forall i :: 0 <= i < |st| && i != WordIndex(pos) ==> r[i] == st[i]
  {
    var grown := st + Zeros(Max(|st|, WordIndex(pos) + 1) - |st|);
    grown[WordIndex(pos) := SetField(grown[WordIndex(pos)], FieldOf(pos), v)]
  }

  /** Round trip of the packed encoding: the written position reads back the
      written value, every other position keeps the value it had, and the
      words appended by growth read Unknown. */
  lemma {:induction false} ReadAfterWrite(st: seq<bv32>, pos: nat, v: Trit, p: nat)
    ensures ReadTrit(WriteTrit(st, pos, v), p) == if p == pos then v else ReadTrit(st, p)
  {
    var r := WriteTrit(st, pos, v);
    var w := WordIndex(pos);
    var grown := st + Zeros(Max(|st|, w + 1) - |st|);
    assert r == grown[w := SetField(grown[w], FieldOf(pos), v)];
    if WordIndex(p) == w {
      var k, j := FieldOf(pos), FieldOf(p);
      assert ReadTrit(r, p) == Decode(SetField(grown[w], k, v), j);
      DecodeSetField(grown[w], k, j, v);
      if p != pos {
        FieldOfDistinct(p, pos);
        if w >= |st| {
          ZeroWordUnknown(j);
        } else {
          assert grown[w] == st[w];
        }
      }
    } else if WordIndex(p) < |r| {
      assert r[WordIndex(p)] == grown[WordIndex(p)];
      if WordIndex(p) >= |st| {
        ZeroWordUnknown(FieldOf(p));
      }
    }
  }

  /** Two distinct positions in the same word occupy distinct fields. */
  lemma FieldOfDistinct(p: nat, q: nat)
    requires p != q && WordIndex(p) == WordIndex(q)
    ensures FieldOf(p) != FieldOf(q)
  {
    assert p % TritsPerWord != q % TritsPerWord;
    FieldIndexInjective(p % TritsPerWord, q % TritsPerWord);
  }

  lemma FieldIndexInjective(a: nat, b: nat)
    requires a < TritsPerWord && b < TritsPerWord && a != b
    ensures FieldIndexOf(a) != FieldIndexOf(b)
  {
  }

  /** Writing keeps every word free of the pattern 11. */
  lemma WriteWellFormed(st: seq<bv32>, pos: nat, v: Trit)
    requires WellFormed(st)
    ensures WellFormed(WriteTrit(st, pos, v))
  {
    var r := WriteTrit(st, pos, v);
    var w := WordIndex(pos);
    var grown := st + Zeros(Max(|st|, w + 1) - |st|);
    forall i | 0 <= i < |grown| ensures WordWellFormed(grown[i]) {
      if i >= |st| {
        forall k: FieldIndex ensures Field(grown[i], k) != 3 {
          ZeroWordUnknown(k);
        }
      }
    }
    SetFieldWellFormed(grown[w], FieldOf(pos), v);
  }

  /** A position inside the capacity is written in place; only a position past
      it makes the vector grow. */
  lemma WriteGrowsOnlyPastCapacity(st: seq<bv32>, pos: nat, v: Trit)
    ensures |WriteTrit(st, pos, v)| == |st| <==> pos < CapacityOf(st)
  {
  }

  /** One more trit needs one more word exactly when it starts a new word. */
  lemma WordsForStep(n: nat)
    ensures WordsFor(n + 1) == Max(WordsFor(n), WordIndex(n) + 1)
  {
  }

  // ---------------------------------------------------------------------
  // The decoded view of a word vector

  /** Trit `p` of a decoded view; Unknown past its end, as for the words. */
  function TritAt(ts: seq<Trit>, p: nat): Trit {
    if p < |ts| then ts[p] else Unknown
  }

  /** `ts` lists the trits `st` holds, sixteen per word in position order,
      and no field of `st` holds the pattern 11. */
  ghost predicate Represents(st: seq<bv32>, ts: seq<Trit>) {
    |ts| == CapacityOf(st) && WellFormed(st) &&
    forall p: nat {:trigger ReadTrit(st, p)} :: ReadTrit(st, p) == TritAt(ts, p)
  }

  /** The effect of `WriteTrit` on the decoded view: grown by Unknown trits
      to whole words up to the one holding `pos`, then `pos` set to `v`. */
  function Written(ts: seq<Trit>, pos: nat, v: Trit): (r: seq<Trit>)
    ensures |r| == Max(|ts|, TritsPerWord * (WordIndex(pos) + 1))
  {
    var n := Max(|ts|, TritsPerWord * (WordIndex(pos) + 1));
    (ts + seq(n - |ts|, _ => Unknown))[pos := v]
  }

  /** Reading the view after a write: the written position holds the new
      value and every other position keeps its value. */
  lemma WrittenAt(ts: seq<Trit>, pos: nat, v: Trit, p: nat)
    ensures TritAt(Written(ts, pos, v), p) == if p == pos then v else TritAt(ts, p)
  {
  }

  /** A write keeps the view in step with the words. */
  lemma WriteRepresents(st: seq<bv32>, ts: seq<Trit>, pos: nat, v: Trit)
    requires Represents(st, ts)
    ensures Represents(WriteTrit(st, pos, v), Written(ts, pos, v))
  {
    var r, rs := WriteTrit(st, pos, v), Written(ts, pos, v);
    WriteWellFormed(st, pos, v);
    forall p: nat ensures ReadTrit(r, p) == TritAt(rs, p) {
      ReadAfterWrite(st, pos, v, p);
      WrittenAt(ts, pos, v, p);
    }
  }

  /** Keeping the first `k` words keeps the first `16 * k` trits of the view. */
  lemma PrefixRepresents(st: seq<bv32>, ts: seq<Trit>, k: nat)
    requires Represents(st, ts) && k <= |st|
    ensures Represents(st[..k], ts[..TritsPerWord * k])
  {
    var r, rs := st[..k], ts[..TritsPerWord * k];
    forall p: nat ensures ReadTrit(r, p) == TritAt(rs, p) {
      if WordIndex(p) < k {
        assert r[WordIndex(p)] == st[WordIndex(p)];
        assert ReadTrit(r, p) == ReadTrit(st, p);
      }
    }
  }

  /** The capacity counts exactly the positions whose word is allocated. */
  lemma CapacityIsAllocated(st: seq<bv32>, p: nat)
    ensures p < CapacityOf(st) <==> WordIndex(p) < |st|
  {
  }

  // ---------------------------------------------------------------------
  // The source as written, where it departs from the layout above

  /** The field write as the source writes it: the clear mask is the decimal
      constant 11 (binary 1011) shifted to the field, so besides the two bits
      of field `k` it clears the high (True) bit of field `k + 1`. */
  function SetFieldAsWritten(w: bv32, k: FieldIndex, t: Trit): bv32 {
    (w & !(11 << (k * 2))) | (Code(t) << (k * 2))
  }

  /** Writing field 0 of a word whose field 1 holds True: the mask 11 turns
      field 1 into Unknown, while the 0b11 mask leaves it True. */
  lemma SetFieldAsWrittenClearsNextTrue()
    ensures Decode(8, 1) == True
    ensures Decode(SetFieldAsWritten(8, 0, False), 1) == Unknown
    ensures Decode(SetField(8, 0, False), 1) == True
  {
    DecodeSetField(8, 0, 1, False);
  }

  /** The bounds test of the source's read: the word is read unless its index
      is strictly greater than the word count or there is no word. */
  predicate ReadsWordAsWritten(st: seq<bv32>, pos: nat) {
    !(WordIndex(pos) > |st| || |st| == 0)
  }

  /** The test lets through the word index equal to the word count: position
      16 of a one-word vector is read from the nonexistent second word. */
  lemma ReadsWordAsWrittenPastEnd()
    ensures ReadsWordAsWritten([0], 16) && WordIndex(16) >= |[0 as bv32]|
  {
  }

  /** The source's capacity: one word more than the vector holds, except for
      the empty vector. */
  function CapacityAsWritten(words: nat): nat {
    if words == 0 then 0 else (words + 1) * WordBits / 2
  }

  /** Every non-empty vector is reported sixteen trits larger than it is. */
  lemma CapacityAsWrittenOneWordTooMany(st: seq<bv32>)
    requires |st| > 0
    ensures CapacityAsWritten(|st|) == CapacityOf(st) + TritsPerWord
  {
  }
}
