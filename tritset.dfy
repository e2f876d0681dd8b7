/** The trit container: a growable vector of packed words plus the position of
    its last non-Unknown trit. Reads are total, writes grow the vector by zero
    words, and the elementwise operators build a fresh container. */
module TritSets {
  import opened Trits
  import opened Packing

  class TritSet {
    /** The packed words, sixteen trits each. */
    var storage: seq<bv32>
    /** Position of the last non-Unknown trit, or 0 when every trit is Unknown. */
    var lastTritPos: nat
    /** The trits the words hold, sixteen per word in position order. */
    ghost var trits: seq<Trit>

    /** The container invariant: `trits` is the decoded view of the words,
        every position after `lastTritPos` holds Unknown, and `lastTritPos`
        itself holds something other than Unknown unless every trit is
        Unknown (and it is then 0). */
    ghost predicate Valid()
      reads this
    {
      Represents(storage, trits) &&
      (forall p :: lastTritPos < p < |trits| ==> trits[p] == Unknown) &&
      (TritAt(trits, lastTritPos) == Unknown ==> lastTritPos == 0)
    }

    /** The value at `pos` as the container holds it; Unknown past the
        allocated words. */
    ghost function ValueAt(pos: nat): Trit
      reads this
    {
      TritAt(trits, pos)
    }

    /** Reads position `pos` from the packed words. */
    method GetTrit(pos: nat) returns (t: Trit)
      requires Valid()
      ensures t == ValueAt(pos)
    {
      t := ReadTrit(storage, pos);
    }

    /** Trits the allocated words hold: sixteen per word. */
    function Capacity(): (c: nat)
      reads this
      ensures c == 0 <==> |storage| == 0
      ensures forall p: nat :: p < c <==> WordIndex(p) < |storage|
    {
      CapacityOf(storage)
    }

    /** The logical size: one past the last non-Unknown trit, 0 when there is
        none. It is the least `n` such that every position from `n` on holds
        Unknown, and it never exceeds the capacity. */
    function Size(): (n: nat)
      reads this
      requires Valid()
      ensures forall p: nat :: n <= p ==> ValueAt(p) == Unknown
      ensures n > 0 ==> ValueAt(n - 1) != Unknown
      ensures n <= Capacity()
    {
      if lastTritPos > 0 || ReadTrit(storage, 0) != Unknown then lastTritPos + 1 else 0
    }

    /** The logical content: the trits of positions `0 .. Size() - 1`. */
    ghost function Contents(): (ts: seq<Trit>)
      reads this
      requires Valid()
    {
      trits[..Size()]
    }

    /** The size is fixed by the values alone. */
    lemma SizeIs(n: nat)
      requires Valid()
      requires forall p: nat :: n <= p ==> ValueAt(p) == Unknown
      requires n > 0 ==> ValueAt(n - 1) != Unknown
      ensures Size() == n
    {
    }

    /** An empty container: no words, size 0. */
    constructor Empty()
      ensures Valid() && storage == [] && lastTritPos == 0
      ensures Size() == 0 && Capacity() == 0
      ensures forall p: nat :: ValueAt(p) == Unknown
    {
      storage := [];
      lastTritPos := 0;
      trits := [];
    }

    /** A container of `count` trits, each set to `defaultValue`. */
    constructor (count: nat, defaultValue: Trit)
      ensures Valid()
      ensures forall p: nat :: ValueAt(p) == if p < count then defaultValue else Unknown
      ensures |storage| == WordsFor(count)
      ensures Size() == if defaultValue == Unknown then 0 else count
    {
      storage := [];
      lastTritPos := 0;
      trits := [];
      new;
      Fill(count, defaultValue);
    }

    /** A container of `count` trits, each Unknown: words are allocated, the
        size stays 0. */
    constructor WithCount(count: nat)
      ensures Valid()
      ensures forall p: nat :: ValueAt(p) == Unknown
      ensures |storage| == WordsFor(count)
      ensures Size() == 0
    {
      storage := [];
      lastTritPos := 0;
      trits := [];
      new;
      Fill(count, Unknown);
    }

    /** The body of the two-argument constructor: writes `defaultValue` into
        positions `0 .. count - 1` of an empty container, then places
        `lastTritPos` on position `count - 1` unless the value is Unknown. */
    method Fill(count: nat, defaultValue: Trit)
      requires storage == [] && trits == [] && lastTritPos == 0
      modifies this
      ensures Valid()
      ensures forall p: nat :: ValueAt(p) == if p < count then defaultValue else Unknown
      ensures |storage| == WordsFor(count)
      ensures Size() == if defaultValue == Unknown then 0 else count
    {
      for i := 0 to count
        invariant Represents(storage, trits) && lastTritPos == 0
        invariant |storage| == WordsFor(i)
        invariant forall p: nat :: TritAt(trits, p) == if p < i then defaultValue else Unknown
      {
        ghost var before := trits;
        StoreTrit(i, defaultValue);
        forall p: nat ensures TritAt(trits, p) == if p < i + 1 then defaultValue else Unknown {
          WrittenAt(before, i, defaultValue, p);
        }
        WordsForStep(i);
      }
      if defaultValue != Unknown && count > 0 {
        lastTritPos := count - 1;
        assert TritAt(trits, count - 1) == defaultValue;
      }
      forall p | lastTritPos < p < |trits| ensures trits[p] == Unknown {
        assert TritAt(trits, p) == trits[p];
      }
      if defaultValue == Unknown || count == 0 {
        SizeIs(0);
      } else {
        SizeIs(count);
      }
    }

    /** Writes one trit without touching `lastTritPos`: appends zero words
        until the word holding `pos` exists, then rewrites its field. */
    method StoreTrit(pos: nat, value: Trit)
      requires Represents(storage, trits)
      modifies this
      ensures storage == WriteTrit(old(storage), pos, value)
      ensures trits == Written(old(trits), pos, value)
      ensures Represents(storage, trits)
      ensures lastTritPos == old(lastTritPos)
    {
      var uintPos := WordIndex(pos);
      if |storage| == 0 {
        storage := storage + [0];
      }
      if uintPos + 1 > |storage| {
        var addingUInts := uintPos + 1 - |storage|;
        for i := 0 to addingUInts
          invariant |storage| == uintPos + 1 - addingUInts + i
          invariant |storage| >= |old(storage)| && lastTritPos == old(lastTritPos) && trits == old(trits)
          invariant storage[..|old(storage)|] == old(storage)
          invariant forall j :: |old(storage)| <= j < |storage| ==> storage[j] == 0
        {
          storage := storage + [0];
        }
      }
      assert storage == old(storage) + Zeros(Max(|old(storage)|, uintPos + 1) - |old(storage)|);
      storage := storage[uintPos := SetField(storage[uintPos], FieldOf(pos), value)];
      trits := Written(trits, pos, value);
      WriteRepresents(old(storage), old(trits), pos, value);
    }

    /** Recomputes `lastTritPos` by scanning every allocated position; the
        scan starts again from 0, so a container whose trits have all become
        Unknown ends with `lastTritPos == 0`. */
    method CountLastTritPos()
      requires Represents(storage, trits)
      modifies this
      ensures Valid()
      ensures storage == old(storage) && trits == old(trits)
    {
      var allowedPos := Capacity();
      lastTritPos := 0;
      for i := 0 to allowedPos
        invariant storage == old(storage) && trits == old(trits)
        invariant forall p :: lastTritPos < p < i ==> trits[p] == Unknown
        invariant TritAt(trits, lastTritPos) == Unknown ==> lastTritPos == 0
      {
        if ReadTrit(storage, i) != Unknown {
          lastTritPos := i;
        }
      }
    }

    /** Sets position `pos` to `value`. Nothing changes when the position
        already holds the value; in particular setting Unknown past the
        allocated words allocates nothing. Otherwise the trit is written
        (growing the vector when needed) and `lastTritPos` recomputed. */
    method SetTrit(pos: nat, value: Trit)
      requires Valid()
      modifies this
      ensures Valid()
      ensures forall p: nat :: ValueAt(p) == if p == pos then value else old(ValueAt(p))
      ensures old(ValueAt(pos)) == value ==> storage == old(storage) && lastTritPos == old(lastTritPos)
      ensures old(ValueAt(pos)) != value ==> storage == WriteTrit(old(storage), pos, value)
      ensures value == Unknown && pos >= old(Capacity()) ==>
                storage == old(storage) && Capacity() == old(Capacity()) && Size() == old(Size())
    {
      var current := GetTrit(pos);
      if current == value {
        return;
      }
      StoreTrit(pos, value);
      CountLastTritPos();
      forall p: nat ensures ValueAt(p) == if p == pos then value else old(ValueAt(p)) {
        WrittenAt(old(trits), pos, value, p);
      }
    }

    /** Sets every position at or after `from` to Unknown, keeps the positions
        before it, recomputes `lastTritPos` and releases the surplus words. */
    method Trim(from: nat)
      requires Valid()
      modifies this
      ensures Valid()
      ensures forall p: nat :: ValueAt(p) == if p < from then old(ValueAt(p)) else Unknown
      ensures |storage| == WordsFor(Size())
    {
      var removeCount := TrimRemoveCount(Size(), from);
      ClearRange(from, removeCount);
      CountLastTritPos();
      ghost var cleared := trits;
      Shrink();
      forall p: nat ensures ValueAt(p) == if p < from then old(ValueAt(p)) else Unknown {
        assert ValueAt(p) == TritAt(cleared, p);
      }
    }

    /** The clearing loop of `trim`: sets the `count` positions starting at
        `from` to Unknown, in place, leaving `lastTritPos` as it was. */
    method ClearRange(from: nat, count: nat)
      requires Represents(storage, trits) && (count > 0 ==> from + count <= Capacity())
      modifies this
      ensures Represents(storage, trits) && |storage| == old(|storage|)
      ensures lastTritPos == old(lastTritPos)
      ensures forall p: nat :: TritAt(trits, p) == if from <= p < from + count then Unknown else old(TritAt(trits, p))
    {
      for i := 0 to count
        invariant Represents(storage, trits) && lastTritPos == old(lastTritPos)
        invariant |storage| == old(|storage|)
        invariant forall p: nat :: TritAt(trits, p) == if from <= p < from + i then Unknown else old(TritAt(trits, p))
      {
        ghost var before := trits;
        StoreTrit(i + from, Unknown);
        forall p: nat ensures TritAt(trits, p) == if from <= p < from + i + 1 then Unknown else old(TritAt(trits, p)) {
          WrittenAt(before, i + from, Unknown, p);
        }
      }
    }

    /** Releases every word after the one holding the last non-Unknown trit;
        an all-Unknown container keeps no word. No value changes. */
    method Shrink()
      requires Valid()
      modifies this
      ensures Valid()
      ensures storage == old(storage)[..WordsFor(old(Size()))]
      ensures lastTritPos == old(lastTritPos)
      ensures forall p: nat :: ValueAt(p) == old(ValueAt(p))
      ensures Size() == old(Size())
      ensures |storage| == WordsFor(Size())
    {
      var keep := WordsFor(Size());
      var diff := |storage| - keep;
      for i := 0 to diff
        invariant storage == old(storage)[..|old(storage)| - i]
        invariant lastTritPos == old(lastTritPos) && trits == old(trits)
      {
        storage := storage[..|storage| - 1];
      }
      PrefixRepresents(old(storage), old(trits), keep);
      trits := trits[..TritsPerWord * keep];
      SizeIs(old(Size()));
    }

    /** Equality: the same size and the same trits below it. As every position
        from the size on holds Unknown, this is the same as equal values at
        every position. */
    method Equals(other: TritSet) returns (equal: bool)
      requires Valid() && other.Valid()
      ensures equal <==> Size() == other.Size() &&
                         forall i :: 0 <= i < Size() ==> ValueAt(i) == other.ValueAt(i)
      ensures equal <==> Contents() == other.Contents()
      ensures equal <==> forall p: nat :: ValueAt(p) == other.ValueAt(p)
    {
      var n := Size();
      if other.Size() != n {
        EqualityViews(other);
        return false;
      }
      for i := 0 to n
        invariant forall j :: 0 <= j < i ==> ValueAt(j) == other.ValueAt(j)
      {
        var mine := GetTrit(i);
        var theirs := other.GetTrit(i);
        if mine != theirs {
          EqualityViews(other);
          return false;
        }
      }
      EqualityViews(other);
      return true;
    }

    /** Inequality: the negation of `Equals`. */
    method NotEquals(other: TritSet) returns (differ: bool)
      requires Valid() && other.Valid()
      ensures differ <==> Contents() != other.Contents()
      ensures differ <==> exists p: nat :: ValueAt(p) != other.ValueAt(p)
    {
      var equal := Equals(other);
      differ := !equal;
    }

    /** Elementwise NOT: position `p` of the result is the negation of
        position `p`; the size is unchanged. */
    method Not() returns (result: TritSet)
      requires Valid()
      ensures fresh(result) && result.Valid()
      ensures forall p: nat :: result.ValueAt(p) == Trits.Not(ValueAt(p))
      ensures result.Size() == Size()
      ensures |result.storage| == WordsFor(Size())
    {
      result := new TritSet.Empty();
      for i := 0 to Size()
        invariant fresh(result)
        invariant Represents(result.storage, result.trits) && |result.storage| == WordsFor(i)
        invariant forall p: nat :: TritAt(result.trits, p) == if p < i then Trits.Not(ValueAt(p)) else Unknown
      {
        var t := GetTrit(i);
        ghost var before := result.trits;
        result.StoreTrit(i, Trits.Not(t));
        forall p: nat ensures TritAt(result.trits, p) == if p < i + 1 then Trits.Not(ValueAt(p)) else Unknown {
          WrittenAt(before, i, Trits.Not(t), p);
        }
        WordsForStep(i);
      }
      result.CountLastTritPos();
      forall p: nat ensures result.ValueAt(p) == Trits.Not(ValueAt(p)) {
        if p >= Size() {
          assert ValueAt(p) == Unknown;
        }
      }
      if Size() > 0 {
        assert result.ValueAt(Size() - 1) == Trits.Not(ValueAt(Size() - 1));
      }
      result.SizeIs(Size());
    }

    /** Elementwise AND: position `p` of the result is the Kleene AND of the
        two operands at `p`; past the shorter operand's size its trit is
        Unknown, so AND keeps only the longer operand's False trits there. */
    method And(other: TritSet) returns (result: TritSet)
      requires Valid() && other.Valid()
      ensures fresh(result) && result.Valid()
      ensures forall p: nat :: result.ValueAt(p) == Trits.And(ValueAt(p), other.ValueAt(p))
      ensures |result.storage| == WordsFor(Max(Size(), other.Size()))
    {
      result := Combine(other, Trits.And);
    }

    /** Elementwise OR: position `p` of the result is the Kleene OR of the
        two operands at `p`; past the shorter operand's size its trit is
        Unknown, so OR keeps only the longer operand's True trits there. */
    method Or(other: TritSet) returns (result: TritSet)
      requires Valid() && other.Valid()
      ensures fresh(result) && result.Valid()
      ensures forall p: nat :: result.ValueAt(p) == Trits.Or(ValueAt(p), other.ValueAt(p))
      ensures |result.storage| == WordsFor(Max(Size(), other.Size()))
    {
      result := Combine(other, Trits.Or);
    }

    /** The loop shared by AND and OR: for every position below the larger
        size, combine both trits when the position lies within both operands,
        otherwise combine the one operand's trit with Unknown. */
    method Combine(other: TritSet, op: (Trit, Trit) -> Trit) returns (result: TritSet)
      requires Valid() && other.Valid()
      requires forall a: Trit, b: Trit :: op(a, b) == op(b, a)
      requires op(Unknown, Unknown) == Unknown
      ensures fresh(result) && result.Valid()
      ensures forall p: nat :: result.ValueAt(p) == op(ValueAt(p), other.ValueAt(p))
      ensures |result.storage| == WordsFor(Max(Size(), other.Size()))
    {
      var maxSize := Size();
      if other.Size() > Size() {
        maxSize := other.Size();
      }
      result := CombineBelow(other, op, maxSize);
      result.CountLastTritPos();
      forall p: nat ensures result.ValueAt(p) == op(ValueAt(p), other.ValueAt(p)) {
        if p >= maxSize {
          assert ValueAt(p) == Unknown && other.ValueAt(p) == Unknown;
        }
      }
    }

    /** The loop of `Combine` itself: a new vector holding the combined trits
        of the positions below `bound` and Unknown from `bound` on. */
    method CombineBelow(other: TritSet, op: (Trit, Trit) -> Trit, bound: nat) returns (result: TritSet)
      requires Valid() && other.Valid()
      requires forall a: Trit, b: Trit :: op(a, b) == op(b, a)
      ensures fresh(result)
      ensures Represents(result.storage, result.trits) && |result.storage| == WordsFor(bound)
      ensures forall p: nat :: TritAt(result.trits, p) ==
                if p < bound then op(ValueAt(p), other.ValueAt(p)) else Unknown
    {
      ghost var mine, theirs := trits, other.trits;
      result := new TritSet.Empty();
      for i := 0 to bound
        invariant fresh(result)
        invariant Represents(result.storage, result.trits) && |result.storage| == WordsFor(i)
        invariant forall p: nat :: TritAt(result.trits, p) ==
                    if p < i then op(TritAt(mine, p), TritAt(theirs, p)) else Unknown
      {
        var t := CombineAt(other, op, i);
        ghost var before := result.trits;
        result.StoreTrit(i, t);
        forall p: nat ensures TritAt(result.trits, p) ==
                                if p < i + 1 then op(TritAt(mine, p), TritAt(theirs, p)) else Unknown {
          WrittenAt(before, i, t, p);
        }
        WordsForStep(i);
      }
    }

    /** One position of the AND/OR loop: both trits when `pos` lies within
        both operands; otherwise the one operand's trit combined with Unknown,
        which is what the other operand holds there. */
    method CombineAt(other: TritSet, op: (Trit, Trit) -> Trit, pos: nat) returns (t: Trit)
      requires Valid() && other.Valid()
      requires forall a: Trit, b: Trit :: op(a, b) == op(b, a)
      ensures t == op(ValueAt(pos), other.ValueAt(pos))
    {
      if pos <= lastTritPos && pos <= other.lastTritPos {
        var mine := GetTrit(pos);
        var theirs := other.GetTrit(pos);
        t := op(mine, theirs);
      } else if pos <= lastTritPos {
        var mine := GetTrit(pos);
        t := op(mine, Unknown);
      } else {
        var theirs := other.GetTrit(pos);
        t := op(theirs, Unknown);
      }
    }

    /** Renders positions `0 .. Size() - 1` as F, U and T characters. */
    method ToString() returns (s: string)
      requires Valid()
      ensures s == Render(Contents())
    {
      s := "";
      for i := 0 to Size()
        invariant |s| == i && forall j :: 0 <= j < i ==> s[j] == TritChar(trits[j])
      {
        var t := GetTrit(i);
        s := s + [TritChar(t)];
      }
    }

    /** Three equivalent views of equality: same size and same trits below it;
        same logical content; same value at every position. */
    lemma EqualityViews(other: TritSet)
      requires Valid() && other.Valid()
      ensures (Size() == other.Size() && forall i :: 0 <= i < Size() ==> ValueAt(i) == other.ValueAt(i))
              <==> Contents() == other.Contents()
      ensures Contents() == other.Contents() <==> forall p: nat :: ValueAt(p) == other.ValueAt(p)
    {
      ContentsViewOfEquality(other);
      ValuesViewOfEquality(other);
    }

    lemma ContentsViewOfEquality(other: TritSet)
      requires Valid() && other.Valid()
      ensures (Size() == other.Size() && forall i :: 0 <= i < Size() ==> ValueAt(i) == other.ValueAt(i))
              <==> Contents() == other.Contents()
    {
      var n := Size();
      if n == other.Size() && forall i :: 0 <= i < n ==> ValueAt(i) == other.ValueAt(i) {
        forall i | 0 <= i < n ensures Contents()[i] == other.Contents()[i] {
          assert ValueAt(i) == other.ValueAt(i);
        }
        assert Contents() == other.Contents();
      } else if n == other.Size() {
        var i :| 0 <= i < n && ValueAt(i) != other.ValueAt(i);
        assert Contents()[i] != other.Contents()[i];
      } else {
        assert |Contents()| != |other.Contents()|;
      }
    }

    lemma ValuesViewOfEquality(other: TritSet)
      requires Valid() && other.Valid()
      ensures (Size() == other.Size() && forall i :: 0 <= i < Size() ==> ValueAt(i) == other.ValueAt(i))
              <==> forall p: nat :: ValueAt(p) == other.ValueAt(p)
    {
      var n, m := Size(), other.Size();
      if n == m && forall i :: 0 <= i < n ==> ValueAt(i) == other.ValueAt(i) {
        forall p: nat ensures ValueAt(p) == other.ValueAt(p) {
          if p >= n {
            assert ValueAt(p) == Unknown == other.ValueAt(p);
          }
        }
      } else if n > m {
        assert ValueAt(n - 1) != other.ValueAt(n - 1);
      } else if n < m {
        assert ValueAt(m - 1) != other.ValueAt(m - 1);
      }
    }
  }

  /** Positions `trim` clears: from `from` up to and including the last
      non-Unknown trit, none when `from` is at or past the size. */
  function TrimRemoveCount(size: nat, from: nat): (n: nat)
    ensures from + n == Max(size, from)
  {
    if from < size then size - from else 0
  }

  /** The written form of a trit sequence: one character per trit. */
  function Render(ts: seq<Trit>): (s: string)
  {
    seq(|ts|, i requires 0 <= i < |ts| => TritChar(ts[i]))
  }

  // ---------------------------------------------------------------------
  // The source as written, where it departs from the model above

  /** `size_t` is 64 bits wide: unsigned subtraction wraps modulo this. */
  const SizeModulus: int := 0x1_0000_0000_0000_0000

  /** The count `trim` clears as the source computes it: `lastTritPos - from`
      in unsigned arithmetic. */
  function TrimRemoveCountAsWritten(lastTritPos: nat, from: nat): (n: int)
    ensures 0 <= n < SizeModulus
  {
    (lastTritPos - from) % SizeModulus
  }

  /** Trimming from 0 a set whose last non-Unknown trit is at 5 clears only
      positions 0 to 4, so a False at position 5 stays set; six positions need
      clearing. */
  lemma TrimAsWrittenMissesLast()
    ensures TrimRemoveCountAsWritten(5, 0) == 5
    ensures TrimRemoveCount(5 + 1, 0) == 6
  {
  }

  /** Trimming from a position past `lastTritPos` wraps around: the count
      becomes 2^64 minus the distance between the two, where none are due. */
  lemma TrimAsWrittenUnderflows(lastTritPos: nat, from: nat)
    requires lastTritPos < from < SizeModulus
    ensures TrimRemoveCountAsWritten(lastTritPos, from) == SizeModulus - (from - lastTritPos)
    ensures TrimRemoveCount(lastTritPos + 1, from) == 0
  {
  }

  /** The words `shrink` keeps as the source computes them:
      `ceil(lastTritPos * 2 / 8. / sizeof(uint))`, that is ceil(lastTritPos / 16). */
  function ShrinkKeepAsWritten(lastTritPos: nat): (w: nat)
    ensures TritsPerWord * w >= lastTritPos
  {
    WordsFor(lastTritPos)
  }

  /** When `lastTritPos` is a multiple of 16, including 0, the word holding
      the last non-Unknown trit is the first one released. */
  lemma ShrinkAsWrittenDropsLastWord(lastTritPos: nat)
    requires lastTritPos % TritsPerWord == 0
    ensures ShrinkKeepAsWritten(lastTritPos) == WordIndex(lastTritPos)
    ensures WordsFor(lastTritPos + 1) == WordIndex(lastTritPos) + 1
  {
  }

  /** The scan of `countLastTritPos` as the source writes it: it starts from
      the current `lastTritPos`, and a position updates it only when it holds
      a non-Unknown trit. */
  function CountLastAsWritten(st: seq<bv32>, last: nat, i: nat): nat
    decreases CapacityOf(st) - i
  {
    if i >= CapacityOf(st) then last
    else CountLastAsWritten(st, if ReadTrit(st, i) != Unknown then i else last, i + 1)
  }

  /** When every remaining position holds Unknown the scan returns the stale
      value it started with: after the last non-Unknown trit is set to
      Unknown, `lastTritPos` stays behind and the size stays positive. */
  lemma {:induction false} CountLastAsWrittenKeepsStale(st: seq<bv32>, last: nat, i: nat)
    requires forall p: nat :: i <= p ==> ReadTrit(st, p) == Unknown
    ensures CountLastAsWritten(st, last, i) == last
    decreases CapacityOf(st) - i
  {
    if i < CapacityOf(st) {
      CountLastAsWrittenKeepsStale(st, last, i + 1);
    }
  }

  /** The `lastTritPos` the source's constructor leaves: `tritsCount - 1` in
      unsigned arithmetic when the value is not Unknown. */
  function ConstructorLastTritPosAsWritten(count: nat, defaultValue: Trit): (last: int)
    ensures 0 <= last < SizeModulus
  {
    if defaultValue != Unknown then (count - 1) % SizeModulus else 0
  }

  /** A count of 0 with a non-Unknown value wraps `lastTritPos` to 2^64 - 1. */
  lemma ConstructorAsWrittenWrapsOnZero()
    ensures ConstructorLastTritPosAsWritten(0, True) == SizeModulus - 1
  {
  }

  /** The words `trim` keeps as the source orders it: `shrink` runs before
      `countLastTritPos`, so it reads the `lastTritPos` from before the clear.
      Taking the corrected word count, it keeps the words of the old size. */
  function TrimKeepAsWritten(lastTritPosBefore: nat): (w: nat)
    ensures w > 0
  {
    WordsFor(lastTritPosBefore + 1)
  }

  /** Trimming a 100-trit set to 50 keeps the 7 words of the old size where
      4 words hold the 50 remaining trits. */
  lemma TrimAsWrittenKeepsSurplus()
    ensures TrimKeepAsWritten(99) == 7 && WordsFor(50) == 4
  {
  }
}
