/** The text form the unit tests use to build containers, and the scenarios
    of the unit tests: each scenario is a method performing the test's calls,
    whose result is what the test asserts. */
module TritTests {
  import opened Trits
  import opened Packing
  import opened TritSets

  datatype Option<T> = None | Some(value: T)

  // ---------------------------------------------------------------------
  // The text form

  /** ASCII lower-casing, as `tolower` does in the "C" locale. */
  function Lower(c: char): (l: char)
    ensures !('A' <= l <= 'Z')
    ensures !('A' <= c <= 'Z') ==> l == c
    ensures 'A' <= c <= 'Z' ==> 'a' <= l <= 'z' && l as int - 'a' as int == c as int - 'A' as int
  {
    if 'A' <= c <= 'Z' then (c as int + 32) as char else c
  }

  /** A text lower-cased character by character. */
  function LowerAll(s: string): (r: string)
    ensures |r| == |s|
  {
    seq(|s|, i requires 0 <= i < |s| => Lower(s[i]))
  }

  /** The trit a character names, in either case; None for any character
      other than F, U and T. */
  function ParseChar(c: char): (r: Option<Trit>)
    ensures r == Some(False) <==> c == 'F' || c == 'f'
    ensures r == Some(Unknown) <==> c == 'U' || c == 'u'
    ensures r == Some(True) <==> c == 'T' || c == 't'
  {
    var l := Lower(c);
    if l == 'f' then Some(False)
    else if l == 'u' then Some(Unknown)
    else if l == 't' then Some(True)
    else None
  }

  /** The trits a text names, one per character, or None when some character
      names no trit; trit `i` is the one whose letter is character `i`, in
      either case. */
  function Parse(s: string): (r: Option<seq<Trit>>)
    ensures r.Some? <==> forall i :: 0 <= i < |s| ==> s[i] in "FUTfut"
    ensures r.Some? ==> |r.value| == |s|
    ensures r.Some? ==> forall i :: 0 <= i < |s| ==> Lower(TritChar(r.value[i])) == Lower(s[i])
  {
    if forall i :: 0 <= i < |s| ==> ParseChar(s[i]).Some? then
      Some(seq(|s|, i requires 0 <= i < |s| && ParseChar(s[i]).Some? => ParseChar(s[i]).value))
    else None
  }

  /** The empty text names the empty sequence. */
  lemma ParseEmpty()
    ensures Parse("") == Some([])
  {
    assert |Parse("").value| == 0;
  }

  /** A text naming no trit at one position parses to nothing at all. */
  lemma ParseRejects(s: string, i: nat)
    requires i < |s| && s[i] !in "FUTfut"
    ensures Parse(s) == None
  {
    assert ParseChar(s[i]).None?;
  }

  /** Character `i` of a parsed text gives trit `i`. */
  lemma ParseAt(s: string, i: nat)
    requires Parse(s).Some? && i < |s|
    ensures |Parse(s).value| == |s| && Some(Parse(s).value[i]) == ParseChar(s[i])
  {
  }

  /** The text of a trit sequence parses back to the sequence. */
  lemma ParseRender(ts: seq<Trit>)
    ensures Parse(Render(ts)) == Some(ts)
  {
    var s := Render(ts);
    forall i | 0 <= i < |s| ensures ParseChar(s[i]) == Some(ts[i]) {
      assert s[i] == TritChar(ts[i]);
    }
    var r := Parse(s).value;
    assert |r| == |ts| && forall i :: 0 <= i < |ts| ==> r[i] == ts[i];
    assert r == ts;
  }

  /** Rendering a parsed text gives the text back up to letter case. */
  lemma RenderParse(s: string)
    requires Parse(s).Some?
    ensures LowerAll(Render(Parse(s).value)) == LowerAll(s)
  {
    var r := Render(Parse(s).value);
    forall i | 0 <= i < |s| ensures LowerAll(r)[i] == LowerAll(s)[i] {
      ParseAt(s, i);
    }
  }

  /** Letter case does not matter to the parse. */
  lemma ParseIgnoresCase(s: string)
    ensures Parse(LowerAll(s)) == Parse(s)
  {
    var l := LowerAll(s);
    forall i | 0 <= i < |s| ensures ParseChar(l[i]) == ParseChar(s[i]) {
    }
    if Parse(s).Some? {
      var a, b := Parse(l).value, Parse(s).value;
      assert |a| == |b| && forall i :: 0 <= i < |s| ==> a[i] == b[i];
      assert a == b;
    }
  }

  /** Builds the container a text names (`tritSetFromString`): trit `i` is
      the one character `i` names; the empty text, and a text with a
      character that names no trit, give an empty container. */
  method FromString(s: string) returns (container: TritSet)
    ensures fresh(container) && container.Valid()
    ensures Parse(s).Some? ==> forall p: nat :: container.ValueAt(p) == TritAt(Parse(s).value, p)
    ensures Parse(s).None? || |s| == 0 ==> container.storage == [] && forall p: nat :: container.ValueAt(p) == Unknown
  {
    if |s| == 0 {
      container := new TritSet.Empty();
      return;
    }
    container := new TritSet.WithCount(|s|);
    var text := LowerAll(s);
    for pos := 0 to |s|
      invariant fresh(container) && container.Valid()
      invariant forall j :: 0 <= j < pos ==> ParseChar(s[j]).Some?
      invariant forall p: nat :: container.ValueAt(p) == if p < pos then ParseChar(s[p]).value else Unknown
    {
      var c := text[pos];
      if c == 'f' {
        container.SetTrit(pos, False);
      } else if c == 'u' {
        container.SetTrit(pos, Unknown);
      } else if c == 't' {
        container.SetTrit(pos, True);
      } else {
        assert ParseChar(s[pos]).None?;
        container := new TritSet.Empty();
        return;
      }
    }
    forall p: nat ensures container.ValueAt(p) == TritAt(Parse(s).value, p) {
      if p < |s| {
        ParseAt(s, p);
      }
    }
  }

  /** The parser's character test as written: the text is lower-cased first
      and then compared against the upper-case letters F, U and T. */
  function ParseCharAsWritten(c: char): Option<Trit>
  {
    var l := Lower(c);
    if l == 'F' then Some(False)
    else if l == 'U' then Some(Unknown)
    else if l == 'T' then Some(True)
    else None
  }

  /** The parse as written: None, and so the empty container, as soon as one
      character fails the test above. */
  function ParseAsWritten(s: string): Option<seq<Trit>>
  {
    if forall i :: 0 <= i < |s| ==> ParseCharAsWritten(s[i]).Some? then
      Some(seq(|s|, i requires 0 <= i < |s| && ParseCharAsWritten(s[i]).Some? => ParseCharAsWritten(s[i]).value))
    else None
  }

  /** No lower-cased character is an upper-case letter, so every non-empty
      text parses to the empty container: "FUT" among them. */
  lemma ParseAsWrittenRejectsAll(s: string)
    requires |s| > 0
    ensures ParseAsWritten(s) == None
  {
    assert ParseCharAsWritten(s[0]) == None;
  }

  lemma ParseAsWrittenRejectsFut()
    ensures ParseAsWritten("FUT") == None
    ensures Parse("FUT") == Some([False, Unknown, True])
  {
    ParseAsWrittenRejectsAll("FUT");
    ParseRender([False, Unknown, True]);
    assert Render([False, Unknown, True]) == "FUT";
  }

  // ---------------------------------------------------------------------
  // Scenarios

  /** Builds the container of a trit sequence through its text. */
  method FromTrits(ts: seq<Trit>) returns (container: TritSet)
    ensures fresh(container) && container.Valid()
    ensures forall p: nat :: container.ValueAt(p) == TritAt(ts, p)
  {
    ParseRender(ts);
    container := FromString(Render(ts));
  }

  const Fututf: seq<Trit> := [False, Unknown, True, Unknown, True, False]
  const Tufuft: seq<Trit> := [True, Unknown, False, Unknown, False, True]
  const Fut: seq<Trit> := [False, Unknown, True]
  const Tfu: seq<Trit> := [True, False, Unknown]
  const Tu: seq<Trit> := [True, Unknown]

  /** The data of the NOT scenario, position by position. */
  lemma NotTable()
    ensures forall p: nat :: TritAt(Tufuft, p) == Trits.Not(TritAt(Fututf, p))
  {
  }

  /** The data of the AND and OR scenarios, position by position. */
  lemma AndTable()
    ensures forall p: nat :: TritAt([False, False], p) == Trits.And(TritAt(Fut, p), TritAt(Tfu, p))
  {
  }

  lemma AndShorterTable()
    ensures forall p: nat :: TritAt([True, False], p) == Trits.And(TritAt(Tfu, p), TritAt(Tu, p))
  {
  }

  lemma OrTable()
    ensures forall p: nat :: TritAt([True, Unknown, True], p) == Trits.Or(TritAt(Fut, p), TritAt(Tu, p))
  {
  }

  /** "FUTUTF" negated equals "TUFUFT". */
  method NotScenario() returns (equal: bool)
    ensures equal
  {
    var a := FromTrits(Fututf);
    var negated := a.Not();
    var expected := FromTrits(Tufuft);
    NotTable();
    equal := negated.Equals(expected);
  }

  /** "FUT" & "TFU" equals "FF". */
  method AndScenario() returns (equal: bool)
    ensures equal
  {
    var left := FromTrits(Fut);
    var right := FromTrits(Tfu);
    var both := left.And(right);
    var expected := FromTrits([False, False]);
    AndTable();
    equal := both.Equals(expected);
  }

  /** "TFU" & "TU" equals "TF": past the shorter operand, U & U is U. */
  method AndShorterScenario() returns (equal: bool)
    ensures equal
  {
    var left := FromTrits(Tfu);
    var right := FromTrits(Tu);
    var both := left.And(right);
    var expected := FromTrits([True, False]);
    AndShorterTable();
    equal := both.Equals(expected);
  }

  /** "FUT" | "TU" equals "TUT": past the shorter operand, T | U is T. */
  method OrScenario() returns (equal: bool)
    ensures equal
  {
    var left := FromTrits(Fut);
    var right := FromTrits(Tu);
    var either := left.Or(right);
    var expected := FromTrits([True, Unknown, True]);
    OrTable();
    equal := either.Equals(expected);
  }

  /** AND of two containers does not depend on the order of the operands. */
  method AndCommutes(a: TritSet, b: TritSet) returns (equal: bool)
    requires a.Valid() && b.Valid()
    ensures equal
  {
    var ab := a.And(b);
    var ba := b.And(a);
    equal := ab.Equals(ba);
  }

  /** OR of two containers does not depend on the order of the operands. */
  method OrCommutes(a: TritSet, b: TritSet) returns (equal: bool)
    requires a.Valid() && b.Valid()
    ensures equal
  {
    var ab := a.Or(b);
    var ba := b.Or(a);
    equal := ab.Equals(ba);
  }

  /** Negating a container twice gives a container equal to it. */
  method NotInvolutive(a: TritSet) returns (equal: bool)
    requires a.Valid()
    ensures equal
  {
    var n := a.Not();
    var nn := n.Not();
    forall p: nat ensures nn.ValueAt(p) == a.ValueAt(p) {
      DoubleNegation(a.ValueAt(p));
    }
    equal := nn.Equals(a);
  }

  /** AND with an all-Unknown container of the same length keeps every False
      trit and turns every other trit into Unknown. */
  method AndWithUnknown(a: TritSet) returns (r: TritSet)
    requires a.Valid()
    ensures r.Valid()
    ensures forall p: nat :: r.ValueAt(p) == if a.ValueAt(p) == False then False else Unknown
  {
    var unknowns := new TritSet(a.Size(), Unknown);
    r := a.And(unknowns);
    forall p: nat ensures r.ValueAt(p) == if a.ValueAt(p) == False then False else Unknown {
      CombineWithUnknown(a.ValueAt(p));
    }
  }

  /** OR with an all-Unknown container of the same length keeps every True
      trit and turns every other trit into Unknown. */
  method OrWithUnknown(a: TritSet) returns (r: TritSet)
    requires a.Valid()
    ensures r.Valid()
    ensures forall p: nat :: r.ValueAt(p) == if a.ValueAt(p) == True then True else Unknown
  {
    var unknowns := new TritSet(a.Size(), Unknown);
    r := a.Or(unknowns);
    forall p: nat ensures r.ValueAt(p) == if a.ValueAt(p) == True then True else Unknown {
      CombineWithUnknown(a.ValueAt(p));
    }
  }

  /** Every container equals itself. */
  method EqualsReflexive(a: TritSet) returns (equal: bool)
    requires a.Valid()
    ensures equal
  {
    equal := a.Equals(a);
  }

  /** Ten True, ten False and ten Unknown trits: each equals itself, and no
      two of them are equal. */
  method EqualsScenario() returns (same: bool, differ: bool)
    ensures same && differ
  {
    var t := new TritSet(10, True);
    var f := new TritSet(10, False);
    var u := new TritSet(10, Unknown);
    var tt := t.Equals(t);
    var ff := f.Equals(f);
    var uu := u.Equals(u);
    var tf := t.Equals(f);
    var tu := t.Equals(u);
    var fu := f.Equals(u);
    assert t.ValueAt(0) != f.ValueAt(0) && t.ValueAt(0) != u.ValueAt(0) && f.ValueAt(0) != u.ValueAt(0);
    same := tt && ff && uu;
    differ := !tf && !tu && !fu;
  }

  /** The text-built sets of the same test: "FUT" and "TF" each equal
      themselves, and "FUT" differs from "UTF". */
  method EqualsTextScenario() returns (same: bool, differ: bool)
    ensures same && differ
  {
    var left := FromTrits(Fut);
    var right := FromTrits([Unknown, True, False]);
    var small := FromTrits([True, False]);
    var ll := left.Equals(left);
    var ss := small.Equals(small);
    var lr := left.Equals(right);
    assert left.ValueAt(0) != right.ValueAt(0);
    same := ll && ss;
    differ := !lr;
  }

  /** A thousand True trits: size 1000, and every one of them reads True. */
  method DefaultValueScenario() returns (size: nat, allTrue: bool)
    ensures size == 1000 && allTrue
  {
    var container := new TritSet(1000, True);
    size := container.Size();
    allTrue := true;
    for i := 0 to 1000
      modifies {}
      invariant allTrue
    {
      var t := container.GetTrit(i);
      if t != True {
        allTrue := false;
      }
    }
  }

  /** A hundred True trits trimmed at 50: size 50, the first 50 still True,
      the others Unknown, and four words kept. */
  method TrimScenario() returns (size: nat, words: nat, kept: bool, cleared: bool)
    ensures size == 50 && words == 4 && kept && cleared
  {
    var container := new TritSet(100, True);
    container.Trim(50);
    container.SizeIs(50);
    size := container.Size();
    words := |container.storage|;
    kept, cleared := true, true;
    for i := 0 to 100
      modifies {}
      invariant kept && cleared
    {
      var t := container.GetTrit(i);
      if i < 50 && t != True {
        kept := false;
      }
      if i >= 50 && t != Unknown {
        cleared := false;
      }
    }
  }

  /** A thousand Unknown trits allocate words but have size 0; shrinking
      releases every word. Setting 100 and 50 gives size 101; setting 100
      back to Unknown gives size 51, and shrinking then keeps the four
      words of the first 51 trits. The sizes are those after each step; the
      capacities are those at the start, after the first shrink and at the
      end. */
  method ShrinkScenario() returns (sizes: seq<nat>, capacities: seq<nat>)
    ensures sizes == [0, 0, 101, 101, 51, 51]
    ensures capacities == [TritsPerWord * WordsFor(1000), 0, TritsPerWord * 4]
  {
    var container := new TritSet.WithCount(1000);
    var s0, c0 := container.Size(), container.Capacity();
    container.Shrink();
    var s1, c1 := container.Size(), container.Capacity();
    var laterSizes, laterCapacity := SetThenShrink(container);
    sizes, capacities := [s0, s1] + laterSizes, [c0, c1, laterCapacity];
  }

  /** The second half of the shrink scenario, on a container holding only
      Unknown: set 100 and 50, set 100 back to Unknown, shrink. Gives the
      size after each step and the capacity at the end. */
  method SetThenShrink(container: TritSet) returns (sizes: seq<nat>, capacity: nat)
    requires container.Valid() && forall p: nat :: container.ValueAt(p) == Unknown
    modifies container
    ensures sizes == [101, 101, 51, 51]
    ensures capacity == TritsPerWord * 4
  {
    container.SetTrit(100, True);
    container.SizeIs(101);
    var s2 := container.Size();
    container.SetTrit(50, False);
    container.SizeIs(101);
    var s3 := container.Size();
    container.SetTrit(100, Unknown);
    container.SizeIs(51);
    var s4 := container.Size();
    container.Shrink();
    sizes, capacity := [s2, s3, s4, container.Size()], container.Capacity();
  }

  /** Setting Unknown in an empty container allocates nothing, near or far;
      setting True at 0 and then at 10 gives sizes 1 and 11, and each
      position reads back True. */
  method SetUnknownScenario() returns (sizes: seq<nat>, capacities: seq<nat>, readBack: bool)
    ensures sizes == [0, 0, 1, 11] && |capacities| == 4 && capacities[..2] == [0, 0] && readBack
  {
    var container := new TritSet.Empty();
    container.SetTrit(0, Unknown);
    sizes, capacities := [container.Size()], [container.Capacity()];
    container.SetTrit(10, Unknown);
    sizes, capacities := sizes + [container.Size()], capacities + [container.Capacity()];
    container.SetTrit(0, True);
    var first := container.GetTrit(0);
    container.SizeIs(1);
    sizes, capacities := sizes + [container.Size()], capacities + [container.Capacity()];
    container.SetTrit(10, True);
    var second := container.GetTrit(10);
    container.SizeIs(11);
    sizes, capacities := sizes + [container.Size()], capacities + [container.Capacity()];
    readBack := first == True && second == True;
  }

  /** Setting a trit twice leaves the container as setting it once. */
  method SetTritIdempotent(container: TritSet, pos: nat, value: Trit) returns (same: bool)
    requires container.Valid()
    modifies container
    ensures same
  {
    container.SetTrit(pos, value);
    var words, last := container.storage, container.lastTritPos;
    container.SetTrit(pos, value);
    same := container.storage == words && container.lastTritPos == last;
  }
}
