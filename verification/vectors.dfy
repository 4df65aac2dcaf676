/** Concrete cases from the source's unit tests, stated over the model: the
    stepping vectors of the machine test, the notch and advance vectors of
    the moving-rotor test, the conversion vectors of rotor I, and an input on
    which `derangement()` disagrees with its documentation. */
module Vectors {
  import opened Errors
  import opened Text
  import opened Alphabets
  import P = Permutations
  import R = Rotors
  import M = Machines
  import CycleNotation

  /** The alphabet `A-Z` of the tests. */
  function Upper(): Alphabet {
    FromRange('A' as int, 'Z' as int)
  }

  /** A letter's index in `A-Z`. */
  function Pos(c: char): int {
    c as int - 'A' as int
  }

  /** A test rotor over `A-Z`. The stepping rule never reads the wiring, so
      the identity stands in for the rotor wirings the tests take from a
      helper file that is not part of this model. */
  function TestRotor(name: string, kind: R.Kind, setting: int): R.Rotor
    requires forall i :: 0 <= i < |name| ==> name[i] as int < 0x1_0000
  {
    R.Rotor(FromLiteral(name), kind, P.Identity(Upper()), setting)
  }

  /** The machine test's slots B, Beta, III, IV, I (a reflector, then moving
      rotors with notches "", "V", "J" and "Q") set to the four letters. */
  function Slots(s: string): (rs: seq<R.Rotor>)
    requires |s| == 4 && forall i :: 0 <= i < 4 ==> 'A' <= s[i] <= 'Z'
    ensures |rs| == 5 && M.AllInRange(rs)
  {
    RangeAlphabet('A' as int, 'Z' as int);
    [ TestRotor("B", R.Reflector, 0),
      TestRotor("Beta", R.Moving(R.NotchSet([])), Pos(s[0])),
      TestRotor("III", R.Moving(R.NotchSet(FromLiteral("V"))), Pos(s[1])),
      TestRotor("IV", R.Moving(R.NotchSet(FromLiteral("J"))), Pos(s[2])),
      TestRotor("I", R.Moving(R.NotchSet(FromLiteral("Q"))), Pos(s[3])) ]
  }

  /** A test rotor with one notch letter is at a notch exactly at that
      letter's index. */
  lemma TestNotch(name: string, notch: char, k: int)
    requires forall i :: 0 <= i < |name| ==> name[i] as int < 0x1_0000
    requires 'A' <= notch <= 'Z' && 0 <= k < 26
    ensures R.AtNotch(TestRotor(name, R.Moving(R.NotchSet(FromLiteral([notch]))), k)) <==> k == Pos(notch)
  {
    var ns := FromLiteral([notch]);
    assert Upper().chars[k] == 'A' as int + k;
    assert 'A' as int + k in ns <==> k == Pos(notch) by {
      assert ns == [notch as int];
    }
  }

  /** A moving test rotor advances to the next letter, Z going to A. */
  lemma TestAdvance(name: string, kind: R.Kind, k: int)
    requires forall i :: 0 <= i < |name| ==> name[i] as int < 0x1_0000
    requires kind.Moving? && 0 <= k < 26
    ensures R.Advance(TestRotor(name, kind, k)) == TestRotor(name, kind, (k + 1) % 26)
  {
    RangeAlphabet('A' as int, 'Z' as int);
  }

  /** One step of the five slots, slot by slot: Beta moves only when III is
      at its notch, III when it or IV is at a notch, IV when it or I is, and
      I always. */
  lemma StepSlots(s: string, t: string)
    requires |s| == 4 && forall i :: 0 <= i < 4 ==> 'A' <= s[i] <= 'Z'
    requires |t| == 4 && forall i :: 0 <= i < 4 ==> 'A' <= t[i] <= 'Z'
    requires Pos(t[0]) == if s[1] == 'V' then (Pos(s[0]) + 1) % 26 else Pos(s[0])
    requires Pos(t[1]) == if s[1] == 'V' || s[2] == 'J' then (Pos(s[1]) + 1) % 26 else Pos(s[1])
    requires Pos(t[2]) == if s[2] == 'J' || s[3] == 'Q' then (Pos(s[2]) + 1) % 26 else Pos(s[2])
    requires Pos(t[3]) == (Pos(s[3]) + 1) % 26
    ensures M.StepAll(Slots(s)) == Slots(t)
  {
    var rs := Slots(s);
    var out := M.StepAll(rs);
    var want := Slots(t);
    assert R.NotchSet([]) == {};
    TestNotch("III", 'V', Pos(s[1]));
    TestNotch("IV", 'J', Pos(s[2]));
    TestNotch("I", 'Q', Pos(s[3]));
    TestAdvance("Beta", rs[1].kind, Pos(s[0]));
    TestAdvance("III", rs[2].kind, Pos(s[1]));
    TestAdvance("IV", rs[3].kind, Pos(s[2]));
    TestAdvance("I", rs[4].kind, Pos(s[3]));
    assert out[0] == want[0];
    assert out[1] == want[1];
    assert out[2] == want[2];
    assert out[3] == want[3];
    assert out[4] == want[4];
  }

  /** `checkAdvance`: AXLE steps to AXLF, AVJQ to BWKR (III at its notch
      carries Beta and moves itself), AVAQ to BWBR (the double step does not
      depend on IV's notch). */
  lemma StepVectors()
    ensures M.StepAll(Slots("AXLE")) == Slots("AXLF")
    ensures M.StepAll(Slots("AVJQ")) == Slots("BWKR")
    ensures M.StepAll(Slots("AVAQ")) == Slots("BWBR")
  {
    StepSlots("AXLE", "AXLF");
    StepSlots("AVJQ", "BWKR");
    StepSlots("AVAQ", "BWBR");
  }

  // ---------------------------------------------------------------------------
  // The moving-rotor test

  /** Rotor I's wiring in cycle form is (AELTPHQXRU) (BKNW) (CMOY) (DFG)
      (IV) (JZ) (S): the i-th letter of `ForwardLetters` is the image of the
      i-th letter of the alphabet, and `BackwardLetters` lists the preimages.
      The tests take the wiring from a helper file that is not part of this
      model: this is the historical wiring, and it reproduces all ten values
      the test states. */
  const ForwardLetters: string := "EKMFLGDQVZNTOWYHXUSPAIBRCJ"
  const BackwardLetters: string := "UWYGADFPVZBECKMTHXSLRINQOJ"

  /** The image of a letter under a 26-letter table (other symbols map to themselves). */
  function Lookup(table: string, c: Char16): Char16
    requires |table| == 26 && forall i :: 0 <= i < 26 ==> 'A' <= table[i] <= 'Z'
  {
    if 'A' as int <= c <= 'Z' as int then table[c - 'A' as int] as int else c
  }

  function RotorIWiring(): P.Permutation {
    P.Permutation(Upper(),
      map c | c in Upper().chars :: Lookup(ForwardLetters, c),
      map c | c in Upper().chars :: Lookup(BackwardLetters, c))
  }

  /** `setRotor("I", NAVALA, notches)` followed by `set(k)`, over wiring `w`.
      The lemmas below take `w` as a parameter equal to `RotorIWiring()`, so
      that the verifier reasons about the wiring's entries rather than
      evaluating the whole constant. */
  function RotorI(w: P.Permutation, notches: Str, k: int): R.Rotor {
    R.Rotor(FromLiteral("I"), R.Moving(R.NotchSet(notches)), w, k)
  }

  /** `toChar` and `toInt` of `A-Z` in closed form. */
  lemma UpperIndex(i: int)
    requires 0 <= i < 26
    ensures Size(Upper()) == 26
    ensures ToChar(Upper(), i) == Success('A' as int + i)
    ensures ToInt(Upper(), 'A' as int + i) == Success(i)
  {
    RangeAlphabet('A' as int, 'Z' as int);
  }

  /** The index forms of rotor I's wiring read the two tables: at index
      `i`, whose table entries are the letters with indices `f` and `b`. */
  lemma WiringIndex(w: P.Permutation, i: int, f: int, b: int)
    requires w == RotorIWiring()
    requires 0 <= i < 26 && 0 <= f < 26 && 0 <= b < 26
    requires ForwardLetters[i] as int == 'A' as int + f && BackwardLetters[i] as int == 'A' as int + b
    ensures P.PermuteIndex(w, i) == Success(f)
    ensures P.InvertIndex(w, i) == Success(b)
  {
    UpperIndex(i);
    assert Upper().chars[i] == 'A' as int + i;
    UpperIndex(f);
    UpperIndex(b);
  }

  /** `convertForward(p)` and `convertBackward(p)` of rotor I at setting `k`,
      for a 26-symbol wiring `w` whose lookups at `e = wrap(p + k)` give `f`
      and `b`: those lookups shifted back by `k`. */
  lemma RotorIConvert(w: P.Permutation, k: int, p: int, e: int, f: int, b: int)
    requires P.Size(w) == 26
    requires 0 <= k < 26 && 0 <= p < 26 && 0 <= e < 26 && (e == p + k || e + 26 == p + k)
    requires P.PermuteIndex(w, e) == Success(f) && P.InvertIndex(w, e) == Success(b)
    ensures R.ConvertForward(RotorI(w, [], k), p) == Success(P.Wrap(26, f - k))
    ensures R.ConvertBackward(RotorI(w, [], k), p) == Success(P.Wrap(26, b - k))
  {
    var r := RotorI(w, [], k);
    assert R.Size(r) == 26;
    P.WrapIsModulo(26, p + k);
    P.ModUnique(p + k, 26, if e == p + k then 0 else 1, e);
    assert R.Entry(r, p) == e;
    ShiftedLookup(r, p, e, f, b);
  }

  /** A 26-symbol rotor whose wiring sends its entry index `e` to `f` and back
      to `b` converts to `f` and `b` shifted back by its setting. */
  lemma ShiftedLookup(r: R.Rotor, p: int, e: int, f: int, b: int)
    requires R.Size(r) == 26 && R.Entry(r, p) == e
    requires P.PermuteIndex(r.perm, e) == Success(f) && P.InvertIndex(r.perm, e) == Success(b)
    ensures R.ConvertForward(r, p) == Success(P.Wrap(26, f - r.setting))
    ensures R.ConvertBackward(r, p) == Success(P.Wrap(26, b - r.setting))
  {
    R.ForwardShape(r, p);
    R.BackwardShape(r, p);
  }

  /** `convertFowardandBackwardTest`: the ten values the test states for
      rotor I at settings 15, 25 and 0. The setting and the index are
      parameters so that the verifier works from `RotorIConvert` instead of
      evaluating the whole conversion on constants. */
  lemma ConvertVectors(w: P.Permutation, k: int, p: int)
    requires w == RotorIWiring()
    ensures k == 15 && p == 0 ==>
              R.ConvertForward(RotorI(w, [], k), p) == Success(18) && R.ConvertBackward(RotorI(w, [], k), p) == Success(4)
    ensures k == 25 && p == 25 ==>
              R.ConvertForward(RotorI(w, [], k), p) == Success(3) && R.ConvertBackward(RotorI(w, [], k), p) == Success(15)
    ensures k == 25 && p == 0 ==>
              R.ConvertForward(RotorI(w, [], k), p) == Success(10) && R.ConvertBackward(RotorI(w, [], k), p) == Success(10)
    ensures k == 0 && p == 25 ==>
              R.ConvertForward(RotorI(w, [], k), p) == Success(9) && R.ConvertBackward(RotorI(w, [], k), p) == Success(9)
    ensures k == 0 && p == 0 ==>
              R.ConvertForward(RotorI(w, [], k), p) == Success(4) && R.ConvertBackward(RotorI(w, [], k), p) == Success(20)
  {
    UpperIndex(0);
    assert P.Size(w) == 26;
    if k == 15 && p == 0 {
      WiringIndex(w, 15, 7, 19);
      RotorIConvert(w, k, p, 15, 7, 19);
    } else if k == 25 && p == 25 {
      WiringIndex(w, 24, 2, 14);
      RotorIConvert(w, k, p, 24, 2, 14);
    } else if k == 25 && p == 0 {
      WiringIndex(w, 25, 9, 9);
      RotorIConvert(w, k, p, 25, 9, 9);
    } else if k == 0 && p == 25 {
      WiringIndex(w, 25, 9, 9);
      RotorIConvert(w, k, p, 25, 9, 9);
    } else if k == 0 && p == 0 {
      WiringIndex(w, 0, 4, 20);
      RotorIConvert(w, k, p, 0, 4, 20);
    }
  }

  /** `atNotchTest`: with notches "ABC", settings 0, 1 and 2 are at a notch
      and setting 3 is not. */
  lemma NotchVectors(w: P.Permutation)
    requires w == RotorIWiring()
    ensures R.AtNotch(RotorI(w, FromLiteral("ABC"), 0))
    ensures R.AtNotch(RotorI(w, FromLiteral("ABC"), 1))
    ensures R.AtNotch(RotorI(w, FromLiteral("ABC"), 2))
    ensures !R.AtNotch(RotorI(w, FromLiteral("ABC"), 3))
  {
    RangeAlphabet('A' as int, 'Z' as int);
    var ns := FromLiteral("ABC");
    assert ns == ['A' as int, 'B' as int, 'C' as int];
  }

  /** `advanceTest`: a new rotor is at 0; one advance gives 1, two more give
      3, and from 25 an advance gives 0. */
  lemma AdvanceVectors(w: P.Permutation)
    requires w == RotorIWiring()
    ensures R.NewMoving(FromLiteral("I"), w, []).setting == 0
    ensures R.Advance(RotorI(w, [], 0)).setting == 1
    ensures R.Advance(R.Advance(RotorI(w, [], 1))).setting == 3
    ensures R.Advance(RotorI(w, [], 25)).setting == 0
  {
    RangeAlphabet('A' as int, 'Z' as int);
  }

  // ---------------------------------------------------------------------------
  // The permutation test

  /** The three cycles of "(ABC) (DEF)(GHI)". */
  function ABCDEFGHI(): seq<Str> {
    [FromLiteral("ABC"), FromLiteral("DEF"), FromLiteral("GHI")]
  }

  /** The separators of "(ABC) (DEF)(GHI)": nothing, one space, nothing. */
  function GapsABC(): seq<Str> {
    [[], [Space], []]
  }

  lemma NotationABC()
    ensures CycleNotation.Notation(ABCDEFGHI(), GapsABC()) == FromLiteral("(ABC) (DEF)(GHI)")
  {
  }

  lemma CyclesABC()
    ensures CycleNotation.Cycles(CycleNotation.Notation(ABCDEFGHI(), GapsABC())) == ABCDEFGHI()
  {
    assert CycleNotation.Writable(ABCDEFGHI(), GapsABC());
    CycleNotation.CyclesOfNotation(ABCDEFGHI(), GapsABC());
  }

  /** "(ABC) (DEF)(GHI)" reads as the cycles ABC, DEF and GHI, whether or
      not a space separates two groups. */
  lemma CycleStringVector(s: Str)
    requires s == FromLiteral("(ABC) (DEF)(GHI)")
    ensures CycleNotation.Cycles(s) == ABCDEFGHI()
  {
    NotationABC();
    CyclesABC();
  }

  /** The cycles ABC, DEF and GHI are well formed over any alphabet holding A to J. */
  lemma ABCWellFormed(a: Alphabet)
    requires forall c :: 'A' as int <= c <= 'J' as int ==> c in a.chars
    ensures P.WellFormedCycles(ABCDEFGHI(), a)
  {
  }

  /** `permute` sends `x` to `y`, and `invert` sends `y` back to `x`. */
  predicate Sends(p: P.Permutation, x: Char16, y: Char16) {
    P.PermuteChar(p, x) == Success(y) && P.InvertChar(p, y) == Success(x)
  }

  /** The conversions of the third case, on the permutation the cycles
      ABC, DEF and GHI build over any alphabet holding A to J. */
  lemma PermutationOfABC(a: Alphabet)
    requires forall c :: 'A' as int <= c <= 'J' as int ==> c in a.chars
    ensures Sends(P.AddCycles(P.Identity(a), ABCDEFGHI()), 'A' as int, 'B' as int)
    ensures Sends(P.AddCycles(P.Identity(a), ABCDEFGHI()), 'B' as int, 'C' as int)
    ensures Sends(P.AddCycles(P.Identity(a), ABCDEFGHI()), 'C' as int, 'A' as int)
    ensures Sends(P.AddCycles(P.Identity(a), ABCDEFGHI()), 'D' as int, 'E' as int)
    ensures Sends(P.AddCycles(P.Identity(a), ABCDEFGHI()), 'E' as int, 'F' as int)
    ensures Sends(P.AddCycles(P.Identity(a), ABCDEFGHI()), 'F' as int, 'D' as int)
    ensures Sends(P.AddCycles(P.Identity(a), ABCDEFGHI()), 'G' as int, 'H' as int)
    ensures Sends(P.AddCycles(P.Identity(a), ABCDEFGHI()), 'H' as int, 'I' as int)
    ensures Sends(P.AddCycles(P.Identity(a), ABCDEFGHI()), 'I' as int, 'G' as int)
    ensures Sends(P.AddCycles(P.Identity(a), ABCDEFGHI()), 'J' as int, 'J' as int)
  {
    var cs := ABCDEFGHI();
    ABCWellFormed(a);
    P.CycleSymbolAt(cs, a, 0, 0);
    P.CycleSymbolAt(cs, a, 0, 1);
    P.CycleSymbolAt(cs, a, 0, 2);
    P.CycleSymbolAt(cs, a, 1, 0);
    P.CycleSymbolAt(cs, a, 1, 1);
    P.CycleSymbolAt(cs, a, 1, 2);
    P.CycleSymbolAt(cs, a, 2, 0);
    P.CycleSymbolAt(cs, a, 2, 1);
    P.CycleSymbolAt(cs, a, 2, 2);
    assert !P.InSomeCycle(cs, 'J' as int);
    P.FreeSymbolAt(cs, a, 'J' as int);
  }

  /** `checkMiscellenousTransforms`, third case: over `A-J` (or any
      alphabet holding those letters), the cycles (ABC) (DEF)(GHI) send
      ABCDEFGHIJ to BCAEFDHIGJ, and `invert` sends each image back. */
  lemma PermutationVector(s: Str, a: Alphabet)
    requires s == FromLiteral("(ABC) (DEF)(GHI)")
    requires forall c :: 'A' as int <= c <= 'J' as int ==> c in a.chars
    ensures Sends(P.FromCycles(s, a), 'A' as int, 'B' as int)
    ensures Sends(P.FromCycles(s, a), 'B' as int, 'C' as int)
    ensures Sends(P.FromCycles(s, a), 'C' as int, 'A' as int)
    ensures Sends(P.FromCycles(s, a), 'D' as int, 'E' as int)
    ensures Sends(P.FromCycles(s, a), 'E' as int, 'F' as int)
    ensures Sends(P.FromCycles(s, a), 'F' as int, 'D' as int)
    ensures Sends(P.FromCycles(s, a), 'G' as int, 'H' as int)
    ensures Sends(P.FromCycles(s, a), 'H' as int, 'I' as int)
    ensures Sends(P.FromCycles(s, a), 'I' as int, 'G' as int)
    ensures Sends(P.FromCycles(s, a), 'J' as int, 'J' as int)
  {
    CycleStringVector(s);
    PermutationOfABC(a);
  }

  /** The alphabet of the test, `new CharacterRange('A', 'J')`, holds A to J. */
  lemma RangeAToJ(a: Alphabet)
    requires a == FromRange('A' as int, 'J' as int)
    ensures forall c :: 'A' as int <= c <= 'J' as int ==> c in a.chars
  {
    RangeAlphabet('A' as int, 'J' as int);
    forall c | 'A' as int <= c <= 'J' as int ensures c in a.chars {
      assert ToChar(a, c - 'A' as int) == Success(c);
    }
  }
}
