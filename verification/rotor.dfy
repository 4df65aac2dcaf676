/** Rotors: a permutation plus a rotational setting. The source's
    `MovingRotor` is given; the base `Rotor`, `FixedRotor` and `Reflector`
    classes are not part of this model, so their behaviour is stated here as
    an assumption: they never rotate, have no notch, ignore `advance()`,
    start at setting 0, and convert with the same offset formula. */
module Rotors {
  import opened Errors
  import opened Text
  import opened Alphabets
  import P = Permutations

  /** The three rotor variants; only a moving rotor has notches. */
  datatype Kind = Reflector | Fixed | Moving(notches: set<Char16>)

  datatype Rotor = Rotor(name: Str, kind: Kind, perm: P.Permutation, setting: int)

  function Size(r: Rotor): nat {
    P.Size(r.perm)
  }

  function AlphabetOf(r: Rotor): Alphabet {
    r.perm.alphabet
  }

  /** The setting names a position of the rotor's alphabet. */
  predicate InRange(r: Rotor) {
    0 <= r.setting < Size(r)
  }

  /** The set of characters of a notch string. */
  function NotchSet(notches: Str): (ns: set<Char16>)
    ensures forall c :: c in ns <==> c in notches
  {
    set i | 0 <= i < |notches| :: notches[i]
  }

  /** `new MovingRotor(name, perm, notches)`: setting 0, the notch characters
      collected into a set. */
  function NewMoving(name: Str, perm: P.Permutation, notches: Str): (r: Rotor)
    ensures r.setting == 0 && r.perm == perm && r.name == name
    ensures r.kind.Moving? && forall c :: c in r.kind.notches <==> c in notches
  {
    Rotor(name, Moving(NotchSet(notches)), perm, 0)
  }

  /** `new FixedRotor(name, perm)` (assumed to start at setting 0). */
  function NewFixed(name: Str, perm: P.Permutation): Rotor {
    Rotor(name, Fixed, perm, 0)
  }

  /** `new Reflector(name, perm)` (assumed to start at setting 0). */
  function NewReflector(name: Str, perm: P.Permutation): Rotor {
    Rotor(name, Reflector, perm, 0)
  }

  /** `rotates()`: true for a moving rotor, false for the other kinds. */
  predicate Rotates(r: Rotor): (b: bool)
    ensures b <==> !r.kind.Reflector? && !r.kind.Fixed?
  {
    r.kind.Moving?
  }

  /** `reflecting()`: true only for a reflector. */
  predicate Reflecting(r: Rotor) {
    r.kind.Reflector?
  }

  /** `atNotch()`: a moving rotor is at a notch when the alphabet symbol at
      its setting is one of its notches; the other kinds never are. */
  predicate AtNotch(r: Rotor): (b: bool)
    requires InRange(r)
    ensures b ==> Rotates(r) && r.kind.notches != {}
  {
    r.kind.Moving? && AlphabetOf(r).chars[r.setting] in r.kind.notches
  }

  /** `advance()`: a moving rotor's setting goes to `wrap(setting + 1)`; the
      other kinds do not move. The setting stays in range, and after the last
      position comes position 0. */
  function Advance(r: Rotor): (r': Rotor)
    requires Size(r) > 0
    ensures r'.kind == r.kind && r'.perm == r.perm && r'.name == r.name
    ensures 0 <= r.setting ==> 0 <= r'.setting
    ensures InRange(r) ==> InRange(r')
    ensures Rotates(r) && InRange(r) ==>
      r'.setting == if r.setting == Size(r) - 1 then 0 else r.setting + 1
    ensures !Rotates(r) ==> r' == r
  {
    if r.kind.Moving? then
      var s := P.Wrap(Size(r), r.setting + 1);
      assert InRange(r) && r.setting == Size(r) - 1 ==> s == 0 by {
        if InRange(r) && r.setting == Size(r) - 1 {
          P.WrapIsModulo(Size(r), r.setting + 1);
        }
      }
      r.(setting := s)
    else r
  }

  /** `r'` is `r` at the first position of symbol `c` in its alphabet. */
  predicate SetsTo(r: Rotor, r': Rotor, c: Char16) {
    && r' == r.(setting := r'.setting)
    && InRange(r')
    && AlphabetOf(r).chars[r'.setting] == c
    && forall j :: 0 <= j < r'.setting ==> AlphabetOf(r).chars[j] != c
  }

  /** `set(char)`: the setting becomes the first index of the symbol in the
      rotor's alphabet. */
  function SetTo(r: Rotor, c: Char16): (r': Result<Rotor>)
    ensures r'.Success? <==> c in AlphabetOf(r).chars
    ensures r'.Success? ==> SetsTo(r, r'.value, c)
  {
    var k :- ToInt(AlphabetOf(r), c);
    Success(r.(setting := k))
  }

  /** Where index `p` meets the wiring: `wrap(p + setting)`. */
  function Entry(r: Rotor, p: int): int
    requires Size(r) > 0
  {
    P.Wrap(Size(r), p + r.setting)
  }

  /** Where wiring index `x` leaves the rotor: `wrap(x - setting)`. */
  function Exit(r: Rotor, x: int): int
    requires Size(r) > 0
  {
    P.Wrap(Size(r), x - r.setting)
  }

  /** `convertForward(p)`: enter at `p` shifted by the setting, go through the
      wiring, and shift back: `wrap(permute(wrap(p + setting)) - setting)`. */
  function ConvertForward(r: Rotor, p: int): (c: Result<int>)
    ensures c.Success? ==> 0 <= c.value < Size(r)
  {
    if Size(r) == 0 then Failure(DivisionByZero)
    else
      var x :- P.PermuteIndex(r.perm, Entry(r, p));
      Success(Exit(r, x))
  }

  /** `convertBackward(c)`: the same through the inverse wiring. */
  function ConvertBackward(r: Rotor, c: int): (p: Result<int>)
    ensures p.Success? ==> 0 <= p.value < Size(r)
  {
    if Size(r) == 0 then Failure(DivisionByZero)
    else
      var x :- P.InvertIndex(r.perm, Entry(r, c));
      Success(Exit(r, x))
  }

  /** The wiring is a bijection of an alphabet that repeats no symbol. */
  predicate WellWired(r: Rotor) {
    P.IsBijection(r.perm) && NoDuplicates(AlphabetOf(r).chars) && Size(r) > 0
  }

  // ---------------------------------------------------------------------------
  // Lemmas

  /** Leaving at a wiring index and entering again lands on that index. */
  lemma EntryOfExit(r: Rotor, x: int)
    requires Size(r) > 0 && 0 <= x < Size(r)
    ensures Entry(r, Exit(r, x)) == x
  {
    P.WrapAdd(Size(r), x - r.setting, r.setting);
    assert x - r.setting + r.setting == x;
  }

  /** Entering and leaving again is reduction modulo the size. */
  lemma ExitOfEntry(r: Rotor, p: int)
    requires Size(r) > 0
    ensures Exit(r, Entry(r, p)) == P.Wrap(Size(r), p)
  {
    P.WrapAdd(Size(r), p + r.setting, -r.setting);
    assert Entry(r, p) + -r.setting == Entry(r, p) - r.setting;
    assert p + r.setting + -r.setting == p;
  }

  /** `convertForward` once the wiring lookup is known to succeed. */
  lemma ForwardShape(r: Rotor, p: int)
    requires Size(r) > 0
    requires P.PermuteIndex(r.perm, Entry(r, p)).Success?
    ensures ConvertForward(r, p) == Success(Exit(r, P.PermuteIndex(r.perm, Entry(r, p)).value))
  {
  }

  /** `convertBackward` once the wiring lookup is known to succeed. */
  lemma BackwardShape(r: Rotor, c: int)
    requires Size(r) > 0
    requires P.InvertIndex(r.perm, Entry(r, c)).Success?
    ensures ConvertBackward(r, c) == Success(Exit(r, P.InvertIndex(r.perm, Entry(r, c)).value))
  {
  }

  /** The round trip through one rotor, given only that the backward lookup
      undoes the forward lookup at the entry index. */
  lemma ForwardThenBackward(r: Rotor, p: int)
    requires Size(r) > 0
    requires P.PermuteIndex(r.perm, Entry(r, p)).Success?
    requires P.InvertIndex(r.perm, P.PermuteIndex(r.perm, Entry(r, p)).value) == Success(Entry(r, p))
    ensures ConvertForward(r, p).Success?
    ensures ConvertBackward(r, ConvertForward(r, p).value) == Success(P.Wrap(Size(r), p))
  {
    ForwardShape(r, p);
    EntryOfExit(r, P.PermuteIndex(r.perm, Entry(r, p)).value);
    BackwardShape(r, ConvertForward(r, p).value);
    ExitOfEntry(r, p);
  }

  /** The round trip the other way, given only that the forward lookup
      undoes the backward lookup at the entry index. */
  lemma BackwardThenForward(r: Rotor, c: int)
    requires Size(r) > 0
    requires P.InvertIndex(r.perm, Entry(r, c)).Success?
    requires P.PermuteIndex(r.perm, P.InvertIndex(r.perm, Entry(r, c)).value) == Success(Entry(r, c))
    ensures ConvertBackward(r, c).Success?
    ensures ConvertForward(r, ConvertBackward(r, c).value) == Success(P.Wrap(Size(r), c))
  {
    BackwardShape(r, c);
    EntryOfExit(r, P.InvertIndex(r.perm, Entry(r, c)).value);
    ForwardShape(r, ConvertBackward(r, c).value);
    ExitOfEntry(r, c);
  }

  /** Two forward passes, given only that the forward lookup is its own
      inverse at the entry index. */
  lemma ForwardTwice(r: Rotor, p: int)
    requires Size(r) > 0
    requires P.PermuteIndex(r.perm, Entry(r, p)).Success?
    requires P.PermuteIndex(r.perm, P.PermuteIndex(r.perm, Entry(r, p)).value) == Success(Entry(r, p))
    ensures ConvertForward(r, p).Success?
    ensures ConvertForward(r, ConvertForward(r, p).value) == Success(P.Wrap(Size(r), p))
  {
    ForwardShape(r, p);
    EntryOfExit(r, P.PermuteIndex(r.perm, Entry(r, p)).value);
    ForwardShape(r, ConvertForward(r, p).value);
    ExitOfEntry(r, p);
  }

  /** At any setting, `convertBackward` undoes `convertForward` for every
      index, and `convertForward` undoes `convertBackward` (read modulo the
      size). */
  lemma ConvertRoundTrip(r: Rotor, p: int)
    requires WellWired(r)
    ensures ConvertForward(r, p).Success?
    ensures ConvertBackward(r, ConvertForward(r, p).value) == Success(P.Wrap(Size(r), p))
    ensures ConvertBackward(r, p).Success?
    ensures ConvertForward(r, ConvertBackward(r, p).value) == Success(P.Wrap(Size(r), p))
  {
    P.IndexRoundTrip(r.perm, Entry(r, p));
    ForwardThenBackward(r, p);
    BackwardThenForward(r, p);
  }

  /** A reflector wired as a self-inverse permutation converts as an
      involution at any setting. */
  lemma ForwardInvolution(r: Rotor, p: int)
    requires P.SelfInverse(r.perm) && NoDuplicates(AlphabetOf(r).chars) && Size(r) > 0
    ensures ConvertForward(r, p).Success?
    ensures ConvertForward(r, ConvertForward(r, p).value) == Success(P.Wrap(Size(r), p))
  {
    P.SelfInverseIndex(r.perm, Entry(r, p));
    ForwardTwice(r, p);
  }

  /** `advance()` applied `k` times. */
  function AdvanceTimes(r: Rotor, k: nat): (r': Rotor)
    requires Size(r) > 0
    ensures r'.kind == r.kind && r'.perm == r.perm && r'.name == r.name
    ensures InRange(r) ==> InRange(r')
  {
    if k == 0 then r else Advance(AdvanceTimes(r, k - 1))
  }

  /** A moving rotor advanced `k` times from setting `s` is at
      `wrap(s + k)`, that is `(s + k) mod size`. */
  lemma {:induction false} AdvanceTimesSetting(r: Rotor, k: nat)
    requires Rotates(r) && InRange(r)
    ensures AdvanceTimes(r, k).setting == P.Wrap(Size(r), r.setting + k)
  {
    if k > 0 {
      AdvanceTimesSetting(r, k - 1);
      var n := Size(r);
      var x := r.setting + (k - 1);
      var r1 := AdvanceTimes(r, k - 1);
      assert r1.setting == P.Wrap(n, x);
      assert AdvanceTimes(r, k).setting == P.Wrap(n, P.Wrap(n, x) + 1);
      P.WrapAdd(n, x, 1);
      assert x + 1 == r.setting + k;
    }
  }

  /** Advancing a moving rotor `size` times from any setting returns it to
      that setting. */
  lemma AdvanceFullTurn(r: Rotor)
    requires Rotates(r) && InRange(r)
    ensures AdvanceTimes(r, Size(r)) == r
  {
    AdvanceTimesSetting(r, Size(r));
    P.WrapOneTurn(Size(r), r.setting);
  }

  /** A moving rotor built with an empty notch string is never at a notch. */
  lemma NoNotchesNeverAtNotch(name: Str, perm: P.Permutation, setting: int)
    requires 0 <= setting < P.Size(perm)
    ensures !AtNotch(NewMoving(name, perm, []).(setting := setting))
  {
  }

  /** Reflectors and fixed rotors never rotate and are never at a notch. */
  lemma NonMovingInert(r: Rotor)
    requires !r.kind.Moving? && InRange(r)
    ensures !Rotates(r) && !AtNotch(r) && Advance(r) == r
  {
  }
}
