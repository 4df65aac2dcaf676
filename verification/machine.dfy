/** The machine (the source's `Machine`): an alphabet, the rotors available,
    the rotors placed in the slots (slot 0 holds the reflector), and a
    plugboard. Operations that would throw return a `Failure`; the Java
    object mutates in place, the model returns the next state. */
module Machines {
  import opened Errors
  import opened Text
  import opened Alphabets
  import P = Permutations
  import R = Rotors
  import CycleNotation

  datatype Machine = Machine(
    alphabet: Alphabet,
    numRotors: int,
    pawls: int,
    allRotors: seq<R.Rotor>,
    rotors: seq<R.Rotor>,
    plugboard: P.Permutation)

  // ---------------------------------------------------------------------------
  // Construction

  /** `new Permutation("", alpha)` fixes every symbol of `alpha`. */
  lemma EmptyPlugboardIsIdentity(a: Alphabet)
    ensures P.FromCycles([], a).alphabet == a
    ensures forall c :: c in a.chars ==>
              P.PermuteChar(P.FromCycles([], a), c) == Success(c) &&
              P.InvertChar(P.FromCycles([], a), c) == Success(c)
  {
    CycleNotation.OnlySeparators([]);
    assert P.WellFormedCycles(CycleNotation.Cycles([]), a);
    P.FromCyclesFollowsCycles([], a);
  }

  /** `new Machine(alpha, numRotors, pawls, allRotors)`: no rotor in the
      slots yet and a plugboard that fixes every symbol. */
  function NewMachine(alpha: Alphabet, numRotors: int, pawls: int, allRotors: seq<R.Rotor>): (m: Machine)
    ensures m.alphabet == alpha && m.numRotors == numRotors && m.pawls == pawls
    ensures m.allRotors == allRotors && m.rotors == []
    ensures m.plugboard.alphabet == alpha
    ensures forall c :: c in alpha.chars ==>
              P.PermuteChar(m.plugboard, c) == Success(c) && P.InvertChar(m.plugboard, c) == Success(c)
  {
    EmptyPlugboardIsIdentity(alpha);
    Machine(alpha, numRotors, pawls, allRotors, [], P.FromCycles([], alpha))
  }

  // ---------------------------------------------------------------------------
  // insertRotors

  /** The name test of `insertRotors`: equal after upper-casing both sides. */
  predicate NameMatches(r: R.Rotor, name: Str) {
    UpperCase(r.name) == UpperCase(name)
  }

  /** The first available rotor whose name matches, or -1. */
  function FindRotor(all: seq<R.Rotor>, name: Str): (k: int)
    ensures -1 <= k < |all|
    ensures k == -1 <==> forall j :: 0 <= j < |all| ==> !NameMatches(all[j], name)
    ensures k >= 0 ==> NameMatches(all[k], name) && forall j :: 0 <= j < k ==> !NameMatches(all[j], name)
  {
    if |all| == 0 then -1
    else if NameMatches(all[0], name) then 0
    else
      var k := FindRotor(all[1..], name);
      if k == -1 then -1 else k + 1
  }

  /** Slot `i` accepts rotor `r`: a reflector in slot 0 and nowhere else. */
  predicate PlacementOk(r: R.Rotor, i: int) {
    !((i == 0 && !R.Reflecting(r)) || (i != 0 && R.Reflecting(r)))
  }

  /** The name for slot `i` resolves and its rotor may sit in slot `i`. */
  predicate SlotOk(all: seq<R.Rotor>, names: seq<Str>, i: int)
    requires 0 <= i < |names|
  {
    FindRotor(all, names[i]) != -1 && PlacementOk(all[FindRotor(all, names[i])], i)
  }

  /** Every slot is `SlotOk`. */
  predicate AllSlotsOk(all: seq<R.Rotor>, names: seq<Str>) {
    forall i {:trigger names[i]} {:trigger SlotOk(all, names, i)} :: 0 <= i < |names| ==> SlotOk(all, names, i)
  }

  /** The exception a slot that is not `SlotOk` raises. */
  function SlotError(all: seq<R.Rotor>, names: seq<Str>, i: int): Error
    requires 0 <= i < |names|
  {
    if FindRotor(all, names[i]) == -1 then BadRotorName else ReflectorMisplaced
  }

  /** The first slot at or after `i` that is not `SlotOk`, or `|names|`. */
  function FirstBadSlot(all: seq<R.Rotor>, names: seq<Str>, i: nat): (j: nat)
    requires i <= |names|
    ensures i <= j <= |names|
    ensures forall l {:trigger names[l]} {:trigger SlotOk(all, names, l)} :: i <= l < j ==> SlotOk(all, names, l)
    ensures j < |names| ==> !SlotOk(all, names, j)
    decreases |names| - i
  {
    if i == |names| then i
    else if !SlotOk(all, names, i) then i
    else FirstBadSlot(all, names, i + 1)
  }

  /** The rotors the names designate, one per slot (a reference definition). */
  function Chosen(all: seq<R.Rotor>, names: seq<Str>): (rs: seq<R.Rotor>)
    requires AllSlotsOk(all, names)
    ensures |rs| == |names|
  {
    seq(|names|, i requires 0 <= i < |names| => all[FindRotor(all, names[i])])
  }

  /** The number of rotating rotors in `rs` (`counter`). */
  function MovingCount(rs: seq<R.Rotor>): nat {
    if |rs| == 0 then 0 else (if R.Rotates(rs[0]) then 1 else 0) + MovingCount(rs[1..])
  }

  /** The loop of `insertRotors` from slot `i` on: the rotors picked, or the
      exception of the first slot that fails. */
  function SelectFrom(all: seq<R.Rotor>, names: seq<Str>, i: nat): (r: Result<seq<R.Rotor>>)
    requires i <= |names|
    ensures r.Success? <==> FirstBadSlot(all, names, i) == |names|
    ensures r.Failure? ==> r.error == SlotError(all, names, FirstBadSlot(all, names, i))
    ensures r.Success? ==> |r.value| == |names| - i
    ensures r.Success? ==> forall j :: i <= j < |names| ==>
              SlotOk(all, names, j) && r.value[j - i] == all[FindRotor(all, names[j])]
    decreases |names| - i
  {
    if i == |names| then Success([])
    else
      var k := FindRotor(all, names[i]);
      if k == -1 then Failure(BadRotorName)
      else if (i == 0 && !R.Reflecting(all[k])) || (i != 0 && R.Reflecting(all[k])) then
        assert !SlotOk(all, names, i);
        Failure(ReflectorMisplaced)
      else
        assert SlotOk(all, names, i);
        var rest :- SelectFrom(all, names, i + 1);
        SelectCons(all, names, i, rest);
        Success([all[k]] + rest)
  }

  /** The rotors picked from slot `i` on are slot `i`'s rotor followed by
      those picked from slot `i + 1` on. */
  lemma SelectCons(all: seq<R.Rotor>, names: seq<Str>, i: nat, rest: seq<R.Rotor>)
    requires i < |names| && SlotOk(all, names, i) && |rest| == |names| - i - 1
    requires forall j :: i + 1 <= j < |names| ==>
               SlotOk(all, names, j) && rest[j - i - 1] == all[FindRotor(all, names[j])]
    ensures forall j :: i <= j < |names| ==>
              SlotOk(all, names, j) && ([all[FindRotor(all, names[i])]] + rest)[j - i] == all[FindRotor(all, names[j])]
  {
    var out := [all[FindRotor(all, names[i])]] + rest;
    forall j | i <= j < |names|
      ensures SlotOk(all, names, j) && out[j - i] == all[FindRotor(all, names[j])]
    {
      if j > i {
        assert out[j - i] == rest[j - i - 1];
      }
    }
  }

  /** `insertRotors(names)`: the slots get the named rotors, or the exception
      of the first failing slot, or `WrongMovingCount` when the number of
      rotating rotors differs from the pawl count. */
  function InsertRotors(m: Machine, names: seq<Str>): (r: Result<Machine>)
    ensures FirstBadSlot(m.allRotors, names, 0) < |names| ==>
              r == Failure(SlotError(m.allRotors, names, FirstBadSlot(m.allRotors, names, 0)))
    ensures FirstBadSlot(m.allRotors, names, 0) == |names| ==>
              (r.Success? <==> MovingCount(Chosen(m.allRotors, names)) == m.pawls) &&
              (r.Failure? ==> r.error == WrongMovingCount)
    ensures r.Success? ==>
              AllSlotsOk(m.allRotors, names) && r.value == m.(rotors := Chosen(m.allRotors, names))
    ensures r.Success? && |names| > 0 ==>
              R.Reflecting(r.value.rotors[0]) &&
              forall i :: 1 <= i < |names| ==> !R.Reflecting(r.value.rotors[i])
  {
    var rs :- SelectFrom(m.allRotors, names, 0);
    assert FirstBadSlot(m.allRotors, names, 0) == |names|;
    assert rs == Chosen(m.allRotors, names);
    if MovingCount(rs) != m.pawls then Failure(WrongMovingCount)
    else Success(m.(rotors := rs))
  }

  // ---------------------------------------------------------------------------
  // setRotors and setPlugboard

  /** The loop of `setRotors` from position `i` on: symbol `s[k - 1]` sets
      slot `k`, after being checked against the machine's alphabet. */
  function SetSlots(rs: seq<R.Rotor>, alpha: Alphabet, s: Str, i: nat): (r: Result<seq<R.Rotor>>)
    requires |s| == |rs| - 1 && i <= |s|
    ensures r.Success? <==> forall j :: i <= j < |s| ==> s[j] in alpha.chars && s[j] in R.AlphabetOf(rs[j + 1]).chars
    ensures r.Failure? && (forall k :: i < k < |rs| ==> R.AlphabetOf(rs[k]) == alpha) ==>
              r.error == SettingNotInAlphabet
    ensures r.Success? ==> |r.value| == |rs| && forall k :: 0 <= k <= i ==> r.value[k] == rs[k]
    ensures r.Success? ==> forall k :: i < k < |rs| ==> R.SetsTo(rs[k], r.value[k], s[k - 1])
    decreases |s| - i
  {
    if i == |s| then Success(rs)
    else if !Contains(alpha, s[i]) then Failure(SettingNotInAlphabet)
    else
      var r' :- R.SetTo(rs[i + 1], s[i]);
      SetSlots(rs[i + 1 := r'], alpha, s, i + 1)
  }

  /** `setRotors(s)`: `s` must have one symbol per slot after the reflector,
      each in the alphabet; slot `k` then takes the setting of `s[k - 1]` and
      slot 0 keeps its own. */
  function SetRotors(m: Machine, s: Str): (r: Result<Machine>)
    ensures |s| != |m.rotors| - 1 ==> r == Failure(BadSettingsLength)
    ensures r.Success? <==>
              |s| == |m.rotors| - 1 &&
              forall j :: 0 <= j < |s| ==> s[j] in m.alphabet.chars && s[j] in R.AlphabetOf(m.rotors[j + 1]).chars
    ensures r.Failure? && |s| == |m.rotors| - 1 && (forall k :: 0 < k < |m.rotors| ==> R.AlphabetOf(m.rotors[k]) == m.alphabet) ==>
              r.error == SettingNotInAlphabet
    ensures r.Success? ==> r.value == m.(rotors := r.value.rotors)
    ensures r.Success? ==> |r.value.rotors| == |m.rotors| && r.value.rotors[0] == m.rotors[0]
    ensures r.Success? ==> forall k :: 0 < k < |m.rotors| ==> R.SetsTo(m.rotors[k], r.value.rotors[k], s[k - 1])
  {
    if |s| != |m.rotors| - 1 then Failure(BadSettingsLength)
    else
      var rs :- SetSlots(m.rotors, m.alphabet, s, 0);
      Success(m.(rotors := rs))
  }

  /** `setPlugboard(pb)`. */
  function SetPlugboard(m: Machine, pb: P.Permutation): (r: Machine)
    ensures r.plugboard == pb
    ensures r.alphabet == m.alphabet && r.numRotors == m.numRotors && r.pawls == m.pawls
    ensures r.allRotors == m.allRotors && r.rotors == m.rotors
    ensures Valid(m) && pb.alphabet == m.alphabet ==> Valid(r)
  {
    m.(plugboard := pb)
  }

  // ---------------------------------------------------------------------------
  // Well-formed states

  /** A rotor over the machine's alphabet whose setting is a position of it. */
  predicate ValidRotor(alpha: Alphabet, r: R.Rotor) {
    R.AlphabetOf(r) == alpha && R.InRange(r)
  }

  /** Every rotor, available or in a slot, and the plugboard use the machine's
      alphabet, and every setting is in range. This is what the source's
      callers arrange: all permutations are built over the one alphabet read
      from the configuration, and settings only ever come from `set` and
      `advance`. */
  predicate Valid(m: Machine) {
    && (forall i :: 0 <= i < |m.allRotors| ==> ValidRotor(m.alphabet, m.allRotors[i]))
    && (forall i :: 0 <= i < |m.rotors| ==> ValidRotor(m.alphabet, m.rotors[i]))
    && m.plugboard.alphabet == m.alphabet
  }

  /** A fresh machine is valid when its rotors are built over its alphabet at
      setting 0 and the alphabet is not empty. */
  lemma NewMachineValid(alpha: Alphabet, numRotors: int, pawls: int, allRotors: seq<R.Rotor>)
    requires forall i :: 0 <= i < |allRotors| ==> ValidRotor(alpha, allRotors[i])
    ensures Valid(NewMachine(alpha, numRotors, pawls, allRotors))
  {
  }

  /** `insertRotors`, `setRotors` and `setPlugboard` (with a plugboard over
      the machine's alphabet) keep a machine valid. */
  lemma ConfigurationKeepsValid(m: Machine, names: seq<Str>, s: Str, pb: P.Permutation)
    requires Valid(m)
    ensures InsertRotors(m, names).Success? ==> Valid(InsertRotors(m, names).value)
    ensures SetRotors(m, s).Success? ==> Valid(SetRotors(m, s).value)
    ensures pb.alphabet == m.alphabet ==> Valid(SetPlugboard(m, pb))
  {
    if InsertRotors(m, names).Success? {
      var rs := InsertRotors(m, names).value.rotors;
      forall i | 0 <= i < |rs| ensures ValidRotor(m.alphabet, rs[i]) {
        assert rs[i] == m.allRotors[FindRotor(m.allRotors, names[i])];
      }
    }
  }

  // ---------------------------------------------------------------------------
  // Stepping (the private `advance()`)

  /** Every setting is a position of its rotor's alphabet. */
  predicate AllInRange(rs: seq<R.Rotor>) {
    forall i :: 0 <= i < |rs| ==> R.InRange(rs[i])
  }

  /** Whether slot `i` advances, judged on the state before the step: the
      rightmost slot always; slot 0 otherwise never; any other slot when it
      is at a notch with a rotating left neighbour, or when it rotates and its
      right neighbour is at a notch. */
  predicate ShouldAdvance(rs: seq<R.Rotor>, i: int)
    requires AllInRange(rs) && 0 <= i < |rs|
  {
    if i == |rs| - 1 then true
    else if i != 0 then
      (R.AtNotch(rs[i]) && R.Rotates(rs[i - 1])) || (R.AtNotch(rs[i + 1]) && R.Rotates(rs[i]))
    else false
  }

  /** One step with every decision taken on the state before the step (the
      reference for the loop in `Step`). */
  function StepAll(rs: seq<R.Rotor>): (out: seq<R.Rotor>)
    requires AllInRange(rs)
    ensures |out| == |rs| && AllInRange(out)
    ensures forall i :: 0 <= i < |rs| ==> out[i].kind == rs[i].kind && out[i].perm == rs[i].perm && out[i].name == rs[i].name
  {
    seq(|rs|, i requires 0 <= i < |rs| => if ShouldAdvance(rs, i) then R.Advance(rs[i]) else rs[i])
  }

  /** The loop of `advance()` as written: slots are visited left to right
      and each is advanced in place, so slot `i` sees slot `i - 1` already
      stepped. It computes the same as `StepAll`: slot `i` reads its own and
      its right neighbour's notch, neither stepped yet, and its left
      neighbour only through `rotates()`, which stepping does not change. */
  method Step(rs: seq<R.Rotor>) returns (out: seq<R.Rotor>)
    requires AllInRange(rs)
    ensures out == StepAll(rs)
  {
    out := rs;
    var i := 0;
    while i < |out|
      invariant 0 <= i <= |rs| && |out| == |rs|
      invariant forall j :: 0 <= j < i ==> out[j] == StepAll(rs)[j]
      invariant forall j :: i <= j < |rs| ==> out[j] == rs[j]
    {
      var r := out[i];
      if i == |out| - 1 {
        out := out[i := R.Advance(r)];
      } else if i != 0 {
        var rp := out[i - 1];
        var rn := out[i + 1];
        if (R.AtNotch(r) && R.Rotates(rp)) || (R.AtNotch(rn) && R.Rotates(r)) {
          out := out[i := R.Advance(r)];
        }
      }
      i := i + 1;
    }
  }

  /** With two or more slots, each step advances the rightmost slot exactly
      once and never moves the reflector slot. */
  lemma StepEnds(rs: seq<R.Rotor>)
    requires AllInRange(rs) && |rs| >= 2
    ensures StepAll(rs)[|rs| - 1] == R.Advance(rs[|rs| - 1])
    ensures StepAll(rs)[0] == rs[0]
  {
  }

  /** The double step: a rotor at its notch whose left neighbour rotates
      carries that neighbour and moves itself as well, unless the neighbour
      is the reflector slot. */
  lemma DoubleStep(rs: seq<R.Rotor>, i: int)
    requires AllInRange(rs) && 2 <= i < |rs|
    requires R.AtNotch(rs[i]) && R.Rotates(rs[i - 1])
    ensures StepAll(rs)[i] == R.Advance(rs[i])
    ensures StepAll(rs)[i - 1] == R.Advance(rs[i - 1])
  {
  }

  /** With no rotor at a notch, a step moves the rightmost slot and nothing
      else, like an odometer's last digit. */
  lemma NoNotchOnlyRightmost(rs: seq<R.Rotor>)
    requires AllInRange(rs) && |rs| >= 1
    requires forall i :: 0 <= i < |rs| ==> !R.AtNotch(rs[i])
    ensures StepAll(rs) == rs[|rs| - 1 := R.Advance(rs[|rs| - 1])]
  {
  }

  /** A rotor that does not rotate never changes in a step. */
  lemma StepLeavesFixedRotors(rs: seq<R.Rotor>, i: int)
    requires AllInRange(rs) && 0 <= i < |rs| && !R.Rotates(rs[i])
    ensures StepAll(rs)[i] == rs[i]
  {
  }

  // ---------------------------------------------------------------------------
  // The signal path (`convert(int)`)

  /** The first loop of `convert(int)`, restricted to slots `k - 1` down to
      `lo`: `convertForward` through each, right to left. */
  function ForwardPass(rs: seq<R.Rotor>, k: int, lo: int, c: int): (r: Result<int>)
    requires 0 <= lo && k <= |rs|
    ensures k <= lo ==> r == Success(c)
    ensures lo < k && r.Success? ==> 0 <= r.value < R.Size(rs[lo])
    decreases k
  {
    if k <= lo then Success(c)
    else
      var x :- R.ConvertForward(rs[k - 1], c);
      ForwardPass(rs, k - 1, lo, x)
  }

  /** The second loop of `convert(int)` up to slot `k - 1`:
      `convertBackward` through slots 1, 2, ..., `k - 1`, left to right. */
  function BackwardPass(rs: seq<R.Rotor>, k: int, c: int): (r: Result<int>)
    requires k <= |rs|
    ensures k <= 1 ==> r == Success(c)
    ensures k > 1 && r.Success? ==> 0 <= r.value < R.Size(rs[k - 1])
    decreases k
  {
    if k <= 1 then Success(c)
    else
      var x :- BackwardPass(rs, k - 1, c);
      R.ConvertBackward(rs[k - 1], x)
  }

  /** The path of one index after the step: plugboard, every slot right to
      left (the reflector last), the slots after the reflector left to
      right, plugboard again. */
  function Path(rs: seq<R.Rotor>, pb: P.Permutation, c: int): (r: Result<int>)
    ensures r.Success? ==> 0 <= r.value < P.Size(pb)
    ensures P.Size(pb) == 0 ==> r == Failure(DivisionByZero)
  {
    var a :- P.PermuteIndex(pb, c);
    var b :- ForwardPass(rs, |rs|, 0, a);
    var d :- BackwardPass(rs, |rs|, b);
    P.PermuteIndex(pb, d)
  }

  /** `convert(int)`: step the rotors, then send the index along the path.
      The new state is returned with the output index. */
  function ConvertIndex(m: Machine, c: int): (r: Result<(Machine, int)>)
    requires Valid(m)
    ensures r.Success? ==> r.value.0 == m.(rotors := StepAll(m.rotors)) && Valid(r.value.0)
    ensures r.Success? ==> 0 <= r.value.1 < Size(m.alphabet)
  {
    var rs := StepAll(m.rotors);
    var out :- Path(rs, m.plugboard, c);
    Success((m.(rotors := rs), out))
  }

  /** The rotors after the reflector are bijections over alphabet `a`. */
  predicate StackWired(rs: seq<R.Rotor>, a: Alphabet) {
    forall i :: 1 <= i < |rs| ==> R.AlphabetOf(rs[i]) == a && P.IsBijection(rs[i].perm)
  }

  /** Going right to left through slots `k - 1` .. 1 and back left to right
      returns every index. */
  lemma {:induction false} ForwardThenBackwardStack(rs: seq<R.Rotor>, a: Alphabet, k: int, c: int)
    requires NoDuplicates(a.chars) && Size(a) > 0 && StackWired(rs, a)
    requires 1 <= k <= |rs| && 0 <= c < Size(a)
    ensures ForwardPass(rs, k, 1, c).Success? && 0 <= ForwardPass(rs, k, 1, c).value < Size(a)
    ensures BackwardPass(rs, k, ForwardPass(rs, k, 1, c).value) == Success(c)
    decreases k
  {
    if k > 1 {
      var r := rs[k - 1];
      R.ConvertRoundTrip(r, c);
      var x := R.ConvertForward(r, c).value;
      assert ForwardPass(rs, k, 1, c) == ForwardPass(rs, k - 1, 1, x);
      ForwardThenBackwardStack(rs, a, k - 1, x);
      var y := ForwardPass(rs, k - 1, 1, x).value;
      assert BackwardPass(rs, k - 1, y) == Success(x);
      assert R.ConvertBackward(r, x) == Success(c);
    }
  }

  /** Going left to right through slots 1 .. `k - 1` and back right to left
      returns every index. */
  lemma {:induction false} BackwardThenForwardStack(rs: seq<R.Rotor>, a: Alphabet, k: int, c: int)
    requires NoDuplicates(a.chars) && Size(a) > 0 && StackWired(rs, a)
    requires 1 <= k <= |rs| && 0 <= c < Size(a)
    ensures BackwardPass(rs, k, c).Success? && 0 <= BackwardPass(rs, k, c).value < Size(a)
    ensures ForwardPass(rs, k, 1, BackwardPass(rs, k, c).value) == Success(c)
    decreases k
  {
    if k > 1 {
      var r := rs[k - 1];
      BackwardThenForwardStack(rs, a, k - 1, c);
      var z := BackwardPass(rs, k - 1, c).value;
      R.ConvertRoundTrip(r, z);
      var y := R.ConvertBackward(r, z).value;
      assert BackwardPass(rs, k, c) == Success(y);
      assert R.ConvertForward(r, y) == Success(z);
      assert ForwardPass(rs, k, 1, y) == ForwardPass(rs, k - 1, 1, z);
    }
  }

  /** The first loop of `convert(int)` ends with the reflector: all slots is
      slots `k - 1` .. 1 followed by slot 0. */
  lemma {:induction false} ForwardSplit(rs: seq<R.Rotor>, k: int, c: int)
    requires 1 <= k <= |rs|
    ensures ForwardPass(rs, k, 1, c).Failure? ==> ForwardPass(rs, k, 0, c) == ForwardPass(rs, k, 1, c)
    ensures ForwardPass(rs, k, 1, c).Success? ==>
              ForwardPass(rs, k, 0, c) == R.ConvertForward(rs[0], ForwardPass(rs, k, 1, c).value)
    decreases k
  {
    if k > 1 {
      var x := R.ConvertForward(rs[k - 1], c);
      if x.Success? {
        ForwardSplit(rs, k - 1, x.value);
      }
    }
  }

  /** `Path` once each of its stages is known. */
  lemma PathShape(rs: seq<R.Rotor>, pb: P.Permutation, c: int, a1: int, b: int, d: int)
    requires P.PermuteIndex(pb, c) == Success(a1)
    requires ForwardPass(rs, |rs|, 0, a1) == Success(b)
    requires BackwardPass(rs, |rs|, b) == Success(d)
    ensures Path(rs, pb, c) == P.PermuteIndex(pb, d)
  {
  }

  /** The two passes along the path, once every stage of both is known. */
  lemma PathTwice(rs: seq<R.Rotor>, pb: P.Permutation, c: int, a1: int, u: int, v: int, w: int, o: int)
    requires |rs| >= 1
    requires P.PermuteIndex(pb, c) == Success(a1) && P.PermuteIndex(pb, a1) == Success(c)
    requires ForwardPass(rs, |rs|, 1, a1) == Success(u) && BackwardPass(rs, |rs|, u) == Success(a1)
    requires R.ConvertForward(rs[0], u) == Success(v) && R.ConvertForward(rs[0], v) == Success(u)
    requires BackwardPass(rs, |rs|, v) == Success(w) && ForwardPass(rs, |rs|, 1, w) == Success(v)
    requires P.PermuteIndex(pb, w) == Success(o) && P.PermuteIndex(pb, o) == Success(w)
    ensures Path(rs, pb, c) == Success(o)
    ensures Path(rs, pb, o) == Success(c)
  {
    ForwardSplit(rs, |rs|, a1);
    PathShape(rs, pb, c, a1, v, w);
    ForwardSplit(rs, |rs|, w);
    PathShape(rs, pb, o, w, u, a1);
  }

  /** With a self-inverse plugboard and reflector wiring and bijective rotors,
      all over one alphabet without repeats, the path at fixed settings is an
      involution: sending the output back in gives the input. */
  lemma PathInvolution(rs: seq<R.Rotor>, pb: P.Permutation, a: Alphabet, c: int)
    requires NoDuplicates(a.chars) && Size(a) > 0
    requires pb.alphabet == a && P.SelfInverse(pb)
    requires |rs| >= 1 && R.AlphabetOf(rs[0]) == a && P.SelfInverse(rs[0].perm)
    requires StackWired(rs, a)
    requires 0 <= c < Size(a)
    ensures Path(rs, pb, c).Success?
    ensures Path(rs, pb, Path(rs, pb, c).value) == Success(c)
  {
    P.SelfInverseIndex(pb, c);
    var a1 := P.PermuteIndex(pb, c).value;
    var u, v, w := RotorsThereAndBack(rs, a, a1);
    P.SelfInverseIndex(pb, w);
    var o := P.PermuteIndex(pb, w).value;
    PathTwice(rs, pb, c, a1, u, v, w, o);
  }

  /** The rotor part of `PathInvolution`: index `a1` goes right to left to
      `u`, the reflector sends `u` to `v`, and `v` comes back left to right to
      `w`; each of these steps undoes itself. */
  lemma RotorsThereAndBack(rs: seq<R.Rotor>, a: Alphabet, a1: int) returns (u: int, v: int, w: int)
    requires NoDuplicates(a.chars) && Size(a) > 0
    requires |rs| >= 1 && R.AlphabetOf(rs[0]) == a && P.SelfInverse(rs[0].perm)
    requires StackWired(rs, a)
    requires 0 <= a1 < Size(a)
    ensures ForwardPass(rs, |rs|, 1, a1) == Success(u) && BackwardPass(rs, |rs|, u) == Success(a1)
    ensures R.ConvertForward(rs[0], u) == Success(v) && R.ConvertForward(rs[0], v) == Success(u)
    ensures BackwardPass(rs, |rs|, v) == Success(w) && ForwardPass(rs, |rs|, 1, w) == Success(v)
    ensures 0 <= w < Size(a)
  {
    var k := |rs|;
    ForwardThenBackwardStack(rs, a, k, a1);
    u := ForwardPass(rs, k, 1, a1).value;
    R.ForwardInvolution(rs[0], u);
    v := R.ConvertForward(rs[0], u).value;
    BackwardThenForwardStack(rs, a, k, v);
    w := BackwardPass(rs, k, v).value;
  }

  /** What the round trip needs of a machine: an alphabet without repeats, a
      self-inverse plugboard and reflector wiring (slot 0), and bijective
      rotors in the other slots, all over the machine's alphabet. */
  predicate Wired(m: Machine) {
    && NoDuplicates(m.alphabet.chars) && Size(m.alphabet) > 0
    && P.SelfInverse(m.plugboard)
    && |m.rotors| >= 1 && P.SelfInverse(m.rotors[0].perm)
    && StackWired(m.rotors, m.alphabet)
  }

  /** Stepping changes settings only, so it keeps the wiring. */
  lemma StepKeepsWired(m: Machine)
    requires Valid(m) && Wired(m)
    ensures Wired(m.(rotors := StepAll(m.rotors)))
  {
    var rs := StepAll(m.rotors);
    assert rs[0].perm == m.rotors[0].perm;
    forall i | 1 <= i < |rs| ensures R.AlphabetOf(rs[i]) == m.alphabet && P.IsBijection(rs[i].perm) {
      assert rs[i].perm == m.rotors[i].perm;
    }
  }

  /** At the same settings, `convert(int)` undoes itself: the step it takes
      does not depend on the input, and the path is an involution. */
  lemma ConvertIndexInvolution(m: Machine, c: int)
    requires Valid(m) && Wired(m) && 0 <= c < Size(m.alphabet)
    ensures ConvertIndex(m, c).Success?
    ensures ConvertIndex(m, ConvertIndex(m, c).value.1) == Success((ConvertIndex(m, c).value.0, c))
  {
    var rs := StepAll(m.rotors);
    StepKeepsWired(m);
    assert R.AlphabetOf(rs[0]) == m.alphabet;
    PathInvolution(rs, m.plugboard, m.alphabet, c);
  }

  // ---------------------------------------------------------------------------
  // Messages (`convert(String)`)

  /** `k` steps in a row. */
  function StepTimes(rs: seq<R.Rotor>, k: nat): (out: seq<R.Rotor>)
    requires AllInRange(rs)
    ensures AllInRange(out) && |out| == |rs|
    decreases k
  {
    if k == 0 then rs else StepTimes(StepAll(rs), k - 1)
  }

  /** The loop of `convert(String)` on symbols already cleaned: each symbol
      goes through `toInt`, `convert(int)` and `toChar` in turn. */
  function ConvertSymbols(m: Machine, s: Str): (r: Result<(Machine, Str)>)
    requires Valid(m)
    ensures r.Success? ==> Valid(r.value.0)
    ensures r.Success? ==> |r.value.1| == |s|
    ensures r.Success? ==> forall i :: 0 <= i < |s| ==> s[i] in m.alphabet.chars && r.value.1[i] in m.alphabet.chars
    decreases |s|
  {
    if |s| == 0 then Success((m, []))
    else
      var k :- ToInt(m.alphabet, s[0]);
      var step :- ConvertIndex(m, k);
      var ch :- ToChar(m.alphabet, step.1);
      var rest :- ConvertSymbols(step.0, s[1..]);
      ConsInAlphabet(s, ch, rest.1, m.alphabet);
      assert step.0.rotors == StepAll(m.rotors);
      assert StepTimes(m.rotors, |s|) == StepTimes(step.0.rotors, |s| - 1);
      Success((rest.0, [ch] + rest.1))
  }

  /** A converted message of length k leaves the machine as it was, except
      that the rotors have stepped k times: one step per symbol, before it. */
  lemma {:induction false} ConvertSymbolsSteps(m: Machine, s: Str)
    requires Valid(m) && ConvertSymbols(m, s).Success?
    ensures ConvertSymbols(m, s).value.0 == m.(rotors := StepTimes(m.rotors, |s|))
    decreases |s|
  {
    if |s| > 0 {
      SymbolsStages(m, s);
      var k := ToInt(m.alphabet, s[0]).value;
      var step := ConvertIndex(m, k).value;
      var rest := ConvertSymbols(step.0, s[1..]).value;
      SymbolsShape(m, s, k, step, ToChar(m.alphabet, step.1).value, rest);
      ConvertSymbolsSteps(step.0, s[1..]);
      assert StepTimes(m.rotors, |s|) == StepTimes(step.0.rotors, |s| - 1);
    }
  }

  /** A message converts only if its first symbol and the rest each do. */
  lemma SymbolsStages(m: Machine, s: Str)
    requires Valid(m) && |s| > 0 && ConvertSymbols(m, s).Success?
    ensures ToInt(m.alphabet, s[0]).Success?
    ensures ConvertIndex(m, ToInt(m.alphabet, s[0]).value).Success?
    ensures var step := ConvertIndex(m, ToInt(m.alphabet, s[0]).value).value;
      ToChar(m.alphabet, step.1).Success? && ConvertSymbols(step.0, s[1..]).Success?
  {
  }

  /** Membership of a message and its conversion in the alphabet, extended
      from the tail to the whole. */
  lemma ConsInAlphabet(s: Str, ch: Char16, out: Str, a: Alphabet)
    requires |s| > 0 && |out| == |s| - 1
    requires s[0] in a.chars && ch in a.chars
    requires forall i :: 0 <= i < |s| - 1 ==> s[1..][i] in a.chars && out[i] in a.chars
    ensures forall i :: 0 <= i < |s| ==> s[i] in a.chars && ([ch] + out)[i] in a.chars
  {
    forall i | 0 <= i < |s|
      ensures s[i] in a.chars && ([ch] + out)[i] in a.chars
    {
      if i > 0 {
        assert s[i] == s[1..][i - 1];
        assert ([ch] + out)[i] == out[i - 1];
      }
    }
  }

  /** `convert(String)`: spaces (U+0020 only) removed, letters upper-cased,
      then every symbol converted in order. */
  function ConvertString(m: Machine, msg: Str): (r: Result<(Machine, Str)>)
    requires Valid(m)
    ensures r.Success? ==> |r.value.1| == |RemoveSpaces(msg)|
    ensures msg == [] ==> r == Success((m, []))
    ensures (exists i :: 0 <= i < |RemoveSpaces(msg)| && UpperChar(RemoveSpaces(msg)[i]) !in m.alphabet.chars) ==>
              r.Failure?
  {
    ConvertSymbols(m, UpperCase(RemoveSpaces(msg)))
  }

  /** What one symbol's conversion gives the round trip: it undoes itself,
      its output names a unique symbol, and the next state is still valid
      and wired over the same alphabet. */
  lemma SymbolStep(m: Machine, k: int)
    requires Valid(m) && Wired(m) && 0 <= k < Size(m.alphabet)
    ensures ConvertIndex(m, k).Success?
    ensures var step := ConvertIndex(m, k).value;
      && ConvertIndex(m, step.1) == Success((step.0, k))
      && ToInt(m.alphabet, m.alphabet.chars[step.1]) == Success(step.1)
      && Valid(step.0) && Wired(step.0) && step.0.alphabet == m.alphabet
  {
    ConvertIndexInvolution(m, k);
    StepKeepsWired(m);
    ToIntOfToChar(m.alphabet, ConvertIndex(m, k).value.1);
  }

  /** Every symbol of a message's tail is one of the message's symbols. */
  lemma TailInAlphabet(s: Str, a: Alphabet)
    requires |s| > 0 && forall i :: 0 <= i < |s| ==> s[i] in a.chars
    ensures forall i :: 0 <= i < |s[1..]| ==> s[1..][i] in a.chars
  {
    forall i | 0 <= i < |s[1..]| ensures s[1..][i] in a.chars {
      assert s[1..][i] == s[i + 1];
    }
  }

  /** `ConvertSymbols` on a non-empty message once each stage for its first
      symbol is known. */
  lemma SymbolsShape(m: Machine, s: Str, k: int, step: (Machine, int), ch: Char16, rest: (Machine, Str))
    requires Valid(m) && |s| > 0
    requires ToInt(m.alphabet, s[0]) == Success(k)
    requires ConvertIndex(m, k) == Success(step)
    requires ToChar(m.alphabet, step.1) == Success(ch)
    requires ConvertSymbols(step.0, s[1..]) == Success(rest)
    ensures ConvertSymbols(m, s) == Success((rest.0, [ch] + rest.1))
  {
  }

  /** One symbol of the round trip, once the symbol's own conversion is
      known to undo itself and the rest of the message is known to round-trip. */
  lemma ConsRoundTrip(m: Machine, s: Str, k: int, step: (Machine, int), rest: (Machine, Str))
    requires Valid(m) && |s| > 0
    requires ToInt(m.alphabet, s[0]) == Success(k)
    requires ConvertIndex(m, k) == Success(step) && ConvertIndex(m, step.1) == Success((step.0, k))
    requires ToInt(m.alphabet, m.alphabet.chars[step.1]) == Success(step.1)
    requires ConvertSymbols(step.0, s[1..]) == Success(rest)
    requires ConvertSymbols(step.0, rest.1) == Success((rest.0, s[1..]))
    ensures ConvertSymbols(m, s) == Success((rest.0, [m.alphabet.chars[step.1]] + rest.1))
    ensures ConvertSymbols(m, [m.alphabet.chars[step.1]] + rest.1) == Success((rest.0, s))
  {
    var ch := m.alphabet.chars[step.1];
    SymbolsShape(m, s, k, step, ch, rest);
    var out := [ch] + rest.1;
    assert out[0] == ch && out[1..] == rest.1;
    SymbolsShape(m, out, step.1, (step.0, k), s[0], (rest.0, s[1..]));
    HeadTail(s);
  }

  /** Encrypting the ciphertext from the same settings gives the plaintext
      back, and both runs leave the machine in the same state. */
  lemma {:induction false} SymbolsRoundTrip(m: Machine, s: Str)
    requires Valid(m) && Wired(m)
    requires forall i :: 0 <= i < |s| ==> s[i] in m.alphabet.chars
    ensures ConvertSymbols(m, s).Success?
    ensures ConvertSymbols(m, ConvertSymbols(m, s).value.1) == Success((ConvertSymbols(m, s).value.0, s))
    decreases |s|
  {
    if |s| > 0 {
      var k := ToInt(m.alphabet, s[0]).value;
      SymbolStep(m, k);
      var step := ConvertIndex(m, k).value;
      TailInAlphabet(s, step.0.alphabet);
      SymbolsRoundTrip(step.0, s[1..]);
      ConsRoundTrip(m, s, k, step, ConvertSymbols(step.0, s[1..]).value);
    }
  }

  /** On a wired machine the only way `convert(String)` fails is a symbol
      outside the alphabet: the symbol loop succeeds exactly when every
      symbol is in the alphabet, and otherwise fails with `NotInAlphabet`. */
  lemma {:induction false} ConvertSymbolsAccepts(m: Machine, s: Str)
    requires Valid(m) && Wired(m)
    ensures ConvertSymbols(m, s).Success? <==> AllIn(s, m.alphabet)
    ensures ConvertSymbols(m, s).Failure? ==> ConvertSymbols(m, s).error == NotInAlphabet
    decreases |s|
  {
    if |s| > 0 && s[0] !in m.alphabet.chars {
      SymbolsHeadAbsent(m, s);
    } else if |s| > 0 {
      var k := ToInt(m.alphabet, s[0]).value;
      SymbolConverts(m, k);
      var step := ConvertIndex(m, k).value;
      ConvertSymbolsAccepts(step.0, s[1..]);
      SymbolsAfterHead(m, s, k, step);
      if ConvertSymbols(step.0, s[1..]).Success? {
        TailInAlphabet(s, m.alphabet);
      } else {
        var i :| 0 <= i < |s| - 1 && s[1..][i] !in m.alphabet.chars;
        assert s[i + 1] !in m.alphabet.chars;
      }
    }
  }

  /** On a wired machine one symbol always converts, to a symbol of the
      alphabet, and leaves a valid, wired machine over the same alphabet. */
  lemma SymbolConverts(m: Machine, k: int)
    requires Valid(m) && Wired(m) && 0 <= k < Size(m.alphabet)
    ensures ConvertIndex(m, k).Success?
    ensures var step := ConvertIndex(m, k).value;
      && ToChar(m.alphabet, step.1).Success?
      && Valid(step.0) && Wired(step.0) && step.0.alphabet == m.alphabet
  {
    SymbolStep(m, k);
  }

  /** Once the first symbol converts, the message succeeds or fails as its
      tail does. */
  lemma SymbolsAfterHead(m: Machine, s: Str, k: int, step: (Machine, int))
    requires Valid(m) && |s| > 0 && Valid(step.0)
    requires ToInt(m.alphabet, s[0]) == Success(k)
    requires ConvertIndex(m, k) == Success(step)
    requires ToChar(m.alphabet, step.1).Success?
    ensures ConvertSymbols(m, s).Success? <==> ConvertSymbols(step.0, s[1..]).Success?
    ensures ConvertSymbols(m, s).Failure? ==> ConvertSymbols(m, s).error == ConvertSymbols(step.0, s[1..]).error
  {
  }

  /** A message whose first symbol is outside the alphabet fails at once. */
  lemma SymbolsHeadAbsent(m: Machine, s: Str)
    requires Valid(m) && |s| > 0 && s[0] !in m.alphabet.chars
    ensures ConvertSymbols(m, s) == Failure(NotInAlphabet)
  {
  }

  /** `ConvertSymbolsAccepts` for a whole message: after removing spaces and
      upper-casing, a wired machine converts it exactly when every symbol is
      in the alphabet, and otherwise reports `NotInAlphabet`. */
  lemma ConvertStringAccepts(m: Machine, msg: Str)
    requires Valid(m) && Wired(m)
    ensures ConvertString(m, msg).Success? <==> AllIn(UpperCase(RemoveSpaces(msg)), m.alphabet)
    ensures ConvertString(m, msg).Failure? ==> ConvertString(m, msg).error == NotInAlphabet
  {
    var u := UpperCase(RemoveSpaces(msg));
    ConvertSymbolsAccepts(m, u);
    assert ConvertString(m, msg) == ConvertSymbols(m, u);
  }

  /** A message made only of symbols of an alphabet without lower-case
      letters and spaces is unchanged by the normalisation `convert` applies. */
  lemma CleanInAlphabet(out: Str, a: Alphabet)
    requires forall c :: c in a.chars ==> !IsLower(c) && c != Space
    requires forall i :: 0 <= i < |out| ==> out[i] in a.chars
    ensures UpperCase(RemoveSpaces(out)) == out
  {
    CleanTextUnchanged(out);
  }

  /** The message-level round trip of the source's machine test: over an
      alphabet with no lower-case letter and no space, converting the output
      of `convert(msg)` from the same settings yields `msg` without spaces,
      upper-cased. */
  lemma StringRoundTrip(m: Machine, msg: Str)
    requires Valid(m) && Wired(m)
    requires forall c :: c in m.alphabet.chars ==> !IsLower(c) && c != Space
    requires forall i :: 0 <= i < |UpperCase(RemoveSpaces(msg))| ==> UpperCase(RemoveSpaces(msg))[i] in m.alphabet.chars
    ensures ConvertString(m, msg).Success?
    ensures ConvertString(m, ConvertString(m, msg).value.1) ==
              Success((ConvertString(m, msg).value.0, UpperCase(RemoveSpaces(msg))))
  {
    var s := UpperCase(RemoveSpaces(msg));
    SymbolsRoundTrip(m, s);
    CleanInAlphabet(ConvertSymbols(m, s).value.1, m.alphabet);
  }
}
