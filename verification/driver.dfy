/** The pure helpers of the command-line driver (`Main`): the duplicate check
    on the rotor names of a settings line, the grouping of output into blocks
    of five, the dispatch on a rotor's type string, the bounds on the slot and
    pawl counts, and the classification of input lines. */
module Driver {
  import opened Errors
  import opened Text
  import opened Alphabets
  import P = Permutations
  import R = Rotors
  import M = Machines

  // ---------------------------------------------------------------------------
  // hasDuplicates

  /** No name occurs twice (compared exactly, letter case included). */
  predicate AllDistinct(names: seq<Str>) {
    forall i, j :: 0 <= i < j < |names| ==> names[i] != names[j]
  }

  /** `hasDuplicates`: the two nested loops over pairs `i < j`. */
  method HasDuplicates(names: seq<Str>) returns (r: Outcome)
    ensures r == Pass <==> AllDistinct(names)
    ensures r.Fail? ==> r.error == DuplicateRotors
  {
    var i := 0;
    while i < |names| - 1
      invariant 0 <= i <= |names|
      invariant forall a, b :: 0 <= a < i && a < b < |names| ==> names[a] != names[b]
    {
      var j := i + 1;
      while j < |names|
        invariant i + 1 <= j <= |names|
        invariant forall b :: i < b < j ==> names[i] != names[b]
      {
        if names[i] == names[j] {
          return Fail(DuplicateRotors);
        }
        j := j + 1;
      }
      i := i + 1;
    }
    return Pass;
  }

  /** The duplicate check is case-sensitive while rotor lookup is not: two
      names equal up to case designate the same rotors, yet names such as
      "I" and "i" pass the check. */
  lemma DuplicateCheckIsCaseSensitive(r: R.Rotor, a: Str, b: Str)
    ensures UpperCase(a) == UpperCase(b) ==> (M.NameMatches(r, a) <==> M.NameMatches(r, b))
    ensures AllDistinct([FromLiteral("I"), FromLiteral("i")])
    ensures UpperCase(FromLiteral("I")) == UpperCase(FromLiteral("i"))
  {
    assert FromLiteral("I") != FromLiteral("i") by {
      assert FromLiteral("I")[0] != FromLiteral("i")[0];
    }
    assert UpperCase(FromLiteral("I")) == UpperCase(FromLiteral("i"));
  }

  // ---------------------------------------------------------------------------
  // printMessageLine

  /** The printed form of a message: blocks of five symbols separated by
      single spaces, the last block holding whatever is left (the reference
      for the counting loop in `PrintMessageLine`). */
  function Group(msg: Str): (g: Str)
    ensures |msg| <= |g|
    decreases |msg|
  {
    if |msg| <= 5 then msg else msg[..5] + [Space] + Group(msg[5..])
  }

  /** The printed line has one separator per full block before the last. */
  lemma {:induction false} GroupLength(msg: Str)
    ensures |Group(msg)| == if |msg| == 0 then 0 else |msg| + (|msg| - 1) / 5
    decreases |msg|
  {
    if |msg| > 5 {
      GroupLength(msg[5..]);
      assert (|msg| - 1) / 5 == 1 + (|msg| - 6) / 5;
    }
  }

  /** Symbol `i` of the message lands at position `i + i / 5` of the
      printed line. */
  lemma {:induction false} GroupIndex(msg: Str)
    ensures forall i :: 0 <= i < |msg| ==> i + i / 5 < |Group(msg)| && Group(msg)[i + i / 5] == msg[i]
    decreases |msg|
  {
    if |msg| > 5 {
      GroupIndex(msg[5..]);
      forall i | 0 <= i < |msg| ensures i + i / 5 < |Group(msg)| && Group(msg)[i + i / 5] == msg[i] {
        GroupIndexStep(msg, i);
      }
    }
  }

  /** One position of `GroupIndex`, given the positions in the rest of the line. */
  lemma GroupIndexStep(msg: Str, i: int)
    requires |msg| > 5 && 0 <= i < |msg|
    requires i >= 5 ==> var j := i - 5;
      j + j / 5 < |Group(msg[5..])| && Group(msg[5..])[j + j / 5] == msg[5..][j]
    ensures i + i / 5 < |Group(msg)| && Group(msg)[i + i / 5] == msg[i]
  {
    var rest := msg[5..];
    var out := Group(msg);
    assert out == msg[..5] + [Space] + Group(rest);
    if i >= 5 {
      var j := i - 5;
      assert i / 5 == 1 + j / 5;
      assert rest[j] == msg[i];
      assert i + i / 5 == 6 + (j + j / 5);
    }
  }

  /** Every sixth position of the printed line (5, 11, 17, ...) holds a space. */
  lemma {:induction false} GroupSpacePositions(msg: Str)
    ensures forall k :: 0 <= k < |Group(msg)| && k % 6 == 5 ==> Group(msg)[k] == Space
    decreases |msg|
  {
    if |msg| > 5 {
      var rest := msg[5..];
      GroupSpacePositions(rest);
      var out := Group(msg);
      assert out == msg[..5] + [Space] + Group(rest);
      forall k | 0 <= k < |out| && k % 6 == 5 ensures out[k] == Space {
        if k > 5 {
          assert (k - 6) % 6 == 5;
          assert out[k] == Group(rest)[k - 6];
        }
      }
    }
  }

  /** The layout of the printed line as a whole: length, the position of
      each message symbol, and the separator positions. */
  lemma GroupLayout(msg: Str)
    ensures |Group(msg)| == if |msg| == 0 then 0 else |msg| + (|msg| - 1) / 5
    ensures forall i :: 0 <= i < |msg| ==> i + i / 5 < |Group(msg)| && Group(msg)[i + i / 5] == msg[i]
    ensures forall k :: 0 <= k < |Group(msg)| && k % 6 == 5 ==> Group(msg)[k] == Space
  {
    GroupLength(msg);
    GroupIndex(msg);
    GroupSpacePositions(msg);
  }

  /** For a message without spaces, the spaces of the printed line are
      exactly the separators: groups of five, a last group of one to five,
      no leading and no trailing space. */
  lemma GroupSeparators(msg: Str)
    requires Space !in msg
    ensures forall k :: 0 <= k < |Group(msg)| ==> (Group(msg)[k] == Space <==> k % 6 == 5)
    ensures |msg| > 0 ==> Group(msg)[0] == msg[0] && Group(msg)[|Group(msg)| - 1] == msg[|msg| - 1]
    ensures msg == [] ==> Group(msg) == []
  {
    GroupLayout(msg);
    var out := Group(msg);
    forall k | 0 <= k < |out| && k % 6 != 5 ensures out[k] != Space {
      var i := k - k / 6;
      assert i / 5 == k / 6;
      assert out[i + i / 5] == msg[i];
    }
    if |msg| > 0 {
      assert 0 + 0 / 5 == 0;
      var last := |msg| - 1;
      assert last + last / 5 == |out| - 1;
    }
  }

  /** Removing spaces distributes over concatenation. */
  lemma {:induction false} RemoveSpacesAppend(a: Str, b: Str)
    ensures RemoveSpaces(a + b) == RemoveSpaces(a) + RemoveSpaces(b)
    decreases |a|
  {
    if |a| > 0 {
      var ab := a + b;
      assert ab[0] == a[0] && ab[1..] == a[1..] + b;
      RemoveSpacesAppend(a[1..], b);
      if a[0] == Space {
        assert RemoveSpaces(ab) == RemoveSpaces(ab[1..]);
      } else {
        assert RemoveSpaces(ab) == [a[0]] + RemoveSpaces(ab[1..]);
        assert RemoveSpaces(a) == [a[0]] + RemoveSpaces(a[1..]);
      }
    } else {
      assert a + b == b;
    }
  }

  /** Removing the inserted spaces from the printed line gives the message
      back, provided the message has no spaces of its own. */
  lemma {:induction false} GroupRemoveSpaces(msg: Str)
    requires Space !in msg
    ensures RemoveSpaces(Group(msg)) == msg
    decreases |msg|
  {
    if |msg| > 5 {
      var rest := msg[5..];
      assert Space !in rest;
      GroupRemoveSpaces(rest);
      RemoveSpacesAppend(msg[..5] + [Space], Group(rest));
      RemoveSpacesAppend(msg[..5], [Space]);
      assert Space !in msg[..5];
      assert msg[..5] + rest == msg;
    }
  }

  /** Appending one symbol to the message extends the printed line by that
      symbol, after a separator when the message ended on a full block. */
  lemma {:induction false} GroupSnoc(p: Str, c: Char16)
    ensures Group(p + [c]) == if |p| > 0 && |p| % 5 == 0 then Group(p) + [Space, c] else Group(p) + [c]
    decreases |p|
  {
    var q := p + [c];
    var tail := if |p| > 0 && |p| % 5 == 0 then [Space, c] else [c];
    if |p| < 5 {
      assert Group(q) == q && Group(p) == p;
    } else if |p| == 5 {
      assert q[..5] == p && q[5..] == [c];
      assert Group(q) == p + [Space] + [c];
      assert p + [Space] + [c] == p + [Space, c];
    } else {
      var rest := p[5..];
      assert q[..5] == p[..5] && q[5..] == rest + [c];
      GroupSnoc(rest, c);
      assert |rest| % 5 == |p| % 5 && |rest| > 0;
      assert Group(q) == p[..5] + [Space] + (Group(rest) + tail);
      BlockAssoc(p[..5], Group(rest), tail);
    }
  }

  /** Regrouping a block, its separator, the rest and an extension. */
  lemma BlockAssoc(b: Str, g: Str, t: Str)
    ensures b + [Space] + (g + t) == (b + [Space] + g) + t
  {
  }

  /** `printMessageLine` as written: a counter of the symbols in the current
      block; a space goes out before a symbol that would be the sixth. The
      line terminator is not part of the result. */
  method PrintMessageLine(msg: Str) returns (out: Str)
    ensures out == Group(msg)
  {
    var count := 0;
    out := [];
    var i := 0;
    while i < |msg|
      invariant 0 <= i <= |msg|
      invariant count == if i == 0 then 0 else (i - 1) % 5 + 1
      invariant out == Group(msg[..i])
    {
      var c := msg[i];
      GroupSnoc(msg[..i], c);
      assert msg[..i + 1] == msg[..i] + [c];
      BlockCount(i, count);
      if count == 5 {
        assert out + [Space] + [c] == out + [Space, c];
        out := out + [Space];
        count := 1;
      } else {
        count := count + 1;
      }
      out := out + [c];
      i := i + 1;
    }
    assert msg[..i] == msg;
  }

  /** The block counter of `printMessageLine` after `i` symbols: it is 5
      exactly when a full block has just ended, and it moves on as the
      formula says. */
  lemma BlockCount(i: nat, count: int)
    requires count == if i == 0 then 0 else (i - 1) % 5 + 1
    ensures count == 5 <==> i > 0 && i % 5 == 0
    ensures (if count == 5 then 1 else count + 1) == i % 5 + 1
  {
  }

  // ---------------------------------------------------------------------------
  // The rotor-type dispatch of readRotor

  /** Every symbol of the notch string (the type string after its first
      character) is in the alphabet. */
  predicate NotchesInAlphabet(typ: Str, alpha: Alphabet) {
    forall i :: 1 <= i < |typ| ==> typ[i] in alpha.chars
  }

  /** A rotor from its name, type string and wiring: `M` followed by the
      notches makes a moving rotor, `N` a fixed rotor, `R` a reflector. */
  function MakeRotor(name: Str, typ: Str, perm: P.Permutation, alpha: Alphabet): (r: Result<R.Rotor>)
    ensures r.Success? <==>
              |typ| > 0 && (typ[0] == 'N' as int || typ[0] == 'R' as int ||
                            (typ[0] == 'M' as int && |typ| >= 2 && NotchesInAlphabet(typ, alpha)))
    ensures |typ| == 0 ==> r == Failure(StringIndexOutOfRange)
    ensures typ == FromLiteral("M") ==> r == Failure(NoNotches)
    ensures |typ| >= 2 && typ[0] == 'M' as int && !NotchesInAlphabet(typ, alpha) ==> r == Failure(BadNotch)
    ensures |typ| > 0 && typ[0] !in {'M' as int, 'N' as int, 'R' as int} ==> r == Failure(BadRotorDescription)
    ensures r.Success? ==> r.value.name == name && r.value.perm == perm && r.value.setting == 0
    ensures r.Success? ==> (R.Rotates(r.value) <==> typ[0] == 'M' as int) && (R.Reflecting(r.value) <==> typ[0] == 'R' as int)
    ensures r.Success? && R.Rotates(r.value) ==> forall c :: c in r.value.kind.notches <==> c in typ[1..]
  {
    if |typ| == 0 then Failure(StringIndexOutOfRange)
    else if typ[0] == 'M' as int then
      if |typ| < 2 then Failure(NoNotches)
      else if exists i :: 1 <= i < |typ| && !Contains(alpha, typ[i]) then Failure(BadNotch)
      else Success(R.NewMoving(name, perm, typ[1..]))
    else if typ[0] == 'N' as int then Success(R.NewFixed(name, perm))
    else if typ[0] == 'R' as int then Success(R.NewReflector(name, perm))
    else Failure(BadRotorDescription)
  }

  /** What the notch check buys: a rotor built over the machine's alphabet is
      valid for the machine, and a moving rotor reaches a notch at the
      setting of its first notch symbol. */
  lemma MadeRotorUsable(name: Str, typ: Str, perm: P.Permutation, alpha: Alphabet)
    requires perm.alphabet == alpha && Size(alpha) > 0
    requires MakeRotor(name, typ, perm, alpha).Success?
    ensures M.ValidRotor(alpha, MakeRotor(name, typ, perm, alpha).value)
    ensures var r := MakeRotor(name, typ, perm, alpha).value;
            R.Rotates(r) ==> ToInt(alpha, typ[1]).Success? &&
                             R.AtNotch(r.(setting := ToInt(alpha, typ[1]).value))
  {
    var r := MakeRotor(name, typ, perm, alpha).value;
    if R.Rotates(r) {
      assert typ[1] in alpha.chars;
      assert typ[1] == typ[1..][0];
    }
  }

  // ---------------------------------------------------------------------------
  // The slot and pawl bounds of readConfig

  /** The configuration's count checks: at least one slot, and a pawl count
      from zero to one less than the slot count. */
  function CheckCounts(numRotors: int, pawls: int): (r: Outcome)
    ensures r == Pass <==> 0 < numRotors && 0 <= pawls < numRotors
    ensures numRotors <= 0 ==> r == Fail(BadRotorCount)
    ensures 0 < numRotors && (pawls < 0 || pawls >= numRotors) ==> r == Fail(BadPawlCount)
  {
    if numRotors <= 0 then Fail(BadRotorCount)
    else if pawls < 0 || pawls >= numRotors then Fail(BadPawlCount)
    else Pass
  }

  /** The number of rotating rotors is at most the number of rotors, and one
      fewer when the first one does not rotate. */
  lemma {:induction false} MovingCountBound(rs: seq<R.Rotor>)
    ensures M.MovingCount(rs) <= |rs|
    ensures |rs| > 0 && !R.Rotates(rs[0]) ==> M.MovingCount(rs) <= |rs| - 1
    decreases |rs|
  {
    if |rs| > 0 {
      MovingCountBound(rs[1..]);
    }
  }

  /** The count checks reject only machines that could never be filled: a
      successful insertion of one rotor per slot has a reflector in slot 0,
      so the pawl count it matched is below the slot count. */
  lemma CountsCheckNecessary(m: M.Machine, names: seq<Str>)
    requires |names| > 0 && |names| == m.numRotors
    requires M.InsertRotors(m, names).Success?
    ensures CheckCounts(m.numRotors, m.pawls) == Pass
  {
    var rs := M.InsertRotors(m, names).value.rotors;
    MovingCountBound(rs);
  }

  // ---------------------------------------------------------------------------
  // Line classification in process

  /** What the driver does with one input line. */
  datatype LineAction =
    | Echo(line: Str)        // an empty line, printed as it is
    | Configure(line: Str)   // a settings line, handed to `setUp`
    | Encode(line: Str)      // a message line, upper-cased and converted

  /** A line after the first: empty lines pass through, `*` lines set the
      machine up, everything else is upper-cased for conversion. */
  function ClassifyLine(line: Str): (a: LineAction)
    ensures a.Echo? <==> |line| == 0
    ensures a.Configure? <==> |line| > 0 && line[0] == '*' as int
    ensures a.Echo? || a.Configure? ==> a.line == line
    ensures a.Encode? ==> |a.line| == |line| && forall i :: 0 <= i < |line| ==> a.line[i] == UpperChar(line[i])
  {
    if |line| == 0 then Echo(line)
    else if line[0] == '*' as int then Configure(line)
    else Encode(UpperCase(line))
  }

  /** `process`: the first line (empty when the input has none) must be a
      settings line; every later line is classified on its own. */
  function Classify(lines: seq<Str>): (r: Result<seq<LineAction>>)
    ensures r.Success? <==> |lines| > 0 && |lines[0]| > 0 && lines[0][0] == '*' as int
    ensures r.Failure? ==> r.error == FirstLineNotSetting
    ensures r.Success? ==> |r.value| == |lines| && r.value[0] == Configure(lines[0])
    ensures r.Success? ==> forall i :: 1 <= i < |lines| ==> r.value[i] == ClassifyLine(lines[i])
  {
    var first := if |lines| > 0 then lines[0] else [];
    if |first| == 0 || first[0] != '*' as int then Failure(FirstLineNotSetting)
    else Success([Configure(first)] + seq(|lines| - 1, i requires 0 <= i < |lines| - 1 => ClassifyLine(lines[i + 1])))
  }

  /** Removing spaces commutes with upper-casing: no letter maps to a space. */
  lemma {:induction false} RemoveSpacesUpperCase(s: Str)
    ensures RemoveSpaces(UpperCase(s)) == UpperCase(RemoveSpaces(s))
    decreases |s|
  {
    if |s| > 0 {
      assert UpperCase(s)[1..] == UpperCase(s[1..]);
      RemoveSpacesUpperCase(s[1..]);
      if s[0] != Space {
        assert UpperCase([s[0]] + RemoveSpaces(s[1..])) == [UpperChar(s[0])] + UpperCase(RemoveSpaces(s[1..]));
      }
    }
  }

  /** The driver upper-cases a message line before `convert` does it again;
      the first upper-casing changes nothing about the result. */
  lemma EncodeUpperCaseRedundant(m: M.Machine, line: Str)
    requires M.Valid(m)
    ensures M.ConvertString(m, ClassifyLine(line).line) == M.ConvertString(m, line)
  {
    if |line| > 0 && line[0] != '*' as int {
      RemoveSpacesUpperCase(line);
      assert UpperCase(UpperCase(RemoveSpaces(line))) == UpperCase(RemoveSpaces(line));
    }
  }
}
