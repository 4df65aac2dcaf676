/** Splitting a cycle-notation string such as "(AELT) (BKNW)(S)" into its
    cycles, the way `Permutation`'s constructor does it: parentheses become
    spaces, the string is trimmed, and what is left is split on runs of
    whitespace. */
module CycleNotation {
  import opened Text

  const Open: Char16 := '(' as int
  const Close: Char16 := ')' as int

  /** `cycles.replaceAll("[\\(\\)]", " ")`. */
  function ParensToSpaces(s: Str): (r: Str)
    ensures |r| == |s|
    ensures forall i :: 0 <= i < |s| ==>
              r[i] == (if s[i] == '(' as int || s[i] == ')' as int then Space else s[i])
  {
    seq(|s|, i requires 0 <= i < |s| =>
      if s[i] == '(' as int || s[i] == ')' as int then Space else s[i])
  }

  /** Number of characters `trim()` drops from the front of `s`. */
  function TrimFront(s: Str): (i: nat)
    ensures i <= |s|
    ensures forall j :: 0 <= j < i ==> IsTrimmable(s[j])
    ensures i < |s| ==> !IsTrimmable(s[i])
  {
    if |s| > 0 && IsTrimmable(s[0]) then 1 + TrimFront(s[1..]) else 0
  }

  /** Where the kept part of `s` ends: `trim()` drops `s[j..]` once the front is cut at `lo`. */
  function TrimBack(s: Str, lo: nat): (j: nat)
    requires lo <= |s|
    ensures lo <= j <= |s|
    ensures forall k :: j <= k < |s| ==> IsTrimmable(s[k])
    ensures j > lo ==> !IsTrimmable(s[j - 1])
    decreases |s|
  {
    if |s| > lo && IsTrimmable(s[|s| - 1]) then TrimBack(s[..|s| - 1], lo) else |s|
  }

  /** `String.trim()`: `s` without its leading and trailing characters at or
      below U+0020. */
  function Trim(s: Str): (r: Str)
    ensures |r| == 0 || (!IsTrimmable(r[0]) && !IsTrimmable(r[|r| - 1]))
    ensures exists lo, hi :: 0 <= lo <= hi <= |s| && r == s[lo..hi] &&
              (forall j :: 0 <= j < lo ==> IsTrimmable(s[j])) &&
              (forall j :: hi <= j < |s| ==> IsTrimmable(s[j]))
    ensures forall i :: 0 <= i < |r| ==> r[i] in s
    ensures (forall i :: 0 <= i < |s| ==> IsTrimmable(s[i])) ==> r == []
  {
    var lo := TrimFront(s);
    var hi := TrimBack(s, lo);
    assert s[lo..hi] == s[lo..hi];
    s[lo..hi]
  }

  /** Length of the longest prefix of `s` without whitespace. */
  function RunLength(s: Str): (k: nat)
    ensures k <= |s|
    ensures forall i :: 0 <= i < k ==> !IsSpace(s[i])
    ensures k < |s| ==> IsSpace(s[k])
  {
    if |s| == 0 || IsSpace(s[0]) then 0 else 1 + RunLength(s[1..])
  }

  /** The maximal whitespace-free runs of `s`, left to right. */
  function Tokens(s: Str): (ts: seq<Str>)
    ensures |ts| == 0 <==> forall i :: 0 <= i < |s| ==> IsSpace(s[i])
    ensures forall k :: 0 <= k < |ts| ==> |ts[k]| > 0
    ensures forall k, i :: 0 <= k < |ts| && 0 <= i < |ts[k]| ==> !IsSpace(ts[k][i])
    decreases |s|
  {
    if |s| == 0 then []
    else if IsSpace(s[0]) then
      assert forall i :: 1 <= i < |s| ==> s[i] == s[1..][i - 1];
      Tokens(s[1..])
    else
      var k := RunLength(s);
      [s[..k]] + Tokens(s[k..])
  }

  /** Every character of a token is a character of the string. */
  lemma {:induction false} TokensInSource(s: Str)
    ensures forall k, i :: 0 <= k < |Tokens(s)| && 0 <= i < |Tokens(s)[k]| ==> Tokens(s)[k][i] in s
    decreases |s|
  {
    if |s| > 0 {
      if IsSpace(s[0]) {
        TokensInSource(s[1..]);
        assert forall x :: x in s[1..] ==> x in s;
      } else {
        var k := RunLength(s);
        TokensInSource(s[k..]);
        assert forall x :: x in s[k..] ==> x in s;
        assert forall x :: x in s[..k] ==> x in s;
      }
    }
  }

  /** `s.split("\\s+")`: the pieces between runs of whitespace, with trailing
      empty pieces dropped. A string without whitespace is its own one piece
      (the empty string included), leading whitespace yields one empty piece
      in front, and a string of whitespace only yields no piece at all. */
  function SplitOnSpace(s: Str): (r: seq<Str>)
    ensures (forall i :: 0 <= i < |s| ==> !IsSpace(s[i])) ==> r == [s]
    ensures |s| > 0 && (forall i :: 0 <= i < |s| ==> IsSpace(s[i])) ==> r == []
    ensures |s| > 0 && !IsSpace(s[0]) ==> forall k :: 0 <= k < |r| ==> |r[k]| > 0
    ensures |s| > 0 && IsSpace(s[0]) && |r| > 0 ==> r[0] == [] && forall k :: 1 <= k < |r| ==> |r[k]| > 0
    ensures forall k :: 0 <= k < |r| ==> forall i :: 0 <= i < |r[k]| ==> !IsSpace(r[k][i]) && r[k][i] in s
  {
    if |s| == 0 then [[]]
    else
      var ts := Tokens(s);
      TokensInSource(s);
      if (forall i :: 0 <= i < |s| ==> !IsSpace(s[i])) then TokensOfRun(s); ts
      else if IsSpace(s[0]) && |ts| > 0 then [[]] + ts
      else ts
  }

  /** The cycles the constructor hands to `addCycle`, in order. */
  function Cycles(s: Str): (cs: seq<Str>)
    ensures |cs| > 0
    ensures forall k, i :: 0 <= k < |cs| && 0 <= i < |cs[k]| ==>
              !IsSpace(cs[k][i]) && cs[k][i] != '(' as int && cs[k][i] != ')' as int && cs[k][i] in s
    ensures forall k :: 0 <= k < |cs| ==> |cs[k]| > 0 || cs == [[]]
  {
    var u := ParensToSpaces(s);
    var t := Trim(u);
    var cs := SplitOnSpace(t);
    forall k, i | 0 <= k < |cs| && 0 <= i < |cs[k]|
      ensures cs[k][i] != '(' as int && cs[k][i] != ')' as int && cs[k][i] in s
    {
      assert cs[k][i] in t;
      var m :| 0 <= m < |t| && t[m] == cs[k][i];
      assert t[m] in u;
    }
    cs
  }

  /** Parentheses and whitespace only separate cycles: a string made of
      nothing else (in particular "" and "()") yields no non-empty cycle. */
  lemma OnlySeparators(s: Str)
    requires forall i :: 0 <= i < |s| ==> IsSpace(s[i]) || s[i] == '(' as int || s[i] == ')' as int
    ensures Cycles(s) == [[]]
  {
    var u := ParensToSpaces(s);
    assert forall i :: 0 <= i < |u| ==> IsTrimmable(u[i]);
    assert Trim(u) == [];
  }

  // ---------------------------------------------------------------------------
  // What the tokens are

  /** The first run is unchanged by what follows it, once it has ended
      inside `a` or `t` starts with whitespace. */
  lemma {:induction false} RunLengthAppend(a: Str, t: Str)
    requires RunLength(a) < |a| || (|t| > 0 && IsSpace(t[0]))
    ensures RunLength(a + t) == RunLength(a)
    decreases |a|
  {
    if |a| > 0 && !IsSpace(a[0]) {
      assert (a + t)[1..] == a[1..] + t;
      RunLengthAppend(a[1..], t);
    }
  }

  /** One whitespace character splits the token list: the tokens of
      `a + [w] + b` are those of `a` followed by those of `b`. */
  lemma {:induction false} TokensSplit(a: Str, w: Char16, b: Str)
    requires IsSpace(w)
    ensures Tokens(a + [w] + b) == Tokens(a) + Tokens(b)
    decreases |a|
  {
    if |a| == 0 {
      SplitShape(a, w, b, 0);
      TokensSpaceHead(a + [w] + b);
    } else if IsSpace(a[0]) {
      TokensSplit(a[1..], w, b);
      SplitAfterSpace(a, w, b);
    } else {
      var k := RunLength(a);
      if k < |a| {
        TokensSplit(a[k..], w, b);
      }
      SplitAfterRun(a, w, b);
    }
  }

  /** The step of `TokensSplit` when `a` starts with whitespace. */
  lemma SplitAfterSpace(a: Str, w: Char16, b: Str)
    requires |a| > 0 && IsSpace(a[0])
    requires Tokens(a[1..] + [w] + b) == Tokens(a[1..]) + Tokens(b)
    ensures Tokens(a + [w] + b) == Tokens(a) + Tokens(b)
  {
    SplitShape(a, w, b, 1);
    TokensSpaceHead(a + [w] + b);
    TokensSpaceHead(a);
  }

  /** The step of `TokensSplit` when `a` starts with a token. */
  lemma SplitAfterRun(a: Str, w: Char16, b: Str)
    requires IsSpace(w) && |a| > 0 && !IsSpace(a[0])
    requires RunLength(a) < |a| ==>
               Tokens(a[RunLength(a)..] + [w] + b) == Tokens(a[RunLength(a)..]) + Tokens(b)
    ensures Tokens(a + [w] + b) == Tokens(a) + Tokens(b)
  {
    var k := RunLength(a);
    SplitShape(a, w, b, k);
    RunLengthAppend(a, [w] + b);
    TokensRunHead(a + [w] + b);
    TokensRunHead(a);
    var rest := Tokens(a[k..] + [w] + b);
    if k == |a| {
      assert a[k..] == [];
      TokensSpaceHead([w] + b);
      assert rest == Tokens(a[k..]) + Tokens(b);
    }
    ConsAssoc(a[..k], Tokens(a[k..]), Tokens(b));
  }

  /** Regrouping a token list built by prepending one run. */
  lemma ConsAssoc<T>(x: T, u: seq<T>, v: seq<T>)
    ensures [x] + (u + v) == ([x] + u) + v
  {
  }

  /** Whitespace in front of `s` is skipped. */
  lemma TokensSpaceHead(s: Str)
    requires |s| > 0 && IsSpace(s[0])
    ensures Tokens(s) == Tokens(s[1..])
  {
  }

  /** A string that starts with a token: that run, then the tokens of the rest. */
  lemma TokensRunHead(s: Str)
    requires |s| > 0 && !IsSpace(s[0])
    ensures Tokens(s) == [s[..RunLength(s)]] + Tokens(s[RunLength(s)..])
  {
  }

  /** The slices of `a + [w] + b` the proof of `TokensSplit` needs. */
  lemma SplitShape(a: Str, w: Char16, b: Str, k: int)
    requires 0 <= k <= |a|
    ensures a + [w] + b == a + ([w] + b)
    ensures (a + [w] + b)[..k] == a[..k]
    ensures (a + [w] + b)[k..] == a[k..] + [w] + b
    ensures ([w] + b)[1..] == b
  {
  }

  /** A non-empty string without whitespace is a single token. */
  lemma TokensOfRun(run: Str)
    requires |run| > 0 && forall i :: 0 <= i < |run| ==> !IsSpace(run[i])
    ensures Tokens(run) == [run]
  {
    var k := RunLength(run);
    assert k == |run|;
    assert run[..k] == run;
    assert Tokens(run[k..]) == [];
  }

  /** Leading whitespace contributes no token. */
  lemma {:induction false} TokensSkipSpaces(sp: Str, t: Str)
    requires forall i :: 0 <= i < |sp| ==> IsSpace(sp[i])
    ensures Tokens(sp + t) == Tokens(t)
    decreases |sp|
  {
    if |sp| > 0 {
      assert (sp + t)[1..] == sp[1..] + t;
      TokensSkipSpaces(sp[1..], t);
    } else {
      assert sp + t == t;
    }
  }

  /** Trailing whitespace contributes no token. */
  lemma TokensDropSpaces(t: Str, sp: Str)
    requires forall i :: 0 <= i < |sp| ==> IsSpace(sp[i])
    ensures Tokens(t + sp) == Tokens(t)
  {
    if |sp| > 0 {
      assert t + sp == t + [sp[0]] + sp[1..];
      TokensSplit(t, sp[0], sp[1..]);
      assert Tokens(sp[1..]) == [];
    } else {
      assert t + sp == t;
    }
  }

  /** On a string whose only characters at or below U+0020 are whitespace,
      trimming first does not change the tokens. */
  lemma TrimKeepsTokens(s: Str)
    requires forall i :: 0 <= i < |s| ==> IsSpace(s[i]) || !IsTrimmable(s[i])
    ensures Tokens(Trim(s)) == Tokens(s)
  {
    var lo := TrimFront(s);
    var hi := TrimBack(s, lo);
    assert Trim(s) == s[lo..hi];
    TokensIgnorePadding(s, lo, hi);
  }

  /** Whitespace on both sides of `s[lo..hi]` contributes no token. */
  lemma TokensIgnorePadding(s: Str, lo: int, hi: int)
    requires 0 <= lo <= hi <= |s|
    requires forall j :: 0 <= j < lo ==> IsSpace(s[j])
    requires forall j :: hi <= j < |s| ==> IsSpace(s[j])
    ensures Tokens(s[lo..hi]) == Tokens(s)
  {
    var front, t, back := s[..lo], s[lo..hi], s[hi..];
    SliceThree(s, lo, hi);
    TokensSkipSpaces(front, t + back);
    TokensDropSpaces(t, back);
  }

  lemma SliceThree(s: Str, lo: int, hi: int)
    requires 0 <= lo <= hi <= |s|
    ensures s == s[..lo] + (s[lo..hi] + s[hi..])
    ensures forall i :: 0 <= i < |s| - hi ==> s[hi..][i] == s[hi + i]
  {
  }

  // ---------------------------------------------------------------------------
  // Writing cycles down and reading them back

  /** A character that can stand in a cycle and survive the parsing: not a
      parenthesis and not one `trim()` would remove (so not whitespace). */
  predicate CycleSymbol(c: Char16) {
    !IsTrimmable(c) && c != '(' as int && c != ')' as int
  }

  /** Cycles written in the notation the constructor reads: each cycle in
      parentheses, preceded by the whitespace string of the same index in
      `gaps` ("(ABC) (DEF)(GHI)" has the gaps "", " " and ""). */
  function Notation(cs: seq<Str>, gaps: seq<Str>): Str
    requires |gaps| == |cs|
    decreases |cs|
  {
    if |cs| == 0 then [] else gaps[0] + [Open] + cs[0] + [Close] + Notation(cs[1..], gaps[1..])
  }

  /** Non-empty cycles of cycle symbols, separated by whitespace only. */
  predicate Writable(cs: seq<Str>, gaps: seq<Str>) {
    && |gaps| == |cs|
    && (forall k :: 0 <= k < |cs| ==> |cs[k]| > 0 && forall i :: 0 <= i < |cs[k]| ==> CycleSymbol(cs[k][i]))
    && (forall k :: 0 <= k < |gaps| ==> forall i :: 0 <= i < |gaps[k]| ==> IsSpace(gaps[k][i]))
  }

  lemma ParensToSpacesAppend(a: Str, b: Str)
    ensures ParensToSpaces(a + b) == ParensToSpaces(a) + ParensToSpaces(b)
  {
  }

  /** The first written cycle with its parentheses replaced: its gap and a
      space, the cycle, a space, then the rest. */
  lemma NotationHead(cs: seq<Str>, gaps: seq<Str>)
    requires Writable(cs, gaps) && |cs| > 0
    ensures Writable(cs[1..], gaps[1..])
    ensures ParensToSpaces(Notation(cs, gaps)) ==
              (gaps[0] + [Space]) + (cs[0] + [Space] + ParensToSpaces(Notation(cs[1..], gaps[1..])))
  {
    var g, c := gaps[0], cs[0];
    var rest := Notation(cs[1..], gaps[1..]);
    WritableTail(cs, gaps);
    var group := g + [Open] + c + [Close];
    assert Notation(cs, gaps) == group + rest;
    ParensToSpacesAppend(group, rest);
    ParensGroup(g, c);
    Reassociate(g, c, ParensToSpaces(rest));
  }

  lemma WritableTail(cs: seq<Str>, gaps: seq<Str>)
    requires Writable(cs, gaps) && |cs| > 0
    ensures Writable(cs[1..], gaps[1..])
  {
    forall k | 0 <= k < |cs| - 1 ensures cs[1..][k] == cs[k + 1] && gaps[1..][k] == gaps[k + 1] { }
  }

  /** One written cycle with its gap: the parentheses become spaces and
      nothing else changes. */
  lemma ParensGroup(g: Str, c: Str)
    requires forall i :: 0 <= i < |g| ==> IsSpace(g[i])
    requires forall i :: 0 <= i < |c| ==> CycleSymbol(c[i])
    ensures ParensToSpaces(g + [Open] + c + [Close]) == g + [Space] + c + [Space]
  {
  }

  lemma Reassociate(g: Str, c: Str, r: Str)
    ensures g + [Space] + c + [Space] + r == (g + [Space]) + (c + [Space] + r)
  {
  }

  /** Replacing the parentheses of written cycles leaves only whitespace and
      cycle symbols. */
  lemma {:induction false} NotationSymbols(cs: seq<Str>, gaps: seq<Str>)
    requires Writable(cs, gaps)
    ensures forall x :: x in ParensToSpaces(Notation(cs, gaps)) ==> IsSpace(x) || CycleSymbol(x)
    decreases |cs|
  {
    if |cs| > 0 {
      NotationHead(cs, gaps);
      NotationSymbols(cs[1..], gaps[1..]);
      assert forall x :: x in gaps[0] ==> IsSpace(x);
      assert forall x :: x in cs[0] ==> CycleSymbol(x);
    }
  }

  /** Replacing the parentheses of written cycles leaves each cycle as one
      token, in order. */
  lemma {:induction false} TokensOfNotation(cs: seq<Str>, gaps: seq<Str>)
    requires Writable(cs, gaps)
    ensures Tokens(ParensToSpaces(Notation(cs, gaps))) == cs
    decreases |cs|
  {
    if |cs| > 0 {
      var g, c := gaps[0], cs[0];
      NotationHead(cs, gaps);
      TokensOfNotation(cs[1..], gaps[1..]);
      var pr := ParensToSpaces(Notation(cs[1..], gaps[1..]));
      TokensSkipSpaces(g + [Space], c + [Space] + pr);
      TokensSplit(c, Space, pr);
      TokensOfRun(c);
      assert cs == [c] + cs[1..];
    }
  }

  /** Reading written cycles back gives the cycles: `Cycles` inverts
      `Notation` on non-empty cycles of cycle symbols, and an empty list of
      cycles reads back as the one empty cycle `split` produces. */
  lemma CyclesOfNotation(cs: seq<Str>, gaps: seq<Str>)
    requires Writable(cs, gaps)
    ensures Cycles(Notation(cs, gaps)) == if |cs| == 0 then [[]] else cs
  {
    var u := ParensToSpaces(Notation(cs, gaps));
    TokensOfNotation(cs, gaps);
    NotationSymbols(cs, gaps);
    assert forall i :: 0 <= i < |u| ==> u[i] in u;
    TrimKeepsTokens(u);
    var t := Trim(u);
    if |cs| > 0 {
      assert Tokens(t) != [];
      assert |t| > 0 && !IsSpace(t[0]);
    } else {
      assert t == [];
    }
  }
}
