/** Permutations in cycle notation over an alphabet (the source's
    `Permutation`): a forward and a backward map on symbols that start as the
    identity on the alphabet and are then overwritten cycle by cycle. */
module Permutations {
  import opened Errors
  import opened Text
  import opened Alphabets
  import opened CycleNotation

  /** The alphabet and the two maps (`_foward` and `_backward` in the source).
      The maps may hold keys outside the alphabet: a cycle may name any symbol. */
  datatype Permutation = Permutation(alphabet: Alphabet, forward: map<Char16, Char16>, backward: map<Char16, Char16>)

  function Size(p: Permutation): nat {
    |p.alphabet.chars|
  }

  // ---------------------------------------------------------------------------
  // Construction

  /** Both maps send every alphabet symbol to itself. */
  function Identity(a: Alphabet): (p: Permutation)
    ensures p.alphabet == a
    ensures forall c :: c in a.chars ==> c in p.forward && p.forward[c] == c && c in p.backward && p.backward[c] == c
  {
    Permutation(a, map c | c in a.chars :: c, map c | c in a.chars :: c)
  }

  /** One edge x -> y: `_foward.put(x, y)` and `_backward.put(y, x)`. */
  function Link(p: Permutation, x: Char16, y: Char16): Permutation {
    p.(forward := p.forward[x := y], backward := p.backward[y := x])
  }

  /** The loop of `addCycle`: edges cyc[i] -> cyc[i+1] for i, i+1, ..., |cyc|-2, in that order. */
  function LinkChain(p: Permutation, cyc: Str, i: nat): Permutation
    decreases |cyc| - i
  {
    if i + 1 >= |cyc| then p else LinkChain(Link(p, cyc[i], cyc[i + 1]), cyc, i + 1)
  }

  /** `addCycle`: nothing for an empty cycle, a self-edge for a one-symbol
      cycle, otherwise the chain followed by the closing edge last -> first. */
  function AddCycle(p: Permutation, cyc: Str): (q: Permutation)
    ensures q.alphabet == p.alphabet
    ensures p.forward.Keys <= q.forward.Keys && p.backward.Keys <= q.backward.Keys
    ensures |cyc| > 0 ==> var last := cyc[|cyc| - 1];
      && last in q.forward && q.forward[last] == cyc[0]
      && cyc[0] in q.backward && q.backward[cyc[0]] == last
  {
    if |cyc| == 0 then p
    else if |cyc| == 1 then Link(p, cyc[0], cyc[0])
    else
      LinkChainCovers(p, cyc, 0);
      Link(LinkChain(p, cyc, 0), cyc[|cyc| - 1], cyc[0])
  }

  /** The constructor's `for (String s : cycleArr) addCycle(s)`. */
  function AddCycles(p: Permutation, cs: seq<Str>): Permutation
    decreases |cs|
  {
    if |cs| == 0 then p else AddCycles(AddCycle(p, cs[0]), cs[1..])
  }

  /** `new Permutation(cycles, alphabet)`. It never fails: symbols outside
      the alphabet, repeated symbols and overlapping cycles are all accepted. */
  function FromCycles(s: Str, a: Alphabet): (p: Permutation)
    ensures p.alphabet == a
    ensures CoversAlphabet(p)
  {
    AddCyclesCovers(Identity(a), Cycles(s));
    AddCycles(Identity(a), Cycles(s))
  }

  // ---------------------------------------------------------------------------
  // Queries

  /** Java's `%` on `int`: the remainder truncated toward zero, that is,
      `x` moved toward zero by multiples of `n` until it lies strictly
      between `-n` and `n`. */
  function JavaRem(x: int, n: int): (r: int)
    requires n > 0
    ensures -n < r < n
    ensures x >= 0 ==> r >= 0
    ensures x <= 0 ==> r <= 0
    ensures 0 <= x < n ==> r == x
    decreases if x >= 0 then x else -x
  {
    if -n < x < n then x
    else if x >= n then JavaRem(x - n, n)
    else JavaRem(x + n, n)
  }

  /** The remainder by repeated subtraction is the truncating one: the
      Euclidean remainder of `|x|`, carrying the sign of `x`. */
  lemma {:induction false} JavaRemTruncates(x: int, n: int)
    requires n > 0
    ensures JavaRem(x, n) == if x >= 0 then x % n else -((-x) % n)
    decreases if x >= 0 then x else -x
  {
    if 0 <= x < n {
      ModUnique(x, n, 0, x);
    } else if -n < x < 0 {
      ModUnique(-x, n, 0, -x);
    } else if x >= n {
      JavaRemTruncates(x - n, n);
      ModAddMultiple(x - n, 1, n);
    } else {
      JavaRemTruncates(x + n, n);
      ModAddMultiple(-x - n, 1, n);
    }
  }

  /** `wrap`: Java's remainder, then `size()` added when it is negative. The
      result lies in `[0, n)` and leaves indices already there alone;
      `WrapIsModulo` shows it is the true residue of `x` modulo `n`. */
  function Wrap(n: int, x: int): (r: int)
    requires n > 0
    ensures 0 <= r < n
    ensures 0 <= x < n ==> r == x
  {
    var r := JavaRem(x, n);
    if r < 0 then r + n else r
  }

  /** `wrap` is the Euclidean residue even for negative arguments, although
      Java's `%` truncates toward zero. */
  lemma {:induction false} WrapIsModulo(n: int, x: int)
    requires n > 0
    ensures Wrap(n, x) == x % n
    decreases if x >= 0 then x else -x
  {
    if 0 <= x < n {
      ModUnique(x, n, 0, x);
    } else if -n < x < 0 {
      ModUnique(x, n, -1, x + n);
    } else if x >= n {
      WrapIsModulo(n, x - n);
      ModAddMultiple(x - n, 1, n);
    } else {
      WrapIsModulo(n, x + n);
      ModAddMultiple(x + n, -1, n);
    }
  }

  /** Wrapping an intermediate sum changes nothing: `wrap(wrap(x) + y) == wrap(x + y)`. */
  lemma WrapAdd(n: int, x: int, y: int)
    requires n > 0
    ensures Wrap(n, Wrap(n, x) + y) == Wrap(n, x + y)
  {
    var w := Wrap(n, x);
    WrapIsModulo(n, x);
    var q := x / n;
    assert x == q * n + w;
    ModAddMultiple(w + y, q, n);
    assert w + y + q * n == x + y;
    WrapIsModulo(n, x + y);
    WrapIsModulo(n, w + y);
  }

  /** One full turn brings an index back: `wrap(x + n) == x` for `x` in `[0, n)`. */
  lemma WrapOneTurn(n: int, x: int)
    requires 0 <= x < n
    ensures Wrap(n, x + n) == x
  {
    WrapIsModulo(n, x + n);
    ModUnique(x + n, n, 1, x);
  }

  /** Adding a multiple of `n` does not change the residue. */
  lemma ModAddMultiple(z: int, k: int, n: int)
    requires n > 0
    ensures (z + k * n) % n == z % n
  {
    var q := z / n;
    var r := z % n;
    assert z == q * n + r;
    assert z + k * n == (q + k) * n + r;
    ModUnique(z + k * n, n, q + k, r);
  }

  /** Multiplying by a positive factor of at least one does not shrink. */
  lemma {:induction false} MulAtLeast(a: int, n: int)
    requires a >= 1 && n > 0
    ensures a * n >= n
    decreases a
  {
    if a > 1 {
      MulAtLeast(a - 1, n);
      assert a * n == (a - 1) * n + n;
    }
  }

  /** Quotient and remainder are determined by `x == q * n + r` with `0 <= r < n`. */
  lemma ModUnique(x: int, n: int, q: int, r: int)
    requires n > 0 && 0 <= r < n && x == q * n + r
    ensures x % n == r
  {
    var q2 := x / n;
    var r2 := x % n;
    assert x == q2 * n + r2;
    if q > q2 {
      MulAtLeast(q - q2, n);
    } else if q < q2 {
      MulAtLeast(q2 - q, n);
    }
  }

  /** `permute(char)`: `_foward.get(c)`, which throws when `c` is not a key. */
  function PermuteChar(p: Permutation, c: Char16): (r: Result<Char16>)
    ensures r.Success? <==> c in p.forward
    ensures r.Success? ==> r.value == p.forward[c]
  {
    if c in p.forward then Success(p.forward[c]) else Failure(MissingMapping)
  }

  /** `invert(char)`: `_backward.get(c)`. */
  function InvertChar(p: Permutation, c: Char16): (r: Result<Char16>)
    ensures r.Success? <==> c in p.backward
    ensures r.Success? ==> r.value == p.backward[c]
  {
    if c in p.backward then Success(p.backward[c]) else Failure(MissingMapping)
  }

  /** `permute(int)`: wrap the index, take its symbol, permute it, and return
      the index of the image (which fails when the image is not in the alphabet). */
  function PermuteIndex(p: Permutation, i: int): (r: Result<int>)
    ensures r.Success? ==> 0 <= r.value < Size(p)
    ensures Size(p) == 0 ==> r == Failure(DivisionByZero)
  {
    if Size(p) == 0 then Failure(DivisionByZero)
    else
      var key :- ToChar(p.alphabet, Wrap(Size(p), i));
      var v :- PermuteChar(p, key);
      ToInt(p.alphabet, v)
  }

  /** `invert(int)`, the same through the backward map. */
  function InvertIndex(p: Permutation, i: int): (r: Result<int>)
    ensures r.Success? ==> 0 <= r.value < Size(p)
    ensures Size(p) == 0 ==> r == Failure(DivisionByZero)
  {
    if Size(p) == 0 then Failure(DivisionByZero)
    else
      var key :- ToChar(p.alphabet, Wrap(Size(p), i));
      var v :- InvertChar(p, key);
      ToInt(p.alphabet, v)
  }

  // ---------------------------------------------------------------------------
  // Properties of permutations

  /** Every alphabet symbol is a key of both maps. */
  predicate CoversAlphabet(p: Permutation) {
    forall c :: c in p.alphabet.chars ==> c in p.forward && c in p.backward
  }

  /** Both maps send the alphabet into itself and undo each other on it. */
  predicate IsBijection(p: Permutation) {
    && CoversAlphabet(p)
    && (forall c {:trigger p.forward[c]} :: c in p.alphabet.chars ==> p.forward[c] in p.alphabet.chars && p.backward[p.forward[c]] == c)
    && (forall c {:trigger p.backward[c]} :: c in p.alphabet.chars ==> p.backward[c] in p.alphabet.chars && p.forward[p.backward[c]] == c)
  }

  /** A bijection that is its own inverse (a plugboard or a reflector wiring). */
  predicate SelfInverse(p: Permutation) {
    IsBijection(p) && forall c {:trigger p.forward[c]} :: c in p.alphabet.chars ==> p.forward[p.forward[c]] == c
  }

  /** The symbol after position `j` of a cycle, the last wrapping to the first. */
  function Next(cyc: Str, j: int): Char16
    requires 0 <= j < |cyc|
  {
    if j + 1 < |cyc| then cyc[j + 1] else cyc[0]
  }

  predicate InSomeCycle(cs: seq<Str>, x: Char16) {
    exists k :: 0 <= k < |cs| && x in cs[k]
  }

  /** Cycles that name only alphabet symbols, repeat none, and share none. */
  predicate WellFormedCycles(cs: seq<Str>, a: Alphabet) {
    && (forall k, i :: 0 <= k < |cs| && 0 <= i < |cs[k]| ==> cs[k][i] in a.chars)
    && (forall k :: 0 <= k < |cs| ==> NoDuplicates(cs[k]))
    && (forall k1, k2, i :: 0 <= k1 < k2 < |cs| && 0 <= i < |cs[k1]| ==> cs[k1][i] !in cs[k2])
  }

  /** `p` and `q` have the same entries for key `x` in both maps. */
  predicate AgreesAt(p: Permutation, q: Permutation, x: Char16) {
    && (x in p.forward <==> x in q.forward)
    && (x in p.forward ==> p.forward[x] == q.forward[x])
    && (x in p.backward <==> x in q.backward)
    && (x in p.backward ==> p.backward[x] == q.backward[x])
  }

  // ---------------------------------------------------------------------------
  // Construction lemmas

  /** The chain links cyc[j] -> cyc[j+1] for j from i on, and touches no
      forward key outside cyc[i..|cyc|-1]. */
  lemma {:induction false} LinkChainForward(p: Permutation, cyc: Str, i: nat)
    requires NoDuplicates(cyc)
    requires i < |cyc|
    decreases |cyc| - i
    ensures var q := LinkChain(p, cyc, i);
      && q.alphabet == p.alphabet
      && (forall j :: i <= j < |cyc| - 1 ==> cyc[j] in q.forward && q.forward[cyc[j]] == cyc[j + 1])
      && (forall x :: x !in cyc[i..|cyc| - 1] ==>
            (x in q.forward <==> x in p.forward) && (x in p.forward ==> q.forward[x] == p.forward[x]))
  {
    if i + 1 < |cyc| {
      var p1 := Link(p, cyc[i], cyc[i + 1]);
      LinkChainForward(p1, cyc, i + 1);
      assert LinkChain(p, cyc, i) == LinkChain(p1, cyc, i + 1);
      assert cyc[i..|cyc| - 1] == [cyc[i]] + cyc[i + 1..|cyc| - 1];
      assert cyc[i] !in cyc[i + 1..|cyc| - 1] by {
        forall j | i + 1 <= j < |cyc| - 1 ensures cyc[j] != cyc[i] { }
      }
    }
  }

  /** The chain links cyc[j] back to cyc[j-1] for j after i, and touches no
      backward key outside cyc[i+1..]. */
  lemma {:induction false} LinkChainBackward(p: Permutation, cyc: Str, i: nat)
    requires NoDuplicates(cyc)
    requires i < |cyc|
    decreases |cyc| - i
    ensures var q := LinkChain(p, cyc, i);
      && (forall j :: i < j < |cyc| ==> cyc[j] in q.backward && q.backward[cyc[j]] == cyc[j - 1])
      && (forall x :: x !in cyc[i + 1..] ==>
            (x in q.backward <==> x in p.backward) && (x in p.backward ==> q.backward[x] == p.backward[x]))
  {
    if i + 1 < |cyc| {
      var p1 := Link(p, cyc[i], cyc[i + 1]);
      LinkChainBackward(p1, cyc, i + 1);
      assert LinkChain(p, cyc, i) == LinkChain(p1, cyc, i + 1);
      assert cyc[i + 1..] == [cyc[i + 1]] + cyc[i + 2..];
      assert cyc[i + 1] !in cyc[i + 2..] by {
        forall j | i + 2 <= j < |cyc| ensures cyc[j] != cyc[i + 1] { }
      }
    }
  }

  /** Adding a repetition-free cycle sends each of its symbols to the next one
      (and back), and leaves every other key alone. */
  lemma AddCycleSpec(p: Permutation, cyc: Str)
    requires NoDuplicates(cyc)
    ensures var q := AddCycle(p, cyc);
      && q.alphabet == p.alphabet
      && (forall j :: 0 <= j < |cyc| ==> cyc[j] in q.forward && q.forward[cyc[j]] == Next(cyc, j))
      && (forall j :: 0 <= j < |cyc| ==> Next(cyc, j) in q.backward && q.backward[Next(cyc, j)] == cyc[j])
      && (forall x :: x !in cyc ==> AgreesAt(p, q, x))
  {
    var n := |cyc|;
    if n >= 2 {
      LinkChainForward(p, cyc, 0);
      LinkChainBackward(p, cyc, 0);
      var q0 := LinkChain(p, cyc, 0);
      var q := AddCycle(p, cyc);
      assert q == Link(q0, cyc[n - 1], cyc[0]);
      forall j | 0 <= j < n
        ensures cyc[j] in q.forward && q.forward[cyc[j]] == Next(cyc, j)
        ensures Next(cyc, j) in q.backward && q.backward[Next(cyc, j)] == cyc[j]
      {
        if j < n - 1 {
          assert cyc[j] != cyc[n - 1];
          assert cyc[j + 1] != cyc[0];
        }
      }
      forall x | x !in cyc
        ensures AgreesAt(p, q, x)
      {
        assert x !in cyc[0..n - 1];
        assert x !in cyc[1..];
      }
    }
  }

  /** Adding repetition-free, pairwise disjoint cycles in order: each cycle's
      symbols go to their successors, and symbols in no cycle keep their entries. */
  lemma {:induction false} AddCyclesSpec(p: Permutation, cs: seq<Str>)
    requires forall k :: 0 <= k < |cs| ==> NoDuplicates(cs[k])
    requires forall k1, k2, i :: 0 <= k1 < k2 < |cs| && 0 <= i < |cs[k1]| ==> cs[k1][i] !in cs[k2]
    ensures var q := AddCycles(p, cs);
      && q.alphabet == p.alphabet
      && (forall k, j :: 0 <= k < |cs| && 0 <= j < |cs[k]| ==>
            cs[k][j] in q.forward && q.forward[cs[k][j]] == Next(cs[k], j) &&
            Next(cs[k], j) in q.backward && q.backward[Next(cs[k], j)] == cs[k][j])
      && (forall x :: !InSomeCycle(cs, x) ==> AgreesAt(p, q, x))
    decreases |cs|
  {
    if |cs| > 0 {
      var p1 := AddCycle(p, cs[0]);
      AddCycleSpec(p, cs[0]);
      var rest := cs[1..];
      AddCyclesSpec(p1, rest);
      var q := AddCycles(p, cs);
      assert q == AddCycles(p1, rest);
      forall k, j | 0 <= k < |cs| && 0 <= j < |cs[k]|
        ensures cs[k][j] in q.forward && q.forward[cs[k][j]] == Next(cs[k], j)
        ensures Next(cs[k], j) in q.backward && q.backward[Next(cs[k], j)] == cs[k][j]
      {
        if k == 0 {
          assert !InSomeCycle(rest, cs[0][j]) by {
            forall t | 0 <= t < |rest| ensures cs[0][j] !in rest[t] {
              assert rest[t] == cs[t + 1];
            }
          }
          var nx := Next(cs[0], j);
          assert !InSomeCycle(rest, nx) by {
            forall t | 0 <= t < |rest| ensures nx !in rest[t] {
              assert rest[t] == cs[t + 1];
            }
          }
          assert AgreesAt(p1, q, cs[0][j]);
          assert AgreesAt(p1, q, nx);
        } else {
          assert cs[k] == rest[k - 1];
        }
      }
      forall x | !InSomeCycle(cs, x)
        ensures AgreesAt(p, q, x)
      {
        assert x !in cs[0];
        assert !InSomeCycle(rest, x) by {
          forall t | 0 <= t < |rest| ensures x !in rest[t] {
            assert rest[t] == cs[t + 1];
          }
        }
        assert AgreesAt(p, p1, x);
        assert AgreesAt(p1, q, x);
      }
    }
  }

  /** Whatever the cycle string, the construction keeps the alphabet (so
      `size()` is the alphabet size) and keeps every alphabet symbol a key. */
  lemma {:induction false} AddCyclesCovers(p: Permutation, cs: seq<Str>)
    requires CoversAlphabet(p)
    ensures AddCycles(p, cs).alphabet == p.alphabet
    ensures CoversAlphabet(AddCycles(p, cs))
    decreases |cs|
  {
    if |cs| > 0 {
      var p1 := AddCycle(p, cs[0]);
      if |cs[0]| >= 2 {
        LinkChainCovers(p, cs[0], 0);
      }
      AddCyclesCovers(p1, cs[1..]);
    }
  }

  lemma {:induction false} LinkChainCovers(p: Permutation, cyc: Str, i: nat)
    ensures LinkChain(p, cyc, i).alphabet == p.alphabet
    ensures p.forward.Keys <= LinkChain(p, cyc, i).forward.Keys
    ensures p.backward.Keys <= LinkChain(p, cyc, i).backward.Keys
    decreases |cyc| - i
  {
    if i + 1 < |cyc| {
      LinkChainCovers(Link(p, cyc[i], cyc[i + 1]), cyc, i + 1);
    }
  }

  /** For well-formed cycles, the constructed permutation sends each cycle
      symbol to its successor (the last to the first), inverts that, and fixes
      every alphabet symbol that is in no cycle. */
  lemma FromCyclesFollowsCycles(s: Str, a: Alphabet)
    requires WellFormedCycles(Cycles(s), a)
    ensures var p := FromCycles(s, a); var cs := Cycles(s);
      && (forall k, j :: 0 <= k < |cs| && 0 <= j < |cs[k]| ==>
            PermuteChar(p, cs[k][j]) == Success(Next(cs[k], j)) &&
            InvertChar(p, Next(cs[k], j)) == Success(cs[k][j]))
      && (forall c :: c in a.chars && !InSomeCycle(cs, c) ==>
            PermuteChar(p, c) == Success(c) && InvertChar(p, c) == Success(c))
  {
    var cs := Cycles(s);
    AddCyclesSpec(Identity(a), cs);
    var p := FromCycles(s, a);
    forall c | c in a.chars && !InSomeCycle(cs, c)
      ensures PermuteChar(p, c) == Success(c) && InvertChar(p, c) == Success(c)
    {
      assert AgreesAt(Identity(a), p, c);
    }
  }

  /** The position before `j` in a cycle, the first wrapping to the last. */
  function Prev(cyc: Str, j: int): (r: int)
    requires 0 <= j < |cyc|
    ensures 0 <= r < |cyc| && Next(cyc, r) == cyc[j]
  {
    if j == 0 then |cyc| - 1 else j - 1
  }

  /** Symbol j of cycle k goes to its successor and comes from its
      predecessor, and both neighbours map back to it. */
  lemma CycleSymbolAt(cs: seq<Str>, a: Alphabet, k: int, j: int)
    requires WellFormedCycles(cs, a)
    requires 0 <= k < |cs| && 0 <= j < |cs[k]|
    ensures var p := AddCycles(Identity(a), cs); var c := cs[k][j];
      var nx := Next(cs[k], j); var pv := cs[k][Prev(cs[k], j)];
      && c in p.forward && p.forward[c] == nx && nx in a.chars
      && c in p.backward && p.backward[c] == pv && pv in a.chars
      && nx in p.backward && p.backward[nx] == c
      && pv in p.forward && p.forward[pv] == c
  {
    AddCyclesSpec(Identity(a), cs);
    var jp := Prev(cs[k], j);
    assert Next(cs[k], jp) == cs[k][j];
  }

  /** An alphabet symbol in no cycle keeps its identity entries. */
  lemma FreeSymbolAt(cs: seq<Str>, a: Alphabet, c: Char16)
    requires WellFormedCycles(cs, a)
    requires c in a.chars && !InSomeCycle(cs, c)
    ensures var p := AddCycles(Identity(a), cs);
      c in p.forward && p.forward[c] == c && c in p.backward && p.backward[c] == c
  {
    AddCyclesSpec(Identity(a), cs);
    assert AgreesAt(Identity(a), AddCycles(Identity(a), cs), c);
  }

  /** For well-formed cycles the result is a bijection of the alphabet:
      `invert(permute(c)) == c` and `permute(invert(c)) == c` for every symbol. */
  lemma FromCyclesIsBijection(s: Str, a: Alphabet)
    requires WellFormedCycles(Cycles(s), a)
    ensures IsBijection(FromCycles(s, a))
  {
    var cs := Cycles(s);
    var p := FromCycles(s, a);
    forall c | c in a.chars
      ensures p.forward[c] in a.chars && p.backward[c] in a.chars
      ensures p.backward[p.forward[c]] == c && p.forward[p.backward[c]] == c
    {
      if InSomeCycle(cs, c) {
        var k :| 0 <= k < |cs| && c in cs[k];
        var j :| 0 <= j < |cs[k]| && cs[k][j] == c;
        CycleSymbolAt(cs, a, k, j);
      } else {
        FreeSymbolAt(cs, a, c);
      }
    }
  }

  /** Cycles of at most two symbols (the swaps of a plugboard or a reflector
      wiring) build a permutation that is its own inverse. */
  lemma PairCyclesSelfInverse(s: Str, a: Alphabet)
    requires WellFormedCycles(Cycles(s), a)
    requires forall k :: 0 <= k < |Cycles(s)| ==> |Cycles(s)[k]| <= 2
    ensures SelfInverse(FromCycles(s, a))
  {
    FromCyclesIsBijection(s, a);
    PairCyclesSwap(Cycles(s), a);
  }

  /** `PairCyclesSelfInverse` for a list of cycles already split out: every
      alphabet symbol goes back to itself in two forward steps. */
  lemma PairCyclesSwap(cs: seq<Str>, a: Alphabet)
    requires WellFormedCycles(cs, a)
    requires forall k :: 0 <= k < |cs| ==> |cs[k]| <= 2
    ensures var p := AddCycles(Identity(a), cs);
      forall c :: c in a.chars ==> c in p.forward && p.forward[c] in p.forward && p.forward[p.forward[c]] == c
  {
    forall c | c in a.chars
      ensures var p := AddCycles(Identity(a), cs);
        c in p.forward && p.forward[c] in p.forward && p.forward[p.forward[c]] == c
    {
      PairSymbolSwap(cs, a, c);
    }
  }

  /** One symbol of `PairCyclesSwap`. */
  lemma PairSymbolSwap(cs: seq<Str>, a: Alphabet, c: Char16)
    requires WellFormedCycles(cs, a)
    requires forall k :: 0 <= k < |cs| ==> |cs[k]| <= 2
    requires c in a.chars
    ensures var p := AddCycles(Identity(a), cs);
      c in p.forward && p.forward[c] in p.forward && p.forward[p.forward[c]] == c
  {
    if InSomeCycle(cs, c) {
      var k :| 0 <= k < |cs| && c in cs[k];
      var j :| 0 <= j < |cs[k]| && cs[k][j] == c;
      CycleSymbolAt(cs, a, k, j);
      assert cs[k][Prev(cs[k], j)] == Next(cs[k], j);
    } else {
      FreeSymbolAt(cs, a, c);
    }
  }

  /** A one-symbol cycle changes nothing: "(A)" is the identity. */
  lemma SingletonCycleIsNoOp(p: Permutation, c: Char16)
    requires c in p.forward && p.forward[c] == c && c in p.backward && p.backward[c] == c
    ensures AddCycle(p, [c]) == p
  {
  }

  // ---------------------------------------------------------------------------
  // Index forms

  /** The index overloads read the index modulo the size, so shifting by the
      size changes nothing (for `permute` and `invert` alike, errors included). */
  lemma IndexPeriodic(p: Permutation, i: int)
    ensures PermuteIndex(p, i + Size(p)) == PermuteIndex(p, i)
    ensures InvertIndex(p, i + Size(p)) == InvertIndex(p, i)
  {
    if Size(p) > 0 {
      var n := Size(p);
      assert Wrap(n, i + n) == Wrap(n, i) by {
        WrapIsModulo(n, i);
        WrapIsModulo(n, i + n);
        ModAddMultiple(i, 1, n);
      }
    }
  }

  /** On a bijection over an alphabet without repeated symbols, the index
      overloads succeed and undo each other: `invert(permute(i)) == wrap(i)`
      and `permute(invert(i)) == wrap(i)`. */
  lemma IndexRoundTrip(p: Permutation, i: int)
    requires IsBijection(p) && NoDuplicates(p.alphabet.chars) && Size(p) > 0
    ensures PermuteIndex(p, i).Success? && InvertIndex(p, PermuteIndex(p, i).value) == Success(Wrap(Size(p), i))
    ensures InvertIndex(p, i).Success? && PermuteIndex(p, InvertIndex(p, i).value) == Success(Wrap(Size(p), i))
  {
    var a := p.alphabet;
    var n := Size(p);
    var w := Wrap(n, i);
    var c := a.chars[w];
    var f := p.forward[c];
    var fi := ToInt(a, f).value;
    assert PermuteIndex(p, i) == Success(fi);
    assert Wrap(n, fi) == fi;
    ToIntOfToChar(a, w);
    var b := p.backward[c];
    var bi := ToInt(a, b).value;
    assert InvertIndex(p, i) == Success(bi);
    assert Wrap(n, bi) == bi;
  }

  /** The symbol form and the index form agree: on a bijection, `permute(i)`
      is the index of the image of the i-th symbol. */
  lemma IndexMatchesChar(p: Permutation, i: int)
    requires IsBijection(p) && NoDuplicates(p.alphabet.chars) && 0 <= i < Size(p)
    ensures PermuteIndex(p, i).Success?
    ensures p.alphabet.chars[PermuteIndex(p, i).value] == p.forward[p.alphabet.chars[i]]
    ensures InvertIndex(p, i).Success?
    ensures p.alphabet.chars[InvertIndex(p, i).value] == p.backward[p.alphabet.chars[i]]
  {
    assert Wrap(Size(p), i) == i;
  }

  /** A self-inverse permutation's index form is an involution on `[0, size)`. */
  lemma SelfInverseIndex(p: Permutation, i: int)
    requires SelfInverse(p) && NoDuplicates(p.alphabet.chars) && 0 <= i < Size(p)
    ensures PermuteIndex(p, i).Success?
    ensures PermuteIndex(p, PermuteIndex(p, i).value) == Success(i)
  {
    var a := p.alphabet;
    var n := Size(p);
    assert Wrap(n, i) == i;
    var c := a.chars[i];
    var j := PermuteIndex(p, i).value;
    assert a.chars[j] == p.forward[c];
    assert Wrap(n, j) == j;
    assert p.forward[a.chars[j]] == c;
    ToIntOfToChar(a, i);
  }

  // ---------------------------------------------------------------------------
  // derangement()

  /** Every alphabet symbol is fixed by both maps. */
  predicate AllFixed(p: Permutation)
    requires CoversAlphabet(p)
  {
    forall i :: 0 <= i < Size(p) ==>
      p.forward[p.alphabet.chars[i]] == p.alphabet.chars[i] && p.backward[p.alphabet.chars[i]] == p.alphabet.chars[i]
  }

  /** No alphabet symbol is fixed by either map: what "derangement" means. */
  predicate NoFixedPoint(p: Permutation)
    requires CoversAlphabet(p)
  {
    forall i :: 0 <= i < Size(p) ==>
      p.forward[p.alphabet.chars[i]] != p.alphabet.chars[i] && p.backward[p.alphabet.chars[i]] != p.alphabet.chars[i]
  }

  /** `derangement()` as the source codes it: it returns false at the first
      symbol that either map moves, so it holds exactly when the permutation
      is the identity on the alphabet. */
  method Derangement(p: Permutation) returns (b: bool)
    requires CoversAlphabet(p)
    ensures b <==> AllFixed(p)
  {
    var i := 0;
    while i < |p.alphabet.chars|
      invariant 0 <= i <= |p.alphabet.chars|
      invariant forall j :: 0 <= j < i ==>
        p.forward[p.alphabet.chars[j]] == p.alphabet.chars[j] && p.backward[p.alphabet.chars[j]] == p.alphabet.chars[j]
    {
      var c := p.alphabet.chars[i];
      if p.forward[c] != c || p.backward[c] != c {
        return false;
      }
      i := i + 1;
    }
    return true;
  }

  /** The derangement test the documentation describes: false at the first
      symbol that either map fixes. */
  method IsDerangement(p: Permutation) returns (b: bool)
    requires CoversAlphabet(p)
    ensures b <==> NoFixedPoint(p)
  {
    var i := 0;
    while i < |p.alphabet.chars|
      invariant 0 <= i <= |p.alphabet.chars|
      invariant forall j :: 0 <= j < i ==>
        p.forward[p.alphabet.chars[j]] != p.alphabet.chars[j] && p.backward[p.alphabet.chars[j]] != p.alphabet.chars[j]
    {
      var c := p.alphabet.chars[i];
      if p.forward[c] == c || p.backward[c] == c {
        return false;
      }
      i := i + 1;
    }
    return true;
  }

  /** The two-symbol cycle (c c+1) over the alphabet c..c+1, such as (AB)
      over A-B, swaps the two symbols, so it fixes nothing; yet
      `derangement()` as coded answers false for it, and the documented test
      answers true. */
  method DerangementCounterexample(c: Char16) returns (asWritten: bool, corrected: bool)
    requires c < 0xFFFF
    ensures !asWritten && corrected
  {
    var d: Char16 := c + 1;
    var a := FromRange(c, d);
    assert a.chars == [c, d];
    var id := Identity(a);
    assert c in id.forward && d in id.backward;
    assert LinkChain(id, [c, d], 0) == Link(id, c, d);
    var p := AddCycle(id, [c, d]);
    assert p == Link(Link(id, c, d), d, c);
    assert p.forward[c] == d && p.forward[d] == c;
    assert p.backward[c] == d && p.backward[d] == c;
    assert CoversAlphabet(p);
    asWritten := Derangement(p);
    corrected := IsDerangement(p);
  }

  /** A symbol lies in a cycle of two or more symbols. */
  predicate InLongCycle(cs: seq<Str>, c: Char16) {
    exists k :: 0 <= k < |cs| && c in cs[k] && |cs[k]| >= 2
  }

  /** For well-formed cycles, an alphabet symbol is moved by both maps when it
      lies in a cycle of two or more symbols, and fixed by both otherwise. */
  lemma MovedIffInLongCycle(s: Str, a: Alphabet, c: Char16)
    requires WellFormedCycles(Cycles(s), a)
    requires c in a.chars
    ensures FromCycles(s, a).alphabet == a
    ensures CoversAlphabet(FromCycles(s, a))
    ensures var p := FromCycles(s, a);
      InLongCycle(Cycles(s), c) ==> p.forward[c] != c && p.backward[c] != c
    ensures var p := FromCycles(s, a);
      !InLongCycle(Cycles(s), c) ==> p.forward[c] == c && p.backward[c] == c
  {
    MovedIffInLongCycleOf(Cycles(s), a, c);
  }

  /** `MovedIffInLongCycle` for a list of cycles already split out. */
  lemma MovedIffInLongCycleOf(cs: seq<Str>, a: Alphabet, c: Char16)
    requires WellFormedCycles(cs, a)
    requires c in a.chars
    ensures var p := AddCycles(Identity(a), cs);
      c in p.forward && c in p.backward &&
      (InLongCycle(cs, c) <==> p.forward[c] != c && p.backward[c] != c) &&
      (!InLongCycle(cs, c) ==> p.forward[c] == c && p.backward[c] == c)
  {
    if InSomeCycle(cs, c) {
      var k :| 0 <= k < |cs| && c in cs[k];
      var j :| 0 <= j < |cs[k]| && cs[k][j] == c;
      CycleSymbolAt(cs, a, k, j);
      if |cs[k]| >= 2 {
        assert Next(cs[k], j) != c;
        assert cs[k][Prev(cs[k], j)] != c;
      } else {
        forall k2 | 0 <= k2 < |cs| && c in cs[k2]
          ensures k2 == k
        {
        }
      }
    } else {
      FreeSymbolAt(cs, a, c);
    }
  }

  /** For well-formed cycles, the permutation has no fixed point exactly when
      every alphabet symbol lies in a cycle of two or more symbols. */
  lemma NoFixedPointIffCovered(s: Str, a: Alphabet)
    requires WellFormedCycles(Cycles(s), a)
    ensures CoversAlphabet(FromCycles(s, a))
    ensures NoFixedPoint(FromCycles(s, a)) <==> forall c :: c in a.chars ==> InLongCycle(Cycles(s), c)
  {
    var p := FromCycles(s, a);
    forall c | c in a.chars
      ensures InLongCycle(Cycles(s), c) <==> p.forward[c] != c && p.backward[c] != c
    {
      MovedIffInLongCycle(s, a, c);
    }
  }
}
