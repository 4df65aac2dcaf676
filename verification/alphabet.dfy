/** Alphabets: an ordered string of symbols with the maps between symbols and
    their positions (the source's `CharacterRange`). */
module Alphabets {
  import opened Errors
  import opened Text

  /** The symbols of the alphabet, in order; position i is index i. */
  datatype Alphabet = Alphabet(chars: Str)

  /** Characters the explicit-string constructor refuses: the class
      `[a-z()\-*\s]` (lower case, cycle punctuation, `-`, `*`, whitespace). */
  predicate Reserved(c: Char16) {
    IsLower(c) || c == '(' as int || c == ')' as int || c == '-' as int || c == '*' as int || IsSpace(c)
  }

  /** `s.replaceAll("[a-z()\\-*\\s]", "")`. */
  function DropReserved(s: Str): (r: Str)
    ensures |r| <= |s|
    ensures forall i :: 0 <= i < |r| ==> !Reserved(r[i])
    ensures (forall i :: 0 <= i < |s| ==> !Reserved(s[i])) ==> r == s
  {
    if |s| == 0 then []
    else if Reserved(s[0]) then DropReserved(s[1..])
    else [s[0]] + DropReserved(s[1..])
  }

  /** The filtered string is shorter exactly when some character is reserved. */
  lemma {:induction false} DropReservedShorter(s: Str)
    ensures |DropReserved(s)| < |s| <==> exists i :: 0 <= i < |s| && Reserved(s[i])
  {
    if |s| > 0 {
      DropReservedShorter(s[1..]);
      if Reserved(s[0]) {
        assert Reserved(s[0 + 0]);
      } else {
        if exists i :: 0 <= i < |s| && Reserved(s[i]) {
          var i :| 0 <= i < |s| && Reserved(s[i]);
          assert i > 0 && Reserved(s[1..][i - 1]);
        }
        if exists i :: 0 <= i < |s[1..]| && Reserved(s[1..][i]) {
          var i :| 0 <= i < |s[1..]| && Reserved(s[1..][i]);
          assert Reserved(s[i + 1]);
        }
      }
    }
  }

  /** `CharacterRange(first, last)`: every character from `first` to `last`
      inclusive, in increasing order (empty when `last < first`). */
  function FromRange(first: Char16, last: Char16): (a: Alphabet)
    ensures forall c: Char16 :: c in a.chars <==> first <= c <= last
    ensures forall i, j :: 0 <= i < j < |a.chars| ==> a.chars[i] < a.chars[j]
  {
    var cs := seq(if last < first then 0 else last - first + 1, i => first + i);
    ConsecutiveMembers(cs, first);
    Alphabet(cs)
  }

  /** A run of consecutive characters holds every character between its ends. */
  lemma ConsecutiveMembers(cs: seq<int>, first: int)
    requires forall i :: 0 <= i < |cs| ==> cs[i] == first + i
    ensures forall c :: first <= c < first + |cs| ==> c in cs
  {
    forall c | first <= c < first + |cs| ensures c in cs {
      assert cs[c - first] == c;
    }
  }

  /** `CharacterRange(s)`: the symbols of `s`, refused when `s` is empty or
      contains a reserved character. Duplicates are not checked. */
  function FromString(s: Str): (r: Result<Alphabet>)
    ensures r.Success? <==> |s| > 0 && forall i :: 0 <= i < |s| ==> !Reserved(s[i])
    ensures r.Success? ==> r.value.chars == s
    ensures |s| == 0 ==> r == Failure(EmptyAlphabet)
    ensures |s| > 0 && (exists i :: 0 <= i < |s| && Reserved(s[i])) ==> r == Failure(BadAlphabetChars)
  {
    DropReservedShorter(s);
    if |s| == 0 then Failure(EmptyAlphabet)
    else if |s| != |DropReserved(s)| then Failure(BadAlphabetChars)
    else Success(Alphabet(s))
  }

  /** `String.indexOf`: the first position of `c` in `s`, or -1. */
  function IndexOf(s: Str, c: Char16): (r: int)
    ensures -1 <= r < |s|
    ensures r == -1 <==> c !in s
    ensures r >= 0 ==> s[r] == c && forall j :: 0 <= j < r ==> s[j] != c
  {
    if |s| == 0 then -1
    else if s[0] == c then 0
    else
      var k := IndexOf(s[1..], c);
      if k == -1 then -1 else k + 1
  }

  function Size(a: Alphabet): nat {
    |a.chars|
  }

  /** Every symbol of `s` is a symbol of `a`. */
  predicate AllIn(s: Str, a: Alphabet) {
    forall i :: 0 <= i < |s| ==> s[i] in a.chars
  }

  /** `contains`: whether `c` is one of the symbols. */
  predicate Contains(a: Alphabet, c: Char16): (b: bool)
    ensures b <==> c in a.chars
  {
    IndexOf(a.chars, c) != -1
  }

  /** `toChar`: the symbol at `index`, failing outside `[0, size)`. */
  function ToChar(a: Alphabet, index: int): (r: Result<Char16>)
    ensures r.Success? <==> 0 <= index < Size(a)
    ensures r.Success? ==> r.value == a.chars[index]
    ensures r.Failure? ==> r.error == IndexOutOfRange
  {
    if index < 0 || index >= |a.chars| then Failure(IndexOutOfRange)
    else Success(a.chars[index])
  }

  /** `toInt`: the first index of `c`, failing when `c` is absent. */
  function ToInt(a: Alphabet, c: Char16): (r: Result<int>)
    ensures r.Success? <==> c in a.chars
    ensures r.Success? ==> 0 <= r.value < Size(a) && a.chars[r.value] == c
    ensures r.Success? ==> forall j :: 0 <= j < r.value ==> a.chars[j] != c
    ensures r.Failure? ==> r.error == NotInAlphabet
  {
    if IndexOf(a.chars, c) == -1 then Failure(NotInAlphabet)
    else Success(IndexOf(a.chars, c))
  }

  /** `contains` agrees with `toInt`: exactly the symbols `toInt` accepts. */
  lemma ContainsIffToInt(a: Alphabet, c: Char16)
    ensures Contains(a, c) <==> ToInt(a, c).Success?
    ensures Contains(a, c) <==> c in a.chars
  {
  }

  /** A range alphabet has `last - first + 1` symbols (none when `last < first`),
      its i-th symbol is `first + i`, it has no repeated symbol, and `toInt`
      of a symbol in the range is its distance from `first`. */
  lemma RangeAlphabet(first: Char16, last: Char16)
    ensures Size(FromRange(first, last)) == if last < first then 0 else last - first + 1
    ensures forall i :: 0 <= i < Size(FromRange(first, last)) ==>
              ToChar(FromRange(first, last), i) == Success(first + i)
    ensures NoDuplicates(FromRange(first, last).chars)
    ensures forall c: Char16 :: ToInt(FromRange(first, last), c) ==
              if first <= c <= last then Success(c - first) else Failure(NotInAlphabet)
  {
    var a := FromRange(first, last);
    forall c: Char16
      ensures ToInt(a, c) == if first <= c <= last then Success(c - first) else Failure(NotInAlphabet)
    {
      if first <= c <= last {
        assert a.chars[c - first] == c;
      } else {
        assert c !in a.chars;
      }
    }
  }

  /** `toChar` undoes `toInt` for every symbol of the alphabet. */
  lemma ToCharOfToInt(a: Alphabet, c: Char16)
    requires Contains(a, c)
    ensures ToInt(a, c).Success? && ToChar(a, ToInt(a, c).value) == Success(c)
  {
  }

  /** `toInt` undoes `toChar` at every in-range index, provided no symbol repeats. */
  lemma ToIntOfToChar(a: Alphabet, i: int)
    requires NoDuplicates(a.chars)
    requires 0 <= i < Size(a)
    ensures ToChar(a, i).Success? && ToInt(a, ToChar(a, i).value) == Success(i)
  {
  }

  /** Without that proviso the round trip fails: `CharacterRange("AA")` is
      accepted, and `toInt(toChar(1))` is 0. */
  lemma RepeatedSymbolBreaksRoundTrip()
    ensures FromString(FromLiteral("AA")).Success?
    ensures var a := FromString(FromLiteral("AA")).value;
            ToChar(a, 1) == Success('A' as int) && ToInt(a, 'A' as int) == Success(0)
  {
    var s := FromLiteral("AA");
    assert !Reserved(s[0]) && !Reserved(s[1]);
    assert forall i :: 0 <= i < |s| ==> !Reserved(s[i]);
  }
}
