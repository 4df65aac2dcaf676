/** Characters and strings as the simulator sees them.

    The source works on Java `char` values, which are 16-bit UTF-16 code units,
    so a symbol here is an integer in 0..0xFFFF rather than a Dafny `char`
    (a Dafny `char` skips the surrogate range that a Java character range may
    cross). Strings are sequences of such symbols.
 */
module Text {

  /** A 16-bit code unit: the range of Java's `char`. */
  type Char16 = c: int | 0 <= c < 0x1_0000

  /** A Java string. */
  type Str = seq<Char16>

  const Space: Char16 := 0x20

  /** The characters Java's regular-expression class `\s` matches:
      space, tab, newline, vertical tab, form feed and carriage return. */
  predicate IsSpace(c: Char16) {
    c == 0x20 || c == 0x09 || c == 0x0A || c == 0x0B || c == 0x0C || c == 0x0D
  }

  /** Characters that `String.trim()` removes: everything up to and including U+0020. */
  predicate IsTrimmable(c: Char16) {
    c <= 0x20
  }

  /** ASCII lower-case letters, the class `[a-z]`. */
  predicate IsLower(c: Char16) {
    'a' as int <= c <= 'z' as int
  }

  /** Upper-casing of one character, for the ASCII letters only. */
  function UpperChar(c: Char16): (u: Char16)
    ensures IsLower(c) ==> u == c - 32
    ensures !IsLower(c) ==> u == c
    ensures !IsLower(u)
  {
    if IsLower(c) then c - 32 else c
  }

  /** `String.toUpperCase()`, restricted to ASCII case mapping. */
  function UpperCase(s: Str): (u: Str)
    ensures |u| == |s|
    ensures forall i :: 0 <= i < |s| ==> u[i] == UpperChar(s[i])
  {
    seq(|s|, i requires 0 <= i < |s| => UpperChar(s[i]))
  }

  /** `s.replaceAll(" ", "")`: every U+0020 removed, everything else kept in order. */
  function RemoveSpaces(s: Str): (r: Str)
    ensures |r| <= |s|
    ensures forall i :: 0 <= i < |r| ==> r[i] != Space
    ensures Space !in s ==> r == s
  {
    if |s| == 0 then []
    else if s[0] == Space then RemoveSpaces(s[1..])
    else [s[0]] + RemoveSpaces(s[1..])
  }

  /** The symbols of a Dafny string literal as Java characters (all literals used
      in this model are ASCII). */
  function FromLiteral(s: string): (r: Str)
    requires forall i :: 0 <= i < |s| ==> s[i] as int < 0x1_0000
    ensures |r| == |s|
    ensures forall i :: 0 <= i < |s| ==> r[i] == s[i] as int
  {
    seq(|s|, i requires 0 <= i < |s| => s[i] as int)
  }

  /** No symbol occurs twice. */
  predicate NoDuplicates<T(==)>(s: seq<T>) {
    forall i, j :: 0 <= i < j < |s| ==> s[i] != s[j]
  }

  /** Text without spaces and lower-case letters is left as it is by removing
      spaces and upper-casing. */
  lemma CleanTextUnchanged(s: Str)
    requires forall i :: 0 <= i < |s| ==> !IsLower(s[i]) && s[i] != Space
    ensures UpperCase(RemoveSpaces(s)) == s
  {
    assert Space !in s;
  }

  /** A non-empty sequence is its head followed by its tail. */
  lemma HeadTail<T>(s: seq<T>)
    requires |s| > 0
    ensures [s[0]] + s[1..] == s
  {
  }
}
