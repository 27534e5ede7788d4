/** Character classes and string helpers behind the Python built-ins the post
    formatter relies on: `str.lower`, `str.capitalize`, `str.strip`, the regular
    expression class `\w`, `str.rfind`, the `in` operator on strings,
    `" ".join` and the decimal rendering of an `int` inside an f-string. */
module Strings {

  predicate IsUpper(c: char) { 'A' <= c <= 'Z' }

  predicate IsLower(c: char) { 'a' <= c <= 'z' }

  predicate IsDigit(c: char) { '0' <= c <= '9' }

  predicate HasNoUpper(s: string) { forall i :: 0 <= i < |s| ==> !IsUpper(s[i]) }

  /** Python's `\w`, restricted to ASCII: letters, digits and the underscore. */
  predicate IsWordChar(c: char) { IsUpper(c) || IsLower(c) || IsDigit(c) || c == '_' }

  /** Python's `str.isspace`, which is what `str.strip()` removes. */
  predicate IsSpace(c: char)
  {
    ('\t' <= c <= '\r') || ('\U{1C}' <= c <= ' ') || c == '\U{85}' || c == '\U{A0}'
    || c == '\U{1680}' || ('\U{2000}' <= c <= '\U{200A}') || c == '\U{2028}' || c == '\U{2029}'
    || c == '\U{202F}' || c == '\U{205F}' || c == '\U{3000}'
  }

  /** An upper-case letter becomes the lower-case letter at the same place in
      the alphabet; every other character is kept. */
  function LowerChar(c: char): (r: char)
    ensures !IsUpper(r)
    ensures IsWordChar(r) == IsWordChar(c)
    ensures IsUpper(c) ==> IsLower(r) && r as int - 'a' as int == c as int - 'A' as int
    ensures !IsUpper(c) ==> r == c
  {
    if IsUpper(c) then (c as int + 32) as char else c
  }

  /** A lower-case letter becomes the upper-case letter at the same place in
      the alphabet; every other character is kept. */
  function UpperChar(c: char): (r: char)
    ensures !IsLower(r)
    ensures IsWordChar(r) == IsWordChar(c)
    ensures IsLower(c) ==> IsUpper(r) && r as int - 'A' as int == c as int - 'a' as int
    ensures !IsLower(c) ==> r == c
    ensures LowerChar(r) == LowerChar(c)
  {
    if IsLower(c) then (c as int - 32) as char else c
  }

  /** `str.lower()` on ASCII letters: each character goes through `LowerChar`. */
  function Lower(s: string): (r: string)
    ensures |r| == |s|
    ensures forall i :: 0 <= i < |s| ==> r[i] == LowerChar(s[i])
  {
    if s == [] then [] else [LowerChar(s[0])] + Lower(s[1..])
  }

  /** Lower-casing leaves no upper-case letter, keeps the word characters where
      they were, maps each upper-case letter to its lower-case partner and keeps
      text that has no upper-case letter as it is. */
  lemma LowerSpec(s: string)
    ensures var r := Lower(s);
              HasNoUpper(r)
              && (forall i :: 0 <= i < |s| ==> IsWordChar(r[i]) == IsWordChar(s[i]))
              && (forall i :: 0 <= i < |s| && IsUpper(s[i]) ==>
                    IsLower(r[i]) && r[i] as int - 'a' as int == s[i] as int - 'A' as int)
              && (forall i :: 0 <= i < |s| && !IsUpper(s[i]) ==> r[i] == s[i])
              && (HasNoUpper(s) ==> r == s)
  {
    var r := Lower(s);
    if HasNoUpper(s) {
      assert forall i :: 0 <= i < |s| ==> r[i] == s[i];
    }
  }

  /** `str.capitalize()`: the first character upper-cased, the rest lower-cased. */
  function Capitalize(w: string): (r: string)
    ensures |r| == |w|
    ensures w != [] ==> !IsLower(r[0])
    ensures forall i :: 1 <= i < |r| ==> !IsUpper(r[i])
  {
    seq(|w|, i requires 0 <= i < |w| => if i == 0 then UpperChar(w[0]) else LowerChar(w[i]))
  }

  /** Capitalizing a word does not change what it lower-cases to. */
  lemma CapitalizeLower(w: string)
    ensures Lower(Capitalize(w)) == Lower(w)
  {
    var c, l := Lower(Capitalize(w)), Lower(w);
    assert forall i :: 0 <= i < |w| ==> c[i] == l[i];
  }

  /** `s.rfind(c)`: the index of the last occurrence of `c`, or -1 when there is none. */
  function RFind(s: string, c: char): (r: int)
    ensures -1 <= r < |s|
    ensures r >= 0 ==> s[r] == c
    ensures forall j :: r < j < |s| ==> s[j] != c
  {
    if s == [] then -1
    else if s[|s| - 1] == c then |s| - 1
    else RFind(s[..|s| - 1], c)
  }

  /** Python's `key in s` on strings: `key` occurs as a contiguous piece of `s`. */
  predicate Contains(s: string, key: string)
  {
    key <= s || (s != [] && Contains(s[1..], key))
  }

  lemma {:induction false} ContainsAt(s: string, key: string, i: nat)
    requires i + |key| <= |s| && s[i..i + |key|] == key
    ensures Contains(s, key)
  {
    if i > 0 {
      assert s[1..][i - 1..i - 1 + |key|] == s[i..i + |key|];
      ContainsAt(s[1..], key, i - 1);
    } else {
      assert key == s[..|key|];
    }
  }

  lemma {:induction false} ContainsWitness(s: string, key: string) returns (i: nat)
    requires Contains(s, key)
    ensures i + |key| <= |s| && s[i..i + |key|] == key
  {
    if key <= s {
      i := 0;
    } else {
      var j := ContainsWitness(s[1..], key);
      assert s[1..][j..j + |key|] == s[j + 1..j + 1 + |key|];
      i := j + 1;
    }
  }

  /** How many white-space characters `s` starts with. */
  function LeadingSpaces(s: string): (n: nat)
    ensures n <= |s|
    ensures forall i :: 0 <= i < n ==> IsSpace(s[i])
    ensures n < |s| ==> !IsSpace(s[n])
  {
    if s != [] && IsSpace(s[0]) then 1 + LeadingSpaces(s[1..]) else 0
  }

  /** Where the run of white space that `s` ends with begins. */
  function TrailingStart(s: string): (n: nat)
    ensures n <= |s|
    ensures forall i :: n <= i < |s| ==> IsSpace(s[i])
    ensures 0 < n ==> !IsSpace(s[n - 1])
  {
    if s != [] && IsSpace(s[|s| - 1]) then TrailingStart(s[..|s| - 1]) else |s|
  }

  /** `str.lstrip()` */
  function TrimStart(s: string): string
  {
    s[LeadingSpaces(s)..]
  }

  /** `str.rstrip()` */
  function TrimEnd(s: string): string
  {
    s[..TrailingStart(s)]
  }

  /** `str.strip()` */
  function Strip(s: string): (r: string)
    ensures |r| <= |s|
    ensures r != [] ==> !IsSpace(r[0]) && !IsSpace(r[|r| - 1])
  {
    TrimEnd(TrimStart(s))
  }

  /** What `str.strip()` keeps is a contiguous piece of its input, and all it
      drops at either end is white space. */
  lemma StripInfix(s: string)
    ensures var a, r := LeadingSpaces(s), Strip(s);
              a + |r| <= |s| && r == s[a..a + |r|]
              && (forall i :: 0 <= i < a ==> IsSpace(s[i]))
              && (forall i :: a + |r| <= i < |s| ==> IsSpace(s[i]))
  {
    var a := LeadingSpaces(s);
    InfixOfSuffix(s, s[a..], Strip(s), a);
  }

  /** A prefix `r` of a suffix `t` of `s` is a slice of `s`, and whatever
      follows `r` in `t` is what follows it in `s`. */
  lemma InfixOfSuffix(s: string, t: string, r: string, a: nat)
    requires a + |t| == |s| && t == s[a..]
    requires |r| <= |t| && r == t[..|r|]
    requires forall i :: |r| <= i < |t| ==> IsSpace(t[i])
    ensures r == s[a..a + |r|]
    ensures forall i :: a + |r| <= i < |s| ==> IsSpace(s[i])
  {
    forall i | a + |r| <= i < |s|
      ensures IsSpace(s[i])
    {
      assert s[i] == t[i - a];
    }
  }

  function DigitChar(d: nat): (c: char)
    requires d < 10
    ensures IsDigit(c)
  {
    "0123456789"[d]
  }

  function DigitValue(c: char): nat
    requires IsDigit(c)
  {
    c as int - '0' as int
  }

  /** The number a string of decimal digits denotes. */
  function DecimalValue(s: string): nat
    requires forall i :: 0 <= i < |s| ==> IsDigit(s[i])
  {
    if s == [] then 0 else 10 * DecimalValue(s[..|s| - 1]) + DigitValue(s[|s| - 1])
  }

  /** `str(n)` for a natural number: its shortest decimal representation. */
  function NatToDecimal(n: nat): (r: string)
    ensures r != []
    ensures forall i :: 0 <= i < |r| ==> IsDigit(r[i])
    ensures DecimalValue(r) == n
    ensures r[0] == '0' ==> n == 0
    ensures |r| > 1 ==> r[0] != '0'
  {
    if n < 10 then [DigitChar(n)] else NatToDecimal(n / 10) + [DigitChar(n % 10)]
  }

  /** `"".join(parts)`: the parts one after another. */
  function Concat(parts: seq<string>): string
  {
    if parts == [] then "" else parts[0] + Concat(parts[1..])
  }

  /** `" ".join(parts)` */
  function JoinSpaces(parts: seq<string>): string
  {
    if |parts| == 0 then ""
    else if |parts| == 1 then parts[0]
    else JoinSpaces(parts[..|parts| - 1]) + " " + parts[|parts| - 1]
  }

  /** `s.split(" ")`: the pieces between single spaces, empty ones included. */
  function SplitSpaces(s: string): (parts: seq<string>)
    ensures parts != []
    decreases |s|
  {
    var k := RFind(s, ' ');
    if k == -1 then [s] else SplitSpaces(s[..k]) + [s[k + 1..]]
  }

  predicate HasNoSpace(t: string) { ' ' !in t }

  lemma RFindIs(s: string, c: char, k: nat)
    requires k < |s| && s[k] == c
    requires forall j :: k < j < |s| ==> s[j] != c
    ensures RFind(s, c) == k
  {
  }

  lemma SplitSingle(t: string)
    requires HasNoSpace(t)
    ensures SplitSpaces(t) == [t]
  {
  }

  /** Splitting a text that ends in a space and a space-free part gives the
      split of what precedes the space, followed by that part. */
  lemma SplitLast(init: string, last: string)
    requires HasNoSpace(last)
    ensures SplitSpaces(init + " " + last) == SplitSpaces(init) + [last]
  {
    var s := init + " " + last;
    forall i | |init| < i < |s|
      ensures s[i] != ' '
    {
      assert s[i] == last[i - |init| - 1];
    }
    RFindIs(s, ' ', |init|);
    assert s[..|init|] == init;
    assert s[|init| + 1..] == last;
  }

  /** Joining with single spaces is undone by splitting on them, as long as no
      part holds a space itself. */
  lemma {:induction false} SplitJoin(parts: seq<string>)
    requires parts != []
    requires forall k :: 0 <= k < |parts| ==> HasNoSpace(parts[k])
    ensures SplitSpaces(JoinSpaces(parts)) == parts
  {
    if |parts| == 1 {
      SplitSingle(parts[0]);
    } else {
      var init, last := parts[..|parts| - 1], parts[|parts| - 1];
      forall k | 0 <= k < |init|
        ensures HasNoSpace(init[k])
      {
        assert init[k] == parts[k];
      }
      SplitJoin(init);
      assert JoinSpaces(parts) == JoinSpaces(init) + " " + last;
      SplitLast(JoinSpaces(init), last);
      assert init + [last] == parts;
    }
  }
}
