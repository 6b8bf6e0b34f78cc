/**
 * Character classes and small text helpers used by the reader.
 * The Unicode tables behind Java's Character.isWhitespace, isLetterOrDigit
 * and isDigit are approximated by their ASCII parts.
 */
module Chars {

  /** Character.isWhitespace restricted to ASCII: space, tab, LF, VT, FF, CR and the
      four ASCII separators 0x1C-0x1F. */
  predicate IsWhitespace(c: char) {
    c == ' ' || ('\t' <= c <= '\r') || ('\U{1C}' <= c <= '\U{1F}')
  }

  predicate IsDigit(c: char) {
    '0' <= c <= '9'
  }

  predicate IsLetterOrDigit(c: char) {
    IsDigit(c) || ('a' <= c <= 'z') || ('A' <= c <= 'Z')
  }

  /** The characters a bare name is made of. */
  predicate IsNameChar(c: char) {
    IsLetterOrDigit(c) || c == '_'
  }

  predicate EndsWith(s: seq<char>, t: seq<char>) {
    |t| <= |s| && s[|s| - |t|..] == t
  }

  /** Java's String.trim: strips every character up to U+0020 from both ends. */
  function Trim(s: seq<char>): (r: seq<char>)
    ensures r == [] || (r[0] > ' ' && r[|r| - 1] > ' ')
  {
    TrimRight(TrimLeft(s))
  }

  /** What trim keeps is one slice of s, and everything before and after that slice
      is a character up to U+0020. */
  lemma TrimStrips(s: seq<char>)
    ensures var r, a := Trim(s), |s| - |TrimLeft(s)|;
      a + |r| <= |s| && r == s[a..a + |r|] &&
      (forall k :: 0 <= k < a ==> s[k] <= ' ') && (forall k :: a + |r| <= k < |s| ==> s[k] <= ' ')
  {
    hide TrimLeft, TrimRight;
    var l := TrimLeft(s);
    var r := TrimRight(l);
    assert Trim(s) == r;
    SliceOfSuffix(s, l, r);
  }

  /** A prefix r of a suffix l of s is the slice of s where l starts, and what
      follows r in s is what follows it in l. */
  lemma SliceOfSuffix(s: seq<char>, l: seq<char>, r: seq<char>)
    requires |l| <= |s| && l == s[|s| - |l|..] && |r| <= |l| && r == l[..|r|]
    requires forall k :: |r| <= k < |l| ==> l[k] <= ' '
    ensures var a := |s| - |l|; r == s[a..a + |r|] && forall k :: a + |r| <= k < |s| ==> s[k] <= ' '
  {
    var a := |s| - |l|;
    forall k | a + |r| <= k < |s|
      ensures s[k] <= ' '
    {
      assert s[k] == l[k - a];
    }
  }

  /** The characters up to U+0020 stripped from the front. */
  function TrimLeft(s: seq<char>): (r: seq<char>)
    ensures r == [] || r[0] > ' '
    ensures |r| <= |s| && r == s[|s| - |r|..]
    ensures forall k :: 0 <= k < |s| - |r| ==> s[k] <= ' '
  {
    if s == [] then []
    else if s[0] <= ' ' then TrimLeft(s[1..])
    else s
  }

  /** The characters up to U+0020 stripped from the back. */
  function TrimRight(s: seq<char>): (r: seq<char>)
    ensures r == [] || r[|r| - 1] > ' '
    ensures |r| <= |s| && r == s[..|r|]
    ensures forall k :: |r| <= k < |s| ==> s[k] <= ' '
    ensures |s| > 0 && s[0] > ' ' ==> |r| > 0 && r[0] == s[0]
  {
    if s == [] then []
    else if s[|s| - 1] <= ' ' then TrimRight(s[..|s| - 1])
    else s
  }

  /** Decimal digits of a natural number. */
  function NatText(n: nat): (r: string)
    ensures |r| > 0 && forall i :: 0 <= i < |r| ==> IsDigit(r[i])
  {
    var d := ['0' + (n % 10) as char];
    if n < 10 then d else NatText(n / 10) + d
  }

  /** Adjacent slices concatenate to the slice that spans both. */
  lemma SliceConcat<T>(s: seq<T>, i: nat, j: nat, k: nat)
    requires i <= j <= k <= |s|
    ensures s[i..j] + s[j..k] == s[i..k]
  {
  }

  /** A slice of one element. */
  lemma SliceOne<T>(s: seq<T>, i: nat)
    requires i < |s|
    ensures s[i..i + 1] == [s[i]]
  {
  }
}
