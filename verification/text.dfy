/** String operations that several components share. */
module Text {

  /** Lower case, for ASCII letters. */
  function Lower(s: string): (r: string)
    ensures |r| == |s|
  {
    if s == "" then ""
    else [if 'A' <= s[0] <= 'Z' then ((s[0] as int) + 32) as char else s[0]] + Lower(s[1..])
  }

  /** Position by position, upper-case letters become the lower-case ones of the same place in the alphabet. */
  lemma {:induction false} LowerMeans(s: string, i: nat)
    requires i < |s|
    ensures 'A' <= s[i] <= 'Z' ==>
      'a' <= Lower(s)[i] <= 'z' && Lower(s)[i] as int - 'a' as int == s[i] as int - 'A' as int
    ensures !('A' <= s[i] <= 'Z') ==> Lower(s)[i] == s[i]
  {
    if i > 0 {
      LowerMeans(s[1..], i - 1);
    }
  }

  predicate IsLower(s: string) {
    forall c :: c in s ==> !('A' <= c <= 'Z')
  }

  lemma {:induction false} LowerKeeps(s: string)
    requires IsLower(s)
    ensures Lower(s) == s
  {
    if s != "" {
      assert s == [s[0]] + s[1..] && s[0] in s;
      assert forall c :: c in s[1..] ==> c in s;
      LowerKeeps(s[1..]);
    }
  }

  /** The white space of Unicode. */
  predicate IsSpace(c: char) {
    var n := c as int;
    9 <= n <= 13 || n in {32, 0x85, 0xA0, 0x1680, 0x2028, 0x2029, 0x202F, 0x205F, 0x3000} || 0x2000 <= n <= 0x200A
  }

  /** Tab, line feed, vertical tab, form feed, carriage return, space, next line, and the spaces and separators of
      the general punctuation and of the scripts that have their own. */
  lemma SpaceMeans(c: char)
    ensures IsSpace(c) <==> c in "\t\n\U{0B}\U{0C}\r \U{85}\U{A0}\U{1680}\U{2000}\U{2001}\U{2002}\U{2003}\U{2004}\U{2005}"
                               + "\U{2006}\U{2007}\U{2008}\U{2009}\U{200A}\U{2028}\U{2029}\U{202F}\U{205F}\U{3000}"
  {
  }

  predicate NoOuterSpace(s: string) {
    s == "" || (!IsSpace(s[0]) && !IsSpace(s[|s| - 1]))
  }

  function TrimLeft(s: string): string {
    if s == "" || !IsSpace(s[0]) then s else TrimLeft(s[1..])
  }

  function TrimRight(s: string): string {
    if s == "" || !IsSpace(s[|s| - 1]) then s else TrimRight(s[..|s| - 1])
  }

  function Trim(s: string): string {
    TrimRight(TrimLeft(s))
  }

  predicate AllSpace(s: string) {
    forall c :: c in s ==> IsSpace(c)
  }

  lemma {:induction false} TrimLeftMeans(s: string) returns (gone: string)
    ensures s == gone + TrimLeft(s) && AllSpace(gone) && (TrimLeft(s) != "" ==> !IsSpace(TrimLeft(s)[0]))
  {
    gone := "";
    if s != "" && IsSpace(s[0]) {
      var rest := TrimLeftMeans(s[1..]);
      gone := [s[0]] + rest;
    }
  }

  lemma {:induction false} TrimRightMeans(s: string) returns (gone: string)
    ensures s == TrimRight(s) + gone && AllSpace(gone)
    ensures TrimRight(s) != "" ==> !IsSpace(TrimRight(s)[|TrimRight(s)| - 1])
  {
    gone := "";
    if s != "" && IsSpace(s[|s| - 1]) {
      var rest := TrimRightMeans(s[..|s| - 1]);
      gone := rest + [s[|s| - 1]];
    }
  }

  /** Trimming takes white space off both ends, all of it, and nothing else. */
  lemma TrimMeans(s: string) returns (left: string, right: string)
    ensures s == left + Trim(s) + right && AllSpace(left) && AllSpace(right) && NoOuterSpace(Trim(s))
  {
    left := TrimLeftMeans(s);
    right := TrimRightMeans(TrimLeft(s));
    var t := TrimLeft(s);
    if Trim(s) != "" {
      assert t[0] == Trim(s)[0];
    }
  }

  /** Hence a trimmed text stays as it is. */
  lemma TrimKeeps(s: string)
    requires NoOuterSpace(s)
    ensures Trim(s) == s
  {
  }
}
