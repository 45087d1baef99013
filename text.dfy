/**
 * The few std::string searches the sprite packer relies on, over `seq<char>`:
 * `find` / `find_first_of` of one character and `find_last_of` of a set of
 * characters. `None` plays the role of `std::string::npos`. CString is what
 * a `%s` conversion prints of a string's `c_str()`.
 */
module Text {

  datatype Option<T> = None | Some(value: T)

  /** The path separators the packer recognises, '/' and '\'. */
  const Separators: set<char> := {'/', '\\'}

  /** Index of the first occurrence of c in s. */
  function FindFirst(s: string, c: char): (r: Option<nat>)
    ensures r.Some? ==> r.value < |s| && s[r.value] == c && c !in s[..r.value]
    ensures r.None? <==> c !in s
  {
    if |s| == 0 then None
    else if s[0] == c then Some(0)
    else match FindFirst(s[1..], c)
      case None => None
      case Some(k) =>
        assert s[..k + 1] == [s[0]] + s[1..][..k];
        Some(k + 1)
  }

  /** The first c of s is the one at k when none comes before it. */
  lemma FindFirstAt(s: string, c: char, k: int)
    requires 0 <= k < |s| && s[k] == c && c !in s[..k]
    ensures FindFirst(s, c) == Some(k)
  {
    assert c in s;
  }

  /** Index of the last character of s that belongs to cs. */
  function FindLastOf(s: string, cs: set<char>): (r: Option<nat>)
    ensures r.Some? ==> r.value < |s| && s[r.value] in cs
                        && forall j :: r.value < j < |s| ==> s[j] !in cs
    ensures r.None? <==> forall j :: 0 <= j < |s| ==> s[j] !in cs
  {
    if |s| == 0 then None
    else if s[|s| - 1] in cs then Some(|s| - 1)
    else
      var r := FindLastOf(s[..|s| - 1], cs);
      assert forall j :: 0 <= j < |s| - 1 ==> s[..|s| - 1][j] == s[j];
      r
  }

  /**
   * What `%s` prints of `s.c_str()`: a C string ends at its first '\0', so
   * the characters from there on are not printed. The whole of s is
   * printed exactly when it holds no '\0'.
   */
  function CString(s: string): (r: string)
    ensures |r| <= |s|
    ensures r == s <==> '\0' !in s
  {
    if |s| == 0 || s[0] == '\0' then []
    else
      var r := [s[0]] + CString(s[1..]);
      assert s == [s[0]] + s[1..];
      r
  }

  /** CString(s) is the part of s before its first '\0', or all of s. */
  lemma {:induction false} CStringPrefix(s: string)
    ensures var r := CString(s);
      r == s[..|r|] && '\0' !in r && (|r| < |s| ==> s[|r|] == '\0')
  {
    if |s| > 0 && s[0] != '\0' {
      CStringPrefix(s[1..]);
      var r := CString(s[1..]);
      assert s[..|r| + 1] == [s[0]] + s[1..][..|r|];
    }
  }

  /** No character of s is a path separator. */
  predicate NoSeparator(s: string)
  {
    forall j :: 0 <= j < |s| ==> s[j] !in Separators
  }
}
