/** C strings as Dafny strings: the `<ctype.h>` classification in the ASCII
    locale, `strstr`, and the two in-place conversions of the INI parser. */
module CStrings {

  datatype Option<+T> = None | Some(value: T)

  predicate IsSpace(c: char) {
    c == ' ' || '\t' <= c <= '\r'
  }

  function ToLower(c: char): char {
    if 'A' <= c <= 'Z' then c + ' ' else c
  }

  /** The lower-case image of a whole string. */
  function Lower(s: string): (r: string)
    ensures |r| == |s| && forall i | 0 <= i < |s| :: r[i] == ToLower(s[i])
  {
    seq(|s|, i requires 0 <= i < |s| => ToLower(s[i]))
  }

  lemma LowerIdempotent(s: string)
    ensures Lower(Lower(s)) == Lower(s)
  {
  }

  lemma LowerConcat(s: string, t: string)
    ensures Lower(s + t) == Lower(s) + Lower(t)
  {
  }

  function StripLeft(s: string): (r: string)
    ensures |r| <= |s|
  {
    if s != "" && IsSpace(s[0]) then StripLeft(s[1..]) else s
  }

  function StripRight(s: string): (r: string)
    ensures |r| <= |s|
  {
    if s != "" && IsSpace(s[|s| - 1]) then StripRight(s[..|s| - 1]) else s
  }

  /** What is left is a suffix that begins with no blank, behind blanks only. */
  lemma {:induction false} StripLeftShape(s: string)
    ensures var r := StripLeft(s);
            && r == s[|s| - |r|..]
            && (r != "" ==> !IsSpace(r[0]))
            && forall i | 0 <= i < |s| - |r| :: IsSpace(s[i])
  {
    if s != "" && IsSpace(s[0]) {
      StripLeftShape(s[1..]);
    }
  }

  /** What is left is a prefix that ends in no blank, before blanks only. */
  lemma {:induction false} StripRightShape(s: string)
    ensures var r := StripRight(s);
            && r == s[..|r|]
            && (r != "" ==> !IsSpace(r[|r| - 1]))
            && forall i | |r| <= i < |s| :: IsSpace(s[i])
  {
    if s != "" && IsSpace(s[|s| - 1]) {
      StripRightShape(s[..|s| - 1]);
    }
  }

  function Strip(s: string): string {
    StripRight(StripLeft(s))
  }

  /** A string without blanks at either end. */
  predicate Trimmed(s: string) {
    s == "" || (!IsSpace(s[0]) && !IsSpace(s[|s| - 1]))
  }

  lemma StripTrims(s: string)
    ensures Trimmed(Strip(s))
    ensures Trimmed(s) ==> Strip(s) == s
  {
    StripLeftShape(s);
    StripRightShape(StripLeft(s));
  }

  lemma StripRightKeeps(s: string, blanks: string)
    requires s == "" || !IsSpace(s[|s| - 1])
    requires forall i | 0 <= i < |blanks| :: IsSpace(blanks[i])
    ensures StripRight(s + blanks) == s
  {
    var t := s + blanks;
    var r := StripRight(t);
    StripRightShape(t);
    assert s != "" ==> t[|s| - 1] == s[|s| - 1];
    assert forall i | |s| <= i < |t| :: t[i] == blanks[i - |s|];
    assert |r| == |s|;
  }

  lemma StripLeftDrops(blanks: string, s: string)
    requires s == "" || !IsSpace(s[0])
    requires forall i | 0 <= i < |blanks| :: IsSpace(blanks[i])
    ensures StripLeft(blanks + s) == s
  {
    var t := blanks + s;
    var r := StripLeft(t);
    StripLeftShape(t);
    assert s != "" ==> t[|blanks|] == s[0];
    assert forall i | 0 <= i < |blanks| :: t[i] == blanks[i];
    assert r != "" ==> r[0] == t[|t| - |r|];
    assert |r| == |s|;
  }

  /** The codes of the blanks: tab, newline, vertical tab, form feed, return, and space. */
  predicate BlankCode(code: int) {
    code == 32 || 9 <= code <= 13
  }

  /** Stripping cuts the blanks at both ends and nothing else. */
  lemma StripCuts(s: string, a: nat, b: nat)
    requires a <= b <= |s|
    requires forall i | 0 <= i < a || b <= i < |s| :: BlankCode(s[i] as int)
    requires a < b ==> !BlankCode(s[a] as int) && !BlankCode(s[b - 1] as int)
    ensures Strip(s) == s[a..b]
  {
    assert s == s[..a] + s[a..];
    if a < b {
      StripLeftDrops(s[..a], s[a..]);
      assert s[a..] == s[a..b] + s[b..];
      StripRightKeeps(s[a..b], s[b..]);
    } else {
      assert forall i | 0 <= i < |s| :: IsSpace(s[i]);
      assert s == s + "";
      StripLeftDrops(s, "");
    }
  }

  /** Lower-casing moves the codes from 65 to 90 by 32 and leaves every other. */
  lemma LowerCodes(s: string, i: nat)
    requires i < |s|
    ensures Lower(s)[i] as int == s[i] as int + if 65 <= s[i] as int <= 90 then 32 else 0
  {
  }

  predicate StartsWith(s: string, prefix: string) {
    |prefix| <= |s| && s[..|prefix|] == prefix
  }

  /** `strchr`: the index of the first `c`, or the length when there is none. */
  function IndexOf(s: string, c: char): (i: nat)
    ensures i <= |s| && (i < |s| ==> s[i] == c)
  {
    if s == "" || s[0] == c then 0 else 1 + IndexOf(s[1..], c)
  }

  lemma {:induction false} IndexIsFirst(s: string, c: char)
    ensures forall j | 0 <= j < IndexOf(s, c) :: s[j] != c
    ensures IndexOf(s, c) == |s| <==> c !in s
  {
    if s != "" && s[0] != c {
      IndexIsFirst(s[1..], c);
      assert s == [s[0]] + s[1..];
    }
  }

  lemma IndexIs(s: string, c: char, i: nat)
    requires i <= |s| && forall j | 0 <= j < i :: s[j] != c
    requires i < |s| ==> s[i] == c
    ensures IndexOf(s, c) == i
  {
    IndexIsFirst(s, c);
  }

  predicate OccursAt(s: string, pattern: string, i: nat) {
    i + |pattern| <= |s| && s[i..i + |pattern|] == pattern
  }

  /** `strstr`, as an offset: the leftmost occurrence at or after `from`. */
  function StrStrFrom(s: string, pattern: string, from: nat): (r: Option<nat>)
    ensures r.Some? ==> from <= r.value && OccursAt(s, pattern, r.value)
    decreases |s| - from
  {
    if from + |pattern| > |s| then None
    else if OccursAt(s, pattern, from) then Some(from)
    else StrStrFrom(s, pattern, from + 1)
  }

  function StrStr(s: string, pattern: string): (r: Option<nat>)
    ensures r.Some? ==> OccursAt(s, pattern, r.value)
  {
    StrStrFrom(s, pattern, 0)
  }

  lemma {:induction false} StrStrFromIsLeftmost(s: string, pattern: string, from: nat)
    ensures var r := StrStrFrom(s, pattern, from);
            forall j: nat | from <= j && OccursAt(s, pattern, j) :: r.Some? && r.value <= j
    decreases |s| - from
  {
    if from + |pattern| <= |s| && !OccursAt(s, pattern, from) {
      StrStrFromIsLeftmost(s, pattern, from + 1);
    }
  }

  /** `StrStr` finds `i` exactly when the pattern occurs at `i` and nowhere before. */
  lemma StrStrIs(s: string, pattern: string, i: nat)
    ensures StrStr(s, pattern) == Some(i) <==>
            OccursAt(s, pattern, i) && forall j: nat | j < i :: !OccursAt(s, pattern, j)
  {
    StrStrFromIsLeftmost(s, pattern, 0);
  }

  lemma StrStrNone(s: string, pattern: string)
    ensures StrStr(s, pattern).None? <==> forall j: nat :: !OccursAt(s, pattern, j)
  {
    StrStrFromIsLeftmost(s, pattern, 0);
  }
}
