/** `str_replace` of event_handling.c: a counting pass sizes a buffer, a second
    pass fills it.  Both are tied to one splitting of the text. */
module StrReplace {
  import opened CStrings

  /** The text between the leftmost non-overlapping occurrences of `rep`. */
  function Pieces(s: string, rep: string): (ps: seq<string>)
    requires rep != ""
    ensures |ps| >= 1
    decreases |s|
  {
    match StrStr(s, rep)
    case None => [s]
    case Some(i) => [s[..i]] + Pieces(s[i + |rep|..], rep)
  }

  function Join(ps: seq<string>, glue: string): string
    requires |ps| >= 1
  {
    if |ps| == 1 then ps[0] else ps[0] + glue + Join(ps[1..], glue)
  }

  /** Each piece ends where the leftmost occurrence in the remaining text begins. */
  ghost predicate LeftmostSplit(ps: seq<string>, rep: string)
    requires rep != "" && |ps| >= 1
  {
    if |ps| == 1 then StrStr(ps[0], rep) == None
    else StrStr(Join(ps, rep), rep) == Some(|ps[0]|) && LeftmostSplit(ps[1..], rep)
  }

  lemma {:induction false} PiecesSplit(s: string, rep: string)
    requires rep != ""
    ensures Join(Pieces(s, rep), rep) == s
    ensures LeftmostSplit(Pieces(s, rep), rep)
    decreases |s|
  {
    if StrStr(s, rep).Some? {
      var i := StrStr(s, rep).value;
      PiecesSplit(s[i + |rep|..], rep);
      JoinStep(s, rep, rep);
      AroundOccurrence(s, rep, i);
      assert Pieces(s, rep)[1..] == Pieces(s[i + |rep|..], rep);
    }
  }

  lemma AroundOccurrence(s: string, rep: string, i: nat)
    requires OccursAt(s, rep, i)
    ensures s == s[..i] + rep + s[i + |rep|..]
  {
  }

  /** No other splitting has the two properties of `PiecesSplit`. */
  lemma {:induction false} PiecesUnique(ps: seq<string>, s: string, rep: string)
    requires rep != "" && |ps| >= 1
    requires Join(ps, rep) == s && LeftmostSplit(ps, rep)
    ensures ps == Pieces(s, rep)
    decreases |ps|
  {
    if |ps| > 1 {
      var i, rest := |ps[0]|, Join(ps[1..], rep);
      PiecesUnique(ps[1..], rest, rep);
      assert s[..i] == ps[0] && s[i + |rep|..] == rest;
      assert Pieces(s, rep) == [ps[0]] + ps[1..];
    } else {
      assert ps == [ps[0]];
    }
  }

  /** What `n` replacements add to the length. */
  function Growth(n: nat, d: int): int {
    if n == 0 then 0 else Growth(n - 1, d) + d
  }

  lemma {:induction false} GrowthIsProduct(n: nat, d: int)
    ensures Growth(n, d) == n * d
  {
    if n > 0 {
      GrowthIsProduct(n - 1, d);
      assert (n - 1) * d + d == n * d;
    }
  }

  lemma {:induction false} JoinGrows(s: string, rep: string, glue: string)
    requires rep != ""
    ensures |Join(Pieces(s, rep), glue)| == |s| + Growth(|Pieces(s, rep)| - 1, |glue| - |rep|)
    decreases |s|
  {
    if StrStr(s, rep).Some? {
      JoinStep(s, rep, glue);
      JoinGrows(s[StrStr(s, rep).value + |rep|..], rep, glue);
      hide Join, Pieces, StrStr;
    }
  }

  /** The size the first pass of the source predicts is the size the second pass fills. */
  lemma {:induction false} ReplacedLength(s: string, rep: string, glue: string)
    requires rep != ""
    ensures |Join(Pieces(s, rep), glue)| == |s| + (|Pieces(s, rep)| - 1) * (|glue| - |rep|)
  {
    JoinGrows(s, rep, glue);
    hide Join, Pieces, Growth;
    GrowthIsProduct(|Pieces(s, rep)| - 1, |glue| - |rep|);
  }

  lemma {:induction false} CountFits(s: string, rep: string, glue: string)
    requires rep != ""
    ensures 0 <= |s| + (|Pieces(s, rep)| - 1) * (|glue| - |rep|)
  {
    ReplacedLength(s, rep, glue);
  }

  /** `result` is the malloc'ed buffer, terminator included; null stands for NULL. */
  method StrReplace(orig: Option<string>, rep: Option<string>, with: Option<string>)
    returns (result: array?<char>)
    ensures result == null <==>
            orig.None? || rep.None? || rep.value == "" || StrStr(orig.value, rep.value).None?
    ensures result != null ==>
              result.Length >= 1 &&
              var glue := if with.Some? then with.value else "";
              var ps := Pieces(orig.value, rep.value);
              && result.Length == |orig.value| + (|ps| - 1) * (|glue| - |rep.value|) + 1
              && result[..result.Length - 1] == Join(ps, glue)
              && result[result.Length - 1] == '\0'
  {
    if orig.None? || rep.None? || |rep.value| == 0 {
      return null;
    }
    var text, r := orig.value, rep.value;
    if StrStr(text, r).None? {
      return null;
    }
    var glue := if with.Some? then with.value else "";
    ghost var ps := Pieces(text, r);

    var count := CountOccurrences(text, r);
    ReplacedLength(text, r, glue);
    assert count * (|glue| - |r|) == (|glue| - |r|) * count;
    result := new char[|text| + (|glue| - |r|) * count + 1];
    Fill(result, text, r, glue, count);
  }

  /** The first pass: step over the leftmost occurrence until none is left. */
  method CountOccurrences(text: string, r: string) returns (count: nat)
    requires r != ""
    ensures count + 1 == |Pieces(text, r)|
  {
    var ins := 0;
    count := 0;
    var tmp := StrStr(text, r);
    assert text[0..] == text;
    while tmp.Some?
      invariant ins <= |text|
      invariant tmp == StrStr(text[ins..], r)
      invariant |Pieces(text, r)| == count + |Pieces(text[ins..], r)|
      decreases |text| - ins
    {
      DropDrop(text, ins, tmp.value + |r|);
      ins := ins + tmp.value + |r|;
      count := count + 1;
      tmp := StrStr(text[ins..], r);
    }
  }

  lemma DropDrop(s: string, i: nat, j: nat)
    requires i + j <= |s|
    ensures s[i..][j..] == s[i + j..]
  {
  }

  /** The second pass: copy `count` pieces, each followed by `glue`, then the rest. */
  method Fill(result: array<char>, text: string, r: string, glue: string, n: nat)
    requires r != "" && n + 1 == |Pieces(text, r)|
    requires result.Length == |Join(Pieces(text, r), glue)| + 1
    modifies result
    ensures result[..] == Join(Pieces(text, r), glue) + ['\0']
  {
    var at, rest, count := 0, text, n;
    ghost var done, left := "", Join(Pieces(text, r), glue);
    while count > 0
      invariant count >= 0 && count + 1 == |Pieces(rest, r)|
      invariant left == Join(Pieces(rest, r), glue)
      invariant done + left == Join(Pieces(text, r), glue)
      invariant at == |done| && at + |left| + 1 == result.Length
      invariant result[..at] == done
    {
      at, rest, done, left := FillStep(result, at, rest, r, glue, done, left);
      count := count - 1;
    }
    Copy(result, at, rest + ['\0']);
  }

  /** One round of the second pass: `done` is written, `left` is still to write. */
  method FillStep(result: array<char>, at: nat, rest: string, r: string, glue: string,
                  ghost done: string, ghost left: string)
    returns (at': nat, rest': string, ghost done': string, ghost left': string)
    requires r != "" && |Pieces(rest, r)| > 1
    requires left == Join(Pieces(rest, r), glue)
    requires at + |left| <= result.Length && result[..at] == done
    modifies result
    ensures |Pieces(rest', r)| == |Pieces(rest, r)| - 1
    ensures left' == Join(Pieces(rest', r), glue)
    ensures done' + left' == done + left
    ensures at' == |done'| && at' + |left'| == at + |left|
    ensures result[..at'] == done'
  {
    JoinStep(rest, r, glue);
    hide Pieces, Join, StrStr;
    var front := StrStr(rest, r).value;
    CopyBoth(result, at, rest[..front], glue);
    at' := at + front + |glue|;
    rest' := rest[front + |r|..];
    left' := Join(Pieces(rest', r), glue);
    done' := done + rest[..front] + glue;
    Regroup(done, rest[..front], glue, left');
  }

  lemma Regroup(a: string, b: string, c: string, d: string)
    ensures (a + b + c) + d == a + (b + c + d)
  {
  }

  lemma JoinStep(s: string, rep: string, glue: string)
    requires rep != "" && (|Pieces(s, rep)| > 1 || StrStr(s, rep).Some?)
    ensures StrStr(s, rep).Some?
    ensures var i := StrStr(s, rep).value;
            var rest := Pieces(s[i + |rep|..], rep);
            |Pieces(s, rep)| == 1 + |rest| && Join(Pieces(s, rep), glue) == s[..i] + glue + Join(rest, glue)
  {
    var i := StrStr(s, rep).value;
    assert Pieces(s, rep)[1..] == Pieces(s[i + |rep|..], rep);
  }

  method CopyBoth(buffer: array<char>, at: nat, s: string, t: string)
    requires at + |s| + |t| <= buffer.Length
    modifies buffer
    ensures buffer[..at + |s| + |t|] == old(buffer[..at]) + s + t
  {
    Copy(buffer, at, s);
    Copy(buffer, at + |s|, t);
  }

  /** `strncpy`/`strcpy` into the buffer. */
  method Copy(buffer: array<char>, at: nat, s: string)
    requires at + |s| <= buffer.Length
    modifies buffer
    ensures buffer[..] == old(buffer[..at]) + s + old(buffer[at + |s|..])
  {
    for i := 0 to |s|
      invariant forall k | 0 <= k < i :: buffer[at + k] == s[k]
      invariant forall k | 0 <= k < at || at + i <= k < buffer.Length :: buffer[k] == old(buffer[k])
    {
      buffer[at + i] := s[i];
    }
    assert buffer[at..at + |s|] == s;
    assert buffer[..] == buffer[..at] + buffer[at..at + |s|] + buffer[at + |s|..];
  }
}
