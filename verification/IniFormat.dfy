/** What the dump of iniparser.c prints for one key or section, and exactly when
    `iniparser_line` reads it back. */
module IniFormat {
  import opened CStrings
  import opened IniLine

  function Spaces(n: nat): (s: string)
    ensures |s| == n && forall i | 0 <= i < n :: s[i] == ' '
  {
    seq(n, i => ' ')
  }

  /** `%-30s` */
  function Pad(k: string): string {
    k + Spaces(if |k| < 30 then 30 - |k| else 0)
  }

  /** `%-30s = %s` */
  function PrintKey(k: string, v: string): string {
    Pad(k) + " = " + v
  }

  function PrintSection(s: string): string {
    "[" + s + "]"
  }

  /** The keys a line can have. */
  predicate GoodKey(k: string) {
    k != "" && Trimmed(k) && Lower(k) == k && '=' !in k && k[0] != '#' && k[0] != ';'
  }

  /** A value the parser takes for a quoted one. */
  predicate LooksQuoted(v: string) {
    v == "\"\"" || v == "''" || (|v| > 1 && IsQuote(v[0]) && v[1] != v[0])
  }

  predicate GoodValue(v: string) {
    Trimmed(v) && ';' !in v && '#' !in v && !LooksQuoted(v)
  }

  /** The printed line would read as a section header. */
  predicate LooksBracketed(k: string, v: string) {
    k != "" && v != "" && k[0] == '[' && v[|v| - 1] == ']'
  }

  predicate Returns(k: string, v: string) {
    GoodKey(k) && GoodValue(v) && !LooksBracketed(k, v)
  }

  // ---- Keys as the parser leaves them --------------------------------------

  lemma LowerTrimmed(s: string)
    requires Trimmed(s)
    ensures Trimmed(Lower(s))
  {
  }

  /** A string that begins with no blank is trimmed to a non-empty prefix. */
  lemma StripHead(s: string)
    requires s != "" && !IsSpace(s[0])
    ensures 0 < |Strip(s)| <= |s| && forall i | 0 <= i < |Strip(s)| :: Strip(s)[i] == s[i]
  {
    StripRightShape(s);
  }

  lemma KeyOfTrimmed(l: string, e: nat)
    requires Trimmed(l) && 0 < e <= |l| && '=' !in l[..e] && l[0] != '#' && l[0] != ';'
    ensures GoodKey(Lower(Strip(l[..e])))
  {
    hide Strip;
    var k0 := Strip(l[..e]);
    StripHead(l[..e]);
    StripTrims(l[..e]);
    LowerTrimmed(k0);
    LowerIdempotent(k0);
    assert k0[0] == l[0];
    forall i | 0 <= i < |k0|
      ensures Lower(k0)[i] != '='
    {
      assert l[..e][i] in l[..e];
    }
  }

  lemma ValueTrimmed(text: string)
    ensures Trimmed(ValueAfter(text))
  {
    hide Strip, Span, StripLeft, Inner;
    var r := StripLeft(text);
    if r != "" {
      StripTrims(Inner(r));
      StripTrims(r[..Span(r, ";#", false)]);
    }
  }

  /** Whatever the line, a key it yields is trimmed, lower-case and good. */
  lemma ParsedKeyIsGood(line: string, section: string)
    requires ParseLine(line, section).Value?
    ensures GoodKey(ParseLine(line, section).key)
    ensures Trimmed(ParseLine(line, section).val)
  {
    hide Strip, Lower, ValueAfter, GoodKey, ParseValue, Scan;
    var l := Strip(line);
    StripTrims(line);
    ParseValueIsSplit(l);
    var e := IndexOf(l, '=');
    IndexIsFirst(l, '=');
    assert '=' !in l[..e];
    KeyOfTrimmed(l, e);
    ValueTrimmed(l[e + 1..]);
  }

  // ---- A printed line ------------------------------------------------------

  /** The printed line once its blank ends are gone. */
  function Shown(k: string, v: string): string {
    var t := StripRight(v);
    Pad(k) + " =" + if t == "" then "" else " " + t
  }

  /** What the parser makes of a printed value. */
  function Reread(v: string): string {
    var t := StripRight(v);
    ValueAfter(if t == "" then "" else " " + t)
  }

  lemma PrintedStrips(k: string, v: string)
    requires k != "" && Trimmed(k)
    ensures StripRight(PrintKey(k, v)) == Shown(k, v) == Strip(PrintKey(k, v))
  {
    var p, t := PrintKey(k, v), StripRight(v);
    StripRightShape(v);
    assert p[0] == k[0];
    assert StripLeft(p) == p;
    if t == "" {
      assert p == (Pad(k) + " =") + (" " + v);
      StripRightKeeps(Pad(k) + " =", " " + v);
    } else {
      assert v == t + v[|t|..];
      assert p == Shown(k, v) + v[|t|..];
      assert Shown(k, v)[|Shown(k, v)| - 1] == t[|t| - 1];
      StripRightKeeps(Shown(k, v), v[|t|..]);
    }
  }

  lemma ShownSplits(k: string, v: string)
    requires k != "" && Trimmed(k) && '=' !in k
    ensures var l, e := Shown(k, v), |Pad(k)| + 1;
            && IndexOf(l, '=') == e < |l|
            && Strip(l[..e]) == k
            && l[e + 1..] == if StripRight(v) == "" then "" else " " + StripRight(v)
  {
    var l, e := Shown(k, v), |Pad(k)| + 1;
    assert l[..e] == k + (Spaces(|Pad(k)| - |k|) + " ");
    assert l[e] == '=';
    assert '=' !in l[..e];
    assert forall j | 0 <= j < e :: l[j] == l[..e][j];
    IndexIs(l, '=', e);
    StripRightKeeps(k, Spaces(|Pad(k)| - |k|) + " ");
    assert StripLeft(l[..e]) == l[..e];
  }

  /** The value behind `= ` comes back exactly when it is good. */
  lemma ValueReturns(v: string)
    requires Trimmed(v)
    ensures ValueAfter(if v == "" then "" else " " + v) == v <==> GoodValue(v)
  {
    if v != "" {
      StripLeftDrops(" ", v);
      hide StripLeft, Strip, Span, Unquote, Inner;
      assert StripLeft(" " + v) == v;
      if |v| > 1 && IsQuote(v[0]) && v[1] != v[0] {
        QuotedShrinks(v);
      } else {
        PlainReturns(v);
      }
    }
  }

  lemma QuotedShrinks(v: string)
    requires |v| > 1 && IsQuote(v[0]) && v[1] != v[0]
    ensures Unquote(Strip(Inner(v))) != v
  {
    hide Span;
    assert |Strip(Inner(v))| <= |Inner(v)| < |v|;
  }

  lemma PlainReturns(v: string)
    requires v != "" && Trimmed(v)
    ensures Unquote(Strip(v[..Span(v, ";#", false)])) == v <==>
            ';' !in v && '#' !in v && v != "\"\"" && v != "''"
  {
    var n := Span(v, ";#", false);
    SpanShape(v, ";#", false);
    if n < |v| {
      assert v[n] in v && (v[n] == ';' || v[n] == '#');
      assert |Strip(v[..n])| <= n;
    } else {
      assert v[..n] == v;
      StripTrims(v);
    }
  }

  /** A value is reread as itself exactly when it is good. */
  lemma RereadReturns(v: string)
    ensures Reread(v) == v <==> GoodValue(v)
  {
    var t := StripRight(v);
    ValueTrimmed(if t == "" then "" else " " + t);
    if Trimmed(v) {
      assert t == v;
      ValueReturns(v);
    }
  }

  /** Rereading never makes a value longer, and keeps its length only if it keeps the value. */
  lemma RereadShrinks(v: string)
    ensures |Reread(v)| <= |v|
    ensures |Reread(v)| == |v| ==> Reread(v) == v
  {
    var t := StripRight(v);
    if t != "" {
      var r := StripLeft(" " + t);
      assert (" " + t)[1..] == t && r == StripLeft(t);
      StripRightShape(v);
      StripLeftShape(t);
      if |r| > 1 && IsQuote(r[0]) && r[1] != r[0] {
        assert |Unquote(Strip(Inner(r)))| < |v|;
      } else {
        PlainShrinks(r);
      }
    }
  }

  lemma PlainShrinks(r: string)
    ensures var w := Unquote(Strip(r[..Span(r, ";#", false)])); |w| <= |r| && (|w| == |r| ==> w == r)
  {
    hide Span;
    var n := Span(r, ";#", false);
    var l := StripLeft(r[..n]);
    StripLeftShape(r[..n]);
    StripRightShape(l);
    if n == |r| {
      assert r[..n] == r;
    }
  }

  /** Under a good key, a printed line is a header or carries the key and the reread value. */
  lemma PrintedParses(k: string, v: string, section: string)
    requires GoodKey(k)
    ensures LooksBracketed(k, StripRight(v)) ==> ParseLine(PrintKey(k, v), section).Section?
    ensures !LooksBracketed(k, StripRight(v)) ==> ParseLine(PrintKey(k, v), section) == Value(k, Reread(v))
  {
    hide Strip, StripRight, StripLeft, ParseValue, ValueAfter, IndexOf, Spaces;
    var l, t := Shown(k, v), StripRight(v);
    PrintedStrips(k, v);
    ShownSplits(k, v);
    ParseValueIsSplit(l);
    assert l[0] == k[0];
    assert l[|l| - 1] == if t == "" then '=' else t[|t| - 1];
    assert IsBracketed(l) <==> LooksBracketed(k, t);
  }

  /** A printed key line reads back as the key and value it was printed from exactly
      when the key and the value are good and the line does not look like a header. */
  lemma PrintedLineReturns(k: string, v: string, section: string)
    ensures ParseLine(PrintKey(k, v), section) == Value(k, v) <==> Returns(k, v)
  {
    hide ParseLine, PrintKey;
    if ParseLine(PrintKey(k, v), section) == Value(k, v) {
      ParsedKeyIsGood(PrintKey(k, v), section);
    }
    if GoodKey(k) {
      PrintedParses(k, v, section);
      RereadReturns(v);
      assert Trimmed(v) ==> StripRight(v) == v;
    }
  }

  // ---- A printed section header --------------------------------------------

  lemma BracketedScan(s: string)
    ensures var n := Span(s, "]", false);
            Scan(BRACKETED, PrintSection(s)) == if n == 0 then [] else [s[..n]]
  {
    hide Span;
    var l, n := PrintSection(s), Span(s, "]", false);
    assert l[1..] == s + "]";
    SpanShape(s, "]", false);
    SpanIs(s + "]", "]", false, n);
    assert Scan(BRACKETED, l) == Scan(Except("]", End), s + "]") == Item(s + "]", n, End);
    assert (s + "]")[..n] == s[..n];
  }

  /** A printed header whose name does not begin with `]` reads back as its section exactly
      when the name is trimmed, lower-case and free of `]`; an empty name keeps the section before. */
  lemma PrintedSectionReturns(s: string, section: string)
    ensures s != "" && s[0] != ']' ==>
              (ParseLine(PrintSection(s), section) == Section(s) <==> Trimmed(s) && Lower(s) == s && ']' !in s)
    ensures s == "" ==> ParseLine(PrintSection(s), section) == Section(Lower(Strip(section)))
  {
    hide Strip, StripLeft, StripRight, Lower, Scan, Span;
    var l := PrintSection(s);
    StripTrims(l);
    assert Strip(l) == l;
    BracketedScan(s);
    if s != "" && s[0] != ']' {
      SpanShape(s, "]", false);
      NameReturns(s);
    }
  }

  /** The name in a header goes up to the first `]`, in lower case and without blanks at its
      ends; with nothing there the name of the section before is kept. */
  lemma HeaderName(s: string, section: string)
    ensures ParseLine("[" + s + "]", section) ==
            Section(Lower(Strip(if s == "" || s[0] == ']' then section else s[..IndexOf(s, ']')])))
  {
    var l := "[" + s + "]";
    StripTrims(l);
    assert Strip(l) == l && l == PrintSection(s);
    BracketedScan(s);
    IndexIsFirst(s, ']');
    SpanIs(s, "]", false, IndexOf(s, ']'));
    hide Strip, Lower, Scan, Span, IndexOf;
  }

  lemma NameReturns(s: string)
    ensures Lower(Strip(s[..Span(s, "]", false)])) == s <==> Trimmed(s) && Lower(s) == s && ']' !in s
  {
    var n := Span(s, "]", false);
    SpanShape(s, "]", false);
    var t := Strip(s[..n]);
    assert |t| <= n;
    hide Strip, Span;
    StripTrims(s[..n]);
    LowerTrimmed(t);
    LowerIdempotent(t);
    if n < |s| {
      assert s[n] in s;
    } else {
      assert s[..n] == s;
    }
  }

  // ---- Lines as people write them ------------------------------------------

  lemma StripRightPast(s: string, t: string)
    requires s != "" && !IsSpace(s[|s| - 1])
    ensures StripRight(s + t) == s + StripRight(t)
  {
    var kept := StripRight(t);
    StripRightShape(t);
    assert s + t == (s + kept) + t[|kept|..];
    StripRightKeeps(s + kept, t[|kept|..]);
  }

  lemma KeyThenText(front: string, t: string)
    requires '=' !in front
    ensures var l := front + "=" + t;
            IndexOf(l, '=') == |front| < |l| && l[..|front|] == front && l[|front| + 1..] == t
  {
    var l := front + "=" + t;
    assert forall i | 0 <= i < |front| :: l[i] == front[i];
    IndexIs(l, '=', |front|);
  }

  predicate Blanks(s: string) {
    forall i | 0 <= i < |s| :: IsSpace(s[i])
  }

  /** `key = text`, with any blanks before the `=`: the key in lower case, and the value
      in the text up to its last non-blank. */
  lemma SpacedLineParses(k: string, blanks: string, text: string, section: string)
    requires k != "" && Trimmed(k) && '=' !in k && k[0] != '#' && k[0] != ';' && k[0] != '[' && Blanks(blanks)
    ensures ParseLine(k + blanks + "=" + text, section) == Value(Lower(k), ValueAfter(StripRight(text)))
  {
    var front := k + blanks;
    var line, l := front + "=" + text, front + "=" + StripRight(text);
    assert line[0] == k[0] == l[0] && StripLeft(line) == line && StripLeft(front) == front;
    StripRightPast(front + "=", text);
    assert '=' !in blanks && '=' !in front;
    KeyThenText(front, StripRight(text));
    StripRightKeeps(k, blanks);
    assert Strip(line) == l && Strip(front) == k;
    hide Strip, StripLeft, StripRight, ParseValue, ValueAfter, IndexOf, Lower;
    ParseValueIsSplit(l);
  }

  /** `key=text` */
  lemma WrittenLineParses(k: string, text: string, section: string)
    requires GoodKey(k) && k[0] != '['
    ensures ParseLine(k + "=" + text, section) == Value(k, ValueAfter(StripRight(text)))
  {
    SpacedLineParses(k, "", text, section);
    assert k + "" == k;
  }

  lemma BetweenQuotes(q: char, v: string, more: string)
    requires (q == '\"' || q == '\'') && v != "" && q !in v
    ensures ValueAfter([q] + v + [q] + more) == Unquote(Strip(v))
  {
    var r := [q] + v + [q] + more;
    hide Strip, Unquote, Span;
    assert v[0] in v && r[1] == v[0] && StripLeft(r) == r;
    var s := r[1..];
    assert forall i | 0 <= i < |v| :: s[i] == v[i] && v[i] in v;
    SpanIs(s, [q], false, |v|);
    assert r[1..1 + |v|] == v;
  }

  /** Between double or single quotes a value keeps its comment characters, and whatever
      follows the closing quote is ignored. */
  lemma QuotedValueKept(k: string, q: char, v: string, tail: string, section: string)
    requires GoodKey(k) && k[0] != '['
    requires (q == '\"' || q == '\'') && v != "" && q !in v
    ensures ParseLine(k + "=" + [q] + v + [q] + tail, section) ==
            Value(k, if Strip(v) == "\"\"" || Strip(v) == "''" then "" else Strip(v))
  {
    hide Strip, ValueAfter, StripRight, ParseLine, GoodKey;
    var front := [q] + v + [q];
    assert k + "=" + [q] + v + [q] + tail == k + "=" + (front + tail);
    WrittenLineParses(k, front + tail, section);
    StripRightPast(front, tail);
    BetweenQuotes(q, v, StripRight(tail));
  }

  lemma BeforeComment(v: string, blanks: string, c: char, comment: string)
    requires v != "" && Trimmed(v) && ';' !in v && '#' !in v && v[0] != '\"' && v[0] != '\''
    requires Blanks(blanks) && (c == ';' || c == '#')
    ensures ValueAfter(v + blanks + [c] + comment) == v
  {
    var r, n := v + blanks + [c] + comment, |v| + |blanks|;
    assert r[0] == v[0] && StripLeft(r) == r;
    assert r[..n] == v + blanks && r[n] == c;
    StripRightKeeps(v, blanks);
    assert StripLeft(v + blanks) == v + blanks;
    hide Span, StripRight, StripLeft;
    forall i | 0 <= i < n
      ensures r[i] != ';' && r[i] != '#'
    {
      assert r[i] == if i < |v| then v[i] else blanks[i - |v|];
      assert i < |v| ==> v[i] in v;
    }
    SpanIs(r, ";#", false, n);
  }

  /** A comment behind a plain value is cut off, with the blanks before it. */
  lemma CommentCut(k: string, v: string, blanks: string, c: char, comment: string, section: string)
    requires GoodKey(k) && k[0] != '['
    requires v != "" && Trimmed(v) && ';' !in v && '#' !in v && v[0] != '\"' && v[0] != '\''
    requires Blanks(blanks) && (c == ';' || c == '#')
    ensures ParseLine(k + "=" + v + blanks + [c] + comment, section) == Value(k, v)
  {
    hide Strip, Unquote, ValueAfter, StripRight, ParseLine, GoodKey;
    var front := v + blanks + [c];
    assert k + "=" + v + blanks + [c] + comment == k + "=" + (front + comment);
    WrittenLineParses(k, front + comment, section);
    StripRightPast(front, comment);
    BeforeComment(v, blanks, c, StripRight(comment));
  }

  lemma NothingBeforeComment(blanks: string, c: char, comment: string)
    requires Blanks(blanks) && (c == ';' || c == '#')
    ensures ValueAfter(blanks + [c] + comment) == ""
  {
    StripLeftDrops(blanks, [c] + comment);
    assert blanks + [c] + comment == blanks + ([c] + comment);
    hide StripLeft;
    SpanIs([c] + comment, ";#", false, 0);
    assert ([c] + comment)[..0] == "";
    EmptyValue();
  }

  lemma TwoQuotes()
    ensures StripRight("\"\"") == "\"\"" && StripRight("''") == "''"
    ensures ValueAfter("\"\"") == "" && ValueAfter("''") == "" && ValueAfter("") == ""
  {
    SpanIs("\"\"", ";#", false, 2);
    SpanIs("''", ";#", false, 2);
    assert "\"\""[..2] == "\"\"" && "''"[..2] == "''";
    hide Span;
    assert StripLeft("\"\"") == "\"\"" && StripLeft("''") == "''";
  }

  /** No value at all, or quotes with nothing between them: the value is empty. */
  lemma EmptyValues(k: string, blanks: string, section: string)
    requires GoodKey(k) && k[0] != '[' && Blanks(blanks)
    ensures ParseLine(k + "=" + blanks, section) == Value(k, "")
    ensures ParseLine(k + "=\"\"", section) == Value(k, "")
    ensures ParseLine(k + "=''", section) == Value(k, "")
  {
    StripRightKeeps("", blanks);
    assert "" + blanks == blanks;
    TwoQuotes();
    hide *;
    assert k + "=\"\"" == k + "=" + "\"\"" && k + "=''" == k + "=" + "''";
    WrittenLineParses(k, blanks, section);
    WrittenLineParses(k, "\"\"", section);
    WrittenLineParses(k, "''", section);
  }

  /** Nothing but a comment: the value is empty. */
  lemma OnlyComment(k: string, blanks: string, c: char, comment: string, section: string)
    requires GoodKey(k) && k[0] != '[' && Blanks(blanks) && (c == ';' || c == '#')
    ensures ParseLine(k + "=" + (blanks + [c] + comment), section) == Value(k, "")
  {
    hide ParseLine, GoodKey, ValueAfter, StripRight;
    WrittenLineParses(k, blanks + [c] + comment, section);
    StripRightPast(blanks + [c], comment);
    NothingBeforeComment(blanks, c, StripRight(comment));
  }

  // ---- The other kinds of line ---------------------------------------------

  /** Which lines are skipped, and which are errors. */
  lemma LineKinds(line: string, section: string)
    ensures var l, r := Strip(line), ParseLine(line, section);
            && (r.Empty? <==> l == "")
            && (r.Comment? <==> l != "" && (l[0] == '#' || l[0] == ';'))
            && (r.Section? <==> l != "" && l[0] == '[' && l[|l| - 1] == ']')
            && (r.Error? <==> l != "" && l[0] != '#' && l[0] != ';' && !(l[0] == '[' && l[|l| - 1] == ']')
                              && ('=' !in l || l[0] == '='))
  {
    hide Strip, ValueAfter, Lower, ParseValue, Scan;
    var l := Strip(line);
    ParseValueIsSplit(l);
    IndexIsFirst(l, '=');
  }

  // ---- The columns of a printed key ----------------------------------------

  /** The key, blanks up to column 30, ` = `, and the value. */
  lemma PrintedColumns(k: string, v: string)
    ensures var line, w := PrintKey(k, v), if |k| < 30 then 30 else |k|;
            && |line| == w + 3 + |v| && line[..|k|] == k
            && (forall i | |k| <= i < w :: line[i] == ' ')
            && line[w] == ' ' && line[w + 1] == '=' && line[w + 2] == ' ' && line[w + 3..] == v
  {
    assert PrintKey(k, v) == k + Spaces(if |k| < 30 then 30 - |k| else 0) + " = " + v;
  }
}
