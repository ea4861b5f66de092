/** One logical line of an INI file: the scan patterns of iniparser.c, tried in
    order, and the two forms `fprintf` writes that must come back unchanged. */
module IniLine {
  import opened CStrings

  // ---- sscanf --------------------------------------------------------------

  /** A format, directive by directive: white space, an ordinary character, and the
      scansets `%[^...]` and `%[...]` (section 7.19.6.2 of ISO/IEC 9899:1999). */
  datatype Format =
    | End
    | Blank(rest: Format)
    | Literal(c: char, rest: Format)
    | Except(stops: string, rest: Format)
    | Only(members: string, rest: Format)

  /** How many leading characters are, or are not, in the set. */
  function Span(s: string, chars: string, inside: bool): (n: nat)
    ensures n <= |s|
  {
    if s == "" || (s[0] in chars) != inside then 0 else 1 + Span(s[1..], chars, inside)
  }

  lemma {:induction false} SpanShape(s: string, chars: string, inside: bool)
    ensures var n := Span(s, chars, inside);
            && (forall i | 0 <= i < n :: (s[i] in chars) == inside)
            && (n < |s| ==> (s[n] in chars) != inside)
  {
    if s != "" && (s[0] in chars) == inside {
      SpanShape(s[1..], chars, inside);
    }
  }

  /** The items a `sscanf` call assigns; it stops at the first directive that fails,
      and a scanset that matches nothing fails. */
  function Scan(f: Format, s: string): seq<string>
    decreases f, 0
  {
    match f
    case End => []
    case Blank(rest) => Scan(rest, StripLeft(s))
    case Literal(c, rest) => if s != "" && s[0] == c then Scan(rest, s[1..]) else []
    case Except(stops, rest) => Item(s, Span(s, stops, false), rest)
    case Only(members, rest) => Item(s, Span(s, members, true), rest)
  }

  /** The first `n` characters as an item, unless there are none. */
  function Item(s: string, n: nat, rest: Format): seq<string>
    requires n <= |s|
    decreases rest, 1
  {
    if n == 0 then [] else [s[..n]] + Scan(rest, s[n..])
  }

  /** How four of the five value patterns begin: `%[^=] = `. */
  function Head(tail: Format): Format {
    Except("=", Blank(Literal('=', Blank(tail))))
  }

  /** `"%[^"]"`, and the same with single quotes. */
  function Quoted(q: char): Format {
    Literal(q, Except([q], Literal(q, End)))
  }

  /** `%[^;#]` */
  const PLAIN: Format := Except(";#", End)

  /** `%[;#]` */
  const COMMENTED: Format := Only(";#", End)

  /** `%[^=] %[=]` */
  const NOTHING: Format := Except("=", Blank(Only("=", End)))

  /** `[%[^]]` */
  const BRACKETED: Format := Literal('[', Except("]", End))

  // ---- iniparser_line ------------------------------------------------------

  datatype Line = Empty | Comment | Section(name: string) | Value(key: string, val: string) | Error

  /** A quoted empty value is empty. */
  function Unquote(val: string): string {
    if val == "\"\"" || val == "''" then "" else val
  }

  function Keyed(items: seq<string>): Line
    requires |items| == 2
  {
    Value(Lower(Strip(items[0])), Unquote(Strip(items[1])))
  }

  function Bare(items: seq<string>): Line
    requires |items| == 2
  {
    Value(Lower(Strip(items[0])), "")
  }

  /** The pattern cascade for a line that is no comment and no section. */
  function ParseValue(line: string): Line {
    Choose(Scan(Head(Quoted('\"')), line), Scan(Head(Quoted('\'')), line),
           Scan(Head(PLAIN), line), Scan(Head(COMMENTED), line), Scan(NOTHING, line))
  }

  /** The first pattern that assigns both items decides. */
  function Choose(double: seq<string>, single: seq<string>, plain: seq<string>,
                  commented: seq<string>, nothing: seq<string>): Line {
    if |double| == 2 then Keyed(double)
    else if |single| == 2 then Keyed(single)
    else if |plain| == 2 then Keyed(plain)
    else if |commented| == 2 then Bare(commented)
    else if |nothing| == 2 then Bare(nothing)
    else Error
  }

  predicate IsComment(line: string) {
    line != "" && (line[0] == '#' || line[0] == ';')
  }

  predicate IsBracketed(line: string) {
    line != "" && line[0] == '[' && line[|line| - 1] == ']'
  }

  /** `iniparser_line`; `section` is what the section buffer holds, and `[]` leaves it there. */
  function ParseLine(input: string, section: string): Line {
    var line := Strip(input);
    if line == "" then Empty
    else if IsComment(line) then Comment
    else if IsBracketed(line) then
      var items := Scan(BRACKETED, line);
      Section(Lower(Strip(if |items| == 1 then items[0] else section)))
    else ParseValue(line)
  }

  // ---- What the cascade amounts to -----------------------------------------

  predicate IsQuote(c: char) {
    c == '\"' || c == '\''
  }

  /** What the scan takes from between the quotes. */
  function Inner(r: string): string
    requires r != ""
  {
    r[1..1 + Span(r[1..], [r[0]], false)]
  }

  /** The value in the text after the first `=`: between quotes, else up to a comment. */
  function ValueAfter(text: string): string {
    var r := StripLeft(text);
    if r == "" then ""
    else if |r| > 1 && IsQuote(r[0]) && r[1] != r[0] then
      Unquote(Strip(Inner(r)))
    else Unquote(Strip(r[..Span(r, ";#", false)]))
  }

  /** The key is everything before the first `=`, which may not come first. */
  function ParseSplit(line: string): Line {
    var e := IndexOf(line, '=');
    if e == 0 || e == |line| then Error
    else Value(Lower(Strip(line[..e])), ValueAfter(line[e + 1..]))
  }

  lemma SpanIs(s: string, chars: string, inside: bool, n: nat)
    requires n <= |s| && (forall i | 0 <= i < n :: (s[i] in chars) == inside)
    requires n < |s| ==> (s[n] in chars) != inside
    ensures Span(s, chars, inside) == n
  {
    SpanShape(s, chars, inside);
  }

  lemma SpanIsIndex(line: string)
    ensures Span(line, "=", false) == IndexOf(line, '=')
  {
    IndexIsFirst(line, '=');
    SpanIs(line, "=", false, IndexOf(line, '='));
  }

  predicate InQuotes(r: string, q: char) {
    |r| > 1 && r[0] == q && r[1] != q
  }

  /** The text behind the first `=` and the blanks that follow it. */
  function Behind(line: string): string {
    var e := IndexOf(line, '=');
    if e < |line| then StripLeft(line[e + 1..]) else ""
  }

  /** Past the first `=` and the blanks behind it. */
  lemma ScanEquals(s: string, tail: Format)
    requires s != "" && s[0] == '='
    ensures Scan(Blank(Literal('=', Blank(tail))), s) == Scan(tail, StripLeft(s[1..]))
  {
    assert StripLeft(s) == s;
    hide StripLeft;
    assert Scan(Blank(Literal('=', Blank(tail))), s) == Scan(Literal('=', Blank(tail)), s);
    assert Scan(Literal('=', Blank(tail)), s) == Scan(Blank(tail), s[1..]);
  }

  lemma ItemAtEnd(line: string, tail: Format)
    requires line != ""
    ensures Item(line, |line|, Blank(Literal('=', tail))) == [line]
  {
    assert StripLeft("") == "";
    assert line[|line|..] == "" && line[..|line|] == line;
    assert Scan(Blank(Literal('=', tail)), "") == Scan(Literal('=', tail), "") == [];
  }

  lemma NoItem(line: string, rest: Format)
    ensures Item(line, 0, rest) == []
  {
  }

  lemma ItemAtEquals(line: string, e: nat, tail: Format)
    requires 0 < e < |line| && line[e] == '='
    ensures Item(line, e, Blank(Literal('=', Blank(tail)))) == [line[..e]] + Scan(tail, StripLeft(line[e + 1..]))
  {
    hide Scan, StripLeft;
    ScanEquals(line[e..], tail);
    assert line[e..][1..] == line[e + 1..];
  }

  lemma HeadItem(line: string, tail: Format)
    ensures Scan(Head(tail), line) == Item(line, IndexOf(line, '='), Blank(Literal('=', Blank(tail))))
  {
    SpanIsIndex(line);
  }

  /** All patterns but the last begin alike. */
  lemma ScanHead(line: string, tail: Format)
    ensures var e := IndexOf(line, '=');
            && (e == 0 ==> Scan(Head(tail), line) == [])
            && (e == |line| > 0 ==> Scan(Head(tail), line) == [line])
            && (0 < e < |line| ==> Scan(Head(tail), line) == [line[..e]] + Scan(tail, Behind(line)))
  {
    hide Span, IndexOf, StripLeft, Scan, Head, Item;
    var e := IndexOf(line, '=');
    HeadItem(line, tail);
    if e == 0 {
      NoItem(line, Blank(Literal('=', Blank(tail))));
    } else if e == |line| {
      ItemAtEnd(line, Blank(tail));
    } else {
      ItemAtEquals(line, e, tail);
    }
  }

  lemma ScanQuoted(q: char, r: string)
    ensures var items := Scan(Quoted(q), r);
            if InQuotes(r, q) then items == [Inner(r)] else items == []
  {
    if r != "" && r[0] == q {
      var s, n := r[1..], Span(r[1..], [q], false);
      assert Scan(Quoted(q), r) == Scan(Except([q], Literal(q, End)), s) == Item(s, n, Literal(q, End));
      assert |r| > 1 ==> s[0] == r[1];
      assert s[..n] == r[1..1 + n];
      ScanLast(q, s[n..]);
    }
  }

  lemma ScanLast(q: char, s: string)
    ensures Scan(Literal(q, End), s) == []
  {
  }

  lemma ScanNothing(line: string)
    ensures var e := IndexOf(line, '=');
            0 < e < |line| ==> |Scan(NOTHING, line)| == 2 && Scan(NOTHING, line)[0] == line[..e]
    ensures var e := IndexOf(line, '=');
            e == 0 || e == |line| ==> |Scan(NOTHING, line)| < 2
  {
    var e := IndexOf(line, '=');
    SpanIsIndex(line);
    if 0 < e {
      var s := line[e..];
      assert StripLeft(s) == s;
      assert Scan(Blank(Only("=", End)), s) == Scan(Only("=", End), s) == Item(s, Span(s, "=", true), End);
    }
  }

  lemma TryQuoted(line: string, q: char)
    requires 0 < IndexOf(line, '=') < |line|
    ensures var r := Behind(line);
            var items := Scan(Head(Quoted(q)), line);
            && (InQuotes(r, q) ==> items == [line[..IndexOf(line, '=')], Inner(r)])
            && (!InQuotes(r, q) ==> |items| == 1)
  {
    hide Scan, Span, Quoted;
    ScanHead(line, Quoted(q));
    ScanQuoted(q, Behind(line));
  }

  lemma TrySpan(line: string, chars: string, inside: bool)
    requires 0 < IndexOf(line, '=') < |line|
    ensures var r := Behind(line);
            var items := Scan(Head(if inside then Only(chars, End) else Except(chars, End)), line);
            var n := Span(r, chars, inside);
            && (n > 0 ==> items == [line[..IndexOf(line, '=')], r[..n]])
            && (n == 0 ==> |items| == 1)
  {
    hide Span;
    var f, r := if inside then Only(chars, End) else Except(chars, End), Behind(line);
    ScanHead(line, f);
    assert Scan(f, r) == Item(r, Span(r, chars, inside), End);
  }

  lemma NoSplit(line: string)
    requires IndexOf(line, '=') == 0 || IndexOf(line, '=') == |line|
    ensures ParseValue(line) == Error
  {
    hide Scan, Keyed, Bare;
    ScanHead(line, Quoted('\"'));
    ScanHead(line, Quoted('\''));
    ScanHead(line, PLAIN);
    ScanHead(line, COMMENTED);
    ScanNothing(line);
  }

  /** At most one of the two quoted patterns assigns both items. */
  lemma QuotedChoice(line: string, q: char)
    requires 0 < IndexOf(line, '=') < |line| && IsQuote(q) && InQuotes(Behind(line), q)
    ensures ParseValue(line) == Keyed([line[..IndexOf(line, '=')], Inner(Behind(line))])
  {
    hide Scan, Span, StripLeft, Quoted, IndexOf, Keyed, Bare, Behind, Head, Inner;
    TryQuoted(line, '\"');
    TryQuoted(line, '\'');
  }

  lemma SplitQuoted(line: string, q: char)
    requires 0 < IndexOf(line, '=') < |line| && IsQuote(q) && InQuotes(Behind(line), q)
    ensures ParseValue(line) == ParseSplit(line)
  {
    hide ParseValue, Scan, Span, Lower, Strip, Unquote, StripLeft, Quoted, IndexOf;
    QuotedChoice(line, q);
  }

  lemma SplitPlain(line: string)
    requires 0 < IndexOf(line, '=') < |line|
    requires !InQuotes(Behind(line), '\"') && !InQuotes(Behind(line), '\'')
    ensures ParseValue(line) == ParseSplit(line)
  {
    hide Scan, Span, Lower, Strip, Unquote, StripLeft, Quoted, IndexOf;
    TryQuoted(line, '\"');
    TryQuoted(line, '\'');
    TrySpan(line, ";#", false);
    TrySpan(line, ";#", true);
    ScanNothing(line);
    EmptyValue();
    assert Behind(line)[..0] == "";
  }

  /** The cascade of five patterns splits the line at its first `=`, always. */
  lemma ParseValueIsSplit(line: string)
    ensures ParseValue(line) == ParseSplit(line)
  {
    if IndexOf(line, '=') == 0 || IndexOf(line, '=') == |line| {
      NoSplit(line);
    } else if InQuotes(Behind(line), '\"') {
      SplitQuoted(line, '\"');
    } else if InQuotes(Behind(line), '\'') {
      SplitQuoted(line, '\'');
    } else {
      SplitPlain(line);
    }
  }

  lemma EmptyValue()
    ensures Unquote(Strip("")) == ""
  {
  }
}
