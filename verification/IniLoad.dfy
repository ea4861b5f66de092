/** `iniparser_load` over the text of a file: reading physical lines into a bounded
    buffer, joining them at backslashes, and storing what each logical line says. */
module IniLoad {
  import opened CStrings
  import opened DictionaryModel
  import opened IniLine

  /** `ASCIILINESZ`; `fgets` leaves one of its characters for the terminator. */
  const LINE_SIZE: nat := 1024

  /** `line` up to `last`, the section buffer, the dictionary and `errs`. */
  datatype LoadState = LoadState(pre: string, section: string, slots: Slots, errs: nat)

  /** A dictionary, NULL, or a step the C standard leaves undefined. */
  datatype Outcome = Loaded(slots: Slots) | Refused | Undefined

  predicate Ready(st: LoadState) {
    |st.pre| + 1 < LINE_SIZE && |st.slots| > 0
  }

  function StoredKey(section: string, key: string): string {
    section + ":" + key
  }

  /** The `switch` over the parsed line; `tmp` holds `LINE_SIZE` characters. */
  function ApplyLine(st: LoadState, line: string): (r: Option<LoadState>)
    requires |st.slots| > 0
    ensures r.Some? ==> |r.value.slots| > 0 && r.value.pre == st.pre
  {
    match ParseLine(line, st.section)
    case Empty => Some(st)
    case Comment => Some(st)
    case Section(name) => Some(st.(section := name, slots := Set(st.slots, name, None), errs := 0))
    case Value(key, val) =>
      if |StoredKey(st.section, key)| > LINE_SIZE then None
      else Some(st.(slots := Set(st.slots, StoredKey(st.section, key), Some(val)), errs := 0))
    case Error => Some(st.(errs := st.errs + 1))
  }

  function Finish(st: Option<LoadState>): Outcome {
    if st.None? then Undefined else if st.value.errs != 0 then Refused else Loaded(st.value.slots)
  }

  /** What one `fgets` takes from the text. */
  function ChunkLength(text: string, room: nat): (n: nat)
    requires text != "" && room > 0
    ensures 0 < n <= |text| && n <= room
  {
    var end := IndexOf(text, '\n') + 1;
    if end <= room && end <= |text| then end else if room <= |text| then room else |text|
  }

  predicate Continues(t: string) {
    t != "" && t[|t| - 1] == '\\'
  }

  datatype Turn = Go(st: LoadState) | Stop(outcome: Outcome)

  /** One turn of the loop, on the buffer as `fgets` left it. */
  function LoadTurn(st: LoadState, buf: string, eof: bool): (r: Turn)
    requires |st.slots| > 0 && buf != "" && |buf| < LINE_SIZE
    ensures r.Go? ==> Ready(r.st)
  {
    var t := StripRight(buf);
    if |buf| == 1 then Go(st.(pre := ""))
    else if buf[|buf| - 1] != '\n' && !eof then Stop(Refused)
    else if t == "" then Stop(Undefined)
    else if Continues(t) then Go(st.(pre := t[..|t| - 1]))
    else
      var st' := ApplyLine(st.(pre := ""), t);
      if st'.None? then Stop(Undefined) else Go(st'.value)
  }

  function LoadFrom(st: LoadState, text: string): Outcome
    requires Ready(st)
    decreases |text|
  {
    if text == "" then Finish(Some(st))
    else
      var room := LINE_SIZE - 1 - |st.pre|;
      var n := ChunkLength(text, room);
      var turn := LoadTurn(st, st.pre + text[..n], n < room && text[n - 1] != '\n');
      if turn.Go? then LoadFrom(turn.st, text[n..]) else turn.outcome
  }

  /** A whole file; `dictionary_new(0)` has 128 slots. */
  function Load(text: string): Outcome {
    LoadFrom(LoadState("", "", Holes(128), 0), text)
  }

  // ---- Logical lines -------------------------------------------------------

  function Unlines(lines: seq<string>): string {
    if lines == [] then "" else lines[0] + "\n" + Unlines(lines[1..])
  }

  /** The buffer without its newline: what is left to join, and the line if complete. */
  function Joined(buf: string): (r: (string, seq<string>))
    ensures |r.0| <= |buf| && |r.1| <= 1
    ensures r.1 != [] ==> r.0 == ""
  {
    var t := StripRight(buf);
    if buf == "" then ("", [])
    else if Continues(t) then (t[..|t| - 1], [])
    else ("", [t])
  }

  /** Physical lines joined at backslashes; `pre` is an unfinished join.  Bare newlines
      are skipped, and a join the file ends in is dropped. */
  function Logical(pre: string, lines: seq<string>): seq<string>
    decreases |lines|
  {
    if lines == [] then []
    else
      var (pre', done) := Joined(pre + lines[0]);
      done + Logical(pre', lines[1..])
  }

  /** The lines fit the buffer, joined, and none is blank but a bare newline. */
  predicate Fits(pre: string, lines: seq<string>)
    decreases |lines|
  {
    lines == [] ||
    (&& '\n' !in lines[0]
     && |pre| + |lines[0]| + 1 < LINE_SIZE
     && (pre + lines[0] == "" || StripRight(pre + lines[0]) != "")
     && Fits(Joined(pre + lines[0]).0, lines[1..]))
  }

  function ApplyLines(st: LoadState, lines: seq<string>): (r: Option<LoadState>)
    requires |st.slots| > 0
    ensures r.Some? ==> |r.value.slots| > 0
    decreases |lines|
  {
    if lines == [] then Some(st)
    else
      var st' := ApplyLine(st, lines[0]);
      if st'.None? then None else ApplyLines(st'.value, lines[1..])
  }

  lemma StripRightBlank(s: string, c: char)
    requires IsSpace(c)
    ensures StripRight(s + [c]) == StripRight(s)
  {
    assert (s + [c])[..|s|] == s;
  }

  lemma OneLine(line: string, more: string, room: nat)
    requires '\n' !in line && |line| + 1 <= room
    ensures var text := line + "\n" + more;
            && ChunkLength(text, room) == |line| + 1
            && text[..|line| + 1] == line + "\n" && text[|line| + 1..] == more
  {
    var text := line + "\n" + more;
    assert text[..|line|] == line;
    IndexIs(text, '\n', |line|);
  }

  /** Go on joining, or store the line that is complete. */
  function AfterJoin(st: LoadState, pre: string, done: seq<string>): Turn
    requires |st.slots| > 0
  {
    if done == [] then Go(st.(pre := pre))
    else
      var st' := ApplyLine(st.(pre := ""), done[0]);
      if st'.None? then Stop(Undefined) else Go(st'.value)
  }

  lemma TurnOfLine(st: LoadState, buf: string)
    requires |st.slots| > 0 && |buf| + 1 < LINE_SIZE
    requires buf == "" || StripRight(buf) != ""
    ensures LoadTurn(st, buf + "\n", false) == AfterJoin(st, Joined(buf).0, Joined(buf).1)
  {
    hide ApplyLine, StripRight;
    StripRightBlank(buf, '\n');
  }

  lemma LoadStep(st: LoadState, line: string, more: string)
    requires Ready(st) && '\n' !in line && |st.pre| + |line| + 1 < LINE_SIZE
    requires st.pre + line == "" || StripRight(st.pre + line) != ""
    ensures var j := Joined(st.pre + line);
            var turn := AfterJoin(st, j.0, j.1);
            turn == LoadTurn(st, st.pre + line + "\n", false)
            && LoadFrom(st, line + "\n" + more) == if turn.Go? then LoadFrom(turn.st, more) else turn.outcome
  {
    hide AfterJoin, LoadTurn, Joined, ChunkLength;
    OneLine(line, more, LINE_SIZE - 1 - |st.pre|);
    TurnOfLine(st, st.pre + line);
    assert st.pre + (line + "\n") == st.pre + line + "\n";
  }

  /** Loading newline-terminated lines is a fold over the backslash-joined lines. */
  lemma {:induction false} LoadIsFold(st: LoadState, lines: seq<string>)
    requires Ready(st) && Fits(st.pre, lines)
    ensures LoadFrom(st, Unlines(lines)) == Finish(ApplyLines(st.(pre := ""), Logical(st.pre, lines)))
    decreases |lines|
  {
    if lines != [] {
      hide ApplyLine, LoadTurn, Joined, LoadFrom, StripRight;
      LoadStep(st, lines[0], Unlines(lines[1..]));
      var (pre', done) := Joined(st.pre + lines[0]);
      var rest := Logical(pre', lines[1..]);
      if done == [] {
        LoadIsFold(st.(pre := pre'), lines[1..]);
        assert done + rest == rest;
      } else {
        var st' := ApplyLine(st.(pre := ""), done[0]);
        assert (done + rest)[1..] == rest;
        if st'.Some? {
          assert st'.value.(pre := "") == st'.value;
          LoadIsFold(st'.value, lines[1..]);
        }
      }
    } else {
      LoadNothing(st);
    }
  }

  lemma LoadNothing(st: LoadState)
    requires Ready(st)
    ensures LoadFrom(st, "") == Finish(Some(st.(pre := "")))
  {
  }

  // ---- Joining, skipping and refusing --------------------------------------

  /** A backslash at the end of a line, blanks behind it or not, joins the next line to it. */
  lemma BackslashJoins(a: string, blanks: string, b: string, more: seq<string>)
    requires forall i | 0 <= i < |blanks| :: IsSpace(blanks[i])
    ensures Logical("", [a + "\\" + blanks, b] + more) == Logical("", [a + b] + more)
  {
    var line := a + "\\" + blanks;
    StripRightKeeps(a + "\\", blanks);
    assert (a + "\\")[..|a + "\\"| - 1] == a;
    assert Joined("" + line) == (a, []) by { assert "" + line == line; }
    assert ([line, b] + more)[1..] == [b] + more && ([b] + more)[1..] == more;
    assert ([a + b] + more)[1..] == more && "" + (a + b) == a + b;
    hide Joined, StripRight;
    assert Logical("", [line, b] + more) == [] + Logical(a, [b] + more);
  }

  /** Any other line stands for itself, without the blanks at its end; an empty one for nothing. */
  lemma OtherLinesStand(line: string, more: seq<string>)
    requires line != "" ==> StripRight(line) != "" && StripRight(line)[|StripRight(line)| - 1] != '\\'
    ensures Logical("", [line] + more) == (if line == "" then [] else [StripRight(line)]) + Logical("", more)
  {
    assert ([line] + more)[1..] == more && "" + line == line;
    hide StripRight;
  }

  /** A line of 1023 characters or more refuses the file. */
  lemma LongLineRefused(line: string, more: string)
    requires '\n' !in line && |line| >= 1023
    ensures Load(line + "\n" + more) == Refused
  {
    var text := line + "\n" + more;
    assert forall i | 0 <= i < |line| :: text[i] == line[i];
    IndexIs(text, '\n', |line|);
    assert ChunkLength(text, 1023) == 1023;
    assert "" + text[..1023] == text[..1023];
    assert text[1022] == line[1022] && line[1022] in line;
    hide ApplyLine, StripRight;
  }

  /** One of up to 1022 characters is read: the load goes on as its logical line says. */
  lemma FittingLineRead(line: string)
    requires '\n' !in line && |line| <= 1022 && StripRight(line) != ""
    requires StripRight(line)[|StripRight(line)| - 1] != '\\'
    ensures var st := LoadState("", "", Holes(128), 0);
            Load(line + "\n") == Finish(ApplyLine(st, StripRight(line)))
  {
    var st := LoadState("", "", Holes(128), 0);
    hide StripRight, ApplyLine;
    assert [line][1..] == [] && "" + line == line && Unlines([line][1..]) == "";
    assert Unlines([line]) == line + "\n";
    assert Fits("", [line]);
    OtherLinesStand(line, []);
    assert [line] + [] == [line] && [StripRight(line)] + [] == [StripRight(line)];
    assert st.(pre := "") == st && [StripRight(line)][1..] == [];
    LoadIsFold(st, [line]);
    var r := ApplyLine(st, StripRight(line));
    if r.Some? {
      assert ApplyLines(r.value, []) == r;
    }
  }

  /** A line of blanks only sends the trimming loop out of the buffer. */
  lemma BlankLineUndefined(line: string, more: string)
    requires 1 <= |line| <= 1022 && forall i | 0 <= i < |line| :: IsSpace(line[i]) && line[i] != '\n'
    ensures Load(line + "\n" + more) == Undefined
  {
    OneLine(line, more, 1023);
    StripRightKeeps("", line + "\n");
    assert "" + (line + "\n") == line + "\n";
    hide ApplyLine, StripRight, ChunkLength;
  }

  lemma SameTurn(st: LoadState, buf: string)
    requires |st.slots| > 0 && 2 <= |buf| <= 1022 && buf[|buf| - 1] != '\n' && StripRight(buf) != ""
    ensures LoadTurn(st, buf, true) == LoadTurn(st, buf + "\n", false)
  {
    StripRightBlank(buf, '\n');
    hide ApplyLine, StripRight;
  }

  /** The end of the file cuts the last line off. */
  lemma LastChunk(st: LoadState, line: string)
    requires Ready(st) && '\n' !in line && line != "" && |st.pre| + |line| <= 1022
    ensures var turn := LoadTurn(st, st.pre + line, true);
            LoadFrom(st, line) == if turn.Go? then LoadFrom(turn.st, "") else turn.outcome
  {
    hide LoadTurn, ChunkLength;
    LastChunkLength(line, LINE_SIZE - 1 - |st.pre|);
  }

  lemma LastChunkLength(line: string, room: nat)
    requires '\n' !in line && line != "" && |line| < room
    ensures ChunkLength(line, room) == |line| && line[..|line|] == line && line[|line|..] == ""
    ensures line[|line| - 1] != '\n'
  {
    IndexIsFirst(line, '\n');
    assert line[|line| - 1] in line;
  }

  /** The last line of a file needs no newline, if it has two characters and fits. */
  lemma NewlineOptional(st: LoadState, line: string)
    requires Ready(st) && '\n' !in line && line != "" && 2 <= |st.pre| + |line| <= 1022
    requires StripRight(st.pre + line) != ""
    ensures LoadFrom(st, line) == LoadFrom(st, line + "\n")
  {
    LastChunkLength(line, |line| + 1);
    SameTurn(st, st.pre + line);
    LastChunk(st, line);
    OneLine(line, "", LINE_SIZE - 1 - |st.pre|);
    assert line + "\n" + "" == line + "\n" && st.pre + (line + "\n") == st.pre + line + "\n";
    hide LoadTurn, ChunkLength, StripRight;
  }

  /** A single character without a newline is skipped, whatever it is. */
  lemma LoneCharacterSkipped(c: char)
    requires c != '\n'
    ensures Load([c]) == Loaded(Holes(128))
  {
    var st := LoadState("", "", Holes(128), 0);
    LastChunk(st, [c]);
    assert "" + [c] == [c];
    LoadNothing(st);
  }
}
