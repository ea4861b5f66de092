/** The operations of iniparser.c as they run, on a dictionary object. */
module Iniparser {
  import opened CStrings
  import opened DictionaryModel
  import opened IniLine
  import opened IniFormat
  import opened IniLoad
  import opened IniMeaning
  import opened IniDump
  import D = Dictionary

  // ---- String buffers ------------------------------------------------------

  /** `strlwc`: at most `LINE_SIZE` characters, lower-cased one by one. */
  method StrLwc(s: string) returns (r: string)
    ensures r == Lowered(s)
  {
    var l := new char[LINE_SIZE + 1](_ => '\0');
    var i := 0;
    while i < |s| && i < LINE_SIZE
      invariant i <= |s| && i <= LINE_SIZE
      invariant forall j | 0 <= j < i :: l[j] == ToLower(s[j])
    {
      l[i] := ToLower(s[i]);
      i := i + 1;
    }
    r := l[..i];
    assert i == if |s| <= LINE_SIZE then |s| else LINE_SIZE;
  }

  /** How far a string goes once the blanks at its end are cut. */
  method TrimEnd(s: string) returns (len: nat)
    ensures len <= |s| && s[..len] == StripRight(s)
  {
    len := |s|;
    assert s[..len] == s;
    while len > 0 && IsSpace(s[len - 1])
      invariant len <= |s| && StripRight(s[..len]) == StripRight(s)
    {
      assert s[..len][..len - 1] == s[..len - 1];
      len := len - 1;
    }
  }

  /** `strstrip`: skip the blanks in front, copy the rest, cut the blanks behind. */
  method StrStrip(s: string) returns (r: string)
    requires |StripLeft(s)| <= LINE_SIZE
    ensures r == Strip(s)
  {
    var from := 0;
    while from < |s| && IsSpace(s[from])
      invariant from <= |s| && StripLeft(s[from..]) == StripLeft(s)
    {
      assert s[from..][1..] == s[from + 1..];
      from := from + 1;
    }
    assert StripLeft(s) == s[from..];
    var len := TrimEnd(s[from..]);
    r := s[from..][..len];
  }

  // ---- Lines and files -----------------------------------------------------

  /** A `sscanf` call; no item is longer than the line it comes from. */
  method SScanf(line: string, format: Format) returns (items: seq<string>)
    ensures items == Scan(format, line)
    ensures forall item | item in items :: |item| <= |line|
  {
    items := Scan(format, line);
    ScannedFits(format, line);
  }

  lemma {:induction false} ScannedFits(f: Format, s: string)
    ensures forall item | item in Scan(f, s) :: |item| <= |s|
    decreases f
  {
    match f
    case End =>
    case Blank(rest) => ScannedFits(rest, StripLeft(s));
    case Literal(c, rest) => if s != "" { ScannedFits(rest, s[1..]); }
    case Except(stops, rest) => ScannedFits(rest, s[Span(s, stops, false)..]);
    case Only(members, rest) => ScannedFits(rest, s[Span(s, members, true)..]);
  }

  /** `strcpy(b, strstrip(b)); strcpy(b, strlwc(b));` */
  method StripLower(b: string) returns (r: string)
    requires |b| <= LINE_SIZE
    ensures r == Lower(Strip(b)) && |r| <= |b|
  {
    StripShortens(b);
    r := StrStrip(b);
    r := StrLwc(r);
  }

  /** `iniparser_line`, with `section` the section buffer on entry. */
  method ReadLine(input: string, section: string) returns (line: Line)
    requires |input| <= LINE_SIZE && |section| <= LINE_SIZE
    ensures line == ParseLine(input, section)
    ensures line.Section? ==> |line.name| <= LINE_SIZE
    ensures line.Value? ==> |line.key| <= LINE_SIZE
  {
    hide Scan, Strip, Lower, ParseValue;
    var l := StrStrip(input);
    assert |l| <= |input| by { StripShortens(input); }
    if |l| < 1 {
      return Empty;
    } else if l[0] == '#' || l[0] == ';' {
      return Comment;
    } else if l[0] == '[' && l[|l| - 1] == ']' {
      var items := SScanf(l, BRACKETED);
      var name := StripLower(if |items| == 1 then items[0] else section);
      return Section(name);
    }
    line := ReadValue(l);
  }

  lemma StripShortens(s: string)
    ensures |Strip(s)| <= |s|
  {
  }

  /** The pattern cascade. */
  method ReadValue(l: string) returns (line: Line)
    requires |l| <= LINE_SIZE
    ensures line == ParseValue(l)
    ensures line.Section? ==> |line.name| <= LINE_SIZE
    ensures line.Value? ==> |line.key| <= LINE_SIZE
  {
    hide Scan, Strip, Lower, Quoted, Head;
    var items := SScanf(l, Head(Quoted('\"')));
    if |items| != 2 {
      items := SScanf(l, Head(Quoted('\'')));
      if |items| != 2 {
        items := SScanf(l, Head(PLAIN));
      }
    }
    if |items| == 2 {
      var key := StripLower(items[0]);
      var val := StrStrip(items[1]);
      if val == "\"\"" || val == "''" {
        val := "";
      }
      return Value(key, val);
    }
    items := SScanf(l, Head(COMMENTED));
    if |items| != 2 {
      items := SScanf(l, NOTHING);
    }
    if |items| == 2 {
      var key := StripLower(items[0]);
      return Value(key, "");
    }
    line := Error;
  }

  /** The `switch` of the load loop; undefined when `tmp` cannot hold the key. */
  method StoreLine(d: D.Dictionary, line: string, section: string, errs: nat) returns (section': string, errs': nat)
    requires d.Valid() && |line| <= LINE_SIZE && |section| <= LINE_SIZE
    requires ApplyLine(LoadState("", section, d.slots, errs), line).Some?
    modifies d, d.val, d.key, d.hash
    ensures d.Valid() && |section'| <= LINE_SIZE
    ensures (fresh(d.val) || d.val == old(d.val)) && (fresh(d.key) || d.key == old(d.key)) && (fresh(d.hash) || d.hash == old(d.hash))
    ensures ApplyLine(LoadState("", section, old(d.slots), errs), line) ==
            Some(LoadState("", section', d.slots, errs'))
  {
    hide ParseLine, Set;
    section', errs' := section, errs;
    var parsed := ReadLine(line, section);
    match parsed {
      case Empty =>
      case Comment =>
      case Section(name) =>
        section' := name;
        var ok := d.Set(Some(name), None);
        errs' := 0;
      case Value(key, val) =>
        var ok := d.Set(Some(StoredKey(section, key)), Some(val));
        errs' := 0;
      case Error =>
        errs' := errs + 1;
    }
  }

  /** `iniparser_load` over the text of the file; null stands for NULL. */
  method LoadText(text: string) returns (dict: D.Dictionary?)
    requires Load(text) != Undefined
    ensures dict == null <==> Load(text) == Refused
    ensures dict != null ==> dict.Valid() && Load(text) == Loaded(dict.slots)
  {
    hide Load, LoadFrom, ApplyLine, StripRight, ChunkLength;
    var d := new D.Dictionary(0);
    LoadStarts(text);
    var line, section, last, errs, rest := "", "", 0, 0, text;
    while rest != ""
      invariant d.Valid() && fresh(d) && fresh(d.val) && fresh(d.key) && fresh(d.hash)
      invariant 0 <= last <= |line| && last + 1 < LINE_SIZE && |section| <= LINE_SIZE
      invariant |d.slots| > 0 && LoadFrom(LoadState(line[..last], section, d.slots, errs), rest) == Load(text)
      decreases |rest|
    {
      var room := LINE_SIZE - 1 - last;
      var n := ChunkLength(rest, room);
      OneTurn(LoadState(line[..last], section, d.slots, errs), rest);
      var eof := n < room && rest[n - 1] != '\n';
      line := line[..last] + rest[..n];
      rest := rest[n..];
      if |line| == 1 {
        last := 0;
        continue;
      }
      if line[|line| - 1] != '\n' && !eof {
        return null;
      }
      var len := TrimEnd(line);
      line := line[..len];
      if line[len - 1] == '\\' {
        last := len - 1;
        continue;
      }
      last := 0;
      section, errs := StoreLine(d, line, section, errs);
    }
    LoadEnds(LoadState(line[..last], section, d.slots, errs));
    dict := if errs != 0 then null else d;
  }

  lemma LoadEnds(st: LoadState)
    requires Ready(st)
    ensures LoadFrom(st, "") == if st.errs != 0 then Refused else Loaded(st.slots)
  {
  }

  /** The five ways a turn of the loop can go. */
  lemma OneTurn(st: LoadState, text: string)
    requires Ready(st) && text != ""
    ensures var room := LINE_SIZE - 1 - |st.pre|;
            var n := ChunkLength(text, room);
            var buf, rest := st.pre + text[..n], text[n..];
            var t := StripRight(buf);
            var eof := n < room && text[n - 1] != '\n';
            var st' := ApplyLine(st.(pre := ""), t);
            var go := LoadFrom(st, text);
            if |buf| == 1 then go == LoadFrom(st.(pre := ""), rest)
            else if buf[|buf| - 1] != '\n' && !eof then go == Refused
            else if t == "" then go == Undefined
            else if t[|t| - 1] == '\\' then go == LoadFrom(st.(pre := t[..|t| - 1]), rest)
            else if st'.None? then go == Undefined
            else go == LoadFrom(st'.value, rest)
  {
    hide ApplyLine, StripRight, ChunkLength;
  }

  lemma LoadStarts(text: string)
    ensures Load(text) == LoadFrom(LoadState("", "", Holes(128), 0), text)
    ensures History(0, []) == Holes(128)
  {
  }

  // ---- Lookup --------------------------------------------------------------

  method GetString(d: D.Dictionary?, key: Option<string>, def: Option<string>) returns (val: Option<string>)
    requires d != null ==> d.Valid()
    ensures val == if d == null then def else IniMeaning.GetString(d.slots, key, def)
  {
    if d == null || key.None? {
      return def;
    }
    var lower := StrLwc(key.value);
    val := d.Get(lower, def);
  }

  /** The arguments name a stored entry; None stands for a NULL string. */
  ghost predicate Names(d: D.Dictionary?, entry: Option<string>)
    reads d
  {
    d != null && entry.Some? && HasEntry(d.slots, entry.value)
  }

  /** `iniparser_find_entry`; the sentinel it compares with is no stored value. */
  method FindEntry(d: D.Dictionary?, entry: Option<string>) returns (found: bool)
    requires d != null ==> d.Valid()
    ensures found == Names(d, entry)
  {
    if d == null || entry.None? {
      return false;
    }
    var lower := StrLwc(entry.value);
    var h := D.Hash(lower);
    var i := d.Find(lower, h);
    found := i < d.size;
  }

  /** `iniparser_set`; false stands for -1. */
  method SetEntry(d: D.Dictionary?, entry: Option<string>, val: Option<string>) returns (ok: bool)
    requires d != null ==> d.Valid()
    modifies if d == null then {} else {d, d.val, d.key, d.hash}
    ensures ok == (d != null && entry.Some?)
    ensures d != null ==> d.Valid()
    ensures d != null ==> d.slots == if ok then Set(old(d.slots), Lowered(entry.value), val) else old(d.slots)
  {
    if d == null || entry.None? {
      return false;
    }
    var lower := StrLwc(entry.value);
    ok := d.Set(Some(lower), val);
  }

  /** `iniparser_unset`, which needs a dictionary. */
  method UnsetEntry(d: D.Dictionary, entry: Option<string>)
    requires d.Valid()
    modifies d, d.val, d.key, d.hash
    ensures d.Valid()
    ensures d.slots == if entry.Some? then Unset(old(d.slots), Lowered(entry.value)) else old(d.slots)
  {
    if entry.None? {
      return;
    }
    var lower := StrLwc(entry.value);
    d.Unset(Some(lower));
  }

  // ---- Enumeration ---------------------------------------------------------

  /** The sections among the first `i` slots. */
  ghost function SectionsTo(slots: Slots, i: nat): seq<string>
    requires i <= |slots|
  {
    Sections(slots[..i])
  }

  lemma SectionsToEnds(slots: Slots)
    ensures SectionsTo(slots, 0) == [] && SectionsTo(slots, |slots|) == Sections(slots)
  {
    assert slots[..|slots|] == slots;
  }

  lemma SectionsToNext(slots: Slots, i: nat)
    requires i < |slots|
    ensures SectionsTo(slots, i + 1) == SectionsTo(slots, i) + if IsSection(slots[i]) then [slots[i].key] else []
  {
    assert slots[..i + 1][..i] == slots[..i];
  }

  lemma {:induction false} SectionsPrefix(slots: Slots, i: nat)
    requires i <= |slots|
    ensures SectionsTo(slots, i) <= Sections(slots)
    decreases |slots|
  {
    if i < |slots| {
      SectionsPrefix(slots[..|slots| - 1], i);
      assert slots[..|slots| - 1][..i] == slots[..i];
    } else {
      assert slots[..i] == slots;
    }
  }

  /** A section is enumerated at the number of sections before it. */
  lemma SectionAt(slots: Slots, i: nat)
    requires i < |slots| && IsSection(slots[i])
    ensures var n := |SectionsTo(slots, i)|;
            n < |Sections(slots)| && Sections(slots)[n] == slots[i].key
  {
    SectionsToNext(slots, i);
    SectionsPrefix(slots, i + 1);
  }

  lemma ColonFound(key: string)
    ensures IndexOf(key, ':') == |key| <==> ':' !in key
  {
    IndexIsFirst(key, ':');
  }

  /** Whether the cell holds a key without a colon. */
  method SectionCell(d: D.Dictionary, i: nat) returns (section: bool)
    requires d.Valid() && i < d.size
    ensures d.Valid() && i < |d.slots| && section == IsSection(d.slots[i])
    ensures |SectionsTo(d.slots, i + 1)| == |SectionsTo(d.slots, i)| + if section then 1 else 0
  {
    d.Cell(i);
    SectionsToNext(d.slots, i);
    hide D.Dictionary.Valid, SectionsTo, IndexOf;
    section := false;
    if d.key[i].Some? {
      var key := d.key[i].value;
      ColonFound(key);
      section := IndexOf(key, ':') == |key|;
    }
  }

  /** `iniparser_getnsec` */
  method GetNSec(d: D.Dictionary?) returns (n: int)
    requires d != null ==> d.Valid()
    ensures n == if d == null then -1 else |Sections(d.slots)|
  {
    if d == null {
      return -1;
    }
    n := 0;
    d.Cell(0);
    hide *;
    SectionsToEnds(d.slots);
    for i := 0 to d.size
      invariant d.Valid() && n == |SectionsTo(d.slots, i)|
    {
      var section := SectionCell(d, i);
      if section {
        n := n + 1;
      }
    }
  }

  /** `iniparser_getsecname` */
  method GetSecName(d: D.Dictionary?, n: int) returns (name: Option<string>)
    requires d != null ==> d.Valid()
    ensures name == if d == null || n < 0 || n >= |Sections(d.slots)| then None else Some(Sections(d.slots)[n])
  {
    if d == null || n < 0 {
      return None;
    }
    name := FindSection(d, n);
  }

  /** The loop over the slots, up to section `n`. */
  method FindSection(d: D.Dictionary, n: nat) returns (name: Option<string>)
    requires d.Valid()
    ensures n < |Sections(d.slots)| ==> name == Some(Sections(d.slots)[n])
    ensures n >= |Sections(d.slots)| ==> name == None
  {
    var found: nat, i: nat := 0, 0;
    d.Cell(0);
    hide *;
    SectionsToEnds(d.slots);
    while i < d.size
      invariant d.Valid() && i <= d.size && found == |SectionsTo(d.slots, i)| <= n
    {
      var section := SectionCell(d, i);
      if section {
        found := found + 1;
        if found > n {
          SectionAt(d.slots, i);
          SectionKey(d, i);
          break;
        }
      }
      i := i + 1;
    }
    if found <= n {
      return None;
    }
    name := d.key[i];
  }

  lemma SectionKey(d: D.Dictionary, i: nat)
    requires d.Valid() && i < d.size && i < |d.slots| && IsSection(d.slots[i])
    ensures i < d.key.Length && d.key[i] == Some(d.slots[i].key)
  {
  }

  /** The keys of the section among the first `j` slots. */
  ghost function KeysTo(slots: Slots, j: nat, s: string): seq<string>
    requires j <= |slots|
  {
    KeysOf(slots[..j], s)
  }

  lemma KeysToEnds(slots: Slots, s: string)
    ensures KeysTo(slots, 0, s) == [] && KeysTo(slots, |slots|, s) == KeysOf(slots, s)
  {
    assert slots[..|slots|] == slots;
  }

  lemma KeysToNext(slots: Slots, j: nat, s: string)
    requires j < |slots|
    ensures KeysTo(slots, j + 1, s) == KeysTo(slots, j, s) + if InSection(slots[j], s) then [slots[j].key] else []
    ensures |KeysTo(slots, j + 1, s)| <= |KeysOf(slots, s)|
  {
    assert slots[..j + 1][..j] == slots[..j];
    KeysPrefix(slots, s, j + 1);
  }

  lemma {:induction false} KeysPrefix(slots: Slots, s: string, i: nat)
    requires i <= |slots|
    ensures |KeysOf(slots[..i], s)| <= |KeysOf(slots, s)|
    decreases |slots|
  {
    if i < |slots| {
      KeysPrefix(slots[..|slots| - 1], s, i);
      assert slots[..|slots| - 1][..i] == slots[..i];
    } else {
      assert slots[..i] == slots;
    }
  }

  /** `strncmp` of the cell's key with `keym`. */
  method KeyCell(d: D.Dictionary, j: nat, keym: string, ghost s: string) returns (member: bool)
    requires d.Valid() && j < d.size && keym == s + ":"
    ensures d.Valid() && j < |d.slots| && member == InSection(d.slots[j], s)
    ensures member ==> j < d.key.Length && d.key[j] == Some(d.slots[j].key)
  {
    d.Cell(j);
    hide D.Dictionary.Valid;
    member := d.key[j].Some? && StartsWith(d.key[j].value, keym);
  }

  /** `iniparser_getsecnkeys`; `keym` must hold a stored section's name and a colon. */
  method GetSecNKeys(d: D.Dictionary?, s: Option<string>) returns (n: nat)
    requires d != null ==> d.Valid()
    requires Names(d, s) ==> |s.value| < LINE_SIZE
    ensures n == if d == null || s.None? then 0 else SectionKeyCount(d.slots, s.value)
  {
    n := 0;
    if d == null {
      return;
    }
    var found := FindEntry(d, s);
    if !found {
      return;
    }
    n := CountKeys(d, s.value);
  }

  method CountKeys(d: D.Dictionary, s: string) returns (n: nat)
    requires d.Valid()
    ensures n == |KeysOf(d.slots, s)|
  {
    n := 0;
    var keym := s + ":";
    d.Cell(0);
    hide *;
    KeysToEnds(d.slots, s);
    for j := 0 to d.size
      invariant d.Valid() && n == |KeysTo(d.slots, j, s)|
    {
      var member := KeyCell(d, j, keym, s);
      KeysToNext(d.slots, j, s);
      if member {
        n := n + 1;
      }
    }
  }

  /** `iniparser_getseckeys`: the counting pass sizes the array, this one fills all of it. */
  method GetSecKeys(d: D.Dictionary?, s: Option<string>) returns (keys: array?<string>)
    requires d != null ==> d.Valid()
    requires Names(d, s) ==> |s.value| < LINE_SIZE
    ensures keys == null <==> !Names(d, s)
    ensures keys != null ==> keys[..] == KeysOf(d.slots, s.value)
  {
    if d == null {
      return null;
    }
    var found := FindEntry(d, s);
    if !found {
      return null;
    }
    var nkeys := GetSecNKeys(d, s);
    keys := new string[nkeys](_ => "");
    FillKeys(d, s.value, keys);
  }

  method FillKeys(d: D.Dictionary, s: string, keys: array<string>)
    requires d.Valid() && keys.Length == |KeysOf(d.slots, s)|
    modifies keys
    ensures keys[..] == KeysOf(d.slots, s)
  {
    var keym := s + ":";
    var i: nat := 0;
    d.Cell(0);
    hide *;
    KeysToEnds(d.slots, s);
    for j := 0 to d.size
      invariant d.Valid() && i <= keys.Length && keys[..i] == KeysTo(d.slots, j, s)
    {
      i := FillCell(d, j, keym, s, keys, i);
    }
    assert |keys[..i]| == keys.Length;
  }

  /** One turn of the loop. */
  method FillCell(d: D.Dictionary, j: nat, keym: string, ghost s: string, keys: array<string>, i: nat) returns (i': nat)
    requires d.Valid() && j < d.size == |d.slots| && keym == s + ":"
    requires keys.Length == |KeysOf(d.slots, s)| && i <= keys.Length && keys[..i] == KeysTo(d.slots, j, s)
    modifies keys
    ensures d.Valid() && i' <= keys.Length && keys[..i'] == KeysTo(d.slots, j + 1, s)
  {
    var member := KeyCell(d, j, keym, s);
    KeysToNext(d.slots, j, s);
    hide *;
    i' := i;
    if member {
      keys[i] := d.key[j].value;
      i' := i + 1;
    }
  }

  // ---- The dump ------------------------------------------------------------

  /** `iniparser_dumpsection_ini`: `f` is the file so far; None stands for a NULL pointer. */
  method DumpSectionIni(d: D.Dictionary?, s: Option<string>, f: Option<string>) returns (f': Option<string>)
    requires d != null ==> d.Valid()
    requires Names(d, s) ==> |s.value| < LINE_SIZE
    ensures f' == if d == null || s.None? || f.None? then f else Some(f.value + DumpSection(d.slots, s.value))
  {
    f' := f;
    if d == null || f.None? {
      return;
    }
    var found := FindEntry(d, s);
    if !found {
      assert f.value + "" == f.value;
      return;
    }
    hide KeyText, HasEntry, D.Dictionary.Valid;
    var keys := DumpKeys(d, s.value);
    f' := Some(f.value + "\n" + PrintSection(s.value) + "\n" + keys + "\n");
    assert f'.value == f.value + ("\n" + PrintSection(s.value) + "\n" + keys + "\n");
  }

  lemma KeyTextSnoc(slots: Slots, i: nat, s: string)
    requires i < |slots|
    ensures KeyText(slots[..i + 1], s) == KeyText(slots[..i], s) +
            if InSection(slots[i], s) then PrintKey(slots[i].key[|s| + 1..], TextOf(slots[i].val)) + "\n" else ""
  {
    hide PrintKey;
    assert slots[..i + 1][..i] == slots[..i];
  }

  /** The loop over the keys of the section. */
  method DumpKeys(d: D.Dictionary, s: string) returns (out: string)
    requires d.Valid()
    ensures out == KeyText(d.slots, s)
  {
    var keym := s + ":";
    out := "";
    d.Cell(0);
    for j := 0 to d.size
      invariant out == KeyText(d.slots[..j], s)
    {
      hide D.Dictionary.Valid, KeyText, PrintKey;
      d.Cell(j);
      KeyTextSnoc(d.slots, j, s);
      if d.key[j].Some? && StartsWith(d.key[j].value, keym) {
        var val := if d.val[j].Some? then d.val[j].value else "";
        out := out + (PrintKey(d.key[j].value[|s| + 1..], val) + "\n");
      }
    }
    assert d.slots[..d.size] == d.slots;
  }

  /** The branch of `iniparser_dump_ini` for a dictionary without sections. */
  method DumpPlain(d: D.Dictionary) returns (out: string)
    requires d.Valid()
    ensures out == PlainText(d.slots)
  {
    out := "";
    for i := 0 to d.size
      invariant out == PlainText(d.slots[..i])
    {
      assert d.slots[..i + 1][..i] == d.slots[..i];
      if d.key[i].Some? {
        out := out + (d.key[i].value + " = " + (if d.val[i].Some? then d.val[i].value else "(null)") + "\n");
      }
    }
    assert d.slots[..d.size] == d.slots;
  }

  /** `iniparser_dump_ini`; every section name must leave room for a colon in `keym`. */
  method DumpIni(d: D.Dictionary?, f: Option<string>) returns (f': Option<string>)
    requires d != null ==> d.Valid()
    requires d != null ==> forall name | name in Sections(d.slots) :: |name| < LINE_SIZE
    ensures f' == if d == null || f.None? then f else Some(f.value + IniDump.DumpIni(d.slots))
  {
    f' := f;
    if d == null || f.None? {
      return;
    }
    var out: string;
    var nsec := GetNSec(d);
    if nsec < 1 {
      out := DumpPlain(d);
    } else {
      hide D.Dictionary.Valid, Sections, DumpSections;
      out := DumpEach(d, nsec);
      out := out + "\n";
    }
    f' := Some(f.value + out);
  }

  /** The loop over the sections. */
  method DumpEach(d: D.Dictionary, nsec: int) returns (out: string)
    requires d.Valid() && nsec == |Sections(d.slots)|
    requires forall name | name in Sections(d.slots) :: |name| < LINE_SIZE
    ensures out == DumpSections(d.slots, Sections(d.slots))
  {
    hide D.Dictionary.Valid, Sections, DumpSection;
    ghost var names := Sections(d.slots);
    out := "";
    for i := 0 to nsec
      invariant out == DumpSections(d.slots, names[..i])
    {
      assert names[..i + 1][..i] == names[..i];
      var secname := GetSecName(d, i);
      assert names[i] in names;
      var f := DumpSectionIni(d, secname, Some(out));
      out := f.value;
    }
    assert names[..nsec] == names;
  }
}
