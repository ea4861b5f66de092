/** What a loaded file means, said without the loader: a list of assignments, the
    last of which wins, and the condition under which a file is refused. */
module IniMeaning {
  import opened CStrings
  import opened DictionaryModel
  import opened IniLine
  import opened IniFormat
  import opened IniLoad

  datatype Assignment = Assignment(key: string, val: Option<string>)

  /** A section header assigns NULL to its name, a value line its value to `section:key`. */
  function AssignmentOf(section: string, line: string): seq<Assignment> {
    match ParseLine(line, section)
    case Section(name) => [Assignment(name, None)]
    case Value(key, val) => [Assignment(StoredKey(section, key), Some(val))]
    case _ => []
  }

  function SectionAfter(section: string, line: string): string {
    match ParseLine(line, section)
    case Section(name) => name
    case _ => section
  }

  function Assignments(section: string, lines: seq<string>): seq<Assignment>
    decreases |lines|
  {
    if lines == [] then []
    else AssignmentOf(section, lines[0]) + Assignments(SectionAfter(section, lines[0]), lines[1..])
  }

  function Assign(m: map<string, Option<string>>, a: seq<Assignment>): map<string, Option<string>>
    decreases |a|
  {
    if a == [] then m else Assign(m[a[0].key := a[0].val], a[1..])
  }

  /** The last assignment to a key wins; a key nothing is assigned to keeps what it had. */
  lemma {:induction false} LastAssignmentWins(m: map<string, Option<string>>, a: seq<Assignment>, i: nat)
    requires i < |a| && forall j | i < j < |a| :: a[j].key != a[i].key
    ensures a[i].key in Assign(m, a) && Assign(m, a)[a[i].key] == a[i].val
    decreases |a|
  {
    if i == 0 {
      UnassignedKeeps(m[a[0].key := a[0].val], a[1..], a[0].key);
    } else {
      LastAssignmentWins(m[a[0].key := a[0].val], a[1..], i - 1);
    }
  }

  lemma {:induction false} UnassignedKeeps(m: map<string, Option<string>>, a: seq<Assignment>, key: string)
    requires forall j | 0 <= j < |a| :: a[j].key != key
    ensures key in Assign(m, a) <==> key in m
    ensures key in m ==> Assign(m, a)[key] == m[key]
    decreases |a|
  {
    if a != [] {
      UnassignedKeeps(m[a[0].key := a[0].val], a[1..], key);
    }
  }

  lemma AssignConcat(m: map<string, Option<string>>, a: seq<Assignment>, b: seq<Assignment>)
    requires |a| <= 1
    ensures Assign(m, a + b) == Assign(Assign(m, a), b)
  {
    if a != [] {
      assert (a + b)[1..] == b;
    } else {
      assert a + b == b;
    }
  }

  lemma ApplyLineAssigns(st: LoadState, line: string)
    requires |st.slots| > 0 && DistinctKeys(st.slots) && ApplyLine(st, line).Some?
    ensures var st' := ApplyLine(st, line).value;
            && DistinctKeys(st'.slots) && st'.section == SectionAfter(st.section, line)
            && ToMap(st'.slots) == Assign(ToMap(st.slots), AssignmentOf(st.section, line))
  {
    hide ParseLine, Set, ToMap, DistinctKeys;
    match ParseLine(line, st.section)
    case Section(name) => SetRefines(st.slots, name, None);
    case Value(key, val) => SetRefines(st.slots, StoredKey(st.section, key), Some(val));
    case _ =>
  }

  lemma {:induction false} ApplyLinesAssign(st: LoadState, lines: seq<string>)
    requires |st.slots| > 0 && DistinctKeys(st.slots) && ApplyLines(st, lines).Some?
    ensures var st' := ApplyLines(st, lines).value;
            && DistinctKeys(st'.slots)
            && ToMap(st'.slots) == Assign(ToMap(st.slots), Assignments(st.section, lines))
    decreases |lines|
  {
    if lines != [] {
      hide ParseLine, ApplyLine;
      ApplyLineAssigns(st, lines[0]);
      AssignmentShape(st.section, lines[0]);
      ApplyLinesAssign(ApplyLine(st, lines[0]).value, lines[1..]);
      AssignConcat(ToMap(st.slots), AssignmentOf(st.section, lines[0]),
                   Assignments(SectionAfter(st.section, lines[0]), lines[1..]));
    }
  }

  lemma AssignmentShape(section: string, line: string)
    ensures |AssignmentOf(section, line)| <= 1
  {
  }

  /** A file that loads means its assignments, in order, to an empty map: comments and
      blank lines assign nothing, and a section that is opened again goes on. */
  lemma LoadMeans(lines: seq<string>)
    requires Fits("", lines) && Load(Unlines(lines)).Loaded?
    ensures var slots := Load(Unlines(lines)).slots;
            && DistinctKeys(slots)
            && ToMap(slots) == Assign(map[], Assignments("", Logical("", lines)))
  {
    var st := LoadState("", "", Holes(128), 0);
    LoadIsFold(st, lines);
    MapIs(Holes(128), map[]);
    ApplyLinesAssign(st, Logical("", lines));
  }

  // ---- When a file is refused ----------------------------------------------

  predicate IsError(line: string) {
    ParseLine(line, "").Error?
  }

  /** A line that resets the error count, whatever came before it. */
  predicate Forgives(line: string) {
    var r := ParseLine(line, "");
    r.Section? || r.Value?
  }

  lemma KindOfLine(line: string, section: string)
    ensures IsError(line) <==> ParseLine(line, section).Error?
    ensures Forgives(line) <==> ParseLine(line, section).Section? || ParseLine(line, section).Value?
  {
    hide Strip, Scan, ParseValue, Lower;
  }

  /** An error that no later section or value line forgives. */
  ghost predicate EndsInError(lines: seq<string>) {
    exists i :: 0 <= i < |lines| && IsError(lines[i]) && forall j | i < j < |lines| :: !Forgives(lines[j])
  }

  ghost predicate NoneForgives(lines: seq<string>) {
    forall j | 0 <= j < |lines| :: !Forgives(lines[j])
  }

  lemma {:induction false} ErrorsCount(st: LoadState, lines: seq<string>)
    requires |st.slots| > 0 && ApplyLines(st, lines).Some?
    ensures ApplyLines(st, lines).value.errs > 0 <==>
            EndsInError(lines) || (st.errs > 0 && NoneForgives(lines))
    decreases |lines|
  {
    if lines != [] {
      var st', rest := ApplyLine(st, lines[0]).value, lines[1..];
      ErrorsCount(st', rest);
      KindOfLine(lines[0], st.section);
      EndsInErrorCons(lines);
    }
  }

  lemma EndsInErrorCons(lines: seq<string>)
    requires lines != []
    ensures EndsInError(lines) <==> EndsInError(lines[1..]) || (IsError(lines[0]) && NoneForgives(lines[1..]))
    ensures NoneForgives(lines) <==> !Forgives(lines[0]) && NoneForgives(lines[1..])
  {
    hide IsError, Forgives;
    var rest := lines[1..];
    assert forall j | 0 < j < |lines| :: lines[j] == rest[j - 1];
    assert forall j | 0 <= j < |rest| :: rest[j] == lines[j + 1];
    if EndsInError(lines) {
      var i :| 0 <= i < |lines| && IsError(lines[i]) && forall j | i < j < |lines| :: !Forgives(lines[j]);
      if i > 0 {
        assert IsError(rest[i - 1]) && forall j | i - 1 < j < |rest| :: !Forgives(rest[j]);
      }
    }
    if EndsInError(rest) {
      var i :| 0 <= i < |rest| && IsError(rest[i]) && forall j | i < j < |rest| :: !Forgives(rest[j]);
      assert IsError(lines[i + 1]) && forall j | i + 1 < j < |lines| :: !Forgives(lines[j]);
    }
    if IsError(lines[0]) && NoneForgives(rest) {
      assert forall j | 0 < j < |lines| :: !Forgives(lines[j]);
    }
  }

  /** A file is refused exactly when it has a syntax error that no later section or
      value line forgives; any other syntax error goes unnoticed. */
  lemma RefusedExactly(lines: seq<string>)
    requires Fits("", lines) && Load(Unlines(lines)) != Undefined
    ensures Load(Unlines(lines)) == Refused <==> EndsInError(Logical("", lines))
  {
    var st := LoadState("", "", Holes(128), 0);
    LoadIsFold(st, lines);
    ErrorsCount(st, Logical("", lines));
  }

  // ---- Stored keys ---------------------------------------------------------

  predicate GoodName(s: string) {
    Trimmed(s) && Lower(s) == s
  }

  /** The keys a file can store: a section name, or a name and a key joined by a colon. */
  ghost predicate Canonical(k: string) {
    GoodName(k) || exists s, key :: GoodName(s) && GoodKey(key) && k == StoredKey(s, key)
  }

  lemma CanonicalIsLower(k: string)
    requires Canonical(k)
    ensures Lower(k) == k
  {
    if !GoodName(k) {
      var s, key :| GoodName(s) && GoodKey(key) && k == StoredKey(s, key);
      LowerConcat(s + ":", key);
      LowerConcat(s, ":");
    }
  }

  lemma ParsedNameIsGood(line: string, section: string)
    ensures ParseLine(line, section).Section? ==> GoodName(ParseLine(line, section).name)
  {
    hide ParseValue, Scan, Strip;
    var l := Strip(line);
    if l != "" && !IsComment(l) && IsBracketed(l) {
      var items := Scan(BRACKETED, l);
      var name := if |items| == 1 then items[0] else section;
      StripTrims(name);
      LowerTrimmed(Strip(name));
      LowerIdempotent(Strip(name));
    } else if ParseLine(line, section).Section? {
      ParseValueIsSplit(l);
    }
  }

  lemma {:induction false} AssignedKeysAreCanonical(section: string, lines: seq<string>)
    requires GoodName(section)
    ensures forall a | a in Assignments(section, lines) :: Canonical(a.key)
    decreases |lines|
  {
    if lines != [] {
      hide ParseLine, GoodKey, GoodName;
      var line := lines[0];
      ParsedNameIsGood(line, section);
      if ParseLine(line, section).Value? {
        ParsedKeyIsGood(line, section);
      }
      AssignedKeysAreCanonical(SectionAfter(section, line), lines[1..]);
    }
  }

  lemma {:induction false} AssignKeys(m: map<string, Option<string>>, a: seq<Assignment>, k: string)
    ensures k in Assign(m, a) ==> k in m || exists i :: 0 <= i < |a| && a[i].key == k
    decreases |a|
  {
    if a != [] {
      AssignKeys(m[a[0].key := a[0].val], a[1..], k);
      if i :| 0 <= i < |a| - 1 && a[1..][i].key == k {
        assert a[i + 1].key == k;
      }
    }
  }

  /** Every key of a loaded dictionary is trimmed and lower-case around its section and its key. */
  lemma LoadedKeysAreCanonical(lines: seq<string>, k: string)
    requires Fits("", lines) && Load(Unlines(lines)).Loaded?
    requires k in ToMap(Load(Unlines(lines)).slots)
    ensures Canonical(k) && Lower(k) == k
  {
    LoadMeans(lines);
    AssignedKeysAreCanonical("", Logical("", lines));
    AssignKeys(map[], Assignments("", Logical("", lines)), k);
    CanonicalIsLower(k);
  }

  // ---- Lookup in any letter case -------------------------------------------

  /** What `strlwc` makes of an argument. */
  function Lowered(s: string): string {
    Lower(if |s| <= LINE_SIZE then s else s[..LINE_SIZE])
  }

  /** The first 1024 characters in lower case. */
  lemma LoweredIs(s: string, i: nat)
    requires i < |Lowered(s)|
    ensures |Lowered(s)| == (if |s| <= 1024 then |s| else 1024)
    ensures Lowered(s)[i] as int == s[i] as int + if 65 <= s[i] as int <= 90 then 32 else 0
  {
    LowerCodes(if |s| <= 1024 then s else s[..1024], i);
  }

  /** `iniparser_getstring` */
  function GetString(slots: Slots, key: Option<string>, def: Option<string>): Option<string> {
    if key.None? then def else Get(slots, Lowered(key.value), def)
  }

  /** Every stored key of a loaded dictionary is found under every spelling of its letters. */
  lemma FoundInAnyCase(lines: seq<string>, k: string, query: string, def: Option<string>)
    requires Fits("", lines) && Load(Unlines(lines)).Loaded?
    requires |query| <= LINE_SIZE && Lower(query) == Lower(k)
    ensures var slots := Load(Unlines(lines)).slots;
            k in ToMap(slots) ==> GetString(slots, Some(query), def) == ToMap(slots)[k]
  {
    var slots := Load(Unlines(lines)).slots;
    LoadMeans(lines);
    if k in ToMap(slots) {
      LoadedKeysAreCanonical(lines, k);
      GetRefines(slots, k, def);
    }
  }

  ghost predicate LowerCaseKeys(slots: Slots) {
    forall k | k in ToMap(slots) :: Lower(k) == k
  }

  /** `iniparser_set` and `iniparser_unset` keep every key lower-case, and act on the
      entry their argument names in any letter case. */
  lemma SetAndUnsetKeepLowerCase(slots: Slots, entry: string, val: Option<string>)
    requires |slots| > 0 && DistinctKeys(slots) && LowerCaseKeys(slots)
    ensures LowerCaseKeys(Set(slots, Lowered(entry), val)) && LowerCaseKeys(Unset(slots, Lowered(entry)))
    ensures GetString(Set(slots, Lowered(entry), val), Some(entry), None) == val
    ensures forall def :: GetString(Unset(slots, Lowered(entry)), Some(entry), def) == def
  {
    var k := Lowered(entry);
    LowerIdempotent(if |entry| <= LINE_SIZE then entry else entry[..LINE_SIZE]);
    SetRefines(slots, k, val);
    UnsetRefines(slots, k);
    GetRefines(Set(slots, k, val), k, None);
    forall def
      ensures GetString(Unset(slots, k), Some(entry), def) == def
    {
      GetRefines(Unset(slots, k), k, def);
    }
  }
}
