/** Dumping a dictionary and loading the dump gives the dictionary back, and the
    same dump again. */
module IniRoundTrip {
  import opened CStrings
  import opened Sequences
  import opened DictionaryModel
  import opened IniLine
  import opened IniFormat
  import opened IniLoad
  import opened IniMeaning
  import opened IniDump
  import opened IniReload

  // ---- Every dumped line stands alone --------------------------------------

  lemma EntryStands(slot: Slot, section: string)
    requires ':' !in section && InSection(slot, section) && ':' in slot.key && GoodEntry(slot)
    ensures StandsAlone(PrintKey(slot.key[|section| + 1..], TextOf(slot.val)))
  {
    hide StripRight, Strip, KeyPart, Continues, PrintKey, GoodKey, LooksBracketed, StartsWith;
    KeyPartOf(slot.key, section);
    var k, v := KeyPart(slot.key), TextOf(slot.val);
    PrintedOnOneLine(k, v);
    PrintedEnds(k, v);
  }

  lemma PrintedOnOneLine(k: string, v: string)
    requires '\n' !in k && '\n' !in v
    ensures '\n' !in PrintKey(k, v)
  {
    assert '\n' !in Pad(k) && '\n' !in " = ";
  }

  lemma PrintedEnds(k: string, v: string)
    requires GoodKey(k)
    ensures StripRight(PrintKey(k, v)) != ""
    ensures Continues(StripRight(PrintKey(k, v))) <==> Continues(StripRight(v))
  {
    hide StripRight, Strip, Spaces, PrintKey;
    PrintedStrips(k, v);
    var l, t := Shown(k, v), StripRight(v);
    assert l[|l| - 1] == if t == "" then '=' else t[|t| - 1];
  }

  lemma HeaderStands(name: string)
    requires GoodHeader(Used(name, None))
    ensures StandsAlone(PrintSection(name))
  {
    BracketsStay(name);
  }

  lemma {:induction false} KeyLinesStand(slots: Slots, section: string)
    requires ':' !in section
    requires forall i | 0 <= i < |slots| && slots[i].Used? && ':' in slots[i].key :: GoodEntry(slots[i])
    ensures forall line | line in KeyLines(slots, section) :: StandsAlone(line)
  {
    if slots != [] {
      hide GoodEntry, StandsAlone;
      var init, last := slots[..|slots| - 1], slots[|slots| - 1];
      KeyLinesStand(init, section);
      if InSection(last, section) {
        KeyPartOf(last.key, section);
        EntryStands(last, section);
      }
    }
  }

  lemma {:induction false} DumpStands(slots: Slots, names: seq<string>)
    requires forall name | name in names :: GoodHeader(Used(name, None)) && ':' !in name
    requires forall i | 0 <= i < |slots| && slots[i].Used? && ':' in slots[i].key :: GoodEntry(slots[i])
    ensures forall line | line in DumpLines(slots, names) :: StandsAlone(line)
  {
    if names != [] {
      assert StandsAlone("");
      hide GoodEntry, GoodHeader, StandsAlone, KeyLines;
      var init, last := names[..|names| - 1], names[|names| - 1];
      assert last in names && forall name | name in init :: name in names;
      DumpStands(slots, init);
      KeyLinesStand(slots, last);
      HeaderStands(last);
    }
  }

  // ---- The dump loads ------------------------------------------------------

  lemma NamesAreGood(slots: Slots)
    requires Dumpable(slots)
    ensures Distinct(Sections(slots))
    ensures forall name | name in Sections(slots) ::
              ':' !in name && GoodHeader(Used(name, None)) && HasEntry(slots, name)
  {
    SectionsAreDistinct(slots);
    forall name | name in Sections(slots)
      ensures GoodHeader(Used(name, None)) && HasEntry(slots, name)
    {
      SectionsAre(slots, name);
      var i :| 0 <= i < |slots| && IsSection(slots[i]) && slots[i].key == name;
      assert GoodHeader(slots[i]);
      StoredIsFound(slots, i);
    }
  }

  lemma DumpHasLines(slots: Slots)
    requires Dumpable(slots) && Sections(slots) != []
    ensures DumpIni(slots) == Unlines(DumpLines(slots, Sections(slots)) + [""])
  {
    NamesAreGood(slots);
    hide DumpLines, DumpSections, HasEntry, Distinct;
    DumpIsLines(slots, Sections(slots));
    UnlinesConcat(DumpLines(slots, Sections(slots)), [""]);
    UnlinesOne("");
  }

  lemma DumpJoinsNothing(slots: Slots)
    requires Dumpable(slots)
    ensures var lines := DumpLines(slots, Sections(slots));
            Fits("", lines + [""]) && Logical("", lines + [""]) == Kept(lines)
  {
    var lines := DumpLines(slots, Sections(slots));
    NamesAreGood(slots);
    hide DumpLines, GoodEntry, GoodHeader, HasEntry, Kept, StandsAlone, Distinct, Fits, Logical;
    DumpStands(slots, Sections(slots));
    KeptNothing();
    KeptConcat(lines, [""]);
    NothingToJoin(lines + [""]);
    assert Kept(lines) + [] == Kept(lines);
  }

  lemma DumpLoads(slots: Slots)
    requires Dumpable(slots) && Sections(slots) != []
    ensures var r := Load(DumpIni(slots));
            r.Loaded? && Packed(r.slots, Blocks(slots, Sections(slots)))
  {
    var names, st := Sections(slots), LoadState("", "", Holes(128), 0);
    assert st.slots == [] + Holes(128);
    NamesAreGood(slots);
    hide GoodEntry, GoodHeader, HasEntry, Distinct, DumpLines, Blocks, Kept, DumpIni, Unlines, LoadFrom, Fits, Logical;
    DumpHasLines(slots);
    DumpJoinsNothing(slots);
    BlocksAreDistinct(slots, names);
    BlocksApply(st, slots, names);
    LoadIsFold(st, DumpLines(slots, names) + [""]);
  }

  lemma KeptNothing()
    ensures Kept([""]) == [] && StandsAlone("")
  {
    assert [""][1..] == [];
  }

  // ---- And dumps again -----------------------------------------------------

  lemma {:induction false} SameDump(a: Slots, b: Slots, names: seq<string>)
    requires forall name | name in names ::
               HasEntry(a, name) && HasEntry(b, name) && KeyText(a, name) == KeyText(b, name)
    ensures DumpSections(a, names) == DumpSections(b, names)
  {
    if names != [] {
      hide HasEntry, KeyText;
      var init, last := names[..|names| - 1], names[|names| - 1];
      assert last in names && forall name | name in init :: name in names;
      SameDump(a, b, init);
    }
  }

  lemma ReloadedHas(slots: Slots, names: seq<string>, reloaded: Slots, j: nat)
    requires Packed(reloaded, Blocks(slots, names)) && (forall name | name in names :: ':' !in name)
    requires j < |slots| && slots[j].Used? && OwnerOf(slots[j].key) in names
    ensures exists i :: 0 <= i < |reloaded| && HasKey(reloaded[i], slots[j].key)
  {
    BlocksHave(slots, names, j);
    var i :| 0 <= i < |Blocks(slots, names)| && HasKey(Blocks(slots, names)[i], slots[j].key);
    assert reloaded[i] == Blocks(slots, names)[i];
  }

  /** Under each section the reloaded dictionary prints the stored keys of that section. */
  lemma ReloadedPrints(slots: Slots, reloaded: Slots, name: string)
    requires Dumpable(slots) && name in Sections(slots)
    requires Packed(reloaded, Blocks(slots, Sections(slots)))
    ensures Sections(reloaded) == Sections(slots) && HasEntry(slots, name) && HasEntry(reloaded, name)
    ensures ':' !in name && KeyText(reloaded, name) == KeyText(KeySlots(slots, name), name)
  {
    var names := Sections(slots);
    NamesAreGood(slots);
    BlocksHaveSections(slots, names);
    BlocksPrint(slots, names, name);
    PackedPrints(reloaded, Blocks(slots, names), name);
    SectionsAre(slots, name);
    var j :| 0 <= j < |slots| && IsSection(slots[j]) && slots[j].key == name;
    ReloadedHas(slots, names, reloaded, j);
    var i :| 0 <= i < |reloaded| && HasKey(reloaded[i], name);
    StoredIsFound(reloaded, i);
  }

  lemma ReloadedDumpsAlike(slots: Slots, reloaded: Slots)
    requires Dumpable(slots) && Sections(slots) != []
    requires Packed(reloaded, Blocks(slots, Sections(slots))) && GoodValues(slots)
    ensures DumpIni(reloaded) == DumpIni(slots)
  {
    var names := Sections(slots);
    ReloadedPrints(slots, reloaded, names[0]);
    forall name | name in names
      ensures HasEntry(reloaded, name) && HasEntry(slots, name) && KeyText(reloaded, name) == KeyText(slots, name)
    {
      ReloadedPrints(slots, reloaded, name);
      KeySlotsPrint(slots, name);
      forall i | 0 <= i < |slots| && InSection(slots[i], name)
        ensures GoodValue(TextOf(slots[i].val))
      {
        PrefixDecides(slots[i].key, name);
      }
    }
    SameDump(reloaded, slots, names);
  }

  lemma SectionLength(slots: Slots, name: string)
    requires HasEntry(slots, name)
    ensures |DumpSection(slots, name)| == |PrintSection(name)| + 3 + |KeyText(slots, name)|
  {
  }

  /** Sections that print no longer, and one that prints shorter, make a shorter dump. */
  lemma {:induction false} ShorterDump(a: Slots, b: Slots, names: seq<string>, shorter: string)
    requires forall name | name in names ::
               HasEntry(a, name) && HasEntry(b, name) && |KeyText(a, name)| <= |KeyText(b, name)|
    ensures |DumpSections(a, names)| <= |DumpSections(b, names)|
    ensures shorter in names && |KeyText(a, shorter)| < |KeyText(b, shorter)| ==>
              |DumpSections(a, names)| < |DumpSections(b, names)|
  {
    if names != [] {
      var init, last := names[..|names| - 1], names[|names| - 1];
      hide HasEntry, KeyText, PrintSection, DumpSection;
      assert last in names && forall name | name in init :: name in names;
      ShorterDump(a, b, init, shorter);
      SectionLength(a, last);
      SectionLength(b, last);
      assert shorter in names ==> shorter in init || shorter == last;
    }
  }

  /** A value that does not read back makes the second dump shorter than the first. */
  lemma ReloadedDumpsShorter(slots: Slots, reloaded: Slots)
    requires Dumpable(slots) && Sections(slots) != []
    requires Packed(reloaded, Blocks(slots, Sections(slots))) && !GoodValues(slots)
    ensures |DumpIni(reloaded)| < |DumpIni(slots)|
  {
    var names := Sections(slots);
    ReloadedPrints(slots, reloaded, names[0]);
    forall name | name in names
      ensures HasEntry(reloaded, name) && HasEntry(slots, name) && |KeyText(reloaded, name)| <= |KeyText(slots, name)|
    {
      ReloadedPrints(slots, reloaded, name);
      KeySlotsPrint(slots, name);
    }
    var i :| 0 <= i < |slots| && slots[i].Used? && ':' in slots[i].key && !GoodValue(TextOf(slots[i].val));
    var section := PrefixOf(slots[i].key);
    ReloadedPrints(slots, reloaded, section);
    PrefixDecides(slots[i].key, section);
    KeySlotsPrint(slots, section);
    assert !GoodValuesIn(slots, section);
    ShorterDump(reloaded, slots, names, section);
  }

  // ---- The same map --------------------------------------------------------

  /** The map with NULL values of keys read as the empty text. */
  function Normal(m: map<string, Option<string>>): map<string, Option<string>> {
    map k | k in m :: if ':' in k && m[k].None? then Some("") else m[k]
  }

  /** The map with every value of a key as the parser rereads it. */
  function RereadMap(m: map<string, Option<string>>): map<string, Option<string>> {
    map k | k in m :: if ':' in k then Some(Reread(TextOf(m[k]))) else m[k]
  }

  lemma ReloadedMap(slots: Slots, reloaded: Slots)
    requires Dumpable(slots)
    requires Packed(reloaded, Blocks(slots, Sections(slots)))
    ensures ToMap(reloaded) == RereadMap(ToMap(slots))
  {
    hide Reread;
    var names, m := Sections(slots), RereadMap(ToMap(slots));
    var entries := Blocks(slots, names);
    NamesAreGood(slots);
    BlocksAreDistinct(slots, names);
    assert DistinctKeys(reloaded) by {
      assert forall i | 0 <= i < |reloaded| && reloaded[i].Used? :: i < |entries| && reloaded[i] == entries[i];
    }
    forall i | 0 <= i < |reloaded| && reloaded[i].Used?
      ensures reloaded[i].key in m && m[reloaded[i].key] == reloaded[i].val
    {
      assert reloaded[i] == entries[i];
      BlocksFrom(slots, names, i);
      EntryInMap(slots, entries[i]);
    }
    forall k | k in m
      ensures exists i :: 0 <= i < |reloaded| && HasKey(reloaded[i], k)
    {
      var j :| 0 <= j < |slots| && HasKey(slots[j], k);
      SectionsAre(slots, k);
      ReloadedHas(slots, names, reloaded, j);
    }
    MapIs(reloaded, m);
  }

  lemma EntryInMap(slots: Slots, entry: Slot)
    requires Dumpable(slots) && entry.Used?
    requires (entry.key in Sections(slots) && entry.val == None) || FromKey(slots, entry)
    ensures var m := RereadMap(ToMap(slots)); entry.key in m && m[entry.key] == entry.val
  {
    hide Reread;
    if FromKey(slots, entry) {
      var j :| 0 <= j < |slots| && slots[j].Used? && ':' in slots[j].key
               && entry == Used(slots[j].key, Some(Reread(TextOf(slots[j].val))));
      ToMapAt(slots, j);
    } else {
      SectionsAre(slots, entry.key);
      var i :| 0 <= i < |slots| && IsSection(slots[i]) && slots[i].key == entry.key;
      assert GoodHeader(slots[i]);
      ToMapAt(slots, i);
    }
  }

  /** A dictionary of good sections and keys always reloads, with the same keys; each
      value is what the parser makes of its printed text. */
  lemma DumpReloads(slots: Slots)
    requires Dumpable(slots)
    ensures var r := Load(DumpIni(slots));
            r.Loaded? && ToMap(r.slots) == RereadMap(ToMap(slots))
  {
    if Sections(slots) != [] {
      DumpLoads(slots);
      ReloadedMap(slots, Load(DumpIni(slots)).slots);
    } else {
      NothingStored(slots);
    }
  }

  /** The reloaded map is the original, NULL key values read as empty, exactly when every value is good. */
  lemma RoundTripExactly(slots: Slots)
    requires Dumpable(slots)
    ensures Load(DumpIni(slots)).Loaded?
    ensures ToMap(Load(DumpIni(slots)).slots) == Normal(ToMap(slots)) <==> GoodValues(slots)
  {
    hide Reread, Load, DumpIni, GoodValue, ToMap;
    var m := ToMap(slots);
    DumpReloads(slots);
    forall i | 0 <= i < |slots| && slots[i].Used? && ':' in slots[i].key
      ensures slots[i].key in m
      ensures RereadMap(m)[slots[i].key] == Normal(m)[slots[i].key] <==> GoodValue(TextOf(slots[i].val))
    {
      ToMapAt(slots, i);
      RereadReturns(TextOf(slots[i].val));
    }
    if GoodValues(slots) {
      forall k | k in m
        ensures RereadMap(m)[k] == Normal(m)[k]
      {
        var i :| 0 <= i < |slots| && HasKey(slots[i], k);
      }
      assert RereadMap(m) == Normal(m);
    }
  }

  /** And exactly then the second dump is the first, to the character. */
  lemma DumpLoadDump(slots: Slots)
    requires Dumpable(slots)
    ensures Load(DumpIni(slots)).Loaded?
    ensures DumpIni(Load(DumpIni(slots)).slots) == DumpIni(slots) <==> GoodValues(slots)
  {
    if Sections(slots) != [] {
      DumpLoads(slots);
      var reloaded := Load(DumpIni(slots)).slots;
      if GoodValues(slots) {
        ReloadedDumpsAlike(slots, reloaded);
      } else {
        ReloadedDumpsShorter(slots, reloaded);
      }
    } else {
      NothingStored(slots);
      NoKeysAtAll(slots);
    }
  }

  lemma NoKeysAtAll(slots: Slots)
    requires Dumpable(slots) && Sections(slots) == []
    ensures GoodValues(slots)
  {
  }

  lemma NothingStored(slots: Slots)
    requires Dumpable(slots) && Sections(slots) == []
    ensures DumpIni(slots) == "" && Load("") == Loaded(Holes(128))
    ensures ToMap(slots) == map[] == ToMap(Holes(128)) && DumpIni(Holes(128)) == ""
  {
    forall i | 0 <= i < |slots|
      ensures slots[i].Hole?
    {
      if slots[i].Used? && ':' !in slots[i].key {
        SectionsAre(slots, slots[i].key);
      }
    }
    HolesAreEmpty(slots);
    HolesAreEmpty(Holes(128));
    assert ToMap(slots) == map[];
    assert ToMap(Holes(128)) == map[];
  }

  lemma {:induction false} HolesAreEmpty(slots: Slots)
    requires forall i | 0 <= i < |slots| :: slots[i].Hole?
    ensures DumpIni(slots) == ""
    ensures PlainText(slots) == "" && Sections(slots) == []
  {
    if slots != [] {
      HolesAreEmpty(slots[..|slots| - 1]);
    }
  }

  // ---- Why a value may not end in a backslash ------------------------------

  /** A key printed with a value that ends in a backslash takes the next line into its own:
      of the two lines at most one assignment is left, whatever the next line says. */
  lemma BackslashSwallowsNext(k: string, v: string, next: string, section: string)
    requires GoodKey(k) && Continues(StripRight(v))
    ensures |Assignments(section, Logical("", [PrintKey(k, v), next]))| <= 1
  {
    hide PrintKey, StripRight, ParseLine, GoodKey;
    var line := PrintKey(k, v);
    PrintedEnds(k, v);
    assert "" + line == line && [line, next][1..] == [next] && [next][1..] == [];
    var t := StripRight(line);
    var j := Joined(t[..|t| - 1] + next);
    assert Joined(line) == (t[..|t| - 1], []);
    assert Logical(t[..|t| - 1], [next]) == j.1 + Logical(j.0, []) == j.1;
    assert Logical("", [line, next]) == [] + j.1 == j.1;
    if j.1 != [] {
      AssignmentShape(section, j.1[0]);
      assert Assignments(SectionAfter(section, j.1[0]), j.1[1..]) == [];
    }
  }
}
