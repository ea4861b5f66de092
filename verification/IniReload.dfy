/** What loading a dump stores: one entry after the other, section by section. */
module IniReload {
  import opened CStrings
  import opened Sequences
  import opened DictionaryModel
  import opened IniLine
  import opened IniFormat
  import opened IniLoad
  import opened IniMeaning
  import opened IniDump

  // ---- The dictionaries that survive ---------------------------------------

  /** A section: the name comes back from its header, on one line, and has no value. */
  predicate GoodHeader(slot: Slot)
    requires slot.Used?
  {
    && slot.key != "" && GoodName(slot.key) && ']' !in slot.key && '\n' !in slot.key
    && |slot.key| + 3 < LINE_SIZE
    && slot.val.None?
  }

  function KeyPart(key: string): string
    requires ':' in key
  {
    IndexIsFirst(key, ':');
    key[|PrefixOf(key)| + 1..]
  }

  /** A key: what is printed for it is one line that names the key and asks for no other
      line.  The value may be any text of one line, even one that does not read back. */
  predicate GoodEntry(slot: Slot)
    requires slot.Used? && ':' in slot.key
  {
    var k, v := KeyPart(slot.key), TextOf(slot.val);
    && GoodKey(k) && '\n' !in k && '\n' !in v
    && !LooksBracketed(k, StripRight(v)) && !Continues(StripRight(v))
    && |PrintKey(k, v)| + 1 < LINE_SIZE && |slot.key| <= LINE_SIZE
  }

  ghost predicate Dumpable(slots: Slots) {
    && DistinctKeys(slots)
    && Owned(slots, Sections(slots))
    && (forall i | 0 <= i < |slots| && slots[i].Used? && ':' in slots[i].key :: GoodEntry(slots[i]))
    && (forall i | 0 <= i < |slots| && IsSection(slots[i]) :: GoodHeader(slots[i]))
  }

  /** Every value is one that reads back. */
  ghost predicate GoodValues(slots: Slots) {
    forall i | 0 <= i < |slots| && slots[i].Used? && ':' in slots[i].key :: GoodValue(TextOf(slots[i].val))
  }

  // ---- The dump as lines ---------------------------------------------------

  function KeyLines(slots: Slots, section: string): seq<string> {
    if slots == [] then []
    else
      var last := slots[|slots| - 1];
      KeyLines(slots[..|slots| - 1], section) +
      if InSection(last, section) then [PrintKey(last.key[|section| + 1..], TextOf(last.val))] else []
  }

  function DumpLines(slots: Slots, names: seq<string>): seq<string> {
    if names == [] then []
    else
      var last := names[|names| - 1];
      DumpLines(slots, names[..|names| - 1]) + (["", PrintSection(last)] + KeyLines(slots, last) + [""])
  }

  lemma {:induction false} UnlinesConcat(a: seq<string>, b: seq<string>)
    ensures Unlines(a + b) == Unlines(a) + Unlines(b)
  {
    if a == [] {
      assert a + b == b;
    } else {
      assert (a + b)[1..] == a[1..] + b;
      UnlinesConcat(a[1..], b);
    }
  }

  lemma UnlinesOne(line: string)
    ensures Unlines([line]) == line + "\n"
  {
    assert Unlines([line][1..]) == "";
  }

  lemma {:induction false} KeyTextIsLines(slots: Slots, section: string)
    ensures KeyText(slots, section) == Unlines(KeyLines(slots, section))
  {
    if slots != [] {
      var init, last := slots[..|slots| - 1], slots[|slots| - 1];
      KeyTextIsLines(init, section);
      if InSection(last, section) {
        var line := PrintKey(last.key[|section| + 1..], TextOf(last.val));
        UnlinesConcat(KeyLines(init, section), [line]);
        UnlinesOne(line);
      } else {
        assert KeyLines(init, section) + [] == KeyLines(init, section);
      }
    }
  }

  lemma SectionIsLines(slots: Slots, name: string)
    requires HasEntry(slots, name)
    ensures DumpSection(slots, name) == Unlines(["", PrintSection(name)] + KeyLines(slots, name) + [""])
  {
    hide PrintSection, KeyText, KeyLines, HasEntry;
    var lines := KeyLines(slots, name);
    KeyTextIsLines(slots, name);
    UnlinesOne("");
    UnlinesOne(PrintSection(name));
    UnlinesConcat([""], [PrintSection(name)]);
    assert [""] + [PrintSection(name)] == ["", PrintSection(name)];
    UnlinesConcat(["", PrintSection(name)], lines);
    UnlinesConcat(["", PrintSection(name)] + lines, [""]);
  }

  lemma {:induction false} DumpIsLines(slots: Slots, names: seq<string>)
    requires forall name | name in names :: HasEntry(slots, name)
    ensures DumpSections(slots, names) == Unlines(DumpLines(slots, names))
  {
    if names != [] {
      var init, last := names[..|names| - 1], names[|names| - 1];
      assert last in names && forall name | name in init :: name in names;
      DumpIsLines(slots, init);
      SectionIsLines(slots, last);
      UnlinesConcat(DumpLines(slots, init), ["", PrintSection(last)] + KeyLines(slots, last) + [""]);
    }
  }

  // ---- Lines that join nothing ---------------------------------------------

  /** A bare newline, or a line that stands by itself. */
  predicate StandsAlone(line: string) {
    && '\n' !in line && |line| + 1 < LINE_SIZE
    && (line == "" || (StripRight(line) != "" && !Continues(StripRight(line))))
  }

  function Kept(lines: seq<string>): seq<string> {
    if lines == [] then []
    else (if lines[0] == "" then [] else [StripRight(lines[0])]) + Kept(lines[1..])
  }

  lemma {:induction false} KeptConcat(a: seq<string>, b: seq<string>)
    ensures Kept(a + b) == Kept(a) + Kept(b)
  {
    if a == [] {
      assert a + b == b;
    } else {
      assert (a + b)[1..] == a[1..] + b;
      KeptConcat(a[1..], b);
    }
  }

  lemma {:induction false} NothingToJoin(lines: seq<string>)
    requires forall line | line in lines :: StandsAlone(line)
    ensures Fits("", lines) && Logical("", lines) == Kept(lines)
  {
    if lines != [] {
      hide StripRight, Continues;
      assert lines[0] in lines && "" + lines[0] == lines[0];
      NothingToJoin(lines[1..]);
    }
  }

  // ---- What the loader stores ----------------------------------------------

  /** `slots` is these entries, in order, and then holes. */
  ghost predicate Packed(slots: Slots, entries: Slots) {
    && 0 < |slots| && |entries| <= |slots|
    && slots == entries + Holes(|slots| - |entries|)
    && forall i | 0 <= i < |entries| :: entries[i].Used?
  }

  lemma {:induction false} CountUsed(s: Slots)
    requires forall i | 0 <= i < |s| :: s[i].Used?
    ensures Count(s) == |s|
  {
    if s != [] {
      CountUsed(s[..|s| - 1]);
    }
  }

  lemma DistinctPrefix(a: Slots, b: Slots)
    requires DistinctKeys(a + b)
    ensures DistinctKeys(a)
  {
    assert forall i | 0 <= i < |a| :: (a + b)[i] == a[i];
  }

  /** A new key goes right behind the entries, however often the arrays double. */
  lemma SetAppends(slots: Slots, entries: Slots, key: string, val: Option<string>)
    requires Packed(slots, entries) && DistinctKeys(entries + [Used(key, val)])
    ensures Packed(Set(slots, key, val), entries + [Used(key, val)])
  {
    var n := |entries|;
    var more := entries + [Used(key, val)];
    CountUsed(entries);
    CountHoles(entries, |slots| - n);
    assert forall i | 0 <= i < n :: more[i] == entries[i];
    assert more[n] == Used(key, val);
    assert Find(slots, key) == |slots|;
    CountHoles(slots, |slots|);
    var g := Grown(slots);
    assert g == entries + Holes(|g| - n);
    assert g[n].Hole?;
    assert HoleFrom(g, n) == n;
    assert Set(slots, key, val) == more + Holes(|g| - n - 1);
  }

  /** The entries a section contributes, each value as the parser rereads it. */
  function KeySlots(slots: Slots, section: string): Slots {
    if slots == [] then []
    else
      var last := slots[|slots| - 1];
      KeySlots(slots[..|slots| - 1], section) +
      if InSection(last, section) then [Used(last.key, Some(Reread(TextOf(last.val))))] else []
  }

  function Blocks(slots: Slots, names: seq<string>): Slots {
    if names == [] then []
    else
      var last := names[|names| - 1];
      Blocks(slots, names[..|names| - 1]) + ([Used(last, None)] + KeySlots(slots, last))
  }

  lemma {:induction false} ApplyConcat(st: LoadState, a: seq<string>, b: seq<string>)
    requires |st.slots| > 0
    ensures var r := ApplyLines(st, a);
            ApplyLines(st, a + b) == if r.None? then None else ApplyLines(r.value, b)
    decreases |a|
  {
    if a == [] {
      assert a + b == b;
    } else {
      hide ApplyLine;
      assert (a + b)[1..] == a[1..] + b;
      var st' := ApplyLine(st, a[0]);
      if st'.Some? {
        ApplyConcat(st'.value, a[1..], b);
      }
    }
  }

  lemma ApplyOne(st: LoadState, line: string)
    requires |st.slots| > 0
    ensures ApplyLines(st, [line]) == ApplyLine(st, line)
  {
    hide ApplyLine;
    var st' := ApplyLine(st, line);
    if st'.Some? {
      assert [line][1..] == [];
      assert ApplyLines(st'.value, []) == st';
    }
  }

  /** Clean load states: no error pending, the entries packed. */
  ghost predicate Holds(st: LoadState, section: string, entries: Slots) {
    st.pre == "" && st.errs == 0 && st.section == section && Packed(st.slots, entries)
  }

  lemma HeaderApplies(st: LoadState, entries: Slots, name: string)
    requires Packed(st.slots, entries) && st.pre == "" && st.errs == 0
    requires GoodHeader(Used(name, None)) && DistinctKeys(entries + [Used(name, None)])
    ensures var r := ApplyLine(st, PrintSection(name));
            r.Some? && Holds(r.value, name, entries + [Used(name, None)])
  {
    hide ParseLine, Packed, Set;
    PrintedSectionReturns(name, st.section);
    SetAppends(st.slots, entries, name, None);
  }

  lemma KeyPartOf(key: string, section: string)
    requires ':' !in section && StartsWith(key, section + ":")
    ensures ':' in key && PrefixOf(key) == section && KeyPart(key) == key[|section| + 1..]
    ensures key == StoredKey(section, KeyPart(key))
  {
    PrefixDecides(key, section);
    assert key == key[..|section| + 1] + key[|section| + 1..];
  }

  lemma StrippedAgain(line: string, section: string)
    requires StripRight(line) == Strip(line)
    ensures ParseLine(StripRight(line), section) == ParseLine(line, section)
  {
    hide Strip, StripRight, ParseValue, Scan, Lower;
    StripTrims(line);
    StripTrims(Strip(line));
  }

  lemma EntryApplies(st: LoadState, entries: Slots, slot: Slot, section: string)
    requires Holds(st, section, entries) && ':' !in section && InSection(slot, section)
    requires ':' in slot.key && GoodEntry(slot)
    requires DistinctKeys(entries + [Used(slot.key, Some(Reread(TextOf(slot.val))))])
    ensures var k, v := slot.key[|section| + 1..], TextOf(slot.val);
            var r := ApplyLine(st, StripRight(PrintKey(k, v)));
            r.Some? && Holds(r.value, section, entries + [Used(slot.key, Some(Reread(v)))])
  {
    hide ParseLine, Packed, Set, StripRight, PrintKey, Reread, GoodEntry, StartsWith, KeyPart;
    KeyPartOf(slot.key, section);
    var k, v := KeyPart(slot.key), TextOf(slot.val);
    EntryLine(slot, section);
    SetAppends(st.slots, entries, slot.key, Some(Reread(v)));
  }

  /** The line printed for a good entry, its blank end gone, parses to the key and the reread value. */
  lemma EntryLine(slot: Slot, section: string)
    requires slot.Used? && ':' in slot.key && GoodEntry(slot)
    ensures var k, v := KeyPart(slot.key), TextOf(slot.val);
            ParseLine(StripRight(PrintKey(k, v)), section) == Value(k, Reread(v))
    ensures |slot.key| <= LINE_SIZE
  {
    hide ParseLine, StripRight, Strip, PrintKey, Reread, LooksBracketed;
    var k, v := KeyPart(slot.key), TextOf(slot.val);
    PrintedStrips(k, v);
    StrippedAgain(PrintKey(k, v), section);
    PrintedParses(k, v, section);
  }

  // ---- Storing the lines of a section, and of all sections -----------------

  lemma {:induction false} KeysApply(st: LoadState, slots: Slots, section: string, entries: Slots)
    requires Holds(st, section, entries) && ':' !in section
    requires forall i | 0 <= i < |slots| && slots[i].Used? && ':' in slots[i].key :: GoodEntry(slots[i])
    requires DistinctKeys(entries + KeySlots(slots, section))
    ensures var r := ApplyLines(st, Kept(KeyLines(slots, section)));
            r.Some? && Holds(r.value, section, entries + KeySlots(slots, section))
  {
    hide Reread;
    if slots == [] {
      assert entries + [] == entries;
    } else {
      var init, last := slots[..|slots| - 1], slots[|slots| - 1];
      var done := entries + KeySlots(init, section);
      if InSection(last, section) {
        var entry := Used(last.key, Some(Reread(TextOf(last.val))));
        assert entries + KeySlots(slots, section) == done + [entry];
        DistinctPrefix(done, [entry]);
        KeysApply(st, init, section, entries);
        KeyPartOf(last.key, section);
        var mid := ApplyLines(st, Kept(KeyLines(init, section))).value;
        var line := PrintKey(last.key[|section| + 1..], TextOf(last.val));
        EntryApplies(mid, done, last, section);
        KeptOne(line);
        KeptConcat(KeyLines(init, section), [line]);
        ApplyConcat(st, Kept(KeyLines(init, section)), Kept([line]));
        ApplyOne(mid, StripRight(line));
      } else {
        assert entries + KeySlots(slots, section) == done;
        assert KeyLines(slots, section) == KeyLines(init, section);
        KeysApply(st, init, section, entries);
      }
    }
  }

  lemma KeptOne(line: string)
    requires line != ""
    ensures Kept([line]) == [StripRight(line)]
  {
    assert [line][1..] == [];
  }

  /** The lines of one section, as the dump writes them. */
  function BlockLines(slots: Slots, name: string): seq<string> {
    ["", PrintSection(name)] + KeyLines(slots, name) + [""]
  }

  lemma KeptBlock(slots: Slots, name: string)
    ensures Kept(BlockLines(slots, name)) == [PrintSection(name)] + Kept(KeyLines(slots, name))
  {
    hide StripRight;
    var lines := KeyLines(slots, name);
    KeptConcat(["", PrintSection(name)] + lines, [""]);
    KeptConcat(["", PrintSection(name)], lines);
    assert ["", PrintSection(name)][1..] == [PrintSection(name)];
    KeptOne(PrintSection(name));
    assert [""][1..] == [];
    BracketsStay(name);
  }

  lemma BracketsStay(name: string)
    ensures StripRight(PrintSection(name)) == PrintSection(name)
  {
  }

  lemma Regroup(a: Slots, b: Slots, c: Slots)
    ensures a + (b + c) == (a + b) + c
  {
  }

  lemma BlockApplies(st: LoadState, slots: Slots, entries: Slots, name: string)
    requires Packed(st.slots, entries) && st.pre == "" && st.errs == 0 && ':' !in name
    requires forall i | 0 <= i < |slots| && slots[i].Used? && ':' in slots[i].key :: GoodEntry(slots[i])
    requires GoodHeader(Used(name, None))
    requires DistinctKeys(entries + ([Used(name, None)] + KeySlots(slots, name)))
    ensures var r := ApplyLines(st, Kept(BlockLines(slots, name)));
            r.Some? && Holds(r.value, name, entries + ([Used(name, None)] + KeySlots(slots, name)))
  {
    assert |st.slots| > 0;
    hide *;
    var header := entries + [Used(name, None)];
    Regroup(entries, [Used(name, None)], KeySlots(slots, name));
    DistinctPrefix(header, KeySlots(slots, name));
    HeaderApplies(st, entries, name);
    var mid := ApplyLine(st, PrintSection(name)).value;
    KeysApply(mid, slots, name, header);
    KeptBlock(slots, name);
    ApplyOne(st, PrintSection(name));
    ApplyConcat(st, [PrintSection(name)], Kept(KeyLines(slots, name)));
  }

  lemma {:induction false} BlocksApply(st: LoadState, slots: Slots, names: seq<string>)
    requires st.pre == "" && st.errs == 0 && Packed(st.slots, [])
    requires forall i | 0 <= i < |slots| && slots[i].Used? && ':' in slots[i].key :: GoodEntry(slots[i])
    requires forall name | name in names :: GoodHeader(Used(name, None)) && ':' !in name
    requires DistinctKeys(Blocks(slots, names))
    ensures var r := ApplyLines(st, Kept(DumpLines(slots, names)));
            && r.Some? && r.value.pre == "" && r.value.errs == 0
            && Packed(r.value.slots, Blocks(slots, names))
  {
    if names != [] {
      hide GoodEntry, GoodHeader, Packed;
      var init, last := names[..|names| - 1], names[|names| - 1];
      assert last in names && forall name | name in init :: name in names;
      DistinctPrefix(Blocks(slots, init), [Used(last, None)] + KeySlots(slots, last));
      BlocksApply(st, slots, init);
      var mid := ApplyLines(st, Kept(DumpLines(slots, init))).value;
      BlockApplies(mid, slots, Blocks(slots, init), last);
      KeptConcat(DumpLines(slots, init), BlockLines(slots, last));
      ApplyConcat(st, Kept(DumpLines(slots, init)), Kept(BlockLines(slots, last)));
    }
  }

  // ---- What the second dump sees -------------------------------------------

  lemma {:induction false} KeyTextConcat(a: Slots, b: Slots, section: string)
    ensures KeyText(a + b, section) == KeyText(a, section) + KeyText(b, section)
  {
    hide PrintKey, InSection;
    if b == [] {
      assert a + b == a;
    } else {
      assert (a + b)[..|a + b| - 1] == a + b[..|b| - 1];
      KeyTextConcat(a, b[..|b| - 1], section);
    }
  }

  lemma {:induction false} SectionsConcat(a: Slots, b: Slots)
    ensures Sections(a + b) == Sections(a) + Sections(b)
  {
    hide IsSection;
    if b == [] {
      assert a + b == a;
    } else {
      assert (a + b)[..|a + b| - 1] == a + b[..|b| - 1];
      SectionsConcat(a, b[..|b| - 1]);
    }
  }

  lemma {:induction false} HolesPrintNothing(n: nat, section: string)
    ensures KeyText(Holes(n), section) == "" && Sections(Holes(n)) == []
  {
    if n > 0 {
      assert Holes(n)[..n - 1] == Holes(n - 1);
      HolesPrintNothing(n - 1, section);
    }
  }

  /** The stored keys of a section are no sections, and no other section's keys. */
  lemma {:induction false} KeySlotsElsewhere(slots: Slots, section: string, other: string)
    requires ':' !in section && ':' !in other
    ensures Sections(KeySlots(slots, section)) == []
    ensures other != section ==> KeyText(KeySlots(slots, section), other) == ""
  {
    hide Reread, PrintKey;
    if slots != [] {
      var init, last := slots[..|slots| - 1], slots[|slots| - 1];
      KeySlotsElsewhere(init, section, other);
      if InSection(last, section) {
        var entry := Used(last.key, Some(Reread(TextOf(last.val))));
        KeyPartOf(last.key, section);
        PrefixDecides(last.key, other);
        KeyTextConcat(KeySlots(init, section), [entry], other);
        SectionsConcat(KeySlots(init, section), [entry]);
        PrintOne(entry, other);
        assert KeySlots(slots, section) == KeySlots(init, section) + [entry];
      } else {
        assert KeySlots(slots, section) == KeySlots(init, section);
      }
    }
  }

  /** A section whose values all read back prints as it did; any other prints shorter. */
  lemma {:induction false} KeySlotsPrint(slots: Slots, section: string)
    requires ':' !in section
    ensures GoodValuesIn(slots, section) ==> KeyText(KeySlots(slots, section), section) == KeyText(slots, section)
    ensures !GoodValuesIn(slots, section) ==> |KeyText(KeySlots(slots, section), section)| < |KeyText(slots, section)|
  {
    if slots != [] {
      var init, last := slots[..|slots| - 1], slots[|slots| - 1];
      KeySlotsPrint(init, section);
      GoodValuesSnoc(slots, section);
      hide Reread, GoodValue, GoodValuesIn, PrintKey;
      if InSection(last, section) {
        var v := TextOf(last.val);
        var entry := Used(last.key, Some(Reread(v)));
        RereadReturns(v);
        RereadShrinks(v);
        PrintKeyLength(last.key[|section| + 1..], v);
        PrintKeyLength(last.key[|section| + 1..], Reread(v));
        KeyTextConcat(KeySlots(init, section), [entry], section);
        PrintOne(entry, section);
        assert KeySlots(slots, section) == KeySlots(init, section) + [entry];
      } else {
        assert KeySlots(slots, section) == KeySlots(init, section);
      }
    }
  }

  /** Every value of the section is one that reads back. */
  ghost predicate GoodValuesIn(slots: Slots, section: string) {
    forall i | 0 <= i < |slots| && InSection(slots[i], section) :: GoodValue(TextOf(slots[i].val))
  }

  lemma GoodValuesSnoc(slots: Slots, section: string)
    requires slots != []
    ensures var init, last := slots[..|slots| - 1], slots[|slots| - 1];
            GoodValuesIn(slots, section) <==>
            GoodValuesIn(init, section) && (InSection(last, section) ==> GoodValue(TextOf(last.val)))
  {
    hide GoodValue, InSection;
    var init := slots[..|slots| - 1];
    assert forall i | 0 <= i < |init| :: slots[i] == init[i];
  }

  lemma PrintKeyLength(k: string, v: string)
    ensures |PrintKey(k, v)| == (if |k| < 30 then 30 else |k|) + 3 + |v|
  {
  }

  lemma PrintOne(slot: Slot, section: string)
    ensures Sections([slot]) == if IsSection(slot) then [slot.key] else []
    ensures KeyText([slot], section) ==
            if InSection(slot, section) then PrintKey(slot.key[|section| + 1..], TextOf(slot.val)) + "\n" else ""
  {
    hide PrintKey;
    assert [slot][..0] == [];
    assert KeyText([], section) == "" && Sections([]) == [];
  }

  lemma BlockPrints(slots: Slots, name: string, section: string)
    requires ':' !in name && ':' !in section
    ensures var block := [Used(name, None)] + KeySlots(slots, name);
            && Sections(block) == [name]
            && KeyText(block, section) == if section == name then KeyText(KeySlots(slots, section), section) else ""
  {
    hide KeyText, KeySlots, Sections;
    KeyTextConcat([Used(name, None)], KeySlots(slots, name), section);
    SectionsConcat([Used(name, None)], KeySlots(slots, name));
    PrintOne(Used(name, None), section);
    PrefixDecides(name, section);
    KeySlotsElsewhere(slots, name, section);
  }

  lemma {:induction false} BlocksHaveSections(slots: Slots, names: seq<string>)
    requires forall i | 0 <= i < |names| :: ':' !in names[i]
    ensures Sections(Blocks(slots, names)) == names
  {
    if names != [] {
      hide KeyText, KeySlots, Sections;
      var init, last := names[..|names| - 1], names[|names| - 1];
      BlocksHaveSections(slots, init);
      BlockPrints(slots, last, last);
      var block := [Used(last, None)] + KeySlots(slots, last);
      SectionsConcat(Blocks(slots, init), block);
      assert Blocks(slots, names) == Blocks(slots, init) + block;
      hide *;
      assert names == init + [last];
    } else {
      assert Sections([]) == [];
    }
  }

  /** The stored entries print, under each section, the stored keys of that section. */
  lemma {:induction false} BlocksPrint(slots: Slots, names: seq<string>, section: string)
    requires ':' !in section && forall i | 0 <= i < |names| :: ':' !in names[i]
    ensures section !in names ==> KeyText(Blocks(slots, names), section) == ""
    ensures section in names && Distinct(names) ==>
              KeyText(Blocks(slots, names), section) == KeyText(KeySlots(slots, section), section)
  {
    if names != [] {
      hide KeyText, KeySlots, Sections, Distinct;
      var init, last := names[..|names| - 1], names[|names| - 1];
      BlocksPrint(slots, init, section);
      BlockPrints(slots, last, section);
      KeyTextConcat(Blocks(slots, init), [Used(last, None)] + KeySlots(slots, last), section);
      DistinctNamesSnoc(names, section);
    } else {
      assert KeyText([], section) == "";
    }
  }

  lemma DistinctNamesSnoc(names: seq<string>, section: string)
    requires names != []
    ensures var init, last := names[..|names| - 1], names[|names| - 1];
            && (section in names <==> section in init || section == last)
            && (Distinct(names) ==> Distinct(init) && last !in init)
  {
  }

  lemma PackedPrints(slots: Slots, entries: Slots, section: string)
    requires Packed(slots, entries)
    ensures Sections(slots) == Sections(entries) && KeyText(slots, section) == KeyText(entries, section)
  {
    hide KeyText, Sections;
    var n := |slots| - |entries|;
    KeyTextConcat(entries, Holes(n), section);
    SectionsConcat(entries, Holes(n));
    HolesPrintNothing(n, section);
    assert KeyText(entries, section) + "" == KeyText(entries, section);
    assert Sections(entries) + [] == Sections(entries);
  }

  // ---- Which entries the loader stores, each once --------------------------

  /** The section an entry is printed under. */
  function OwnerOf(key: string): string {
    if ':' in key then PrefixOf(key) else key
  }

  /** The entry a key of the dumped dictionary becomes. */
  ghost predicate FromKey(slots: Slots, entry: Slot) {
    exists j :: 0 <= j < |slots| && slots[j].Used? && ':' in slots[j].key
                && entry == Used(slots[j].key, Some(Reread(TextOf(slots[j].val))))
  }

  lemma {:induction false} KeySlotsFrom(slots: Slots, section: string, i: nat)
    requires i < |KeySlots(slots, section)| && ':' !in section
    ensures var e := KeySlots(slots, section)[i];
            FromKey(slots, e) && OwnerOf(e.key) == section
  {
    hide Reread;
    var init, last := slots[..|slots| - 1], slots[|slots| - 1];
    if i < |KeySlots(init, section)| {
      KeySlotsFrom(init, section, i);
      var e := KeySlots(slots, section)[i];
      var j :| 0 <= j < |init| && init[j].Used? && ':' in init[j].key
               && e == Used(init[j].key, Some(Reread(TextOf(init[j].val))));
      assert slots[j] == init[j];
    } else {
      KeyPartOf(last.key, section);
      assert slots[|slots| - 1] == last;
    }
  }

  lemma {:induction false} KeySlotsHave(slots: Slots, section: string, j: nat)
    requires j < |slots| && InSection(slots[j], section)
    ensures exists i :: 0 <= i < |KeySlots(slots, section)| && HasKey(KeySlots(slots, section)[i], slots[j].key)
  {
    hide Reread;
    var init, n := slots[..|slots| - 1], |slots| - 1;
    if j < n {
      KeySlotsHave(init, section, j);
      var i :| 0 <= i < |KeySlots(init, section)| && HasKey(KeySlots(init, section)[i], init[j].key);
      assert HasKey(KeySlots(slots, section)[i], slots[j].key);
    } else {
      assert HasKey(KeySlots(slots, section)[|KeySlots(init, section)|], slots[j].key);
    }
  }

  lemma DistinctConcat(a: Slots, b: Slots)
    requires DistinctKeys(a) && DistinctKeys(b)
    requires forall i, j | 0 <= i < |a| && 0 <= j < |b| && a[i].Used? && b[j].Used? :: a[i].key != b[j].key
    ensures DistinctKeys(a + b)
  {
  }

  lemma {:induction false} KeySlotsAreDistinct(slots: Slots, section: string)
    requires DistinctKeys(slots) && ':' !in section
    ensures DistinctKeys(KeySlots(slots, section))
  {
    hide Reread;
    if slots != [] {
      var init, last := slots[..|slots| - 1], slots[|slots| - 1];
      KeySlotsAreDistinct(init, section);
      if InSection(last, section) {
        forall i | 0 <= i < |KeySlots(init, section)|
          ensures KeySlots(init, section)[i].Used? && KeySlots(init, section)[i].key != last.key
        {
          KeySlotsFrom(init, section, i);
          var j :| 0 <= j < |init| && init[j].Used? && KeySlots(init, section)[i].key == init[j].key;
          assert slots[j] == init[j];
        }
        DistinctConcat(KeySlots(init, section), [Used(last.key, Some(Reread(TextOf(last.val))))]);
      }
    }
  }

  lemma BlockFrom(slots: Slots, name: string, i: nat)
    requires ':' !in name && i < 1 + |KeySlots(slots, name)|
    ensures var e := ([Used(name, None)] + KeySlots(slots, name))[i];
            e.Used? && OwnerOf(e.key) == name && (e == Used(name, None) || FromKey(slots, e))
  {
    hide Reread;
    if i > 0 {
      KeySlotsFrom(slots, name, i - 1);
    }
  }

  lemma {:induction false} BlocksFrom(slots: Slots, names: seq<string>, i: nat)
    requires (forall name | name in names :: ':' !in name) && i < |Blocks(slots, names)|
    ensures var e := Blocks(slots, names)[i];
            && e.Used? && OwnerOf(e.key) in names
            && ((e.key in names && e.val == None) || FromKey(slots, e))
  {
    hide Reread;
    hide FromKey, OwnerOf, KeySlots;
    var init, last := names[..|names| - 1], names[|names| - 1];
    assert last in names && forall name | name in init :: name in names;
    if i < |Blocks(slots, init)| {
      BlocksFrom(slots, init, i);
    } else {
      BlockFrom(slots, last, i - |Blocks(slots, init)|);
    }
  }

  lemma BlockIsDistinct(slots: Slots, name: string)
    requires DistinctKeys(slots) && ':' !in name
    ensures DistinctKeys([Used(name, None)] + KeySlots(slots, name))
  {
    hide Reread;
    KeySlotsAreDistinct(slots, name);
    forall j | 0 <= j < |KeySlots(slots, name)|
      ensures KeySlots(slots, name)[j].Used? && KeySlots(slots, name)[j].key != name
    {
      KeySlotsFrom(slots, name, j);
    }
    DistinctConcat([Used(name, None)], KeySlots(slots, name));
  }

  lemma {:induction false} BlocksAreDistinct(slots: Slots, names: seq<string>)
    requires DistinctKeys(slots) && Distinct(names)
    requires forall name | name in names :: ':' !in name
    ensures DistinctKeys(Blocks(slots, names))
  {
    if names != [] {
      hide FromKey, OwnerOf, KeySlots, DistinctKeys;
      var init, last := names[..|names| - 1], names[|names| - 1];
      assert last in names && forall name | name in init :: name in names;
      DistinctNamesSnoc(names, last);
      BlocksAreDistinct(slots, init);
      BlockIsDistinct(slots, last);
      var a, b := Blocks(slots, init), [Used(last, None)] + KeySlots(slots, last);
      forall i, j | 0 <= i < |a| && 0 <= j < |b|
        ensures a[i].Used? && b[j].Used? && a[i].key != b[j].key
      {
        BlocksFrom(slots, init, i);
        BlockFrom(slots, last, j);
      }
      DistinctConcat(a, b);
    } else {
      assert DistinctKeys([]);
    }
  }

  lemma {:induction false} BlocksHave(slots: Slots, names: seq<string>, j: nat)
    requires j < |slots| && slots[j].Used? && OwnerOf(slots[j].key) in names
    requires forall name | name in names :: ':' !in name
    ensures exists i :: 0 <= i < |Blocks(slots, names)| && HasKey(Blocks(slots, names)[i], slots[j].key)
  {
    hide Reread;
    var init, last := names[..|names| - 1], names[|names| - 1];
    var b := [Used(last, None)] + KeySlots(slots, last);
    var n := |Blocks(slots, init)|;
    assert last in names && forall name | name in init :: name in names;
    if OwnerOf(slots[j].key) in init {
      BlocksHave(slots, init, j);
      var i :| 0 <= i < n && HasKey(Blocks(slots, init)[i], slots[j].key);
      assert HasKey(Blocks(slots, names)[i], slots[j].key);
    } else if ':' in slots[j].key {
      PrefixDecides(slots[j].key, last);
      KeySlotsHave(slots, last, j);
      var i :| 0 <= i < |KeySlots(slots, last)| && HasKey(KeySlots(slots, last)[i], slots[j].key);
      assert b[i + 1] == KeySlots(slots, last)[i] && Blocks(slots, names)[n + 1 + i] == b[i + 1];
      assert HasKey(Blocks(slots, names)[n + 1 + i], slots[j].key);
    } else {
      assert HasKey(Blocks(slots, names)[n], slots[j].key);
    }
  }
}
