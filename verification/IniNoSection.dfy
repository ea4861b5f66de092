/** Dictionaries with keys but no section: the dump prints every key whole, and loading
    it puts a colon in front of each. */
module IniNoSection {
  import opened CStrings
  import opened DictionaryModel
  import opened IniLine
  import opened IniFormat
  import opened IniLoad
  import opened IniMeaning
  import opened IniDump
  import opened IniReload

  /** What `%s` shows of a value. */
  function Shown(val: Option<string>): string {
    if val.Some? then val.value else "(null)"
  }

  function PlainLine(slot: Slot): string
    requires slot.Used?
  {
    slot.key + " = " + Shown(slot.val)
  }

  function PlainLines(slots: Slots): seq<string> {
    if slots == [] then []
    else
      var last := slots[|slots| - 1];
      PlainLines(slots[..|slots| - 1]) + if last.Used? then [PlainLine(last)] else []
  }

  /** An entry whose line names its key and stands by itself. */
  predicate PlainEntry(slot: Slot)
    requires slot.Used?
  {
    GoodKey(slot.key) && slot.key[0] != '[' && StandsAlone(PlainLine(slot)) && |slot.key| < LINE_SIZE
  }

  ghost predicate PlainEntries(slots: Slots) {
    forall i | 0 <= i < |slots| && slots[i].Used? :: PlainEntry(slots[i])
  }

  /** `k` is a key of the dictionary behind a colon. */
  ghost predicate Behind(slots: Slots, k: string) {
    exists i :: 0 <= i < |slots| && slots[i].Used? && k == ":" + slots[i].key
  }

  /** The keys are exactly those of the dictionary, each behind a colon. */
  ghost predicate AllBehind(slots: Slots, keys: set<string>) {
    forall k :: k in keys <==> Behind(slots, k)
  }

  lemma {:induction false} PlainTextIsLines(slots: Slots)
    ensures PlainText(slots) == Unlines(PlainLines(slots))
  {
    if slots != [] {
      var init, last := slots[..|slots| - 1], slots[|slots| - 1];
      PlainTextIsLines(init);
      if last.Used? {
        UnlinesConcat(PlainLines(init), [PlainLine(last)]);
        UnlinesOne(PlainLine(last));
      } else {
        assert PlainLines(init) + [] == PlainLines(init);
      }
    }
  }

  lemma {:induction false} PlainLinesStand(slots: Slots)
    requires PlainEntries(slots)
    ensures forall line | line in PlainLines(slots) :: StandsAlone(line)
  {
    if slots != [] {
      hide StandsAlone, PlainLine;
      PlainLinesStand(slots[..|slots| - 1]);
    }
  }

  lemma PlainLineParses(slot: Slot)
    requires slot.Used? && PlainEntry(slot)
    ensures ParseLine(StripRight(PlainLine(slot)), "") == Value(slot.key, ValueAfter(StripRight(" " + Shown(slot.val))))
  {
    var k, v := slot.key, Shown(slot.val);
    var line := PlainLine(slot);
    assert line == k + " " + "=" + (" " + v);
    SpacedLineParses(k, " ", " " + v, "");
    assert line[0] == k[0] && StripLeft(line) == line;
    StrippedAgain(line, "");
  }

  /** Clean load states outside any section. */
  ghost predicate Outside(st: LoadState) {
    st.pre == "" && st.section == "" && st.errs == 0 && |st.slots| > 0 && DistinctKeys(st.slots)
  }

  lemma PlainLineApplies(st: LoadState, slot: Slot)
    requires Outside(st) && slot.Used? && PlainEntry(slot)
    ensures var r := ApplyLine(st, StripRight(PlainLine(slot)));
            && r.Some? && Outside(r.value)
            && ToMap(r.value.slots).Keys == ToMap(st.slots).Keys + {":" + slot.key}
  {
    PlainLineParses(slot);
    hide ParseLine, StripRight, PlainLine, Set, ToMap, ValueAfter, DistinctKeys;
    var val := Some(ValueAfter(StripRight(" " + Shown(slot.val))));
    assert StoredKey("", slot.key) == ":" + slot.key;
    SetRefines(st.slots, ":" + slot.key, val);
  }

  lemma {:induction false} PlainLinesApply(st: LoadState, slots: Slots)
    requires Outside(st) && PlainEntries(slots)
    ensures var r := ApplyLines(st, Kept(PlainLines(slots)));
            && r.Some? && Outside(r.value)
            && forall k :: k in ToMap(r.value.slots).Keys <==> k in ToMap(st.slots).Keys || Behind(slots, k)
  {
    if slots != [] {
      var init, last := slots[..|slots| - 1], slots[|slots| - 1];
      PlainLinesApply(st, init);
      var mid := ApplyLines(st, Kept(PlainLines(init))).value;
      if last.Used? {
        var line := PlainLine(last);
        PlainLineApplies(mid, last);
        hide PlainEntry, ToMap, ApplyLine, ApplyLines, PlainLine, StripRight, Outside;
        KeptOne(line);
        KeptConcat(PlainLines(init), [line]);
        ApplyConcat(st, Kept(PlainLines(init)), Kept([line]));
        ApplyOne(mid, StripRight(line));
      } else {
        assert PlainLines(slots) == PlainLines(init);
      }
      BehindSnoc(slots);
    }
  }

  lemma BehindSnoc(slots: Slots)
    requires slots != []
    ensures var init, last := slots[..|slots| - 1], slots[|slots| - 1];
            forall k :: Behind(slots, k) <==> Behind(init, k) || (last.Used? && k == ":" + last.key)
  {
    var init := slots[..|slots| - 1];
    assert forall i | 0 <= i < |init| :: slots[i] == init[i];
  }

  /** A dictionary without sections loads from its dump with a colon before every key. */
  lemma ColonsAreAdded(slots: Slots)
    requires Sections(slots) == [] && PlainEntries(slots)
    ensures var r := Load(DumpIni(slots));
            r.Loaded? && AllBehind(slots, ToMap(r.slots).Keys)
  {
    var st, lines := LoadState("", "", Holes(128), 0), PlainLines(slots);
    MapIs(Holes(128), map[]);
    PlainTextIsLines(slots);
    PlainLinesStand(slots);
    NothingToJoin(lines);
    PlainLinesApply(st, slots);
    hide Fits, Logical, Kept, PlainLines, Unlines, PlainText, ApplyLines, ToMap;
    LoadIsFold(st, lines);
  }

  /** So, unless it is empty, it never comes back. */
  lemma NeverReturns(slots: Slots)
    requires Sections(slots) == [] && PlainEntries(slots)
    requires exists i :: 0 <= i < |slots| && slots[i].Used?
    ensures var r := Load(DumpIni(slots));
            r.Loaded? && ToMap(r.slots).Keys != ToMap(slots).Keys
  {
    var i :| 0 <= i < |slots| && slots[i].Used?;
    ColonsAreAdded(slots);
    hide *;
    if ToMap(Load(DumpIni(slots)).slots).Keys == ToMap(slots).Keys {
      NoShortestKey(slots, i);
    }
  }

  lemma {:induction false} NoShortestKey(slots: Slots, i: nat)
    requires i < |slots| && slots[i].Used? && AllBehind(slots, ToMap(slots).Keys)
    ensures false
    decreases |slots[i].key|
  {
    assert HasKey(slots[i], slots[i].key) && slots[i].key in ToMap(slots).Keys;
    var j :| 0 <= j < |slots| && slots[j].Used? && slots[i].key == ":" + slots[j].key;
    NoShortestKey(slots, j);
  }
}
