/** Sections and keys of a dictionary as iniparser.c enumerates and dumps them: a key
    without a colon is a section, `section:key` belongs to that section. */
module IniDump {
  import opened CStrings
  import opened Sequences
  import opened DictionaryModel
  import opened IniFormat
  import opened IniMeaning

  predicate IsSection(slot: Slot) {
    slot.Used? && ':' !in slot.key
  }

  /** `strncmp` with `section:` over its whole length. */
  predicate InSection(slot: Slot, section: string) {
    slot.Used? && StartsWith(slot.key, section + ":")
  }

  /** What `iniparser_getsecname` returns for 0, 1, ... up to `iniparser_getnsec`. */
  function Sections(slots: Slots): (r: seq<string>)
    ensures |r| <= |slots|
  {
    if slots == [] then []
    else
      var last := slots[|slots| - 1];
      Sections(slots[..|slots| - 1]) + if IsSection(last) then [last.key] else []
  }

  /** The cells `iniparser_getseckeys` fills. */
  function KeysOf(slots: Slots, section: string): (r: seq<string>)
    ensures |r| <= |slots|
  {
    if slots == [] then []
    else
      var last := slots[|slots| - 1];
      KeysOf(slots[..|slots| - 1], section) + if InSection(last, section) then [last.key] else []
  }

  /** `iniparser_find_entry` */
  predicate HasEntry(slots: Slots, entry: string) {
    Find(slots, Lowered(entry)) < |slots|
  }

  // ---- The dump ------------------------------------------------------------

  /** A NULL value of a key prints as nothing. */
  function TextOf(val: Option<string>): string {
    if val.Some? then val.value else ""
  }

  function KeyText(slots: Slots, section: string): string {
    if slots == [] then ""
    else
      var last := slots[|slots| - 1];
      KeyText(slots[..|slots| - 1], section) +
      if InSection(last, section) then PrintKey(last.key[|section| + 1..], TextOf(last.val)) + "\n" else ""
  }

  /** `iniparser_dumpsection_ini` */
  function DumpSection(slots: Slots, section: string): string {
    if !HasEntry(slots, section) then ""
    else "\n" + PrintSection(section) + "\n" + KeyText(slots, section) + "\n"
  }

  function DumpSections(slots: Slots, names: seq<string>): string {
    if names == [] then ""
    else DumpSections(slots, names[..|names| - 1]) + DumpSection(slots, names[|names| - 1])
  }

  /** With no section in the dictionary every key is printed whole; `%s` shows NULL as `(null)`. */
  function PlainText(slots: Slots): string {
    if slots == [] then ""
    else
      var last := slots[|slots| - 1];
      PlainText(slots[..|slots| - 1]) +
      if last.Used? then last.key + " = " + (if last.val.Some? then last.val.value else "(null)") + "\n" else ""
  }

  /** `iniparser_dump_ini` */
  function DumpIni(slots: Slots): string {
    if Sections(slots) == [] then PlainText(slots)
    else DumpSections(slots, Sections(slots)) + "\n"
  }

  // ---- Every entry is counted once -----------------------------------------

  /** The section a key with a colon belongs to. */
  function PrefixOf(key: string): string {
    key[..IndexOf(key, ':')]
  }

  lemma PrefixDecides(key: string, section: string)
    requires ':' !in section
    ensures StartsWith(key, section + ":") <==> ':' in key && section == PrefixOf(key)
  {
    if StartsWith(key, section + ":") {
      assert key[..|section| + 1] == section + ":";
      assert key[..|section|] == key[..|section| + 1][..|section|] == section;
      assert key[|section|] == key[..|section| + 1][|section|] == ':';
      IndexIs(key, ':', |section|);
    }
    if ':' in key && section == PrefixOf(key) {
      var i := IndexOf(key, ':');
      assert key[..|key|] == key;
      assert key[..i + 1] == key[..i] + [key[i]];
    }
  }

  lemma {:induction false} SectionsAre(slots: Slots, name: string)
    ensures name in Sections(slots) <==> exists i :: 0 <= i < |slots| && IsSection(slots[i]) && slots[i].key == name
  {
    if slots != [] {
      SectionsAre(slots[..|slots| - 1], name);
    }
  }

  lemma {:induction false} SectionsAreDistinct(slots: Slots)
    requires DistinctKeys(slots)
    ensures Distinct(Sections(slots))
    ensures forall name | name in Sections(slots) :: ':' !in name
  {
    if slots != [] {
      var init, last := slots[..|slots| - 1], slots[|slots| - 1];
      SectionsAreDistinct(init);
      if IsSection(last) {
        SectionsAre(init, last.key);
        assert last.key !in Sections(init);
      }
    }
  }

  function KeyTotal(slots: Slots, names: seq<string>): nat {
    if names == [] then 0
    else KeyTotal(slots, names[..|names| - 1]) + |KeysOf(slots, names[|names| - 1])|
  }

  /** How many of the names the slot belongs to. */
  function Owners(slot: Slot, names: seq<string>): nat {
    if names == [] then 0
    else Owners(slot, names[..|names| - 1]) + if InSection(slot, names[|names| - 1]) then 1 else 0
  }

  lemma {:induction false} KeyTotalSnoc(slots: Slots, names: seq<string>)
    requires slots != []
    ensures KeyTotal(slots, names) == KeyTotal(slots[..|slots| - 1], names) + Owners(slots[|slots| - 1], names)
  {
    if names != [] {
      KeyTotalSnoc(slots, names[..|names| - 1]);
    }
  }

  lemma {:induction false} NoKeys(names: seq<string>)
    ensures KeyTotal([], names) == 0
  {
    if names != [] {
      NoKeys(names[..|names| - 1]);
    }
  }

  lemma {:induction false} OneOwner(slot: Slot, names: seq<string>)
    requires Distinct(names) && forall name | name in names :: ':' !in name
    ensures Owners(slot, names) == if slot.Used? && ':' in slot.key && PrefixOf(slot.key) in names then 1 else 0
  {
    if names != [] {
      var init, last := names[..|names| - 1], names[|names| - 1];
      OneOwner(slot, init);
      assert names == init + [last] && last in names;
      if slot.Used? {
        PrefixDecides(slot.key, last);
      }
    }
  }

  /** Every key with a colon has its section among the names. */
  ghost predicate Owned(slots: Slots, names: seq<string>) {
    forall i | 0 <= i < |slots| && slots[i].Used? && ':' in slots[i].key :: PrefixOf(slots[i].key) in names
  }

  lemma {:induction false} CountBySection(slots: Slots, names: seq<string>)
    requires Distinct(names) && forall name | name in names :: ':' !in name
    requires Owned(slots, names)
    ensures Count(slots) == |Sections(slots)| + KeyTotal(slots, names)
  {
    if slots == [] {
      NoKeys(names);
    } else {
      var init := slots[..|slots| - 1];
      CountBySection(init, names);
      KeyTotalSnoc(slots, names);
      OneOwner(slots[|slots| - 1], names);
    }
  }

  /** `iniparser_getsecnkeys` */
  function SectionKeyCount(slots: Slots, section: string): nat {
    if HasEntry(slots, section) then |KeysOf(slots, section)| else 0
  }

  function SectionKeyCounts(slots: Slots, names: seq<string>): nat {
    if names == [] then 0
    else SectionKeyCounts(slots, names[..|names| - 1]) + SectionKeyCount(slots, names[|names| - 1])
  }

  lemma {:induction false} CountsAreTotals(slots: Slots, names: seq<string>)
    requires forall name | name in names :: HasEntry(slots, name)
    ensures SectionKeyCounts(slots, names) == KeyTotal(slots, names)
  {
    if names != [] {
      assert names[|names| - 1] in names;
      CountsAreTotals(slots, names[..|names| - 1]);
    }
  }

  /** A stored lower-case name that fits the lookup buffer is found. */
  lemma StoredIsFound(slots: Slots, i: nat)
    requires i < |slots| && slots[i].Used? && Lower(slots[i].key) == slots[i].key && |slots[i].key| <= 1024
    ensures HasEntry(slots, slots[i].key)
  {
    assert HasKey(slots[i], slots[i].key);
  }

  /** `n` is the number of sections plus the number of keys of each section, when names
      are lower-case and every key with a colon has its section stored. */
  lemma EntriesPartition(slots: Slots)
    requires DistinctKeys(slots) && Owned(slots, Sections(slots))
    requires forall i | 0 <= i < |slots| && IsSection(slots[i]) ::
               Lower(slots[i].key) == slots[i].key && |slots[i].key| <= 1024
    ensures Count(slots) == |Sections(slots)| + SectionKeyCounts(slots, Sections(slots))
  {
    var names := Sections(slots);
    SectionsAreDistinct(slots);
    CountBySection(slots, names);
    forall name | name in names
      ensures HasEntry(slots, name)
    {
      SectionsAre(slots, name);
      var i :| 0 <= i < |slots| && IsSection(slots[i]) && slots[i].key == name;
      StoredIsFound(slots, i);
    }
    CountsAreTotals(slots, names);
  }

  // ---- What the enumerations hold ------------------------------------------

  /** `names` is the whole keys of the chosen slots in slot order; `at` says which. */
  ghost predicate KeysAt(slots: Slots, names: seq<string>, at: seq<nat>) {
    && |at| == |names| && (forall k, l | 0 <= k < l < |at| :: at[k] < at[l])
    && forall k | 0 <= k < |at| :: at[k] < |slots| && slots[at[k]].Used? && slots[at[k]].key == names[k]
  }

  lemma KeysAtSnoc(slots: Slots, slot: Slot, names: seq<string>, at: seq<nat>)
    requires KeysAt(slots, names, at)
    ensures KeysAt(slots + [slot], names, at)
    ensures slot.Used? ==> KeysAt(slots + [slot], names + [slot.key], at + [|slots|])
  {
  }

  /** The sections are the keys without a colon, each in its place. */
  lemma {:induction false} SectionsInOrder(slots: Slots) returns (at: seq<nat>)
    ensures KeysAt(slots, Sections(slots), at)
    ensures forall i: nat | i < |slots| && slots[i].Used? :: i in at <==> ':' !in slots[i].key
  {
    at := [];
    if slots != [] {
      var init, last := slots[..|slots| - 1], slots[|slots| - 1];
      at := SectionsInOrder(init);
      KeysAtSnoc(init, last, Sections(init), at);
      assert slots == init + [last] && Sections(init) + [] == Sections(init);
      hide KeysAt;
      at := if IsSection(last) then at + [|init|] else at;
    }
  }

  /** A key of the section begins with its name and a colon. */
  predicate BelongsTo(key: string, section: string) {
    |key| > |section| && key[..|section|] == section && key[|section|] == ':'
  }

  lemma InSectionIs(slot: Slot, section: string)
    ensures InSection(slot, section) <==> slot.Used? && BelongsTo(slot.key, section)
  {
    if slot.Used? && |slot.key| > |section| {
      var front := slot.key[..|section| + 1];
      assert front[..|section|] == slot.key[..|section|] && front[|section|] == slot.key[|section|];
      assert front == front[..|section|] + [front[|section|]];
    }
  }

  /** The keys of a section are the whole keys that belong to it, each in its place. */
  lemma {:induction false} KeysInOrder(slots: Slots, section: string) returns (at: seq<nat>)
    ensures KeysAt(slots, KeysOf(slots, section), at)
    ensures forall i: nat | i < |slots| && slots[i].Used? :: i in at <==> BelongsTo(slots[i].key, section)
  {
    at := [];
    if slots != [] {
      var init, last := slots[..|slots| - 1], slots[|slots| - 1];
      at := KeysInOrder(init, section);
      KeysAtSnoc(init, last, KeysOf(init, section), at);
      InSectionIs(last, section);
      assert slots == init + [last] && KeysOf(init, section) + [] == KeysOf(init, section);
      hide KeysAt, InSection, BelongsTo;
      at := if InSection(last, section) then at + [|init|] else at;
    }
  }
}
