/** The configuration of the Bluetooth stack: sections of key-value entries, saved as text in blobs of bounded size. */
module OsiConfig {
  import opened Text

  /** CONFIG_FILE_MAX_SIZE and CONFIG_FILE_DEFAULE_LENGTH. */
  const MAX_BLOB: nat := 1536
  const DEFAULT_LENGTH: nat := 2048

  const LINE_SIZE: nat := 1024

  const DEFAULT_SECTION: string := "Global"

  datatype Entry = Entry(key: string, value: string)

  datatype Section = Section(name: string, entries: seq<Entry>)

  // ----- looking up and setting -----

  function FindSection(config: seq<Section>, name: string): (i: nat)
    ensures i <= |config| && (i < |config| ==> config[i].name == name) && forall k :: 0 <= k < i ==> config[k].name != name
  {
    if config == [] || config[0].name == name then 0 else 1 + FindSection(config[1..], name)
  }

  function FindEntry(entries: seq<Entry>, key: string): (i: nat)
    ensures i <= |entries| && (i < |entries| ==> entries[i].key == key) && forall k :: 0 <= k < i ==> entries[k].key != key
  {
    if entries == [] || entries[0].key == key then 0 else 1 + FindEntry(entries[1..], key)
  }

  function SetEntry(entries: seq<Entry>, key: string, value: string): seq<Entry> {
    var i := FindEntry(entries, key);
    if i < |entries| then entries[i := Entry(key, value)] else entries + [Entry(key, value)]
  }

  /** config_set_string: a new section goes to the end or to the front. */
  function SetString(config: seq<Section>, name: string, key: string, value: string, insertBack: bool): seq<Section> {
    var i := FindSection(config, name);
    if i < |config| then config[i := Section(name, SetEntry(config[i].entries, key, value))]
    else
      var section := Section(name, SetEntry([], key, value));
      if insertBack then config + [section] else [section] + config
  }

  /** entry_find behind config_get_string. */
  function GetString(config: seq<Section>, name: string, key: string): Option<string> {
    var i := FindSection(config, name);
    if i == |config| then None else EntryValue(config[i].entries, key)
  }

  lemma {:induction false} FindSectionIs(config: seq<Section>, name: string, i: nat)
    requires i <= |config| && (i < |config| ==> config[i].name == name) && forall k :: 0 <= k < i ==> config[k].name != name
    ensures FindSection(config, name) == i
  {
  }

  lemma FindEntryIs(entries: seq<Entry>, key: string, i: nat)
    requires i <= |entries| && (i < |entries| ==> entries[i].key == key) && forall k :: 0 <= k < i ==> entries[k].key != key
    ensures FindEntry(entries, key) == i
  {
  }

  /** The value of a key in a list of entries. */
  function EntryValue(entries: seq<Entry>, key: string): Option<string> {
    var k := FindEntry(entries, key);
    if k == |entries| then None else Some(entries[k].value)
  }

  lemma SetEntryThenGet(entries: seq<Entry>, key: string, value: string, other: string)
    ensures EntryValue(SetEntry(entries, key, value), other) == if other == key then Some(value) else EntryValue(entries, other)
  {
    var (i, j, r) := (FindEntry(entries, key), FindEntry(entries, other), SetEntry(entries, key, value));
    hide FindEntry;
    if other == key {
      FindEntryIs(r, other, i);
    } else {
      FindEntryIs(r, other, if j < |entries| then j else |r|);
    }
  }

  /** What is set is what is got, and no other value changes, wherever a new section is put. */
  lemma SetThenGet(config: seq<Section>, name: string, key: string, value: string, insertBack: bool, otherName: string, otherKey: string)
    ensures GetString(SetString(config, name, key, value, insertBack), otherName, otherKey)
            == if otherName == name && otherKey == key then Some(value) else GetString(config, otherName, otherKey)
  {
    var (i, j) := (FindSection(config, name), FindSection(config, otherName));
    var r := SetString(config, name, key, value, insertBack);
    if i < |config| {
      SetEntryThenGet(config[i].entries, key, value, otherKey);
    } else {
      SetEntryThenGet([], key, value, otherKey);
    }
    hide FindSection, FindEntry, SetEntry;
    if i < |config| {
      FindSectionIs(r, otherName, j);
    } else if insertBack {
      FindSectionIs(r, otherName, if otherName == name then |config| else if j < |config| then j else |r|);
    } else {
      FindSectionIs(r, otherName, if otherName == name then 0 else j + 1);
    }
  }

  /** A section that is there stays where it is; a new one becomes the last, or the first. No other section changes or moves. */
  lemma SetKeepsOrder(config: seq<Section>, name: string, key: string, value: string, insertBack: bool)
    ensures var (i, r) := (FindSection(config, name), SetString(config, name, key, value, insertBack));
            && (i < |config| ==> |r| == |config| && r[i].name == name && forall k :: 0 <= k < |config| && k != i ==> r[k] == config[k])
            && (i == |config| ==>
                  && |r| == |config| + 1
                  && (if insertBack then r[..|config|] == config else r[1..] == config)
                  && r[if insertBack then |config| else 0] == Section(name, [Entry(key, value)]))
  {
    assert FindEntry([], key) == 0 && [] + [Entry(key, value)] == [Entry(key, value)];
    hide FindSection;
  }

  /** An entry that is there stays where it is; a new one becomes the last. */
  lemma SetEntryKeepsOrder(entries: seq<Entry>, key: string, value: string)
    ensures var (i, r) := (FindEntry(entries, key), SetEntry(entries, key, value));
            && |r| == (if i < |entries| then |entries| else |entries| + 1)
            && r[i] == Entry(key, value) && forall k :: 0 <= k < |entries| && k != i ==> r[k] == entries[k]
  {
    hide FindEntry;
  }

  // ----- the text -----

  function SectionLine(name: string): string { "[" + (name + "]\n") }

  function EntryLine(e: Entry): string { e.key + (" = " + (e.value + "\n")) }

  function EntriesText(entries: seq<Entry>): string {
    if entries == [] then "" else EntryLine(entries[0]) + EntriesText(entries[1..])
  }

  /** What follows the entries of the first section. */
  function SectionsTail(config: seq<Section>): string
    requires config != []
    decreases |config|, 0
  {
    if |config| == 1 then "" else "\n" + ConfigText(config[1..])
  }

  /** The text of a configuration: sections separated by empty lines. */
  function ConfigText(config: seq<Section>): string
    decreases |config|, 1
  {
    if config == [] then ""
    else SectionLine(config[0].name) + (EntriesText(config[0].entries) + SectionsTail(config))
  }

  // ----- blanks -----

  /** isspace in the "C" locale. */
  predicate IsSpace(c: char) { c == ' ' || 9 <= c as int <= 13 }

  function TrimStart(s: string): string {
    if s != "" && IsSpace(s[0]) then TrimStart(s[1..]) else s
  }

  function TrimEnd(s: string): string {
    if s != "" && IsSpace(s[|s| - 1]) then TrimEnd(s[..|s| - 1]) else s
  }

  /** trim. */
  function Trim(s: string): string { TrimEnd(TrimStart(s)) }

  predicate Trimmed(s: string) {
    s == "" || (!IsSpace(s[0]) && !IsSpace(s[|s| - 1]))
  }

  predicate AllSpace(s: string) {
    forall i :: 0 <= i < |s| ==> IsSpace(s[i])
  }

  lemma {:induction false} TrimStartIs(a: string, s: string)
    requires AllSpace(a) && s != "" && !IsSpace(s[0])
    ensures TrimStart(a + s) == s
  {
    if a == "" {
      assert a + s == s;
    } else {
      assert (a + s)[1..] == a[1..] + s;
      TrimStartIs(a[1..], s);
    }
  }

  lemma {:induction false} TrimEndIs(s: string, b: string)
    requires AllSpace(b) && s != "" && !IsSpace(s[|s| - 1])
    ensures TrimEnd(s + b) == s
    decreases |b|
  {
    if b == "" {
      assert s + b == s;
    } else {
      assert (s + b)[..|s + b| - 1] == s + b[..|b| - 1];
      TrimEndIs(s, b[..|b| - 1]);
    }
  }

  /** Trimming takes the blanks on both sides away and nothing else. */
  lemma TrimIs(a: string, s: string, b: string)
    requires AllSpace(a) && AllSpace(b) && s != "" && Trimmed(s)
    ensures Trim(a + (s + b)) == s
  {
    assert (s + b)[0] == s[0];
    TrimStartIs(a, s + b);
    TrimEndIs(s, b);
  }

  lemma TrimTrimmed(s: string)
    requires Trimmed(s)
    ensures Trim(s) == s && Trim(" " + s) == s && Trim(s + " ") == s
  {
    if s != "" {
      TrimIs("", s, "");
      TrimIs(" ", s, "");
      TrimIs("", s, " ");
      assert "" + (s + "") == s && " " + (s + "") == " " + s && "" + (s + " ") == s + " ";
    } else {
      assert " " + s == " " && s + " " == " " && " "[1..] == "";
    }
  }

  // ----- parsing -----

  /** strchr in a text that may hold a zero. */
  function FindChar(s: string, c: char): (r: Option<nat>)
    ensures r.Some? ==> r.value < |s| && s[r.value] == c && forall i :: 0 <= i < r.value ==> s[i] != c && s[i] != NUL
  {
    if s == "" then None
    else if s[0] == c then Some(0)
    else if s[0] == NUL then None
    else match FindChar(s[1..], c) case None => None case Some(i) => Some(i + 1)
  }

  lemma {:induction false} FindCharIs(s: string, c: char, more: string)
    requires c !in s && NUL !in s
    ensures FindChar(s + ([c] + more), c) == Some(|s|)
  {
    if s == "" {
      assert s + ([c] + more) == [c] + more;
    } else {
      assert (s + ([c] + more))[1..] == s[1..] + ([c] + more);
      FindCharIs(s[1..], c, more);
    }
  }

  datatype State = State(section: string, config: seq<Section>)

  /** What config_parse does with a trimmed line. */
  function ParseLine(line: string, s: State): State {
    if line == "" || line[0] == '#' then s
    else if line[0] == '[' then
      if line[|line| - 1] != ']' then s else s.(section := line[1..|line| - 1])
    else
      match FindChar(line, '=')
      case None => s
      case Some(i) => s.(config := SetString(s.config, s.section, Trim(line[..i]), Trim(line[i + 1..]), true))
  }

  /** The loop of config_parse on the rest of the text. A line that is too long ends it. */
  function ParseRest(rest: string, s: State): State
    decreases |rest|
  {
    if |rest| <= 1 then s
    else
      match FindChar(rest, '\n')
      case None => s
      case Some(n) => if n > LINE_SIZE - 1 then s else ParseRest(rest[n + 1..], ParseLine(Trim(rest[..n]), s))
  }

  function ParseText(text: string): seq<Section> {
    ParseRest(text, State(DEFAULT_SECTION, [])).config
  }

  // ----- round trip of the text -----

  predicate PlainText(s: string) {
    NUL !in s && '\n' !in s
  }

  predicate GoodEntry(e: Entry) {
    && PlainText(e.key) && Trimmed(e.key) && '=' !in e.key && (e.key != "" ==> e.key[0] != '#' && e.key[0] != '[')
    && PlainText(e.value) && Trimmed(e.value)
    && |EntryLine(e)| < LINE_SIZE
  }

  ghost predicate UniqueKeys(entries: seq<Entry>) {
    forall i, j :: 0 <= i < j < |entries| ==> entries[i].key != entries[j].key
  }

  ghost predicate GoodSection(s: Section) {
    && PlainText(s.name) && |SectionLine(s.name)| < LINE_SIZE
    && UniqueKeys(s.entries) && forall i :: 0 <= i < |s.entries| ==> GoodEntry(s.entries[i])
  }

  ghost predicate GoodConfig(config: seq<Section>) {
    && (forall i :: 0 <= i < |config| ==> GoodSection(config[i]))
    && (forall i, j :: 0 <= i < j < |config| ==> config[i].name != config[j].name)
  }

  /** The sections that have entries. */
  function WithEntries(config: seq<Section>): seq<Section> {
    if config == [] then []
    else (if config[0].entries == [] then [] else [config[0]]) + WithEntries(config[1..])
  }

  lemma ParseRestStep(rest: string, n: nat, s: State)
    requires |rest| > 1 && FindChar(rest, '\n') == Some(n) && n < LINE_SIZE
    ensures ParseRest(rest, s) == ParseRest(rest[n + 1..], ParseLine(Trim(rest[..n]), s))
  {
    hide FindChar, Trim, ParseLine;
  }

  /** A line without a newline inside is read as one line. */
  lemma ReadLine(line: string, more: string, s: State)
    requires PlainText(line) && |line| < LINE_SIZE && |line| + |more| > 0
    ensures ParseRest(line + ("\n" + more), s) == ParseRest(more, ParseLine(Trim(line), s))
  {
    var rest := line + ("\n" + more);
    assert "\n" == ['\n'];
    FindCharIs(line, '\n', more);
    hide *;
    assert rest[..|line|] == line && rest[|line| + 1..] == more;
    ParseRestStep(rest, |line|, s);
  }

  lemma SectionLineParts(name: string, line: string, more: string)
    requires PlainText(name) && |SectionLine(name)| < LINE_SIZE && line == "[" + (name + "]")
    ensures SectionLine(name) + more == line + ("\n" + more) && PlainText(line) && |line| < LINE_SIZE && line != ""
    ensures Trimmed(line)
  {
  }

  lemma ParseSectionLine(name: string, line: string, s: State)
    requires line == "[" + (name + "]")
    ensures ParseLine(line, s) == s.(section := name)
  {
    assert line[1..|line| - 1] == name;
    hide FindChar, Trim;
  }

  lemma ReadSection(name: string, more: string, s: State)
    requires PlainText(name) && |SectionLine(name)| < LINE_SIZE
    ensures ParseRest(SectionLine(name) + more, s) == ParseRest(more, s.(section := name))
  {
    hide *;
    var line := "[" + (name + "]");
    SectionLineParts(name, line, more);
    TrimTrimmed(line);
    ParseSectionLine(name, line, s);
    ReadLine(line, more, s);
  }

  /** The line of an entry without the blanks at its ends, up to the separator and behind it. */
  lemma EntryParts(e: Entry) returns (a: string, b: string)
    requires GoodEntry(e)
    ensures Trim(e.key + (" = " + e.value)) == a + ("=" + b)
    ensures Trim(a) == e.key && Trim(b) == e.value && '=' !in a && NUL !in a
    ensures a != "" ==> a[0] != '#' && a[0] != '['
  {
    a := if e.key == "" then "" else e.key + " ";
    b := if e.value == "" then "" else " " + e.value;
    var s := a + ("=" + b);
    var (left, right) := (if e.key == "" then " " else "", if e.value == "" then " " else "");
    assert e.key + (" = " + e.value) == left + (s + right);
    assert s[0] == if a == "" then '=' else e.key[0];
    assert s[|s| - 1] == if b == "" then '=' else e.value[|e.value| - 1];
    TrimIs(left, s, right);
    TrimTrimmed(e.key);
    TrimTrimmed(e.value);
  }

  /** A trimmed line of a key and a value sets the entry. */
  lemma ParseEntryLine(e: Entry, a: string, b: string, s: State)
    requires Trim(a) == e.key && Trim(b) == e.value && '=' !in a && NUL !in a && (a != "" ==> a[0] != '#' && a[0] != '[')
    ensures ParseLine(a + ("=" + b), s) == s.(config := SetString(s.config, s.section, e.key, e.value, true))
  {
    FindCharIs(a, '=', b);
    var t := a + ("=" + b);
    assert "=" == ['='];
    assert t[..|a|] == a && t[|a| + 1..] == b;
    assert t[0] == if a == "" then '=' else a[0];
    hide FindChar, Trim, SetString;
  }

  lemma EntryLineParts(e: Entry, line: string, more: string)
    requires GoodEntry(e) && line == e.key + (" = " + e.value)
    ensures EntryLine(e) + more == line + ("\n" + more) && PlainText(line) && |line| < LINE_SIZE && line != ""
  {
  }

  lemma ReadEntry(e: Entry, more: string, s: State)
    requires GoodEntry(e)
    ensures ParseRest(EntryLine(e) + more, s) == ParseRest(more, s.(config := SetString(s.config, s.section, e.key, e.value, true)))
  {
    hide *;
    var line := e.key + (" = " + e.value);
    var a, b := EntryParts(e);
    EntryLineParts(e, line, more);
    ParseEntryLine(e, a, b, s);
    ReadLine(line, more, s);
  }

  // ----- what is read back -----

  lemma SetFirst(config: seq<Section>, name: string, e: Entry)
    requires forall i :: 0 <= i < |config| ==> config[i].name != name
    ensures SetString(config, name, e.key, e.value, true) == config + [Section(name, [e])]
  {
    assert [] + [e] == [e];
  }

  lemma SetNext(config: seq<Section>, name: string, done: seq<Entry>, e: Entry)
    requires forall i :: 0 <= i < |config| ==> config[i].name != name
    requires forall i :: 0 <= i < |done| ==> done[i].key != e.key
    ensures SetString(config + [Section(name, done)], name, e.key, e.value, true) == config + [Section(name, done + [e])]
  {
    var all := config + [Section(name, done)];
    assert all[|config|].name == name;
    assert all[|config| := Section(name, done + [e])] == config + [Section(name, done + [e])];
  }

  /** A section read so far; without entries it is not there. */
  function SoFar(config: seq<Section>, name: string, done: seq<Entry>): seq<Section> {
    if done == [] then config else config + [Section(name, done)]
  }

  ghost predicate NewName(config: seq<Section>, name: string) {
    forall i :: 0 <= i < |config| ==> config[i].name != name
  }

  ghost predicate GoodEntries(entries: seq<Entry>) {
    forall i :: 0 <= i < |entries| ==> GoodEntry(entries[i])
  }

  lemma SetStep(config: seq<Section>, name: string, done: seq<Entry>, e: Entry)
    requires NewName(config, name) && UniqueKeys(done + [e])
    ensures SetString(SoFar(config, name, done), name, e.key, e.value, true) == SoFar(config, name, done + [e])
  {
    var all := done + [e];
    if done == [] {
      assert all == [e];
      SetFirst(config, name, e);
    } else {
      forall i | 0 <= i < |done|
        ensures done[i].key != e.key
      {
        assert all[i] == done[i] && all[|done|] == e;
      }
      SetNext(config, name, done, e);
    }
  }

  lemma EntriesStep(entries: seq<Entry>, done: seq<Entry>, more: string)
    requires entries != [] && GoodEntries(entries) && UniqueKeys(done + entries)
    ensures GoodEntry(entries[0]) && GoodEntries(entries[1..])
    ensures (done + [entries[0]]) + entries[1..] == done + entries && UniqueKeys(done + [entries[0]])
    ensures EntriesText(entries) + more == EntryLine(entries[0]) + (EntriesText(entries[1..]) + more)
  {
    hide GoodEntry, EntryLine;
    var (all, first) := (done + entries, done + [entries[0]]);
    assert forall i :: 0 <= i < |first| ==> first[i] == all[i];
  }

  lemma {:induction false} ReadEntries(entries: seq<Entry>, more: string, config: seq<Section>, name: string, done: seq<Entry>)
    requires GoodEntries(entries) && UniqueKeys(done + entries) && NewName(config, name)
    ensures ParseRest(EntriesText(entries) + more, State(name, SoFar(config, name, done)))
            == ParseRest(more, State(name, SoFar(config, name, done + entries)))
    decreases |entries|
  {
    if entries == [] {
      assert done + entries == done && EntriesText(entries) + more == more;
      hide *;
    } else {
      hide *;
      EntriesStep(entries, done, more);
      ReadEntry(entries[0], EntriesText(entries[1..]) + more, State(name, SoFar(config, name, done)));
      SetStep(config, name, done, entries[0]);
      ReadEntries(entries[1..], more, config, name, done + [entries[0]]);
    }
  }

  ghost predicate NamesApart(before: seq<Section>, config: seq<Section>) {
    forall i, j :: 0 <= i < |before| && 0 <= j < |config| ==> before[i].name != config[j].name
  }

  lemma GoodParts(config: seq<Section>)
    requires config != [] && GoodConfig(config)
    ensures GoodConfig(config[1..]) && NamesApart([config[0]], config[1..])
    ensures PlainText(config[0].name) && |SectionLine(config[0].name)| < LINE_SIZE
    ensures GoodEntries(config[0].entries) && UniqueKeys(config[0].entries)
  {
    assert GoodSection(config[0]);
    hide GoodEntry, SectionLine, UniqueKeys, PlainText;
  }

  lemma ApartStep(config: seq<Section>, before: seq<Section>, s: Section)
    requires config != [] && s == config[0] && NamesApart(before, config) && NamesApart([s], config[1..])
    ensures NamesApart(before + [s], config[1..]) && NamesApart(before, config[1..]) && NewName(before, s.name)
  {
  }

  lemma WithEntriesStep(config: seq<Section>, before: seq<Section>)
    requires config != []
    ensures SoFar(before, config[0].name, config[0].entries) + WithEntries(config[1..]) == before + WithEntries(config)
    ensures SoFar(before, config[0].name, config[0].entries) == before
            || SoFar(before, config[0].name, config[0].entries) == before + [config[0]]
  {
    assert config[0] == Section(config[0].name, config[0].entries);
  }

  lemma SectionsStep(config: seq<Section>, before: seq<Section>)
    requires config != [] && GoodConfig(config) && NamesApart(before, config)
    ensures NamesApart(SoFar(before, config[0].name, config[0].entries), config[1..]) && NewName(before, config[0].name)
  {
    hide *;
    GoodParts(config);
    ApartStep(config, before, config[0]);
    WithEntriesStep(config, before);
  }

  lemma {:induction false} ReadSections(config: seq<Section>, before: seq<Section>, name: string)
    requires GoodConfig(config) && NamesApart(before, config)
    ensures ParseRest(ConfigText(config), State(name, before)).config == before + WithEntries(config)
    decreases |config|
  {
    if config == [] {
      assert before + [] == before;
    } else {
      var first := config[0];
      assert ConfigText(config) == SectionLine(first.name) + (EntriesText(first.entries) + SectionsTail(config));
      assert SoFar(before, first.name, []) == before && [] + first.entries == first.entries;
      hide *;
      var after := SoFar(before, first.name, first.entries);
      GoodParts(config);
      SectionsStep(config, before);
      WithEntriesStep(config, before);
      ReadSection(first.name, EntriesText(first.entries) + SectionsTail(config), State(name, before));
      ReadEntries(first.entries, SectionsTail(config), before, first.name, []);
      SkipSeparator(config, State(first.name, after));
      ReadSections(config[1..], after, first.name);
    }
  }

  lemma SkipSeparator(config: seq<Section>, s: State)
    requires config != []
    ensures ParseRest(SectionsTail(config), s) == ParseRest(ConfigText(config[1..]), s)
  {
    if |config| > 1 {
      var more := ConfigText(config[1..]);
      assert "" + ("\n" + more) == "\n" + more && more != "";
      ReadLine("", more, s);
    }
  }

  /** Main result on the text: what is read back is the configuration without the sections that have no entries. */
  lemma TextRoundTrip(config: seq<Section>)
    requires GoodConfig(config)
    ensures ParseText(ConfigText(config)) == WithEntries(config)
  {
    ReadSections(config, [], DEFAULT_SECTION);
    assert [] + WithEntries(config) == WithEntries(config);
  }

  lemma {:induction false} WithEntriesSize(config: seq<Section>)
    ensures |WithEntries(config)| <= |config|
    ensures |WithEntries(config)| == |config| <==> forall i :: 0 <= i < |config| ==> config[i].entries != []
    ensures |WithEntries(config)| == |config| ==> WithEntries(config) == config
  {
    if config != [] {
      WithEntriesSize(config[1..]);
      assert forall i :: 0 <= i < |config| - 1 ==> config[1..][i] == config[i + 1];
      assert config == [config[0]] + config[1..];
    }
  }

  /** The text is read back as it was saved exactly when no section is without entries. */
  lemma TextRoundTripExact(config: seq<Section>)
    requires GoodConfig(config)
    ensures ParseText(ConfigText(config)) == config <==> forall i :: 0 <= i < |config| ==> config[i].entries != []
  {
    TextRoundTrip(config);
    WithEntriesSize(config);
  }

  // ----- blobs in flash -----

  /** The key of blob i. */
  function BlobKey(i: nat): string { "bt_cfg_key" + Decimal(i) }

  lemma BlobKeysDiffer(i: nat, j: nat)
    requires BlobKey(i) == BlobKey(j)
    ensures i == j
  {
    assert BlobKey(i)[10..] == Decimal(i) && BlobKey(j)[10..] == Decimal(j);
    DecimalRoundTrip(i);
    DecimalRoundTrip(j);
  }

  datatype ReadResult = TooLong | Endless | Text(text: string)

  function AfterBlob(blob: string, more: ReadResult): ReadResult {
    match more case Text(text) => Text(blob + text) case _ => more
  }

  /** The reading loops of config_parse and get_config_size_from_flash from blob i on: a blob of full size is followed by another.
      A blob that is too long for the buffer is an error; with 65536 full blobs the 16-bit counter would start again. */
  function ReadBlobs(blobs: map<string, string>, i: nat): ReadResult
    requires i <= 0xFFFF
    decreases 0xFFFF - i
  {
    if BlobKey(i) !in blobs then Text("")
    else
      var blob := blobs[BlobKey(i)];
      if |blob| > DEFAULT_LENGTH then TooLong
      else if |blob| != MAX_BLOB then Text(blob)
      else if i == 0xFFFF then Endless
      else AfterBlob(blob, ReadBlobs(blobs, i + 1))
  }

  /** What config_new makes of the flash; without readable text the configuration is empty. */
  function Load(blobs: map<string, string>): seq<Section> {
    match ReadBlobs(blobs, 0) case Text(text) => ParseText(text) case _ => []
  }

  /** The blobs after the text from blob i on has been stored: full blobs, and a shorter one, perhaps empty, at the end. */
  function Stored(blobs: map<string, string>, i: nat, text: string): map<string, string>
    decreases |text|
  {
    if |text| < MAX_BLOB then blobs[BlobKey(i) := text]
    else Stored(blobs[BlobKey(i) := text[..MAX_BLOB]], i + 1, text[MAX_BLOB..])
  }

  lemma {:induction false} StoredKeepsEarlier(blobs: map<string, string>, i: nat, text: string, k: nat)
    requires k < i
    ensures BlobKey(k) in blobs ==> BlobKey(k) in Stored(blobs, i, text) && Stored(blobs, i, text)[BlobKey(k)] == blobs[BlobKey(k)]
    decreases |text|
  {
    if BlobKey(k) == BlobKey(i) {
      BlobKeysDiffer(k, i);
    }
    hide BlobKey;
    if |text| >= MAX_BLOB {
      StoredKeepsEarlier(blobs[BlobKey(i) := text[..MAX_BLOB]], i + 1, text[MAX_BLOB..], k);
    }
  }

  /** Whatever was in the flash before, the stored text is what is read: the last blob is never of full size. */
  lemma {:induction false} StoredIsRead(blobs: map<string, string>, i: nat, text: string)
    requires i + |text| / MAX_BLOB <= 0xFFFF
    ensures ReadBlobs(Stored(blobs, i, text), i) == Text(text)
    decreases |text|
  {
    hide BlobKey;
    var after := Stored(blobs, i, text);
    if |text| >= MAX_BLOB {
      var (chunk, rest) := (text[..MAX_BLOB], text[MAX_BLOB..]);
      StoredKeepsEarlier(blobs[BlobKey(i) := chunk], i + 1, rest, i);
      assert after == Stored(blobs[BlobKey(i) := chunk], i + 1, rest);
      assert (i + 1) + |rest| / MAX_BLOB <= 0xFFFF;
      StoredIsRead(blobs[BlobKey(i) := chunk], i + 1, rest);
      assert chunk + rest == text;
    }
  }

  /** Main result: loading what was saved gives the sections with entries, in order, whatever blobs were stored before; it gives
      the same configuration exactly when every section has an entry. */
  lemma SaveLoadRoundTrip(config: seq<Section>, blobs: map<string, string>)
    requires GoodConfig(config) && |ConfigText(config)| < 255 * 1536
    ensures Load(Stored(blobs, 0, ConfigText(config))) == WithEntries(config)
    ensures Load(Stored(blobs, 0, ConfigText(config))) == config <==> forall i :: 0 <= i < |config| ==> config[i].entries != []
  {
    StoredIsRead(blobs, 0, ConfigText(config));
    TextRoundTrip(config);
    TextRoundTripExact(config);
  }
}
