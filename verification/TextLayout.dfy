/** Where printed texts have white space, and texts without it. */
module TextLayout {
  import opened Text
  import opened Json
  import opened StringCodec
  import opened PrintedText
  import opened JsonGrammar
  import opened ParseRoundTrip

  // ----- trees without white space, and trees laid out in lines -----

  predicate Bare(v: Syntax) {
    match v
    case EmptyArray(blanks) => blanks == ""
    case ArrayText(es) => BareElements(es)
    case EmptyObject(blanks) => blanks == ""
    case ObjectText(ms) => BareEntries(ms)
    case _ => true
  }

  predicate BareSlot(slot: Slot) { slot.before == "" && Bare(slot.value) && slot.after == "" }

  predicate BareElements(es: Elements) { BareSlot(es.slot) && (es.MoreElements? ==> BareElements(es.rest)) }

  predicate BareEntries(ms: Entries) {
    ms.entry.before == "" && ms.entry.colon == "" && BareSlot(ms.entry.slot) && (ms.MoreEntries? ==> BareEntries(ms.rest))
  }

  /** The characters start a new line behind the given number of tabs. */
  predicate NewLineAt(t: string, depth: nat) {
    |t| == 1 + depth && t[0] == '\n' && forall i :: 1 <= i < |t| ==> t[i] == '\t'
  }

  /** Elements are separated by a comma and a space; each member stands on a line of its own behind as many tabs as its depth, with a tab
      behind its colon; the closing brace stands on its own line. Nothing else is white space. */
  predicate Laid(v: Syntax, depth: nat) {
    match v
    case EmptyArray(blanks) => blanks == ""
    case ArrayText(es) => LaidElements(es, depth + 1, true)
    case EmptyObject(blanks) => NewLineAt(blanks, depth)
    case ObjectText(ms) => LaidEntries(ms, depth)
    case _ => true
  }

  predicate LaidElements(es: Elements, depth: nat, first: bool) {
    && es.slot.before == (if first then "" else " ") && Laid(es.slot.value, depth) && es.slot.after == ""
    && (es.MoreElements? ==> LaidElements(es.rest, depth, false))
  }

  predicate LaidEntries(ms: Entries, depth: nat) {
    && NewLineAt(ms.entry.before, depth + 1) && ms.entry.colon == ""
    && ms.entry.slot.before == "\t" && Laid(ms.entry.slot.value, depth + 1)
    && (if ms.LastEntry? then NewLineAt(ms.entry.slot.after, depth) else ms.entry.slot.after == "" && LaidEntries(ms.rest, depth))
  }

  /** The tree without its white space. */
  function Stripped(v: Syntax): (r: Syntax)
    ensures Bare(r)
  {
    match v
    case EmptyArray(_) => EmptyArray("")
    case ArrayText(es) => ArrayText(StrippedElements(es))
    case EmptyObject(_) => EmptyObject("")
    case ObjectText(ms) => ObjectText(StrippedEntries(ms))
    case _ => v
  }

  function StrippedSlot(slot: Slot): (r: Slot)
    ensures BareSlot(r)
  {
    Slot("", Stripped(slot.value), "")
  }

  function StrippedElements(es: Elements): (r: Elements)
    ensures BareElements(r)
  {
    match es
    case LastElement(slot) => LastElement(StrippedSlot(slot))
    case MoreElements(slot, rest) => MoreElements(StrippedSlot(slot), StrippedElements(rest))
  }

  function StrippedEntry(e: Entry): Entry { Entry("", e.literal, e.key, "", StrippedSlot(e.slot)) }

  function StrippedEntries(ms: Entries): (r: Entries)
    ensures BareEntries(r)
  {
    match ms
    case LastEntry(e) => LastEntry(StrippedEntry(e))
    case MoreEntries(e, rest) => MoreEntries(StrippedEntry(e), StrippedEntries(rest))
  }

  /** Literals are escaped as print_string_ptr does it, and numbers have no superfluous characters. */
  predicate Canonical(v: Syntax) {
    match v
    case NumberText(minus, digits) =>
      HasDigits(v) && digits == Decimal(DecimalValue(digits)) && (minus ==> DecimalValue(digits) > 0)
    case StringText(literal, value) => literal == Quote(value)
    case ArrayText(es) => CanonicalElements(es)
    case ObjectText(ms) => CanonicalEntries(ms)
    case _ => true
  }

  predicate CanonicalElements(es: Elements) {
    Canonical(es.slot.value) && (es.MoreElements? ==> CanonicalElements(es.rest))
  }

  predicate CanonicalEntries(ms: Entries) {
    && ms.entry.literal == Quote(ms.entry.key) && Canonical(ms.entry.slot.value)
    && (ms.MoreEntries? ==> CanonicalEntries(ms.rest))
  }

  // ----- the layout of printed trees -----

  lemma LineLaid(depth: nat)
    ensures NewLineAt(Line(true, depth), depth) && Line(false, depth) == ""
    ensures Gap(true, ' ') == " " && Gap(true, '\t') == "\t" && Gap(false, ' ') == Gap(false, '\t') == ""
  {
  }

  /** What is said of a printed tree: its layout, and what is left without its white space. */
  ghost predicate LaidOut(v: Syntax, plain: Syntax, format: bool, depth: nat) {
    Canonical(v) && (if format then Laid(v, depth) else Bare(v)) && Stripped(v) == plain
  }

  lemma {:induction false} ElementsLaidOut(a: Json, items: seq<Json>, format: bool, depth: nat, depth': nat, first: bool)
    requires items != [] && ItemsBelow(a, items)
    ensures var es := PrintedElements(a, items, format, depth, first);
            && CanonicalElements(es) && (if format then LaidElements(es, depth, first) else BareElements(es))
            && StrippedElements(es) == PrintedElements(a, items, false, depth', first)
    decreases a, 0, |items|
  {
    TailBelow(a, items);
    ItemLaidOut(items[0], format, depth, depth');
    LineLaid(depth);
    if |items| > 1 {
      ElementsLaidOut(a, items[1..], format, depth, depth', false);
    }
    hide PrintedSyntax, Laid, Bare, Stripped, Gap, Printable, Canonical;
  }

  lemma {:induction false} EntriesLaidOut(a: Json, ms: seq<Member>, format: bool, depth: nat, depth': nat)
    requires ms != [] && MembersBelow(a, ms)
    ensures var es := PrintedEntries(a, ms, format, depth);
            && CanonicalEntries(es) && (if format then LaidEntries(es, depth) else BareEntries(es))
            && StrippedEntries(es) == PrintedEntries(a, ms, false, depth')
    decreases a, 0, |ms|
  {
    hide *;
    MembersTailBelow(a, ms);
    ItemLaidOut(ms[0].value, format, depth + 1, depth' + 1);
    if |ms| > 1 {
      EntriesLaidOut(a, ms[1..], format, depth, depth');
    }
    PrintedEntriesHead(a, ms, format, depth);
    PrintedEntriesHead(a, ms, false, depth');
    LineLaid(depth);
    LineLaid(depth + 1);
    LineLaid(depth');
    LineLaid(depth' + 1);
    EntriesLaidStep(PrintedEntries(a, ms, format, depth), PrintedEntries(a, ms, false, depth'), format, depth);
  }

  lemma EntriesLaidStep(es: Entries, plain: Entries, format: bool, depth: nat)
    requires es.entry.literal == Quote(es.entry.key) && es.entry.colon == ""
    requires LaidOut(es.entry.slot.value, plain.entry.slot.value, format, depth + 1)
    requires if format then NewLineAt(es.entry.before, depth + 1) && es.entry.slot.before == "\t"
             else es.entry.before == "" && es.entry.slot.before == ""
    requires plain.entry.before == "" && plain.entry.literal == es.entry.literal && plain.entry.key == es.entry.key && plain.entry.colon == ""
    requires plain.entry.slot.before == "" && plain.entry.slot.after == "" && (es.LastEntry? <==> plain.LastEntry?)
    requires es.LastEntry? ==> if format then NewLineAt(es.entry.slot.after, depth) else es.entry.slot.after == ""
    requires es.MoreEntries? ==> CanonicalEntries(es.rest) && es.entry.slot.after == "" && (if format then LaidEntries(es.rest, depth) else BareEntries(es.rest))
                                 && StrippedEntries(es.rest) == plain.rest
    ensures CanonicalEntries(es) && (if format then LaidEntries(es, depth) else BareEntries(es)) && StrippedEntries(es) == plain
  {
    hide Laid, Bare, Stripped, NewLineAt, Canonical, Quote;
    assert StrippedSlot(es.entry.slot) == plain.entry.slot;
    assert StrippedEntry(es.entry) == plain.entry;
  }

  lemma ScalarLaidOut(item: Json, format: bool, depth: nat, depth': nat)
    requires Printable(item) && (item.Array? ==> item.items == []) && (item.Object? ==> item.members == [])
    ensures LaidOut(PrintedSyntax(item, format, depth), PrintedSyntax(item, false, depth'), format, depth)
  {
    LineLaid(depth);
    LineLaid(depth');
    hide Line, Gap, Decimal, DecimalValue, Quote, NewLineAt;
    if item.Number? {
      hide *;
      NumberLaidOut(item, format, depth, depth');
    }
  }

  lemma NumberLaidOut(item: Json, format: bool, depth: nat, depth': nat)
    requires Printable(item) && item.Number?
    ensures LaidOut(PrintedSyntax(item, format, depth), PrintedSyntax(item, false, depth'), format, depth)
  {
    DecimalRoundTrip(if item.n < 0 then -item.n else item.n);
    hide Decimal, DecimalValue;
  }

  lemma ArrayLaidOut(item: Json, format: bool, depth: nat, depth': nat)
    requires Printable(item) && item.Array? && item.items != [] && ItemsBelow(item, item.items)
    requires var es := PrintedElements(item, item.items, format, depth + 1, true);
             && CanonicalElements(es) && (if format then LaidElements(es, depth + 1, true) else BareElements(es))
             && StrippedElements(es) == PrintedElements(item, item.items, false, depth' + 1, true)
    ensures LaidOut(PrintedSyntax(item, format, depth), PrintedSyntax(item, false, depth'), format, depth)
  {
    hide PrintedElements, CanonicalElements, LaidElements, BareElements, StrippedElements;
  }

  lemma ObjectLaidOut(item: Json, format: bool, depth: nat, depth': nat)
    requires Printable(item) && item.Object? && item.members != [] && MembersBelow(item, item.members)
    requires var es := PrintedEntries(item, item.members, format, depth);
             && CanonicalEntries(es) && (if format then LaidEntries(es, depth) else BareEntries(es))
             && StrippedEntries(es) == PrintedEntries(item, item.members, false, depth')
    ensures LaidOut(PrintedSyntax(item, format, depth), PrintedSyntax(item, false, depth'), format, depth)
  {
    hide PrintedEntries, CanonicalEntries, LaidEntries, BareEntries, StrippedEntries;
  }

  lemma {:induction false} ItemLaidOut(item: Json, format: bool, depth: nat, depth': nat)
    requires Printable(item)
    ensures LaidOut(PrintedSyntax(item, format, depth), PrintedSyntax(item, false, depth'), format, depth)
    decreases item, 1, 0
  {
    hide *;
    PartsBelow(item);
    if item.Array? && item.items != [] {
      ElementsLaidOut(item, item.items, format, depth + 1, depth' + 1, true);
      ArrayLaidOut(item, format, depth, depth');
    } else if item.Object? && item.members != [] {
      EntriesLaidOut(item, item.members, format, depth, depth');
      ObjectLaidOut(item, format, depth, depth');
    } else {
      ScalarLaidOut(item, format, depth, depth');
    }
  }

  // ----- the printed tree is the only one -----

  lemma NewLineIs(t: string, depth: nat)
    requires NewLineAt(t, depth)
    ensures t == Line(true, depth)
  {
  }

  lemma ItemsOfParts(es: Elements)
    ensures ItemsOf(es) != [] && ItemsOf(es)[0] == ItemOf(es.slot.value) && (es.LastElement? <==> |ItemsOf(es)| == 1)
    ensures es.MoreElements? ==> ItemsOf(es)[1..] == ItemsOf(es.rest)
  {
    hide ItemOf;
  }

  lemma MembersOfParts(ms: Entries)
    ensures MembersOf(ms) != [] && MembersOf(ms)[0] == Member(ms.entry.key, ItemOf(ms.entry.slot.value))
    ensures (ms.LastEntry? <==> |MembersOf(ms)| == 1) && (ms.MoreEntries? ==> MembersOf(ms)[1..] == MembersOf(ms.rest))
  {
    hide ItemOf;
  }

  lemma {:induction false} ElementsAsPrinted(a: Json, es: Elements, format: bool, depth: nat, first: bool)
    requires CanonicalElements(es) && ItemsBelow(a, ItemsOf(es))
    requires if format then LaidElements(es, depth, first) else BareElements(es)
    ensures ItemsOf(es) != [] && es == PrintedElements(a, ItemsOf(es), format, depth, first)
    decreases es
  {
    ItemsOfParts(es);
    LineLaid(depth);
    var items := ItemsOf(es);
    hide ItemsOf, ItemOf, ItemsBelow, Canonical, Laid, Bare, PrintedSyntax, PrintedElements, Gap;
    TailBelow(a, items);
    AsPrinted(es.slot.value, format, depth);
    if es.MoreElements? {
      ElementsAsPrinted(a, es.rest, format, depth, false);
    }
    PrintedElementsHead(a, items, format, depth, first);
  }

  lemma {:induction false} EntriesAsPrinted(a: Json, ms: Entries, format: bool, depth: nat)
    requires CanonicalEntries(ms) && MembersBelow(a, MembersOf(ms))
    requires if format then LaidEntries(ms, depth) else BareEntries(ms)
    ensures MembersOf(ms) != [] && ms == PrintedEntries(a, MembersOf(ms), format, depth)
    decreases ms
  {
    MembersOfParts(ms);
    LineLaid(depth);
    LineLaid(depth + 1);
    if format {
      NewLineIs(ms.entry.before, depth + 1);
      if ms.LastEntry? {
        NewLineIs(ms.entry.slot.after, depth);
      }
    }
    var members := MembersOf(ms);
    hide MembersOf, ItemOf, MembersBelow, Canonical, Laid, Bare, PrintedSyntax, PrintedEntries, Gap, Line, NewLineAt, Quote;
    MembersTailBelow(a, members);
    AsPrinted(ms.entry.slot.value, format, depth + 1);
    if ms.MoreEntries? {
      EntriesAsPrinted(a, ms.rest, format, depth);
    }
    PrintedEntriesHead(a, members, format, depth);
  }

  /** A canonical tree that is laid out so is the printed tree of its item. */
  lemma {:induction false} AsPrinted(v: Syntax, format: bool, depth: nat)
    requires Canonical(v) && Printable(ItemOf(v)) && (if format then Laid(v, depth) else Bare(v))
    ensures v == PrintedSyntax(ItemOf(v), format, depth)
    decreases v
  {
    PartsBelow(ItemOf(v));
    LineLaid(depth);
    if v.EmptyObject? && format {
      NewLineIs(v.blanks, depth);
    }
    hide ItemsOf, MembersOf, CanonicalElements, CanonicalEntries, LaidElements, LaidEntries, BareElements, BareEntries, PrintedElements,
      PrintedEntries, Line, Gap, NewLineAt, Quote, Decimal, DecimalValue;
    if v.ArrayText? {
      ElementsAsPrinted(ItemOf(v), v.elements, format, depth + 1, true);
    } else if v.ObjectText? {
      EntriesAsPrinted(ItemOf(v), v.entries, format, depth);
    }
  }

  /** The text is that of a canonical tree of the item: in lines if it is formatted, and without white space if not. */
  ghost predicate LaidOutAs(text: string, item: Json, format: bool, depth: nat) {
    exists v :: Canonical(v) && (if format then Laid(v, depth) else Bare(v)) && ItemOf(v) == item && Written(v) == text
  }

  /** Main result: the printed text of an item is the one text of the item with this layout. */
  lemma PrintedExactly(text: string, item: Json, format: bool, depth: nat)
    requires Printable(item)
    ensures text == PrintText(item, format, depth) <==> LaidOutAs(text, item, format, depth)
  {
    var p := PrintedSyntax(item, format, depth);
    PrintedItemText(item, format, depth);
    PrintedItemMeans(item, format, depth);
    ItemLaidOut(item, format, depth, depth);
    assert Canonical(p) && (if format then Laid(p, depth) else Bare(p)) && ItemOf(p) == item && Written(p) == PrintText(item, format, depth);
    hide Canonical, Laid, Bare, ItemOf, Written, PrintText, PrintedSyntax, Printable, Standard, DepthOf, Nesting;
    if LaidOutAs(text, item, format, depth) {
      var v :| Canonical(v) && (if format then Laid(v, depth) else Bare(v)) && ItemOf(v) == item && Written(v) == text;
      AsPrinted(v, format, depth);
    }
  }
}
