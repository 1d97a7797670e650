/** Parsing a printed tree gives the tree back. */
module ParseRoundTrip {
  import opened Text
  import opened Json
  import opened StringCodec
  import opened PrintedText
  import opened Parser
  import opened JsonGrammar
  import opened GrammarReads
  import opened ParserExact

  // ----- the syntax tree of a printed item -----

  /** Between two elements or behind a colon, only in formatted text. */
  function Gap(format: bool, c: char): string { if format then [c] else "" }

  /** A new line with its indentation, only in formatted text. */
  function Line(format: bool, depth: nat): string { if format then "\n" + Repeat('\t', depth) else "" }

  ghost predicate ItemsBelow(a: Json, items: seq<Json>) {
    forall i :: 0 <= i < |items| ==> items[i] < a && Printable(items[i])
  }

  ghost predicate MembersBelow(a: Json, ms: seq<Member>) {
    forall i :: 0 <= i < |ms| ==> ms[i].value < a && NUL !in ms[i].key && Printable(ms[i].value)
  }

  /** How the item is laid out at the given depth. */
  function PrintedSyntax(item: Json, format: bool, depth: nat): Syntax
    requires Printable(item)
    decreases item, 1, 0
  {
    match item
    case Null => NullText
    case False => FalseText
    case True => TrueText
    case Number(n) => NumberText(n < 0, Decimal(if n < 0 then -n else n))
    case String(s) => StringText(Quote(s), s)
    case Array(items) => if items == [] then EmptyArray("") else ArrayText(PrintedElements(item, items, format, depth + 1, true))
    case Object(ms) =>
      assert forall i :: 0 <= i < |ms| ==> ms[i].value < ms[i];
      if ms == [] then EmptyObject(Line(format, depth)) else ObjectText(PrintedEntries(item, ms, format, depth))
  }

  function PrintedElements(ghost a: Json, items: seq<Json>, format: bool, depth: nat, first: bool): Elements
    requires items != [] && ItemsBelow(a, items)
    decreases a, 0, |items|
  {
    var slot := Slot(if first then "" else Gap(format, ' '), PrintedSyntax(items[0], format, depth), "");
    if |items| == 1 then LastElement(slot) else MoreElements(slot, PrintedElements(a, items[1..], format, depth, false))
  }

  /** The members of an object at the given depth. */
  function PrintedEntries(ghost a: Json, ms: seq<Member>, format: bool, depth: nat): Entries
    requires ms != [] && MembersBelow(a, ms)
    decreases a, 0, |ms|
  {
    var value := PrintedSyntax(ms[0].value, format, depth + 1);
    var slot := Slot(Gap(format, '\t'), value, if |ms| == 1 then Line(format, depth) else "");
    var entry := Entry(Line(format, depth + 1), Quote(ms[0].key), ms[0].key, "", slot);
    if |ms| == 1 then LastEntry(entry) else MoreEntries(entry, PrintedEntries(a, ms[1..], format, depth))
  }

  lemma PartsBelow(a: Json)
    requires Printable(a)
    ensures a.Array? ==> ItemsBelow(a, a.items)
    ensures a.Object? ==> MembersBelow(a, a.members)
  {
    if a.Object? {
      assert forall i :: 0 <= i < |a.members| ==> a.members[i].value < a.members[i];
    }
  }

  lemma TailBelow(a: Json, items: seq<Json>)
    requires items != [] && ItemsBelow(a, items)
    ensures items[0] < a && Printable(items[0]) && ItemsBelow(a, items[1..])
    ensures forall i :: 0 <= i < |items[1..]| ==> items[1..][i] < a
  {
    hide Printable;
  }

  lemma MembersTailBelow(a: Json, ms: seq<Member>)
    requires ms != [] && MembersBelow(a, ms)
    ensures ms[0].value < a && NUL !in ms[0].key && Printable(ms[0].value) && MembersBelow(a, ms[1..])
    ensures forall i :: 0 <= i < |ms[1..]| ==> ms[1..][i].value < a
  {
    hide Printable;
  }

  // ----- its text is the printed text -----

  lemma LineParts(format: bool, depth: nat)
    ensures Line(format, depth) == NewLine(format) + Tabs(format, depth)
  {
  }

  lemma PrintedScalar(item: Json, format: bool, depth: nat)
    requires Printable(item) && !item.Array? && !item.Object?
    ensures Written(PrintedSyntax(item, format, depth)) == PrintText(item, format, depth)
  {
    hide Decimal, Quote;
  }

  lemma ElementsTextParts(a: Json, items: seq<Json>, format: bool, depth: nat)
    requires items != [] && ItemsBelow(a, items)
    ensures ElementsText(a, items, format, depth)
            == PrintText(items[0], format, depth)
               + (if |items| == 1 then "" else ("," + Gap(format, ' ')) + ElementsText(a, items[1..], format, depth))
  {
    hide PrintText;
  }

  lemma WrittenPrintedElements(a: Json, items: seq<Json>, format: bool, depth: nat, first: bool)
    requires items != [] && ItemsBelow(a, items) && ItemsBelow(a, items[1..])
    ensures var (gap, text) := (if first then "" else Gap(format, ' '), Written(PrintedSyntax(items[0], format, depth)));
            && (|items| == 1 ==> WrittenElements(PrintedElements(a, items, format, depth, first)) == gap + (text + "]"))
            && (|items| > 1 ==> WrittenElements(PrintedElements(a, items, format, depth, first))
                                == gap + (text + ("," + WrittenElements(PrintedElements(a, items[1..], format, depth, false)))))
  {
    hide Written, PrintedSyntax, Gap, Printable;
    var s := if |items| == 1 then "]" else "," + WrittenElements(PrintedElements(a, items[1..], format, depth, false));
    assert "" + s == s;
  }

  lemma {:induction false} PrintedElementsText(a: Json, items: seq<Json>, format: bool, depth: nat, first: bool)
    requires items != [] && ItemsBelow(a, items)
    ensures WrittenElements(PrintedElements(a, items, format, depth, first))
            == (if first then "" else Gap(format, ' ')) + (ElementsText(a, items, format, depth) + "]")
    decreases a, 0, |items|
  {
    hide *;
    TailBelow(a, items);
    PrintedItemText(items[0], format, depth);
    ElementsTextParts(a, items, format, depth);
    WrittenPrintedElements(a, items, format, depth, first);
    var (t, gap) := (PrintText(items[0], format, depth), Gap(format, ' '));
    if |items| > 1 {
      PrintedElementsText(a, items[1..], format, depth, false);
      var rest := ElementsText(a, items[1..], format, depth);
      AppendAssociative(t, ("," + gap) + rest, "]");
      AppendAssociative("," + gap, rest, "]");
      AppendAssociative(",", gap, rest + "]");
    } else {
      AppendAssociative(t, "", "]");
      assert t + "" == t;
    }
  }

  lemma AppendInside<T>(a: seq<T>, b: seq<T>, c: seq<T>, d: seq<T>, e: seq<T>, f: seq<T>)
    ensures (a + (b + (c + (d + e)))) + f == a + (b + (c + (d + (e + f))))
  {
    AppendAssociative(a, b + (c + (d + e)), f);
    AppendAssociative(b, c + (d + e), f);
    AppendAssociative(c, d + e, f);
    AppendAssociative(d, e, f);
  }

  lemma WrittenPrintedEntries(a: Json, ms: seq<Member>, format: bool, depth: nat)
    requires ms != [] && MembersBelow(a, ms) && MembersBelow(a, ms[1..])
    ensures var text := Written(PrintedSyntax(ms[0].value, format, depth + 1));
            var more := if |ms| == 1 then Line(format, depth) + "}" else "," + WrittenEntries(PrintedEntries(a, ms[1..], format, depth));
            WrittenEntries(PrintedEntries(a, ms, format, depth))
            == Line(format, depth + 1) + (Quote(ms[0].key) + (":" + (Gap(format, '\t') + (text + more))))
  {
    hide Written, PrintedSyntax, Gap, Line, Printable, Quote;
    var tail := if |ms| == 1 then "}" else "," + WrittenEntries(PrintedEntries(a, ms[1..], format, depth));
    assert "" + tail == tail;
    var slot := WrittenSlot(PrintedEntries(a, ms, format, depth).entry.slot, tail);
    assert "" + (":" + slot) == ":" + slot;
  }

  /** The pieces of a member put together in the two ways. */
  lemma MemberPieces(nl: string, tabs: string, key: string, gap: string, text: string, comma: string, rest: string, close: string)
    ensures nl + ((tabs + (key + ((":" + gap) + (text + (comma + (nl + rest)))))) + close)
            == (nl + tabs) + (key + (":" + (gap + (text + (comma + (nl + (rest + close)))))))
  {
    var e := comma + (nl + rest);
    AppendInside(tabs, key, ":" + gap, text, e, close);
    AppendAssociative(comma, nl + rest, close);
    AppendAssociative(nl, rest, close);
    AppendAssociative(":", gap, text + (e + close));
    AppendAssociative(nl, tabs, key + (":" + (gap + (text + (e + close)))));
  }

  lemma LastMemberPieces(nl: string, tabs: string, key: string, gap: string, text: string, outer: string)
    ensures nl + ((tabs + (key + ((":" + gap) + (text + ("" + (nl + "")))))) + (outer + "}"))
            == (nl + tabs) + (key + (":" + (gap + (text + ((nl + outer) + "}")))))
  {
    MemberPieces(nl, tabs, key, gap, text, "", "", outer + "}");
    AppendAssociative(nl, outer, "}");
    assert "" + (outer + "}") == outer + "}";
    assert "" + (nl + (outer + "}")) == nl + (outer + "}");
  }

  lemma MembersTextIs(a: Json, ms: seq<Member>, format: bool, depth: nat)
    requires ms != [] && MembersBelow(a, ms)
    ensures var rest := if |ms| == 1 then "" + (NewLine(format) + "") else "," + (NewLine(format) + MembersText(a, ms[1..], format, depth));
            MembersText(a, ms, format, depth)
            == Tabs(format, depth) + (Quote(ms[0].key) + ((":" + Gap(format, '\t')) + (PrintText(ms[0].value, format, depth) + rest)))
  {
    hide PrintText, Quote, Tabs, NewLine;
  }

  lemma {:induction false} PrintedEntriesText(a: Json, ms: seq<Member>, format: bool, depth: nat)
    requires ms != [] && MembersBelow(a, ms)
    ensures WrittenEntries(PrintedEntries(a, ms, format, depth))
            == NewLine(format) + (MembersText(a, ms, format, depth + 1) + (Tabs(format, depth) + "}"))
    decreases a, 0, |ms|
  {
    hide *;
    MembersTailBelow(a, ms);
    PrintedItemText(ms[0].value, format, depth + 1);
    MembersTextIs(a, ms, format, depth + 1);
    WrittenPrintedEntries(a, ms, format, depth);
    LineParts(format, depth + 1);
    var (nl, tabs, outer) := (NewLine(format), Tabs(format, depth + 1), Tabs(format, depth));
    var (key, gap, text) := (Quote(ms[0].key), Gap(format, '\t'), PrintText(ms[0].value, format, depth + 1));
    if |ms| == 1 {
      LineParts(format, depth);
      LastMemberPieces(nl, tabs, key, gap, text, outer);
    } else {
      PrintedEntriesText(a, ms[1..], format, depth);
      MemberPieces(nl, tabs, key, gap, text, ",", MembersText(a, ms[1..], format, depth + 1), outer + "}");
    }
  }

  /** The printed text is that of the syntax tree. */
  lemma {:induction false} PrintedItemText(item: Json, format: bool, depth: nat)
    requires Printable(item)
    ensures Written(PrintedSyntax(item, format, depth)) == PrintText(item, format, depth)
    decreases item, 1, 0
  {
    PartsBelow(item);
    if item.Array? && item.items != [] {
      PrintedElementsText(item, item.items, format, depth + 1, true);
      PrintedArray(item, format, depth);
    } else if item.Object? && item.members != [] {
      PrintedEntriesText(item, item.members, format, depth);
      PrintedObject(item, format, depth);
    } else if item.Array? || item.Object? {
      PrintedEmpty(item, format, depth);
    } else {
      PrintedScalar(item, format, depth);
    }
  }

  lemma PrintedArray(item: Json, format: bool, depth: nat)
    requires Printable(item) && item.Array? && item.items != [] && ItemsBelow(item, item.items)
    requires WrittenElements(PrintedElements(item, item.items, format, depth + 1, true))
             == "" + (ElementsText(item, item.items, format, depth + 1) + "]")
    ensures Written(PrintedSyntax(item, format, depth)) == PrintText(item, format, depth)
  {
    hide WrittenElements, PrintedElements, ElementsText;
  }

  lemma PrintedObject(item: Json, format: bool, depth: nat)
    requires Printable(item) && item.Object? && item.members != [] && MembersBelow(item, item.members)
    requires WrittenEntries(PrintedEntries(item, item.members, format, depth))
             == NewLine(format) + (MembersText(item, item.members, format, depth + 1) + (Tabs(format, depth) + "}"))
    ensures Written(PrintedSyntax(item, format, depth)) == PrintText(item, format, depth)
  {
    hide WrittenEntries, PrintedEntries, MembersText, NewLine, Tabs;
  }

  lemma PrintedEmpty(item: Json, format: bool, depth: nat)
    requires item == Array([]) || item == Object([])
    ensures Written(PrintedSyntax(item, format, depth)) == PrintText(item, format, depth)
  {
    if item.Object? {
      LineParts(format, depth);
      var (nl, tabs) := (NewLine(format), Tabs(format, depth));
      assert MembersText(item, [], format, depth + 1) == "";
      hide NewLine, Tabs, Line, MembersText;
      AppendAssociative(nl, tabs, "}");
      assert "" + (tabs + "}") == tabs + "}";
    }
  }

  // ----- its item and its depth -----

  lemma LineIsSpace(format: bool, depth: nat)
    ensures Space(Line(format, depth)) && Space(Gap(format, ' ')) && Space(Gap(format, '\t')) && Space("")
  {
  }

  lemma QuoteIsLiteral(s: string)
    requires NUL !in s
    ensures LiteralOf(Quote(s), s)
  {
    var es := PrintedEscapes(s);
    PrintedBytes(s);
    hide LiteralText, LiteralBytes, PrintedEscapes, InQuotes;
    assert ValidEscapes(es) && Quote(s) == InQuotes(LiteralText(es)) && s == CString(LiteralBytes(es));
  }

  function PowerOfTen(k: nat): nat { if k == 0 then 1 else 10 * PowerOfTen(k - 1) }

  lemma {:induction false} DecimalLength(n: nat, k: nat)
    requires n < PowerOfTen(k) && k > 0
    ensures |Decimal(n)| <= k
    decreases k
  {
    if n >= 10 {
      assert PowerOfTen(k) == 10 * PowerOfTen(k - 1);
      DecimalLength(n / 10, k - 1);
    }
  }

  lemma IntegerLength(n: nat)
    requires n <= 0x8000_0000
    ensures |Decimal(n)| <= 12
  {
    assert PowerOfTen(3) == 1000;
    assert PowerOfTen(6) == 1000000;
    assert PowerOfTen(9) == 1000000000;
    assert PowerOfTen(12) == 1000000000000;
    DecimalLength(n, 12);
  }

  /** The tree is one of RFC 8259 and stands for the item. */
  ghost predicate StandardFor(v: Syntax, item: Json) {
    Standard(v) && ItemOf(v) == item && DepthOf(v) == Nesting(item)
  }

  lemma NumberIsStandard(n: int)
    requires Printable(Number(n))
    ensures StandardFor(NumberText(n < 0, Decimal(if n < 0 then -n else n)), Number(n))
  {
    var m: nat := if n < 0 then -n else n;
    DecimalRoundTrip(m);
    IntegerLength(m);
    hide Decimal, DecimalValue;
  }

  lemma PrintedElementsHead(a: Json, items: seq<Json>, format: bool, depth: nat, first: bool)
    requires items != [] && ItemsBelow(a, items) && ItemsBelow(a, items[1..])
    ensures var es := PrintedElements(a, items, format, depth, first);
            && es.slot == Slot(if first then "" else Gap(format, ' '), PrintedSyntax(items[0], format, depth), "")
            && (es.LastElement? <==> |items| == 1)
            && (es.MoreElements? ==> es.rest == PrintedElements(a, items[1..], format, depth, false))
  {
    hide PrintedSyntax, Gap, Printable;
  }

  lemma ElementsMeanStep(es: Elements, a: Json, items: seq<Json>)
    requires items != [] && ItemsBelow(a, items) && ItemsBelow(a, items[1..]) && (es.LastElement? <==> |items| == 1)
    requires Space(es.slot.before) && Space(es.slot.after) && StandardFor(es.slot.value, items[0])
    requires es.MoreElements? ==> StandardElements(es.rest) && ItemsOf(es.rest) == items[1..] && ElementsDepth(es.rest) == NestingOfItems(a, items[1..])
    ensures StandardElements(es) && ItemsOf(es) == items && ElementsDepth(es) == NestingOfItems(a, items)
  {
    hide Standard, ItemOf, DepthOf, Nesting, Printable, Space;
    assert |items| > 1 ==> items == [items[0]] + items[1..];
  }

  lemma {:induction false} PrintedElementsMean(a: Json, items: seq<Json>, format: bool, depth: nat, first: bool)
    requires items != [] && ItemsBelow(a, items)
    ensures var es := PrintedElements(a, items, format, depth, first);
            StandardElements(es) && ItemsOf(es) == items && ElementsDepth(es) == NestingOfItems(a, items)
    decreases a, 0, |items|
  {
    hide *;
    TailBelow(a, items);
    PrintedItemMeans(items[0], format, depth);
    LineIsSpace(format, depth);
    if |items| > 1 {
      PrintedElementsMean(a, items[1..], format, depth, false);
    }
    PrintedElementsHead(a, items, format, depth, first);
    ElementsMeanStep(PrintedElements(a, items, format, depth, first), a, items);
  }

  lemma PrintedEntriesHead(a: Json, ms: seq<Member>, format: bool, depth: nat)
    requires ms != [] && MembersBelow(a, ms) && MembersBelow(a, ms[1..])
    ensures var es := PrintedEntries(a, ms, format, depth);
            && es.entry.before == Line(format, depth + 1) && es.entry.literal == Quote(ms[0].key) && es.entry.key == ms[0].key
            && es.entry.colon == "" && es.entry.slot.before == Gap(format, '\t')
            && es.entry.slot.value == PrintedSyntax(ms[0].value, format, depth + 1)
            && es.entry.slot.after == (if |ms| == 1 then Line(format, depth) else "")
            && (es.LastEntry? <==> |ms| == 1) && (es.MoreEntries? ==> es.rest == PrintedEntries(a, ms[1..], format, depth))
  {
    hide PrintedSyntax, Line, Gap, Quote, Printable;
  }

  lemma EntriesMeanStep(es: Entries, a: Json, ms: seq<Member>)
    requires ms != [] && MembersBelow(a, ms) && MembersBelow(a, ms[1..]) && (es.LastEntry? <==> |ms| == 1)
    requires Space(es.entry.before) && LiteralOf(es.entry.literal, es.entry.key) && Space(es.entry.colon)
    requires Space(es.entry.slot.before) && Space(es.entry.slot.after)
    requires es.entry.key == ms[0].key && StandardFor(es.entry.slot.value, ms[0].value)
    requires es.MoreEntries? ==> StandardEntries(es.rest) && MembersOf(es.rest) == ms[1..] && EntriesDepth(es.rest) == NestingOfMembers(a, ms[1..])
    ensures StandardEntries(es) && MembersOf(es) == ms && EntriesDepth(es) == NestingOfMembers(a, ms)
  {
    hide Standard, ItemOf, DepthOf, Nesting, Printable, Space, LiteralOf;
    assert |ms| > 1 ==> ms == [ms[0]] + ms[1..];
  }

  lemma {:induction false} PrintedEntriesMean(a: Json, ms: seq<Member>, format: bool, depth: nat)
    requires ms != [] && MembersBelow(a, ms)
    ensures var es := PrintedEntries(a, ms, format, depth);
            StandardEntries(es) && MembersOf(es) == ms && EntriesDepth(es) == NestingOfMembers(a, ms)
    decreases a, 0, |ms|
  {
    hide *;
    MembersTailBelow(a, ms);
    PrintedItemMeans(ms[0].value, format, depth + 1);
    QuoteIsLiteral(ms[0].key);
    LineIsSpace(format, depth);
    LineIsSpace(format, depth + 1);
    if |ms| > 1 {
      PrintedEntriesMean(a, ms[1..], format, depth);
    }
    PrintedEntriesHead(a, ms, format, depth);
    EntriesMeanStep(PrintedEntries(a, ms, format, depth), a, ms);
  }

  lemma ArrayMeansItem(item: Json, format: bool, depth: nat)
    requires Printable(item) && item.Array? && item.items != [] && ItemsBelow(item, item.items)
    requires var es := PrintedElements(item, item.items, format, depth + 1, true);
             StandardElements(es) && ItemsOf(es) == item.items && ElementsDepth(es) == NestingOfItems(item, item.items)
    ensures StandardFor(PrintedSyntax(item, format, depth), item)
  {
    hide PrintedElements, StandardElements, ItemsOf, ElementsDepth, NestingOfItems;
  }

  lemma ObjectMeansItem(item: Json, format: bool, depth: nat)
    requires Printable(item) && item.Object? && item.members != [] && MembersBelow(item, item.members)
    requires var es := PrintedEntries(item, item.members, format, depth);
             StandardEntries(es) && MembersOf(es) == item.members && EntriesDepth(es) == NestingOfMembers(item, item.members)
    ensures StandardFor(PrintedSyntax(item, format, depth), item)
  {
    hide PrintedEntries, StandardEntries, MembersOf, EntriesDepth, NestingOfMembers;
  }

  lemma WordMeansItem(item: Json, format: bool, depth: nat)
    requires item.Null? || item.False? || item.True? || item == Array([]) || item == Object([])
    ensures StandardFor(PrintedSyntax(item, format, depth), item)
  {
    LineIsSpace(format, depth);
    hide Space, Line;
  }

  lemma NumberMeansItem(item: Json, format: bool, depth: nat)
    requires Printable(item) && item.Number?
    ensures StandardFor(PrintedSyntax(item, format, depth), item)
  {
    hide StandardFor, Decimal;
    NumberIsStandard(item.n);
  }

  lemma StringMeansItem(item: Json, format: bool, depth: nat)
    requires Printable(item) && item.String?
    ensures StandardFor(PrintedSyntax(item, format, depth), item)
  {
    hide *;
    PrintedString(item, format, depth);
    QuoteIsLiteral(item.s);
    LiteralMeansString(Quote(item.s), item.s);
  }

  lemma PrintedString(item: Json, format: bool, depth: nat)
    requires Printable(item) && item.String?
    ensures PrintedSyntax(item, format, depth) == StringText(Quote(item.s), item.s) && NUL !in item.s
  {
    hide Quote;
  }

  lemma LiteralMeansString(literal: string, s: string)
    requires LiteralOf(literal, s)
    ensures StandardFor(StringText(literal, s), String(s))
  {
    hide LiteralOf;
  }

  lemma {:induction false} PrintedItemMeans(item: Json, format: bool, depth: nat)
    requires Printable(item)
    ensures StandardFor(PrintedSyntax(item, format, depth), item)
    decreases item, 1, 0
  {
    PartsBelow(item);
    hide *;
    if item.Array? && item.items != [] {
      PrintedElementsMean(item, item.items, format, depth + 1, true);
      ArrayMeansItem(item, format, depth);
    } else if item.Object? && item.members != [] {
      PrintedEntriesMean(item, item.members, format, depth);
      ObjectMeansItem(item, format, depth);
    } else if item.Number? {
      NumberMeansItem(item, format, depth);
    } else if item.String? {
      StringMeansItem(item, format, depth);
    } else {
      WordMeansItem(item, format, depth);
    }
  }

  // ----- the round trip -----

  /** A printed item is parsed back, whatever follows it, exactly when it is not nested too deeply. */
  lemma ParsePrinted(item: Json, format: bool, pd: nat, s: string, o: nat, depth: nat)
    requires Printable(item) && TextAt(s, o, PrintText(item, format, pd)) && Ends(s, o + |PrintText(item, format, pd)|)
    requires depth <= NESTING_LIMIT
    ensures ParseValue(s, o, depth)
            == if depth + Nesting(item) <= NESTING_LIMIT then Parsed(item, o + |PrintText(item, format, pd)|) else Failed
  {
    hide PrintText, Ends, ParseValue, TextAt, Nesting, PrintedSyntax, Standard, Accepted, ItemOf, DepthOf, Written, Printable;
    var v := PrintedSyntax(item, format, pd);
    PrintedItemText(item, format, pd);
    PrintedItemMeans(item, format, pd);
    StandardAccepted(v);
    ReadValue(v, s, o, depth);
  }

  lemma DocumentOf(v: Syntax)
    ensures DocumentText(Document(false, "", v, "")) == Written(v)
  {
    var t := Written(v);
    assert t + "" == t && "" + t == t;
  }

  /** Main result: parsing the text of a tree, formatted or not, gives the tree back in the same order exactly
      when it is nested at most 1000 deep; a deeper tree is rejected. The whole text is consumed. */
  lemma PrintParse(item: Json, format: bool, requireNullTerminated: bool)
    requires Printable(item)
    ensures ParseText(PrintText(item, format, 0), requireNullTerminated)
            == if Nesting(item) <= 1000 then Parsed(item, |PrintText(item, format, 0)|) else Failed
  {
    hide PrintText, ParseText, Nesting, PrintedSyntax, Standard, ItemOf, DepthOf, Written, Printable, DocumentText;
    var v := PrintedSyntax(item, format, 0);
    PrintedItemText(item, format, 0);
    PrintedItemMeans(item, format, 0);
    DocumentOf(v);
    ParseStandard(false, "", v, "", requireNullTerminated);
  }
}
