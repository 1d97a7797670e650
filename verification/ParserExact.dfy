/** The parser reads exactly the texts that are accepted, the texts of RFC 8259 among them. */
module ParserExact {
  import opened Text
  import opened Json
  import opened StringCodec
  import opened Parser
  import opened JsonGrammar
  import opened GrammarReads

  // ----- what is read is accepted -----

  /** The value stands at the offset, and reading it there gave this result. */
  ghost predicate Shown(s: string, o: nat, depth: nat, v: Syntax, r: Parsed<Json>) {
    && Accepted(v) && TextAt(s, o, Written(v)) && depth + DepthOf(v) <= NESTING_LIMIT
    && r == Parsed(ItemOf(v), o + |Written(v)|)
  }

  ghost predicate ElementsShown(s: string, p: nat, depth: nat, es: Elements, r: Parsed<seq<Json>>) {
    && AcceptedElements(es) && TextAt(s, p, WrittenElements(es)) && depth + ElementsDepth(es) <= NESTING_LIMIT
    && r == Parsed(ItemsOf(es), p + |WrittenElements(es)|)
  }

  ghost predicate EntriesShown(s: string, p: nat, depth: nat, ms: Entries, r: Parsed<seq<Member>>) {
    && AcceptedEntries(ms) && TextAt(s, p, WrittenEntries(ms)) && depth + EntriesDepth(ms) <= NESTING_LIMIT
    && r == Parsed(MembersOf(ms), p + |WrittenEntries(ms)|)
  }

  lemma Skipped(s: string, o: nat) returns (b: string)
    requires o <= |s|
    ensures Blanks(b) && TextAt(s, o, b) && o + |b| == SkipWhitespace(s, o) <= |s|
  {
    b := s[o..SkipWhitespace(s, o)];
  }

  lemma NumberShown(s: string, o: nat, depth: nat) returns (v: Syntax)
    requires o < |s| && (s[o] == '-' || IsDigit(s[o])) && ParseNumber(s, o).Parsed? && depth <= NESTING_LIMIT
    ensures Shown(s, o, depth, v, ParseNumber(s, o))
  {
    hide ParseNumber, TextAt, NumberRun, SignedValue, Shown;
    var digits := DigitsRead(s, o);
    v := NumberText(s[o] == '-', digits);
    NumberIsShown(s, o, depth, v);
  }

  lemma NumberParsed(s: string, o: nat)
    requires o < |s| && ParseNumber(s, o).Parsed?
    ensures var run := s[o..o + NumberRun(s, o, 63)];
            ReadInteger(run).Integer? && ParseNumber(s, o) == Parsed(Number(ReadInteger(run).value), o + ReadInteger(run).length)
  {
    hide ReadInteger, NumberRun;
  }

  lemma RunBegins(s: string, o: nat)
    requires o < |s| && (s[o] == '-' || IsDigit(s[o]))
    ensures var run := s[o..o + NumberRun(s, o, 63)];
            run != "" && run[0] == s[o]
  {
    assert NumberRun(s, o, 63) > 0;
    hide NumberRun;
  }

  /** What parse_number has looked at. */
  lemma NumberParts(s: string, o: nat)
    requires o < |s| && (s[o] == '-' || IsDigit(s[o])) && ParseNumber(s, o).Parsed?
    ensures o + NumberRun(s, o, 63) <= |s| && NumberRun(s, o, 63) <= 63
    ensures var run := s[o..o + NumberRun(s, o, 63)];
            && run != "" && run[0] == s[o] && ReadInteger(run).Integer?
            && ParseNumber(s, o) == Parsed(Number(ReadInteger(run).value), o + ReadInteger(run).length)
  {
    RunBegins(s, o);
    hide *;
    NumberParsed(s, o);
  }

  lemma TextAtBeginning(s: string, o: nat, n: nat, k: nat)
    requires k <= n && o + n <= |s|
    ensures TextAt(s, o, s[o..o + n][..k])
  {
    assert s[o..o + n][..k] == s[o..o + k];
  }

  lemma DigitsRead(s: string, o: nat) returns (digits: string)
    requires o < |s| && (s[o] == '-' || IsDigit(s[o])) && ParseNumber(s, o).Parsed?
    ensures digits != "" && AllDigits(digits)
    ensures var t := Signed(s[o] == '-', digits);
            |t| <= 63 && TextAt(s, o, t) && ParseNumber(s, o) == Parsed(Number(SignedValue(s[o] == '-', digits)), o + |t|)
  {
    hide *;
    NumberParts(s, o);
    digits := IntegerRead(s[o..o + NumberRun(s, o, 63)]);
    TextAtBeginning(s, o, NumberRun(s, o, 63), |Signed(s[o] == '-', digits)|);
  }

  lemma IntegerRead(t: string) returns (digits: string)
    requires t != "" && (t[0] == '-' || IsDigit(t[0])) && ReadInteger(t).Integer?
    ensures digits != "" && AllDigits(digits)
    ensures var text := Signed(t[0] == '-', digits);
            |text| <= |t| && t[..|text|] == text && ReadInteger(t) == Integer(SignedValue(t[0] == '-', digits), |text|)
  {
    var sign := if t[0] == '-' then 1 else 0;
    digits := t[sign..][..DigitRun(t[sign..])];
    assert Signed(t[0] == '-', digits) == t[..sign + |digits|];
    hide DigitRun, DecimalValue;
  }

  lemma NumberIsShown(s: string, o: nat, depth: nat, v: Syntax)
    requires v.NumberText? && v.digits != "" && AllDigits(v.digits) && |Signed(v.minus, v.digits)| <= 63 && depth <= NESTING_LIMIT
    requires TextAt(s, o, Signed(v.minus, v.digits))
    requires ParseNumber(s, o) == Parsed(Number(SignedValue(v.minus, v.digits)), o + |Signed(v.minus, v.digits)|)
    ensures Shown(s, o, depth, v, ParseNumber(s, o))
  {
    hide ParseNumber, TextAt, SignedValue, Signed, AllDigits;
  }

  lemma SlotAccepted(slot: Slot)
    requires Blanks(slot.before) && Accepted(slot.value) && Blanks(slot.after)
    ensures AcceptedSlot(slot)
  {
    hide Blanks, Accepted;
  }

  lemma SlotJoins(slot: Slot, more: string, s: string, p: nat, q: nat, r: nat)
    requires Blanks(slot.before) && Accepted(slot.value) && Blanks(slot.after)
    requires TextAt(s, p, slot.before) && TextAt(s, p + |slot.before|, Written(slot.value))
    requires q == p + |slot.before| + |Written(slot.value)| && TextAt(s, q, slot.after) && r == q + |slot.after| && TextAt(s, r, more)
    ensures AcceptedSlot(slot) && TextAt(s, p, WrittenSlot(slot, more)) && p + |WrittenSlot(slot, more)| == r + |more|
  {
    hide *;
    SlotAccepted(slot);
    SlotUnfolds(slot, more);
    TextAtParts(s, q, slot.after, more);
    TextAtParts(s, p + |slot.before|, Written(slot.value), slot.after + more);
    TextAtParts(s, p, slot.before, Written(slot.value) + (slot.after + more));
  }

  lemma TextAtOne(s: string, o: nat, c: char)
    requires Sees(s, o, c)
    ensures TextAt(s, o, [c])
  {
  }

  lemma TextAtCons(s: string, o: nat, c: char, more: string)
    requires Sees(s, o, c) && TextAt(s, o + 1, more)
    ensures TextAt(s, o, [c] + more)
  {
    TextAtOne(s, o, c);
    TextAtParts(s, o, [c], more);
  }

  /** The value of a turn of the loop of parse_array has been read, and this is what comes of it. */
  ghost predicate ElementsGoOn(s: string, o: nat, depth: nat, item: Json, next: nat)
    requires o < |s|
  {
    && o < next < |s|
    && if s[next] == ',' then
         var rest := ParseElements(s, next, depth);
         rest.Parsed? && ParseElements(s, o, depth) == Parsed([item] + rest.value, rest.offset)
       else s[next] == ']' && ParseElements(s, o, depth) == Parsed([item], next + 1)
  }

  lemma ElementRead(s: string, o: nat, depth: nat, v: nat)
    requires o < |s| && SkipWhitespace(s, o + 1) == v && ParseElements(s, o, depth).Parsed?
    ensures var r := ParseValue(s, v, depth);
            r.Parsed? && r.offset <= |s| && ElementsGoOn(s, o, depth, r.value, SkipWhitespace(s, r.offset))
  {
    hide ParseValue, SkipWhitespace;
  }

  lemma LeftLess(s: string, o: nat, next: nat)
    requires o < next <= |s|
    ensures Left(s, next) < Left(s, o)
  {
  }

  lemma LastElementShown(s: string, p: nat, depth: nat, slot: Slot, q: nat, next: nat, r: Parsed<seq<Json>>)
    requires Blanks(slot.before) && TextAt(s, p, slot.before) && Blanks(slot.after) && TextAt(s, q, slot.after)
    requires Shown(s, p + |slot.before|, depth, slot.value, Parsed(ItemOf(slot.value), q)) && next == q + |slot.after|
    requires Sees(s, next, ']') && r == Parsed([ItemOf(slot.value)], next + 1)
    ensures ElementsShown(s, p, depth, LastElement(slot), r)
  {
    hide Blanks, TextAt, Written, Accepted, WrittenSlot, AcceptedSlot, ItemOf, DepthOf, Sees;
    TextAtOne(s, next, ']');
    SlotJoins(slot, "]", s, p, q, next);
  }

  lemma MoreElementsShown(s: string, p: nat, depth: nat, slot: Slot, rest: Elements, q: nat, next: nat, r: Parsed<seq<Json>>)
    requires Blanks(slot.before) && TextAt(s, p, slot.before) && Blanks(slot.after) && TextAt(s, q, slot.after)
    requires Shown(s, p + |slot.before|, depth, slot.value, Parsed(ItemOf(slot.value), q)) && next == q + |slot.after|
    requires r.Parsed? && Sees(s, next, ',') && ElementsShown(s, next + 1, depth, rest, r)
    ensures ElementsShown(s, p, depth, MoreElements(slot, rest), Parsed([ItemOf(slot.value)] + r.value, r.offset))
  {
    hide Blanks, TextAt, Written, Accepted, WrittenSlot, AcceptedSlot, ItemOf, DepthOf, Sees;
    TextAtCons(s, next, ',', WrittenElements(rest));
    SlotJoins(slot, "," + WrittenElements(rest), s, p, q, next);
  }

  lemma {:induction false} ReadAsElements(s: string, o: nat, p: nat, depth: nat) returns (es: Elements)
    requires o < |s| && p <= |s| && SkipWhitespace(s, o + 1) == SkipWhitespace(s, p) && depth <= NESTING_LIMIT
    requires ParseElements(s, o, depth).Parsed?
    ensures ElementsShown(s, p, depth, es, ParseElements(s, o, depth))
    decreases Left(s, o), 1
  {
    hide *;
    var before := Skipped(s, p);
    var v := p + |before|;
    ElementRead(s, o, depth, v);
    NotBackwards(s, o + 1);
    LeftLess(s, o, v);
    var value := ReadAsValue(s, v, depth);
    ShownIs(s, v, depth, value, ParseValue(s, v, depth));
    var q := v + |Written(value)|;
    var after := Skipped(s, q);
    es := ElementsFrom(s, o, p, depth, Slot(before, value, after), q);
  }

  lemma NotBackwards(s: string, o: nat)
    ensures o <= SkipWhitespace(s, o)
  {
  }

  /** The elements from one whose value has been read. */
  lemma {:induction false} ElementsFrom(s: string, o: nat, p: nat, depth: nat, slot: Slot, q: nat) returns (es: Elements)
    requires Blanks(slot.before) && TextAt(s, p, slot.before) && Blanks(slot.after) && TextAt(s, q, slot.after)
    requires Shown(s, p + |slot.before|, depth, slot.value, Parsed(ItemOf(slot.value), q)) && depth <= NESTING_LIMIT
    requires o < |s| && ElementsGoOn(s, o, depth, ItemOf(slot.value), q + |slot.after|)
    ensures ElementsShown(s, p, depth, es, ParseElements(s, o, depth))
    decreases Left(s, o), 0
  {
    hide ParseElements, ElementsShown, Shown, Blanks, TextAt, ItemOf;
    var next := q + |slot.after|;
    if s[next] == ',' {
      var rest := ReadAsElements(s, next, next + 1, depth);
      es := MoreElements(slot, rest);
      MoreElementsShown(s, p, depth, slot, rest, q, next, ParseElements(s, next, depth));
    } else {
      es := LastElement(slot);
      LastElementShown(s, p, depth, slot, q, next, ParseElements(s, o, depth));
    }
  }

  lemma ShownIs(s: string, o: nat, depth: nat, v: Syntax, r: Parsed<Json>)
    requires Shown(s, o, depth, v, r)
    ensures r == Parsed(ItemOf(v), o + |Written(v)|)
  {
  }

  lemma ReadAsArray(s: string, o: nat, depth: nat) returns (v: Syntax)
    requires o < |s| && s[o] == '[' && ParseArray(s, o, depth).Parsed? && depth <= NESTING_LIMIT
    ensures Shown(s, o, depth, v, ParseArray(s, o, depth))
    decreases Left(s, o), 2
  {
    hide ParseElements, SkipWhitespace, Blanks, TextAt, AcceptedElements, WrittenElements, ItemsOf, ElementsDepth;
    var first := SkipWhitespace(s, o + 1);
    if Sees(s, first, ']') {
      var blanks := Skipped(s, o + 1);
      v := EmptyArray(blanks);
      TextAtOne(s, first, ']');
      TextAtParts(s, o + 1, blanks, "]");
      TextAtCons(s, o, '[', blanks + "]");
    } else {
      SkipAgain(s, o + 1);
      var es := ReadAsElements(s, first - 1, o + 1, depth + 1);
      v := ArrayText(es);
      TextAtCons(s, o, '[', WrittenElements(es));
    }
  }

  /** An entry without what follows its value. */
  lemma EntryJoins(e: Entry, more: string, s: string, p: nat, q: nat, r: nat)
    requires Blanks(e.before) && Blanks(e.colon) && TextAt(s, p, e.before)
    requires ParseLiteral(s, p + |e.before|) == Literal(e.key, p + |e.before| + |e.literal|) && TextAt(s, p + |e.before|, e.literal)
    requires TextAt(s, p + |e.before| + |e.literal|, e.colon) && Sees(s, p + |e.before| + |e.literal| + |e.colon|, ':')
    requires var c := p + |e.before| + |e.literal| + |e.colon| + 1;
             && Blanks(e.slot.before) && Accepted(e.slot.value) && Blanks(e.slot.after)
             && TextAt(s, c, e.slot.before) && TextAt(s, c + |e.slot.before|, Written(e.slot.value))
             && q == c + |e.slot.before| + |Written(e.slot.value)| && TextAt(s, q, e.slot.after)
             && r == q + |e.slot.after| && TextAt(s, r, more)
    ensures AcceptedEntry(e) && TextAt(s, p, WrittenEntry(e, more)) && p + |WrittenEntry(e, more)| == r + |more|
  {
    hide *;
    var (k, l) := (p + |e.before|, e.literal);
    var c := k + |l| + |e.colon|;
    var tail := WrittenSlot(e.slot, more);
    SlotJoins(e.slot, more, s, c + 1, q, r);
    LiteralSame(s, k, l, e.key);
    TextAtCons(s, c, ':', tail);
    TextAtParts(s, k + |l|, e.colon, ":" + tail);
    TextAtParts(s, k, l, e.colon + (":" + tail));
    TextAtParts(s, p, e.before, l + (e.colon + (":" + tail)));
    EntryUnfolds(e, more);
  }

  lemma EntryUnfolds(e: Entry, more: string)
    ensures AcceptedEntry(e) <==> Blanks(e.before) && ReadsAs(e.literal, e.key) && Blanks(e.colon) && AcceptedSlot(e.slot)
    ensures WrittenEntry(e, more) == e.before + (e.literal + (e.colon + (":" + WrittenSlot(e.slot, more))))
  {
    hide Blanks, ReadsAs, AcceptedSlot, WrittenSlot;
  }

  /** The member of a turn of the loop of parse_object has been read, and this is what comes of it. */
  ghost predicate EntriesGoOn(s: string, o: nat, depth: nat, m: Member, next: nat)
    requires o < |s|
  {
    && o < next < |s|
    && if s[next] == ',' then
         var rest := ParseMembers(s, next, depth);
         rest.Parsed? && ParseMembers(s, o, depth) == Parsed([m] + rest.value, rest.offset)
       else s[next] == '}' && ParseMembers(s, o, depth) == Parsed([m], next + 1)
  }

  lemma EntryRead(s: string, o: nat, depth: nat)
    requires o < |s| && ParseMembers(s, o, depth).Parsed?
    ensures var r := ParseMember(s, o, depth);
            r.Parsed? && EntriesGoOn(s, o, depth, r.value, SkipWhitespace(s, r.offset))
  {
    hide ParseMember, SkipWhitespace;
  }

  /** Where the key, its colon and the value have been read. */
  lemma MemberRead(s: string, o: nat, k: nat, depth: nat) returns (key: string, a: nat, c: nat, v: nat)
    requires o < |s| && SkipWhitespace(s, o + 1) == k && ParseMember(s, o, depth).Parsed?
    ensures o < k < a <= c < v && a <= |s| && c < |s| && ParseLiteral(s, k) == Literal(key, a) && TextAt(s, k, s[k..a])
    ensures SkipWhitespace(s, a) == c && Sees(s, c, ':') && SkipWhitespace(s, c + 1) == v
    ensures var r := ParseValue(s, v, depth);
            r.Parsed? && r.offset <= |s| && ParseMember(s, o, depth) == Parsed(Member(key, r.value), r.offset)
  {
    hide ParseValue, SkipWhitespace, ParseLiteral;
    var r := ParseLiteral(s, k);
    key, a := r.value, r.next;
    c := SkipWhitespace(s, a);
    v := SkipWhitespace(s, c + 1);
  }

  /** Everything of an entry stands where it belongs. */
  ghost predicate EntryAt(e: Entry, s: string, p: nat, depth: nat, q: nat, r: nat) {
    && Blanks(e.before) && Blanks(e.colon) && TextAt(s, p, e.before)
    && ParseLiteral(s, p + |e.before|) == Literal(e.key, p + |e.before| + |e.literal|) && TextAt(s, p + |e.before|, e.literal)
    && TextAt(s, p + |e.before| + |e.literal|, e.colon) && Sees(s, p + |e.before| + |e.literal| + |e.colon|, ':')
    && var c := p + |e.before| + |e.literal| + |e.colon| + 1;
       && Blanks(e.slot.before) && Blanks(e.slot.after) && TextAt(s, c, e.slot.before)
       && Shown(s, c + |e.slot.before|, depth, e.slot.value, Parsed(ItemOf(e.slot.value), q))
       && TextAt(s, q, e.slot.after) && r == q + |e.slot.after|
  }

  lemma EntryStands(e: Entry, more: string, s: string, p: nat, depth: nat, q: nat, r: nat)
    requires EntryAt(e, s, p, depth, q, r) && TextAt(s, r, more)
    ensures AcceptedEntry(e) && TextAt(s, p, WrittenEntry(e, more)) && p + |WrittenEntry(e, more)| == r + |more|
    ensures depth + DepthOf(e.slot.value) <= NESTING_LIMIT
  {
    hide Blanks, TextAt, Written, Accepted, ParseLiteral, Sees, ItemOf, DepthOf, WrittenEntry, AcceptedEntry;
    EntryJoins(e, more, s, p, q, r);
  }

  lemma LastEntryShown(s: string, p: nat, depth: nat, e: Entry, q: nat, next: nat, r: Parsed<seq<Member>>)
    requires EntryAt(e, s, p, depth, q, next) && Sees(s, next, '}') && r == Parsed([Member(e.key, ItemOf(e.slot.value))], next + 1)
    ensures EntriesShown(s, p, depth, LastEntry(e), r)
  {
    hide TextAt, AcceptedEntry, WrittenEntry, EntryAt, ItemOf, DepthOf, Sees;
    TextAtOne(s, next, '}');
    EntryStands(e, "}", s, p, depth, q, next);
  }

  lemma MoreEntriesShown(s: string, p: nat, depth: nat, e: Entry, rest: Entries, q: nat, next: nat, r: Parsed<seq<Member>>)
    requires EntryAt(e, s, p, depth, q, next) && Sees(s, next, ',') && r.Parsed? && EntriesShown(s, next + 1, depth, rest, r)
    ensures EntriesShown(s, p, depth, MoreEntries(e, rest), Parsed([Member(e.key, ItemOf(e.slot.value))] + r.value, r.offset))
  {
    hide TextAt, AcceptedEntry, WrittenEntry, EntryAt, ItemOf, DepthOf, Sees;
    TextAtCons(s, next, ',', WrittenEntries(rest));
    EntryStands(e, "," + WrittenEntries(rest), s, p, depth, q, next);
  }

  lemma {:induction false} ReadAsEntry(s: string, o: nat, p: nat, depth: nat) returns (e: Entry, q: nat, next: nat)
    requires o < |s| && p <= |s| && SkipWhitespace(s, o + 1) == SkipWhitespace(s, p) && depth <= NESTING_LIMIT
    requires ParseMembers(s, o, depth).Parsed?
    ensures EntryAt(e, s, p, depth, q, next) && EntriesGoOn(s, o, depth, Member(e.key, ItemOf(e.slot.value)), next)
    decreases Left(s, o), 0, 0
  {
    hide *;
    EntryRead(s, o, depth);
    var before := Skipped(s, p);
    var key, a, c, v := MemberRead(s, o, p + |before|, depth);
    var space := Skipped(s, a);
    var ahead := Skipped(s, c + 1);
    LeftLess(s, o, v);
    var value := ReadAsValue(s, v, depth);
    ShownIs(s, v, depth, value, ParseValue(s, v, depth));
    q := v + |Written(value)|;
    var after := Skipped(s, q);
    next := q + |after|;
    e := Entry(before, s[p + |before|..a], key, space, Slot(ahead, value, after));
    EntryFound(e, s, p, depth, q, next);
  }

  lemma EntryFound(e: Entry, s: string, p: nat, depth: nat, q: nat, r: nat)
    requires var c := p + |e.before| + |e.literal| + |e.colon| + 1;
             && Blanks(e.before) && Blanks(e.colon) && TextAt(s, p, e.before)
             && ParseLiteral(s, p + |e.before|) == Literal(e.key, p + |e.before| + |e.literal|) && TextAt(s, p + |e.before|, e.literal)
             && TextAt(s, p + |e.before| + |e.literal|, e.colon) && Sees(s, p + |e.before| + |e.literal| + |e.colon|, ':')
             && Blanks(e.slot.before) && Blanks(e.slot.after) && TextAt(s, c, e.slot.before)
             && Shown(s, c + |e.slot.before|, depth, e.slot.value, Parsed(ItemOf(e.slot.value), q))
             && TextAt(s, q, e.slot.after) && r == q + |e.slot.after|
    ensures EntryAt(e, s, p, depth, q, r)
  {
    hide Blanks, TextAt, ParseLiteral, Sees, Shown, ItemOf;
  }

  lemma {:induction false} ReadAsEntries(s: string, o: nat, p: nat, depth: nat) returns (ms: Entries)
    requires o < |s| && p <= |s| && SkipWhitespace(s, o + 1) == SkipWhitespace(s, p) && depth <= NESTING_LIMIT
    requires ParseMembers(s, o, depth).Parsed?
    ensures EntriesShown(s, p, depth, ms, ParseMembers(s, o, depth))
    decreases Left(s, o), 0, 1
  {
    hide ParseMembers, SkipWhitespace, EntriesShown, EntryAt;
    var e, q, next := ReadAsEntry(s, o, p, depth);
    if s[next] == ',' {
      var rest := ReadAsEntries(s, next, next + 1, depth);
      ms := MoreEntries(e, rest);
      MoreEntriesShown(s, p, depth, e, rest, q, next, ParseMembers(s, next, depth));
    } else {
      ms := LastEntry(e);
      LastEntryShown(s, p, depth, e, q, next, ParseMembers(s, o, depth));
    }
  }

  lemma ReadAsObject(s: string, o: nat, depth: nat) returns (v: Syntax)
    requires o < |s| && s[o] == '{' && ParseObject(s, o, depth).Parsed? && depth <= NESTING_LIMIT
    ensures Shown(s, o, depth, v, ParseObject(s, o, depth))
    decreases Left(s, o), 2
  {
    hide ParseMembers, SkipWhitespace, Blanks, TextAt, AcceptedEntries, WrittenEntries, MembersOf, EntriesDepth;
    var first := SkipWhitespace(s, o + 1);
    if Sees(s, first, '}') {
      var blanks := Skipped(s, o + 1);
      v := EmptyObject(blanks);
      TextAtOne(s, first, '}');
      TextAtParts(s, o + 1, blanks, "}");
      TextAtCons(s, o, '{', blanks + "}");
    } else {
      SkipAgain(s, o + 1);
      var ms := ReadAsEntries(s, first - 1, o + 1, depth + 1);
      v := ObjectText(ms);
      TextAtCons(s, o, '{', WrittenEntries(ms));
    }
  }

  lemma StringShown(s: string, o: nat, depth: nat) returns (v: Syntax)
    requires ParseLiteral(s, o).Literal? && depth <= NESTING_LIMIT
    ensures var r := ParseLiteral(s, o);
            Shown(s, o, depth, v, Parsed(String(r.value), r.next))
  {
    hide *;
    var literal := LiteralRead(s, o);
    v := StringText(literal, ParseLiteral(s, o).value);
    LiteralSame(s, o, literal, v.value);
    LiteralIsShown(s, o, depth, v);
  }

  lemma LiteralRead(s: string, o: nat) returns (literal: string)
    requires ParseLiteral(s, o).Literal?
    ensures TextAt(s, o, literal) && ParseLiteral(s, o).next == o + |literal|
  {
    hide ScanLiteral, DecodeLiteral, CString;
    literal := s[o..ParseLiteral(s, o).next];
  }

  lemma LiteralIsShown(s: string, o: nat, depth: nat, v: Syntax)
    requires v.StringText? && ReadsAs(v.literal, v.value) && TextAt(s, o, v.literal) && depth <= NESTING_LIMIT
    ensures Shown(s, o, depth, v, Parsed(String(v.value), o + |v.literal|))
  {
    hide ReadsAs, TextAt;
  }

  /** Which part of parse_value has read a value. */
  lemma ValueRead(s: string, o: nat, depth: nat)
    requires ParseValue(s, o, depth).Parsed?
    ensures var r := ParseValue(s, o, depth);
            || (TextAt(s, o, "null") && r == Parsed(Null, o + 4))
            || (TextAt(s, o, "false") && r == Parsed(False, o + 5))
            || (TextAt(s, o, "true") && r == Parsed(True, o + 4))
            || (ParseLiteral(s, o).Literal? && r == Parsed(String(ParseLiteral(s, o).value), ParseLiteral(s, o).next))
            || (o < |s| && (s[o] == '-' || IsDigit(s[o])) && r == ParseNumber(s, o))
            || (o < |s| && s[o] == '[' && r == ParseArray(s, o, depth))
            || (o < |s| && s[o] == '{' && r == ParseObject(s, o, depth))
  {
    hide TextAt, ParseLiteral, ParseNumber, ParseArray, ParseObject;
  }

  lemma WordShown(s: string, o: nat, depth: nat, v: Syntax)
    requires v.NullText? || v.FalseText? || v.TrueText?
    requires TextAt(s, o, Written(v)) && depth <= NESTING_LIMIT
    ensures Shown(s, o, depth, v, Parsed(ItemOf(v), o + |Written(v)|))
  {
    hide TextAt;
  }

  /** Whatever the parser reads is the text of an accepted value, which stands for the item it gives. */
  lemma {:induction false} ReadAsValue(s: string, o: nat, depth: nat) returns (v: Syntax)
    requires ParseValue(s, o, depth).Parsed? && depth <= NESTING_LIMIT
    ensures Shown(s, o, depth, v, ParseValue(s, o, depth))
    decreases Left(s, o), 3
  {
    ValueRead(s, o, depth);
    hide TextAt, ParseLiteral, ParseNumber, ParseArray, ParseObject, Shown, ParseValue;
    var r := ParseValue(s, o, depth);
    if TextAt(s, o, "null") && r == Parsed(Null, o + 4) {
      v := NullText;
      WordShown(s, o, depth, v);
    } else if TextAt(s, o, "false") && r == Parsed(False, o + 5) {
      v := FalseText;
      WordShown(s, o, depth, v);
    } else if TextAt(s, o, "true") && r == Parsed(True, o + 4) {
      v := TrueText;
      WordShown(s, o, depth, v);
    } else if ParseLiteral(s, o).Literal? && r == Parsed(String(ParseLiteral(s, o).value), ParseLiteral(s, o).next) {
      v := StringShown(s, o, depth);
    } else if s[o] == '[' && r == ParseArray(s, o, depth) {
      v := ReadAsArray(s, o, depth);
    } else if s[o] == '{' && r == ParseObject(s, o, depth) {
      v := ReadAsObject(s, o, depth);
    } else {
      v := NumberShown(s, o, depth);
    }
  }

  // ----- the grammar of RFC 8259 is accepted -----

  lemma LiteralAccepted(literal: string, value: string)
    requires LiteralOf(literal, value)
    ensures ReadsAs(literal, value)
  {
    var es :| ValidEscapes(es) && literal == InQuotes(LiteralText(es)) && value == CString(LiteralBytes(es));
    assert |literal| == |LiteralText(es)| + 2 && literal[0..0 + |literal|] == literal;
    hide ValidEscapes, LiteralText, LiteralBytes, CString, InQuotes;
    ParseWellFormed(literal, 0, es);
  }

  lemma SpaceIsBlank(t: string)
    requires Space(t)
    ensures Blanks(t)
  {
  }

  lemma {:induction false} StandardAccepted(v: Syntax)
    requires Standard(v)
    ensures Accepted(v)
    decreases v
  {
    hide LiteralOf, ReadsAs, Space, Blanks;
    match v {
      case StringText(literal, value) => LiteralAccepted(literal, value);
      case EmptyArray(blanks) => SpaceIsBlank(blanks);
      case ArrayText(es) => StandardElementsAccepted(es);
      case EmptyObject(blanks) => SpaceIsBlank(blanks);
      case ObjectText(ms) => StandardEntriesAccepted(ms);
      case _ =>
    }
  }

  lemma {:induction false} StandardSlotAccepted(slot: Slot)
    requires StandardSlot(slot)
    ensures AcceptedSlot(slot)
    decreases slot
  {
    hide Space, Blanks;
    SpaceIsBlank(slot.before);
    SpaceIsBlank(slot.after);
    StandardAccepted(slot.value);
  }

  lemma {:induction false} StandardElementsAccepted(es: Elements)
    requires StandardElements(es)
    ensures AcceptedElements(es)
    decreases es
  {
    hide StandardSlot, AcceptedSlot;
    StandardSlotAccepted(es.slot);
    if es.MoreElements? {
      StandardElementsAccepted(es.rest);
    }
  }

  lemma {:induction false} StandardEntriesAccepted(ms: Entries)
    requires StandardEntries(ms)
    ensures AcceptedEntries(ms)
    decreases ms
  {
    hide StandardSlot, AcceptedSlot, LiteralOf, ReadsAs, Space, Blanks;
    SpaceIsBlank(ms.entry.before);
    LiteralAccepted(ms.entry.literal, ms.entry.key);
    SpaceIsBlank(ms.entry.colon);
    StandardSlotAccepted(ms.entry.slot);
    if ms.MoreEntries? {
      StandardEntriesAccepted(ms.rest);
    }
  }

  // ----- whole texts -----

  /** What the text is taken for once the root item has been read. */
  predicate Trails(s: string, after: string, end: nat) {
    Blanks(after) && TextAt(s, end, after) && end + |after| == |s| - 1 && s[|s| - 1] == NUL
  }

  lemma {:induction false} SkipToEnd(s: string, o: nat)
    requires o <= |s| && forall i :: o <= i < |s| ==> Blank(s[i])
    ensures SkipBlanks(s, o) == |s|
    decreases |s| - o
  {
    if o < |s| {
      SkipToEnd(s, o + 1);
    }
  }

  /** White space up to the terminator is skipped, and the skipping steps back to the terminator. */
  lemma TrailsSkipped(s: string, after: string, end: nat)
    requires Trails(s, after, end)
    ensures SkipWhitespace(s, end) == |s| - 1 && Sees(s, |s| - 1, NUL) && Ends(s, end)
  {
    forall i | end <= i < |s|
      ensures Blank(s[i])
    {
      if i < |s| - 1 {
        TextAtChar(s, end, after, i - end);
      }
    }
    SkipToEnd(s, end);
  }

  lemma ParseBufferOf(s: string, strict: bool, o: nat, v: nat)
    requires s != "" && SkipBom(s) == o && SkipWhitespace(s, o) == v
    ensures match ParseValue(s, v, 0)
            case Failed => ParseBuffer(s, strict).Failed?
            case Parsed(item, after) =>
              ParseBuffer(s, strict) == if !strict then Parsed(item, after)
                                        else if Sees(s, SkipWhitespace(s, after), NUL) then Parsed(item, SkipWhitespace(s, after))
                                        else Failed
  {
    hide ParseValue, SkipWhitespace, SkipBom;
  }

  lemma DocumentStands(d: Document, s: string)
    requires AcceptedDocument(d) && s == DocumentText(d) + [NUL]
    ensures var o := |Mark(d.bom)|;
            var v := o + |d.before|;
            && TextAt(s, 0, Mark(d.bom)) && TextAt(s, o, d.before) && TextAt(s, v, Written(d.value))
            && TextAt(s, v + |Written(d.value)|, d.after) && |s| == v + |Written(d.value)| + |d.after| + 1 && s[|s| - 1] == NUL
  {
    hide *;
    var (w, mark) := (Written(d.value), Mark(d.bom));
    DocumentUnfolds(d);
    WholeText(s, DocumentText(d));
    TextAtParts(s, 0, mark, d.before + (w + d.after));
    TextAtParts(s, |mark|, d.before, w + d.after);
    TextAtParts(s, |mark| + |d.before|, w, d.after);
  }

  /** Where the parts of a text stand. */
  lemma DocumentParts(d: Document, s: string)
    requires AcceptedDocument(d) && s == DocumentText(d) + [NUL]
    ensures var o := |Mark(d.bom)|;
            var v := o + |d.before|;
            && s != "" && SkipBom(s) == o && SkipWhitespace(s, o) == v && TextAt(s, v, Written(d.value))
            && Trails(s, d.after, v + |Written(d.value)|)
  {
    hide *;
    var (w, o) := (Written(d.value), |Mark(d.bom)|);
    DocumentUnfolds(d);
    DocumentStands(d, s);
    ValueOpens(d.value);
    OpeningChar(w[0]);
    TextAtChar(s, o + |d.before|, w, 0);
    SkipOver(s, o, d.before);
    MarkSkipped(s, d.bom, d.before, w);
    TrailsAt(s, d.after, o + |d.before| + |w|);
  }

  lemma DocumentUnfolds(d: Document)
    ensures AcceptedDocument(d) <==> Blanks(d.before) && Accepted(d.value) && Blanks(d.after)
    ensures DocumentText(d) == Mark(d.bom) + (d.before + (Written(d.value) + d.after))
    ensures |DocumentText(d)| == |Mark(d.bom)| + |d.before| + |Written(d.value)| + |d.after|
  {
    hide Blanks, Accepted, Written;
  }

  lemma WholeText(s: string, t: string)
    requires s == t + [NUL]
    ensures TextAt(s, 0, t) && |s| == |t| + 1 && s[|t|] == NUL
  {
    assert s[0..0 + |t|] == t;
  }

  lemma TrailsAt(s: string, after: string, end: nat)
    requires Blanks(after) && TextAt(s, end, after) && end + |after| == |s| - 1 && s[|s| - 1] == NUL
    ensures Trails(s, after, end)
  {
  }

  /** A byte order mark is skipped, and nothing else is taken for one. */
  lemma MarkSkipped(s: string, bom: bool, before: string, w: string)
    requires TextAt(s, 0, Mark(bom)) && TextAt(s, |Mark(bom)|, before) && TextAt(s, |Mark(bom)| + |before|, w)
    requires |s| > |Mark(bom)| + |before| + |w| && Blanks(before) && w != "" && 32 < w[0] as int < 0x80
    ensures SkipBom(s) == |Mark(bom)|
  {
    if !bom {
      if before != "" {
        TextAtChar(s, 0, before, 0);
      } else {
        TextAtChar(s, 0, w, 0);
      }
      NotWord(s, 0, BOM);
    }
  }

  /** Main result: a text that is accepted is read as the item that it stands for, exactly when it is not nested too deeply. */
  lemma ParseAccepted(d: Document, strict: bool)
    requires AcceptedDocument(d)
    ensures var end := if strict then |DocumentText(d)| else |DocumentText(d)| - |d.after|;
            ParseText(DocumentText(d), strict) == Outcome(DepthOf(d.value) <= NESTING_LIMIT, ItemOf(d.value), end)
  {
    hide DocumentText, AcceptedDocument, Accepted, Blanks, Written, TextAt, SkipBom, SkipWhitespace, ParseValue, ParseBuffer, Trails, Ends,
      DepthOf, ItemOf, Sees, Mark;
    var s := DocumentText(d) + [NUL];
    var o := |Mark(d.bom)|;
    var v := o + |d.before|;
    DocumentUnfolds(d);
    DocumentParts(d, s);
    TrailsSkipped(s, d.after, v + |Written(d.value)|);
    ReadValue(d.value, s, v, 0);
    ParseBufferOf(s, strict, o, v);
  }

  /** Main result: a text of RFC 8259, with any white space around every bracket, comma, colon, key and value, is read as the item that it
      stands for, exactly when it is not nested too deeply. */
  lemma ParseStandard(bom: bool, before: string, v: Syntax, after: string, strict: bool)
    requires Space(before) && Standard(v) && Space(after)
    ensures var text := DocumentText(Document(bom, before, v, after));
            ParseText(text, strict)
            == if DepthOf(v) <= 1000 then Parsed(ItemOf(v), if strict then |text| else |text| - |after|) else Failed
  {
    var d := Document(bom, before, v, after);
    StandardAccepted(v);
    SpaceIsBlank(before);
    SpaceIsBlank(after);
    hide DocumentText, Accepted, Written, ParseText, DepthOf, ItemOf, Space, Blanks, Standard;
    ParseAccepted(d, strict);
  }

  /** The text, with its terminator required, stands for the item. */
  ghost predicate StandsFor(text: string, item: Json) {
    exists d :: AcceptedDocument(d) && DocumentText(d) == text && ItemOf(d.value) == item && DepthOf(d.value) <= 1000
  }

  lemma EndOfText(s: string, o: nat)
    requires o <= |s| && Sees(s, SkipWhitespace(s, o), NUL) && s != "" && s[|s| - 1] == NUL
    ensures SkipWhitespace(s, o) == |s| - 1
  {
  }

  /** A text that has been read is one that is accepted. */
  lemma ReadAsDocument(text: string) returns (d: Document)
    requires ParseText(text, true).Parsed?
    ensures AcceptedDocument(d) && DocumentText(d) == text && DepthOf(d.value) <= NESTING_LIMIT
    ensures ParseText(text, true) == Parsed(ItemOf(d.value), |text|)
  {
    hide *;
    var s := text + [NUL];
    var bom := MarkRead(s);
    var o := SkipBom(s);
    var before := Skipped(s, o);
    var r := ParseValue(s, o + |before|, 0);
    BufferRead(text, s, o, o + |before|);
    var value := ReadAsValue(s, o + |before|, 0);
    ShownAccepted(s, o + |before|, 0, value, r);
    var q := o + |before| + |Written(value)|;
    var after := Skipped(s, q);
    d := Document(bom, before, value, after);
    DocumentUnfolds(d);
    TextAtParts(s, o + |before|, Written(value), after);
    TextAtParts(s, o, before, Written(value) + after);
    TextAtParts(s, 0, Mark(bom), before + (Written(value) + after));
    SameText(s, text, DocumentText(d));
  }

  lemma MarkRead(s: string) returns (bom: bool)
    ensures SkipBom(s) == |Mark(bom)| <= |s| && TextAt(s, 0, Mark(bom))
  {
    bom := SkipBom(s) == 3;
  }

  /** A text that was read to its terminator. */
  lemma BufferRead(text: string, s: string, o: nat, v: nat)
    requires s == text + [NUL] && SkipBom(s) == o && SkipWhitespace(s, o) == v && ParseText(text, true).Parsed?
    ensures var r := ParseValue(s, v, 0);
            r.Parsed? && r.offset <= |s| && SkipWhitespace(s, r.offset) == |text| && ParseText(text, true) == Parsed(r.value, |text|)
  {
    hide ParseValue, SkipWhitespace, SkipBom, ParseBuffer, Sees;
    ParseBufferOf(s, true, o, v);
    EndOfText(s, ParseValue(s, v, 0).offset);
  }

  lemma ShownAccepted(s: string, o: nat, depth: nat, v: Syntax, r: Parsed<Json>)
    requires Shown(s, o, depth, v, r)
    ensures Accepted(v) && TextAt(s, o, Written(v)) && depth + DepthOf(v) <= NESTING_LIMIT && r == Parsed(ItemOf(v), o + |Written(v)|)
  {
  }

  lemma SameText(s: string, text: string, t: string)
    requires s == text + [NUL] && TextAt(s, 0, t) && |t| == |text|
    ensures t == text
  {
    assert s[0..0 + |t|] == text;
  }

  /** Main result: with its terminator required a text is read exactly when it is accepted and not nested too deeply, as the item
      that it stands for, and to its end. */
  lemma ParseExact(text: string, item: Json, end: nat)
    ensures ParseText(text, true) == Parsed(item, end) <==> StandsFor(text, item) && end == |text|
  {
    if ParseText(text, true) == Parsed(item, end) {
      hide AcceptedDocument, DocumentText, ParseText, ItemOf, DepthOf;
      var d := ReadAsDocument(text);
    }
    if StandsFor(text, item) && end == |text| {
      var d :| AcceptedDocument(d) && DocumentText(d) == text && ItemOf(d.value) == item && DepthOf(d.value) <= NESTING_LIMIT;
      hide AcceptedDocument, DocumentText, ParseText, ItemOf, DepthOf;
      ParseAccepted(d, true);
    }
  }
}
