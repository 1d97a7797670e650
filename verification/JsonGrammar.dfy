/** The texts that the parser of cJSON reads, as concrete syntax trees with all their white space. */
module JsonGrammar {
  import opened Text
  import opened Json
  import opened StringCodec

  // ----- syntax trees -----

  /** A value as it is written. A literal is kept with the string that it stands for. */
  datatype Syntax =
    | NullText
    | FalseText
    | TrueText
    | NumberText(minus: bool, digits: string)
    | StringText(literal: string, value: string)
    | EmptyArray(blanks: string)
    | ArrayText(elements: Elements)
    | EmptyObject(blanks: string)
    | ObjectText(entries: Entries)

  /** A value with the white space around it. */
  datatype Slot = Slot(before: string, value: Syntax, after: string)

  datatype Elements = LastElement(slot: Slot) | MoreElements(slot: Slot, rest: Elements)

  /** A member: white space, its key, white space, and the value behind the colon. */
  datatype Entry = Entry(before: string, literal: string, key: string, colon: string, slot: Slot)

  datatype Entries = LastEntry(entry: Entry) | MoreEntries(entry: Entry, rest: Entries)

  /** A whole text; it may begin with a byte order mark. */
  datatype Document = Document(bom: bool, before: string, value: Syntax, after: string)

  // ----- the text of a tree -----

  function Written(v: Syntax): string {
    match v
    case NullText => "null"
    case FalseText => "false"
    case TrueText => "true"
    case NumberText(minus, digits) => Signed(minus, digits)
    case StringText(literal, _) => literal
    case EmptyArray(blanks) => "[" + (blanks + "]")
    case ArrayText(es) => "[" + WrittenElements(es)
    case EmptyObject(blanks) => "{" + (blanks + "}")
    case ObjectText(ms) => "{" + WrittenEntries(ms)
  }

  function Signed(minus: bool, digits: string): string { if minus then "-" + digits else digits }

  /** A slot and what follows it. */
  function WrittenSlot(slot: Slot, more: string): string { slot.before + (Written(slot.value) + (slot.after + more)) }

  /** The elements with the closing bracket. */
  function WrittenElements(es: Elements): string {
    match es
    case LastElement(slot) => WrittenSlot(slot, "]")
    case MoreElements(slot, rest) => WrittenSlot(slot, "," + WrittenElements(rest))
  }

  function WrittenEntry(e: Entry, more: string): string {
    e.before + (e.literal + (e.colon + (":" + WrittenSlot(e.slot, more))))
  }

  /** The members with the closing brace. */
  function WrittenEntries(ms: Entries): string {
    match ms
    case LastEntry(e) => WrittenEntry(e, "}")
    case MoreEntries(e, rest) => WrittenEntry(e, "," + WrittenEntries(rest))
  }

  const BYTE_ORDER_MARK: string := [0xEF as char, 0xBB as char, 0xBF as char]

  function DocumentText(d: Document): string {
    Mark(d.bom) + (d.before + (Written(d.value) + d.after))
  }

  function Mark(bom: bool): (mark: string)
    ensures |mark| == if bom then 3 else 0
  {
    if bom then BYTE_ORDER_MARK else ""
  }

  // ----- the item that a tree stands for -----

  predicate HasDigits(v: Syntax)
    requires v.NumberText?
  {
    v.digits != "" && AllDigits(v.digits)
  }

  function SignedValue(minus: bool, digits: string): int
    requires AllDigits(digits)
  {
    if minus then -(DecimalValue(digits) as int) else DecimalValue(digits)
  }

  function ItemOf(v: Syntax): Json {
    match v
    case NullText => Null
    case FalseText => False
    case TrueText => True
    case NumberText(minus, digits) =>
      if !HasDigits(v) then Invalid
      else Number(SignedValue(minus, digits))
    case StringText(_, value) => String(value)
    case EmptyArray(_) => Array([])
    case ArrayText(es) => Array(ItemsOf(es))
    case EmptyObject(_) => Object([])
    case ObjectText(ms) => Object(MembersOf(ms))
  }

  function ItemsOf(es: Elements): seq<Json> {
    match es
    case LastElement(slot) => [ItemOf(slot.value)]
    case MoreElements(slot, rest) => [ItemOf(slot.value)] + ItemsOf(rest)
  }

  function MembersOf(ms: Entries): seq<Member> {
    match ms
    case LastEntry(e) => [Member(e.key, ItemOf(e.slot.value))]
    case MoreEntries(e, rest) => [Member(e.key, ItemOf(e.slot.value))] + MembersOf(rest)
  }

  /** How deeply arrays and objects are nested. */
  function DepthOf(v: Syntax): nat {
    match v
    case EmptyArray(_) => 1
    case ArrayText(es) => 1 + ElementsDepth(es)
    case EmptyObject(_) => 1
    case ObjectText(ms) => 1 + EntriesDepth(ms)
    case _ => 0
  }

  function ElementsDepth(es: Elements): nat {
    match es
    case LastElement(slot) => DepthOf(slot.value)
    case MoreElements(slot, rest) => Max(DepthOf(slot.value), ElementsDepth(rest))
  }

  function EntriesDepth(ms: Entries): nat {
    match ms
    case LastEntry(e) => DepthOf(e.slot.value)
    case MoreEntries(e, rest) => Max(DepthOf(e.slot.value), EntriesDepth(rest))
  }

  // ----- RFC 8259 -----

  /** The white space of section 2 of RFC 8259. */
  predicate Space(t: string) {
    forall i :: 0 <= i < |t| ==> t[i] == ' ' || t[i] == '\t' || t[i] == '\n' || t[i] == '\r'
  }

  /** A literal of section 7 of RFC 8259 whose escapes encode characters, and its characters up to the first zero. */
  ghost predicate LiteralOf(literal: string, value: string) {
    exists es :: ValidEscapes(es) && literal == InQuotes(LiteralText(es)) && value == CString(LiteralBytes(es))
  }

  /** The grammar of RFC 8259, with integers of at most 63 characters: section 9 allows an implementation to limit numbers. */
  ghost predicate Standard(v: Syntax) {
    match v
    case NumberText(minus, digits) => HasDigits(v) && (digits[0] == '0' ==> |digits| == 1) && |Signed(minus, digits)| <= 63
    case StringText(literal, value) => LiteralOf(literal, value)
    case EmptyArray(blanks) => Space(blanks)
    case ArrayText(es) => StandardElements(es)
    case EmptyObject(blanks) => Space(blanks)
    case ObjectText(ms) => StandardEntries(ms)
    case _ => true
  }

  ghost predicate StandardSlot(slot: Slot) { Space(slot.before) && Standard(slot.value) && Space(slot.after) }

  ghost predicate StandardElements(es: Elements) {
    StandardSlot(es.slot) && (es.MoreElements? ==> StandardElements(es.rest))
  }

  ghost predicate StandardEntries(ms: Entries) {
    && Space(ms.entry.before) && LiteralOf(ms.entry.literal, ms.entry.key) && Space(ms.entry.colon)
    && StandardSlot(ms.entry.slot) && (ms.MoreEntries? ==> StandardEntries(ms.rest))
  }

  // ----- what cJSON accepts -----

  /** Every character up to the space counts as white space. */
  predicate Blanks(t: string) {
    forall i :: 0 <= i < |t| ==> t[i] as int <= 32
  }

  /** The literal on its own is read as a whole and gives the string. */
  predicate ReadsAs(literal: string, value: string) {
    ParseLiteral(literal, 0) == Literal(value, |literal|)
  }

  predicate Accepted(v: Syntax) {
    match v
    case NumberText(minus, digits) => HasDigits(v) && |Signed(minus, digits)| <= 63
    case StringText(literal, value) => ReadsAs(literal, value)
    case EmptyArray(blanks) => Blanks(blanks)
    case ArrayText(es) => AcceptedElements(es)
    case EmptyObject(blanks) => Blanks(blanks)
    case ObjectText(ms) => AcceptedEntries(ms)
    case _ => true
  }

  predicate AcceptedSlot(slot: Slot) { Blanks(slot.before) && Accepted(slot.value) && Blanks(slot.after) }

  predicate AcceptedElements(es: Elements) {
    AcceptedSlot(es.slot) && (es.MoreElements? ==> AcceptedElements(es.rest))
  }

  predicate AcceptedEntry(e: Entry) {
    Blanks(e.before) && ReadsAs(e.literal, e.key) && Blanks(e.colon) && AcceptedSlot(e.slot)
  }

  predicate AcceptedEntries(ms: Entries) {
    AcceptedEntry(ms.entry) && (ms.MoreEntries? ==> AcceptedEntries(ms.rest))
  }

  predicate AcceptedDocument(d: Document) { Blanks(d.before) && Accepted(d.value) && Blanks(d.after) }
}
