/** The text of an item tree, formatted or not, as cJSON prints it. */
module PrintedText {
  import opened Text
  import opened Json
  import opened StringCodec

  function SignedDecimal(n: int): string {
    if n < 0 then "-" + Decimal(-n) else Decimal(n)
  }

  function Repeat(c: char, n: nat): (s: string)
    ensures |s| == n && forall i :: 0 <= i < n ==> s[i] == c
  {
    seq(n, _ => c)
  }

  /** Indentation, only in formatted text. */
  function Tabs(format: bool, depth: nat): string {
    if format then Repeat('\t', depth) else ""
  }

  function NewLine(format: bool): string { if format then "\n" else "" }

  function Separator(format: bool): string { if format then ", " else "," }

  function Colon(format: bool): string { if format then ":\t" else ":" }

  /** The text of an item at the given depth. */
  function PrintText(item: Json, format: bool, depth: nat): string
    decreases item, 1, 0
  {
    match item
    case Invalid => ""
    case Null => "null"
    case False => "false"
    case True => "true"
    case Number(n) => SignedDecimal(n)
    case String(s) => Quote(s)
    case Array(items) => "[" + (ElementsText(item, items, format, depth + 1) + "]")
    case Object(ms) =>
      assert forall i :: 0 <= i < |ms| ==> ms[i].value < ms[i];
      "{" + (NewLine(format) + (MembersText(item, ms, format, depth + 1) + (Tabs(format, depth) + "}")))
  }

  function ElementsText(ghost a: Json, items: seq<Json>, format: bool, depth: nat): string
    requires forall i :: 0 <= i < |items| ==> items[i] < a
    decreases a, 0, |items|
  {
    if items == [] then ""
    else
      PrintText(items[0], format, depth)
      + (if |items| == 1 then "" else Separator(format) + ElementsText(a, items[1..], format, depth))
  }

  function MembersText(ghost a: Json, ms: seq<Member>, format: bool, depth: nat): string
    requires forall i :: 0 <= i < |ms| ==> ms[i].value < a
    decreases a, 0, |ms|
  {
    if ms == [] then ""
    else
      Tabs(format, depth)
      + (Quote(ms[0].key)
         + (Colon(format)
            + (PrintText(ms[0].value, format, depth)
               + (Comma(ms) + (NewLine(format) + MembersText(a, ms[1..], format, depth))))))
  }

  function Comma(ms: seq<Member>): string { if |ms| > 1 then "," else "" }

  /** Items that print_value prints and whose text shows all of them: no invalid item, strings without a
      zero, and numbers that fit valueint. */
  predicate Printable(item: Json) {
    match item
    case Invalid => false
    case Number(n) => -0x8000_0000 <= n < 0x8000_0000
    case String(s) => NUL !in s
    case Array(items) => forall i :: 0 <= i < |items| ==> Printable(items[i])
    case Object(ms) => forall i :: 0 <= i < |ms| ==> assert ms[i].value < ms[i]; NUL !in ms[i].key && Printable(ms[i].value)
    case _ => true
  }

  /** How deeply arrays and objects are nested. */
  function Nesting(item: Json): nat
    decreases item, 1, 0
  {
    match item
    case Array(items) => 1 + NestingOfItems(item, items)
    case Object(ms) =>
      assert forall i :: 0 <= i < |ms| ==> ms[i].value < ms[i];
      1 + NestingOfMembers(item, ms)
    case _ => 0
  }

  function NestingOfItems(ghost a: Json, items: seq<Json>): nat
    requires forall i :: 0 <= i < |items| ==> items[i] < a
    decreases a, 0, |items|
  {
    if items == [] then 0 else Max(Nesting(items[0]), NestingOfItems(a, items[1..]))
  }

  function NestingOfMembers(ghost a: Json, ms: seq<Member>): nat
    requires forall i :: 0 <= i < |ms| ==> ms[i].value < a
    decreases a, 0, |ms|
  {
    if ms == [] then 0 else Max(Nesting(ms[0].value), NestingOfMembers(a, ms[1..]))
  }
}
