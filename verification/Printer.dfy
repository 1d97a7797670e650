/** The printer of cJSON: items are written into a buffer that grows on demand. */
module Printer {
  import opened Text
  import opened Json
  import opened StringCodec
  import opened PrintedText

  const INT_MAX: nat := 0x7FFF_FFFF

  const DEFAULT_BUFFER_SIZE: nat := 256

  /** An item as C holds it: numbers fit valueint and strings have no zero inside. */
  predicate CItem(item: Json) {
    match item
    case Number(n) => -0x8000_0000 <= n < 0x8000_0000
    case String(s) => NUL !in s
    case Array(items) => forall i :: 0 <= i < |items| ==> CItem(items[i])
    case Object(ms) => forall i :: 0 <= i < |ms| ==> assert ms[i].value < ms[i]; NUL !in ms[i].key && CItem(ms[i].value)
    case _ => true
  }

  /** The size of a buffer that has to grow to hold "needed" characters. */
  function NewSize(needed: nat): (size: nat)
    requires needed <= INT_MAX
    ensures needed <= size <= INT_MAX && (needed > 0 ==> needed < size || size == INT_MAX)
  {
    if needed > INT_MAX / 2 then INT_MAX else needed * 2
  }

  // ----- escaping -----

  /** How many characters more than the string its escaped form has. */
  function Extra(s: string): nat {
    if s == "" then 0 else |EscapeText(PrintedEscape(s[0]))| - 1 + Extra(s[1..])
  }

  lemma EscapedCons(s: string)
    requires s != ""
    ensures Escaped(s) == EscapeText(PrintedEscape(s[0])) + Escaped(s[1..])
  {
    assert PrintedEscapes(s)[1..] == PrintedEscapes(s[1..]);
  }

  lemma EscapedConsLength(s: string)
    requires s != ""
    ensures |EscapeText(PrintedEscape(s[0]))| >= 1 && |Escaped(s)| == |EscapeText(PrintedEscape(s[0]))| + |Escaped(s[1..])|
    ensures |EscapeText(PrintedEscape(s[0]))| == 1 ==> Escaped(s) == [s[0]] + Escaped(s[1..])
  {
    hide *;
    EscapedCons(s);
    EscapeTextOne(s[0]);
  }

  lemma EscapeTextOne(c: char)
    ensures |EscapeText(PrintedEscape(c))| >= 1
    ensures |EscapeText(PrintedEscape(c))| == 1 ==> EscapeText(PrintedEscape(c)) == [c]
  {
  }

  lemma {:induction false} EscapedLength(s: string)
    ensures |Escaped(s)| == |s| + Extra(s)
    ensures Extra(s) == 0 ==> Escaped(s) == s
  {
    if s == "" {
      assert Escaped(s) == "";
    } else {
      assert Extra(s) == |EscapeText(PrintedEscape(s[0]))| - 1 + Extra(s[1..]);
      hide *;
      EscapedLength(s[1..]);
      EscapedConsLength(s);
      if Extra(s) == 0 {
        assert s == [s[0]] + s[1..];
      }
    }
  }

  lemma {:induction false} EscapedNulFree(s: string)
    requires NUL !in s
    ensures NUL !in Escaped(s)
  {
    if s != "" {
      EscapedNulFree(s[1..]);
      EscapedCons(s);
    }
  }

  // ----- no zero in a printed text -----

  lemma {:induction false} TextNulFree(item: Json, format: bool, depth: nat)
    requires Printable(item)
    ensures NUL !in PrintText(item, format, depth)
    decreases item, 1, 0
  {
    match item {
      case String(s) => EscapedNulFree(s);
      case Array(items) =>
        ElementsNulFree(item, items, format, depth + 1);
        BracketsNulFree(ElementsText(item, items, format, depth + 1));
        hide ElementsText, Printable;
      case Object(ms) =>
        assert forall i :: 0 <= i < |ms| ==> ms[i].value < ms[i];
        MembersNulFree(item, ms, format, depth + 1);
        BracesNulFree(MembersText(item, ms, format, depth + 1), format, depth);
        hide MembersText, Tabs, NewLine, Printable;
      case _ =>
    }
  }

  lemma BracketsNulFree(t: string)
    requires NUL !in t
    ensures NUL !in "[" + (t + "]")
  {
  }

  lemma BracesNulFree(t: string, format: bool, depth: nat)
    requires NUL !in t
    ensures NUL !in "{" + (NewLine(format) + (t + (Tabs(format, depth) + "}")))
  {
  }

  lemma {:induction false} ElementsNulFree(a: Json, items: seq<Json>, format: bool, depth: nat)
    requires forall i :: 0 <= i < |items| ==> items[i] < a && Printable(items[i])
    ensures NUL !in ElementsText(a, items, format, depth)
    decreases a, 0, |items|
  {
    if items != [] {
      TextNulFree(items[0], format, depth);
      ElementsNulFree(a, items[1..], format, depth);
    }
  }

  lemma {:induction false} MembersNulFree(a: Json, ms: seq<Member>, format: bool, depth: nat)
    requires forall i :: 0 <= i < |ms| ==> ms[i].value < a && NUL !in ms[i].key && Printable(ms[i].value)
    ensures NUL !in MembersText(a, ms, format, depth)
    decreases a, 0, |ms|
  {
    if ms != [] {
      TextNulFree(ms[0].value, format, depth);
      MembersNulFree(a, ms[1..], format, depth);
      EscapedNulFree(ms[0].key);
      MemberNulFree(ms, PrintText(ms[0].value, format, depth), MembersText(a, ms[1..], format, depth), format, depth);
      hide PrintText, Quote, Printable, Tabs, Colon, Comma, NewLine;
    }
  }

  lemma MemberNulFree(ms: seq<Member>, value: string, rest: string, format: bool, depth: nat)
    requires ms != [] && NUL !in Quote(ms[0].key) && NUL !in value && NUL !in rest
    ensures NUL !in Tabs(format, depth) + (Quote(ms[0].key) + (Colon(format) + (value + (Comma(ms) + (NewLine(format) + rest)))))
  {
    hide Quote;
  }

  // ----- the text that remains to be printed -----

  /** The text of an array from element i on. */
  ghost function ElementsFrom(item: Json, i: nat, format: bool, depth: nat): string
    requires item.Array? && i <= |item.items|
  {
    ElementsText(item, item.items[i..], format, depth + 1) + "]"
  }

  lemma ElementsFromStart(item: Json, format: bool, depth: nat)
    requires item.Array?
    ensures PrintText(item, format, depth) == "[" + ElementsFrom(item, 0, format, depth)
    ensures ElementsFrom(item, |item.items|, format, depth) == "]"
  {
    assert item.items[0..] == item.items;
  }

  /** What is left of an array after the bracket that opens it holds the bracket that closes it. */
  lemma ElementsFromEnds(item: Json, format: bool, depth: nat)
    requires item.Array?
    ensures forall i :: 0 <= i <= |item.items| ==> ElementsFrom(item, i, format, depth) != ""
  {
    hide ElementsText;
  }

  lemma PrintableElements(item: Json)
    requires item.Array? && CItem(item)
    ensures Printable(item) <==> forall k :: 0 <= k < |item.items| ==> Printable(item.items[k])
    ensures forall k :: 0 <= k < |item.items| ==> CItem(item.items[k])
  {
  }

  lemma PrintableMembers(item: Json)
    requires item.Object? && CItem(item)
    ensures Printable(item) <==> forall k :: 0 <= k < |item.members| ==> Printable(item.members[k].value)
    ensures forall k :: 0 <= k < |item.members| ==> NUL !in item.members[k].key && CItem(item.members[k].value)
  {
    assert forall k :: 0 <= k < |item.members| ==> item.members[k].value < item.members[k];
  }

  lemma ElementsFromStep(item: Json, i: nat, format: bool, depth: nat)
    requires item.Array? && i < |item.items|
    ensures ElementsFrom(item, i, format, depth)
            == PrintText(item.items[i], format, depth + 1)
               + ((if i + 1 < |item.items| then Separator(format) else "") + ElementsFrom(item, i + 1, format, depth))
  {
    var (t, rest) := (PrintText(item.items[i], format, depth + 1), ElementsText(item, item.items[i + 1..], format, depth + 1));
    var sep := if i + 1 < |item.items| then Separator(format) else "";
    assert item.items[i..][1..] == item.items[i + 1..];
    assert ElementsText(item, item.items[i..], format, depth + 1) == t + (sep + rest);
    hide PrintText, ElementsText, Separator;
    AppendAssociative(t, sep + rest, "]");
    AppendAssociative(sep, rest, "]");
  }

  /** The text of an object from member i on. */
  ghost function MembersFrom(item: Json, i: nat, format: bool, depth: nat): string
    requires item.Object? && i <= |item.members|
  {
    assert forall k :: 0 <= k < |item.members| ==> item.members[k].value < item.members[k];
    MembersText(item, item.members[i..], format, depth + 1) + (Tabs(format, depth) + "}")
  }

  lemma MembersFromStart(item: Json, format: bool, depth: nat)
    requires item.Object?
    ensures PrintText(item, format, depth) == "{" + (NewLine(format) + MembersFrom(item, 0, format, depth))
    ensures MembersFrom(item, |item.members|, format, depth) == Tabs(format, depth) + "}"
  {
    assert item.members[0..] == item.members;
  }

  /** The text of an object behind what has been printed, split behind the opening brace and its line. */
  lemma ObjectStart(before: string, item: Json, format: bool, depth: nat)
    requires item.Object?
    ensures var opening := "{" + NewLine(format);
            && before + PrintText(item, format, depth) == (before + opening) + MembersFrom(item, 0, format, depth)
            && |PrintText(item, format, depth)| == |opening| + |MembersFrom(item, 0, format, depth)|
  {
    MembersFromStart(item, format, depth);
    hide *;
    AppendAssociative("{", NewLine(format), MembersFrom(item, 0, format, depth));
    AppendAssociative(before, "{" + NewLine(format), MembersFrom(item, 0, format, depth));
  }

  /** The end of a line after the value of member i. */
  function LineEnd(item: Json, i: nat, format: bool): string
    requires item.Object?
  {
    (if i + 1 < |item.members| then "," else "") + NewLine(format)
  }

  /** The text from the value of member i on. */
  ghost function ValueFrom(item: Json, i: nat, format: bool, depth: nat): string
    requires item.Object? && i < |item.members|
  {
    PrintText(item.members[i].value, format, depth + 1) + (LineEnd(item, i, format) + MembersFrom(item, i + 1, format, depth))
  }

  lemma MembersFromStep(item: Json, i: nat, format: bool, depth: nat)
    requires item.Object? && i < |item.members|
    ensures MembersFrom(item, i, format, depth)
            == Tabs(format, depth + 1) + (Quote(item.members[i].key) + (Colon(format) + ValueFrom(item, i, format, depth)))
  {
    var m := item.members[i];
    assert forall k :: 0 <= k < |item.members| ==> item.members[k].value < item.members[k];
    var rest := MembersText(item, item.members[i + 1..], format, depth + 1);
    var (comma, nl, close) := (if i + 1 < |item.members| then "," else "", NewLine(format), Tabs(format, depth) + "}");
    var (tabs, key, colon, t) := (Tabs(format, depth + 1), Quote(m.key), Colon(format), PrintText(m.value, format, depth + 1));
    assert item.members[i..][1..] == item.members[i + 1..];
    assert MembersText(item, item.members[i..], format, depth + 1) == tabs + (key + (colon + (t + (comma + (nl + rest)))));
    hide *;
    AppendAssociative(tabs, key + (colon + (t + (comma + (nl + rest)))), close);
    AppendAssociative(key, colon + (t + (comma + (nl + rest))), close);
    AppendAssociative(colon, t + (comma + (nl + rest)), close);
    AppendAssociative(t, comma + (nl + rest), close);
    AppendAssociative(comma, nl, rest);
    AppendAssociative(comma + nl, rest, close);
    MembersFromParts(item, i, format, depth, rest, t);
  }

  lemma MembersFromParts(item: Json, i: nat, format: bool, depth: nat, rest: string, t: string)
    requires item.Object? && i < |item.members|
    requires forall k :: 0 <= k < |item.members| ==> item.members[k].value < item
    requires rest == MembersText(item, item.members[i + 1..], format, depth + 1)
    requires t == PrintText(item.members[i].value, format, depth + 1)
    ensures MembersFrom(item, i, format, depth)
            == MembersText(item, item.members[i..], format, depth + 1) + (Tabs(format, depth) + "}")
    ensures ValueFrom(item, i, format, depth)
            == t + (((if i + 1 < |item.members| then "," else "") + NewLine(format)) + (rest + (Tabs(format, depth) + "}")))
  {
  }

  // ----- the print buffer -----

  class PrintBuffer {
    var buffer: array<char>
    var length: nat
    var offset: nat
    var depth: nat
    const noalloc: bool
    const format: bool
    /** A realloc hook is available. */
    const reallocates: bool

    constructor (buffer: array<char>, length: nat, noalloc: bool, format: bool, reallocates: bool)
      requires length <= buffer.Length && length <= INT_MAX && (length > 0 || noalloc || reallocates)
      ensures Valid() && offset == 0 && depth == 0
      ensures this.buffer == buffer && this.length == length
      ensures this.noalloc == noalloc && this.format == format && this.reallocates == reallocates
    {
      this.buffer, this.length, offset, depth := buffer, length, 0, 0;
      this.noalloc, this.format, this.reallocates := noalloc, format, reallocates;
    }

    ghost predicate Valid()
      reads this
    {
      length <= buffer.Length && length <= INT_MAX && (offset < length || (offset == 0 == length && (noalloc || reallocates)))
    }

    /** No text needs more than this. */
    ghost function Limit(): nat
      reads this
    {
      if noalloc then length else INT_MAX
    }

    /** The buffer holds the text, which ends at the offset plus strlen from there. */
    ghost predicate Holds(text: string)
      reads this, buffer
    {
      && Valid() && offset <= |text| && |text| + 2 <= length
      && buffer[..|text|] == text && buffer[|text|] == NUL
    }

    /** ensure: make room for "needed" characters and one more from the offset on. */
    method Ensure(needed: nat) returns (ok: bool)
      requires Valid()
      modifies `buffer, `length
      ensures ok <==> offset + needed + 1 <= old(Limit())
      ensures ok ==> offset + needed + 1 <= length
      ensures Valid() && Limit() == old(Limit())
      ensures length == if ok && offset + needed + 1 > old(length) then NewSize(offset + needed + 1) else old(length)
      ensures buffer == old(buffer) || (!noalloc && fresh(buffer))
      ensures buffer[..offset] == old(buffer[..offset])
    {
      if length > 0 && offset >= length {
        return false;
      }
      if needed > INT_MAX {
        return false;
      }
      var total := needed + offset + 1;
      if total <= length {
        return true;
      }
      if noalloc {
        return false;
      }
      var newSize := INT_MAX;
      if total > INT_MAX / 2 {
        if total > INT_MAX {
          return false;
        }
      } else {
        newSize := total * 2;
      }
      var grown := new char[newSize];
      var kept := if reallocates then length else offset + 1;
      forall i | 0 <= i < kept {
        grown[i] := buffer[i];
      }
      assert grown[..offset] == buffer[..offset];
      buffer, length := grown, newSize;
      return true;
    }

    /** Copy characters into the buffer. */
    method Write(at: nat, text: string)
      requires at + |text| <= buffer.Length
      modifies buffer
      ensures buffer[..at + |text|] == old(buffer[..at]) + text
      ensures buffer[at + |text|..] == old(buffer[at + |text|..])
    {
      forall i | 0 <= i < |text| {
        buffer[at + i] := text[i];
      }
    }

    /** Make room, write characters and advance the offset over them. */
    method Emit(text: string, needed: nat, terminate: bool) returns (ok: bool)
      requires Valid() && |text| + (if terminate then 1 else 0) <= needed
      modifies this, buffer
      ensures ok <==> old(offset) + needed + 1 <= old(Limit())
      ensures Valid() && Limit() == old(Limit()) && depth == old(depth)
      ensures buffer == old(buffer) || (!noalloc && fresh(buffer))
      ensures ok ==> offset == old(offset) + |text| && buffer[..offset] == old(buffer[..offset]) + text
      ensures ok ==> old(offset) + needed + 1 <= length && (terminate ==> buffer[offset] == NUL)
      ensures !ok ==> offset == old(offset)
    {
      ok := Ensure(needed);
      if ok {
        Write(offset, text);
        if terminate {
          ghost var b := buffer[..offset + |text|];
          buffer[offset + |text|] := NUL;
          assert buffer[..offset + |text|] == b;
        }
        offset := offset + |text|;
      }
    }

    /** Make room and write a terminated text; the offset stays. */
    method Store(text: string) returns (ok: bool)
      requires Valid()
      modifies this, buffer
      ensures ok <==> old(offset) + |text| + 2 <= old(Limit())
      ensures Valid() && Limit() == old(Limit()) && depth == old(depth) && offset == old(offset)
      ensures buffer == old(buffer) || (!noalloc && fresh(buffer))
      ensures ok ==> Holds(old(buffer[..offset]) + text)
    {
      ok := Emit(text, |text| + 1, true);
      if ok {
        offset := offset - |text|;
      }
    }

    /** update_offset: advance to the end of the text. */
    method UpdateOffset(ghost before: string, ghost text: string)
      requires |before| <= offset && Holds(before + text) && NUL !in text
      modifies `offset
      ensures offset == |before + text| && buffer[..offset] == before + text && Valid()
    {
      ghost var all := before + text;
      assert forall i :: offset <= i < |all| ==> buffer[i] == all[i] != NUL;
      while buffer[offset] != NUL
        invariant old(offset) <= offset <= |all|
        decreases |all| - offset
      {
        offset := offset + 1;
      }
    }

    // ----- strings -----

    /** One character of print_string_ptr. */
    method WriteEscape(at: nat, c: char) returns (next: nat)
      requires at + |EscapeText(PrintedEscape(c))| < buffer.Length
      modifies buffer
      ensures next == at + |EscapeText(PrintedEscape(c))|
      ensures buffer[..next] == old(buffer[..at]) + EscapeText(PrintedEscape(c))
    {
      if c > 31 as char && c != '"' && c != '\\' {
        buffer[at] := c;
        return at + 1;
      }
      buffer[at] := '\\';
      next := at + 1;
      if c == '\\' || c == '"' {
        buffer[next] := c;
      } else if c == 8 as char {
        buffer[next] := 'b';
      } else if c == 12 as char {
        buffer[next] := 'f';
      } else if c == '\n' {
        buffer[next] := 'n';
      } else if c == '\r' {
        buffer[next] := 'r';
      } else if c == '\t' {
        buffer[next] := 't';
      } else {
        Write(next, ['u', '0', '0', HexDigit(c as int / 16), HexDigit(c as int % 16)]);
        ghost var b := buffer[..next + 5];
        buffer[next + 5] := NUL;
        assert buffer[..next + 5] == b;
        next := next + 4;
      }
      next := next + 1;
    }

    /** A turn of the copying loop of print_string_ptr. */
    method EscapeTurn(at: nat, input: string, i: nat, ghost goal: string) returns (next: nat)
      requires i < |input| && at + |Escaped(input[i..])| == |goal| < buffer.Length
      requires goal == buffer[..at] + Escaped(input[i..])
      modifies buffer
      ensures next + |Escaped(input[i + 1..])| == |goal| && goal == buffer[..next] + Escaped(input[i + 1..])
    {
      EscapedCons(input[i..]);
      assert input[i..][1..] == input[i + 1..] && input[i..][0] == input[i];
      hide Escaped, PrintedEscape, EscapeText;
      ghost var before := buffer[..at];
      next := WriteEscape(at, input[i]);
      assert goal == (before + EscapeText(PrintedEscape(input[i]))) + Escaped(input[i + 1..]);
    }

    method WriteEscaped(at: nat, input: string) returns (end: nat)
      requires at + |Escaped(input)| < buffer.Length
      modifies buffer
      ensures end == at + |Escaped(input)| && buffer[..end] == old(buffer[..at]) + Escaped(input)
    {
      assert Escaped("") == "";
      hide Escaped;
      ghost var goal := buffer[..at] + Escaped(input);
      end := at;
      var i := 0;
      assert input[0..] == input;
      while i < |input|
        invariant i <= |input|
        invariant end + |Escaped(input[i..])| == |goal|
        invariant goal == buffer[..end] + Escaped(input[i..])
      {
        end := EscapeTurn(end, input, i, goal);
        i := i + 1;
      }
      assert input[i..] == "";
    }

    /** The first loop of print_string_ptr. */
    method CountEscapes(input: string) returns (n: nat)
      ensures n == Extra(input)
    {
      n := 0;
      var i := 0;
      assert input[0..] == input;
      while i < |input|
        invariant i <= |input|
        invariant n + Extra(input[i..]) == Extra(input)
      {
        assert input[i..][0] == input[i] && input[i..][1..] == input[i + 1..];
        if input[i] in {'"', '\\', 8 as char, 12 as char, '\n', '\r', '\t'} {
          n := n + 1;
        } else if input[i] < 32 as char {
          n := n + 5;
        }
        i := i + 1;
      }
    }

    /** Write the quoted string and its terminator when there is room. */
    method WriteQuoted(input: string, escapes: nat, outputLength: nat)
      requires Valid() && escapes == Extra(input) && outputLength == |input| + escapes && offset + outputLength + 4 <= length
      modifies buffer
      ensures Holds(old(buffer[..offset]) + ("\"" + (Escaped(input) + "\"")))
    {
      EscapedLength(input);
      hide Escaped, Extra;
      ghost var before := buffer[..offset];
      buffer[offset] := '"';
      assert buffer[..offset + 1] == before + "\"";
      var end := offset + 1 + outputLength;
      if escapes == 0 {
        Write(offset + 1, input);
      } else {
        end := WriteEscaped(offset + 1, input);
      }
      AppendAssociative(before + "\"", Escaped(input), "\"");
      AppendAssociative(before, "\"", Escaped(input) + "\"");
      CloseQuote(end);
    }

    /** The closing quote and the terminator. */
    method CloseQuote(end: nat)
      requires end + 1 < buffer.Length
      modifies buffer
      ensures buffer[..end + 1] == old(buffer[..end]) + "\"" && buffer[end + 1] == NUL
    {
      buffer[end] := '"';
      buffer[end + 1] := NUL;
    }

    /** print_string_ptr. */
    method StringPtr(input: string) returns (ok: bool)
      requires Valid()
      modifies this, buffer
      ensures ok <==> old(offset) + |Quote(input)| + 2 <= old(Limit())
      ensures Valid() && Limit() == old(Limit()) && depth == old(depth) && offset == old(offset)
      ensures buffer == old(buffer) || (!noalloc && fresh(buffer))
      ensures ok ==> Holds(old(buffer[..offset]) + Quote(input))
    {
      var escapes := CountEscapes(input);
      EscapedLength(input);
      var outputLength := |input| + escapes;
      hide Escaped, Extra;
      assert |Quote(input)| == outputLength + 2;
      ok := Ensure(outputLength + 3);
      if ok {
        WriteQuoted(input, escapes, outputLength);
      }
    }

    // ----- values -----

    /** print_value: it succeeds exactly when the text and two more characters fit, and leaves the text so that it
        ends at the offset plus strlen from there. */
    method Value(item: Json) returns (ok: bool)
      requires Valid() && CItem(item)
      modifies this, buffer
      ensures ok <==> Printable(item) && old(offset) + |PrintText(item, format, old(depth))| + 2 <= old(Limit())
      ensures Valid() && Limit() == old(Limit())
      ensures buffer == old(buffer) || (!noalloc && fresh(buffer))
      ensures ok ==> old(offset) <= offset && depth == old(depth) && Holds(old(buffer[..offset]) + PrintText(item, format, old(depth)))
      decreases item, 3
    {
      hide Printable, Holds, PrintText;
      if item.Array? {
        ok := ArrayValue(item);
      } else if item.Object? {
        ok := ObjectValue(item);
      } else {
        ok := Scalar(item);
      }
    }

    method Scalar(item: Json) returns (ok: bool)
      requires Valid() && CItem(item) && !item.Array? && !item.Object?
      modifies this, buffer
      ensures ok <==> Printable(item) && old(offset) + |PrintText(item, format, old(depth))| + 2 <= old(Limit())
      ensures Valid() && Limit() == old(Limit())
      ensures buffer == old(buffer) || (!noalloc && fresh(buffer))
      ensures ok ==> old(offset) <= offset && depth == old(depth) && Holds(old(buffer[..offset]) + PrintText(item, format, old(depth)))
      decreases item, 1
    {
      match item {
        case Null => ok := Store("null");
        case False => ok := Store("false");
        case True => ok := Store("true");
        case Number(n) =>
          var text := SignedDecimal(n);
          hide SignedDecimal;
          ok := Emit(text, |text| + 1, true);
        case String(s) =>
          hide Quote;
          ok := StringPtr(s);
        case _ => ok := false;
      }
    }

    /** A turn of the loop of print_array; "goal" is the whole text once the array is printed. */
    method ElementTurn(item: Json, i: nat, ghost d: nat, ghost goal: string) returns (ok: bool)
      requires Valid() && item.Array? && i < |item.items| && CItem(item.items[i]) && depth == d + 1
      requires goal == buffer[..offset] + ElementsFrom(item, i, format, d)
      modifies this, buffer
      ensures Valid() && Limit() == old(Limit())
      ensures buffer == old(buffer) || (!noalloc && fresh(buffer))
      ensures ok ==> depth == d + 1 && old(offset) <= offset
      ensures ok ==> Printable(item.items[i]) && goal == buffer[..offset] + ElementsFrom(item, i + 1, format, d)
      ensures !ok ==> !Printable(item.items[i]) || |goal| + 2 > Limit()
      decreases item, 0
    {
      ElementsFromStep(item, i, format, d);
      hide ElementsFrom, PrintText, Printable, CItem;
      var element := item.items[i];
      ghost var (before, t, rest) := (buffer[..offset], PrintText(element, format, depth), ElementsFrom(item, i + 1, format, d));
      var sep := if i + 1 < |item.items| then Separator(format) else "";
      AppendAssociative(before, t, sep + rest);
      AppendAssociative(before + t, sep, rest);
      ok := Value(element);
      if !ok {
        return;
      }
      TextNulFree(element, format, d + 1);
      UpdateOffset(before, t);
      if i + 1 < |item.items| {
        ok := Emit(sep, |sep| + 1, true);
      }
    }

    /** print_array. */
    method ArrayValue(item: Json) returns (ok: bool)
      requires Valid() && CItem(item) && item.Array?
      modifies this, buffer
      ensures ok <==> Printable(item) && old(offset) + |PrintText(item, format, old(depth))| + 2 <= old(Limit())
      ensures Valid() && Limit() == old(Limit())
      ensures buffer == old(buffer) || (!noalloc && fresh(buffer))
      ensures ok ==> old(offset) <= offset && depth == old(depth) && Holds(old(buffer[..offset]) + PrintText(item, format, old(depth)))
      decreases item, 1
    {
      hide ElementsFrom, PrintText, Printable, CItem, Holds, Separator;
      ghost var d := depth;
      ghost var goal := buffer[..offset] + PrintText(item, format, d);
      PrintableElements(item);
      ElementsFromStart(item, format, d);
      ElementsFromEnds(item, format, d);
      AppendAssociative(buffer[..offset], "[", ElementsFrom(item, 0, format, d));
      ok := Emit("[", 1, false);
      if !ok {
        return;
      }
      depth := depth + 1;
      var i := 0;
      while i < |item.items|
        invariant i <= |item.items| && depth == d + 1
        invariant Valid() && Limit() == old(Limit()) && old(offset) <= offset
        invariant buffer == old(buffer) || (!noalloc && fresh(buffer))
        invariant goal == buffer[..offset] + ElementsFrom(item, i, format, d)
        invariant forall k :: 0 <= k < i ==> Printable(item.items[k])
      {
        ok := ElementTurn(item, i, d, goal);
        if !ok {
          return;
        }
        i := i + 1;
      }
      ok := Close("]");
    }

    /** The end of print_array and print_object. */
    method Close(text: string) returns (ok: bool)
      requires Valid() && depth > 0
      modifies this, buffer
      ensures ok <==> old(offset) + |text| + 2 <= old(Limit())
      ensures Valid() && Limit() == old(Limit()) && offset == old(offset)
      ensures buffer == old(buffer) || (!noalloc && fresh(buffer))
      ensures ok ==> depth == old(depth) - 1 && Holds(old(buffer[..offset]) + text)
    {
      ok := Store(text);
      if ok {
        depth := depth - 1;
      }
    }

    /** A key, with the offset moved behind it. */
    method Key(key: string) returns (ok: bool)
      requires Valid() && NUL !in key
      modifies this, buffer
      ensures ok <==> old(offset) + |Quote(key)| + 2 <= old(Limit())
      ensures Valid() && Limit() == old(Limit()) && depth == old(depth)
      ensures buffer == old(buffer) || (!noalloc && fresh(buffer))
      ensures ok ==> offset == old(offset) + |Quote(key)| && buffer[..offset] == old(buffer[..offset]) + Quote(key)
    {
      assert NUL !in Quote(key) by { EscapedNulFree(key); }
      hide Quote;
      ghost var before := buffer[..offset];
      ok := StringPtr(key);
      if ok {
        UpdateOffset(before, Quote(key));
      }
    }

    /** The tabs in front of a key. */
    method Indent() returns (ok: bool)
      requires Valid()
      modifies this, buffer
      ensures !ok ==> old(offset) + |Tabs(format, depth)| + 1 > Limit()
      ensures Valid() && Limit() == old(Limit()) && depth == old(depth)
      ensures buffer == old(buffer) || (!noalloc && fresh(buffer))
      ensures ok ==> offset == old(offset) + |Tabs(format, depth)| && buffer[..offset] == old(buffer[..offset]) + Tabs(format, depth)
    {
      ok := true;
      if format {
        ok := Emit(Tabs(format, depth), depth, false);
      }
    }

    /** A key and its colon in front of the rest of the text. */
    method KeyAndColon(key: string, ghost rest: string, ghost goal: string) returns (ok: bool)
      requires Valid() && NUL !in key && goal == buffer[..offset] + (Quote(key) + (Colon(format) + rest))
      modifies this, buffer
      ensures Valid() && Limit() == old(Limit()) && depth == old(depth)
      ensures buffer == old(buffer) || (!noalloc && fresh(buffer))
      ensures ok ==> old(offset) <= offset && goal == buffer[..offset] + rest
      ensures !ok ==> |goal| + 2 > Limit()
    {
      hide Quote, Colon;
      ghost var (before, k) := (buffer[..offset], Quote(key));
      AppendAssociative(before, k, Colon(format) + rest);
      AppendAssociative(before + k, Colon(format), rest);
      ok := Key(key);
      if ok {
        ok := Emit(Colon(format), |Colon(format)|, false);
      }
    }

    /** A turn of the loop of print_object up to the value. */
    method KeyTurn(item: Json, i: nat, ghost d: nat, ghost goal: string) returns (ok: bool)
      requires Valid() && item.Object? && i < |item.members| && NUL !in item.members[i].key && depth == d + 1
      requires goal == buffer[..offset] + MembersFrom(item, i, format, d)
      modifies this, buffer
      ensures Valid() && Limit() == old(Limit())
      ensures buffer == old(buffer) || (!noalloc && fresh(buffer))
      ensures ok ==> depth == d + 1 && old(offset) <= offset && goal == buffer[..offset] + ValueFrom(item, i, format, d)
      ensures !ok ==> |goal| + 2 > Limit()
    {
      MembersFromStep(item, i, format, d);
      hide MembersFrom, ValueFrom, Quote, Tabs, PrintText, Colon;
      var key := item.members[i].key;
      ghost var rest := ValueFrom(item, i, format, d);
      AppendAssociative(buffer[..offset], Tabs(format, depth), Quote(key) + (Colon(format) + rest));
      ok := Indent();
      if ok {
        ok := KeyAndColon(key, rest, goal);
      }
    }

    /** A turn of the loop of print_object from the value on. */
    method ValueTurn(item: Json, i: nat, ghost d: nat, ghost goal: string) returns (ok: bool)
      requires Valid() && item.Object? && i < |item.members| && CItem(item.members[i].value) && depth == d + 1
      requires goal == buffer[..offset] + ValueFrom(item, i, format, d)
      modifies this, buffer
      ensures Valid() && Limit() == old(Limit())
      ensures buffer == old(buffer) || (!noalloc && fresh(buffer))
      ensures ok ==> depth == d + 1 && old(offset) <= offset
      ensures ok ==> Printable(item.members[i].value) && goal == buffer[..offset] + MembersFrom(item, i + 1, format, d)
      ensures !ok ==> !Printable(item.members[i].value) || |goal| + 2 > Limit()
      decreases item, 0
    {
      var value := item.members[i].value;
      assert value < item.members[i];
      ghost var (before, t, rest) := (buffer[..offset], PrintText(value, format, depth), MembersFrom(item, i + 1, format, d));
      var end := LineEnd(item, i, format);
      assert ValueFrom(item, i, format, d) == t + (end + rest);
      hide MembersFrom, ValueFrom, PrintText, Printable, CItem, LineEnd;
      AppendAssociative(before, t, end + rest);
      AppendAssociative(before + t, end, rest);
      ok := Value(value);
      if !ok {
        return;
      }
      TextNulFree(value, format, d + 1);
      UpdateOffset(before, t);
      ok := Emit(end, |end| + 1, true);
    }

    /** A turn of the loop of print_object. */
    method MemberTurn(item: Json, i: nat, ghost d: nat, ghost goal: string) returns (ok: bool)
      requires Valid() && CItem(item) && item.Object? && i < |item.members| && depth == d + 1
      requires goal == buffer[..offset] + MembersFrom(item, i, format, d)
      modifies this, buffer
      ensures Valid() && Limit() == old(Limit())
      ensures buffer == old(buffer) || (!noalloc && fresh(buffer))
      ensures ok ==> depth == d + 1 && old(offset) <= offset
      ensures ok ==> Printable(item.members[i].value) && goal == buffer[..offset] + MembersFrom(item, i + 1, format, d)
      ensures !ok ==> !Printable(item.members[i].value) || |goal| + 2 > Limit()
      decreases item, 1
    {
      assert NUL !in item.members[i].key && CItem(item.members[i].value);
      hide MembersFrom, ValueFrom, Printable, CItem;
      ok := KeyTurn(item, i, d, goal);
      if ok {
        ok := ValueTurn(item, i, d, goal);
      }
    }

    /** print_object. */
    method ObjectValue(item: Json) returns (ok: bool)
      requires Valid() && CItem(item) && item.Object?
      modifies this, buffer
      ensures ok <==> Printable(item) && old(offset) + |PrintText(item, format, old(depth))| + 2 <= old(Limit())
      ensures Valid() && Limit() == old(Limit())
      ensures buffer == old(buffer) || (!noalloc && fresh(buffer))
      ensures ok ==> old(offset) <= offset && depth == old(depth) && Holds(old(buffer[..offset]) + PrintText(item, format, old(depth)))
      decreases item, 2
    {
      hide MembersFrom, ValueFrom, PrintText, Printable, CItem, Holds, Tabs, NewLine;
      ghost var d := depth;
      ghost var goal := buffer[..offset] + PrintText(item, format, d);
      PrintableMembers(item);
      MembersFromStart(item, format, d);
      ObjectStart(buffer[..offset], item, format, d);
      var opening := "{" + NewLine(format);
      ok := Emit(opening, |opening| + 1, false);
      if !ok {
        return;
      }
      depth := depth + 1;
      var i := 0;
      while i < |item.members|
        invariant i <= |item.members| && depth == d + 1
        invariant Valid() && Limit() == old(Limit()) && old(offset) <= offset
        invariant buffer == old(buffer) || (!noalloc && fresh(buffer))
        invariant goal == buffer[..offset] + MembersFrom(item, i, format, d)
        invariant forall k :: 0 <= k < i ==> Printable(item.members[k].value)
      {
        ok := MemberTurn(item, i, d, goal);
        if !ok {
          return;
        }
        i := i + 1;
      }
      ok := Close(Tabs(format, depth - 1) + "}");
    }
  }

  // ----- entry points -----

  function Min(a: nat, b: nat): nat { if a < b then a else b }

  /** The text of a whole item, and whether it can be printed into a buffer that may grow to any size C allows. */
  predicate Fits(item: Json, format: bool) {
    Printable(item) && |PrintText(item, format, 0)| + 2 <= 0x7FFF_FFFF
  }

  /** A string in memory with its terminator. */
  ghost predicate IsCString(memory: array<char>, text: string)
    reads memory
  {
    |text| < memory.Length && memory[..|text|] == text && memory[|text|] == NUL && NUL !in text
  }

  /** print, behind cJSON_Print and cJSON_PrintUnformatted: the result is as long as the text and its terminator. */
  method Print(item: Json, format: bool, reallocates: bool) returns (printed: Option<array<char>>)
    requires CItem(item)
    ensures printed.Some? <==> Fits(item, format)
    ensures printed.Some? ==> IsCString(printed.value, PrintText(item, format, 0))
                              && printed.value.Length == |PrintText(item, format, 0)| + 1 && fresh(printed.value)
  {
    hide PrintText, Printable;
    var memory := new char[DEFAULT_BUFFER_SIZE];
    var p := new PrintBuffer(memory, DEFAULT_BUFFER_SIZE, false, format, reallocates);
    ghost var text := PrintText(item, format, 0);
    assert p.buffer[..p.offset] + text == text;
    var ok := p.Value(item);
    if !ok {
      return None;
    }
    TextNulFree(item, format, 0);
    p.UpdateOffset("", text);
    assert "" + text == text;
    var result := CopyOf(p.buffer, p.length, p.offset);
    return Some(result);
  }

  /** The copy that print makes of the text in its buffer. */
  method CopyOf(buffer: array<char>, length: nat, n: nat) returns (result: array<char>)
    requires n < length <= buffer.Length
    ensures fresh(result) && result.Length == n + 1 && result[..n] == buffer[..n] && result[n] == NUL
  {
    result := new char[n + 1];
    var kept := Min(length, n + 1);
    forall i | 0 <= i < kept {
      result[i] := buffer[i];
    }
    result[n] := NUL;
  }

  /** cJSON_PrintBuffered; the result is the whole buffer. Whether an allocation of 0 bytes gives memory depends on the allocator; growing
      it by hand instead of with a realloc hook would copy a byte that it has not. */
  method PrintBuffered(item: Json, prebuffer: int, format: bool, reallocates: bool, allocatesZero: bool) returns (printed: Option<array<char>>)
    requires CItem(item) && prebuffer <= INT_MAX && (prebuffer == 0 && allocatesZero ==> reallocates)
    ensures printed.Some? <==> prebuffer >= 0 && (prebuffer == 0 ==> allocatesZero) && Fits(item, format)
    ensures printed.Some? ==> IsCString(printed.value, PrintText(item, format, 0)) && fresh(printed.value)
  {
    hide PrintText, Printable;
    if prebuffer < 0 {
      return None;
    }
    if prebuffer == 0 && !allocatesZero {
      return None;
    }
    var memory := new char[prebuffer];
    var p := new PrintBuffer(memory, prebuffer, false, format, reallocates);
    assert p.buffer[..p.offset] + PrintText(item, format, 0) == PrintText(item, format, 0);
    var ok := p.Value(item);
    if !ok {
      return None;
    }
    TextNulFree(item, format, 0);
    return Some(p.buffer);
  }

  /** cJSON_PrintPreallocated: the buffer of the caller is enough exactly when it is two longer than the text. */
  method PrintPreallocated(item: Json, memory: array<char>, length: int, format: bool) returns (ok: bool)
    requires CItem(item) && length <= memory.Length && length <= INT_MAX
    modifies memory
    ensures ok <==> Printable(item) && |PrintText(item, format, 0)| + 2 <= length
    ensures ok ==> IsCString(memory, PrintText(item, format, 0))
  {
    hide PrintText, Printable;
    if length < 0 {
      return false;
    }
    var p := new PrintBuffer(memory, length, true, format, true);
    assert p.buffer[..p.offset] + PrintText(item, format, 0) == PrintText(item, format, 0);
    ok := p.Value(item);
    if ok {
      TextNulFree(item, format, 0);
    }
  }
}
