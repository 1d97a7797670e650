/** The recursive-descent parser of cJSON. */
module Parser {
  import opened Text
  import opened Json
  import opened StringCodec

  const NESTING_LIMIT: nat := 1000

  datatype Parsed<+T> = Failed | Parsed(value: T, offset: nat)

  // ----- scanning -----

  predicate Blank(c: char) { c <= ' ' }

  function SkipBlanks(s: string, offset: nat): (o: nat)
    requires offset <= |s|
    ensures offset <= o <= |s|
    ensures forall i :: offset <= i < o ==> Blank(s[i])
    ensures o < |s| ==> !Blank(s[o])
    decreases |s| - offset
  {
    if offset < |s| && Blank(s[offset]) then SkipBlanks(s, offset + 1) else offset
  }

  /** buffer_skip_whitespace, which steps back from the end of the buffer. */
  function SkipWhitespace(s: string, offset: nat): (o: nat)
    ensures offset <= o
    ensures offset <= |s| ==> o <= |s|
    ensures offset < |s| ==> o < |s|
  {
    if offset >= |s| then offset
    else
      var o := SkipBlanks(s, offset);
      if o == |s| then o - 1 else o
  }

  predicate Sees(s: string, offset: nat, c: char) {
    offset < |s| && s[offset] == c
  }

  // ----- numbers -----

  predicate NumberChar(c: char) {
    IsDigit(c) || c == '+' || c == '-' || c == 'e' || c == 'E' || c == '.'
  }

  /** How many of the first characters, at most "limit", may belong to a number. */
  function NumberRun(s: string, offset: nat, limit: nat): (n: nat)
    ensures n <= limit && (offset <= |s| ==> offset + n <= |s|)
    ensures offset > |s| ==> n == 0
    ensures forall i :: offset <= i < offset + n ==> i < |s| && NumberChar(s[i])
    ensures n < limit ==> offset + n >= |s| || !NumberChar(s[offset + n])
    decreases limit
  {
    if limit == 0 || offset >= |s| || !NumberChar(s[offset]) then 0
    else 1 + NumberRun(s, offset + 1, limit - 1)
  }

  function DigitRun(s: string): (n: nat)
    ensures n <= |s|
    ensures forall i :: 0 <= i < n ==> IsDigit(s[i])
    ensures n < |s| ==> !IsDigit(s[n])
  {
    if s == "" || !IsDigit(s[0]) then 0 else 1 + DigitRun(s[1..])
  }

  datatype Integer = NotANumber | Integer(value: int, length: nat)

  /** strtod on a text that starts with a digit or a sign, for integral numbers. A fraction or an exponent
      is refused. */
  function ReadInteger(s: string): (r: Integer)
    ensures r.Integer? ==> 0 < r.length <= |s|
  {
    var sign := if s != "" && (s[0] == '-' || s[0] == '+') then 1 else 0;
    var n := DigitRun(s[sign..]);
    if n == 0 || (sign + n < |s| && s[sign + n] in {'.', 'e', 'E'}) then NotANumber
    else
      var magnitude: int := DecimalValue(s[sign..][..n]);
      Integer(if sign == 1 && s[0] == '-' then -magnitude else magnitude, sign + n)
  }

  /** parse_number: at most 63 characters are looked at. */
  function ParseNumber(s: string, offset: nat): (r: Parsed<Json>)
    ensures r.Parsed? ==> offset < r.offset <= |s|
  {
    if offset >= |s| then Failed
    else
      match ReadInteger(s[offset..offset + NumberRun(s, offset, 63)])
      case NotANumber => Failed
      case Integer(value, length) => Parsed(Number(value), offset + length)
  }

  // ----- values -----

  /** What is left to read, for termination. */
  function Left(s: string, offset: nat): nat {
    if offset <= |s| then |s| - offset else 0
  }

  /** parse_value. */
  function ParseValue(s: string, offset: nat, depth: nat): (r: Parsed<Json>)
    ensures r.Parsed? ==> offset < r.offset <= |s|
    decreases Left(s, offset), 2
  {
    if TextAt(s, offset, "null") then Parsed(Null, offset + 4)
    else if TextAt(s, offset, "false") then Parsed(False, offset + 5)
    else if TextAt(s, offset, "true") then Parsed(True, offset + 4)
    else if offset >= |s| then Failed
    else if s[offset] == '"' then
      match ParseLiteral(s, offset)
      case BadLiteral => Failed
      case Literal(value, next) => Parsed(String(value), next)
    else if s[offset] == '-' || IsDigit(s[offset]) then ParseNumber(s, offset)
    else if s[offset] == '[' then ParseArray(s, offset, depth)
    else if s[offset] == '{' then ParseObject(s, offset, depth)
    else Failed
  }

  /** parse_array at the opening bracket. */
  function ParseArray(s: string, offset: nat, depth: nat): (r: Parsed<Json>)
    requires offset < |s|
    ensures r.Parsed? ==> offset < r.offset <= |s|
    decreases Left(s, offset), 1
  {
    if depth >= NESTING_LIMIT then Failed
    else
      var first := SkipWhitespace(s, offset + 1);
      if Sees(s, first, ']') then Parsed(Array([]), first + 1)
      else if first >= |s| then Failed
      else
        match ParseElements(s, first - 1, depth + 1)
        case Failed => Failed
        case Parsed(items, next) => Parsed(Array(items), next)
  }

  /** The loop of parse_array from the character in front of an element. */
  function ParseElements(s: string, offset: nat, depth: nat): (r: Parsed<seq<Json>>)
    requires offset < |s|
    ensures r.Parsed? ==> offset < r.offset <= |s|
    decreases Left(s, offset), 0
  {
    match ParseValue(s, SkipWhitespace(s, offset + 1), depth)
    case Failed => Failed
    case Parsed(item, after) =>
      var next := SkipWhitespace(s, after);
      if Sees(s, next, ',') then
        match ParseElements(s, next, depth)
        case Failed => Failed
        case Parsed(items, end) => Parsed([item] + items, end)
      else if Sees(s, next, ']') then Parsed([item], next + 1)
      else Failed
  }

  /** parse_object at the opening brace. */
  function ParseObject(s: string, offset: nat, depth: nat): (r: Parsed<Json>)
    requires offset < |s|
    ensures r.Parsed? ==> offset < r.offset <= |s|
    decreases Left(s, offset), 1
  {
    if depth >= NESTING_LIMIT then Failed
    else
      var first := SkipWhitespace(s, offset + 1);
      if Sees(s, first, '}') then Parsed(Object([]), first + 1)
      else if first >= |s| then Failed
      else
        match ParseMembers(s, first - 1, depth + 1)
        case Failed => Failed
        case Parsed(members, next) => Parsed(Object(members), next)
  }

  /** A key and the value after its colon. */
  function ParseMember(s: string, offset: nat, depth: nat): (r: Parsed<Member>)
    requires offset < |s|
    ensures r.Parsed? ==> offset < r.offset <= |s|
    decreases Left(s, offset), 0, 0
  {
    match ParseLiteral(s, SkipWhitespace(s, offset + 1))
    case BadLiteral => Failed
    case Literal(key, afterKey) =>
      var colon := SkipWhitespace(s, afterKey);
      if !Sees(s, colon, ':') then Failed
      else
        match ParseValue(s, SkipWhitespace(s, colon + 1), depth)
        case Failed => Failed
        case Parsed(value, after) => Parsed(Member(key, value), after)
  }

  /** The loop of parse_object from the character in front of a key. */
  function ParseMembers(s: string, offset: nat, depth: nat): (r: Parsed<seq<Member>>)
    requires offset < |s|
    ensures r.Parsed? ==> offset < r.offset <= |s|
    decreases Left(s, offset), 0, 1
  {
    match ParseMember(s, offset, depth)
    case Failed => Failed
    case Parsed(member, after) =>
      var next := SkipWhitespace(s, after);
      if Sees(s, next, ',') then
        match ParseMembers(s, next, depth)
        case Failed => Failed
        case Parsed(members, end) => Parsed([member] + members, end)
      else if Sees(s, next, '}') then Parsed([member], next + 1)
      else Failed
  }

  // ----- whole texts -----

  const BOM: string := [0xEF as char, 0xBB as char, 0xBF as char]

  function SkipBom(s: string): nat {
    if 4 < |s| && TextAt(s, 0, BOM) then 3 else 0
  }

  /** cJSON_ParseWithLengthOpts: the root item, and the end of the parsed text. */
  function ParseBuffer(s: string, requireNullTerminated: bool): Parsed<Json> {
    if s == "" then Failed
    else
      match ParseValue(s, SkipWhitespace(s, SkipBom(s)), 0)
      case Failed => Failed
      case Parsed(item, after) =>
        if !requireNullTerminated then Parsed(item, after)
        else
          var end := SkipWhitespace(s, after);
          if Sees(s, end, NUL) then Parsed(item, end) else Failed
  }

  /** cJSON_ParseWithOpts: the buffer is the string with its terminator. */
  function ParseText(text: string, requireNullTerminated: bool): Parsed<Json> {
    ParseBuffer(text + [NUL], requireNullTerminated)
  }

  // ----- the parser as it runs -----

  /** parse_buffer: the offset and the nesting depth are advanced step by step. */
  class Buffer {
    const content: string
    var offset: nat
    var depth: nat

    constructor (content: string)
      ensures this.content == content && offset == 0 && depth == 0
    {
      this.content := content;
      offset, depth := 0, 0;
    }

    method Skip()
      modifies `offset
      ensures offset == SkipWhitespace(content, old(offset))
    {
      if offset >= |content| {
        return;
      }
      ghost var start := offset;
      while offset < |content| && Blank(content[offset])
        invariant start <= offset <= |content|
        invariant SkipBlanks(content, start) == SkipBlanks(content, offset)
      {
        offset := offset + 1;
      }
      if offset == |content| {
        offset := offset - 1;
      }
    }

    /** On success the item is stored, the offset is past it and the depth is what it was. */
    method Value() returns (ok: bool, item: Json)
      modifies this
      ensures ok <==> ParseValue(content, old(offset), old(depth)).Parsed?
      ensures ok ==> Parsed(item, offset) == ParseValue(content, old(offset), old(depth)) && depth == old(depth)
      decreases Left(content, offset), 2
    {
      item := Invalid;
      if TextAt(content, offset, "null") {
        offset := offset + 4;
        return true, Null;
      }
      if TextAt(content, offset, "false") {
        offset := offset + 5;
        return true, False;
      }
      if TextAt(content, offset, "true") {
        offset := offset + 4;
        return true, True;
      }
      if offset >= |content| {
        return false, item;
      }
      var c := content[offset];
      if c == '"' {
        var r := ParseString(content, offset);
        if r.BadLiteral? {
          return false, item;
        }
        offset := r.next;
        return true, String(r.value);
      }
      if c == '-' || IsDigit(c) {
        var r := ParseNumber(content, offset);
        if r.Failed? {
          return false, item;
        }
        offset := r.offset;
        return true, r.value;
      }
      if c == '[' {
        ok, item := ArrayValue();
        return;
      }
      if c == '{' {
        ok, item := ObjectValue();
        return;
      }
      return false, item;
    }

    method ArrayValue() returns (ok: bool, item: Json)
      requires offset < |content|
      modifies this
      ensures ok <==> ParseArray(content, old(offset), old(depth)).Parsed?
      ensures ok ==> Parsed(item, offset) == ParseArray(content, old(offset), old(depth)) && depth == old(depth)
      decreases Left(content, offset), 1, 1
    {
      hide ParseValue, ParseElements, SkipWhitespace;
      item := Invalid;
      if depth >= NESTING_LIMIT {
        return false, item;
      }
      depth := depth + 1;
      offset := offset + 1;
      Skip();
      if Sees(content, offset, ']') {
        depth := depth - 1;
        offset := offset + 1;
        return true, Array([]);
      }
      if offset >= |content| {
        return false, item;
      }
      offset := offset - 1;
      var parsed, items := Elements();
      if !parsed {
        return false, item;
      }
      depth := depth - 1;
      offset := offset + 1;
      return true, Array(items);
    }

    /** The loop of parse_array, up to the closing bracket. */
    method Elements() returns (ok: bool, items: seq<Json>)
      requires offset < |content|
      modifies this
      ensures ok <==> ParseElements(content, old(offset), old(depth)).Parsed?
      ensures ok ==> Parsed(items, offset + 1) == ParseElements(content, old(offset), old(depth)) && depth == old(depth)
      decreases Left(content, offset), 1, 0
    {
      hide ParseValue, ParseElements, SkipWhitespace, PrependItems, Sees;
      ghost var all := ParseElements(content, offset, depth);
      items := [];
      PrependNone(all);
      while true
        invariant old(offset) <= offset < |content| && depth == old(depth)
        invariant all == PrependItems(items, ParseElements(content, offset, depth))
        decreases |content| - offset
      {
        ElementsTurn(content, offset, depth, items);
        var parsed, element := NextElement();
        if !parsed {
          return false, items;
        }
        Skip();
        items := items + [element];
        if !Sees(content, offset, ',') {
          return Sees(content, offset, ']'), items;
        }
      }
    }

    method NextElement() returns (ok: bool, item: Json)
      requires offset < |content|
      modifies this
      ensures var r := ParseValue(content, SkipWhitespace(content, old(offset) + 1), old(depth));
              ok == r.Parsed? && (ok ==> Parsed(item, offset) == r && depth == old(depth))
      decreases Left(content, offset), 0
    {
      hide ParseValue, SkipWhitespace;
      offset := offset + 1;
      Skip();
      ok, item := Value();
    }

    method ObjectValue() returns (ok: bool, item: Json)
      requires offset < |content|
      modifies this
      ensures ok <==> ParseObject(content, old(offset), old(depth)).Parsed?
      ensures ok ==> Parsed(item, offset) == ParseObject(content, old(offset), old(depth)) && depth == old(depth)
      decreases Left(content, offset), 1, 1
    {
      hide ParseValue, ParseMembers, SkipWhitespace;
      item := Invalid;
      if depth >= NESTING_LIMIT {
        return false, item;
      }
      depth := depth + 1;
      offset := offset + 1;
      Skip();
      if Sees(content, offset, '}') {
        depth := depth - 1;
        offset := offset + 1;
        return true, Object([]);
      }
      if offset >= |content| {
        return false, item;
      }
      offset := offset - 1;
      var parsed, members := Members();
      if !parsed {
        return false, item;
      }
      depth := depth - 1;
      offset := offset + 1;
      return true, Object(members);
    }

    /** The loop of parse_object, up to the closing brace. */
    method Members() returns (ok: bool, members: seq<Member>)
      requires offset < |content|
      modifies this
      ensures ok <==> ParseMembers(content, old(offset), old(depth)).Parsed?
      ensures ok ==> Parsed(members, offset + 1) == ParseMembers(content, old(offset), old(depth)) && depth == old(depth)
      decreases Left(content, offset), 1, 0
    {
      hide ParseMember, ParseMembers, SkipWhitespace, PrependItems, Sees;
      ghost var all := ParseMembers(content, offset, depth);
      members := [];
      PrependNone(all);
      while true
        invariant old(offset) <= offset < |content| && depth == old(depth)
        invariant all == PrependItems(members, ParseMembers(content, offset, depth))
        decreases |content| - offset
      {
        MembersTurn(content, offset, depth, members);
        var parsed, member := MemberValue();
        if !parsed {
          return false, members;
        }
        Skip();
        members := members + [member];
        if !Sees(content, offset, ',') {
          return Sees(content, offset, '}'), members;
        }
      }
    }

    /** A turn of the loop of parse_object up to the value. */
    method MemberValue() returns (ok: bool, member: Member)
      requires offset < |content|
      modifies this
      ensures ok <==> ParseMember(content, old(offset), old(depth)).Parsed?
      ensures ok ==> Parsed(member, offset) == ParseMember(content, old(offset), old(depth)) && depth == old(depth)
      decreases Left(content, offset), 0
    {
      hide ParseValue, ParseLiteral, SkipWhitespace;
      member := Member("", Invalid);
      offset := offset + 1;
      Skip();
      var r := ParseString(content, offset);
      if r.BadLiteral? {
        return false, member;
      }
      offset := r.next;
      Skip();
      if !Sees(content, offset, ':') {
        return false, member;
      }
      offset := offset + 1;
      Skip();
      var parsed, value := Value();
      return parsed, Member(r.value, value);
    }

    /** cJSON_ParseWithLengthOpts on a fresh buffer; parsing anything leaves the depth at 0. */
    method Parse(requireNullTerminated: bool) returns (r: Parsed<Json>)
      requires offset == 0 && depth == 0
      modifies this
      ensures r == ParseBuffer(content, requireNullTerminated)
      ensures r.Parsed? ==> depth == 0
    {
      if |content| == 0 {
        return Failed;
      }
      offset := SkipBom(content);
      Skip();
      var ok, item := Value();
      if !ok {
        return Failed;
      }
      if requireNullTerminated {
        Skip();
        if !Sees(content, offset, NUL) {
          return Failed;
        }
      }
      return Parsed(item, offset);
    }
  }

  function PrependItems<T>(done: seq<T>, r: Parsed<seq<T>>): Parsed<seq<T>> {
    match r case Failed => Failed case Parsed(items, end) => Parsed(done + items, end)
  }

  lemma PrependNone<T>(r: Parsed<seq<T>>)
    ensures PrependItems([], r) == r
  {
    if r.Parsed? {
      assert [] + r.value == r.value;
    }
  }

  lemma PrependMore<T>(done: seq<T>, x: T, r: Parsed<seq<T>>)
    ensures PrependItems(done, PrependItems([x], r)) == PrependItems(done + [x], r)
  {
    if r.Parsed? {
      assert done + ([x] + r.value) == (done + [x]) + r.value;
    }
  }

  /** A turn of the loop of parse_array when some elements have been read. */
  lemma ElementsTurn(s: string, offset: nat, depth: nat, done: seq<Json>)
    requires offset < |s|
    ensures var all := PrependItems(done, ParseElements(s, offset, depth));
            match ParseValue(s, SkipWhitespace(s, offset + 1), depth)
            case Failed => all.Failed?
            case Parsed(item, after) =>
              var next := SkipWhitespace(s, after);
              if Sees(s, next, ',') then
                next < |s| && offset < next && all == PrependItems(done + [item], ParseElements(s, next, depth))
              else all == if Sees(s, next, ']') then Parsed(done + [item], next + 1) else Failed
  {
    var v := ParseValue(s, SkipWhitespace(s, offset + 1), depth);
    hide ParseValue;
    if v.Parsed? && Sees(s, SkipWhitespace(s, v.offset), ',') {
      PrependMore(done, v.value, ParseElements(s, SkipWhitespace(s, v.offset), depth));
    }
  }

  lemma MembersTurn(s: string, offset: nat, depth: nat, done: seq<Member>)
    requires offset < |s|
    ensures var all := PrependItems(done, ParseMembers(s, offset, depth));
            match ParseMember(s, offset, depth)
            case Failed => all.Failed?
            case Parsed(member, after) =>
              var next := SkipWhitespace(s, after);
              if Sees(s, next, ',') then
                next < |s| && offset < next && all == PrependItems(done + [member], ParseMembers(s, next, depth))
              else all == if Sees(s, next, '}') then Parsed(done + [member], next + 1) else Failed
  {
    var v := ParseMember(s, offset, depth);
    hide ParseMember;
    if v.Parsed? && Sees(s, SkipWhitespace(s, v.offset), ',') {
      PrependMore(done, v.value, ParseMembers(s, SkipWhitespace(s, v.offset), depth));
    }
  }
}
