/** String literals of cJSON: the two passes of parse_string, UTF-16 escapes, and print_string_ptr. */
module StringCodec {
  import opened Text

  // ----- UTF-8 (section 3 of RFC 3629) -----

  function Byte(n: nat): char
    requires n < 256
  {
    n as char
  }

  /** The bytes that the encoding loop of utf16_literal_to_utf8 writes, last byte first. */
  function Utf8(codepoint: nat): (bytes: string)
    requires codepoint <= 0x10FFFF
    ensures 1 <= |bytes| <= 4
    ensures |bytes| == 4 <==> codepoint >= 0x10000
  {
    if codepoint < 0x80 then [Byte(codepoint)]
    else if codepoint < 0x800 then [Byte(0xC0 + codepoint / 64), Byte(0x80 + codepoint % 64)]
    else if codepoint < 0x10000 then
      [Byte(0xE0 + codepoint / 64 / 64), Byte(0x80 + codepoint / 64 % 64), Byte(0x80 + codepoint % 64)]
    else
      [Byte(0xF0 + codepoint / 64 / 64 / 64), Byte(0x80 + codepoint / 64 / 64 % 64),
       Byte(0x80 + codepoint / 64 % 64), Byte(0x80 + codepoint % 64)]
  }

  predicate Continuation(b: char) { 0x80 <= b as int < 0xC0 }

  /** The table of RFC 3629 read backwards: one character with no overlong form, no surrogate and no value
      above 10FFFF. */
  function DecodeUtf8(bytes: string): Option<nat> {
    if |bytes| == 1 && bytes[0] as int < 0x80 then Some(bytes[0] as int)
    else if |bytes| == 2 && 0xC2 <= bytes[0] as int < 0xE0 && Continuation(bytes[1]) then
      Some((bytes[0] as int - 0xC0) * 64 + (bytes[1] as int - 0x80))
    else if |bytes| == 3 && 0xE0 <= bytes[0] as int < 0xF0 && Continuation(bytes[1]) && Continuation(bytes[2]) then
      var c := (bytes[0] as int - 0xE0) * 4096 + (bytes[1] as int - 0x80) * 64 + (bytes[2] as int - 0x80);
      if c < 0x800 || 0xD800 <= c < 0xE000 then None else Some(c)
    else if |bytes| == 4 && 0xF0 <= bytes[0] as int < 0xF5
            && Continuation(bytes[1]) && Continuation(bytes[2]) && Continuation(bytes[3]) then
      var c := (bytes[0] as int - 0xF0) * 262144 + (bytes[1] as int - 0x80) * 4096
               + (bytes[2] as int - 0x80) * 64 + (bytes[3] as int - 0x80);
      if c < 0x10000 || c > 0x10FFFF then None else Some(c)
    else None
  }

  /** Every code point that is not a surrogate is encoded as RFC 3629 wants. */
  lemma Utf8RoundTrip(codepoint: nat)
    requires codepoint <= 0x10FFFF && !(0xD800 <= codepoint < 0xE000)
    ensures DecodeUtf8(Utf8(codepoint)) == Some(codepoint)
  {
    var (a, b, c) := (codepoint / 64, codepoint / 64 / 64, codepoint / 64 / 64 / 64);
    assert codepoint == a * 64 + codepoint % 64;
    assert a == b * 64 + a % 64;
    assert b == c * 64 + b % 64;
  }

  /** The shifts and masks of the source are this arithmetic. */
  lemma BitForms(b: bv32, first: bv32, second: bv32)
    ensures ((b | 0x80) & 0xBF) == 0x80 + b % 64
    ensures b >> 6 == b / 64
    ensures b < 32 ==> (b | 0xC0) & 0xFF == 0xC0 + b
    ensures b < 16 ==> (b | 0xE0) & 0xFF == 0xE0 + b
    ensures b < 8 ==> (b | 0xF0) & 0xFF == 0xF0 + b
    ensures b < 0x80 ==> b & 0x7F == b
    ensures 0x10000 + (((first & 0x3FF) << 10) | (second & 0x3FF)) == 0x10000 + (first % 0x400) * 0x400 + second % 0x400
  {
  }

  // ----- hexadecimal digits -----

  predicate IsHex(c: char) { '0' <= c <= '9' || 'A' <= c <= 'F' || 'a' <= c <= 'f' }

  function HexValue(c: char): (v: nat)
    requires IsHex(c)
    ensures v < 16
  {
    if c <= '9' then c as int - '0' as int
    else if c <= 'F' then 10 + c as int - 'A' as int
    else 10 + c as int - 'a' as int
  }

  const UPPER_DIGITS: string := "0123456789ABCDEF"
  const LOWER_DIGITS: string := "0123456789abcdef"

  /** The hexadecimal digits are those of the two rows, and their place in the row is their value. */
  lemma HexDigits(c: char, n: nat)
    requires n < 16
    ensures IsHex(c) <==> c in UPPER_DIGITS || c in LOWER_DIGITS
    ensures IsHex(c) ==> (HexValue(c) == n <==> c == UPPER_DIGITS[n] || c == LOWER_DIGITS[n])
  {
    if IsHex(c) {
      assert UPPER_DIGITS[HexValue(c)] == c || LOWER_DIGITS[HexValue(c)] == c;
    }
  }

  predicate AllHex(s: string) {
    forall i :: 0 <= i < |s| ==> IsHex(s[i])
  }

  /** The number a run of hexadecimal digits stands for. */
  function HexNumber(s: string): nat
    requires AllHex(s)
  {
    if s == "" then 0 else HexNumber(s[..|s| - 1]) * 16 + HexValue(s[|s| - 1])
  }

  lemma HexNumber4(s: string)
    requires |s| == 4 && AllHex(s)
    ensures HexNumber(s) < 0x10000
    ensures HexNumber(s) == ((HexValue(s[0]) * 16 + HexValue(s[1])) * 16 + HexValue(s[2])) * 16 + HexValue(s[3])
  {
    assert s[..3][..2] == s[..2] && s[..2][..1] == s[..1] && s[..1][..0] == "";
    assert HexNumber(s[..1]) == HexValue(s[0]);
    assert HexNumber(s[..2]) == HexNumber(s[..1]) * 16 + HexValue(s[1]);
    assert HexNumber(s[..3]) == HexNumber(s[..2]) * 16 + HexValue(s[2]);
  }

  /** parse_hex4: the value of four hexadecimal digits, or 0 when one of them is something else. */
  function Hex4(s: string, i: nat): (h: nat)
    requires i + 4 <= |s|
    ensures h < 0x10000
  {
    var digits := s[i..i + 4];
    if AllHex(digits) then HexNumber4(digits); HexNumber(digits) else 0
  }

  method ParseHex4(s: string, start: nat) returns (h: nat)
    requires start + 4 <= |s|
    ensures h == Hex4(s, start)
  {
    h := 0;
    for i := 0 to 4
      invariant AllHex(s[start..start + i])
      invariant h == HexNumber(s[start..start + i]) * (if i < 4 then 16 else 1)
    {
      if !IsHex(s[start + i]) {
        assert s[start..start + 4][i] == s[start + i];
        return 0;
      }
      ghost var (seen, next) := (s[start..start + i], s[start..start + i + 1]);
      assert next == seen + [s[start + i]] && next[..i] == seen;
      h := h + HexValue(s[start + i]);
      if i < 3 {
        h := h * 16;
      }
    }
  }

  // ----- the first pass: finding the closing quote -----

  /** The position of the closing quote, skipping the character after every backslash. */
  function ScanLiteral(s: string, i: nat): (r: Option<nat>)
    ensures r.Some? ==> i <= r.value < |s| && s[r.value] == '"'
    decreases |s| - i
  {
    if i >= |s| then None
    else if s[i] == '"' then Some(i)
    else if s[i] == '\\' then if i + 1 >= |s| then None else ScanLiteral(s, i + 2)
    else ScanLiteral(s, i + 1)
  }

  /** How many backslashes before position p the first pass takes for the start of an escape. */
  function Leads(s: string, i: nat, p: nat): nat
    decreases p - i
  {
    if i >= p || i >= |s| then 0
    else if s[i] == '\\' then 1 + Leads(s, i + 2, p)
    else Leads(s, i + 1, p)
  }

  /** An ordinary character is no lead, and of two neighbours at most one is. */
  lemma {:induction false} LeadsStep(s: string, i: nat, p: nat)
    requires i <= p
    ensures Leads(s, i, p) <= Leads(s, i, p + 1) <= Leads(s, i, p) + 1
    ensures Leads(s, i, p + 1) > Leads(s, i, p) ==> p < |s| && s[p] == '\\' && Leads(s, i, p + 2) == Leads(s, i, p + 1)
    decreases p - i
  {
    if i < p && i < |s| {
      if s[i] == '\\' {
        if i + 2 <= p {
          LeadsStep(s, i + 2, p);
        }
      } else {
        LeadsStep(s, i + 1, p);
      }
    }
  }

  /** The room that the first pass has counted up to position p. */
  function Budget(s: string, start: nat, p: nat): int {
    p - start - Leads(s, start, p)
  }

  lemma {:induction false} BudgetPairs(s: string, start: nat, p: nat, n: nat)
    requires start <= p
    ensures Budget(s, start, p + 2 * n) >= Budget(s, start, p) + n
    decreases n
  {
    if n > 0 {
      LeadsStep(s, start, p);
      LeadsStep(s, start, p + 1);
      BudgetPairs(s, start, p + 2, n - 1);
    }
  }

  lemma {:induction false} BudgetGrows(s: string, start: nat, p: nat, q: nat)
    requires start <= p <= q
    ensures Budget(s, start, p) <= Budget(s, start, q)
    decreases q - p
  {
    if p < q {
      LeadsStep(s, start, p);
      BudgetGrows(s, start, p + 1, q);
    }
  }

  // ----- the second pass: decoding -----

  /** What one turn of the loop writes and how far it moves on. */
  datatype Piece = BadPiece | Piece(bytes: string, length: nat)

  /** utf16_literal_to_utf8 at position p of the literal that ends at "end". */
  function DecodeUtf16(s: string, p: nat, end: nat): (r: Piece)
    requires p <= end <= |s|
    ensures r.Piece? ==> (r.length == 6 && 1 <= |r.bytes| <= 3) || (r.length == 12 && |r.bytes| == 4)
    ensures r.Piece? ==> p + r.length <= end
  {
    if end - p < 6 then BadPiece
    else
      var first := Hex4(s, p + 2);
      if 0xDC00 <= first <= 0xDFFF then BadPiece
      else if 0xD800 <= first <= 0xDBFF then
        if end - (p + 6) < 6 then BadPiece
        else if s[p + 6] != '\\' || s[p + 7] != 'u' then BadPiece
        else
          var second := Hex4(s, p + 8);
          if second < 0xDC00 || second > 0xDFFF then BadPiece
          else Piece(Utf8(0x10000 + (first % 0x400) * 0x400 + second % 0x400), 12)
      else Piece(Utf8(first), 6)
  }

  /** The character that a two-character escape stands for. */
  function Unescape(c: char): Option<char> {
    if c == 'b' then Some(8 as char)
    else if c == 'f' then Some(12 as char)
    else if c == 'n' then Some('\n')
    else if c == 'r' then Some('\r')
    else if c == 't' then Some('\t')
    else if c == '"' || c == '\\' || c == '/' then Some(c)
    else None
  }

  /** One turn of the loop of the second pass. */
  function NextPiece(s: string, p: nat, end: nat): (r: Piece)
    requires p < end < |s|
    ensures r.Piece? ==> r.length > 0 && p + r.length <= end + 1
  {
    if s[p] != '\\' then Piece([s[p]], 1)
    else if s[p + 1] == 'u' then DecodeUtf16(s, p, end)
    else
      match Unescape(s[p + 1])
      case None => BadPiece
      case Some(c) => Piece([c], 2)
  }

  /** The output of the second pass from position p on. */
  function DecodeLiteral(s: string, p: nat, end: nat): Option<string>
    requires end < |s|
    decreases end - p
  {
    if p >= end then Some("")
    else
      match NextPiece(s, p, end)
      case BadPiece => None
      case Piece(bytes, length) => Prepend(bytes, DecodeLiteral(s, p + length, end))
  }

  /** What a turn writes is within the room that the first pass counted for the characters it consumes. */
  lemma PieceFits(s: string, start: nat, p: nat, end: nat)
    requires start <= p < end < |s|
    ensures var r := NextPiece(s, p, end);
            r.Piece? ==> Budget(s, start, p) + |r.bytes| <= Budget(s, start, p + r.length)
  {
    var r := NextPiece(s, p, end);
    if r.Piece? {
      LeadsStep(s, start, p);
      BudgetPairs(s, start, p, r.length / 2);
    }
  }

  function Prepend(a: string, r: Option<string>): Option<string> {
    match r case None => None case Some(b) => Some(a + b)
  }

  /** The C string in a buffer: what comes before the first zero. */
  function CString(s: string): (r: string)
    ensures NUL !in s ==> r == s
  {
    if s == "" || s[0] == NUL then "" else [s[0]] + CString(s[1..])
  }

  /** It ends in front of a zero, or with the buffer. */
  lemma {:induction false} CStringIs(s: string)
    ensures CString(s) <= s && NUL !in CString(s) && (|CString(s)| < |s| ==> s[|CString(s)|] == NUL)
  {
    if s != "" && s[0] != NUL {
      CStringIs(s[1..]);
      assert s == [s[0]] + s[1..];
    }
  }

  /** parse_string on the literal whose opening quote is at "offset": its characters and the position after
      the closing quote. */
  datatype Literal = BadLiteral | Literal(value: string, next: nat)

  function ParseLiteral(s: string, offset: nat): (r: Literal)
    ensures r.Literal? ==> offset + 1 < r.next <= |s|
  {
    if offset >= |s| || s[offset] != '"' then BadLiteral
    else
      match ScanLiteral(s, offset + 1)
      case None => BadLiteral
      case Some(end) =>
        (match DecodeLiteral(s, offset + 1, end)
         case None => BadLiteral
         case Some(bytes) => Literal(CString(bytes), end + 1))
  }

  /** parse_string. The output buffer has the size that the first pass computes; that no write leaves it is
      checked at every assignment, also where the two passes align escapes differently. */
  method ParseString(s: string, offset: nat) returns (r: Literal)
    ensures r == ParseLiteral(s, offset)
  {
    if offset >= |s| || s[offset] != '"' {
      return BadLiteral;
    }
    var start := offset + 1;
    var end, skipped := FirstPass(s, start);
    if end.None? {
      return BadLiteral;
    }
    var allocationLength := end.value - offset - skipped;
    BudgetGrows(s, start, start, end.value);
    var output := new char[allocationLength + 1];
    var ok, written := SecondPass(s, start, end.value, output);
    if !ok {
      return BadLiteral;
    }
    output[written] := NUL;
    var value := ReadCString(output, written);
    return Literal(value, end.value + 1);
  }

  method FirstPass(s: string, start: nat) returns (end: Option<nat>, skipped: nat)
    ensures end == ScanLiteral(s, start)
    ensures end.Some? ==> skipped == Leads(s, start, end.value)
  {
    var e: nat := start;
    skipped := 0;
    while e < |s| && s[e] != '"'
      invariant start <= e && ScanLiteral(s, start) == ScanLiteral(s, e)
      invariant forall p :: e <= p ==> Leads(s, start, p) == skipped + Leads(s, e, p)
      decreases |s| - e
    {
      if s[e] == '\\' {
        if e + 1 >= |s| {
          return None, skipped;
        }
        skipped := skipped + 1;
        e := e + 1;
      }
      e := e + 1;
    }
    if e >= |s| {
      return None, skipped;
    }
    return Some(e), skipped;
  }

  /** The second pass stays within the budget of the first, whatever the input. */
  method SecondPass(s: string, start: nat, end: nat, output: array<char>) returns (ok: bool, written: nat)
    requires start <= end < |s|
    requires output.Length == Budget(s, start, end) + 2
    modifies output
    ensures ok <==> DecodeLiteral(s, start, end).Some?
    ensures ok ==> written < output.Length && DecodeLiteral(s, start, end) == Some(output[..written])
  {
    var p := start;
    written := 0;
    hide *;
    BudgetBounds(s, start, end);
    NothingWritten(output[..0], DecodeLiteral(s, start, end));
    ok := true;
    while p < end
      invariant start <= p <= end + 1
      invariant written <= Budget(s, start, p) <= Budget(s, start, end) + 1
      invariant DecodeLiteral(s, start, end) == Prepend(output[..written], DecodeLiteral(s, p, end))
      decreases end - p
    {
      ok, p, written := DecodeOne(s, start, p, end, output, written);
      if !ok {
        return;
      }
    }
    DecodedAll(s, p, end, output[..written]);
  }

  /** A turn of the loop of the second pass. */
  method DecodeOne(s: string, start: nat, p: nat, end: nat, output: array<char>, written: nat) returns (ok: bool, next: nat, written': nat)
    requires start <= p < end < |s| && output.Length == Budget(s, start, end) + 2
    requires written <= Budget(s, start, p) <= Budget(s, start, end) + 1 && Budget(s, start, end + 1) <= Budget(s, start, end) + 1
    modifies output
    ensures ok ==> p < next <= end + 1 && written' <= Budget(s, start, next) <= Budget(s, start, end) + 1
    ensures old(Prepend(output[..written], DecodeLiteral(s, p, end)))
            == if ok then Prepend(output[..written'], DecodeLiteral(s, next, end)) else None
  {
    hide *;
    var piece := NextPiece(s, p, end);
    DecodeTurn(s, p, end, output[..written]);
    if piece.BadPiece? {
      return false, p, written;
    }
    next, written' := p + piece.length, written + |piece.bytes|;
    PieceFits(s, start, p, end);
    BudgetGrows(s, start, next, end + 1);
    WriteBytes(output, written, piece.bytes);
    ok := true;
  }

  lemma NothingWritten(before: string, r: Option<string>)
    requires before == ""
    ensures Prepend(before, r) == r
  {
    PrependEmpty(r);
  }

  lemma BudgetBounds(s: string, start: nat, end: nat)
    requires start <= end
    ensures 0 == Budget(s, start, start) <= Budget(s, start, end) <= Budget(s, start, end + 1) <= Budget(s, start, end) + 1
  {
    BudgetGrows(s, start, start, end);
    LeadsStep(s, start, end);
  }

  /** A turn of the second pass, after "done" has been written. */
  lemma DecodeTurn(s: string, p: nat, end: nat, done: string)
    requires p < end < |s|
    ensures var piece := NextPiece(s, p, end);
            Prepend(done, DecodeLiteral(s, p, end))
            == match piece case BadPiece => None case Piece(bytes, length) => Prepend(done + bytes, DecodeLiteral(s, p + length, end))
  {
    var piece := NextPiece(s, p, end);
    if piece.Piece? {
      PrependStep(done, piece.bytes, DecodeLiteral(s, p + piece.length, end));
    }
    hide NextPiece;
  }

  lemma PrependEmpty(r: Option<string>)
    ensures Prepend("", r) == r
  {
    if r.Some? {
      assert "" + r.value == r.value;
    }
  }

  lemma PrependStep(a: string, b: string, r: Option<string>)
    ensures Prepend(a, Prepend(b, r)) == Prepend(a + b, r)
  {
    if r.Some? {
      assert a + (b + r.value) == (a + b) + r.value;
    }
  }

  method WriteBytes(output: array<char>, at: nat, bytes: string)
    requires at + |bytes| <= output.Length
    modifies output
    ensures output[..at + |bytes|] == old(output[..at]) + bytes
  {
    for i := 0 to |bytes|
      invariant output[..at + i] == old(output[..at]) + bytes[..i]
    {
      output[at + i] := bytes[i];
    }
    assert bytes[..|bytes|] == bytes;
  }

  method ReadCString(buffer: array<char>, n: nat) returns (r: string)
    requires n < buffer.Length && buffer[n] == NUL
    ensures r == CString(buffer[..n])
  {
    var i := 0;
    r := "";
    ghost var text := buffer[..n];
    assert text[0..] == text && [] + CString(text) == CString(text);
    hide CString;
    while buffer[i] != NUL
      invariant i <= n
      invariant CString(text) == r + CString(text[i..])
      decreases n - i
    {
      CStringTurn(text, i, r);
      r := r + [buffer[i]];
      i := i + 1;
    }
    CStringEnd(text, i);
  }

  lemma CStringTurn(s: string, i: nat, before: string)
    requires i < |s| && s[i] != NUL
    ensures before + CString(s[i..]) == (before + [s[i]]) + CString(s[i + 1..])
  {
    hide CString;
    CStringStep(s, i);
    AppendAssociative(before, [s[i]], CString(s[i + 1..]));
  }

  lemma CStringEnd(s: string, i: nat)
    requires i <= |s| && (i < |s| ==> s[i] == NUL)
    ensures CString(s[i..]) == ""
  {
  }

  lemma CStringStep(s: string, i: nat)
    requires i < |s| && s[i] != NUL
    ensures CString(s[i..]) == [s[i]] + CString(s[i + 1..])
  {
    assert s[i..][1..] == s[i + 1..];
  }

  // ----- well-formed literals (section 7 of RFC 8259) -----

  /** One character of a literal: plain, a two-character escape, a \\u escape, or a surrogate pair of them. */
  datatype Escape =
    | Plain(c: char)
    | Short(c: char)
    | Unit(hex: string)
    | Pair(high: string, low: string)

  /** The two-character escapes of section 7 of RFC 8259: what follows the backslash, and the character it stands for. */
  const SHORT_ESCAPES: map<char, char> :=
    map['"' := 0x22 as char, '\\' := 0x5C as char, '/' := 0x2F as char, 'b' := 0x08 as char,
        'f' := 0x0C as char, 'n' := 0x0A as char, 'r' := 0x0D as char, 't' := 0x09 as char]

  predicate ValidEscape(e: Escape) {
    match e
    case Plain(c) => c != '"' && c != '\\'
    case Short(c) => c in SHORT_ESCAPES
    case Unit(hex) => |hex| == 4 && AllHex(hex) && !(0xD800 <= HexNumber(hex) < 0xE000)
    case Pair(high, low) =>
      && |high| == 4 && AllHex(high) && 0xD800 <= HexNumber(high) < 0xDC00
      && |low| == 4 && AllHex(low) && 0xDC00 <= HexNumber(low) < 0xE000
  }

  function UnitText(hex: string): string { ['\\', 'u'] + hex }

  function EscapeText(e: Escape): string {
    match e
    case Plain(c) => [c]
    case Short(c) => ['\\', c]
    case Unit(hex) => UnitText(hex)
    case Pair(high, low) => UnitText(high) + UnitText(low)
  }

  /** The code point of an escape, surrogate pairs joined. */
  function CodePoint(e: Escape): nat
    requires ValidEscape(e) && (e.Unit? || e.Pair?)
  {
    match e
    case Unit(hex) => HexNumber(hex)
    case Pair(high, low) => 0x10000 + (HexNumber(high) - 0xD800) * 0x400 + (HexNumber(low) - 0xDC00)
  }

  function EscapeBytes(e: Escape): string
    requires ValidEscape(e)
  {
    match e
    case Plain(c) => [c]
    case Short(c) => [SHORT_ESCAPES[c]]
    case Unit(hex) => HexNumber4(hex); Utf8(CodePoint(e))
    case Pair(high, low) => Utf8(CodePoint(e))
  }

  predicate ValidEscapes(es: seq<Escape>) {
    forall i :: 0 <= i < |es| ==> ValidEscape(es[i])
  }

  lemma ValidTail(es: seq<Escape>)
    requires ValidEscapes(es) && es != []
    ensures ValidEscape(es[0]) && ValidEscapes(es[1..])
  {
    hide ValidEscape;
  }

  function LiteralText(es: seq<Escape>): string {
    if es == [] then "" else EscapeText(es[0]) + LiteralText(es[1..])
  }

  function LiteralBytes(es: seq<Escape>): string
    requires ValidEscapes(es)
  {
    if es == [] then "" else EscapeBytes(es[0]) + LiteralBytes(es[1..])
  }

  /** The text stands in s at position i. */
  predicate TextAt(s: string, i: nat, text: string) {
    i + |text| <= |s| && s[i..i + |text|] == text
  }

  lemma TextAtParts(s: string, i: nat, a: string, b: string)
    ensures TextAt(s, i, a + b) <==> TextAt(s, i, a) && TextAt(s, i + |a|, b)
  {
    if i + |a| + |b| <= |s| {
      var t := s[i..i + |a| + |b|];
      assert t[..|a|] == s[i..i + |a|] && t[|a|..] == s[i + |a|..i + |a| + |b|];
      assert t == t[..|a|] + t[|a|..];
      assert (a + b)[..|a|] == a && (a + b)[|a|..] == b;
    }
  }

  lemma TextAtChar(s: string, i: nat, text: string, k: nat)
    requires TextAt(s, i, text) && k < |text|
    ensures i + k < |s| && s[i + k] == text[k]
  {
    assert s[i..i + |text|][k] == s[i + k];
  }

  lemma Hex4At(s: string, i: nat, hex: string)
    requires TextAt(s, i, hex) && |hex| == 4 && AllHex(hex)
    ensures Hex4(s, i) == HexNumber(hex)
  {
  }

  /** The first pass steps over a well-formed character. */
  lemma ScanOver(s: string, i: nat, e: Escape)
    requires ValidEscape(e) && TextAt(s, i, EscapeText(e))
    ensures ScanLiteral(s, i) == ScanLiteral(s, i + |EscapeText(e)|)
  {
    match e {
      case Plain(c) => TextAtChar(s, i, EscapeText(e), 0);
      case Short(c) => TextAtChar(s, i, EscapeText(e), 0);
      case Unit(hex) => ScanOverUnit(s, i, hex);
      case Pair(high, low) =>
        TextAtParts(s, i, UnitText(high), UnitText(low));
        ScanOverUnit(s, i, high);
        ScanOverUnit(s, i + 6, low);
    }
  }

  lemma ScanOverUnit(s: string, i: nat, hex: string)
    requires |hex| == 4 && AllHex(hex) && TextAt(s, i, UnitText(hex))
    ensures ScanLiteral(s, i) == ScanLiteral(s, i + 6)
  {
    var text := UnitText(hex);
    TextAtChar(s, i, text, 0);
    TextAtChar(s, i, text, 2);
    TextAtChar(s, i, text, 3);
    TextAtChar(s, i, text, 4);
    TextAtChar(s, i, text, 5);
    assert text[2] == hex[0] && text[3] == hex[1] && text[4] == hex[2] && text[5] == hex[3];
    assert IsHex(s[i + 2]) && IsHex(s[i + 3]) && IsHex(s[i + 4]) && IsHex(s[i + 5]);
    assert ScanLiteral(s, i) == ScanLiteral(s, i + 2);
    assert ScanLiteral(s, i + 2) == ScanLiteral(s, i + 3);
    assert ScanLiteral(s, i + 3) == ScanLiteral(s, i + 4);
    assert ScanLiteral(s, i + 4) == ScanLiteral(s, i + 5);
  }

  /** The decoder knows the escapes of the table and no others. */
  lemma UnescapeExact(c: char)
    ensures Unescape(c) == if c in SHORT_ESCAPES then Some(SHORT_ESCAPES[c]) else None
  {
  }

  /** The second pass decodes a well-formed character. */
  lemma PieceOf(s: string, i: nat, end: nat, e: Escape)
    requires ValidEscape(e) && TextAt(s, i, EscapeText(e)) && i + |EscapeText(e)| <= end < |s|
    ensures NextPiece(s, i, end) == Piece(EscapeBytes(e), |EscapeText(e)|)
  {
    TextAtChar(s, i, EscapeText(e), 0);
    match e {
      case Plain(c) =>
      case Short(c) =>
        TextAtChar(s, i, EscapeText(e), 1);
        UnescapeExact(c);
      case Unit(hex) =>
        TextAtChar(s, i, EscapeText(e), 1);
        TextAtParts(s, i, ['\\', 'u'], hex);
        Hex4At(s, i + 2, hex);
      case Pair(high, low) => PieceOfPair(s, i, end, high, low);
    }
  }

  /** Where the parts of an escaped unit stand. */
  lemma UnitParts(s: string, i: nat, hex: string)
    requires |hex| == 4 && AllHex(hex) && TextAt(s, i, UnitText(hex))
    ensures i + 6 <= |s| && s[i] == '\\' && s[i + 1] == 'u' && Hex4(s, i + 2) == HexNumber(hex)
  {
    TextAtParts(s, i, ['\\', 'u'], hex);
    TextAtChar(s, i, ['\\', 'u'], 0);
    TextAtChar(s, i, ['\\', 'u'], 1);
    hide TextAt, HexNumber;
    Hex4At(s, i + 2, hex);
  }

  /** Where the parts of a surrogate pair stand. */
  lemma PairParts(s: string, i: nat, high: string, low: string)
    requires ValidEscape(Pair(high, low)) && TextAt(s, i, UnitText(high) + UnitText(low))
    ensures i + 12 <= |s|
    ensures s[i] == '\\' && s[i + 1] == 'u' && s[i + 6] == '\\' && s[i + 7] == 'u'
    ensures Hex4(s, i + 2) == HexNumber(high) && Hex4(s, i + 8) == HexNumber(low)
  {
    assert |high| == 4 && AllHex(high) && |low| == 4 && AllHex(low) && |UnitText(high)| == 6;
    hide *;
    TextAtParts(s, i, UnitText(high), UnitText(low));
    UnitParts(s, i, high);
    UnitParts(s, i + 6, low);
  }

  lemma DecodeUtf16Pair(s: string, i: nat, end: nat, f: nat, g: nat)
    requires i + 12 <= end < |s| && s[i + 6] == '\\' && s[i + 7] == 'u'
    requires Hex4(s, i + 2) == f && 0xD800 <= f < 0xDC00
    requires Hex4(s, i + 8) == g && 0xDC00 <= g < 0xE000
    ensures DecodeUtf16(s, i, end) == Piece(Utf8(0x10000 + (f - 0xD800) * 0x400 + (g - 0xDC00)), 12)
  {
    hide Hex4, Utf8;
    assert f % 0x400 == f - 0xD800 && g % 0x400 == g - 0xDC00;
  }

  lemma PieceOfPair(s: string, i: nat, end: nat, high: string, low: string)
    requires ValidEscape(Pair(high, low)) && TextAt(s, i, UnitText(high) + UnitText(low)) && i + 12 <= end < |s|
    ensures NextPiece(s, i, end) == Piece(EscapeBytes(Pair(high, low)), 12)
  {
    var (f, g) := (HexNumber(high), HexNumber(low));
    assert 0xD800 <= f < 0xDC00 && 0xDC00 <= g < 0xE000;
    assert EscapeBytes(Pair(high, low)) == Utf8(0x10000 + (f - 0xD800) * 0x400 + (g - 0xDC00));
    hide *;
    PairParts(s, i, high, low);
    DecodeUtf16Pair(s, i, end, f, g);
    UnitPiece(s, i, end);
  }

  lemma UnitPiece(s: string, p: nat, end: nat)
    requires p < end < |s| && s[p] == '\\' && s[p + 1] == 'u'
    ensures NextPiece(s, p, end) == DecodeUtf16(s, p, end)
  {
    hide DecodeUtf16;
  }

  lemma LiteralTextCons(es: seq<Escape>)
    requires es != []
    ensures LiteralText(es) == EscapeText(es[0]) + LiteralText(es[1..])
  {
  }

  lemma ScanAtQuote(s: string, i: nat)
    requires i < |s| && s[i] == '"'
    ensures ScanLiteral(s, i) == Some(i)
  {
  }

  lemma NoEscapes()
    ensures LiteralText([]) == "" && LiteralBytes([]) == ""
  {
  }

  /** The first pass steps over well-formed characters. */
  lemma {:induction false} ScanWellFormed(s: string, i: nat, es: seq<Escape>)
    requires ValidEscapes(es) && TextAt(s, i, LiteralText(es))
    ensures ScanLiteral(s, i) == ScanLiteral(s, i + |LiteralText(es)|)
    decreases |es|
  {
    hide *;
    if es == [] {
      NoEscapes();
    } else {
      ValidTail(es);
      LiteralTextCons(es);
      TextAtParts(s, i, EscapeText(es[0]), LiteralText(es[1..]));
      ScanOver(s, i, es[0]);
      ScanWellFormed(s, i + |EscapeText(es[0])|, es[1..]);
      assert |LiteralText(es)| == |EscapeText(es[0])| + |LiteralText(es[1..])|;
    }
  }

  lemma DecodeStep(s: string, i: nat, end: nat, e: Escape)
    requires ValidEscape(e) && |EscapeText(e)| > 0 && i + |EscapeText(e)| <= end < |s|
    requires NextPiece(s, i, end) == Piece(EscapeBytes(e), |EscapeText(e)|)
    ensures DecodeLiteral(s, i, end) == Prepend(EscapeBytes(e), DecodeLiteral(s, i + |EscapeText(e)|, end))
  {
    hide NextPiece, EscapeText, EscapeBytes, ValidEscape;
  }

  lemma LiteralBytesCons(es: seq<Escape>)
    requires ValidEscapes(es) && es != []
    ensures |EscapeText(es[0])| > 0
    ensures ValidEscapes(es[1..]) && LiteralBytes(es) == EscapeBytes(es[0]) + LiteralBytes(es[1..])
  {
  }

  /** The second pass decodes well-formed characters, whatever follows. */
  lemma {:induction false} DecodeWellFormed(s: string, i: nat, end: nat, es: seq<Escape>)
    requires ValidEscapes(es)
    requires TextAt(s, i, LiteralText(es)) && i + |LiteralText(es)| <= end < |s|
    ensures DecodeLiteral(s, i, end) == Prepend(LiteralBytes(es), DecodeLiteral(s, i + |LiteralText(es)|, end))
    decreases |es|
  {
    hide *;
    if es == [] {
      NoEscapes();
      PrependEmpty(DecodeLiteral(s, i, end));
    } else {
      ValidTail(es);
      LiteralTextCons(es);
      LiteralBytesCons(es);
      TextAtParts(s, i, EscapeText(es[0]), LiteralText(es[1..]));
      assert |LiteralText(es)| == |EscapeText(es[0])| + |LiteralText(es[1..])|;
      PieceOf(s, i, end, es[0]);
      DecodeStep(s, i, end, es[0]);
      DecodeWellFormed(s, i + |EscapeText(es[0])|, end, es[1..]);
      PrependStep(EscapeBytes(es[0]), LiteralBytes(es[1..]), DecodeLiteral(s, i + |LiteralText(es)|, end));
    }
  }

  function InQuotes(t: string): string {
    "\"" + (t + "\"")
  }

  lemma QuotesAt(s: string, offset: nat, t: string)
    requires TextAt(s, offset, InQuotes(t))
    ensures TextAt(s, offset + 1, t) && offset + 1 + |t| < |s|
    ensures s[offset] == '"' && s[offset + 1 + |t|] == '"'
  {
    TextAtParts(s, offset, "\"", t + "\"");
    TextAtParts(s, offset + 1, t, "\"");
    TextAtChar(s, offset, "\"", 0);
    TextAtChar(s, offset + 1 + |t|, "\"", 0);
  }

  lemma ScanQuoted(s: string, offset: nat, es: seq<Escape>)
    requires ValidEscapes(es) && TextAt(s, offset, InQuotes(LiteralText(es)))
    ensures offset + 1 + |LiteralText(es)| < |s| && s[offset] == '"'
    ensures ScanLiteral(s, offset + 1) == Some(offset + 1 + |LiteralText(es)|)
  {
    hide *;
    QuotesAt(s, offset, LiteralText(es));
    ScanWellFormed(s, offset + 1, es);
    ScanAtQuote(s, offset + 1 + |LiteralText(es)|);
  }

  lemma DecodeQuoted(s: string, offset: nat, es: seq<Escape>)
    requires ValidEscapes(es) && TextAt(s, offset, InQuotes(LiteralText(es)))
    ensures offset + 1 + |LiteralText(es)| < |s|
    ensures DecodeLiteral(s, offset + 1, offset + 1 + |LiteralText(es)|) == Some(LiteralBytes(es))
  {
    hide *;
    QuotesAt(s, offset, LiteralText(es));
    DecodeWellFormed(s, offset + 1, offset + 1 + |LiteralText(es)|, es);
    DecodedAll(s, offset + 1 + |LiteralText(es)|, offset + 1 + |LiteralText(es)|, LiteralBytes(es));
  }

  lemma DecodedAll(s: string, p: nat, end: nat, bytes: string)
    requires end < |s| && p >= end
    ensures Prepend(bytes, DecodeLiteral(s, p, end)) == Some(bytes)
  {
    assert bytes + "" == bytes;
  }

  /** Main result: on every well-formed literal the decoder gives the UTF-8 of its characters, up to the
      first zero, and stops after the closing quote. */
  lemma ParseWellFormed(s: string, offset: nat, es: seq<Escape>)
    requires ValidEscapes(es) && TextAt(s, offset, InQuotes(LiteralText(es)))
    ensures ParseLiteral(s, offset) == Literal(CString(LiteralBytes(es)), offset + |LiteralText(es)| + 2)
  {
    hide *;
    ScanQuoted(s, offset, es);
    DecodeQuoted(s, offset, es);
    ParseIs(s, offset, offset + 1 + |LiteralText(es)|, Some(LiteralBytes(es)));
  }

  lemma ParseIs(s: string, offset: nat, end: nat, bytes: Option<string>)
    requires offset < |s| && s[offset] == '"' && ScanLiteral(s, offset + 1) == Some(end) && end < |s|
    requires DecodeLiteral(s, offset + 1, end) == bytes
    ensures ParseLiteral(s, offset) == match bytes case None => BadLiteral case Some(b) => Literal(CString(b), end + 1)
  {
    hide ScanLiteral, DecodeLiteral, CString;
  }

  // ----- what else is accepted or refused -----

  /** Half a surrogate pair: section 7 of RFC 8259 lets it pass. */
  predicate Surrogate(hex: string) {
    |hex| == 4 && AllHex(hex) && 0xD800 <= HexNumber(hex) < 0xE000
  }

  /** The surrogate at position p is not the first of a pair. */
  predicate Unpaired(s: string, p: nat, hex: string)
    requires Surrogate(hex)
  {
    || HexNumber(hex) >= 0xDC00 || p + 12 > |s| || s[p + 6] != '\\' || s[p + 7] != 'u'
    || !Surrogate(s[p + 8..p + 12]) || HexNumber(s[p + 8..p + 12]) < 0xDC00
  }

  /** A \u escape before the closing quote is accepted exactly when it is no surrogate, or a high one in front of a low one; four
      characters that are not all hexadecimal digits count as code point 0. */
  lemma UnicodeEscapeExact(s: string, p: nat, end: nat)
    requires p + 6 <= end < |s| && s[p] == '\\' && s[p + 1] == 'u'
    ensures var (high, low) := (s[p + 2..p + 6], if p + 12 <= end then s[p + 8..p + 12] else "");
            NextPiece(s, p, end).Piece?
            <==> !Surrogate(high)
                 || (HexNumber(high) < 0xDC00 && p + 12 <= end && s[p + 6] == '\\' && s[p + 7] == 'u'
                     && Surrogate(low) && HexNumber(low) >= 0xDC00)
    ensures !AllHex(s[p + 2..p + 6]) ==> NextPiece(s, p, end) == Piece([NUL], 6)
  {
    hide HexNumber;
  }

  /** A well-formed beginning and then a surrogate that is not the first of a pair: the literal is refused. */
  lemma LoneSurrogateRefused(s: string, offset: nat, es: seq<Escape>, hex: string)
    requires offset < |s| && ValidEscapes(es) && Surrogate(hex)
    requires TextAt(s, offset + 1, LiteralText(es) + UnitText(hex))
    requires Unpaired(s, offset + 1 + |LiteralText(es)|, hex)
    ensures ParseLiteral(s, offset) == BadLiteral
  {
    hide *;
    if ScanLiteral(s, offset + 1).None? || s[offset] != '"' {
      NoLiteral(s, offset);
    } else {
      SurrogateBehind(s, offset + 1, es, hex);
      SurrogateUndecoded(s, offset + 1, ScanLiteral(s, offset + 1).value, es, hex);
      ParseIs(s, offset, ScanLiteral(s, offset + 1).value, None);
    }
  }

  lemma SurrogateBehind(s: string, i: nat, es: seq<Escape>, hex: string)
    requires ValidEscapes(es) && Surrogate(hex) && TextAt(s, i, LiteralText(es) + UnitText(hex)) && ScanLiteral(s, i).Some?
    ensures i + |LiteralText(es)| + 6 <= ScanLiteral(s, i).value < |s|
  {
    hide *;
    SurrogateDigits(hex);
    TextAtParts(s, i, LiteralText(es), UnitText(hex));
    ScanWellFormed(s, i, es);
    ScanOverUnit(s, i + |LiteralText(es)|, hex);
  }

  lemma SurrogateUndecoded(s: string, i: nat, end: nat, es: seq<Escape>, hex: string)
    requires ValidEscapes(es) && Surrogate(hex) && TextAt(s, i, LiteralText(es) + UnitText(hex))
    requires Unpaired(s, i + |LiteralText(es)|, hex) && i + |LiteralText(es)| + 6 <= end < |s|
    ensures DecodeLiteral(s, i, end) == None
  {
    hide *;
    TextAtParts(s, i, LiteralText(es), UnitText(hex));
    LoneSurrogatePiece(s, i + |LiteralText(es)|, end, hex);
    DecodeWellFormed(s, i, end, es);
    NothingDecoded(s, i + |LiteralText(es)|, end, LiteralBytes(es));
  }

  lemma SurrogateDigits(hex: string)
    requires Surrogate(hex)
    ensures |hex| == 4 && AllHex(hex)
  {
  }

  lemma NoLiteral(s: string, offset: nat)
    requires offset < |s| && (s[offset] != '"' || ScanLiteral(s, offset + 1).None?)
    ensures ParseLiteral(s, offset) == BadLiteral
  {
  }

  lemma NothingDecoded(s: string, p: nat, end: nat, before: string)
    requires p < end < |s| && NextPiece(s, p, end) == BadPiece
    ensures Prepend(before, DecodeLiteral(s, p, end)) == None
  {
  }

  lemma LoneSurrogatePiece(s: string, p: nat, end: nat, hex: string)
    requires p + 6 <= end < |s| && Surrogate(hex) && TextAt(s, p, UnitText(hex))
    requires Unpaired(s, p, hex)
    ensures NextPiece(s, p, end) == BadPiece
  {
    TextAtChar(s, p, UnitText(hex), 0);
    TextAtChar(s, p, UnitText(hex), 1);
    TextAtParts(s, p, ['\\', 'u'], hex);
    assert s[p + 2..p + 6] == hex;
    hide HexNumber, TextAt, NextPiece;
    UnicodeEscapeExact(s, p, end);
  }

  // ----- printing (print_string_ptr) -----

  /** The escape with which a character is printed. */
  function PrintedEscape(c: char): Escape {
    if c == '"' || c == '\\' then Short(c)
    else if c == 8 as char then Short('b')
    else if c == 12 as char then Short('f')
    else if c == '\n' then Short('n')
    else if c == '\r' then Short('r')
    else if c == '\t' then Short('t')
    else if c < 32 as char then Unit(['0', '0', HexDigit(c as int / 16), HexDigit(c as int % 16)])
    else Plain(c)
  }

  /** A digit of sprintf "%x". */
  function HexDigit(n: nat): char
    requires n < 16
  {
    if n < 10 then ('0' as int + n) as char else ('a' as int + n - 10) as char
  }

  function PrintedEscapes(s: string): (es: seq<Escape>)
    ensures |es| == |s| && forall i :: 0 <= i < |s| ==> es[i] == PrintedEscape(s[i])
  {
    seq(|s|, i requires 0 <= i < |s| => PrintedEscape(s[i]))
  }

  function Escaped(s: string): string {
    LiteralText(PrintedEscapes(s))
  }

  function Quote(s: string): string {
    InQuotes(Escaped(s))
  }

  lemma PrintedEscapeMeans(c: char)
    ensures ValidEscape(PrintedEscape(c)) && EscapeBytes(PrintedEscape(c)) == [c]
  {
    var e := PrintedEscape(c);
    if e.Unit? {
      var n := c as int;
      HexNumber4(e.hex);
      assert HexValue(HexDigit(n / 16)) == n / 16 && HexValue(HexDigit(n % 16)) == n % 16;
      assert HexNumber(e.hex) == n / 16 * 16 + n % 16 == n;
    }
  }

  /** What section 7 of RFC 8259 allows: control characters are escaped. */
  predicate RfcEscape(e: Escape) {
    ValidEscape(e) && (e.Plain? ==> e.c as int >= 0x20)
  }

  /** A character is printed in the shortest form that the standard allows, with lower-case digits. */
  lemma PrintedShortest(c: char, e: Escape)
    requires RfcEscape(e) && EscapeBytes(e) == [c]
    ensures RfcEscape(PrintedEscape(c)) && EscapeBytes(PrintedEscape(c)) == [c]
    ensures |EscapeText(PrintedEscape(c))| <= |EscapeText(e)|
    ensures PrintedEscape(c).Unit? ==> forall i :: 0 <= i < 4 ==> PrintedEscape(c).hex[i] in LOWER_DIGITS
  {
    PrintedEscapeMeans(c);
    if PrintedEscape(c).Unit? {
      PrintedLower(c);
    }
    assert PrintedEscape(c).Plain? ==> c as int >= 0x20;
    assert e.Plain? ==> e.c == c;
    assert e.Short? ==> SHORT_ESCAPES[e.c] == c;
    hide HexNumber, EscapeBytes, AllHex, HexDigit;
  }

  lemma PrintedLower(c: char)
    requires PrintedEscape(c).Unit?
    ensures |PrintedEscape(c).hex| == 4 && forall i :: 0 <= i < 4 ==> PrintedEscape(c).hex[i] in LOWER_DIGITS
  {
    var n := c as int;
    assert HexDigit(n / 16) == LOWER_DIGITS[n / 16] && HexDigit(n % 16) == LOWER_DIGITS[n % 16];
  }

  lemma {:induction false} PrintedBytes(s: string)
    ensures ValidEscapes(PrintedEscapes(s))
    ensures LiteralBytes(PrintedEscapes(s)) == s
    decreases |s|
  {
    var es := PrintedEscapes(s);
    forall i | 0 <= i < |s|
      ensures ValidEscape(es[i])
    {
      PrintedEscapeMeans(s[i]);
    }
    if s != "" {
      PrintedBytes(s[1..]);
      PrintedEscapeMeans(s[0]);
      assert es[1..] == PrintedEscapes(s[1..]);
      assert s == [s[0]] + s[1..];
    }
  }

  /** Round trip: a printed string is parsed back, whatever follows it. */
  lemma QuoteRoundTrip(text: string, offset: nat, s: string)
    requires NUL !in s && TextAt(text, offset, Quote(s))
    ensures ParseLiteral(text, offset) == Literal(s, offset + |Quote(s)|)
  {
    PrintedBytes(s);
    hide TextAt, LiteralBytes, LiteralText, ParseLiteral, CString;
    ParseWellFormed(text, offset, PrintedEscapes(s));
  }
}
