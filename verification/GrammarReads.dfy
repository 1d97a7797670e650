/** Accepted texts are read, and white space may stand anywhere around their parts. */
module GrammarReads {
  import opened Text
  import opened Json
  import opened StringCodec
  import opened Parser
  import opened JsonGrammar

  // ----- white space -----

  /** Skipping white space that is followed by something else. */
  lemma {:induction false} SkipBlanksOver(s: string, o: nat, p: nat)
    requires o <= p < |s| && !Blank(s[p]) && forall i :: o <= i < p ==> Blank(s[i])
    ensures SkipBlanks(s, o) == p
    decreases p - o
  {
    if o < p {
      SkipBlanksOver(s, o + 1, p);
    }
  }

  lemma SkipOver(s: string, o: nat, blanks: string)
    requires TextAt(s, o, blanks) && Blanks(blanks)
    requires o + |blanks| < |s| && s[o + |blanks|] as int > 32
    ensures SkipWhitespace(s, o) == o + |blanks|
  {
    forall i | o <= i < o + |blanks|
      ensures Blank(s[i])
    {
      TextAtChar(s, o, blanks, i - o);
    }
    SkipBlanksOver(s, o, o + |blanks|);
  }

  // ----- numbers -----

  lemma {:induction false} NumberRunOf(s: string, o: nat, limit: nat, n: nat)
    requires n <= limit && o + n < |s| && !NumberChar(s[o + n])
    requires forall i :: o <= i < o + n ==> NumberChar(s[i])
    ensures NumberRun(s, o, limit) == n
    decreases n
  {
    if n > 0 {
      NumberRunOf(s, o + 1, limit - 1, n - 1);
    }
  }

  lemma {:induction false} DigitRunOf(s: string)
    requires AllDigits(s)
    ensures DigitRun(s) == |s|
  {
    if s != "" {
      DigitRunOf(s[1..]);
    }
  }

  /** The character after the text ends a number. */
  predicate Ends(s: string, o: nat) {
    o < |s| && !NumberChar(s[o])
  }

  lemma NumberRunOfText(s: string, o: nat, t: string)
    requires |t| <= 63 && TextAt(s, o, t) && Ends(s, o + |t|)
    requires forall i :: 0 <= i < |t| ==> NumberChar(t[i])
    ensures NumberRun(s, o, 63) == |t| && s[o..o + |t|] == t
  {
    hide NumberChar;
    forall i | o <= i < o + |t|
      ensures NumberChar(s[i])
    {
      TextAtChar(s, o, t, i - o);
    }
    NumberRunOf(s, o, 63, |t|);
  }

  lemma ReadSigned(minus: bool, digits: string)
    requires digits != "" && AllDigits(digits)
    ensures ReadInteger(Signed(minus, digits))
            == Integer(SignedValue(minus, digits), |Signed(minus, digits)|)
  {
    DigitRunOf(digits);
    var t := Signed(minus, digits);
    var sign := if minus then 1 else 0;
    assert t[sign..] == digits && digits[..|digits|] == digits;
    assert IsDigit(digits[0]);
  }

  lemma SignedChars(minus: bool, digits: string)
    requires AllDigits(digits)
    ensures forall i :: 0 <= i < |Signed(minus, digits)| ==> NumberChar(Signed(minus, digits)[i])
  {
  }

  lemma NumberUnfolds(v: Syntax)
    requires v.NumberText? && Accepted(v)
    ensures var t := Signed(v.minus, v.digits);
            && AllDigits(v.digits) && v.digits != ""
            && Written(v) == t && |t| <= 63 && t != "" && (t[0] == '-' || IsDigit(t[0]))
            && ItemOf(v) == Number(SignedValue(v.minus, v.digits))
  {
    hide DecimalValue;
    assert IsDigit(v.digits[0]);
  }

  lemma ReadNumber(v: Syntax, s: string, o: nat)
    requires v.NumberText? && Accepted(v) && TextAt(s, o, Written(v)) && Ends(s, o + |Written(v)|)
    ensures o < |s| && (s[o] == '-' || IsDigit(s[o])) && ParseNumber(s, o) == Parsed(ItemOf(v), o + |Written(v)|)
  {
    hide *;
    var t := Signed(v.minus, v.digits);
    NumberUnfolds(v);
    ReadSigned(v.minus, v.digits);
    SignedChars(v.minus, v.digits);
    TextAtChar(s, o, t, 0);
    NumberRunOfText(s, o, t);
    NumberRead(s, o, t, SignedValue(v.minus, v.digits));
  }

  lemma NumberRead(s: string, o: nat, t: string, n: int)
    requires o < |s| && NumberRun(s, o, 63) == |t| && s[o..o + |t|] == t && ReadInteger(t) == Integer(n, |t|)
    ensures ParseNumber(s, o) == Parsed(Number(n), o + |t|)
  {
    hide NumberRun, ReadInteger;
  }

  // ----- literals on their own and inside a text -----

  lemma CharsAt(s: string, o: nat, t: string)
    requires TextAt(s, o, t)
    ensures o + |t| <= |s| && forall k :: 0 <= k < |t| ==> s[o + k] == t[k]
  {
    forall k | 0 <= k < |t|
      ensures s[o + k] == t[k]
    {
      TextAtChar(s, o, t, k);
    }
  }

  lemma {:induction false} ScanSame(s: string, o: nat, t: string, i: nat)
    requires TextAt(s, o, t) && i <= |t|
    ensures ScanLiteral(t, i).Some? ==> ScanLiteral(s, o + i) == Some(o + ScanLiteral(t, i).value)
    ensures ScanLiteral(s, o + i).Some? && ScanLiteral(s, o + i).value < o + |t|
            ==> ScanLiteral(t, i) == Some(ScanLiteral(s, o + i).value - o)
    decreases |t| - i
  {
    if i < |t| {
      TextAtChar(s, o, t, i);
      if t[i] == '\\' {
        if i + 1 < |t| {
          ScanSame(s, o, t, i + 2);
        }
      } else if t[i] != '"' {
        ScanSame(s, o, t, i + 1);
      }
    }
  }

  lemma Hex4Same(s: string, o: nat, t: string, i: nat)
    requires TextAt(s, o, t) && i + 4 <= |t|
    ensures o + i + 4 <= |s| && Hex4(t, i) == Hex4(s, o + i)
  {
    CharsAt(s, o, t);
    assert t[i..i + 4] == s[o + i..o + i + 4];
  }

  /** What utf16_literal_to_utf8 reads decides what it writes. */
  lemma Utf16Depends(s: string, p: nat, end: nat, t: string, q: nat, end': nat)
    requires p <= end <= |s| && q <= end' <= |t| && end - p == end' - q
    requires end - p >= 6 ==> Hex4(s, p + 2) == Hex4(t, q + 2)
    requires end - p >= 12 ==> s[p + 6] == t[q + 6] && s[p + 7] == t[q + 7] && Hex4(s, p + 8) == Hex4(t, q + 8)
    ensures DecodeUtf16(s, p, end) == DecodeUtf16(t, q, end')
  {
    hide Hex4, Utf8;
  }

  lemma Utf16Same(s: string, o: nat, t: string, p: nat, end: nat)
    requires TextAt(s, o, t) && p <= end < |t|
    ensures o + end < |s| && DecodeUtf16(t, p, end) == DecodeUtf16(s, o + p, o + end)
  {
    hide *;
    CharsAt(s, o, t);
    if end - p >= 6 {
      Hex4Same(s, o, t, p + 2);
    }
    if end - p >= 12 {
      Hex4Same(s, o, t, p + 8);
    }
    Utf16Depends(t, p, end, s, o + p, o + end);
  }

  lemma PieceSame(s: string, o: nat, t: string, p: nat, end: nat)
    requires TextAt(s, o, t) && p < end < |t|
    ensures o + end < |s| && NextPiece(t, p, end) == NextPiece(s, o + p, o + end)
  {
    CharsAt(s, o, t);
    Utf16Same(s, o, t, p, end);
    hide DecodeUtf16, Unescape, TextAt;
  }

  lemma {:induction false} DecodeSame(s: string, o: nat, t: string, p: nat, end: nat)
    requires TextAt(s, o, t) && end < |t|
    ensures o + end < |s| && DecodeLiteral(t, p, end) == DecodeLiteral(s, o + p, o + end)
    decreases end - p
  {
    hide NextPiece, TextAt, Prepend;
    CharsAt(s, o, t);
    if p < end {
      PieceSame(s, o, t, p, end);
      if NextPiece(t, p, end).Piece? {
        DecodeSame(s, o, t, p + NextPiece(t, p, end).length, end);
      }
    }
  }

  /** A literal is read inside a text as it is on its own. */
  lemma LiteralSame(s: string, o: nat, t: string, value: string)
    requires TextAt(s, o, t)
    ensures ReadsAs(t, value) <==> ParseLiteral(s, o) == Literal(value, o + |t|)
  {
    hide ScanLiteral, DecodeLiteral, TextAt, CString;
    CharsAt(s, o, t);
    if |t| > 1 && t[0] == '"' {
      ScanSame(s, o, t, 1);
      DecodeSame(s, o, t, 1, |t| - 1);
      LiteralEnds(t, 0, value, |t|);
      LiteralEnds(s, o, value, o + |t|);
    }
  }

  lemma LiteralEnds(s: string, o: nat, value: string, end: nat)
    requires o < |s| && s[o] == '"' && o + 1 < end <= |s|
    ensures ParseLiteral(s, o) == Literal(value, end)
            <==> ScanLiteral(s, o + 1) == Some(end - 1)
                 && match DecodeLiteral(s, o + 1, end - 1) case None => false case Some(bytes) => CString(bytes) == value
  {
    hide ScanLiteral, DecodeLiteral, CString;
  }

  // ----- dispatch on the first character -----

  lemma NotWord(s: string, o: nat, word: string)
    requires o < |s| && word != "" && s[o] != word[0]
    ensures !TextAt(s, o, word)
  {
    if o + |word| <= |s| {
      assert s[o..o + |word|][0] == s[o];
    }
  }

  lemma NoWords(s: string, o: nat)
    requires o < |s| && s[o] != 'n' && s[o] != 't' && s[o] != 'f'
    ensures !TextAt(s, o, "null") && !TextAt(s, o, "false") && !TextAt(s, o, "true")
  {
    NotWord(s, o, "null");
    NotWord(s, o, "false");
    NotWord(s, o, "true");
  }

  lemma Dispatch(s: string, o: nat, depth: nat)
    requires o < |s|
    ensures s[o] == '[' ==> ParseValue(s, o, depth) == ParseArray(s, o, depth)
    ensures s[o] == '{' ==> ParseValue(s, o, depth) == ParseObject(s, o, depth)
    ensures s[o] == '-' || IsDigit(s[o]) ==> ParseValue(s, o, depth) == ParseNumber(s, o)
  {
    if s[o] != 'n' && s[o] != 't' && s[o] != 'f' {
      NoWords(s, o);
    }
    hide ParseArray, ParseObject, ParseNumber, ParseLiteral, TextAt;
  }

  lemma DispatchString(s: string, o: nat, depth: nat, value: string, next: nat)
    requires o < |s| && s[o] == '"' && ParseLiteral(s, o) == Literal(value, next)
    ensures ParseValue(s, o, depth) == Parsed(String(value), next)
  {
    NoWords(s, o);
    hide ParseArray, ParseObject, ParseNumber, ParseLiteral, TextAt;
  }

  lemma DispatchWord(s: string, o: nat, depth: nat)
    ensures TextAt(s, o, "null") ==> ParseValue(s, o, depth) == Parsed(Null, o + 4)
    ensures TextAt(s, o, "false") ==> ParseValue(s, o, depth) == Parsed(False, o + 5)
    ensures TextAt(s, o, "true") ==> ParseValue(s, o, depth) == Parsed(True, o + 4)
  {
    if TextAt(s, o, "false") {
      TextAtChar(s, o, "false", 0);
      NotWord(s, o, "null");
    }
    if TextAt(s, o, "true") {
      TextAtChar(s, o, "true", 0);
      NotWord(s, o, "null");
      NotWord(s, o, "false");
    }
    hide ParseArray, ParseObject, ParseNumber, ParseLiteral, TextAt;
  }

  // ----- accepted texts are read -----

  function Outcome<T>(ok: bool, value: T, offset: nat): Parsed<T> {
    if ok then Parsed(value, offset) else Failed
  }

  /** From here the parser reads the value if it is not nested too deeply, and fails otherwise. */
  ghost predicate Reads(s: string, o: nat, depth: nat, v: Syntax) {
    ParseValue(s, o, depth) == Outcome(depth + DepthOf(v) <= NESTING_LIMIT, ItemOf(v), o + |Written(v)|)
  }

  /** What a value can begin with. */
  predicate Opening(c: char) {
    32 < c as int < 0x80 && c != ',' && c != ']' && c != '}'
  }

  lemma ValueOpens(v: Syntax)
    requires Accepted(v)
    ensures Written(v) != "" && Opening(Written(v)[0])
  {
    if v.NumberText? {
      assert IsDigit(v.digits[0]);
    }
    hide ScanLiteral, DecodeLiteral, CString, WrittenElements, WrittenEntries, ItemsOf, MembersOf;
  }

  lemma ReadsScalar(v: Syntax, s: string, o: nat, depth: nat)
    requires Accepted(v) && TextAt(s, o, Written(v)) && Ends(s, o + |Written(v)|) && depth <= NESTING_LIMIT
    requires !v.EmptyArray? && !v.ArrayText? && !v.EmptyObject? && !v.ObjectText?
    ensures Reads(s, o, depth, v)
  {
    hide ParseValue, ParseLiteral, ParseNumber, TextAt, Signed;
    match v {
      case NumberText(_, _) =>
        ReadNumber(v, s, o);
        Dispatch(s, o, depth);
      case StringText(literal, value) =>
        LiteralSame(s, o, literal, value);
        LiteralOpens(s, o, value, o + |literal|);
        DispatchString(s, o, depth, value, o + |literal|);
      case _ =>
        DispatchWord(s, o, depth);
    }
  }

  lemma LiteralOpens(s: string, o: nat, value: string, next: nat)
    requires ParseLiteral(s, o) == Literal(value, next)
    ensures o < |s| && s[o] == '"'
  {
  }

  /** The value ends here, and the given character is the next one after white space. */
  predicate StopsAt(s: string, q: nat, next: nat, c: char) {
    Ends(s, q) && SkipWhitespace(s, q) == next && Sees(s, next, c)
  }

  lemma StopsAfter(s: string, q: nat, after: string, more: string)
    requires Blanks(after) && TextAt(s, q, after + more) && more != "" && more[0] in {',', ']', '}'}
    ensures TextAt(s, q + |after|, more) && StopsAt(s, q, q + |after|, more[0])
  {
    var t := after + more;
    assert t[0] as int <= 32 || t[0] in {',', ']', '}'};
    TextAtChar(s, q, t, 0);
    TextAtParts(s, q, after, more);
    TextAtChar(s, q + |after|, more, 0);
    hide TextAt, SkipWhitespace, Blanks;
    SkipOver(s, q, after);
  }

  lemma SlotUnfolds(slot: Slot, more: string)
    requires AcceptedSlot(slot)
    ensures Blanks(slot.before) && Accepted(slot.value) && Blanks(slot.after)
    ensures WrittenSlot(slot, more) == slot.before + (Written(slot.value) + (slot.after + more))
  {
    hide Blanks, Accepted, Written;
  }

  /** Where the parts of a slot stand. */
  lemma SlotParts(slot: Slot, more: string, s: string, p: nat)
    requires AcceptedSlot(slot) && TextAt(s, p, WrittenSlot(slot, more)) && more != "" && more[0] in {',', ']', '}'}
    ensures var v := p + |slot.before|;
            var q := v + |Written(slot.value)|;
            && v < |s| && Opening(s[v]) && SkipWhitespace(s, p) == v && TextAt(s, v, Written(slot.value))
            && StopsAt(s, q, q + |slot.after|, more[0]) && TextAt(s, q + |slot.after|, more)
            && p + |WrittenSlot(slot, more)| == q + |slot.after| + |more|
  {
    hide *;
    var (b, w, a) := (slot.before, Written(slot.value), slot.after);
    SlotUnfolds(slot, more);
    ValueOpens(slot.value);
    TextAtParts(s, p, b, w + (a + more));
    TextAtParts(s, p + |b|, w, a + more);
    TextAtChar(s, p + |b|, w, 0);
    StopsAfter(s, p + |b| + |w|, a, more);
    OpeningChar(w[0]);
    SkipOver(s, p, b);
  }

  lemma OpeningChar(c: char)
    requires Opening(c)
    ensures 32 < c as int < 0x80 && c != ',' && c != ']' && c != '}'
  {
  }

  lemma ElementsParts(es: Elements)
    requires AcceptedElements(es)
    ensures AcceptedSlot(es.slot) && Accepted(es.slot.value)
    ensures es.LastElement? ==> WrittenElements(es) == WrittenSlot(es.slot, "]")
    ensures es.MoreElements? ==> AcceptedElements(es.rest)
    ensures es.MoreElements? ==> WrittenElements(es) == WrittenSlot(es.slot, "," + WrittenElements(es.rest))
  {
  }

  function AfterSlot(es: Elements): string {
    if es.LastElement? then "]" else "," + WrittenElements(es.rest)
  }

  /** Where the parts of the first element stand. */
  lemma ElementParts(es: Elements, s: string, p: nat)
    requires AcceptedElements(es) && TextAt(s, p, WrittenElements(es))
    ensures Accepted(es.slot.value) && (es.MoreElements? ==> AcceptedElements(es.rest))
    ensures var v := p + |es.slot.before|;
            var q := v + |Written(es.slot.value)|;
            var r := q + |es.slot.after|;
            && v < |s| && Opening(s[v]) && SkipWhitespace(s, p) == v && TextAt(s, v, Written(es.slot.value))
            && StopsAt(s, q, r, if es.LastElement? then ']' else ',')
            && (es.LastElement? ==> p + |WrittenElements(es)| == r + 1)
            && (es.MoreElements? ==> TextAt(s, r + 1, WrittenElements(es.rest))
                                     && p + |WrittenElements(es)| == r + 1 + |WrittenElements(es.rest)|)
  {
    hide *;
    ElementsParts(es);
    if es.LastElement? {
      SlotParts(es.slot, "]", s, p);
    } else {
      var rest := WrittenElements(es.rest);
      SlotParts(es.slot, "," + rest, s, p);
      TextAtParts(s, p + |es.slot.before| + |Written(es.slot.value)| + |es.slot.after|, ",", rest);
    }
  }

  /** A turn of the loop of parse_array. */
  lemma ElementTurn(s: string, o: nat, depth: nat, v: nat)
    requires o < |s| && SkipWhitespace(s, o + 1) == v
    ensures match ParseValue(s, v, depth)
            case Failed => ParseElements(s, o, depth).Failed?
            case Parsed(item, q) =>
              var r := SkipWhitespace(s, q);
              && (Sees(s, r, ']') ==> ParseElements(s, o, depth) == Parsed([item], r + 1))
              && (Sees(s, r, ',') ==>
                    match ParseElements(s, r, depth)
                    case Failed => ParseElements(s, o, depth).Failed?
                    case Parsed(items, end) => ParseElements(s, o, depth) == Parsed([item] + items, end))
  {
    hide ParseValue, SkipWhitespace;
  }

  ghost predicate ReadsElements(s: string, o: nat, depth: nat, es: Elements, end: nat) {
    o < |s| && ParseElements(s, o, depth) == Outcome(depth + ElementsDepth(es) <= NESTING_LIMIT, ItemsOf(es), end)
  }

  lemma LastElementStep(es: Elements, s: string, o: nat, depth: nat, v: nat, r: nat)
    requires es.LastElement? && o < |s| && SkipWhitespace(s, o + 1) == v && Reads(s, v, depth, es.slot.value)
    requires StopsAt(s, v + |Written(es.slot.value)|, r, ']')
    ensures ReadsElements(s, o, depth, es, r + 1)
  {
    hide ParseValue, ParseElements, SkipWhitespace, ItemOf, DepthOf, Written, Ends;
    ElementTurn(s, o, depth, v);
  }

  lemma MoreElementsMean(es: Elements)
    requires es.MoreElements?
    ensures ItemsOf(es) == [ItemOf(es.slot.value)] + ItemsOf(es.rest)
    ensures ElementsDepth(es) == Max(DepthOf(es.slot.value), ElementsDepth(es.rest))
  {
    hide ItemOf, DepthOf;
  }

  lemma MoreElementsStep(es: Elements, s: string, o: nat, depth: nat, v: nat, r: nat, end: nat)
    requires es.MoreElements? && o < |s| && SkipWhitespace(s, o + 1) == v && Reads(s, v, depth, es.slot.value)
    requires StopsAt(s, v + |Written(es.slot.value)|, r, ',') && ReadsElements(s, r, depth, es.rest, end)
    ensures ReadsElements(s, o, depth, es, end)
  {
    hide ParseValue, ParseElements, SkipWhitespace, ItemOf, ItemsOf, DepthOf, ElementsDepth, Written, Ends;
    MoreElementsMean(es);
    ElementTurn(s, o, depth, v);
  }

  /** "o" is the character in front of the elements, or the place where the white space in front of them was skipped from. */
  lemma {:induction false} ReadElements(es: Elements, s: string, o: nat, p: nat, depth: nat)
    requires AcceptedElements(es) && TextAt(s, p, WrittenElements(es)) && depth <= NESTING_LIMIT
    requires o < |s| && SkipWhitespace(s, o + 1) == SkipWhitespace(s, p)
    ensures ReadsElements(s, o, depth, es, p + |WrittenElements(es)|)
    decreases es, 0
  {
    hide *;
    var v := p + |es.slot.before|;
    var r := v + |Written(es.slot.value)| + |es.slot.after|;
    ElementParts(es, s, p);
    StopsEnds(s, v + |Written(es.slot.value)|, r, if es.LastElement? then ']' else ',');
    ReadValue(es.slot.value, s, v, depth);
    if es.LastElement? {
      LastElementStep(es, s, o, depth, v, r);
    } else {
      ReadElements(es.rest, s, r, r + 1, depth);
      MoreElementsStep(es, s, o, depth, v, r, p + |WrittenElements(es)|);
    }
  }

  lemma StopsEnds(s: string, q: nat, next: nat, c: char)
    requires StopsAt(s, q, next, c)
    ensures Ends(s, q) && next < |s|
  {
  }

  lemma OpensBracket(v: Syntax, s: string, o: nat, depth: nat)
    requires TextAt(s, o, Written(v)) && Written(v) != ""
    ensures o < |s| && s[o] == Written(v)[0]
    ensures s[o] == '[' ==> ParseValue(s, o, depth) == ParseArray(s, o, depth)
    ensures s[o] == '{' ==> ParseValue(s, o, depth) == ParseObject(s, o, depth)
  {
    hide Written, ParseValue, ParseArray, ParseObject, TextAt;
    TextAtChar(s, o, Written(v), 0);
    Dispatch(s, o, depth);
  }

  lemma EmptyTurn(s: string, o: nat, depth: nat, first: nat)
    requires o < |s| && SkipWhitespace(s, o + 1) == first
    ensures Sees(s, first, ']') ==> ParseArray(s, o, depth) == Outcome(depth < NESTING_LIMIT, Array([]), first + 1)
    ensures Sees(s, first, '}') ==> ParseObject(s, o, depth) == Outcome(depth < NESTING_LIMIT, Object([]), first + 1)
  {
    hide SkipWhitespace;
  }

  lemma ReadEmpty(v: Syntax, s: string, o: nat, depth: nat)
    requires (v.EmptyArray? || v.EmptyObject?) && Accepted(v) && TextAt(s, o, Written(v))
    ensures Reads(s, o, depth, v)
  {
    var (open, close) := if v.EmptyArray? then ("[", "]") else ("{", "}");
    assert Written(v) == open + (v.blanks + close);
    OpensBracket(v, s, o, depth);
    hide TextAt, ParseValue, ParseArray, ParseObject, SkipWhitespace, StopsAt;
    TextAtParts(s, o, open, v.blanks + close);
    StopsAfter(s, o + 1, v.blanks, close);
    Stopped(s, o + 1, o + 1 + |v.blanks|, close[0]);
    EmptyTurn(s, o, depth, o + 1 + |v.blanks|);
  }

  lemma Stopped(s: string, q: nat, next: nat, c: char)
    requires StopsAt(s, q, next, c)
    ensures SkipWhitespace(s, q) == next && Sees(s, next, c)
  {
  }

  lemma ArrayTurn(s: string, o: nat, depth: nat, first: nat, ok: bool, items: seq<Json>, end: nat)
    requires o + 1 <= first < |s| && SkipWhitespace(s, o + 1) == first && s[first] != ']'
    requires depth < NESTING_LIMIT ==> ParseElements(s, first - 1, depth + 1) == Outcome(ok, items, end)
    ensures ParseArray(s, o, depth) == Outcome(depth < NESTING_LIMIT && ok, Array(items), end)
  {
    hide ParseElements, SkipWhitespace;
  }

  lemma SkipAgain(s: string, o: nat)
    requires o <= |s|
    ensures SkipWhitespace(s, SkipWhitespace(s, o)) == SkipWhitespace(s, o)
  {
    if o < |s| {
      var p := SkipWhitespace(s, o);
      if p == |s| - 1 {
        assert SkipBlanks(s, |s|) == |s|;
      }
    }
  }

  lemma ArrayUnfolds(v: Syntax)
    requires v.ArrayText? && Accepted(v)
    ensures AcceptedElements(v.elements) && Written(v) == "[" + WrittenElements(v.elements) && Written(v)[0] == '['
  {
    hide AcceptedElements, WrittenElements;
  }

  lemma {:induction false} ReadArray(v: Syntax, s: string, o: nat, depth: nat)
    requires v.ArrayText? && Accepted(v) && TextAt(s, o, Written(v)) && depth <= NESTING_LIMIT
    ensures Reads(s, o, depth, v)
    decreases v, 0
  {
    hide *;
    var es := v.elements;
    var first := o + 1 + |es.slot.before|;
    ArrayUnfolds(v);
    OpensBracket(v, s, o, depth);
    TextAtParts(s, o, "[", WrittenElements(es));
    ElementParts(es, s, o + 1);
    SkipAgain(s, o + 1);
    if depth < NESTING_LIMIT {
      ReadElements(es, s, first - 1, o + 1, depth + 1);
    }
    ArrayStep(v, s, o, depth, first);
  }

  lemma ArrayMeans(v: Syntax)
    requires v.ArrayText?
    ensures ItemOf(v) == Array(ItemsOf(v.elements)) && DepthOf(v) == 1 + ElementsDepth(v.elements) && |Written(v)| == 1 + |WrittenElements(v.elements)|
  {
    hide ItemsOf, ElementsDepth, WrittenElements;
  }

  lemma ArrayStep(v: Syntax, s: string, o: nat, depth: nat, first: nat)
    requires v.ArrayText? && depth <= NESTING_LIMIT && o + 1 <= first < |s| && ParseValue(s, o, depth) == ParseArray(s, o, depth)
    requires SkipWhitespace(s, o + 1) == first && Opening(s[first])
    requires depth < NESTING_LIMIT ==> ReadsElements(s, first - 1, depth + 1, v.elements, o + 1 + |WrittenElements(v.elements)|)
    ensures Reads(s, o, depth, v)
  {
    var es := v.elements;
    hide ParseValue, ParseArray, ParseElements, SkipWhitespace, ItemsOf, ElementsDepth, WrittenElements, ItemOf, DepthOf, Written;
    ArrayMeans(v);
    ArrayTurn(s, o, depth, first, depth + 1 + ElementsDepth(es) <= NESTING_LIMIT, ItemsOf(es), o + 1 + |WrittenElements(es)|);
  }

  // ----- objects -----

  /** A key with its colon is at the offset and the value starts at "v". */
  ghost predicate KeyAt(s: string, p: nat, key: string, v: nat) {
    match ParseLiteral(s, p)
    case BadLiteral => false
    case Literal(k, after) =>
      k == key && Sees(s, SkipWhitespace(s, after), ':') && SkipWhitespace(s, SkipWhitespace(s, after) + 1) == v
  }

  lemma ColonAt(s: string, a: nat, colon: string, more: string)
    requires Blanks(colon) && TextAt(s, a, colon + (":" + more))
    ensures SkipWhitespace(s, a) == a + |colon| && Sees(s, a + |colon|, ':') && TextAt(s, a + |colon| + 1, more)
  {
    hide Blanks, TextAt, SkipWhitespace;
    TextAtParts(s, a, colon, ":" + more);
    TextAtParts(s, a + |colon|, ":", more);
    TextAtChar(s, a + |colon|, ":", 0);
    SkipOver(s, a, colon);
  }

  /** The key of an entry and where the slot behind its colon stands. */
  lemma KeyParts(e: Entry, tail: string, s: string, p: nat)
    requires Blanks(e.before) && ReadsAs(e.literal, e.key) && Blanks(e.colon)
    requires TextAt(s, p, e.before + (e.literal + (e.colon + (":" + tail))))
    ensures var k := p + |e.before|;
            var c := k + |e.literal| + |e.colon|;
            && SkipWhitespace(s, p) == k && Sees(s, k, '"') && KeyAt(s, k, e.key, SkipWhitespace(s, c + 1)) && TextAt(s, c + 1, tail)
  {
    hide *;
    var (k, l) := (p + |e.before|, e.literal);
    TextAtParts(s, p, e.before, l + (e.colon + (":" + tail)));
    TextAtParts(s, k, l, e.colon + (":" + tail));
    LiteralSame(s, k, l, e.key);
    LiteralOpens(s, k, e.key, k + |l|);
    ColonAt(s, k + |l|, e.colon, tail);
    SkipOver(s, p, e.before);
    KeyFound(s, k, e.key, k + |l|, k + |l| + |e.colon|);
  }

  lemma KeyFound(s: string, k: nat, key: string, a: nat, c: nat)
    requires k < |s| && s[k] == '"' && ParseLiteral(s, k) == Literal(key, a) && SkipWhitespace(s, a) == c && Sees(s, c, ':')
    ensures Sees(s, k, '"') && KeyAt(s, k, key, SkipWhitespace(s, c + 1))
  {
    hide ParseLiteral, SkipWhitespace;
  }

  lemma EntriesParts(ms: Entries)
    requires AcceptedEntries(ms)
    ensures var e := ms.entry;
            && Blanks(e.before) && ReadsAs(e.literal, e.key) && Blanks(e.colon) && AcceptedSlot(e.slot) && Accepted(e.slot.value)
            && (ms.MoreEntries? ==> AcceptedEntries(ms.rest))
            && WrittenEntries(ms)
               == e.before + (e.literal + (e.colon + (":" + WrittenSlot(e.slot, if ms.LastEntry? then "}" else "," + WrittenEntries(ms.rest)))))
  {
    hide Blanks, ReadsAs, WrittenSlot;
  }

  /** Where the parts of the first member stand: the value at "v", the character behind it at "r". */
  lemma EntryParts(ms: Entries, s: string, p: nat) returns (v: nat, r: nat)
    requires AcceptedEntries(ms) && TextAt(s, p, WrittenEntries(ms))
    ensures Accepted(ms.entry.slot.value) && (ms.MoreEntries? ==> AcceptedEntries(ms.rest))
    ensures SkipWhitespace(s, p) == p + |ms.entry.before| && Sees(s, p + |ms.entry.before|, '"')
    ensures KeyAt(s, p + |ms.entry.before|, ms.entry.key, v) && TextAt(s, v, Written(ms.entry.slot.value))
    ensures StopsAt(s, v + |Written(ms.entry.slot.value)|, r, if ms.LastEntry? then '}' else ',')
    ensures ms.LastEntry? ==> p + |WrittenEntries(ms)| == r + 1
    ensures ms.MoreEntries? ==> TextAt(s, r + 1, WrittenEntries(ms.rest))
                                && p + |WrittenEntries(ms)| == r + 1 + |WrittenEntries(ms.rest)|
  {
    hide *;
    var e := ms.entry;
    var more := if ms.LastEntry? then "}" else "," + WrittenEntries(ms.rest);
    EntriesParts(ms);
    KeyParts(e, WrittenSlot(e.slot, more), s, p);
    var c := p + |e.before| + |e.literal| + |e.colon|;
    SlotParts(e.slot, more, s, c + 1);
    v := c + 1 + |e.slot.before|;
    r := v + |Written(e.slot.value)| + |e.slot.after|;
    if ms.MoreEntries? {
      TextAtParts(s, r, ",", WrittenEntries(ms.rest));
    }
  }

  /** A turn of the loop of parse_object. */
  lemma EntryTurn(s: string, o: nat, depth: nat, key: string, v: nat)
    requires o < |s| && KeyAt(s, SkipWhitespace(s, o + 1), key, v)
    ensures match ParseValue(s, v, depth)
            case Failed => ParseMembers(s, o, depth).Failed?
            case Parsed(item, q) =>
              var r := SkipWhitespace(s, q);
              && (Sees(s, r, '}') ==> ParseMembers(s, o, depth) == Parsed([Member(key, item)], r + 1))
              && (Sees(s, r, ',') ==>
                    match ParseMembers(s, r, depth)
                    case Failed => ParseMembers(s, o, depth).Failed?
                    case Parsed(members, end) => ParseMembers(s, o, depth) == Parsed([Member(key, item)] + members, end))
  {
    hide ParseValue, SkipWhitespace, ParseLiteral;
  }

  ghost predicate ReadsEntries(s: string, o: nat, depth: nat, ms: Entries, end: nat) {
    o < |s| && ParseMembers(s, o, depth) == Outcome(depth + EntriesDepth(ms) <= NESTING_LIMIT, MembersOf(ms), end)
  }

  lemma LastEntryStep(ms: Entries, s: string, o: nat, depth: nat, v: nat, r: nat)
    requires ms.LastEntry? && o < |s| && KeyAt(s, SkipWhitespace(s, o + 1), ms.entry.key, v) && Reads(s, v, depth, ms.entry.slot.value)
    requires StopsAt(s, v + |Written(ms.entry.slot.value)|, r, '}')
    ensures ReadsEntries(s, o, depth, ms, r + 1)
  {
    hide ParseValue, ParseMembers, SkipWhitespace, ItemOf, DepthOf, Written, Ends, KeyAt;
    EntryTurn(s, o, depth, ms.entry.key, v);
  }

  lemma MoreEntriesMean(ms: Entries)
    requires ms.MoreEntries?
    ensures MembersOf(ms) == [Member(ms.entry.key, ItemOf(ms.entry.slot.value))] + MembersOf(ms.rest)
    ensures EntriesDepth(ms) == Max(DepthOf(ms.entry.slot.value), EntriesDepth(ms.rest))
  {
    hide ItemOf, DepthOf;
  }

  lemma MoreEntriesStep(ms: Entries, s: string, o: nat, depth: nat, v: nat, r: nat, end: nat)
    requires ms.MoreEntries? && o < |s| && KeyAt(s, SkipWhitespace(s, o + 1), ms.entry.key, v) && Reads(s, v, depth, ms.entry.slot.value)
    requires StopsAt(s, v + |Written(ms.entry.slot.value)|, r, ',') && ReadsEntries(s, r, depth, ms.rest, end)
    ensures ReadsEntries(s, o, depth, ms, end)
  {
    hide ParseValue, ParseMembers, SkipWhitespace, ItemOf, MembersOf, DepthOf, EntriesDepth, Written, Ends, KeyAt;
    MoreEntriesMean(ms);
    EntryTurn(s, o, depth, ms.entry.key, v);
  }

  lemma {:induction false} ReadEntries(ms: Entries, s: string, o: nat, p: nat, depth: nat)
    requires AcceptedEntries(ms) && TextAt(s, p, WrittenEntries(ms)) && depth <= NESTING_LIMIT
    requires o < |s| && SkipWhitespace(s, o + 1) == SkipWhitespace(s, p)
    ensures ReadsEntries(s, o, depth, ms, p + |WrittenEntries(ms)|)
    decreases ms, 0
  {
    hide *;
    var v, r := EntryParts(ms, s, p);
    StopsEnds(s, v + |Written(ms.entry.slot.value)|, r, if ms.LastEntry? then '}' else ',');
    ReadValue(ms.entry.slot.value, s, v, depth);
    if ms.LastEntry? {
      LastEntryStep(ms, s, o, depth, v, r);
    } else {
      ReadEntries(ms.rest, s, r, r + 1, depth);
      MoreEntriesStep(ms, s, o, depth, v, r, p + |WrittenEntries(ms)|);
    }
  }

  lemma ObjectTurn(s: string, o: nat, depth: nat, first: nat, ok: bool, ms: seq<Member>, end: nat)
    requires o + 1 <= first < |s| && SkipWhitespace(s, o + 1) == first && s[first] != '}'
    requires depth < NESTING_LIMIT ==> ParseMembers(s, first - 1, depth + 1) == Outcome(ok, ms, end)
    ensures ParseObject(s, o, depth) == Outcome(depth < NESTING_LIMIT && ok, Object(ms), end)
  {
    hide ParseMembers, SkipWhitespace;
  }

  lemma SeesInside(s: string, o: nat, c: char)
    requires Sees(s, o, c)
    ensures o < |s| && s[o] == c
  {
  }

  lemma ObjectUnfolds(v: Syntax)
    requires v.ObjectText? && Accepted(v)
    ensures AcceptedEntries(v.entries) && Written(v) == "{" + WrittenEntries(v.entries) && Written(v)[0] == '{'
  {
    hide AcceptedEntries, WrittenEntries;
  }

  lemma {:induction false} ReadObject(v: Syntax, s: string, o: nat, depth: nat)
    requires v.ObjectText? && Accepted(v) && TextAt(s, o, Written(v)) && depth <= NESTING_LIMIT
    ensures Reads(s, o, depth, v)
    decreases v, 0
  {
    hide *;
    var ms := v.entries;
    var first := o + 1 + |ms.entry.before|;
    ObjectUnfolds(v);
    OpensBracket(v, s, o, depth);
    TextAtParts(s, o, "{", WrittenEntries(ms));
    var _, _ := EntryParts(ms, s, o + 1);
    SkipAgain(s, o + 1);
    if depth < NESTING_LIMIT {
      ReadEntries(ms, s, first - 1, o + 1, depth + 1);
    }
    SeesInside(s, first, '"');
    ObjectStep(v, s, o, depth, first);
  }

  lemma ObjectMeans(v: Syntax)
    requires v.ObjectText?
    ensures ItemOf(v) == Object(MembersOf(v.entries)) && DepthOf(v) == 1 + EntriesDepth(v.entries) && |Written(v)| == 1 + |WrittenEntries(v.entries)|
  {
    hide MembersOf, EntriesDepth, WrittenEntries;
  }

  lemma ObjectStep(v: Syntax, s: string, o: nat, depth: nat, first: nat)
    requires v.ObjectText? && depth <= NESTING_LIMIT && o + 1 <= first < |s|
    requires ParseValue(s, o, depth) == ParseObject(s, o, depth) && SkipWhitespace(s, o + 1) == first && s[first] == '"'
    requires depth < NESTING_LIMIT ==> ReadsEntries(s, first - 1, depth + 1, v.entries, o + 1 + |WrittenEntries(v.entries)|)
    ensures Reads(s, o, depth, v)
  {
    hide ParseValue, ParseObject, ParseMembers, SkipWhitespace, MembersOf, EntriesDepth, WrittenEntries, ItemOf, DepthOf, Written;
    ObjectMeans(v);
    var (ms, end) := (MembersOf(v.entries), o + 1 + |WrittenEntries(v.entries)|);
    ObjectTurn(s, o, depth, first, depth + 1 + EntriesDepth(v.entries) <= NESTING_LIMIT, ms, end);
  }

  /** An accepted value is read at any offset, whatever follows it, exactly when it is not nested too deeply there. */
  lemma {:induction false} ReadValue(v: Syntax, s: string, o: nat, depth: nat)
    requires Accepted(v) && TextAt(s, o, Written(v)) && Ends(s, o + |Written(v)|) && depth <= NESTING_LIMIT
    ensures Reads(s, o, depth, v)
    decreases v, 1
  {
    hide *;
    if v.ArrayText? {
      ReadArray(v, s, o, depth);
    } else if v.ObjectText? {
      ReadObject(v, s, o, depth);
    } else if v.EmptyArray? || v.EmptyObject? {
      ReadEmpty(v, s, o, depth);
    } else {
      ReadsScalar(v, s, o, depth);
    }
  }
}
