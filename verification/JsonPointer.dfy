/** JSON Pointer (RFC 6901) as cJSON_Utils writes, compares and follows it. */
module JsonPointer {
  import opened Text
  import opened Json

  // ----- escaping (section 3 of RFC 6901) -----

  function EncodeChar(c: char): string {
    if c == '/' then "~1" else if c == '~' then "~0" else [c]
  }

  function Encode(s: string): string {
    if s == "" then "" else EncodeChar(s[0]) + Encode(s[1..])
  }

  lemma {:induction false} EncodeHasNoSlash(s: string)
    ensures '/' !in Encode(s)
    ensures |s| <= |Encode(s)|
  {
    if s != "" {
      EncodeHasNoSlash(s[1..]);
    }
  }

  /** The key a reference token stands for, by section 4 of RFC 6901. */
  function Decode(token: string): Option<string> {
    if token == "" then Some("")
    else if token[0] == '~' then
      if |token| > 1 && token[1] == '0' then Prepend('~', Decode(token[2..]))
      else if |token| > 1 && token[1] == '1' then Prepend('/', Decode(token[2..]))
      else None
    else Prepend(token[0], Decode(token[1..]))
  }

  function Prepend(c: char, s: Option<string>): Option<string> {
    match s
    case None => None
    case Some(t) => Some([c] + t)
  }

  lemma DecodeChar(c: char, rest: string)
    ensures Decode(EncodeChar(c) + rest) == Prepend(c, Decode(rest))
  {
    var (e, n) := (EncodeChar(c) + rest, |EncodeChar(c)|);
    assert e[n..] == rest && e[0] == EncodeChar(c)[0] && (n == 2 ==> e[1] == EncodeChar(c)[1]);
    assert Decode(e) == Prepend(c, Decode(e[n..]));
    hide Decode, Prepend;
  }

  lemma {:induction false} DecodeEncode(s: string)
    ensures Decode(Encode(s)) == Some(s)
  {
    if s != "" {
      DecodeEncode(s[1..]);
      DecodeChar(s[0], Encode(s[1..]));
      assert Encode(s) == EncodeChar(s[0]) + Encode(s[1..]) && Prepend(s[0], Some(s[1..])) == Some([s[0]] + s[1..]);
      hide *;
      assert s == [s[0]] + s[1..];
    }
  }

  /** pointer_encoded_length: the length, without encoding. */
  method PointerEncodedLength(s: string) returns (length: nat)
    ensures length == |Encode(s)|
  {
    length := 0;
    for i := 0 to |s|
      invariant length + |Encode(s[i..])| == |Encode(s)|
    {
      assert s[i..][1..] == s[i + 1..];
      if s[i] == '~' || s[i] == '/' {
        length := length + 1;
      }
      length := length + 1;
    }
  }

  lemma EncodeCons(s: string)
    requires s != ""
    ensures Encode(s) == EncodeChar(s[0]) + Encode(s[1..])
  {
  }

  lemma {:induction false} EncodeAppend(s: string, t: string)
    ensures Encode(s + t) == Encode(s) + Encode(t)
  {
    if s == "" {
      assert Encode(s) == "";
      hide *;
      assert s + t == t;
    } else {
      hide *;
      EncodeCons(s);
      EncodeCons(s + t);
      EncodeAppend(s[1..], t);
      assert (s + t)[1..] == s[1..] + t;
      AppendAssociative(EncodeChar(s[0]), Encode(s[1..]), Encode(t));
    }
  }

  /** encode_string_as_pointer: writes the escaped key and a terminator at the given place. */
  method EncodeStringAsPointer(destination: array<char>, start: nat, source: string)
    requires start + |Encode(source)| < destination.Length
    modifies destination
    ensures destination[start..start + |Encode(source)|] == Encode(source)
    ensures destination[start + |Encode(source)|] == NUL
    ensures destination[..start] == old(destination[..start])
    ensures destination[start + |Encode(source)| + 1..] == old(destination[start + |Encode(source)| + 1..])
  {
    var d := start;
    ghost var e := Encode(source);
    assert source[..|source|] == source;
    for i := 0 to |source|
      invariant d == start + |Encode(source[..i])| <= start + |e|
      invariant destination[start..d] == Encode(source[..i])
      invariant destination[..start] == old(destination[..start])
      invariant destination[d..] == old(destination[d..])
    {
      EncodeStep(source, i);
      d := PutEncoded(destination, start, d, source[i]);
    }
    destination[d] := NUL;
  }

  method PutEncoded(destination: array<char>, ghost start: nat, d: nat, c: char) returns (next: nat)
    requires start <= d && d + |EncodeChar(c)| < destination.Length
    modifies destination
    ensures next == d + |EncodeChar(c)|
    ensures destination[start..next] == old(destination[start..d]) + EncodeChar(c)
    ensures destination[..start] == old(destination[..start])
    ensures destination[next..] == old(destination[next..])
  {
    next := d + 1;
    if c == '/' {
      destination[d] := '~';
      destination[next] := '1';
      next := next + 1;
    } else if c == '~' {
      destination[d] := '~';
      destination[next] := '0';
      next := next + 1;
    } else {
      destination[d] := c;
    }
  }

  lemma EncodeStep(s: string, i: nat)
    requires i < |s|
    ensures Encode(s[..i + 1]) == Encode(s[..i]) + EncodeChar(s[i])
    ensures |Encode(s[..i + 1])| <= |Encode(s)|
  {
    assert s[..i + 1] == s[..i] + [s[i]];
    EncodeAppend(s[..i], [s[i]]);
    assert s == s[..i + 1] + s[i + 1..];
    EncodeAppend(s[..i + 1], s[i + 1..]);
    assert Encode([s[i]]) == EncodeChar(s[i]) + Encode([s[i]][1..]);
  }

  // ----- comparing a key with the next token of a pointer -----

  predicate AtEnd(pointer: string) { pointer == "" || pointer[0] == '/' }

  /** What compare_pointers decides. */
  predicate PointerMatches(name: string, pointer: string, cs: bool) {
    if name == "" || AtEnd(pointer) then
      (name == "") == AtEnd(pointer)
    else if pointer[0] == '~' then
      && |pointer| > 1
      && ((pointer[1] == '0' && name[0] == '~') || (pointer[1] == '1' && name[0] == '/'))
      && PointerMatches(name[1..], pointer[2..], cs)
    else
      && (if cs then name[0] == pointer[0] else LowerChar(name[0]) == LowerChar(pointer[0]))
      && PointerMatches(name[1..], pointer[1..], cs)
  }

  method ComparePointers(name: string, pointer: string, caseSensitive: bool) returns (same: bool)
    ensures same == PointerMatches(name, pointer, caseSensitive)
  {
    var n, p := 0, 0;
    while n < |name| && p < |pointer| && pointer[p] != '/'
      invariant n <= |name| && p <= |pointer|
      invariant PointerMatches(name, pointer, caseSensitive) == PointerMatches(name[n..], pointer[p..], caseSensitive)
      decreases |name| - n
    {
      assert name[n..][1..] == name[n + 1..] && pointer[p..][1..] == pointer[p + 1..];
      if pointer[p] == '~' {
        if !(p + 1 < |pointer| && pointer[p + 1] == '0' && name[n] == '~')
           && !(p + 1 < |pointer| && pointer[p + 1] == '1' && name[n] == '/') {
          return false;
        }
        assert pointer[p..][2..] == pointer[p + 2..];
        p := p + 1;
      } else if (!caseSensitive && LowerChar(name[n]) != LowerChar(pointer[p])) || (caseSensitive && name[n] != pointer[p]) {
        return false;
      }
      n, p := n + 1, p + 1;
    }
    if (p < |pointer| && pointer[p] != '/') != (n < |name|) {
      return false;
    }
    return true;
  }

  /** A token matches exactly the keys that it stands for; a malformed token matches nothing. */
  lemma {:induction false} PointerMatchesToken(name: string, token: string, rest: string, cs: bool)
    requires '/' !in token && AtEnd(rest)
    ensures PointerMatches(name, token + rest, cs)
            <==> Decode(token).Some? && SameKey(name, Decode(token).value, cs)
    decreases |token|
  {
    if token == "" {
      assert token + rest == rest;
      if name != "" {
        assert |Lower(name)| > 0;
      }
    } else if name == "" {
      assert Decode(token).Some? ==> |Decode(token).value| > 0;
    } else {
      var step := if token[0] == '~' then 2 else 1;
      LowerCons(name);
      if step <= |token| {
        assert (token + rest)[step..] == token[step..] + rest;
        PointerMatchesToken(name[1..], token[step..], rest, cs);
        var d := Decode(token[step..]);
        if d.Some? {
          var c := if step == 1 then token[0] else if token[1] == '0' then '~' else '/';
          SameKeyCons(name, c, d.value, cs);
        }
      } else {
        assert |token| == 1;
        assert |token + rest| == 1 || (token + rest)[1] == '/';
      }
    }
  }

  lemma SameKeyCons(name: string, c: char, tail: string, cs: bool)
    requires name != ""
    ensures SameKey(name, [c] + tail, cs)
            <==> (if cs then name[0] == c else LowerChar(name[0]) == LowerChar(c)) && SameKey(name[1..], tail, cs)
  {
    LowerCons(name);
    LowerCons([c] + tail);
    assert ([c] + tail)[1..] == tail;
    assert name == [name[0]] + name[1..];
    if !cs && Lower(name) == Lower([c] + tail) {
      assert Lower(name)[1..] == Lower(name[1..]);
      assert Lower([c] + tail)[1..] == Lower(tail);
    }
  }

  /** The escaped key followed by more path matches a key exactly when the two keys are the same. */
  lemma PointerMatchesKey(name: string, key: string, rest: string, cs: bool)
    requires AtEnd(rest)
    ensures PointerMatches(name, Encode(key) + rest, cs) <==> SameKey(name, key, cs)
  {
    DecodeEncode(key);
    EncodeHasNoSlash(key);
    PointerMatchesToken(name, Encode(key), rest, cs);
  }

  // ----- array indices (section 4 of RFC 6901) -----

  /** A loop step of decode_array_index_from_pointer in size_t arithmetic; the character is only known to be at least '0'. */
  function IndexStep(index: nat, c: char): (r: nat)
    requires c >= '0'
    ensures r < SIZE_LIMIT
  {
    (10 * index + (c as int - '0' as int)) % SIZE_LIMIT
  }

  function IndexValue(s: string): nat
    requires forall i :: 0 <= i < |s| ==> s[i] >= '0'
  {
    if s == "" then 0 else IndexStep(IndexValue(s[..|s| - 1]), s[|s| - 1])
  }

  /** How far the digit loop of decode_array_index_from_pointer runs; its upper test looks at the first character only. */
  function IndexRun(pointer: string): (n: nat)
    ensures n <= |pointer|
    ensures forall i :: 0 <= i < n ==> pointer[i] >= '0'
    ensures n < |pointer| && n > 0 ==> pointer[n] < '0'
  {
    if pointer == "" || pointer[0] > '9' then 0 else RunLength(pointer)
  }

  function RunLength(s: string): (n: nat)
    ensures n <= |s|
    ensures forall i :: 0 <= i < n ==> s[i] >= '0'
    ensures n < |s| ==> s[n] < '0'
  {
    if s == "" || s[0] < '0' then 0 else 1 + RunLength(s[1..])
  }

  /** What decode_array_index_from_pointer returns. */
  function DecodeIndex(pointer: string): Option<nat> {
    if |pointer| > 1 && pointer[0] == '0' && pointer[1] != '/' then None
    else
      var n := IndexRun(pointer);
      if n < |pointer| && pointer[n] != '/' then None else Some(IndexValue(pointer[..n]))
  }

  method DecodeArrayIndexFromPointer(pointer: string) returns (index: Option<nat>)
    ensures index == DecodeIndex(pointer)
  {
    if |pointer| > 1 && pointer[0] == '0' && pointer[1] != '/' {
      return None;
    }
    var parsed, position := 0, 0;
    while position < |pointer| && pointer[position] >= '0' && pointer[0] <= '9'
      invariant position <= IndexRun(pointer)
      invariant parsed == IndexValue(pointer[..position])
    {
      assert position < IndexRun(pointer);
      assert pointer[..position + 1][..position] == pointer[..position];
      parsed := IndexStep(parsed, pointer[position]);
      position := position + 1;
    }
    assert position == IndexRun(pointer);
    if position < |pointer| && pointer[position] != '/' {
      return None;
    }
    return Some(parsed);
  }

  /** The array index that a token denotes by section 4 of RFC 6901. */
  function RfcIndex(token: string): Option<nat> {
    if token != "" && AllDigits(token) && (token[0] == '0' ==> |token| == 1) then Some(DecimalValue(token)) else None
  }

  lemma {:induction false} IndexValueOfDigits(s: string)
    requires AllDigits(s)
    ensures IndexValue(s) == DecimalValue(s) % SIZE_LIMIT
  {
    if s != "" {
      var t := s[..|s| - 1];
      IndexValueOfDigits(t);
      StepModulo(DecimalValue(t), DigitValue(s[|s| - 1]));
    }
  }

  lemma StepModulo(v: nat, d: nat)
    ensures (10 * (v % SIZE_LIMIT) + d) % SIZE_LIMIT == (10 * v + d) % SIZE_LIMIT
  {
    var q := v / SIZE_LIMIT;
    assert v == q * SIZE_LIMIT + v % SIZE_LIMIT;
    var a := 10 * (v % SIZE_LIMIT) + d;
    assert 10 * v + d == a + (10 * q) * SIZE_LIMIT;
  }

  lemma {:induction false} RunLengthAppend(s: string, rest: string)
    requires AtEnd(rest)
    ensures RunLength(s + rest) == RunLength(s)
  {
    if s == "" {
      assert s + rest == rest;
    } else {
      assert (s + rest)[1..] == s[1..] + rest;
      RunLengthAppend(s[1..], rest);
    }
  }

  /** The characters after the token do not change its index. */
  lemma DecodeIndexToken(token: string, rest: string)
    requires '/' !in token && AtEnd(rest)
    ensures DecodeIndex(token + rest) == DecodeIndex(token)
  {
    var p := token + rest;
    if token == "" {
      assert p == rest;
    } else {
      RunLengthAppend(token, rest);
      assert IndexRun(p) == IndexRun(token);
      assert p[..IndexRun(p)] == token[..IndexRun(token)];
      assert forall i :: 0 <= i < |token| ==> p[i] == token[i];
      assert |token| < |p| ==> p[|token|] == '/';
    }
  }

  /** Where the upper digit test of the loop goes wrong: a token that starts with a digit and has a later
      character above '9'. */
  predicate LettersAfterDigit(token: string) {
    && token != "" && IsDigit(token[0])
    && (forall i :: 0 <= i < |token| ==> token[i] >= '0')
    && (exists i :: 0 <= i < |token| && token[i] > '9')
  }

  /** Exactly when the code reads an index that RFC 6901 does not allow: the empty token, and letters after
      a first digit that is not a leading zero. On the indices of the standard it is right modulo size_t. */
  lemma DecodeIndexExact(token: string)
    requires '/' !in token
    ensures RfcIndex(token).Some? ==> DecodeIndex(token) == Some(RfcIndex(token).value % 0x1_0000_0000)
    ensures RfcIndex(token).None? ==>
              (DecodeIndex(token).Some? <==>
               token == "" || (LettersAfterDigit(token) && (|token| > 1 ==> token[0] != '0')))
  {
    if RfcIndex(token).Some? {
      assert RunLength(token) == |token|;
      assert token[..|token|] == token;
      IndexValueOfDigits(token);
    } else if token != "" {
      var n := IndexRun(token);
      assert n < |token| ==> token[n] != '/';
    }
  }

  lemma RfcIndexOfDecimal(i: nat)
    ensures '/' !in Decimal(i) && RfcIndex(Decimal(i)) == Some(i)
  {
    DecimalRoundTrip(i);
  }

  /** The text of a number below the limit is read back. */
  lemma DecodeIndexOfDecimal(i: nat, rest: string)
    requires i < SIZE_LIMIT && AtEnd(rest)
    ensures DecodeIndex(Decimal(i) + rest) == Some(i)
  {
    var t := Decimal(i);
    RfcIndexOfDecimal(i);
    assert i % 0x1_0000_0000 == i;
    hide *;
    DecodeIndexToken(t, rest);
    DecodeIndexExact(t);
  }

  // ----- following a pointer -----

  /** A node of a tree, named by the child positions on the way to it. */
  type Path = seq<nat>

  function Arity(node: Json): nat {
    match node
    case Array(items) => |items|
    case Object(ms) => |ms|
    case _ => 0
  }

  function Child(node: Json, i: nat): (c: Json)
    requires i < Arity(node)
    ensures c < node
  {
    match node
    case Array(items) => items[i]
    case Object(ms) => assert ms[i].value < ms[i]; ms[i].value
  }

  function WithChild(node: Json, i: nat, x: Json): (r: Json)
    requires i < Arity(node)
    ensures Arity(r) == Arity(node) && Child(r, i) == x
  {
    match node
    case Array(items) => Array(items[i := x])
    case Object(ms) => Object(ms[i := Member(ms[i].key, x)])
  }

  predicate ValidPath(node: Json, path: Path) {
    path == [] || (path[0] < Arity(node) && ValidPath(Child(node, path[0]), path[1..]))
  }

  function At(node: Json, path: Path): Json
    requires ValidPath(node, path)
  {
    if path == [] then node else At(Child(node, path[0]), path[1..])
  }

  function Update(node: Json, path: Path, x: Json): Json
    requires ValidPath(node, path)
  {
    if path == [] then x
    else WithChild(node, path[0], Update(Child(node, path[0]), path[1..], x))
  }

  /** The first member whose key matches the next token of the pointer. */
  function FindMatch(ms: seq<Member>, pointer: string, cs: bool): (r: Option<nat>)
    ensures r.Some? ==> r.value < |ms|
  {
    if ms == [] then None
    else if PointerMatches(ms[0].key, pointer, cs) then Some(0)
    else match FindMatch(ms[1..], pointer, cs)
         case None => None
         case Some(i) => Some(i + 1)
  }

  /** The child that the token at the front of the pointer selects. */
  function Select(node: Json, pointer: string, cs: bool): (r: Option<nat>)
    ensures r.Some? ==> r.value < Arity(node)
  {
    match node
    case Array(items) =>
      (match DecodeIndex(pointer)
       case None => None
       case Some(i) => if i < |items| then Some(i) else None)
    case Object(ms) => FindMatch(ms, pointer, cs)
    case _ => None
  }

  function SkipToken(pointer: string): (r: string)
    ensures |r| <= |pointer| && AtEnd(r)
  {
    if AtEnd(pointer) then pointer else SkipToken(pointer[1..])
  }

  function Under(i: nat, path: Option<Path>): Option<Path> {
    match path
    case None => None
    case Some(p) => Some([i] + p)
  }

  /** get_item_from_pointer: the node that a pointer leads to; a pointer that does not start with '/'
      leads to the node itself. */
  function Locate(node: Json, pointer: string, cs: bool): (r: Option<Path>)
    ensures r.Some? ==> ValidPath(node, r.value)
    decreases |pointer|
  {
    if pointer == "" || pointer[0] != '/' then Some([])
    else match Select(node, pointer[1..], cs)
         case None => None
         case Some(i) => Under(i, Locate(Child(node, i), SkipToken(pointer[1..]), cs))
  }

  lemma {:induction false} PathAppend(node: Json, p: Path, q: Path)
    requires ValidPath(node, p) && ValidPath(At(node, p), q)
    ensures ValidPath(node, p + q) && At(node, p + q) == At(At(node, p), q)
  {
    if p == [] {
      assert p + q == q;
    } else {
      PathAppend(Child(node, p[0]), p[1..], q);
      assert (p + q)[1..] == p[1..] + q;
    }
  }

  lemma ExtendEmpty(path: Option<Path>)
    ensures Extend([], path) == path
  {
    if path.Some? {
      assert [] + path.value == path.value;
    }
  }

  method GetItemFromPointer(root: Json, pointer: string, caseSensitive: bool) returns (current: Option<Path>)
    ensures current == Locate(root, pointer, caseSensitive)
  {
    var here: Path, p := [], 0;
    assert pointer[0..] == pointer;
    ExtendEmpty(Locate(root, pointer, caseSensitive));
    while p < |pointer| && pointer[p] == '/'
      invariant p <= |pointer| && ValidPath(root, here)
      invariant Locate(root, pointer, caseSensitive)
                == Extend(here, Locate(At(root, here), pointer[p..], caseSensitive))
    {
      var node := At(root, here);
      assert pointer[p..][1..] == pointer[p + 1..];
      var index := SelectChild(node, pointer[p + 1..], caseSensitive);
      if index.None? {
        return None;
      }
      ghost var rest := SkipToken(pointer[p + 1..]);
      ghost var below := Locate(Child(node, index.value), rest, caseSensitive);
      assert Locate(node, pointer[p..], caseSensitive) == Under(index.value, below);
      PathAppend(root, here, [index.value]);
      ExtendUnder(here, index.value, below);
      here := here + [index.value];
      p := SkipToNextToken(pointer, p + 1);
    }
    assert here + [] == here;
    return Some(here);
  }

  /** The branch of the loop that steps into an array or an object. */
  method SelectChild(node: Json, pointer: string, cs: bool) returns (index: Option<nat>)
    ensures index == Select(node, pointer, cs)
  {
    index := None;
    match node {
      case Array(items) =>
        var parsed := DecodeArrayIndexFromPointer(pointer);
        if parsed.Some? && parsed.value < |items| {
          index := parsed;
        }
      case Object(ms) =>
        index := FirstMatch(ms, pointer, cs);
      case _ =>
    }
  }

  method SkipToNextToken(pointer: string, start: nat) returns (p: nat)
    requires start <= |pointer|
    ensures start <= p <= |pointer| && pointer[p..] == SkipToken(pointer[start..])
  {
    p := start;
    while p < |pointer| && pointer[p] != '/'
      invariant start <= p <= |pointer|
      invariant SkipToken(pointer[p..]) == SkipToken(pointer[start..])
    {
      assert pointer[p..][1..] == pointer[p + 1..];
      p := p + 1;
    }
  }

  function Extend(prefix: Path, path: Option<Path>): Option<Path> {
    match path
    case None => None
    case Some(p) => Some(prefix + p)
  }

  lemma ExtendUnder(prefix: Path, i: nat, path: Option<Path>)
    ensures Extend(prefix, Under(i, path)) == Extend(prefix + [i], path)
  {
    if path.Some? {
      assert prefix + ([i] + path.value) == (prefix + [i]) + path.value;
    }
  }

  method FirstMatch(ms: seq<Member>, pointer: string, cs: bool) returns (r: Option<nat>)
    ensures r == FindMatch(ms, pointer, cs)
  {
    var i := 0;
    while i < |ms|
      invariant i <= |ms|
      invariant FindMatch(ms, pointer, cs) == Shift(i, FindMatch(ms[i..], pointer, cs))
    {
      assert ms[i..][1..] == ms[i + 1..];
      var same := ComparePointers(ms[i].key, pointer, cs);
      if same {
        return Some(i);
      }
      i := i + 1;
    }
    return None;
  }

  function Shift(n: nat, r: Option<nat>): Option<nat> {
    match r
    case None => None
    case Some(i) => Some(n + i)
  }

  // ----- finding the pointer of a node, and following it back -----

  function TokenOf(node: Json, i: nat): string
    requires i < Arity(node)
  {
    match node
    case Array(_) => Decimal(i)
    case Object(ms) => Encode(ms[i].key)
  }

  /** cJSONUtils_FindPointerFromObjectTo, with nodes named by their paths. */
  function FindPointer(node: Json, here: Path, target: Path): Option<string>
    decreases node, Arity(node) + 1
  {
    if here == target then Some("") else FindInChildren(node, here, target, 0)
  }

  function FindInChildren(node: Json, here: Path, target: Path, i: nat): Option<string>
    requires i <= Arity(node)
    decreases node, Arity(node) - i
  {
    if i == Arity(node) then None
    else match FindPointer(Child(node, i), here + [i], target)
         case Some(p) => Some("/" + (TokenOf(node, i) + p))
         case None => FindInChildren(node, here, target, i + 1)
  }

  method FindPointerFromObjectTo(node: Json, here: Path, target: Path) returns (pointer: Option<string>)
    ensures pointer == FindPointer(node, here, target)
    decreases node
  {
    if here == target {
      return Some("");
    }
    var i := 0;
    while i < Arity(node)
      invariant i <= Arity(node)
      invariant FindInChildren(node, here, target, 0) == FindInChildren(node, here, target, i)
    {
      var p := FindPointerFromObjectTo(Child(node, i), here + [i], target);
      if p.Some? {
        return Some("/" + (TokenOf(node, i) + p.value));
      }
      i := i + 1;
    }
    return None;
  }

  /** The pointer text of a node. */
  function PointerText(node: Json, path: Path): (p: string)
    requires ValidPath(node, path)
    ensures AtEnd(p)
  {
    if path == [] then ""
    else "/" + (TokenOf(node, path[0]) + PointerText(Child(node, path[0]), path[1..]))
  }

  lemma {:induction false} NotBelow(node: Json, here: Path, target: Path)
    requires !(here <= target)
    ensures FindPointer(node, here, target) == None
    decreases node, Arity(node) + 1
  {
    NotBelowChildren(node, here, target, 0);
  }

  lemma {:induction false} NotBelowChildren(node: Json, here: Path, target: Path, i: nat)
    requires i <= Arity(node) && !(here <= target)
    ensures FindInChildren(node, here, target, i) == None
    decreases node, Arity(node) - i
  {
    if i < Arity(node) {
      NotPrefix(here, i, target);
      NotBelow(Child(node, i), here + [i], target);
      NotBelowChildren(node, here, target, i + 1);
    }
  }

  lemma NotPrefix(here: Path, i: nat, target: Path)
    ensures here + [i] <= target <==> here <= target && |here| < |target| && target[|here|] == i
  {
    if here + [i] <= target {
      assert here == (here + [i])[..|here|];
      assert target[|here|] == (here + [i])[|here|];
    }
  }

  /** The search finds the text of the node at the path, and finds nothing when there is no such node. */
  lemma {:induction false} FindPointerText(node: Json, here: Path, path: Path)
    ensures FindPointer(node, here, here + path)
            == if ValidPath(node, path) then Some(PointerText(node, path)) else None
    decreases node, Arity(node) + 1
  {
    if path != [] {
      assert here != here + path;
      FindInChildrenText(node, here, path, 0);
    } else {
      assert here + path == here;
    }
  }

  lemma {:induction false} FindInChildrenText(node: Json, here: Path, path: Path, i: nat)
    requires i <= Arity(node) && path != [] && i <= path[0]
    ensures FindInChildren(node, here, here + path, i)
            == if ValidPath(node, path) then Some(PointerText(node, path)) else None
    decreases node, Arity(node) - i
  {
    if i < Arity(node) {
      var c := Child(node, i);
      var target := here + path;
      if path[0] == i {
        assert here + path == (here + [i]) + path[1..];
        FindPointerText(c, here + [i], path[1..]);
        if !ValidPath(node, path) {
          NotInLaterChildren(node, here, target, i + 1);
        }
      } else {
        NotPrefix(here, i, target);
        NotBelow(c, here + [i], target);
        FindInChildrenText(node, here, path, i + 1);
      }
    }
  }

  lemma {:induction false} NotInLaterChildren(node: Json, here: Path, target: Path, i: nat)
    requires i <= Arity(node) && here < target && target[|here|] < i
    ensures FindInChildren(node, here, target, i) == None
    decreases Arity(node) - i
  {
    if i < Arity(node) {
      NotPrefix(here, i, target);
      NotBelow(Child(node, i), here + [i], target);
      NotInLaterChildren(node, here, target, i + 1);
    }
  }

  /** No earlier sibling on the way shadows the node: its key is the first that matches. */
  predicate Reachable(node: Json, path: Path, cs: bool)
    requires ValidPath(node, path)
  {
    path != [] ==>
      && (node.Object? ==> FindKey(node.members, node.members[path[0]].key, cs) == Some(path[0]))
      && Reachable(Child(node, path[0]), path[1..], cs)
  }

  ghost predicate ArraysFit(node: Json) {
    Arity(node) < SIZE_LIMIT && forall i :: 0 <= i < Arity(node) ==> ArraysFit(Child(node, i))
  }

  lemma {:induction false} FindMatchKey(ms: seq<Member>, key: string, rest: string, cs: bool)
    requires AtEnd(rest)
    ensures FindMatch(ms, Encode(key) + rest, cs) == FindKey(ms, key, cs)
  {
    if ms != [] {
      PointerMatchesKey(ms[0].key, key, rest, cs);
      FindMatchKey(ms[1..], key, rest, cs);
    }
  }

  lemma {:induction false} SkipTokenOver(token: string, rest: string)
    requires '/' !in token && AtEnd(rest)
    ensures SkipToken(token + rest) == rest
  {
    if token == "" {
      assert token + rest == rest;
    } else {
      assert (token + rest)[1..] == token[1..] + rest;
      SkipTokenOver(token[1..], rest);
    }
  }

  lemma SkipTokenOf(node: Json, i: nat, rest: string)
    requires i < Arity(node) && AtEnd(rest)
    ensures SkipToken(TokenOf(node, i) + rest) == rest
  {
    if node.Object? {
      EncodeHasNoSlash(node.members[i].key);
    }
    SkipTokenOver(TokenOf(node, i), rest);
  }

  lemma LocateStep(node: Json, tail: string, cs: bool)
    ensures Locate(node, "/" + tail, cs)
            == match Select(node, tail, cs)
               case None => None
               case Some(i) => Under(i, Locate(Child(node, i), SkipToken(tail), cs))
  {
    assert ("/" + tail)[1..] == tail;
  }

  lemma UnderIs(i: nat, r: Option<Path>, path: Path)
    ensures Under(i, r) == Some(path) <==> path != [] && path[0] == i && r == Some(path[1..])
  {
    if r.Some? {
      assert ([i] + r.value)[1..] == r.value;
      assert path != [] ==> path == [path[0]] + path[1..];
    }
  }

  lemma SelectToken(node: Json, i: nat, rest: string, cs: bool)
    requires i < Arity(node) < SIZE_LIMIT && AtEnd(rest)
    ensures Select(node, TokenOf(node, i) + rest, cs)
            == FirstWithToken(node, i, cs)
  {
    match node {
      case Array(items) => DecodeIndexOfDecimal(i, rest);
      case Object(ms) => FindMatchKey(ms, ms[i].key, rest, cs);
    }
  }

  /** The member that a lookup of the key of child i finds. */
  function FirstWithToken(node: Json, i: nat, cs: bool): (r: Option<nat>)
    requires i < Arity(node)
    ensures r.Some? ==> r.value < Arity(node)
  {
    if node.Object? then FindKey(node.members, node.members[i].key, cs) else Some(i)
  }

  lemma ReachableStep(node: Json, path: Path, cs: bool)
    requires ValidPath(node, path) && ArraysFit(node) && path != []
    ensures path[0] < Arity(node) < SIZE_LIMIT
    ensures ValidPath(Child(node, path[0]), path[1..]) && ArraysFit(Child(node, path[0]))
    ensures PointerText(node, path) == "/" + (TokenOf(node, path[0]) + PointerText(Child(node, path[0]), path[1..]))
    ensures Reachable(node, path, cs)
            <==> FirstWithToken(node, path[0], cs) == Some(path[0]) && Reachable(Child(node, path[0]), path[1..], cs)
  {
  }

  /** Round trip: the pointer of a node leads back to that very node exactly when no earlier sibling
      shadows it on the way. */
  lemma {:induction false} LocateText(node: Json, path: Path, cs: bool)
    requires ValidPath(node, path) && ArraysFit(node)
    ensures Locate(node, PointerText(node, path), cs) == Some(path) <==> Reachable(node, path, cs)
  {
    if path != [] {
      hide *;
      ReachableStep(node, path, cs);
      var (i, c) := (path[0], Child(node, path[0]));
      var rest := PointerText(c, path[1..]);
      LocateText(c, path[1..], cs);
      SkipTokenOf(node, i, rest);
      SelectToken(node, i, rest, cs);
      LocateStep(node, TokenOf(node, i) + rest, cs);
      var found := FirstWithToken(node, i, cs);
      if found.Some? {
        UnderIs(found.value, Locate(Child(node, found.value), rest, cs), path);
      }
    }
  }

  ghost predicate UniqueKeysThroughout(node: Json) {
    && (node.Object? ==> UniqueKeys(node.members))
    && forall i :: 0 <= i < Arity(node) ==> UniqueKeysThroughout(Child(node, i))
  }

  lemma {:induction false} UniqueKeysReachable(node: Json, path: Path)
    requires UniqueKeysThroughout(node) && ValidPath(node, path)
    ensures Reachable(node, path, true)
  {
    if path != [] {
      UniqueKeysReachable(Child(node, path[0]), path[1..]);
    }
  }

  /** For every tree with unique keys per object and every node of it: GetPointerCaseSensitive after
      FindPointerFromObjectTo is that node. Keys may be empty and may hold '~' and '/'. */
  lemma PointerRoundTrip(root: Json, target: Path)
    requires ValidPath(root, target) && ArraysFit(root) && UniqueKeysThroughout(root)
    ensures FindPointer(root, [], target).Some?
    ensures Locate(root, FindPointer(root, [], target).value, true) == Some(target)
  {
    assert [] + target == target;
    FindPointerText(root, [], target);
    UniqueKeysReachable(root, target);
    LocateText(root, target, true);
  }
}
