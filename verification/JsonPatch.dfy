/** apply_patch of cJSON_Utils on item trees, and its agreement with RFC 6902. */
module JsonPatch {
  import opened Text
  import opened Json
  import opened JsonPointer
  import opened JsonOrder

  // ----- decode_pointer_inplace -----

  /** The loop of decode_pointer_inplace: "src" and "dst" are the two pointers into the one string.
      Ordinary characters are not moved, and "~1" stores its '/' one place too far. */
  function DecodeFrom(mem: string, src: nat, dst: nat): string
    requires dst <= src <= |mem|
    decreases |mem| - src
  {
    if src == |mem| then mem[..dst]
    else if mem[src] == '~' then
      if src + 1 < |mem| && mem[src + 1] == '0' then DecodeFrom(mem[dst := '~'], src + 2, dst + 1)
      else if src + 1 < |mem| && mem[src + 1] == '1' then DecodeFrom(mem[dst + 1 := '/'], src + 2, dst + 1)
      else mem
    else DecodeFrom(mem, src + 1, dst + 1)
  }

  function DecodeInPlace(token: string): string {
    DecodeFrom(token, 0, 0)
  }

  method DecodePointerInPlace(buffer: array<char>, length: nat) returns (decoded: nat)
    requires length < buffer.Length && buffer[length] == NUL
    requires forall i :: 0 <= i < length ==> buffer[i] != NUL
    modifies buffer
    ensures decoded <= length
    ensures buffer[..decoded] == DecodeInPlace(old(buffer[..length]))
    ensures buffer[decoded] == NUL
  {
    var src, dst := 0, 0;
    ghost var token := buffer[..length];
    while buffer[src] != NUL
      invariant dst <= src <= length && buffer[length] == NUL
      invariant forall i :: 0 <= i < length ==> buffer[i] != NUL
      invariant DecodeInPlace(token) == DecodeFrom(buffer[..length], src, dst)
      decreases length - src
    {
      ghost var mem := buffer[..length];
      if buffer[src] == '~' {
        if buffer[src + 1] == '0' {
          buffer[dst] := '~';
          assert buffer[..length] == mem[dst := '~'];
        } else if buffer[src + 1] == '1' {
          buffer[dst + 1] := '/';
          assert buffer[..length] == mem[dst + 1 := '/'];
        } else {
          return length;
        }
        src := src + 1;
      }
      src, dst := src + 1, dst + 1;
    }
    assert src == length;
    assert buffer[..length][..dst] == buffer[..dst];
    buffer[dst] := NUL;
    return dst;
  }

  /** The keys whose escaped form survives decode_pointer_inplace: no '/', and after the first '~' every
      character is '~' or happens to stand at the same place of the escaped form. */
  predicate Undamaged(key: string) {
    && '/' !in key
    && |key| <= |Encode(key)|
    && forall i :: 0 <= i < |key| ==> key[i] == '~' || Encode(key)[i] == key[i]
  }

  /** Where the escaped form of the first n characters ends. */
  ghost function Offset(key: string, n: nat): nat
    requires n <= |key|
  {
    |Encode(key[..n])|
  }

  /** Memory when the first n characters of a '/'-free prefix of the key have been handled. */
  ghost predicate Progress(key: string, mem: string, n: nat) {
    && n <= |key| && '/' !in key[..n]
    && n <= Offset(key, n) <= |Encode(key)| == |mem|
    && (forall i :: 0 <= i < n ==> mem[i] == if key[i] == '~' then '~' else Encode(key)[i])
    && (forall i :: n <= i < |mem| ==> mem[i] == Encode(key)[i])
  }

  lemma {:induction false} Frozen(mem: string, src: nat, dst: nat, i: nat)
    requires i < dst <= src <= |mem|
    ensures |DecodeFrom(mem, src, dst)| > i && DecodeFrom(mem, src, dst)[i] == mem[i]
    decreases |mem| - src
  {
    if src == |mem| {
    } else if mem[src] == '~' {
      if src + 1 < |mem| && mem[src + 1] == '0' {
        Frozen(mem[dst := '~'], src + 2, dst + 1, i);
      } else if src + 1 < |mem| && mem[src + 1] == '1' {
        Frozen(mem[dst + 1 := '/'], src + 2, dst + 1, i);
      }
    } else {
      Frozen(mem, src + 1, dst + 1, i);
    }
  }

  /** Where the escape of character n stands in the escaped key. */
  lemma EncodeAt(key: string, n: nat)
    requires n < |key|
    ensures var (src, e) := (Offset(key, n), EncodeChar(key[n]));
            && Offset(key, n + 1) == src + |e| <= |Encode(key)|
            && forall k :: 0 <= k < |e| ==> Encode(key)[src + k] == e[k]
  {
    hide Encode, EncodeChar;
    EncodeStep(key, n);
    var (u, v) := (Encode(key[..n + 1]), Encode(key[n + 1..]));
    assert key == key[..n + 1] + key[n + 1..];
    EncodeAppend(key[..n + 1], key[n + 1..]);
    assert Encode(key) == u + v;
    assert u == Encode(key[..n]) + EncodeChar(key[n]);
  }

  lemma DecodeFromTilde(mem: string, src: nat, dst: nat)
    requires dst <= src && src + 1 < |mem| && mem[src] == '~' && mem[src + 1] == '0'
    ensures DecodeFrom(mem, src, dst) == DecodeFrom(mem[dst := '~'], src + 2, dst + 1)
  {
  }

  lemma DecodeFromOther(mem: string, src: nat, dst: nat)
    requires dst <= src < |mem| && mem[src] != '~'
    ensures DecodeFrom(mem, src, dst) == DecodeFrom(mem, src + 1, dst + 1)
  {
  }

  lemma ProgressStep(key: string, mem: string, next: string, n: nat)
    requires Progress(key, mem, n) && n < |key| && key[n] != '/' && |next| == |mem|
    requires n < Offset(key, n + 1) <= |Encode(key)| && next[n] == (if key[n] == '~' then '~' else Encode(key)[n])
    requires forall i :: 0 <= i < |mem| && i != n ==> next[i] == mem[i]
    ensures Progress(key, next, n + 1)
  {
    hide Encode, Offset;
    assert key[..n + 1] == key[..n] + [key[n]];
  }

  lemma OffsetGrows(key: string, mem: string, n: nat)
    requires Progress(key, mem, n) && n < |key|
    ensures n < |mem| == |Encode(key)| && n < Offset(key, n + 1) <= |Encode(key)|
    ensures mem[n] == Encode(key)[n]
  {
    EncodeAt(key, n);
    hide Encode, Offset;
  }

  lemma ProgressTilde(key: string, mem: string, n: nat)
    requires Progress(key, mem, n) && n < |key| && key[n] == '~'
    ensures n < |mem| && Progress(key, mem[n := '~'], n + 1)
  {
    hide Progress, Encode, Offset;
    OffsetGrows(key, mem, n);
    ProgressStep(key, mem, mem[n := '~'], n);
  }

  lemma ProgressOther(key: string, mem: string, n: nat)
    requires Progress(key, mem, n) && n < |key| && key[n] != '~' && key[n] != '/'
    ensures Progress(key, mem, n + 1)
  {
    hide Progress, Encode, Offset;
    OffsetGrows(key, mem, n);
    ProgressStep(key, mem, mem, n);
  }

  lemma {:induction false} DecodeRun(key: string, mem: string, n: nat)
    requires Progress(key, mem, n)
    ensures Offset(key, n) <= |mem| && n <= Offset(key, n)
    ensures DecodeFrom(mem, Offset(key, n), n) == key <==> Undamaged(key)
    decreases |key| - n
  {
    hide DecodeFrom, Offset, Encode, Undamaged;
    if n == |key| {
      DecodeEnd(key, mem);
    } else if key[n] == '/' {
      DecodeSlash(key, mem, n);
    } else {
      hide *;
      CharacterAhead(key, mem, n);
      if key[n] == '~' {
        DecodeFromTilde(mem, Offset(key, n), n);
        ProgressTilde(key, mem, n);
        DecodeRun(key, mem[n := '~'], n + 1);
      } else {
        DecodeFromOther(mem, Offset(key, n), n);
        ProgressOther(key, mem, n);
        DecodeRun(key, mem, n + 1);
      }
    }
  }

  lemma CharacterAhead(key: string, mem: string, n: nat)
    requires Progress(key, mem, n) && n < |key| && key[n] != '/'
    ensures n <= Offset(key, n) < |mem|
    ensures key[n] == '~' ==> Offset(key, n) + 1 < |mem| && mem[Offset(key, n)] == '~' && mem[Offset(key, n) + 1] == '0'
                              && Offset(key, n + 1) == Offset(key, n) + 2
    ensures key[n] != '~' ==> mem[Offset(key, n)] != '~' && Offset(key, n + 1) == Offset(key, n) + 1
  {
    EncodeAt(key, n);
    MemoryAhead(key, mem, n);
    hide Offset, Encode, Progress;
  }

  lemma MemoryAhead(key: string, mem: string, n: nat)
    requires Progress(key, mem, n) && n < |key|
    ensures var (src, e) := (Offset(key, n), EncodeChar(key[n]));
            && n <= src && src + |e| <= |mem| == |Encode(key)|
            && 1 <= |e| <= 2
            && mem[src] == e[0]
            && (|e| == 2 ==> mem[src + 1] == e[1])
  {
    EncodeAt(key, n);
    var src := Offset(key, n);
    assert mem[src + 0] == EncodeChar(key[n])[0];
    assert |EncodeChar(key[n])| == 2 ==> mem[src + 1] == EncodeChar(key[n])[1];
    hide Encode, EncodeChar;
  }

  lemma DecodeEnd(key: string, mem: string)
    requires Progress(key, mem, |key|)
    ensures DecodeFrom(mem, Offset(key, |key|), |key|) == key <==> Undamaged(key)
  {
    assert key[..|key|] == key;
    assert DecodeFrom(mem, |mem|, |key|) == mem[..|key|];
    hide Encode, DecodeFrom;
    var n := |key|;
    if mem[..n] == key {
      assert forall i :: 0 <= i < n ==> mem[..n][i] == mem[i];
    } else {
      assert exists i :: 0 <= i < n && mem[i] != key[i];
    }
  }

  lemma DecodeSlash(key: string, mem: string, n: nat)
    requires Progress(key, mem, n) && n < |key| && key[n] == '/'
    ensures DecodeFrom(mem, Offset(key, n), n) != key && !Undamaged(key)
  {
    var src := Offset(key, n);
    MemoryAhead(key, mem, n);
    EncodeHasNoSlash(key);
    assert mem[n] != '/';
    assert mem[src] == '~' && mem[src + 1] == '1';
    Frozen(mem[n + 1 := '/'], src + 2, n + 1, n);
  }

  /** Exactly when decode_pointer_inplace undoes encode_string_as_pointer. */
  lemma DecodeInPlaceExact(key: string)
    ensures DecodeInPlace(Encode(key)) == key <==> Undamaged(key)
  {
    assert key[..0] == "" && Encode("") == "";
    EncodeHasNoSlash(key);
    DecodeRun(key, Encode(key), 0);
  }

  lemma {:induction false} EncodePlain(key: string)
    requires '/' !in key && '~' !in key
    ensures Encode(key) == key
  {
    if key != "" {
      EncodePlain(key[1..]);
    }
  }

  /** Keys without '~' and '/' are safe; a key with a '/' never is. */
  lemma UndamagedPlain(key: string)
    ensures '/' !in key && '~' !in key ==> Undamaged(key)
    ensures '/' in key ==> !Undamaged(key)
  {
    if '/' !in key && '~' !in key {
      EncodePlain(key);
    }
  }

  // ----- apply_patch -----

  /** A status code (0 is success) and the document afterwards. */
  datatype Applied = Applied(status: int, doc: Json)

  datatype Detached = NotFound | Detached(item: Json, rest: Json)

  /** get_object_item on any item: only objects have members with keys. */
  function GetMember(item: Json, name: string, cs: bool): Option<Json> {
    if item.Object? then Lookup(item.members, name, cs) else None
  }

  /** strrchr(path, '/'). */
  function LastSlash(path: string): (r: Option<nat>)
    ensures r.Some? ==> r.value < |path| && path[r.value] == '/' && '/' !in path[r.value + 1..]
    ensures r.None? ==> '/' !in path
  {
    if path == "" then None
    else
      var n := |path| - 1;
      if path[n] == '/' then Some(n)
      else
        var r := LastSlash(path[..n]);
        assert r.Some? ==> path[r.value + 1..] == path[..n][r.value + 1..] + [path[n]];
        assert r.None? ==> path == path[..n] + [path[n]];
        r
  }

  /** Detaching a child; keys are compared without regard to case whatever the caller asked for. */
  function DetachChild(parent: Json, token: string): Detached {
    match parent
    case Array(items) =>
      (match DecodeIndex(token)
       case None => NotFound
       case Some(i) => if i < |items| then Detached(items[i], Array(RemoveAt(items, i))) else NotFound)
    case Object(ms) =>
      (match FindKey(ms, token, false)
       case None => NotFound
       case Some(i) => Detached(ms[i].value, Object(RemoveAt(ms, i))))
    case _ => NotFound
  }

  /** detach_path. */
  function DetachPath(doc: Json, path: string, cs: bool): Detached {
    match LastSlash(path)
    case None => NotFound
    case Some(n) =>
      (match Locate(doc, path[..n], cs)
       case None => NotFound
       case Some(loc) =>
         (match DetachChild(At(doc, loc), DecodeInPlace(path[n + 1..]))
          case NotFound => NotFound
          case Detached(item, parent) => Detached(item, Update(doc, loc, parent))))
  }

  /** Adding a child to a parent: the end of apply_patch. */
  function AddChild(parent: Json, token: string, value: Json, cs: bool): Applied {
    match parent
    case Array(items) =>
      if token == "-" then Applied(0, Array(items + [value]))
      else
        (match DecodeIndex(token)
         case None => Applied(11, parent)
         case Some(i) => if i <= |items| then Applied(0, Array(InsertAt(items, i, value))) else Applied(10, parent))
    case Object(ms) =>
      var kept := match FindKey(ms, token, cs) case None => ms case Some(i) => RemoveAt(ms, i);
      Applied(0, Object(kept + [Member(token, value)]))
    case _ => Applied(9, parent)
  }

  function AddPath(doc: Json, path: string, value: Json, cs: bool): Applied {
    match LastSlash(path)
    case None => Applied(9, doc)
    case Some(n) =>
      (match Locate(doc, path[..n], cs)
       case None => Applied(9, doc)
       case Some(loc) =>
         var r := AddChild(At(doc, loc), DecodeInPlace(path[n + 1..]), value, cs);
         if r.status == 0 then Applied(0, Update(doc, loc, r.doc)) else Applied(r.status, doc))
  }

  /** apply_patch. A "test" reorders members of the document, which this function does not show. */
  function ApplyPatch(doc: Json, patch: Json, cs: bool): Applied {
    var path := GetMember(patch, "path", cs);
    var op := GetMember(patch, "op", cs);
    if !(path.Some? && path.value.String?) then Applied(2, doc)
    else if !(op.Some? && op.value.String?) then Applied(3, doc)
    else if op.value.s == "test" then
      ApplyTest(doc, path.value.s, GetMember(patch, "value", cs), cs)
    else if op.value.s == "remove" then
      if path.value.s == "" then Applied(0, Invalid)
      else
        match DetachPath(doc, path.value.s, cs)
        case NotFound => Applied(13, doc)
        case Detached(_, rest) => Applied(0, rest)
    else if op.value.s == "replace" || op.value.s == "add" then
      ApplyWithValue(doc, op.value.s == "replace", path.value.s, GetMember(patch, "value", cs), cs)
    else if op.value.s == "move" then
      ApplyMove(doc, path.value.s, GetMember(patch, "from", cs), cs)
    else if op.value.s == "copy" then
      ApplyCopy(doc, path.value.s, GetMember(patch, "from", cs), cs)
    else Applied(3, doc)
  }

  function ApplyTest(doc: Json, path: string, value: Option<Json>, cs: bool): Applied {
    match (Locate(doc, path, cs), value)
    case (Some(loc), Some(v)) => Applied(if CompareJson(At(doc, loc), v, cs) then 0 else 1, doc)
    case _ => Applied(1, doc)
  }

  function ApplyWithValue(doc: Json, replace: bool, path: string, value: Option<Json>, cs: bool): Applied {
    if path == "" then
      match value
      case None => Applied(7, doc)
      case Some(v) => Applied(0, v)
    else if !replace then
      match value
      case None => Applied(7, doc)
      case Some(v) => AddPath(doc, path, v, cs)
    else
      match DetachPath(doc, path, cs)
      case NotFound => Applied(13, doc)
      case Detached(_, rest) =>
        match value
        case None => Applied(7, rest)
        case Some(v) => AddPath(rest, path, v, cs)
  }

  function ApplyMove(doc: Json, path: string, from: Option<Json>, cs: bool): Applied {
    if from.None? then Applied(4, doc)
    else if !from.value.String? then Applied(5, doc)
    else
      match DetachPath(doc, from.value.s, cs)
      case NotFound => Applied(5, doc)
      case Detached(item, rest) => AddPath(rest, path, item, cs)
  }

  function ApplyCopy(doc: Json, path: string, from: Option<Json>, cs: bool): Applied {
    if from.None? then Applied(4, doc)
    else if !from.value.String? then Applied(5, doc)
    else
      match Locate(doc, from.value.s, cs)
      case None => Applied(5, doc)
      case Some(loc) => AddPath(doc, path, At(doc, loc), cs)
  }

  /** cJSONUtils_ApplyPatches over the patches of an array, stopping at the first failure. */
  function ApplyAll(doc: Json, patches: seq<Json>, cs: bool): Applied
    decreases |patches|
  {
    if patches == [] then Applied(0, doc)
    else
      var r := ApplyPatch(doc, patches[0], cs);
      if r.status != 0 then r else ApplyAll(r.doc, patches[1..], cs)
  }

  lemma {:induction false} ApplyAllAppend(doc: Json, ps: seq<Json>, qs: seq<Json>, cs: bool)
    requires ApplyAll(doc, ps, cs).status == 0
    ensures ApplyAll(doc, ps + qs, cs) == ApplyAll(ApplyAll(doc, ps, cs).doc, qs, cs)
    decreases |ps|
  {
    hide ApplyPatch;
    if ps == [] {
      assert ps + qs == qs;
    } else {
      assert (ps + qs)[1..] == ps[1..] + qs && (ps + qs)[0] == ps[0];
      ApplyAllAppend(ApplyPatch(doc, ps[0], cs).doc, ps[1..], qs, cs);
    }
  }
}
