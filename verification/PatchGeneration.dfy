/** create_patches of cJSON_Utils. */
module PatchGeneration {
  import opened Text
  import opened Json
  import opened JsonPointer
  import opened JsonOrder
  import opened JsonPatch
  import opened JsonPatchRefinement

  /** compose_patch. */
  function ComposePatch(operation: string, path: string, suffix: Option<string>, value: Option<Json>): Json {
    var fullPath := match suffix case None => path case Some(s) => path + ("/" + Encode(s));
    var fields := [Member("op", String(operation)), Member("path", String(fullPath))];
    Object(fields + match value case None => [] case Some(v) => [Member("value", v)])
  }

  /** create_patches: the patches in the order they are appended. */
  function CreatePatches(path: string, from: Json, to: Json, cs: bool): seq<Json>
    decreases from, 1, 0
  {
    if !SameType(from, to) then [ComposePatch("replace", path, None, Some(to))]
    else
      match from
      case Number(m) => if m != to.n then [ComposePatch("replace", path, None, Some(to))] else []
      case String(s) => if s != to.s then [ComposePatch("replace", path, None, Some(to))] else []
      case Array(items) => CreateItemPatches(from, path, items, to.items, 0, cs)
      case Object(ms) =>
        SortMembersBelow(from, cs);
        CreateMemberPatches(from, path, SortMembers(ms, cs), SortMembers(to.members, cs), cs)
      case _ => []
  }

  /** Elements on both sides are patched in place, leftovers are removed at one fixed index, and new
      elements are appended. */
  function CreateItemPatches(ghost a: Json, path: string, fs: seq<Json>, ts: seq<Json>, index: nat, cs: bool): seq<Json>
    requires forall i :: 0 <= i < |fs| ==> fs[i] < a
    decreases a, 0, |fs| + |ts|
  {
    if fs != [] && ts != [] then
      CreatePatches(path + ("/" + Decimal(index)), fs[0], ts[0], cs)
      + CreateItemPatches(a, path, fs[1..], ts[1..], index + 1, cs)
    else if fs != [] then
      [ComposePatch("remove", path, Some(Decimal(index)), None)] + CreateItemPatches(a, path, fs[1..], ts, index, cs)
    else if ts != [] then
      [ComposePatch("add", path, Some("-"), Some(ts[0]))] + CreateItemPatches(a, path, fs, ts[1..], index + 1, cs)
    else []
  }

  /** The difference between the heads of two sorted member lists; an exhausted list counts as greater. */
  function HeadDifference(fs: seq<Member>, ts: seq<Member>, cs: bool): int
    requires fs != [] || ts != []
  {
    if fs == [] then 1 else if ts == [] then -1 else CompareStrings(fs[0].key, ts[0].key, cs)
  }

  function CreateMemberPatches(ghost a: Json, path: string, fs: seq<Member>, ts: seq<Member>, cs: bool): seq<Json>
    requires Below(fs, a)
    decreases a, 0, |fs| + |ts|
  {
    if fs == [] && ts == [] then []
    else
      var diff := HeadDifference(fs, ts, cs);
      if diff == 0 then
        CreatePatches(path + ("/" + Encode(fs[0].key)), fs[0].value, ts[0].value, cs)
        + CreateMemberPatches(a, path, fs[1..], ts[1..], cs)
      else if diff < 0 then
        [ComposePatch("remove", path, Some(fs[0].key), None)] + CreateMemberPatches(a, path, fs[1..], ts, cs)
      else
        [ComposePatch("add", path, Some(ts[0].key), Some(ts[0].value))] + CreateMemberPatches(a, path, fs, ts[1..], cs)
  }

  /** The path of a child in a buffer of path_length + suffix_length + sizeof("/") bytes, which the path and its terminator fill: "%s/" and
      then the escaped key behind it. */
  method FullPath(path: string, suffix: string) returns (fullPath: string)
    ensures fullPath == path + ("/" + Encode(suffix))
  {
    var suffixLength := PointerEncodedLength(suffix);
    hide Encode;
    var buffer := new char[|path| + suffixLength + 2];
    var end := |path| + 1 + suffixLength;
    forall k | 0 <= k < |path| {
      buffer[k] := path[k];
    }
    buffer[|path|], buffer[|path| + 1] := '/', NUL;
    assert buffer[..|path| + 1] == path + "/";
    EncodeStringAsPointer(buffer, |path| + 1, suffix);
    assert buffer[end] == NUL && end == buffer.Length - 1;
    fullPath := buffer[..end];
    assert fullPath == (path + "/") + Encode(suffix);
    AppendAssociative(path, "/", Encode(suffix));
  }

  /** The array that patches are appended to. */
  class PatchArray {
    var patches: seq<Json>

    constructor ()
      ensures patches == []
    {
      patches := [];
    }

    /** compose_patch. */
    method Compose(operation: string, path: string, suffix: Option<string>, value: Option<Json>)
      modifies this
      ensures patches == old(patches) + [ComposePatch(operation, path, suffix, value)]
    {
      var fullPath := path;
      if suffix.Some? {
        fullPath := FullPath(path, suffix.value);
      }
      var patch := [Member("op", String(operation)), Member("path", String(fullPath))];
      assert patch + [] == patch;
      if value.Some? {
        patch := patch + [Member("value", value.value)];
      }
      patches := patches + [Object(patch)];
    }

    method Create(path: string, from: Json, to: Json, cs: bool)
      modifies this
      ensures patches == old(patches) + CreatePatches(path, from, to, cs)
      decreases from
    {
      if !SameType(from, to) {
        Compose("replace", path, None, Some(to));
        return;
      }
      match from {
        case Number(m) =>
          if m != to.n {
            Compose("replace", path, None, Some(to));
          }
        case String(s) =>
          if s != to.s {
            Compose("replace", path, None, Some(to));
          }
        case Array(items) => CreateForItems(path, from, to, cs);
        case Object(ms) => CreateForMembers(path, from, to, cs);
        case _ =>
      }
    }

    method CreateForItems(path: string, from: Json, to: Json, cs: bool)
      requires from.Array? && to.Array?
      modifies this
      ensures patches == old(patches) + CreatePatches(path, from, to, cs)
      decreases from, 0
    {
      var fs, ts, index := from.items, to.items, 0;
      while fs != [] && ts != []
        invariant forall i :: 0 <= i < |fs| ==> fs[i] < from
        invariant patches + CreateItemPatches(from, path, fs, ts, index, cs) == old(patches) + CreatePatches(path, from, to, cs)
        decreases |fs|
      {
        ghost var (before, later) := (patches, CreateItemPatches(from, path, fs[1..], ts[1..], index + 1, cs));
        Create(path + ("/" + Decimal(index)), fs[0], ts[0], cs);
        AppendAssociative(before, CreatePatches(path + ("/" + Decimal(index)), fs[0], ts[0], cs), later);
        fs, ts, index := fs[1..], ts[1..], index + 1;
      }
      while fs != []
        invariant fs == [] || ts == []
        invariant forall i :: 0 <= i < |fs| ==> fs[i] < from
        invariant patches + CreateItemPatches(from, path, fs, ts, index, cs) == old(patches) + CreatePatches(path, from, to, cs)
        decreases |fs|
      {
        ghost var (before, later) := (patches, CreateItemPatches(from, path, fs[1..], ts, index, cs));
        Compose("remove", path, Some(Decimal(index)), None);
        AppendAssociative(before, [ComposePatch("remove", path, Some(Decimal(index)), None)], later);
        fs := fs[1..];
      }
      while ts != []
        invariant fs == []
        invariant patches + CreateItemPatches(from, path, fs, ts, index, cs) == old(patches) + CreatePatches(path, from, to, cs)
        decreases |ts|
      {
        ghost var (before, later) := (patches, CreateItemPatches(from, path, fs, ts[1..], index + 1, cs));
        Compose("add", path, Some("-"), Some(ts[0]));
        AppendAssociative(before, [ComposePatch("add", path, Some("-"), Some(ts[0]))], later);
        ts, index := ts[1..], index + 1;
      }
    }

    method CreateForMembers(path: string, from: Json, to: Json, cs: bool)
      requires from.Object? && to.Object?
      modifies this
      ensures patches == old(patches) + CreatePatches(path, from, to, cs)
      decreases from, 0
    {
      var fs, ts := SortMembers(from.members, cs), SortMembers(to.members, cs);
      SortMembersBelow(from, cs);
      while fs != [] || ts != []
        invariant Below(fs, from)
        invariant patches + CreateMemberPatches(from, path, fs, ts, cs) == old(patches) + CreatePatches(path, from, to, cs)
        decreases |fs| + |ts|
      {
        var diff := HeadDifference(fs, ts, cs);
        ghost var before := patches;
        if diff == 0 {
          var newPath := FullPath(path, fs[0].key);
          Create(newPath, fs[0].value, ts[0].value, cs);
          AppendAssociative(before, CreatePatches(path + ("/" + Encode(fs[0].key)), fs[0].value, ts[0].value, cs),
                            CreateMemberPatches(from, path, fs[1..], ts[1..], cs));
          fs, ts := fs[1..], ts[1..];
        } else if diff < 0 {
          Compose("remove", path, Some(fs[0].key), None);
          AppendAssociative(before, [ComposePatch("remove", path, Some(fs[0].key), None)],
                            CreateMemberPatches(from, path, fs[1..], ts, cs));
          fs := fs[1..];
        } else {
          Compose("add", path, Some(ts[0].key), Some(ts[0].value));
          AppendAssociative(before, [ComposePatch("add", path, Some(ts[0].key), Some(ts[0].value))],
                            CreateMemberPatches(from, path, fs, ts[1..], cs));
          ts := ts[1..];
        }
      }
    }
  }

  /** cJSONUtils_GeneratePatches and its case sensitive form. */
  method GeneratePatches(from: Json, to: Json, cs: bool) returns (patches: Json)
    ensures patches == Array(CreatePatches("", from, to, cs))
  {
    var result := new PatchArray();
    result.Create("", from, to, cs);
    assert [] + CreatePatches("", from, to, cs) == CreatePatches("", from, to, cs);
    return Array(result.patches);
  }
}
