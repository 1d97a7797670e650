/** cJSON_Minify, which rewrites a text in place. */
module Minify {
  import opened Text

  // ----- what the loops leave of a text -----

  /** cJSON_Minify from outside a literal. */
  function Minified(s: string): string
    decreases |s|
  {
    if s == "" then ""
    else if s[0] == ' ' || s[0] == '\t' || s[0] == '\r' || s[0] == '\n' then Minified(s[1..])
    else if s[0] == '/' then
      if |s| > 1 && s[1] == '/' then Minified(AfterLine(s[2..]))
      else if |s| > 1 && s[1] == '*' then Minified(AfterBlock(s[2..]))
      else Minified(s[1..])
    else if s[0] == '"' then "\"" + MinifiedIn(s[1..])
    else [s[0]] + Minified(s[1..])
  }

  /** minify_string behind the opening quote: a backslash in front of a quote escapes it, whatever is in front of the backslash. */
  function MinifiedIn(s: string): string
    decreases |s|
  {
    if s == "" then ""
    else if s[0] == '"' then "\"" + Minified(s[1..])
    else if s[0] == '\\' && |s| > 1 && s[1] == '"' then "\\\"" + MinifiedIn(s[2..])
    else [s[0]] + MinifiedIn(s[1..])
  }

  /** What is behind the end of the line. */
  function AfterLine(s: string): (r: string)
    ensures |r| <= |s|
  {
    if s == "" then "" else if s[0] == '\n' then s[1..] else AfterLine(s[1..])
  }

  /** What is behind the end of a comment. */
  function AfterBlock(s: string): (r: string)
    ensures |r| <= |s|
  {
    if s == "" then "" else if s[0] == '*' && |s| > 1 && s[1] == '/' then s[2..] else AfterBlock(s[1..])
  }

  // ----- the loops -----

  /** From here on the array holds a string that ends at n. */
  predicate StringFrom(a: array<char>, start: nat, n: nat)
    reads a
  {
    start <= n < a.Length && a[n] == NUL && forall i :: start <= i < n ==> a[i] != NUL
  }

  method SkipLine(a: array<char>, start: nat, ghost n: nat) returns (json: nat)
    requires StringFrom(a, start, n) && start + 2 <= n
    ensures start + 2 <= json <= n && a[json..n] == AfterLine(a[start + 2..n])
  {
    json := start + 2;
    while a[json] != NUL
      invariant start + 2 <= json <= n
      invariant AfterLine(a[json..n]) == AfterLine(a[start + 2..n])
      decreases n - json
    {
      assert a[json..n][1..] == a[json + 1..n];
      if a[json] == '\n' {
        json := json + 1;
        return;
      }
      json := json + 1;
    }
  }

  method SkipBlock(a: array<char>, start: nat, ghost n: nat) returns (json: nat)
    requires StringFrom(a, start, n) && start + 2 <= n
    ensures start + 2 <= json <= n && a[json..n] == AfterBlock(a[start + 2..n])
  {
    json := start + 2;
    while a[json] != NUL
      invariant start + 2 <= json <= n
      invariant AfterBlock(a[json..n]) == AfterBlock(a[start + 2..n])
      decreases n - json
    {
      assert a[json..n][1..] == a[json + 1..n];
      if a[json] == '*' && a[json + 1] == '/' {
        assert a[json..n][2..] == a[json + 2..n];
        json := json + 2;
        return;
      }
      json := json + 1;
    }
  }

  /** A character is copied down; the text behind it, up to the given end, stays. */
  method Copy(a: array<char>, json: nat, into: nat, ghost n: nat)
    requires into <= json < n <= a.Length
    modifies a
    ensures a[..into + 1] == old(a[..into]) + [old(a[json])] && forall i :: json <= i < a.Length ==> a[i] == old(a[i])
    ensures a[json + 1..n] == old(a[json + 1..n])
  {
    a[into] := a[json];
  }

  lemma LiteralStep(rest: string)
    requires rest != ""
    ensures rest[0] == '"' ==> MinifiedIn(rest) == [rest[0]] + Minified(rest[1..])
    ensures var escape := rest[0] == '\\' && |rest| > 1 && rest[1] == '"';
            && (escape ==> MinifiedIn(rest) == [rest[0], rest[1]] + MinifiedIn(rest[2..]))
            && (rest[0] != '"' && !escape ==> MinifiedIn(rest) == [rest[0]] + MinifiedIn(rest[1..]))
  {
  }

  /** A turn of the loop of minify_string. */
  lemma LiteralTurn(head: string, rest: string)
    requires rest != ""
    ensures rest[0] == '"' ==> head + MinifiedIn(rest) == (head + [rest[0]]) + Minified(rest[1..])
    ensures var escape := rest[0] == '\\' && |rest| > 1 && rest[1] == '"';
            && (escape ==> head + MinifiedIn(rest) == ((head + [rest[0]]) + [rest[1]]) + MinifiedIn(rest[2..]))
            && (rest[0] != '"' && !escape ==> head + MinifiedIn(rest) == (head + [rest[0]]) + MinifiedIn(rest[1..]))
  {
    hide *;
    LiteralStep(rest);
    if rest[0] == '"' {
      AppendAssociative(head, [rest[0]], Minified(rest[1..]));
    } else if rest[0] == '\\' && |rest| > 1 && rest[1] == '"' {
      AppendAssociative(head, [rest[0], rest[1]], MinifiedIn(rest[2..]));
      assert head + [rest[0], rest[1]] == (head + [rest[0]]) + [rest[1]];
    } else {
      AppendAssociative(head, [rest[0]], MinifiedIn(rest[1..]));
    }
  }

  lemma Slices(a: array<char>, json: nat, n: nat)
    requires json < n <= a.Length
    ensures a[json..n] != [] && a[json..n][0] == a[json] && a[json..n][1..] == a[json + 1..n]
    ensures json + 1 < n ==> a[json..n][1] == a[json + 1] && a[json..n][2..] == a[json + 2..n]
  {
  }

  lemma NothingLeft()
    ensures Minified("") == "" == MinifiedIn("")
  {
  }

  /** A turn of the loop of minify_string; "whole" is what comes out in the end. */
  method LiteralCharacter(a: array<char>, at: nat, to: nat, ghost n: nat, ghost whole: string) returns (json: nat, into: nat, closed: bool)
    requires StringFrom(a, at, n) && to <= at < n && a[..to] + MinifiedIn(a[at..n]) == whole
    modifies a
    ensures StringFrom(a, json, n) && at < json && into <= json && forall i :: json <= i < a.Length ==> a[i] == old(a[i])
    ensures a[..into] + (if closed then Minified(a[json..n]) else MinifiedIn(a[json..n])) == whole
  {
    hide Minified, MinifiedIn;
    ghost var rest := a[at..n];
    Slices(a, at, n);
    LiteralTurn(a[..to], rest);
    Copy(a, at, to, n);
    json, into, closed := at + 1, to + 1, a[at] == '"';
    if a[at] == '\\' && a[at + 1] == '"' {
      Slices(a, at + 1, n);
      assert rest[1..][1..] == rest[2..];
      Copy(a, at + 1, to + 1, n);
      json, into := at + 2, to + 2;
    }
  }

  /** minify_string: the literal is copied down to "into". */
  method MinifyString(a: array<char>, start: nat, to: nat, ghost n: nat) returns (json: nat, into: nat)
    requires StringFrom(a, start, n) && to <= start < n && a[start] == '"'
    modifies a
    ensures StringFrom(a, json, n) && start < json && into <= json && forall i :: json <= i < a.Length ==> a[i] == old(a[i])
    ensures a[..into] + Minified(a[json..n]) == old(a[..to]) + ("\"" + MinifiedIn(old(a[start + 1..n])))
  {
    hide Minified, MinifiedIn;
    ghost var (was, left) := (a[..to] + "\"", a[start + 1..n]);
    AppendAssociative(a[..to], "\"", MinifiedIn(left));
    NothingLeft();
    Copy(a, start, to, n);
    json, into := start + 1, to + 1;
    while a[json] != NUL
      invariant StringFrom(a, json, n) && start < json && into <= json
      invariant forall i :: json <= i < a.Length ==> a[i] == old(a[i])
      invariant a[..into] + MinifiedIn(a[json..n]) == was + MinifiedIn(left)
      decreases n - json
    {
      var closed;
      json, into, closed := LiteralCharacter(a, json, into, n, was + MinifiedIn(left));
      if closed {
        return;
      }
    }
    assert a[json..n] == "";
  }

  // ----- the whole text -----

  lemma OutsideStep(s: string)
    requires s != ""
    ensures var c := s[0];
            && (c == ' ' || c == '\t' || c == '\r' || c == '\n' ==> Minified(s) == Minified(s[1..]))
            && (c == '"' ==> Minified(s) == "\"" + MinifiedIn(s[1..]))
            && (c == '/' ==> Minified(s) == if |s| > 1 && s[1] == '/' then Minified(AfterLine(s[2..]))
                                            else if |s| > 1 && s[1] == '*' then Minified(AfterBlock(s[2..])) else Minified(s[1..]))
            && (c != ' ' && c != '\t' && c != '\r' && c != '\n' && c != '"' && c != '/' ==> Minified(s) == [c] + Minified(s[1..]))
  {
    hide AfterLine, AfterBlock;
  }

  /** A turn of the loop of cJSON_Minify. */
  method Turn(a: array<char>, at: nat, to: nat, ghost n: nat, ghost whole: string) returns (json: nat, into: nat)
    requires StringFrom(a, at, n) && to <= at < n && a[..to] + Minified(a[at..n]) == whole
    modifies a
    ensures StringFrom(a, json, n) && at < json && into <= json && forall i :: json <= i < a.Length ==> a[i] == old(a[i])
    ensures a[..into] + Minified(a[json..n]) == whole
  {
    hide Minified, MinifiedIn, AfterLine, AfterBlock;
    ghost var (head, rest) := (a[..to], a[at..n]);
    Slices(a, at, n);
    OutsideStep(rest);
    var c := a[at];
    json, into := at + 1, to;
    if c == ' ' || c == '\t' || c == '\r' || c == '\n' {
    } else if c == '/' {
      if a[at + 1] == '/' {
        json := SkipLine(a, at, n);
      } else if a[at + 1] == '*' {
        json := SkipBlock(a, at, n);
      }
    } else if c == '"' {
      json, into := MinifyString(a, at, to, n);
    } else {
      AppendAssociative(head, [c], Minified(rest[1..]));
      Copy(a, at, to, n);
      into := to + 1;
    }
  }

  /** cJSON_Minify: the string in the buffer becomes the minified one, in place, and the memory behind it is not touched. */
  method Minify(a: array<char>, ghost n: nat)
    requires StringFrom(a, 0, n)
    modifies a
    ensures var m := Minified(old(a[..n]));
            |m| <= n && a[..|m| + 1] == m + [NUL] && forall i :: n < i < a.Length ==> a[i] == old(a[i])
  {
    hide Minified;
    ghost var whole := Minified(a[..n]);
    assert a[0..n] == a[..n] && a[..0] == [] && [] + whole == whole;
    NothingLeft();
    var json, into := 0, 0;
    while a[json] != NUL
      invariant 0 <= into <= json && StringFrom(a, json, n) && forall i :: json <= i < a.Length ==> a[i] == old(a[i])
      invariant a[..into] + Minified(a[json..n]) == whole
      decreases n - json
    {
      json, into := Turn(a, json, into, n, whole);
    }
    assert a[json..n] == "" && a[..into] + "" == a[..into];
    a[into] := NUL;
    assert a[..into] == whole;
  }

  // ----- comments -----

  lemma {:induction false} LineEnds(t: string, rest: string)
    requires '\n' !in t
    ensures AfterLine(t + ("\n" + rest)) == rest
    decreases |t|
  {
    var s := t + ("\n" + rest);
    if t == "" {
      assert s[1..] == rest;
    } else {
      LineEnds(t[1..], rest);
      assert s[1..] == t[1..] + ("\n" + rest) && s[0] == t[0];
    }
  }

  lemma {:induction false} BlockEnds(t: string, rest: string)
    requires forall i :: 0 <= i < |t| - 1 && t[i] == '*' ==> t[i + 1] != '/'
    ensures AfterBlock(t + ("*/" + rest)) == rest
    decreases |t|
  {
    var s := t + ("*/" + rest);
    if t == "" {
      assert s[2..] == rest;
    } else {
      BlockEnds(t[1..], rest);
      assert s[1..] == t[1..] + ("*/" + rest) && s[0] == t[0];
      assert s[1] == if |t| > 1 then t[1] else '*';
    }
  }

  /** A comment up to the end of its line, and one up to the first closing mark, are dropped. */
  lemma CommentsDropped(t: string, rest: string)
    ensures '\n' !in t ==> Minified("//" + (t + ("\n" + rest))) == Minified(rest)
    ensures (forall i :: 0 <= i < |t| - 1 && t[i] == '*' ==> t[i + 1] != '/') ==> Minified("/*" + (t + ("*/" + rest))) == Minified(rest)
  {
    hide Minified, AfterLine, AfterBlock;
    var (line, block) := ("//" + (t + ("\n" + rest)), "/*" + (t + ("*/" + rest)));
    assert line[2..] == t + ("\n" + rest) && block[2..] == t + ("*/" + rest);
    OutsideStep(line);
    OutsideStep(block);
    if '\n' !in t {
      LineEnds(t, rest);
    }
    if forall i :: 0 <= i < |t| - 1 && t[i] == '*' ==> t[i + 1] != '/' {
      BlockEnds(t, rest);
    }
  }
}
