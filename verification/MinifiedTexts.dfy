/** What minifying does to the texts of RFC 8259 and to printed texts. */
module MinifiedTexts {
  import opened Text
  import opened Json
  import opened StringCodec
  import opened Parser
  import opened PrintedText
  import opened JsonGrammar
  import opened GrammarReads
  import opened ParserExact
  import opened ParseRoundTrip
  import opened TextLayout
  import opened Minify

  // ----- texts without white space -----

  /** The text without the white space that stands outside of string literals. */
  function Squeezed(s: string): string
    decreases |s|
  {
    if s == "" then ""
    else if s[0] == ' ' || s[0] == '\t' || s[0] == '\n' || s[0] == '\r' then Squeezed(s[1..])
    else if s[0] == '"' then "\"" + SqueezedIn(s[1..])
    else [s[0]] + Squeezed(s[1..])
  }

  /** The same from inside a literal, which ends at a quote that is not escaped. */
  function SqueezedIn(s: string): string
    decreases |s|
  {
    if s == "" then ""
    else if s[0] == '"' then "\"" + Squeezed(s[1..])
    else if s[0] == '\\' && |s| > 1 then s[..2] + SqueezedIn(s[2..])
    else [s[0]] + SqueezedIn(s[1..])
  }

  // ----- literals -----

  /** A character that no literal needs to escape. */
  predicate Inner(t: string) {
    forall i :: 0 <= i < |t| ==> t[i] != '"' && t[i] != '\\'
  }

  lemma InnerStep(c: char, s: string)
    requires Inner([c])
    ensures SqueezedIn([c] + s) == [c] + SqueezedIn(s) && MinifiedIn([c] + s) == [c] + MinifiedIn(s)
  {
    assert [c][0] == c && ([c] + s)[1..] == s;
    hide MinifiedIn;
    LiteralStep([c] + s);
  }

  lemma {:induction false} InnerRun(t: string, rest: string)
    requires Inner(t)
    ensures SqueezedIn(t + rest) == t + SqueezedIn(rest) && MinifiedIn(t + rest) == t + MinifiedIn(rest)
    decreases |t|
  {
    hide SqueezedIn, MinifiedIn;
    if t == "" {
      assert t + rest == rest;
    } else {
      InnerRun(t[1..], rest);
      InnerStep(t[0], t[1..] + rest);
      assert t + rest == [t[0]] + (t[1..] + rest) && t == [t[0]] + t[1..];
    }
  }

  lemma SqueezedPair(c: char, rest: string)
    ensures SqueezedIn(['\\', c] + rest) == ['\\', c] + SqueezedIn(rest)
  {
    var s := ['\\', c] + rest;
    assert s[2..] == rest && s[..2] == ['\\', c];
  }

  lemma MinifiedPair(c: char, rest: string)
    ensures c != '\\' || rest == "" || rest[0] != '"' ==> MinifiedIn(['\\', c] + rest) == ['\\', c] + MinifiedIn(rest)
    ensures c == '\\' && rest != "" && rest[0] == '"' ==> MinifiedIn(['\\', c] + rest) == ['\\', c] + ("\"" + MinifiedIn(rest[1..]))
  {
    hide *;
    var (s, u) := (['\\', c] + rest, [c] + rest);
    assert s[1..] == u && s[2..] == rest && u[1..] == rest;
    LiteralStep(s);
    if c != '"' {
      LiteralStep(u);
      if c == '\\' && rest != "" && rest[0] == '"' {
        assert u[2..] == rest[1..] && [c, '"'] + MinifiedIn(rest[1..]) == [c] + ("\"" + MinifiedIn(rest[1..]));
        AppendAssociative(['\\'], [c], "\"" + MinifiedIn(rest[1..]));
      } else {
        AppendAssociative(['\\'], [c], MinifiedIn(rest));
      }
    }
  }

  /** A backslash and the character behind it. */
  lemma EscapedPair(c: char, rest: string)
    ensures SqueezedIn(['\\', c] + rest) == ['\\', c] + SqueezedIn(rest)
    ensures c != '\\' || rest == "" || rest[0] != '"' ==> MinifiedIn(['\\', c] + rest) == ['\\', c] + MinifiedIn(rest)
    ensures c == '\\' && rest != "" && rest[0] == '"' ==> MinifiedIn(['\\', c] + rest) == ['\\', c] + ("\"" + MinifiedIn(rest[1..]))
  {
    hide *;
    SqueezedPair(c, rest);
    MinifiedPair(c, rest);
  }

  lemma UnitRun(hex: string, rest: string)
    requires |hex| == 4 && AllHex(hex)
    ensures SqueezedIn(UnitText(hex) + rest) == UnitText(hex) + SqueezedIn(rest)
    ensures MinifiedIn(UnitText(hex) + rest) == UnitText(hex) + MinifiedIn(rest)
  {
    assert forall i :: 0 <= i < 4 ==> IsHex(hex[i]);
    assert Inner(hex);
    var u := ['\\', 'u'];
    hide SqueezedIn, MinifiedIn, AllHex;
    EscapedPair('u', hex + rest);
    InnerRun(hex, rest);
    AppendAssociative(u, hex, rest);
    AppendAssociative(u, hex, SqueezedIn(rest));
    AppendAssociative(u, hex, MinifiedIn(rest));
    assert hex + rest != "" && (hex + rest)[0] == hex[0];
  }

  /** A well-formed character is kept; only behind an escaped backslash a quote is taken for an escaped one. */
  lemma EscapeKept(e: Escape, rest: string)
    requires ValidEscape(e)
    ensures SqueezedIn(EscapeText(e) + rest) == EscapeText(e) + SqueezedIn(rest)
    ensures e != Short('\\') || rest == "" || rest[0] != '"' ==> MinifiedIn(EscapeText(e) + rest) == EscapeText(e) + MinifiedIn(rest)
    ensures e == Short('\\') && rest != "" && rest[0] == '"'
            ==> MinifiedIn(EscapeText(e) + rest) == EscapeText(e) + ("\"" + MinifiedIn(rest[1..]))
  {
    hide SqueezedIn, MinifiedIn, HexNumber, AllHex;
    match e {
      case Plain(c) => InnerRun([c], rest);
      case Short(c) => EscapedPair(c, rest);
      case Unit(hex) => UnitRun(hex, rest);
      case Pair(high, low) =>
        UnitRun(high, UnitText(low) + rest);
        UnitRun(low, rest);
        PairAssociates(high, low, rest);
    }
  }

  lemma PairAssociates(high: string, low: string, rest: string)
    ensures (UnitText(high) + UnitText(low)) + rest == UnitText(high) + (UnitText(low) + rest)
    ensures (UnitText(high) + UnitText(low)) + SqueezedIn(rest) == UnitText(high) + (UnitText(low) + SqueezedIn(rest))
    ensures (UnitText(high) + UnitText(low)) + MinifiedIn(rest) == UnitText(high) + (UnitText(low) + MinifiedIn(rest))
  {
    AppendAssociative(UnitText(high), UnitText(low), rest);
    AppendAssociative(UnitText(high), UnitText(low), SqueezedIn(rest));
    AppendAssociative(UnitText(high), UnitText(low), MinifiedIn(rest));
  }

  /** The characters end with an escaped backslash. */
  predicate BackslashLast(es: seq<Escape>) { es != [] && es[|es| - 1] == Short('\\') }

  lemma NoQuoteFirst(e: Escape, rest: string)
    requires ValidEscape(e)
    ensures EscapeText(e) + rest != "" && (EscapeText(e) + rest)[0] != '"' && |EscapeText(e)| > 0
  {
    hide AllHex, HexNumber;
  }

  lemma QuoteEnds(rest: string)
    ensures SqueezedIn("\"" + rest) == "\"" + Squeezed(rest) && MinifiedIn("\"" + rest) == "\"" + Minified(rest)
    ensures ("\"" + rest)[0] == '"' && ("\"" + rest)[1..] == rest
  {
    assert ("\"" + rest)[1..] == rest;
  }

  /** A literal from behind its opening quote. */
  lemma {:induction false} CharactersKept(es: seq<Escape>, rest: string)
    requires ValidEscapes(es)
    ensures SqueezedIn(LiteralText(es) + ("\"" + rest)) == LiteralText(es) + ("\"" + Squeezed(rest))
    ensures MinifiedIn(LiteralText(es) + ("\"" + rest))
            == LiteralText(es) + ("\"" + (if BackslashLast(es) then MinifiedIn(rest) else Minified(rest)))
    decreases |es|
  {
    hide *;
    QuoteEnds(rest);
    if es == [] {
      NoEscapes();
      NoBackslash();
      EmptyFirst("\"" + rest);
      EmptyFirst("\"" + Squeezed(rest));
      EmptyFirst("\"" + Minified(rest));
    } else {
      var (head, tail) := (EscapeText(es[0]), LiteralText(es[1..]));
      var out := if BackslashLast(es) then MinifiedIn(rest) else Minified(rest);
      ValidTail(es);
      LiteralTextCons(es);
      AppendAssociative(head, tail, "\"" + rest);
      AppendAssociative(head, tail, "\"" + Squeezed(rest));
      AppendAssociative(head, tail, "\"" + out);
      EscapeKept(es[0], tail + ("\"" + rest));
      CharactersKept(es[1..], rest);
      LastOfMore(es);
      if |es| == 1 {
        NoEscapes();
        EmptyFirst("\"" + rest);
        EmptyFirst("\"" + out);
      } else {
        ValidTail(es[1..]);
        LiteralTextCons(es[1..]);
        AppendAssociative(EscapeText(es[1]), LiteralText(es[1..][1..]), "\"" + rest);
        NoQuoteFirst(es[1], LiteralText(es[1..][1..]) + ("\"" + rest));
      }
    }
  }

  lemma EmptyFirst(s: string)
    ensures "" + s == s
  {
  }

  lemma NoBackslash()
    ensures !BackslashLast([])
  {
  }

  lemma LastOfMore(es: seq<Escape>)
    requires es != []
    ensures |es| == 1 ==> es[1..] == [] && (BackslashLast(es) <==> es[0] == Short('\\'))
    ensures |es| > 1 ==> es[1..] != [] && es[1..][0] == es[1] && (BackslashLast(es) <==> BackslashLast(es[1..]))
  {
  }

  /** The character in front of the closing quote is a backslash. */
  predicate EscapedEnd(literal: string) { |literal| >= 3 && literal[|literal| - 2] == '\\' }

  lemma EscapeEnds(e: Escape)
    requires ValidEscape(e)
    ensures var t := EscapeText(e);
            t != "" && (t[|t| - 1] == '\\' <==> e == Short('\\'))
  {
    match e {
      case Unit(hex) => assert UnitText(hex)[5] == hex[3] && IsHex(hex[3]);
      case Pair(high, low) => assert EscapeText(e)[11] == low[3] && IsHex(low[3]);
      case _ =>
    }
    hide HexNumber, AllHex;
  }

  lemma {:induction false} TextEnds(es: seq<Escape>)
    requires ValidEscapes(es) && es != []
    ensures var t := LiteralText(es);
            t != "" && (t[|t| - 1] == '\\' <==> BackslashLast(es))
    decreases |es|
  {
    hide *;
    ValidTail(es);
    LiteralTextCons(es);
    EscapeEnds(es[0]);
    LastOfMore(es);
    if |es| == 1 {
      NoEscapes();
    } else {
      TextEnds(es[1..]);
    }
  }

  lemma LiteralEndsSo(es: seq<Escape>)
    requires ValidEscapes(es)
    ensures EscapedEnd(InQuotes(LiteralText(es))) <==> BackslashLast(es)
  {
    if es != [] {
      TextEnds(es);
    }
    hide LiteralText, ValidEscapes;
  }

  lemma OpeningQuote(s: string)
    ensures Squeezed("\"" + s) == "\"" + SqueezedIn(s) && Minified("\"" + s) == "\"" + MinifiedIn(s)
  {
    assert ("\"" + s)[1..] == s;
  }

  lemma QuotedAppend(t: string, rest: string)
    ensures InQuotes(t) + rest == "\"" + (t + ("\"" + rest))
  {
    AppendAssociative("\"", t + "\"", rest);
    AppendAssociative(t, "\"", rest);
  }

  /** A well-formed literal is kept, but minifying takes what follows for a part of it when it ends with an escaped backslash. */
  lemma LiteralKept(literal: string, value: string, rest: string)
    requires LiteralOf(literal, value)
    ensures Squeezed(literal + rest) == literal + Squeezed(rest)
    ensures Minified(literal + rest) == literal + (if EscapedEnd(literal) then MinifiedIn(rest) else Minified(rest))
  {
    var es :| ValidEscapes(es) && literal == InQuotes(LiteralText(es)) && value == CString(LiteralBytes(es));
    hide *;
    var t := LiteralText(es);
    var out := if BackslashLast(es) then MinifiedIn(rest) else Minified(rest);
    LiteralEndsSo(es);
    CharactersKept(es, rest);
    OpeningQuote(t + ("\"" + rest));
    QuotedAppend(t, rest);
    QuotedAppend(t, Squeezed(rest));
    QuotedAppend(t, out);
  }

  // ----- outside of literals -----

  /** Characters that are no white space and begin neither a literal nor a comment. */
  predicate Solid(t: string) {
    forall i :: 0 <= i < |t| ==> t[i] as int > 32 && t[i] != '"' && t[i] != '/'
  }

  lemma SolidStep(c: char, s: string)
    requires Solid([c])
    ensures Squeezed([c] + s) == [c] + Squeezed(s) && Minified([c] + s) == [c] + Minified(s)
  {
    assert [c][0] == c && ([c] + s)[1..] == s;
    hide Minified;
    OutsideStep([c] + s);
  }

  lemma {:induction false} SolidKept(t: string, rest: string)
    requires Solid(t)
    ensures Squeezed(t + rest) == t + Squeezed(rest) && Minified(t + rest) == t + Minified(rest)
    decreases |t|
  {
    hide Squeezed, Minified;
    if t == "" {
      assert t + rest == rest;
    } else {
      SolidKept(t[1..], rest);
      SolidStep(t[0], t[1..] + rest);
      assert t + rest == [t[0]] + (t[1..] + rest) && t == [t[0]] + t[1..];
    }
  }

  lemma {:induction false} SpaceDropped(t: string, rest: string)
    requires Space(t)
    ensures Squeezed(t + rest) == Squeezed(rest) && Minified(t + rest) == Minified(rest)
    decreases |t|
  {
    if t == "" {
      assert t + rest == rest;
    } else {
      SpaceDropped(t[1..], rest);
      assert (t + rest)[1..] == t[1..] + rest;
    }
  }

  // ----- trees -----

  /** No literal ends with an escaped backslash; with "last" the very end of the text may be such a literal. */
  predicate Sound(v: Syntax, last: bool) {
    match v
    case StringText(literal, _) => last || !EscapedEnd(literal)
    case ArrayText(es) => SoundElements(es, last)
    case ObjectText(ms) => SoundEntries(ms)
    case _ => true
  }

  predicate SoundElements(es: Elements, last: bool) {
    Sound(es.slot.value, last && es.LastElement?) && (es.MoreElements? ==> SoundElements(es.rest, last))
  }

  predicate SoundEntries(ms: Entries) {
    !EscapedEnd(ms.entry.literal) && Sound(ms.entry.slot.value, false) && (ms.MoreEntries? ==> SoundEntries(ms.rest))
  }

  /** Dropping white space in front of the rest leaves this, and minifying does so under a condition. */
  ghost predicate Leaves(text: string, left: string, rest: string, sound: bool) {
    Squeezed(text + rest) == left + Squeezed(rest) && (sound ==> Minified(text + rest) == left + Minified(rest))
  }

  lemma LeavesSolid(t: string, rest: string, sound: bool)
    requires Solid(t)
    ensures Leaves(t, t, rest, sound)
  {
    SolidKept(t, rest);
    hide Squeezed, Minified, Solid;
  }

  lemma LeavesLiteral(literal: string, value: string, rest: string)
    requires LiteralOf(literal, value)
    ensures Leaves(literal, literal, rest, !EscapedEnd(literal))
  {
    hide Squeezed, Minified, MinifiedIn, LiteralOf, EscapedEnd;
    LiteralKept(literal, value, rest);
  }

  /** One text after the other. */
  lemma LeavesBoth(t: string, l: string, u: string, m: string, rest: string, sound: bool)
    requires Leaves(t, l, u + rest, sound) && Leaves(u, m, rest, sound)
    ensures Leaves(t + u, l + m, rest, sound)
  {
    hide Squeezed, Minified;
    AppendAssociative(t, u, rest);
    AppendAssociative(l, m, Squeezed(rest));
    AppendAssociative(l, m, Minified(rest));
  }

  lemma LeavesNothing(t: string, u: string, l: string, rest: string, sound: bool)
    requires Space(t) && Leaves(u, l, rest, sound)
    ensures Leaves(t + u, l, rest, sound)
  {
    hide Squeezed, Minified, Space;
    SpaceDropped(t, u + rest);
    AppendAssociative(t, u, rest);
  }

  lemma LeavesWeaker(t: string, l: string, rest: string, sound: bool, less: bool)
    requires Leaves(t, l, rest, sound) && (less ==> sound)
    ensures Leaves(t, l, rest, less)
  {
    hide Squeezed, Minified;
  }

  /** A slot in front of what follows it. */
  lemma SlotLeaves(slot: Slot, more: string, left: string, rest: string, sound: bool)
    requires Space(slot.before) && Space(slot.after)
    requires Leaves(Written(slot.value), Written(Stripped(slot.value)), (slot.after + more) + rest, sound) && Leaves(more, left, rest, sound)
    ensures Leaves(WrittenSlot(slot, more), Written(Stripped(slot.value)) + left, rest, sound)
  {
    var (w, l) := (Written(slot.value), Written(Stripped(slot.value)));
    assert WrittenSlot(slot, more) == slot.before + (w + (slot.after + more));
    hide *;
    LeavesNothing(slot.after, more, left, rest, sound);
    LeavesBoth(w, l, slot.after + more, left, rest, sound);
    LeavesNothing(slot.before, w + (slot.after + more), l + left, rest, sound);
  }

  /** What follows an element, and the same without white space. */
  function ElementTail(es: Elements): string { if es.LastElement? then "]" else "," + WrittenElements(es.rest) }

  function EntryTail(ms: Entries): string { if ms.LastEntry? then "}" else "," + WrittenEntries(ms.rest) }

  lemma ElementsTexts(es: Elements)
    ensures WrittenElements(es) == WrittenSlot(es.slot, ElementTail(es))
    ensures WrittenElements(StrippedElements(es)) == Written(Stripped(es.slot.value)) + ElementTail(StrippedElements(es))
    ensures es.MoreElements? ==> ElementTail(StrippedElements(es)) == "," + WrittenElements(StrippedElements(es.rest))
    ensures es.LastElement? ==> ElementTail(StrippedElements(es)) == "]"
  {
    var s := StrippedElements(es);
    assert WrittenElements(s) == WrittenSlot(s.slot, ElementTail(s));
    assert s == if es.LastElement? then LastElement(StrippedSlot(es.slot)) else MoreElements(StrippedSlot(es.slot), StrippedElements(es.rest));
    assert s.slot == Slot("", Stripped(es.slot.value), "");
    hide Written, Stripped;
    assert "" + ElementTail(s) == ElementTail(s);
    assert "" + (Written(s.slot.value) + ElementTail(s)) == Written(s.slot.value) + ElementTail(s);
  }

  lemma EntriesTexts(ms: Entries)
    ensures WrittenEntries(ms)
            == ms.entry.before + (ms.entry.literal + (ms.entry.colon + (":" + WrittenSlot(ms.entry.slot, EntryTail(ms)))))
    ensures WrittenEntries(StrippedEntries(ms))
            == ms.entry.literal + (":" + (Written(Stripped(ms.entry.slot.value)) + EntryTail(StrippedEntries(ms))))
    ensures ms.MoreEntries? ==> EntryTail(StrippedEntries(ms)) == "," + WrittenEntries(StrippedEntries(ms.rest))
    ensures ms.LastEntry? ==> EntryTail(StrippedEntries(ms)) == "}"
  {
    hide *;
    var s := StrippedEntries(ms);
    StrippedEntriesAre(ms);
    EntriesSplit(ms);
    EntriesSplit(s);
    EntryTailIs(s);
    var (e, tail) := (s.entry, EntryTail(s));
    var slot := "" + (Written(e.slot.value) + ("" + tail));
    SlotSplit(e.slot, tail);
    EmptyFirst(tail);
    EmptyFirst(Written(e.slot.value) + tail);
    EmptyFirst(":" + slot);
    EmptyFirst(e.literal + (":" + slot));
  }

  lemma SlotSplit(slot: Slot, more: string)
    ensures WrittenSlot(slot, more) == slot.before + (Written(slot.value) + (slot.after + more))
  {
    hide Written;
  }

  lemma StrippedEntriesAre(ms: Entries)
    ensures var s := StrippedEntries(ms);
            && s.entry == Entry("", ms.entry.literal, ms.entry.key, "", Slot("", Stripped(ms.entry.slot.value), ""))
            && (s.LastEntry? <==> ms.LastEntry?) && (ms.MoreEntries? ==> s.rest == StrippedEntries(ms.rest))
  {
    hide Stripped;
    assert StrippedSlot(ms.entry.slot) == Slot("", Stripped(ms.entry.slot.value), "");
    assert StrippedEntry(ms.entry) == Entry("", ms.entry.literal, ms.entry.key, "", StrippedSlot(ms.entry.slot));
  }

  lemma EntriesSplit(ms: Entries)
    ensures WrittenEntries(ms)
            == ms.entry.before + (ms.entry.literal + (ms.entry.colon + (":" + WrittenSlot(ms.entry.slot, EntryTail(ms)))))
  {
    hide WrittenSlot;
  }

  lemma ElementsUnfold(es: Elements, last: bool)
    ensures StandardElements(es) <==> Space(es.slot.before) && Standard(es.slot.value) && Space(es.slot.after)
                                      && (es.MoreElements? ==> StandardElements(es.rest))
    ensures SoundElements(es, last) <==> Sound(es.slot.value, last && es.LastElement?) && (es.MoreElements? ==> SoundElements(es.rest, last))
  {
    hide Space, Standard, Sound;
  }

  lemma EntriesUnfold(ms: Entries)
    ensures StandardEntries(ms)
            <==> Space(ms.entry.before) && LiteralOf(ms.entry.literal, ms.entry.key) && Space(ms.entry.colon)
                 && Space(ms.entry.slot.before) && Standard(ms.entry.slot.value) && Space(ms.entry.slot.after)
                 && (ms.MoreEntries? ==> StandardEntries(ms.rest))
    ensures SoundEntries(ms) <==> !EscapedEnd(ms.entry.literal) && Sound(ms.entry.slot.value, false)
                                  && (ms.MoreEntries? ==> SoundEntries(ms.rest))
  {
    hide Space, Standard, Sound, LiteralOf, EscapedEnd;
  }

  lemma SolidMarks()
    ensures Solid("[") && Solid("]") && Solid("{") && Solid("}") && Solid(",") && Solid(":")
  {
  }

  lemma {:induction false} ElementsLeave(es: Elements, rest: string)
    requires StandardElements(es)
    ensures Leaves(WrittenElements(es), WrittenElements(StrippedElements(es)), rest, SoundElements(es, false))
    decreases es
  {
    hide *;
    var sound := SoundElements(es, false);
    var (tail, left) := (ElementTail(es), ElementTail(StrippedElements(es)));
    ElementsTexts(es);
    ElementsUnfold(es, false);
    SolidMarks();
    ElementTailIs(es);
    if es.LastElement? {
      LeavesSolid("]", rest, sound);
    } else {
      LeavesSolid(",", WrittenElements(es.rest) + rest, sound);
      ElementsLeave(es.rest, rest);
      LeavesWeaker(WrittenElements(es.rest), WrittenElements(StrippedElements(es.rest)), rest, SoundElements(es.rest, false), sound);
      LeavesBoth(",", ",", WrittenElements(es.rest), WrittenElements(StrippedElements(es.rest)), rest, sound);
    }
    ValueLeaves(es.slot.value, (es.slot.after + tail) + rest);
    LeavesWeaker(Written(es.slot.value), Written(Stripped(es.slot.value)), (es.slot.after + tail) + rest, Sound(es.slot.value, false), sound);
    SlotLeaves(es.slot, tail, left, rest, sound);
  }

  lemma ElementTailIs(es: Elements)
    ensures ElementTail(es) == if es.LastElement? then "]" else "," + WrittenElements(es.rest)
  {
  }

  lemma EntryTailIs(ms: Entries)
    ensures EntryTail(ms) == if ms.LastEntry? then "}" else "," + WrittenEntries(ms.rest)
  {
  }

  lemma {:induction false} EntriesLeave(ms: Entries, rest: string)
    requires StandardEntries(ms)
    ensures Leaves(WrittenEntries(ms), WrittenEntries(StrippedEntries(ms)), rest, SoundEntries(ms))
    decreases ms
  {
    hide *;
    var sound := SoundEntries(ms);
    var (e, tail, left) := (ms.entry, EntryTail(ms), EntryTail(StrippedEntries(ms)));
    EntriesTexts(ms);
    EntriesUnfold(ms);
    SolidMarks();
    EntryTailIs(ms);
    if ms.LastEntry? {
      LeavesSolid("}", rest, sound);
    } else {
      LeavesSolid(",", WrittenEntries(ms.rest) + rest, sound);
      EntriesLeave(ms.rest, rest);
      LeavesWeaker(WrittenEntries(ms.rest), WrittenEntries(StrippedEntries(ms.rest)), rest, SoundEntries(ms.rest), sound);
      LeavesBoth(",", ",", WrittenEntries(ms.rest), WrittenEntries(StrippedEntries(ms.rest)), rest, sound);
    }
    ValueLeaves(e.slot.value, (e.slot.after + tail) + rest);
    LeavesWeaker(Written(e.slot.value), Written(Stripped(e.slot.value)), (e.slot.after + tail) + rest, Sound(e.slot.value, false), sound);
    SlotLeaves(e.slot, tail, left, rest, sound);
    KeyLeaves(e, WrittenSlot(e.slot, tail), Written(Stripped(e.slot.value)) + left, rest, sound);
  }

  /** A key in front of its slot. */
  lemma KeyLeaves(e: Entry, slot: string, left: string, rest: string, sound: bool)
    requires Space(e.before) && LiteralOf(e.literal, e.key) && Space(e.colon) && (sound ==> !EscapedEnd(e.literal))
    requires Leaves(slot, left, rest, sound)
    ensures Leaves(e.before + (e.literal + (e.colon + (":" + slot))), e.literal + (":" + left), rest, sound)
  {
    hide *;
    SolidMarks();
    LeavesSolid(":", slot + rest, sound);
    LeavesBoth(":", ":", slot, left, rest, sound);
    LeavesNothing(e.colon, ":" + slot, ":" + left, rest, sound);
    LeavesLiteral(e.literal, e.key, (e.colon + (":" + slot)) + rest);
    LeavesWeaker(e.literal, e.literal, (e.colon + (":" + slot)) + rest, !EscapedEnd(e.literal), sound);
    LeavesBoth(e.literal, e.literal, e.colon + (":" + slot), ":" + left, rest, sound);
    LeavesNothing(e.before, e.literal + (e.colon + (":" + slot)), e.literal + (":" + left), rest, sound);
  }

  lemma WordsSolid(v: Syntax)
    requires Standard(v) && (v.NullText? || v.FalseText? || v.TrueText? || v.NumberText?)
    ensures Solid(Written(v)) && Stripped(v) == v && Sound(v, false)
  {
    if v.NumberText? {
      assert forall i :: 0 <= i < |v.digits| ==> IsDigit(v.digits[i]);
    }
  }

  lemma EmptyTexts(v: Syntax)
    requires Standard(v) && (v.EmptyArray? || v.EmptyObject?)
    ensures Space(v.blanks) && Written(v) == (if v.EmptyArray? then "[" else "{") + (v.blanks + (if v.EmptyArray? then "]" else "}"))
    ensures Written(Stripped(v)) == (if v.EmptyArray? then "[" else "{") + (if v.EmptyArray? then "]" else "}")
  {
  }

  lemma StructuredTexts(v: Syntax, last: bool)
    requires Standard(v) && (v.StringText? || v.ArrayText? || v.ObjectText?)
    ensures v.StringText? ==> LiteralOf(v.literal, v.value) && Written(v) == v.literal == Written(Stripped(v))
                              && (Sound(v, last) <==> last || !EscapedEnd(v.literal))
    ensures v.ArrayText? ==> StandardElements(v.elements) && Written(v) == "[" + WrittenElements(v.elements)
                             && Written(Stripped(v)) == "[" + WrittenElements(StrippedElements(v.elements))
                             && (Sound(v, last) <==> SoundElements(v.elements, last))
    ensures v.ObjectText? ==> StandardEntries(v.entries) && Written(v) == "{" + WrittenEntries(v.entries)
                              && Written(Stripped(v)) == "{" + WrittenEntries(StrippedEntries(v.entries))
                              && (Sound(v, last) <==> SoundEntries(v.entries))
  {
    hide LiteralOf, EscapedEnd, WrittenElements, WrittenEntries, StrippedElements, StrippedEntries, StandardElements, StandardEntries,
      SoundElements, SoundEntries;
  }

  /** White space is dropped from the text of a value, whatever follows it. Minifying does the same when no literal ends with an escaped
      backslash. */
  lemma {:induction false} ValueLeaves(v: Syntax, rest: string)
    requires Standard(v)
    ensures Leaves(Written(v), Written(Stripped(v)), rest, Sound(v, false))
    decreases v
  {
    hide *;
    SolidMarks();
    var sound := Sound(v, false);
    if v.StringText? {
      StructuredTexts(v, false);
      LeavesLiteral(v.literal, v.value, rest);
    } else if v.ArrayText? {
      StructuredTexts(v, false);
      LeavesSolid("[", WrittenElements(v.elements) + rest, sound);
      ElementsLeave(v.elements, rest);
      LeavesBoth("[", "[", WrittenElements(v.elements), WrittenElements(StrippedElements(v.elements)), rest, sound);
    } else if v.ObjectText? {
      StructuredTexts(v, false);
      LeavesSolid("{", WrittenEntries(v.entries) + rest, sound);
      EntriesLeave(v.entries, rest);
      LeavesBoth("{", "{", WrittenEntries(v.entries), WrittenEntries(StrippedEntries(v.entries)), rest, sound);
    } else if v.EmptyArray? || v.EmptyObject? {
      EmptyTexts(v);
      var (open, close) := if v.EmptyArray? then ("[", "]") else ("{", "}");
      LeavesSolid(close, rest, sound);
      LeavesNothing(v.blanks, close, close, rest, sound);
      LeavesSolid(open, (v.blanks + close) + rest, sound);
      LeavesBoth(open, open, v.blanks + close, close, rest, sound);
    } else {
      WordsSolid(v);
      LeavesSolid(Written(v), rest, sound);
    }
  }

  // ----- where a literal is not recognised -----

  /** A text that begins otherwise. */
  ghost predicate Deviates(left: string, s: string) { !(left <= s) }

  lemma DeviatesLater(p: string, left: string, s: string)
    requires Deviates(left, s)
    ensures Deviates(p + left, p + s)
  {
    assert s == (p + s)[|p|..] && left == (p + left)[|p|..];
  }

  lemma DeviatesMore(left: string, more: string, s: string)
    requires Deviates(left, s)
    ensures Deviates(left + more, s)
  {
  }

  /** A white space where there should be none. */
  lemma DeviatesAt(p: string, c: char, left: string, b: char, s: string)
    requires b != c
    ensures Deviates(p + ([c] + left), p + ([b] + s))
  {
    assert ([c] + left)[0] == c && ([b] + s)[0] == b;
    DeviatesLater(p, [c] + left, [b] + s);
  }

  /** What becomes of a laid-out text with a literal that ends with an escaped backslash: when only the very end is such a literal, what
      follows is taken for a part of it; otherwise white space is left over. */
  ghost predicate Fate(text: string, left: string, rest: string, atEnd: bool) {
    if atEnd then Minified(text + rest) == left + MinifiedIn(rest) else Deviates(left, Minified(text + rest))
  }

  lemma InsideKept(c: char, s: string)
    requires c != '"' && c != '\\'
    ensures MinifiedIn([c] + s) == [c] + MinifiedIn(s)
  {
    assert Inner([c]);
    hide MinifiedIn;
    InnerRun([c], s);
  }

  lemma {:induction false} SoundBelow(v: Syntax)
    ensures Sound(v, false) ==> Sound(v, true)
    decreases v
  {
    hide EscapedEnd;
    if v.ArrayText? {
      SoundElementsBelow(v.elements);
    }
  }

  lemma {:induction false} SoundElementsBelow(es: Elements)
    ensures SoundElements(es, false) ==> SoundElements(es, true)
    decreases es
  {
    hide Sound;
    SoundBelow(es.slot.value);
    if es.MoreElements? {
      SoundElementsBelow(es.rest);
    }
  }

  lemma StrippedOpens(v: Syntax)
    requires Standard(v)
    ensures Written(Stripped(v)) != "" && Opening(Written(Stripped(v))[0])
  {
    StandardAccepted(v);
    ValueOpens(v);
    hide LiteralOf, ReadsAs, WrittenElements, WrittenEntries, StrippedElements, StrippedEntries, AcceptedElements, AcceptedEntries,
      StandardElements, StandardEntries;
  }

  /** The value of a slot is followed by a character that is kept, and then by white space. */
  lemma LeftOver(w: string, l: string, mark: string, b: char, more: string, left: string, c: char)
    requires Minified(w + (mark + ([b] + more))) == l + MinifiedIn(mark + ([b] + more))
    requires Inner(mark) && Inner([b]) && b != c
    ensures Deviates(l + (mark + ([c] + left)), Minified(w + (mark + ([b] + more))))
  {
    hide Minified, MinifiedIn, Inner;
    InnerRun(mark, [b] + more);
    InnerRun([b], more);
    DeviatesAt(l + mark, c, left, b, MinifiedIn(more));
    AppendAssociative(l, mark, [c] + left);
    AppendAssociative(l, mark, [b] + MinifiedIn(more));
  }

  lemma ElementsFateLast(es: Elements, rest: string)
    requires es.LastElement? && !SoundElements(es, false) && Standard(es.slot.value)
    requires Space(es.slot.before) && es.slot.after == ""
    requires Fate(Written(es.slot.value), Written(Stripped(es.slot.value)), "]" + rest, Sound(es.slot.value, true))
    ensures Fate(WrittenElements(es), WrittenElements(StrippedElements(es)), rest, SoundElements(es, true))
  {
    var (w, l) := (Written(es.slot.value), Written(Stripped(es.slot.value)));
    ElementsTexts(es);
    SlotSplit(es.slot, "]");
    ElementsUnfold(es, true);
    ElementTailIs(es);
    hide Written, Stripped, Sound, SoundElements, WrittenElements, StrippedElements, Minified, MinifiedIn, Space, Standard, StandardElements,
      ElementTail, WrittenSlot;
    SpaceDropped(es.slot.before, (w + "]") + rest);
    AppendAssociative(es.slot.before, w + "]", rest);
    EmptyFirst("]");
    AppendAssociative(w, "]", rest);
    InsideKept(']', rest);
    AppendAssociative(l, "]", MinifiedIn(rest));
    if !Sound(es.slot.value, true) {
      DeviatesMore(l, "]", Minified(w + ("]" + rest)));
    }
  }

  /** Up to the comma behind an element that is not the last. */
  lemma ElementsFront(es: Elements, rest: string)
    requires es.MoreElements? && Space(es.slot.before) && es.slot.after == ""
    ensures Minified(WrittenElements(es) + rest) == Minified(Written(es.slot.value) + ("," + (WrittenElements(es.rest) + rest)))
    ensures WrittenElements(StrippedElements(es)) == Written(Stripped(es.slot.value)) + ("," + WrittenElements(StrippedElements(es.rest)))
  {
    hide *;
    var (w, more) := (Written(es.slot.value), "," + WrittenElements(es.rest));
    ElementsTexts(es);
    ElementTailIs(es);
    SlotSplit(es.slot, more);
    EmptyFirst(more);
    SpaceDropped(es.slot.before, (w + more) + rest);
    AppendAssociative(es.slot.before, w + more, rest);
    AppendAssociative(w, more, rest);
    AppendAssociative(",", WrittenElements(es.rest), rest);
  }

  lemma InnerMarks()
    ensures Inner(",") && Inner([' ']) && Inner(":") && Inner(['\t']) && Inner(['\n']) && Inner("]") && Inner("")
  {
  }

  lemma FateAtEnd(text: string, left: string, rest: string)
    requires Fate(text, left, rest, true)
    ensures Minified(text + rest) == left + MinifiedIn(rest)
  {
  }

  /** An element that is not the last ends with an escaped backslash. */
  lemma ElementsFateOpen(es: Elements, rest: string)
    requires es.MoreElements? && Space(es.slot.before) && es.slot.after == "" && es.rest.slot.before == " " && Standard(es.rest.slot.value)
    requires Fate(Written(es.slot.value), Written(Stripped(es.slot.value)), "," + (WrittenElements(es.rest) + rest), true)
    ensures Deviates(WrittenElements(StrippedElements(es)), Minified(WrittenElements(es) + rest))
  {
    hide *;
    var (w, l) := (Written(es.slot.value), Written(Stripped(es.slot.value)));
    var following := Written(es.rest.slot.value) + (es.rest.slot.after + ElementTail(es.rest));
    var next := Written(Stripped(es.rest.slot.value)) + ElementTail(StrippedElements(es.rest));
    InnerMarks();
    FateAtEnd(w, l, "," + (WrittenElements(es.rest) + rest));
    ElementsFront(es, rest);
    ElementsTexts(es.rest);
    SlotSplit(es.rest.slot, ElementTail(es.rest));
    StrippedOpens(es.rest.slot.value);
    OpeningChar(next[0]);
    AppendAssociative(" ", following, rest);
    assert next == [next[0]] + next[1..];
    LeftOver(w, l, ",", ' ', following + rest, next[1..], next[0]);
  }

  /** An element that is not the last is kept, and the rest of the elements decides. */
  lemma ElementsFateMore(es: Elements, rest: string)
    requires es.MoreElements? && StandardElements(es) && es.slot.after == "" && Sound(es.slot.value, false)
    requires Fate(WrittenElements(es.rest), WrittenElements(StrippedElements(es.rest)), rest, SoundElements(es.rest, true))
    ensures Fate(WrittenElements(es), WrittenElements(StrippedElements(es)), rest, SoundElements(es, true))
  {
    var (w, l) := (Written(es.slot.value), Written(Stripped(es.slot.value)));
    var (v, m) := (WrittenElements(es.rest), WrittenElements(StrippedElements(es.rest)));
    ElementsUnfold(es, true);
    SoundBelow(es.slot.value);
    ElementsFront(es, rest);
    ValueLeaves(es.slot.value, "," + (v + rest));
    SolidMarks();
    hide Written, Stripped, Sound, SoundElements, WrittenElements, StrippedElements, Squeezed, Minified, MinifiedIn, Space, Standard,
      StandardElements, Solid;
    SolidKept(",", v + rest);
    AppendAssociative(l, ",", m);
    AppendAssociative(l + ",", m, MinifiedIn(rest));
    AppendAssociative(l, ",", Minified(v + rest));
    if !SoundElements(es.rest, true) {
      DeviatesLater(l + ",", m, Minified(v + rest));
    }
  }

  lemma LaidElementsUnfold(es: Elements, depth: nat, first: bool)
    requires LaidElements(es, depth, first)
    ensures Laid(es.slot.value, depth) && es.slot.after == ""
    ensures es.MoreElements? ==> LaidElements(es.rest, depth, false) && es.rest.slot.before == " "
  {
    hide Laid;
  }

  lemma FateDeviates(text: string, left: string, rest: string)
    requires Fate(text, left, rest, false)
    ensures Deviates(left, Minified(text + rest))
  {
  }

  lemma DeviatesFate(text: string, left: string, rest: string)
    requires Deviates(left, Minified(text + rest))
    ensures Fate(text, left, rest, false)
  {
  }

  lemma {:induction false} ElementsFate(es: Elements, depth: nat, first: bool, rest: string)
    requires StandardElements(es) && LaidElements(es, depth, first) && !SoundElements(es, false)
    ensures Fate(WrittenElements(es), WrittenElements(StrippedElements(es)), rest, SoundElements(es, true))
    decreases es
  {
    hide *;
    var (w, l) := (Written(es.slot.value), Written(Stripped(es.slot.value)));
    LaidElementsUnfold(es, depth, first);
    ElementsUnfold(es, false);
    ElementsUnfold(es, true);
    if es.LastElement? {
      ValueFate(es.slot.value, depth, "]" + rest);
      ElementsFateLast(es, rest);
    } else if Sound(es.slot.value, false) {
      ElementsFate(es.rest, depth, false, rest);
      ElementsFateMore(es, rest);
    } else {
      ValueFate(es.slot.value, depth, "," + (WrittenElements(es.rest) + rest));
      ElementsUnfold(es.rest, false);
      if Sound(es.slot.value, true) {
        ElementsFateOpen(es, rest);
      } else {
        ElementsFront(es, rest);
        FateDeviates(w, l, "," + (WrittenElements(es.rest) + rest));
        DeviatesMore(l, "," + WrittenElements(StrippedElements(es.rest)), Minified(WrittenElements(es) + rest));
      }
      DeviatesFate(WrittenElements(es), WrittenElements(StrippedElements(es)), rest);
    }
  }

  /** The text of laid-out members up to the value of the first, without its indentation. */
  lemma EntriesFront(ms: Entries, rest: string)
    requires Space(ms.entry.before) && ms.entry.colon == "" && ms.entry.slot.before == "\t"
    ensures Minified(WrittenEntries(ms) + rest)
            == Minified(ms.entry.literal + (":" + (['\t'] + (Written(ms.entry.slot.value) + ((ms.entry.slot.after + EntryTail(ms)) + rest)))))
  {
    hide *;
    var (lit, w, after) := (ms.entry.literal, Written(ms.entry.slot.value), ms.entry.slot.after + EntryTail(ms));
    EntriesTexts(ms);
    SlotSplit(ms.entry.slot, EntryTail(ms));
    EmptyFirst(":" + WrittenSlot(ms.entry.slot, EntryTail(ms)));
    var text := lit + (":" + ("\t" + (w + after)));
    SpaceDropped(ms.entry.before, text + rest);
    AppendAssociative(ms.entry.before, text, rest);
    AppendAssociative(lit, ":" + ("\t" + (w + after)), rest);
    AppendAssociative(":", "\t" + (w + after), rest);
    AppendAssociative("\t", w + after, rest);
    AppendAssociative(w, after, rest);
  }

  /** The key ends with an escaped backslash, and the tab behind its colon is left over. */
  lemma KeyFate(ms: Entries, rest: string)
    requires Space(ms.entry.before) && ms.entry.colon == "" && ms.entry.slot.before == "\t"
    requires LiteralOf(ms.entry.literal, ms.entry.key) && EscapedEnd(ms.entry.literal) && Standard(ms.entry.slot.value)
    ensures Deviates(WrittenEntries(StrippedEntries(ms)), Minified(WrittenEntries(ms) + rest))
  {
    hide *;
    var lit := ms.entry.literal;
    var more := Written(ms.entry.slot.value) + ((ms.entry.slot.after + EntryTail(ms)) + rest);
    var next := Written(Stripped(ms.entry.slot.value)) + EntryTail(StrippedEntries(ms));
    EntriesFront(ms, rest);
    EntriesTexts(ms);
    StrippedOpens(ms.entry.slot.value);
    OpeningChar(next[0]);
    InnerMarks();
    LiteralKept(lit, ms.entry.key, ":" + (['\t'] + more));
    assert next == [next[0]] + next[1..];
    LeftOver(lit, lit, ":", '\t', more, next[1..], next[0]);
  }

  /** The key is kept, and what comes of the value decides. */
  lemma KeyPassed(ms: Entries, rest: string)
    requires Space(ms.entry.before) && ms.entry.colon == "" && ms.entry.slot.before == "\t"
    requires LiteralOf(ms.entry.literal, ms.entry.key) && !EscapedEnd(ms.entry.literal)
    requires Deviates(Written(Stripped(ms.entry.slot.value)) + EntryTail(StrippedEntries(ms)),
                      Minified(Written(ms.entry.slot.value) + ((ms.entry.slot.after + EntryTail(ms)) + rest)))
    ensures Deviates(WrittenEntries(StrippedEntries(ms)), Minified(WrittenEntries(ms) + rest))
  {
    hide *;
    var lit := ms.entry.literal;
    var more := Written(ms.entry.slot.value) + ((ms.entry.slot.after + EntryTail(ms)) + rest);
    var left := Written(Stripped(ms.entry.slot.value)) + EntryTail(StrippedEntries(ms));
    EntriesFront(ms, rest);
    EntriesTexts(ms);
    SolidMarks();
    TabIsSpace();
    LiteralKept(lit, ms.entry.key, ":" + (['\t'] + more));
    SolidKept(":", ['\t'] + more);
    SpaceDropped(['\t'], more);
    DeviatesLater(":", left, Minified(more));
    DeviatesLater(lit, ":" + left, ":" + Minified(more));
  }

  lemma TabIsSpace()
    ensures Space(['\t'])
  {
  }

  /** The characters of a new line, one by one. */
  lemma NewLineFirst(t: string, depth: nat)
    requires NewLineAt(t, depth)
    ensures t != "" && t == ['\n'] + t[1..]
  {
  }

  /** The value of the last member ends with an escaped backslash, and the line behind it is left over. */
  lemma LastValueOpen(ms: Entries, depth: nat, rest: string)
    requires ms.LastEntry? && NewLineAt(ms.entry.slot.after, depth)
    requires Fate(Written(ms.entry.slot.value), Written(Stripped(ms.entry.slot.value)), (ms.entry.slot.after + EntryTail(ms)) + rest, true)
    ensures Deviates(Written(Stripped(ms.entry.slot.value)) + EntryTail(StrippedEntries(ms)),
                     Minified(Written(ms.entry.slot.value) + ((ms.entry.slot.after + EntryTail(ms)) + rest)))
  {
    hide *;
    var (w, l, after) := (Written(ms.entry.slot.value), Written(Stripped(ms.entry.slot.value)), ms.entry.slot.after);
    NewLineFirst(after, depth);
    var more := (after[1..] + EntryTail(ms)) + rest;
    EntriesTexts(ms);
    FateAtEnd(w, l, (after + EntryTail(ms)) + rest);
    AppendAssociative(['\n'], after[1..], EntryTail(ms));
    AppendAssociative(['\n'], after[1..] + EntryTail(ms), rest);
    EmptyFirst(['\n'] + more);
    EmptyFirst("}");
    InnerMarks();
    assert ['}'] + "" == "}";
    LeftOver(w, l, "", '\n', more, "", '}');
  }

  /** The value of a member that is not the last ends with an escaped backslash, and the line behind the comma is left over. */
  lemma ValueOpen(ms: Entries, depth: nat, rest: string)
    requires ms.MoreEntries? && ms.entry.slot.after == "" && NewLineAt(ms.rest.entry.before, depth)
    requires LiteralOf(ms.rest.entry.literal, ms.rest.entry.key)
    requires Fate(Written(ms.entry.slot.value), Written(Stripped(ms.entry.slot.value)), (ms.entry.slot.after + EntryTail(ms)) + rest, true)
    ensures Deviates(Written(Stripped(ms.entry.slot.value)) + EntryTail(StrippedEntries(ms)),
                     Minified(Written(ms.entry.slot.value) + ((ms.entry.slot.after + EntryTail(ms)) + rest)))
  {
    hide *;
    var (w, l, e) := (Written(ms.entry.slot.value), Written(Stripped(ms.entry.slot.value)), ms.rest.entry);
    NewLineFirst(e.before, depth);
    var following := e.before[1..] + (e.literal + (e.colon + (":" + WrittenSlot(e.slot, EntryTail(ms.rest)))));
    var next := WrittenEntries(StrippedEntries(ms.rest));
    FateAtEnd(w, l, (ms.entry.slot.after + EntryTail(ms)) + rest);
    EntryTailIs(ms);
    EntriesTexts(ms);
    EntriesTexts(ms.rest);
    AppendAssociative(['\n'], e.before[1..], e.literal + (e.colon + (":" + WrittenSlot(e.slot, EntryTail(ms.rest)))));
    EmptyFirst(EntryTail(ms));
    AppendAssociative(",", ['\n'] + following, rest);
    AppendAssociative(['\n'], following, rest);
    LiteralStarts(e.literal, e.key);
    InnerMarks();
    assert next == ['"'] + next[1..];
    LeftOver(w, l, ",", '\n', following + rest, next[1..], '"');
  }

  lemma LiteralStarts(literal: string, value: string)
    requires LiteralOf(literal, value)
    ensures literal != "" && literal[0] == '"'
  {
    hide LiteralText, LiteralBytes, CString, ValidEscapes;
  }

  /** The first member is kept, and the others decide. */
  lemma ValuePassed(ms: Entries, rest: string)
    requires ms.MoreEntries? && ms.entry.slot.after == "" && Standard(ms.entry.slot.value) && Sound(ms.entry.slot.value, false)
    requires Deviates(WrittenEntries(StrippedEntries(ms.rest)), Minified(WrittenEntries(ms.rest) + rest))
    ensures Deviates(Written(Stripped(ms.entry.slot.value)) + EntryTail(StrippedEntries(ms)),
                     Minified(Written(ms.entry.slot.value) + ((ms.entry.slot.after + EntryTail(ms)) + rest)))
  {
    hide *;
    var (l, more, left) := (Written(Stripped(ms.entry.slot.value)), WrittenEntries(ms.rest) + rest, WrittenEntries(StrippedEntries(ms.rest)));
    EntryTailIs(ms);
    EntriesTexts(ms);
    EmptyFirst(EntryTail(ms));
    AppendAssociative(",", WrittenEntries(ms.rest), rest);
    MinifiedValue(ms.entry.slot.value, "," + more);
    SolidMarks();
    SolidKept(",", more);
    DeviatesLater(",", left, Minified(more));
    DeviatesLater(l, "," + left, "," + Minified(more));
  }

  lemma MinifiedValue(v: Syntax, rest: string)
    requires Standard(v) && Sound(v, false)
    ensures Minified(Written(v) + rest) == Written(Stripped(v)) + Minified(rest)
  {
    hide Written, Stripped, Squeezed, Minified, Standard, Sound;
    ValueLeaves(v, rest);
  }

  lemma LaidEntriesUnfold(ms: Entries, depth: nat)
    requires LaidEntries(ms, depth)
    ensures ms.entry.colon == "" && ms.entry.slot.before == "\t" && Laid(ms.entry.slot.value, depth + 1)
    ensures NewLineAt(ms.entry.before, depth + 1) && (ms.LastEntry? ==> NewLineAt(ms.entry.slot.after, depth))
    ensures ms.MoreEntries? ==> ms.entry.slot.after == "" && LaidEntries(ms.rest, depth)
  {
    hide Laid, NewLineAt;
  }

  lemma {:induction false} EntriesFate(ms: Entries, depth: nat, rest: string)
    requires StandardEntries(ms) && LaidEntries(ms, depth) && !SoundEntries(ms)
    ensures Deviates(WrittenEntries(StrippedEntries(ms)), Minified(WrittenEntries(ms) + rest))
    decreases ms
  {
    hide *;
    var v := ms.entry.slot.value;
    var more := (ms.entry.slot.after + EntryTail(ms)) + rest;
    LaidEntriesUnfold(ms, depth);
    EntriesUnfold(ms);
    if EscapedEnd(ms.entry.literal) {
      KeyFate(ms, rest);
    } else {
      if Sound(v, false) {
        EntriesFate(ms.rest, depth, rest);
        ValuePassed(ms, rest);
      } else {
        ValueFate(v, depth + 1, more);
        if !Sound(v, true) {
          FateDeviates(Written(v), Written(Stripped(v)), more);
          DeviatesMore(Written(Stripped(v)), EntryTail(StrippedEntries(ms)), Minified(Written(v) + more));
        } else if ms.LastEntry? {
          LastValueOpen(ms, depth, rest);
        } else {
          LaidEntriesUnfold(ms.rest, depth);
          EntriesUnfold(ms.rest);
          ValueOpen(ms, depth + 1, rest);
        }
      }
      KeyPassed(ms, rest);
    }
  }

  lemma LaidUnfold(v: Syntax, depth: nat)
    requires Laid(v, depth)
    ensures v.ArrayText? ==> LaidElements(v.elements, depth + 1, true)
    ensures v.ObjectText? ==> LaidEntries(v.entries, depth)
  {
    hide LaidElements, LaidEntries;
  }

  lemma LiteralFate(literal: string, value: string, rest: string)
    requires LiteralOf(literal, value) && EscapedEnd(literal)
    ensures Fate(literal, literal, rest, true)
  {
    hide LiteralOf, EscapedEnd, Squeezed, Minified, MinifiedIn;
    LiteralKept(literal, value, rest);
  }

  lemma ArrayFate(text: string, left: string, rest: string, atEnd: bool)
    requires Fate(text, left, rest, atEnd)
    ensures Fate("[" + text, "[" + left, rest, atEnd)
  {
    SolidMarks();
    hide Minified, MinifiedIn, Solid;
    AppendAssociative("[", text, rest);
    SolidKept("[", text + rest);
    AppendAssociative("[", left, MinifiedIn(rest));
    if !atEnd {
      DeviatesLater("[", left, Minified(text + rest));
    }
  }

  lemma ObjectFate(text: string, left: string, rest: string)
    requires Deviates(left, Minified(text + rest))
    ensures Fate("{" + text, "{" + left, rest, false)
  {
    SolidMarks();
    hide Minified, MinifiedIn, Solid;
    AppendAssociative("{", text, rest);
    SolidKept("{", text + rest);
    DeviatesLater("{", left, Minified(text + rest));
  }

  lemma UnsoundIs(v: Syntax)
    requires !Sound(v, false)
    ensures v.StringText? || v.ArrayText? || v.ObjectText?
  {
  }

  lemma {:induction false} ValueFate(v: Syntax, depth: nat, rest: string)
    requires Standard(v) && Laid(v, depth) && !Sound(v, false)
    ensures Fate(Written(v), Written(Stripped(v)), rest, Sound(v, true))
    decreases v
  {
    hide *;
    UnsoundIs(v);
    LaidUnfold(v, depth);
    StructuredTexts(v, false);
    StructuredTexts(v, true);
    if v.StringText? {
      LiteralFate(v.literal, v.value, rest);
    } else if v.ArrayText? {
      ElementsFate(v.elements, depth + 1, true, rest);
      ArrayFate(WrittenElements(v.elements), WrittenElements(StrippedElements(v.elements)), rest, Sound(v, true));
    } else {
      EntriesFate(v.entries, depth, rest);
      ObjectFate(WrittenEntries(v.entries), WrittenEntries(StrippedEntries(v.entries)), rest);
    }
  }

  // ----- printed texts -----

  predicate EndsWithBackslash(s: string) { s != "" && s[|s| - 1] == '\\' }

  /** No key ends with a backslash, and no string does, except one that is the last thing in the text but for closing brackets. */
  predicate Minifiable(item: Json, last: bool) {
    match item
    case String(s) => last || !EndsWithBackslash(s)
    case Array(items) => forall i :: 0 <= i < |items| ==> Minifiable(items[i], last && i == |items| - 1)
    case Object(ms) =>
      forall i :: 0 <= i < |ms| ==> assert ms[i].value < ms[i]; !EndsWithBackslash(ms[i].key) && Minifiable(ms[i].value, false)
    case _ => true
  }

  lemma QuoteEnd(s: string)
    ensures EscapedEnd(Quote(s)) <==> EndsWithBackslash(s)
  {
    var es := PrintedEscapes(s);
    PrintedBytes(s);
    LiteralEndsSo(es);
    hide LiteralText, InQuotes, EscapedEnd;
    assert BackslashLast(es) <==> EndsWithBackslash(s);
  }

  predicate MinifiableItems(items: seq<Json>, last: bool) {
    forall i :: 0 <= i < |items| ==> Minifiable(items[i], last && i == |items| - 1)
  }

  predicate MinifiableMembers(ms: seq<Member>) {
    forall i :: 0 <= i < |ms| ==> !EndsWithBackslash(ms[i].key) && Minifiable(ms[i].value, false)
  }

  lemma MinifiableTail(items: seq<Json>, last: bool)
    requires items != []
    ensures MinifiableItems(items, last)
            <==> Minifiable(items[0], last && |items| == 1) && (|items| > 1 ==> MinifiableItems(items[1..], last))
  {
    hide Minifiable;
    assert |items| > 1 ==> forall i :: 1 <= i < |items| ==> items[i] == items[1..][i - 1];
  }

  lemma MinifiableMembersTail(ms: seq<Member>)
    requires ms != []
    ensures MinifiableMembers(ms)
            <==> !EndsWithBackslash(ms[0].key) && Minifiable(ms[0].value, false) && (|ms| > 1 ==> MinifiableMembers(ms[1..]))
  {
    hide Minifiable, EndsWithBackslash;
    assert |ms| > 1 ==> forall i :: 1 <= i < |ms| ==> ms[i] == ms[1..][i - 1];
  }

  lemma {:induction false} ElementsSoundIs(es: Elements, last: bool)
    requires CanonicalElements(es)
    ensures SoundElements(es, last) <==> MinifiableItems(ItemsOf(es), last)
    decreases es
  {
    hide ItemOf, ItemsOf, Canonical, Sound, Minifiable, MinifiableItems;
    ItemsOfParts(es);
    SoundIs(es.slot.value, last && es.LastElement?);
    MinifiableTail(ItemsOf(es), last);
    if es.MoreElements? {
      ElementsSoundIs(es.rest, last);
    }
  }

  lemma {:induction false} EntriesSoundIs(ms: Entries)
    requires CanonicalEntries(ms)
    ensures SoundEntries(ms) <==> MinifiableMembers(MembersOf(ms))
    decreases ms
  {
    hide ItemOf, MembersOf, Canonical, Sound, Minifiable, MinifiableMembers, Quote, EscapedEnd, EndsWithBackslash;
    MembersOfParts(ms);
    QuoteEnd(ms.entry.key);
    SoundIs(ms.entry.slot.value, false);
    MinifiableMembersTail(MembersOf(ms));
    if ms.MoreEntries? {
      EntriesSoundIs(ms.rest);
    }
  }

  lemma {:induction false} SoundIs(v: Syntax, last: bool)
    requires Canonical(v)
    ensures Sound(v, last) <==> Minifiable(ItemOf(v), last)
    decreases v
  {
    hide ItemsOf, MembersOf, CanonicalElements, CanonicalEntries, SoundElements, SoundEntries, Quote, EscapedEnd, EndsWithBackslash, Decimal,
      DecimalValue, AllDigits;
    if v.StringText? {
      QuoteEnd(v.value);
    } else if v.ArrayText? {
      ElementsSoundIs(v.elements, last);
    } else if v.ObjectText? {
      EntriesSoundIs(v.entries);
    }
  }

  /** What is known of a printed tree. */
  lemma PrintedTree(item: Json, format: bool, depth: nat, depth': nat) returns (v: Syntax)
    requires Printable(item)
    ensures Standard(v) && Canonical(v) && (format ==> Laid(v, depth)) && ItemOf(v) == item
    ensures Written(v) == PrintText(item, format, depth) && Written(Stripped(v)) == PrintText(item, false, depth')
  {
    hide Standard, Canonical, Laid, Bare, ItemOf, DepthOf, Nesting, Written, Stripped, PrintText, PrintedSyntax, Printable;
    v := PrintedSyntax(item, format, depth);
    PrintedItemText(item, format, depth);
    PrintedItemText(item, false, depth');
    PrintedItemMeans(item, format, depth);
    ItemLaidOut(item, format, depth, depth');
  }

  lemma NothingSqueezed()
    ensures Squeezed("") == ""
  {
  }

  lemma NothingBehind(s: string)
    ensures s + "" == s
  {
  }

  /** Main result: a printed text, formatted or not, is the unformatted one when the white space outside of its literals is dropped; the
      unformatted one has none. */
  lemma PrintedSqueezed(item: Json, format: bool, depth: nat, depth': nat)
    requires Printable(item)
    ensures Squeezed(PrintText(item, format, depth)) == PrintText(item, false, depth')
  {
    hide Standard, Canonical, Laid, ItemOf, Written, Stripped, PrintText, Printable, Squeezed, Minified, Sound;
    var v := PrintedTree(item, format, depth, depth');
    NothingSqueezed();
    NothingBehind(Written(v));
    NothingBehind(Written(Stripped(v)));
    ValueLeaves(v, "");
  }

  /** Main result: minifying the formatted text of an item gives its unformatted text exactly when no string or key ends with a backslash,
      but for a string at the very end. */
  lemma MinifyPrinted(item: Json)
    requires Printable(item)
    ensures Minified(PrintText(item, true, 0)) == PrintText(item, false, 0) <==> Minifiable(item, true)
  {
    hide *;
    var v := PrintedTree(item, true, 0, 0);
    NothingLeft();
    NothingBehind(Written(v));
    NothingBehind(Written(Stripped(v)));
    SoundIs(v, true);
    SoundBelow(v);
    if Sound(v, false) {
      MinifiedValue(v, "");
    } else {
      ValueFate(v, 0, "");
      if Sound(v, true) {
        FateAtEnd(Written(v), Written(Stripped(v)), "");
      } else {
        FateDeviates(Written(v), Written(Stripped(v)), "");
        DeviatesDiffers(Written(Stripped(v)), Minified(Written(v)));
      }
    }
  }

  lemma DeviatesDiffers(left: string, s: string)
    requires Deviates(left, s)
    ensures left != s
  {
  }

  // ----- texts of RFC 8259 -----

  lemma {:induction false} StrippedMeans(v: Syntax)
    requires Standard(v)
    ensures Standard(Stripped(v)) && ItemOf(Stripped(v)) == ItemOf(v) && DepthOf(Stripped(v)) == DepthOf(v)
    decreases v
  {
    hide LiteralOf, StandardElements, StandardEntries, StrippedElements, StrippedEntries, ItemsOf, MembersOf, ElementsDepth, EntriesDepth;
    if v.ArrayText? {
      StrippedElementsMean(v.elements);
    } else if v.ObjectText? {
      StrippedEntriesMean(v.entries);
    }
  }

  lemma StrippedElementsAre(es: Elements)
    ensures var s := StrippedElements(es);
            && s.slot == Slot("", Stripped(es.slot.value), "")
            && (s.LastElement? <==> es.LastElement?) && (es.MoreElements? ==> s.rest == StrippedElements(es.rest))
  {
    hide Stripped;
    assert StrippedSlot(es.slot) == Slot("", Stripped(es.slot.value), "");
  }

  lemma {:induction false} StrippedElementsMean(es: Elements)
    requires StandardElements(es)
    ensures var s := StrippedElements(es);
            StandardElements(s) && ItemsOf(s) == ItemsOf(es) && ElementsDepth(s) == ElementsDepth(es)
    decreases es
  {
    hide Standard, ItemOf, DepthOf, Stripped, StrippedElements, Space;
    StrippedElementsAre(es);
    ElementsUnfold(es, false);
    StrippedMeans(es.slot.value);
    LineIsSpace(false, 0);
    if es.MoreElements? {
      StrippedElementsMean(es.rest);
    }
  }

  lemma {:induction false} StrippedEntriesMean(ms: Entries)
    requires StandardEntries(ms)
    ensures var s := StrippedEntries(ms);
            StandardEntries(s) && MembersOf(s) == MembersOf(ms) && EntriesDepth(s) == EntriesDepth(ms)
    decreases ms
  {
    hide Standard, ItemOf, DepthOf, Stripped, StrippedEntries, Space, LiteralOf;
    StrippedEntriesAre(ms);
    EntriesUnfold(ms);
    StrippedMeans(ms.entry.slot.value);
    LineIsSpace(false, 0);
    if ms.MoreEntries? {
      StrippedEntriesMean(ms.rest);
    }
  }

  /** Main result: a text of RFC 8259 without a literal that ends with an escaped backslash loses its white space by minifying, and is read
      as the same item as before. */
  lemma MinifyStandard(before: string, v: Syntax, after: string)
    requires Space(before) && Standard(v) && Space(after) && Sound(v, false)
    ensures var text := DocumentText(Document(false, before, v, after));
            && Minified(text) == Squeezed(text)
            && ParseText(Minified(text), true) == (if DepthOf(v) <= 1000 then Parsed(ItemOf(v), |Minified(text)|) else Failed)
            && ParseText(text, true) == (if DepthOf(v) <= 1000 then Parsed(ItemOf(v), |text|) else Failed)
  {
    hide *;
    var (w, l) := (Written(v), Written(Stripped(v)));
    var text := DocumentText(Document(false, before, v, after));
    DocumentText0(before, v, after);
    DocumentText0("", Stripped(v), "");
    NothingLeft();
    NothingSqueezed();
    NothingBehind(after);
    NothingBehind(l);
    EmptyFirst(l);
    LineIsSpace(false, 0);
    SpaceDropped(after, "");
    SpaceDropped(before, w + after);
    MinifiedValue(v, after);
    SqueezedValue(v, after);
    StrippedMeans(v);
    ParseStandard(false, before, v, after, true);
    ParseStandard(false, "", Stripped(v), "", true);
  }

  lemma DocumentText0(before: string, v: Syntax, after: string)
    ensures DocumentText(Document(false, before, v, after)) == before + (Written(v) + after)
  {
    hide Written;
    EmptyFirst(before + (Written(v) + after));
  }

  lemma SqueezedValue(v: Syntax, rest: string)
    requires Standard(v)
    ensures Squeezed(Written(v) + rest) == Written(Stripped(v)) + Squeezed(rest)
  {
    hide Written, Stripped, Squeezed, Minified, Standard, Sound;
    ValueLeaves(v, rest);
  }
}
