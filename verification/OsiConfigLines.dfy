/** What config_parse makes of any lines: with blanks anywhere, comments, and lines that it passes over. */
module OsiConfigLines {
  import opened Text
  import opened OsiConfig

  /** The blanks of isspace in the "C" locale that can stand inside a line. */
  predicate Blank(t: string) {
    forall i :: 0 <= i < |t| ==> t[i] == ' ' || t[i] == '\t' || t[i] == 0x0B as char || t[i] == 0x0C as char || t[i] == '\r'
  }

  /** The text neither begins nor ends with a blank. */
  predicate Tight(t: string) {
    t != "" ==> !Blank([t[0]]) && !Blank([t[|t| - 1]])
  }

  /** A line of the file with the blanks around its parts. "Other" is anything else. */
  datatype Line =
    | Empty(blanks: string)
    | Header(before: string, name: string, after: string)
    | Pair(before: string, key: string, left: string, right: string, value: string, after: string)
    | Other(before: string, text: string, after: string)

  function LineText(l: Line): string {
    match l
    case Empty(blanks) => blanks
    case Header(before, name, after) => before + (("[" + (name + "]")) + after)
    case Pair(before, key, left, right, value, after) => before + ((key + (left + ("=" + (right + value)))) + after)
    case Other(before, text, after) => before + (text + after)
  }

  /** Blanks are blanks, names and values are without blanks at their ends, and a key is not taken for anything else. Blanks beside a
      missing key or value count as those at the end of the line. */
  predicate ValidLine(l: Line) {
    && PlainText(LineText(l)) && |LineText(l)| <= 1023
    && match l
       case Empty(blanks) => Blank(blanks)
       case Header(before, name, after) => Blank(before) && Blank(after)
       case Pair(before, key, left, right, value, after) =>
         && Blank(before) && Blank(left) && Blank(right) && Blank(after) && Tight(key) && Tight(value)
         && '=' !in key && (key == "" ==> left == "") && (value == "" ==> right == "")
         && (key != "" ==> key[0] != '#' && key[0] != '[')
       case Other(before, text, after) =>
         && Blank(before) && Blank(after) && Tight(text) && text != ""
         && (text[0] == '#' || (text[0] == '[' && text[|text| - 1] != ']') || (text[0] != '[' && '=' !in text))
  }

  /** What a line does: a header names the section of the entries behind it, and an entry is set in its section. */
  function Effect(l: Line, s: State): State {
    match l
    case Header(_, name, _) => State(name, s.config)
    case Pair(_, key, _, _, value, _) => State(s.section, SetString(s.config, s.section, key, value, true))
    case _ => s
  }

  function LinesText(lines: seq<Line>): string {
    if lines == [] then "" else LineText(lines[0]) + ("\n" + LinesText(lines[1..]))
  }

  function Effects(lines: seq<Line>, s: State): State {
    if lines == [] then s else Effects(lines[1..], Effect(lines[0], s))
  }

  lemma BlankIsSpace(t: string)
    requires Blank(t)
    ensures AllSpace(t)
  {
  }

  lemma TightIsTrimmed(t: string)
    requires Tight(t) && '\n' !in t
    ensures Trimmed(t)
  {
    if t != "" {
      assert [t[0]][0] == t[0] && [t[|t| - 1]][0] == t[|t| - 1];
      assert t[0] in t && t[|t| - 1] in t;
    }
  }

  lemma {:induction false} TrimNothing(t: string)
    requires AllSpace(t)
    ensures Trim(t) == ""
  {
    TrimStartNothing(t);
  }

  lemma {:induction false} TrimStartNothing(t: string)
    requires AllSpace(t)
    ensures TrimStart(t) == ""
  {
    if t != "" {
      TrimStartNothing(t[1..]);
    }
  }

  lemma PlainParts(a: string, b: string)
    requires PlainText(a + b)
    ensures PlainText(a) && PlainText(b)
  {
    forall c | c in a || c in b
      ensures c in a + b
    {
    }
  }

  lemma HeaderEffect(l: Line, s: State)
    requires l.Header? && ValidLine(l)
    ensures ParseLine(Trim(LineText(l)), s) == Effect(l, s)
  {
    var line := "[" + (l.name + "]");
    assert Trimmed(line);
    BlankIsSpace(l.before);
    BlankIsSpace(l.after);
    hide Trim, ParseLine, AllSpace, Trimmed, PlainText, Blank;
    TrimIs(l.before, line, l.after);
    ParseSectionLine(l.name, line, s);
  }

  /** The line of a pair without the blanks at its ends. */
  lemma PairTrimmed(key: string, left: string, right: string, value: string)
    requires Tight(key) && Tight(value) && (key == "" ==> left == "") && (value == "" ==> right == "") && '\n' !in key && '\n' !in value
    ensures var line := key + (left + ("=" + (right + value)));
            line != "" && Trimmed(line)
  {
    TightIsTrimmed(key);
    TightIsTrimmed(value);
    var line := key + (left + ("=" + (right + value)));
    assert line[0] == if key == "" then '=' else key[0];
    assert line[|line| - 1] == if value == "" then '=' else value[|value| - 1];
  }

  lemma PairSides(key: string, left: string, right: string, value: string)
    requires Trimmed(key) && Trimmed(value) && AllSpace(left) && AllSpace(right) && (key == "" ==> left == "") && (value == "" ==> right == "")
    ensures Trim(key + left) == key && Trim(right + value) == value
  {
    assert "" + (key + left) == key + left && value + "" == value;
    assert right + (value + "") == right + value;
    if key != "" {
      TrimIs("", key, left);
    } else {
      assert key + left == "";
    }
    if value != "" {
      TrimIs(right, value, "");
    } else {
      assert right + value == "";
    }
  }

  lemma PairEffect(l: Line, s: State)
    requires l.Pair? && ValidLine(l)
    ensures ParseLine(Trim(LineText(l)), s) == Effect(l, s)
  {
    var (key, left, right, value) := (l.key, l.left, l.right, l.value);
    var core := key + (left + ("=" + (right + value)));
    PairPlain(l);
    TightIsTrimmed(key);
    TightIsTrimmed(value);
    PairTrimmed(key, left, right, value);
    BlankIsSpace(l.before);
    BlankIsSpace(l.after);
    BlankIsSpace(left);
    BlankIsSpace(right);
    assert forall i :: 0 <= i < |left| ==> left[i] != '=';
    hide Trim, ParseLine, AllSpace, Trimmed, Blank, PlainText, Tight, SetString;
    TrimIs(l.before, core, l.after);
    PairSides(key, left, right, value);
    AppendAssociative(key, left, "=" + (right + value));
    ParseEntryLine(Entry(key, value), key + left, right + value, s);
  }

  /** The parts of a pair hold no zero and no newline. */
  lemma PairPlain(l: Line)
    requires l.Pair? && ValidLine(l)
    ensures PlainText(l.key) && PlainText(l.left) && PlainText(l.value) && '\n' !in l.key && '\n' !in l.value
    ensures NUL !in l.key + l.left
  {
    hide Blank, Tight;
    PlainParts(l.before, (l.key + (l.left + ("=" + (l.right + l.value)))) + l.after);
    PlainParts(l.key + (l.left + ("=" + (l.right + l.value))), l.after);
    PlainParts(l.key, l.left + ("=" + (l.right + l.value)));
    PlainParts(l.left, "=" + (l.right + l.value));
    PlainParts("=", l.right + l.value);
    PlainParts(l.right, l.value);
  }

  lemma {:induction false} NoSeparator(t: string)
    requires '=' !in t
    ensures FindChar(t, '=') == None
  {
    if t != "" {
      NoSeparator(t[1..]);
    }
  }

  lemma OtherEffect(l: Line, s: State)
    requires l.Other? && ValidLine(l)
    ensures ParseLine(Trim(LineText(l)), s) == Effect(l, s)
  {
    PlainParts(l.before, l.text + l.after);
    PlainParts(l.text, l.after);
    TightIsTrimmed(l.text);
    BlankIsSpace(l.before);
    BlankIsSpace(l.after);
    if '=' !in l.text {
      NoSeparator(l.text);
    }
    hide Trim, AllSpace, Trimmed, Blank, PlainText, Tight, SetString, FindChar;
    TrimIs(l.before, l.text, l.after);
  }

  lemma LineEffect(l: Line, s: State)
    requires ValidLine(l)
    ensures ParseLine(Trim(LineText(l)), s) == Effect(l, s)
  {
    match l {
      case Empty(blanks) =>
        BlankIsSpace(blanks);
        TrimNothing(blanks);
      case Header(_, _, _) => HeaderEffect(l, s);
      case Pair(_, _, _, _, _, _) => PairEffect(l, s);
      case Other(_, _, _) => OtherEffect(l, s);
    }
  }

  /** A newline alone at the end of the text is not looked at. */
  lemma LastEmpty(l: Line, s: State)
    requires ValidLine(l) && LineText(l) == ""
    ensures ParseRest("\n", s) == s == Effect(l, s)
  {
    LineEffect(l, s);
  }

  lemma {:induction false} ReadLines(lines: seq<Line>, s: State)
    requires forall i :: 0 <= i < |lines| ==> ValidLine(lines[i])
    ensures ParseRest(LinesText(lines), s) == Effects(lines, s)
    decreases |lines|
  {
    if lines != [] {
      var (l, more) := (lines[0], LinesText(lines[1..]));
      assert forall i :: 0 <= i < |lines[1..]| ==> lines[1..][i] == lines[i + 1];
      assert ValidLine(l) && PlainText(LineText(l)) && |LineText(l)| <= 1023;
      hide ValidLine, LineText, ParseRest, ParseLine, Trim, Effect, PlainText;
      LineEffect(l, s);
      ReadLines(lines[1..], Effect(l, s));
      if |LineText(l)| + |more| > 0 {
        ReadLine(LineText(l), more, s);
      } else {
        LastEmpty(l, s);
        NothingMore(Effect(l, s));
        assert LinesText(lines) == "\n";
      }
    }
  }

  lemma NothingMore(s: State)
    ensures ParseRest("", s) == s
  {
  }

  /** Main result: the lines of a text do what they say, one after the other, beginning in the section "Global". */
  lemma ParseLines(lines: seq<Line>)
    requires forall i :: 0 <= i < |lines| ==> ValidLine(lines[i])
    ensures ParseText(LinesText(lines)) == Effects(lines, State("Global", [])).config
  {
    hide ValidLine, LinesText, ParseRest, Effects;
    ReadLines(lines, State("Global", []));
  }

  /** A line that is too long for the line buffer ends the parsing. */
  lemma LongLine(line: string, more: string, s: State)
    requires PlainText(line) && |line| > 1023
    ensures ParseRest(line + ("\n" + more), s) == s
  {
    assert "\n" == ['\n'];
    FindCharIs(line, '\n', more);
    hide FindChar;
  }
}
