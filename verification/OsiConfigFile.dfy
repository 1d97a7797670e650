/** Saving and loading a configuration, as the code does it. */
module OsiConfigFile {
  import opened Text
  import opened OsiConfig

  /** The blobs of an NVS namespace. */
  class Flash {
    var blobs: map<string, string>
  }

  // ----- the size of the text -----

  lemma EntriesTextAt(entries: seq<Entry>, j: nat)
    requires j < |entries|
    ensures EntriesText(entries[j..]) == EntryLine(entries[j]) + EntriesText(entries[j + 1..])
  {
    assert entries[j..][1..] == entries[j + 1..];
  }

  lemma ConfigTextAt(config: seq<Section>, i: nat)
    requires i < |config|
    ensures ConfigText(config[i..]) == SectionLine(config[i].name) + (EntriesText(config[i].entries) + SectionsTail(config[i..]))
    ensures SectionsTail(config[i..]) == (if i + 1 < |config| then "\n" else "") + ConfigText(config[i + 1..])
  {
    assert config[i..][1..] == config[i + 1..];
    assert "" + "" == "";
  }

  /** The sum over the entries of a section in get_config_size. */
  method EntriesSize(entries: seq<Entry>) returns (size: nat)
    ensures size == |EntriesText(entries)|
  {
    size := 0;
    assert entries[0..] == entries;
    for j := 0 to |entries|
      invariant size + |EntriesText(entries[j..])| == |EntriesText(entries)|
    {
      EntriesTextAt(entries, j);
      size := size + |entries[j].key| + |entries[j].value| + 4;
    }
  }

  /** get_config_size: the bytes that config_save writes and one more for the terminator. */
  method ConfigSize(config: seq<Section>) returns (total: nat)
    ensures total == |ConfigText(config)| + 1
  {
    total := 0;
    var i := 0;
    assert config[0..] == config;
    while i < |config|
      invariant i <= |config|
      invariant total + |ConfigText(config[i..])| == |ConfigText(config)|
    {
      ConfigTextAt(config, i);
      var size := EntriesSize(config[i].entries);
      total := total + |config[i].name| + 3 + size;
      if i + 1 < |config| {
        total := total + 1;
      }
      i := i + 1;
    }
    total := total + 1;
  }

  // ----- the line buffer -----

  /** The line buffer after snprintf: a line that does not fit is cut off. */
  function Formatted(line: string, before: seq<char>): (r: seq<char>)
    requires |before| == LINE_SIZE
    ensures |r| == LINE_SIZE
  {
    if |line| < LINE_SIZE then line + [NUL] + before[|line| + 1..] else line[..LINE_SIZE - 1] + [NUL]
  }

  /** snprintf: it returns the length of the whole line even when that was cut off. */
  method FormatLine(buffer: array<char>, line: string) returns (count: nat)
    requires buffer.Length == LINE_SIZE
    modifies buffer
    ensures buffer[..] == Formatted(line, old(buffer[..])) && count == |line|
  {
    var n := if |line| < LINE_SIZE then |line| else LINE_SIZE - 1;
    forall k | 0 <= k < n {
      buffer[k] := line[k];
    }
    buffer[n] := NUL;
    return |line|;
  }

  /** Copying the returned number of bytes stays inside the line buffer and copies the line exactly when the line is shorter than it. */
  lemma LineCopied(line: string, before: seq<char>)
    requires |before| == LINE_SIZE && NUL !in line
    ensures |line| <= LINE_SIZE && Formatted(line, before)[..|line|] == line <==> |line| < LINE_SIZE
  {
    if |line| < LINE_SIZE {
      assert Formatted(line, before)[..|line|] == line;
    } else if |line| == LINE_SIZE {
      assert Formatted(line, before)[..|line|][LINE_SIZE - 1] == NUL;
    }
  }

  ghost predicate LineFits(line: string) {
    |line| < 1024
  }

  /** Every line with its newline fits the line buffer of config_save. */
  ghost predicate LinesFit(config: seq<Section>) {
    forall i :: 0 <= i < |config| ==> LineFits(SectionLine(config[i].name)) && EntriesFit(config[i].entries)
  }

  ghost predicate EntriesFit(entries: seq<Entry>) {
    forall j :: 0 <= j < |entries| ==> LineFits(EntryLine(entries[j]))
  }

  /** The line is what copying the returned number of bytes from the line buffer gives, whatever was in the buffer before. */
  ghost predicate Copies(line: string) {
    forall before: seq<char> :: |before| == LINE_SIZE ==> |line| <= LINE_SIZE && Formatted(line, before)[..|line|] == line
  }

  lemma CopiesExact(line: string)
    requires NUL !in line
    ensures Copies(line) <==> LineFits(line)
  {
    forall before: seq<char> | |before| == LINE_SIZE
      ensures |line| <= LINE_SIZE && Formatted(line, before)[..|line|] == line <==> |line| < LINE_SIZE
    {
      LineCopied(line, before);
    }
    var some := seq(LINE_SIZE, _ => NUL);
    assert |some| == LINE_SIZE;
  }

  /** No name, key or value holds a terminator: they are C strings. */
  ghost predicate CStrings(config: seq<Section>) {
    forall i :: 0 <= i < |config| ==>
      NUL !in config[i].name
      && forall j :: 0 <= j < |config[i].entries| ==> NUL !in config[i].entries[j].key && NUL !in config[i].entries[j].value
  }

  /** config_save copies every line of a configuration exactly when all of them fit its line buffer; it reads behind that buffer for the
      first one that is longer than it. */
  lemma LinesFitExact(config: seq<Section>)
    requires CStrings(config)
    ensures LinesFit(config)
            <==> forall i :: 0 <= i < |config| ==>
                   && Copies(SectionLine(config[i].name))
                   && forall j :: 0 <= j < |config[i].entries| ==> Copies(EntryLine(config[i].entries[j]))
  {
    forall i | 0 <= i < |config|
      ensures Copies(SectionLine(config[i].name)) <==> LineFits(SectionLine(config[i].name))
      ensures (forall j :: 0 <= j < |config[i].entries| ==> Copies(EntryLine(config[i].entries[j]))) <==> EntriesFit(config[i].entries)
    {
      CopiesExact(SectionLine(config[i].name));
      forall j | 0 <= j < |config[i].entries|
        ensures Copies(EntryLine(config[i].entries[j])) <==> LineFits(EntryLine(config[i].entries[j]))
      {
        CopiesExact(EntryLine(config[i].entries[j]));
      }
      hide Copies, LineFits, SectionLine, EntryLine;
    }
    hide Copies, LineFits, SectionLine, EntryLine, EntriesFit;
  }

  // ----- saving -----

  /** Copy a line from the line buffer into the text; "goal" is the whole text, of which "rest" follows the line. */
  method CopyLine(buf: array<char>, at: nat, buffer: array<char>, line: string, ghost rest: string, ghost goal: string) returns (next: nat)
    requires buf != buffer && buffer.Length == LINE_SIZE && LineFits(line)
    requires at <= buf.Length && |goal| <= buf.Length && goal == buf[..at] + (line + rest)
    modifies buf, buffer
    ensures next == at + |line| <= buf.Length && goal == buf[..next] + rest
  {
    AppendAssociative(buf[..at], line, rest);
    ghost var before := buf[..at];
    var count := FormatLine(buffer, line);
    assert buffer[..count] == line && buf[..at] == before;
    forall k | 0 <= k < count {
      buf[at + k] := buffer[k];
    }
    next := at + count;
    assert buf[..next] == before + line;
  }

  /** The entries of a section. */
  method CopyEntries(buf: array<char>, at: nat, buffer: array<char>, entries: seq<Entry>, ghost rest: string, ghost goal: string)
    returns (next: nat)
    requires buf != buffer && buffer.Length == LINE_SIZE && EntriesFit(entries)
    requires at <= buf.Length && |goal| <= buf.Length && goal == buf[..at] + (EntriesText(entries) + rest)
    modifies buf, buffer
    ensures next <= buf.Length && goal == buf[..next] + rest
  {
    next := at;
    assert entries[0..] == entries;
    var j := 0;
    while j < |entries|
      invariant j <= |entries| && next <= buf.Length
      invariant goal == buf[..next] + (EntriesText(entries[j..]) + rest)
    {
      EntriesTextAt(entries, j);
      var line := EntryLine(entries[j]);
      hide EntriesText, EntryLine, LineFits;
      AppendAssociative(line, EntriesText(entries[j + 1..]), rest);
      next := CopyLine(buf, next, buffer, line, EntriesText(entries[j + 1..]) + rest, goal);
      j := j + 1;
    }
    assert "" + rest == rest;
  }

  /** The newline between two sections. */
  method CopySeparator(buf: array<char>, at: nat, ghost rest: string, ghost goal: string) returns (next: nat)
    requires at <= buf.Length && |goal| <= buf.Length && goal == buf[..at] + ("\n" + rest)
    modifies buf
    ensures next <= buf.Length && goal == buf[..next] + rest
  {
    AppendAssociative(buf[..at], "\n", rest);
    ghost var before := buf[..at];
    buf[at] := '\n';
    next := at + 1;
    assert buf[..next] == before + "\n";
  }

  /** A section of config_save, with the empty line behind it if there are more sections. */
  method CopySection(buf: array<char>, at: nat, buffer: array<char>, config: seq<Section>, i: nat, ghost goal: string) returns (next: nat)
    requires buf != buffer && buffer.Length == LINE_SIZE && LinesFit(config)
    requires i < |config| && at <= buf.Length && |goal| < buf.Length && goal == buf[..at] + ConfigText(config[i..])
    modifies buf, buffer
    ensures next <= buf.Length && goal == buf[..next] + ConfigText(config[i + 1..])
  {
    ConfigTextAt(config, i);
    assert EntriesFit(config[i].entries) && LineFits(SectionLine(config[i].name));
    hide ConfigText, SectionLine, EntriesText, SectionsTail, EntriesFit, LinesFit, LineFits;
    ghost var tail := SectionsTail(config[i..]);
    next := CopyLine(buf, at, buffer, SectionLine(config[i].name), EntriesText(config[i].entries) + tail, goal);
    next := CopyEntries(buf, next, buffer, config[i].entries, tail, goal);
    if i + 1 < |config| {
      next := CopySeparator(buf, next, ConfigText(config[i + 1..]), goal);
    } else {
      assert "" + ConfigText(config[i + 1..]) == ConfigText(config[i + 1..]);
    }
  }

  /** The text of a configuration in a buffer of the computed size. */
  method WriteText(config: seq<Section>) returns (buf: array<char>, total: nat)
    requires LinesFit(config)
    ensures fresh(buf) && total < buf.Length && buf[..total] == ConfigText(config)
  {
    var size := ConfigSize(config);
    buf := new char[size];
    var buffer := new char[LINE_SIZE];
    total := 0;
    ghost var goal := ConfigText(config);
    assert ConfigText([]) == "" && config[0..] == config;
    assert buf[..0] + goal == goal;
    var i := 0;
    hide ConfigText;
    while i < |config|
      invariant i <= |config| && total <= buf.Length && fresh(buf) && fresh(buffer)
      invariant goal == buf[..total] + ConfigText(config[i..])
    {
      total := CopySection(buf, total, buffer, config, i, goal);
      i := i + 1;
    }
    assert config[i..] == [];
    buf[total] := NUL;
  }

  // ----- the loop that stores the blobs -----

  /** The part of the text that goes into blob i of the given number of full ones. */
  function Chunk(text: string, i: nat): string
    requires i <= |text| / MAX_BLOB
  {
    if i == |text| / MAX_BLOB then text[i * MAX_BLOB..] else text[i * MAX_BLOB..(i + 1) * MAX_BLOB]
  }

  /** The blobs and the counter of the loop. */
  datatype Saving = Saving(blobs: map<string, string>, i: nat)

  /** A turn of the loop. The counter has 8 bits. */
  function SavingTurn(s: Saving, text: string): Saving
    requires s.i <= |text| / MAX_BLOB
  {
    Saving(s.blobs[BlobKey(s.i) := Chunk(text, s.i)], (s.i + 1) % 256)
  }

  /** At most n turns. */
  function SavingRun(s: Saving, text: string, n: nat): Saving
    decreases n
  {
    if n == 0 || s.i > |text| / MAX_BLOB then s else SavingRun(SavingTurn(s, text), text, n - 1)
  }

  lemma ChunkOf(text: string, i: nat)
    requires i <= |text| / MAX_BLOB
    ensures i * MAX_BLOB <= |text| && |text[i * MAX_BLOB..]| == |text| - i * MAX_BLOB
    ensures i == |text| / MAX_BLOB ==> |text[i * MAX_BLOB..]| < MAX_BLOB && Chunk(text, i) == text[i * MAX_BLOB..]
    ensures i < |text| / MAX_BLOB ==> (i + 1) * MAX_BLOB <= |text| && |Chunk(text, i)| == MAX_BLOB
                                      && text[i * MAX_BLOB..] == Chunk(text, i) + text[(i + 1) * MAX_BLOB..]
  {
  }

  /** With fewer than 255 full blobs the loop stores the text and ends. */
  lemma {:induction false} SavingEndsAt(blobs: map<string, string>, text: string, i: nat)
    requires i <= |text| / MAX_BLOB < 255
    ensures i * MAX_BLOB <= |text|
    ensures SavingRun(Saving(blobs, i), text, |text| / MAX_BLOB + 1 - i)
            == Saving(Stored(blobs, i, text[i * MAX_BLOB..]), |text| / MAX_BLOB + 1)
    decreases |text| / MAX_BLOB - i
  {
    ChunkOf(text, i);
    StoredTurn(blobs, text, i);
    var next := SavingTurn(Saving(blobs, i), text);
    assert next == Saving(blobs[BlobKey(i) := Chunk(text, i)], i + 1);
    hide Chunk, BlobKey, Stored;
    if i == |text| / MAX_BLOB {
      assert SavingRun(next, text, 0) == next;
    } else {
      SavingEndsAt(next.blobs, text, i + 1);
    }
  }

  /** With 255 full blobs or more the counter starts over before it gets there. */
  lemma {:induction false} SavingGoesOn(s: Saving, text: string, n: nat)
    requires s.i <= 255 <= |text| / MAX_BLOB
    ensures SavingRun(s, text, n).i <= 255
    decreases n
  {
    if n > 0 {
      SavingGoesOn(SavingTurn(s, text), text, n - 1);
    }
  }

  ghost predicate SavingEnds(s: Saving, text: string) {
    exists n :: SavingRun(s, text, n).i > |text| / MAX_BLOB
  }

  /** Main result: the loop ends exactly when the text has fewer than 255 full blobs. The assertion in front of it lets 255 of them pass. */
  lemma SavingEndsExactly(blobs: map<string, string>, text: string)
    ensures SavingEnds(Saving(blobs, 0), text) <==> |text| < 255 * 1536
  {
    assert text[0..] == text;
    if |text| < 255 * MAX_BLOB {
      SavingEndsAt(blobs, text, 0);
    } else {
      forall n ensures SavingRun(Saving(blobs, 0), text, n).i <= 255 {
        SavingGoesOn(Saving(blobs, 0), text, n);
      }
    }
  }

  /** The chunks of config_save, for a text for which the loop ends. */
  method StoreChunks(flash: Flash, buf: array<char>, total: nat)
    requires total < buf.Length && SavingEnds(Saving(flash.blobs, 0), buf[..total])
    modifies flash
    ensures flash.blobs == Stored(old(flash.blobs), 0, buf[..total])
  {
    ghost var text := buf[..total];
    hide *;
    SavingEndsExactly(flash.blobs, text);
    if total < MAX_BLOB {
      LastChunk(flash.blobs, 0, text);
      flash.blobs := flash.blobs[BlobKey(0) := buf[..total]];
      return;
    }
    var count := total / MAX_BLOB;
    var i := 0;
    StoringStart(flash.blobs, text);
    while i <= count
      invariant i <= count + 1
      invariant StoringAt(old(flash.blobs), flash.blobs, text, i)
    {
      StoringTurn(old(flash.blobs), flash.blobs, text, i);
      var end := if i == count then total else (i + 1) * MAX_BLOB;
      ChunkIs(buf, total, text, i, end);
      flash.blobs := flash.blobs[BlobKey(i) := buf[i * MAX_BLOB..end]];
      i := (i + 1) % 256;
    }
    StoringEnd(old(flash.blobs), flash.blobs, text, i);
  }

  lemma StoringStart(blobs: map<string, string>, text: string)
    ensures StoringAt(blobs, blobs, text, 0)
    ensures |text| < 255 * MAX_BLOB ==> |text| / MAX_BLOB < 255
  {
    assert text[0..] == text;
    hide Stored;
  }

  lemma StoringEnd(before: map<string, string>, blobs: map<string, string>, text: string, i: nat)
    requires i > |text| / MAX_BLOB && StoringAt(before, blobs, text, i)
    ensures blobs == Stored(before, 0, text)
  {
    hide Stored;
  }

  /** What is stored and what is still to be stored, before turn i of the loop that stores the blobs. */
  ghost predicate StoringAt(before: map<string, string>, blobs: map<string, string>, text: string, i: nat) {
    if i <= |text| / MAX_BLOB then
      i * MAX_BLOB <= |text| && Stored(before, 0, text) == Stored(blobs, i, text[i * MAX_BLOB..])
    else
      blobs == Stored(before, 0, text)
  }

  lemma StoringTurn(before: map<string, string>, blobs: map<string, string>, text: string, i: nat)
    requires i <= |text| / MAX_BLOB && StoringAt(before, blobs, text, i)
    ensures i * MAX_BLOB <= |text|
    ensures StoringAt(before, blobs[BlobKey(i) := Chunk(text, i)], text, i + 1)
  {
    hide BlobKey, Chunk, Stored;
    StoredTurn(blobs, text, i);
  }

  lemma ChunkIs(buf: array<char>, total: nat, text: string, i: nat, end: nat)
    requires total <= buf.Length && text == buf[..total] && i <= |text| / MAX_BLOB
    requires end == if i == total / MAX_BLOB then total else (i + 1) * MAX_BLOB
    ensures i * MAX_BLOB <= end <= total && buf[i * MAX_BLOB..end] == Chunk(text, i)
  {
  }

  /** A turn of the loop that stores the blobs. */
  lemma StoredTurn(blobs: map<string, string>, text: string, i: nat)
    requires i <= |text| / MAX_BLOB && i * MAX_BLOB <= |text|
    ensures i == |text| / MAX_BLOB ==> Stored(blobs, i, text[i * MAX_BLOB..]) == blobs[BlobKey(i) := Chunk(text, i)]
    ensures i < |text| / MAX_BLOB ==>
              (i + 1) * MAX_BLOB <= |text|
              && Stored(blobs, i, text[i * MAX_BLOB..]) == Stored(blobs[BlobKey(i) := Chunk(text, i)], i + 1, text[(i + 1) * MAX_BLOB..])
  {
    ChunkOf(text, i);
    hide Chunk, BlobKey, Stored;
    if i == |text| / MAX_BLOB {
      LastChunk(blobs, i, Chunk(text, i));
    } else {
      FullChunk(blobs, i, Chunk(text, i), text[(i + 1) * MAX_BLOB..]);
    }
  }

  lemma LastChunk(blobs: map<string, string>, i: nat, text: string)
    requires |text| < MAX_BLOB
    ensures Stored(blobs, i, text) == blobs[BlobKey(i) := text]
  {
  }

  lemma FullChunk(blobs: map<string, string>, i: nat, chunk: string, more: string)
    requires |chunk| == MAX_BLOB
    ensures Stored(blobs, i, chunk + more) == Stored(blobs[BlobKey(i) := chunk], i + 1, more)
  {
    assert (chunk + more)[..MAX_BLOB] == chunk && (chunk + more)[MAX_BLOB..] == more;
  }

  /** config_save, for a configuration whose lines are copied and for which the storing loop ends. */
  method Save(config: seq<Section>, flash: Flash)
    requires LinesFit(config) && SavingEnds(Saving(flash.blobs, 0), ConfigText(config))
    modifies flash
    ensures flash.blobs == Stored(old(flash.blobs), 0, ConfigText(config))
  {
    var buf, total := WriteText(config);
    StoreChunks(flash, buf, total);
  }

  // ----- loading -----

  /** The sizes of the blobs that reading passes, added up. */
  function ChainSize(blobs: map<string, string>, i: nat): nat
    requires i <= 0xFFFF
    decreases 0xFFFF - i
  {
    if BlobKey(i) !in blobs then 0
    else if |blobs[BlobKey(i)]| != MAX_BLOB || i == 0xFFFF then |blobs[BlobKey(i)]|
    else MAX_BLOB + ChainSize(blobs, i + 1)
  }

  predicate FullBlob(blobs: map<string, string>, i: nat) {
    BlobKey(i) in blobs && |blobs[BlobKey(i)]| == MAX_BLOB
  }

  /** The 16-bit counter of the loops that go from blob to blob, after n turns. */
  function CounterAfter(n: nat): nat {
    if n == 0 then 0
    else
      var before := CounterAfter(n - 1);
      if before == 0xFFFF then 0 else before + 1
  }

  lemma {:induction false} CounterIs(n: nat)
    ensures CounterAfter(n) <= 0xFFFF && (n <= 0xFFFF ==> CounterAfter(n) == n)
  {
    if n > 0 {
      CounterIs(n - 1);
    }
  }

  /** Going from blob to blob ends: some turn finds a blob that is not full. */
  ghost predicate ReadingEnds(blobs: map<string, string>) {
    exists n: nat :: !FullBlob(blobs, CounterAfter(n))
  }

  lemma {:induction false} EndlessFrom(blobs: map<string, string>, i: nat)
    requires i <= 0xFFFF
    ensures ReadBlobs(blobs, i).Endless? <==> forall j: nat :: i <= j <= 0xFFFF ==> FullBlob(blobs, j)
    decreases 0xFFFF - i
  {
    hide BlobKey;
    if i < 0xFFFF {
      EndlessFrom(blobs, i + 1);
      assert (forall j: nat :: i <= j <= 0xFFFF ==> FullBlob(blobs, j))
        <==> FullBlob(blobs, i) && forall j: nat :: i + 1 <= j <= 0xFFFF ==> FullBlob(blobs, j);
    } else {
      assert (forall j: nat :: i <= j <= 0xFFFF ==> FullBlob(blobs, j)) <==> FullBlob(blobs, i);
    }
  }

  lemma {:induction false} NeverEnds(blobs: map<string, string>)
    requires forall j: nat :: j <= 0xFFFF ==> FullBlob(blobs, j)
    ensures !ReadingEnds(blobs)
  {
    hide FullBlob, CounterAfter;
    forall n: nat
      ensures FullBlob(blobs, CounterAfter(n))
    {
      CounterIs(n);
    }
  }

  lemma {:induction false} EndsAt(blobs: map<string, string>, j: nat)
    requires j <= 0xFFFF && !FullBlob(blobs, j)
    ensures ReadingEnds(blobs)
  {
    hide FullBlob, CounterAfter;
    CounterIs(j);
  }

  /** The loops that read the blobs never end exactly when all 65536 blobs that the counter can name are full. */
  lemma {:induction false} ReadingEndsExactly(blobs: map<string, string>)
    ensures ReadingEnds(blobs) <==> !ReadBlobs(blobs, 0).Endless?
  {
    hide *;
    EndlessFrom(blobs, 0);
    if ReadBlobs(blobs, 0).Endless? {
      NeverEnds(blobs);
    } else {
      var j: nat :| 0 <= j <= 0xFFFF && !FullBlob(blobs, j);
      EndsAt(blobs, j);
    }
  }

  /** get_config_size_from_flash: only the sizes of the blobs are asked for, so that none is too long. */
  method FlashSize(flash: Flash) returns (total: nat)
    requires ReadingEnds(flash.blobs)
    ensures total == ChainSize(flash.blobs, 0)
  {
    ReadingEndsExactly(flash.blobs);
    hide ReadingEnds;
    total := 0;
    var i := 0;
    var length := MAX_BLOB;
    while length == MAX_BLOB
      invariant i <= 0xFFFF
      invariant length == MAX_BLOB ==> total + ChainSize(flash.blobs, i) == ChainSize(flash.blobs, 0) && !ReadBlobs(flash.blobs, i).Endless?
      invariant length != MAX_BLOB ==> total == ChainSize(flash.blobs, 0)
      decreases if length == MAX_BLOB then 0x10000 - i else 0
    {
      var key := BlobKey(i);
      hide BlobKey;
      if key !in flash.blobs {
        return;
      }
      length := |flash.blobs[key]|;
      total := total + length;
      if length == MAX_BLOB {
        i := i + 1;
      }
    }
  }

  /** Reading gives a text of the computed size. */
  lemma {:induction false} ReadSize(blobs: map<string, string>, i: nat)
    requires i <= 0xFFFF
    ensures ReadBlobs(blobs, i).Text? ==> |ReadBlobs(blobs, i).text| == ChainSize(blobs, i)
    decreases 0xFFFF - i
  {
    hide BlobKey;
    if BlobKey(i) in blobs && i < 0xFFFF {
      ReadSize(blobs, i + 1);
    }
  }

  /** Where the reading of the blobs is: i full ones stand in the buffer. */
  ghost predicate Reading(blobs: map<string, string>, i: nat, text: string) {
    i <= 0xFFFF && |text| == i * MAX_BLOB && ReadBlobs(blobs, 0) == AfterBlob(text, ReadBlobs(blobs, i))
    && ChainSize(blobs, 0) == |text| + ChainSize(blobs, i)
  }

  /** What the loop over the blobs has read, when the last blob had the given length. */
  ghost predicate ReadTo(blobs: map<string, string>, i: nat, length: nat, text: string) {
    if length == MAX_BLOB then Reading(blobs, i, text) else ReadBlobs(blobs, 0) == Text(text)
  }

  /** A blob that is read next fits the buffer. */
  lemma ReadingStep(blobs: map<string, string>, i: nat, text: string)
    requires Reading(blobs, i, text) && BlobKey(i) in blobs && |blobs[BlobKey(i)]| <= DEFAULT_LENGTH && !ReadBlobs(blobs, 0).Endless?
    ensures |text| + |blobs[BlobKey(i)]| <= ChainSize(blobs, 0)
    ensures |blobs[BlobKey(i)]| == MAX_BLOB ==> i < 0xFFFF
    ensures var length := |blobs[BlobKey(i)]|;
            ReadTo(blobs, if length == MAX_BLOB then i + 1 else i, length, text + blobs[BlobKey(i)])
  {
    hide BlobKey;
    var blob := blobs[BlobKey(i)];
    if |blob| == MAX_BLOB && i < 0xFFFF {
      var more := ReadBlobs(blobs, i + 1);
      if more.Text? {
        assert text + (blob + more.text) == (text + blob) + more.text;
      }
    }
  }

  /** The reading loop of config_parse: the blobs are read one behind the other into a buffer of the computed size, and never behind it.
      Without text, or with a blob that is too long, there is nothing to parse. */
  method ReadFlash(flash: Flash) returns (r: Option<string>)
    requires ReadingEnds(flash.blobs)
    ensures r == match ReadBlobs(flash.blobs, 0) case Text(text) => if text == "" then None else Some(text) case _ => None
  {
    ReadingEndsExactly(flash.blobs);
    var size := FlashSize(flash);
    ReadSize(flash.blobs, 0);
    if size == 0 {
      NothingToRead(flash.blobs);
      return None;
    }
    var buf := new char[size];
    var i: nat, total: nat, length: nat := 0, 0, MAX_BLOB;
    ghost var text := "";
    ReadingStart(flash.blobs);
    assert ReadTo(flash.blobs, 0, MAX_BLOB, "");
    hide *;
    while length == MAX_BLOB
      invariant total == |text| <= buf.Length && buf[..total] == text
      invariant ReadTo(flash.blobs, i, length, text)
      decreases if length == MAX_BLOB then 0x10000 - i else 0
    {
      var key := BlobKey(i);
      ReadingAt(flash.blobs, i, text);
      if key !in flash.blobs {
        break;
      }
      if |flash.blobs[key]| > DEFAULT_LENGTH {
        return None;
      }
      ReadingStep(flash.blobs, i, text);
      length := |flash.blobs[key]|;
      CopyBlob(buf, MAX_BLOB * i, flash.blobs[key]);
      text := text + flash.blobs[key];
      total := total + length;
      if length == MAX_BLOB {
        i := i + 1;
      }
    }
    return if total == 0 then None else Some(buf[..total]);
  }

  /** nvs_get_blob into the buffer. */
  method CopyBlob(buf: array<char>, at: nat, blob: string)
    requires at + |blob| <= buf.Length
    modifies buf
    ensures buf[..at + |blob|] == old(buf[..at]) + blob
  {
    forall k | 0 <= k < |blob| {
      buf[at + k] := blob[k];
    }
  }

  lemma NothingToRead(blobs: map<string, string>)
    requires ChainSize(blobs, 0) == 0
    ensures ReadBlobs(blobs, 0) == Text("")
  {
    hide BlobKey;
  }

  lemma ReadingStart(blobs: map<string, string>)
    ensures Reading(blobs, 0, "")
  {
    var all := ReadBlobs(blobs, 0);
    if all.Text? {
      assert "" + all.text == all.text;
    }
  }

  lemma ReadingAt(blobs: map<string, string>, i: nat, text: string)
    requires ReadTo(blobs, i, MAX_BLOB, text)
    ensures i <= 0xFFFF && |text| == MAX_BLOB * i && Reading(blobs, i, text)
    ensures BlobKey(i) !in blobs ==> ReadBlobs(blobs, 0) == Text(text)
    ensures BlobKey(i) in blobs && |blobs[BlobKey(i)]| > DEFAULT_LENGTH ==> ReadBlobs(blobs, 0) == TooLong
  {
    assert text + "" == text;
    hide BlobKey;
  }

  /** Where the parsing loop ends. */
  lemma ParseRestEnds(rest: string, s: State)
    requires |rest| <= 1 || FindChar(rest, '\n').None? || FindChar(rest, '\n').value > LINE_SIZE - 1
    ensures ParseRest(rest, s) == s
  {
    hide FindChar;
  }

  lemma SlicesOf(text: string, p: nat, n: nat)
    requires p + n < |text|
    ensures text[p..][..n] == text[p..p + n] && text[p..][n + 1..] == text[p + n + 1..]
  {
  }

  /** A turn of the loop of config_parse. */
  method LineTurn(text: string, p: nat, s: State) returns (more: bool, next: nat, s': State)
    requires p + 1 < |text|
    ensures p <= next <= |text| && (more ==> p < next)
    ensures if more then ParseRest(text[p..], s) == ParseRest(text[next..], s') else ParseRest(text[p..], s) == s'
  {
    hide *;
    var end := FindChar(text[p..], '\n');
    if end.None? || end.value > LINE_SIZE - 1 {
      ParseRestEnds(text[p..], s);
      return false, p, s;
    }
    ParseRestStep(text[p..], end.value, s);
    SlicesOf(text, p, end.value);
    return true, p + end.value + 1, ParseLine(Trim(text[p..p + end.value]), s);
  }

  /** The loop of config_parse over the lines. */
  method ParseLines(text: string) returns (config: seq<Section>)
    ensures config == ParseText(text)
  {
    assert text[0..] == text && ParseText(text) == ParseRest(text, State(DEFAULT_SECTION, [])).config;
    hide *;
    var s := State(DEFAULT_SECTION, []);
    var p := 0;
    var more := true;
    while more && p + 1 < |text|
      invariant p <= |text|
      invariant ParseText(text) == if more then ParseRest(text[p..], s).config else s.config
      decreases more, |text| - p
    {
      more, p, s := LineTurn(text, p, s);
    }
    if more {
      ParseRestEnds(text[p..], s);
    }
    return s.config;
  }

  lemma NoTextNoConfig()
    ensures ParseText("") == []
  {
  }

  /** config_new: a flash without text or with an unreadable one gives the empty configuration. */
  method New(flash: Flash) returns (config: seq<Section>)
    requires ReadingEnds(flash.blobs)
    ensures config == Load(flash.blobs)
  {
    var text := ReadFlash(flash);
    NoTextNoConfig();
    if text.None? {
      return [];
    }
    config := ParseLines(text.value);
  }

  // ----- trim, in the line buffer -----

  /** The string that starts here in a buffer. */
  ghost predicate StringAt(line: array<char>, at: nat, s: string)
    reads line
  {
    at + |s| < line.Length && line[at..at + |s|] == s && line[at + |s|] == NUL && NUL !in s
  }

  /** The first loop of trim. */
  method SkipSpace(line: array<char>, at: nat, ghost s: string) returns (start: nat)
    requires StringAt(line, at, s)
    ensures at <= start && start + |TrimStart(s)| == at + |s| && StringAt(line, start, TrimStart(s))
    ensures TrimStart(s) == "" || !IsSpace(TrimStart(s)[0])
  {
    start := at;
    ghost var rest := s;
    while IsSpace(line[start])
      invariant at <= start && start + |rest| == at + |s| && StringAt(line, start, rest) && TrimStart(rest) == TrimStart(s)
      decreases |rest|
    {
      assert line[start] == rest[0];
      rest := rest[1..];
      start := start + 1;
    }
    assert rest != "" ==> line[start] == rest[0];
  }

  /** The second loop of trim and the terminator. */
  method CutSpace(line: array<char>, start: nat, ghost s: string)
    requires StringAt(line, start, s) && s != "" && !IsSpace(s[0])
    modifies line
    ensures StringAt(line, start, TrimEnd(s))
    ensures forall i :: 0 <= i < line.Length && !(start <= i <= start + |s|) ==> line[i] == old(line[i])
  {
    var end := StringEnd(line, start, s);
    ghost var kept := s;
    while end > start && IsSpace(line[end])
      invariant start <= end && kept != "" && end == start + |kept| - 1
      invariant kept <= s && !IsSpace(kept[0]) && TrimEnd(kept) == TrimEnd(s)
    {
      assert line[end] == kept[|kept| - 1];
      kept := kept[..|kept| - 1];
      end := end - 1;
    }
    assert line[end] == kept[|kept| - 1];
    assert kept == s[..|kept|] && line[start..start + |kept|] == line[start..start + |s|][..|kept|];
    ghost var text := line[start..start + |kept|];
    line[end + 1] := NUL;
    assert line[start..start + |kept|] == text;
  }

  /** trim: move the start over blanks and write the terminator behind the last character that is none. */
  method TrimInPlace(line: array<char>, at: nat, ghost s: string) returns (start: nat)
    requires StringAt(line, at, s)
    modifies line
    ensures start >= at && StringAt(line, start, Trim(s))
    ensures forall i :: 0 <= i < line.Length && !(at <= i <= at + |s|) ==> line[i] == old(line[i])
  {
    start := SkipSpace(line, at, s);
    ghost var rest := TrimStart(s);
    hide TrimStart;
    assert rest != "" ==> line[start..start + |rest|][0] == line[start] == rest[0];
    if line[start] != NUL {
      CutSpace(line, start, rest);
    }
  }

  /** str + strlen(str) - 1. */
  method StringEnd(line: array<char>, start: nat, ghost s: string) returns (end: nat)
    requires StringAt(line, start, s) && s != ""
    ensures end == start + |s| - 1
  {
    end := start;
    assert forall i :: start <= i < start + |s| ==> line[i] == s[i - start];
    while line[end] != NUL
      invariant start <= end <= start + |s|
      decreases start + |s| - end
    {
      end := end + 1;
    }
    end := end - 1;
  }
}
