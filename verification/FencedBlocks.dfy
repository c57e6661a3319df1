/**
 Reading the fenced blocks out of a model's answer, line by line.

 Letters are lower-cased, and text is stripped and split into lines, as ASCII.
 */
module FencedBlocks {
  import opened Wrappers
  import opened Strings

  /** A line is either text or a fence with what follows the backticks, split at the first space. */
  datatype Line = Text(content: string) | Fence(word: string, rest: string)

  type Block = (string, string)

  // ---------------------------------------------------------------- strings

  function LowerChar(c: char): char {
    if 'A' <= c <= 'Z' then c - 'A' + 'a' else c
  }

  function Lower(s: string): string {
    seq(|s|, i requires 0 <= i < |s| => LowerChar(s[i]))
  }

  function LStrip(s: string, blank: char -> bool): string {
    if s != "" && blank(s[0]) then LStrip(s[1..], blank) else s
  }

  function RStrip(s: string, blank: char -> bool): string {
    if s != "" && blank(s[|s| - 1]) then RStrip(s[..|s| - 1], blank) else s
  }

  function Strip(s: string): string {
    RStrip(LStrip(s, IsSpace), IsSpace)
  }

  predicate IsNewline(c: char) {
    c == '\n'
  }

  function StripNewlines(s: string): string {
    RStrip(LStrip(s, IsNewline), IsNewline)
  }

  function Join(lines: seq<string>): string {
    if lines == [] then ""
    else if |lines| == 1 then lines[0]
    else lines[0] + "\n" + Join(lines[1..])
  }

  function BodyOf(lines: seq<string>): string {
    StripNewlines(Join(lines))
  }

  // ---------------------------------------------------------------- lines

  /** What str.splitlines breaks a line at. */
  predicate IsBreak(c: char) {
    '\n' <= c <= '\r' || '\U{1C}' <= c <= '\U{1E}'
  }

  function LineEnd(text: string): (n: nat)
    ensures n <= |text| && forall c :: c in text[..n] ==> !IsBreak(c)
    ensures n < |text| ==> IsBreak(text[n])
  {
    if text == "" || IsBreak(text[0]) then 0
    else
      var n := 1 + LineEnd(text[1..]);
      assert text[..n] == [text[0]] + text[1..][..n - 1];
      n
  }

  function SplitLines(text: string): seq<string> {
    if text == "" then []
    else
      var n := LineEnd(text);
      if n == |text| then [text]
      else [text[..n]] + SplitLines(text[if "\r\n" <= text[n..] then n + 2 else n + 1..])
  }

  function Space(s: string): (n: nat)
    ensures n <= |s| && ' ' !in s[..n]
    ensures n < |s| ==> s[n] == ' '
  {
    if s == "" || s[0] == ' ' then 0
    else
      var n := 1 + Space(s[1..]);
      assert s[..n] == [s[0]] + s[1..][..n - 1];
      n
  }

  function Partition(s: string): Line {
    var n := Space(s);
    Fence(s[..n], if n < |s| then s[n + 1..] else "")
  }

  /** White space, three backticks, and then no other backtick. */
  function Classify(line: string): Line {
    var s := LStrip(line, IsSpace);
    if "```" <= s && '`' !in s[3..] then Partition(Strip(s[3..])) else Text(line)
  }

  function Classified(lines: seq<string>): (out: seq<Line>)
    ensures |out| == |lines|
  {
    seq(|lines|, i requires 0 <= i < |lines| => Classify(lines[i]))
  }

  // ---------------------------------------------------------------- the reader

  /** Blocks read so far, the language of the open block and its lines. */
  datatype State = State(blocks: seq<Block>, info: Option<string>, body: seq<string>)

  /** Content written on the fence line itself is kept when it opens like data. */
  function Opening(rest: string): seq<string> {
    var s := Strip(rest);
    if s != "" && s[0] in {'{', '[', '<', ':'} then [s] else []
  }

  function Read(s: State, line: Line): State {
    match line
    case Text(content) => if s.info.Some? then s.(body := s.body + [content]) else s
    case Fence(word, rest) =>
      var lang := Lower(word);
      if s.info.None? then State(s.blocks, Some(lang), Opening(rest))
      else
        var blocks := s.blocks + [(s.info.value, BodyOf(s.body))];
        if lang == "" then State(blocks, None, []) else State(blocks, Some(lang), Opening(rest))
  }

  ghost function ReadAll(s: State, lines: seq<Line>): State {
    if lines == [] then s else Read(ReadAll(s, lines[..|lines| - 1]), lines[|lines| - 1])
  }

  lemma ReadNext(s: State, lines: seq<Line>, k: nat)
    requires k < |lines|
    ensures ReadAll(s, lines[..k + 1]) == Read(ReadAll(s, lines[..k]), lines[k])
  {
    assert lines[..k + 1][..k] == lines[..k];
  }

  ghost predicate HasContent(lines: seq<string>) {
    exists k :: 0 <= k < |lines| && Strip(lines[k]) != ""
  }

  /** A block that is never closed counts when some line of it is not blank. */
  ghost function Finish(s: State): seq<Block> {
    if s.info.Some? && HasContent(s.body)
    then s.blocks + [(s.info.value, BodyOf(s.body))]
    else s.blocks
  }

  ghost function BlocksOf(lines: seq<Line>): seq<Block> {
    Finish(ReadAll(State([], None, []), lines))
  }

  /** The blocks of a text. */
  ghost function Blocks(text: string): seq<Block> {
    BlocksOf(Classified(SplitLines(text)))
  }

  method FencedBlocks(text: string) returns (blocks: seq<Block>)
    ensures blocks == Blocks(text)
  {
    var lines := SplitLines(text);
    ghost var classified := Classified(lines);
    blocks := [];
    var info: Option<string> := None;
    var body: seq<string> := [];
    for k := 0 to |lines|
      invariant State(blocks, info, body) == ReadAll(State([], None, []), classified[..k])
    {
      ReadNext(State([], None, []), classified, k);
      match Classify(lines[k]) {
        case Text(content) =>
          if info != None {
            body := body + [content];
          }
        case Fence(word, rest) =>
          var lang := Lower(word);
          if info != None {
            blocks := blocks + [(info.value, BodyOf(body))];
            info, body := None, [];
            if lang == "" {
              continue;
            }
          }
          info, body := Some(lang), Opening(rest);
      }
    }
    assert classified[..|lines|] == classified;
    var anything := AnyContent(body);
    if info != None && anything {
      blocks := blocks + [(info.value, BodyOf(body))];
    }
  }

  method AnyContent(body: seq<string>) returns (anything: bool)
    ensures anything <==> HasContent(body)
  {
    anything := false;
    for k := 0 to |body|
      invariant anything <==> exists i :: 0 <= i < k && Strip(body[i]) != ""
    {
      if Strip(body[k]) != "" {
        anything := true;
      }
    }
  }

  // ---------------------------------------------------------------- the printer

  /**
   Prose, then a block: the fence's indentation, the gap before the language, the language, what stands
   beside it, what trails; the block's lines, and its closing fence or not.
   */
  datatype Chunk = Chunk(prose: seq<string>, indent: string, gap: string, word: string, beside: string, trail: string,
                         lines: seq<string>, closed: bool)

  function Texts(lines: seq<string>): seq<Line> {
    seq(|lines|, i requires 0 <= i < |lines| => Text(lines[i]))
  }

  ghost function PrintChunk(c: Chunk): seq<Line> {
    Texts(c.prose) + [Fence(c.word, c.beside)] + Texts(c.lines) + (if c.closed then [Fence("", "")] else [])
  }

  ghost function Print(chunks: seq<Chunk>): seq<Line> {
    if chunks == [] then [] else Print(chunks[..|chunks| - 1]) + PrintChunk(chunks[|chunks| - 1])
  }

  ghost function Lines(c: Chunk): seq<string> {
    Opening(c.beside) + c.lines
  }

  /** The block a chunk stands for. */
  ghost function Meant(c: Chunk): Block {
    (Lower(c.word), BodyOf(Lines(c)))
  }

  ghost function AllMeant(chunks: seq<Chunk>): seq<Block> {
    seq(|chunks|, k requires 0 <= k < |chunks| => Meant(chunks[k]))
  }

  /** A closing fence is left out only where the next language fence follows directly. */
  ghost predicate Printable(chunks: seq<Chunk>) {
    forall k :: 0 < k < |chunks| && !chunks[k - 1].closed ==> chunks[k].prose == [] && chunks[k].word != ""
  }

  lemma {:induction false} ReadConcat(s: State, a: seq<Line>, b: seq<Line>)
    ensures ReadAll(s, a + b) == ReadAll(ReadAll(s, a), b)
  {
    if b == [] {
      assert a + b == a;
    } else {
      assert (a + b)[..|a + b| - 1] == a + b[..|b| - 1];
      ReadConcat(s, a, b[..|b| - 1]);
    }
  }

  lemma ReadOne(s: State, line: Line)
    ensures ReadAll(s, [line]) == Read(s, line)
  {
    assert [line][..0] == [];
    assert ReadAll(s, [line][..0]) == s;
  }

  lemma {:induction false} ReadTexts(s: State, lines: seq<string>)
    ensures ReadAll(s, Texts(lines)) == if s.info.Some? then s.(body := s.body + lines) else s
  {
    if lines == [] {
      assert s.body + lines == s.body;
    } else {
      var init := lines[..|lines| - 1];
      ReadTexts(s, init);
      assert Texts(lines)[..|lines| - 1] == Texts(init);
      assert s.body + init + [lines[|lines| - 1]] == s.body + lines;
    }
  }

  /** Where the reader stands after some printed chunks. */
  ghost function After(chunks: seq<Chunk>): State {
    if chunks == [] then State([], None, [])
    else
      var last := chunks[|chunks| - 1];
      if last.closed then State(AllMeant(chunks), None, [])
      else State(AllMeant(chunks[..|chunks| - 1]), Some(Lower(last.word)), Lines(last))
  }

  lemma {:induction false} ReadChunk(s: State, c: Chunk)
    requires s.info.Some? ==> c.prose == [] && c.word != ""
    ensures var blocks := if s.info.Some? then s.blocks + [(s.info.value, BodyOf(s.body))] else s.blocks;
      ReadAll(s, PrintChunk(c)) ==
        if c.closed then State(blocks + [Meant(c)], None, []) else State(blocks, Some(Lower(c.word)), Lines(c))
  {
    var prose, open, lines := Texts(c.prose), [Fence(c.word, c.beside)], Texts(c.lines);
    var close := if c.closed then [Fence("", "")] else [];
    ReadConcat(s, prose + open + lines, close);
    ReadConcat(s, prose + open, lines);
    ReadConcat(s, prose, open);
    ReadTexts(s, c.prose);
    if s.info.Some? {
      assert s.body + c.prose == s.body;
    }
    ReadOne(s, Fence(c.word, c.beside));
    var inside := Read(s, Fence(c.word, c.beside));
    ReadTexts(inside, c.lines);
    ReadOne(inside.(body := inside.body + c.lines), Fence("", ""));
  }

  lemma {:induction false} ReadPrinted(chunks: seq<Chunk>)
    requires Printable(chunks)
    ensures ReadAll(State([], None, []), Print(chunks)) == After(chunks)
  {
    if chunks != [] {
      var init, last := chunks[..|chunks| - 1], chunks[|chunks| - 1];
      assert forall k :: 0 <= k < |init| ==> init[k] == chunks[k];
      ReadPrinted(init);
      ReadConcat(State([], None, []), Print(init), PrintChunk(last));
      AfterStep(chunks);
    }
  }

  lemma AllMeantSnoc(chunks: seq<Chunk>)
    requires chunks != []
    ensures AllMeant(chunks) == AllMeant(chunks[..|chunks| - 1]) + [Meant(chunks[|chunks| - 1])]
  {
  }

  lemma {:induction false} AfterStep(chunks: seq<Chunk>)
    requires Printable(chunks) && chunks != []
    ensures ReadAll(After(chunks[..|chunks| - 1]), PrintChunk(chunks[|chunks| - 1])) == After(chunks)
  {
    var init, last := chunks[..|chunks| - 1], chunks[|chunks| - 1];
    AllMeantSnoc(chunks);
    if init != [] {
      AllMeantSnoc(init);
      assert init[|init| - 1] == chunks[|chunks| - 2];
    }
    ReadChunk(After(init), last);
  }

  /**
   Reading any printed chunks: one block each, in order, whether every block is closed, or some run
   straight into the next, or the last one is never closed and has something in it.
   */
  lemma {:induction false} EachChunkRead(chunks: seq<Chunk>, trailing: seq<string>)
    requires Printable(chunks)
    requires chunks != [] && !chunks[|chunks| - 1].closed ==>
      trailing == [] && HasContent(Lines(chunks[|chunks| - 1]))
    ensures BlocksOf(Print(chunks) + Texts(trailing)) == AllMeant(chunks)
  {
    ReadPrinted(chunks);
    ReadConcat(State([], None, []), Print(chunks), Texts(trailing));
    ReadTexts(After(chunks), trailing);
    if chunks != [] && !chunks[|chunks| - 1].closed {
      AllMeantSnoc(chunks);
      assert After(chunks).body + trailing == After(chunks).body;
    }
  }

  lemma OpenBlankUnread(chunks: seq<Chunk>)
    requires Printable(chunks) && chunks != [] && !chunks[|chunks| - 1].closed
    requires !HasContent(Lines(chunks[|chunks| - 1]))
    ensures BlocksOf(Print(chunks)) == AllMeant(chunks[..|chunks| - 1])
  {
    ReadPrinted(chunks);
  }

  // ---------------------------------------------------------------- the round trip

  /** The lines of a text. */
  function Split(text: string): (lines: seq<string>)
    ensures lines != [] && forall k :: 0 <= k < |lines| ==> '\n' !in lines[k]
  {
    if text == "" then [""]
    else
      var rest := Split(text[1..]);
      if text[0] == '\n' then [""] + rest else [[text[0]] + rest[0]] + rest[1..]
  }

  lemma {:induction false} JoinSplit(text: string)
    ensures Join(Split(text)) == text
  {
    if text != "" {
      var rest := Split(text[1..]);
      JoinSplit(text[1..]);
      assert rest == [rest[0]] + rest[1..];
      if text[0] == '\n' {
        assert Split(text)[1..] == rest;
      } else {
        assert Split(text)[1..] == rest[1..];
      }
    }
  }

  /** No line break at either end. */
  predicate Trimmed(text: string) {
    text != "" ==> text[0] != '\n' && text[|text| - 1] != '\n'
  }

  /** A body comes back as it was written if and only if there is no empty line at either end of it. */
  lemma BodyIsVerbatim(body: string)
    ensures BodyOf(Split(body)) == body <==> Trimmed(body)
  {
    JoinSplit(body);
    LStripShortens(body);
    RStripShortens(LStrip(body, IsNewline));
  }

  /** Otherwise it comes back without them. */
  lemma BodyIsTrimmed(before: string, body: string, after: string)
    requires body != "" && Trimmed(body)
    requires (forall c :: c in before ==> c == '\n') && (forall c :: c in after ==> c == '\n')
    ensures BodyOf(Split(before + body + after)) == body
  {
    JoinSplit(before + body + after);
    StripAround(before, body, after, IsNewline);
  }

  /** Stripping takes away exactly what is blank at the ends. */
  lemma {:induction false} StripAround(before: string, core: string, after: string, blank: char -> bool)
    requires (forall c :: c in before ==> blank(c)) && (forall c :: c in after ==> blank(c))
    requires core != "" ==> !blank(core[0]) && !blank(core[|core| - 1])
    ensures RStrip(LStrip(before + core + after, blank), blank) == core
    decreases |before| + |after|
  {
    var s := before + core + after;
    if before != "" {
      assert s[0] in before && s[1..] == before[1..] + core + after;
      StripAround(before[1..], core, after, blank);
    } else if core == "" {
      assert s == after;
      if after != "" {
        assert s[0] in after && s[1..] == "" + "" + after[1..];
        StripAround("", "", after[1..], blank);
      }
    } else {
      assert s == core + after;
      RStripAfter(core, after, blank);
    }
  }

  lemma {:induction false} RStripAfter(core: string, after: string, blank: char -> bool)
    requires forall c :: c in after ==> blank(c)
    requires core != "" && !blank(core[|core| - 1])
    ensures RStrip(core + after, blank) == core
    decreases |after|
  {
    var s := core + after;
    if after == "" {
      assert s == core;
    } else {
      assert s[|s| - 1] in after && s[..|s| - 1] == core + after[..|after| - 1];
      RStripAfter(core, after[..|after| - 1], blank);
    }
  }

  lemma {:induction false} LStripShortens(s: string)
    ensures |LStrip(s, IsNewline)| <= |s|
    ensures if s == "" || s[0] != '\n' then LStrip(s, IsNewline) == s else |LStrip(s, IsNewline)| < |s|
  {
    if s != "" && s[0] == '\n' {
      LStripShortens(s[1..]);
    }
  }

  lemma {:induction false} RStripShortens(s: string)
    ensures |RStrip(s, IsNewline)| <= |s|
    ensures if s == "" || s[|s| - 1] != '\n' then RStrip(s, IsNewline) == s else |RStrip(s, IsNewline)| < |s|
  {
    if s != "" && s[|s| - 1] == '\n' {
      RStripShortens(s[..|s| - 1]);
    }
  }

  // ---------------------------------------------------------------- printed as text

  /** White space and line breaks, written out. */
  predicate White(c: char) {
    c == ' ' || c == '\t' || c == '\U{1F}' || LineBreak(c)
  }

  predicate LineBreak(c: char) {
    || c == '\n' || c == '\r' || c == '\U{0B}' || c == '\U{0C}'
    || c == '\U{1C}' || c == '\U{1D}' || c == '\U{1E}'
  }

  predicate OneLine(s: string) {
    forall c :: c in s ==> !LineBreak(c)
  }

  lemma WhiteIs(c: char)
    ensures White(c) <==> IsSpace(c)
    ensures LineBreak(c) <==> IsBreak(c)
  {
  }

  /** A fence: white space, three backticks, and no backtick after them. */
  predicate IsFence(line: string) {
    exists i :: 0 <= i <= |line| - 3 && IsFenceAt(line, i)
  }

  predicate IsFenceAt(line: string, i: nat)
    requires i <= |line| - 3
  {
    (forall c :: c in line[..i] ==> White(c)) && line[i..i + 3] == "```" && '`' !in line[i + 3..]
  }

  lemma {:induction false} LStripIs(line: string, i: nat)
    requires i <= |line| && (forall c :: c in line[..i] ==> IsSpace(c)) && (i < |line| ==> !IsSpace(line[i]))
    ensures LStrip(line, IsSpace) == line[i..]
    decreases i
  {
    if i > 0 {
      assert line[0] in line[..i] && line[1..][..i - 1] == line[..i][1..] && line[1..][i - 1..] == line[i..];
      LStripIs(line[1..], i - 1);
    } else {
      assert line[0..] == line;
    }
  }

  lemma {:induction false} LStripTakes(line: string) returns (i: nat)
    ensures i <= |line| && LStrip(line, IsSpace) == line[i..] && forall c :: c in line[..i] ==> IsSpace(c)
  {
    if line != "" && IsSpace(line[0]) {
      i := LStripTakes(line[1..]);
      assert line[1..][..i] == line[1..i + 1] && line[1..][i..] == line[i + 1..];
      assert line[..i + 1] == [line[0]] + line[1..i + 1];
      i := i + 1;
    } else {
      i := 0;
      assert line[0..] == line;
    }
  }

  /** Exactly the fences are read as fences. */
  lemma FenceIff(line: string)
    ensures Classify(line).Fence? <==> IsFence(line)
    ensures Classify(line).Text? ==> Classify(line) == Text(line)
  {
    forall c ensures White(c) <==> IsSpace(c) { WhiteIs(c); }
    if Classify(line).Fence? {
      var i := LStripTakes(line);
      assert line[i..][..3] == line[i..i + 3] && line[i..][3..] == line[i + 3..];
      assert IsFenceAt(line, i);
    }
    if i :| 0 <= i <= |line| - 3 && IsFenceAt(line, i) {
      assert line[i] == line[i..i + 3][0];
      LStripIs(line, i);
      assert line[i..][..3] == line[i..i + 3] && line[i..][3..] == line[i + 3..];
    }
  }

  /** A line of its own that is no fence. */
  predicate Plain(line: string) {
    OneLine(line) && !IsFence(line)
  }

  predicate AllPlain(lines: seq<string>) {
    forall k :: 0 <= k < |lines| ==> Plain(lines[k])
  }

  predicate AllOneLine(lines: seq<string>) {
    forall k :: 0 <= k < |lines| ==> OneLine(lines[k])
  }

  predicate IsWord(s: string) {
    forall c :: c in s ==> !White(c) && c != '`'
  }

  predicate IsIndent(s: string) {
    forall c :: c in s ==> c == ' ' || c == '\t'
  }

  /** What can stand beside a language: anything on one line without backticks, with no space around it. */
  predicate Besides(word: string, s: string) {
    && word != "" && s != "" && OneLine(s) && '`' !in s
    && !White(s[0]) && !White(s[|s| - 1])
  }

  /** Prose and body lines are no fences, and the fence line says what it should. */
  ghost predicate Writable(c: Chunk) {
    && AllPlain(c.prose) && AllPlain(c.lines)
    && IsIndent(c.indent) && IsIndent(c.gap) && IsIndent(c.trail)
    && IsWord(c.word)
    && (c.beside == "" || Besides(c.word, c.beside))
  }

  /** What is beside the language is content when it opens like data, and is dropped otherwise. */
  ghost function BodyLines(c: Chunk): seq<string> {
    if c.beside != "" && (c.beside[0] == '{' || c.beside[0] == '[' || c.beside[0] == '<' || c.beside[0] == ':')
    then [c.beside] + c.lines
    else c.lines
  }

  function FenceText(c: Chunk): string {
    c.word + (if c.beside == "" then "" else " " + c.beside)
  }

  function FenceLine(c: Chunk): string {
    c.indent + "```" + (c.gap + FenceText(c) + c.trail)
  }

  function ClosingLine(c: Chunk): string {
    c.indent + "```" + c.trail
  }

  function WriteChunk(c: Chunk): seq<string> {
    c.prose + [FenceLine(c)] + c.lines + (if c.closed then [ClosingLine(c)] else [])
  }

  function Write(chunks: seq<Chunk>): seq<string> {
    if chunks == [] then [] else Write(chunks[..|chunks| - 1]) + WriteChunk(chunks[|chunks| - 1])
  }

  /** Each line with a line break after it. */
  function Unlines(lines: seq<string>): string {
    if lines == [] then "" else lines[0] + "\n" + Unlines(lines[1..])
  }

  lemma SpaceIs(s: string, n: nat)
    requires n <= |s| && ' ' !in s[..n] && (n < |s| ==> s[n] == ' ')
    ensures Space(s) == n
  {
    var m := Space(s);
    assert forall k :: 0 <= k < n ==> s[k] in s[..n];
    assert forall k :: 0 <= k < m ==> s[k] in s[..m];
  }

  lemma PartitionAt(word: string, beside: string)
    requires ' ' !in word
    ensures Partition(word + " " + beside) == Fence(word, beside)
    ensures Partition(word) == Fence(word, "")
  {
    var s := word + " " + beside;
    assert s[..|word|] == word && s[|word| + 1..] == beside && s[|word|] == ' ';
    assert word[..|word|] == word;
    SpaceIs(s, |word|);
    SpaceIs(word, |word|);
  }

  /** Indented backticks, and blanks around what follows them. */
  lemma AfterBackticks(indent: string, before: string, text: string, after: string)
    requires IsIndent(indent) && IsIndent(before) && IsIndent(after) && '`' !in text
    requires text != "" ==> !IsSpace(text[0]) && !IsSpace(text[|text| - 1])
    ensures Classify(indent + "```" + (before + text + after)) == Partition(text)
  {
    var rest := before + text + after;
    var line := indent + "```" + rest;
    assert line[..|indent|] == indent && line[|indent|] == '`' && line[|indent|..] == "```" + rest;
    LStripIs(line, |indent|);
    assert ("```" + rest)[3..] == rest;
    StripAround(before, text, after, IsSpace);
  }

  lemma OneLineConcat(a: string, b: string)
    requires OneLine(a) && OneLine(b)
    ensures OneLine(a + b)
  {
  }

  lemma FenceTextIs(c: Chunk)
    requires Writable(c)
    ensures '`' !in FenceText(c) && OneLine(FenceText(c))
    ensures FenceText(c) != "" ==> !IsSpace(FenceText(c)[0]) && !IsSpace(FenceText(c)[|FenceText(c)| - 1])
    ensures Partition(FenceText(c)) == Fence(c.word, c.beside)
  {
    var word, text := c.word, FenceText(c);
    WordIs(word);
    PartitionAt(word, c.beside);
    if c.beside == "" {
      assert text == word;
    } else {
      assert text == word + " " + c.beside;
      assert text[0] == word[0] && text[|text| - 1] == c.beside[|c.beside| - 1];
      WhiteIs(c.beside[|c.beside| - 1]);
      OneLineConcat(word + " ", c.beside);
    }
  }

  lemma WordIs(word: string)
    requires IsWord(word)
    ensures OneLine(word) && ' ' !in word && '`' !in word
    ensures word != "" ==> !IsSpace(word[0]) && !IsSpace(word[|word| - 1])
  {
    if word != "" {
      assert word[0] in word && word[|word| - 1] in word;
      WhiteIs(word[0]);
      WhiteIs(word[|word| - 1]);
    }
  }

  lemma IndentIsOneLine(indent: string)
    requires IsIndent(indent)
    ensures OneLine(indent) && OneLine(indent + "```")
  {
  }

  /** Three backticks and a language word, however indented and spaced, are read as such, with what is beside it. */
  lemma FenceIsRead(c: Chunk)
    requires Writable(c)
    ensures OneLine(FenceLine(c)) && Classify(FenceLine(c)) == Fence(c.word, c.beside)
  {
    var text := FenceText(c);
    FenceTextIs(c);
    AfterBackticks(c.indent, c.gap, text, c.trail);
    FenceOneLine(c.indent, c.gap, text, c.trail);
  }

  lemma FenceOneLine(indent: string, gap: string, text: string, trail: string)
    requires IsIndent(indent) && IsIndent(gap) && IsIndent(trail) && OneLine(text)
    ensures OneLine(indent + "```" + (gap + text + trail))
  {
    IndentIsOneLine(indent);
    IndentIsOneLine(gap);
    IndentIsOneLine(trail);
    OneLineConcat(gap, text);
    OneLineConcat(gap + text, trail);
    OneLineConcat(indent + "```", gap + text + trail);
  }

  lemma ClosingIsRead(c: Chunk)
    requires Writable(c)
    ensures OneLine(ClosingLine(c)) && Classify(ClosingLine(c)) == Fence("", "")
  {
    var none: string := "";
    AfterBackticks(c.indent, none, none, c.trail);
    assert none + none + c.trail == c.trail;
    FenceOneLine(c.indent, none, none, c.trail);
    PartitionAt(none, none);
  }

  /** Lower case is that of the alphabet. */
  lemma LowerIs(s: string, i: nat)
    requires i < |s|
    ensures |Lower(s)| == |s|
    ensures Lower(s)[i] == if 'A' <= s[i] <= 'Z' then "abcdefghijklmnopqrstuvwxyz"[s[i] as int - 'A' as int] else s[i]
  {
  }

  lemma OpeningIs(c: Chunk)
    requires Writable(c)
    ensures Lines(c) == BodyLines(c)
  {
    if c.beside != "" {
      WhiteIs(c.beside[0]);
      WhiteIs(c.beside[|c.beside| - 1]);
      StripAround("", c.beside, "", IsSpace);
      assert "" + c.beside + "" == c.beside;
    } else {
      assert Strip("") == "";
    }
  }

  lemma ClassifiedConcat(a: seq<string>, b: seq<string>)
    ensures Classified(a + b) == Classified(a) + Classified(b)
  {
  }

  lemma ClassifiedPlain(lines: seq<string>)
    requires AllPlain(lines)
    ensures Classified(lines) == Texts(lines)
  {
    forall k | 0 <= k < |lines| ensures Classified(lines)[k] == Texts(lines)[k] {
      assert Plain(lines[k]);
      FenceIff(lines[k]);
    }
  }

  lemma ChunkIsRead(c: Chunk)
    requires Writable(c)
    ensures Classified(WriteChunk(c)) == PrintChunk(c)
  {
    var fence, close := [FenceLine(c)], if c.closed then [ClosingLine(c)] else [];
    FenceIsRead(c);
    ClosingIsRead(c);
    ClassifiedPlain(c.prose);
    ClassifiedPlain(c.lines);
    assert Classified(fence) == [Fence(c.word, c.beside)];
    assert Classified(close) == if c.closed then [Fence("", "")] else [];
    ClassifiedFour(c.prose, fence, c.lines, close);
  }

  lemma ClassifiedFour(a: seq<string>, b: seq<string>, c: seq<string>, d: seq<string>)
    ensures Classified(a + b + c + d) == Classified(a) + Classified(b) + Classified(c) + Classified(d)
  {
    ClassifiedConcat(a + b + c, d);
    ClassifiedConcat(a + b, c);
    ClassifiedConcat(a, b);
  }

  lemma ChunkOfLines(c: Chunk)
    requires Writable(c)
    ensures AllOneLine(WriteChunk(c))
  {
    FenceIsRead(c);
    ClosingIsRead(c);
  }

  lemma {:induction false} WrittenIsRead(chunks: seq<Chunk>)
    requires forall k :: 0 <= k < |chunks| ==> Writable(chunks[k])
    ensures Classified(Write(chunks)) == Print(chunks)
    ensures AllOneLine(Write(chunks))
  {
    if chunks != [] {
      var init, last := chunks[..|chunks| - 1], chunks[|chunks| - 1];
      WrittenIsRead(init);
      ChunkIsRead(last);
      ChunkOfLines(last);
      ClassifiedConcat(Write(init), WriteChunk(last));
    }
  }

  lemma NoBreak(line: string)
    requires OneLine(line)
    ensures forall c :: c in line ==> !IsBreak(c)
  {
    forall c | c in line ensures !IsBreak(c) {
      WhiteIs(c);
    }
  }

  lemma LineEndUnique(text: string, n: nat)
    requires n <= |text| && (forall k :: 0 <= k < n ==> !IsBreak(text[k])) && (n < |text| ==> IsBreak(text[n]))
    ensures LineEnd(text) == n
  {
    var m := LineEnd(text);
    assert forall k :: 0 <= k < m ==> text[k] in text[..m];
  }

  lemma LineEndIs(line: string, rest: string)
    requires OneLine(line) && (rest == "" || IsBreak(rest[0]))
    ensures LineEnd(line + rest) == |line|
  {
    NoBreak(line);
    assert forall k :: 0 <= k < |line| ==> (line + rest)[k] == line[k] && line[k] in line;
    LineEndUnique(line + rest, |line|);
  }

  predicate IsLineBreak(s: string) {
    || s == "\n" || s == "\r" || s == "\r\n" || s == "\U{0B}" || s == "\U{0C}"
    || s == "\U{1C}" || s == "\U{1D}" || s == "\U{1E}"
  }

  /** A line ends at each of these, a carriage return with a line feed counting once. */
  lemma SplitAtBreak(line: string, lineBreak: string, rest: string)
    requires OneLine(line) && IsLineBreak(lineBreak)
    requires lineBreak == "\r" ==> rest == "" || rest[0] != '\n'
    ensures SplitLines(line + lineBreak + rest) == [line] + SplitLines(rest)
  {
    var text, after := line + lineBreak + rest, lineBreak + rest;
    BreakLength(lineBreak, rest, after);
    SplitAfter(text, line, lineBreak, rest, after);
  }

  lemma SplitAfter(text: string, line: string, lineBreak: string, rest: string, after: string)
    requires OneLine(line) && text == line + lineBreak + rest && after == lineBreak + rest
    requires after != "" && IsBreak(after[0]) && |lineBreak| == if "\r\n" <= after then 2 else 1
    ensures SplitLines(text) == [line] + SplitLines(rest)
  {
    assert text == line + after;
    LineEndIs(line, after);
    SplitOnce(text, line, after, |lineBreak|, rest);
  }

  lemma BreakLength(lineBreak: string, rest: string, after: string)
    requires IsLineBreak(lineBreak) && after == lineBreak + rest
    requires lineBreak == "\r" ==> rest == "" || rest[0] != '\n'
    ensures after != "" && IsBreak(after[0]) && after[|lineBreak|..] == rest
    ensures |lineBreak| == if "\r\n" <= after then 2 else 1
  {
    assert after[0] == lineBreak[0];
    if |lineBreak| == 1 && rest != "" {
      assert after[1] == rest[0];
    }
  }

  lemma SplitOnce(text: string, line: string, after: string, n: nat, rest: string)
    requires text == line + after && after != "" && LineEnd(text) == |line|
    requires n == (if "\r\n" <= after then 2 else 1) && n <= |after| && rest == after[n..]
    ensures SplitLines(text) == [line] + SplitLines(rest)
  {
    assert text[|line|..] == after && text[..|line|] == line && text[|line| + n..] == rest;
  }

  /** The last line needs no break. */
  lemma SplitLast(line: string)
    requires OneLine(line)
    ensures SplitLines(line) == if line == "" then [] else [line]
  {
    LineEndIs(line, "");
    assert line + "" == line;
  }

  lemma {:induction false} SplitUnlines(lines: seq<string>)
    requires AllOneLine(lines)
    ensures SplitLines(Unlines(lines)) == lines
  {
    if lines != [] {
      SplitUnlines(lines[1..]);
      SplitAtBreak(lines[0], "\n", Unlines(lines[1..]));
      assert lines == [lines[0]] + lines[1..];
    } else {
      SplitLast("");
    }
  }

  /** A line has something in it exactly when some character of it is not white. */
  lemma ContentIff(lines: seq<string>)
    ensures HasContent(lines) <==> exists k :: 0 <= k < |lines| && exists c :: c in lines[k] && !White(c)
  {
    forall k | 0 <= k < |lines| ensures Strip(lines[k]) != "" <==> exists c :: c in lines[k] && !White(c) {
      StripEmptyIff(lines[k]);
    }
  }

  lemma StripEmptyIff(s: string)
    ensures Strip(s) != "" <==> exists c :: c in s && !White(c)
  {
    forall c ensures White(c) <==> IsSpace(c) { WhiteIs(c); }
    if forall c :: c in s ==> White(c) {
      StripAround(s, "", "", IsSpace);
      assert s + "" + "" == s;
    } else {
      var i := LStripTakes(s);
      assert s == s[..i] + s[i..];
      LStripLeaves(s);
      RStripLeaves(s[i..]);
    }
  }

  lemma {:induction false} LStripLeaves(s: string)
    ensures LStrip(s, IsSpace) != "" ==> !IsSpace(LStrip(s, IsSpace)[0])
  {
    if s != "" && IsSpace(s[0]) {
      LStripLeaves(s[1..]);
    }
  }

  lemma {:induction false} RStripLeaves(s: string)
    requires s != "" ==> !IsSpace(s[0])
    ensures s != "" ==> RStrip(s, IsSpace) != ""
    decreases |s|
  {
    if s != "" && IsSpace(s[|s| - 1]) {
      RStripLeaves(s[..|s| - 1]);
    }
  }

  /** Chunks that stand for these blocks, the first line of a body on its own or beside the language. */
  ghost predicate Prints(chunks: seq<Chunk>, blocks: seq<Block>) {
    && |chunks| == |blocks|
    && forall k :: 0 <= k < |chunks| ==>
         Lower(chunks[k].word) == blocks[k].0 && BodyLines(chunks[k]) == Split(blocks[k].1)
  }

  ghost predicate SomethingIn(lines: seq<string>) {
    exists k :: 0 <= k < |lines| && exists c :: c in lines[k] && !White(c)
  }

  /**
   Reading undoes printing: from any prose around them, exactly these blocks come back, the languages
   in lower case, whether each is closed, or some run straight into the next, or the last one is
   never closed and not blank.  No line of prose or of a body may be a fence itself, and a language
   is a word.
   */
  lemma {:induction false} ReaderUndoesPrinter(blocks: seq<Block>, chunks: seq<Chunk>, trailing: seq<string>)
    requires Prints(chunks, blocks) && Printable(chunks)
    requires forall k :: 0 <= k < |chunks| ==> Writable(chunks[k]) && Trimmed(blocks[k].1)
    requires AllPlain(trailing)
    requires chunks != [] && !chunks[|chunks| - 1].closed ==>
      trailing == [] && SomethingIn(BodyLines(chunks[|chunks| - 1]))
    ensures Blocks(Unlines(Write(chunks) + trailing)) == blocks
  {
    MeantIs(blocks, chunks);
    if chunks != [] {
      OpeningIs(chunks[|chunks| - 1]);
      ContentIff(Lines(chunks[|chunks| - 1]));
    }
    EachChunkRead(chunks, trailing);
    WrittenIsRead(chunks);
    ClassifiedPlain(trailing);
    ClassifiedConcat(Write(chunks), trailing);
    SplitUnlines(Write(chunks) + trailing);
  }

  lemma {:induction false} MeantIs(blocks: seq<Block>, chunks: seq<Chunk>)
    requires Prints(chunks, blocks)
    requires forall k :: 0 <= k < |chunks| ==> Writable(chunks[k]) && Trimmed(blocks[k].1)
    ensures AllMeant(chunks) == blocks
  {
    forall k | 0 <= k < |chunks| ensures Meant(chunks[k]) == blocks[k] {
      OpeningIs(chunks[k]);
      BodyIsVerbatim(blocks[k].1);
    }
  }

  /** A last block that is never closed and has only white space in it is dropped, and nothing else is. */
  lemma {:induction false} OpenBlankDropped(blocks: seq<Block>, chunks: seq<Chunk>)
    requires Prints(chunks, blocks) && Printable(chunks)
    requires forall k :: 0 <= k < |chunks| ==> Writable(chunks[k]) && Trimmed(blocks[k].1)
    requires chunks != [] && !chunks[|chunks| - 1].closed && !SomethingIn(BodyLines(chunks[|chunks| - 1]))
    ensures Blocks(Unlines(Write(chunks))) == blocks[..|blocks| - 1]
  {
    MeantIs(blocks, chunks);
    OpeningIs(chunks[|chunks| - 1]);
    ContentIff(Lines(chunks[|chunks| - 1]));
    OpenBlankUnread(chunks);
    AllMeantSnoc(chunks);
    WrittenIsRead(chunks);
    SplitUnlines(Write(chunks));
  }
}
