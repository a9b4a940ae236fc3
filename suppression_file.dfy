/**
 * Reading a suppression file (src/suppressions.py, ReadSuppressionsFromFile).
 *
 * The file is given as the sequence of its lines; opening and reading it is outside the
 * model. The reader is a line-driven state machine: blank and `#` lines are skipped, `{`
 * opens a block, the first two lines of a block are its description and class-name
 * pattern, the remaining lines its frame patterns, and `}` closes it.
 */
module SuppressionFile {
  import opened Wrappers
  import opened PyText
  import opened Suppressions

  datatype ReadError =
    /** A line that is neither blank, a comment nor a brace outside a block (ParseError). */
    | ParseError(filename: string, lineNo: nat)
    /** The input ended inside a block (UnexpectedEofError). */
    | UnexpectedEof(filename: string, lineNo: nat)
    /**
     * A `}` reached while no class name has been read: the source then builds a
     * Suppression whose class name is None and fails inside its constructor.
     */
    | NoClassName(lineNo: nat)

  /** The local variables of the reader. */
  datatype Reader = Reader(
    description: Option<string>,
    className: Option<string>,
    stack: seq<string>,
    inSuppression: bool,
    lineNo: nat,
    result: seq<Suppression>)

  const Start := Reader(None, None, [], false, 0, [])

  /** A Python string variable that is None or empty is false. */
  predicate Unset(v: Option<string>) {
    v.None? || v.value == ""
  }

  /** A frame pattern line; lines starting with `...` all stand for the ellipsis. */
  function FramePattern(line: string): (r: string)
    ensures StartsWith(line, EllipsisPattern) ==> r == EllipsisPattern
    ensures !StartsWith(line, EllipsisPattern) ==> r == line
  {
    if StartsWith(line, EllipsisPattern) then EllipsisPattern else line
  }

  /** What a line is, after stripping white space. */
  datatype LineKind = Skip | Open | Close | Text(line: string)

  function Classify(raw: string): (k: LineKind)
    ensures k.Text? ==> k.line == Strip(raw) && k.line != []
  {
    var line := Strip(raw);
    if line == [] || line[0] == '#' then Skip
    else if line[0] == '{' then Open
    else if line[0] == '}' then Close
    else Text(line)
  }

  /** Every line is stripped and classified before the reader looks at it. */
  function Kinds(lines: seq<string>): (r: seq<LineKind>)
    ensures |r| == |lines|
  {
    seq(|lines|, i requires 0 <= i < |lines| => Classify(lines[i]))
  }

  /** One turn of the reading loop, on the (1-based) line number `st.lineNo + 1`. */
  function Step(filename: string, st: Reader, kind: LineKind): Result<Reader, ReadError> {
    var lineNo := st.lineNo + 1;
    match kind
    case Skip => Ok(st.(lineNo := lineNo))
    case Open => Ok(st.(lineNo := lineNo, inSuppression := true))
    case Close =>
      if st.className.None? then Err(NoClassName(lineNo))
      else
        // From `Start` a class name is only read after a description
        // (`RunKeepsHeaderInOrder`), so the `""` below is never reached.
        var s := Suppression(if st.description.Some? then st.description.value else "",
                             st.className.value, st.stack);
        Ok(Reader(None, None, [], false, lineNo, st.result + [s]))
    case Text(line) =>
      if !st.inSuppression then Err(ParseError(filename, lineNo))
      else if Unset(st.description) then Ok(st.(lineNo := lineNo, description := Some(line)))
      else if Unset(st.className) then Ok(st.(lineNo := lineNo, className := Some(line)))
      else Ok(st.(lineNo := lineNo, stack := st.stack + [FramePattern(line)]))
  }

  /** The loop over all lines, stopping at the first error. */
  function Run(filename: string, st: Reader, kinds: seq<LineKind>): Result<Reader, ReadError>
    decreases |kinds|
  {
    if kinds == [] then Ok(st)
    else match Step(filename, st, kinds[0])
      case Err(e) => Err(e)
      case Ok(next) => Run(filename, next, kinds[1..])
  }

  /** What happens after the loop: an open block is an error, otherwise the suppressions. */
  function Finish(filename: string, r: Result<Reader, ReadError>): Result<seq<Suppression>, ReadError> {
    match r
    case Err(e) => Err(e)
    case Ok(st) => if st.inSuppression then Err(UnexpectedEof(filename, st.lineNo)) else Ok(st.result)
  }

  function ReadSuppressions(filename: string, lines: seq<string>): Result<seq<Suppression>, ReadError> {
    Finish(filename, Run(filename, Start, Kinds(lines)))
  }

  /** `ReadSuppressionsFromFile` over the lines of the file. */
  method ReadSuppressionsFromFile(filename: string, lines: seq<string>)
    returns (r: Result<seq<Suppression>, ReadError>)
    ensures r == ReadSuppressions(filename, lines)
  {
    var result: seq<Suppression> := [];
    var description: Option<string> := None;
    var className: Option<string> := None;
    var stack: seq<string> := [];
    var inSuppression := false;
    var lineNo: nat := 0;
    var i := 0;
    while i < |lines|
      invariant 0 <= i <= |lines|
      invariant Run(filename, Start, Kinds(lines)) ==
        Run(filename, Reader(description, className, stack, inSuppression, lineNo, result), Kinds(lines)[i..])
    {
      assert Kinds(lines)[i..][0] == Classify(lines[i]) && Kinds(lines)[i..][1..] == Kinds(lines)[i + 1..];
      lineNo := lineNo + 1;
      match Classify(lines[i]) {
        case Skip =>
        case Open =>
          inSuppression := true;
        case Close =>
          if className.None? {
            return Err(NoClassName(lineNo));
          }
          // Never `""`: a class name is only read after a description.
          var s := Suppression(if description.Some? then description.value else "", className.value, stack);
          result := result + [s];
          description := None;
          className := None;
          stack := [];
          inSuppression := false;
        case Text(line) =>
          if !inSuppression {
            return Err(ParseError(filename, lineNo));
          } else if Unset(description) {
            description := Some(line);
          } else if Unset(className) {
            className := Some(line);
          } else if StartsWith(line, EllipsisPattern) {
            stack := stack + [EllipsisPattern];
          } else {
            stack := stack + [line];
          }
      }
      i := i + 1;
    }
    if inSuppression {
      return Err(UnexpectedEof(filename, lineNo));
    }
    return Ok(result);
  }

  // ---------------------------------------------------------------------------------------
  // Properties of the reader

  /** Reading `a + b` is reading `a`, then reading `b` from where `a` left off. */
  lemma {:induction false} RunAppend(filename: string, st: Reader, a: seq<LineKind>, b: seq<LineKind>)
    ensures Run(filename, st, a + b) ==
      match Run(filename, st, a)
      case Err(e) => Err(e)
      case Ok(mid) => Run(filename, mid, b)
    decreases |a|
  {
    if a == [] {
      assert a + b == b;
    } else {
      assert (a + b)[0] == a[0] && (a + b)[1..] == a[1..] + b;
      match Step(filename, st, a[0])
      case Err(e) =>
      case Ok(next) => RunAppend(filename, next, a[1..], b);
    }
  }

  lemma RunThen(filename: string, st: Reader, a: seq<LineKind>, b: seq<LineKind>, mid: Reader, end: Reader)
    requires Run(filename, st, a) == Ok(mid) && Run(filename, mid, b) == Ok(end)
    ensures Run(filename, st, a + b) == Ok(end)
  {
    RunAppend(filename, st, a, b);
  }

  /** Every line read advances the line counter by one, so errors carry 1-based line numbers. */
  lemma {:induction false} RunCountsLines(filename: string, st: Reader, kinds: seq<LineKind>)
    requires Run(filename, st, kinds).Ok?
    ensures Run(filename, st, kinds).value.lineNo == st.lineNo + |kinds|
    decreases |kinds|
  {
    if kinds != [] {
      RunCountsLines(filename, Step(filename, st, kinds[0]).value, kinds[1..]);
    }
  }

  /** A class name is only ever read after a description. */
  predicate HeaderInOrder(st: Reader) {
    st.className.Some? ==> st.description.Some?
  }

  lemma {:induction false} RunKeepsHeaderInOrder(filename: string, st: Reader, kinds: seq<LineKind>)
    requires HeaderInOrder(st) && Run(filename, st, kinds).Ok?
    ensures HeaderInOrder(Run(filename, st, kinds).value)
    decreases |kinds|
  {
    if kinds != [] {
      RunKeepsHeaderInOrder(filename, Step(filename, st, kinds[0]).value, kinds[1..]);
    }
  }

  /** A line that is not blank, not a comment and not a brace. */
  predicate PlainLine(raw: string) {
    Classify(raw).Text?
  }

  /** A line outside a block that is not blank, a comment or a brace is a parse error naming its line. */
  lemma StrayLineIsParseError(filename: string, before: seq<string>, raw: string, after: seq<string>)
    requires Run(filename, Start, Kinds(before)).Ok? && !Run(filename, Start, Kinds(before)).value.inSuppression
    requires PlainLine(raw)
    ensures ReadSuppressions(filename, before + [raw] + after) == Err(ParseError(filename, |before| + 1))
  {
    var lines := before + [raw] + after;
    assert Kinds(lines) == Kinds(before) + ([Classify(raw)] + Kinds(after));
    RunCountsLines(filename, Start, Kinds(before));
    RunAppend(filename, Start, Kinds(before), [Classify(raw)] + Kinds(after));
    assert ([Classify(raw)] + Kinds(after))[0] == Classify(raw);
  }

  /** Input that ends inside a block is an unexpected end of file at the last line. */
  lemma OpenBlockAtEndIsEof(filename: string, lines: seq<string>)
    requires Run(filename, Start, Kinds(lines)).Ok? && Run(filename, Start, Kinds(lines)).value.inSuppression
    ensures ReadSuppressions(filename, lines) == Err(UnexpectedEof(filename, |lines|))
  {
    RunCountsLines(filename, Start, Kinds(lines));
  }

  // ---------------------------------------------------------------------------------------
  // Files made of well-formed blocks

  /**
   * One block as the reader sees it: `gap` skipped lines, `{`, the description, the
   * class name, the frames and `}`; the texts are already stripped.
   */
  datatype Block = Block(gap: nat, description: string, className: string, frames: seq<string>)

  /** A stripped line the reader takes as text. */
  predicate TextLine(line: string) {
    line != [] && line[0] != '#' && line[0] != '{' && line[0] != '}'
  }

  predicate AllText(lines: seq<string>) {
    lines == [] || (TextLine(lines[0]) && AllText(lines[1..]))
  }

  predicate WellFormedBlock(b: Block) {
    TextLine(b.description) && TextLine(b.className) && AllText(b.frames)
  }

  predicate AllWellFormed(blocks: seq<Block>) {
    blocks == [] || (WellFormedBlock(blocks[0]) && AllWellFormed(blocks[1..]))
  }

  function Texts(lines: seq<string>): (r: seq<LineKind>)
    ensures |r| == |lines|
  {
    if lines == [] then [] else [Text(lines[0])] + Texts(lines[1..])
  }

  function BlockKinds(b: Block): seq<LineKind> {
    seq(b.gap, _ => Skip) + [Open, Text(b.description), Text(b.className)] + Texts(b.frames) + [Close]
  }

  function FileKinds(blocks: seq<Block>): seq<LineKind> {
    if blocks == [] then [] else BlockKinds(blocks[0]) + FileKinds(blocks[1..])
  }

  function FramePatterns(frames: seq<string>): (r: seq<string>)
    ensures |r| == |frames|
  {
    if frames == [] then [] else [FramePattern(frames[0])] + FramePatterns(frames[1..])
  }

  /** Frame lines that are their own pattern are kept as they are, in order. */
  lemma {:induction false} FramePatternsKeep(frames: seq<string>)
    requires forall k :: 0 <= k < |frames| ==> FramePattern(frames[k]) == frames[k]
    ensures FramePatterns(frames) == frames
    decreases |frames|
  {
    if frames != [] {
      assert FramePattern(frames[0]) == frames[0];
      FramePatternsKeep(frames[1..]);
    }
  }

  /** The suppression a block stands for, with `...`-lines normalised. */
  function BlockSuppression(b: Block): Suppression {
    Suppression(b.description, b.className, FramePatterns(b.frames))
  }

  function BlockSuppressions(blocks: seq<Block>): (r: seq<Suppression>)
    ensures |r| == |blocks|
  {
    if blocks == [] then [] else [BlockSuppression(blocks[0])] + BlockSuppressions(blocks[1..])
  }

  /** A state outside any block, with nothing pending. */
  predicate Outside(st: Reader) {
    st.description.None? && st.className.None? && st.stack == [] && !st.inSuppression
  }

  lemma {:induction false} RunSkips(filename: string, st: Reader, n: nat)
    ensures Run(filename, st, seq(n, _ => Skip)) == Ok(st.(lineNo := st.lineNo + n))
    decreases n
  {
    if n > 0 {
      assert seq(n, _ => Skip)[0] == Skip && seq(n, _ => Skip)[1..] == seq(n - 1, _ => Skip);
      RunSkips(filename, st.(lineNo := st.lineNo + 1), n - 1);
    }
  }

  lemma {:induction false} RunFrames(filename: string, st: Reader, frames: seq<string>)
    requires st.inSuppression && !Unset(st.description) && !Unset(st.className)
    ensures Run(filename, st, Texts(frames)) ==
      Ok(st.(lineNo := st.lineNo + |frames|, stack := st.stack + FramePatterns(frames)))
    decreases |frames|
  {
    if frames != [] {
      var next := st.(lineNo := st.lineNo + 1, stack := st.stack + [FramePattern(frames[0])]);
      assert Texts(frames)[0] == Text(frames[0]) && Texts(frames)[1..] == Texts(frames[1..]);
      RunFrames(filename, next, frames[1..]);
      assert st.stack + [FramePattern(frames[0])] + FramePatterns(frames[1..]) ==
        st.stack + FramePatterns(frames);
      assert Step(filename, st, Text(frames[0])) == Ok(next);
    } else {
      assert st.stack + FramePatterns(frames) == st.stack;
    }
  }

  /** The state inside a block once `{`, its description and its class name are read. */
  function Header(st: Reader, b: Block): Reader {
    st.(lineNo := st.lineNo + 3, inSuppression := true,
        description := Some(b.description), className := Some(b.className))
  }

  lemma RunHeader(filename: string, st: Reader, b: Block)
    requires Outside(st) && WellFormedBlock(b)
    ensures Run(filename, st, [Open, Text(b.description), Text(b.className)]) == Ok(Header(st, b))
  {
    var h := [Open, Text(b.description), Text(b.className)];
    var s1 := st.(lineNo := st.lineNo + 1, inSuppression := true);
    var s2 := s1.(lineNo := s1.lineNo + 1, description := Some(b.description));
    assert h[1..] == [Text(b.description), Text(b.className)];
    assert h[1..][1..] == [Text(b.className)];
    assert Run(filename, st, h) == Run(filename, s1, h[1..]);
    assert Run(filename, s1, h[1..]) == Run(filename, s2, h[1..][1..]);
    assert Run(filename, s2, [Text(b.className)]) == Ok(Header(st, b));
  }

  /** A well-formed block read outside a block appends its suppression and leaves the block. */
  lemma RunBlock(filename: string, st: Reader, b: Block)
    requires Outside(st) && WellFormedBlock(b)
    ensures Run(filename, st, BlockKinds(b)) ==
      Ok(Reader(None, None, [], false, st.lineNo + |BlockKinds(b)|, st.result + [BlockSuppression(b)]))
  {
    var gap: seq<LineKind> := seq(b.gap, _ => Skip);
    var header := [Open, Text(b.description), Text(b.className)];
    assert BlockKinds(b) == gap + header + Texts(b.frames) + [Close];
    var s0 := st.(lineNo := st.lineNo + b.gap);
    RunSkips(filename, st, b.gap);
    RunHeader(filename, s0, b);
    RunThen(filename, st, gap, header, s0, Header(s0, b));
    var s3 := Header(s0, b);
    RunFrames(filename, s3, b.frames);
    var s4 := s3.(lineNo := s3.lineNo + |b.frames|, stack := FramePatterns(b.frames));
    assert s3.stack + FramePatterns(b.frames) == FramePatterns(b.frames);
    RunThen(filename, st, gap + header, Texts(b.frames), Header(s0, b), s4);
    var s5 := Reader(None, None, [], false, s4.lineNo + 1, st.result + [BlockSuppression(b)]);
    assert Step(filename, s4, Close) == Ok(s5);
    assert [Close][1..] == [];
    RunThen(filename, st, gap + header + Texts(b.frames), [Close], s4, s5);
  }

  /** The reader's state after whole blocks read from outside any block. */
  function AfterBlocks(st: Reader, blocks: seq<Block>): Reader {
    Reader(None, None, [], false, st.lineNo + |FileKinds(blocks)|, st.result + BlockSuppressions(blocks))
  }

  lemma AfterOneBlock(st: Reader, b: Block)
    ensures AfterBlocks(st, [b]) ==
      Reader(None, None, [], false, st.lineNo + |BlockKinds(b)|, st.result + [BlockSuppression(b)])
  {
    assert FileKinds([b]) == BlockKinds(b) + FileKinds([]);
    assert BlockSuppressions([b]) == [BlockSuppression(b)];
  }

  lemma AfterBlocksCons(st: Reader, blocks: seq<Block>)
    requires blocks != []
    ensures AfterBlocks(st, blocks) == AfterBlocks(AfterBlocks(st, [blocks[0]]), blocks[1..])
  {
    AfterOneBlock(st, blocks[0]);
    assert FileKinds(blocks) == BlockKinds(blocks[0]) + FileKinds(blocks[1..]);
    var first, rest := [BlockSuppression(blocks[0])], BlockSuppressions(blocks[1..]);
    assert BlockSuppressions(blocks) == first + rest;
    assert st.result + first + rest == st.result + (first + rest);
  }

  lemma {:induction false} RunBlocks(filename: string, st: Reader, blocks: seq<Block>)
    requires Outside(st) && AllWellFormed(blocks)
    ensures Run(filename, st, FileKinds(blocks)) == Ok(AfterBlocks(st, blocks))
    decreases |blocks|
  {
    if blocks == [] {
      assert st.result + BlockSuppressions(blocks) == st.result;
    } else {
      var mid := AfterBlocks(st, [blocks[0]]);
      AfterBlocksCons(st, blocks);
      AfterOneBlock(st, blocks[0]);
      RunBlock(filename, st, blocks[0]);
      RunBlocks(filename, mid, blocks[1..]);
      RunThen(filename, st, BlockKinds(blocks[0]), FileKinds(blocks[1..]), mid, AfterBlocks(mid, blocks[1..]));
    }
  }

  /**
   * Lines that classify as a sequence of well-formed blocks yield one suppression per
   * block, in file order.
   */
  lemma BlocksReadInFileOrder(filename: string, lines: seq<string>, blocks: seq<Block>)
    requires AllWellFormed(blocks) && Kinds(lines) == FileKinds(blocks)
    ensures ReadSuppressions(filename, lines) == Ok(BlockSuppressions(blocks))
  {
    RunBlocks(filename, Start, blocks);
    assert Start.result + BlockSuppressions(blocks) == BlockSuppressions(blocks);
  }

  // ---------------------------------------------------------------------------------------
  // The suppression file of the unit tests

  /** A line of a test file: indentation, text and the newline the file object keeps. */
  function Line(indent: nat, text: string): string {
    seq(indent, _ => ' ') + text + "\n"
  }

  lemma ClassifyLine(indent: nat, text: string)
    requires text == [] || (!IsSpace(text[0]) && !IsSpace(text[|text| - 1]))
    ensures Classify(Line(indent, text)) ==
      if text == [] || text[0] == '#' then Skip
      else if text[0] == '{' then Open
      else if text[0] == '}' then Close
      else Text(text)
  {
    StripPadded(seq(indent, _ => ' '), text, "\n");
  }

  /** How the lines of the two-block file of `testReadFile` classify, one kind per line. */
  const SampleKinds: seq<LineKind> := [
    Skip, Open, Text("a sample suppression"), Text("myClass"), Text("frame"), Text("..."),
    Text("another frame"), Close, Skip, Skip, Open, Text("another suppression"),
    Text("class*"), Text("frame1"), Text("frame2"), Text("frame3"), Close]

  /** The lines of the `testReadFile` file after `textwrap.dedent`, each with its newline. */
  const SampleLines: seq<string> := [
    Line(0, "# some comment"), Line(0, "{"), Line(2, "a sample suppression"), Line(2, "myClass"),
    Line(2, "frame"), Line(2, "..."), Line(2, "another frame"), Line(0, "}"), Line(0, ""),
    Line(0, "# more comments"), Line(0, "{"), Line(2, "another suppression"), Line(2, "class*"),
    Line(2, "frame1"), Line(2, "frame2"), Line(2, "frame3"), Line(0, "}")]

  /** The first block of the test file: a comment, the block and its lines. */
  lemma SampleLinesFirstKinds()
    ensures Kinds(SampleLines[..8]) == SampleKinds[..8]
  {
    var ls := SampleLines[..8];
    forall i | 0 <= i < |ls| ensures Kinds(ls)[i] == SampleKinds[..8][i] {
      if i == 0 {
        assert ls[i] == Line(0, "# some comment");
        ClassifyLine(0, "# some comment");
      } else if i == 1 {
        assert ls[i] == Line(0, "{");
        ClassifyLine(0, "{");
      } else if i == 2 {
        assert ls[i] == Line(2, "a sample suppression");
        ClassifyLine(2, "a sample suppression");
      } else if i == 3 {
        assert ls[i] == Line(2, "myClass");
        ClassifyLine(2, "myClass");
      } else if i == 4 {
        assert ls[i] == Line(2, "frame");
        ClassifyLine(2, "frame");
      } else if i == 5 {
        assert ls[i] == Line(2, "...");
        ClassifyLine(2, "...");
      } else if i == 6 {
        assert ls[i] == Line(2, "another frame");
        ClassifyLine(2, "another frame");
      } else {
        assert ls[i] == Line(0, "}");
        ClassifyLine(0, "}");
      }
    }
  }

  /** The rest of the test file: a blank line, a comment and the second block. */
  lemma SampleLinesSecondKinds()
    ensures Kinds(SampleLines[8..]) == SampleKinds[8..]
  {
    var ls := SampleLines[8..];
    forall i | 0 <= i < |ls| ensures Kinds(ls)[i] == SampleKinds[8..][i] {
      if i == 0 {
        assert ls[i] == Line(0, "");
        ClassifyLine(0, "");
      } else if i == 1 {
        assert ls[i] == Line(0, "# more comments");
        ClassifyLine(0, "# more comments");
      } else if i == 2 {
        assert ls[i] == Line(0, "{");
        ClassifyLine(0, "{");
      } else if i == 3 {
        assert ls[i] == Line(2, "another suppression");
        ClassifyLine(2, "another suppression");
      } else if i == 4 {
        assert ls[i] == Line(2, "class*");
        ClassifyLine(2, "class*");
      } else if i == 5 {
        assert ls[i] == Line(2, "frame1");
        ClassifyLine(2, "frame1");
      } else if i == 6 {
        assert ls[i] == Line(2, "frame2");
        ClassifyLine(2, "frame2");
      } else if i == 7 {
        assert ls[i] == Line(2, "frame3");
        ClassifyLine(2, "frame3");
      } else {
        assert ls[i] == Line(0, "}");
        ClassifyLine(0, "}");
      }
    }
  }

  /** Classifying a file is classifying its two parts. */
  lemma KindsAppend(a: seq<string>, b: seq<string>)
    ensures Kinds(a + b) == Kinds(a) + Kinds(b)
  {
  }

  /** The literal lines of the test file classify as `SampleKinds`. */
  lemma SampleLinesKinds()
    ensures Kinds(SampleLines) == SampleKinds
  {
    SampleLinesFirstKinds();
    SampleLinesSecondKinds();
    assert SampleLines == SampleLines[..8] + SampleLines[8..];
    KindsAppend(SampleLines[..8], SampleLines[8..]);
    assert SampleKinds == SampleKinds[..8] + SampleKinds[8..];
  }

  const SampleBlocks := [
    Block(1, "a sample suppression", "myClass", ["frame", "...", "another frame"]),
    Block(2, "another suppression", "class*", ["frame1", "frame2", "frame3"])]

  lemma SampleBlocksKinds()
    ensures AllWellFormed(SampleBlocks) && FileKinds(SampleBlocks) == SampleKinds
  {
    assert BlockKinds(SampleBlocks[0]) == SampleKinds[..8];
    assert BlockKinds(SampleBlocks[1]) == SampleKinds[8..];
  }

  lemma SampleBlocksSuppressions()
    ensures BlockSuppressions(SampleBlocks) == [
      Suppression("a sample suppression", "myClass", ["frame", "...", "another frame"]),
      Suppression("another suppression", "class*", ["frame1", "frame2", "frame3"])]
  {
    var first := ["frame", "...", "another frame"];
    var second := ["frame1", "frame2", "frame3"];
    assert forall k :: 0 <= k < 3 ==> FramePattern(first[k]) == first[k] by {
      assert "frame"[0] != '.' && "another frame"[0] != '.';
    }
    assert forall k :: 0 <= k < 3 ==> FramePattern(second[k]) == second[k] by {
      assert "frame1"[0] != '.' && "frame2"[0] != '.' && "frame3"[0] != '.';
    }
    FramePatternsKeep(first);
    FramePatternsKeep(second);
  }

  /** `testReadFile`: its file yields the two suppressions, with their stacks in order. */
  lemma SampleFileReadsTwoSuppressions(lines: seq<string>)
    requires Kinds(lines) == SampleKinds
    ensures ReadSuppressions("", lines) == Ok([
      Suppression("a sample suppression", "myClass", ["frame", "...", "another frame"]),
      Suppression("another suppression", "class*", ["frame1", "frame2", "frame3"])])
  {
    SampleBlocksKinds();
    SampleBlocksSuppressions();
    BlocksReadInFileOrder("", lines, SampleBlocks);
  }

  /** `testParseError`, first file: the input stops inside the block, after six lines. */
  lemma EarlyEofFile(lines: seq<string>)
    requires Kinds(lines) == [Skip, Open, Text("a sample suppression"), Text("myClass"), Text("frame"), Text("...")]
    ensures ReadSuppressions("", lines) == Err(UnexpectedEof("", 6))
  {
    var b := Block(1, "a sample suppression", "myClass", ["frame", "..."]);
    var s0 := Start.(lineNo := 1);
    RunSkips("", Start, 1);
    RunHeader("", s0, b);
    RunThen("", Start, [Skip], [Open, Text(b.description), Text(b.className)], s0, Header(s0, b));
    RunFrames("", Header(s0, b), b.frames);
    assert Header(s0, b).stack + FramePatterns(b.frames) == FramePatterns(b.frames);
    assert Kinds(lines) == [Skip] + [Open, Text(b.description), Text(b.className)] + Texts(b.frames);
    RunThen("", Start, [Skip] + [Open, Text(b.description), Text(b.className)], Texts(b.frames), Header(s0, b),
            Header(s0, b).(lineNo := 6, stack := FramePatterns(b.frames)));
    OpenBlockAtEndIsEof("", lines);
  }

  /** After the first sample block and a blank line the reader is outside any block. */
  lemma FirstBlockThenBlank()
    ensures Run("", Start, SampleKinds[..8] + [Skip]).Ok?
    ensures !Run("", Start, SampleKinds[..8] + [Skip]).value.inSuppression
  {
    var b := SampleBlocks[0];
    SampleBlocksKinds();
    assert AllWellFormed([b]);
    assert FileKinds([b]) == SampleKinds[..8];
    RunBlocks("", Start, [b]);
    RunSkips("", AfterBlocks(Start, [b]), 1);
    RunThen("", Start, SampleKinds[..8], [Skip], AfterBlocks(Start, [b]), AfterBlocks(Start, [b]).(lineNo := 9));
  }

  /** `testParseError`, second file: text after the first block is an error on line 10. */
  lemma StrayTextFile(lines: seq<string>)
    requires Kinds(lines) == SampleKinds[..8] + [Skip, Text("this doesn't parse")]
    ensures ReadSuppressions("", lines) == Err(ParseError("", 10))
  {
    FirstBlockThenBlank();
    assert Kinds(lines[..9]) == Kinds(lines)[..9] == SampleKinds[..8] + [Skip];
    assert Kinds(lines)[9] == Classify(lines[9]);
    assert lines == lines[..9] + [lines[9]] + [];
    StrayLineIsParseError("", lines[..9], lines[9], []);
  }

  /** `testReadFile` on its literal text. */
  lemma ReadFileTest()
    ensures ReadSuppressions("", SampleLines) == Ok([
      Suppression("a sample suppression", "myClass", ["frame", "...", "another frame"]),
      Suppression("another suppression", "class*", ["frame1", "frame2", "frame3"])])
  {
    SampleLinesKinds();
    SampleFileReadsTwoSuppressions(SampleLines);
  }

  /** `testParseError` on the literal text of its first file, the first six lines of the sample. */
  lemma EarlyEofTest()
    ensures ReadSuppressions("", SampleLines[..6]) == Err(UnexpectedEof("", 6))
  {
    SampleLinesFirstKinds();
    assert Kinds(SampleLines[..6]) == Kinds(SampleLines[..8])[..6];
    EarlyEofFile(SampleLines[..6]);
  }

  /** `testParseError` on the literal text of its second file. */
  lemma StrayTextTest()
    ensures ReadSuppressions("", SampleLines[..8] + [Line(0, ""), Line(0, "this doesn't parse")]) == Err(ParseError("", 10))
  {
    var tail := [Line(0, ""), Line(0, "this doesn't parse")];
    SampleLinesFirstKinds();
    ClassifyLine(0, "");
    ClassifyLine(0, "this doesn't parse");
    assert Kinds(tail) == [Skip, Text("this doesn't parse")];
    KindsAppend(SampleLines[..8], tail);
    StrayTextFile(SampleLines[..8] + tail);
  }
}
