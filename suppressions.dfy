/**
 * Valgrind-style leak suppressions (src/suppressions.py, class Suppression).
 *
 * A suppression is compiled into one token per line of the text it is matched against:
 * the class-name pattern first, then one token per frame pattern. The text is the class
 * name of the leaking object followed by its frames, one per line. The compiled regular
 * expression in the source has these line-level semantics, which is what is modelled:
 *   - a glob token matches exactly one whole line, `*` standing for any run of characters
 *     within that line and everything else being literal;
 *   - the ellipsis `...` (in any position but the first) matches zero or more whole lines;
 *   - the match is anchored at the start of the text only, so lines left over are ignored.
 */
module Suppressions {
  import opened PyText

  /** The frame pattern that skips over any number of frames. */
  const EllipsisPattern: string := "..."

  datatype Token = Glob(pattern: string) | AnyLines

  /** One glob token against one line: `*` matches any characters, the rest literally. */
  predicate GlobMatch(p: string, line: string)
    decreases |p| + |line|
  {
    if p == [] then line == []
    else if p[0] == '*' then GlobMatch(p[1..], line) || (line != [] && GlobMatch(p, line[1..]))
    else line != [] && p[0] == line[0] && GlobMatch(p[1..], line[1..])
  }

  /**
   * What the source's regex for one token demands of one line, read off its construction:
   * the token is split at `*`, each piece must appear literally, in order, the first at the
   * start and the last at the end, with anything in between.
   */
  predicate FragmentsMatch(frags: seq<string>, line: string)
    requires |frags| >= 1
    decreases |frags|
  {
    if |frags| == 1 then line == frags[0]
    else
      StartsWith(line, frags[0]) &&
      exists k :: |frags[0]| <= k <= |line| && FragmentsMatch(frags[1..], line[k..])
  }

  /** The token for one frame pattern; only a frame (never the class name) can be an ellipsis. */
  function FrameToken(frame: string): Token {
    if frame == EllipsisPattern then AnyLines else Glob(frame)
  }

  function FrameTokens(stack: seq<string>): (r: seq<Token>)
    ensures |r| == |stack|
    ensures forall k :: 0 <= k < |stack| ==> r[k] == FrameToken(stack[k])
  {
    if stack == [] then [] else [FrameToken(stack[0])] + FrameTokens(stack[1..])
  }

  /** `_ConvertStackToRegex`: the class-name pattern is prepended as an ordinary glob. */
  function Compile(className: string, stack: seq<string>): seq<Token> {
    [Glob(className)] + FrameTokens(stack)
  }

  /** Does the token sequence match a prefix of `lines`? */
  predicate MatchTokens(toks: seq<Token>, lines: seq<string>)
    decreases |toks|, |lines|
  {
    if toks == [] then true
    else match toks[0]
      case Glob(p) => lines != [] && GlobMatch(p, lines[0]) && MatchTokens(toks[1..], lines[1..])
      case AnyLines => MatchTokens(toks[1..], lines) || (lines != [] && MatchTokens(toks, lines[1..]))
  }

  datatype Suppression = Suppression(description: string, className: string, stack: seq<string>)
  {
    function Pattern(): seq<Token> {
      Compile(className, stack)
    }

    /** `Suppression.Match`: an empty suppression matches nothing. */
    predicate Match(cls: string, frames: seq<string>)
      ensures Match(cls, frames) ==> stack != [] && GlobMatch(className, cls)
    {
      stack != [] && MatchTokens(Pattern(), [cls] + frames)
    }
  }

  // ---------------------------------------------------------------------------------------
  // Glob semantics

  lemma {:induction false} GlobStar(q: string, line: string)
    ensures GlobMatch(['*'] + q, line) <==> exists k :: 0 <= k <= |line| && GlobMatch(q, line[k..])
    decreases |line|
  {
    var p := ['*'] + q;
    assert p[1..] == q;
    assert line[0..] == line;
    if line != [] {
      GlobStar(q, line[1..]);
      if GlobMatch(p, line) && !GlobMatch(q, line) {
        var k :| 0 <= k <= |line| - 1 && GlobMatch(q, line[1..][k..]);
        assert line[1..][k..] == line[k + 1..];
      }
      if exists k :: 0 <= k <= |line| && GlobMatch(q, line[k..]) {
        var k :| 0 <= k <= |line| && GlobMatch(q, line[k..]);
        if k > 0 {
          assert line[1..][k - 1..] == line[k..];
        }
      }
    }
  }

  lemma FragmentsCons(c: char, frags: seq<string>, line: string)
    requires |frags| >= 1
    ensures FragmentsMatch([[c] + frags[0]] + frags[1..], line) <==>
      line != [] && line[0] == c && FragmentsMatch(frags, line[1..])
  {
    var f := [c] + frags[0];
    var all := [f] + frags[1..];
    assert all[1..] == frags[1..];
    if |frags| > 1 && line != [] && line[0] == c {
      if FragmentsMatch(all, line) {
        var k :| |f| <= k <= |line| && FragmentsMatch(all[1..], line[k..]);
        assert line[1..][k - 1..] == line[k..];
        assert line[1..][..|frags[0]|] == line[..|f|][1..];
      }
      if FragmentsMatch(frags, line[1..]) {
        var k :| |frags[0]| <= k <= |line| - 1 && FragmentsMatch(frags[1..], line[1..][k..]);
        assert line[1..][k..] == line[k + 1..];
        assert line[..|f|] == [c] + line[1..][..|frags[0]|];
      }
    }
  }

  /**
   * The recursive glob is the regex the source builds for a token: split at `*`, escape
   * the pieces, join them with `.*`.
   */
  lemma {:induction false} GlobIsSplitRegex(p: string, line: string)
    ensures GlobMatch(p, line) <==> FragmentsMatch(Split(p, '*'), line)
    decreases |p|
  {
    if p == [] {
    } else if p[0] == '*' {
      var q := p[1..];
      assert p == ['*'] + q;
      var rest := Split(q, '*');
      assert Split(p, '*') == [[]] + rest;
      assert ([[]] + rest)[1..] == rest;
      GlobStar(q, line);
      forall k | 0 <= k <= |line| ensures GlobMatch(q, line[k..]) <==> FragmentsMatch(rest, line[k..]) {
        GlobIsSplitRegex(q, line[k..]);
      }
      assert StartsWith(line, []);
    } else {
      var rest := Split(p[1..], '*');
      assert Split(p, '*') == [[p[0]] + rest[0]] + rest[1..];
      FragmentsCons(p[0], rest, line);
      if line != [] {
        GlobIsSplitRegex(p[1..], line[1..]);
      }
    }
  }

  /** A pattern without `*` matches exactly the line equal to it. */
  lemma {:induction false} GlobLiteral(p: string, line: string)
    requires '*' !in p
    ensures GlobMatch(p, line) <==> line == p
    decreases |p|
  {
    if p != [] && line != [] {
      assert p[0] in p;
      assert forall c :: c in p[1..] ==> c in p;
      GlobLiteral(p[1..], line[1..]);
      if line[0] == p[0] && line[1..] == p[1..] {
        assert line == [line[0]] + line[1..];
        assert p == [p[0]] + p[1..];
      }
    }
  }

  /** Every pattern matches its own text (a `*` in it matches the literal `*`). */
  lemma {:induction false} GlobSelf(p: string)
    ensures GlobMatch(p, p)
    decreases |p|
  {
    if p != [] {
      GlobSelf(p[1..]);
      if p[0] == '*' {
        GlobStar(p[1..], p);
        assert p[1..] == p[1..][0..];
        assert p[1..][0..] == p[1..];
        assert GlobMatch(p[1..], p[1..]);
      }
    }
  }

  // ---------------------------------------------------------------------------------------
  // Line matching

  /** The ellipsis skips any number (zero included) of whole lines. */
  lemma {:induction false} AnyLinesSkips(rest: seq<Token>, lines: seq<string>)
    ensures MatchTokens([AnyLines] + rest, lines) <==>
      exists k :: 0 <= k <= |lines| && MatchTokens(rest, lines[k..])
    decreases |lines|
  {
    var toks := [AnyLines] + rest;
    assert toks[1..] == rest;
    assert lines[0..] == lines;
    if lines != [] {
      AnyLinesSkips(rest, lines[1..]);
      if MatchTokens(toks, lines) && !MatchTokens(rest, lines) {
        var k :| 0 <= k <= |lines| - 1 && MatchTokens(rest, lines[1..][k..]);
        assert lines[1..][k..] == lines[k + 1..];
      }
      if exists k :: 0 <= k <= |lines| && MatchTokens(rest, lines[k..]) {
        var k :| 0 <= k <= |lines| && MatchTokens(rest, lines[k..]);
        if k > 0 {
          assert lines[1..][k - 1..] == lines[k..];
        }
      }
    }
  }

  /** Only a prefix of the lines is examined: appending lines never undoes a match. */
  lemma {:induction false} MatchPrefixAnchored(toks: seq<Token>, lines: seq<string>, more: seq<string>)
    requires MatchTokens(toks, lines)
    ensures MatchTokens(toks, lines + more)
    decreases |toks|, |lines|
  {
    if toks != [] {
      match toks[0]
      case Glob(p) =>
        assert (lines + more)[1..] == lines[1..] + more;
        MatchPrefixAnchored(toks[1..], lines[1..], more);
      case AnyLines =>
        if MatchTokens(toks[1..], lines) {
          MatchPrefixAnchored(toks[1..], lines, more);
        } else {
          assert (lines + more)[1..] == lines[1..] + more;
          MatchPrefixAnchored(toks, lines[1..], more);
        }
    }
  }

  /** `Match` ignores frames beyond those the pattern consumes. */
  lemma TrailingFramesIgnored(s: Suppression, cls: string, frames: seq<string>, more: seq<string>)
    requires s.Match(cls, frames)
    ensures s.Match(cls, frames + more)
  {
    MatchPrefixAnchored(s.Pattern(), [cls] + frames, more);
    assert [cls] + frames + more == [cls] + (frames + more);
  }

  /** Frame tokens can consume no line at all exactly when every frame pattern is an ellipsis. */
  lemma {:induction false} FrameTokensOnNoLines(stack: seq<string>)
    ensures MatchTokens(FrameTokens(stack), []) <==> forall k :: 0 <= k < |stack| ==> stack[k] == EllipsisPattern
  {
    if stack != [] {
      FrameTokensOnNoLines(stack[1..]);
      assert FrameTokens(stack)[1..] == FrameTokens(stack[1..]);
      assert forall k :: 1 <= k < |stack| ==> stack[k] == stack[1..][k - 1];
    }
  }

  /**
   * A leak with no frames is matched exactly by a non-empty suppression whose class pattern
   * matches and whose frame patterns are all ellipses.
   */
  lemma MatchWithoutFrames(s: Suppression, cls: string)
    ensures s.Match(cls, []) <==>
      s.stack != [] && GlobMatch(s.className, cls) &&
      forall k :: 0 <= k < |s.stack| ==> s.stack[k] == EllipsisPattern
  {
    FrameTokensOnNoLines(s.stack);
    assert s.Pattern()[1..] == FrameTokens(s.stack);
    assert ([cls] + [])[1..] == [];
  }

  lemma {:induction false} FrameTokensSelf(stack: seq<string>)
    ensures MatchTokens(FrameTokens(stack), stack)
    decreases |stack|
  {
    if stack != [] {
      FrameTokensSelf(stack[1..]);
      var toks := FrameTokens(stack);
      assert toks[1..] == FrameTokens(stack[1..]);
      if stack[0] == EllipsisPattern {
        AnyLinesSkips(toks[1..], stack);
        assert [AnyLines] + toks[1..] == toks;
        assert stack[1..] == stack[1..];
      } else {
        GlobSelf(stack[0]);
      }
    }
  }

  /**
   * The suppression a new leak group is created with (its own class name and frames, with
   * no description) matches that leak again, unless it has no frames.
   */
  lemma SyntheticMatchesItsLeak(cls: string, frames: seq<string>)
    ensures Suppression("", cls, frames).Match(cls, frames) <==> frames != []
  {
    var s := Suppression("", cls, frames);
    GlobSelf(cls);
    FrameTokensSelf(frames);
    assert s.Pattern()[1..] == FrameTokens(frames);
    assert ([cls] + frames)[1..] == frames;
  }

  // ---------------------------------------------------------------------------------------
  // The cases exercised by src/suppressions_unittest.py

  /** An empty suppression matches nothing, whatever the class name and frames. */
  lemma EmptySuppressionMatchesNothing(description: string, className: string, cls: string, frames: seq<string>)
    ensures !Suppression(description, className, []).Match(cls, frames)
  {
  }

  lemma GlobStep(p: string, rest: seq<Token>, lines: seq<string>)
    ensures MatchTokens([Glob(p)] + rest, lines) <==>
      lines != [] && GlobMatch(p, lines[0]) && MatchTokens(rest, lines[1..])
  {
    assert ([Glob(p)] + rest)[1..] == rest;
  }

  /** `*` alone matches any line. */
  lemma GlobAnything(line: string)
    ensures GlobMatch("*", line)
  {
    assert "*" == ['*'] + [];
    GlobStar([], line);
    assert line[|line|..] == [];
  }

  /** `*` followed by literal text matches exactly the lines ending in that text. */
  lemma StarSuffix(lit: string, line: string)
    requires '*' !in lit
    ensures GlobMatch(['*'] + lit, line) <==> |lit| <= |line| && line[|line| - |lit|..] == lit
  {
    GlobStar(lit, line);
    forall k | 0 <= k <= |line| ensures GlobMatch(lit, line[k..]) <==> line[k..] == lit {
      GlobLiteral(lit, line[k..]);
    }
    if |lit| <= |line| && line[|line| - |lit|..] == lit {
      assert GlobMatch(lit, line[|line| - |lit|..]);
    }
  }

  /** A suppression `c, ...` matches every leak whose class name matches `c`, whatever its frames. */
  lemma ClassThenAnyFrames(d: string, c: string, cls: string, frames: seq<string>)
    ensures Suppression(d, c, [EllipsisPattern]).Match(cls, frames) <==> GlobMatch(c, cls)
  {
    var s := Suppression(d, c, [EllipsisPattern]);
    assert s.Pattern() == [Glob(c)] + [AnyLines];
    GlobStep(c, [AnyLines], [cls] + frames);
    assert MatchTokens([AnyLines][1..], frames);
  }

  /** `..., b` over the frames after the first: `b` matches one of them. */
  lemma LaterFrame(b: string, frames: seq<string>)
    requires frames != [] && b != EllipsisPattern
    ensures MatchTokens([AnyLines] + [Glob(b)], frames[1..]) <==>
      exists k :: 1 <= k < |frames| && GlobMatch(b, frames[k])
  {
    var rest := frames[1..];
    AnyLinesSkips([Glob(b)], rest);
    forall j | 0 <= j <= |rest|
      ensures MatchTokens([Glob(b)], rest[j..]) <==> j < |rest| && GlobMatch(b, rest[j])
    {
      GlobStep(b, [], rest[j..]);
      assert [Glob(b)] + [] == [Glob(b)];
    }
    if exists k :: 1 <= k < |frames| && GlobMatch(b, frames[k]) {
      var k :| 1 <= k < |frames| && GlobMatch(b, frames[k]);
      assert rest[k - 1] == frames[k];
    }
    if exists j :: 0 <= j <= |rest| && MatchTokens([Glob(b)], rest[j..]) {
      var j :| 0 <= j <= |rest| && MatchTokens([Glob(b)], rest[j..]);
      assert frames[j + 1] == rest[j];
    }
  }

  /** A suppression `c, a, ..., b`: `a` is the first frame and `b` any later one. */
  lemma FramesAroundEllipsis(d: string, c: string, a: string, b: string, cls: string, frames: seq<string>)
    requires a != EllipsisPattern && b != EllipsisPattern
    ensures Suppression(d, c, [a, EllipsisPattern, b]).Match(cls, frames) <==>
      GlobMatch(c, cls) && frames != [] && GlobMatch(a, frames[0]) &&
      exists k :: 1 <= k < |frames| && GlobMatch(b, frames[k])
  {
    var s := Suppression(d, c, [a, EllipsisPattern, b]);
    var tail := [AnyLines] + [Glob(b)];
    assert s.Pattern() == [Glob(c)] + ([Glob(a)] + tail);
    var lines := [cls] + frames;
    assert lines[1..] == frames;
    GlobStep(c, [Glob(a)] + tail, lines);
    GlobStep(a, tail, frames);
    if frames != [] {
      LaterFrame(b, frames);
    }
  }

  /** `*Event` accepts `someEvent` and `Event` but not `someEvents`. */
  lemma ClassNameWildcard()
    ensures Suppression("", "*Event", ["..."]).Match("someEvent", ["foo"])
    ensures Suppression("", "*Event", ["..."]).Match("Event", ["foo"])
    ensures !Suppression("", "*Event", ["..."]).Match("someEvents", ["foo"])
  {
    assert "*Event" == ['*'] + "Event";
    StarSuffix("Event", "someEvent");
    StarSuffix("Event", "Event");
    StarSuffix("Event", "someEvents");
    ClassThenAnyFrames("", "*Event", "someEvent", ["foo"]);
    ClassThenAnyFrames("", "*Event", "Event", ["foo"]);
    ClassThenAnyFrames("", "*Event", "someEvents", ["foo"]);
  }

  /** As the class-name pattern, `...` is three literal dots. */
  lemma ClassNameEllipsisIsLiteral()
    ensures !Suppression("", "...", ["foo"]).Match("foo", [])
    ensures !Suppression("", "...", ["foo"]).Match("foo", ["foo"])
  {
    GlobLiteral("...", "foo");
  }

  /** `foo, ..., bar` accepts `foo` first and `bar` after zero, one or two frames. */
  lemma EllipsisBetweenFrames()
    ensures Suppression("", "*", ["foo", "...", "bar"]).Match("foo", ["foo", "bar"])
    ensures Suppression("", "*", ["foo", "...", "bar"]).Match("foo", ["foo", "1", "bar"])
    ensures Suppression("", "*", ["foo", "...", "bar"]).Match("foo", ["foo", "1", "2", "bar"])
  {
    GlobAnything("foo");
    GlobSelf("foo");
    GlobSelf("bar");
    var f0, f1, f2 := ["foo", "bar"], ["foo", "1", "bar"], ["foo", "1", "2", "bar"];
    assert GlobMatch("foo", f0[0]) && GlobMatch("bar", f0[1]);
    assert GlobMatch("foo", f1[0]) && GlobMatch("bar", f1[2]);
    assert GlobMatch("foo", f2[0]) && GlobMatch("bar", f2[3]);
    FramesAroundEllipsis("", "*", "foo", "bar", "foo", f0);
    FramesAroundEllipsis("", "*", "foo", "bar", "foo", f1);
    FramesAroundEllipsis("", "*", "foo", "bar", "foo", f2);
  }

  /** `foo, ..., bar` rejects frames that lack the closing `bar` or the leading `foo`. */
  lemma EllipsisNeedsBothEnds()
    ensures !Suppression("", "*", ["foo", "...", "bar"]).Match("foo", ["foo", "1", "2"])
    ensures !Suppression("", "*", ["foo", "...", "bar"]).Match("foo", ["1", "2", "bar"])
  {
    GlobLiteral("foo", "1");
    GlobLiteral("bar", "1");
    GlobLiteral("bar", "2");
    FramesAroundEllipsis("", "*", "foo", "bar", "foo", ["foo", "1", "2"]);
    FramesAroundEllipsis("", "*", "foo", "bar", "foo", ["1", "2", "bar"]);
  }

  /** `*, ...` matches any class name with any frames, none included. */
  lemma EllipsisMatchesAnyFrames(cls: string, frames: seq<string>)
    ensures Suppression("", "*", ["..."]).Match(cls, frames)
  {
    GlobAnything(cls);
    ClassThenAnyFrames("", "*", cls, frames);
  }
}
