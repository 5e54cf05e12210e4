/**
  The older release parser, file_parser_old.py: a release text, read as a list of lines,
  is cut into blocks by configured begin and end markers, and each block of a selected
  type is written to a path computed from its captured parameters.

  The begin and end markers are regular expressions tried with `re.match` (anchored at
  the start of the line). They are taken here as given matchers: `begin` answers `None`
  when the line does not match and otherwise the values of the groups 1, 2, … (a group
  that took no part in the match is `None`), and `end` answers whether the line matches.
*/
module Blocks {
  import opened Wrappers
  import opened Text
  import opened OrderedDict
  import Paths
  import Classifier

  /** One configured block kind: `BlockPattern` of file_parser_old.py. */
  datatype BlockPattern = BlockPattern(
    name: string,
    begin: string -> Option<seq<Option<string>>>,
    end: string -> bool,
    params: seq<string>)

  /** A block as `parse_blocks_from_release` returns it: its type, the captured
      parameters by name, and the stripped content. */
  datatype Block = Block(kind: string, params: Dict<Option<string>>, content: string)

  /** `m.group(idx)` asked for a group the begin expression does not have (`IndexError`). */
  datatype BlockError = NoSuchGroup(pattern: string, index: nat)

  /** The first pattern whose begin marker matches a line, with its groups. */
  datatype Found = Found(pat: nat, groups: seq<Option<string>>)

  // ---------------------------------------------------------------------------
  // Specification of parse_blocks_from_release

  /** The patterns are tried in list order from `q` on; the first that matches wins. */
  function FirstBeginFrom(pats: seq<BlockPattern>, line: string, q: nat): (r: Option<Found>)
    requires q <= |pats|
    ensures r.Some? ==> && q <= r.value.pat < |pats|
                        && pats[r.value.pat].begin(line) == Some(r.value.groups)
                        && forall k | q <= k < r.value.pat :: pats[k].begin(line).None?
    ensures r.None? ==> forall k | q <= k < |pats| :: pats[k].begin(line).None?
    decreases |pats| - q
  {
    if q == |pats| then None
    else match pats[q].begin(line)
      case Some(groups) => Some(Found(q, groups))
      case None => FirstBeginFrom(pats, line, q + 1)
  }

  function FirstBegin(pats: seq<BlockPattern>, line: string): (r: Option<Found>)
    ensures r.Some? ==> && r.value.pat < |pats|
                        && pats[r.value.pat].begin(line) == Some(r.value.groups)
                        && forall k | 0 <= k < r.value.pat :: pats[k].begin(line).None?
    ensures r.None? ==> forall k | 0 <= k < |pats| :: pats[k].begin(line).None?
  {
    FirstBeginFrom(pats, line, 0)
  }

  /** The first line at or after `j` that the end marker matches, or `|lines|`. */
  function EndOf(p: BlockPattern, lines: seq<string>, j: nat): (e: nat)
    requires j <= |lines|
    ensures j <= e <= |lines|
    ensures e < |lines| ==> p.end(lines[e])
    ensures forall k | j <= k < e :: !p.end(lines[k])
    decreases |lines| - j
  {
    if j == |lines| || p.end(lines[j]) then j else EndOf(p, lines, j + 1)
  }

  /** `params[pname] = m.group(idx)` for the names in order, `idx` counting from 1. */
  function Captured(pattern: string, names: seq<string>, groups: seq<Option<string>>): Result<Dict<Option<string>>, BlockError>
    decreases |names|
  {
    if |names| == 0 then Ok([])
    else match Captured(pattern, names[..|names| - 1], groups)
      case Err(e) => Err(e)
      case Ok(d) =>
        if |names| > |groups| then Err(NoSuchGroup(pattern, |names|))
        else Ok(Put(d, names[|names| - 1], groups[|names| - 1]))
  }

  /** The content of a block: its lines joined with newlines and stripped. */
  function Content(contentLines: seq<string>): string {
    Strip(Join(contentLines, "\n"))
  }

  /** The content of the block that begins at line `begin` and ends before line `end`. */
  function ContentAt(lines: seq<string>, begin: nat, end: nat): string
    requires begin < end <= |lines|
  {
    Content(lines[begin + 1..end])
  }

  /** Where the scan resumes after a block whose content ends before line `e`: past the
      end line when there is one. */
  function Resume(e: nat, n: nat): nat {
    if e < n then e + 1 else e
  }

  /** The blocks found from line `i` on, or the error that stops the scan. */
  function Scan(lines: seq<string>, pats: seq<BlockPattern>, i: nat): Result<seq<Block>, BlockError>
    requires i <= |lines|
    decreases |lines| - i
  {
    if i == |lines| then Ok([])
    else match FirstBegin(pats, lines[i])
      case None => Scan(lines, pats, i + 1)
      case Some(f) =>
        var p := pats[f.pat];
        match Captured(p.name, p.params, f.groups)
        case Err(e) => Err(e)
        case Ok(params) =>
          var e := EndOf(p, lines, i + 1);
          Prepend([Block(p.name, params, Strip(Join(lines[i + 1..e], "\n")))], Scan(lines, pats, Resume(e, |lines|)))
  }

  /** Blocks found earlier, in front of what the rest of the scan gives. */
  function Prepend(bs: seq<Block>, r: Result<seq<Block>, BlockError>): Result<seq<Block>, BlockError> {
    if r.Ok? then Ok(bs + r.value) else r
  }

  lemma PrependTwice(a: seq<Block>, b: seq<Block>, r: Result<seq<Block>, BlockError>)
    ensures Prepend(a, Prepend(b, r)) == Prepend(a + b, r)
  {
    if r.Ok? {
      assert a + (b + r.value) == (a + b) + r.value;
    }
  }

  // ---------------------------------------------------------------------------
  // parse_blocks_from_release

  method ParseBlocksFromRelease(releaseLines: seq<string>, blockPatterns: seq<BlockPattern>)
    returns (r: Result<seq<Block>, BlockError>)
    ensures r == Scan(releaseLines, blockPatterns, 0)
  {
    var blocks: seq<Block> := [];
    var i := 0;
    var n := |releaseLines|;
    PrependNothing(Scan(releaseLines, blockPatterns, 0));
    while i < n
      invariant 0 <= i <= n
      invariant Scan(releaseLines, blockPatterns, 0) == Prepend(blocks, Scan(releaseLines, blockPatterns, i))
    {
      // for pat in block_patterns: the first whose begin marker matches
      var q := 0;
      while q < |blockPatterns|
        invariant 0 <= q <= |blockPatterns|
        invariant FirstBegin(blockPatterns, releaseLines[i]) == FirstBeginFrom(blockPatterns, releaseLines[i], q)
      {
        if blockPatterns[q].begin(releaseLines[i]).Some? {
          break;
        }
        q := q + 1;
      }
      if q == |blockPatterns| {
        // not matched
        ScanSkips(releaseLines, blockPatterns, i);
        i := i + 1;
        continue;
      }
      var pat := blockPatterns[q];
      var m := pat.begin(releaseLines[i]).value;
      assert FirstBegin(blockPatterns, releaseLines[i]) == Some(Found(q, m));
      ghost var start := i;
      var captured := CaptureParams(pat, m);
      if captured.Err? {
        ScanCaptureFails(releaseLines, blockPatterns, i, captured.error);
        return Err(captured.error);
      }
      var params := captured.value;
      var contentLines;
      contentLines, i := ReadContent(releaseLines, pat, i + 1);
      var b := Block(pat.name, params, Content(contentLines));
      ghost var e := MatchedStep(releaseLines, blockPatterns, blocks, start, q, m, b, contentLines);
      ghost var next := Resume(e, n);
      blocks := blocks + [b];
      // step over the end line when there is one
      if i < n && pat.end(releaseLines[i]) {
        i := i + 1;
      }
      assert i == next;
    }
    assert Scan(releaseLines, blockPatterns, n) == Ok([]);
    assert blocks + [] == blocks;
    return Ok(blocks);
  }

  /** `params[pname] = m.group(idx)` for each declared parameter, `idx` from 1. */
  method CaptureParams(pat: BlockPattern, m: seq<Option<string>>) returns (r: Result<Dict<Option<string>>, BlockError>)
    ensures r == Captured(pat.name, pat.params, m)
  {
    var params: Dict<Option<string>> := [];
    for idx := 1 to |pat.params| + 1
      invariant Captured(pat.name, pat.params[..idx - 1], m) == Ok(params)
    {
      if idx > |m| {
        CapturedFails(pat.name, pat.params, m, idx, params);
        return Err(NoSuchGroup(pat.name, idx));
      }
      assert pat.params[..idx][..idx - 1] == pat.params[..idx - 1];
      params := Put(params, pat.params[idx - 1], m[idx - 1]);
    }
    assert pat.params[..|pat.params|] == pat.params;
    return Ok(params);
  }

  /** The inner `while`: the lines from `j` up to the first end-matching line, and where
      the scan stopped. */
  method ReadContent(lines: seq<string>, pat: BlockPattern, j: nat) returns (contentLines: seq<string>, i: nat)
    requires j <= |lines|
    ensures i == EndOf(pat, lines, j) && contentLines == lines[j..i]
  {
    contentLines := [];
    i := j;
    while i < |lines| && !pat.end(lines[i])
      invariant j <= i <= |lines|
      invariant contentLines == lines[j..i]
      invariant forall k | j <= k < i :: !pat.end(lines[k])
    {
      contentLines := contentLines + [lines[i]];
      i := i + 1;
    }
    EndOfIs(pat, lines, j, i);
  }

  lemma PrependNothing(r: Result<seq<Block>, BlockError>)
    ensures Prepend([], r) == r
  {
    if r.Ok? {
      assert [] + r.value == r.value;
    }
  }

  /** A line no begin marker matches is passed over. */
  lemma ScanSkips(lines: seq<string>, pats: seq<BlockPattern>, i: nat)
    requires i < |lines| && FirstBegin(pats, lines[i]).None?
    ensures Scan(lines, pats, i) == Scan(lines, pats, i + 1)
  {
  }

  /** A block whose parameters cannot be captured stops the scan with that error. */
  lemma ScanCaptureFails(lines: seq<string>, pats: seq<BlockPattern>, i: nat, e: BlockError)
    requires i < |lines| && FirstBegin(pats, lines[i]).Some?
    requires var f := FirstBegin(pats, lines[i]).value;
      Captured(pats[f.pat].name, pats[f.pat].params, f.groups) == Err(e)
    ensures Scan(lines, pats, i) == Err(e)
  {
  }

  /** A block found at line `i` comes first, then the blocks after its end. */
  lemma ScanMatched(lines: seq<string>, pats: seq<BlockPattern>, i: nat, b: Block)
    requires i < |lines| && FirstBegin(pats, lines[i]).Some?
    requires var f := FirstBegin(pats, lines[i]).value; var p := pats[f.pat];
      && Captured(p.name, p.params, f.groups) == Ok(b.params) && b.kind == p.name
      && b.content == ContentAt(lines, i, EndOf(p, lines, i + 1))
    ensures var e := EndOf(pats[FirstBegin(pats, lines[i]).value.pat], lines, i + 1);
      Scan(lines, pats, i) == Prepend([b], Scan(lines, pats, Resume(e, |lines|)))
  {
  }

  /** The loop invariant carried over one block found at line `start` by pattern `q`. */
  lemma MatchedStep(lines: seq<string>, pats: seq<BlockPattern>, blocks: seq<Block>, start: nat, q: nat,
                    m: seq<Option<string>>, b: Block, contentLines: seq<string>) returns (e: nat)
    requires start < |lines| && q < |pats| && FirstBegin(pats, lines[start]) == Some(Found(q, m))
    requires Captured(pats[q].name, pats[q].params, m) == Ok(b.params) && b.kind == pats[q].name
    requires contentLines == lines[start + 1..EndOf(pats[q], lines, start + 1)]
    requires b.content == Content(contentLines)
    ensures e == EndOf(pats[q], lines, start + 1)
    ensures Prepend(blocks, Scan(lines, pats, start)) == Prepend(blocks + [b], Scan(lines, pats, Resume(e, |lines|)))
  {
    e := EndOf(pats[q], lines, start + 1);
    ScanMatched(lines, pats, start, b);
    PrependTwice(blocks, [b], Scan(lines, pats, Resume(e, |lines|)));
  }

  /** A group index past the last group makes the whole capture fail with that index. */
  lemma CapturedFails(pattern: string, names: seq<string>, groups: seq<Option<string>>, idx: nat, d: Dict<Option<string>>)
    requires 1 <= idx <= |names| && idx > |groups|
    requires Captured(pattern, names[..idx - 1], groups) == Ok(d)
    ensures Captured(pattern, names, groups) == Err(NoSuchGroup(pattern, idx))
  {
    assert names[..idx][..idx - 1] == names[..idx - 1];
    CapturedStaysFailed(pattern, names, groups, idx);
  }

  /** Once a prefix of the names fails, every longer prefix fails the same way. */
  lemma {:induction false} CapturedStaysFailed(pattern: string, names: seq<string>, groups: seq<Option<string>>, k: nat)
    requires k <= |names| && Captured(pattern, names[..k], groups).Err?
    ensures Captured(pattern, names, groups) == Captured(pattern, names[..k], groups)
    decreases |names| - k
  {
    if k < |names| {
      assert names[..k + 1][..k] == names[..k];
      CapturedStaysFailed(pattern, names, groups, k + 1);
    } else {
      assert names[..k] == names;
    }
  }

  /** The end found by scanning is the first end-matching line. */
  lemma {:induction false} EndOfIs(p: BlockPattern, lines: seq<string>, j: nat, e: nat)
    requires j <= e <= |lines|
    requires forall k | j <= k < e :: !p.end(lines[k])
    requires e < |lines| ==> p.end(lines[e])
    ensures EndOf(p, lines, j) == e
    decreases e - j
  {
    if j < e {
      EndOfIs(p, lines, j + 1, e);
    }
  }

  // ---------------------------------------------------------------------------
  // Where the blocks lie

  /** A block's place in the release: the begin line, the line just after its content
      (the end line, or `|lines|` when the block is not terminated), and the pattern. */
  datatype Span = Span(begin: nat, end: nat, pat: nat)

  /** The spans of the blocks the scan finds from line `i` on, whether or not their
      parameters can be captured. */
  function Spans(lines: seq<string>, pats: seq<BlockPattern>, i: nat): seq<Span>
    requires i <= |lines|
    decreases |lines| - i
  {
    if i == |lines| then []
    else match FirstBegin(pats, lines[i])
      case None => Spans(lines, pats, i + 1)
      case Some(f) =>
        var e := EndOf(pats[f.pat], lines, i + 1);
        [Span(i, e, f.pat)] + Spans(lines, pats, Resume(e, |lines|))
  }

  /** Spans from line `i` on, each with its begin before its end, in source order and
      not overlapping: each ends before the next begins. */
  predicate Ordered(sp: seq<Span>, i: nat, n: nat) {
    && (forall k | 0 <= k < |sp| :: i <= sp[k].begin < sp[k].end <= n)
    && (forall k | 0 <= k < |sp| - 1 :: sp[k].end < sp[k + 1].begin)
  }

  lemma OrderedCons(s: Span, rest: seq<Span>, i: nat, r: nat, n: nat)
    requires Ordered(rest, r, n) && i <= s.begin < s.end <= n && (|rest| > 0 ==> s.end < r)
    ensures Ordered([s] + rest, i, n)
  {
    var sp := [s] + rest;
    forall k | 0 <= k < |sp| ensures i <= sp[k].begin < sp[k].end <= n {
      if k > 0 {
        assert sp[k] == rest[k - 1];
      }
    }
    forall k | 0 <= k < |sp| - 1 ensures sp[k].end < sp[k + 1].begin {
      if k > 0 {
        assert sp[k] == rest[k - 1] && sp[k + 1] == rest[k];
      }
    }
  }

  /** Blocks come in source order and never overlap; only the last one can run to the end
      of the release without an end line. */
  lemma {:induction false} SpansOrdered(lines: seq<string>, pats: seq<BlockPattern>, i: nat)
    requires i <= |lines|
    ensures Ordered(Spans(lines, pats, i), i, |lines|)
    ensures forall k | 0 <= k < |Spans(lines, pats, i)| - 1 :: Spans(lines, pats, i)[k].end < |lines|
    decreases |lines| - i
  {
    var sp := Spans(lines, pats, i);
    if i < |lines| {
      match FirstBegin(pats, lines[i])
      case None =>
        SpansOrdered(lines, pats, i + 1);
      case Some(f) =>
        var e := EndOf(pats[f.pat], lines, i + 1);
        var r := Resume(e, |lines|);
        SpansOrdered(lines, pats, r);
        if r == |lines| {
          assert Spans(lines, pats, r) == [];
        }
        OrderedCons(Span(i, e, f.pat), Spans(lines, pats, r), i, r, |lines|);
    }
    forall k | 0 <= k < |sp| - 1 ensures sp[k].end < |lines| {
      assert sp[k].end < sp[k + 1].begin < sp[k + 1].end <= |lines|;
    }
  }

  /** Where a block begins, the first pattern whose begin marker matches that line is
      the block's pattern, and no earlier pattern matches it; the lines inside the block
      match no end marker of that pattern, and the line just after the content, when
      there is one, does. */
  lemma {:induction false} SpansShape(lines: seq<string>, pats: seq<BlockPattern>, i: nat)
    requires i <= |lines|
    ensures forall k | 0 <= k < |Spans(lines, pats, i)| :: SpanAt(lines, pats, Spans(lines, pats, i)[k])
    decreases |lines| - i
  {
    var sp := Spans(lines, pats, i);
    if i < |lines| {
      match FirstBegin(pats, lines[i])
      case None =>
        SpansShape(lines, pats, i + 1);
      case Some(f) =>
        var e := EndOf(pats[f.pat], lines, i + 1);
        var rest := Spans(lines, pats, Resume(e, |lines|));
        SpansShape(lines, pats, Resume(e, |lines|));
        assert sp == [Span(i, e, f.pat)] + rest;
        forall k | 0 <= k < |sp| ensures SpanAt(lines, pats, sp[k]) {
          if k > 0 {
            assert sp[k] == rest[k - 1];
          }
        }
    }
  }

  predicate SpanAt(lines: seq<string>, pats: seq<BlockPattern>, s: Span) {
    && s.begin < s.end <= |lines| && s.pat < |pats|
    && pats[s.pat].begin(lines[s.begin]).Some?
    && (forall q | 0 <= q < s.pat :: pats[q].begin(lines[s.begin]).None?)
    && (forall j | s.begin < j < s.end :: !pats[s.pat].end(lines[j]))
    && (s.end < |lines| ==> pats[s.pat].end(lines[s.end]))
  }

  /** Line `j` lies within some block, its begin and end lines included. */
  predicate Covered(sp: seq<Span>, j: nat) {
    exists k | 0 <= k < |sp| :: sp[k].begin <= j <= sp[k].end
  }

  /** A line outside every block matches no begin marker: it was passed over. */
  lemma {:induction false} SkippedLinesMatchNothing(lines: seq<string>, pats: seq<BlockPattern>, i: nat)
    requires i <= |lines|
    ensures forall j | i <= j < |lines| && !Covered(Spans(lines, pats, i), j) :: FirstBegin(pats, lines[j]).None?
    decreases |lines| - i
  {
    var sp := Spans(lines, pats, i);
    if i < |lines| {
      match FirstBegin(pats, lines[i])
      case None =>
        SkippedLinesMatchNothing(lines, pats, i + 1);
      case Some(f) =>
        var e := EndOf(pats[f.pat], lines, i + 1);
        var r := Resume(e, |lines|);
        var rest := Spans(lines, pats, r);
        SkippedLinesMatchNothing(lines, pats, r);
        assert sp == [Span(i, e, f.pat)] + rest;
        forall j | i <= j < |lines| && !Covered(sp, j) ensures FirstBegin(pats, lines[j]).None? {
          assert !(sp[0].begin <= j <= sp[0].end);
          forall k | 0 <= k < |rest| ensures !(rest[k].begin <= j <= rest[k].end) {
            assert sp[k + 1] == rest[k];
          }
        }
    }
  }

  /** There are never more blocks than lines. */
  lemma {:induction false} SpansFewerThanLines(lines: seq<string>, pats: seq<BlockPattern>, i: nat)
    requires i <= |lines|
    ensures |Spans(lines, pats, i)| <= |lines| - i
    decreases |lines| - i
  {
    if i < |lines| {
      match FirstBegin(pats, lines[i])
      case None =>
        SpansFewerThanLines(lines, pats, i + 1);
      case Some(f) =>
        var e := EndOf(pats[f.pat], lines, i + 1);
        SpansFewerThanLines(lines, pats, Resume(e, |lines|));
    }
  }

  // ---------------------------------------------------------------------------
  // What each block holds

  /** The block `b` is the one found at span `s`: the pattern's name, the lines strictly
      between the begin line and the end of the span joined with newlines and stripped,
      and the parameters captured from the begin line's groups. */
  predicate BlockAt(lines: seq<string>, pats: seq<BlockPattern>, s: Span, b: Block) {
    && s.begin < s.end <= |lines| && s.pat < |pats|
    && pats[s.pat].begin(lines[s.begin]).Some?
    && b.kind == pats[s.pat].name
    && b.content == ContentAt(lines, s.begin, s.end)
    && Captured(pats[s.pat].name, pats[s.pat].params, pats[s.pat].begin(lines[s.begin]).value) == Ok(b.params)
  }

  /** When the scan succeeds, it returns one block per span, in order, each holding what
      its span says. */
  lemma {:induction false} ScanFollowsSpans(lines: seq<string>, pats: seq<BlockPattern>, i: nat)
    requires i <= |lines| && Scan(lines, pats, i).Ok?
    ensures BlocksAt(lines, pats, Spans(lines, pats, i), Scan(lines, pats, i).value)
    decreases |lines| - i
  {
    if i < |lines| {
      match FirstBegin(pats, lines[i])
      case None =>
        ScanFollowsSpans(lines, pats, i + 1);
      case Some(f) =>
        var p := pats[f.pat];
        var params := Captured(p.name, p.params, f.groups).value;
        var e := EndOf(p, lines, i + 1);
        var r := Resume(e, |lines|);
        var b := Block(p.name, params, ContentAt(lines, i, e));
        ScanMatched(lines, pats, i, b);
        ScanFollowsSpans(lines, pats, r);
        var rest, more := Spans(lines, pats, r), Scan(lines, pats, r).value;
        assert Spans(lines, pats, i) == [Span(i, e, f.pat)] + rest;
        assert Scan(lines, pats, i).value == [b] + more;
        BlockAtFound(lines, pats, i, f, e, b);
        BlocksAtCons(lines, pats, Span(i, e, f.pat), b, rest, more);
    }
  }

  /** The block built at a begin line is the one found at its span. */
  lemma BlockAtFound(lines: seq<string>, pats: seq<BlockPattern>, i: nat, f: Found, e: nat, b: Block)
    requires i < |lines| && f.pat < |pats| && pats[f.pat].begin(lines[i]) == Some(f.groups)
    requires e == EndOf(pats[f.pat], lines, i + 1)
    requires Captured(pats[f.pat].name, pats[f.pat].params, f.groups) == Ok(b.params)
    requires b.kind == pats[f.pat].name && b.content == ContentAt(lines, i, e)
    ensures BlockAt(lines, pats, Span(i, e, f.pat), b)
  {
    var s := Span(i, e, f.pat);
    assert s.begin < s.end <= |lines| && s.pat < |pats|;
    assert pats[s.pat].begin(lines[s.begin]) == Some(f.groups);
    assert b.content == ContentAt(lines, s.begin, s.end);
    assert pats[s.pat].begin(lines[s.begin]).value == f.groups;
    assert Captured(pats[s.pat].name, pats[s.pat].params, pats[s.pat].begin(lines[s.begin]).value) == Ok(b.params);
  }

  /** Each span paired with the block found there, in order. */
  predicate BlocksAt(lines: seq<string>, pats: seq<BlockPattern>, sp: seq<Span>, bs: seq<Block>)
    decreases |sp|
  {
    && |sp| == |bs|
    && (|sp| > 0 ==> BlockAt(lines, pats, sp[0], bs[0]) && BlocksAt(lines, pats, sp[1..], bs[1..]))
  }

  lemma BlocksAtCons(lines: seq<string>, pats: seq<BlockPattern>, s: Span, b: Block, rest: seq<Span>, more: seq<Block>)
    requires BlockAt(lines, pats, s, b) && BlocksAt(lines, pats, rest, more)
    ensures BlocksAt(lines, pats, [s] + rest, [b] + more)
  {
    assert ([s] + rest)[1..] == rest && ([b] + more)[1..] == more;
  }

  /** A property holds of every element of `[a] + rest` exactly when it holds of `a` and
      of every element of `rest`. */
  lemma AllCons<A>(P: A -> bool, a: A, rest: seq<A>)
    ensures (forall k | 0 <= k < |rest| + 1 :: P(([a] + rest)[k])) <==> P(a) && forall k | 0 <= k < |rest| :: P(rest[k])
  {
    if P(a) && forall k | 0 <= k < |rest| :: P(rest[k]) {
      forall k | 0 <= k < |rest| + 1 ensures P(([a] + rest)[k]) {
        if k > 0 {
          assert ([a] + rest)[k] == rest[k - 1];
        }
      }
    }
    if forall k | 0 <= k < |rest| + 1 :: P(([a] + rest)[k]) {
      assert ([a] + rest)[0] == a;
      forall k | 0 <= k < |rest| ensures P(rest[k]) {
        assert ([a] + rest)[k + 1] == rest[k];
      }
    }
  }

  /** Capturing succeeds exactly when the begin marker has at least as many groups as
      there are declared parameters; otherwise it fails at the first index past them. */
  lemma {:induction false} CapturedOkIff(pattern: string, names: seq<string>, groups: seq<Option<string>>)
    ensures Captured(pattern, names, groups).Ok? <==> |names| <= |groups|
    ensures |names| > |groups| ==> Captured(pattern, names, groups) == Err(NoSuchGroup(pattern, |groups| + 1))
    decreases |names|
  {
    if |names| > 0 {
      var init := names[..|names| - 1];
      CapturedOkIff(pattern, init, groups);
    }
  }

  /** With distinct parameter names, each name is bound to its own group, in order. */
  lemma {:induction false} CapturedGet(pattern: string, names: seq<string>, groups: seq<Option<string>>)
    requires |names| <= |groups|
    requires forall a, b | 0 <= a < b < |names| :: names[a] != names[b]
    ensures Captured(pattern, names, groups).Ok?
    ensures Keys(Captured(pattern, names, groups).value) == names
    ensures forall j | 0 <= j < |names| :: Get(Captured(pattern, names, groups).value, names[j]) == Some(groups[j])
    decreases |names|
  {
    CapturedOkIff(pattern, names, groups);
    if |names| > 0 {
      var last := |names| - 1;
      var init := names[..last];
      CapturedGet(pattern, init, groups);
      var d := Captured(pattern, init, groups).value;
      assert names == init + [names[last]];
      assert names[last] !in init by {
        forall j | 0 <= j < last ensures init[j] != names[last] {
          assert init[j] == names[j];
        }
      }
      PutNewKey(d, init, names[last], groups[last]);
      assert Captured(pattern, names, groups) == Ok(Put(d, names[last], groups[last]));
      forall j | 0 <= j < last ensures Get(Put(d, names[last], groups[last]), names[j]) == Some(groups[j]) {
        assert names[j] == init[j];
      }
    }
  }

  /** Assigning a key not yet present appends it and leaves the other keys' values. */
  lemma PutNewKey<V>(d: Dict<V>, ks: seq<string>, k: string, v: V)
    requires Keys(d) == ks && k !in ks
    ensures Keys(Put(d, k, v)) == ks + [k]
    ensures Get(Put(d, k, v), k) == Some(v)
    ensures forall x | x != k :: Get(Put(d, k, v), x) == Get(d, x)
  {
    assert !HasKey(d, k);
    PutGet(d, k, v);
  }

  /** The scan fails exactly when some block's pattern declares more parameters than its
      begin marker has groups. */
  lemma {:induction false} ScanOkIff(lines: seq<string>, pats: seq<BlockPattern>, i: nat)
    requires i <= |lines|
    ensures Scan(lines, pats, i).Ok? <==> AllCapturable(lines, pats, Spans(lines, pats, i))
    decreases |lines| - i
  {
    if i < |lines| {
      match FirstBegin(pats, lines[i])
      case None =>
        ScanOkIff(lines, pats, i + 1);
        assert Scan(lines, pats, i) == Scan(lines, pats, i + 1);
        assert Spans(lines, pats, i) == Spans(lines, pats, i + 1);
      case Some(f) =>
        var p := pats[f.pat];
        var e := EndOf(p, lines, i + 1);
        var r := Resume(e, |lines|);
        ScanOkIff(lines, pats, r);
        ScanOkAtBegin(lines, pats, i, f, e, r);
        var rest := Spans(lines, pats, r);
        assert Spans(lines, pats, i) == [Span(i, e, f.pat)] + rest;
        AllCapturableCons(lines, pats, Span(i, e, f.pat), rest);
    }
  }

  /** At a begin line the scan succeeds exactly when the parameters can be captured
      and the rest of the scan succeeds. */
  lemma ScanOkAtBegin(lines: seq<string>, pats: seq<BlockPattern>, i: nat, f: Found, e: nat, r: nat)
    requires i < |lines| && FirstBegin(pats, lines[i]) == Some(f)
    requires e == EndOf(pats[f.pat], lines, i + 1) && r == Resume(e, |lines|)
    ensures Scan(lines, pats, i).Ok? <==>
      Capturable(lines, pats, Span(i, e, f.pat)) && Scan(lines, pats, r).Ok?
  {
    var p := pats[f.pat];
    CapturedOkIff(p.name, p.params, f.groups);
    CapturableAt(lines, pats, i, f, e);
    var c := Captured(p.name, p.params, f.groups);
    if c.Err? {
      ScanCaptureFails(lines, pats, i, c.error);
    } else {
      var b := Block(p.name, c.value, ContentAt(lines, i, e));
      ScanMatched(lines, pats, i, b);
      assert Scan(lines, pats, i) == Prepend([b], Scan(lines, pats, r));
    }
  }

  /** Whether the span of a block found at line `i` is capturable depends only on the
      groups its begin marker matched. */
  lemma CapturableAt(lines: seq<string>, pats: seq<BlockPattern>, i: nat, f: Found, e: nat)
    requires i < |lines| && FirstBegin(pats, lines[i]) == Some(f)
    ensures Capturable(lines, pats, Span(i, e, f.pat)) <==> |pats[f.pat].params| <= |f.groups|
  {
  }

  lemma AllCapturableCons(lines: seq<string>, pats: seq<BlockPattern>, s: Span, rest: seq<Span>)
    ensures AllCapturable(lines, pats, [s] + rest) <==>
      Capturable(lines, pats, s) && AllCapturable(lines, pats, rest)
  {
    AllCons(x => Capturable(lines, pats, x), s, rest);
  }

  predicate AllCapturable(lines: seq<string>, pats: seq<BlockPattern>, sp: seq<Span>) {
    forall k | 0 <= k < |sp| :: Capturable(lines, pats, sp[k])
  }

  /** The begin line of span `s` has at least as many groups as its pattern has
      parameters. */
  predicate Capturable(lines: seq<string>, pats: seq<BlockPattern>, s: Span) {
    && s.begin < |lines| && s.pat < |pats| && pats[s.pat].begin(lines[s.begin]).Some?
    && |pats[s.pat].params| <= |pats[s.pat].begin(lines[s.begin]).value|
  }
}
