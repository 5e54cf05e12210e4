/**
  `parse_template` of file_parser.py: reads the values of the `{name}` placeholders of a
  marker template back out of a marker line, using only the literal text around them.
*/
module TemplateMatch {
  import opened Wrappers
  import opened Text
  import opened OrderedDict
  import EnvSubst
  import Paths

  /** One match of `\{([^}]+)\}`: `template[start..end]` is `{name}`. */
  datatype HoleMatch = HoleMatch(start: nat, end: nat, name: string)

  predicate ValidHole(t: string, h: HoleMatch) {
    && h.start + 2 <= h.end <= |t|
    && t[h.start] == '{' && t[h.end - 1] == '}'
    && h.name == t[h.start + 1..h.end - 1] && '}' !in h.name
  }

  /** Matches in order, none overlapping the next. */
  predicate ValidHoles(t: string, hs: seq<HoleMatch>) {
    && (forall i | 0 <= i < |hs| :: ValidHole(t, hs[i]))
    && (forall i | 0 <= i < |hs| - 1 :: hs[i].end <= hs[i + 1].start)
  }

  /** The first `}` at or after `j`. */
  function CloseFrom(t: string, j: nat): (q: Option<nat>)
    ensures q.Some? ==> j <= q.value < |t| && t[q.value] == '}'
    decreases |t| - j
  {
    if j >= |t| then None
    else if t[j] == '}' then Some(j)
    else CloseFrom(t, j + 1)
  }

  /** `CloseFrom` finds the first `}`: none lies before it. */
  lemma {:induction false} CloseFromFirst(t: string, j: nat)
    ensures var q := CloseFrom(t, j);
      && (q.Some? ==> forall k | j <= k < q.value :: t[k] != '}')
      && (q.None? ==> forall k | j <= k < |t| :: t[k] != '}')
    decreases |t| - j
  {
    if j < |t| && t[j] != '}' {
      CloseFromFirst(t, j + 1);
    }
  }

  /** Conversely, the first `}` at or after `j` is the one `CloseFrom` finds. */
  lemma {:induction false} CloseFromIs(t: string, j: nat, q: nat)
    requires j <= q < |t| && t[q] == '}' && forall k | j <= k < q :: t[k] != '}'
    ensures CloseFrom(t, j) == Some(q)
    decreases q - j
  {
    if j < q {
      CloseFromIs(t, j + 1, q);
    }
  }

  /** Where the match opened by a `{` at `p` closes: the first `}` after it, provided
      at least one character lies between them. */
  function CloseAt(t: string, p: nat): (q: Option<nat>)
    requires p < |t|
    ensures q.Some? ==> t[p] == '{' && p + 2 <= q.value < |t|
  {
    if t[p] != '{' then None
    else match CloseFrom(t, p + 1)
      case Some(q) => if q >= p + 2 then Some(q) else None
      case None => None
  }

  /** `re.finditer(r"\{([^}]+)\}", t)` from position `p`. */
  function HolesFrom(t: string, p: nat): seq<HoleMatch>
    requires p <= |t|
    decreases |t| - p
  {
    if p == |t| then []
    else match CloseAt(t, p)
      case Some(q) => [HoleMatch(p, q + 1, t[p + 1..q])] + HolesFrom(t, q + 1)
      case None => HolesFrom(t, p + 1)
  }

  /** A match closed by `CloseAt` is well formed. */
  lemma HoleAtValid(t: string, p: nat)
    requires p < |t| && CloseAt(t, p).Some?
    ensures var q := CloseAt(t, p).value; ValidHole(t, HoleMatch(p, q + 1, t[p + 1..q]))
  {
    CloseFromFirst(t, p + 1);
  }

  /** The matches from `p` on are well formed, in order, and start at or after `p`. */
  lemma {:induction false} HolesFromValid(t: string, p: nat)
    requires p <= |t|
    ensures ValidHoles(t, HolesFrom(t, p))
    ensures forall i | 0 <= i < |HolesFrom(t, p)| :: p <= HolesFrom(t, p)[i].start
    decreases |t| - p
  {
    if p < |t| {
      match CloseAt(t, p)
      case Some(q) =>
        HoleAtValid(t, p);
        HolesFromValid(t, q + 1);
      case None =>
        HolesFromValid(t, p + 1);
    }
  }

  function Holes(t: string): seq<HoleMatch> {
    HolesFrom(t, 0)
  }

  datatype TemplateError =
    | NotAString                      // TypeError: the template is not a string
    | SegmentNotFound(segment: string) // ValueError: a literal segment is missing from the line

  /** `line[c:next_pos]` when the remaining template occurs at or after `c`, else `line[c:]`. */
  function ValueText(line: string, next: string, c: nat): string {
    match Find(line, next, c)
    case Some(np) => Slice(line, c, np)
    case None => SliceFrom(line, c)
  }

  /** The value read at cursor `c`: `None` once the cursor has reached the end of the
      line, else the stripped text up to where `next` (the rest of the template) occurs. */
  function ReadValue(line: string, next: string, c: nat): Option<string> {
    if c < |line| then Some(Strip(ValueText(line, next, c))) else None
  }

  /** The two cases of `ReadValue`. */
  lemma ReadValueCases(line: string, next: string, c: nat, v: Option<string>)
    requires v == ReadValue(line, next, c)
    ensures c < |line| ==> v == Some(Strip(ValueText(line, next, c)))
    ensures c >= |line| ==> v == None
  {
  }

  /** One turn of the loop for the match `h` at cursor `cursor`: the new cursor and the
      value read for `h`. */
  function StepAt(t: string, line: string, h: HoleMatch, cursor: nat): Result<(nat, Option<string>), TemplateError>
  {
    var segment := Segment(t, h, cursor);
    var found := Find(line, segment, cursor);
    if found.None? then Err(SegmentNotFound(segment))
    else
      var c := found.value + |segment|;
      Ok((c, ReadValue(line, SliceFrom(t, h.end), c)))
  }

  /** Python's `s[i:j]` for non-negative bounds: clamped to the string, empty when `i >= j`. */
  function Slice(s: string, i: nat, j: nat): (r: string)
    ensures i <= j <= |s| ==> r == s[i..j]
  {
    if i < j && i < |s| then s[i..if j <= |s| then j else |s|] else ""
  }

  /** Python's `s[i:]`. */
  function SliceFrom(s: string, i: nat): (r: string)
    ensures i <= |s| ==> r == s[i..]
  {
    if i < |s| then s[i..] else ""
  }

  /** The segment looked for before the match `h`: `template[match_start:h.start()]`. */
  function Segment(t: string, h: HoleMatch, cursor: nat): string {
    Slice(t, cursor, h.start)
  }

  /** The loop's variables after some turns: the cursor `match_start` and `result`. */
  datatype Scanned = Scanned(cursor: nat, acc: Dict<Option<string>>)

  /** One turn of the loop for the match `h`, after an earlier turn raised or not. */
  function Advance(t: string, line: string, st: Result<Scanned, TemplateError>, h: HoleMatch): Result<Scanned, TemplateError>
  {
    if st.Err? then st
    else match StepAt(t, line, h, st.value.cursor)
      case Err(e) => Err(e)
      case Ok(step) => Ok(Scanned(step.0, Put(st.value.acc, h.name, step.1)))
  }

  /** A turn whose segment is found at `pos` moves the cursor just past it and records
      the value read there. */
  lemma AdvanceFound(t: string, line: string, cursor: nat, acc: Dict<Option<string>>, h: HoleMatch, pos: nat)
    returns (c: nat, v: Option<string>)
    requires Find(line, Segment(t, h, cursor), cursor) == Some(pos)
    ensures c == pos + |Segment(t, h, cursor)| && v == ReadValue(line, SliceFrom(t, h.end), c)
    ensures Advance(t, line, Ok(Scanned(cursor, acc)), h) == Ok(Scanned(c, Put(acc, h.name, v)))
  {
    c, v := StepFound(t, line, cursor, h, pos);
  }

  /** The turn's step when its segment is found at `pos`. */
  lemma StepFound(t: string, line: string, cursor: nat, h: HoleMatch, pos: nat) returns (c: nat, v: Option<string>)
    requires Find(line, Segment(t, h, cursor), cursor) == Some(pos)
    ensures c == pos + |Segment(t, h, cursor)| && v == ReadValue(line, SliceFrom(t, h.end), c)
    ensures StepAt(t, line, h, cursor) == Ok((c, v))
  {
    var segment := Segment(t, h, cursor);
    var found := Find(line, segment, cursor);
    assert found == Some(pos);
    c := pos + |segment|;
    v := ReadValue(line, SliceFrom(t, h.end), c);
    assert StepAt(t, line, h, cursor) == (if found.None? then Err(SegmentNotFound(segment)) else Ok((found.value + |segment|, ReadValue(line, SliceFrom(t, h.end), found.value + |segment|))));
  }

  /** The loop of `parse_template` run over the matches `hs`, in order. */
  function Scan(t: string, line: string, hs: seq<HoleMatch>): Result<Scanned, TemplateError>
    decreases |hs|
  {
    if |hs| == 0 then Ok(Scanned(0, []))
    else Advance(t, line, Scan(t, line, hs[..|hs| - 1]), hs[|hs| - 1])
  }

  /** The turn for `hs[k]` when its segment is found at `pos`. */
  lemma ScanTurnFound(t: string, line: string, hs: seq<HoleMatch>, k: nat, cursor: nat, acc: Dict<Option<string>>, pos: nat)
    returns (c: nat, v: Option<string>)
    requires k < |hs| && Scan(t, line, hs[..k]) == Ok(Scanned(cursor, acc))
    requires Find(line, Segment(t, hs[k], cursor), cursor) == Some(pos)
    ensures c == pos + |Segment(t, hs[k], cursor)| && v == ReadValue(line, SliceFrom(t, hs[k].end), c)
    ensures Scan(t, line, hs[..k + 1]) == Ok(Scanned(c, Put(acc, hs[k].name, v)))
  {
    c, v := AdvanceFound(t, line, cursor, acc, hs[k], pos);
    ScanPrefixTurn(t, line, hs, k);
  }

  /** The loop over the first `k + 1` matches is one more turn after the first `k`. */
  lemma ScanPrefixTurn(t: string, line: string, hs: seq<HoleMatch>, k: nat)
    requires k < |hs|
    ensures Scan(t, line, hs[..k + 1]) == Advance(t, line, Scan(t, line, hs[..k]), hs[k])
  {
    assert hs[..k + 1][..k] == hs[..k];
  }

  /** The turn for `hs[k]` when its segment is missing. */
  lemma ScanTurnMissing(t: string, line: string, hs: seq<HoleMatch>, k: nat, cursor: nat, acc: Dict<Option<string>>)
    requires k < |hs| && Scan(t, line, hs[..k]) == Ok(Scanned(cursor, acc))
    requires Find(line, Segment(t, hs[k], cursor), cursor).None?
    ensures Scan(t, line, hs[..k + 1]) == Err(SegmentNotFound(Segment(t, hs[k], cursor)))
  {
    AdvanceMissing(t, line, cursor, acc, hs[k]);
    ScanPrefixTurn(t, line, hs, k);
  }

  /** `parse_template(template, line)` */
  function ParseTemplateOf(template: EnvSubst.Value, line: string): Result<Dict<Option<string>>, TemplateError> {
    if !template.Str? then Err(NotAString)
    else ScanResult(template.s, line, Holes(template.s))
  }

  /** What `parse_template` returns once the matches `hs` of the template `t` are known. */
  function ScanResult(t: string, line: string, hs: seq<HoleMatch>): Result<Dict<Option<string>>, TemplateError> {
    if |hs| == 0 then Ok([])
    else match Scan(t, line, hs)
      case Err(e) => Err(e)
      case Ok(st) => Ok(st.acc)
  }

  method ParseTemplate(template: EnvSubst.Value, line: string) returns (r: Result<Dict<Option<string>>, TemplateError>)
    ensures !template.Str? ==> r == Err(NotAString)
    ensures template.Str? && Holes(template.s) == [] ==> r == Ok([])
    ensures r == ParseTemplateOf(template, line)
  {
    if !template.Str? {
      return Err(NotAString);
    }
    var t := template.s;
    var matches := Holes(t);
    if |matches| == 0 {
      return Ok([]);
    }
    var result: Dict<Option<string>> := [];
    var matchStart: nat := 0;
    for k := 0 to |matches|
      invariant Scan(t, line, matches[..k]) == Ok(Scanned(matchStart, result))
    {
      var vm := matches[k];
      var segment := Segment(t, vm, matchStart);
      var matchEnd := Find(line, segment, matchStart);
      if matchEnd.None? {
        ScanTurnMissing(t, line, matches, k, matchStart, result);
        ScanStopsAtError(t, line, matches, k + 1);
        return Err(SegmentNotFound(segment));
      }
      ghost var c, next := ScanTurnFound(t, line, matches, k, matchStart, result, matchEnd.value);
      ghost var done := Put(result, vm.name, next);
      matchStart := matchEnd.value + |segment|;
      assert matchStart == c;
      ReadValueCases(line, SliceFrom(t, vm.end), matchStart, next);
      if matchStart < |line| {
        var value := ValueText(line, SliceFrom(t, vm.end), matchStart);
        assert Some(Strip(value)) == next;
        result := Put(result, vm.name, Some(Strip(value)));
      } else {
        assert next == None;
        result := Put(result, vm.name, None);
      }
      assert result == done;
    }
    assert matches[..|matches|] == matches;
    return Ok(result);
  }

  /** Once a turn raises, the whole loop raises the same error. */
  lemma {:induction false} ScanStopsAtError(t: string, line: string, hs: seq<HoleMatch>, k: nat)
    requires k <= |hs| && Scan(t, line, hs[..k]).Err?
    ensures Scan(t, line, hs) == Scan(t, line, hs[..k])
    decreases |hs| - k
  {
    if k < |hs| {
      assert hs[..k + 1][..k] == hs[..k];
      ScanStopsAtError(t, line, hs, k + 1);
    } else {
      assert hs[..k] == hs;
    }
  }

  function NamesFrom(hs: seq<HoleMatch>, k: nat): set<string> {
    set i | k <= i < |hs| :: hs[i].name
  }

  lemma NamesFromSnoc(hs: seq<HoleMatch>)
    requires |hs| > 0
    ensures NamesFrom(hs, 0) == NamesFrom(hs[..|hs| - 1], 0) + {hs[|hs| - 1].name}
  {
    var init := hs[..|hs| - 1];
    forall n | n in NamesFrom(hs, 0) ensures n in NamesFrom(init, 0) + {hs[|hs| - 1].name} {
      var i :| 0 <= i < |hs| && hs[i].name == n;
      if i < |hs| - 1 { assert init[i] == hs[i]; }
    }
    forall n | n in NamesFrom(init, 0) ensures n in NamesFrom(hs, 0) {
      var i :| 0 <= i < |init| && init[i].name == n;
      assert hs[i] == init[i];
    }
  }

  /** Every value is `None` or already stripped. */
  predicate StrippedValues(d: Dict<Option<string>>) {
    forall i | 0 <= i < |d| :: d[i].1.Some? ==> Stripped(d[i].1.value)
  }

  /** A successful result binds exactly `names`, each once, to stripped values. */
  predicate BindsStripped(r: Result<Dict<Option<string>>, TemplateError>, names: set<string>) {
    r.Ok? ==> KeySet(r.value) == names && UniqueKeys(r.value) && StrippedValues(r.value)
  }

  /** One step of the loop keeps the dictionary's keys distinct and its values stripped,
      and adds the name to its keys. */
  lemma PutStripped(acc: Dict<Option<string>>, names: set<string>, name: string, value: Option<string>)
    requires BindsStripped(Ok(acc), names)
    requires value.Some? ==> Stripped(value.value)
    ensures BindsStripped(Ok(Put(acc, name, value)), names + {name})
  {
    PutKeepsUniqueKeys(acc, name, value);
    PutPairs(acc, name, value);
    PutKeySet(acc, name, value);
  }

  lemma {:induction false} ScanKeys(t: string, line: string, hs: seq<HoleMatch>)
    ensures Scan(t, line, hs).Ok? ==> BindsStripped(Ok(Scan(t, line, hs).value.acc), NamesFrom(hs, 0))
    decreases |hs|
  {
    if |hs| > 0 {
      var init := hs[..|hs| - 1];
      var h := hs[|hs| - 1];
      ScanKeys(t, line, init);
      var st := Scan(t, line, init);
      assert Scan(t, line, hs) == Advance(t, line, st, h);
      if st.Ok? && StepAt(t, line, h, st.value.cursor).Ok? {
        var step := StepAt(t, line, h, st.value.cursor).value;
        assert Scan(t, line, hs) == Ok(Scanned(step.0, Put(st.value.acc, h.name, step.1)));
        PutStripped(st.value.acc, NamesFrom(init, 0), h.name, step.1);
        NamesFromSnoc(hs);
      }
    } else {
      assert NamesFrom(hs, 0) == {};
    }
  }

  /** On success, the keys are exactly the placeholder names of the template, each once,
      and every value is `None` or a stripped string. */
  lemma ParseTemplateKeys(template: EnvSubst.Value, line: string)
    ensures ParseTemplateOf(template, line).Ok? ==> template.Str?
    ensures template.Str? ==> BindsStripped(ParseTemplateOf(template, line), NamesFrom(Holes(template.s), 0))
  {
    if template.Str? && |Holes(template.s)| > 0 {
      ScanKeys(template.s, line, Holes(template.s));
    }
  }

  /** No `{` in `t[p..q]`: finditer passes over that stretch. */
  lemma {:induction false} HolesSkipPlain(t: string, p: nat, q: nat)
    requires p <= q <= |t| && forall j | p <= j < q :: t[j] != '{'
    ensures HolesFrom(t, p) == HolesFrom(t, q)
    decreases q - p
  {
    if p < q {
      HolesSkipPlain(t, p + 1, q);
    }
  }

  /** A stretch `u` of the template without `{` holds no match. */
  lemma {:induction false} PlainStretch(t: string, p: nat, u: string)
    requires p + |u| <= |t| && t[p..p + |u|] == u && '{' !in u
    ensures HolesFrom(t, p) == HolesFrom(t, p + |u|)
  {
    forall j | p <= j < p + |u| ensures t[j] != '{' {
      assert t[j] == u[j - p];
    }
    HolesSkipPlain(t, p, p + |u|);
  }

  /** A `{x}` at `p` in the template is a match. */
  lemma HoleAt(t: string, p: nat, x: string)
    requires p + |x| + 2 <= |t| && t[p] == '{' && t[p + 1..p + |x| + 1] == x && t[p + |x| + 1] == '}'
    requires Paths.NoBraces(x) && |x| > 0
    ensures HolesFrom(t, p) == [HoleMatch(p, p + |x| + 2, x)] + HolesFrom(t, p + |x| + 2)
  {
    var q := p + |x| + 1;
    forall j | p + 1 <= j < q ensures t[j] != '}' {
      assert t[j] == t[p + 1..q][j - p - 1];
    }
    CloseFromIs(t, p + 1, q);
    assert CloseAt(t, p) == Some(q);
  }

  /** The text of one piece of a template. */
  function PieceText(piece: Paths.Piece): string {
    if piece.Lit? then piece.text else "{" + piece.name + "}"
  }

  /** A piece finditer reads as intended: literal text without `{`, or a placeholder whose
      name is not empty and holds no brace. */
  predicate PieceOk(piece: Paths.Piece) {
    if piece.Lit? then '{' !in piece.text else Paths.NoBraces(piece.name) && |piece.name| > 0
  }

  predicate Matchable(ps: seq<Paths.Piece>) {
    forall i | 0 <= i < |ps| :: PieceOk(ps[i])
  }

  /** The match a piece placed at offset `p` should give: none for literal text. */
  function PieceMatch(piece: Paths.Piece, p: nat): seq<HoleMatch> {
    if piece.Lit? then [] else [HoleMatch(p, p + |piece.name| + 2, piece.name)]
  }

  /** The matches the pieces `ps` should give, placed from offset `p` on. */
  function PieceMatches(ps: seq<Paths.Piece>, p: nat): seq<HoleMatch>
    decreases |ps|
  {
    if |ps| == 0 then []
    else PieceMatch(ps[0], p) + PieceMatches(ps[1..], p + |PieceText(ps[0])|)
  }

  /** finditer, run from `p` on, finds exactly `hs`. */
  predicate FindsFrom(t: string, p: nat, hs: seq<HoleMatch>) {
    p <= |t| && HolesFrom(t, p) == hs
  }

  /** A piece placed at `p` gives its own match, and finditer resumes right after it. */
  lemma FirstPiece(t: string, p: nat, piece: Paths.Piece, rest: seq<HoleMatch>, q: nat)
    requires PieceOk(piece) && q == p + |PieceText(piece)|
    requires q <= |t| && t[p..q] == PieceText(piece)
    requires FindsFrom(t, q, rest)
    ensures FindsFrom(t, p, PieceMatch(piece, p) + rest)
  {
    var u := PieceText(piece);
    if piece.Lit? {
      PlainStretch(t, p, u);
      assert [] + rest == rest;
    } else {
      var x := piece.name;
      PlacedHole(t, p, x, q);
      HoleAt(t, p, x);
    }
  }

  lemma SliceOfSlice(t: string, p: nat, q: nat, i: nat, j: nat)
    requires p <= q <= |t| && i <= j <= q - p
    ensures t[p..q][i..j] == t[p + i..p + j]
  {
    assert forall k | 0 <= k < j - i :: t[p..q][i..j][k] == t[p + i + k] == t[p + i..p + j][k];
  }

  /** The text `{x}` placed at `p`, character by character. */
  lemma PlacedHole(t: string, p: nat, x: string, q: nat)
    requires q == p + |x| + 2 && q <= |t| && t[p..q] == "{" + x + "}"
    ensures t[p] == '{' && t[p + 1..p + |x| + 1] == x && t[p + |x| + 1] == '}'
  {
    var u := "{" + x + "}";
    assert t[p] == t[p..q][0] == u[0];
    assert u[1..|x| + 1] == x;
    SliceOfSlice(t, p, q, 1, |x| + 1);
    assert t[p + |x| + 1] == t[p..q][|x| + 1] == u[|x| + 1];
  }

  /** Where the rest of a template, from `p` on, is assembled from well-formed pieces,
      finditer finds exactly their placeholders, in order, at the places they were put. */
  lemma {:induction false} HolesOfPieces(t: string, p: nat, ps: seq<Paths.Piece>)
    requires p <= |t| && t[p..] == Paths.Assemble(ps) && Matchable(ps)
    ensures FindsFrom(t, p, PieceMatches(ps, p))
    decreases |ps|
  {
    if |ps| > 0 {
      var q := p + |PieceText(ps[0])|;
      FirstPieceSplit(t, p, ps, q);
      HolesOfPieces(t, q, ps[1..]);
      FirstPieceFound(t, p, ps, q);
    } else {
      NoPiecesNoHoles(t, p, ps);
    }
  }

  /** Where nothing is assembled from `p` on, finditer finds nothing there. */
  lemma NoPiecesNoHoles(t: string, p: nat, ps: seq<Paths.Piece>)
    requires p <= |t| && t[p..] == Paths.Assemble(ps) && |ps| == 0
    ensures FindsFrom(t, p, PieceMatches(ps, p))
  {
    assert |t[p..]| == 0;
  }

  /** The step of `HolesOfPieces`: the first piece's match, then those of the rest. */
  lemma FirstPieceFound(t: string, p: nat, ps: seq<Paths.Piece>, q: nat)
    requires |ps| > 0 && PieceOk(ps[0]) && q == p + |PieceText(ps[0])|
    requires q <= |t| && t[p..q] == PieceText(ps[0])
    requires FindsFrom(t, q, PieceMatches(ps[1..], q))
    ensures FindsFrom(t, p, PieceMatches(ps, p))
  {
    PieceMatchesCons(ps, p, q);
    FirstPiece(t, p, ps[0], PieceMatches(ps[1..], q), q);
  }


  /** The first piece of an assembled rest of a template, and the pieces after it. */
  lemma FirstPieceSplit(t: string, p: nat, ps: seq<Paths.Piece>, q: nat)
    requires p <= |t| && t[p..] == Paths.Assemble(ps) && Matchable(ps) && |ps| > 0
    requires q == p + |PieceText(ps[0])|
    ensures q <= |t| && t[p..q] == PieceText(ps[0]) && t[q..] == Paths.Assemble(ps[1..])
    ensures PieceOk(ps[0]) && Matchable(ps[1..])
  {
    assert ps == [ps[0]] + ps[1..];
    AssembleCons(ps[0], ps[1..]);
    SplitSuffix(t, p, PieceText(ps[0]), Paths.Assemble(ps[1..]), q);
    assert PieceOk(ps[0]);
    assert Matchable(ps[1..]) by {
      forall i | 0 <= i < |ps| - 1 ensures ps[1..][i] == ps[i + 1] { }
    }
  }

  /** The matches of the pieces: those of the first, then those of the rest after it. */
  lemma PieceMatchesCons(ps: seq<Paths.Piece>, p: nat, q: nat)
    requires |ps| > 0 && q == p + |PieceText(ps[0])|
    ensures PieceMatches(ps, p) == PieceMatch(ps[0], p) + PieceMatches(ps[1..], q)
  {
  }

  /** Where the text from `p` on is `a + b`, `a` lies at `p` and `b` follows it. */
  lemma SplitSuffix(t: string, p: nat, a: string, b: string, q: nat)
    requires p <= |t| && t[p..] == a + b && q == p + |a|
    ensures q <= |t| && t[p..q] == a && t[q..] == b
  {
    assert t[p..][..q - p] == t[p..q] && t[p..][q - p..] == t[q..];
  }

  /** A template assembled from well-formed pieces: finditer finds exactly their
      placeholders, in order, at the places they were put. */
  lemma HolesOfAssembled(ps: seq<Paths.Piece>)
    requires Matchable(ps)
    ensures Holes(Paths.Assemble(ps)) == PieceMatches(ps, 0)
  {
    var t := Paths.Assemble(ps);
    assert t[0..] == t;
    HolesOfPieces(t, 0, ps);
  }

  /** The text of a piece put in front of others. */
  lemma AssembleCons(piece: Paths.Piece, ps: seq<Paths.Piece>)
    ensures Paths.Assemble([piece] + ps) == PieceText(piece) + Paths.Assemble(ps)
  {
    assert ([piece] + ps)[1..] == ps;
  }

  /** Literal text in front of other pieces adds no match and shifts theirs. */
  lemma MatchesLit(text: string, ps: seq<Paths.Piece>, p: nat)
    ensures PieceMatches([Paths.Lit(text)] + ps, p) == PieceMatches(ps, p + |text|)
  {
    assert ([Paths.Lit(text)] + ps)[1..] == ps;
  }

  /** A placeholder in front of other pieces is the first match. */
  lemma MatchesHole(x: string, ps: seq<Paths.Piece>, p: nat)
    ensures PieceMatches([Paths.Hole(x)] + ps, p) == [HoleMatch(p, p + |x| + 2, x)] + PieceMatches(ps, p + |x| + 2)
  {
    assert ([Paths.Hole(x)] + ps)[1..] == ps;
  }

  lemma MatchableCons(piece: Paths.Piece, ps: seq<Paths.Piece>)
    requires PieceOk(piece) && Matchable(ps)
    ensures Matchable([piece] + ps)
  {
    forall i | 0 <= i < |ps| + 1 ensures PieceOk(([piece] + ps)[i]) {
      if i > 0 { assert ([piece] + ps)[i] == ps[i - 1]; }
    }
  }

  /** The template `P{x}S`, with no other `{` in it, has exactly one match. */
  lemma OneHole(pre: string, x: string, suf: string)
    requires '{' !in pre && '{' !in suf && Paths.NoBraces(x) && |x| > 0
    ensures Holes(pre + "{" + x + "}" + suf) == [HoleMatch(|pre|, |pre| + |x| + 2, x)]
  {
    var ps := [Paths.Lit(pre), Paths.Hole(x), Paths.Lit(suf)];
    forall i | 0 <= i < 3 ensures PieceOk(ps[i]) { }
    OneHolePiecesText(pre, x, suf);
    OneHolePiecesMatches(pre, x, suf, 0);
    HolesOfAssembled(ps);
  }

  /** The text of the pieces of `P{x}S`. */
  lemma OneHolePiecesText(pre: string, x: string, suf: string)
    ensures Paths.Assemble([Paths.Lit(pre), Paths.Hole(x), Paths.Lit(suf)]) == pre + "{" + x + "}" + suf
  {
    var ps3 := [Paths.Lit(suf)];
    var ps2 := [Paths.Hole(x)] + ps3;
    assert ps3 == [Paths.Lit(suf)] + [];
    assert [Paths.Lit(pre)] + ps2 == [Paths.Lit(pre), Paths.Hole(x), Paths.Lit(suf)];
    AssembleCons(Paths.Lit(suf), []);
    AssembleCons(Paths.Hole(x), ps3);
    AssembleCons(Paths.Lit(pre), ps2);
    assert pre + ("{" + x + "}" + (suf + "")) == pre + "{" + x + "}" + suf;
  }

  /** The matches the pieces of `P{x}S` should give, placed at offset `p`. */
  lemma OneHolePiecesMatches(pre: string, x: string, suf: string, p: nat)
    ensures PieceMatches([Paths.Lit(pre), Paths.Hole(x), Paths.Lit(suf)], p) == [HoleMatch(p + |pre|, p + |pre| + |x| + 2, x)]
  {
    var ps3 := [Paths.Lit(suf)];
    var ps2 := [Paths.Hole(x)] + ps3;
    assert ps3 == [Paths.Lit(suf)] + [];
    assert [Paths.Lit(pre)] + ps2 == [Paths.Lit(pre), Paths.Hole(x), Paths.Lit(suf)];
    MatchesLit(suf, [], p + |pre| + |x| + 2);
    MatchesHole(x, ps3, p + |pre|);
    MatchesLit(pre, ps2, p);
  }

  /** The loop over the single match `h`: the cursor moves past the text before `h` and
      the result binds `h`'s name to the value `v` read there. */
  lemma ScanOne(t: string, line: string, h: HoleMatch, pos: nat, v: Option<string>)
    requires Find(line, Segment(t, h, 0), 0) == Some(pos)
    requires v == ReadValue(line, SliceFrom(t, h.end), pos + |Segment(t, h, 0)|)
    ensures Scan(t, line, [h]) == Ok(Scanned(pos + |Segment(t, h, 0)|, [(h.name, v)]))
  {
    assert [h][..0] == [];
    assert Scan(t, line, [h]) == Advance(t, line, Ok(Scanned(0, [])), h);
    var c, w := AdvanceFound(t, line, 0, [], h, pos);
    PutEmpty(h.name, v);
  }

  /** A template whose only match is `h` binds its name to the value read just after the
      first occurrence of the text before `h`. */
  lemma ParseSingleMatch(t: string, line: string, h: HoleMatch, pos: nat, v: Option<string>)
    requires Find(line, Segment(t, h, 0), 0) == Some(pos)
    requires v == ReadValue(line, SliceFrom(t, h.end), pos + |Segment(t, h, 0)|)
    ensures ScanResult(t, line, [h]) == Ok([(h.name, v)])
  {
    ScanOne(t, line, h, pos, v);
  }

  /** With one placeholder the result binds its name to what is read just after `P`. */
  lemma OneHoleParse(pre: string, x: string, suf: string, line: string)
    requires '{' !in pre && '{' !in suf && Paths.NoBraces(x) && |x| > 0
    requires StartsWith(line, pre)
    ensures ParseTemplateOf(EnvSubst.Str(pre + "{" + x + "}" + suf), line) == Ok([(x, ReadValue(line, suf, |pre|))])
  {
    var t, h := OneHoleSlices(pre, x, suf);
    OneHole(pre, x, suf);
    ParseOnlyMatch(t, h, pre, suf, line);
  }

  /** The template `P{x}S`, its one match, and the texts before and after that match. */
  lemma OneHoleSlices(pre: string, x: string, suf: string) returns (t: string, h: HoleMatch)
    ensures t == pre + "{" + x + "}" + suf && h == HoleMatch(|pre|, |pre| + |x| + 2, x)
    ensures Segment(t, h, 0) == pre && SliceFrom(t, h.end) == suf
  {
    t := pre + "{" + x + "}" + suf;
    h := HoleMatch(|pre|, |pre| + |x| + 2, x);
    assert t[..|pre|] == pre;
    assert t[h.end..] == suf;
  }

  /** A template whose only match has the text `P` before it and `S` after it binds the
      match's name to what is read after `P` at the start of a line that starts with `P`. */
  lemma ParseOnlyMatch(t: string, h: HoleMatch, pre: string, suf: string, line: string)
    requires Holes(t) == [h] && Segment(t, h, 0) == pre && SliceFrom(t, h.end) == suf
    requires StartsWith(line, pre)
    ensures ParseTemplateOf(EnvSubst.Str(t), line) == Ok([(h.name, ReadValue(line, suf, |pre|))])
  {
    FindIs(line, pre, 0, 0);
    ParseSingleMatch(t, line, h, 0, ReadValue(line, suf, |pre|));
  }

  /** Reading after `P` in the line `P + v + S`, when `S` does not start inside `v`, gives
      `v` stripped, or `None` when nothing follows `P`. */
  lemma ReadBetween(pre: string, v: string, suf: string)
    requires forall j | |pre| <= j < |pre| + |v| :: !OccursAt(pre + v + suf, suf, j)
    ensures ReadValue(pre + v + suf, suf, |pre|) == if |v| + |suf| > 0 then Some(Strip(v)) else None
  {
    var line := pre + v + suf;
    if |v| + |suf| > 0 {
      OccursAfter(pre + v, suf);
      FindIs(line, suf, |pre|, |pre| + |v|);
      assert line[|pre|..|pre| + |v|] == v;
      assert ValueText(line, suf, |pre|) == v;
    }
  }

  /** Round trip for one placeholder: from the line `P + v + S` the template `P{x}S` reads
      back `v`, stripped, provided `S` does not start anywhere inside `v`; `None` when
      nothing follows `P`. */
  lemma SinglePlaceholderRoundTrip(pre: string, x: string, suf: string, v: string)
    requires '{' !in pre && '{' !in suf && Paths.NoBraces(x) && |x| > 0
    requires forall j | |pre| <= j < |pre| + |v| :: !OccursAt(pre + v + suf, suf, j)
    ensures ParseTemplateOf(EnvSubst.Str(pre + "{" + x + "}" + suf), pre + v + suf)
      == Ok([(x, if |v| + |suf| > 0 then Some(Strip(v)) else None)])
  {
    ReadBetween(pre, v, suf);
    assert (pre + v + suf)[..|pre|] == pre;
    OneHoleParse(pre, x, suf, pre + v + suf);
  }

  /** When the rest of the template `S` occurs right at the cursor, the value read is `""`,
      or `None` when the line is just `P`. */
  lemma ReadSuffixAtCursor(pre: string, w: string, suf: string)
    requires StartsWith(w, suf)
    ensures ReadValue(pre + w, suf, |pre|) == if |w| > 0 then Some("") else None
  {
    if |w| > 0 {
      assert (pre + w)[|pre|..|pre| + |suf|] == w[..|suf|];
      FindIs(pre + w, suf, |pre|, |pre|);
      assert ValueText(pre + w, suf, |pre|) == "";
      assert LStrip("") == "";
    }
  }

  /** A placeholder that ends the template reads `""`: the empty rest of the template is
      found right at the cursor. It reads `None` when the line ends with `P`. */
  lemma TrailingPlaceholderCapturesEmpty(pre: string, x: string, w: string)
    requires '{' !in pre && Paths.NoBraces(x) && |x| > 0
    ensures ParseTemplateOf(EnvSubst.Str(pre + "{" + x + "}"), pre + w)
      == Ok([(x, if |w| > 0 then Some("") else None)])
  {
    assert StartsWith(w, "");
    ReadSuffixAtCursor(pre, w, "");
    assert (pre + w)[..|pre|] == pre;
    assert pre + "{" + x + "}" + "" == pre + "{" + x + "}";
    OneHoleParse(pre, x, "", pre + w);
  }

  /** Rendering `P{x}S` with `x = v` gives the line `P + v + S`. */
  lemma {:induction false} RenderOneHole(pre: string, x: string, suf: string, v: string)
    requires '{' !in pre && '{' !in suf && Paths.NoBraces(x)
    ensures Paths.Rendered(pre + "{" + x + "}" + suf, [(x, v)]) == pre + v + suf
  {
    var pat := "{" + x + "}";
    assert pre + "{" + x + "}" + suf == pre + (pat + suf);
    Paths.ReplaceSkipsPlain(pre, pat + suf, x, v);
    Paths.ReplaceAtHole(x, suf, x, v);
    Paths.HoleAbsent(suf, x);
    ReplaceAbsent(suf, pat, v);
    assert Paths.Rendered(pre + (pat + suf), [(x, v)]) == ReplaceAll(pre + (pat + suf), pat, v);
  }

  /** Render then match, for one placeholder: a stripped value comes back unchanged. */
  lemma {:induction false} RenderThenParse(pre: string, x: string, suf: string, v: string)
    requires '{' !in pre && '{' !in suf && Paths.NoBraces(x) && |x| > 0
    requires Strip(v) == v && |v| + |suf| > 0
    requires forall j | |pre| <= j < |pre| + |v| :: !OccursAt(pre + v + suf, suf, j)
    ensures var t := pre + "{" + x + "}" + suf;
      ParseTemplateOf(EnvSubst.Str(t), Paths.Rendered(t, [(x, v)])) == Ok([(x, Some(v))])
  {
    RenderOneHole(pre, x, suf, v);
    SinglePlaceholderRoundTrip(pre, x, suf, v);
  }

  /** The value stops at the first place the rest of the template `S` occurs, even when
      that occurrence starts where the value should: for `{x}aa` against `aaa` the value
      is `""`, not `"a"`. */
  lemma SuffixAtCursorCapturesEmpty(pre: string, x: string, suf: string, w: string)
    requires '{' !in pre && '{' !in suf && Paths.NoBraces(x) && |x| > 0
    requires StartsWith(w, suf) && |w| > 0
    ensures ParseTemplateOf(EnvSubst.Str(pre + "{" + x + "}" + suf), pre + w) == Ok([(x, Some(""))])
  {
    ReadSuffixAtCursor(pre, w, suf);
    assert (pre + w)[..|pre|] == pre;
    OneHoleParse(pre, x, suf, pre + w);
  }

  /** A segment that starts with `{` is not found in a line without `{`. */
  lemma {:induction false} BraceSegmentMissing(line: string, seg: string, k: nat)
    requires '{' !in line && |seg| > 0 && seg[0] == '{'
    ensures Find(line, seg, k).None?
  {
    forall j | k <= j ensures !OccursAt(line, seg, j) {
      if j + |seg| <= |line| {
        assert line[j..j + |seg|][0] == line[j];
      }
    }
    FindFirst(line, seg, k);
  }

  /** The pieces of the template `A{x}B{y}C`. */
  function TwoHolePieces(a: string, x: string, b: string, y: string, c: string): seq<Paths.Piece> {
    [Paths.Lit(a), Paths.Hole(x), Paths.Lit(b), Paths.Hole(y), Paths.Lit(c)]
  }

  /** The pieces of `A{x}B{y}C` are well formed. */
  lemma TwoHolePiecesOk(a: string, x: string, b: string, y: string, c: string)
    requires '{' !in a && '{' !in b && '{' !in c
    requires Paths.NoBraces(x) && |x| > 0 && Paths.NoBraces(y) && |y| > 0
    ensures Matchable(TwoHolePieces(a, x, b, y, c))
  {
    var ps := TwoHolePieces(a, x, b, y, c);
    forall i | 0 <= i < 5 ensures PieceOk(ps[i]) { }
  }

  /** The text of the pieces of `A{x}B{y}C`. */
  lemma TwoHolePiecesText(a: string, x: string, b: string, y: string, c: string)
    ensures Paths.Assemble(TwoHolePieces(a, x, b, y, c)) == a + ("{" + x + "}" + (b + ("{" + y + "}" + (c + ""))))
  {
    var ps5 := [Paths.Lit(c)];
    var ps4 := [Paths.Hole(y)] + ps5;
    var ps3 := [Paths.Lit(b)] + ps4;
    var ps2 := [Paths.Hole(x)] + ps3;
    var ps1 := [Paths.Lit(a)] + ps2;
    assert ps5 == [Paths.Lit(c)] + [];
    assert ps1 == TwoHolePieces(a, x, b, y, c);
    AssembleCons(Paths.Lit(c), []);
    AssembleCons(Paths.Hole(y), ps5);
    AssembleCons(Paths.Lit(b), ps4);
    AssembleCons(Paths.Hole(x), ps3);
    AssembleCons(Paths.Lit(a), ps2);
  }

  /** The matches the pieces of `A{x}B{y}C` should give. */
  lemma TwoHolePiecesMatches(a: string, x: string, b: string, y: string, c: string)
    ensures var s2 := |a| + |x| + 2 + |b|;
      PieceMatches(TwoHolePieces(a, x, b, y, c), 0) == [HoleMatch(|a|, |a| + |x| + 2, x), HoleMatch(s2, s2 + |y| + 2, y)]
  {
    var ps3 := [Paths.Lit(b), Paths.Hole(y), Paths.Lit(c)];
    var ps2 := [Paths.Hole(x)] + ps3;
    assert [Paths.Lit(a)] + ps2 == TwoHolePieces(a, x, b, y, c);
    OneHolePiecesMatches(b, y, c, |a| + |x| + 2);
    MatchesHole(x, ps3, |a|);
    MatchesLit(a, ps2, 0);
  }

  /** Regrouping the text of `A{x}B{y}C`. */
  lemma TwoHoleRegroup(a: string, x: string, b: string, y: string, c: string)
    ensures a + ("{" + x + "}" + (b + ("{" + y + "}" + (c + "")))) == a + "{" + x + "}" + b + "{" + y + "}" + c
  {
  }

  /** The template `A{x}B{y}C`, with no other `{`, has exactly two matches. */
  lemma TwoHoles(a: string, x: string, b: string, y: string, c: string)
    requires '{' !in a && '{' !in b && '{' !in c
    requires Paths.NoBraces(x) && |x| > 0 && Paths.NoBraces(y) && |y| > 0
    ensures var t, s2 := a + "{" + x + "}" + b + "{" + y + "}" + c, |a| + |x| + 2 + |b|;
      Holes(t) == [HoleMatch(|a|, |a| + |x| + 2, x), HoleMatch(s2, s2 + |y| + 2, y)]
  {
    var ps := TwoHolePieces(a, x, b, y, c);
    TwoHolePiecesOk(a, x, b, y, c);
    TwoHolePiecesText(a, x, b, y, c);
    TwoHolePiecesMatches(a, x, b, y, c);
    TwoHoleRegroup(a, x, b, y, c);
    HolesOfAssembled(ps);
  }

  /** Two matches `h1`, `h2`: when the text before `h1` is found but the second segment
      is not, the loop raises for the second segment. */
  lemma ScanTwoMissing(t: string, line: string, h1: HoleMatch, h2: HoleMatch, pos: nat, c: nat)
    requires Find(line, Segment(t, h1, 0), 0) == Some(pos) && c == pos + |Segment(t, h1, 0)|
    requires Find(line, Segment(t, h2, c), c).None?
    ensures ScanResult(t, line, [h1, h2]) == Err(SegmentNotFound(Segment(t, h2, c)))
  {
    var v := ReadValue(line, SliceFrom(t, h1.end), pos + |Segment(t, h1, 0)|);
    ScanOne(t, line, h1, pos, v);
    SecondMissing(t, line, h1, h2, pos + |Segment(t, h1, 0)|, [(h1.name, v)]);
  }

  /** After a first turn that left the cursor at `c`, a second segment missing from `c`
      on makes the loop raise for it. */
  lemma SecondMissing(t: string, line: string, h1: HoleMatch, h2: HoleMatch, c: nat, acc: Dict<Option<string>>)
    requires Scan(t, line, [h1]) == Ok(Scanned(c, acc))
    requires Find(line, Segment(t, h2, c), c).None?
    ensures ScanResult(t, line, [h1, h2]) == Err(SegmentNotFound(Segment(t, h2, c)))
  {
    ScanSnoc(t, line, [h1], h2);
    assert [h1] + [h2] == [h1, h2];
    AdvanceMissing(t, line, c, acc, h2);
  }

  /** The loop over `hs + [h]` is one more turn after the loop over `hs`. */
  lemma ScanSnoc(t: string, line: string, hs: seq<HoleMatch>, h: HoleMatch)
    ensures Scan(t, line, hs + [h]) == Advance(t, line, Scan(t, line, hs), h)
  {
    assert (hs + [h])[..|hs|] == hs;
  }

  /** A turn whose segment is missing raises for that segment. */
  lemma AdvanceMissing(t: string, line: string, cursor: nat, acc: Dict<Option<string>>, h: HoleMatch)
    requires Find(line, Segment(t, h, cursor), cursor).None?
    ensures Advance(t, line, Ok(Scanned(cursor, acc)), h) == Err(SegmentNotFound(Segment(t, h, cursor)))
  {
  }

  /** The two segments of `A{x}B{y}C` cut at the cursors `0` and `|A|`. */
  lemma TwoHoleSegments(a: string, x: string, b: string, y: string, c: string)
    ensures var t, s2 := a + "{" + x + "}" + b + "{" + y + "}" + c, |a| + |x| + 2 + |b|;
      && Segment(t, HoleMatch(|a|, |a| + |x| + 2, x), 0) == a
      && Segment(t, HoleMatch(s2, s2 + |y| + 2, y), |a|) == "{" + x + "}" + b
  {
    var t := a + "{" + x + "}" + b + "{" + y + "}" + c;
    var s2 := |a| + |x| + 2 + |b|;
    assert t[..|a|] == a;
    assert t[|a|..s2] == "{" + x + "}" + b;
  }

  /** With two placeholders the second segment is cut from the template at the line's
      cursor, so it starts inside the first placeholder: matching `A{x}B{y}C` against any
      line that starts with `A` and holds no `{` raises, whatever the values. In
      particular the line that rendering the template produces is never matched back. */
  lemma CursorReusedAsTemplateIndex(a: string, x: string, b: string, y: string, c: string, line: string)
    requires '{' !in a && '{' !in b && '{' !in c
    requires Paths.NoBraces(x) && |x| > 0 && Paths.NoBraces(y) && |y| > 0
    requires StartsWith(line, a) && '{' !in line
    ensures ParseTemplateOf(EnvSubst.Str(a + "{" + x + "}" + b + "{" + y + "}" + c), line)
      == Err(SegmentNotFound("{" + x + "}" + b))
  {
    var t := a + "{" + x + "}" + b + "{" + y + "}" + c;
    var s2 := |a| + |x| + 2 + |b|;
    var h1, h2 := HoleMatch(|a|, |a| + |x| + 2, x), HoleMatch(s2, s2 + |y| + 2, y);
    TwoHoles(a, x, b, y, c);
    TwoHoleSegments(a, x, b, y, c);
    FindIs(line, a, 0, 0);
    BraceSegmentMissing(line, "{" + x + "}" + b, |a|);
    ScanTwoMissing(t, line, h1, h2, 0, |a|);
  }

  /** Filling `A{x}B{y}C` with `x = v` and `y = w`, for distinct names. */
  lemma TwoHolesFilled(a: string, x: string, b: string, y: string, c: string, v: string, w: string)
    requires x != y
    ensures Paths.Filled(TwoHolePieces(a, x, b, y, c), [(x, v), (y, w)])
      == [Paths.Lit(a), Paths.Lit(v), Paths.Lit(b), Paths.Lit(w), Paths.Lit(c)]
  {
    var kvs := [(x, v), (y, w)];
    IndexOfIsFirst(kvs, x, 0);
    IndexOfIsFirst(kvs, y, 1);
    assert Get(kvs, x) == Some(v);
    assert Get(kvs, y) == Some(w);
    var ps := TwoHolePieces(a, x, b, y, c);
    var fs := Paths.Filled(ps, kvs);
    assert fs[1] == Paths.Lit(v) && fs[3] == Paths.Lit(w);
    assert fs[0] == ps[0] && fs[2] == ps[2] && fs[4] == ps[4];
  }

  /** The text of five literal pieces. */
  lemma FiveLitsText(a: string, v: string, b: string, w: string, c: string)
    ensures Paths.Assemble([Paths.Lit(a), Paths.Lit(v), Paths.Lit(b), Paths.Lit(w), Paths.Lit(c)]) == a + v + b + w + c
  {
    var ps5 := [Paths.Lit(c)];
    var ps4 := [Paths.Lit(w)] + ps5;
    var ps3 := [Paths.Lit(b)] + ps4;
    var ps2 := [Paths.Lit(v)] + ps3;
    assert ps5 == [Paths.Lit(c)] + [];
    assert [Paths.Lit(a)] + ps2 == [Paths.Lit(a), Paths.Lit(v), Paths.Lit(b), Paths.Lit(w), Paths.Lit(c)];
    AssembleCons(Paths.Lit(c), []);
    AssembleCons(Paths.Lit(w), ps5);
    AssembleCons(Paths.Lit(b), ps4);
    AssembleCons(Paths.Lit(v), ps3);
    AssembleCons(Paths.Lit(a), ps2);
    assert a + (v + (b + (w + (c + "")))) == a + v + b + w + c;
  }

  /** Rendering `A{x}B{y}C` with distinct names gives `A + v + B + w + C`. */
  lemma RenderTwoHoles(a: string, x: string, b: string, y: string, c: string, v: string, w: string)
    requires '{' !in a && '{' !in b && '{' !in c && '{' !in v && '{' !in w
    requires Paths.NoBraces(x) && Paths.NoBraces(y) && x != y
    ensures Paths.Rendered(a + "{" + x + "}" + b + "{" + y + "}" + c, [(x, v), (y, w)]) == a + v + b + w + c
  {
    var ps := TwoHolePieces(a, x, b, y, c);
    var kvs := [(x, v), (y, w)];
    TwoHolePiecesText(a, x, b, y, c);
    TwoHoleRegroup(a, x, b, y, c);
    assert Paths.WellFormed(ps) by {
      forall i | 0 <= i < 5 ensures if ps[i].Lit? then '{' !in ps[i].text else Paths.NoBraces(ps[i].name) { }
    }
    Paths.RenderedFillsHoles(ps, kvs);
    TwoHolesFilled(a, x, b, y, c, v, w);
    FiveLitsText(a, v, b, w, c);
  }

  /** Render then match, for two placeholders: the line rendered from `A{x}B{y}C` is
      never matched back; the second segment is reported missing. */
  lemma RenderThenParseTwoHoles(a: string, x: string, b: string, y: string, c: string, v: string, w: string)
    requires '{' !in a && '{' !in b && '{' !in c && '{' !in v && '{' !in w
    requires Paths.NoBraces(x) && |x| > 0 && Paths.NoBraces(y) && |y| > 0 && x != y
    ensures var t := a + "{" + x + "}" + b + "{" + y + "}" + c;
      ParseTemplateOf(EnvSubst.Str(t), Paths.Rendered(t, [(x, v), (y, w)])) == Err(SegmentNotFound("{" + x + "}" + b))
  {
    var line := a + v + b + w + c;
    RenderTwoHoles(a, x, b, y, c, v, w);
    assert line[..|a|] == a;
    assert '{' !in line;
    CursorReusedAsTemplateIndex(a, x, b, y, c, line);
  }
}
