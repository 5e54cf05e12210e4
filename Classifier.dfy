/**
  The DDL classifiers of the release splitter: `object_type_from_ddl` in file_parser.py
  and its older form in file_parser_old.py. Both run one regular expression of the shape
  `create\s+(alt1|alt2|…)\s+` through `re.search` with `re.IGNORECASE` and normalise the
  group. The expressions they build use only literal characters and `\s+`, so the model
  holds just that much of Python's `re`: a backtracking matcher over literal characters
  (compared ignoring ASCII case) and `\s+` (greedy, giving back one character at a time),
  checked against a reference definition of what each token sequence matches.
*/
module Classifier {
  import opened Wrappers
  import opened Text
  import opened OrderedDict

  // ---------------------------------------------------------------------------
  // The matcher

  /** One element of the expression: a literal character, or `\s+`. */
  datatype Tok = Ch(c: char) | Ws

  /** A literal text as tokens. */
  function Lits(s: string): (r: seq<Tok>)
    ensures |r| == |s| && forall i | 0 <= i < |s| :: r[i] == Ch(s[i])
  {
    seq(|s|, i requires 0 <= i < |s| => Ch(s[i]))
  }

  predicate AllSpace(w: string) {
    forall j | 0 <= j < |w| :: IsSpace(w[j])
  }

  /** Reference definition: the tokens match the whole of `w`. */
  predicate Matches(toks: seq<Tok>, w: string)
    decreases |toks|
  {
    if |toks| == 0 then w == []
    else match toks[0]
      case Ch(c) => |w| > 0 && SameIgnoringCase(w[0], c) && Matches(toks[1..], w[1..])
      case Ws => exists k | 1 <= k <= |w| :: AllSpace(w[..k]) && Matches(toks[1..], w[k..])
  }

  /** The number of whitespace characters from `i` on. */
  function RunLen(s: string, i: nat): (n: nat)
    requires i <= |s|
    ensures i + n <= |s| && (i + n == |s| || !IsSpace(s[i + n]))
    ensures forall j | i <= j < i + n :: IsSpace(s[j])
    decreases |s| - i
  {
    if i < |s| && IsSpace(s[i]) then 1 + RunLen(s, i + 1) else 0
  }

  /** The positions where a match of `toks` starting at `i` can end, in the order the
      backtracking matcher tries them: `\s+` first takes the whole run of whitespace
      and gives back one character at a time. */
  function Ends(toks: seq<Tok>, s: string, i: nat): (r: seq<nat>)
    requires i <= |s|
    ensures forall j | 0 <= j < |r| :: i <= r[j] <= |s|
    decreases |toks|, 1, 0
  {
    if |toks| == 0 then [i]
    else match toks[0]
      case Ch(c) => if i < |s| && SameIgnoringCase(s[i], c) then Ends(toks[1..], s, i + 1) else []
      case Ws => WsEnds(toks[1..], s, i, RunLen(s, i))
  }

  /** The ends of `\s+` followed by `rest` when `\s+` takes `k`, `k - 1`, …, `1` characters. */
  function WsEnds(rest: seq<Tok>, s: string, i: nat, k: nat): (r: seq<nat>)
    requires i + k <= |s|
    ensures forall j | 0 <= j < |r| :: i < r[j] <= |s|
    decreases |rest| + 1, 0, k
  {
    if k == 0 then [] else Ends(rest, s, i + k) + WsEnds(rest, s, i, k - 1)
  }

  /** An end tried for `\s+` and `rest` is an end of `rest` after taking some of the run. */
  lemma {:induction false} WsEndsMember(rest: seq<Tok>, s: string, i: nat, k: nat, e: nat) returns (j: nat)
    requires i + k <= |s| && e in WsEnds(rest, s, i, k)
    ensures 1 <= j <= k && e in Ends(rest, s, i + j)
    decreases k
  {
    if e in Ends(rest, s, i + k) {
      j := k;
    } else {
      j := WsEndsMember(rest, s, i, k - 1, e);
    }
  }

  /** Conversely, every end of `rest` after taking `j` characters of the run is tried. */
  lemma {:induction false} WsEndsHas(rest: seq<Tok>, s: string, i: nat, k: nat, j: nat, e: nat)
    requires i + k <= |s| && 1 <= j <= k && e in Ends(rest, s, i + j)
    ensures e in WsEnds(rest, s, i, k)
    decreases k
  {
    if j < k {
      WsEndsHas(rest, s, i, k - 1, j, e);
    }
  }

  /** Every end the matcher tries is the end of a match. */
  lemma {:induction false} EndsSound(toks: seq<Tok>, s: string, i: nat, e: nat)
    requires i <= |s| && e in Ends(toks, s, i)
    ensures i <= e <= |s| && Matches(toks, s[i..e])
    decreases |toks|
  {
    if |toks| > 0 {
      match toks[0]
      case Ch(c) =>
        EndsSound(toks[1..], s, i + 1, e);
        assert s[i..e][1..] == s[i + 1..e];
      case Ws =>
        var j := WsEndsMember(toks[1..], s, i, RunLen(s, i), e);
        EndsSound(toks[1..], s, i + j, e);
        WsSound(toks, s, i, j, e);
    }
  }

  /** `\s+` taking `j` characters of the run, then a match of the rest. */
  lemma WsSound(toks: seq<Tok>, s: string, i: nat, j: nat, e: nat)
    requires |toks| > 0 && toks[0] == Ws
    requires i + j <= e <= |s| && 1 <= j <= RunLen(s, i) && Matches(toks[1..], s[i + j..e])
    ensures Matches(toks, s[i..e])
  {
    var w := s[i..e];
    assert w[..j] == s[i..i + j];
    assert w[j..] == s[i + j..e];
    assert AllSpace(w[..j]);
  }

  /** Every match is found: its end is among the ends the matcher tries. */
  lemma {:induction false} EndsComplete(toks: seq<Tok>, s: string, i: nat, e: nat)
    requires i <= e <= |s| && Matches(toks, s[i..e])
    ensures e in Ends(toks, s, i)
    decreases |toks|
  {
    var w := s[i..e];
    if |toks| > 0 {
      if toks[0].Ch? {
        assert w[0] == s[i] && w[1..] == s[i + 1..e];
        EndsComplete(toks[1..], s, i + 1, e);
      } else {
        var k :| 1 <= k <= |w| && AllSpace(w[..k]) && Matches(toks[1..], w[k..]);
        assert w[k..] == s[i + k..e];
        assert w[..k] == s[i..i + k];
        EndsComplete(toks[1..], s, i + k, e);
        WsComplete(toks[1..], s, i, k, e);
      }
    }
  }

  /** `\s+` can take any part of the run of whitespace: the ends of `rest` after `k`
      whitespace characters are tried. */
  lemma WsComplete(rest: seq<Tok>, s: string, i: nat, k: nat, e: nat)
    requires 1 <= k && i + k <= |s| && AllSpace(s[i..i + k]) && e in Ends(rest, s, i + k)
    ensures e in WsEnds(rest, s, i, RunLen(s, i))
  {
    WsEndsHas(rest, s, i, RunLen(s, i), k, e);
  }

  // ---------------------------------------------------------------------------
  // `re.search(r'create\s+(alt1|alt2|…)\s+', s, re.IGNORECASE)`

  /** `create\s+` */
  function CreateToks(): seq<Tok> {
    Lits("create") + [Ws]
  }

  /** The first of `ends` that `\s+` can follow. */
  function FirstSpaced(s: string, ends: seq<nat>): (r: Option<nat>)
    ensures r.Some? ==> r.value in ends && r.value < |s| && IsSpace(s[r.value])
    ensures r.None? ==> forall e | e in ends :: !(e < |s| && IsSpace(s[e]))
  {
    if |ends| == 0 then None
    else if ends[0] < |s| && IsSpace(s[ends[0]]) then Some(ends[0])
    else FirstSpaced(s, ends[1..])
  }

  /** The group tried at `g`: the alternatives in order, each followed by `\s+`; the end
      of the group when one succeeds. */
  function FirstAlt(s: string, g: nat, alts: seq<seq<Tok>>): (r: Option<nat>)
    requires g <= |s|
    ensures r.Some? ==> g <= r.value < |s|
  {
    if |alts| == 0 then None
    else match FirstSpaced(s, Ends(alts[0], s, g))
      case Some(e) => Some(e)
      case None => FirstAlt(s, g, alts[1..])
  }

  /** The group tried after each end of `create\s+`, in the order tried. */
  function FirstGroup(s: string, starts: seq<nat>, alts: seq<seq<Tok>>): (r: Option<(nat, nat)>)
    requires forall j | 0 <= j < |starts| :: starts[j] <= |s|
    ensures r.Some? ==> r.value.0 in starts && r.value.0 <= r.value.1 < |s|
  {
    if |starts| == 0 then None
    else match FirstAlt(s, starts[0], alts)
      case Some(e) => Some((starts[0], e))
      case None => FirstGroup(s, starts[1..], alts)
  }

  /** The span of the group when the expression matches at `p`. */
  function GroupAt(s: string, p: nat, alts: seq<seq<Tok>>): (r: Option<(nat, nat)>)
    requires p <= |s|
    ensures r.Some? ==> p <= r.value.0 <= r.value.1 < |s|
  {
    FirstGroup(s, Ends(CreateToks(), s, p), alts)
  }

  /** Reference definition: the expression matches at `p` with the group spanning
      `s[g0..g1]`. */
  predicate MatchAt(s: string, p: nat, alts: seq<seq<Tok>>, g0: nat, g1: nat) {
    && p <= g0 <= g1 < |s|
    && Matches(CreateToks(), s[p..g0])
    && (exists a | a in alts :: Matches(a, s[g0..g1]))
    && IsSpace(s[g1])
  }

  /** The expression matches somewhere from `p` on. */
  ghost predicate MatchesAt(s: string, p: nat, alts: seq<seq<Tok>>) {
    exists g0, g1 :: MatchAt(s, p, alts, g0, g1)
  }

  /** The group the matcher reports at `p` is a match, and it reports one whenever the
      expression matches there. */
  lemma GroupAtCorrect(s: string, p: nat, alts: seq<seq<Tok>>)
    requires p <= |s|
    ensures GroupAt(s, p, alts).Some? ==> MatchAt(s, p, alts, GroupAt(s, p, alts).value.0, GroupAt(s, p, alts).value.1)
    ensures GroupAt(s, p, alts).None? <==> !MatchesAt(s, p, alts)
  {
    var starts := Ends(CreateToks(), s, p);
    match GroupAt(s, p, alts)
    case Some(g) =>
      EndsSound(CreateToks(), s, p, g.0);
      FirstGroupSound(s, starts, alts);
    case None =>
      if MatchesAt(s, p, alts) {
        var g0, g1 :| MatchAt(s, p, alts, g0, g1);
        EndsComplete(CreateToks(), s, p, g0);
        FirstGroupComplete(s, starts, alts, g0, g1);
        assert false;
      }
  }

  lemma {:induction false} FirstGroupSound(s: string, starts: seq<nat>, alts: seq<seq<Tok>>)
    requires forall j | 0 <= j < |starts| :: starts[j] <= |s|
    ensures var r := FirstGroup(s, starts, alts);
      r.Some? ==> IsSpace(s[r.value.1]) && exists a | a in alts :: Matches(a, s[r.value.0..r.value.1])
  {
    if |starts| > 0 {
      if FirstAlt(s, starts[0], alts).Some? {
        FirstAltSound(s, starts[0], alts);
      } else {
        FirstGroupSound(s, starts[1..], alts);
      }
    }
  }

  lemma {:induction false} FirstAltSound(s: string, g: nat, alts: seq<seq<Tok>>)
    requires g <= |s|
    ensures var r := FirstAlt(s, g, alts);
      r.Some? ==> IsSpace(s[r.value]) && exists a | a in alts :: Matches(a, s[g..r.value])
  {
    if |alts| > 0 {
      var f := FirstSpaced(s, Ends(alts[0], s, g));
      if f.Some? {
        EndsSound(alts[0], s, g, f.value);
        assert alts[0] in alts;
      } else {
        FirstAltSound(s, g, alts[1..]);
        var r := FirstAlt(s, g, alts);
        if r.Some? {
          var a :| a in alts[1..] && Matches(a, s[g..r.value]);
          assert a in alts;
        }
      }
    }
  }

  lemma {:induction false} FirstAltComplete(s: string, g: nat, alts: seq<seq<Tok>>, a: seq<Tok>, e: nat)
    requires g <= e < |s| && a in alts && Matches(a, s[g..e]) && IsSpace(s[e])
    ensures FirstAlt(s, g, alts).Some?
  {
    if FirstSpaced(s, Ends(alts[0], s, g)).None? {
      if a == alts[0] {
        EndsComplete(a, s, g, e);
        assert false;
      }
      assert a in alts[1..];
      FirstAltComplete(s, g, alts[1..], a, e);
    }
  }

  lemma {:induction false} FirstGroupComplete(s: string, starts: seq<nat>, alts: seq<seq<Tok>>, g0: nat, g1: nat)
    requires forall j | 0 <= j < |starts| :: starts[j] <= |s|
    requires g0 in starts && g0 <= g1 < |s| && IsSpace(s[g1])
    requires exists a | a in alts :: Matches(a, s[g0..g1])
    ensures FirstGroup(s, starts, alts).Some?
  {
    if FirstAlt(s, starts[0], alts).None? {
      if starts[0] == g0 {
        var a :| a in alts && Matches(a, s[g0..g1]);
        FirstAltComplete(s, g0, alts, a, g1);
        assert false;
      }
      assert g0 in starts[1..];
      FirstGroupComplete(s, starts[1..], alts, g0, g1);
    }
  }

  /** A match found by the search: where the expression matched and its group. */
  datatype Found = Found(at: nat, g0: nat, g1: nat)

  /** The first position from `p` on that holds a value. */
  function FirstSomeFrom<T>(xs: seq<Option<T>>, p: nat): (r: Option<nat>)
    requires p <= |xs|
    ensures r.Some? ==> p <= r.value < |xs| && xs[r.value].Some? && forall q | p <= q < r.value :: xs[q].None?
    ensures r.None? ==> forall q | p <= q < |xs| :: xs[q].None?
    decreases |xs| - p
  {
    if p == |xs| then None else if xs[p].Some? then Some(p) else FirstSomeFrom(xs, p + 1)
  }

  /** What the matcher finds at each position of `s`, the end of the text included. */
  function GroupsOf(s: string, alts: seq<seq<Tok>>): (gs: seq<Option<(nat, nat)>>)
    ensures |gs| == |s| + 1 && forall q | 0 <= q <= |s| :: gs[q] == GroupAt(s, q, alts)
  {
    seq(|s| + 1, q requires 0 <= q <= |s| => GroupAt(s, q, alts))
  }

  /** `re.search`: the positions of the text, left to right, until the expression
      matches; the position and the group's span. */
  function Search(s: string, alts: seq<seq<Tok>>): (r: Option<Found>)
  {
    var gs := GroupsOf(s, alts);
    match FirstSomeFrom(gs, 0)
    case None => None
    case Some(q) => Some(Found(q, gs[q].value.0, gs[q].value.1))
  }

  /** The search reports the leftmost position where the expression matches, with a
      group it matches there, and nothing exactly when it matches nowhere. */
  lemma SearchLeftmost(s: string, alts: seq<seq<Tok>>)
    ensures var r := Search(s, alts);
      && (r.Some? ==> MatchAt(s, r.value.at, alts, r.value.g0, r.value.g1)
                      && forall q | 0 <= q < r.value.at :: !MatchesAt(s, q, alts))
      && (r.None? ==> forall q | 0 <= q <= |s| :: !MatchesAt(s, q, alts))
  {
    var r := Search(s, alts);
    forall q | 0 <= q <= |s| && GroupAt(s, q, alts).None? ensures !MatchesAt(s, q, alts) {
      GroupAtCorrect(s, q, alts);
    }
    if r.Some? {
      GroupAtCorrect(s, r.value.at, alts);
    }
  }

  // ---------------------------------------------------------------------------
  // object_type_from_ddl (file_parser.py)

  /** `ddl_content.replace("or replace", "")`: only the lower-case phrase goes. */
  function WithoutOrReplace(ddl: string): string {
    ReplaceAll(ddl, "or replace", "")
  }

  /** A map key as an alternative of the expression: `key.replace("_", r"\s+")`. */
  function KeyToks(key: string): (r: seq<Tok>)
    ensures |r| == |key|
    ensures forall i | 0 <= i < |key| :: r[i] == if key[i] == '_' then Ws else Ch(key[i])
  {
    seq(|key|, i requires 0 <= i < |key| => if key[i] == '_' then Ws else Ch(key[i]))
  }

  /** The alternatives of `'|'.join(...)` over the keys in order; joining no keys leaves a
      single empty alternative. */
  function KeyAlternatives(m: Dict<string>): (alts: seq<seq<Tok>>)
    ensures |m| == 0 ==> alts == [[]]
    ensures |m| > 0 ==> |alts| == |m| && forall i | 0 <= i < |m| :: alts[i] == KeyToks(m[i].0)
  {
    if |m| == 0 then [[]] else seq(|m|, i requires 0 <= i < |m| => KeyToks(m[i].0))
  }

  /** `s.replace(" ", "_").lower()` */
  function Canonical(s: string): string {
    Lower(ReplaceAll(s, " ", "_"))
  }

  /** The loop over the map's items: the value of the first key whose canonical form is
      `t`. */
  function ValueFor(m: Dict<string>, t: string): (r: Option<string>)
    ensures r.None? <==> forall i | 0 <= i < |m| :: Canonical(m[i].0) != t
    ensures r.Some? ==> exists i | 0 <= i < |m| ::
      && Canonical(m[i].0) == t && m[i].1 == r.value
      && forall j | 0 <= j < i :: Canonical(m[j].0) != t
  {
    if |m| == 0 then None
    else if Canonical(m[0].0) == t then Some(m[0].1)
    else
      var r := ValueFor(m[1..], t);
      assert forall i | 1 <= i < |m| :: m[i] == m[1..][i - 1];
      r
  }

  /** `object_type_from_ddl(ddl_content, object_type_map)` */
  function ObjectType(ddl: string, m: Dict<string>): string {
    var s := WithoutOrReplace(ddl);
    match Search(s, KeyAlternatives(m))
    case None => "unknown"
    case Some(f) => ValueFor(m, Canonical(s[f.g0..f.g1])).GetOr("unknown")
  }

  /** `object_type_from_ddl` never fails: it answers one of the map's values or
      `"unknown"`. */
  lemma ObjectTypeRange(ddl: string, m: Dict<string>, r: string)
    requires r == ObjectType(ddl, m)
    ensures r == "unknown" || exists i | 0 <= i < |m| :: m[i].1 == r
  {
    var s := WithoutOrReplace(ddl);
    var f := Search(s, KeyAlternatives(m));
    if f.Some? {
      var v := ValueFor(m, Canonical(s[f.value.g0..f.value.g1]));
      if v.Some? {
        var i :| 0 <= i < |m| && Canonical(m[i].0) == Canonical(s[f.value.g0..f.value.g1]) && m[i].1 == v.value;
      }
    }
  }

  /** The classification against the reference matcher. Where the expression, run on
      the text with `"or replace"` removed, matches nowhere, the answer is `"unknown"`.
      Otherwise let `q` be the leftmost position where it matches, with the group
      `s[g0..g1]`. When some key's canonical form equals that group's, the answer is the
      first such key's value. Otherwise the answer is `"unknown"`. Conversely, any
      answer other than `"unknown"` is that value. */
  lemma ObjectTypeMatched(ddl: string, m: Dict<string>, s: string, r: string) returns (q: nat, g0: nat, g1: nat)
    requires s == WithoutOrReplace(ddl) && r == ObjectType(ddl, m)
    ensures (forall p | 0 <= p <= |s| :: !MatchesAt(s, p, KeyAlternatives(m))) ==> r == "unknown"
    ensures (exists p | 0 <= p <= |s| :: MatchesAt(s, p, KeyAlternatives(m))) ==>
      && MatchAt(s, q, KeyAlternatives(m), g0, g1)
      && (forall p | 0 <= p < q :: !MatchesAt(s, p, KeyAlternatives(m)))
      && (ValueFor(m, Canonical(s[g0..g1])).Some? ==> r == ValueFor(m, Canonical(s[g0..g1])).value)
      && (ValueFor(m, Canonical(s[g0..g1])).None? ==> r == "unknown")
    ensures r != "unknown" ==>
      MatchAt(s, q, KeyAlternatives(m), g0, g1) && ValueFor(m, Canonical(s[g0..g1])) == Some(r)
  {
    var alts := KeyAlternatives(m);
    var f := Search(s, alts);
    ObjectTypeFromSearch(ddl, m, s, f);
    SearchLeftmost(s, alts);
    q, g0, g1 := 0, 0, 0;
    if f.Some? {
      q, g0, g1 := f.value.at, f.value.g0, f.value.g1;
      assert MatchAt(s, q, alts, g0, g1);
      assert MatchesAt(s, q, alts);
      assert r == ValueFor(m, Canonical(s[g0..g1])).GetOr("unknown");
    } else {
      assert r == "unknown";
      assert !exists p | 0 <= p <= |s| :: MatchesAt(s, p, alts);
    }
  }

  /** The classification in terms of what the search found. */
  lemma ObjectTypeFromSearch(ddl: string, m: Dict<string>, s: string, f: Option<Found>)
    requires s == WithoutOrReplace(ddl) && f == Search(s, KeyAlternatives(m))
    ensures f.None? ==> ObjectType(ddl, m) == "unknown"
    ensures f.Some? ==> f.value.g0 <= f.value.g1 <= |s| && ObjectType(ddl, m) == ValueFor(m, Canonical(s[f.value.g0..f.value.g1])).GetOr("unknown")
  {
  }

  // ---------------------------------------------------------------------------
  // Evaluating the search on given texts

  /** The expression cannot match where the text does not start with `c` or `C`, nor
      where that is followed by something other than `r` or `R`. */
  lemma NoCreateAt(s: string, q: nat, alts: seq<seq<Tok>>)
    requires q <= |s|
    requires q == |s| || (s[q] != 'c' && s[q] != 'C') || (q + 1 < |s| && s[q + 1] != 'r' && s[q + 1] != 'R')
    ensures GroupAt(s, q, alts).None?
  {
    var ct := CreateToks();
    assert ct[0] == Ch('c') && ct[1..][0] == Ch('r');
    assert Ends(ct, s, q) == [];
  }

  /** Nor anywhere in `s[q..e]` when that holds no `c` or `C`. */
  lemma {:induction false} NoCreateBetween(s: string, q: nat, e: nat, alts: seq<seq<Tok>>)
    requires q <= e <= |s| && 'c' !in s[q..e] && 'C' !in s[q..e]
    ensures forall j | q <= j < e :: GroupAt(s, j, alts).None?
    decreases e - q
  {
    if q < e {
      assert s[q..e][0] == s[q];
      assert s[q + 1..e] == s[q..e][1..];
      NoCreateBetween(s, q + 1, e, alts);
      NoCreateAt(s, q, alts);
    }
  }

  /** The search finds nothing when the expression matches at no position. */
  lemma SearchNone(s: string, alts: seq<seq<Tok>>)
    requires forall q | 0 <= q <= |s| :: GroupAt(s, q, alts).None?
    ensures Search(s, alts).None?
  {
  }

  /** The search reports the first position when the expression matches there. */
  lemma SearchAtStart(s: string, alts: seq<seq<Tok>>, g: (nat, nat))
    requires GroupAt(s, 0, alts) == Some(g)
    ensures Search(s, alts) == Some(Found(0, g.0, g.1))
  {
    assert GroupsOf(s, alts)[0] == Some(g);
  }

  /** `create` in any case followed by one blank is matched by `create\s+` up to the
      character after the blank. */
  lemma CreateThenBlank(s: string)
    requires |s| >= 8 && Lower(s[..6]) == "create" && s[6] == ' ' && !IsSpace(s[7])
    ensures Ends(CreateToks(), s, 0) == [7]
  {
    var w := "create";
    forall k | 0 <= k < |w| ensures SameIgnoringCase(s[0 + k], w[k]) {
      assert w[k] == Lower(s[..6])[k] == LowerChar(s[k]);
    }
    EndsLitsFolded(w, [Ws], s, 0);
    assert RunLen(s, 6) == 1;
    assert WsEnds([], s, 6, 1) == [7];
  }

  /** The text of the upper-case example holds `create` only at its start. */
  lemma UpperExampleText(s: string)
    requires s == "C" + "REATE OR REPLA" + "CE VIEW v"
    ensures 'c' !in s[1..15] && 'C' !in s[1..15] && 'c' !in s[16..] && 'C' !in s[16..]
    ensures s[15] == 'C' && s[16] == 'E'
  {
    assert s == "C" + "REATE OR REPLA" + "CE VIEW v";
    assert "CE VIEW v"[1..] == "E VIEW v";
  }

  /** A text without a lower-case `o` keeps every character through the removal of
      `"or replace"`. */
  lemma NoLowerOUnchanged(s: string)
    requires 'o' !in s
    ensures WithoutOrReplace(s) == s
  {
    HeadAbsent(s, "or replace");
    ReplaceAbsent(s, "or replace", "");
  }

  /** At the start, `CREATE ` is followed by `OR`, which is not `view`. */
  lemma UpperExampleStart(s: string, alts: seq<seq<Tok>>)
    requires s == "C" + "REATE OR REPLA" + "CE VIEW v" && alts == KeyAlternatives([("view", "views")])
    ensures GroupAt(s, 0, alts).None?
  {
    CreateThenBlank(s);
    assert alts == [KeyToks("view")];
    assert Ends(KeyToks("view"), s, 7) == [];
    assert FirstSpaced(s, []) == None && alts[1..] == [];
    assert FirstAlt(s, 7, alts) == None;
    assert [7][1..] == [];
  }

  /** Upper-case `OR REPLACE` is not removed, so the keyword after it is not reached:
      a view created with `CREATE OR REPLACE VIEW` is classified `"unknown"`. */
  lemma UpperCaseOrReplaceUnknown(ddl: string, m: Dict<string>)
    requires ddl == "C" + "REATE OR REPLA" + "CE VIEW v" && m == [("view", "views")]
    ensures ObjectType(ddl, m) == "unknown"
  {
    var alts := KeyAlternatives(m);
    UpperExampleText(ddl);
    NoLowerOUnchanged(ddl);
    UpperExampleStart(ddl, alts);
    NoCreateBetween(ddl, 1, 15, alts);
    NoCreateAt(ddl, 15, alts);
    NoCreateBetween(ddl, 16, |ddl|, alts);
    NoCreateAt(ddl, |ddl|, alts);
    assert forall q | 0 <= q <= |ddl| :: GroupAt(ddl, q, alts).None?;
    SearchNone(ddl, alts);
    assert Search(ddl, alts) == None;
    ObjectTypeFromSearch(ddl, m, ddl, None);
  }

  // ---------------------------------------------------------------------------
  // object_type_from_ddl (file_parser_old.py)

  /** The group of the older expression, alternative by alternative:
      `table|external\s+ table|writable\s+ external\s+ table|view|materialized\s+view|fuction|procedure`.
      Except in `materialized\s+view`, each `\s+` is followed by a literal blank. */
  function LegacyKinds(): (alts: seq<seq<Tok>>)
    ensures |alts| == 7
  {
    [ Lits("table"),
      Lits("external") + [Ws] + Lits(" table"),
      Lits("writable") + [Ws] + Lits(" external") + [Ws] + Lits(" table"),
      Lits("view"),
      Lits("materialized") + [Ws] + Lits("view"),
      Lits("fuction"),
      Lits("procedure") ]
  }

  /** `object_type_from_ddl(ddl_content)` of file_parser_old.py: the group itself,
      canonicalised, with no map to look it up in. */
  function LegacyObjectType(ddl: string): string {
    var s := WithoutOrReplace(ddl);
    match Search(s, LegacyKinds())
    case None => "unknown"
    case Some(f) => Canonical(s[f.g0..f.g1])
  }

  /** The older classifier answers `"unknown"` exactly when the search finds nothing;
      otherwise it answers the canonical form of the group of the leftmost match, at `q`
      with the group `s[g0..g1]`, which never reads `"unknown"`. */
  lemma LegacyObjectTypeSpec(ddl: string, s: string, r: string) returns (q: nat, g0: nat, g1: nat)
    requires s == WithoutOrReplace(ddl) && r == LegacyObjectType(ddl)
    ensures Search(s, LegacyKinds()).None? ==> r == "unknown"
    ensures Search(s, LegacyKinds()).Some? ==>
      && MatchAt(s, q, LegacyKinds(), g0, g1) && r == Canonical(s[g0..g1]) && r != "unknown"
      && forall p | 0 <= p < q :: !MatchesAt(s, p, LegacyKinds())
  {
    q, g0, g1 := 0, 0, 0;
    var f := Search(s, LegacyKinds());
    SearchLeftmost(s, LegacyKinds());
    if f.Some? {
      q, g0, g1 := f.value.at, f.value.g0, f.value.g1;
      var a :| a in LegacyKinds() && Matches(a, s[g0..g1]);
      LegacyGroupHead(a, s[g0..g1]);
    }
  }

  /** A group matched by one of the older alternatives does not canonicalise to
      `"unknown"`: its first letter is one of `t e w v m f p`. */
  lemma LegacyGroupHead(a: seq<Tok>, w: string)
    requires a in LegacyKinds() && Matches(a, w)
    ensures Canonical(w) != "unknown"
  {
    LegacyKindsHeads(a);
    MatchesHead(a, w);
    CanonicalHead(w);
  }

  /** Every older alternative starts with one of the letters `t e w v m f p`. */
  lemma LegacyKindsHeads(a: seq<Tok>)
    requires a in LegacyKinds()
    ensures |a| > 0 && a[0].Ch? && a[0].c in "tewvmfp"
  {
    var ks := LegacyKinds();
    var i :| 0 <= i < 7 && ks[i] == a;
    assert ks[0][0] == Ch('t') && ks[1][0] == Ch('e') && ks[2][0] == Ch('w') && ks[3][0] == Ch('v');
    assert ks[4][0] == Ch('m') && ks[5][0] == Ch('f') && ks[6][0] == Ch('p');
  }

  /** A text matched by tokens that start with a literal character starts with it. */
  lemma MatchesHead(a: seq<Tok>, w: string)
    requires |a| > 0 && a[0].Ch? && Matches(a, w)
    ensures |w| > 0 && SameIgnoringCase(w[0], a[0].c)
  {
  }

  /** Canonicalising keeps the first character of a text, lower-cased, unless it is a blank. */
  lemma CanonicalHead(w: string)
    requires |w| > 0 && w[0] != ' '
    ensures |Canonical(w)| > 0 && Canonical(w)[0] == LowerChar(w[0])
  {
    assert ReplaceAll(w, " ", "_")[0] == w[0];
  }

  /** Where the text at `g` starts with none of the letters `t e w v m f p`, no older
      alternative matches there. */
  lemma LegacyNoneAt(s: string, g: nat)
    requires g < |s| && LowerChar(s[g]) !in "tewvmfp"
    ensures FirstAlt(s, g, LegacyKinds()).None?
  {
    var ks := LegacyKinds();
    forall k | 0 <= k < 7 ensures Ends(ks[k], s, g) == [] {
      LegacyKindsHeads(ks[k]);
    }
    LegacyFirstAltNone(s, g, ks);
  }

  /** At an `e`, every older alternative but `external\s+ table` fails at once. */
  lemma OnlyExternalAfter(s: string, g: nat)
    requires g < |s| && LowerChar(s[g]) == 'e'
    ensures forall k | 0 <= k < 7 && k != 1 :: Ends(LegacyKinds()[k], s, g) == []
  {
    var ks := LegacyKinds();
    forall k | 0 <= k < 7 && k != 1 ensures Ends(ks[k], s, g) == [] {
      LegacyHead(k);
      HeadMismatch(ks[k], s, g);
    }
  }

  /** The `k`-th older alternative starts with the `k`-th letter of `tewvmfp`. */
  lemma LegacyHead(k: nat)
    requires k < 7
    ensures |LegacyKinds()[k]| > 0 && LegacyKinds()[k][0] == Ch("tewvmfp"[k])
  {
    var ks := LegacyKinds();
    assert ks[0][0] == Ch('t') && ks[1][0] == Ch('e') && ks[2][0] == Ch('w') && ks[3][0] == Ch('v');
    assert ks[4][0] == Ch('m') && ks[5][0] == Ch('f') && ks[6][0] == Ch('p');
  }

  /** Tokens whose first literal differs from the character at `i` have no end there. */
  lemma HeadMismatch(toks: seq<Tok>, s: string, i: nat)
    requires |toks| > 0 && toks[0].Ch? && i < |s| && !SameIgnoringCase(s[i], toks[0].c)
    ensures Ends(toks, s, i) == []
  {
  }

  /** No alternative has a possible end: the group fails. */
  lemma {:induction false} LegacyFirstAltNone(s: string, g: nat, alts: seq<seq<Tok>>)
    requires g <= |s| && forall k | 0 <= k < |alts| :: Ends(alts[k], s, g) == []
    ensures FirstAlt(s, g, alts).None?
  {
    if |alts| > 0 {
      assert Ends(alts[0], s, g) == [];
      LegacyFirstAltNone(s, g, alts[1..]);
    }
  }

  /** Literal tokens met by the same text are passed over. */
  lemma EndsLits(w: string, rest: seq<Tok>, s: string, i: nat)
    requires i + |w| <= |s| && s[i..i + |w|] == w
    ensures Ends(Lits(w) + rest, s, i) == Ends(rest, s, i + |w|)
  {
    forall k | 0 <= k < |w| ensures SameIgnoringCase(s[i + k], w[k]) {
      assert s[i + k] == s[i..i + |w|][k];
    }
    EndsLitsFolded(w, rest, s, i);
  }

  /** Literal tokens met by the same text up to ASCII case are passed over. */
  lemma {:induction false} EndsLitsFolded(w: string, rest: seq<Tok>, s: string, i: nat)
    requires i + |w| <= |s| && forall k | 0 <= k < |w| :: SameIgnoringCase(s[i + k], w[k])
    ensures Ends(Lits(w) + rest, s, i) == Ends(rest, s, i + |w|)
    decreases |w|
  {
    if |w| > 0 {
      assert (Lits(w) + rest)[0] == Ch(w[0]) && SameIgnoringCase(s[i + 0], w[0]);
      assert (Lits(w) + rest)[1..] == Lits(w[1..]) + rest;
      forall k | 0 <= k < |w| - 1 ensures SameIgnoringCase(s[i + 1 + k], w[1..][k]) {
        assert SameIgnoringCase(s[i + (k + 1)], w[k + 1]);
      }
      EndsLitsFolded(w[1..], rest, s, i + 1);
    } else {
      assert Lits(w) + rest == rest;
    }
  }

  /** `external\s+ table` wants a blank after the run of whitespace that `\s+` takes, so
      `external table` with a single blank does not match it. */
  lemma ExternalSingleBlank(s: string)
    requires s == "c" + "reate external table t"
    ensures Ends(LegacyKinds()[1], s, 7) == []
  {
    assert s == "create " + "external" + " " + "table t";
    assert s[7..15] == "external" && s[15] == ' ' && s[16] == 't';
    ExternalOneBlank(s, 7);
  }

  /** `external`, one blank and a letter other than a blank: the blank is all `\s+` can
      take, and the literal blank of ` table` then meets the letter. */
  lemma ExternalOneBlank(s: string, i: nat)
    requires i + 10 <= |s| && s[i..i + 8] == "external" && s[i + 8] == ' ' && s[i + 9] == 't'
    ensures Ends(LegacyKinds()[1], s, i) == []
  {
    var rest := [Ws] + Lits(" table");
    assert LegacyKinds()[1] == Lits("external") + rest;
    EndsLits("external", rest, s, i);
    assert RunLen(s, i + 9) == 0;
    assert RunLen(s, i + 8) == 1;
    HeadMismatch(Lits(" table"), s, i + 9);
    assert WsEnds(Lits(" table"), s, i + 8, 1) == [];
  }

  /** `create` and one blank at the start are matched by `create\s+` up to after the blank. */
  lemma CreateAtStart(s: string, rest: string)
    requires s == "create " + rest && |rest| > 0 && !IsSpace(rest[0])
    ensures Ends(CreateToks(), s, 0) == [7]
  {
    assert s == "create" + (" " + rest);
    EndsLits("create", [Ws], s, 0);
    assert RunLen(s, 6) == 1;
    assert WsEnds([], s, 6, 1) == [7];
  }

  /** In `create external table t` no older alternative follows `create `. */
  lemma SingleBlankStart(ddl: string)
    requires ddl == "c" + "reate external table t"
    ensures GroupAt(ddl, 0, LegacyKinds()).None?
  {
    assert ddl == "create " + "external table t";
    CreateAtStart(ddl, "external table t");
    ExternalSingleBlank(ddl);
    NoGroupAfterCreate(ddl);
  }

  /** When `create\s+` ends only before an `e` that `external\s+ table` cannot extend, the
      older group fails at the start. */
  lemma NoGroupAfterCreate(s: string)
    requires 7 < |s| && LowerChar(s[7]) == 'e'
    requires Ends(CreateToks(), s, 0) == [7] && Ends(LegacyKinds()[1], s, 7) == []
    ensures GroupAt(s, 0, LegacyKinds()).None?
  {
    var ks := LegacyKinds();
    OnlyExternalAfter(s, 7);
    assert forall k | 0 <= k < 7 :: Ends(ks[k], s, 7) == [];
    LegacyFirstAltNone(s, 7, ks);
    assert [7][1..] == [];
  }

  /** The older classifier does not recognise `create external table t`: with a single
      blank between the words, no alternative matches, and the answer is `"unknown"`. */
  lemma LegacyExternalSingleBlankUnknown(ddl: string)
    requires ddl == "c" + "reate external table t"
    ensures LegacyObjectType(ddl) == "unknown"
  {
    SingleBlankStart(ddl);
    LegacyUnknownAfterStart(ddl, "reate external table t");
  }

  /** A text holding `c` or `C` only at its start, where the older expression does not
      match, and no lower-case `o`, is classified `"unknown"` by the older classifier. */
  lemma LegacyUnknownAfterStart(ddl: string, rest: string)
    requires ddl == "c" + rest && 'c' !in rest && 'C' !in rest && 'o' !in ddl
    requires GroupAt(ddl, 0, LegacyKinds()).None?
    ensures LegacyObjectType(ddl) == "unknown"
  {
    var ks := LegacyKinds();
    assert ddl[1..|ddl|] == rest;
    NoLowerOUnchanged(ddl);
    NoCreateBetween(ddl, 1, |ddl|, ks);
    NoCreateAt(ddl, |ddl|, ks);
    SearchNone(ddl, ks);
  }

  /** The text after `external` in `create external  table t`. */
  lemma TwoBlanksTail(s: string)
    requires s == "create " + "external" + "  " + "table" + " t"
    ensures s[..15] == "create external" && RunLen(s, 15) == 2
    ensures Ends(Lits(" table"), s, 17) == [] && Ends(Lits(" table"), s, 16) == [22]
  {
    assert s == "create external" + " " + " table" + " t";
    assert s[15] == ' ' && s[16] == ' ' && s[17] == 't';
    assert RunLen(s, 17) == 0;
    EndsLits(" table", [], s, 16);
    assert Lits(" table") + [] == Lits(" table");
    assert Lits(" table")[0] == Ch(' ');
  }

  /** With two blanks, `\s+` first takes both, finds no blank after them, gives one
      back, and then ` table` matches: the alternative ends before the last blank. */
  lemma ExternalTwoBlanks(s: string)
    requires s == "create " + "external" + "  " + "table" + " t"
    ensures Ends(LegacyKinds()[1], s, 7) == [22]
  {
    var rest := [Ws] + Lits(" table");
    TwoBlanksTail(s);
    assert s[7..15] == "external";
    assert LegacyKinds()[1] == Lits("external") + rest;
    EndsLits("external", rest, s, 7);
    assert Ends(rest, s, 15) == WsEnds(Lits(" table"), s, 15, 2);
    assert WsEnds(Lits(" table"), s, 15, 0) == [];
  }

  /** Canonicalising `external  table` doubles the separator. */
  lemma CanonicalTwoBlanks(w: string, a: string, b: string, r: string)
    requires a == "external" && b == "table" && w == a + " " + " " + b && r == "external__table"
    ensures Canonical(w) == r
  {
    assert w == a + (" " + (" " + b));
    ReplacePlainPrefix(a, " " + (" " + b), " ", "_");
    ReplaceAtStart(" ", " " + b, "_");
    ReplaceAtStart(" ", b, "_");
    HeadAbsent(b, " ");
    ReplaceAbsent(b, " ", "_");
    assert ReplaceAll(w, " ", "_") == a + "_" + "_" + b;
    assert r == a + "_" + "_" + b;
    LowerNoUpper(r);
  }

  /** Where the search finds the group `s[g0..g1]`, the older classifier answers its
      canonical form. */
  lemma LegacyTypeOfFound(ddl: string, s: string, q: nat, g0: nat, g1: nat)
    requires s == WithoutOrReplace(ddl) && Search(s, LegacyKinds()) == Some(Found(q, g0, g1))
    ensures g0 <= g1 <= |s| && LegacyObjectType(ddl) == Canonical(s[g0..g1])
  {
    var _, _, _ := LegacyObjectTypeSpec(ddl, s, LegacyObjectType(ddl));
  }

  /** The middle part of a concatenation of three. */
  lemma MiddleSlice(a: string, b: string, c: string)
    ensures (a + b + c)[|a|..|a| + |b|] == b
  {
    assert (a + b + c)[|a|..|a| + |b|] == ((a + b) + c)[..|a| + |b|][|a|..];
  }

  /** Where the older expression matches at the start of `create external  table t`
      with its group ending at 22, the older classifier answers `external__table`. */
  lemma LegacyTwoBlanksGroup(ddl: string, w: string)
    requires WithoutOrReplace(ddl) == ddl && ddl == "create " + w + " t"
    requires Ends(CreateToks(), ddl, 0) == [7] && FirstAlt(ddl, 7, LegacyKinds()) == Some(22)
    requires w == "external" + " " + " " + "table"
    ensures LegacyObjectType(ddl) == "external__table"
  {
    GroupAtStart(ddl, LegacyKinds(), 7, 22);
    MiddleSlice("create ", w, " t");
    SearchAtStart(ddl, LegacyKinds(), (7, 22));
    LegacyTypeOfFound(ddl, ddl, 0, 7, 22);
    CanonicalTwoBlanks(w, "external", "table", "external__table");
  }

  /** When `create\s+` ends only at `g` and the group tried there ends at `e`, the group
      of the match at the start is `s[g..e]`. */
  lemma GroupAtStart(s: string, alts: seq<seq<Tok>>, g: nat, e: nat)
    requires g <= |s| && Ends(CreateToks(), s, 0) == [g] && FirstAlt(s, g, alts) == Some(e)
    ensures GroupAt(s, 0, alts) == Some((g, e))
  {
  }

  /** When the first alternative finds no end, the group tried at `g` is that of the rest. */
  lemma FirstAltSkip(s: string, g: nat, alts: seq<seq<Tok>>)
    requires g <= |s| && |alts| > 0 && Ends(alts[0], s, g) == []
    ensures FirstAlt(s, g, alts) == FirstAlt(s, g, alts[1..])
  {
  }

  /** In `create external  table t` the second older alternative supplies the group. */
  lemma TwoBlanksFirstAlt(ddl: string)
    requires ddl == "create " + "external" + "  " + "table" + " t"
    ensures FirstAlt(ddl, 7, LegacyKinds()) == Some(22)
  {
    var ks := LegacyKinds();
    assert ks[0][0] == Ch('t') && ddl[7] == 'e';
    FirstAltSkip(ddl, 7, ks);
    ExternalTwoBlanks(ddl);
    assert FirstSpaced(ddl, [22]) == Some(22);
    assert ks[1..][0] == ks[1];
  }

  /** With two blanks the older expression matches `external  table`, and only spaces
      are mapped to `_`, so the type reads `external__table`, with two underscores. */
  lemma LegacyExternalTwoBlanks(ddl: string)
    requires ddl == "create " + "external" + "  " + "table" + " t"
    ensures LegacyObjectType(ddl) == "external__table"
  {
    var w := "external" + " " + " " + "table";
    assert ddl == "create " + w + " t";
    NoLowerOUnchanged(ddl);
    CreateAtStart(ddl, "external" + "  " + "table" + " t");
    TwoBlanksFirstAlt(ddl);
    LegacyTwoBlanksGroup(ddl, w);
  }
}
