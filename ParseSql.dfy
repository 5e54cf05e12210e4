/**
  The anchor splitter of parse_sql.py: a SQL script is cut at recognised `--anchor`
  comment lines into numbered files, one per anchor section, each checked for
  dangerous DDL/DML words. File-system effects (reading `params.json`, listing and
  reading scripts, creating directories, writing files) are left to the caller; the
  splitter returns, for one script, the list of files it would write.
*/
module ParseSql {
  import opened Wrappers
  import opened Text

  // ---------------------------------------------------------------------------
  // get_param

  /** `get_param(name)`: the first parameter, in the order `params.json` lists them,
      whose key equals `name` ignoring case; `None` when there is none. */
  method GetParam<V>(params: seq<(string, V)>, name: string) returns (r: Option<V>)
    ensures r.Some? ==> exists i | 0 <= i < |params| ::
      && Lower(params[i].0) == Lower(name) && params[i].1 == r.value
      && forall j | 0 <= j < i :: Lower(params[j].0) != Lower(name)
    ensures r.None? <==> forall i | 0 <= i < |params| :: Lower(params[i].0) != Lower(name)
  {
    var i := 0;
    while i < |params|
      invariant 0 <= i <= |params|
      invariant forall j | 0 <= j < i :: Lower(params[j].0) != Lower(name)
    {
      if Lower(params[i].0) == Lower(name) {
        return Some(params[i].1);
      }
      i := i + 1;
    }
    return None;
  }

  // ---------------------------------------------------------------------------
  // The anchor table

  /** How an anchor key is stored: stripped and lower-cased. */
  function AnchorKey(k: string): string {
    Lower(Strip(k))
  }

  /** The entries of the `Parsing anchor` list of dictionaries, in order. */
  function Flatten(dicts: seq<seq<(string, string)>>): seq<(string, string)> {
    if |dicts| == 0 then [] else Flatten(dicts[..|dicts| - 1]) + dicts[|dicts| - 1]
  }

  /** Each entry as it is stored: key normalised, value stripped. */
  function Normalized(entries: seq<(string, string)>): (ns: seq<(string, string)>)
    ensures |ns| == |entries|
  {
    seq(|entries|, i requires 0 <= i < |entries| => (AnchorKey(entries[i].0), Strip(entries[i].1)))
  }

  /** The dictionary a sequence of assignments `d[k] = v` builds, later ones overwriting. */
  function MapOf(pairs: seq<(string, string)>): map<string, string> {
    if |pairs| == 0 then map[]
    else MapOf(pairs[..|pairs| - 1])[pairs[|pairs| - 1].0 := pairs[|pairs| - 1].1]
  }

  /** The anchor-to-directory table the configured entries describe. */
  function TableOf(entries: seq<(string, string)>): map<string, string> {
    MapOf(Normalized(entries))
  }

  /** Adding one entry at the end updates the table at that entry's key. */
  lemma TableOfSnoc(entries: seq<(string, string)>, e: (string, string))
    ensures TableOf(entries + [e]) == TableOf(entries)[AnchorKey(e.0) := Strip(e.1)]
  {
    var ns := Normalized(entries + [e]);
    assert ns[..|ns| - 1] == Normalized(entries);
    assert ns[|ns| - 1] == (AnchorKey(e.0), Strip(e.1));
    assert TableOf(entries + [e]) == MapOf(ns[..|ns| - 1])[ns[|ns| - 1].0 := ns[|ns| - 1].1];
  }

  /** One more entry of the dictionary `dct`, after the entries `done`. */
  lemma TableStep(done: seq<(string, string)>, dct: seq<(string, string)>, e: nat)
    requires e < |dct|
    ensures TableOf(done + dct[..e + 1]) == TableOf(done + dct[..e])[AnchorKey(dct[e].0) := Strip(dct[e].1)]
  {
    assert done + dct[..e + 1] == (done + dct[..e]) + [dct[e]];
    TableOfSnoc(done + dct[..e], dct[e]);
  }

  /** No entry of `dct` yet, and all of them. */
  lemma PrefixEnds(done: seq<(string, string)>, dct: seq<(string, string)>)
    ensures done + dct[..0] == done && done + dct[..|dct|] == done + dct
  {
    assert dct[..|dct|] == dct;
  }

  /** One more dictionary of the list. */
  lemma FlattenStep(dicts: seq<seq<(string, string)>>, d: nat)
    requires d < |dicts|
    ensures Flatten(dicts[..d + 1]) == Flatten(dicts[..d]) + dicts[d]
  {
    assert dicts[..d + 1][..d] == dicts[..d];
  }

  /** The inner loop: adds the entries of one dictionary `dct` to the table built from the
      entries `done`. */
  method AddAnchors(table: map<string, string>, allowed: set<string>, ghost done: seq<(string, string)>,
                    dct: seq<(string, string)>)
    returns (anchorToDir: map<string, string>, allowedAnchors: set<string>)
    requires table == TableOf(done) && allowed == table.Keys
    ensures anchorToDir == TableOf(done + dct)
    ensures allowedAnchors == anchorToDir.Keys
  {
    anchorToDir, allowedAnchors := table, allowed;
    PrefixEnds(done, dct);
    for e := 0 to |dct|
      invariant anchorToDir == TableOf(done + dct[..e])
      invariant allowedAnchors == anchorToDir.Keys
    {
      var (k, v) := dct[e];
      TableStep(done, dct, e);
      anchorToDir := anchorToDir[AnchorKey(k) := Strip(v)];
      allowedAnchors := allowedAnchors + {AnchorKey(k)};
    }
  }

  /** Builds `anchor_to_dir` and `allowed_anchors` from the configured anchors. */
  method BuildAnchorTable(anchorDicts: seq<seq<(string, string)>>)
    returns (anchorToDir: map<string, string>, allowedAnchors: set<string>)
    ensures anchorToDir == TableOf(Flatten(anchorDicts))
    ensures allowedAnchors == anchorToDir.Keys
  {
    anchorToDir, allowedAnchors := map[], {};
    for d := 0 to |anchorDicts|
      invariant anchorToDir == TableOf(Flatten(anchorDicts[..d]))
      invariant allowedAnchors == anchorToDir.Keys
    {
      var dct := anchorDicts[d];
      ghost var done := Flatten(anchorDicts[..d]);
      anchorToDir, allowedAnchors := AddAnchors(anchorToDir, allowedAnchors, done, dct);
      FlattenStep(anchorDicts, d);
    }
    assert anchorDicts[..|anchorDicts|] == anchorDicts;
  }

  /** The position of the last pair whose key is `key`. */
  function LastPairFor(pairs: seq<(string, string)>, key: string): (r: Option<nat>)
    ensures r.Some? ==> r.value < |pairs| && pairs[r.value].0 == key
    ensures r.Some? ==> forall j | r.value < j < |pairs| :: pairs[j].0 != key
    ensures r.None? ==> forall j | 0 <= j < |pairs| :: pairs[j].0 != key
  {
    if |pairs| == 0 then None
    else if pairs[|pairs| - 1].0 == key then Some(|pairs| - 1)
    else LastPairFor(pairs[..|pairs| - 1], key)
  }

  /** A dictionary built by successive assignments holds a key exactly when some
      assignment was to that key, and then the value of the last one. */
  lemma {:induction false} MapOfLastWins(pairs: seq<(string, string)>, key: string)
    ensures key in MapOf(pairs) <==> LastPairFor(pairs, key).Some?
    ensures key in MapOf(pairs) ==> MapOf(pairs)[key] == pairs[LastPairFor(pairs, key).value].1
  {
    if |pairs| > 0 {
      MapOfLastWins(pairs[..|pairs| - 1], key);
    }
  }

  // ---------------------------------------------------------------------------
  // Dangerous words

  /** `DDL_WORDS`, in the order their warnings are reported. */
  const DdlWords: seq<string> := ["drop", "alter", "truncate", "delete", "exchange", "analyze", "vacuum"]

  /** The regex class `\w` (ASCII part). */
  predicate IsWordChar(c: char) {
    ('a' <= c <= 'z') || ('A' <= c <= 'Z') || ('0' <= c <= '9') || c == '_'
  }

  /** `\bword\b` matches at position `j` of `text`, ignoring case. */
  predicate WholeWordAt(text: string, word: string, j: nat) {
    && j + |word| <= |text|
    && (forall k | 0 <= k < |word| :: SameIgnoringCase(text[j + k], word[k]))
    && (j == 0 || !IsWordChar(text[j - 1]))
    && (j + |word| == |text| || !IsWordChar(text[j + |word|]))
  }

  /** `re.search(rf"\b{word}\b", text, re.IGNORECASE)` succeeds. */
  predicate HasWholeWord(text: string, word: string) {
    exists j: nat | j <= |text| :: WholeWordAt(text, word, j)
  }

  /** The text the danger check searches: the buffer joined with spaces, lower-cased. */
  function DangerText(buffer: seq<string>): string {
    Lower(Join(buffer, " "))
  }

  /** The words of `words`, in order, that occur whole in `text`. */
  function WordsFound(words: seq<string>, text: string): seq<string> {
    if |words| == 0 then []
    else
      var w := words[|words| - 1];
      WordsFound(words[..|words| - 1], text) + (if HasWholeWord(text, w) then [w] else [])
  }

  /** The warnings reported for a written buffer, one per dangerous word, in list order. */
  function Dangers(buffer: seq<string>): seq<string> {
    WordsFound(DdlWords, DangerText(buffer))
  }

  /** A word is reported exactly when it is one of the listed words and occurs whole. */
  lemma {:induction false} WordsFoundExactly(words: seq<string>, text: string, w: string)
    ensures w in WordsFound(words, text) <==> w in words && HasWholeWord(text, w)
  {
    if |words| > 0 {
      WordsFoundExactly(words[..|words| - 1], text, w);
      assert words == words[..|words| - 1] + [words[|words| - 1]];
    }
  }

  /** Each word is reported at most once when the list has no repeats. */
  lemma {:induction false} WordsFoundNoRepeats(words: seq<string>, text: string)
    requires forall i, j | 0 <= i < j < |words| :: words[i] != words[j]
    ensures forall i, j | 0 <= i < j < |WordsFound(words, text)| :: WordsFound(words, text)[i] != WordsFound(words, text)[j]
  {
    if |words| > 0 {
      var init := words[..|words| - 1];
      WordsFoundNoRepeats(init, text);
      WordsFoundExactly(init, text, words[|words| - 1]);
    }
  }

  /** The danger check of lines 110-114 and 144-147. */
  method DangerWarnings(buffer: seq<string>) returns (found: seq<string>)
    ensures found == Dangers(buffer)
  {
    var joined := DangerText(buffer);
    found := [];
    for k := 0 to |DdlWords|
      invariant found == WordsFound(DdlWords[..k], joined)
    {
      assert DdlWords[..k + 1][..k] == DdlWords[..k];
      if HasWholeWord(joined, DdlWords[k]) {
        found := found + [DdlWords[k]];
      }
    }
    assert DdlWords[..|DdlWords|] == DdlWords;
  }

  // ---------------------------------------------------------------------------
  // The splitter

  /** One file the splitter writes: the anchor's directory (relative to the project
      root), the file name, the anchor that opened the section, the buffered lines,
      the text written, and the dangerous words reported for it. */
  datatype Emission = Emission(
    dir: string, name: string, anchor: string,
    lines: seq<string>, content: string, dangers: seq<string>)

  /** The loop state: `current_anchor`, `buffer` and the files written so far. */
  datatype SplitState = SplitState(anchor: Option<string>, buffer: seq<string>, out: seq<Emission>)

  const Initial := SplitState(None, [], [])

  /** The stripped line starts with `--`. */
  predicate IsComment(line: string) {
    StartsWith(Strip(line), "--")
  }

  /** `s[2:]` */
  function DropTwo(s: string): string {
    if |s| >= 2 then s[2..] else ""
  }

  /** `f"{task}_{anchor[2:]}_{k}.sql"` */
  function FileName(task: string, anchor: string, k: nat): string {
    task + "_" + DropTwo(anchor) + "_" + NatToString(k) + ".sql"
  }

  /** What the loop keeps true: the current anchor is recognised, and nothing is
      buffered without one. */
  predicate Inv(st: SplitState, table: map<string, string>) {
    && (st.anchor.Some? ==> st.anchor.value in table)
    && (st.anchor.None? ==> st.buffer == [])
  }

  /** Writing out the pending buffer, as a recognised anchor and the end of the file do:
      only when there is a current anchor and a non-empty buffer, and only when the
      anchor's directory is not `WARNING`. */
  function Flush(st: SplitState, table: map<string, string>, task: string): seq<Emission>
    requires Inv(st, table)
  {
    if st.anchor.Some? && |st.buffer| > 0 && table[st.anchor.value] != "WARNING" then
      var a := st.anchor.value;
      st.out + [Emission(table[a], FileName(task, a, |st.out| + 1), a,
                         st.buffer, Strip(Join(st.buffer, "\n")) + "\n", Dangers(st.buffer))]
    else st.out
  }

  /** One iteration of the `while` loop on one line of the script. */
  function Step(st: SplitState, rawLine: string, table: map<string, string>, task: string): (r: SplitState)
    requires Inv(st, table)
    ensures Inv(r, table)
  {
    var line := RStripNewlines(rawLine);
    var stripped := Strip(line);
    if StartsWith(stripped, "--") then
      var anchor := Lower(FirstWord(stripped));
      if anchor in table then
        var flushing := st.anchor.Some? && |st.buffer| > 0;
        SplitState(Some(anchor), if flushing then [] else st.buffer, Flush(st, table, task))
      else
        SplitState(None, [], st.out)
    else if st.anchor.Some? then
      SplitState(st.anchor, st.buffer + [line], st.out)
    else
      st
  }

  /** The state after the loop has consumed `lines`. */
  function Run(lines: seq<string>, table: map<string, string>, task: string): (r: SplitState)
    ensures Inv(r, table)
  {
    if |lines| == 0 then Initial
    else Step(Run(lines[..|lines| - 1], table, task), lines[|lines| - 1], table, task)
  }

  /** The files written for one script: the loop, then the end-of-file flush. */
  function SplitFile(lines: seq<string>, table: map<string, string>, task: string): seq<Emission> {
    Flush(Run(lines, table, task), table, task)
  }

  /** The main loop of parse_sql.py for one script (`lines` as `readlines` gives them). */
  method SplitScript(lines: seq<string>, table: map<string, string>, task: string)
    returns (out: seq<Emission>)
    ensures out == SplitFile(lines, table, task)
  {
    var i := 0;
    var currentAnchor: Option<string> := None;
    var buffer: seq<string> := [];
    out := [];
    while i < |lines|
      invariant 0 <= i <= |lines|
      invariant SplitState(currentAnchor, buffer, out) == Run(lines[..i], table, task)
    {
      assert lines[..i + 1][..i] == lines[..i];
      var line := RStripNewlines(lines[i]);
      var stripped := Strip(line);
      if StartsWith(stripped, "--") {
        var anchor := Lower(FirstWord(stripped));
        if anchor in table {
          if currentAnchor.Some? && |buffer| > 0 {
            var relativePath := table[currentAnchor.value];
            if relativePath != "WARNING" {
              var fname := FileName(task, currentAnchor.value, |out| + 1);
              var dangers := DangerWarnings(buffer);
              out := out + [Emission(relativePath, fname, currentAnchor.value, buffer,
                                     Strip(Join(buffer, "\n")) + "\n", dangers)];
            }
            buffer := [];
          }
          currentAnchor := Some(anchor);
        } else {
          currentAnchor := None;
          buffer := [];
        }
        i := i + 1;
        continue;
      }
      if currentAnchor.Some? {
        buffer := buffer + [line];
      }
      i := i + 1;
    }
    assert lines[..i] == lines;
    if currentAnchor.Some? && |buffer| > 0 {
      var relativePath := table[currentAnchor.value];
      if relativePath != "WARNING" {
        var fname := FileName(task, currentAnchor.value, |out| + 1);
        var dangers := DangerWarnings(buffer);
        out := out + [Emission(relativePath, fname, currentAnchor.value, buffer,
                               Strip(Join(buffer, "\n")) + "\n", dangers)];
      }
    }
  }

  // ---------------------------------------------------------------------------
  // Properties of the splitter

  /** An unrecognised `--` line drops the pending buffer unwritten and clears the anchor. */
  lemma UnknownAnchorDiscards(st: SplitState, rawLine: string, table: map<string, string>, task: string)
    requires Inv(st, table)
    requires IsComment(RStripNewlines(rawLine))
    requires Lower(FirstWord(Strip(RStripNewlines(rawLine)))) !in table
    ensures Step(st, rawLine, table, task) == SplitState(None, [], st.out)
  {
  }

  /** A recognised anchor flushes the pending buffer, starts an empty one, and becomes
      current; the conditional reset of the buffer always leaves it empty. */
  lemma KnownAnchorSwitches(st: SplitState, rawLine: string, table: map<string, string>, task: string)
    requires Inv(st, table)
    requires IsComment(RStripNewlines(rawLine))
    requires Lower(FirstWord(Strip(RStripNewlines(rawLine)))) in table
    ensures Step(st, rawLine, table, task)
         == SplitState(Some(Lower(FirstWord(Strip(RStripNewlines(rawLine))))), [], Flush(st, table, task))
  {
  }

  /** A line that is not a comment is buffered exactly when an anchor is current, and
      never writes anything. */
  lemma TextLineBufferedOnlyUnderAnchor(st: SplitState, rawLine: string, table: map<string, string>, task: string)
    requires Inv(st, table)
    requires !IsComment(RStripNewlines(rawLine))
    ensures Step(st, rawLine, table, task).out == st.out
    ensures Step(st, rawLine, table, task).buffer
         == if st.anchor.Some? then st.buffer + [RStripNewlines(rawLine)] else st.buffer
  {
  }

  /** The k-th file written (from 1) is named `{task}_{anchor[2:]}_{k}.sql`: numbering has no gaps. */
  predicate Numbered(out: seq<Emission>, task: string) {
    forall k | 0 <= k < |out| :: out[k].name == FileName(task, out[k].anchor, k + 1)
  }

  /** A step either flushes or leaves the written files as they were. */
  lemma StepOutput(st: SplitState, rawLine: string, table: map<string, string>, task: string)
    requires Inv(st, table)
    ensures Step(st, rawLine, table, task).out == st.out || Step(st, rawLine, table, task).out == Flush(st, table, task)
  {
    var line := RStripNewlines(rawLine);
    if StartsWith(Strip(line), "--") && Lower(FirstWord(Strip(line))) in table {
      KnownAnchorSwitches(st, rawLine, table, task);
    } else if StartsWith(Strip(line), "--") {
      UnknownAnchorDiscards(st, rawLine, table, task);
    } else {
      TextLineBufferedOnlyUnderAnchor(st, rawLine, table, task);
    }
  }

  lemma FlushNumbered(st: SplitState, table: map<string, string>, task: string)
    requires Inv(st, table) && Numbered(st.out, task)
    ensures Numbered(Flush(st, table, task), task)
  {
    if st.anchor.Some? && |st.buffer| > 0 && table[st.anchor.value] != "WARNING" {
      var a := st.anchor.value;
      var e := Emission(table[a], FileName(task, a, |st.out| + 1), a,
                        st.buffer, Strip(Join(st.buffer, "\n")) + "\n", Dangers(st.buffer));
      assert Flush(st, table, task) == st.out + [e];
      NumberedSnoc(st.out, e, task);
    }
  }

  /** A file named with the next number keeps the numbering. */
  lemma NumberedSnoc(out: seq<Emission>, e: Emission, task: string)
    requires Numbered(out, task) && e.name == FileName(task, e.anchor, |out| + 1)
    ensures Numbered(out + [e], task)
  {
    forall k | 0 <= k < |out| + 1 ensures (out + [e])[k].name == FileName(task, (out + [e])[k].anchor, k + 1) {
      if k < |out| {
        assert (out + [e])[k] == out[k];
      }
    }
  }

  lemma {:induction false} RunNumbered(lines: seq<string>, table: map<string, string>, task: string)
    ensures Numbered(Run(lines, table, task).out, task)
  {
    if |lines| > 0 {
      var st := Run(lines[..|lines| - 1], table, task);
      RunNumbered(lines[..|lines| - 1], table, task);
      StepOutput(st, lines[|lines| - 1], table, task);
      FlushNumbered(st, table, task);
    }
  }

  /** Output files are numbered 1, 2, 3, ... in the order they are written. */
  lemma FilesNumberedWithoutGaps(lines: seq<string>, table: map<string, string>, task: string)
    ensures Numbered(SplitFile(lines, table, task), task)
  {
    RunNumbered(lines, table, task);
    FlushNumbered(Run(lines, table, task), table, task);
  }

  /** What every written file satisfies: its anchor is recognised and its directory is the
      anchor's (never `WARNING`); it holds at least one line and no comment line; its text
      is the lines joined, stripped, plus one newline; its warnings are the dangerous words. */
  predicate WellFormed(e: Emission, table: map<string, string>) {
    && e.anchor in table && e.dir == table[e.anchor] && e.dir != "WARNING"
    && |e.lines| > 0
    && (forall l | l in e.lines :: !IsComment(l))
    && e.content == Strip(Join(e.lines, "\n")) + "\n"
    && e.dangers == Dangers(e.lines)
  }

  /** The loop invariant behind the properties below; `seen` counts the lines consumed. */
  predicate Good(st: SplitState, table: map<string, string>, seen: nat) {
    && Inv(st, table)
    && (forall l | l in st.buffer :: !IsComment(l))
    && (forall e | e in st.out :: WellFormed(e, table))
    && |st.out| + (if |st.buffer| > 0 then 1 else 0) <= seen
  }

  lemma FlushGood(st: SplitState, table: map<string, string>, seen: nat, task: string)
    requires Good(st, table, seen)
    ensures forall e | e in Flush(st, table, task) :: WellFormed(e, table)
    ensures |Flush(st, table, task)| <= seen
  {
  }

  lemma StepGood(st: SplitState, rawLine: string, table: map<string, string>, seen: nat, task: string)
    requires Good(st, table, seen)
    ensures Good(Step(st, rawLine, table, task), table, seen + 1)
  {
    var line := RStripNewlines(rawLine);
    if IsComment(line) {
      FlushGood(st, table, seen, task);
      if Lower(FirstWord(Strip(line))) in table {
        KnownAnchorSwitches(st, rawLine, table, task);
      } else {
        UnknownAnchorDiscards(st, rawLine, table, task);
      }
    } else {
      TextLineBufferedOnlyUnderAnchor(st, rawLine, table, task);
    }
  }

  lemma {:induction false} RunGood(lines: seq<string>, table: map<string, string>, task: string)
    ensures Good(Run(lines, table, task), table, |lines|)
  {
    if |lines| > 0 {
      RunGood(lines[..|lines| - 1], table, task);
      StepGood(Run(lines[..|lines| - 1], table, task), lines[|lines| - 1], table, |lines| - 1, task);
    }
  }

  /** Every file the splitter writes is well formed, and it writes at most one file per
      line of the script. */
  lemma WrittenFilesWellFormed(lines: seq<string>, table: map<string, string>, task: string)
    ensures forall e | e in SplitFile(lines, table, task) :: WellFormed(e, table)
    ensures |SplitFile(lines, table, task)| <= |lines|
  {
    RunGood(lines, table, task);
    FlushGood(Run(lines, table, task), table, |lines|, task);
  }
}
