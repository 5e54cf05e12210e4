# Release splitter: a Dafny model

The repository turns one large SQL release script into many small files. Two
generations of the splitter and one companion script are modelled:

- `file_parser.py` (the current splitter). It expands `${a.b.c}` placeholders in its
  YAML configuration (`env_subst`). It classifies a DDL statement into a folder using
  the configurable `object_type_map` (`object_type_from_ddl`). It matches a line
  against a `{name}` template (`parse_template`). It fills `{name}` holes in path
  templates (`render_path`, `apply_template`, and the output-path step of `main`).
  It also splits `schema.object` names (`parse_object_dot`).
- `file_parser_old.py` (the older splitter). It cuts a release into typed blocks
  between begin and end markers (`parse_blocks_from_release`). It classifies DDL with
  a fixed expression (`object_type_from_ddl`). It resolves where each block goes
  (`resolve_output_path`). Its `main` loop then writes each selected block and flags
  paths that contain `unknown`.
- `parse_sql.py`. It builds an anchor table from the parameters (`get_param`, lines
  51-56). It splits a script at `--anchor` comments into numbered files, one per
  anchor section. It reports the dangerous DDL/DML words found in each written file.

Modules:

| module | models |
|---|---|
| `Wrappers` | `Option` and `Result`, which model `None` and raised exceptions |
| `Text` | the Python `str` operations used: `strip`, `rstrip('\n')`, `find`, `replace`, `split`, `lower`/`upper`, `str(int)` |
| `OrderedDict` | Python's insertion-ordered `dict` as a sequence of pairs, with assignment |
| `EnvSubst` | `env_subst` over YAML values |
| `Paths` | `parse_object_dot` (both versions), `render_path`, `apply_template`, the output path of `main` in `file_parser.py` |
| `TemplateMatch` | `parse_template`, including the `{...}` matches `re.finditer` finds |
| `Classifier` | both `object_type_from_ddl` versions, with a matcher for literals and `\s+` under `re.IGNORECASE` |
| `Blocks` | `BlockPattern` and `parse_blocks_from_release` |
| `Release` | `resolve_output_path` and the per-block loop of `main` in `file_parser_old.py` |
| `ParseSql` | `get_param`, the anchor table, the splitting loop and the end-of-file flush of `parse_sql.py` |

Loops in the source become methods with loop invariants. Each method is either proved
equal to a recursive specification function, about which the properties are proved,
or given a direct specification (`ParseSql.GetParam`). Raised exceptions are `Err` values that name the exception. A dictionary
value of `None` is `Some(None)`, and a missing key is `None`.

Some behaviours of the code are easy to miss, or evidently not what its authors had in
mind. The model follows the code as written, and these lemmas show them:

- `CREATE OR REPLACE VIEW` in upper case is classified `unknown`, because only the
  lower-case text `or replace` is removed (`Classifier.UpperCaseOrReplaceUnknown`).
- The output path gets one `replace("//", "/")` pass. That pass turns `a///b` into
  `a//b`, so a doubled separator survives (`Paths.TripleSlashLeavesDouble`). Without
  a run of three slashes, no doubled separator remains (`Paths.CollapsedNoDoubleSlash`).
- Rendering a template and matching the result against the same template gives the
  value back for one placeholder (`TemplateMatch.RenderThenParse`). With two
  placeholders it fails instead, because `parse_template` uses a position in the line
  (`match_start`) as a position in the template
  (`TemplateMatch.CursorReusedAsTemplateIndex`, `TemplateMatch.RenderThenParseTwoHoles`).
- The older classifier's alternative `external\s+ table` needs a blank and then a
  literal space. So `create external table` (one blank) is `unknown`, and two blanks
  give `external__table` (`Classifier.LegacyExternalSingleBlankUnknown`,
  `Classifier.LegacyExternalTwoBlanks`). Its `fuction` alternative is spelled that way
  in the code and is kept.
- A block whose end marker never comes runs to the end of the release and is still
  emitted, with no warning (`Blocks.SpansOrdered`: only the last span may be
  unterminated).
- The `if not parts` branch at parse_sql.py:88-90 can never run, because a stripped
  line that starts with `--` has a first word. The model has no such branch.
- A `model` block whose `dag_id` is `None` renders the text `None` into the path
  (`Release.ModelPathFilled`).
- For `loader` and `dag` blocks, the template is looked up before `dag_id.upper()` is
  called. So a missing template is reported as a `KeyError` before a `None` `dag_id`
  is reported (`Release.LoaderPath`, `Release.DagPath`).

## Model

| member | source | states |
|---|---|---|
| Text.StripIsTrim | file_parser_old.py:57 | `strip()` returns the infix of its input left after cutting off all leading and all trailing whitespace: everything cut is whitespace, and the result neither starts nor ends with whitespace |
| Text.StrippedIsFixed | file_parser_old.py:57 | `strip()` leaves a string unchanged exactly when it already neither starts nor ends with whitespace |
| Text.StripIdempotent | file_parser_old.py:144 | stripping the already-stripped block content again changes nothing |
| Text.RStripNewlines | parse_sql.py:83 | `rstrip('\n')` removes exactly the trailing newlines: a prefix remains, every removed character is a newline, and the result does not end in one |
| Text.FindFirst | file_parser.py:134 | `find` returns the first occurrence at or after the start position, and -1 (None) only when there is none |
| Text.FindIs | file_parser.py:134 | an occurrence with no earlier one at or after the start is what `find` returns |
| Text.Split | file_parser.py:29 | the pieces of `split('.')` contain no dot, and joining them with dots gives the input back |
| Text.ReplaceAbsent | file_parser.py:97 | `replace` leaves a string without the pattern unchanged |
| Text.ReplaceAtStart | file_parser.py:97 | `replace` turns an occurrence at the start into the replacement and goes on after it |
| Text.FirstWord | parse_sql.py:87 | the first word of `split()` is the longest whitespace-free prefix |
| Text.NatToString | parse_sql.py:103 | `str(n)` is a non-empty string of decimal digits, with a leading `0` only for zero |
| Text.NatToStringValue | parse_sql.py:103 | the digits of `str(n)` read back as `n` |
| Text.LowerNoUpper | parse_sql.py:111 | lower-casing text without capital letters leaves it unchanged |
| OrderedDict.IndexOf | file_parser_old.py:48 | the position of a key is that of its first pair, and there is no position only when the key is absent |
| OrderedDict.GetIsFirst | file_parser.py:32 | `d.get(k)` is the value of the first pair with key `k`, and `None` exactly when no pair has that key |
| OrderedDict.PutGet | file_parser_old.py:48 | after `d[k] = v`, `d[k]` is `v`, every other key reads as before, and a new key is appended at the end of the key order |
| OrderedDict.PutKeepsUniqueKeys | file_parser_old.py:48 | assignment never creates a duplicate key |
| OrderedDict.PutKeySet | file_parser_old.py:48 | assignment adds its key to the key set and changes nothing else in it |
| EnvSubst.NameRun | file_parser.py:37 | the placeholder name is the longest run of `[a-zA-Z0-9_.]`, and the character after it is not a name character |
| EnvSubst.PlaceholderAt | file_parser.py:37 | a recognised placeholder is literally `${name}` with a valid name at the start of the text |
| EnvSubst.NoPlaceholderUnchanged | file_parser.py:37 | a string without `$` comes back unchanged |
| EnvSubst.PlainPrefixCopied | file_parser.py:37 | text before the first `$` is copied unchanged in front of the substituted rest |
| EnvSubst.PlainHeadCopied | file_parser.py:37 | a first character other than `$` is copied and the rest is substituted |
| EnvSubst.PlaceholderReplaced | file_parser.py:28-37 | `${name}` after plain text is replaced by its value (or left as written when the path is missing), and substitution continues after it |
| EnvSubst.PlaceholderFirst | file_parser.py:28-37 | a placeholder at the start of the text is replaced, and substitution continues after it |
| EnvSubst.WalkConcat | file_parser.py:30-34 | walking the dotted path `a.b` is walking `a`, then walking `b` from what `a` found, and it stops at the first missing key |
| EnvSubst.FirstError | file_parser.py:39-41 | a collection is substituted without error exactly when every element is; otherwise the error is that of the first failing element, the one Python raises |
| EnvSubst.Subst | file_parser.py:25-43 | substitution keeps the shape of the value: strings stay strings, dicts keep their keys in order, lists keep their length, and other scalars are unchanged |
| EnvSubst.DollarFreeUnchanged | file_parser.py:25-43 | a value whose strings contain no `$` is returned unchanged, at every depth |
| Paths.ParseObjectDot | file_parser.py:76-79 | with a dot, the name splits at its first dot (the schema part has no dot and the parts rejoin to the input); without one, the schema is `unknown` |
| Paths.LegacyParseObjectDot | file_parser_old.py:87-91 | the result is either two dot-free parts that rejoin to the input, or `unknown` with the input |
| Paths.LegacyParseObjectDotSplitsOneDot | file_parser_old.py:88-91 | a name with exactly one dot splits into its two parts |
| Paths.RenderPath | file_parser.py:94-98 | the loop of `render_path` computes `Rendered`: every pair's `{key}` replaced in order |
| Paths.ApplyTemplate | file_parser.py:101-108 | a missing template gives the empty text; otherwise the text with every `{key}` replaced by `str` of its value, in parameter order |
| Paths.ReplaceFillsHole | file_parser.py:97 | replacing `{k}` in a brace-free assembled template fills exactly the holes named `k` |
| Paths.RenderedFillsHoles | file_parser.py:94-98 | rendering a brace-free assembled template fills every hole whose name has a pair with that pair's value, and leaves the other holes as written |
| Paths.HoleAbsent | file_parser.py:97 | text without `{` contains no `{k}` pattern, so `replace` skips it |
| Paths.ReplaceAtHole | file_parser.py:97 | at a hole, `replace` substitutes exactly when the hole's name is the key |
| Paths.UpdatedGet | file_parser.py:210-211 | after `params.update(match_vars)`, a key reads from `match_vars` when present there, otherwise from the base parameters |
| Paths.BlockParamsGet | file_parser.py:206-217 | the block parameters: `base` and `dag_folder`, then the match variables over them; `object_type` is stripped, lower-cased and mapped (raw when unmapped); a `None` object type with a map fails |
| Paths.FirstNone | file_parser.py:227-228 | the first declared value that is `None`, if any |
| Paths.ParamValues | file_parser.py:222-224 | the loop collects exactly `DeclaredValues` |
| Paths.OutputPath | file_parser.py:220-229 | the output path is the template with each declared name replaced in order and then one `//` pass; a `None` value is a `TypeError` |
| Paths.PairsGet | file_parser.py:222-228 | each declared name is bound to its parameter's value, or to the empty string |
| Paths.OutputPathFillsDeclared | file_parser.py:220-229 | when the path succeeds, no declared parameter is `None`, and the path is the template with its declared holes filled, collapsed |
| Paths.CollapsedNoDoubleSlash | file_parser.py:229 | without `///` in the input, the collapsed path has no `//` |
| Paths.TripleSlashLeavesDouble | file_parser.py:229 | one `replace("//", "/")` pass turns `a///b` into `a//b` |
| TemplateMatch.CloseFrom | file_parser.py:118 | the position found is a `}` at or after the start |
| TemplateMatch.CloseFromFirst | file_parser.py:118 | it is the first `}` at or after the start, and there is none when nothing is found |
| TemplateMatch.HolesFromValid | file_parser.py:118 | every `{name}` match `finditer` finds has a non-empty name without `}`, and the matches are in order without overlapping |
| TemplateMatch.HolesOfAssembled | file_parser.py:118 | for a template built from brace-free text and named holes, the matches are exactly its holes, at their offsets |
| TemplateMatch.OneHole | file_parser.py:118 | `A{x}B` has the single match `{x}` at `len(A)` |
| TemplateMatch.TwoHoles | file_parser.py:118 | `A{x}B{y}C` has exactly the two matches `{x}` and `{y}`, at their offsets |
| TemplateMatch.ScanTurnFound | file_parser.py:127-146 | in the loop, a found segment extends the result by one binding and moves the cursor |
| TemplateMatch.ScanTurnMissing | file_parser.py:133-138 | a missing segment raises `ValueError` naming that segment |
| TemplateMatch.ScanStopsAtError | file_parser.py:136-138 | once a segment is missing, the later placeholders do not change the outcome |
| TemplateMatch.ParseTemplate | file_parser.py:111-150 | a non-string template raises `TypeError`; a template with no placeholder gives `{}`; otherwise the loop computes `ParseTemplateOf` |
| TemplateMatch.ScanKeys | file_parser.py:127-148 | the loop binds exactly the placeholder names, each once, and every value is stripped or `None` |
| TemplateMatch.ParseTemplateKeys | file_parser.py:111-150 | a result is only given for a string template, and it binds exactly the template's placeholder names, each to a stripped value or `None` |
| TemplateMatch.OneHoleParse | file_parser.py:127-148 | for `A{x}B` and a line starting with `A`, the result binds `x` to what follows `A` up to `B` |
| TemplateMatch.ReadBetween | file_parser.py:142-146 | in `A v B`, where `B` does not start inside `v`, the value read is `v` stripped |
| TemplateMatch.SinglePlaceholderRoundTrip | file_parser.py:127-148 | matching `A v B` against `A{x}B` binds `x` to `v` stripped, or `None` when nothing follows `A` |
| TemplateMatch.TrailingPlaceholderCapturesEmpty | file_parser.py:143-145 | a placeholder at the end of the template captures the empty string, because the empty rest is found at the cursor |
| TemplateMatch.SuffixAtCursorCapturesEmpty | file_parser.py:143-146 | when the rest of the template starts right at the cursor, the value is empty |
| TemplateMatch.RenderOneHole | file_parser.py:94-98 | rendering `A{x}B` with `x = v` gives `A v B` |
| TemplateMatch.RenderThenParse | file_parser.py:111-150 | for one placeholder, matching a rendered line against its template gives back the stripped value |
| TemplateMatch.RenderTwoHoles | file_parser.py:94-98 | rendering `A{x}B{y}C` gives `A v B w C` |
| TemplateMatch.CursorReusedAsTemplateIndex | file_parser.py:133-138 | with two placeholders, the second segment is cut from the template at the line position, so it is `{x}B` and is never found in a brace-free line |
| TemplateMatch.RenderThenParseTwoHoles | file_parser.py:133-138 | matching a rendered two-placeholder line against its own template raises `ValueError` |
| Classifier.RunLen | file_parser.py:65 | the whitespace run at a position is maximal |
| Classifier.Ends | file_parser.py:65 | every end position the matcher offers lies within the text |
| Classifier.EndsSound | file_parser.py:65 | each end position offered is the end of a real match of the tokens (literals ignoring case, `\s+` one or more whitespace) |
| Classifier.EndsComplete | file_parser.py:65 | every match of the tokens is offered |
| Classifier.GroupAtCorrect | file_parser.py:65-66 | at a position, the group found satisfies `create\s+(alts)\s+`, and there is none only when the expression does not match there |
| Classifier.SearchLeftmost | file_parser.py:66 | `re.search` reports the leftmost position where the expression matches, and none when it matches nowhere |
| Classifier.ValueFor | file_parser.py:70-72 | the value of the first key whose canonical form equals the group, and none when no key's does |
| Classifier.ObjectTypeRange | file_parser.py:55-73 | the answer is `unknown` or one of the map's values |
| Classifier.ObjectTypeMatched | file_parser.py:60-73 | with `or replace` removed: no match anywhere gives `unknown`; otherwise, at the leftmost match, the first key whose canonical form equals the group gives its value, and no such key gives `unknown`; any other answer comes from such a key |
| Classifier.NoLowerOUnchanged | file_parser.py:60 | text without a lower-case `o` is not changed by removing `or replace` |
| Classifier.UpperCaseOrReplaceUnknown | file_parser.py:60-73 | `CREATE OR REPLACE VIEW v` with the map `view: views` is classified `unknown` |
| Classifier.LegacyObjectTypeSpec | file_parser_old.py:79-83 | the older classifier answers `unknown` exactly when the search fails; otherwise it answers the canonical group of the leftmost match, which is never `unknown` |
| Classifier.LegacyGroupHead | file_parser_old.py:80-82 | a group matched by a fixed alternative never canonicalises to `unknown` |
| Classifier.LegacyExternalSingleBlankUnknown | file_parser_old.py:80-83 | `create external table t` is classified `unknown` |
| Classifier.LegacyExternalTwoBlanks | file_parser_old.py:80-82 | `create external  table t` (two blanks) is classified `external__table` |
| Classifier.CanonicalTwoBlanks | file_parser_old.py:82 | the group `external  table` canonicalises to `external__table` |
| Blocks.FirstBeginFrom | file_parser_old.py:43-45 | the first pattern, from a given one on, whose begin marker matches the line, with its groups |
| Blocks.FirstBegin | file_parser_old.py:43-45 | the first pattern in list order whose begin marker matches, and none only when no pattern's does |
| Blocks.EndOf | file_parser_old.py:51-53 | the first line at or after the start that matches the end marker, or the end of the release; no line before it matches |
| Blocks.ParseBlocksFromRelease | file_parser_old.py:36-66 | the loop computes the recursive scan `Scan(lines, patterns, 0)` |
| Blocks.CaptureParams | file_parser_old.py:46-48 | the parameter loop computes `Captured`: names bound to groups 1, 2, … in order |
| Blocks.ReadContent | file_parser_old.py:49-53 | the content lines are those from the start to the first end-marker line, and the index stops there |
| Blocks.CapturedOkIff | file_parser_old.py:47-48 | capturing succeeds exactly when the pattern has at least as many groups as names, and otherwise fails with `IndexError` at group `len(groups)+1` |
| Blocks.CapturedGet | file_parser_old.py:46-48 | with distinct names, the parameters have the names as keys, in order, each bound to its group |
| Blocks.ScanSkips | file_parser_old.py:64-65 | a line no begin marker matches is passed over |
| Blocks.ScanCaptureFails | file_parser_old.py:46-48 | a capture error stops the whole scan with that error |
| Blocks.ScanMatched | file_parser_old.py:49-63 | a block beginning at a line comes first, and the scan resumes after its end line (or at the end of the release) |
| Blocks.SpansOrdered | file_parser_old.py:36-66 | blocks are found in release order and do not overlap; only the last can run to the end without an end line |
| Blocks.SpansShape | file_parser_old.py:43-61 | each block begins at a line its pattern's begin marker matches (the first such pattern), has no end-marker line inside, and ends at one or at the end |
| Blocks.SkippedLinesMatchNothing | file_parser_old.py:64-65 | every line outside the blocks matches no begin marker |
| Blocks.SpansFewerThanLines | file_parser_old.py:36-66 | there are never more blocks than lines |
| Blocks.ScanFollowsSpans | file_parser_old.py:49-58 | a successful scan returns one block per span, in order, with the pattern's name, the captured parameters and the stripped lines strictly inside |
| Blocks.ScanOkIff | file_parser_old.py:46-48 | the scan fails exactly when some block's pattern declares more parameters than its begin marker has groups |
| Release.Lookup | file_parser_old.py:168 | `patterns[key]` gives the template when the key is present and `KeyError` otherwise |
| Release.ObjectOf | file_parser_old.py:164 | `parse_object_dot(params["object"])`: `KeyError` without it, `AttributeError` for `None`, otherwise the older split |
| Release.UpperDagId | file_parser_old.py:186-190 | `params.get("dag_id", "unknown").upper()`: `UNKNOWN` without it, `AttributeError` for `None`, otherwise upper-cased |
| Release.ResolveOutputPath | file_parser_old.py:162-201 | the four block types have a path, every other type gives `None`; a missing or `None` object fails first, and `model` needs `dag_id` |
| Release.DdlPath | file_parser_old.py:163-173 | the errors of the `ddl` branch in evaluation order |
| Release.ModelPath | file_parser_old.py:174-183 | the errors of the `model` branch in evaluation order |
| Release.LoaderPath | file_parser_old.py:184-193 | the errors of the `loader` branch: the template is looked up before `dag_id.upper()` |
| Release.DagPath | file_parser_old.py:194-200 | the errors of the `dag` branch: the template is looked up before `dag_id.upper()` |
| Release.Subfolder | file_parser_old.py:165-166 | the classified type mapped through `object_type_map`, or the type itself when unmapped |
| Release.DdlPathFilled | file_parser_old.py:163-173 | a `ddl` path is the template with base, schema, mapped type and object name filled in |
| Release.ModelPathFilled | file_parser_old.py:174-183 | a `model` path is the template with base, `dag_id` (as `str`), schema and object name filled in |
| Release.LoaderPathFilled | file_parser_old.py:184-193 | a `loader` path is the template with base, upper-cased `dag_id` (`UNKNOWN` when absent), schema and object name filled in |
| Release.DagPathFilled | file_parser_old.py:194-200 | a `dag` path is the template with the DAG folder and upper-cased `dag_id` filled in |
| Release.UnrecognisedDdlIsFlagged | file_parser_old.py:163-173 | a DDL that classifies as `unknown` (unmapped) gets a path containing `unknown` |
| Release.UnknownSubfolderIsFlagged | file_parser_old.py:165-173 | whenever the subfolder is `unknown`, the path contains `unknown` |
| Release.Decide | file_parser_old.py:132-149 | an unselected type is skipped; for a selected one, an error of `resolve_output_path` is raised, an empty or missing path is skipped, and a path is written with the stripped content plus a newline, flagged exactly when it contains `unknown` |
| Release.WriteBlocks | file_parser_old.py:131-149 | the loop writes exactly what `Run` of the decisions gives, and stops at the first error |
| Release.RunWritesDecided | file_parser_old.py:131-149 | every file written was decided by a block before which no block failed |
| Release.RunFailsIff | file_parser_old.py:131-149 | the loop fails exactly when some block's decision fails |
| Release.RunFailsAtFirstError | file_parser_old.py:139 | the error reported is the first block's error |
| Release.RunWritesAtMostOnePerBlock | file_parser_old.py:131-149 | there are never more files written than blocks |
| ParseSql.GetParam | parse_sql.py:22-26 | the value of the first key equal to the name ignoring case, and `None` exactly when no key is |
| ParseSql.AddAnchors | parse_sql.py:54-56 | adding one dictionary's items extends the table by them, in order, and the allowed set is the table's keys |
| ParseSql.BuildAnchorTable | parse_sql.py:51-56 | the table maps each stripped, lower-cased key to its stripped directory, with later entries winning, and the allowed anchors are its keys |
| ParseSql.TableOfSnoc | parse_sql.py:55 | one more entry overwrites its normalised key |
| ParseSql.MapOfLastWins | parse_sql.py:55-56 | a key is in the table exactly when some entry has it, and it maps to the last such entry's value |
| ParseSql.WordsFoundExactly | parse_sql.py:112-114 | a word is reported exactly when it is one of the listed words and occurs whole (`\b` on both sides, ignoring case) |
| ParseSql.WordsFoundNoRepeats | parse_sql.py:112-114 | no word is reported twice |
| ParseSql.DangerWarnings | parse_sql.py:110-114 | the loop reports exactly the dangerous words of the space-joined, lower-cased buffer, in list order |
| ParseSql.Step | parse_sql.py:82-128 | one line keeps the loop invariant: the current anchor is recognised, and nothing is buffered without one |
| ParseSql.Run | parse_sql.py:78-128 | the invariant holds after any number of lines |
| ParseSql.SplitScript | parse_sql.py:78-147 | the loop and the final flush write exactly `SplitFile` |
| ParseSql.UnknownAnchorDiscards | parse_sql.py:118-122 | an unknown anchor discards the buffer and the current anchor, without writing |
| ParseSql.KnownAnchorSwitches | parse_sql.py:93-117 | a recognised anchor writes the pending buffer and becomes the current anchor with an empty buffer |
| ParseSql.TextLineBufferedOnlyUnderAnchor | parse_sql.py:126-128 | a non-comment line is buffered exactly when there is a current anchor, and writes nothing |
| ParseSql.StepOutput | parse_sql.py:93-128 | a line either leaves the written files as they were or flushes |
| ParseSql.FlushNumbered | parse_sql.py:103-106 | a flush names the file after the `task` parameter, the anchor without `--` and the next number |
| ParseSql.FilesNumberedWithoutGaps | parse_sql.py:103-141 | the k-th file written for a script is numbered k |
| ParseSql.StepGood | parse_sql.py:82-128 | one line keeps every written file well formed, and adds at most one file |
| ParseSql.WrittenFilesWellFormed | parse_sql.py:95-147 | every written file has a recognised anchor and its directory (never `WARNING`), at least one line and no comment line, the joined and stripped text plus a newline, and its dangerous words; there are at most as many files as lines |

## Left out

- File and console I/O is not modelled: `load_yaml`, `read_file_lines`, `ensure_dirs`,
  `write_file`, reading the template file in `apply_template`, `json.load` of the
  parameters, `os.listdir`, and directory creation. Files read are parameters (lines
  or text). Files written are values (`Written`, `Emission`).
- The absolute project root that `parse_sql.py` joins and normalises with `os.path` is
  left out. A written file carries the directory as it appears in the anchor table.
- Logging, `print` and `sys.exit` are left out. The warning for a path containing
  `unknown` is a flag on the written file. The dangerous-word warning is a list of
  words.
- The GUI (`dwh_gui/`), the DAG files and `make_release.py` are not part of this model.
- The outer scanning loop of `main` in `file_parser.py` (lines 182-205 and 230-255) is
  not part of this model. That covers begin and end template matching, header and
  footer templates, and writing. Only its parameter and output-path step (lines
  206-229) is modelled.
- General regular expressions are not modelled. The begin and end markers of a
  `BlockPattern` are abstract functions from a line to its groups (for `match`) or to
  a truth value. `get_block_patterns`, `build_block_patterns` and
  `BlockPattern.from_dict` only compile configuration, and are left out. The
  classifiers handle only literals and `\s+`, and `object_type_map` keys are assumed
  to contain no other regex metacharacters.
- Case folding (`lower`, `upper`, `re.IGNORECASE`) and `\w` are modelled for ASCII
  only. Python applies Unicode rules to both.
- EnvSubst.Subst: YAML floats, dates and other scalars besides strings, integers,
  booleans and null are not modelled. `str()` of a nested list or dict follows
  Python's `repr`, but quotes inside strings are not escaped.
- Paths.ParseObjectDot: a `None` argument is not modelled (the argument is a string).
- ParseSql.GetParam: the values of `params.json` are a type parameter. The anchor
  dictionaries are taken as string pairs, as the loop at lines 53-56 uses them.
- ParseSql.SplitScript: `task` is a string. `get_param("Task")` can return `None` or
  any JSON value, and the f-string at parse_sql.py:103 formats it with `str`. So a
  missing `Task` names the files `None_…sql`, and the model does not show that.
- ParseSql.BuildAnchorTable: the anchor dictionaries are given. A missing
  `Parsing anchor` makes `get_param` return `None`, and the loop at parse_sql.py:53
  then raises `TypeError`. That error is not modelled.
- `parse_template` used on end markers, and its use inside `main`, are left out
  together with that loop. `parse_template` itself is modelled in full.

