/**
  The second half of file_parser_old.py: `resolve_output_path`, which computes the
  file a block is written to from its type, its captured parameters and its content,
  and the loop of `main` that decides for each block whether it is written, with
  which text, and whether the write is reported as suspicious.

  The configuration is taken as already loaded: the path templates (`patterns`), the
  map from object type to sub-folder (`object_type_map`) and the selected block types
  (`parse_blocks`). Files are not written; the loop returns the writes it would make,
  in order. An exception raised by `resolve_output_path` ends the loop, and the writes
  made before it stand.
*/
module Release {
  import opened Wrappers
  import opened Text
  import opened OrderedDict
  import opened Paths
  import Classifier
  import opened Blocks

  /** What `resolve_output_path` can raise: `KeyError` for a missing parameter or
      template, `AttributeError` for a parameter whose group matched nothing (`None`
      has no `split` or `upper`). */
  datatype ResolveError = KeyError(key: string) | NoneHasNoMethod(param: string)

  /** `d[k]` on a dictionary of templates. */
  function Lookup(d: Dict<string>, k: string): (r: Result<string, ResolveError>)
    ensures r.Ok? <==> HasKey(d, k)
    ensures r.Ok? ==> Get(d, k) == Some(r.value)
    ensures r.Err? ==> r.error == KeyError(k)
  {
    match Get(d, k)
    case Some(v) => Ok(v)
    case None => Err(KeyError(k))
  }

  /** `parse_object_dot(params["object"])`. */
  function ObjectOf(params: Dict<Option<string>>): (r: Result<(string, string), ResolveError>)
    ensures !HasKey(params, "object") ==> r == Err(KeyError("object"))
    ensures Get(params, "object") == Some(None) ==> r == Err(NoneHasNoMethod("object"))
    ensures Get(params, "object").Some? && Get(params, "object").value.Some? ==>
      r == Ok(LegacyParseObjectDot(Get(params, "object").value.value))
  {
    match Get(params, "object")
    case None => Err(KeyError("object"))
    case Some(obj) =>
      if obj.None? then Err(NoneHasNoMethod("object")) else Ok(LegacyParseObjectDot(obj.value))
  }

  /** `params.get("dag_id", "unknown").upper()`. */
  function UpperDagId(params: Dict<Option<string>>): (r: Result<string, ResolveError>)
    ensures !HasKey(params, "dag_id") ==> r == Ok("UNKNOWN")
    ensures Get(params, "dag_id") == Some(None) ==> r == Err(NoneHasNoMethod("dag_id"))
    ensures Get(params, "dag_id").Some? && Get(params, "dag_id").value.Some? ==>
      r == Ok(Upper(Get(params, "dag_id").value.value))
  {
    match Get(params, "dag_id")
    case None => assert Upper("unknown") == "UNKNOWN"; Ok("UNKNOWN")
    case Some(d) => if d.None? then Err(NoneHasNoMethod("dag_id")) else Ok(Upper(d.value))
  }

  /** The four block types that have an output path. */
  predicate HasPath(btype: string) {
    btype == "ddl" || btype == "model" || btype == "loader" || btype == "dag"
  }

  /** `resolve_output_path`: the errors are raised in the order Python evaluates the
      expressions (for `loader` and `dag` the template is looked up before `upper` is
      called), and the keyword arguments are substituted in the order written. */
  function ResolveOutputPath(btype: string, params: Dict<Option<string>>, content: string,
                             patterns: Dict<string>, outputBase: string, dagFolder: string,
                             objMap: Dict<string>): (r: Result<Option<string>, ResolveError>)
    ensures !HasPath(btype) <==> r == Ok(None)
    ensures r.Ok? && HasPath(btype) ==> r.value.Some?
    ensures btype in {"ddl", "model", "loader"} && !HasKey(params, "object") ==>
      r == Err(KeyError("object"))
    ensures btype in {"ddl", "model", "loader"} && Get(params, "object") == Some(None) ==>
      r == Err(NoneHasNoMethod("object"))
    ensures btype == "model" && ObjectOf(params).Ok? && !HasKey(params, "dag_id") ==>
      r == Err(KeyError("dag_id"))
  {
    var p :=
      if btype == "ddl" then DdlPath(params, content, patterns, outputBase, objMap)
      else if btype == "model" then ModelPath(params, patterns, outputBase)
      else if btype == "loader" then LoaderPath(params, patterns, outputBase)
      else if btype == "dag" then DagPath(params, patterns, dagFolder)
      else Ok("");
    if !HasPath(btype) then Ok(None)
    else if p.Err? then Err(p.error)
    else Ok(Some(p.value))
  }

  /** The `ddl` branch of `resolve_output_path`. */
  function DdlPath(params: Dict<Option<string>>, content: string, patterns: Dict<string>,
                   outputBase: string, objMap: Dict<string>): (r: Result<string, ResolveError>)
    ensures ObjectOf(params).Err? ==> r == Err(ObjectOf(params).error)
    ensures ObjectOf(params).Ok? && !HasKey(patterns, "ddl_path") ==> r == Err(KeyError("ddl_path"))
  {
    match ObjectOf(params)
    case Err(e) => Err(e)
    case Ok((schema, objectName)) =>
      match Lookup(patterns, "ddl_path")
      case Err(e) => Err(e)
      case Ok(t) =>
        Ok(Rendered(t, DdlKwargs(outputBase, schema, Subfolder(content, objMap), objectName)))
  }

  /** The `model` branch: `params["dag_id"]` must be present, and `None` renders as `None`. */
  function ModelPath(params: Dict<Option<string>>, patterns: Dict<string>, outputBase: string): (r: Result<string, ResolveError>)
    ensures ObjectOf(params).Err? ==> r == Err(ObjectOf(params).error)
    ensures ObjectOf(params).Ok? && !HasKey(params, "dag_id") ==> r == Err(KeyError("dag_id"))
    ensures ObjectOf(params).Ok? && HasKey(params, "dag_id") && !HasKey(patterns, "model_path") ==>
      r == Err(KeyError("model_path"))
  {
    match ObjectOf(params)
    case Err(e) => Err(e)
    case Ok((schema, objectName)) =>
      match Get(params, "dag_id")
      case None => Err(KeyError("dag_id"))
      case Some(dagId) =>
        match Lookup(patterns, "model_path")
        case Err(e) => Err(e)
        case Ok(t) =>
          Ok(Rendered(t, ObjectKwargs(outputBase, ShowOpt(dagId), schema, objectName)))
  }

  /** The `loader` branch: the upper-cased `dag_id`, `UNKNOWN` when not captured. */
  function LoaderPath(params: Dict<Option<string>>, patterns: Dict<string>, outputBase: string): (r: Result<string, ResolveError>)
    ensures ObjectOf(params).Err? ==> r == Err(ObjectOf(params).error)
    ensures ObjectOf(params).Ok? && !HasKey(patterns, "loader_path") ==> r == Err(KeyError("loader_path"))
    ensures ObjectOf(params).Ok? && HasKey(patterns, "loader_path") && UpperDagId(params).Err? ==>
      r == Err(UpperDagId(params).error)
  {
    match ObjectOf(params)
    case Err(e) => Err(e)
    case Ok((schema, objectName)) =>
      match Lookup(patterns, "loader_path")
      case Err(e) => Err(e)
      case Ok(t) =>
        match UpperDagId(params)
        case Err(e) => Err(e)
        case Ok(dagId) =>
          Ok(Rendered(t, ObjectKwargs(outputBase, dagId, schema, objectName)))
  }

  /** The `dag` branch: the DAG folder and the upper-cased `dag_id`. */
  function DagPath(params: Dict<Option<string>>, patterns: Dict<string>, dagFolder: string): (r: Result<string, ResolveError>)
    ensures !HasKey(patterns, "dag_python_file") ==> r == Err(KeyError("dag_python_file"))
    ensures HasKey(patterns, "dag_python_file") && UpperDagId(params).Err? ==> r == Err(UpperDagId(params).error)
  {
    match Lookup(patterns, "dag_python_file")
    case Err(e) => Err(e)
    case Ok(t) =>
      match UpperDagId(params)
      case Err(e) => Err(e)
      case Ok(dagId) => Ok(Rendered(t, DagKwargs(dagFolder, dagId)))
  }

  // ---------------------------------------------------------------------------
  // What the rendered paths hold

  /** Upper-casing adds no braces. */
  lemma UpperNoBraces(s: string)
    requires NoBraces(s)
    ensures NoBraces(Upper(s))
  {
  }

  /** The parts of a dotted object name hold no brace when the name holds none. */
  lemma ObjectPartsNoBraces(obj: string)
    requires NoBraces(obj)
    ensures NoBraces(LegacyParseObjectDot(obj).0) && NoBraces(LegacyParseObjectDot(obj).1)
  {
    var r := LegacyParseObjectDot(obj);
    if r != ("unknown", obj) {
      assert obj == r.0 + "." + r.1;
      assert forall c | c in r.0 :: c in obj;
      assert forall c | c in r.1 :: c in obj;
    }
  }

  /** A `dag` block's path is its template with `{dag_folder}` replaced by the DAG folder
      and `{dag_id}` by the upper-cased `dag_id` (`UNKNOWN` when it was not captured);
      any other placeholder is left as written. */
  lemma DagPathFilled(ps: seq<Piece>, params: Dict<Option<string>>, content: string,
                      patterns: Dict<string>, outputBase: string, dagFolder: string,
                      objMap: Dict<string>, dagId: string)
    requires WellFormed(ps) && Get(patterns, "dag_python_file") == Some(Assemble(ps))
    requires NoBraces(dagFolder) && NoBraces(dagId)
    requires (!HasKey(params, "dag_id") && dagId == "unknown") || Get(params, "dag_id") == Some(Some(dagId))
    ensures ResolveOutputPath("dag", params, content, patterns, outputBase, dagFolder, objMap)
      == Ok(Some(Assemble(Filled(ps, DagKwargs(dagFolder, Upper(dagId))))))
  {
    assert Upper("unknown") == "UNKNOWN";
    UpperNoBraces(dagId);
    LowerWordNoBraces("dag_folder");
    LowerWordNoBraces("dag_id");
    RenderedFillsHoles(ps, DagKwargs(dagFolder, Upper(dagId)));
  }

  /** The keyword arguments of `render_path` for a `dag` block. */
  function DagKwargs(dagFolder: string, dagId: string): Dict<string> {
    [("dag_folder", dagFolder), ("dag_id", dagId)]
  }

  /** The sub-folder of a `ddl` block: the classified object type looked up in the map,
      or the type itself when the map has no entry for it. */
  function Subfolder(content: string, objMap: Dict<string>): (r: string)
    ensures var t := Classifier.LegacyObjectType(content);
      (HasKey(objMap, t) ==> Get(objMap, t) == Some(r)) && (!HasKey(objMap, t) ==> r == t)
  {
    var t := Classifier.LegacyObjectType(content);
    Get(objMap, t).GetOr(t)
  }

  /** A word of lower-case letters and `_` holds no brace. */
  lemma LowerWordNoBraces(w: string)
    requires forall i | 0 <= i < |w| :: 'a' <= w[i] <= 'z' || w[i] == '_'
    ensures NoBraces(w)
  {
  }

  lemma UnknownHasNoBraces()
    ensures NoBraces("unknown")
  {
    LowerWordNoBraces("unknown");
  }

  /** The keyword arguments of `render_path` for a `ddl` block, in the order written. */
  function DdlKwargs(base: string, schema: string, objectType: string, objectName: string): Dict<string> {
    [("base", base), ("schema", schema), ("object_type", objectType), ("object_name", objectName)]
  }

  lemma DdlKwargsHaveNoBraces(base: string, schema: string, objectType: string, objectName: string)
    requires NoBraces(base) && NoBraces(schema) && NoBraces(objectType) && NoBraces(objectName)
    ensures var kvs := DdlKwargs(base, schema, objectType, objectName);
      forall i | 0 <= i < |kvs| :: NoBraces(kvs[i].0) && '{' !in kvs[i].1
    ensures Get(DdlKwargs(base, schema, objectType, objectName), "object_type") == Some(objectType)
  {
    var kvs := DdlKwargs(base, schema, objectType, objectName);
    LowerWordNoBraces("base");
    LowerWordNoBraces("schema");
    LowerWordNoBraces("object_type");
    LowerWordNoBraces("object_name");
    assert kvs[0].0[0] == 'b' && kvs[1].0[0] == 's' && kvs[2].0 == "object_type";
    IndexOfIsFirst(kvs, "object_type", 2);
  }

  /** A `ddl` block whose object is `schema.name` is written under its template with
      `{base}`, `{schema}`, `{object_type}` and `{object_name}` filled in, the object
      type being the sub-folder its content classifies to. */
  lemma DdlPathFilled(ps: seq<Piece>, params: Dict<Option<string>>, content: string,
                      patterns: Dict<string>, outputBase: string, dagFolder: string,
                      objMap: Dict<string>, obj: string)
    requires WellFormed(ps) && Get(patterns, "ddl_path") == Some(Assemble(ps))
    requires Get(params, "object") == Some(Some(obj))
    requires NoBraces(outputBase) && NoBraces(obj) && NoBraces(Subfolder(content, objMap))
    ensures var (schema, name) := LegacyParseObjectDot(obj);
      ResolveOutputPath("ddl", params, content, patterns, outputBase, dagFolder, objMap)
      == Ok(Some(Assemble(Filled(ps, DdlKwargs(outputBase, schema, Subfolder(content, objMap), name)))))
  {
    ObjectPartsNoBraces(obj);
    var (schema, name) := LegacyParseObjectDot(obj);
    var kvs := DdlKwargs(outputBase, schema, Subfolder(content, objMap), name);
    DdlKwargsHaveNoBraces(outputBase, schema, Subfolder(content, objMap), name);
    RenderedFillsHoles(ps, kvs);
  }

  /** The keyword arguments of `render_path` for a `model` or `loader` block. */
  function ObjectKwargs(base: string, dagId: string, schema: string, objectName: string): Dict<string> {
    [("base", base), ("dag_id", dagId), ("schema", schema), ("object_name", objectName)]
  }

  lemma ObjectKwargsHaveNoBraces(base: string, dagId: string, schema: string, objectName: string)
    requires NoBraces(base) && NoBraces(dagId) && NoBraces(schema) && NoBraces(objectName)
    ensures var kvs := ObjectKwargs(base, dagId, schema, objectName);
      forall i | 0 <= i < |kvs| :: NoBraces(kvs[i].0) && '{' !in kvs[i].1
  {
    LowerWordNoBraces("base");
    LowerWordNoBraces("dag_id");
    LowerWordNoBraces("schema");
    LowerWordNoBraces("object_name");
  }

  /** A `loader` block whose object is `schema.name` is written under its template with
      `{base}`, `{schema}` and `{object_name}` filled in and `{dag_id}` replaced by the
      upper-cased `dag_id`, `UNKNOWN` when it was not captured. */
  lemma LoaderPathFilled(ps: seq<Piece>, params: Dict<Option<string>>, content: string,
                         patterns: Dict<string>, outputBase: string, dagFolder: string,
                         objMap: Dict<string>, obj: string, dagId: string)
    requires WellFormed(ps) && Get(patterns, "loader_path") == Some(Assemble(ps))
    requires Get(params, "object") == Some(Some(obj))
    requires (!HasKey(params, "dag_id") && dagId == "unknown") || Get(params, "dag_id") == Some(Some(dagId))
    requires NoBraces(outputBase) && NoBraces(obj) && NoBraces(dagId)
    ensures var (schema, name) := LegacyParseObjectDot(obj);
      ResolveOutputPath("loader", params, content, patterns, outputBase, dagFolder, objMap)
      == Ok(Some(Assemble(Filled(ps, ObjectKwargs(outputBase, Upper(dagId), schema, name)))))
  {
    assert Upper("unknown") == "UNKNOWN";
    ObjectPartsNoBraces(obj);
    UpperNoBraces(dagId);
    var (schema, name) := LegacyParseObjectDot(obj);
    ObjectKwargsHaveNoBraces(outputBase, Upper(dagId), schema, name);
    RenderedFillsHoles(ps, ObjectKwargs(outputBase, Upper(dagId), schema, name));
  }

  /** A `model` block whose object is `schema.name` and which captured `dag_id` is
      written under its template with `{dag_id}` replaced by the captured text as it was
      (`None` when the group matched nothing). */
  lemma ModelPathFilled(ps: seq<Piece>, params: Dict<Option<string>>, content: string,
                        patterns: Dict<string>, outputBase: string, dagFolder: string,
                        objMap: Dict<string>, obj: string, dagId: Option<string>)
    requires WellFormed(ps) && Get(patterns, "model_path") == Some(Assemble(ps))
    requires Get(params, "object") == Some(Some(obj)) && Get(params, "dag_id") == Some(dagId)
    requires NoBraces(outputBase) && NoBraces(obj) && (dagId.Some? ==> NoBraces(dagId.value))
    ensures var (schema, name) := LegacyParseObjectDot(obj);
      ResolveOutputPath("model", params, content, patterns, outputBase, dagFolder, objMap)
      == Ok(Some(Assemble(Filled(ps, ObjectKwargs(outputBase, ShowOpt(dagId), schema, name)))))
  {
    ObjectPartsNoBraces(obj);
    if dagId.None? {
      LowerWordNoBraces("None"[1..]);
      assert "None" == ['N'] + "None"[1..];
    }
    var (schema, name) := LegacyParseObjectDot(obj);
    ObjectKwargsHaveNoBraces(outputBase, ShowOpt(dagId), schema, name);
    RenderedFillsHoles(ps, ObjectKwargs(outputBase, ShowOpt(dagId), schema, name));
  }

  /** The text of a literal piece occurs in the assembled template. */
  lemma {:induction false} AssembleHasLit(ps: seq<Piece>, i: nat)
    requires i < |ps| && ps[i].Lit?
    ensures Contains(Assemble(ps), ps[i].text)
    decreases |ps|
  {
    var head := if ps[0].Lit? then ps[0].text else "{" + ps[0].name + "}";
    assert Assemble(ps) == head + Assemble(ps[1..]);
    if i == 0 {
      assert OccursAt(Assemble(ps), ps[0].text, 0);
    } else {
      AssembleHasLit(ps[1..], i - 1);
      var j :| 0 <= j <= |Assemble(ps[1..])| && OccursAt(Assemble(ps[1..]), ps[i].text, j);
      OccursAfter(head, Assemble(ps[1..]));
      assert OccursAt(Assemble(ps), ps[i].text, |head| + j);
    }
  }

  /** A DDL whose kind the classifier does not recognise lands in an `unknown` folder
      when the template has an `{object_type}` placeholder and the map has no entry for
      `unknown`, so the write is flagged. */
  lemma UnrecognisedDdlIsFlagged(ps: seq<Piece>, k: nat, params: Dict<Option<string>>, content: string,
                                 patterns: Dict<string>, outputBase: string, dagFolder: string,
                                 objMap: Dict<string>, obj: string)
    requires WellFormed(ps) && Get(patterns, "ddl_path") == Some(Assemble(ps))
    requires k < |ps| && ps[k] == Hole("object_type")
    requires Get(params, "object") == Some(Some(obj))
    requires NoBraces(outputBase) && NoBraces(obj)
    requires Classifier.LegacyObjectType(content) == "unknown" && !HasKey(objMap, "unknown")
    ensures var r := ResolveOutputPath("ddl", params, content, patterns, outputBase, dagFolder, objMap);
      r.Ok? && r.value.Some? && Contains(r.value.value, "unknown")
  {
    assert Subfolder(content, objMap) == "unknown";
    UnknownSubfolderIsFlagged(ps, k, params, content, patterns, outputBase, dagFolder, objMap, obj);
  }

  /** The same for any block whose sub-folder comes out as `unknown`. */
  lemma UnknownSubfolderIsFlagged(ps: seq<Piece>, k: nat, params: Dict<Option<string>>, content: string,
                                  patterns: Dict<string>, outputBase: string, dagFolder: string,
                                  objMap: Dict<string>, obj: string)
    requires WellFormed(ps) && Get(patterns, "ddl_path") == Some(Assemble(ps))
    requires k < |ps| && ps[k] == Hole("object_type")
    requires Get(params, "object") == Some(Some(obj))
    requires NoBraces(outputBase) && NoBraces(obj)
    requires Subfolder(content, objMap) == "unknown"
    ensures var r := ResolveOutputPath("ddl", params, content, patterns, outputBase, dagFolder, objMap);
      r.Ok? && r.value.Some? && Contains(r.value.value, "unknown")
  {
    UnknownHasNoBraces();
    DdlPathFilled(ps, params, content, patterns, outputBase, dagFolder, objMap, obj);
    var (schema, name) := LegacyParseObjectDot(obj);
    UnknownFolderShows(ps, k, outputBase, schema, name);
  }

  lemma UnknownFolderShows(ps: seq<Piece>, k: nat, base: string, schema: string, name: string)
    requires k < |ps| && ps[k] == Hole("object_type")
    requires NoBraces(base) && NoBraces(schema) && NoBraces(name)
    ensures Contains(Assemble(Filled(ps, DdlKwargs(base, schema, "unknown", name))), "unknown")
  {
    var kvs := DdlKwargs(base, schema, "unknown", name);
    UnknownHasNoBraces();
    DdlKwargsHaveNoBraces(base, schema, "unknown", name);
    assert Filled(ps, kvs)[k] == Lit("unknown");
    AssembleHasLit(Filled(ps, kvs), k);
  }

  // ---------------------------------------------------------------------------
  // The loop of main

  /** The loaded configuration the loop consults. */
  datatype Config = Config(
    parseBlocks: set<string>,
    patterns: Dict<string>,
    outputBase: string,
    dagFolder: string,
    objMap: Dict<string>)

  /** One file written: the block type, the path, the text and whether a warning is
      logged instead of the plain report. */
  datatype Written = Written(kind: string, path: string, text: string, warned: bool)

  /** The loop body for one block: skipped when its type is not selected or its path is
      empty, otherwise written with its stripped content and a final newline. */
  function Decide(b: Block, cfg: Config): (r: Result<Option<Written>, ResolveError>)
    ensures b.kind !in cfg.parseBlocks ==> r == Ok(None)
    ensures r.Ok? && r.value.Some? ==>
      && b.kind in cfg.parseBlocks && HasPath(b.kind)
      && r.value.value.kind == b.kind
      && r.value.value.path != ""
      && ResolveOutputPath(b.kind, b.params, b.content, cfg.patterns, cfg.outputBase,
                           cfg.dagFolder, cfg.objMap) == Ok(Some(r.value.value.path))
      && r.value.value.text == Strip(b.content) + "\n"
      && (r.value.value.warned <==> Contains(r.value.value.path, "unknown"))
    ensures b.kind in cfg.parseBlocks ==>
      var o := ResolveOutputPath(b.kind, b.params, b.content, cfg.patterns, cfg.outputBase,
                                 cfg.dagFolder, cfg.objMap);
      && (o.Err? ==> r == Err(o.error))
      && (o.Ok? && (o.value.None? || o.value.value == "") ==> r == Ok(None))
      && (o.Ok? && o.value.Some? && o.value.value != "" ==> r.Ok? && r.value.Some?)
  {
    if b.kind !in cfg.parseBlocks then Ok(None)
    else
      match ResolveOutputPath(b.kind, b.params, b.content, cfg.patterns, cfg.outputBase,
                              cfg.dagFolder, cfg.objMap)
      case Err(e) => Err(e)
      case Ok(None) => Ok(None)
      case Ok(Some(path)) =>
        if path == "" then Ok(None)
        else Ok(Some(Written(b.kind, path, Strip(b.content) + "\n", Contains(path, "unknown"))))
  }

  /** What the loop leaves behind: the files written, in order, and the exception that
      ended it, if any. */
  datatype Outcome = Outcome(written: seq<Written>, failure: Option<ResolveError>)

  function AsSeq(w: Option<Written>): seq<Written> {
    if w.Some? then [w.value] else []
  }

  /** The decision for each block, in order. */
  function Decisions(blocks: seq<Block>, cfg: Config): (ds: seq<Result<Option<Written>, ResolveError>>)
    ensures |ds| == |blocks| && forall i | 0 <= i < |blocks| :: ds[i] == Decide(blocks[i], cfg)
  {
    seq(|blocks|, i requires 0 <= i < |blocks| => Decide(blocks[i], cfg))
  }

  /** The loop carrying out the decisions in order, as a specification: it stops at
      the first exception. */
  function Run(ds: seq<Result<Option<Written>, ResolveError>>): Outcome
    decreases |ds|
  {
    if |ds| == 0 then Outcome([], None)
    else match ds[0]
      case Err(e) => Outcome([], Some(e))
      case Ok(w) =>
        var rest := Run(ds[1..]);
        Outcome(AsSeq(w) + rest.written, rest.failure)
  }

  /** The files written earlier, in front of what the rest of the loop does. */
  function After(done: seq<Written>, o: Outcome): Outcome {
    Outcome(done + o.written, o.failure)
  }

  /** The loop of `main` over the parsed blocks (file_parser_old.py). */
  method WriteBlocks(blocks: seq<Block>, cfg: Config) returns (written: seq<Written>, failure: Option<ResolveError>)
    ensures Outcome(written, failure) == Run(Decisions(blocks, cfg))
  {
    ghost var ds := Decisions(blocks, cfg);
    written := [];
    for i := 0 to |blocks|
      invariant Run(ds) == After(written, Run(ds[i..]))
    {
      var d := Decide(blocks[i], cfg);
      RunStep(ds, i, written);
      if d.Err? {
        failure := Some(d.error);
        return;
      }
      written := written + AsSeq(d.value);
    }
    assert ds[|blocks|..] == [];
    failure := None;
  }

  /** One turn of the loop: an exception ends it, otherwise the decided file, if any,
      joins those written. */
  lemma RunStep(ds: seq<Result<Option<Written>, ResolveError>>, i: nat, written: seq<Written>)
    requires i < |ds| && Run(ds) == After(written, Run(ds[i..]))
    ensures ds[i].Err? ==> Run(ds) == Outcome(written, Some(ds[i].error))
    ensures ds[i].Ok? ==> Run(ds) == After(written + AsSeq(ds[i].value), Run(ds[i + 1..]))
  {
    assert ds[i..][1..] == ds[i + 1..];
    assert ds[i..][0] == ds[i];
    if ds[i].Ok? {
      var rest := Run(ds[i + 1..]).written;
      assert written + (AsSeq(ds[i].value) + rest) == (written + AsSeq(ds[i].value)) + rest;
    }
  }

  /** Every file written comes from a decision to write it, made before any exception:
      by `Decide`, it is of a selected type, has a non-empty path, holds the block's
      stripped content and is flagged exactly when its path contains `unknown`. */
  lemma {:induction false} RunWritesDecided(ds: seq<Result<Option<Written>, ResolveError>>, w: Written)
    requires w in Run(ds).written
    ensures exists j | 0 <= j < |ds| :: ds[j] == Ok(Some(w)) && forall i | 0 <= i < j :: ds[i].Ok?
    decreases |ds|
  {
    if ds[0] != Ok(Some(w)) {
      assert ds[0].Ok? && w in Run(ds[1..]).written;
      RunWritesDecided(ds[1..], w);
      var j :| 0 <= j < |ds| - 1 && ds[1..][j] == Ok(Some(w)) && forall i | 0 <= i < j :: ds[1..][i].Ok?;
      assert ds[j + 1] == Ok(Some(w));
      forall i | 0 <= i < j + 1 ensures ds[i].Ok? {
        if i > 0 {
          assert ds[i] == ds[1..][i - 1];
        }
      }
    }
  }

  /** The loop ends in an exception exactly when some decision is one. */
  lemma {:induction false} RunFailsIff(ds: seq<Result<Option<Written>, ResolveError>>)
    ensures Run(ds).failure.None? <==> forall j | 0 <= j < |ds| :: ds[j].Ok?
    decreases |ds|
  {
    if |ds| > 0 {
      RunFailsIff(ds[1..]);
      assert forall j | 0 <= j < |ds| - 1 :: ds[1..][j] == ds[j + 1];
    }
  }

  /** The exception that ends the loop is the first one among the decisions. */
  lemma {:induction false} RunFailsAtFirstError(ds: seq<Result<Option<Written>, ResolveError>>)
    requires Run(ds).failure.Some?
    ensures exists j | 0 <= j < |ds| ::
      ds[j] == Err(Run(ds).failure.value) && forall i | 0 <= i < j :: ds[i].Ok?
    decreases |ds|
  {
    if ds[0].Ok? {
      var rest := Run(ds[1..]);
      assert Run(ds).failure == rest.failure;
      RunFailsAtFirstError(ds[1..]);
      var j :| 0 <= j < |ds| - 1 && ds[1..][j] == Err(rest.failure.value) && forall i | 0 <= i < j :: ds[1..][i].Ok?;
      assert ds[j + 1] == Err(rest.failure.value);
      forall i | 0 <= i < j + 1 ensures ds[i].Ok? {
        if i > 0 {
          assert ds[i] == ds[1..][i - 1];
        }
      }
    }
  }

  /** At most one file per block. */
  lemma {:induction false} RunWritesAtMostOnePerBlock(ds: seq<Result<Option<Written>, ResolveError>>)
    ensures |Run(ds).written| <= |ds|
    decreases |ds|
  {
    if |ds| > 0 {
      RunWritesAtMostOnePerBlock(ds[1..]);
    }
  }
}
