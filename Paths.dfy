/**
  Literal path and template rendering: `parse_object_dot` (both versions),
  `render_path`, the substitution part of `apply_template`, and the computation of a
  block's output path in `main` of file_parser.py.
*/
module Paths {
  import opened Wrappers
  import opened Text
  import opened OrderedDict

  /** `parse_object_dot` of file_parser.py: split `schema.object` on the first `.`. */
  function ParseObjectDot(obj: string): (r: (string, string))
    ensures '.' in obj ==> r.0 + "." + r.1 == obj && '.' !in r.0
    ensures '.' !in obj ==> r == ("unknown", obj)
  {
    if '.' in obj then
      var i := IndexOfChar(obj, '.');
      assert obj == obj[..i] + "." + obj[i + 1..];
      (obj[..i], obj[i + 1..])
    else ("unknown", obj)
  }

  /** `parse_object_dot` of file_parser_old.py: split on every `.` and accept exactly two parts. */
  function LegacyParseObjectDot(obj: string): (r: (string, string))
    ensures || (r.0 + "." + r.1 == obj && '.' !in r.0 && '.' !in r.1)
            || r == ("unknown", obj)
  {
    var parts := Split(obj, '.');
    if |parts| != 2 then ("unknown", obj)
    else
      assert Join(parts, ".") == parts[0] + "." + parts[1];
      (parts[0], parts[1])
  }

  /** An object name with exactly one dot is split into its two parts; with no dot or
      with several, the old splitter answers `("unknown", obj)`. */
  lemma LegacyParseObjectDotSplitsOneDot(a: string, b: string)
    requires '.' !in a && '.' !in b
    ensures LegacyParseObjectDot(a + "." + b) == (a, b)
  {
    var s := a + "." + b;
    assert s[|a|] == '.' && s[..|a|] == a && s[|a| + 1..] == b;
    assert IndexOfChar(s, '.') == |a|;
    assert Split(s, '.') == [a, b];
  }

  /** `template.replace("{" + k + "}", v)` for each pair in order: `render_path`. */
  function Rendered(template: string, kvs: Dict<string>): string
    decreases |kvs|
  {
    if |kvs| == 0 then template
    else Rendered(ReplaceAll(template, "{" + kvs[0].0 + "}", kvs[0].1), kvs[1..])
  }

  /** `render_path(template, **kwargs)` */
  method RenderPath(template: string, kvs: Dict<string>) returns (r: string)
    ensures r == Rendered(template, kvs)
  {
    r := template;
    for i := 0 to |kvs|
      invariant Rendered(r, kvs[i..]) == Rendered(template, kvs)
    {
      assert kvs[i..][1..] == kvs[i + 1..];
      r := ReplaceAll(r, "{" + kvs[i].0 + "}", kvs[i].1);
    }
    assert kvs[|kvs|..] == [];
  }

  /** `str(v)` of a value that is a string or `None`. */
  function ShowOpt(v: Option<string>): string {
    if v.Some? then v.value else "None"
  }

  /** The parameters as `str` renders them. */
  function Shown(params: Dict<Option<string>>): (r: Dict<string>)
    ensures |r| == |params|
    ensures forall i | 0 <= i < |params| :: r[i] == (params[i].0, ShowOpt(params[i].1))
  {
    seq(|params|, i requires 0 <= i < |params| => (params[i].0, ShowOpt(params[i].1)))
  }

  /** The substitution part of `apply_template`: `contents` is the template file's text, or
      `None` when the path is empty or does not exist. */
  method ApplyTemplate(contents: Option<string>, params: Dict<Option<string>>) returns (r: string)
    ensures contents.None? ==> r == ""
    ensures contents.Some? ==> r == Rendered(contents.value, Shown(params))
  {
    if contents.None? {
      return "";
    }
    r := RenderPath(contents.value, Shown(params));
  }

  /** A template read as literal text and `{name}` holes. */
  datatype Piece = Lit(text: string) | Hole(name: string)

  function Assemble(ps: seq<Piece>): string
    decreases |ps|
  {
    if |ps| == 0 then ""
    else (if ps[0].Lit? then ps[0].text else "{" + ps[0].name + "}") + Assemble(ps[1..])
  }

  predicate NoBraces(s: string) {
    '{' !in s && '}' !in s
  }

  /** Literal text holds no `{`, hole names hold no brace. */
  predicate WellFormed(ps: seq<Piece>) {
    forall i | 0 <= i < |ps| :: if ps[i].Lit? then '{' !in ps[i].text else NoBraces(ps[i].name)
  }

  /** Each hole whose name is supplied becomes the first value supplied for it. */
  function Filled(ps: seq<Piece>, kvs: Dict<string>): (r: seq<Piece>)
    ensures |r| == |ps|
  {
    seq(|ps|, i requires 0 <= i < |ps| =>
      if ps[i].Hole? && Get(kvs, ps[i].name).Some? then Lit(Get(kvs, ps[i].name).value) else ps[i])
  }

  /** Text without `{` is passed over by a replacement of `{k}`. */
  lemma {:induction false} ReplaceSkipsPlain(t: string, u: string, k: string, v: string)
    requires '{' !in t
    ensures ReplaceAll(t + u, "{" + k + "}", v) == t + ReplaceAll(u, "{" + k + "}", v)
  {
    var pat := "{" + k + "}";
    if |t| > 0 {
      assert (t + u)[0] == t[0] && t[0] in t;
      if |t + u| >= |pat| {
        assert (t + u)[..|pat|][0] != pat[0];
      } else {
        assert |u| < |pat|;
      }
      assert (t + u)[1..] == t[1..] + u;
      ReplaceSkipsPlain(t[1..], u, k, v);
      assert [t[0]] + t[1..] == t;
    } else {
      assert t + u == u;
    }
  }

  /** Text without `{` holds no `{k}`. */
  lemma HoleAbsent(s: string, k: string)
    requires '{' !in s
    ensures !Contains(s, "{" + k + "}")
  {
    var pat := "{" + k + "}";
    forall j | 0 <= j <= |s| ensures !OccursAt(s, pat, j) {
      if j + |pat| <= |s| {
        assert s[j..j + |pat|][0] == s[j] != pat[0];
      }
    }
  }

  /** At a hole, `{k}` matches exactly when the hole is named `k`. */
  lemma ReplaceAtHole(n: string, u: string, k: string, v: string)
    requires NoBraces(n) && NoBraces(k)
    ensures ReplaceAll("{" + n + "}" + u, "{" + k + "}", v)
         == (if n == k then v else "{" + n + "}") + ReplaceAll(u, "{" + k + "}", v)
  {
    if n == k {
      ReplaceAtSameHole(n, u, v);
    } else {
      ReplaceAtOtherHole(n, u, k, v);
    }
  }

  /** `{k}` at the start is replaced, and the replacing goes on after it. */
  lemma ReplaceAtSameHole(k: string, u: string, v: string)
    ensures ReplaceAll("{" + k + "}" + u, "{" + k + "}", v) == v + ReplaceAll(u, "{" + k + "}", v)
  {
    var pat := "{" + k + "}";
    var s := pat + u;
    assert s[..|pat|] == pat && s[|pat|..] == u;
  }

  /** A hole `{n}` with another name is kept, and the replacing goes on after it. */
  lemma ReplaceAtOtherHole(n: string, u: string, k: string, v: string)
    requires NoBraces(n) && NoBraces(k) && n != k
    ensures ReplaceAll("{" + n + "}" + u, "{" + k + "}", v) == "{" + n + "}" + ReplaceAll(u, "{" + k + "}", v)
  {
    var pat := "{" + k + "}";
    var s := "{" + n + "}" + u;
    HoleMismatch(n, u, k);
    if |s| < |pat| {
      assert ReplaceAll(s, pat, v) == s;
      assert ReplaceAll(u, pat, v) == u;
    } else {
      assert ReplaceAll(s, pat, v) == [s[0]] + ReplaceAll(s[1..], pat, v);
      assert s[1..] == n + "}" + u;
      ReplaceSkipsPlain(n + "}", u, k, v);
      assert [s[0]] + (n + "}" + ReplaceAll(u, pat, v)) == "{" + n + "}" + ReplaceAll(u, pat, v);
    }
  }

  /** A hole with another name does not start an occurrence of `{k}`. */
  lemma HoleMismatch(n: string, u: string, k: string)
    requires NoBraces(n) && NoBraces(k) && n != k
    ensures var s, pat := "{" + n + "}" + u, "{" + k + "}"; |s| < |pat| || s[..|pat|] != pat
  {
    var pat := "{" + k + "}";
    var s := "{" + n + "}" + u;
    if |s| >= |pat| {
      if |n| < |k| {
        assert s[|n| + 1] == '}' && pat[|n| + 1] == k[|n|];
      } else if |n| > |k| {
        assert s[|k| + 1] == n[|k|] && pat[|k| + 1] == '}';
      } else {
        var j :| 0 <= j < |n| && n[j] != k[j];
        assert s[j + 1] == n[j] && pat[j + 1] == k[j];
      }
    }
  }

  /** One replacement fills exactly the holes named `k`. */
  lemma {:induction false} ReplaceFillsHole(ps: seq<Piece>, k: string, v: string)
    requires WellFormed(ps) && NoBraces(k)
    ensures ReplaceAll(Assemble(ps), "{" + k + "}", v) == Assemble(Filled(ps, [(k, v)]))
    decreases |ps|
  {
    if |ps| > 0 {
      ReplaceFillsHole(ps[1..], k, v);
      assert Filled(ps, [(k, v)])[1..] == Filled(ps[1..], [(k, v)]);
      if ps[0].Lit? {
        ReplaceSkipsPlain(ps[0].text, Assemble(ps[1..]), k, v);
      } else {
        ReplaceAtHole(ps[0].name, Assemble(ps[1..]), k, v);
        assert "{" + ps[0].name + "}" + Assemble(ps[1..]) == Assemble(ps);
      }
    }
  }

  /** Filling `k` first, then the remaining pairs, is filling with all pairs. */
  lemma FilledCons(ps: seq<Piece>, kvs: Dict<string>)
    requires |kvs| > 0
    ensures Filled(Filled(ps, [kvs[0]]), kvs[1..]) == Filled(ps, kvs)
  {
    forall i | 0 <= i < |ps| ensures Filled(Filled(ps, [kvs[0]]), kvs[1..])[i] == Filled(ps, kvs)[i] {
      if ps[i].Hole? && ps[i].name != kvs[0].0 {
        assert Get(kvs, ps[i].name) == Get(kvs[1..], ps[i].name);
      }
    }
  }

  /** `render_path` fills every supplied hole with the first value given for its name
      and leaves every other `{name}` untouched, provided no value holds a `{`. */
  lemma {:induction false} RenderedFillsHoles(ps: seq<Piece>, kvs: Dict<string>)
    requires WellFormed(ps)
    requires forall i | 0 <= i < |kvs| :: NoBraces(kvs[i].0) && '{' !in kvs[i].1
    ensures Rendered(Assemble(ps), kvs) == Assemble(Filled(ps, kvs))
    decreases |kvs|
  {
    if |kvs| == 0 {
      assert Filled(ps, kvs) == ps;
    } else {
      ReplaceFillsHole(ps, kvs[0].0, kvs[0].1);
      var ps' := Filled(ps, [kvs[0]]);
      assert WellFormed(ps');
      RenderedFillsHoles(ps', kvs[1..]);
      FilledCons(ps, kvs);
    }
  }

  /** `dst.update(src)` */
  function Updated<V>(dst: Dict<V>, src: Dict<V>): Dict<V>
    decreases |src|
  {
    if |src| == 0 then dst else Updated(Put(dst, src[0].0, src[0].1), src[1..])
  }

  /** After `dst.update(src)` a key maps to its value in `src` if it has one there, and to
      its old value otherwise. */
  lemma {:induction false} UpdatedGet<V>(dst: Dict<V>, src: Dict<V>, k: string)
    requires UniqueKeys(src)
    ensures Get(Updated(dst, src), k) == if HasKey(src, k) then Get(src, k) else Get(dst, k)
    decreases |src|
  {
    if |src| > 0 {
      assert UniqueKeys(src[1..]);
      UpdatedGet(Put(dst, src[0].0, src[0].1), src[1..], k);
      PutGet(dst, src[0].0, src[0].1);
      if src[0].0 == k {
        HeadKeyOnlyOnce(src, k);
      } else {
        OtherThanHead(src, k);
      }
    }
  }

  /** In a dictionary with distinct keys, the key of the first pair is not in the rest. */
  lemma HeadKeyOnlyOnce<V>(src: Dict<V>, k: string)
    requires UniqueKeys(src) && |src| > 0 && src[0].0 == k
    ensures !HasKey(src[1..], k) && HasKey(src, k) && Get(src, k) == Some(src[0].1)
  {
  }

  /** A key other than the first pair's is looked up in the rest. */
  lemma OtherThanHead<V>(src: Dict<V>, k: string)
    requires |src| > 0 && src[0].0 != k
    ensures HasKey(src, k) == HasKey(src[1..], k) && Get(src, k) == Get(src[1..], k)
  {
    if HasKey(src, k) {
      var i :| 0 <= i < |src| && src[i].0 == k;
      assert src[1..][i - 1].0 == k;
    }
  }

  /** A value that is not a string reached a string operation (`TypeError` or
      `AttributeError` in Python); the parameter is named. */
  datatype PathError = NotAString(param: string)

  /** The parameters of a matched block, file_parser.py `main`: `base` and `dag_folder`
      from the run configuration, overridden by the values captured from the marker line,
      and `object_type` translated through the block's `object_type_map` when it has one. */
  function BlockParams(base: string, dagFolder: string, matchVars: Dict<Option<string>>,
                       objectTypeMap: Option<Dict<string>>): Result<Dict<Option<string>>, PathError>
  {
    var params := Updated([("base", Some(base)), ("dag_folder", Some(dagFolder))], matchVars);
    if objectTypeMap.Some? && HasKey(matchVars, "object_type") then
      var raw := Get(matchVars, "object_type").value;
      if raw.None? then Err(NotAString("object_type"))
      else
        var ot := Lower(Strip(raw.value));
        Ok(Put(params, "object_type", Some(Get(objectTypeMap.value, ot).GetOr(ot))))
    else Ok(params)
  }

  /** What each parameter of a block is bound to. */
  lemma BlockParamsGet(base: string, dagFolder: string, matchVars: Dict<Option<string>>,
                       objectTypeMap: Option<Dict<string>>, k: string)
    requires UniqueKeys(matchVars)
    ensures var r := BlockParams(base, dagFolder, matchVars, objectTypeMap);
      && (r.Err? <==> objectTypeMap.Some? && Get(matchVars, "object_type") == Some(None))
      && (r.Ok? && k == "object_type" && objectTypeMap.Some? && HasKey(matchVars, k) ==>
            var ot := Lower(Strip(Get(matchVars, k).value.value));
            Get(r.value, k) == Some(Some(Get(objectTypeMap.value, ot).GetOr(ot))))
      && (r.Ok? && !(k == "object_type" && objectTypeMap.Some?) ==>
            Get(r.value, k) == if HasKey(matchVars, k) then Get(matchVars, k)
                               else if k == "base" then Some(Some(base))
                               else if k == "dag_folder" then Some(Some(dagFolder))
                               else None)
  {
    var defaults := [("base", Some(base)), ("dag_folder", Some(dagFolder))];
    var params := Updated(defaults, matchVars);
    UpdatedGet(defaults, matchVars, k);
    if k == "base" {
      IndexOfIsFirst(defaults, k, 0);
    } else if k == "dag_folder" {
      IndexOfIsFirst(defaults, k, 1);
    } else {
      assert !HasKey(defaults, k);
    }
    if objectTypeMap.Some? && HasKey(matchVars, "object_type") {
      var raw := Get(matchVars, "object_type").value;
      if raw.Some? {
        var ot := Lower(Strip(raw.value));
        var ov := Some(Get(objectTypeMap.value, ot).GetOr(ot));
        assert BlockParams(base, dagFolder, matchVars, objectTypeMap) == Ok(Put(params, "object_type", ov));
        PutGet(params, "object_type", ov);
      }
    }
  }

  /** The value each declared output parameter is rendered with: `params.get(p, "")`. */
  function DeclaredValues(declared: seq<string>, params: Dict<Option<string>>): (vs: seq<Option<string>>)
    ensures |vs| == |declared|
    ensures forall i | 0 <= i < |declared| :: vs[i] == Get(params, declared[i]).GetOr(Some(""))
  {
    seq(|declared|, i requires 0 <= i < |declared| => Get(params, declared[i]).GetOr(Some("")))
  }

  /** The position of the first `None`. */
  function FirstNone(vs: seq<Option<string>>): (r: Option<nat>)
    ensures r.Some? ==> r.value < |vs| && vs[r.value].None? && forall j | 0 <= j < r.value :: vs[j].Some?
    ensures r.None? ==> forall j | 0 <= j < |vs| :: vs[j].Some?
  {
    if |vs| == 0 then None
    else if vs[0].None? then Some(0)
    else match FirstNone(vs[1..])
      case None => None
      case Some(i) => Some(i + 1)
  }

  /** The name/value pairs the output path is rendered with. */
  function Pairs(declared: seq<string>, vs: seq<Option<string>>): (r: Dict<string>)
    requires |vs| == |declared| && forall j | 0 <= j < |vs| :: vs[j].Some?
    ensures |r| == |declared| && Keys(r) == declared
    ensures forall i | 0 <= i < |r| :: r[i] == (declared[i], vs[i].value)
  {
    seq(|declared|, i requires 0 <= i < |declared| => (declared[i], vs[i].value))
  }

  /** One left-to-right pass of `s.replace("//", "/")`. */
  function Collapsed(s: string): string {
    ReplaceAll(s, "//", "/")
  }

  /** The output path of a matched block, file_parser.py `main`. */
  function OutputPathOf(template: string, declared: seq<string>, params: Dict<Option<string>>): Result<string, PathError> {
    var vs := DeclaredValues(declared, params);
    match FirstNone(vs)
    case Some(i) => Err(NotAString(declared[i]))
    case None => Ok(Collapsed(Rendered(template, Pairs(declared, vs))))
  }

  /** `output_path_param_values`: the block's value for each declared parameter, `""`
      when it has none. */
  method ParamValues(declared: seq<string>, params: Dict<Option<string>>) returns (values: seq<Option<string>>)
    ensures values == DeclaredValues(declared, params)
  {
    values := [];
    for i := 0 to |declared|
      invariant values == DeclaredValues(declared[..i], params)
    {
      values := values + [Get(params, declared[i]).GetOr(Some(""))];
    }
    assert declared[..|declared|] == declared;
  }

  method OutputPath(template: string, declared: seq<string>, params: Dict<Option<string>>)
    returns (r: Result<string, PathError>)
    ensures r == OutputPathOf(template, declared, params)
  {
    var values := ParamValues(declared, params);
    ghost var pairs := seq(|declared|, i requires 0 <= i < |declared| => (declared[i], values[i].GetOr("")));
    var path := template;
    for i := 0 to |declared|
      invariant forall j | 0 <= j < i :: values[j].Some?
      invariant Rendered(path, pairs[i..]) == Rendered(template, pairs)
    {
      if values[i].None? {
        assert FirstNone(values) == Some(i) by {
          var f := FirstNone(values);
          assert f.Some?;
          assert f.value >= i && f.value <= i;
        }
        return Err(NotAString(declared[i]));
      }
      assert pairs[i..][1..] == pairs[i + 1..];
      path := ReplaceAll(path, "{" + declared[i] + "}", values[i].value);
    }
    assert pairs[|declared|..] == [];
    assert pairs == Pairs(declared, values);
    path := ReplaceAll(path, "//", "/");
    return Ok(path);
  }

  /** When no declared value is `None`, each declared name is bound in the rendering
      pairs to the block's value for it, or to `""` when the block has none. */
  lemma PairsGet(declared: seq<string>, params: Dict<Option<string>>, n: string)
    requires FirstNone(DeclaredValues(declared, params)).None?
    requires n in declared
    ensures Get(Pairs(declared, DeclaredValues(declared, params)), n) == Some(ShowOpt(Get(params, n).GetOr(Some(""))))
  {
    var vs := DeclaredValues(declared, params);
    var pairs := Pairs(declared, vs);
    var k :| 0 <= k < |declared| && declared[k] == n;
    assert pairs[k].0 == n;
    var j := IndexOf(pairs, n).value;
    assert pairs[j] == (n, vs[j].value);
  }

  /** The rendering pairs carry no brace in a name and no `{` in a value. */
  lemma PairsNoBraces(declared: seq<string>, params: Dict<Option<string>>)
    requires FirstNone(DeclaredValues(declared, params)).None?
    requires forall i | 0 <= i < |declared| :: NoBraces(declared[i])
    requires forall i | 0 <= i < |params| :: params[i].1.Some? ==> '{' !in params[i].1.value
    ensures var pairs := Pairs(declared, DeclaredValues(declared, params));
      forall i | 0 <= i < |pairs| :: NoBraces(pairs[i].0) && '{' !in pairs[i].1
  {
    var vs := DeclaredValues(declared, params);
    var pairs := Pairs(declared, vs);
    forall i | 0 <= i < |pairs| ensures NoBraces(pairs[i].0) && '{' !in pairs[i].1 {
      var g := Get(params, declared[i]);
      if g.Some? {
        var j := IndexOf(params, declared[i]).value;
        assert params[j].1 == g.value;
      }
    }
  }

  /** Every declared `{p}` in the output-path template becomes the block's value for `p`,
      or `""` when the block has no such parameter; other holes are left as they are. */
  lemma OutputPathFillsDeclared(ps: seq<Piece>, declared: seq<string>, params: Dict<Option<string>>)
    requires WellFormed(ps)
    requires forall i | 0 <= i < |declared| :: NoBraces(declared[i])
    requires forall i | 0 <= i < |params| :: params[i].1.Some? ==> '{' !in params[i].1.value
    requires OutputPathOf(Assemble(ps), declared, params).Ok?
    ensures var vs := DeclaredValues(declared, params);
      && (forall p | p in declared :: Get(params, p) != Some(None))
      && OutputPathOf(Assemble(ps), declared, params) == Ok(Collapsed(Assemble(Filled(ps, Pairs(declared, vs)))))
      && forall i | 0 <= i < |ps| :: ps[i].Hole? && ps[i].name in declared ==>
           Filled(ps, Pairs(declared, vs))[i] == Lit(ShowOpt(Get(params, ps[i].name).GetOr(Some(""))))
  {
    var vs := DeclaredValues(declared, params);
    var pairs := Pairs(declared, vs);
    assert FirstNone(vs).None?;
    forall p | p in declared ensures Get(params, p) != Some(None) {
      var i :| 0 <= i < |declared| && declared[i] == p;
      assert vs[i].Some?;
    }
    PairsNoBraces(declared, params);
    RenderedFillsHoles(ps, pairs);
    forall i | 0 <= i < |ps| && ps[i].Hole? && ps[i].name in declared
      ensures Filled(ps, pairs)[i] == Lit(ShowOpt(Get(params, ps[i].name).GetOr(Some(""))))
    {
      PairsGet(declared, params, ps[i].name);
    }
  }

  predicate HasDoubleSlash(s: string) {
    exists i | 0 <= i < |s| - 1 :: s[i] == '/' && s[i + 1] == '/'
  }

  predicate HasTripleSlash(s: string) {
    exists i | 0 <= i < |s| - 2 :: s[i] == '/' && s[i + 1] == '/' && s[i + 2] == '/'
  }

  /** The pass keeps the first character. */
  lemma CollapsedHead(s: string)
    requires |s| > 0
    ensures |Collapsed(s)| > 0 && Collapsed(s)[0] == s[0]
  {
  }

  lemma ConsNoDoubleSlash(c: char, t: string)
    requires !HasDoubleSlash(t) && (c != '/' || |t| == 0 || t[0] != '/')
    ensures !HasDoubleSlash([c] + t)
  {
    var s := [c] + t;
    forall i | 0 <= i < |s| - 1 ensures !(s[i] == '/' && s[i + 1] == '/') {
      if i > 0 {
        assert s[i] == t[i - 1] && s[i + 1] == t[i];
      }
    }
  }

  /** A path without `///` has no `//` left after the pass. */
  lemma {:induction false} CollapsedNoDoubleSlash(s: string)
    requires !HasTripleSlash(s)
    ensures !HasDoubleSlash(Collapsed(s))
    decreases |s|
  {
    if |s| >= 2 {
      if s[..2] == "//" {
        var t := s[2..];
        assert !HasTripleSlash(t) by {
          forall i | 0 <= i < |t| - 2 ensures !(t[i] == '/' && t[i + 1] == '/' && t[i + 2] == '/') {
            assert t[i] == s[i + 2] && t[i + 1] == s[i + 3] && t[i + 2] == s[i + 4];
          }
        }
        CollapsedNoDoubleSlash(t);
        if |t| > 0 {
          assert s[0] == '/' && s[1] == '/';
          assert t[0] != '/';
          CollapsedHead(t);
        }
        ConsNoDoubleSlash('/', Collapsed(t));
        assert Collapsed(s) == ['/'] + Collapsed(t);
      } else {
        var t := s[1..];
        assert !HasTripleSlash(t) by {
          forall i | 0 <= i < |t| - 2 ensures !(t[i] == '/' && t[i + 1] == '/' && t[i + 2] == '/') {
            assert t[i] == s[i + 1] && t[i + 1] == s[i + 2] && t[i + 2] == s[i + 3];
          }
        }
        CollapsedNoDoubleSlash(t);
        if s[0] == '/' {
          assert s[1] != '/';
        }
        CollapsedHead(t);
        ConsNoDoubleSlash(s[0], Collapsed(t));
        assert Collapsed(s) == [s[0]] + Collapsed(t);
      }
    } else {
      assert Collapsed(s) == s;
    }
  }

  /** Three slashes in a row come out as two: the pass does not reach a fixpoint. */
  lemma TripleSlashLeavesDouble()
    ensures Collapsed("a///b") == "a//b"
  {
    assert "a///b"[1..] == "///b";
    assert "///b"[2..] == "/b";
  }
}
