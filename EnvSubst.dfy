/**
  `env_subst` of file_parser.py: every `${a.b.c}` inside a string of the block
  configuration is replaced by the value reached by walking the run configuration key
  by key, recursively through dictionaries and lists.
*/
module EnvSubst {
  import opened Wrappers
  import opened Text
  import OrderedDict

  /** A configuration value as the YAML loader produces it (mapping keys are strings). */
  datatype Value =
    | Str(s: string)
    | Int(i: int)
    | Bool(b: bool)
    | Null
    | List(items: seq<Value>)
    | Dict(entries: seq<(string, Value)>)

  /** Walking a path of keys raised `AttributeError`: a step met a value that is not a
      dictionary. */
  datatype EnvError = NoGetOn(placeholder: string)

  /** Python's `repr` of a value nested in a container (strings single-quoted, unescaped). */
  function Repr(v: Value): string
    decreases v
  {
    if v.Str? then "'" + v.s + "'"
    else if v.List? then "[" + ReprItems(v, v.items) + "]"
    else if v.Dict? then "{" + ReprEntries(v, v.entries) + "}"
    else Scalar(v)
  }

  /** The items of a list, each by `repr`, separated by `", "`. */
  function ReprItems(ghost parent: Value, items: seq<Value>): string
    requires forall i | 0 <= i < |items| :: items[i] < parent
    decreases parent, |items|
  {
    if |items| == 0 then ""
    else if |items| == 1 then Repr(items[0])
    else Repr(items[0]) + ", " + ReprItems(parent, items[1..])
  }

  /** The entries of a dictionary as `'key': repr(value)`, separated by `", "`. */
  function ReprEntries(ghost parent: Value, es: seq<(string, Value)>): string
    requires forall i | 0 <= i < |es| :: es[i].1 < parent
    decreases parent, |es|
  {
    if |es| == 0 then ""
    else
      var first := "'" + es[0].0 + "': " + Repr(es[0].1);
      if |es| == 1 then first else first + ", " + ReprEntries(parent, es[1..])
  }

  /** `str` of a value that is neither a string nor a container. */
  function Scalar(v: Value): string {
    match v
    case Int(i) => IntToString(i)
    case Bool(b) => if b then "True" else "False"
    case _ => "None"
  }

  /** Python's `str(v)`. */
  function Show(v: Value): string {
    if v.Str? then v.s else Repr(v)
  }

  /** The outcome of walking the context along a dotted name. */
  datatype Lookup = Found(v: Value) | Missing | NoGet

  /** `val = context; for key in keys: val = val.get(key); if val is None: break` */
  function Walk(val: Value, keys: seq<string>): Lookup
    decreases |keys|
  {
    if |keys| == 0 then Found(val)
    else if !val.Dict? then NoGet
    else match OrderedDict.Get(val.entries, keys[0])
      case None => Missing
      case Some(w) => if w.Null? then Missing else Walk(w, keys[1..])
  }

  /** The characters the placeholder pattern `\${([a-zA-Z0-9_.]+)}` allows in a name. */
  predicate IsNameChar(c: char) {
    ('a' <= c <= 'z') || ('A' <= c <= 'Z') || ('0' <= c <= '9') || c == '_' || c == '.'
  }

  predicate ValidName(name: string) {
    |name| > 0 && forall i | 0 <= i < |name| :: IsNameChar(name[i])
  }

  /** The length of the longest prefix of name characters. */
  function NameRun(s: string): (n: nat)
    ensures n <= |s| && ValidName(s[..n]) == (n > 0)
    ensures n < |s| ==> !IsNameChar(s[n])
  {
    if |s| > 0 && IsNameChar(s[0]) then 1 + NameRun(s[1..]) else 0
  }

  /** The placeholder the pattern matches at the start of `s`, if any. */
  function PlaceholderAt(s: string): (r: Option<string>)
    ensures r.Some? ==> ValidName(r.value) && |r.value| + 3 <= |s|
    ensures r.Some? ==> s[..|r.value| + 3] == "${" + r.value + "}"
  {
    if |s| >= 2 && s[0] == '$' && s[1] == '{' then
      var n := NameRun(s[2..]);
      assert s[2..][..n] == s[2..2 + n];
      if n >= 1 && 2 + n < |s| && s[2 + n] == '}' then Some(s[2..2 + n]) else None
    else None
  }

  /** What `repl` returns for the placeholder `${name}`: the value reached, as `str`
      renders it, or the placeholder text itself when some step gives `None`. */
  function Replacement(name: string, ctx: Value): Result<string, EnvError> {
    match Walk(ctx, Split(name, '.'))
    case Found(v) => Ok(Show(v))
    case Missing => Ok("${" + name + "}")
    case NoGet => Err(NoGetOn(name))
  }

  /** `re.sub(r"\${([a-zA-Z0-9_.]+)}", repl, s)`: scans left to right, replacing each
      placeholder and copying every other character. */
  function SubstString(s: string, ctx: Value): Result<string, EnvError>
    decreases |s|
  {
    if |s| == 0 then Ok("")
    else match PlaceholderAt(s)
      case Some(name) =>
        (match Replacement(name, ctx)
         case Err(e) => Err(e)
         case Ok(t) =>
           match SubstString(s[|name| + 3..], ctx)
           case Err(e) => Err(e)
           case Ok(u) => Ok(t + u))
      case None =>
        match SubstString(s[1..], ctx)
        case Err(e) => Err(e)
        case Ok(u) => Ok([s[0]] + u)
  }

  /** `p + r` for a successful result. */
  function Prefixed(p: string, r: Result<string, EnvError>): Result<string, EnvError> {
    match r
    case Ok(u) => Ok(p + u)
    case Err(e) => Err(e)
  }

  /** The text `p`, then the replacement `x`, then the substituted `rest`; or the first
      error of the two. */
  function Spliced(p: string, x: Result<string, EnvError>, rest: Result<string, EnvError>): Result<string, EnvError> {
    match x
    case Err(e) => Err(e)
    case Ok(t) => Prefixed(p + t, rest)
  }

  /** Text without `$` is copied through unchanged, and substitution continues after it. */
  lemma {:induction false} PlainPrefixCopied(p: string, t: string, ctx: Value)
    requires '$' !in p
    ensures SubstString(p + t, ctx) == Prefixed(p, SubstString(t, ctx))
  {
    if |p| > 0 {
      var s := p + t;
      assert s[0] == p[0] && p[0] in p;
      assert s[1..] == p[1..] + t;
      PlainHeadCopied(s, ctx);
      PlainPrefixCopied(p[1..], t, ctx);
      PrefixedTwice([p[0]], p[1..], SubstString(t, ctx));
      assert [p[0]] + p[1..] == p;
    } else {
      assert p + t == t;
      match SubstString(t, ctx)
      case Ok(u) => assert p + u == u;
      case Err(_) =>
    }
  }

  /** A first character that does not start a placeholder is copied. */
  lemma PlainHeadCopied(s: string, ctx: Value)
    requires |s| > 0 && s[0] != '$'
    ensures SubstString(s, ctx) == Prefixed([s[0]], SubstString(s[1..], ctx))
  {
    assert PlaceholderAt(s) == None;
  }

  lemma PrefixedTwice(a: string, b: string, r: Result<string, EnvError>)
    ensures Prefixed(a, Prefixed(b, r)) == Prefixed(a + b, r)
  {
    match r
    case Ok(u) => assert a + (b + u) == (a + b) + u;
    case Err(_) =>
  }

  /** A string without `$` comes back unchanged. */
  lemma NoPlaceholderUnchanged(s: string, ctx: Value)
    requires '$' !in s
    ensures SubstString(s, ctx) == Ok(s)
  {
    PlainPrefixCopied(s, "", ctx);
    assert s + "" == s;
  }

  /** A placeholder is replaced by its `Replacement`, and the text after it is
      substituted independently. */
  lemma PlaceholderReplaced(p: string, name: string, t: string, ctx: Value)
    requires '$' !in p && ValidName(name)
    ensures SubstString(p + "${" + name + "}" + t, ctx)
         == Spliced(p, Replacement(name, ctx), SubstString(t, ctx))
  {
    var ph := "${" + name + "}" + t;
    assert p + "${" + name + "}" + t == p + ph;
    PlainPrefixCopied(p, ph, ctx);
    PlaceholderFirst(name, t, ctx);
    PrefixedSpliced(p, Replacement(name, ctx), SubstString(t, ctx));
  }

  lemma PrefixedSpliced(p: string, x: Result<string, EnvError>, rest: Result<string, EnvError>)
    ensures Prefixed(p, Spliced("", x, rest)) == Spliced(p, x, rest)
  {
    match x
    case Err(_) =>
    case Ok(t) =>
      match rest
      case Ok(u) => assert p + (("" + t) + u) == (p + t) + u;
      case Err(_) =>
  }

  lemma PlaceholderFirst(name: string, t: string, ctx: Value)
    requires ValidName(name)
    ensures SubstString("${" + name + "}" + t, ctx) == Spliced("", Replacement(name, ctx), SubstString(t, ctx))
  {
    var ph := "${" + name + "}" + t;
    NameRunOf(name, "}" + t);
    assert ph[2..] == name + ("}" + t);
    assert ph[2..][..|name|] == name;
    assert ph[0] == '$' && ph[1] == '{' && ph[2 + |name|] == '}';
    assert ph[2..2 + |name|] == name;
    assert PlaceholderAt(ph) == Some(name);
    assert ph[|name| + 3..] == t;
    match Replacement(name, ctx)
    case Err(_) =>
    case Ok(x) => assert "" + x == x;
  }

  lemma {:induction false} NameRunOf(name: string, rest: string)
    requires forall i | 0 <= i < |name| :: IsNameChar(name[i])
    requires rest == [] || !IsNameChar(rest[0])
    ensures NameRun(name + rest) == |name|
  {
    if |name| > 0 {
      assert (name + rest)[1..] == name[1..] + rest;
      NameRunOf(name[1..], rest);
    }
  }

  /** Two values have the same shape: strings stay strings, dictionaries keep their keys
      in order, lists keep their length, and every other scalar is unchanged. */
  predicate SameShape(a: Value, b: Value)
    decreases a
  {
    match a
    case Str(_) => b.Str?
    case List(xs) =>
      b.List? && |b.items| == |xs| && forall i | 0 <= i < |xs| :: SameShape(xs[i], b.items[i])
    case Dict(es) =>
      && b.Dict? && |b.entries| == |es|
      && forall i | 0 <= i < |es| :: b.entries[i].0 == es[i].0 && SameShape(es[i].1, b.entries[i].1)
    case _ => b == a
  }

  /** The first error among the results, in order. */
  function FirstError(rs: seq<Result<Value, EnvError>>): (r: Option<EnvError>)
    ensures r.None? <==> forall i | 0 <= i < |rs| :: rs[i].Ok?
    ensures r.Some? ==> exists i | 0 <= i < |rs| ::
      && rs[i] == Err(r.value)
      && forall j | 0 <= j < i :: rs[j].Ok?
  {
    if |rs| == 0 then None
    else if rs[0].Err? then Some(rs[0].error)
    else
      var r := FirstError(rs[1..]);
      assert forall i | 1 <= i < |rs| :: rs[i] == rs[1..][i - 1];
      r
  }

  /** `env_subst(item, context)` */
  function Subst(item: Value, ctx: Value): (r: Result<Value, EnvError>)
    decreases item
    ensures r.Ok? ==> SameShape(item, r.value)
  {
    match item
    case Str(s) =>
      (match SubstString(s, ctx)
       case Ok(t) => Ok(Str(t))
       case Err(e) => Err(e))
    case List(xs) =>
      var rs := seq(|xs|, i requires 0 <= i < |xs| => Subst(xs[i], ctx));
      (match FirstError(rs)
       case Some(e) => Err(e)
       case None => Ok(List(seq(|xs|, i requires 0 <= i < |xs| => rs[i].value))))
    case Dict(es) =>
      var rs := seq(|es|, i requires 0 <= i < |es| => Subst(es[i].1, ctx));
      (match FirstError(rs)
       case Some(e) => Err(e)
       case None => Ok(Dict(seq(|es|, i requires 0 <= i < |es| => (es[i].0, rs[i].value)))))
    case _ => Ok(item)
  }

  /** No string anywhere inside the value contains `$`. */
  predicate DollarFree(v: Value)
    decreases v
  {
    match v
    case Str(s) => '$' !in s
    case List(xs) => forall i | 0 <= i < |xs| :: DollarFree(xs[i])
    case Dict(es) => forall i | 0 <= i < |es| :: DollarFree(es[i].1)
    case _ => true
  }

  /** A configuration without placeholders comes back exactly as it was. */
  lemma {:induction false} DollarFreeUnchanged(v: Value, ctx: Value)
    requires DollarFree(v)
    ensures Subst(v, ctx) == Ok(v)
    decreases v
  {
    match v
    case Str(s) => NoPlaceholderUnchanged(s, ctx);
    case List(xs) =>
      forall i | 0 <= i < |xs| ensures Subst(xs[i], ctx) == Ok(xs[i]) {
        DollarFreeUnchanged(xs[i], ctx);
      }
      var rs := seq(|xs|, i requires 0 <= i < |xs| => Subst(xs[i], ctx));
      assert FirstError(rs).None?;
      assert seq(|xs|, i requires 0 <= i < |xs| => rs[i].value) == xs;
    case Dict(es) =>
      forall i | 0 <= i < |es| ensures Subst(es[i].1, ctx) == Ok(es[i].1) {
        DollarFreeUnchanged(es[i].1, ctx);
      }
      var rs := seq(|es|, i requires 0 <= i < |es| => Subst(es[i].1, ctx));
      assert FirstError(rs).None?;
      assert seq(|es|, i requires 0 <= i < |es| => (es[i].0, rs[i].value)) == es;
    case _ =>
  }

  /** A dotted name is walked segment by segment: walking `a + b` walks `a`, then walks
      `b` from where `a` ended, unless `a` already stopped. */
  lemma {:induction false} WalkConcat(val: Value, a: seq<string>, b: seq<string>)
    ensures Walk(val, a + b) == if Walk(val, a).Found? then Walk(Walk(val, a).v, b) else Walk(val, a)
    decreases |a|
  {
    if |a| == 0 {
      assert a + b == b;
    } else {
      assert (a + b)[0] == a[0] && (a + b)[1..] == a[1..] + b;
      if val.Dict? {
        match OrderedDict.Get(val.entries, a[0])
        case None =>
        case Some(w) =>
          if !w.Null? {
            WalkConcat(w, a[1..], b);
          }
      }
    }
  }
}
