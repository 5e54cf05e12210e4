/**
  Python's `dict` keeps keys in insertion order, and several parts of the release
  splitter depend on that order (which capture is kept, in which order templates are
  rendered). A dictionary with string keys is modelled as a sequence of key/value
  pairs: lookup takes the first pair with the key, and assignment overwrites that
  pair in place or appends a new one at the end.
*/
module OrderedDict {
  import opened Wrappers

  type Dict<V> = seq<(string, V)>

  /** The keys in insertion order. */
  function Keys<V>(d: Dict<V>): (ks: seq<string>)
    ensures |ks| == |d| && forall i | 0 <= i < |d| :: ks[i] == d[i].0
  {
    seq(|d|, i requires 0 <= i < |d| => d[i].0)
  }

  /** No key occurs twice: what a real `dict` always satisfies. */
  predicate UniqueKeys<V>(d: Dict<V>) {
    forall i, j | 0 <= i < j < |d| :: d[i].0 != d[j].0
  }

  /** `k in d` */
  predicate HasKey<V>(d: Dict<V>, k: string) {
    exists i | 0 <= i < |d| :: d[i].0 == k
  }

  /** The position of the first pair whose key is `k`. */
  function IndexOf<V>(d: Dict<V>, k: string): (r: Option<nat>)
    ensures r.Some? ==> r.value < |d| && d[r.value].0 == k && forall j | 0 <= j < r.value :: d[j].0 != k
    ensures r.None? ==> !HasKey(d, k)
  {
    if |d| == 0 then None
    else if d[0].0 == k then Some(0)
    else match IndexOf(d[1..], k)
      case None => None
      case Some(i) => Some(i + 1)
  }

  /** The first position holding `k` is the one `IndexOf` reports. */
  lemma IndexOfIsFirst<V>(d: Dict<V>, k: string, i: nat)
    requires i < |d| && d[i].0 == k && forall j | 0 <= j < i :: d[j].0 != k
    ensures IndexOf(d, k) == Some(i)
  {
    assert HasKey(d, k);
  }

  /** `d.get(k)` */
  function Get<V>(d: Dict<V>, k: string): (r: Option<V>)
    ensures r.Some? <==> HasKey(d, k)
  {
    match IndexOf(d, k)
    case Some(i) => Some(d[i].1)
    case None => None
  }

  /** `d.get(k)` is the value of the key's first pair, and `None` only when the key is
      absent. */
  lemma GetIsFirst<V>(d: Dict<V>, k: string)
    ensures Get(d, k).None? <==> forall i | 0 <= i < |d| :: d[i].0 != k
    ensures Get(d, k).Some? ==> exists i | 0 <= i < |d| ::
      && d[i] == (k, Get(d, k).value)
      && forall j | 0 <= j < i :: d[j].0 != k
  {
    if Get(d, k).Some? {
      var i := IndexOf(d, k).value;
      assert d[i] == (k, Get(d, k).value);
    }
  }

  /** `d[k] = v`: overwrite the first pair with key `k` in place, or append one. */
  function Put<V>(d: Dict<V>, k: string, v: V): Dict<V> {
    match IndexOf(d, k)
    case Some(i) => d[i := (k, v)]
    case None => d + [(k, v)]
  }

  /** Assigning to an empty dictionary gives the one pair. */
  lemma PutEmpty<V>(k: string, v: V)
    ensures Put([], k, v) == [(k, v)]
  {
  }

  /** After `d[k] = v`, `k` maps to `v`, every other key maps to what it did before, and
      the keys keep their order, with `k` appended when it is new. */
  lemma PutGet<V>(d: Dict<V>, k: string, v: V)
    ensures Get(Put(d, k, v), k) == Some(v)
    ensures forall k' | k' != k :: Get(Put(d, k, v), k') == Get(d, k')
    ensures HasKey(d, k) ==> Keys(Put(d, k, v)) == Keys(d)
    ensures !HasKey(d, k) ==> Keys(Put(d, k, v)) == Keys(d) + [k]
  {
    match IndexOf(d, k)
    case Some(i) => PutExisting(d, k, v, i);
    case None => PutFresh(d, k, v);
  }

  /** Overwriting the pair at `i`, the first with key `k`, finds every key where it was. */
  lemma PutExisting<V>(d: Dict<V>, k: string, v: V, i: nat)
    requires IndexOf(d, k) == Some(i)
    ensures Put(d, k, v) == d[i := (k, v)]
    ensures IndexOf(Put(d, k, v), k) == Some(i)
    ensures forall k' | k' != k :: IndexOf(Put(d, k, v), k') == IndexOf(d, k')
  {
    var r := d[i := (k, v)];
    IndexOfIsFirst(r, k, i);
    forall k' | k' != k ensures IndexOf(r, k') == IndexOf(d, k') {
      var a, b := IndexOf(r, k'), IndexOf(d, k');
      if a.Some? { assert r[a.value] == d[a.value]; }
      if b.Some? { assert r[b.value] == d[b.value]; }
    }
  }

  /** Appending a pair for a new key `k` finds it last and every other key where it was. */
  lemma PutFresh<V>(d: Dict<V>, k: string, v: V)
    requires IndexOf(d, k).None?
    ensures Put(d, k, v) == d + [(k, v)]
    ensures IndexOf(Put(d, k, v), k) == Some(|d|)
    ensures forall k' | k' != k :: IndexOf(Put(d, k, v), k') == IndexOf(d, k')
  {
    var r := d + [(k, v)];
    IndexOfIsFirst(r, k, |d|);
    forall k' | k' != k ensures IndexOf(r, k') == IndexOf(d, k') {
      var a, b := IndexOf(r, k'), IndexOf(d, k');
      if a.Some? { assert a.value < |d|; assert r[a.value] == d[a.value]; }
      if b.Some? { assert r[b.value] == d[b.value]; }
    }
  }

  /** Assignment keeps a dictionary's keys distinct. */
  lemma PutKeepsUniqueKeys<V>(d: Dict<V>, k: string, v: V)
    requires UniqueKeys(d)
    ensures UniqueKeys(Put(d, k, v))
  {
    var r := Put(d, k, v);
    PutGet(d, k, v);
    forall i, j | 0 <= i < j < |r| ensures r[i].0 != r[j].0 {
      assert Keys(r)[i] == r[i].0 && Keys(r)[j] == r[j].0;
      if j == |d| {
        assert !HasKey(d, k);
      }
    }
  }

  /** The set of keys, for stating which names a result binds. */
  function KeySet<V>(d: Dict<V>): set<string> {
    set i | 0 <= i < |d| :: d[i].0
  }

  /** Assignment adds its key to the key set and changes nothing else in it. */
  lemma PutKeySet<V>(d: Dict<V>, k: string, v: V)
    ensures KeySet(Put(d, k, v)) == KeySet(d) + {k}
  {
    var r := Put(d, k, v);
    PutGet(d, k, v);
    var ks := Keys(r);
    forall x | x in KeySet(r) ensures x in KeySet(d) + {k} {
      var i :| 0 <= i < |r| && r[i].0 == x;
      assert ks[i] == x;
      if HasKey(d, k) {
        assert Keys(d)[i] == d[i].0;
      } else if i < |d| {
        assert Keys(d)[i] == d[i].0;
      }
    }
    forall x | x in KeySet(d) + {k} ensures x in KeySet(r) {
      if x == k {
        assert HasKey(r, k);
      } else {
        var i :| 0 <= i < |d| && d[i].0 == x;
        assert Keys(d)[i] == x;
        assert ks[i] == x;
      }
    }
  }

  /** Every pair of `d[k] = v` is the new pair or the pair at the same place in `d`. */
  lemma PutPairs<V>(d: Dict<V>, k: string, v: V)
    ensures forall i | 0 <= i < |Put(d, k, v)| :: Put(d, k, v)[i] == (k, v) || (i < |d| && Put(d, k, v)[i] == d[i])
  {
  }
}
