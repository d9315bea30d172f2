/**
 * The part of Python's `dict` that the library relies on, with string keys: an
 * insertion-ordered list of entries with distinct keys, item assignment, lookup, and
 * `dict(pairs)` / dict comprehensions, which assign the pairs one after the other.
 */
module PyDict {
  import opened Wrappers

  function KeysOf<V>(s: seq<(string, V)>): seq<string> {
    seq(|s|, i requires 0 <= i < |s| => s[i].0)
  }

  function ValuesOf<V>(s: seq<(string, V)>): seq<V> {
    seq(|s|, i requires 0 <= i < |s| => s[i].1)
  }

  /** `list(zip(ks, vs))` for lists of equal length. */
  function Zip<V>(ks: seq<string>, vs: seq<V>): seq<(string, V)>
    requires |ks| == |vs|
  {
    seq(|ks|, i requires 0 <= i < |ks| => (ks[i], vs[i]))
  }

  lemma ZipParts<V>(ks: seq<string>, vs: seq<V>)
    requires |ks| == |vs|
    ensures KeysOf(Zip(ks, vs)) == ks && ValuesOf(Zip(ks, vs)) == vs
  {
  }

  predicate Distinct(ks: seq<string>) {
    forall i, j :: 0 <= i < j < |ks| ==> ks[i] != ks[j]
  }

  /** A dict: its entries in insertion order; no key occurs twice. */
  type Dict<V> = s: seq<(string, V)> | Distinct(KeysOf(s)) witness []

  /** The position of the first occurrence of `k` in `ks`. */
  function IndexOf(ks: seq<string>, k: string): (i: nat)
    requires k in ks
    ensures i < |ks| && ks[i] == k && k !in ks[..i]
  {
    if ks[0] == k then 0 else 1 + IndexOf(ks[1..], k)
  }

  /** The position of the last occurrence of `k` in `ks`. */
  function LastIndexOf(ks: seq<string>, k: string): (i: nat)
    requires k in ks
    ensures i < |ks| && ks[i] == k && k !in ks[i + 1..]
  {
    var n := |ks| - 1;
    if ks[n] == k then n
    else
      assert k in ks[..n] by { var j :| 0 <= j < |ks| && ks[j] == k; assert ks[..n][j] == k; }
      var i := LastIndexOf(ks[..n], k);
      assert ks[i + 1..] == ks[..n][i + 1..] + [ks[n]];
      i
  }

  lemma IndexOfIsFirst(ks: seq<string>, k: string, i: nat)
    requires i < |ks| && ks[i] == k && k !in ks[..i]
    ensures IndexOf(ks, k) == i
  {
  }

  /** `d.get(k)`: the value stored under `k`, or None. */
  function Lookup<V>(d: Dict<V>, k: string): (r: Option<V>)
    ensures r.Some? <==> k in KeysOf(d)
    ensures forall i :: 0 <= i < |d| && d[i].0 == k ==> r == Some(d[i].1)
  {
    assert forall i :: 0 <= i < |d| ==> KeysOf(d)[i] == d[i].0;
    if k in KeysOf(d) then Some(d[IndexOf(KeysOf(d), k)].1)
    else
      None
  }

  /**
   * `d[k] = v`: an existing key keeps its position and takes the new value; a new key
   * is appended at the end.
   */
  function Set<V>(d: Dict<V>, k: string, v: V): (r: Dict<V>)
    ensures KeysOf(r) == if k in KeysOf(d) then KeysOf(d) else KeysOf(d) + [k]
  {
    if k in KeysOf(d) then
      var i := IndexOf(KeysOf(d), k);
      var r := d[i := (k, v)];
      assert KeysOf(r) == KeysOf(d);
      r
    else
      var r := d + [(k, v)];
      assert KeysOf(r) == KeysOf(d) + [k];
      r
  }

  /** After `d[k] = v`, `k` holds `v` and every other key holds what it held before. */
  lemma SetLookup<V>(d: Dict<V>, k: string, v: V, k': string)
    ensures Lookup(Set(d, k, v), k') == if k' == k then Some(v) else Lookup(d, k')
  {
    var r := Set(d, k, v);
    if k in KeysOf(d) {
      var i := IndexOf(KeysOf(d), k);
      assert r[i] == (k, v);
    } else {
      assert r[|d|] == (k, v);
    }
    if k' != k && k' in KeysOf(d) {
      var j := IndexOf(KeysOf(d), k');
      assert r[j] == d[j];
    }
  }

  /** `dict(pairs)`: the pairs are assigned in order, as by `{k: v for k, v in pairs}`. */
  function FromPairs<V>(ps: seq<(string, V)>): Dict<V> {
    if ps == [] then []
    else
      var n := |ps| - 1;
      Set(FromPairs(ps[..n]), ps[n].0, ps[n].1)
  }

  /** A key occurs in `dict(pairs)` exactly when some pair has it. */
  lemma {:induction false} FromPairsKeys<V>(ps: seq<(string, V)>, k: string)
    ensures k in KeysOf(FromPairs(ps)) <==> k in KeysOf(ps)
    decreases |ps|
  {
    if ps != [] {
      var n := |ps| - 1;
      var d := FromPairs(ps[..n]);
      FromPairsKeys(ps[..n], k);
      KeysOfPrefix(ps, n);
      InLast(KeysOf(ps), k);
      InAppend(KeysOf(d), ps[n].0, k);
    }
  }

  lemma InLast(ks: seq<string>, k: string)
    requires ks != []
    ensures k in ks <==> k in ks[..|ks| - 1] || k == ks[|ks| - 1]
  {
    assert ks == ks[..|ks| - 1] + [ks[|ks| - 1]];
  }

  lemma InAppend(ks: seq<string>, x: string, k: string)
    ensures k in ks + [x] <==> k in ks || k == x
  {
  }

  /** A repeated key holds the value of its last pair. */
  lemma {:induction false} FromPairsLookup<V>(ps: seq<(string, V)>, k: string)
    requires k in KeysOf(ps)
    ensures Lookup(FromPairs(ps), k) == Some(ps[LastIndexOf(KeysOf(ps), k)].1)
    decreases |ps|
  {
    var n := |ps| - 1;
    var ks := KeysOf(ps);
    var p := ps[..n];
    KeysOfPrefix(ps, n);
    SetLookup(FromPairs(p), ps[n].0, ps[n].1, k);
    if ps[n].0 == k {
      assert ks[n] == k;
    } else {
      LastIndexOfBefore(ks, k);
      FromPairsLookup(p, k);
      assert p[LastIndexOf(KeysOf(p), k)] == ps[LastIndexOf(ks, k)];
    }
  }

  lemma KeysOfPrefix<V>(ps: seq<(string, V)>, n: nat)
    requires n <= |ps|
    ensures KeysOf(ps[..n]) == KeysOf(ps)[..n]
  {
  }

  /** When the last key is not `k`, the last occurrence of `k` lies in the prefix. */
  lemma LastIndexOfBefore(ks: seq<string>, k: string)
    requires k in ks && ks[|ks| - 1] != k
    ensures k in ks[..|ks| - 1] && LastIndexOf(ks, k) == LastIndexOf(ks[..|ks| - 1], k)
  {
    var j :| 0 <= j < |ks| && ks[j] == k;
    assert ks[..|ks| - 1][j] == k;
  }

  /** Entries of `dict(pairs)` appear in the order in which their keys first occur. */
  lemma {:induction false} FromPairsOrder<V>(ps: seq<(string, V)>, a: nat, b: nat)
    requires a < b < |FromPairs(ps)|
    ensures FromPairs(ps)[a].0 in KeysOf(ps) && FromPairs(ps)[b].0 in KeysOf(ps)
    ensures IndexOf(KeysOf(ps), FromPairs(ps)[a].0) < IndexOf(KeysOf(ps), FromPairs(ps)[b].0)
    decreases |ps|
  {
    var n := |ps| - 1;
    var ks := KeysOf(ps);
    var p := ps[..n];
    var d := FromPairs(p);
    SetEntryKeys(d, ps[n].0, ps[n].1);
    KeysOfPrefix(ps, n);
    if b < |d| {
      FromPairsOrder(p, a, b);
      PrefixIndexOf(ks, n, d[a].0);
      PrefixIndexOf(ks, n, d[b].0);
    } else {
      FromPairsKeys(p, ps[n].0);
      assert KeysOf(d)[a] == d[a].0;
      FromPairsKeys(p, d[a].0);
      PrefixIndexOf(ks, n, d[a].0);
      IndexOfIsFirst(ks, ps[n].0, n);
    }
  }

  /** The keys of the entries after `d[k] = v`: those of `d`, then `k` if it was new. */
  lemma SetEntryKeys<V>(d: Dict<V>, k: string, v: V)
    ensures |Set(d, k, v)| == if k in KeysOf(d) then |d| else |d| + 1
    ensures forall i :: 0 <= i < |d| ==> Set(d, k, v)[i].0 == d[i].0
    ensures k !in KeysOf(d) ==> Set(d, k, v)[|d|].0 == k
  {
    var r := Set(d, k, v);
    assert forall i :: 0 <= i < |r| ==> KeysOf(r)[i] == r[i].0;
    assert forall i :: 0 <= i < |d| ==> KeysOf(d)[i] == d[i].0;
  }

  lemma PrefixIndexOf(ks: seq<string>, n: nat, k: string)
    requires n <= |ks| && k in ks[..n]
    ensures k in ks && IndexOf(ks, k) == IndexOf(ks[..n], k)
  {
    var i := IndexOf(ks[..n], k);
    assert ks[..n][..i] == ks[..i];
    IndexOfIsFirst(ks, k, i);
  }

  /** When no key repeats, `dict(pairs)` holds the pairs exactly as given. */
  lemma {:induction false} FromPairsOfDistinct<V>(ps: seq<(string, V)>)
    requires Distinct(KeysOf(ps))
    ensures FromPairs(ps) == ps
    decreases |ps|
  {
    if ps != [] {
      var n := |ps| - 1;
      var p := ps[..n];
      KeysOfPrefix(ps, n);
      DistinctLast(KeysOf(ps));
      FromPairsOfDistinct(p);
      DropLast(ps);
    }
  }

  /** Without the last key the keys stay distinct, and the last key is new. */
  lemma DistinctLast(ks: seq<string>)
    requires ks != [] && Distinct(ks)
    ensures Distinct(ks[..|ks| - 1]) && ks[|ks| - 1] !in ks[..|ks| - 1]
  {
  }

  lemma DropLast<V>(ps: seq<(string, V)>)
    requires ps != []
    ensures ps[..|ps| - 1] + [ps[|ps| - 1]] == ps
  {
  }
}
