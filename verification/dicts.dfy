/** Python dictionaries as insertion-ordered association lists: iteration
    order is the order in which keys were first inserted, and assigning to an
    existing key replaces its value in place. */
module Dicts {

  datatype Option<T> = None | Some(value: T)

  /** Every dictionary of the modelled code maps strings to strings. */
  type Dict = seq<(string, string)>

  function Keys(d: Dict): (ks: seq<string>)
    ensures |ks| == |d|
    ensures forall i :: 0 <= i < |d| ==> ks[i] == d[i].0
    decreases |d|
  {
    if |d| == 0 then [] else [d[0].0] + Keys(d[1..])
  }

  /** `a` is `b` with some elements deleted: the order of what is kept is
      the order of `b`. */
  predicate Sublist<T(==)>(a: seq<T>, b: seq<T>)
    decreases |b|
  {
    if |a| == 0 then true
    else if |b| == 0 then false
    else if a[0] == b[0] then Sublist(a[1..], b[1..])
    else Sublist(a, b[1..])
  }

  /** A Python `dict` never holds the same key twice. */
  predicate DistinctKeys(d: Dict) {
    forall i, j :: 0 <= i < j < |d| ==> d[i].0 != d[j].0
  }

  /** `d.get(k)`: the value stored under `k`, if any. */
  function Get(d: Dict, k: string): (r: Option<string>)
    ensures r.None? <==> k !in Keys(d)
    ensures r.Some? ==> (k, r.value) in d
    decreases |d|
  {
    if |d| == 0 then None
    else if d[0].0 == k then Some(d[0].1)
    else
      assert Keys(d) == [d[0].0] + Keys(d[1..]);
      Get(d[1..], k)
  }

  /** `d[k] = v` */
  function Put(d: Dict, k: string, v: string): (r: Dict)
    ensures k in Keys(d) ==> Keys(r) == Keys(d)
    ensures k !in Keys(d) ==> r == d + [(k, v)]
    ensures Get(r, k) == Some(v)
    ensures forall k' :: k' != k ==> Get(r, k') == Get(d, k')
    decreases |d|
  {
    if |d| == 0 then [(k, v)]
    else
      var x, rest := d[0], d[1..];
      assert d == [x] + rest;
      KeysCons(x, rest);
      GetCons(x, rest);
      if x.0 == k then
        KeysCons((k, v), rest);
        GetCons((k, v), rest);
        [(k, v)] + rest
      else
        var t := Put(rest, k, v);
        KeysCons(x, t);
        GetCons(x, t);
        ConsSnoc(x, rest, (k, v));
        [x] + t
  }

  lemma KeysCons(x: (string, string), d: Dict)
    ensures Keys([x] + d) == [x.0] + Keys(d)
  {
    assert ([x] + d)[1..] == d;
  }

  lemma GetCons(x: (string, string), d: Dict)
    ensures forall k :: Get([x] + d, k) == if x.0 == k then Some(x.1) else Get(d, k)
  {
    assert ([x] + d)[1..] == d;
  }

  lemma ConsSnoc<T>(x: T, d: seq<T>, y: T)
    ensures [x] + (d + [y]) == ([x] + d) + [y]
  {
  }

  /** Assignment keeps the keys of a dictionary distinct. */
  lemma PutDistinct(d: Dict, k: string, v: string)
    requires DistinctKeys(d)
    ensures DistinctKeys(Put(d, k, v))
  {
    var r := Put(d, k, v);
    if k in Keys(d) {
      assert forall i :: 0 <= i < |r| ==> r[i].0 == Keys(r)[i] == Keys(d)[i] == d[i].0;
    } else {
      assert forall i :: 0 <= i < |d| ==> d[i].0 == Keys(d)[i];
      assert forall i :: 0 <= i < |d| ==> r[i] == d[i];
    }
  }

  /** In a dictionary, looking up the key of an entry finds that entry's value. */
  lemma {:induction false} GetAt(d: Dict, i: int)
    requires DistinctKeys(d) && 0 <= i < |d|
    ensures Get(d, d[i].0) == Some(d[i].1)
    decreases |d|
  {
    if i > 0 {
      assert d[0].0 != d[i].0;
      assert DistinctKeys(d[1..]) by {
        assert forall j :: 0 <= j < |d| - 1 ==> d[1..][j] == d[j + 1];
      }
      GetAt(d[1..], i - 1);
    }
  }
}
