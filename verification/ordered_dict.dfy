/**
  The part of a Python dict the registry relies on: a dict is the sequence of
  its entries in insertion order. Membership (`k in d`), subscript (`d[k]`),
  assignment (`d[k] = v`), construction from a literal `{k1: v1, ...}` and
  `list(d.keys())` are modelled; a dict built by these operations never holds
  the same key twice.
 */
module OrderedDict {

  datatype Option<+T> = None | Some(value: T)

  type Entry = (string, string)

  type Dict = seq<Entry>

  /** The keys in insertion order, as `list(d.keys())` yields them. */
  function Keys(d: Dict): (ks: seq<string>)
    ensures |ks| == |d|
  {
    seq(|d|, i requires 0 <= i < |d| => d[i].0)
  }

  /** `k in d`: a key is listed exactly when some entry carries it. */
  lemma KeysMembership(d: Dict, k: string)
    ensures k in Keys(d) <==> exists v :: (k, v) in d
  {
    if k in Keys(d) {
      var i :| 0 <= i < |d| && Keys(d)[i] == k;
      assert (k, d[i].1) == d[i];
    }
    if exists v :: (k, v) in d {
      var v :| (k, v) in d;
      var i :| 0 <= i < |d| && d[i] == (k, v);
      assert Keys(d)[i] == k;
    }
  }

  predicate Distinct(ks: seq<string>) {
    forall i, j :: 0 <= i < j < |ks| ==> ks[i] != ks[j]
  }

  lemma KeysCons(d: Dict)
    requires |d| > 0
    ensures Keys(d) == [d[0].0] + Keys(d[1..])
    ensures Distinct(Keys(d)) ==> Distinct(Keys(d[1..])) && d[0].0 !in Keys(d[1..])
  {
    var ks, t := Keys(d), Keys(d[1..]);
    assert ks == [d[0].0] + t;
    if Distinct(ks) {
      forall i, j | 0 <= i < j < |t|
        ensures t[i] != t[j]
      {
        assert t[i] == ks[i + 1] && t[j] == ks[j + 1];
      }
      forall j | 0 <= j < |t|
        ensures t[j] != d[0].0
      {
        assert t[j] == ks[j + 1] && ks[0] == d[0].0;
      }
    }
  }

  lemma KeysPrefixDistinct(d: Dict, e: Entry)
    requires Distinct(Keys(d + [e]))
    ensures Distinct(Keys(d)) && e.0 !in Keys(d)
  {
    var ks, t := Keys(d + [e]), Keys(d);
    KeysSnoc(d, e);
    forall i, j | 0 <= i < j < |t|
      ensures t[i] != t[j]
    {
      assert t[i] == ks[i] && t[j] == ks[j];
    }
    forall i | 0 <= i < |t|
      ensures t[i] != e.0
    {
      assert t[i] == ks[i] && e.0 == ks[|t|];
    }
  }

  lemma KeysSnoc(d: Dict, e: Entry)
    ensures Keys(d + [e]) == Keys(d) + [e.0]
  {
  }

  /** Subscript `d[k]`: the value stored under k, or None where Python raises KeyError. */
  function Find(d: Dict, k: string): (v: Option<string>)
    ensures v.Some? <==> k in Keys(d)
    ensures v.Some? ==> (k, v.value) in d
    ensures Distinct(Keys(d)) ==> forall i :: 0 <= i < |d| && d[i].0 == k ==> v == Some(d[i].1)
  {
    if |d| == 0 then None
    else
      KeysCons(d);
      if d[0].0 == k then
        assert Keys(d)[0] == k;
        assert forall i :: 0 < i < |d| ==> Keys(d[1..])[i - 1] == d[i].0;
        Some(d[0].1)
      else
        var v := Find(d[1..], k);
        assert forall i :: 1 <= i < |d| ==> d[i] == d[1..][i - 1];
        v
  }

  /** Assignment `d[k] = v`: an existing key keeps its position, a new key goes last. */
  function Insert(d: Dict, k: string, v: string): (r: Dict)
    ensures k in Keys(d) ==> Keys(r) == Keys(d)
    ensures k !in Keys(d) ==> r == d + [(k, v)]
  {
    if |d| == 0 then [(k, v)]
    else
      KeysCons(d);
      if d[0].0 == k then
        var r := [(k, v)] + d[1..];
        KeysCons(r);
        assert r[1..] == d[1..];
        r
      else
        var rest := Insert(d[1..], k, v);
        var r := [d[0]] + rest;
        KeysCons(r);
        assert r[1..] == rest;
        assert k !in Keys(d) ==> r == d + [(k, v)] by {
          assert d == [d[0]] + d[1..];
        }
        r
  }

  /** After `d[k] = v`, k reads back as v and every other key reads as before. */
  lemma {:induction false} InsertFind(d: Dict, k: string, v: string, k': string)
    ensures Find(Insert(d, k, v), k') == if k' == k then Some(v) else Find(d, k')
  {
    if |d| > 0 {
      var r := Insert(d, k, v);
      if d[0].0 == k {
        assert r[1..] == d[1..];
      } else {
        InsertFind(d[1..], k, v, k');
        assert r[1..] == Insert(d[1..], k, v);
      }
    }
  }

  /** The dict a literal `{k1: v1, ..., kn: vn}` evaluates to: the pairs assigned left to right. */
  function FromPairs(ps: seq<Entry>): (d: Dict)
    ensures Distinct(Keys(d))
    ensures forall k :: k in Keys(d) <==> k in Keys(ps)
  {
    if |ps| == 0 then []
    else
      var init := ps[..|ps| - 1];
      var last := ps[|ps| - 1];
      assert init + [last] == ps;
      KeysSnoc(init, last);
      KeysSnoc(FromPairs(init), last);
      Insert(FromPairs(init), last.0, last.1)
  }

  /** Reference reading of a literal: the value of the rightmost pair with key k. */
  function LastValue(ps: seq<Entry>, k: string): Option<string> {
    if |ps| == 0 then None
    else if ps[|ps| - 1].0 == k then Some(ps[|ps| - 1].1)
    else LastValue(ps[..|ps| - 1], k)
  }

  /** In a literal with a repeated key, the rightmost value wins. */
  lemma {:induction false} FromPairsLastWins(ps: seq<Entry>, k: string)
    ensures Find(FromPairs(ps), k) == LastValue(ps, k)
  {
    if |ps| > 0 {
      var init, last := ps[..|ps| - 1], ps[|ps| - 1];
      FromPairsLastWins(init, k);
      InsertFind(FromPairs(init), last.0, last.1, k);
    }
  }

  /** A literal without repeated keys evaluates to exactly its pairs, in order. */
  lemma {:induction false} FromDistinctPairs(ps: seq<Entry>)
    requires Distinct(Keys(ps))
    ensures FromPairs(ps) == ps
  {
    if |ps| > 0 {
      var init := ps[..|ps| - 1];
      var last := ps[|ps| - 1];
      assert init + [last] == ps;
      KeysPrefixDistinct(init, last);
      FromDistinctPairs(init);
    }
  }
}
