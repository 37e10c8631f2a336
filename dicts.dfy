/**
 * Python's `dict` with string keys, as the monitor uses it: assigning `d[k] = v` keeps the
 * position at which k was first inserted and replaces its value, and iteration follows
 * insertion order.
 */
module Dicts {

  /** A dict: its keys in insertion order, and what each key maps to. */
  datatype Dict<V> = Dict(keys: seq<string>, entries: map<string, V>) {

    /** The keys are listed once each, and exactly the keys of the mapping are listed. */
    predicate Valid()
    {
      && (forall i, j :: 0 <= i < j < |keys| ==> keys[i] != keys[j])
      && (forall k :: k in entries ==> k in keys)
      && (forall k :: k in keys ==> k in entries)
    }

    /** `d[k] = v`: the key keeps its place if present and is appended otherwise. */
    function Put(k: string, v: V): (r: Dict<V>)
      ensures r.entries == entries[k := v]
      ensures k in entries ==> r.keys == keys
      ensures k !in entries ==> r.keys == keys + [k]
    {
      if k in entries then Dict(keys, entries[k := v]) else Dict(keys + [k], entries[k := v])
    }
  }

  /** Assigning into a valid dict keeps it valid. */
  lemma PutValid<V>(d: Dict<V>, k: string, v: V)
    requires d.Valid()
    ensures d.Put(k, v).Valid()
  {
  }

  /** `{}` */
  function Empty<V>(): (d: Dict<V>)
    ensures d.Valid() && d.keys == []
  {
    Dict([], map[])
  }

  /** The keys of a sequence of key-value pairs, in order. */
  function Names<V>(ps: seq<(string, V)>): (ns: seq<string>)
    ensures |ns| == |ps|
    ensures forall i :: 0 <= i < |ps| ==> ns[i] == ps[i].0
  {
    seq(|ps|, i requires 0 <= i < |ps| => ps[i].0)
  }

  /** The position of the first occurrence of x in xs. */
  function IndexOf(xs: seq<string>, x: string): (i: nat)
    requires x in xs
    ensures i < |xs| && xs[i] == x && x !in xs[..i]
  {
    if xs[0] == x then 0 else 1 + IndexOf(xs[1..], x)
  }

  lemma {:induction false} IndexOfSnoc(xs: seq<string>, y: string, x: string)
    requires x in xs
    ensures IndexOf(xs + [y], x) == IndexOf(xs, x)
  {
    if xs[0] != x {
      assert (xs + [y])[1..] == xs[1..] + [y];
      IndexOfSnoc(xs[1..], y, x);
    }
  }

  lemma IndexOfNew(xs: seq<string>, x: string)
    requires x !in xs
    ensures IndexOf(xs + [x], x) == |xs|
  {
  }

  /** The dict obtained by assigning every pair, in order, into an empty dict. */
  function Build<V>(ps: seq<(string, V)>): (d: Dict<V>)
    ensures d.Valid()
  {
    if ps == [] then Empty() else Build(ps[..|ps| - 1]).Put(ps[|ps| - 1].0, ps[|ps| - 1].1)
  }

  lemma NamesSnoc<V>(ps: seq<(string, V)>)
    requires ps != []
    ensures Names(ps) == Names(ps[..|ps| - 1]) + [ps[|ps| - 1].0]
  {
  }

  /** A key is in the built dict exactly when some pair names it. */
  lemma {:induction false} BuildKeys<V>(ps: seq<(string, V)>, k: string)
    ensures k in Build(ps).entries <==> k in Names(ps)
  {
    if ps != [] {
      NamesSnoc(ps);
      BuildKeys(ps[..|ps| - 1], k);
    }
  }

  /** The value of a key is the one of the last pair that names it. */
  lemma {:induction false} BuildLastWins<V>(ps: seq<(string, V)>, j: nat)
    requires j < |ps|
    requires forall j' :: j < j' < |ps| ==> ps[j'].0 != ps[j].0
    ensures ps[j].0 in Build(ps).entries && Build(ps).entries[ps[j].0] == ps[j].1
  {
    if j < |ps| - 1 {
      BuildLastWins(ps[..|ps| - 1], j);
    }
  }

  /** The keys are ordered by the position at which a pair first names them. */
  lemma {:induction false} BuildKeyOrder<V>(ps: seq<(string, V)>, i: nat, j: nat)
    requires i < j < |Build(ps).keys|
    ensures Build(ps).keys[i] in Names(ps) && Build(ps).keys[j] in Names(ps)
    ensures IndexOf(Names(ps), Build(ps).keys[i]) < IndexOf(Names(ps), Build(ps).keys[j])
  {
    var d := Build(ps);
    BuildKeys(ps, d.keys[i]);
    BuildKeys(ps, d.keys[j]);
    var pre := ps[..|ps| - 1];
    var b := Build(pre);
    var k := ps[|ps| - 1].0;
    NamesSnoc(ps);
    if j < |b.keys| {
      BuildKeyOrder(pre, i, j);
      assert d.keys[i] == b.keys[i] && d.keys[j] == b.keys[j];
      IndexOfSnoc(Names(pre), k, b.keys[i]);
      IndexOfSnoc(Names(pre), k, b.keys[j]);
    } else {
      assert k !in b.entries && d.keys[j] == k;
      BuildKeys(pre, k);
      IndexOfNew(Names(pre), k);
      assert d.keys[i] == b.keys[i];
      BuildKeys(pre, b.keys[i]);
      IndexOfSnoc(Names(pre), k, b.keys[i]);
    }
  }
}
