/**
 * Python's dict as the sources use it: a mapping that remembers the order
 * in which its keys were first inserted.  Iterating a dict (or `list(d)`)
 * yields `order`; assigning to an existing key keeps its place, a new key
 * goes last, and `del` removes the key from both.
 */
module PyDicts {

  /** No element occurs twice. */
  predicate Distinct<K(==)>(s: seq<K>)
  {
    forall i, j :: 0 <= i < j < |s| ==> s[i] != s[j]
  }

  datatype Dict<K(==), T> = Dict(order: seq<K>, items: map<K, T>)
  {
    /** The order lists every key exactly once. */
    predicate Valid()
    {
      && Distinct(order)
      && (forall k :: k in items ==> k in order)
      && (forall i :: 0 <= i < |order| ==> order[i] in items)
    }
  }

  /** In a list of distinct keys, the key at j occurs neither before nor after j. */
  lemma DistinctAt<K>(s: seq<K>, j: int)
    requires Distinct(s) && 0 <= j < |s|
    ensures s[j] !in s[..j] && s[j] !in s[j + 1..]
  {
    forall i | 0 <= i < j
      ensures s[..j][i] != s[j]
    {
      assert s[..j][i] == s[i];
    }
    var t := s[j + 1..];
    forall i | 0 <= i < |t|
      ensures t[i] != s[j]
    {
      assert t[i] == s[j + 1 + i];
    }
  }

  /** `{}` */
  function Empty<K(==), T>(): (d: Dict<K, T>)
    ensures d.Valid() && d.items == map[] && d.order == []
  {
    Dict([], map[])
  }

  /** `d[k] = v`: an existing key keeps its place, a new key goes last. */
  function Put<K(==), T>(d: Dict<K, T>, k: K, v: T): (r: Dict<K, T>)
    ensures r.items == d.items[k := v]
  {
    if k in d.items then Dict(d.order, d.items[k := v])
    else Dict(d.order + [k], d.items[k := v])
  }

  /** Assignment keeps a dict well formed. */
  lemma PutValid<K, T>(d: Dict<K, T>, k: K, v: T)
    requires d.Valid()
    ensures Put(d, k, v).Valid()
  {
  }

  /** The place of k in s. */
  function IndexOf<K(==)>(s: seq<K>, k: K): (i: int)
    requires k in s
    ensures 0 <= i < |s| && s[i] == k && k !in s[..i]
  {
    if s[0] == k then 0
    else
      var i := 1 + IndexOf(s[1..], k);
      assert s[1..][..i - 1] == s[1..i];
      i
  }

  /** `del d[k]`: the key leaves the order, the others keep theirs. */
  function Remove<K(==), T>(d: Dict<K, T>, k: K): (r: Dict<K, T>)
    ensures r.items == d.items - {k}
  {
    if k in d.order then
      var i := IndexOf(d.order, k);
      Dict(d.order[..i] + d.order[i + 1..], d.items - {k})
    else Dict(d.order, d.items - {k})
  }

  /** Deletion keeps a dict well formed. */
  lemma RemoveValid<K, T>(d: Dict<K, T>, k: K)
    requires d.Valid()
    ensures Remove(d, k).Valid()
  {
    if k in d.order {
      DropValid(d, k, IndexOf(d.order, k));
    }
  }

  lemma DropValid<K, T>(d: Dict<K, T>, k: K, i: int)
    requires d.Valid() && 0 <= i < |d.order| && d.order[i] == k
    ensures Dict(d.order[..i] + d.order[i + 1..], d.items - {k}).Valid()
  {
    var o := d.order[..i] + d.order[i + 1..];
    assert forall j :: 0 <= j < |o| ==> o[j] == d.order[if j < i then j else j + 1];
    forall x | x in d.items - {k}
      ensures x in o
    {
      var j :| 0 <= j < |d.order| && d.order[j] == x;
      if j < i {
        assert o[j] == x;
      } else {
        assert o[j - 1] == x;
      }
    }
  }

  /** Removing a key that follows a prefix without it drops exactly that position. */
  lemma RemoveAt<K, T>(d: Dict<K, T>, x: seq<K>, k: K, y: seq<K>)
    requires d.order == x + [k] + y && k !in x
    ensures Remove(d, k).order == x + y
  {
    var i := IndexOf(d.order, k);
    assert d.order[|x|] == k;
    assert i == |x|;
    assert d.order[..i] == x && d.order[i + 1..] == y;
  }
}
