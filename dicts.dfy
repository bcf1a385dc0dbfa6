/**
 * Python's `dict` with string keys: an insertion-ordered list of entries.
 * Assigning to an existing key keeps the key where it is and replaces its
 * value; assigning to a new key appends it.
 */
module Dicts {
  import opened Seqs

  datatype Dict<V> = Dict(items: seq<(string, V)>) {

    /** The keys in iteration order. */
    function Keys(): (ks: seq<string>)
      ensures |ks| == |items|
      ensures forall i :: 0 <= i < |items| ==> ks[i] == items[i].0
    {
      seq(|items|, i requires 0 <= i < |items| => items[i].0)
    }

    predicate Has(k: string) {
      k in Keys()
    }

    /** Every genuine Python dict has distinct keys. */
    predicate Valid() {
      Distinct(Keys())
    }

    /** `d[k]`. */
    function Get(k: string): V
      requires Has(k)
    {
      items[IndexOf(Keys(), k)].1
    }

    /** `d[k] = v`, as a new value. */
    function Put(k: string, v: V): (r: Dict<V>)
      ensures r.Has(k) && r.Get(k) == v
      ensures forall x :: r.Has(x) <==> x == k || Has(x)
      ensures forall x :: x != k && Has(x) ==> r.Get(x) == Get(x)
      ensures Has(k) ==> r.Keys() == Keys()
      ensures !Has(k) ==> r.items == items + [(k, v)] && r.Keys() == Keys() + [k]
      ensures Valid() ==> r.Valid()
    {
      if Has(k) then
        var p := IndexOf(Keys(), k);
        var r := Dict(items[p := (k, v)]);
        assert r.Keys() == Keys();
        r
      else
        var r := Dict(items + [(k, v)]);
        assert r.Keys() == Keys() + [k];
        assert forall x :: Has(x) ==> IndexOf(r.Keys(), x) == IndexOf(Keys(), x) by {
          forall x | Has(x) {
            IndexOfAppend(Keys(), [k], x);
          }
        }
        IndexOfAppend(Keys(), [k], k);
        r
    }
  }

  /** Extending a dict's entry list leaves the keys it already has, and their values, as they were. */
  lemma PrefixKeepsEntries<V>(d: Dict<V>, e: Dict<V>, k: string)
    requires d.items <= e.items
    requires d.Has(k)
    ensures e.Has(k) && e.Get(k) == d.Get(k)
  {
  }
}
