/** Facts about sequences used by the ordered-dictionary model: first index and first-occurrence deduplication. */
module Seqs {

  /** No element occurs twice. */
  predicate Distinct<T(==)>(s: seq<T>) {
    forall i, j :: 0 <= i < j < |s| ==> s[i] != s[j]
  }

  /** The position of the first occurrence of `x` in `s`. */
  function IndexOf<T(==)>(s: seq<T>, x: T): (r: nat)
    requires x in s
    ensures r < |s| && s[r] == x
    ensures forall i :: 0 <= i < r ==> s[i] != x
  {
    if s[0] == x then 0 else 1 + IndexOf(s[1..], x)
  }

  /** Appending elements does not move the first occurrence of an element already present. */
  lemma IndexOfAppend<T>(s: seq<T>, t: seq<T>, x: T)
    requires x in s + t
    ensures x in s ==> IndexOf(s + t, x) == IndexOf(s, x)
    ensures x !in s ==> x in t && IndexOf(s + t, x) == |s| + IndexOf(t, x)
  {
    if x in s {
      assert (s + t)[IndexOf(s, x)] == x;
    } else {
      assert (s + t)[|s| + IndexOf(t, x)] == x;
    }
  }

  /** The elements of `s` in the order of their first occurrence, each once. */
  function Dedup<T(==)>(s: seq<T>): (r: seq<T>)
    ensures forall i :: 0 <= i < |r| ==> r[i] in s
    ensures forall i :: 0 <= i < |s| ==> s[i] in r
    ensures Distinct(r)
    ensures |r| <= |s|
  {
    if s == [] then []
    else
      var init := s[..|s| - 1];
      assert s == init + [s[|s| - 1]];
      var p := Dedup(init);
      if s[|s| - 1] in p then p else p + [s[|s| - 1]]
  }

  lemma DedupHas<T>(s: seq<T>, x: T)
    ensures x in Dedup(s) <==> x in s
  {
  }

  /** Dedup lists elements in the order in which they first occur in its input. */
  lemma {:induction false} DedupFirstOccurrenceOrder<T>(s: seq<T>, i: nat, j: nat)
    requires i < j < |Dedup(s)|
    ensures IndexOf(s, Dedup(s)[i]) < IndexOf(s, Dedup(s)[j])
  {
    var init, x := s[..|s| - 1], s[|s| - 1];
    assert s == init + [x];
    var p := Dedup(init);
    if x in p {
      DedupFirstOccurrenceOrder(init, i, j);
      IndexOfAppend(init, [x], p[i]);
      IndexOfAppend(init, [x], p[j]);
    } else if j < |p| {
      DedupFirstOccurrenceOrder(init, i, j);
      IndexOfAppend(init, [x], p[i]);
      IndexOfAppend(init, [x], p[j]);
    } else {
      IndexOfAppend(init, [x], p[i]);
      IndexOfAppend(init, [x], x);
    }
  }

  /** Deduplicating a longer sequence only appends to the deduplication of its prefix. */
  lemma {:induction false} DedupAppend<T>(s: seq<T>, x: T)
    ensures Dedup(s + [x]) == if x in s then Dedup(s) else Dedup(s) + [x]
  {
  }
}
