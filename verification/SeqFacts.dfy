/** Regrouping and slicing of concatenated sequences. */
module SeqFacts {
  lemma Slice<T>(x: seq<T>, y: seq<T>, z: seq<T>)
    ensures (x + y + z)[|x|..|x| + |y|] == y
  {
  }

  /** Slice of a slice. */
  lemma SubSlice<T>(s: seq<T>, lo: nat, hi: nat, a: nat, b: nat)
    requires lo <= hi <= |s| && a <= b <= hi - lo
    ensures s[lo..hi][a..b] == s[lo + a..lo + b]
  {
    forall i | 0 <= i < b - a
      ensures s[lo..hi][a..b][i] == s[lo + a..lo + b][i]
    {
      assert s[lo..hi][a..b][i] == s[lo..hi][a + i];
    }
  }

  lemma Inner<T>(a: seq<T>, x: seq<T>, y: seq<T>, z: seq<T>, d: seq<T>)
    ensures a + (x + y + z) + d == (a + x) + y + (z + d)
  {
  }

  lemma SplitMiddle<T>(x: seq<T>, y1: seq<T>, y2: seq<T>, z: seq<T>)
    ensures x + (y1 + y2) + z == x + y1 + (y2 + z)
    ensures x + (y1 + y2) + z == (x + y1) + y2 + z
  {
  }

  function Concat<T>(parts: seq<seq<T>>): seq<T> {
    if parts == [] then [] else Concat(parts[..|parts| - 1]) + parts[|parts| - 1]
  }

  lemma ConcatAppend<T>(parts: seq<seq<T>>, p: seq<T>)
    ensures Concat(parts + [p]) == Concat(parts) + p
  {
    assert (parts + [p])[..|parts|] == parts;
  }
}
