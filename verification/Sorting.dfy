/** internal/spec/spec.go: the in-place insertion sort of the required lists. */
module Sorting {
  import opened Strings

  method Swap(a: array<string>, i: nat, j: nat)
    requires i < j < a.Length
    modifies a
    ensures a[..] == old(a[..])[i := old(a[j])][j := old(a[i])]
    ensures multiset(a[..]) == multiset(old(a[..]))
  {
    a[i], a[j] := a[j], a[i];
  }

  /** Everything up to `hi` is in order when position `hole` is ignored, and
      the part after `hole` is above the element in it. */
  ghost predicate SortedAround(s: seq<string>, hole: nat, hi: nat)
    requires hole <= hi < |s|
  {
    && (forall p, q | 0 <= p < q <= hi && p != hole && q != hole :: AtMost(s[p], s[q]))
    && (forall q | hole < q <= hi :: AtMost(s[hole], s[q]))
  }

  lemma StepLeft(s: seq<string>, t: seq<string>, hole: nat, hi: nat)
    requires 0 < hole <= hi < |s| && SortedAround(s, hole, hi)
    requires Below(s[hole], s[hole - 1])
    requires t == s[hole - 1 := s[hole]][hole := s[hole - 1]]
    ensures SortedAround(t, hole - 1, hi)
  {
    BelowAsymmetric(s[hole], s[hole - 1]);
  }

  lemma HoleFits(s: seq<string>, hole: nat, hi: nat)
    requires hole <= hi < |s| && SortedAround(s, hole, hi)
    requires hole == 0 || AtMost(s[hole - 1], s[hole])
    ensures Sorted(s[..hi + 1])
  {
    forall p, q | 0 <= p < q <= hi
      ensures AtMost(s[p], s[q])
    {
      if q == hole && p < hole - 1 {
        AtMostTransitive(s[p], s[hole - 1], s[hole]);
      }
    }
  }

  method StableSort(a: array<string>)
    modifies a
    ensures Sorted(a[..])
    ensures multiset(a[..]) == multiset(old(a[..]))
  {
    var i := 1;
    while i < a.Length
      invariant 1 <= i && (a.Length == 0 || i <= a.Length)
      invariant a.Length > 0 ==> Sorted(a[..i])
      invariant multiset(a[..]) == multiset(old(a[..]))
    {
      var j := i;
      assert forall k | 0 <= k < i :: a[..i][k] == a[..][k];
      while j > 0 && Below(a[j], a[j - 1])
        invariant 0 <= j <= i < a.Length
        invariant SortedAround(a[..], j, i)
        invariant multiset(a[..]) == multiset(old(a[..]))
      {
        ghost var before := a[..];
        Swap(a, j - 1, j);
        StepLeft(before, a[..], j, i);
        j := j - 1;
      }
      HoleFits(a[..], j, i);
      assert a[..][..i + 1] == a[..i + 1];
      i := i + 1;
    }
    assert a[..] == if a.Length == 0 then [] else a[..a.Length];
  }
}
