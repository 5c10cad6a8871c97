/**
 Order-preserving de-duplication, the shared definition behind every copy of
 `remove_duplicates_preserve_order` in the repository.
 */
module Lists {

  predicate NoDuplicates<T(==)>(s: seq<T>) {
    forall i, j :: 0 <= i < j < |s| ==> s[i] != s[j]
  }

  /** Position of the first occurrence of `x` in `s`. */
  function FirstIndex<T(==)>(s: seq<T>, x: T): (i: nat)
    requires x in s
    ensures i < |s| && s[i] == x
    ensures forall j :: 0 <= j < i ==> s[j] != x
    decreases |s|
  {
    if s[0] == x then 0 else 1 + FirstIndex(s[1..], x)
  }

  /** The first occurrence inside a prefix is the first occurrence in the whole list. */
  lemma {:induction false} FirstIndexOfPrefix<T>(s: seq<T>, k: nat, x: T)
    requires k <= |s| && x in s[..k]
    ensures FirstIndex(s, x) == FirstIndex(s[..k], x)
    decreases k
  {
    if s[0] != x {
      assert s[..k][1..] == s[1..][..k - 1];
      FirstIndexOfPrefix(s[1..], k - 1, x);
    }
  }

  /**
   Reference definition: an element is kept exactly when it does not occur
   earlier in the list, i.e. at its first occurrence.
   */
  function Dedup<T(==)>(s: seq<T>): (r: seq<T>)
    ensures NoDuplicates(r)
    ensures forall i :: 0 <= i < |r| ==> r[i] in s
    ensures forall i :: 0 <= i < |s| ==> s[i] in r
    ensures |r| <= |s|
    decreases |s|
  {
    if |s| == 0 then []
    else
      var init := s[..|s| - 1];
      assert s == init + [s[|s| - 1]];
      var kept := Dedup(init);
      if s[|s| - 1] in init then kept else kept + [s[|s| - 1]]
  }

  /** The output lists the distinct elements in the order of their first occurrence in the input. */
  lemma {:induction false} DedupFirstOccurrenceOrder<T>(s: seq<T>)
    ensures forall i, j :: 0 <= i < j < |Dedup(s)| ==> FirstIndex(s, Dedup(s)[i]) < FirstIndex(s, Dedup(s)[j])
    decreases |s|
  {
    if |s| > 0 {
      var n := |s| - 1;
      var init := s[..n];
      var kept := Dedup(init);
      DedupFirstOccurrenceOrder(init);
      forall x | x in kept
        ensures FirstIndex(s, x) == FirstIndex(init, x) < n
      {
        FirstIndexOfPrefix(s, n, x);
      }
      if s[n] !in init {
        assert FirstIndex(s, s[n]) == n;
      }
    }
  }

  /** A list that has no duplicates is returned unchanged. */
  lemma {:induction false} DedupOfDistinct<T>(s: seq<T>)
    requires NoDuplicates(s)
    ensures Dedup(s) == s
    decreases |s|
  {
    if |s| > 0 {
      var n := |s| - 1;
      DedupOfDistinct(s[..n]);
      assert s[n] !in s[..n];
      assert s == s[..n] + [s[n]];
    }
  }

  /** Appending an element already present changes nothing; a new one is kept at the end. */
  lemma DedupSnoc<T>(s: seq<T>, x: T)
    ensures Dedup(s + [x]) == if x in s then Dedup(s) else Dedup(s) + [x]
  {
    assert (s + [x])[..|s|] == s;
  }

  /** De-duplicating twice is the same as de-duplicating once. */
  lemma DedupIdempotent<T>(s: seq<T>)
    ensures Dedup(Dedup(s)) == Dedup(s)
  {
    DedupOfDistinct(Dedup(s));
  }

  /**
   The Python comprehension `[x for x in lst if not (x in seen or seen.add(x))]`:
   one pass with a `seen` set; it computes exactly `Dedup`.
   */
  method DedupWithSeenSet<T(==)>(lst: seq<T>) returns (r: seq<T>)
    ensures r == Dedup(lst)
  {
    var seen: set<T> := {};
    r := [];
    var i := 0;
    while i < |lst|
      invariant 0 <= i <= |lst|
      invariant r == Dedup(lst[..i])
      invariant forall x :: x in seen <==> x in lst[..i]
    {
      assert lst[..i + 1][..i] == lst[..i];
      if lst[i] !in seen {
        r := r + [lst[i]];
        seen := seen + {lst[i]};
      }
      i := i + 1;
    }
    assert lst[..|lst|] == lst;
  }
}
