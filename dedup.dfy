/** The duplicate filter applied to the requested address list before any
    upstream call is made (the loop at the end of checkReq). */
module Dedup {

  /** No address occurs twice. */
  ghost predicate NoDuplicates(s: seq<string>)
  {
    forall i, j :: 0 <= i < j < |s| ==> s[i] != s[j]
  }

  /** Position of the first occurrence of x in s. */
  function IndexOf(s: seq<string>, x: string): (k: nat)
    requires x in s
    ensures k < |s| && s[k] == x && x !in s[..k]
  {
    if s[0] == x then 0
    else
      var k := IndexOf(s[1..], x);
      assert s[..k + 1] == [s[0]] + s[1..][..k];
      k + 1
  }

  /** Every element of r occurs in s, and the elements of r are listed in
      strictly increasing order of their first occurrence in s. */
  ghost predicate FirstSeenOrder(s: seq<string>, r: seq<string>)
  {
    (forall x :: x in r ==> x in s) &&
    forall a, b :: 0 <= a < b < |r| ==> IndexOf(s, r[a]) < IndexOf(s, r[b])
  }

  /** r can be obtained from s by deleting elements. */
  ghost predicate IsSubsequence(r: seq<string>, s: seq<string>)
    decreases |s|
  {
    if r == [] then true
    else if s == [] then false
    else
      (r[|r| - 1] == s[|s| - 1] && IsSubsequence(r[..|r| - 1], s[..|s| - 1]))
      || IsSubsequence(r, s[..|s| - 1])
  }

  /** The reference definition: scanning s from the left, an address is kept
      exactly when it was not met before. */
  function Dedup(s: seq<string>): (r: seq<string>)
    ensures NoDuplicates(r)
    ensures forall x :: x in r <==> x in s
    ensures |r| <= |s|
    decreases |s|
  {
    if s == [] then []
    else
      var prefix := s[..|s| - 1];
      var last := s[|s| - 1];
      assert s == prefix + [last];
      var kept := Dedup(prefix);
      if last in kept then kept else kept + [last]
  }

  /** The filter as the handler runs it: one pass over the request that
      records every address it has seen in a map and appends an address to
      the output only when the map does not hold it yet. */
  method RemoveDuplicates(arr: seq<string>) returns (nodups: seq<string>)
    ensures nodups == Dedup(arr)
    ensures NoDuplicates(nodups)
    ensures forall x :: x in nodups <==> x in arr
    ensures FirstSeenOrder(arr, nodups)
    ensures IsSubsequence(nodups, arr)
  {
    var nodupsMap: map<string, bool> := map[];
    nodups := [];
    for i := 0 to |arr|
      invariant nodups == Dedup(arr[..i])
      invariant forall x :: x in nodupsMap <==> x in nodups
    {
      var elem := arr[i];
      assert arr[..i + 1][..i] == arr[..i];
      if elem !in nodupsMap {
        nodupsMap := nodupsMap[elem := true];
        nodups := nodups + [elem];
      }
    }
    assert arr[..|arr|] == arr;
    DedupFirstSeenOrder(arr);
    DedupIsSubsequence(arr);
  }

  /** In a prefix the first occurrence is where it was in the whole. */
  lemma IndexOfPrefix(s: seq<string>, n: nat, x: string)
    requires n <= |s| && x in s[..n]
    ensures IndexOf(s, x) == IndexOf(s[..n], x)
  {
  }

  /** The output lists addresses in the order they were first met. */
  lemma {:induction false} DedupFirstSeenOrder(s: seq<string>)
    ensures FirstSeenOrder(s, Dedup(s))
    decreases |s|
  {
    if s != [] {
      var prefix := s[..|s| - 1];
      var last := s[|s| - 1];
      assert s == prefix + [last];
      var kept := Dedup(prefix);
      DedupFirstSeenOrder(prefix);
      forall y | y in kept
        ensures IndexOf(s, y) == IndexOf(prefix, y) < |prefix|
      {
        IndexOfPrefix(s, |prefix|, y);
      }
      if last !in kept {
        assert last !in prefix;
        assert IndexOf(s, last) == |prefix| by {
          assert s[..|prefix|] == prefix;
        }
        var r := kept + [last];
        forall a, b | 0 <= a < b < |r|
          ensures IndexOf(s, r[a]) < IndexOf(s, r[b])
        {
          assert r[a] == kept[a];
          if b < |kept| { assert r[b] == kept[b]; }
        }
      }
    }
  }

  /** The output is a subsequence of the input. */
  lemma {:induction false} DedupIsSubsequence(s: seq<string>)
    ensures IsSubsequence(Dedup(s), s)
    decreases |s|
  {
    if s != [] {
      var prefix := s[..|s| - 1];
      var last := s[|s| - 1];
      var kept := Dedup(prefix);
      DedupIsSubsequence(prefix);
      if last !in kept {
        var r := kept + [last];
        assert r[..|r| - 1] == kept;
      }
    }
  }

  /** Dropping the head keeps the order, and the head does not recur. */
  lemma FirstSeenOrderTail(s: seq<string>, r: seq<string>)
    requires FirstSeenOrder(s, r) && r != []
    ensures FirstSeenOrder(s, r[1..])
    ensures r[0] !in r[1..]
  {
  }

  /** Two sequences with the same elements are empty together. */
  lemma SameElementsEmpty(r1: seq<string>, r2: seq<string>)
    requires forall x :: x in r1 <==> x in r2
    ensures r1 == [] <==> r2 == []
  {
    if r1 != [] { assert r1[0] in r2; }
    if r2 != [] { assert r2[0] in r1; }
  }

  /** The head of a first-seen-ordered sequence is met no later than any of
      its elements. */
  lemma FirstSeenOrderHeadFirst(s: seq<string>, r: seq<string>, x: string)
    requires FirstSeenOrder(s, r) && x in r
    ensures IndexOf(s, r[0]) <= IndexOf(s, x)
  {
  }

  /** Of two first-seen-ordered sequences with the same elements, the heads
      agree: both are the element met first. */
  lemma FirstSeenOrderHeads(s: seq<string>, r1: seq<string>, r2: seq<string>)
    requires FirstSeenOrder(s, r1) && FirstSeenOrder(s, r2)
    requires forall x :: x in r1 <==> x in r2
    requires r1 != []
    ensures r2 != [] && r1[0] == r2[0]
  {
    SameElementsEmpty(r1, r2);
    FirstSeenOrderHeadFirst(s, r1, r2[0]);
    FirstSeenOrderHeadFirst(s, r2, r1[0]);
  }

  /** Two sequences holding the same elements of s, each ordered strictly by
      first occurrence in s, are equal. */
  lemma {:induction false} FirstSeenOrderUnique(s: seq<string>, r1: seq<string>, r2: seq<string>)
    requires FirstSeenOrder(s, r1) && FirstSeenOrder(s, r2)
    requires forall x :: x in r1 <==> x in r2
    ensures r1 == r2
    decreases |r1|
  {
    if r1 != [] {
      FirstSeenOrderHeads(s, r1, r2);
      FirstSeenOrderTail(s, r1);
      FirstSeenOrderTail(s, r2);
      forall x
        ensures x in r1[1..] <==> x in r2[1..]
      {
        assert x in r1 <==> x in r1[1..] || x == r1[0];
        assert x in r2 <==> x in r2[1..] || x == r2[0];
      }
      FirstSeenOrderUnique(s, r1[1..], r2[1..]);
      assert r1 == [r1[0]] + r1[1..];
      assert r2 == [r2[0]] + r2[1..];
    } else {
      SameElementsEmpty(r1, r2);
    }
  }

  /** Dedup(s) is the only sequence with the elements of s listed in the
      order of their first occurrence: the k-th output element is the k-th
      distinct address met scanning s from the left. */
  lemma DedupCharacterised(s: seq<string>, r: seq<string>)
    requires forall x :: x in r <==> x in s
    requires FirstSeenOrder(s, r)
    ensures r == Dedup(s)
  {
    DedupFirstSeenOrder(s);
    FirstSeenOrderUnique(s, r, Dedup(s));
  }

  /** A request without repeats passes through unchanged. */
  lemma {:induction false} DedupOfDistinct(s: seq<string>)
    requires NoDuplicates(s)
    ensures Dedup(s) == s
    decreases |s|
  {
    if s != [] {
      var prefix := s[..|s| - 1];
      var last := s[|s| - 1];
      assert NoDuplicates(prefix) by {
        forall i, j | 0 <= i < j < |prefix| ensures prefix[i] != prefix[j] {
          assert prefix[i] == s[i] && prefix[j] == s[j];
        }
      }
      DedupOfDistinct(prefix);
      assert s == prefix + [last];
    }
  }

  /** Filtering twice is filtering once. */
  lemma DedupIdempotent(s: seq<string>)
    ensures Dedup(Dedup(s)) == Dedup(s)
  {
    DedupOfDistinct(Dedup(s));
  }

  /** A request [A, B, A, C, B] is filtered to [A, B, C]. */
  lemma DedupExample()
    ensures Dedup(["A", "B", "A", "C", "B"]) == ["A", "B", "C"]
  {
    assert ["A", "B", "A", "C", "B"][..4] == ["A", "B", "A", "C"];
    assert ["A", "B", "A", "C"][..3] == ["A", "B", "A"];
    assert ["A", "B", "A"][..2] == ["A", "B"];
    assert ["A", "B"][..1] == ["A"];
    assert ["A"][..0] == [];
  }
}
