/** Order-preserving de-duplication of a list, as `remove_duplicate_upsert_records`
    does it for the DNS changes built from a certificate's validation options. */
module Distinct {

  /** No element occurs twice. */
  predicate NoDuplicates<T(==)>(s: seq<T>)
  {
    forall i, j :: 0 <= i < j < |s| ==> s[i] != s[j]
  }

  /** Position of the first occurrence of `x` in `s`. */
  function FirstIndex<T(==)>(s: seq<T>, x: T): (k: nat)
    requires x in s
    ensures k < |s| && s[k] == x && x !in s[..k]
  {
    if s[0] == x then 0
    else
      var k' := FirstIndex(s[1..], x);
      assert s[..k' + 1] == [s[0]] + s[1..][..k'];
      k' + 1
  }

  /** `remove_duplicate_upsert_records`'s comprehension: walk the input in order and append each
      element that the output built so far does not yet contain. */
  function RemoveDuplicates<T(==)>(s: seq<T>): (r: seq<T>)
    ensures NoDuplicates(r)
    ensures forall i :: 0 <= i < |s| ==> s[i] in r
    ensures forall i :: 0 <= i < |r| ==> r[i] in s
    ensures |r| <= |s|
    decreases |s|
  {
    if |s| == 0 then []
    else
      var prefix := RemoveDuplicates(s[..|s| - 1]);
      assert s == s[..|s| - 1] + [s[|s| - 1]];
      if s[|s| - 1] in prefix then prefix else prefix + [s[|s| - 1]]
  }

  /** An independent account of what de-duplication keeps: the element at every
      position where it occurs in the input for the first time. */
  function FirstOccurrences<T(==)>(s: seq<T>): seq<T>
    decreases |s|
  {
    if |s| == 0 then []
    else
      var n := |s| - 1;
      FirstOccurrences(s[..n]) + (if s[n] in s[..n] then [] else [s[n]])
  }

  /** Checking membership against the output built so far (as `remove_duplicate_upsert_records` does)
      is the same as checking it against the input seen so far. */
  lemma {:induction false} RemoveDuplicatesKeepsFirstOccurrences<T>(s: seq<T>)
    ensures RemoveDuplicates(s) == FirstOccurrences(s)
    decreases |s|
  {
    if |s| > 0 {
      var n := |s| - 1;
      RemoveDuplicatesKeepsFirstOccurrences(s[..n]);
      assert s[n] in RemoveDuplicates(s[..n]) <==> s[n] in s[..n];
    }
  }

  lemma {:induction false} FirstIndexOfPrefix<T>(s: seq<T>, p: seq<T>, x: T)
    requires p <= s && x in p
    ensures FirstIndex(s, x) == FirstIndex(p, x)
    decreases |p|
  {
    if s[0] != x {
      assert p[0] == s[0];
      assert x in p[1..];
      FirstIndexOfPrefix(s[1..], p[1..], x);
    }
  }

  /** Every element of `r` occurs in `s`, and earlier elements of `r` occur
      earlier in `s`. */
  ghost predicate InFirstSeenOrder<T>(s: seq<T>, r: seq<T>)
  {
    && (forall i :: 0 <= i < |r| ==> r[i] in s)
    && (forall i, j :: 0 <= i < j < |r| && r[i] in s && r[j] in s ==>
          FirstIndex(s, r[i]) < FirstIndex(s, r[j]))
  }

  /** Order with respect to a prefix carries over to the whole list. */
  lemma OrderOverPrefix<T>(s: seq<T>, p: seq<T>, r: seq<T>)
    requires p <= s && InFirstSeenOrder(p, r)
    ensures InFirstSeenOrder(s, r)
    ensures forall i :: 0 <= i < |r| ==> FirstIndex(s, r[i]) < |p|
  {
    forall i | 0 <= i < |r|
      ensures r[i] in s && FirstIndex(s, r[i]) == FirstIndex(p, r[i])
    {
      FirstIndexOfPrefix(s, p, r[i]);
    }
  }

  /** An element absent from the rest of the list first occurs at the end. */
  lemma FirstIndexOfNewLast<T>(s: seq<T>)
    requires |s| > 0 && s[|s| - 1] !in s[..|s| - 1]
    ensures FirstIndex(s, s[|s| - 1]) == |s| - 1
  {
  }

  /** Appending an element that is new to the input keeps the order. */
  lemma OrderAppend<T>(s: seq<T>, r: seq<T>)
    requires |s| > 0 && s[|s| - 1] !in s[..|s| - 1]
    requires InFirstSeenOrder(s, r)
    requires forall i :: 0 <= i < |r| ==> FirstIndex(s, r[i]) < |s| - 1
    ensures InFirstSeenOrder(s, r + [s[|s| - 1]])
  {
    var x := s[|s| - 1];
    FirstIndexOfNewLast(s);
    var r' := r + [x];
    assert r'[..|r|] == r;
    forall i | 0 <= i < |r'|
      ensures r'[i] in s
    {
      if i < |r| {
        assert r'[i] == r[i];
      }
    }
    forall i, j | 0 <= i < j < |r'|
      ensures FirstIndex(s, r'[i]) < FirstIndex(s, r'[j])
    {
      OrderAppendPair(s, r, i, j);
    }
  }

  lemma OrderAppendPair<T>(s: seq<T>, r: seq<T>, i: int, j: int)
    requires |s| > 0 && FirstIndex(s, s[|s| - 1]) == |s| - 1
    requires InFirstSeenOrder(s, r)
    requires forall k :: 0 <= k < |r| ==> FirstIndex(s, r[k]) < |s| - 1
    requires 0 <= i < j < |r| + 1
    ensures (r + [s[|s| - 1]])[i] in s && (r + [s[|s| - 1]])[j] in s
    ensures FirstIndex(s, (r + [s[|s| - 1]])[i]) < FirstIndex(s, (r + [s[|s| - 1]])[j])
  {
    var r' := r + [s[|s| - 1]];
    assert r'[i] == r[i];
    if j < |r| {
      assert r'[j] == r[j];
    } else {
      assert r'[j] == s[|s| - 1];
    }
  }

  /** Elements keep the order of their first occurrence in the input. */
  lemma {:induction false} RemoveDuplicatesKeepsFirstSeenOrder<T>(s: seq<T>)
    ensures InFirstSeenOrder(s, RemoveDuplicates(s))
    decreases |s|
  {
    if |s| > 0 {
      var n := |s| - 1;
      var p := s[..n];
      var rp := RemoveDuplicates(p);
      RemoveDuplicatesKeepsFirstSeenOrder(p);
      OrderOverPrefix(s, p, rp);
      if s[n] !in rp {
        assert RemoveDuplicates(s) == rp + [s[n]];
        OrderAppend(s, rp);
      }
    }
  }

  /** De-duplication leaves a list alone exactly when it has no duplicates. */
  lemma {:induction false} RemoveDuplicatesFixesDistinct<T>(s: seq<T>)
    ensures RemoveDuplicates(s) == s <==> NoDuplicates(s)
    decreases |s|
  {
    if |s| > 0 && NoDuplicates(s) {
      var n := |s| - 1;
      assert NoDuplicates(s[..n]);
      RemoveDuplicatesFixesDistinct(s[..n]);
      assert s[n] !in s[..n];
      assert s == s[..n] + [s[n]];
    }
  }

  /** Applying de-duplication twice is the same as applying it once. */
  lemma RemoveDuplicatesIdempotent<T>(s: seq<T>)
    ensures RemoveDuplicates(RemoveDuplicates(s)) == RemoveDuplicates(s)
  {
    RemoveDuplicatesFixesDistinct(RemoveDuplicates(s));
  }

  /** Element-wise image of a list. */
  function MapSeq<A, B>(f: A -> B, s: seq<A>): (r: seq<B>)
    ensures |r| == |s|
    ensures forall i :: 0 <= i < |s| ==> r[i] == f(s[i])
  {
    seq(|s|, i requires 0 <= i < |s| => f(s[i]))
  }

  /** The image of a list with one more element. */
  lemma MapSeqSnoc<A, B>(f: A -> B, s: seq<A>, x: A)
    ensures MapSeq(f, s + [x]) == MapSeq(f, s) + [f(x)]
  {
  }

  /** Under an injective map, an image is among the images of a list exactly
      when the element is in the list. */
  lemma InjectiveImageMembership<A, B>(f: A -> B, s: seq<A>, x: A)
    requires forall a, b :: f(a) == f(b) ==> a == b
    ensures f(x) in MapSeq(f, s) <==> x in s
  {
    if f(x) in MapSeq(f, s) {
      var i :| 0 <= i < |s| && MapSeq(f, s)[i] == f(x);
      assert s[i] == x;
    }
  }

  /** De-duplicating the images of an injective map is the same as mapping the
      de-duplicated list: one image per distinct input, in first-seen order. */
  lemma {:induction false} RemoveDuplicatesCommutesWithInjective<A, B>(f: A -> B, s: seq<A>)
    requires forall a, b :: f(a) == f(b) ==> a == b
    ensures RemoveDuplicates(MapSeq(f, s)) == MapSeq(f, RemoveDuplicates(s))
    decreases |s|
  {
    if |s| > 0 {
      var n := |s| - 1;
      var x := s[n];
      var fs := MapSeq(f, s);
      assert fs[..n] == MapSeq(f, s[..n]);
      assert fs[n] == f(x);
      RemoveDuplicatesCommutesWithInjective(f, s[..n]);
      var rp := RemoveDuplicates(s[..n]);
      InjectiveImageMembership(f, rp, x);
      if x !in rp {
        MapSeqSnoc(f, rp, x);
      }
    }
  }
}
