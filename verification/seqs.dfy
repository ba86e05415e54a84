/** Sequence helpers shared by the models: duplicate-free sequences and the
    first-occurrence de-duplication Python code writes with a `seen` set. */
module Seqs {

  predicate NoDups<T(==)>(s: seq<T>) {
    forall i, j :: 0 <= i < j < |s| ==> s[i] != s[j]
  }

  /** Keeps the first occurrence of every element, in order; this is what
      the loop `if x not in seen: out.append(x); seen.add(x)` builds. */
  function Dedup<T(==)>(s: seq<T>): (r: seq<T>)
    ensures NoDups(r)
    ensures forall i :: 0 <= i < |r| ==> r[i] in s
    ensures |r| <= |s|
    decreases |s|
  {
    if |s| == 0 then []
    else
      var d := Dedup(s[..|s| - 1]);
      if s[|s| - 1] in d then d else d + [s[|s| - 1]]
  }

  /** `Dedup` loses no element. */
  lemma {:induction false} DedupKeeps<T>(s: seq<T>)
    ensures forall i :: 0 <= i < |s| ==> s[i] in Dedup(s)
    decreases |s|
  {
    if |s| > 0 {
      var p := s[..|s| - 1];
      DedupKeeps(p);
      forall i | 0 <= i < |s| - 1
        ensures s[i] in Dedup(s)
      {
        assert s[i] == p[i];
      }
    }
  }

  /** Unfolds `Dedup` on a sequence extended by one element. */
  lemma DedupSnoc<T>(s: seq<T>, x: T)
    ensures Dedup(s + [x]) == if x in Dedup(s) then Dedup(s) else Dedup(s) + [x]
  {
    assert (s + [x])[..|s|] == s;
  }

  /** `Dedup` keeps exactly the elements of `s`. */
  lemma DedupSame<T>(s: seq<T>)
    ensures forall x :: x in Dedup(s) <==> x in s
  {
    DedupKeeps(s);
  }

  /** `Dedup` of a concatenation keeps every element of the second part. */
  lemma DedupKeepsSuffix<T>(a: seq<T>, b: seq<T>)
    ensures forall i :: 0 <= i < |b| ==> b[i] in Dedup(a + b)
  {
    DedupKeeps(a + b);
    forall i | 0 <= i < |b|
      ensures b[i] in Dedup(a + b)
    {
      assert b[i] == (a + b)[|a| + i];
    }
  }

  /** Position of the first occurrence of `x` in `s`. */
  function FirstIndex<T(==)>(s: seq<T>, x: T): (k: nat)
    requires x in s
    ensures k < |s| && s[k] == x && x !in s[..k]
    decreases |s|
  {
    if s[0] == x then 0
    else
      var k := 1 + FirstIndex(s[1..], x);
      assert s[..k] == [s[0]] + s[1..][..k - 1];
      k
  }

  lemma FirstIndexPrefix<T>(s: seq<T>, n: nat, x: T)
    requires n <= |s| && x in s[..n]
    ensures FirstIndex(s, x) == FirstIndex(s[..n], x)
  {
    var a := FirstIndex(s, x);
    var b := FirstIndex(s[..n], x);
    assert s[..n][..b] == s[..b];
    assert a <= b by {
      assert s[..n][b] == x;
    }
  }

  /** A prefix of a duplicate-free sequence is duplicate-free. */
  lemma PrefixNoDups<T>(s: seq<T>, r: seq<T>)
    requires NoDups(s) && r <= s
    ensures NoDups(r)
  {
    assert forall i :: 0 <= i < |r| ==> r[i] == s[i];
  }

  /** `Dedup` keeps elements in the order of their first occurrences. */
  lemma {:induction false} DedupOrder<T>(s: seq<T>, i: nat, j: nat)
    requires i < j < |Dedup(s)|
    ensures FirstIndex(s, Dedup(s)[i]) < FirstIndex(s, Dedup(s)[j])
    decreases |s|
  {
    var p := s[..|s| - 1];
    DedupInit(s, i);
    if j < |Dedup(p)| {
      DedupInit(s, j);
      DedupOrder(p, i, j);
    } else {
      DedupLast(s, j);
    }
  }

  /** Elements `Dedup` took from the initial part keep their position and
      their first occurrence. */
  lemma DedupInit<T>(s: seq<T>, i: nat)
    requires |s| > 0 && i < |Dedup(s[..|s| - 1])|
    ensures i < |Dedup(s)| && Dedup(s)[i] == Dedup(s[..|s| - 1])[i]
    ensures FirstIndex(s, Dedup(s)[i]) == FirstIndex(s[..|s| - 1], Dedup(s)[i]) < |s| - 1
  {
    var p := s[..|s| - 1];
    InitLast(s);
    DedupSnoc(p, s[|s| - 1]);
    FirstIndexPrefix(s, |s| - 1, Dedup(s)[i]);
  }

  /** An element `Dedup` appended for the last position occurs first there. */
  lemma DedupLast<T>(s: seq<T>, j: nat)
    requires |s| > 0 && |Dedup(s[..|s| - 1])| <= j < |Dedup(s)|
    ensures FirstIndex(s, Dedup(s)[j]) == |s| - 1
  {
    var p := s[..|s| - 1];
    InitLast(s);
    DedupSnoc(p, s[|s| - 1]);
    var x := s[|s| - 1];
    DedupKeeps(p);
    assert Dedup(s)[j] == x && x !in p;
    forall k | 0 <= k < |s| - 1
      ensures s[k] != x
    {
      assert p[k] == s[k];
    }
  }

  /** The elements of `s` that satisfy `p`, in order. */
  function Filter<T>(s: seq<T>, p: T -> bool): (r: seq<T>)
    ensures |r| <= |s|
    ensures forall i :: 0 <= i < |r| ==> r[i] in s && p(r[i])
    decreases |s|
  {
    if |s| == 0 then []
    else if p(s[|s| - 1]) then Filter(s[..|s| - 1], p) + [s[|s| - 1]]
    else Filter(s[..|s| - 1], p)
  }

  /** `Filter` loses no element that passes. */
  lemma {:induction false} FilterKeeps<T>(s: seq<T>, p: T -> bool)
    ensures forall i :: 0 <= i < |s| && p(s[i]) ==> s[i] in Filter(s, p)
    decreases |s|
  {
    if |s| > 0 {
      var init := s[..|s| - 1];
      FilterKeeps(init, p);
      forall i | 0 <= i < |s| - 1 && p(s[i])
        ensures s[i] in Filter(s, p)
      {
        assert s[i] == init[i];
      }
    }
  }

  lemma {:induction false} FilterAppend<T>(a: seq<T>, b: seq<T>, p: T -> bool)
    ensures Filter(a + b, p) == Filter(a, p) + Filter(b, p)
    decreases |b|
  {
    if |b| == 0 {
      assert a + b == a;
    } else {
      var b' := b[..|b| - 1];
      assert (a + b)[..|a + b| - 1] == a + b';
      FilterAppend(a, b', p);
    }
  }

  /** Filtering keeps a duplicate-free sequence duplicate-free. */
  lemma {:induction false} FilterNoDups<T>(s: seq<T>, p: T -> bool)
    requires NoDups(s)
    ensures NoDups(Filter(s, p))
    decreases |s|
  {
    if |s| > 0 {
      var init := s[..|s| - 1];
      FilterNoDups(init, p);
      var f := Filter(init, p);
      assert forall i :: 0 <= i < |f| ==> f[i] != s[|s| - 1];
    }
  }

  /** Nothing passes a filter that rejects every element. */
  lemma {:induction false} FilterNone<T>(s: seq<T>, p: T -> bool)
    requires forall i :: 0 <= i < |s| ==> !p(s[i])
    ensures Filter(s, p) == []
    decreases |s|
  {
    if |s| > 0 {
      FilterNone(s[..|s| - 1], p);
    }
  }

  /** A prefix one longer is the prefix extended by the next element. */
  lemma TakeSnoc<T>(s: seq<T>, i: nat)
    requires i < |s|
    ensures s[..i + 1] == s[..i] + [s[i]]
  {
  }

  /** A non-empty sequence is its initial part followed by its last element. */
  lemma InitLast<T>(s: seq<T>)
    requires |s| > 0
    ensures s == s[..|s| - 1] + [s[|s| - 1]]
  {
  }

  /** `Filter` keeps exactly the elements of `s` that pass. */
  lemma FilterSame<T>(s: seq<T>, p: T -> bool)
    ensures forall x :: x in Filter(s, p) <==> x in s && p(x)
  {
    FilterKeeps(s, p);
  }

  /** `Filter` on three elements. */
  lemma FilterThree<T>(a: T, b: T, c: T, p: T -> bool)
    ensures Filter([a, b, c], p) ==
            (if p(a) then [a] else []) + (if p(b) then [b] else []) + (if p(c) then [c] else [])
  {
    assert [a] == [] + [a];
    FilterSnoc([], a, p);
    assert [a, b] == [a] + [b];
    FilterSnoc([a], b, p);
    assert [a, b, c] == [a, b] + [c];
    FilterSnoc([a, b], c, p);
  }

  /** Unfolds `Filter` on a sequence extended by one element. */
  lemma FilterSnoc<T>(s: seq<T>, x: T, p: T -> bool)
    ensures Filter(s + [x], p) == if p(x) then Filter(s, p) + [x] else Filter(s, p)
  {
    assert (s + [x])[..|s|] == s;
  }
}
