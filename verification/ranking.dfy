/**
  Candidate ranking in `suggest_relevant_users` (utils.py): Python's stable
  `sorted` with the key `(tier, -activity_level)`, where expert is tier 1,
  working is tier 2 and every other label, interested and mentions alike,
  is tier 3.

  The model sorts by insertion, and states what characterises any stable
  sort: the output is ordered by key, and for every key the candidates
  carrying it appear in the same relative order as in the input. Two
  sequences with both properties are equal (`StableSortUnique`), so the
  model agrees with Python's own sort.
 */
module Ranking {
  import opened Seqs
  import opened Consolidation

  /** Sort tier of a best relationship. */
  function Tier(r: Relationship): (t: int)
    ensures 1 <= t <= 3
    ensures t == 1 <==> r == IsExpertIn
    ensures t == 2 <==> r == WorkingOn
  {
    if r == IsExpertIn then 1 else if r == WorkingOn then 2 else 3
  }

  /** The tuple `(tier, -activity_level)`. */
  datatype SortKey = SortKey(tier: int, negActivity: int)

  function Key(c: Candidate): SortKey {
    SortKey(Tier(c.best), -c.activity)
  }

  /** Lexicographic `<=` on key tuples. */
  predicate KeyLe(a: SortKey, b: SortKey) {
    a.tier < b.tier || (a.tier == b.tier && a.negActivity <= b.negActivity)
  }

  predicate Sorted(s: seq<Candidate>) {
    forall i, j :: 0 <= i < j < |s| ==> KeyLe(Key(s[i]), Key(s[j]))
  }

  /** The candidates whose key is `k`, in order. */
  function WithKey(s: seq<Candidate>, k: SortKey): seq<Candidate>
    decreases |s|
  {
    if |s| == 0 then []
    else WithKey(s[..|s| - 1], k) + (if Key(s[|s| - 1]) == k then [s[|s| - 1]] else [])
  }

  /** Sorting that keeps, for every key, the input order of its candidates. */
  ghost predicate StablySorts(input: seq<Candidate>, output: seq<Candidate>) {
    && Sorted(output)
    && multiset(output) == multiset(input)
    && forall k :: WithKey(output, k) == WithKey(input, k)
  }

  /** `[x]` when `x` carries key `k`, else `[]`. */
  function IfKey(x: Candidate, k: SortKey): seq<Candidate> {
    if Key(x) == k then [x] else []
  }

  lemma WithKeySnoc(s: seq<Candidate>, x: Candidate, k: SortKey)
    ensures WithKey(s + [x], k) == WithKey(s, k) + IfKey(x, k)
  {
    assert (s + [x])[..|s|] == s;
  }

  /** Inserts `c` after every element whose key is not greater than its own. */
  function InsertByKey(s: seq<Candidate>, c: Candidate): (r: seq<Candidate>)
    ensures |r| == |s| + 1
    ensures forall i :: 0 <= i < |r| ==> r[i] == c || r[i] in s
    decreases |s|
  {
    if |s| == 0 || KeyLe(Key(s[|s| - 1]), Key(c)) then s + [c]
    else
      var init := s[..|s| - 1];
      var r := InsertByKey(init, c) + [s[|s| - 1]];
      assert forall i :: 0 <= i < |s| - 1 ==> s[i] == init[i];
      r
  }

  /** Insertion adds exactly `c`, and puts it behind every candidate with
      the same key. */
  lemma InsertStable(s: seq<Candidate>, c: Candidate)
    ensures multiset(InsertByKey(s, c)) == multiset(s) + multiset{c}
    ensures forall k :: WithKey(InsertByKey(s, c), k) == WithKey(s, k) + IfKey(c, k)
  {
    InsertMultiset(s, c);
    forall k ensures WithKey(InsertByKey(s, c), k) == WithKey(s, k) + IfKey(c, k) {
      InsertWithKey(s, c, k);
    }
  }

  lemma {:induction false} InsertMultiset(s: seq<Candidate>, c: Candidate)
    ensures multiset(InsertByKey(s, c)) == multiset(s) + multiset{c}
    decreases |s|
  {
    if |s| > 0 && !KeyLe(Key(s[|s| - 1]), Key(c)) {
      var last := s[|s| - 1];
      var init := s[..|s| - 1];
      InsertMultiset(init, c);
      assert s == init + [last];
      assert InsertByKey(s, c) == InsertByKey(init, c) + [last];
    }
  }

  lemma {:induction false} InsertWithKey(s: seq<Candidate>, c: Candidate, k: SortKey)
    ensures WithKey(InsertByKey(s, c), k) == WithKey(s, k) + IfKey(c, k)
    decreases |s|
  {
    if |s| == 0 || KeyLe(Key(s[|s| - 1]), Key(c)) {
      WithKeySnoc(s, c, k);
    } else {
      var last := s[|s| - 1];
      var init := s[..|s| - 1];
      InsertWithKey(init, c, k);
      var r' := InsertByKey(init, c);
      assert s == init + [last];
      assert InsertByKey(s, c) == r' + [last];
      WithKeySnoc(r', last, k);
      WithKeySnoc(init, last, k);
      var w := WithKey(init, k);
      assert IfKey(c, k) == [] || IfKey(last, k) == [];
    }
  }

  /** Insertion keeps a sorted sequence sorted. */
  lemma {:induction false} InsertSorted(s: seq<Candidate>, c: Candidate)
    requires Sorted(s)
    ensures Sorted(InsertByKey(s, c))
    decreases |s|
  {
    if |s| > 0 && !KeyLe(Key(s[|s| - 1]), Key(c)) {
      var last := s[|s| - 1];
      var init := s[..|s| - 1];
      var r' := InsertByKey(init, c);
      InsertSorted(init, c);
      assert InsertByKey(s, c) == r' + [last];
      forall i | 0 <= i < |r'|
        ensures KeyLe(Key(r'[i]), Key(last))
      {
        if r'[i] != c {
          var j :| 0 <= j < |init| && init[j] == r'[i];
          assert s[j] == init[j];
        }
      }
    }
  }

  /** `sorted(candidates, key=(tier, -activity))`. */
  function SortByKey(s: seq<Candidate>): (r: seq<Candidate>)
    ensures Sorted(r)
    ensures |r| == |s|
    ensures forall i :: 0 <= i < |r| ==> r[i] in s
    decreases |s|
  {
    if |s| == 0 then []
    else
      var init := s[..|s| - 1];
      var c := s[|s| - 1];
      var sorted := SortByKey(init);
      InsertSorted(sorted, c);
      var r := InsertByKey(sorted, c);
      assert forall i :: 0 <= i < |s| - 1 ==> s[i] == init[i];
      r
  }

  /** The sort is a stable permutation of its input. */
  lemma SortStable(s: seq<Candidate>)
    ensures StablySorts(s, SortByKey(s))
  {
    SortMultiset(s);
    forall k ensures WithKey(SortByKey(s), k) == WithKey(s, k) {
      SortWithKey(s, k);
    }
  }

  lemma {:induction false} SortMultiset(s: seq<Candidate>)
    ensures multiset(SortByKey(s)) == multiset(s)
    decreases |s|
  {
    if |s| > 0 {
      var init := s[..|s| - 1];
      var c := s[|s| - 1];
      SortMultiset(init);
      assert SortByKey(s) == InsertByKey(SortByKey(init), c);
      InsertMultiset(SortByKey(init), c);
      InitLast(s);
    }
  }

  lemma {:induction false} SortWithKey(s: seq<Candidate>, k: SortKey)
    ensures WithKey(SortByKey(s), k) == WithKey(s, k)
    decreases |s|
  {
    if |s| > 0 {
      var init := s[..|s| - 1];
      var c := s[|s| - 1];
      SortWithKey(init, k);
      assert SortByKey(s) == InsertByKey(SortByKey(init), c);
      InsertWithKey(SortByKey(init), c, k);
      InitLast(s);
      WithKeySnoc(init, c, k);
    }
  }

  /** Sorting neither loses nor invents a candidate. */
  lemma SortSame(s: seq<Candidate>)
    ensures forall x :: x in SortByKey(s) <==> x in s
  {
    SortStable(s);
    forall x | x in s
      ensures x in SortByKey(s)
    {
      assert x in multiset(s);
    }
  }

  /** Insertion into a duplicate-free sequence of an absent candidate. */
  lemma {:induction false} InsertNoDups(s: seq<Candidate>, c: Candidate)
    requires NoDups(s) && c !in s
    ensures NoDups(InsertByKey(s, c))
    decreases |s|
  {
    if |s| > 0 && !KeyLe(Key(s[|s| - 1]), Key(c)) {
      var last := s[|s| - 1];
      var init := s[..|s| - 1];
      assert s == init + [last];
      InsertNoDups(init, c);
      var r' := InsertByKey(init, c);
      assert InsertByKey(s, c) == r' + [last];
      assert forall i :: 0 <= i < |r'| ==> r'[i] != last;
    }
  }

  /** Sorting a duplicate-free sequence keeps it duplicate-free. */
  lemma {:induction false} SortNoDups(s: seq<Candidate>)
    requires NoDups(s)
    ensures NoDups(SortByKey(s))
    decreases |s|
  {
    if |s| > 0 {
      var init := s[..|s| - 1];
      var c := s[|s| - 1];
      SortNoDups(init);
      assert forall i :: 0 <= i < |SortByKey(init)| ==> SortByKey(init)[i] != c;
      InsertNoDups(SortByKey(init), c);
    }
  }

  /** Keys are totally preordered, so the key order is determined up to ties. */
  lemma KeyLeTotal(a: SortKey, b: SortKey)
    ensures KeyLe(a, b) || KeyLe(b, a)
    ensures KeyLe(a, b) && KeyLe(b, a) ==> a == b
  {
  }

  /** A stable sort is unique: two outputs that are both sorted and keep
      every key's input order are the same sequence. */
  lemma {:induction false} StableSortUnique(a: seq<Candidate>, b: seq<Candidate>)
    requires Sorted(a) && Sorted(b)
    requires forall k :: WithKey(a, k) == WithKey(b, k)
    ensures a == b
    decreases |a| + |b|
  {
    if |a| == 0 || |b| == 0 {
      if |a| > 0 {
        assert a[|a| - 1] in WithKey(a, Key(a[|a| - 1])) by {
          WithKeyLast(a);
        }
      } else if |b| > 0 {
        assert b[|b| - 1] in WithKey(b, Key(b[|b| - 1])) by {
          WithKeyLast(b);
        }
      }
    } else {
      var x := a[|a| - 1];
      var y := b[|b| - 1];
      WithKeyLast(a);
      WithKeyLast(b);
      // The last element of each carries the greatest key, so both keys agree.
      assert Key(x) == Key(y) by {
        assert y in WithKey(a, Key(y));
        WithKeyMember(a, Key(y), y);
        assert x in WithKey(b, Key(x));
        WithKeyMember(b, Key(x), x);
        var i :| 0 <= i < |a| && a[i] == y;
        var j :| 0 <= j < |b| && b[j] == x;
        assert KeyLe(Key(a[i]), Key(x));
        assert KeyLe(Key(b[j]), Key(y));
      }
      var a' := a[..|a| - 1];
      var b' := b[..|b| - 1];
      assert a == a' + [x];
      assert b == b' + [y];
      assert x == y by {
        WithKeySnoc(a', x, Key(x));
        WithKeySnoc(b', y, Key(x));
        var w := WithKey(a, Key(x));
        assert w[|w| - 1] == x;
        assert w == WithKey(b, Key(x));
        assert w[|w| - 1] == y;
      }
      forall k
        ensures WithKey(a', k) == WithKey(b', k)
      {
        WithKeySnoc(a', x, k);
        WithKeySnoc(b', y, k);
        var w := WithKey(a, k);
        assert w == WithKey(b, k);
        if Key(x) == k {
          assert WithKey(a', k) == w[..|w| - 1];
          assert WithKey(b', k) == w[..|w| - 1];
        } else {
          assert WithKey(a', k) == w;
          assert WithKey(b', k) == w;
        }
        assert WithKey(a', k) == WithKey(b', k);
      }
      StableSortUnique(a', b');
    }
  }

  lemma WithKeyLast(s: seq<Candidate>)
    requires |s| > 0
    ensures s[|s| - 1] in WithKey(s, Key(s[|s| - 1]))
  {
  }

  lemma {:induction false} WithKeyMember(s: seq<Candidate>, k: SortKey, x: Candidate)
    requires x in WithKey(s, k)
    ensures x in s && Key(x) == k
    decreases |s|
  {
    if |s| > 0 {
      var init := s[..|s| - 1];
      if x in WithKey(init, k) {
        WithKeyMember(init, k, x);
      }
    }
  }

  /** Every stable sort by this key returns what `SortByKey` returns. */
  lemma StableSortIsSortByKey(input: seq<Candidate>, output: seq<Candidate>)
    requires Sorted(output)
    requires forall k :: WithKey(output, k) == WithKey(input, k)
    ensures output == SortByKey(input)
  {
    SortStable(input);
    StableSortUnique(output, SortByKey(input));
  }

  /** Tier dominates activity: a better tier is ranked first whatever the
      activities, and within a tier higher activity is ranked first. */
  lemma RankOrder(s: seq<Candidate>, i: nat, j: nat)
    requires i < j < |SortByKey(s)|
    ensures var r := SortByKey(s);
            && Tier(r[i].best) <= Tier(r[j].best)
            && (Tier(r[i].best) == Tier(r[j].best) ==> r[i].activity >= r[j].activity)
  {
  }
}
