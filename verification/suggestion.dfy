/**
  The in-memory part of `suggest_relevant_users` (utils.py): expand the
  canonical topics, ask the graph for three times as many users as wanted,
  consolidate the answer into one candidate per user, rank the candidates,
  drop those still in their tagging cooldown ("trickle down"), and keep the
  first `max_suggestions`. The graph query is an input function; a query
  that raised is `None`.
 */
module Suggestion {
  import opened Wrappers
  import opened Seqs
  import opened Cooldown
  import opened ModelCall
  import opened Expansion
  import opened Consolidation
  import opened Ranking

  /** The dict the function returns; its `message` is always "" and is
      not modelled. */
  datatype Suggestions = Suggestions(topics: seq<string>, users: seq<Candidate>)

  /** The graph lookup: expanded topics and a row limit in, the answer out,
      or `None` when it raised. */
  type GraphQuery = (seq<string>, int) -> Option<GraphAnswer>

  /** Python's `xs[:k]`; a negative `k` drops `-k` elements from the end. */
  function PyPrefix<T>(s: seq<T>, k: int): (r: seq<T>)
    ensures r <= s
    ensures 0 <= k ==> |r| == if k < |s| then k else |s|
    ensures k < 0 ==> |r| == if |s| + k < 0 then 0 else |s| + k
  {
    if k >= |s| then s
    else if k >= 0 then s[..k]
    else if |s| + k >= 0 then s[..|s| + k]
    else []
  }

  /** Not held back by the tagging cooldown. */
  predicate Free(m: CooldownMap, now: int, c: Candidate) {
    !InCooldown(m, c.userId, now)
  }

  /** `Free` as the filter predicate. */
  function FreeAt(m: CooldownMap, now: int): Candidate -> bool {
    c => Free(m, now, c)
  }

  /** `available_users`: the ranked candidates outside their cooldown. */
  function Available(ranked: seq<Candidate>, m: CooldownMap, now: int): seq<Candidate> {
    Filter(ranked, FreeAt(m, now))
  }

  /** Ranking, the cooldown filter and `available_users[:max_suggestions]`. */
  function Select(cands: seq<Candidate>, m: CooldownMap, now: int, maxSuggestions: int): (r: seq<Candidate>)
    ensures forall i :: 0 <= i < |r| ==> r[i] in cands && Free(m, now, r[i])
    ensures Sorted(r)
    ensures 0 <= maxSuggestions ==> |r| <= maxSuggestions
    ensures NoDups(Ids(cands)) ==> NoDups(Ids(r))
    ensures forall j, i :: 0 <= j < |cands| && Free(m, now, cands[j]) && cands[j] !in r && 0 <= i < |r| ==>
              KeyLe(Key(r[i]), Key(cands[j]))
    ensures 0 <= maxSuggestions && |r| < maxSuggestions ==>
              forall j :: 0 <= j < |cands| && Free(m, now, cands[j]) ==> cands[j] in r
    ensures forall key :: WithKey(r, key) <= WithKey(Filter(cands, FreeAt(m, now)), key)
  {
    var ranked := SortByKey(cands);
    var avail := Available(ranked, m, now);
    var r := PyPrefix(avail, maxSuggestions);
    PrefixOfAvailable(cands, ranked, m, now, r);
    PrefixTopK(cands, ranked, m, now, r);
    PrefixComplete(cands, ranked, m, now, maxSuggestions);
    PrefixIds(cands, ranked, m, now, r);
    PrefixKeyClasses(cands, m, now, r);
    r
  }

  lemma PrefixOfAvailable(cands: seq<Candidate>, ranked: seq<Candidate>, m: CooldownMap, now: int, r: seq<Candidate>)
    requires ranked == SortByKey(cands)
    requires r <= Available(ranked, m, now)
    ensures forall i :: 0 <= i < |r| ==> r[i] in cands && Free(m, now, r[i])
    ensures Sorted(r)
  {
    var avail := Available(ranked, m, now);
    FilterSorted(ranked, m, now);
    assert forall i :: 0 <= i < |r| ==> r[i] == avail[i];
  }

  lemma PrefixTopK(cands: seq<Candidate>, ranked: seq<Candidate>, m: CooldownMap, now: int, r: seq<Candidate>)
    requires ranked == SortByKey(cands)
    requires r <= Available(ranked, m, now)
    ensures forall j, i :: 0 <= j < |cands| && Free(m, now, cands[j]) && cands[j] !in r && 0 <= i < |r| ==>
              KeyLe(Key(r[i]), Key(cands[j]))
  {
    forall j | 0 <= j < |cands| && Free(m, now, cands[j]) && cands[j] !in r
      ensures forall i :: 0 <= i < |r| ==> KeyLe(Key(r[i]), Key(cands[j]))
    {
      LeftOutRanksBelow(cands, m, now, r, cands[j]);
    }
  }

  /** A free candidate outside a prefix of the available list ranks no
      better than anything in the prefix. */
  lemma LeftOutRanksBelow(cands: seq<Candidate>, m: CooldownMap, now: int, r: seq<Candidate>, x: Candidate)
    requires r <= Available(SortByKey(cands), m, now)
    requires x in cands && Free(m, now, x) && x !in r
    ensures forall i :: 0 <= i < |r| ==> KeyLe(Key(r[i]), Key(x))
  {
    var ranked := SortByKey(cands);
    var avail := Available(ranked, m, now);
    FilterSorted(ranked, m, now);
    SortSame(cands);
    FilterSame(ranked, FreeAt(m, now));
    assert x in ranked && FreeAt(m, now)(x);
    SortedPrefixBelow(avail, r, x);
  }

  /** An element of a sorted sequence outside a prefix of it ranks no
      better than anything in the prefix. */
  lemma SortedPrefixBelow(s: seq<Candidate>, r: seq<Candidate>, x: Candidate)
    requires Sorted(s) && r <= s && x in s && x !in r
    ensures forall i :: 0 <= i < |r| ==> KeyLe(Key(r[i]), Key(x))
  {
    var q :| 0 <= q < |s| && s[q] == x;
    assert s[..|r|] == r;
    assert q >= |r| by {
      assert x !in s[..|r|];
    }
  }

  lemma PrefixComplete(cands: seq<Candidate>, ranked: seq<Candidate>, m: CooldownMap, now: int, k: int)
    requires ranked == SortByKey(cands)
    ensures var r := PyPrefix(Available(ranked, m, now), k);
            0 <= k && |r| < k ==> forall j :: 0 <= j < |cands| && Free(m, now, cands[j]) ==> cands[j] in r
  {
    var avail := Available(ranked, m, now);
    if 0 <= k && |PyPrefix(avail, k)| < k {
      assert PyPrefix(avail, k) == avail;
      SortSame(cands);
      FilterSame(ranked, FreeAt(m, now));
      forall j | 0 <= j < |cands| && Free(m, now, cands[j])
        ensures cands[j] in avail
      {
        assert cands[j] in ranked && FreeAt(m, now)(cands[j]);
      }
    }
  }

  lemma PrefixIds(cands: seq<Candidate>, ranked: seq<Candidate>, m: CooldownMap, now: int, r: seq<Candidate>)
    requires ranked == SortByKey(cands)
    requires r <= Available(ranked, m, now)
    ensures NoDups(Ids(cands)) ==> NoDups(Ids(r))
  {
    if NoDups(Ids(cands)) {
      var avail := Available(ranked, m, now);
      IdsDistinct(cands);
      SortNoDups(cands);
      FilterNoDups(ranked, FreeAt(m, now));
      PrefixNoDups(avail, r);
      assert forall i :: 0 <= i < |r| ==> r[i] == avail[i] && avail[i] in ranked;
      SubseqIds(cands, r);
    }
  }

  /** Candidates with distinct user ids are distinct. */
  lemma IdsDistinct(cands: seq<Candidate>)
    requires NoDups(Ids(cands))
    ensures NoDups(cands)
  {
    forall i, j | 0 <= i < j < |cands|
      ensures cands[i] != cands[j]
    {
      assert Ids(cands)[i] != Ids(cands)[j];
    }
  }

  /** Among candidates with equal keys, the chosen ones are the first free
      ones in input order: ties keep the graph's order. */
  lemma PrefixKeyClasses(cands: seq<Candidate>, m: CooldownMap, now: int, r: seq<Candidate>)
    requires r <= Available(SortByKey(cands), m, now)
    ensures forall key :: WithKey(r, key) <= WithKey(Filter(cands, FreeAt(m, now)), key)
  {
    forall key
      ensures WithKey(r, key) <= WithKey(Filter(cands, FreeAt(m, now)), key)
    {
      WithKeyPrefix(r, Available(SortByKey(cands), m, now), key);
      WithKeyFilter(SortByKey(cands), FreeAt(m, now), key);
      SortWithKey(cands, key);
      WithKeyFilter(cands, FreeAt(m, now), key);
    }
  }

  /** Filtering and taking one key class commute. */
  lemma {:induction false} WithKeyFilter(s: seq<Candidate>, p: Candidate -> bool, k: SortKey)
    ensures WithKey(Filter(s, p), k) == Filter(WithKey(s, k), p)
    decreases |s|
  {
    if |s| > 0 {
      var init := s[..|s| - 1];
      var x := s[|s| - 1];
      WithKeyFilter(init, p, k);
      WithKeySnoc(Filter(init, p), x, k);
      FilterAppend(WithKey(init, k), IfKey(x, k), p);
      assert [x][..0] == [];
      assert Filter(IfKey(x, k), p) == if Key(x) == k && p(x) then [x] else [];
    }
  }

  /** The key class of a prefix is a prefix of the key class. */
  lemma {:induction false} WithKeyPrefix(r: seq<Candidate>, s: seq<Candidate>, k: SortKey)
    requires r <= s
    ensures WithKey(r, k) <= WithKey(s, k)
    decreases |s|
  {
    if |r| < |s| {
      var init := s[..|s| - 1];
      assert r <= init;
      WithKeyPrefix(r, init, k);
    } else {
      assert r == s;
    }
  }

  /** The free candidates of a sorted sequence are still sorted. */
  lemma {:induction false} FilterSorted(ranked: seq<Candidate>, m: CooldownMap, now: int)
    requires Sorted(ranked)
    ensures Sorted(Available(ranked, m, now))
    decreases |ranked|
  {
    if |ranked| > 0 {
      var init := ranked[..|ranked| - 1];
      FilterSorted(init, m, now);
      var f := Available(init, m, now);
      assert forall i :: 0 <= i < |f| ==> f[i] in init;
    }
  }

  /** A duplicate-free selection from a sequence with distinct user ids
      has distinct user ids. */
  lemma SubseqIds(cands: seq<Candidate>, r: seq<Candidate>)
    requires NoDups(Ids(cands)) && NoDups(r)
    requires forall i :: 0 <= i < |r| ==> r[i] in cands
    ensures NoDups(Ids(r))
  {
    forall i, j | 0 <= i < j < |r|
      ensures r[i].userId != r[j].userId
    {
      var p :| 0 <= p < |cands| && cands[p] == r[i];
      var q :| 0 <= q < |cands| && cands[q] == r[j];
      assert Ids(cands)[p] == r[i].userId && Ids(cands)[q] == r[j].userId;
    }
  }

  /** `suggest_relevant_users` after the expansion reply and the graph answer
      are known. */
  function Suggest(topics: seq<string>, expansion: ModelReply, query: GraphQuery,
                   m: CooldownMap, now: int, maxSuggestions: int): (r: Option<Suggestions>)
    ensures var answer := query(ExpandTopics(topics, expansion), 3 * maxSuggestions);
            r.None? <==> answer.None? || |answer.value| == 0
    ensures r.Some? ==> r.value.topics == topics
    ensures r.Some? ==>
              var entries := Entries(query(ExpandTopics(topics, expansion), 3 * maxSuggestions).value, topics);
              var users := r.value.users;
              && Sorted(users)
              && NoDups(Ids(users))
              && (0 <= maxSuggestions ==> |users| <= maxSuggestions)
              && forall i :: 0 <= i < |users| ==>
                   && Free(m, now, users[i])
                   && |EntriesOf(entries, users[i].userId)| > 0
                   && users[i] == Summary(EntriesOf(entries, users[i].userId))
    ensures r.Some? ==>
              var entries := Entries(query(ExpandTopics(topics, expansion), 3 * maxSuggestions).value, topics);
              r.value.users == Select(Consolidate(entries), m, now, maxSuggestions)
  {
    var expanded := ExpandTopics(topics, expansion);
    match query(expanded, 3 * maxSuggestions)
    case None => None
    case Some(answer) =>
      if |answer| == 0 then None
      else
        var entries := Entries(answer, topics);
        var users := Select(Consolidate(entries), m, now, maxSuggestions);
        ChosenAreSummaries(entries, m, now, maxSuggestions);
        Some(Suggestions(topics, users))
  }

  /** Every chosen user is the consolidation of that user's rows, and no
      user is chosen twice. */
  lemma ChosenAreSummaries(entries: seq<Entry>, m: CooldownMap, now: int, k: int)
    ensures var users := Select(Consolidate(entries), m, now, k);
            && NoDups(Ids(users))
            && forall i :: 0 <= i < |users| ==>
                 |EntriesOf(entries, users[i].userId)| > 0 && users[i] == Summary(EntriesOf(entries, users[i].userId))
  {
    var cands := Consolidate(entries);
    var users := Select(cands, m, now, k);
    ConsolidateSpec(entries);
    ConsolidateUsersOnce(entries);
    forall i | 0 <= i < |users|
      ensures |EntriesOf(entries, users[i].userId)| > 0
      ensures users[i] == Summary(EntriesOf(entries, users[i].userId))
    {
      var j :| 0 <= j < |cands| && cands[j] == users[i];
    }
  }

  /** The top-K choice: a free candidate is left out only when the list is
      full, and then it ranks no better than any chosen user. */
  lemma TrickleDown(cands: seq<Candidate>, m: CooldownMap, now: int, k: nat, j: nat)
    requires j < |cands| && Free(m, now, cands[j])
    requires cands[j] !in Select(cands, m, now, k)
    ensures |Select(cands, m, now, k)| == k
    ensures forall i :: 0 <= i < k ==> KeyLe(Key(Select(cands, m, now, k)[i]), Key(cands[j]))
  {
  }

  /** When every row's user is in cooldown, nobody is chosen. */
  lemma {:induction false} NoFreeRowsNoUsers(entries: seq<Entry>, m: CooldownMap, now: int, k: int)
    requires forall p :: 0 <= p < |entries| ==> InCooldown(m, entries[p].row.userId, now)
    ensures Select(Consolidate(entries), m, now, k) == []
  {
    var cands := Consolidate(entries);
    ConsolidatedAllBusy(entries, m, now);
    var ranked := SortByKey(cands);
    assert forall i :: 0 <= i < |ranked| ==> !Free(m, now, ranked[i]);
    FilterNone(ranked, FreeAt(m, now));
  }

  /** Consolidation introduces no user the rows did not name. */
  lemma ConsolidatedAllBusy(entries: seq<Entry>, m: CooldownMap, now: int)
    requires forall p :: 0 <= p < |entries| ==> InCooldown(m, entries[p].row.userId, now)
    ensures forall j :: 0 <= j < |Consolidate(entries)| ==> !Free(m, now, Consolidate(entries)[j])
  {
    var cands := Consolidate(entries);
    ConsolidateIds(entries);
    forall j | 0 <= j < |cands|
      ensures !Free(m, now, cands[j])
    {
      assert Ids(cands)[j] in UserIds(entries);
    }
  }

  /** When the graph answers with rows whose users are all in cooldown, the
      result is not `None` but a suggestion with no users. */
  lemma AllInCooldownGivesNoUsers(topics: seq<string>, expansion: ModelReply, answer: GraphAnswer,
                                  m: CooldownMap, now: int, maxSuggestions: int)
    requires |answer| > 0
    requires forall p, q :: 0 <= p < |answer| && 0 <= q < |answer[p].1| ==>
               InCooldown(m, answer[p].1[q].userId, now)
    ensures var query := (expanded: seq<string>, limit: int) => Some(answer);
            Suggest(topics, expansion, query, m, now, maxSuggestions) == Some(Suggestions(topics, []))
  {
    EntriesBusy(answer, topics, m, now);
    NoFreeRowsNoUsers(Entries(answer, topics), m, now, maxSuggestions);
  }

  /** The entries carry exactly the answer's rows, so when every row's user
      is in cooldown, so is every entry's. */
  lemma {:induction false} EntriesBusy(answer: GraphAnswer, topics: seq<string>, m: CooldownMap, now: int)
    requires forall p, q :: 0 <= p < |answer| && 0 <= q < |answer[p].1| ==>
               InCooldown(m, answer[p].1[q].userId, now)
    ensures forall k :: 0 <= k < |Entries(answer, topics)| ==>
              InCooldown(m, Entries(answer, topics)[k].row.userId, now)
    decreases |answer|
  {
    if |answer| > 0 {
      var init := answer[..|answer| - 1];
      var last := answer[|answer| - 1];
      assert forall p :: 0 <= p < |init| ==> init[p] == answer[p];
      EntriesBusy(init, topics, m, now);
      var tail := TopicEntries(last.0, last.1, topics);
      assert forall q :: 0 <= q < |tail| ==> tail[q].row == last.1[q];
    }
  }

  /** Two experts and a worker are ranked experts first, the more active
      expert leading, whatever the worker's activity. */
  lemma TierBeatsActivitySort(a: Candidate, b: Candidate, c: Candidate)
    requires a.best == IsExpertIn && b.best == WorkingOn && c.best == IsExpertIn
    requires a.activity > c.activity
    ensures SortByKey([a, b, c]) == [a, c, b]
  {
    assert [a, b, c][..2] == [a, b];
    assert [a, b][..1] == [a];
    assert [a][..0] == [];
    assert SortByKey([a]) == [a];
    assert SortByKey([a, b]) == [a, b];
    assert InsertByKey([a], c) == [a, c];
  }

  /** The cooldown filter keeps a ranked sequence of free candidates. */
  lemma FilterKeepsFree(a: Candidate, c: Candidate, b: Candidate, m: CooldownMap, now: int)
    requires Free(m, now, a) && Free(m, now, c) && Free(m, now, b)
    ensures Available([a, c, b], m, now) == [a, c, b]
  {
    var p := FreeAt(m, now);
    assert p(a) && p(c) && p(b);
    FilterThree(a, c, b, p);
  }

  /** The cooldown filter drops a leading candidate still in cooldown. */
  lemma FilterDropsHead(a: Candidate, c: Candidate, b: Candidate, m: CooldownMap, now: int)
    requires !Free(m, now, a) && Free(m, now, c) && Free(m, now, b)
    ensures Available([a, c, b], m, now) == [c, b]
  {
    var p := FreeAt(m, now);
    assert !p(a) && p(c) && p(b);
    FilterThree(a, c, b, p);
  }

  /** The ranking scenario with three candidates: experts A and C (A the
      more active) and a worker B of any activity. Two slots go to A and C. */
  lemma {:induction false} TierBeatsActivity(a: Candidate, b: Candidate, c: Candidate, now: int)
    requires a.best == IsExpertIn && b.best == WorkingOn && c.best == IsExpertIn
    requires a.activity > c.activity
    requires now >= UserTagCooldown
    ensures Select([a, b, c], map[], now, 2) == [a, c]
  {
    TierBeatsActivitySort(a, b, c);
    NeverTaggedIsFree(now, a.userId);
    NeverTaggedIsFree(now, b.userId);
    NeverTaggedIsFree(now, c.userId);
    FilterKeepsFree(a, c, b, map[], now);
    assert Available(SortByKey([a, b, c]), map[], now) == [a, c, b];
    assert PyPrefix([a, c, b], 2) == [a, c];
  }

  /** The same scenario with A just tagged: B trickles up behind C. */
  lemma {:induction false} TaggedLeaderMakesRoom(a: Candidate, b: Candidate, c: Candidate, now: int)
    requires a.best == IsExpertIn && b.best == WorkingOn && c.best == IsExpertIn
    requires a.activity > c.activity
    requires a.userId != b.userId && a.userId != c.userId
    requires now >= UserTagCooldown
    ensures Select([a, b, c], map[a.userId := now], now, 2) == [c, b]
  {
    TierBeatsActivitySort(a, b, c);
    var tagged: CooldownMap := map[a.userId := now];
    OthersStayFree(a.userId, now, b.userId);
    OthersStayFree(a.userId, now, c.userId);
    FilterDropsHead(a, c, b, tagged, now);
  }

  /** With no tags yet, every user is free once a window has passed since
      the epoch. */
  lemma NeverTaggedIsFree(now: int, v: UserId)
    requires now >= UserTagCooldown
    ensures !InCooldown(map[], v, now)
  {
  }

  /** Tagging one user leaves every never-tagged user free. */
  lemma OthersStayFree(u: UserId, now: int, v: UserId)
    requires u != v && now >= UserTagCooldown
    ensures !InCooldown(map[u := now], v, now)
  {
    assert v !in map[u := now];
  }
}
