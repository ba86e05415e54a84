/**
  Candidate consolidation in `suggest_relevant_users` (utils.py): the graph
  answers, per expanded topic, with rows (user, name, relationship,
  activity). Each found topic is mapped back to a canonical topic, and the
  rows are merged into one candidate per user, in order of first
  appearance, remembering the user's best relationship and the canonical
  topics that user matched.
 */
module Consolidation {
  import opened Text
  import opened Seqs

  /** The relationship label on a graph edge. Labels other than the four the
      bot writes are kept verbatim. */
  datatype Relationship = IsExpertIn | WorkingOn | InterestedIn | Mentions | Other(tag: string)

  /** One row of the graph answer for one topic. */
  datatype GraphRow = GraphRow(userId: string, name: string, relationship: Relationship, activity: int)

  /** The graph answer: found topic -> rows, in the order the dict iterates. */
  type GraphAnswer = seq<(string, seq<GraphRow>)>

  /** One entry of a candidate's `relationships` list. */
  datatype Edge = Edge(topic: string, relationship: Relationship, activity: int)

  /** A consolidated user: the `user_map` value. `name` and `activity` come
      from the first row seen for the user. */
  datatype Candidate = Candidate(
    userId: string,
    name: string,
    edges: seq<Edge>,
    best: Relationship,
    activity: int,
    topics: seq<string>)

  /** A row tagged with the canonical topic its found topic maps to. */
  datatype Entry = Entry(topic: string, row: GraphRow)

  /** Case-insensitive substring match in either direction. */
  predicate TopicMatch(canonical: string, found: string) {
    Contains(Lower(found), Lower(canonical)) || Contains(Lower(canonical), Lower(found))
  }

  predicate NoneMatch(topics: seq<string>, found: string) {
    forall i :: 0 <= i < |topics| ==> !TopicMatch(topics[i], found)
  }

  /** The canonical topic a found topic is reported under: the first
      canonical topic it matches, or the found topic itself if none does. */
  function CanonicalTopic(found: string, topics: seq<string>): (c: string)
    ensures NoneMatch(topics, found) ==> c == found
    ensures forall j :: 0 <= j < |topics| && TopicMatch(topics[j], found) && NoneMatch(topics[..j], found) ==>
              c == topics[j]
    decreases |topics|
  {
    if |topics| == 0 then found
    else if TopicMatch(topics[0], found) then topics[0]
    else
      var c := CanonicalTopic(found, topics[1..]);
      assert forall j :: 1 <= j < |topics| ==> topics[1..][j - 1] == topics[j];
      assert forall j :: 1 <= j < |topics| ==> topics[1..][..j - 1] == topics[..j][1..];
      c
  }

  /** The rows of one found topic, tagged with its canonical topic. */
  function TopicEntries(found: string, rows: seq<GraphRow>, topics: seq<string>): (r: seq<Entry>)
    ensures |r| == |rows|
    ensures forall k :: 0 <= k < |r| ==> r[k] == Entry(CanonicalTopic(found, topics), rows[k])
  {
    var c := CanonicalTopic(found, topics);
    seq(|rows|, k requires 0 <= k < |rows| => Entry(c, rows[k]))
  }

  /** All rows of the answer, in iteration order. */
  function Entries(answer: GraphAnswer, topics: seq<string>): seq<Entry>
    decreases |answer|
  {
    if |answer| == 0 then []
    else
      var last := answer[|answer| - 1];
      Entries(answer[..|answer| - 1], topics) + TopicEntries(last.0, last.1, topics)
  }

  /** The upgrade rule: expert always wins, working wins over everything
      but expert, any other label never replaces the current one. */
  function Upgrade(best: Relationship, seen: Relationship): Relationship {
    if seen == IsExpertIn then IsExpertIn
    else if seen == WorkingOn && best != IsExpertIn then WorkingOn
    else best
  }

  /** The new `user_map` entry for a user's first row. */
  function Fresh(e: Entry): Candidate {
    Candidate(e.row.userId, e.row.name, [], e.row.relationship, e.row.activity, [])
  }

  /** Folds one more row of the same user into a candidate. */
  function Record(c: Candidate, e: Entry): Candidate {
    c.(topics := if e.topic in c.topics then c.topics else c.topics + [e.topic],
       edges := c.edges + [Edge(e.topic, e.row.relationship, e.row.activity)],
       best := Upgrade(c.best, e.row.relationship))
  }

  function Ids(cands: seq<Candidate>): (r: seq<string>)
    ensures |r| == |cands|
    ensures forall k :: 0 <= k < |r| ==> r[k] == cands[k].userId
  {
    seq(|cands|, k requires 0 <= k < |cands| => cands[k].userId)
  }

  /** Position of the user's candidate, or `|cands|` when there is none. */
  function IndexOfUser(cands: seq<Candidate>, u: string): (k: nat)
    ensures k <= |cands|
    ensures k < |cands| ==> cands[k].userId == u
    ensures k == |cands| ==> u !in Ids(cands)
    decreases |cands|
  {
    if |cands| == 0 then 0
    else if cands[0].userId == u then 0
    else
      var k := 1 + IndexOfUser(cands[1..], u);
      assert Ids(cands) == [cands[0].userId] + Ids(cands[1..]);
      k
  }

  /** One iteration of the inner loop over rows. */
  function Absorb(cands: seq<Candidate>, e: Entry): seq<Candidate> {
    var k := IndexOfUser(cands, e.row.userId);
    if k < |cands| then cands[k := Record(cands[k], e)]
    else cands + [Record(Fresh(e), e)]
  }

  /** `user_map.values()` after the loops over found topics and rows. */
  function Consolidate(entries: seq<Entry>): seq<Candidate>
    decreases |entries|
  {
    if |entries| == 0 then []
    else Absorb(Consolidate(entries[..|entries| - 1]), entries[|entries| - 1])
  }

  // ---------------------------------------------------------------------
  // Reference description of one user's candidate, in closed form.

  function UserIds(entries: seq<Entry>): (r: seq<string>)
    ensures |r| == |entries|
    ensures forall k :: 0 <= k < |r| ==> r[k] == entries[k].row.userId
  {
    seq(|entries|, k requires 0 <= k < |entries| => entries[k].row.userId)
  }

  /** The entries of user `u`, in order. */
  function EntriesOf(entries: seq<Entry>, u: string): (r: seq<Entry>)
    ensures |r| > 0 <==> u in UserIds(entries)
    ensures forall k :: 0 <= k < |r| ==> r[k].row.userId == u
    decreases |entries|
  {
    if |entries| == 0 then []
    else
      var e := entries[|entries| - 1];
      var p := entries[..|entries| - 1];
      assert UserIds(entries) == UserIds(p) + [e.row.userId];
      EntriesOf(p, u) + (if e.row.userId == u then [e] else [])
  }

  function EdgesOf(es: seq<Entry>): (r: seq<Edge>)
    ensures |r| == |es|
  {
    seq(|es|, k requires 0 <= k < |es| => Edge(es[k].topic, es[k].row.relationship, es[k].row.activity))
  }

  function TopicsOf(es: seq<Entry>): (r: seq<string>)
    ensures |r| == |es|
  {
    seq(|es|, k requires 0 <= k < |es| => es[k].topic)
  }

  predicate HasRelationship(es: seq<Entry>, rel: Relationship) {
    exists k :: 0 <= k < |es| && es[k].row.relationship == rel
  }

  /** The best relationship over a user's rows: expert if any row is
      expert, else working if any row is working, else the first row's. */
  function BestOf(es: seq<Entry>): Relationship
    requires |es| > 0
  {
    if HasRelationship(es, IsExpertIn) then IsExpertIn
    else if HasRelationship(es, WorkingOn) then WorkingOn
    else es[0].row.relationship
  }

  /** The candidate a user's rows should produce. */
  function Summary(es: seq<Entry>): Candidate
    requires |es| > 0
  {
    Candidate(es[0].row.userId, es[0].row.name, EdgesOf(es), BestOf(es), es[0].row.activity,
              Dedup(TopicsOf(es)))
  }

  lemma RecordSummary(es: seq<Entry>, e: Entry)
    requires |es| > 0
    ensures Record(Summary(es), e) == Summary(es + [e])
  {
    var es' := es + [e];
    assert es'[0] == es[0];
    EdgesSnoc(es, e);
    TopicsSnoc(es, e);
    DedupSnoc(TopicsOf(es), e.topic);
    BestOfSnoc(es, e);
  }

  lemma EdgesSnoc(es: seq<Entry>, e: Entry)
    ensures EdgesOf(es + [e]) == EdgesOf(es) + [Edge(e.topic, e.row.relationship, e.row.activity)]
  {
  }

  lemma TopicsSnoc(es: seq<Entry>, e: Entry)
    ensures TopicsOf(es + [e]) == TopicsOf(es) + [e.topic]
  {
  }

  /** The upgrade rule folds `BestOf` one row further. */
  lemma BestOfSnoc(es: seq<Entry>, e: Entry)
    requires |es| > 0
    ensures BestOf(es + [e]) == Upgrade(BestOf(es), e.row.relationship)
  {
    HasRelationshipSnoc(es, e, IsExpertIn);
    HasRelationshipSnoc(es, e, WorkingOn);
    assert (es + [e])[0] == es[0];
  }

  lemma HasRelationshipSnoc(es: seq<Entry>, e: Entry, rel: Relationship)
    ensures HasRelationship(es + [e], rel) <==> HasRelationship(es, rel) || e.row.relationship == rel
  {
    var es' := es + [e];
    if HasRelationship(es, rel) {
      var k :| 0 <= k < |es| && es[k].row.relationship == rel;
      assert es'[k] == es[k];
    }
    if HasRelationship(es', rel) && e.row.relationship != rel {
      var k :| 0 <= k < |es'| && es'[k].row.relationship == rel;
      assert k < |es| && es[k] == es'[k];
    }
    if e.row.relationship == rel {
      assert es'[|es|] == e;
    }
  }

  lemma FreshSummary(e: Entry)
    ensures Record(Fresh(e), e) == Summary([e])
  {
    assert TopicsOf([e]) == [e.topic];
    assert Dedup([e.topic]) == [e.topic] by {
      DedupSnoc([], e.topic);
      assert [] + [e.topic] == [e.topic];
    }
    if e.row.relationship == IsExpertIn {
      assert HasRelationship([e], IsExpertIn) by { assert [e][0] == e; }
    } else if e.row.relationship == WorkingOn {
      assert HasRelationship([e], WorkingOn) by { assert [e][0] == e; }
    }
  }

  /** Consolidation yields one candidate per user, in order of each user's
      first row. */
  lemma {:induction false} ConsolidateIds(entries: seq<Entry>)
    ensures Ids(Consolidate(entries)) == Dedup(UserIds(entries))
    decreases |entries|
  {
    if |entries| > 0 {
      var n := |entries| - 1;
      var p := entries[..n];
      var e := entries[n];
      var u := e.row.userId;
      var c := Consolidate(p);
      assert Consolidate(entries) == Absorb(c, e);
      ConsolidateIds(p);
      UserIdsLast(entries);
      DedupSnoc(UserIds(p), u);
      AbsorbIds(c, e);
      var ids := Dedup(UserIds(p));
      if u in ids {
        assert Ids(Absorb(c, e)) == ids;
        assert Dedup(UserIds(entries)) == ids;
      } else {
        assert Ids(Absorb(c, e)) == ids + [u];
        assert Dedup(UserIds(entries)) == ids + [u];
      }
    }
  }

  lemma UserIdsLast(entries: seq<Entry>)
    requires |entries| > 0
    ensures UserIds(entries) == UserIds(entries[..|entries| - 1]) + [entries[|entries| - 1].row.userId]
  {
  }

  lemma AbsorbIds(c: seq<Candidate>, e: Entry)
    ensures Ids(Absorb(c, e)) == if e.row.userId in Ids(c) then Ids(c) else Ids(c) + [e.row.userId]
  {
    var k := IndexOfUser(c, e.row.userId);
    if k < |c| {
      assert Ids(c)[k] == e.row.userId;
      assert Ids(Absorb(c, e)) == Ids(c);
    } else {
      assert Ids(Absorb(c, e)) == Ids(c) + [e.row.userId];
    }
  }

  /** Each candidate is the closed-form summary of that user's rows: the
      first row's name and activity, every row as an edge, the best
      relationship by the upgrade rule, and the canonical topics without
      duplicates in order of first mention. */
  lemma {:induction false} ConsolidateSpec(entries: seq<Entry>)
    ensures Ids(Consolidate(entries)) == Dedup(UserIds(entries))
    ensures forall k :: 0 <= k < |Consolidate(entries)| ==>
              |EntriesOf(entries, Consolidate(entries)[k].userId)| > 0 &&
              Consolidate(entries)[k] == Summary(EntriesOf(entries, Consolidate(entries)[k].userId))
    decreases |entries|
  {
    ConsolidateIds(entries);
    if |entries| > 0 {
      var p := entries[..|entries| - 1];
      ConsolidateSpec(p);
      assert Summarised(p, Consolidate(p));
      forall j | 0 <= j < |Consolidate(entries)|
        ensures |EntriesOf(entries, Consolidate(entries)[j].userId)| > 0
        ensures Consolidate(entries)[j] == Summary(EntriesOf(entries, Consolidate(entries)[j].userId))
      {
        AbsorbStep(entries, j);
      }
    }
  }

  /** The induction hypothesis of `ConsolidateSpec`. */
  predicate Summarised(entries: seq<Entry>, c: seq<Candidate>) {
    && Ids(c) == Dedup(UserIds(entries))
    && forall i :: 0 <= i < |c| ==>
         |EntriesOf(entries, c[i].userId)| > 0 &&
         c[i] == Summary(EntriesOf(entries, c[i].userId))
  }

  lemma EntriesOfLast(entries: seq<Entry>, v: string)
    requires |entries| > 0
    ensures var e := entries[|entries| - 1];
            EntriesOf(entries, v) == EntriesOf(entries[..|entries| - 1], v) + (if e.row.userId == v then [e] else [])
  {
  }

  /** One row more keeps every candidate equal to its summary. */
  lemma AbsorbStep(entries: seq<Entry>, j: nat)
    requires |entries| > 0
    requires Summarised(entries[..|entries| - 1], Consolidate(entries[..|entries| - 1]))
    requires j < |Consolidate(entries)|
    ensures |EntriesOf(entries, Consolidate(entries)[j].userId)| > 0
    ensures Consolidate(entries)[j] == Summary(EntriesOf(entries, Consolidate(entries)[j].userId))
  {
    var p := entries[..|entries| - 1];
    var e := entries[|entries| - 1];
    var c := Consolidate(p);
    assert Consolidate(entries) == Absorb(c, e);
    if IndexOfUser(c, e.row.userId) < |c| {
      AbsorbExisting(p, e, c, j);
    } else {
      AbsorbNew(p, e, c, j);
    }
    EntriesOfLast(entries, Consolidate(entries)[j].userId);
  }

  lemma AbsorbExisting(p: seq<Entry>, e: Entry, c: seq<Candidate>, j: nat)
    requires Summarised(p, c)
    requires IndexOfUser(c, e.row.userId) < |c|
    requires j < |c|
    ensures var v := Absorb(c, e)[j].userId;
            && |EntriesOf(p, v) + (if e.row.userId == v then [e] else [])| > 0
            && Absorb(c, e)[j] == Summary(EntriesOf(p, v) + (if e.row.userId == v then [e] else []))
  {
    var u := e.row.userId;
    var k := IndexOfUser(c, u);
    var r := Absorb(c, e);
    assert r == c[k := Record(c[k], e)];
    if j == k {
      var es := EntriesOf(p, u);
      assert c[k] == Summary(es);
      RecordSummary(es, e);
    } else {
      assert Ids(c)[j] != Ids(c)[k];
      Untouched(p, e, c[j], r[j]);
    }
  }

  /** A candidate of another user is left as it was, and the new row does
      not belong to its summary. */
  lemma Untouched(p: seq<Entry>, e: Entry, before: Candidate, after: Candidate)
    requires after == before && before.userId != e.row.userId
    requires |EntriesOf(p, before.userId)| > 0 && before == Summary(EntriesOf(p, before.userId))
    ensures var v := after.userId;
            && |EntriesOf(p, v) + (if e.row.userId == v then [e] else [])| > 0
            && after == Summary(EntriesOf(p, v) + (if e.row.userId == v then [e] else []))
  {
    assert EntriesOf(p, before.userId) + [] == EntriesOf(p, before.userId);
  }

  lemma AbsorbNew(p: seq<Entry>, e: Entry, c: seq<Candidate>, j: nat)
    requires Summarised(p, c)
    requires IndexOfUser(c, e.row.userId) == |c|
    requires j <= |c|
    ensures var v := Absorb(c, e)[j].userId;
            && |EntriesOf(p, v) + (if e.row.userId == v then [e] else [])| > 0
            && Absorb(c, e)[j] == Summary(EntriesOf(p, v) + (if e.row.userId == v then [e] else []))
  {
    var u := e.row.userId;
    var r := Absorb(c, e);
    assert r == c + [Record(Fresh(e), e)];
    if j == |c| {
      DedupSame(UserIds(p));
      assert u !in Dedup(UserIds(p));
      assert EntriesOf(p, u) == [];
      assert EntriesOf(p, u) + [e] == [e];
      FreshSummary(e);
    } else {
      assert Ids(c)[j] in UserIds(p);
      Untouched(p, e, c[j], r[j]);
    }
  }

  /** Each user appears exactly once, and every user with a row appears. */
  lemma ConsolidateUsersOnce(entries: seq<Entry>)
    ensures NoDups(Ids(Consolidate(entries)))
    ensures forall k :: 0 <= k < |entries| ==> entries[k].row.userId in Ids(Consolidate(entries))
  {
    ConsolidateIds(entries);
    DedupSame(UserIds(entries));
    assert forall k :: 0 <= k < |entries| ==> UserIds(entries)[k] == entries[k].row.userId;
  }

  /** A candidate's topic list has no duplicates, and holds exactly the
      canonical topics of that user's rows. */
  lemma ConsolidateTopics(entries: seq<Entry>, k: nat)
    requires k < |Consolidate(entries)|
    ensures NoDups(Consolidate(entries)[k].topics)
    ensures forall t :: t in Consolidate(entries)[k].topics <==>
              exists i :: 0 <= i < |entries| && entries[i].row.userId == Consolidate(entries)[k].userId
                                            && entries[i].topic == t
  {
    ConsolidateSpec(entries);
    var c := Consolidate(entries)[k];
    var es := EntriesOf(entries, c.userId);
    assert c.topics == Dedup(TopicsOf(es));
    TopicsOfMembers(es);
    UserTopics(entries, c.userId);
  }

  /** Some entry names topic `t`. */
  predicate NamesTopic(es: seq<Entry>, t: string) {
    exists i :: 0 <= i < |es| && es[i].topic == t
  }

  /** Some row of user `u` names topic `t`. */
  predicate UserNamesTopic(entries: seq<Entry>, u: string, t: string) {
    exists i :: 0 <= i < |entries| && entries[i].row.userId == u && entries[i].topic == t
  }

  /** The topics of a user's entries are the topics of the rows naming the
      user. */
  lemma UserTopics(entries: seq<Entry>, u: string)
    ensures forall t :: NamesTopic(EntriesOf(entries, u), t) <==> UserNamesTopic(entries, u, t)
  {
    var es := EntriesOf(entries, u);
    EntriesOfMembers(entries, u);
    forall t
      ensures NamesTopic(es, t) <==> UserNamesTopic(entries, u, t)
    {
      if NamesTopic(es, t) {
        var i :| 0 <= i < |es| && es[i].topic == t;
        assert es[i] in entries;
      }
      if UserNamesTopic(entries, u, t) {
        var i :| 0 <= i < |entries| && entries[i].row.userId == u && entries[i].topic == t;
        assert entries[i] in es;
      }
    }
  }

  /** The topics of some entries are exactly the topics those entries name. */
  lemma TopicsOfMembers(es: seq<Entry>)
    ensures forall t :: t in Dedup(TopicsOf(es)) <==> NamesTopic(es, t)
  {
    var ts := TopicsOf(es);
    DedupSame(ts);
    forall t
      ensures t in Dedup(ts) <==> NamesTopic(es, t)
    {
      if t in Dedup(ts) {
        var i :| 0 <= i < |ts| && ts[i] == t;
      }
      if NamesTopic(es, t) {
        var i :| 0 <= i < |es| && es[i].topic == t;
        assert ts[i] == t;
      }
    }
  }

  /** `EntriesOf` keeps exactly the user's entries. */
  lemma {:induction false} EntriesOfMembers(entries: seq<Entry>, u: string)
    ensures forall x :: x in EntriesOf(entries, u) <==> x in entries && x.row.userId == u
    decreases |entries|
  {
    if |entries| > 0 {
      var p := entries[..|entries| - 1];
      EntriesOfMembers(p, u);
      assert entries == p + [entries[|entries| - 1]];
    }
  }

  /** The best relationship is never a downgrade: an expert row makes the
      user expert, a working row makes the user at least working, and
      otherwise the first row's label stands. */
  lemma ConsolidateBest(entries: seq<Entry>, k: nat)
    requires k < |Consolidate(entries)|
    ensures var c := Consolidate(entries)[k];
            var es := EntriesOf(entries, c.userId);
            && |es| > 0
            && (HasRelationship(es, IsExpertIn) ==> c.best == IsExpertIn)
            && (!HasRelationship(es, IsExpertIn) && HasRelationship(es, WorkingOn) ==> c.best == WorkingOn)
            && (!HasRelationship(es, IsExpertIn) && !HasRelationship(es, WorkingOn) ==>
                  c.best == es[0].row.relationship)
            && c.activity == es[0].row.activity
            && c.name == es[0].row.name
  {
    ConsolidateSpec(entries);
  }
}
