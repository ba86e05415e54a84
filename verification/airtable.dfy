/**
  The Airtable interest pipeline (airtable_topic_extractor.py): fetch the
  profile records that carry some InfoText, extract (interest,
  relationship) pairs from each text with the language model, and save
  every record with pairs to the knowledge graph. Airtable, the model and
  the graph are inputs: the fetched records, one extraction outcome per
  record, and one save outcome per record.
 */
module Airtable {
  import opened Wrappers
  import opened Text
  import opened Seqs

  /** An Airtable row: its record id and its text cells. */
  datatype AirtableRecord = AirtableRecord(id: string, fields: map<string, string>)

  /** The column names `get_airtable_records` reads. */
  datatype Columns = Columns(infoText: string, name: string, slackId: string)

  const DefaultColumns: Columns := Columns("InfoText", "Name", "Slack ID")

  const GeneratedIdPrefix: string := "airtable_"

  /** The dictionary built for each kept row. */
  datatype Profile = Profile(
    recordId: string,
    userId: string,
    name: string,
    slackId: string,
    infoText: string,
    fields: map<string, string>)

  /** `fields.get(column, "")`. */
  function Cell(fields: map<string, string>, column: string): string {
    if column in fields then fields[column] else ""
  }

  /** The row carries InfoText once stripped. */
  predicate HasInfo(cols: Columns, rec: AirtableRecord) {
    Strip(Cell(rec.fields, cols.infoText)) != ""
  }

  function HasInfoAt(cols: Columns): AirtableRecord -> bool {
    rec => HasInfo(cols, rec)
  }

  /** The graph id of a row: its stripped Slack id, or one generated from
      the record id when that is blank. */
  function UserIdOf(cols: Columns, rec: AirtableRecord): (u: string)
    ensures u != ""
    ensures Strip(Cell(rec.fields, cols.slackId)) != "" ==> u == Strip(Cell(rec.fields, cols.slackId))
    ensures Strip(Cell(rec.fields, cols.slackId)) == "" ==> u == GeneratedIdPrefix + rec.id
  {
    var slack := Strip(Cell(rec.fields, cols.slackId));
    if slack != "" then slack else GeneratedIdPrefix + rec.id
  }

  function ProfileOf(cols: Columns, rec: AirtableRecord): Profile {
    Profile(
      rec.id,
      UserIdOf(cols, rec),
      if cols.name in rec.fields then rec.fields[cols.name] else "Unknown",
      Strip(Cell(rec.fields, cols.slackId)),
      Strip(Cell(rec.fields, cols.infoText)),
      rec.fields)
  }

  /** Profiles of the given rows, in order. */
  function Profiles(cols: Columns, recs: seq<AirtableRecord>): (r: seq<Profile>)
    ensures |r| == |recs|
  {
    seq(|recs|, i requires 0 <= i < |recs| => ProfileOf(cols, recs[i]))
  }

  lemma ProfilesSnoc(cols: Columns, recs: seq<AirtableRecord>, rec: AirtableRecord)
    ensures Profiles(cols, recs + [rec]) == Profiles(cols, recs) + [ProfileOf(cols, rec)]
  {
  }

  /** The profiles of the rows with InfoText, built row by row as the
      source's loop builds them. */
  function KeptProfiles(cols: Columns, recs: seq<AirtableRecord>): seq<Profile>
    decreases |recs|
  {
    if |recs| == 0 then []
    else
      var last := recs[|recs| - 1];
      KeptProfiles(cols, recs[..|recs| - 1]) + (if HasInfo(cols, last) then [ProfileOf(cols, last)] else [])
  }

  /** Building row by row is filtering then mapping. */
  lemma {:induction false} KeptProfilesFilter(cols: Columns, recs: seq<AirtableRecord>)
    ensures KeptProfiles(cols, recs) == Profiles(cols, Filter(recs, HasInfoAt(cols)))
    decreases |recs|
  {
    if |recs| > 0 {
      var init := recs[..|recs| - 1];
      var last := recs[|recs| - 1];
      KeptProfilesFilter(cols, init);
      InitLast(recs);
      FilterSnoc(init, last, HasInfoAt(cols));
      if HasInfo(cols, last) {
        ProfilesSnoc(cols, Filter(init, HasInfoAt(cols)), last);
      } else {
        assert KeptProfiles(cols, recs) == KeptProfiles(cols, init) + [];
      }
    }
  }

  /** `get_airtable_records`: `fetched` is what the table returned, `None`
      when the request raised. The rows with InfoText are kept in order,
      each as its profile. */
  method RecordsWithInfo(cols: Columns, fetched: Option<seq<AirtableRecord>>) returns (out: seq<Profile>)
    ensures fetched.None? ==> out == []
    ensures fetched.Some? ==> out == Profiles(cols, Filter(fetched.value, HasInfoAt(cols)))
    ensures forall i :: 0 <= i < |out| ==> out[i].infoText != "" && IsStripped(out[i].infoText)
  {
    if fetched.None? {
      return [];
    }
    out := KeepWithInfo(cols, fetched.value);
    KeptHaveInfo(cols, fetched.value);
  }

  /** The loop of `get_airtable_records` over the fetched rows. */
  method KeepWithInfo(cols: Columns, recs: seq<AirtableRecord>) returns (out: seq<Profile>)
    ensures out == Profiles(cols, Filter(recs, HasInfoAt(cols)))
  {
    out := [];
    var i := 0;
    while i < |recs|
      invariant 0 <= i <= |recs|
      invariant out == KeptProfiles(cols, recs[..i])
    {
      var rec := recs[i];
      TakeSnoc(recs, i);
      if HasInfo(cols, rec) {
        out := out + [ProfileOf(cols, rec)];
      }
      i := i + 1;
    }
    assert recs[..|recs|] == recs;
    KeptProfilesFilter(cols, recs);
  }

  /** Every kept profile carries its InfoText stripped and non-empty. */
  lemma KeptHaveInfo(cols: Columns, recs: seq<AirtableRecord>)
    ensures var out := Profiles(cols, Filter(recs, HasInfoAt(cols)));
            forall i :: 0 <= i < |out| ==> out[i].infoText != "" && IsStripped(out[i].infoText)
  {
    var kept := Filter(recs, HasInfoAt(cols));
    assert forall i :: 0 <= i < |kept| ==> HasInfo(cols, kept[i]);
  }

  /** Rows without a Slack id get distinct generated ids when their record
      ids differ, so they never merge in the graph. */
  lemma GeneratedIdsAreDistinct(cols: Columns, a: AirtableRecord, b: AirtableRecord)
    requires Strip(Cell(a.fields, cols.slackId)) == "" && Strip(Cell(b.fields, cols.slackId)) == ""
    requires a.id != b.id
    ensures UserIdOf(cols, a) != UserIdOf(cols, b)
  {
    assert (GeneratedIdPrefix + a.id)[|GeneratedIdPrefix|..] == a.id;
    assert (GeneratedIdPrefix + b.id)[|GeneratedIdPrefix|..] == b.id;
  }

  /** A row whose name cell is missing is named `Unknown`; a present name
      is kept as it is, blank or not. */
  lemma NameDefault(cols: Columns, rec: AirtableRecord)
    ensures cols.name !in rec.fields ==> ProfileOf(cols, rec).name == "Unknown"
    ensures cols.name in rec.fields ==> ProfileOf(cols, rec).name == rec.fields[cols.name]
  {
  }

  // ---------------------------------------------------------------------
  // Extraction and saving

  /** One `(interest, relationship_type)` pair. */
  datatype Pair = Pair(interest: string, relationship: string)

  datatype Processed = Processed(profile: Profile, pairs: seq<Pair>)

  /** What the extractor did for one record: returned a list of pairs,
      raised, or returned something the display loop cannot unpack (`None`,
      an item that is not a pair). */
  datatype Extraction = Extracted(pairs: seq<Pair>) | Raised | Malformed

  /** The entries one record contributes. A malformed result raises after
      the record was appended; the handler resets the same dict's pairs to
      `[]` and appends it a second time. */
  function Contribution(record: Profile, e: Extraction): (r: seq<Processed>)
    ensures 1 <= |r| <= 2
    ensures |r| == 2 <==> e.Malformed?
    ensures forall i :: 0 <= i < |r| ==> r[i].profile == record
    ensures forall i :: 0 <= i < |r| ==> r[i].pairs == (if e.Extracted? then e.pairs else [])
  {
    match e
    case Extracted(pairs) => [Processed(record, pairs)]
    case Raised => [Processed(record, [])]
    case Malformed => [Processed(record, []), Processed(record, [])]
  }

  /** The output of `extract_interests_from_records`, record by record. */
  function Processing(records: seq<Profile>, outcomes: seq<Extraction>): seq<Processed>
    requires |outcomes| == |records|
    decreases |records|
  {
    if |records| == 0 then []
    else
      var n := |records| - 1;
      Processing(records[..n], outcomes[..n]) + Contribution(records[n], outcomes[n])
  }

  /** How many extractions were malformed. */
  function MalformedCount(outcomes: seq<Extraction>): nat
    decreases |outcomes|
  {
    if |outcomes| == 0 then 0
    else MalformedCount(outcomes[..|outcomes| - 1]) + (if outcomes[|outcomes| - 1].Malformed? then 1 else 0)
  }

  /** `extract_interests_from_records`: `outcomes[i]` is what the extractor
      did for record `i`. */
  method ExtractInterests(records: seq<Profile>, outcomes: seq<Extraction>) returns (processed: seq<Processed>)
    requires |outcomes| == |records|
    ensures processed == Processing(records, outcomes)
    ensures |records| <= |processed| <= 2 * |records|
    ensures forall i :: 0 <= i < |processed| ==> processed[i].profile in records
    ensures |processed| == |records| + MalformedCount(outcomes)
    ensures MalformedCount(outcomes) == 0 ==>
              |processed| == |records| &&
              forall i :: 0 <= i < |records| ==>
                processed[i] == Processed(records[i], if outcomes[i].Extracted? then outcomes[i].pairs else [])
  {
    processed := [];
    var i := 0;
    while i < |records|
      invariant 0 <= i <= |records|
      invariant processed == Processing(records[..i], outcomes[..i])
    {
      ProcessingStep(records, outcomes, i);
      processed := processed + Contribution(records[i], outcomes[i]);
      i := i + 1;
    }
    assert records[..|records|] == records && outcomes[..|outcomes|] == outcomes;
    ProcessingLength(records, outcomes);
    ProcessingBounds(records, outcomes);
    if MalformedCount(outcomes) == 0 {
      ProcessingAligned(records, outcomes);
    }
  }

  /** One more record appends its contribution. */
  lemma ProcessingStep(records: seq<Profile>, outcomes: seq<Extraction>, i: nat)
    requires |outcomes| == |records| && i < |records|
    ensures Processing(records[..i + 1], outcomes[..i + 1])
            == Processing(records[..i], outcomes[..i]) + Contribution(records[i], outcomes[i])
  {
    assert records[..i + 1][..i] == records[..i];
    assert outcomes[..i + 1][..i] == outcomes[..i];
  }

  /** Every malformed extraction adds one extra entry. */
  lemma {:induction false} ProcessingLength(records: seq<Profile>, outcomes: seq<Extraction>)
    requires |outcomes| == |records|
    ensures |Processing(records, outcomes)| == |records| + MalformedCount(outcomes)
    decreases |records|
  {
    if |records| > 0 {
      var n := |records| - 1;
      ProcessingLength(records[..n], outcomes[..n]);
    }
  }

  /** Every record yields one or two entries, and every entry is one of the
      records. */
  lemma {:induction false} ProcessingBounds(records: seq<Profile>, outcomes: seq<Extraction>)
    requires |outcomes| == |records|
    ensures |records| <= |Processing(records, outcomes)| <= 2 * |records|
    ensures forall i :: 0 <= i < |Processing(records, outcomes)| ==> Processing(records, outcomes)[i].profile in records
    decreases |records|
  {
    if |records| > 0 {
      var n := |records| - 1;
      ProcessingBounds(records[..n], outcomes[..n]);
      var prev: seq<Processed> := Processing(records[..n], outcomes[..n]);
      var c: seq<Processed> := Contribution(records[n], outcomes[n]);
      forall i | 0 <= i < |prev + c|
        ensures (prev + c)[i].profile in records
      {
        if i < |prev| {
          assert prev[i].profile in records[..n];
        } else {
          assert c[i - |prev|].profile == records[n];
        }
      }
    }
  }

  /** Without malformed extractions every record is kept once, in order,
      with its pairs, or none when the extraction raised. */
  lemma {:induction false} ProcessingAligned(records: seq<Profile>, outcomes: seq<Extraction>)
    requires |outcomes| == |records|
    requires MalformedCount(outcomes) == 0
    ensures |Processing(records, outcomes)| == |records|
    ensures forall i :: 0 <= i < |records| ==>
              Processing(records, outcomes)[i]
                == Processed(records[i], if outcomes[i].Extracted? then outcomes[i].pairs else [])
    decreases |records|
  {
    if |records| > 0 {
      var n := |records| - 1;
      ProcessingAligned(records[..n], outcomes[..n]);
      forall i | 0 <= i < n
        ensures records[..n][i] == records[i] && outcomes[..n][i] == outcomes[i]
      {
      }
    }
  }

  /** Records that have something to save. */
  function WithPairs(records: seq<Processed>): nat
    decreases |records|
  {
    if |records| == 0 then 0
    else WithPairs(records[..|records| - 1]) + (if |records[|records| - 1].pairs| > 0 then 1 else 0)
  }

  /** Records with pairs whose graph update went through. */
  function Saved(records: seq<Processed>, ok: seq<bool>): nat
    requires |ok| == |records|
    decreases |records|
  {
    if |records| == 0 then 0
    else
      var n := |records| - 1;
      Saved(records[..n], ok[..n]) + (if |records[n].pairs| > 0 && ok[n] then 1 else 0)
  }

  /** `save_interests_to_neo4j`: `ok[i]` says whether the graph update for
      record `i` would go through. Records without pairs are skipped
      before any update. */
  method SaveInterests(records: seq<Processed>, ok: seq<bool>) returns (savedCount: nat)
    requires |ok| == |records|
    ensures savedCount == Saved(records, ok)
    ensures savedCount <= WithPairs(records) <= |records|
  {
    savedCount := 0;
    var i := 0;
    while i < |records|
      invariant 0 <= i <= |records|
      invariant savedCount == Saved(records[..i], ok[..i])
    {
      assert records[..i + 1][..i] == records[..i];
      assert ok[..i + 1][..i] == ok[..i];
      if |records[i].pairs| > 0 && ok[i] {
        savedCount := savedCount + 1;
      }
      i := i + 1;
    }
    assert records[..|records|] == records;
    assert ok[..|ok|] == ok;
    SavedBounds(records, ok);
  }

  lemma {:induction false} SavedBounds(records: seq<Processed>, ok: seq<bool>)
    requires |ok| == |records|
    ensures Saved(records, ok) <= WithPairs(records) <= |records|
    decreases |records|
  {
    if |records| > 0 {
      var n := |records| - 1;
      SavedBounds(records[..n], ok[..n]);
    }
  }

  /** When every update goes through, exactly the records with pairs are
      saved. */
  lemma {:induction false} AllSaved(records: seq<Processed>, ok: seq<bool>)
    requires |ok| == |records|
    requires forall i :: 0 <= i < |ok| ==> ok[i]
    ensures Saved(records, ok) == WithPairs(records)
    decreases |records|
  {
    if |records| > 0 {
      var n := |records| - 1;
      AllSaved(records[..n], ok[..n]);
    }
  }

  // ---------------------------------------------------------------------
  // Relationship counts

  /** `relationship_counts` as its items in insertion order. */
  type Tally = seq<(string, nat)>

  function Kinds(t: Tally): seq<string> {
    seq(|t|, i requires 0 <= i < |t| => t[i].0)
  }

  function Total(t: Tally): nat
    decreases |t|
  {
    if |t| == 0 then 0 else Total(t[..|t| - 1]) + t[|t| - 1].1
  }

  function Relationships(pairs: seq<Pair>): seq<string> {
    seq(|pairs|, i requires 0 <= i < |pairs| => pairs[i].relationship)
  }

  /** How many pairs carry relationship `rel`. */
  function CountOf(pairs: seq<Pair>, rel: string): nat
    decreases |pairs|
  {
    if |pairs| == 0 then 0
    else CountOf(pairs[..|pairs| - 1], rel) + (if pairs[|pairs| - 1].relationship == rel then 1 else 0)
  }

  /** Where `rel` sits in the tally. */
  function IndexOfKind(t: Tally, rel: string): (j: nat)
    requires rel in Kinds(t)
    ensures j < |t| && t[j].0 == rel
    decreases |t|
  {
    if t[0].0 == rel then 0
    else
      assert rel in Kinds(t[1..]) by {
        var k :| 0 <= k < |t| && Kinds(t)[k] == rel;
        assert k > 0 && Kinds(t[1..])[k - 1] == rel;
      }
      1 + IndexOfKind(t[1..], rel)
  }

  lemma {:induction false} TotalUpdate(t: Tally, j: nat, v: nat)
    requires j < |t|
    ensures Total(t[j := (t[j].0, v)]) == Total(t) - t[j].1 + v
    decreases |t|
  {
    var u := t[j := (t[j].0, v)];
    var n := |t| - 1;
    if j < n {
      assert u[..n] == t[..n][j := (t[j].0, v)];
      TotalUpdate(t[..n], j, v);
    } else {
      assert u[..n] == t[..n];
    }
  }

  /** `counts[rel] = counts.get(rel, 0) + 1`. */
  function Bump(t: Tally, rel: string): (r: Tally)
    requires NoDups(Kinds(t))
    ensures Kinds(r) == if rel in Kinds(t) then Kinds(t) else Kinds(t) + [rel]
    ensures rel in Kinds(t) ==>
              forall i :: 0 <= i < |t| ==> r[i] == (t[i].0, t[i].1 + (if t[i].0 == rel then 1 else 0))
    ensures rel !in Kinds(t) ==> r == t + [(rel, 1)]
    ensures Total(r) == Total(t) + 1
  {
    if rel in Kinds(t) then
      var j := IndexOfKind(t, rel);
      BumpSeen(t, rel, j);
      t[j := (rel, t[j].1 + 1)]
    else
      BumpNew(t, rel);
      t + [(rel, 1)]
  }

  lemma BumpSeen(t: Tally, rel: string, j: nat)
    requires NoDups(Kinds(t))
    requires j < |t| && t[j].0 == rel
    ensures var r := t[j := (rel, t[j].1 + 1)];
            && Kinds(r) == Kinds(t)
            && (forall i :: 0 <= i < |t| ==> r[i] == (t[i].0, t[i].1 + (if t[i].0 == rel then 1 else 0)))
            && Total(r) == Total(t) + 1
  {
    TotalUpdate(t, j, t[j].1 + 1);
    assert forall i :: 0 <= i < |t| && i != j ==> t[i].0 != rel by {
      assert forall i :: 0 <= i < |t| ==> Kinds(t)[i] == t[i].0;
    }
  }

  lemma BumpNew(t: Tally, rel: string)
    ensures Kinds(t + [(rel, 1)]) == Kinds(t) + [rel]
    ensures Total(t + [(rel, 1)]) == Total(t) + 1
  {
    assert (t + [(rel, 1)])[..|t|] == t;
  }

  lemma {:induction false} CountOfAbsent(pairs: seq<Pair>, rel: string)
    ensures rel !in Relationships(pairs) ==> CountOf(pairs, rel) == 0
    decreases |pairs|
  {
    if |pairs| > 0 && rel !in Relationships(pairs) {
      var n := |pairs| - 1;
      var init := pairs[..n];
      assert Relationships(init) == Relationships(pairs)[..n];
      assert pairs[n].relationship == Relationships(pairs)[n];
      CountOfAbsent(init, rel);
    }
  }

  /** The counting loop of `save_interests_to_neo4j`. */
  function Counts(pairs: seq<Pair>): (t: Tally)
    ensures Kinds(t) == Dedup(Relationships(pairs))
    ensures forall i :: 0 <= i < |t| ==> t[i].1 == CountOf(pairs, t[i].0)
    ensures Total(t) == |pairs|
    decreases |pairs|
  {
    if |pairs| == 0 then []
    else
      var init := pairs[..|pairs| - 1];
      var rel := pairs[|pairs| - 1].relationship;
      var t := Counts(init);
      assert Relationships(pairs) == Relationships(init) + [rel];
      DedupSnoc(Relationships(init), rel);
      CountsStep(pairs, t);
      Bump(t, rel)
  }

  /** One pair more: bumping the tally of the other pairs counts it. */
  lemma CountsStep(pairs: seq<Pair>, t: Tally)
    requires |pairs| > 0
    requires Kinds(t) == Dedup(Relationships(pairs[..|pairs| - 1]))
    requires forall i :: 0 <= i < |t| ==> t[i].1 == CountOf(pairs[..|pairs| - 1], t[i].0)
    ensures var r := Bump(t, pairs[|pairs| - 1].relationship);
            forall i :: 0 <= i < |r| ==> r[i].1 == CountOf(pairs, r[i].0)
  {
    if pairs[|pairs| - 1].relationship in Kinds(t) {
      CountsStepSeen(pairs, t);
    } else {
      CountsStepNew(pairs, t);
    }
  }

  lemma CountsStepSeen(pairs: seq<Pair>, t: Tally)
    requires |pairs| > 0
    requires Kinds(t) == Dedup(Relationships(pairs[..|pairs| - 1]))
    requires forall i :: 0 <= i < |t| ==> t[i].1 == CountOf(pairs[..|pairs| - 1], t[i].0)
    requires pairs[|pairs| - 1].relationship in Kinds(t)
    ensures var r := Bump(t, pairs[|pairs| - 1].relationship);
            forall i :: 0 <= i < |r| ==> r[i].1 == CountOf(pairs, r[i].0)
  {
    var rel := pairs[|pairs| - 1].relationship;
    var r := Bump(t, rel);
    assert |r| == |Kinds(r)| == |t|;
    forall i | 0 <= i < |r|
      ensures r[i].1 == CountOf(pairs, r[i].0)
    {
      assert r[i] == (t[i].0, t[i].1 + (if t[i].0 == rel then 1 else 0));
    }
  }

  lemma CountsStepNew(pairs: seq<Pair>, t: Tally)
    requires |pairs| > 0
    requires Kinds(t) == Dedup(Relationships(pairs[..|pairs| - 1]))
    requires forall i :: 0 <= i < |t| ==> t[i].1 == CountOf(pairs[..|pairs| - 1], t[i].0)
    requires pairs[|pairs| - 1].relationship !in Kinds(t)
    ensures var r := Bump(t, pairs[|pairs| - 1].relationship);
            forall i :: 0 <= i < |r| ==> r[i].1 == CountOf(pairs, r[i].0)
  {
    var init := pairs[..|pairs| - 1];
    var rel := pairs[|pairs| - 1].relationship;
    var r := Bump(t, rel);
    DedupSame(Relationships(init));
    CountOfAbsent(init, rel);
    assert r == t + [(rel, 1)];
    forall i | 0 <= i < |r|
      ensures r[i].1 == CountOf(pairs, r[i].0)
    {
      if i < |t| {
        assert r[i] == t[i] && Kinds(t)[i] == t[i].0;
      } else {
        assert r[i] == (rel, 1);
      }
    }
  }
}
