/**
  The last step of `extract_topics` (nlp.py): the language model is asked
  for a comma-separated list of short topics, and its reply is split on
  commas, each piece stripped, and blank pieces dropped. The model call is
  an input: the reply text.
 */
module Topics {
  import opened Text

  /** What the parser can return: non-empty, stripped, comma-free. */
  predicate IsTopic(t: string) {
    t != "" && IsStripped(t) && ',' !in t
  }

  /** `[t.strip() for t in fields if t.strip()]`. */
  function Keep(fields: seq<string>): (r: seq<string>)
    requires forall i :: 0 <= i < |fields| ==> ',' !in fields[i]
    ensures |r| <= |fields|
    ensures forall i :: 0 <= i < |r| ==> IsTopic(r[i])
    decreases |fields|
  {
    if |fields| == 0 then []
    else
      var t := Strip(fields[0]);
      assert ',' !in t;
      (if t != "" then [t] else []) + Keep(fields[1..])
  }

  /** `content.strip().split(",")`, cleaned. */
  function ExtractTopics(content: string): (r: seq<string>)
    ensures forall i :: 0 <= i < |r| ==> IsTopic(r[i])
    ensures |r| <= Count(content, ',') + 1
  {
    CountStrip(content, ',');
    Keep(Split(Strip(content), ','))
  }

  /** A reply with no comma and some text is a single topic. */
  lemma SingleTopic(content: string)
    requires ',' !in content && Strip(content) != ""
    ensures ExtractTopics(content) == [Strip(content)]
  {
    SplitNoSep(Strip(content), ',');
    assert ',' !in Strip(content);
  }

  /** A blank reply gives no topics. */
  lemma BlankReply(content: string)
    requires forall k :: 0 <= k < |content| ==> IsSpace(content[k])
    ensures ExtractTopics(content) == []
  {
    assert Strip(content) == "";
    assert Split("", ',') == [""];
  }

  /** Topics written out as `a, b, c` are read back unchanged. */
  lemma {:induction false} ListRoundTrip(ts: seq<string>)
    requires |ts| > 0
    requires forall i :: 0 <= i < |ts| ==> IsTopic(ts[i])
    ensures ExtractTopics(Join(ts, ", ")) == ts
  {
    var text := Join(ts, ", ");
    JoinStripped(ts);
    assert Strip(text) == text;
    KeepJoin("", ts);
    assert "" + text == text;
  }

  /** A list of topics joined with `, ` is already stripped. */
  lemma {:induction false} JoinStripped(ts: seq<string>)
    requires |ts| > 0
    requires forall i :: 0 <= i < |ts| ==> IsTopic(ts[i])
    ensures |Join(ts, ", ")| > 0 && IsStripped(Join(ts, ", "))
    decreases |ts|
  {
    var s := Join(ts, ", ");
    assert IsTopic(ts[0]);
    if |ts| > 1 {
      JoinStripped(ts[1..]);
      var rest := Join(ts[1..], ", ");
      assert s == ts[0] + ", " + rest;
      assert s[0] == ts[0][0];
      assert s[|s| - 1] == rest[|rest| - 1];
    }
  }

  /** Whitespace in front of a topic adds no comma and strips away. */
  lemma PaddedTopic(pad: string, t: string)
    requires forall k :: 0 <= k < |pad| ==> IsSpace(pad[k])
    requires IsTopic(t)
    ensures ',' !in pad + t && Strip(pad + t) == t
  {
    var first := pad + t;
    assert forall k :: 0 <= k < |first| ==> first[k] == (if k < |pad| then pad[k] else t[k - |pad|]);
    StripPadded(pad, t, "");
    assert pad + t + "" == first;
  }

  lemma ConcatShape(pad: string, t: string, rest: string)
    ensures pad + (t + ", " + rest) == (pad + t) + [','] + (" " + rest)
  {
    assert ", " == [','] + " ";
  }

  /** Unfolds `Keep` on its first field. */
  lemma KeepCons(f: string, fields: seq<string>)
    requires ',' !in f
    requires forall i :: 0 <= i < |fields| ==> ',' !in fields[i]
    ensures Keep([f] + fields) == (if Strip(f) != "" then [Strip(f)] else []) + Keep(fields)
  {
    assert ([f] + fields)[1..] == fields;
  }

  /** The induction behind `ListRoundTrip`: a whitespace prefix in front of
      the joined list only pads the first field. */
  lemma {:induction false} KeepJoin(pad: string, ts: seq<string>)
    requires |ts| > 0
    requires forall k :: 0 <= k < |pad| ==> IsSpace(pad[k])
    requires forall i :: 0 <= i < |ts| ==> IsTopic(ts[i])
    ensures Keep(Split(pad + Join(ts, ", "), ',')) == ts
    decreases |ts|
  {
    assert IsTopic(ts[0]);
    if |ts| == 1 {
      assert [ts[0]] == ts;
      KeepJoinOne(pad, ts[0]);
    } else {
      assert [ts[0]] + ts[1..] == ts;
      assert forall i :: 0 <= i < |ts[1..]| ==> IsTopic(ts[1..][i]) by {
        forall i | 0 <= i < |ts[1..]|
          ensures IsTopic(ts[1..][i])
        {
          assert ts[1..][i] == ts[i + 1];
        }
      }
      KeepJoin(" ", ts[1..]);
      KeepJoinStep(pad, ts[0], ts[1..]);
    }
  }

  lemma KeepJoinOne(pad: string, t: string)
    requires forall k :: 0 <= k < |pad| ==> IsSpace(pad[k])
    requires IsTopic(t)
    ensures Keep(Split(pad + Join([t], ", "), ',')) == [t]
  {
    PaddedTopic(pad, t);
    var first := pad + t;
    assert Join([t], ", ") == t;
    SplitNoSep(first, ',');
    KeepCons(first, []);
    assert [first] + [] == [first];
    assert Keep([first]) == [t] + Keep([]);
    assert Keep([]) == [];
    assert [t] + [] == [t];
  }

  /** One step of `KeepJoin`: the first topic, then the rest as the
      induction hypothesis gives it. */
  lemma KeepJoinStep(pad: string, t: string, ts: seq<string>)
    requires |ts| > 0
    requires forall k :: 0 <= k < |pad| ==> IsSpace(pad[k])
    requires IsTopic(t)
    requires forall i :: 0 <= i < |ts| ==> IsTopic(ts[i])
    requires Keep(Split(" " + Join(ts, ", "), ',')) == ts
    ensures Keep(Split(pad + Join([t] + ts, ", "), ',')) == [t] + ts
  {
    PaddedTopic(pad, t);
    var first := pad + t;
    var rest := Join(ts, ", ");
    assert ([t] + ts)[1..] == ts;
    assert Join([t] + ts, ", ") == t + ", " + rest;
    ConcatShape(pad, t, rest);
    SplitField(first, " " + rest, ',');
    KeepCons(first, Split(" " + rest, ','));
  }
}
