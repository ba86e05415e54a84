/**
  Topic expansion (utils.py `expand_topics_for_matching`): the canonical
  topics are sent to a language model, whose reply lists synonym groups as
  `a, b | c, d`. The reply is parsed into a de-duplicated term list that
  always includes the canonical topics; on any failure the canonical topics
  come back unchanged. The model call itself is an input: the reply it gave.
 */
module Expansion {
  import opened Text
  import opened Seqs
  import opened ModelCall

  /** A term kept by the parser: non-empty, stripped, and free of both
      delimiters. */
  predicate IsTerm(t: string) {
    t != "" && IsStripped(t) && '|' !in t && ',' !in t
  }

  /** The non-empty stripped fields of one group, in order. */
  function FieldTerms(fields: seq<string>): (r: seq<string>)
    requires forall i :: 0 <= i < |fields| ==> '|' !in fields[i] && ',' !in fields[i]
    ensures forall i :: 0 <= i < |r| ==> IsTerm(r[i])
    decreases |fields|
  {
    if |fields| == 0 then []
    else
      var t := Strip(fields[|fields| - 1]);
      FieldTerms(fields[..|fields| - 1]) + (if t != "" then [t] else [])
  }

  /** The terms of the groups, group by group. */
  function GroupTerms(groups: seq<string>): (r: seq<string>)
    requires forall i :: 0 <= i < |groups| ==> '|' !in groups[i]
    ensures forall i :: 0 <= i < |r| ==> IsTerm(r[i])
    decreases |groups|
  {
    if |groups| == 0 then []
    else
      var fields := Split(groups[|groups| - 1], ',');
      assert forall i :: 0 <= i < |fields| ==> '|' !in fields[i] by {
        forall i | 0 <= i < |fields|
          ensures '|' !in fields[i]
        {
          SplitKeepsChars(groups[|groups| - 1], ',', i, '|');
        }
      }
      GroupTerms(groups[..|groups| - 1]) + FieldTerms(fields)
  }

  /** Splitting never introduces a character the text did not have. */
  lemma {:induction false} SplitKeepsChars(s: string, sep: char, i: nat, c: char)
    requires c !in s
    requires i < |Split(s, sep)|
    ensures c !in Split(s, sep)[i]
    decreases |s|
  {
    if |s| > 0 {
      var rest := Split(s[1..], sep);
      assert c !in s[1..] by {
        assert forall k :: 0 <= k < |s[1..]| ==> s[1..][k] == s[k + 1];
      }
      if s[0] == sep {
        if i > 0 {
          SplitKeepsChars(s[1..], sep, i - 1, c);
        }
      } else {
        SplitKeepsChars(s[1..], sep, if i == 0 then 0 else i, c);
      }
    }
  }

  /** Every term the reply mentions: split on `|`, then on `,`, stripped,
      empties dropped. */
  function Terms(content: string): (r: seq<string>)
    ensures forall i :: 0 <= i < |r| ==> IsTerm(r[i])
  {
    GroupTerms(Split(content, '|'))
  }

  /** The parse the source performs on the reply text: the reply's terms,
      then any canonical topic it missed, first occurrences only. */
  function ParseExpansion(content: string, canonical: seq<string>): seq<string> {
    Dedup(Terms(content) + canonical)
  }

  /** The parsing loop as written, run over the reply's terms followed by
      the canonical topics. */
  method ParseExpansionLoop(content: string, canonical: seq<string>) returns (expanded: seq<string>)
    ensures expanded == ParseExpansion(content, canonical)
  {
    expanded := FirstOccurrences(Terms(content) + canonical);
  }

  /** A `seen` set guards appends: each term is kept at its first
      occurrence. */
  method FirstOccurrences(items: seq<string>) returns (expanded: seq<string>)
    ensures expanded == Dedup(items)
  {
    expanded := [];
    var seen: set<string> := {};
    var i := 0;
    while i < |items|
      invariant 0 <= i <= |items|
      invariant expanded == Dedup(items[..i])
      invariant seen == set x | x in expanded
    {
      var term := items[i];
      if term !in seen {
        KeepFirst(items, i);
        expanded := expanded + [term];
        seen := seen + {term};
      } else {
        SkipRepeat(items, i);
      }
      i := i + 1;
    }
    assert items[..|items|] == items;
  }

  lemma KeepFirst(items: seq<string>, i: nat)
    requires i < |items| && items[i] !in Dedup(items[..i])
    ensures Dedup(items[..i + 1]) == Dedup(items[..i]) + [items[i]]
  {
    InitLast(items[..i + 1]);
    assert items[..i + 1][..i] == items[..i];
    DedupSnoc(items[..i], items[i]);
  }

  lemma SkipRepeat(items: seq<string>, i: nat)
    requires i < |items| && items[i] in Dedup(items[..i])
    ensures Dedup(items[..i + 1]) == Dedup(items[..i])
  {
    InitLast(items[..i + 1]);
    assert items[..i + 1][..i] == items[..i];
    DedupSnoc(items[..i], items[i]);
  }

  /** `expand_topics_for_matching` after the model call. The canonical
      topics are returned unchanged when the call raised, when a truncated
      reply carried no text, and when there are no canonical topics (the
      expansion-ratio report divides by their number, raises, and the
      handler falls back). */
  function ExpandTopics(canonical: seq<string>, reply: ModelReply): (r: seq<string>)
    ensures forall i :: 0 <= i < |canonical| ==> canonical[i] in r
    ensures |canonical| == 0 ==> r == []
    ensures reply.Raised? ==> r == canonical
    ensures r == canonical || NoDups(r)
    ensures forall i :: 0 <= i < |r| ==> r[i] in canonical || IsTerm(r[i])
    ensures reply == Truncated("") ==> r == canonical
    ensures 0 < |canonical| && reply.Complete? ==> r == ParseExpansion(Strip(reply.text), canonical)
    ensures 0 < |canonical| && reply.Truncated? && reply.partial != "" ==>
              r == ParseExpansion(Strip(reply.partial), canonical)
  {
    match reply
    case Raised => canonical
    case Truncated(partial) =>
      if partial == "" then canonical else ExpandContent(Strip(partial), canonical)
    case Complete(text) => ExpandContent(Strip(text), canonical)
  }

  /** The parsed reply text; an empty canonical list comes back as it is,
      since the ratio report after the parse raises. */
  function ExpandContent(content: string, canonical: seq<string>): (r: seq<string>)
    ensures forall i :: 0 <= i < |canonical| ==> canonical[i] in r
    ensures r == canonical || NoDups(r)
    ensures forall i :: 0 <= i < |r| ==> r[i] in canonical || IsTerm(r[i])
    ensures 0 < |canonical| ==> r == ParseExpansion(content, canonical)
  {
    if |canonical| == 0 then canonical
    else
      CanonicalKept(content, canonical);
      ParseExpansion(content, canonical)
  }

  /** The parse keeps every canonical topic. */
  lemma CanonicalKept(content: string, canonical: seq<string>)
    ensures forall i :: 0 <= i < |canonical| ==> canonical[i] in ParseExpansion(content, canonical)
  {
    DedupKeepsSuffix(Terms(content), canonical);
  }

  /** On the parsing path, terms keep the order in which the reply (then the
      canonical list) first mentions them. */
  lemma ExpansionKeepsFirstOccurrenceOrder(content: string, canonical: seq<string>, i: nat, j: nat)
    requires i < j < |ParseExpansion(content, canonical)|
    ensures var items := Terms(content) + canonical;
            var r := ParseExpansion(content, canonical);
            FirstIndex(items, r[i]) < FirstIndex(items, r[j])
  {
    DedupOrder(Terms(content) + canonical, i, j);
  }

  /** A reply that only repeats a single canonical topic expands to exactly
      that topic. */
  lemma {:induction false} EchoReplyExpandsToItself(t: string)
    requires IsTerm(t)
    ensures ExpandTopics([t], Complete(t)) == [t]
  {
    assert IsStripped(t);
    TermsOfTerm(t);
    assert Terms(t) + [t] == [t, t];
    DedupTwice(t);
  }

  /** A term on its own parses to itself. */
  lemma TermsOfTerm(t: string)
    requires IsTerm(t)
    ensures Terms(t) == [t]
  {
    SplitNoSep(t, '|');
    SplitNoSep(t, ',');
    assert GroupTerms([t]) == GroupTerms([]) + FieldTerms(Split(t, ','));
    assert FieldTerms([t]) == FieldTerms([]) + [t];
  }

  lemma DedupTwice(t: string)
    ensures Dedup([t, t]) == [t]
  {
    assert [] + [t] == [t];
    DedupSnoc([], t);
    assert Dedup([t]) == [t];
    assert [t] + [t] == [t, t];
    DedupSnoc([t], t);
  }
}
