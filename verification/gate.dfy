/**
  The tagging gate (utils.py `should_suggest_users`): decides whether the
  bot should suggest people for the topics of a conversation. Hard guards
  on the number of topics come first; then a classifier's reply must be
  exactly `YES` (up to case and surrounding whitespace); when the
  classifier call raises, a conservative keyword heuristic decides.
 */
module Gate {
  import opened Text
  import opened ModelCall

  /** More topics than this are never suggested for. */
  const MaxTopics: int := 8

  /** The fallback admits at most this many topics. */
  const FallbackMaxTopics: int := 3

  /** The fallback's technical keywords, matched as substrings. */
  const TechKeywords: seq<string> :=
    ["ai", "ml", "machine learning", "artificial intelligence", "data",
     "software", "programming", "robotics", "research"]

  /** Some keyword occurs in some lower-cased topic. */
  predicate HasTech(topics: seq<string>) {
    exists i :: 0 <= i < |topics| && ContainsAny(Lower(topics[i]), TechKeywords)
  }

  /** `should_suggest_users` once the classifier's outcome is known. */
  function ShouldSuggest(topics: seq<string>, reply: ModelReply): (r: bool)
    ensures |topics| == 0 || |topics| > MaxTopics ==> !r
    ensures r && !reply.Raised? ==> IsYes(if reply.Complete? then reply.text else reply.partial)
    ensures r && reply.Raised? ==> HasTech(topics) && |topics| <= FallbackMaxTopics
    ensures 0 < |topics| <= MaxTopics ==>
              match reply
              case Raised => r == (HasTech(topics) && |topics| <= FallbackMaxTopics)
              case Complete(text) => r == IsYes(text)
              case Truncated(partial) => r == (partial != "" && IsYes(partial))
  {
    if |topics| == 0 then false
    else if |topics| > MaxTopics then false
    else
      match reply
      case Raised => HasTech(topics) && |topics| <= FallbackMaxTopics
      case Truncated(partial) => if partial == "" then false else IsYes(partial)
      case Complete(text) => IsYes(text)
  }

  /** Under the guards the classifier is never consulted: every outcome of
      the call gives the same (negative) answer. */
  lemma GuardsIgnoreClassifier(topics: seq<string>, r1: ModelReply, r2: ModelReply)
    requires |topics| == 0 || |topics| > MaxTopics
    ensures ShouldSuggest(topics, r1) == ShouldSuggest(topics, r2) == false
  {
  }

  /** With the classifier unreachable, a machine-learning topic next to an
      unrelated one is admitted. */
  lemma FallbackAdmitsTechPair()
    ensures ShouldSuggest(["Machine Learning", "Coffee"], Raised)
  {
    var t := Lower("Machine Learning");
    assert t == "machine learning";
    assert TechKeywords[2] == "machine learning";
    assert Contains(t, "machine learning");
    assert ContainsAny(t, TechKeywords);
    var topics := ["Machine Learning", "Coffee"];
    assert ContainsAny(Lower(topics[0]), TechKeywords);
  }

  /** With the classifier unreachable, four topics are too many for the
      fallback whatever they are about. */
  lemma FallbackRejectsFourTopics(topics: seq<string>)
    requires |topics| == 4
    ensures !ShouldSuggest(topics, Raised)
  {
  }
}
