/**
  Language-model calls as the bot's handlers see them. The call itself is
  outside the model: each handler receives its outcome as an argument.
  Two classifiers (the tagging gate and the survey's relevance check) read
  a reply as a yes only when it is exactly `YES` after stripping and
  upper-casing.
 */
module ModelCall {
  import opened Text

  /** The outcome of a call to the responses endpoint. */
  datatype ModelReply =
    | Raised                       // the call, or reading its reply, raised
    | Complete(text: string)       // a full reply
    | Truncated(partial: string)   // stopped at the output-token limit; `partial` may be ""

  /** The strict parse both classifiers' replies go through:
      `text.strip().upper() == "YES"`. */
  predicate IsYes(text: string) {
    Upper(Strip(text)) == "YES"
  }

  lemma UpperCharIs(c: char, u: char)
    requires 'A' <= u <= 'Z'
    ensures UpperChar(c) == u <==> c == u || c as int == u as int + 32
  {
  }

  /** The parse is strict: only `yes` in any letter case, with nothing
      else but surrounding whitespace, counts as a yes. */
  lemma YesIsExact(text: string)
    ensures IsYes(text) <==> Lower(Strip(text)) == "yes"
  {
    UpperIsYes(Strip(text));
  }

  lemma UpperIsYes(d: string)
    ensures Upper(d) == "YES" <==> Lower(d) == "yes"
  {
    if |d| == 3 {
      UpperCharIs(d[0], 'Y');
      UpperCharIs(d[1], 'E');
      UpperCharIs(d[2], 'S');
      assert Upper(d) == [UpperChar(d[0]), UpperChar(d[1]), UpperChar(d[2])];
      assert Lower(d) == [LowerChar(d[0]), LowerChar(d[1]), LowerChar(d[2])];
      assert "YES" == ['Y', 'E', 'S'] && "yes" == ['y', 'e', 's'];
    } else {
      assert |Upper(d)| != |"YES"| && |Lower(d)| != |"yes"|;
    }
  }

  /** A decorated answer is a no, whatever its letters. */
  lemma DecoratedYesIsNo()
    ensures !IsYes("YES.") && !IsYes("Yes, suggest")
  {
    assert IsStripped("YES.");
    assert IsStripped("Yes, suggest");
  }

  /** Surrounding whitespace and letter case do not matter. */
  lemma PaddedYesIsYes(pre: string, post: string)
    requires forall k :: 0 <= k < |pre| ==> IsSpace(pre[k])
    requires forall k :: 0 <= k < |post| ==> IsSpace(post[k])
    ensures IsYes(pre + "yes" + post) && IsYes(pre + "YES" + post)
  {
    assert IsStripped("yes") && IsStripped("YES");
    StripPadded(pre, "yes", post);
    StripPadded(pre, "YES", post);
    UpperOfThree('y', 'e', 's');
    UpperOfThree('Y', 'E', 'S');
  }

  lemma UpperOfThree(a: char, b: char, c: char)
    ensures Upper([a, b, c]) == [UpperChar(a), UpperChar(b), UpperChar(c)]
  {
  }
}
