/**
 * The keyword filter of both monitors (`find_keyword_messages`): a message is
 * selected when it has a text and the lower-cased text contains the keyword,
 * which the monitor lower-cased once when it was created.
 */
module Keyword {
  import opened Messages
  import opened Text
  import opened Clean

  /** The test `'text' in msg and keyword in msg['text'].lower()`. */
  predicate Mentions(keyword: string, m: Msg) {
    m.text.Some? && Contains(LowerStr(m.text.value), keyword)
  }

  /** The messages that mention the keyword, in the order received. */
  function Matching(keyword: string, ms: seq<Msg>): (r: seq<Msg>)
    ensures |r| <= |ms|
    ensures forall i :: 0 <= i < |r| ==> Mentions(keyword, r[i])
  {
    if ms == [] then []
    else
      var last := ms[|ms| - 1];
      Matching(keyword, ms[..|ms| - 1]) + (if Mentions(keyword, last) then [last] else [])
  }

  /** A message is selected exactly when it is in the batch and mentions the keyword. */
  lemma {:induction false} MatchingMembers(keyword: string, ms: seq<Msg>)
    ensures forall m :: m in Matching(keyword, ms) <==> m in ms && Mentions(keyword, m)
    decreases |ms|
  {
    if ms != [] {
      var front := ms[..|ms| - 1];
      MatchingMembers(keyword, front);
      assert ms == front + [ms[|ms| - 1]];
    }
  }

  /** `find_keyword_messages`: one pass over the batch, appending each message that mentions the keyword. */
  method FindKeywordMessages(keyword: string, messages: seq<Msg>) returns (matched: seq<Msg>)
    ensures matched == Matching(keyword, messages)
  {
    matched := [];
    for i := 0 to |messages|
      invariant matched == Matching(keyword, messages[..i])
    {
      assert messages[..i + 1][..i] == messages[..i];
      if Mentions(keyword, messages[i]) {
        matched := matched + [messages[i]];
      }
    }
    assert messages[..|messages|] == messages;
  }

  /**
   * The selection is an order-preserving subsequence: the selected messages
   * sit at strictly increasing positions of the batch, and a position is
   * selected exactly when its message mentions the keyword.
   */
  lemma {:induction false} MatchingPositions(keyword: string, ms: seq<Msg>) returns (idx: seq<nat>)
    ensures |idx| == |Matching(keyword, ms)|
    ensures forall j :: 0 <= j < |idx| ==> idx[j] < |ms| && Matching(keyword, ms)[j] == ms[idx[j]]
    ensures forall j, j' :: 0 <= j < j' < |idx| ==> idx[j] < idx[j']
    ensures forall i :: 0 <= i < |ms| ==> (i in idx <==> Mentions(keyword, ms[i]))
  {
    if ms == [] {
      idx := [];
    } else {
      var n := |ms| - 1;
      var front := ms[..n];
      var prev := MatchingPositions(keyword, front);
      assert forall j :: 0 <= j < |prev| ==> prev[j] < n;
      if Mentions(keyword, ms[n]) {
        idx := prev + [n];
      } else {
        idx := prev;
      }
      forall i | 0 <= i < |ms|
        ensures i in idx <==> Mentions(keyword, ms[i])
      {
        if i < n {
          assert ms[i] == front[i];
        }
      }
    }
  }

  /**
   * For a lower-case keyword, the filter's substring test agrees with the
   * cleaner's case-insensitive match: a message is selected exactly when the
   * keyword occurs in its text ignoring case.
   */
  lemma MentionsIffMatch(keyword: string, m: Msg)
    requires LowerStr(keyword) == keyword
    ensures Mentions(keyword, m) <==> m.text.Some? && HasMatch(keyword, m.text.value)
  {
    if m.text.Some? {
      var t := m.text.value;
      var l := LowerStr(t);
      ContainsIff(l, keyword);
      if Contains(l, keyword) {
        var i :| OccursAt(l, keyword, i);
        forall q | 0 <= q < |keyword|
          ensures Lower(t[i + q]) == Lower(keyword[q])
        {
          assert l[i..i + |keyword|][q] == keyword[q];
          assert keyword[q] == LowerStr(keyword)[q];
        }
        assert MatchesAt(keyword, t, i);
      }
      if HasMatch(keyword, t) {
        var i: nat :| MatchesAt(keyword, t, i);
        forall q | 0 <= q < |keyword|
          ensures l[i..i + |keyword|][q] == keyword[q]
        {
          assert keyword[q] == LowerStr(keyword)[q];
        }
        assert OccursAt(l, keyword, i);
      }
    }
  }

  /** A text in which no character lowers to the keyword's first character does not mention it. */
  lemma MissingFirstCharacter(keyword: string, m: Msg)
    requires |keyword| > 0 && m.text.Some?
    requires forall p :: 0 <= p < |m.text.value| ==> Lower(m.text.value[p]) != keyword[0]
    ensures !Mentions(keyword, m)
  {
    var l := LowerStr(m.text.value);
    forall i | 0 <= i <= |l| - |keyword|
      ensures !OccursAt(l, keyword, i)
    {
      assert l[i..i + |keyword|][0] == l[i];
    }
    ContainsIff(l, keyword);
  }

  /** The keyword occurring at `i` ignoring case makes the message mention it. */
  lemma OccurrenceMentions(keyword: string, m: Msg, i: nat)
    requires m.text.Some? && i + |keyword| <= |m.text.value|
    requires forall q :: 0 <= q < |keyword| ==> Lower(m.text.value[i + q]) == keyword[q]
    ensures Mentions(keyword, m)
  {
    var l := LowerStr(m.text.value);
    assert l[i..i + |keyword|] == keyword;
    ContainsIff(l, keyword);
    assert OccursAt(l, keyword, i);
  }

  /** "Hey bugbot can you help?" mentions bugbot. */
  lemma MentionedInQuestion(m: Msg)
    requires m.text == Some("Hey bugbot can you help?")
    ensures Mentions("bugbot", m)
  {
    OccurrenceMentions("bugbot", m, 4);
  }

  /** "BUGBOT uppercase test" mentions bugbot: the text is lower-cased first. */
  lemma MentionedInUpperCase(m: Msg)
    requires m.text == Some("BUGBOT uppercase test")
    ensures Mentions("bugbot", m)
  {
    OccurrenceMentions("bugbot", m, 0);
  }

  /** "This has bugbot in the middle" mentions bugbot. */
  lemma MentionedInMiddle(m: Msg)
    requires m.text == Some("This has bugbot in the middle")
    ensures Mentions("bugbot", m)
  {
    OccurrenceMentions("bugbot", m, 9);
  }

  /** "No keyword here" does not mention bugbot. */
  lemma NotMentioned(m: Msg)
    requires m.text == Some("No keyword here")
    ensures !Mentions("bugbot", m)
  {
    MissingFirstCharacter("bugbot", m);
  }
}
