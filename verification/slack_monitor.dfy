/**
 * The plain keyword monitor (`SlackKeywordMonitor`): each poll fetches the
 * channel history from its watermark, keeps the new messages, selects those
 * mentioning the keyword and answers each under the message's own `ts`.
 */
module SlackMonitor {
  import opened Messages
  import opened Text
  import opened Clean
  import opened Keyword
  import opened Watermark
  import Threads

  /** The reply text `Hello <@user>, I will respond to your input 'cleaned'.` */
  function ReplyText(user: string, cleaned: string): string {
    "Hello <@" + user + ">, I will respond to your input '" + cleaned + "'."
  }

  class KeywordMonitor {
    /** The keyword, lower-cased once at creation. */
    const keyword: string
    /** Seconds between two polls. */
    const checkInterval: int
    /** The watermark: the newest timestamp seen, unset before the first message. */
    var lastTs: Option<int>

    predicate Valid() {
      ScannableKeyword(keyword) && LowerStr(keyword) == keyword
    }

    constructor (keyword: string, checkInterval: int)
      requires ScannableKeyword(keyword)
      ensures Valid()
      ensures this.keyword == LowerStr(keyword) && this.checkInterval == checkInterval && lastTs == None
    {
      this.keyword := LowerStr(keyword);
      this.checkInterval := checkInterval;
      lastTs := None;
      LowerKeepsScannable(keyword);
      LowerStrIdempotent(keyword);
    }

    /**
     * `get_new_messages`: fetches the history from `Oldest`, keeps the new
     * messages and advances the watermark; a failed fetch returns nothing
     * and leaves the watermark alone.
     */
    method GetNewMessages(now: int, history: int -> Result<seq<Msg>>) returns (newMessages: seq<Msg>)
      modifies this
      ensures var fetched := history(Oldest(old(lastTs), now, checkInterval));
        (fetched.Failure? ==> newMessages == [] && lastTs == old(lastTs)) &&
        (fetched.Success? ==> newMessages == Accepted(old(lastTs), fetched.value) &&
                              lastTs == Advanced(old(lastTs), fetched.value))
    {
      var response := history(Oldest(lastTs, now, checkInterval));
      if response.Failure? {
        return [];
      }
      var maxTs;
      newMessages, maxTs := ScanBatch(lastTs, response.value);
      if maxTs != lastTs {
        lastTs := maxTs;
      }
    }

    /** The reply `reply_to_message` posts for a message with text. */
    function ReplyTo(msg: Msg): (r: Reply)
      requires Valid() && msg.text.Some?
      ensures r.threadTs == msg.ts
    {
      Reply(msg.ts, ReplyText(Threads.OrElse(msg.user, "unknown"), CleanMessage(keyword, msg.text.value)))
    }

    /** Replies to each matched message in turn, in the order matched. */
    method ReplyToAll(matched: seq<Msg>) returns (replies: seq<Reply>)
      requires Valid()
      requires forall i :: 0 <= i < |matched| ==> matched[i].text.Some?
      ensures |replies| == |matched|
      ensures forall i :: 0 <= i < |matched| ==> replies[i] == ReplyTo(matched[i])
    {
      replies := [];
      for i := 0 to |matched|
        invariant |replies| == i
        invariant forall j :: 0 <= j < i ==> replies[j] == ReplyTo(matched[j])
      {
        var reply := ReplyTo(matched[i]);
        replies := replies + [reply];
      }
    }

    /**
     * One poll: the new messages, those mentioning the keyword, and one reply
     * for each of them in order.
     */
    method PollCycle(now: int, history: int -> Result<seq<Msg>>) returns (replies: seq<Reply>)
      requires Valid()
      modifies this
      ensures var fetched := history(Oldest(old(lastTs), now, checkInterval));
        var matched := Matching(keyword, if fetched.Success? then Accepted(old(lastTs), fetched.value) else []);
        |replies| == |matched| &&
        forall i :: 0 <= i < |matched| ==> replies[i] == ReplyTo(matched[i])
      ensures var fetched := history(Oldest(old(lastTs), now, checkInterval));
        lastTs == (if fetched.Success? then Advanced(old(lastTs), fetched.value) else old(lastTs))
    {
      ghost var fetched := history(Oldest(lastTs, now, checkInterval));
      ghost var delivered := if fetched.Success? then Accepted(lastTs, fetched.value) else [];
      var newMessages := GetNewMessages(now, history);
      assert newMessages == delivered;
      var matched := FindKeywordMessages(keyword, newMessages);
      assert forall i :: 0 <= i < |matched| ==> Mentions(keyword, matched[i]);
      replies := ReplyToAll(matched);
    }
  }

  /** The reply goes under the message's own `ts`, whatever its `thread_ts`. */
  lemma ReplyIgnoresThread(mon: KeywordMonitor, msg: Msg, threadTs: Option<int>)
    requires mon.Valid() && msg.text.Some?
    ensures mon.ReplyTo(msg.(threadTs := threadTs)) == mon.ReplyTo(msg)
    ensures mon.ReplyTo(msg.(threadTs := threadTs)).threadTs == msg.ts
  {
  }

  /**
   * The input echoed in the reply is in normal form and, for a keyword
   * without whitespace, no longer holds the keyword in any letter case.
   */
  lemma EchoedInput(mon: KeywordMonitor, msg: Msg)
    requires mon.Valid() && msg.text.Some?
    ensures var cleaned := CleanMessage(mon.keyword, msg.text.value);
      mon.ReplyTo(msg).text == ReplyText(Threads.OrElse(msg.user, "unknown"), cleaned) &&
      IsNormal(cleaned) &&
      (SpaceFreeKeyword(mon.keyword) ==> !HasMatch(mon.keyword, cleaned))
  {
    CleanMessageRemovesKeyword(mon.keyword, msg.text.value);
  }
}
