/**
 * The thread-aware keyword monitor (`ThreadedSlackKeywordMonitor`): polls
 * like the plain monitor, but answers a message inside the thread it belongs
 * to, quoting the thread's messages, and opens a new thread under a message
 * that belongs to none.
 */
module ThreadedSlackMonitor {
  import opened Messages
  import opened Text
  import opened Clean
  import opened Keyword
  import opened Watermark
  import opened Threads

  /** The reply inside an existing thread, quoting the thread and the cleaned input. */
  function InThreadText(user: string, context: string, cleaned: string): string {
    "Hello <@" + user + ">, I detected your keyword in this thread:\n\n" + context +
    "\n\nCleaned input: '" + cleaned + "'"
  }

  /** The reply that opens a new thread under the message. */
  function NewThreadText(user: string, cleaned: string): string {
    "Hello <@" + user + ">, I detected your keyword in your message: '" + cleaned +
    "'. Starting a new thread..."
  }

  class ThreadedKeywordMonitor {
    /** The keyword, lower-cased once at creation. */
    const keyword: string
    /** Seconds between two polls. */
    const checkInterval: int
    /** The watermark: the newest timestamp seen, unset before the first message. */
    var lastTs: Option<int>

    predicate Valid() {
      ScannableKeyword(keyword) && LowerStr(keyword) == keyword
    }

    constructor (keyword: string, checkInterval: int)
      requires ScannableKeyword(keyword)
      ensures Valid()
      ensures this.keyword == LowerStr(keyword) && this.checkInterval == checkInterval && lastTs == None
    {
      this.keyword := LowerStr(keyword);
      this.checkInterval := checkInterval;
      lastTs := None;
      LowerKeepsScannable(keyword);
      LowerStrIdempotent(keyword);
    }

    /**
     * `get_new_messages`: fetches the history from `Oldest`, keeps the new
     * messages and advances the watermark; a failed fetch returns nothing
     * and leaves the watermark alone.
     */
    method GetNewMessages(now: int, history: int -> Result<seq<Msg>>) returns (newMessages: seq<Msg>)
      modifies this
      ensures var fetched := history(Oldest(old(lastTs), now, checkInterval));
        (fetched.Failure? ==> newMessages == [] && lastTs == old(lastTs)) &&
        (fetched.Success? ==> newMessages == Accepted(old(lastTs), fetched.value) &&
                              lastTs == Advanced(old(lastTs), fetched.value))
    {
      var response := history(Oldest(lastTs, now, checkInterval));
      if response.Failure? {
        return [];
      }
      var maxTs;
      newMessages, maxTs := ScanBatch(lastTs, response.value);
      if maxTs != lastTs {
        lastTs := maxTs;
      }
    }

    /**
     * The reply `reply_to_message` posts for a message with text, given what
     * `conversations_replies` answers for each thread: posted into the thread
     * with the thread's context when the message has a `thread_ts`, otherwise
     * under the message itself announcing a new thread.
     */
    function ReplyFor(msg: Msg, repliesOf: int -> Result<seq<Msg>>): (r: Reply)
      requires Valid() && msg.text.Some?
      ensures r.threadTs == ReplyTarget(msg)
    {
      var user := OrElse(msg.user, "unknown");
      var cleaned := CleanMessage(keyword, msg.text.value);
      if InExistingThread(msg) then
        Reply(msg.threadTs.value, InThreadText(user, Context(repliesOf(msg.threadTs.value)), cleaned))
      else
        Reply(msg.ts, NewThreadText(user, cleaned))
    }

    /**
     * `reply_to_message`: a message without text raises inside the handler,
     * which swallows the error, so nothing is posted; otherwise the reply of
     * `ReplyFor` is posted.
     */
    method ReplyToMessage(msg: Msg, repliesOf: int -> Result<seq<Msg>>) returns (reply: Option<Reply>)
      requires Valid()
      ensures msg.text.None? ==> reply == None
      ensures msg.text.Some? ==> reply == Some(ReplyFor(msg, repliesOf))
    {
      if msg.text.None? {
        return None;
      }
      var user := OrElse(msg.user, "unknown");
      var cleaned := CleanMessage(keyword, msg.text.value);
      var hasThreadTs := msg.threadTs.Some?;
      var inExistingThread := IsInThread(msg) || (hasThreadTs && msg.threadTs.value == msg.ts);
      if inExistingThread {
        var threadIdentifier := msg.threadTs.value;
        var context := ThreadContext(repliesOf(threadIdentifier));
        reply := Some(Reply(threadIdentifier, InThreadText(user, context, cleaned)));
      } else {
        reply := Some(Reply(msg.ts, NewThreadText(user, cleaned)));
      }
    }

    /**
     * Replies to each matched message in turn, in the order matched. Each
     * reply fetches its thread afresh: `repliesOf(i)` is what
     * `conversations_replies` answers for the `i`-th reply, after the
     * replies before it have been posted, so a later reply into the same
     * thread may see the earlier ones.
     */
    method ReplyToAll(matched: seq<Msg>, repliesOf: nat -> int -> Result<seq<Msg>>) returns (replies: seq<Reply>)
      requires Valid()
      requires forall i :: 0 <= i < |matched| ==> matched[i].text.Some?
      ensures |replies| == |matched|
      ensures forall i :: 0 <= i < |matched| ==> replies[i] == ReplyFor(matched[i], repliesOf(i))
    {
      replies := [];
      for i := 0 to |matched|
        invariant |replies| == i
        invariant forall j :: 0 <= j < i ==> replies[j] == ReplyFor(matched[j], repliesOf(j))
      {
        var reply := ReplyToMessage(matched[i], repliesOf(i));
        assert reply.value == ReplyFor(matched[i], repliesOf(i));
        replies := replies + [reply.value];
      }
    }

    /**
     * One poll: the new messages, those mentioning the keyword, and one reply
     * for each of them in order, each posted into the thread `ReplyTarget`
     * names.
     */
    method PollCycle(now: int, history: int -> Result<seq<Msg>>, repliesOf: nat -> int -> Result<seq<Msg>>)
      returns (replies: seq<Reply>)
      requires Valid()
      modifies this
      ensures var fetched := history(Oldest(old(lastTs), now, checkInterval));
        var matched := Matching(keyword, if fetched.Success? then Accepted(old(lastTs), fetched.value) else []);
        |replies| == |matched| &&
        forall i :: 0 <= i < |matched| ==>
          replies[i] == ReplyFor(matched[i], repliesOf(i)) && replies[i].threadTs == ReplyTarget(matched[i])
      ensures var fetched := history(Oldest(old(lastTs), now, checkInterval));
        lastTs == (if fetched.Success? then Advanced(old(lastTs), fetched.value) else old(lastTs))
    {
      ghost var fetched := history(Oldest(lastTs, now, checkInterval));
      ghost var delivered := if fetched.Success? then Accepted(lastTs, fetched.value) else [];
      var newMessages := GetNewMessages(now, history);
      assert newMessages == delivered;
      var matched := FindKeywordMessages(keyword, newMessages);
      assert forall i :: 0 <= i < |matched| ==> Mentions(keyword, matched[i]);
      replies := ReplyToAll(matched, repliesOf);
    }
  }

  /**
   * A message with a `thread_ts` (root or reply) gets the in-thread text
   * quoting its thread; a message without one gets the new-thread text.
   */
  lemma ReplyTemplate(mon: ThreadedKeywordMonitor, msg: Msg, repliesOf: int -> Result<seq<Msg>>)
    requires mon.Valid() && msg.text.Some?
    ensures var user := OrElse(msg.user, "unknown");
      var cleaned := CleanMessage(mon.keyword, msg.text.value);
      (msg.threadTs.Some? ==>
        mon.ReplyFor(msg, repliesOf).text == InThreadText(user, Context(repliesOf(msg.threadTs.value)), cleaned)) &&
      (msg.threadTs.None? ==> mon.ReplyFor(msg, repliesOf).text == NewThreadText(user, cleaned))
  {
  }

  /**
   * The input echoed in either reply is in normal form and, for a keyword
   * without whitespace, no longer holds the keyword in any letter case.
   */
  lemma EchoedInput(mon: ThreadedKeywordMonitor, msg: Msg, repliesOf: int -> Result<seq<Msg>>)
    requires mon.Valid() && msg.text.Some?
    ensures var cleaned := CleanMessage(mon.keyword, msg.text.value);
      var user := OrElse(msg.user, "unknown");
      mon.ReplyFor(msg, repliesOf).text in {InThreadText(user, Context(repliesOf(ReplyTarget(msg))), cleaned),
                                            NewThreadText(user, cleaned)} &&
      IsNormal(cleaned) &&
      (SpaceFreeKeyword(mon.keyword) ==> !HasMatch(mon.keyword, cleaned))
  {
    CleanMessageRemovesKeyword(mon.keyword, msg.text.value);
  }

  /** A failed fetch of the thread still gets a reply in the thread, with an empty context. */
  lemma FailedContextStillReplies(mon: ThreadedKeywordMonitor, msg: Msg, repliesOf: int -> Result<seq<Msg>>)
    requires mon.Valid() && msg.text.Some? && msg.threadTs.Some?
    requires repliesOf(msg.threadTs.value).Failure?
    ensures mon.ReplyFor(msg, repliesOf).threadTs == msg.threadTs.value
    ensures mon.ReplyFor(msg, repliesOf).text ==
      InThreadText(OrElse(msg.user, "unknown"), "", CleanMessage(mon.keyword, msg.text.value))
  {
  }
}
