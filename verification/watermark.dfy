/**
 * The watermark of `get_new_messages` in both monitors: of a fetched batch,
 * only the messages strictly newer than the stored `last_timestamp` are new,
 * and after the batch the watermark moves to the newest of them.
 */
module Watermark {
  import opened Messages

  /** Timestamps are kept in microseconds. */
  const MicrosPerSecond := 1000000

  /**
   * The `oldest` bound of the history fetch: the watermark once one is set,
   * otherwise two check intervals before `now` (all in microseconds).
   */
  function Oldest(lastTs: Option<int>, now: int, checkInterval: int): int {
    if lastTs.Some? then lastTs.value else now - checkInterval * 2 * MicrosPerSecond
  }

  /** `last_timestamp is None or float(msg['ts']) > float(last_timestamp)` */
  predicate Newer(lastTs: Option<int>, m: Msg) {
    lastTs.None? || m.ts > lastTs.value
  }

  /** The messages of the batch newer than the watermark, in the order received. */
  function Accepted(lastTs: Option<int>, batch: seq<Msg>): (r: seq<Msg>)
    ensures |r| <= |batch|
    ensures forall i :: 0 <= i < |r| ==> Newer(lastTs, r[i])
  {
    if batch == [] then []
    else
      var last := batch[|batch| - 1];
      Accepted(lastTs, batch[..|batch| - 1]) + (if Newer(lastTs, last) then [last] else [])
  }

  /** A message is accepted exactly when it is in the batch and newer than the watermark. */
  lemma {:induction false} AcceptedMembers(lastTs: Option<int>, batch: seq<Msg>)
    ensures forall m :: m in Accepted(lastTs, batch) <==> m in batch && Newer(lastTs, m)
    decreases |batch|
  {
    if batch != [] {
      var front := batch[..|batch| - 1];
      AcceptedMembers(lastTs, front);
      assert batch == front + [batch[|batch| - 1]];
    }
  }

  /**
   * The accepted messages keep the order they were received in, and each
   * received message newer than the watermark is accepted once, at its own
   * position.
   */
  lemma {:induction false} AcceptedPositions(lastTs: Option<int>, batch: seq<Msg>) returns (idx: seq<nat>)
    ensures |idx| == |Accepted(lastTs, batch)|
    ensures forall j :: 0 <= j < |idx| ==> idx[j] < |batch| && Accepted(lastTs, batch)[j] == batch[idx[j]]
    ensures forall j, j' :: 0 <= j < j' < |idx| ==> idx[j] < idx[j']
    ensures forall i :: 0 <= i < |batch| ==> (i in idx <==> Newer(lastTs, batch[i]))
    decreases |batch|
  {
    if batch == [] {
      idx := [];
    } else {
      var n := |batch| - 1;
      var front := batch[..n];
      var prev := AcceptedPositions(lastTs, front);
      assert forall j :: 0 <= j < |prev| ==> prev[j] < n;
      if Newer(lastTs, batch[n]) {
        idx := prev + [n];
      } else {
        idx := prev;
      }
      forall i | 0 <= i < |batch|
        ensures i in idx <==> Newer(lastTs, batch[i])
      {
        if i < n {
          assert batch[i] == front[i];
        }
      }
    }
  }

  /** The largest timestamp of a non-empty list of messages. */
  function MaxTs(ms: seq<Msg>): (r: int)
    requires |ms| > 0
    ensures forall i :: 0 <= i < |ms| ==> ms[i].ts <= r
    ensures exists i :: 0 <= i < |ms| && ms[i].ts == r
  {
    if |ms| == 1 then ms[0].ts
    else
      var front := MaxTs(ms[..|ms| - 1]);
      assert forall i :: 0 <= i < |ms| - 1 ==> ms[i] == ms[..|ms| - 1][i];
      if ms[|ms| - 1].ts > front then ms[|ms| - 1].ts else front
  }

  /** The watermark after the batch: unchanged when nothing is new, otherwise the newest accepted timestamp. */
  function Advanced(lastTs: Option<int>, batch: seq<Msg>): Option<int> {
    var accepted := Accepted(lastTs, batch);
    if accepted == [] then lastTs else Some(MaxTs(accepted))
  }

  /**
   * The loop of `get_new_messages`: collects the new messages and tracks the
   * largest timestamp among them, starting from the old watermark.
   */
  method ScanBatch(lastTs: Option<int>, batch: seq<Msg>) returns (newMessages: seq<Msg>, maxTs: Option<int>)
    ensures newMessages == Accepted(lastTs, batch)
    ensures maxTs == Advanced(lastTs, batch)
  {
    newMessages := [];
    maxTs := lastTs;
    for i := 0 to |batch|
      invariant newMessages == Accepted(lastTs, batch[..i])
      invariant maxTs == if newMessages == [] then lastTs else Some(MaxTs(newMessages))
    {
      var msg := batch[i];
      AcceptedPrefix(lastTs, batch, i);
      if lastTs.None? || msg.ts > lastTs.value {
        TrackNewest(lastTs, newMessages, msg);
        newMessages := newMessages + [msg];
        if maxTs.None? || msg.ts > maxTs.value {
          maxTs := Some(msg.ts);
        }
      }
    }
    assert batch[..|batch|] == batch;
  }

  /** One more message at the end of the batch is accepted after the others exactly when it is new. */
  lemma AcceptedSnoc(lastTs: Option<int>, batch: seq<Msg>, m: Msg)
    ensures Accepted(lastTs, batch + [m]) == Accepted(lastTs, batch) + (if Newer(lastTs, m) then [m] else [])
  {
    assert (batch + [m])[..|batch|] == batch;
  }

  /** The accepted messages of a prefix one message longer. */
  lemma AcceptedPrefix(lastTs: Option<int>, batch: seq<Msg>, i: nat)
    requires i < |batch|
    ensures Accepted(lastTs, batch[..i + 1]) ==
      Accepted(lastTs, batch[..i]) + (if Newer(lastTs, batch[i]) then [batch[i]] else [])
  {
    assert batch[..i + 1] == batch[..i] + [batch[i]];
    AcceptedSnoc(lastTs, batch[..i], batch[i]);
  }

  /**
   * Tracking the maximum as the loop does: the watermark so far, replaced by
   * a new message's timestamp when that is larger, is the newest timestamp
   * accepted so far.
   */
  lemma TrackNewest(lastTs: Option<int>, accepted: seq<Msg>, m: Msg)
    requires forall i :: 0 <= i < |accepted| ==> Newer(lastTs, accepted[i])
    requires Newer(lastTs, m)
    ensures var w := if accepted == [] then lastTs else Some(MaxTs(accepted));
      (if w.None? || m.ts > w.value then Some(m.ts) else w) == Some(MaxTs(accepted + [m]))
  {
    if accepted == [] {
      assert accepted + [m] == [m];
    } else {
      MaxTsSnoc(accepted, m);
    }
  }

  /** The newest timestamp of a list grown by one message. */
  lemma MaxTsSnoc(ms: seq<Msg>, m: Msg)
    requires |ms| > 0
    ensures MaxTs(ms + [m]) == if m.ts > MaxTs(ms) then m.ts else MaxTs(ms)
  {
    assert (ms + [m])[..|ms|] == ms;
  }

  /** The watermark never moves back, and once set it stays set. */
  lemma AdvancedMonotone(lastTs: Option<int>, batch: seq<Msg>)
    ensures lastTs.Some? ==> Advanced(lastTs, batch).Some? && Advanced(lastTs, batch).value >= lastTs.value
  {
    var accepted := Accepted(lastTs, batch);
    if lastTs.Some? && accepted != [] {
      assert accepted[0] in accepted;
    }
  }

  /**
   * The watermark stays where it was exactly when no message of the batch is
   * new; in particular an empty batch leaves it unchanged, set or not.
   */
  lemma AdvancedUnchangedIffNothingNew(lastTs: Option<int>, batch: seq<Msg>)
    ensures Advanced(lastTs, batch) == lastTs <==> Accepted(lastTs, batch) == []
  {
    var accepted := Accepted(lastTs, batch);
    if accepted != [] {
      var i :| 0 <= i < |accepted| && accepted[i].ts == MaxTs(accepted);
      assert accepted[i] in accepted;
    }
  }

  /** When some message is new, the watermark becomes the largest new timestamp. */
  lemma AdvancedIsNewest(lastTs: Option<int>, batch: seq<Msg>)
    requires Accepted(lastTs, batch) != []
    ensures Advanced(lastTs, batch).Some?
    ensures forall m :: m in batch && Newer(lastTs, m) ==> m.ts <= Advanced(lastTs, batch).value
    ensures exists m :: m in batch && Newer(lastTs, m) && m.ts == Advanced(lastTs, batch).value
  {
    var accepted := Accepted(lastTs, batch);
    AcceptedMembers(lastTs, batch);
    var i :| 0 <= i < |accepted| && accepted[i].ts == MaxTs(accepted);
    assert accepted[i] in accepted;
    forall m | m in batch && Newer(lastTs, m)
      ensures m.ts <= MaxTs(accepted)
    {
      var j :| 0 <= j < |accepted| && accepted[j] == m;
    }
  }

  /**
   * No message is delivered twice: every message a poll accepts is strictly
   * newer than every message the poll before it accepted, so the boundary
   * message the inclusive history fetch sends again is dropped.
   */
  lemma NoRedelivery(lastTs: Option<int>, first: seq<Msg>, second: seq<Msg>)
    ensures forall m1, m2 :: m1 in Accepted(lastTs, first) && m2 in Accepted(Advanced(lastTs, first), second) ==>
      m1.ts < m2.ts
  {
    var accepted := Accepted(lastTs, first);
    if accepted != [] {
      AdvancedIsNewest(lastTs, first);
    }
    forall m1, m2 | m1 in accepted && m2 in Accepted(Advanced(lastTs, first), second)
      ensures m1.ts < m2.ts
    {
      AdvancedIsNewest(lastTs, first);
    }
  }

  /**
   * Of a batch fetched inclusively from the watermark (every timestamp at
   * least the watermark), exactly the messages at the watermark itself are
   * dropped.
   */
  lemma InclusiveBoundaryDropped(w: int, batch: seq<Msg>)
    requires forall m :: m in batch ==> m.ts >= w
    ensures forall m :: m in batch ==> (m in Accepted(Some(w), batch) <==> m.ts != w)
  {
  }

  /** A batch with timestamps 5, 3, 7 read against watermark 2 is accepted whole and moves the watermark to 7. */
  lemma ExampleBatch(batch: seq<Msg>)
    requires |batch| == 3 && batch[0].ts == 5 && batch[1].ts == 3 && batch[2].ts == 7
    ensures Accepted(Some(2), batch) == batch
    ensures Advanced(Some(2), batch) == Some(7)
  {
    assert batch[..2][..1] == batch[..1];
    assert batch[..3] == batch;
    assert Accepted(Some(2), batch[..1]) == batch[..1];
    assert Accepted(Some(2), batch[..2]) == batch[..2];
  }
}
