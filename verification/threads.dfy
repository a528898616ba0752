/**
 * Thread awareness of the threaded monitor: how a message is classified
 * against its `thread_ts`, which thread a reply is posted into, and how the
 * messages of a thread are rendered as the context quoted in the reply.
 */
module Threads {
  import opened Messages

  /** `is_in_thread`: the message carries a `thread_ts` different from its own `ts`. */
  predicate IsInThread(m: Msg) {
    m.threadTs.Some? && m.threadTs.value != m.ts
  }

  /** `is_thread_root`: the message carries a `thread_ts` equal to its own `ts`. */
  predicate IsThreadRoot(m: Msg) {
    m.threadTs.Some? && m.threadTs.value == m.ts
  }

  /** The test `in_existing_thread` of `reply_to_message`. */
  predicate InExistingThread(m: Msg) {
    IsInThread(m) || (m.threadTs.Some? && m.threadTs.value == m.ts)
  }

  /** The `thread_ts` the reply is posted with: the thread's root for a thread message, else the message itself. */
  function ReplyTarget(m: Msg): int {
    if InExistingThread(m) then m.threadTs.value else m.ts
  }

  /**
   * A message is never both a thread reply and a thread root, and it is
   * neither exactly when it has no `thread_ts`.
   */
  lemma Classification(m: Msg)
    ensures !(IsInThread(m) && IsThreadRoot(m))
    ensures !IsInThread(m) && !IsThreadRoot(m) <==> m.threadTs.None?
    ensures InExistingThread(m) <==> IsInThread(m) || IsThreadRoot(m)
  {
  }

  /**
   * A message with a `thread_ts` (root or reply) is answered in that thread;
   * a message without one gets a new thread under its own `ts`; a thread
   * reply is never answered under its own `ts`.
   */
  lemma ReplyAddressing(m: Msg)
    ensures m.threadTs.Some? ==> ReplyTarget(m) == m.threadTs.value
    ensures m.threadTs.None? ==> ReplyTarget(m) == m.ts
    ensures IsInThread(m) ==> ReplyTarget(m) != m.ts
    ensures IsThreadRoot(m) ==> ReplyTarget(m) == m.ts
  {
  }

  function OrElse(o: Option<string>, default: string): string {
    if o.Some? then o.value else default
  }

  /** One context line `<@user>: text`, with `unknown` for a missing user and an empty text for a missing one. */
  function FormatLine(m: Msg): string {
    "<@" + OrElse(m.user, "unknown") + ">: " + OrElse(m.text, "")
  }

  /** The formatted lines of a thread, one per message, in the order fetched. */
  function Lines(ms: seq<Msg>): (r: seq<string>)
    ensures |r| == |ms|
    ensures forall i :: 0 <= i < |ms| ==> r[i] == FormatLine(ms[i])
  {
    if ms == [] then [] else Lines(ms[..|ms| - 1]) + [FormatLine(ms[|ms| - 1])]
  }

  /** Python's `'\n'.join(lines)`. */
  function JoinLines(lines: seq<string>): string {
    if lines == [] then ""
    else if |lines| == 1 then lines[0]
    else lines[0] + "\n" + JoinLines(lines[1..])
  }

  /** Python's `s.split('\n')`, the inverse of `JoinLines`. */
  function SplitLines(s: string): (r: seq<string>)
    ensures |r| > 0
  {
    if s == [] then [""]
    else if s[0] == '\n' then [""] + SplitLines(s[1..])
    else
      var rest := SplitLines(s[1..]);
      [[s[0]] + rest[0]] + rest[1..]
  }

  predicate NoNewline(s: string) {
    forall i :: 0 <= i < |s| ==> s[i] != '\n'
  }

  /** The context a fetch of the thread gives: its lines joined, or nothing when the fetch failed. */
  function Context(fetched: Result<seq<Msg>>): string {
    if fetched.Failure? then "" else JoinLines(Lines(fetched.value))
  }

  /**
   * `get_thread_context` once `conversations_replies` has answered: formats
   * each fetched message as a line and joins the lines with newlines; a
   * failed fetch gives the empty context.
   */
  method ThreadContext(fetched: Result<seq<Msg>>) returns (context: string)
    ensures context == Context(fetched)
  {
    if fetched.Failure? {
      return "";
    }
    var messages := fetched.value;
    var lines: seq<string> := [];
    for i := 0 to |messages|
      invariant lines == Lines(messages[..i])
    {
      assert messages[..i + 1][..i] == messages[..i];
      lines := lines + [FormatLine(messages[i])];
    }
    assert messages[..|messages|] == messages;
    context := JoinLines(lines);
  }

  lemma {:induction false} SplitWithoutNewline(a: string)
    requires NoNewline(a)
    ensures SplitLines(a) == [a]
    decreases |a|
  {
    if a != [] {
      SplitWithoutNewline(a[1..]);
      assert [a[0]] + a[1..] == a;
    }
  }

  lemma {:induction false} SplitAfterLine(a: string, b: string)
    requires NoNewline(a)
    ensures SplitLines(a + "\n" + b) == [a] + SplitLines(b)
    decreases |a|
  {
    if a == [] {
      assert a + "\n" + b == "\n" + b;
      assert ("\n" + b)[1..] == b;
    } else {
      var s := a + "\n" + b;
      assert s[1..] == a[1..] + "\n" + b;
      SplitAfterLine(a[1..], b);
      assert [a[0]] + a[1..] == a;
    }
  }

  /** Splitting the joined lines at the newlines gives the lines back, when none of them holds a newline. */
  lemma {:induction false} SplitJoin(lines: seq<string>)
    requires |lines| > 0
    requires forall i :: 0 <= i < |lines| ==> NoNewline(lines[i])
    ensures SplitLines(JoinLines(lines)) == lines
    decreases |lines|
  {
    if |lines| == 1 {
      SplitWithoutNewline(lines[0]);
    } else {
      SplitAfterLine(lines[0], JoinLines(lines[1..]));
      SplitJoin(lines[1..]);
      assert [lines[0]] + lines[1..] == lines;
    }
  }

  /**
   * The context holds one line per fetched message, in the order fetched,
   * whenever no user or text holds a newline.
   */
  lemma ContextLines(ms: seq<Msg>)
    requires |ms| > 0
    requires forall i :: 0 <= i < |ms| ==> NoNewline(FormatLine(ms[i]))
    ensures SplitLines(Context(Success(ms))) == Lines(ms)
    ensures forall i :: 0 <= i < |ms| ==> SplitLines(Context(Success(ms)))[i] == FormatLine(ms[i])
  {
    SplitJoin(Lines(ms));
  }
}
