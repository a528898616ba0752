# Slack keyword monitors, modelled in Dafny

The repository has two small bots. Each one polls one Slack channel and
answers every message that mentions a trigger keyword (by default `bugbot`):

- `SlackKeywordMonitor` (`slack/slack_monitor.py`) answers under the
  message's own timestamp.
- `ThreadedSlackKeywordMonitor` (`slack/threaded_slack_monitor.py`) answers
  inside the thread a message belongs to, quoting that thread. It opens a
  new thread under a message that belongs to none.

Each poll does four things:

1. It fetches the channel history from a watermark (`last_timestamp`).
2. It keeps only the messages strictly newer than the watermark, then moves
   the watermark to the newest of them.
3. It selects the messages whose lower-cased text contains the keyword.
4. It posts a reply to each selected message, echoing the text with the
   keyword removed (`clean_message`). Then it counts down to the next poll
   in slices of at most five seconds.

The Dafny modules follow that structure:

| module | file | what it holds |
|---|---|---|
| `Messages` | messages.dfy | messages, the optional fields, and the outcome of a platform call |
| `Text` | text.dfy | ASCII whitespace and lower case, substring containment |
| `Clean` | clean.dfy | `clean_message` as two `re.sub` scans and a strip, and its properties |
| `CleanExamples` | clean_examples.dfy | the nine `clean_message` cases of the test script, proved |
| `Keyword` | keyword.dfy | `find_keyword_messages` and its selection properties |
| `Watermark` | watermark.dfy | the loop of `get_new_messages` and the watermark properties |
| `Threads` | threads.dfy | thread classification, where a reply goes, and the rendering of a thread's context |
| `Countdown` | countdown.dfy | the countdown loop of `run` |
| `SlackMonitor` | slack_monitor.dfy | class `KeywordMonitor`, holding the watermark of the plain monitor |
| `ThreadedSlackMonitor` | threaded_slack_monitor.dfy | class `ThreadedKeywordMonitor`, holding the watermark of the threaded monitor |

The two Python files contain identical copies of:

- `clean_message`
- `get_new_messages`
- `find_keyword_messages`
- the countdown

Each copy is modelled once. Both classes call the same copy.

Modelling choices:

- **Timestamps.** A message timestamp is an integer number of microseconds.
  The monitors compare `float(ts)`, which orders these decimal strings the
  same way.
- **Platform calls.** `conversations_history` and `conversations_replies` are
  parameters of type `int -> Result<seq<Msg>>`: a function from the requested
  timestamp to either the messages or a `SlackApiError`. The current time is
  a parameter `now`. In a poll of the threaded monitor, `repliesOf(i)` is
  what `conversations_replies` answers for the `i`-th reply. Each reply
  fetches its thread anew, after the replies before it were posted, so the
  answers may differ from one reply to the next.
- **Replies.** A posted reply is a `Reply(threadTs, text)` value: what
  `chat_postMessage` is asked to post.

## Model

| member | source | states |
|---|---|---|
| Text.ContainsIff | slack/threaded_slack_monitor.py:121 | `Text.Contains` models `in`; `keyword in text` holds exactly when the keyword occurs as a contiguous block at some index of the text |
| Clean.SubstituteRemovesKeyword | slack/threaded_slack_monitor.py:43-44 | `Clean.Substitute` models the first `re.sub` scan; the first substitution leaves no case-insensitive occurrence of a keyword without whitespace |
| Clean.SubstituteSameKeyword | slack/threaded_slack_monitor.py:44 | `Clean.MatchesAt` models the `re.IGNORECASE` match of the keyword at one position; keywords that agree ignoring case give the same first substitution (`re.IGNORECASE`) |
| Clean.LowerKeepsScannable | slack/threaded_slack_monitor.py:20 | a keyword the constructor accepts stays non-empty with a non-whitespace first character after lower-casing |
| Clean.CleanMessageIgnoresKeywordCase | slack/threaded_slack_monitor.py:20 | lower-casing the keyword at construction does not change what `clean_message` returns |
| Clean.NormalizeIsNormal | slack/threaded_slack_monitor.py:46 | `Clean.Collapse` and `Clean.Normalize` model the second `re.sub` and the strip, and `Text.IsSpace` models `\s` and `str.isspace()`; collapsing whitespace runs and stripping leaves only single plain spaces, each between two non-whitespace characters |
| Clean.NormalizeFixesNormal | slack/threaded_slack_monitor.py:46 | text already in that form comes back unchanged from the collapse and strip |
| Clean.StripPadding | slack/threaded_slack_monitor.py:46 | `Clean.Strip` models `str.strip()`; `strip()` removes whitespace padding on both sides and keeps a word whose ends are not whitespace |
| Clean.CleanMessageRemovesKeyword | slack/slack_monitor.py:34-43 | `Clean.CleanMessage` models `clean_message`; the cleaned text is in normal form; for a keyword without whitespace it holds no occurrence of the keyword in any letter case |
| Clean.CleanMessageWithoutKeyword | slack/threaded_slack_monitor.py:38-47 | a text without the keyword is only normalised, so a text already normal comes back unchanged |
| Clean.CleanMessageIdempotent | slack/threaded_slack_monitor.py:38-47 | for a keyword without whitespace, cleaning an already cleaned text changes nothing |
| CleanExamples.KeywordFirst | test_slack_monitor.py:15 | "bugbot this is a test" is cleaned to "this is a test" |
| CleanExamples.KeywordInside | test_slack_monitor.py:16 | "this is bugbot a test" is cleaned to "this is a test" |
| CleanExamples.KeywordLast | test_slack_monitor.py:17 | "this is a test bugbot" is cleaned to "this is a test" |
| CleanExamples.ExtraWhitespace | test_slack_monitor.py:18 | "  bugbot   this   is   a   test  " is cleaned to "this is a test" |
| CleanExamples.UpperCase | test_slack_monitor.py:19 | "BUGBOT case insensitive" is cleaned to "case insensitive" |
| CleanExamples.NoKeywordHere | test_slack_monitor.py:20 | "no keyword here" comes back unchanged |
| CleanExamples.JustTheKeyword | test_slack_monitor.py:21 | "bugbot" is cleaned to the empty text |
| CleanExamples.Duplicate | test_slack_monitor.py:22 | "bugbot bugbot duplicate" is cleaned to "duplicate" |
| CleanExamples.BeforeAfter | test_slack_monitor.py:23 | "before bugbot after" is cleaned to "before after" |
| Keyword.Matching | slack/threaded_slack_monitor.py:114-124 | the selection is no longer than the batch, and every selected message has a text whose lower-cased form contains the keyword |
| Keyword.MatchingMembers | slack/threaded_slack_monitor.py:120-122 | `Keyword.Mentions` models the test of one message, and `Text.LowerStr`/`Lower` model `str.lower()`; a message is selected exactly when it is in the batch and its lower-cased text contains the keyword |
| Keyword.FindKeywordMessages | slack/slack_monitor.py:82-92 | the loop returns exactly the selection, in batch order |
| Keyword.MatchingPositions | slack/slack_monitor.py:88-90 | the selected messages sit at strictly increasing batch positions, and a position is selected exactly when its message mentions the keyword |
| Keyword.MentionsIffMatch | slack/threaded_slack_monitor.py:121 | for a lower-case keyword, the filter's substring test agrees with the cleaner's case-insensitive match |
| Keyword.MentionedInQuestion | test_slack_monitor.py:38 | "Hey bugbot can you help?" is selected |
| Keyword.MentionedInUpperCase | test_slack_monitor.py:39 | "BUGBOT uppercase test" is selected |
| Keyword.NotMentioned | test_slack_monitor.py:40 | "No keyword here" is not selected |
| Keyword.MentionedInMiddle | test_slack_monitor.py:41 | "This has bugbot in the middle" is selected |
| Watermark.Accepted | slack/threaded_slack_monitor.py:95-98 | the new messages are no more than the batch, and each is strictly newer than the watermark |
| Watermark.AcceptedMembers | slack/threaded_slack_monitor.py:95-98 | `Watermark.Newer` models the timestamp comparison; a message is new exactly when it is in the batch and newer than the watermark (or no watermark is set) |
| Watermark.AcceptedPositions | slack/threaded_slack_monitor.py:95-98 | the new messages keep the order received, and each received message newer than the watermark appears once, at its own position |
| Watermark.MaxTs | slack/threaded_slack_monitor.py:101-102 | the tracked maximum bounds every timestamp of the list and is one of them |
| Watermark.TrackNewest | slack/threaded_slack_monitor.py:101-102 | replacing the maximum whenever a larger timestamp arrives gives the largest timestamp accepted so far |
| Watermark.ScanBatch | slack/threaded_slack_monitor.py:91-106 | the loop returns exactly the new messages in batch order, and the watermark it reaches |
| Watermark.AdvancedMonotone | slack/slack_monitor.py:72-74 | `Watermark.Advanced` models the watermark update; once set, the watermark never moves back and is never unset |
| Watermark.AdvancedUnchangedIffNothingNew | slack/slack_monitor.py:72-74 | the watermark stays where it was exactly when no message is new |
| Watermark.AdvancedIsNewest | slack/threaded_slack_monitor.py:104-106 | when something is new, the watermark becomes the largest timestamp among the new messages |
| Watermark.NoRedelivery | slack/threaded_slack_monitor.py:83-98 | every message accepted by a poll is strictly newer than every message accepted by the poll before it |
| Watermark.InclusiveBoundaryDropped | slack/threaded_slack_monitor.py:85-97 | `Watermark.Oldest` models the `oldest` bound of the fetch; of a batch fetched inclusively from the watermark, exactly the messages at the watermark are dropped |
| Watermark.ExampleBatch | slack/slack_monitor.py:59-76 | timestamps 5, 3, 7 read against watermark 2 are all accepted, and the watermark moves to 7 |
| Threads.Classification | slack/threaded_slack_monitor.py:126-144 | `Threads.IsInThread`/`IsThreadRoot` model `is_in_thread`/`is_thread_root`, and `Threads.InExistingThread` models the `in_existing_thread` test of line 163; no message is both a thread reply and a thread root; it is neither exactly when it has no `thread_ts`; "in an existing thread" means one of the two |
| Threads.ReplyAddressing | slack/threaded_slack_monitor.py:161-201 | `Threads.ReplyTarget` models the choice of `thread_ts`; a message with a `thread_ts` is answered in that thread, a message without one under its own `ts`, and a thread reply never under its own `ts` |
| Threads.Lines | slack/threaded_slack_monitor.py:62-68 | `Threads.FormatLine` models the line of one message, and `Threads.OrElse` the defaults of `msg.get`; one line `<@user>: text` per fetched message, in order, with `unknown` and the empty text for missing fields |
| Threads.ThreadContext | slack/threaded_slack_monitor.py:49-75 | `Threads.Context` models `get_thread_context`; the loop renders the fetched messages and joins them with newlines; a failed fetch gives the empty context |
| Threads.SplitJoin | slack/threaded_slack_monitor.py:71 | `Threads.JoinLines` models `'\n'.join`; for a non-empty list of lines, splitting the joined context at newlines gives back the lines, when no line holds a newline |
| Threads.ContextLines | slack/threaded_slack_monitor.py:60-71 | for a non-empty fetch in which no user or text contains a newline, the context holds exactly one line per fetched message, in the order fetched |
| Countdown.Wait | slack/threaded_slack_monitor.py:231-239 | `Countdown.Schedule`/`Announced` model the sleeps and the announcements; the loop sleeps the slices of `Schedule` and announces the times of `Announced` |
| Countdown.ScheduleShape | slack/slack_monitor.py:140-147 | for a non-negative interval (a negative one takes no slices), the wait takes ceil(interval/5) slices; each lasts more than zero and at most five seconds, all but the last exactly five; together they last the interval |
| Countdown.AnnouncedShape | slack/slack_monitor.py:142-143 | the last announcement is at most five seconds; a multiple of five announces every remaining time, any other interval only its last one |
| SlackMonitor.KeywordMonitor.constructor | slack/slack_monitor.py:19-22 | the keyword is lower-cased once, and no watermark is set |
| SlackMonitor.KeywordMonitor.GetNewMessages | slack/slack_monitor.py:45-80 | a successful fetch from `Oldest` returns the new messages and advances the watermark; a failed fetch returns nothing and leaves the watermark alone |
| SlackMonitor.KeywordMonitor.ReplyTo | slack/slack_monitor.py:94-113 | `SlackMonitor.ReplyText` models the reply template; the reply is posted under the message's own `ts` |
| SlackMonitor.KeywordMonitor.ReplyToAll | slack/slack_monitor.py:136-137 | one reply per selected message, in order |
| SlackMonitor.KeywordMonitor.PollCycle | slack/slack_monitor.py:127-137 | one poll replies exactly to the new messages that mention the keyword, in order; the watermark advances to the newest accepted message on a successful fetch and stays put on a failed one |
| SlackMonitor.ReplyIgnoresThread | slack/slack_monitor.py:109-113 | the plain monitor's reply does not depend on the message's `thread_ts` |
| SlackMonitor.EchoedInput | slack/slack_monitor.py:103-106 | the reply text echoes the cleaned input, which is normal and, for a keyword without whitespace, free of the keyword |
| ThreadedSlackMonitor.ThreadedKeywordMonitor.constructor | slack/threaded_slack_monitor.py:19-22 | the keyword is lower-cased once, and no watermark is set |
| ThreadedSlackMonitor.ThreadedKeywordMonitor.GetNewMessages | slack/threaded_slack_monitor.py:77-112 | a successful fetch from `Oldest` returns the new messages and advances the watermark; a failed fetch returns nothing and leaves the watermark alone |
| ThreadedSlackMonitor.ThreadedKeywordMonitor.ReplyFor | slack/threaded_slack_monitor.py:161-202 | the reply goes to the thread `ReplyTarget` names |
| ThreadedSlackMonitor.ThreadedKeywordMonitor.ReplyToMessage | slack/threaded_slack_monitor.py:146-210 | a message without text gets no reply, since the error is swallowed; any other message gets the reply of `ReplyFor` |
| ThreadedSlackMonitor.ThreadedKeywordMonitor.ReplyToAll | slack/threaded_slack_monitor.py:228-229 | one reply per selected message, in order, each quoting its own thread fetch |
| ThreadedSlackMonitor.ThreadedKeywordMonitor.PollCycle | slack/threaded_slack_monitor.py:219-229 | one poll replies exactly to the new messages that mention the keyword, in order, each in the thread `ReplyTarget` names and quoting that reply's own thread fetch; the watermark advances to the newest accepted message on a successful fetch and stays put on a failed one |
| ThreadedSlackMonitor.ReplyTemplate | slack/threaded_slack_monitor.py:167-193 | `ThreadedSlackMonitor.InThreadText`/`NewThreadText` model the two f-strings; a message with a `thread_ts` gets the in-thread text quoting its thread, and one without gets the new-thread text |
| ThreadedSlackMonitor.EchoedInput | slack/threaded_slack_monitor.py:159-193 | either reply text echoes the cleaned input, which is normal and, for a keyword without whitespace, free of the keyword |
| ThreadedSlackMonitor.FailedContextStillReplies | slack/threaded_slack_monitor.py:73-75 | when the thread cannot be fetched, the reply is still posted in the thread, with an empty context |

## Left out

- **Startup and I/O.** The model does not read the bot token file, build the
  `WebClient`, read the channel id, or run `main`. The `print` output,
  including the countdown messages, is left out. `Countdown.Wait` returns the
  announced times instead.
- **The clock.** `time.time()` is the parameter `now`, and `time.sleep` is
  the list of slice lengths `Countdown.Wait` returns.
- **The poll loop.** The endless `while True` of `run` is one `PollCycle`.
  `KeyboardInterrupt` ends the loop and is left out. So is the
  `except Exception` branch that sleeps a whole interval: in the model no
  step of a poll raises.
- **What `chat_postMessage` answers.** A post that fails with
  `SlackApiError` is only printed by the source, so the model keeps the reply
  that was asked for.
- **`thread_contexts`.** The threaded monitor initialises this dictionary
  but never uses it.
- **Other code.** The `jira_automation` package and `slack/run_example.py`
  are not part of this model.
- **Timestamps.** A timestamp is an exact integer of microseconds.
  Rounding in the float conversion of longer timestamp strings is not
  modelled.
- **Character classes.** Whitespace and lower case are ASCII only:
  - whitespace is the characters 9-13, 28-31 and 32, for which `\s` and
    `str.isspace()` agree;
  - Unicode whitespace, and Unicode case mapping in `lower()` and
    `re.IGNORECASE`, are not modelled.
- Clean.CleanMessage: requires a keyword that is non-empty and does not
  start with whitespace (`ScannableKeyword`). Both constructors require the
  same.
  - An empty pattern would match between every two characters.
  - With a leading `\s` in the keyword, the leading `\s*` would backtrack.
  - The scan does not model either case.
- Clean.CleanMessageRemovesKeyword: the keyword-free half holds for keywords
  without whitespace only. With inner whitespace, collapsing a run can create
  a new occurrence.
- SlackMonitor.KeywordMonitor.ReplyTo: requires the message to have a text.
  In the plain monitor a missing `text` raises a `KeyError` that
  `reply_to_message` does not catch. The selection never passes such a
  message, because `find_keyword_messages` checks for `text` first.
