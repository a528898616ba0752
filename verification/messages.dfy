/**
 * The values the two keyword monitors exchange with the chat platform:
 * channel messages, the optional fields a message may lack, and the
 * outcome of a platform call that may fail.
 */
module Messages {

  datatype Option<+T> = None | Some(value: T)

  /** The error a platform call raises (SlackApiError in the monitors). */
  datatype ApiError = ApiError(reason: string)

  /** A platform call either answers or raises an ApiError. */
  datatype Result<+T> = Success(value: T) | Failure(error: ApiError)

  /**
   * One channel message as the history and replies calls return it.
   * `ts` is the message timestamp, an integer number of microseconds
   * (the platform sends it as a decimal string of seconds that the monitors
   * compare as a float). `text`, `user` and `threadTs` are keys the message
   * dictionary may lack; `threadTs` is present for thread roots (equal to
   * `ts`) and thread replies (the root's `ts`).
   */
  datatype Msg = Msg(ts: int, text: Option<string>, user: Option<string>, threadTs: Option<int>)

  /** What `chat_postMessage` is asked to post: the thread to post into and the text. */
  datatype Reply = Reply(threadTs: int, text: string)
}
