/**
 * One run of the scheduled dispatch task: when the acceptor has a session,
 * build the ExecutionReport and send it to the first session; otherwise wait
 * for a connection.
 *
 * Both handlers catch `Exception` only.  A failure of the send that is an
 * exception ends in a console line and the tick completes; a
 * `java.lang.Error` thrown by the send (an `OutOfMemoryError`, a
 * `NoClassDefFoundError`) passes both handlers, nothing is printed and the
 * task ends abruptly, after which `scheduleAtFixedRate` runs no further tick.
 *
 * The acceptor's session list is read twice (once to test it, once to take
 * its first element), so the tick takes both readings.  The outcome of
 * `Session.sendToTarget` and the clock reading are parameters.
 */
module Dispatch {
  import opened Wrappers
  import opened ExecutionReports

  /** A FIX session's identity: BeginString, SenderCompID and TargetCompID. */
  datatype SessionID = SessionID(beginString: string, senderCompId: string, targetCompId: string)

  /** What `Session.sendToTarget` does with the report. */
  datatype SendOutcome =
    | Sent
    | SessionNotFound(message: string)
    | SendFailed(message: string)     // any other `Exception`
    | ErrorThrown(message: string)    // a `java.lang.Error`, which no handler catches

  /** A message handed to `Session.sendToTarget`: the target and the report's content. */
  datatype Attempt = Attempt(target: SessionID, msgType: string, fields: map<Tag, string>, parties: seq<Party>)

  /** The console line a completed tick ends with. */
  datatype TickLog =
    | WaitForConnection
    | ReportSent
    | TargetNotFound(message: string)
    | ErrorSending(message: string)
    | SessionListEmptied

  /**
   * One tick.  `sessionsAtCheck` is the list tested for emptiness and
   * `sessionsAtGet` the list element 0 is taken from; `now` is the formatted
   * TransactTime and `send` what the send does.  `log` is the line the tick
   * ends with, or `None` when an error escapes the task, which then does not
   * complete.
   */
  method Tick(sessionsAtCheck: seq<SessionID>, sessionsAtGet: seq<SessionID>, now: string, send: SendOutcome)
    returns (attempts: seq<Attempt>, log: Option<TickLog>)
    ensures |attempts| <= 1
    ensures sessionsAtCheck == [] ==> attempts == [] && log == Some(WaitForConnection)
    ensures sessionsAtCheck != [] && sessionsAtGet == [] ==> attempts == [] && log == Some(SessionListEmptied)
    ensures sessionsAtCheck != [] && sessionsAtGet != [] ==>
      attempts == [Attempt(sessionsAtGet[0], "8", ReportFields(now), ReportParties())]
    ensures sessionsAtCheck != [] && sessionsAtGet != [] ==>
      log == match send
             case Sent => Some(ReportSent)
             case SessionNotFound(m) => Some(TargetNotFound(m))
             case SendFailed(m) => Some(ErrorSending(m))
             case ErrorThrown(_) => None
    ensures attempts != [] <==> sessionsAtCheck != [] && sessionsAtGet != []
    ensures log.None? <==> attempts != [] && send.ErrorThrown?
  {
    attempts := [];
    if sessionsAtCheck == [] {
      log := Some(WaitForConnection);
      return;
    }
    if sessionsAtGet == [] {
      // `get(0)` throws; the task's outer handler catches it before anything is sent.
      log := Some(SessionListEmptied);
      return;
    }
    var sessionId := sessionsAtGet[0];
    var report := BuildReport(now);
    attempts := [Attempt(sessionId, report.msgType, report.fields, report.parties)];
    match send
    case Sent =>
      log := Some(ReportSent);
    case SessionNotFound(m) =>
      log := Some(TargetNotFound(m));
    case SendFailed(m) =>
      log := Some(ErrorSending(m));
    case ErrorThrown(_) =>
      // Neither `catch (Exception e)` matches: the error leaves the task.
      log := None;
  }
}
