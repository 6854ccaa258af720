/** `service_request` (services.c): reads one request and hands it to the
    handler its text selects. */
module Services {
  import opened Assist
  import opened CStrings
  import opened Communication
  import opened ServicesUtilities

  /** The handlers a request can reach, named after the text that selects
      them; `Command` is `execute_request`, which takes everything else. */
  datatype Verb =
    | ConsoleLogsRequest | ConsoleLogsClear | AssistBoardHealth
    | AssistBoardReserveStatus | AssistBoardReserve | AssistBoardUnreserve | AssistBoardReboot
    | StartProcess | CheckProcessRunning | KillRunningProcess
    | Command

  /** The text that selects each verb. */
  function VerbText(v: Verb): string
    requires v != Command
  {
    match v
    case ConsoleLogsRequest => "ConsoleLogsRequest"
    case ConsoleLogsClear => "ConsoleLogsClear"
    case AssistBoardHealth => "AssistBoardHealth"
    case AssistBoardReserveStatus => "AssistBoardReserveStatus"
    case AssistBoardReserve => "AssistBoardReserve"
    case AssistBoardUnreserve => "AssistBoardUnreserve"
    case AssistBoardReboot => "AssistBoardReboot"
    case StartProcess => "StartProcess"
    case CheckProcessRunning => "CheckProcessRunning"
    case KillRunningProcess => "KillRunningProcess"
  }

  /** The chain of comparisons `service_request` makes, in its order: `strcmp`
      for the first seven verbs, `strstr` for the three process verbs.
      `readyToUse` says whether READY_TO_USE is defined; without it only the
      first three verbs are compared. */
  function SelectVerb(request: string, readyToUse: bool): Verb
  {
    if request == "ConsoleLogsRequest" then ConsoleLogsRequest
    else if request == "ConsoleLogsClear" then ConsoleLogsClear
    else if request == "AssistBoardHealth" then AssistBoardHealth
    else if !readyToUse then Command
    else if request == "AssistBoardReserveStatus" then AssistBoardReserveStatus
    else if request == "AssistBoardReserve" then AssistBoardReserve
    else if request == "AssistBoardUnreserve" then AssistBoardUnreserve
    else if request == "AssistBoardReboot" then AssistBoardReboot
    else if Contains(request, "StartProcess") then StartProcess
    else if Contains(request, "CheckProcessRunning") then CheckProcessRunning
    else if Contains(request, "KillRunningProcess") then KillRunningProcess
    else Command
  }

  /** What the environment supplies to a handler: `system`'s status, the
      output a command adds to the console log, whether `fopen` and
      `fclose` succeed, and the values `write` returns. */
  datatype Env = Env(status: int, output: seq<char>, openOk: bool, closeOk: bool, writes: seq<int>)

  /** Running the handler of `v` on `request`. Whatever the request and the
      environment, the handler sends at most one reply, and a final one, so
      the client's read stops on it; only the reservation handlers touch the flag, only
      clearing and executing touch the log, and only the handlers that call
      `system` add commands. */
  function HandlerStep(v: Verb, b: Board, request: string, e: Env): (s: Step)
    requires NoNul(request)
    ensures RepliesOnce(b, s)
    ensures !TouchesFlag(v) ==> s.after.reserve == b.reserve
    ensures !TouchesLog(v) ==> s.after.log == b.log
    ensures !CallsSystem(v) ==> s.after.commands == b.commands
  {
    match v
    case ConsoleLogsRequest => RequestLogsStep(b, e.writes)
    case ConsoleLogsClear => ClearStep(b, e.openOk, e.closeOk, e.writes)
    case AssistBoardHealth => HealthStep(b, e.writes)
    case AssistBoardReserveStatus => CheckReserveStep(b, e.writes)
    case AssistBoardReserve => ReserveStep(b, e.writes)
    case AssistBoardUnreserve => UnreserveStep(b, e.writes)
    case AssistBoardReboot => RebootStep(b, e.status, e.writes)
    case StartProcess => StartStep(b, request, e.status, e.writes)
    case CheckProcessRunning => CheckProcessStep(b, request, e.status, e.writes)
    case KillRunningProcess => KillStep(b, request, e.status, e.writes)
    case Command => ExecuteStep(b, request, e.status, e.output, e.writes)
  }

  /** The handlers that write the reservation flag. */
  predicate TouchesFlag(v: Verb)
  {
    v.AssistBoardReserve? || v.AssistBoardUnreserve?
  }

  /** The handlers that change the console log. */
  predicate TouchesLog(v: Verb)
  {
    v.ConsoleLogsClear? || v.Command?
  }

  /** The handlers that hand a command to `system`. */
  predicate CallsSystem(v: Verb)
  {
    v.AssistBoardReboot? || v.StartProcess? || v.CheckProcessRunning? || v.KillRunningProcess? || v.Command?
  }

  /** The reply sent when `read_socket` returns NULL. */
  function ReadFailReply(): (r: string)
    ensures NoNul(r) && Contains(r, Sentinel)
  {
    Reply("Assist : read_" + "socket() fail. ")
  }

  /** `service_request` on what `read` returned. After a failed read the
      error reply is sent and then `strcmp` is handed NULL, so nothing
      after it is defined. */
  function ServiceStep(b: Board, len: int, data: seq<char>, readyToUse: bool, e: Env): Step
    requires len == -1 || (0 <= len <= MaxSize && |data| == len)
  {
    match ReceivedRequest(len, data)
    case ReadFailed => Step(Undefined, b.(replies := b.replies + [ReadFailReply()]))
    case ReadUndefined => Step(Undefined, b)
    case Request(request) => HandlerStep(SelectVerb(request, readyToUse), b, request, e)
  }

  // ---------------------------------------------------------------------
  // Properties of the dispatch

  /** Each verb's own text selects it when READY_TO_USE is defined; without
      it, only the first three do and the rest run as shell commands. */
  lemma {:induction false} VerbTextSelects(v: Verb)
    requires v != Command
    ensures SelectVerb(VerbText(v), true) == v
    ensures SelectVerb(VerbText(v), false) ==
      (if v in {ConsoleLogsRequest, ConsoleLogsClear, AssistBoardHealth} then v else Command)
  {
    match v
    case StartProcess => StartVerbSelects();
    case CheckProcessRunning => CheckVerbSelects();
    case KillRunningProcess => KillVerbSelects();
    case ConsoleLogsRequest =>
    case ConsoleLogsClear =>
    case AssistBoardHealth =>
    case AssistBoardReserveStatus => BoardVerbSelects(v);
    case AssistBoardReserve => BoardVerbSelects(v);
    case AssistBoardUnreserve => BoardVerbSelects(v);
    case AssistBoardReboot => BoardVerbSelects(v);
  }

  lemma BoardVerbSelects(v: Verb)
    requires v in {AssistBoardReserveStatus, AssistBoardReserve, AssistBoardUnreserve, AssistBoardReboot}
    ensures SelectVerb(VerbText(v), true) == v && SelectVerb(VerbText(v), false) == Command
  {
    var t := VerbText(v);
    assert t[..11] == "AssistBoard";
    assert t != "ConsoleLogsRequest" && t != "ConsoleLogsClear";
    assert "AssistBoardHealth"[11] == 'H' && t[11] in "RU";
  }

  lemma StartVerbSelects()
    ensures SelectVerb("StartProcess", true) == StartProcess
    ensures SelectVerb("StartProcess", false) == Command
  {
    ContainsSelf("StartProcess");
  }

  lemma CheckVerbSelects()
    ensures SelectVerb("CheckProcessRunning", true) == CheckProcessRunning
    ensures SelectVerb("CheckProcessRunning", false) == Command
  {
    var t := "CheckProcessRunning";
    assert t[1] == 'h';
    NotContained(t, "StartProcess", 'S');
    ContainsSelf(t);
  }

  lemma KillVerbSelects()
    ensures SelectVerb("KillRunningProcess", true) == KillRunningProcess
    ensures SelectVerb("KillRunningProcess", false) == Command
  {
    var t := "KillRunningProcess";
    assert t[0] == 'K';
    NotContained(t, "StartProcess", 'S');
    assert !Contains(t, "CheckProcessRunning");
    ContainsSelf(t);
  }

  /** A string does not occur where its first character does not. */
  lemma NotContained(s: string, p: string, c: char)
    requires |p| >= 1 && p[0] == c && c !in s
    ensures !Contains(s, p)
  {
    forall i | 0 <= i <= |s| - |p|
      ensures !OccursAt(s, p, i)
    {
      assert s[i..i + |p|][0] == s[i];
    }
  }

  /** In the build as shipped, READY_TO_USE is not defined: a request is
      one of the three fixed texts or is run as a command. */
  lemma DefaultBuildVerbs(request: string)
    ensures SelectVerb(request, false) in {ConsoleLogsRequest, ConsoleLogsClear, AssistBoardHealth, Command}
    ensures SelectVerb(request, false) == Command <==>
      request !in {"ConsoleLogsRequest", "ConsoleLogsClear", "AssistBoardHealth"}
  {
  }

  /** "<verb> <process>" hands the process handler exactly `process`: each
      handler's offset is the length of its verb plus the space. */
  lemma {:induction false} ProcessArgument(process: string)
    ensures ArgAt(VerbText(StartProcess) + " " + process, StartOffset) == Some(process)
    ensures ArgAt(VerbText(CheckProcessRunning) + " " + process, CheckOffset) == Some(process)
    ensures ArgAt(VerbText(KillRunningProcess) + " " + process, KillOffset) == Some(process)
  {
    ArgAfterVerb("StartProcess", process);
    ArgAfterVerb("CheckProcessRunning", process);
    ArgAfterVerb("KillRunningProcess", process);
  }

  /** The codes a handler can return; `execute_request` returns `system`'s
      status unchanged. */
  function Codes(v: Verb, status: int): (codes: set<int>)
    ensures Success in codes
  {
    match v
    case ConsoleLogsRequest => {Success, WriteSocketFail}
    case ConsoleLogsClear => {Success, FileOpenFail, FileCloseFail}
    case AssistBoardReboot => {Success, BoardRebootFail}
    case StartProcess => {Success, ProcessStartFail}
    case CheckProcessRunning => {Success, ProcessNotRunning}
    case KillRunningProcess => {Success, ProcessKillFail}
    case Command => {status, Success}
    case _ => {Success}
  }

  /** A defined outcome is one of the handler's codes: `execute_request`
      returns exactly `system`'s status, and a handler that runs a command
      succeeds exactly when `system` returns 0. */
  lemma {:induction false} HandlerCodes(v: Verb, b: Board, request: string, e: Env)
    requires NoNul(request)
    ensures var o := HandlerStep(v, b, request, e).outcome;
      o.Returned? ==> o.code in Codes(v, e.status)
    ensures var o := HandlerStep(v, b, request, e).outcome;
      v.Command? && o.Returned? ==> o.code == e.status
    ensures var o := HandlerStep(v, b, request, e).outcome;
      CallsSystem(v) && o.Returned? ==> (o.code == Success <==> e.status == 0)
  {
    match v
    case ConsoleLogsRequest =>
    case ConsoleLogsClear =>
    case AssistBoardHealth =>
    case AssistBoardReserveStatus =>
    case AssistBoardReserve =>
    case AssistBoardUnreserve =>
    case AssistBoardReboot =>
    case StartProcess =>
    case CheckProcessRunning =>
    case KillRunningProcess =>
    case Command =>
  }

  /** The whole request: whatever `read` returns, the client gets at most one
      reply and it is final; in the build as shipped the reservation flag
      never changes. */
  lemma {:induction false} ServiceReplies(b: Board, len: int, data: seq<char>, readyToUse: bool, e: Env)
    requires len == -1 || (0 <= len <= MaxSize && |data| == len)
    ensures RepliesOnce(b, ServiceStep(b, len, data, readyToUse, e))
    ensures !readyToUse ==> ServiceStep(b, len, data, readyToUse, e).after.reserve == b.reserve
    ensures len == -1 ==> ServiceStep(b, len, data, readyToUse, e).outcome == Undefined
  {
    match ReceivedRequest(len, data)
    case ReadFailed =>
      assert ServiceStep(b, len, data, readyToUse, e).after.replies == b.replies + [ReadFailReply()];
    case ReadUndefined =>
    case Request(request) =>
      if !readyToUse {
        DefaultBuildVerbs(request);
      }
  }

  /** Every handler can succeed: when `system` returns 0, the log file opens
      and closes, one `write` sends every byte, the log holds some short
      text and the request is 20 to 100 characters long, each handler
      returns SUCCESS. */
  lemma HandlerSucceeds(v: Verb, b: Board, request: string, e: Env)
    requires NoNul(request) && 20 <= |request| <= 100
    requires e.status == 0 && e.openOk && e.closeOk && e.writes == [MaxSize]
    requires 1 <= |Content(b.log)| <= 100
    ensures HandlerStep(v, b, request, e).outcome == Returned(Success)
  {
    if v.ConsoleLogsRequest? || v.ConsoleLogsClear? || v.AssistBoardHealth? || v.Command? {
      LogHandlersSucceed(v, b, request, e);
    } else if v.StartProcess? || v.CheckProcessRunning? || v.KillRunningProcess? {
      ProcessHandlersSucceed(v, b, request, e);
    } else {
      BoardHandlersSucceed(v, b, request, e);
    }
  }

  lemma LogHandlersSucceed(v: Verb, b: Board, request: string, e: Env)
    requires v.ConsoleLogsRequest? || v.ConsoleLogsClear? || v.AssistBoardHealth? || v.Command?
    requires NoNul(request) && |request| <= 100
    requires e.status == 0 && e.openOk && e.closeOk && e.writes == [MaxSize]
    requires 1 <= |Content(b.log)| <= 100
    ensures HandlerStep(v, b, request, e).outcome == Returned(Success)
  {
    match v
    case ConsoleLogsRequest =>
      var logs := CollectedLogs(b.log).value;
      assert |logs| <= 100 + 15;
      assert Send(logs, e.writes) == Sent(Success, [Piece(logs, 0)]);
    case ConsoleLogsClear =>
      SayStepSucceeds(b.(log := Present([])), Success, ClearPassReply(), MessageBufferSize);
    case AssistBoardHealth =>
      SayStepSucceeds(b, Success, HealthReply(), MessageBufferSize);
    case Command =>
      var b' := b.(log := Present(Content(b.log) + e.output), commands := b.commands + [ExecuteCommand(request)]);
      SayStepSucceeds(b', 0, ExecuteReply(Trimmed(request), 0), CommandBufferSize);
  }

  lemma BoardHandlersSucceed(v: Verb, b: Board, request: string, e: Env)
    requires v.AssistBoardReserveStatus? || v.AssistBoardReserve? || v.AssistBoardUnreserve? || v.AssistBoardReboot?
    requires NoNul(request) && e.status == 0 && e.writes == [MaxSize]
    ensures HandlerStep(v, b, request, e).outcome == Returned(Success)
  {
    match v
    case AssistBoardReserveStatus => ReserveStatusSucceeds(b);
    case AssistBoardReserve => ReserveSucceeds(b);
    case AssistBoardUnreserve => UnreserveSucceeds(b);
    case AssistBoardReboot => RebootSucceeds(b);
  }

  lemma ReserveStatusSucceeds(b: Board)
    ensures CheckReserveStep(b, [MaxSize]).outcome == Returned(Success)
  {
    var r := if b.reserve == ReserveAssist then ReservedReply() else NotReservedReply();
    SayStepSucceeds(b, Success, r, MessageBufferSize);
  }

  lemma ReserveSucceeds(b: Board)
    ensures ReserveStep(b, [MaxSize]).outcome == Returned(Success)
  {
    SayStepSucceeds(b.(reserve := ReserveNext(b.reserve)), Success, ReservedForYouReply(), MessageBufferSize);
  }

  lemma UnreserveSucceeds(b: Board)
    ensures UnreserveStep(b, [MaxSize]).outcome == Returned(Success)
  {
    var r := if b.reserve != UnreserveAssist then UnreservedReply() else UnreserveFailReply();
    SayStepSucceeds(b.(reserve := UnreserveNext(b.reserve)), Success, r, MessageBufferSize);
  }

  lemma RebootSucceeds(b: Board)
    ensures RebootStep(b, 0, [MaxSize]).outcome == Returned(Success)
  {
    SayStepSucceeds(b.(commands := b.commands + [RebootCommand]), Success, RebootReply(0), MessageBufferSize);
  }

  lemma ProcessHandlersSucceed(v: Verb, b: Board, request: string, e: Env)
    requires v.StartProcess? || v.CheckProcessRunning? || v.KillRunningProcess?
    requires NoNul(request) && 20 <= |request| <= 100
    requires e.status == 0 && e.writes == [MaxSize]
    ensures HandlerStep(v, b, request, e).outcome == Returned(Success)
  {
    match v
    case StartProcess => StartSucceeds(b, request);
    case CheckProcessRunning => CheckSucceeds(b, request);
    case KillRunningProcess => KillSucceeds(b, request);
  }

  lemma StartSucceeds(b: Board, request: string)
    requires NoNul(request) && 20 <= |request| <= 100
    ensures StartStep(b, request, 0, [MaxSize]).outcome == Returned(Success)
  {
    var arg := request[StartOffset..];
    SayStepSucceeds(b.(commands := b.commands + [arg]), Success, StartReply(arg, 0), MessageBufferSize);
  }

  lemma CheckSucceeds(b: Board, request: string)
    requires NoNul(request) && 20 <= |request| <= 100
    ensures CheckProcessStep(b, request, 0, [MaxSize]).outcome == Returned(Success)
  {
    var arg := request[CheckOffset..];
    SayStepSucceeds(b.(commands := b.commands + ["pidof -x " + arg]), Success, CheckReply(arg, 0), MessageBufferSize);
  }

  lemma KillSucceeds(b: Board, request: string)
    requires NoNul(request) && 20 <= |request| <= 100
    ensures KillStep(b, request, 0, [MaxSize]).outcome == Returned(Success)
  {
    var arg := request[KillOffset..];
    SayStepSucceeds(b.(commands := b.commands + ["pkill " + arg]), Success, KillReply(arg, 0), MessageBufferSize);
  }

  // ---------------------------------------------------------------------
  // service_request on the server's state

  method ServiceRequest(server: AssistServer, len: int, data: seq<char>, junk: seq<char>,
                        readyToUse: bool, e: Env)
    returns (outcome: Outcome)
    requires len == -1 || (0 <= len <= MaxSize && |data| == len)
    requires |junk| == MaxSize
    modifies server
    ensures var s := ServiceStep(old(server.State()), len, data, readyToUse, e);
      outcome == s.outcome && server.State() == s.after
  {
    var received := ReadSocket(len, data, junk);
    match received
    case ReadFailed =>
      var _ := server.Say(-1, ReadFailReply(), MaxSize, e.writes);
      // strcmp(NULL, ...)
      outcome := Undefined;
    case ReadUndefined =>
      outcome := Undefined;
    case Request(request) =>
      var v := SelectVerb(request, readyToUse);
      match v
      case ConsoleLogsRequest => outcome := server.RequestConsoleLogs(e.writes);
      case ConsoleLogsClear => outcome := server.ClearConsoleLogs(e.openOk, e.closeOk, e.writes);
      case AssistBoardHealth => outcome := server.HealthCheck(e.writes);
      case AssistBoardReserveStatus => outcome := server.CheckReserve(e.writes);
      case AssistBoardReserve => outcome := server.Reserve(e.writes);
      case AssistBoardUnreserve => outcome := server.Unreserve(e.writes);
      case AssistBoardReboot => outcome := server.Reboot(e.status, e.writes);
      case StartProcess => outcome := server.StartProcess(request, e.status, e.writes);
      case CheckProcessRunning => outcome := server.CheckProcessRunning(request, e.status, e.writes);
      case KillRunningProcess => outcome := server.KillRunningProcess(request, e.status, e.writes);
      case Command => outcome := server.ExecuteRequest(request, e.status, e.output, e.writes);
  }
}
