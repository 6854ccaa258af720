/** The request handlers of the assist server (services-utilities.c).

    Each handler formats its texts with `sprintf` into a stack buffer, may
    hand a command to `system`, and sends one reply with `write_socket`.
    `system`'s status, the output a command adds to the console log, the
    success of `fopen`/`fclose`, and the values `write` returns are
    parameters. A text too long for its buffer, a NULL handed to
    `write_socket`, an argument offset past the end of the request, and a
    send that reads before the start of its input are undefined behaviour in
    C and give the outcome `Undefined`. */
module ServicesUtilities {
  import opened Assist
  import opened CStrings
  import opened Communication

  /** The console log file: absent, or present with its bytes. */
  datatype LogFile = Missing | Present(content: seq<char>)

  /** The bytes of the log; a missing file reads as none. */
  function Content(log: LogFile): seq<char>
  {
    if log.Missing? then [] else log.content
  }

  /** What the handlers read and change: the console log, the reservation
      flag, and, in order, the commands handed to `system` and the texts
      handed to `write_socket`. */
  datatype Board = Board(log: LogFile, reserve: int, commands: seq<string>, replies: seq<string>)

  /** A handler's result and the board after it. */
  datatype Step = Step(outcome: Outcome, after: Board)

  /** A reply the client reads to its end: no NUL cuts it short, and it
      holds the sentinel `client_read_socket` waits for. */
  predicate Final(r: string)
  {
    NoNul(r) && Contains(r, Sentinel)
  }

  /** A step either sends nothing and has no defined outcome, or sends
      exactly one final reply after those sent before. */
  predicate RepliesOnce(b: Board, s: Step)
  {
    (s.after.replies == b.replies && s.outcome.Undefined?)
    || (|s.after.replies| == |b.replies| + 1 && s.after.replies[..|b.replies|] == b.replies
        && Final(s.after.replies[|b.replies|]))
  }

  /** The log, the flag and the commands are as in `b`. */
  predicate SameExceptReplies(b: Board, a: Board)
  {
    a.log == b.log && a.reserve == b.reserve && a.commands == b.commands
  }

  /** Size of `execute_request`'s buffer. */
  const CommandBufferSize: nat := 1024

  /** Size of every other handler's buffer. */
  const MessageBufferSize: nat := 256

  /** Formatting `reply` into a buffer of `size` bytes, sending it, and
      returning `code` whatever `write_socket` returns. */
  function SayStep(b: Board, code: int, reply: string, size: nat, writes: seq<int>): (s: Step)
    ensures |reply| >= size ==> s == Step(Undefined, b)
    ensures |reply| < size ==> s.after == b.(replies := b.replies + [reply])
    ensures |reply| < size ==> (s.outcome == Returned(code) <==> !Send(reply, writes).Underflow?)
    ensures Final(reply) ==> RepliesOnce(b, s)
    ensures SameExceptReplies(b, s.after) && (s.outcome.Returned? ==> s.outcome.code == code)
  {
    if |reply| >= size then Step(Undefined, b)
    else
      var b' := b.(replies := b.replies + [reply]);
      if Send(reply, writes).Underflow? then Step(Undefined, b') else Step(Returned(code), b')
  }

  /** A reply that fits its buffer and one piece, sent by one `write` that
      sends every byte, returns the handler's code. */
  lemma SayStepSucceeds(b: Board, code: int, reply: string, size: nat)
    requires |reply| < size && |reply| <= PieceCapacity
    ensures SayStep(b, code, reply, size, [MaxSize]).outcome == Returned(code)
  {
    assert Send(reply, [MaxSize]) == Sent(Success, [Piece(reply, 0)]);
  }

  /** A reply: its text, then the sentinel that ends every message. */
  function Reply(head: string): (r: string)
    ensures NoNul(head) ==> NoNul(r)
    ensures Contains(r, Sentinel) && |r| == |head| + |Sentinel| && r[..|head|] == head
  {
    assert NoNul(Sentinel);
    ContainsEnd(head, Sentinel);
    head + Sentinel
  }

  /** A text whose tail carries the sentinel carries it too. */
  lemma SentinelInTail(head: string, tail: string)
    requires Contains(tail, Sentinel)
    ensures Contains(head + tail, Sentinel)
  {
    ContainsEnd(head, tail);
    ContainsTransitive(head + tail, tail, Sentinel);
  }

  // ---------------------------------------------------------------------
  // execute_request

  /** The redirection `execute_request` appends to every command. */
  const LogRedirect: string := " 2>&1 >> " + ConsoleLogFile

  /** A request holding '&' anywhere runs in the background. */
  predicate InBackground(request: string)
  {
    '&' in request
  }

  /** The request after `request[strlen(request) - 1] = '\0'`, which a
      background request undergoes: its last character goes, whatever it is. */
  function Trimmed(request: string): (t: string)
    ensures NoNul(request) ==> NoNul(t)
  {
    if InBackground(request) then
      assert forall c :: c in request[..|request| - 1] ==> c in request;
      request[..|request| - 1]
    else request
  }

  function ExecuteCommand(request: string): string
  {
    if InBackground(request) then Trimmed(request) + LogRedirect + " &"
    else request + LogRedirect
  }

  /** "pass" for status SUCCESS, "fail" for any other. */
  function Verdict(status: int): (v: string)
    ensures |v| == 4 && NoNul(v)
  {
    if status != Success then "fail" else "pass"
  }

  /** The reply up to the status: the request quoted, the verdict. */
  function ExecutePrefix(request: string, status: int): (p: string)
    requires NoNul(request)
    ensures NoNul(p) && |p| == |request| + 38
  {
    "Execution of \"" + request + "\" " + Verdict(status) + ". Return value " + "is "
  }

  /** What follows the status: the sentinel and a newline. */
  function ExecuteSuffix(): (t: string)
    ensures NoNul(t) && Contains(t, Sentinel) && |t| == 17
  {
    assert NoNul(Sentinel);
    ContainsMiddle(". ", Sentinel, "\n");
    ". " + Sentinel + "\n"
  }

  function ExecuteReply(request: string, status: int): (r: string)
    requires NoNul(request)
    ensures NoNul(r) && Contains(r, Sentinel)
  {
    SentinelInTail(ExecutePrefix(request, status) + IntToString(status), ExecuteSuffix());
    ExecutePrefix(request, status) + IntToString(status) + ExecuteSuffix()
  }

  /** `execute_request`: `system` runs the command, the shell appends
      `output` to the console log, the reply reports the status, and the
      status comes back unchanged. */
  function ExecuteStep(b: Board, request: string, status: int, output: seq<char>, writes: seq<int>): (s: Step)
    requires NoNul(request)
    ensures RepliesOnce(b, s) && s.after.reserve == b.reserve
    ensures s.outcome.Returned? ==>
      (s.outcome.code == status && s.after.log == Present(Content(b.log) + output)
       && s.after.commands == b.commands + [ExecuteCommand(request)])
  {
    var command := ExecuteCommand(request);
    if |command| >= CommandBufferSize then Step(Undefined, b)
    else
      var b' := b.(log := Present(Content(b.log) + output), commands := b.commands + [command]);
      SayStep(b', status, ExecuteReply(Trimmed(request), status), CommandBufferSize, writes)
  }

  /** The command runs in the background exactly when the request holds
      '&'; it is the trimmed request followed by the redirection to the
      console log. */
  lemma ExecuteCommandShape(request: string)
    ensures var c := ExecuteCommand(request);
      |c| >= 2 && (c[|c| - 2..] == " &" <==> InBackground(request))
    ensures var c := ExecuteCommand(request); var t := Trimmed(request);
      c[..|t|] == t && c[|t|..|t| + |LogRedirect|] == LogRedirect
    ensures InBackground(request) ==> |Trimmed(request)| == |request| - 1
    ensures !InBackground(request) ==> Trimmed(request) == request
  {
    var c, t := ExecuteCommand(request), Trimmed(request);
    if InBackground(request) {
      assert c == (t + LogRedirect) + " &";
    } else {
      assert c == request + LogRedirect;
      assert c[|c| - 1] == LogRedirect[|LogRedirect| - 1] == 's';
    }
  }

  /** '&' anywhere means background, and the last character is cut off even
      when it is not the '&'. */
  lemma AmpersandAnywhere()
    ensures ExecuteCommand("sleep 5 &") == "sleep 5 " + LogRedirect + " &"
    ensures ExecuteCommand("a && b") == "a && " + LogRedirect + " &"
    ensures ExecuteCommand("ls") == "ls" + LogRedirect
  {
    assert InBackground("sleep 5 &") && "sleep 5 &"[..8] == "sleep 5 ";
    assert InBackground("a && b") && "a && b"[..5] == "a && ";
  }

  /** The reply tells the status apart: two statuses that give the same
      reply are equal. */
  lemma ExecuteReplyStatus(request: string, s1: int, s2: int)
    requires NoNul(request)
    requires ExecuteReply(request, s1) == ExecuteReply(request, s2)
    ensures s1 == s2
  {
    MiddleDetermined(ExecutePrefix(request, s1), IntToString(s1), ExecutePrefix(request, s2),
                     IntToString(s2), ExecuteSuffix());
    IntToStringRoundTrip(s1);
    IntToStringRoundTrip(s2);
  }

  /** The reply says "pass" exactly when `system` returns 0, right after
      the quoted request. */
  lemma ExecuteReplyVerdict(request: string, status: int)
    requires NoNul(request)
    ensures var r := ExecuteReply(request, status);
      |r| >= |request| + 20 && r[14..|request| + 14] == request
      && r[|request| + 16..|request| + 20] == (if status == 0 then "pass" else "fail")
  {
    var r := ExecuteReply(request, status);
    var p := ExecutePrefix(request, status);
    var q := "Execution of \"" + request + "\" ";
    var w := q + Verdict(status);
    PrefixOfAppend(p + IntToString(status), ExecuteSuffix());
    PrefixOfAppend(p, IntToString(status));
    PrefixOfAppend(w + ". Return value ", "is ");
    PrefixOfAppend(w, ". Return value ");
    assert r[..|w|] == w;
    PrefixOfAppend(q, Verdict(status));
    assert w[|q|..] == Verdict(status);
    assert q[14..|request| + 14] == request;
  }

  lemma PrefixOfAppend(a: string, b: string)
    ensures (a + b)[..|a|] == a && (a + b)[|a|..] == b
  {
  }

  /** Two texts with the same frame of equal lengths differ only in their middles. */
  lemma MiddleDetermined(p1: string, x1: string, p2: string, x2: string, t: string)
    requires |p1| == |p2| && p1 + x1 + t == p2 + x2 + t
    ensures x1 == x2
  {
    var r := p1 + x1 + t;
    assert x1 == r[|p1|..|r| - |t|];
    assert x2 == (p2 + x2 + t)[|p2|..|r| - |t|];
  }

  // ---------------------------------------------------------------------
  // health_check_assist_board

  function HealthReply(): (r: string)
    ensures NoNul(r) && Contains(r, Sentinel)
  {
    Reply("Assist : Health " + "check is OK. ")
  }

  function HealthStep(b: Board, writes: seq<int>): (s: Step)
    ensures RepliesOnce(b, s) && SameExceptReplies(b, s.after)
    ensures s.outcome.Returned? ==> s.outcome.code == Success
  {
    SayStep(b, Success, HealthReply(), MessageBufferSize, writes)
  }

  // ---------------------------------------------------------------------
  // The console log

  function OpenFailReply(): (r: string)
    ensures NoNul(r) && Contains(r, Sentinel)
  {
    Reply("Cannot open " + "the file. " + "Return value " + "is -1. ")
  }

  function CloseFailReply(): (r: string)
    ensures NoNul(r) && Contains(r, Sentinel)
  {
    Reply("Cannot truncate " + "and close the " + "file. Return " + "value is -1. ")
  }

  function ClearPassReply(): (r: string)
    ensures NoNul(r) && Contains(r, Sentinel)
  {
    Reply("ConsoleLogsClear" + " pass. " + "Return value " + "is 0. ")
  }

  /** `clear_console_logs`: `fopen(..., "w")` truncates the log, or creates
      it, whenever it succeeds; `openOk` and `closeOk` say whether `fopen`
      and `fclose` succeed. */
  function ClearStep(b: Board, openOk: bool, closeOk: bool, writes: seq<int>): (s: Step)
    ensures RepliesOnce(b, s) && s.after.reserve == b.reserve && s.after.commands == b.commands
    ensures s.after.log == if openOk then Present([]) else b.log
    ensures s.outcome.Returned? ==>
      s.outcome.code == (if !openOk then FileOpenFail else if !closeOk then FileCloseFail else Success)
  {
    if !openOk then SayStep(b, FileOpenFail, OpenFailReply(), MessageBufferSize, writes)
    else
      var b' := b.(log := Present([]));
      if !closeOk then SayStep(b', FileCloseFail, CloseFailReply(), MessageBufferSize, writes)
      else SayStep(b', Success, ClearPassReply(), MessageBufferSize, writes)
  }

  /** Whenever the file opens, the log is left empty; clearing twice in a
      row succeeds the second time exactly as the first. */
  lemma ClearIdempotent(b: Board, closeOk: bool, writes: seq<int>)
    ensures ClearStep(b, true, closeOk, writes).after.log == Present([])
    ensures var once := ClearStep(b, true, true, writes);
      var twice := ClearStep(once.after, true, true, writes);
      twice.after.log == once.after.log && twice.outcome == once.outcome
      && twice.after.replies == once.after.replies + [ClearPassReply()]
  {
  }

  /** `collect_console_logs`: NULL when the file is missing or empty; else
      the file's text, up to its first NUL, then a newline and the sentinel. */
  function CollectedLogs(log: LogFile): (logs: Option<string>)
    ensures logs.None? <==> Content(log) == []
    ensures logs.Some? ==> NoNul(logs.value) && |logs.value| >= |"\n" + Sentinel|
    ensures logs.Some? ==> logs.value[|logs.value| - |Sentinel|..] == Sentinel
    ensures logs.Some? ==> Contains(logs.value, Sentinel)
  {
    if Content(log) == [] then None
    else
      var logs := UpToNul(Content(log)) + "\n" + Sentinel;
      assert logs[|logs| - |Sentinel|..] == Sentinel;
      ContainsEnd(UpToNul(Content(log)) + "\n", Sentinel);
      Some(logs)
  }

  /** `request_console_logs`: the collected logs are its only message; the
      error texts it formats are never sent. A failed collection still
      reaches `write_socket`, with NULL. */
  function RequestLogsStep(b: Board, writes: seq<int>): (s: Step)
    ensures RepliesOnce(b, s) && SameExceptReplies(b, s.after)
    ensures s.outcome.Returned? ==> s.outcome.code in {Success, WriteSocketFail}
  {
    match CollectedLogs(b.log)
    case None => Step(Undefined, b)
    case Some(logs) =>
      var b' := b.(replies := b.replies + [logs]);
      var sent := Send(logs, writes);
      if sent.Underflow? then Step(Undefined, b')
      else if sent.status != Success then Step(Returned(WriteSocketFail), b')
      else Step(Returned(Success), b')
  }

  /** The collected logs are never empty, so CONSOLE_LOGS_ZERO_SIZE cannot
      be returned; a defined outcome is SUCCESS exactly when the send
      succeeds, else WRITE_SOCKET_FAIL. */
  lemma RequestLogsOutcomes(b: Board, writes: seq<int>)
    ensures var s := RequestLogsStep(b, writes);
      s.outcome != Returned(ConsoleLogsZeroSize) && s.outcome != Returned(CollectConsoleLogsFail)
    ensures var s := RequestLogsStep(b, writes);
      s.outcome == Undefined <==> Content(b.log) == [] || Send(CollectedLogs(b.log).value, writes).Underflow?
    ensures var s := RequestLogsStep(b, writes);
      s.outcome == Returned(Success) <==>
        Content(b.log) != [] && Send(CollectedLogs(b.log).value, writes) == Sent(Success, Send(CollectedLogs(b.log).value, writes).pieces)
    ensures var s := RequestLogsStep(b, writes);
      Content(b.log) != [] ==> s.after == b.(replies := b.replies + [CollectedLogs(b.log).value])
  {
  }

  /** The buffer `collect_console_logs` allocates for a log of n bytes:
      room for the bytes, the newline and the sentinel. */
  function LogAllocation(n: nat): nat
  {
    n + |"\n"| + |Sentinel|
  }

  /** The bytes `collect_console_logs` writes for a non-empty log: the
      file's bytes and a NUL after them, then, from the first NUL on, the
      newline, the sentinel and their terminator. */
  function LogBytesWritten(content: seq<char>): nat
  {
    var appended := |UpToNul(content)| + |"\n"| + |Sentinel| + 1;
    if appended > |content| + 1 then appended else |content| + 1
  }

  /** As written, the allocation is one byte short of what is written
      whenever the log holds no NUL: the terminator `strcat` adds after the
      sentinel lands past the end of the buffer. */
  lemma {:induction false} LogAllocationAsWritten(content: seq<char>)
    requires content != [] && NoNul(content)
    ensures LogBytesWritten(content) == LogAllocation(|content|) + 1
  {
    UpToNulWhole(content);
  }

  /** In a buffer of the source's size, once the file's bytes and the
      newline are in place, the room `StrCat` needs for the sentinel and its
      terminator is missing: the second `strcat` cannot be made as written. */
  lemma LastStrCatOverflows(b: seq<char>, content: seq<char>)
    requires content != [] && NoNul(content) && |b| == LogAllocation(|content|)
    requires Nul in b && UpToNul(b) == content + "\n"
    ensures !(|UpToNul(b)| + |Sentinel| < |b|)
  {
  }

  // ---------------------------------------------------------------------
  // The reservation flag

  function ReservedReply(): (r: string)
    ensures NoNul(r) && Contains(r, Sentinel)
  {
    Reply("Assist board " + "is reserved. " + "Lock value is " + "999. ")
  }

  function NotReservedReply(): (r: string)
    ensures NoNul(r) && Contains(r, Sentinel)
  {
    Reply("Assist board " + "is not reserved." + " Lock value is " + "888. ")
  }

  function ReservedForYouReply(): (r: string)
    ensures NoNul(r) && Contains(r, Sentinel)
  {
    Reply("Assist board " + "is reserved " + "for you. " + "Lock value is " + "999. ")
  }

  function UnreservedReply(): (r: string)
    ensures NoNul(r) && Contains(r, Sentinel)
  {
    Reply("Assist board " + "is unreserved. " + "Lock value is " + "888. ")
  }

  function UnreserveFailReply(): (r: string)
    ensures NoNul(r) && Contains(r, Sentinel)
  {
    Reply("Assist board " + "unreserv fail. " + "Lock value is " + "999. ")
  }

  /** `reserve_assist_service`'s new flag: 999 unless it already was 999,
      in which case 888. */
  function ReserveNext(flag: int): int
  {
    if flag != ReserveAssist then ReserveAssist else UnreserveAssist
  }

  /** `unreserve_assist_service`'s new flag: 888 unless it already was 888,
      in which case 999. */
  function UnreserveNext(flag: int): int
  {
    if flag != UnreserveAssist then UnreserveAssist else ReserveAssist
  }

  /** `check_assistboard_reserve`: reports the flag and leaves it alone. */
  function CheckReserveStep(b: Board, writes: seq<int>): (s: Step)
    ensures RepliesOnce(b, s) && SameExceptReplies(b, s.after)
    ensures s.outcome.Returned? ==> s.outcome.code == Success
  {
    SayStep(b, Success, if b.reserve == ReserveAssist then ReservedReply() else NotReservedReply(),
        MessageBufferSize, writes)
  }

  /** `reserve_assist_service`: toggles the flag, and claims the board is
      reserved either way. */
  function ReserveStep(b: Board, writes: seq<int>): (s: Step)
    ensures RepliesOnce(b, s) && s.after.reserve == ReserveNext(b.reserve)
    ensures s.after.log == b.log && s.after.commands == b.commands
    ensures s.outcome.Returned? ==> s.outcome.code == Success
  {
    SayStep(b.(reserve := ReserveNext(b.reserve)), Success, ReservedForYouReply(), MessageBufferSize, writes)
  }

  /** `unreserve_assist_service`. */
  function UnreserveStep(b: Board, writes: seq<int>): (s: Step)
    ensures RepliesOnce(b, s) && s.after.reserve == UnreserveNext(b.reserve)
    ensures s.after.log == b.log && s.after.commands == b.commands
    ensures s.outcome.Returned? ==> s.outcome.code == Success
  {
    SayStep(b.(reserve := UnreserveNext(b.reserve)), Success,
        if b.reserve != UnreserveAssist then UnreservedReply() else UnreserveFailReply(),
        MessageBufferSize, writes)
  }

  /** The reservation handlers write only RESERVE_ASSIST and UNRESERVE_ASSIST;
      reserving a reserved board unreserves it, unreserving an unreserved one
      reserves it, and each of them applied twice to either value restores it. */
  lemma ReservationFlag(flag: int)
    ensures ReserveNext(flag) in {ReserveAssist, UnreserveAssist}
    ensures UnreserveNext(flag) in {ReserveAssist, UnreserveAssist}
    ensures ReserveNext(flag) == ReserveAssist <==> flag != ReserveAssist
    ensures UnreserveNext(flag) == UnreserveAssist <==> flag != UnreserveAssist
    ensures flag in {ReserveAssist, UnreserveAssist} ==>
      ReserveNext(ReserveNext(flag)) == flag && UnreserveNext(UnreserveNext(flag)) == flag
  {
  }

  /** Whatever the flag was, every reservation handler returns SUCCESS once
      its reply is sent; reserve's reply does not depend on the flag. */
  lemma ReservationReplies(b: Board, c: Board, writes: seq<int>)
    requires !Send(ReservedForYouReply(), writes).Underflow?
    ensures ReserveStep(b, writes).outcome == Returned(Success)
    ensures ReserveStep(b, writes).after.replies[|b.replies|] == ReserveStep(c, writes).after.replies[|c.replies|]
    ensures CheckReserveStep(b, writes).after.reserve == b.reserve
  {
  }

  // ---------------------------------------------------------------------
  // reboot_assist_board and the process handlers

  const RebootCommand: string := "reboot -h now"

  /** Handing `command` to `system`, then the reply: SUCCESS when the status
      is 0, else `failCode`. */
  function RunStep(b: Board, command: string, status: int, reply: string, failCode: int,
                   writes: seq<int>): (s: Step)
    ensures Final(reply) ==> RepliesOnce(b, s)
    ensures s.after.log == b.log && s.after.reserve == b.reserve
    ensures s.after.commands == b.commands || s.after.commands == b.commands + [command]
    ensures s.outcome.Returned? ==> s.after.commands == b.commands + [command]
    ensures s.outcome.Returned? ==> s.outcome.code == if status == 0 then Success else failCode
  {
    if |command| >= MessageBufferSize then Step(Undefined, b)
    else
      SayStep(b.(commands := b.commands + [command]), if status == 0 then Success else failCode,
              reply, MessageBufferSize, writes)
  }

  /** "Return value is <status>. " followed by the sentinel. */
  function ValueTail(status: int): (r: string)
    ensures NoNul(r) && Contains(r, Sentinel)
  {
    Reply("Return value is " + IntToString(status) + ". ")
  }

  function RebootVerdict(status: int): (t: string)
    ensures NoNul(t)
  {
    if status == 0 then "Assist : Board " + "rebooting. " else "Assist : Board " + "reboot fail. "
  }

  function RebootReply(status: int): (r: string)
    ensures NoNul(r) && Contains(r, Sentinel)
  {
    SentinelInTail(RebootVerdict(status), ValueTail(status));
    RebootVerdict(status) + ValueTail(status)
  }

  function RebootStep(b: Board, status: int, writes: seq<int>): (s: Step)
    ensures RepliesOnce(b, s) && s.after.log == b.log && s.after.reserve == b.reserve
    ensures s.outcome.Returned? ==> s.after.commands == b.commands + [RebootCommand]
    ensures s.outcome.Returned? ==> s.outcome.code == if status == 0 then Success else BoardRebootFail
  {
    RunStep(b, RebootCommand, status, RebootReply(status), BoardRebootFail, writes)
  }

  /** Where each process handler's argument starts in the request. */
  const StartOffset: nat := 13
  const CheckOffset: nat := 20
  const KillOffset: nat := 19

  /** `&request[offset]` as a C string; past the request's terminator it
      points into bytes `read_socket` never wrote. */
  function ArgAt(request: string, offset: nat): (arg: Option<string>)
    ensures NoNul(request) && arg.Some? ==> NoNul(arg.value)
  {
    if offset <= |request| then
      assert forall c :: c in request[offset..] ==> c in request;
      Some(request[offset..])
    else None
  }

  /** The text that opens every process handler's reply. */
  function ProcessText(): (t: string)
    ensures NoNul(t)
  {
    "Assist : Process"
  }

  function StartVerdict(status: int): (t: string)
    ensures NoNul(t)
  {
    if status == 0 then " started success" + "fully. " else " failed to start" + ". "
  }

  function StartReply(arg: string, status: int): (r: string)
    requires NoNul(arg)
    ensures NoNul(r) && Contains(r, Sentinel)
  {
    SentinelInTail(ProcessText() + " " + arg + StartVerdict(status), ValueTail(status));
    ProcessText() + " " + arg + StartVerdict(status) + ValueTail(status)
  }

  function CheckVerdict(status: int): (t: string)
    ensures NoNul(t)
  {
    if status == 0 then "\" exist. " else "\" do not exist. "
  }

  function CheckReply(arg: string, status: int): (r: string)
    requires NoNul(arg)
    ensures NoNul(r) && Contains(r, Sentinel)
  {
    Reply(ProcessText() + " \"" + arg + CheckVerdict(status))
  }

  function KillVerdict(status: int): (t: string)
    ensures NoNul(t)
  {
    if status == 0 then "\" killed. " else "\" do not exist " + "or not killed. "
  }

  function KillReply(arg: string, status: int): (r: string)
    requires NoNul(arg)
    ensures NoNul(r) && Contains(r, Sentinel)
  {
    SentinelInTail(ProcessText() + " \"" + arg + KillVerdict(status), ValueTail(status));
    ProcessText() + " \"" + arg + KillVerdict(status) + ValueTail(status)
  }

  function StartStep(b: Board, request: string, status: int, writes: seq<int>): (s: Step)
    requires NoNul(request)
    ensures RepliesOnce(b, s) && s.after.log == b.log && s.after.reserve == b.reserve
    ensures s.outcome.Returned? ==> StartOffset <= |request| && s.after.commands == b.commands + [request[StartOffset..]]
    ensures s.outcome.Returned? ==> s.outcome.code == if status == 0 then Success else ProcessStartFail
  {
    match ArgAt(request, StartOffset)
    case None => Step(Undefined, b)
    case Some(arg) => RunStep(b, arg, status, StartReply(arg, status), ProcessStartFail, writes)
  }

  function CheckProcessStep(b: Board, request: string, status: int, writes: seq<int>): (s: Step)
    requires NoNul(request)
    ensures RepliesOnce(b, s) && s.after.log == b.log && s.after.reserve == b.reserve
    ensures s.outcome.Returned? ==> CheckOffset <= |request| && s.after.commands == b.commands + ["pidof -x " + request[CheckOffset..]]
    ensures s.outcome.Returned? ==> s.outcome.code == if status == 0 then Success else ProcessNotRunning
  {
    match ArgAt(request, CheckOffset)
    case None => Step(Undefined, b)
    case Some(arg) => RunStep(b, "pidof -x " + arg, status, CheckReply(arg, status), ProcessNotRunning, writes)
  }

  function KillStep(b: Board, request: string, status: int, writes: seq<int>): (s: Step)
    requires NoNul(request)
    ensures RepliesOnce(b, s) && s.after.log == b.log && s.after.reserve == b.reserve
    ensures s.outcome.Returned? ==> KillOffset <= |request| && s.after.commands == b.commands + ["pkill " + request[KillOffset..]]
    ensures s.outcome.Returned? ==> s.outcome.code == if status == 0 then Success else ProcessKillFail
  {
    match ArgAt(request, KillOffset)
    case None => Step(Undefined, b)
    case Some(arg) => RunStep(b, "pkill " + arg, status, KillReply(arg, status), ProcessKillFail, writes)
  }

  /** A process handler whose command fits runs it, and its outcome, when
      defined, is SUCCESS exactly when `system` returns 0 and its own
      failure code otherwise. */
  lemma RunOutcome(b: Board, command: string, status: int, reply: string, failCode: int,
                   writes: seq<int>)
    requires failCode != Success
    requires |command| < MessageBufferSize
    ensures var s := RunStep(b, command, status, reply, failCode, writes);
      s.after.commands == b.commands + [command]
      && (s.outcome.Returned? ==> (s.outcome.code == Success <==> status == 0))
      && (s.outcome.Returned? ==> (s.outcome.code == failCode <==> status != 0))
  {
  }

  /** The argument the handler takes from "<verb> <arg>" is `arg`. */
  lemma ArgAfterVerb(verb: string, arg: string)
    ensures ArgAt(verb + " " + arg, |verb| + 1) == Some(arg)
  {
    assert (verb + " " + arg)[|verb| + 1..] == arg;
  }

  // ---------------------------------------------------------------------
  // The handlers as they change the board

  class AssistServer {
    var log: LogFile
    var reserve: int
    var commands: seq<string>
    var replies: seq<string>

    function State(): Board
      reads this
    {
      Board(log, reserve, commands, replies)
    }

    constructor (log0: LogFile, reserve0: int)
      ensures State() == Board(log0, reserve0, [], [])
    {
      log, reserve, commands, replies := log0, reserve0, [], [];
    }

    /** `sprintf` of `reply` into a buffer of `size` bytes, then
        `write_socket`; `code` is returned whatever the send returns. */
    method Say(code: int, reply: string, size: nat, writes: seq<int>) returns (outcome: Outcome)
      requires NoNul(reply)
      modifies this
      ensures var s := SayStep(old(State()), code, reply, size, writes);
        outcome == s.outcome && State() == s.after
    {
      if |reply| >= size {
        return Undefined;
      }
      var sent := WriteSocket(reply, writes);
      replies := replies + [reply];
      if sent.Underflow? {
        return Undefined;
      }
      return Returned(code);
    }

    method ExecuteRequest(request: string, status: int, output: seq<char>, writes: seq<int>)
      returns (outcome: Outcome)
      requires NoNul(request)
      modifies this
      ensures var s := ExecuteStep(old(State()), request, status, output, writes);
        outcome == s.outcome && State() == s.after
    {
      var req := request;
      if '&' in request {
        req := request[..|request| - 1];
        assert forall c :: c in req ==> c in request;
      }
      var command := if InBackground(request) then req + LogRedirect + " &" else req + LogRedirect;
      if |command| >= CommandBufferSize {
        return Undefined;
      }
      commands := commands + [command];
      log := Present(Content(log) + output);
      var reply := ExecuteReply(req, status);
      outcome := Say(status, reply, CommandBufferSize, writes);
    }

    method HealthCheck(writes: seq<int>) returns (outcome: Outcome)
      modifies this
      ensures var s := HealthStep(old(State()), writes); outcome == s.outcome && State() == s.after
    {
      outcome := Say(Success, HealthReply(), MessageBufferSize, writes);
    }

    method ClearConsoleLogs(openOk: bool, closeOk: bool, writes: seq<int>) returns (outcome: Outcome)
      modifies this
      ensures var s := ClearStep(old(State()), openOk, closeOk, writes);
        outcome == s.outcome && State() == s.after
    {
      if !openOk {
        outcome := Say(FileOpenFail, OpenFailReply(), MessageBufferSize, writes);
        return;
      }
      log := Present([]);
      if !closeOk {
        outcome := Say(FileCloseFail, CloseFailReply(), MessageBufferSize, writes);
      } else {
        outcome := Say(Success, ClearPassReply(), MessageBufferSize, writes);
      }
    }

    /** `collect_console_logs`, building its result in a heap buffer with
        `strcat`. The buffer here is one byte larger than the source's
        allocation, which has no room for the final terminator; reopening
        an empty file for writing leaves it as it was. */
    method CollectConsoleLogs() returns (logs: Option<string>)
      ensures logs == CollectedLogs(log)
    {
      if log.Missing? || |log.content| == 0 {
        return None;
      }
      var content := log.content;
      var n := |content|;
      var buf := new char[LogAllocation(n) + 1];
      var i := 0;
      while i < n
        invariant 0 <= i <= n && buf[..i] == content[..i]
      {
        buf[i] := content[i];
        i := i + 1;
      }
      buf[n] := Nul;
      assert buf[..] == content + [Nul] + buf[n + 1..] by {
        assert buf[..n] == content;
      }
      UpToNulStops(content, buf[n + 1..]);
      StrCat(buf, "\n");
      StrCat(buf, Sentinel);
      logs := Some(UpToNul(buf[..]));
    }

    method RequestConsoleLogs(writes: seq<int>) returns (outcome: Outcome)
      modifies this
      ensures var s := RequestLogsStep(old(State()), writes); outcome == s.outcome && State() == s.after
    {
      var logs := CollectConsoleLogs();
      if logs.None? {
        // write_socket(NULL, sockfd)
        return Undefined;
      }
      var sent := WriteSocket(logs.value, writes);
      replies := replies + [logs.value];
      if sent.Underflow? {
        return Undefined;
      }
      outcome := if sent.status != Success then Returned(WriteSocketFail) else Returned(Success);
    }

    method CheckReserve(writes: seq<int>) returns (outcome: Outcome)
      modifies this
      ensures var s := CheckReserveStep(old(State()), writes); outcome == s.outcome && State() == s.after
    {
      if reserve == ReserveAssist {
        outcome := Say(Success, ReservedReply(), MessageBufferSize, writes);
      } else {
        outcome := Say(Success, NotReservedReply(), MessageBufferSize, writes);
      }
    }

    method Reserve(writes: seq<int>) returns (outcome: Outcome)
      modifies this
      ensures var s := ReserveStep(old(State()), writes); outcome == s.outcome && State() == s.after
    {
      if reserve != ReserveAssist {
        reserve := ReserveAssist;
      } else {
        reserve := UnreserveAssist;
      }
      outcome := Say(Success, ReservedForYouReply(), MessageBufferSize, writes);
    }

    method Unreserve(writes: seq<int>) returns (outcome: Outcome)
      modifies this
      ensures var s := UnreserveStep(old(State()), writes); outcome == s.outcome && State() == s.after
    {
      if reserve != UnreserveAssist {
        reserve := UnreserveAssist;
        outcome := Say(Success, UnreservedReply(), MessageBufferSize, writes);
      } else {
        reserve := ReserveAssist;
        outcome := Say(Success, UnreserveFailReply(), MessageBufferSize, writes);
      }
    }

    /** `system(command)`, then the reply. */
    method Run(command: string, status: int, reply: string, failCode: int, writes: seq<int>)
      returns (outcome: Outcome)
      requires NoNul(reply)
      modifies this
      ensures var s := RunStep(old(State()), command, status, reply, failCode, writes);
        outcome == s.outcome && State() == s.after
    {
      if |command| >= MessageBufferSize {
        return Undefined;
      }
      commands := commands + [command];
      outcome := Say(if status == 0 then Success else failCode, reply, MessageBufferSize, writes);
    }

    method Reboot(status: int, writes: seq<int>) returns (outcome: Outcome)
      modifies this
      ensures var s := RebootStep(old(State()), status, writes); outcome == s.outcome && State() == s.after
    {
      outcome := Run(RebootCommand, status, RebootReply(status), BoardRebootFail, writes);
    }

    method StartProcess(request: string, status: int, writes: seq<int>) returns (outcome: Outcome)
      requires NoNul(request)
      modifies this
      ensures var s := StartStep(old(State()), request, status, writes); outcome == s.outcome && State() == s.after
    {
      var arg := ArgAt(request, StartOffset);
      if arg.None? {
        return Undefined;
      }
      outcome := Run(arg.value, status, StartReply(arg.value, status), ProcessStartFail, writes);
    }

    method CheckProcessRunning(request: string, status: int, writes: seq<int>) returns (outcome: Outcome)
      requires NoNul(request)
      modifies this
      ensures var s := CheckProcessStep(old(State()), request, status, writes); outcome == s.outcome && State() == s.after
    {
      var arg := ArgAt(request, CheckOffset);
      if arg.None? {
        return Undefined;
      }
      outcome := Run("pidof -x " + arg.value, status, CheckReply(arg.value, status), ProcessNotRunning, writes);
    }

    method KillRunningProcess(request: string, status: int, writes: seq<int>) returns (outcome: Outcome)
      requires NoNul(request)
      modifies this
      ensures var s := KillStep(old(State()), request, status, writes); outcome == s.outcome && State() == s.after
    {
      var arg := ArgAt(request, KillOffset);
      if arg.None? {
        return Undefined;
      }
      outcome := Run("pkill " + arg.value, status, KillReply(arg.value, status), ProcessKillFail, writes);
    }
  }
}
