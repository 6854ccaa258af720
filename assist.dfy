/** Constants and result codes shared by the assist server and the DUT client
    (include/assist.h). */
module Assist {

  /** Size of every socket buffer; a piece carries at most MaxSize - 1 characters. */
  const MaxSize: nat := 4096

  /** The literal token that ends every logical message. */
  const Sentinel: string := "AssistDataEnds"

  /** File that collects the output of executed commands. */
  const ConsoleLogFile: string := "/tmp/cmd_console_logs"

  /** The two values the reservation handlers write into the flag. */
  const ReserveAssist: int := 999
  const UnreserveAssist: int := 888

  /** The NUL character that terminates a C string. */
  const Nul: char := '\0'

  /** The result codes of `enum error`: SUCCESS is 0, GENERAL_ERROR is -500 and
      each following enumerator is one more than the previous one. */
  const Success: int := 0
  const GeneralError: int := -500
  const MissingArguments: int := -499
  const ConfigFileNotFound: int := -498
  const ConfigFileIpNotFound: int := -497
  const ConfigFilePortNotFound: int := -496
  const ConvertPortToIntFail: int := -495
  const CreateSocketFail: int := -494
  const AcceptFail: int := -493
  const WriteSocketFail: int := -492
  const ReadSocketFail: int := -491
  const SocketCloseFail: int := -490
  const SocketFail: int := -489
  const BindFail: int := -488
  const ListenFail: int := -487
  const WriteFail1: int := -486
  const WriteFail2: int := -485
  const ConnectFail: int := -484
  const CollectConsoleLogsFail: int := -483
  const ConsoleLogsZeroSize: int := -482
  const FileOpenFail: int := -481
  const FileCloseFail: int := -480
  const BoardRebootFail: int := -479
  const ProcessStartFail: int := -478
  const ProcessNotRunning: int := -477
  const ProcessKillFail: int := -476

  /** The enumerators in declaration order. */
  function ErrorCodes(): (codes: seq<int>)
    ensures |codes| == 26 && codes[0] == Success && codes[1] == GeneralError
    ensures codes[25] == ProcessKillFail
  {
    [Success, GeneralError, MissingArguments, ConfigFileNotFound, ConfigFileIpNotFound,
     ConfigFilePortNotFound, ConvertPortToIntFail, CreateSocketFail, AcceptFail,
     WriteSocketFail, ReadSocketFail, SocketCloseFail, SocketFail, BindFail, ListenFail,
     WriteFail1, WriteFail2, ConnectFail, CollectConsoleLogsFail, ConsoleLogsZeroSize,
     FileOpenFail, FileCloseFail, BoardRebootFail, ProcessStartFail, ProcessNotRunning,
     ProcessKillFail]
  }

  /** Every failure code follows GENERAL_ERROR consecutively. */
  lemma {:induction false} ErrorCodesConsecutive()
    ensures forall k :: 1 <= k < 26 ==> ErrorCodes()[k] == GeneralError + (k - 1)
  {
    var c := ErrorCodes();
    assert c[1] == GeneralError + 0 && c[2] == GeneralError + 1 && c[3] == GeneralError + 2;
    assert c[4] == GeneralError + 3 && c[5] == GeneralError + 4 && c[6] == GeneralError + 5;
    assert c[7] == GeneralError + 6 && c[8] == GeneralError + 7 && c[9] == GeneralError + 8;
    assert c[10] == GeneralError + 9 && c[11] == GeneralError + 10 && c[12] == GeneralError + 11;
    assert c[13] == GeneralError + 12 && c[14] == GeneralError + 13 && c[15] == GeneralError + 14;
    assert c[16] == GeneralError + 15 && c[17] == GeneralError + 16 && c[18] == GeneralError + 17;
    assert c[19] == GeneralError + 18 && c[20] == GeneralError + 19 && c[21] == GeneralError + 20;
    assert c[22] == GeneralError + 21 && c[23] == GeneralError + 22 && c[24] == GeneralError + 23;
    assert c[25] == GeneralError + 24;
  }

  /** So all failure codes are negative, all codes are distinct, and none of
      them is -1 (the value write_socket returns when its deadline passes,
      and the value the server's main loop tests create_socket's result
      against). */
  lemma {:induction false} ErrorCodesLayout()
    ensures forall k :: 1 <= k < 26 ==> ErrorCodes()[k] < 0 && ErrorCodes()[k] != -1
    ensures forall j, k :: 0 <= j < k < 26 ==> ErrorCodes()[j] != ErrorCodes()[k]
    ensures -1 !in ErrorCodes()
    ensures SocketFail != -1 && BindFail != -1 && ListenFail != -1
  {
    ErrorCodesConsecutive();
  }

  /** A value that may be NULL in C. */
  datatype Option<T> = None | Some(value: T)

  /** What a C function of the core hands back to its caller: an int, or
      nothing defined because the code reaches undefined behaviour first
      (a NULL dereference, a read before the start of a string, a buffer
      overflow). */
  datatype Outcome = Returned(code: int) | Undefined
}
