# assist-dut, modelled in Dafny

The assist server runs on a helper board next to a device under test (DUT).
The DUT client sends it one text request over a TCP socket. The server reads
the request, picks a handler by the request's text, and runs it. Handlers can
collect or clear a console log, check the board's health, execute a shell
command with its output redirected into the log, or, behind a build switch,
reserve the board and start, check or kill a process. Every reply ends with
the token `AssistDataEnds`. The client keeps reading until that token
arrives.

There is no length header on the wire. `write_socket` cuts a message into
pieces of at most 4095 characters and writes each piece followed by a NUL.
The client glues the pieces together, each up to its first NUL.

The model has six modules, one per source file:

- `Assist` (`assist.dfy`, include/assist.h): the constants and the result codes.
- `CStrings` (`cstrings.dfy`): the C string operations the code relies on. These are reading a buffer up to its NUL, `strstr`, `strlen`, `strcat` and `%d`.
- `Communication` (`communication.dfy`, communication.c): the chunked sender `write_socket`, the one-read `read_socket` and the configuration lookup `get_config_value`.
- `DutClient` (`dut_client.dfy`, dut-client.c): the reassembling reader `client_read_socket`, `client_write_socket` and the steps of `main`.
- `ServicesUtilities` (`services_utilities.dfy`, services-utilities.c): every handler. Each one is a function from a `Board` (log, reservation flag, commands handed to `system`, replies handed to `write_socket`) to a `Step` (outcome, new board). Each handler is also a method of the class `AssistServer`, whose fields are the board, and whose methods are proved to agree with those functions.
- `Services` (`services.dfy`, services.c): the verb selection of `service_request`, the dispatch to the handlers, and `service_request` itself.

These are given as parameters rather than performed:

- the values `write` returns, as a sequence with one entry per iteration;
- what each `read` returns;
- the status `system` returns and the output a command adds to the log;
- whether `fopen` and `fclose` succeed;
- the lines of the configuration file.

The 600-second deadlines become the length of those sequences: the loop
stops when they run out. Undefined behaviour in C is an explicit outcome,
`Undefined` (or `Underflow` for the sender). It covers:

- a reply too long for its `sprintf` buffer;
- NULL handed to `write_socket` or `strcmp`;
- a read of zero bytes in `read_socket`;
- a process argument past the end of the request;
- a sender counter that falls below zero.

The model follows what the code does, which differs from what a reader might
expect in these ways:

- Messages carry no length header.
- A request with `'&'` anywhere runs in the background, and loses its last character whatever that character is.
- Zero-byte reads count toward the client's limit of five over the whole call, not only consecutive ones.
- `main` returns -1 even after a successful exchange.

## Model

| member | source | states |
|---|---|---|
| Assist.ErrorCodes | include/assist.h:49-76 | the enumerators in declaration order: 26 of them, SUCCESS first and PROCESS_KILL_FAIL last |
| Assist.ErrorCodesConsecutive | include/assist.h:49-76 | each failure code is GENERAL_ERROR plus its position after it |
| Assist.ErrorCodesLayout | include/assist.h:49-76 | every failure code is negative; all codes are distinct and none is -1; SOCKET_FAIL, BIND_FAIL and LISTEN_FAIL, which create_socket returns, are not -1 either |
| CStrings.StrLen | services-utilities.c:148-150 | strlen of a buffer holding a NUL is the position of its first NUL, and the prefix before it is the buffer read as a C string |
| CStrings.StrStr | dut-client.c:182 | the search over every position answers true exactly when the pattern occurs in the text |
| CStrings.StrCat | services-utilities.c:148-150 | strcat into a buffer with room leaves it holding the old C string followed by the appended text, still terminated |
| CStrings.IntToStringRoundTrip | services-utilities.c:252 | the %d text of an integer reads back as that integer |
| Communication.PieceBuffer | communication.c:141-150 | tmpBuf is 4096 bytes, and its last byte stays NUL whichever piece it holds |
| Communication.PieceFromBuffer | communication.c:198-208 | the bytes written are the first 1 to 4096 bytes of tmpBuf: at most 4095 characters of the input, then a NUL |
| Communication.FillPiece | communication.c:200-206 | strcpy/strncpy of the input at the counter into tmpBuf gives PieceBuffer |
| Communication.WriteSocket | communication.c:122-217 | the loop's result and pieces written are Send of the input and the write returns |
| Communication.SendFromStep | communication.c:158-208 | one iteration: a return of -1 gives WRITE_FAIL1, any other negative return gives WRITE_FAIL2, and the piece is written either way; the call completes once length minus counter is at most 0; a negative counter is undefined; otherwise the loop continues from counter + return - 1 |
| Communication.SendFromPieces | communication.c:187-208 | piece j starts at the counter plus the sum of (return - 1) over the earlier writes; there is one piece per write used, and at least one if any write happens |
| Communication.SendFromContinues | communication.c:166-195 | no write follows an error or completion: every write but the last returned at least 0 and left the counter inside the input |
| Communication.SendFromLast | communication.c:166-216 | the status is decided by the last write alone, at the counter where it was made: -1 gives WRITE_FAIL1, another negative gives WRITE_FAIL2, a counter at or past the end gives SUCCESS; a write after which the loop would go on was the last one available |
| Communication.SendFromEnding | communication.c:124-216 | each final status holds exactly when its condition holds: WRITE_FAIL1 after a last return of -1, WRITE_FAIL2 after one below -1, SUCCESS when the counter reaches the length, and the initial -1 exactly when the writes (the deadline) run out first; nothing else is returned |
| Communication.ZeroWriteRewinds | communication.c:181-187 | a zero-byte write is not an error: after a piece that started inside the input, the next piece starts one character earlier |
| Communication.ZeroFirstWriteUnderflows | communication.c:181-190 | a zero-byte write of the first piece drives the counter to -1, which is undefined, after that one piece |
| Communication.ChunksCover | communication.c:141-150 | the pieces' characters concatenate to the input; each piece holds at most 4095 characters and all but the last exactly 4095; there are max(1, ceil(len/4095)) of them |
| Communication.SendFromComplete | communication.c:138-208 | from any counter, if every write returns the length requested, the rest of the input goes out as its chunks, each followed by a NUL, and the result is SUCCESS |
| Communication.SendCompleteRoundTrip | communication.c:138-208 | if every write returns the length requested, write_socket returns SUCCESS after writing each chunk plus NUL, and the chunks concatenate to the input; the empty string is one 1-byte write |
| Communication.ReceivedRequest | communication.c:82-107 | NULL exactly when read returns -1; undefined exactly when it returns 0; otherwise a NUL-free prefix of the bytes before the last one received, and all of them when they hold no NUL |
| Communication.ReadSocket | communication.c:82-107 | the request built in the malloc'd buffer, whatever bytes it held beyond those received, is ReceivedRequest of what read returned |
| Communication.FirstMatch | communication.c:242-244 | the index of a line containing the key, such that no earlier line contains it; none exactly when no line contains it |
| Communication.FetchLine | communication.c:242 | fgets leaves the line, a NUL, and the rest of what an earlier line left in the buffer |
| Communication.GetConfigValue | communication.c:229-255 | the loop over lines returns ConfigValue of the file and key |
| Communication.ConfigValueLine | communication.c:235-254 | NULL exactly when the file cannot be opened or no line contains the key as a substring; otherwise, when that first matching line is longer than the key, the line without its first strlen(key)+1 characters, trailing newline kept |
| DutClient.StoreAsWritten | dut-client.c:97-114 | the terminator store `chunk_buffer[len]` is outside a buffer of the given size exactly when read returns a negative length or fills the buffer; otherwise the buffer holds the bytes received and then zeros |
| DutClient.FullReadOverflows | dut-client.c:97-114 | a read returning a full first piece of a long message is valid, is out of bounds for the declared 4096-byte buffer, and fits one of 4097 bytes |
| DutClient.FailedReadUnderruns | dut-client.c:113-114 | a read returning -1 writes before the buffer, whatever its size |
| DutClient.StoreRead | dut-client.c:113-114 | after a read into a zeroed 4097-byte buffer, the buffer holds the bytes received and then zeros; for a read that returns a length, this is the as-written store, now in bounds |
| DutClient.ZeroBuffer | dut-client.c:190 | bzero of the first MAX_SIZE bytes zeroes them and leaves the rest of the buffer as it was |
| DutClient.ResetChunk | dut-client.c:190 | after a chunk, bzero makes the whole buffer zero again, because the extra byte still holds NUL |
| DutClient.ReceiveChunk | dut-client.c:113-114 | the buffer after read and the terminator, read as a C string, is the chunk's text, and the extra byte still holds NUL |
| DutClient.ReadOnce | dut-client.c:113-190 | one pass of the loop body on the real buffer gives the step Next of the read, the accumulator and the zero-read count, and leaves the buffer zero whenever the loop goes on |
| DutClient.StoredText | dut-client.c:113-114 | the stored chunk read as a C string is the received bytes up to their first NUL, so bytes after an embedded NUL are lost |
| DutClient.ClientReadSocket | dut-client.c:95-198 | the reassembly loop returns ClientRead of the reads |
| DutClient.StopCount | dut-client.c:182-188 | the loop takes at least one and at most all of the non-empty reads |
| DutClient.StopFromShortest | dut-client.c:182-188 | the loop stops after the first read whose accumulation contains the sentinel: no shorter prefix contains it, and it includes everything read in that chunk after the sentinel; without the sentinel all reads are taken |
| DutClient.StopFromWhole | dut-client.c:153-188 | when no proper prefix of reads reaches the sentinel, everything read is kept |
| DutClient.ReassemblePositive | dut-client.c:153-188 | with only positive reads, the result is the accumulation cut after the first read that brings in the sentinel |
| DutClient.ZeroReadsAccumulate | dut-client.c:139-150 | zero-byte reads append nothing and count cumulatively; once five have occurred without the sentinel the result is NULL, otherwise what was read so far, NULL if nothing was |
| DutClient.NegativeReadDiscards | dut-client.c:121-138 | a negative read before the sentinel discards the accumulation and returns NULL |
| DutClient.Appended | dut-client.c:153-175 | the new accumulation is the old one followed by the chunk's text |
| DutClient.FrameRead | dut-client.c:113-175 | a read of one piece with its NUL is valid and contributes exactly the piece's characters |
| DutClient.FramedReads | dut-client.c:113-175 | reads that return the written pieces are valid and positive, and contribute exactly the chunks |
| DutClient.ChunksNoNul | communication.c:141-150 | the chunks of a NUL-free message are NUL-free |
| DutClient.ReceiveFramed | dut-client.c:153-197 | reads aligned with the pieces give the chunks cut after the first one that completes the sentinel |
| DutClient.SendReceiveRoundTrip | dut-client.c:153-188 | when every write completes and each read returns one written piece, the client receives the shortest prefix of the message that ends on a piece boundary and contains the sentinel, or the whole message if none does |
| DutClient.ChunksPrefix | communication.c:198-208 | the first k pieces hold the first 4095*k characters of the message |
| DutClient.WholeMessageRoundTrip | dut-client.c:153-197 | a message in which the sentinel can only occur at its end is received whole |
| DutClient.ShortMessageRoundTrip | dut-client.c:153-197 | a message that fits one piece is received whole |
| DutClient.ClientWriteSocket | dut-client.c:202-219 | one write of strlen(request)+1 bytes, the request and its NUL; -1 exactly when write returns -1, else 0, even for a partial write |
| DutClient.RequestRoundTrip | communication.c:82-107 | a NUL-free request shorter than MAX_SIZE, read with its NUL as strlen(request)+1 bytes, is ReceivedRequest'ed back as exactly that request |
| DutClient.RequestExchange | dut-client.c:202-219 | client_write_socket returns -1 exactly when write does; when write takes all strlen(request)+1 bytes, read_socket on the bytes sent returns the request itself, and status 0 |
| DutClient.ClientMain | dut-client.c:233-339 | a missing argument or one containing "-h" anywhere gives usage and -1; a found ip with a missing port is undefined (atoi of NULL); every defined run returns -1, even after a successful exchange; the request is sent exactly when the lookups, the port and the connection succeed, and the reply is read exactly when that write does not return -1 |
| ServicesUtilities.SayStep | services-utilities.c:212-215 | a reply too long for its buffer is undefined; otherwise it is recorded as sent, the code comes back unless the send is undefined, and only the replies change; a final reply makes the step RepliesOnce |
| ServicesUtilities.AssistServer.Say | services-utilities.c:212-215 | sprintf then write_socket on the server's state agree with SayStep |
| ServicesUtilities.Reply | services-utilities.c:213 | a text followed by the sentinel contains the sentinel and stays NUL-free |
| ServicesUtilities.Trimmed | services-utilities.c:235-237 | cutting a request's last character keeps it NUL-free |
| ServicesUtilities.ExecuteCommandShape | services-utilities.c:235-243 | the command ends in " &" exactly when the request holds '&'; it is the request, with its last character cut in that case, followed by the redirection to /tmp/cmd_console_logs |
| ServicesUtilities.AmpersandAnywhere | services-utilities.c:235-238 | '&' anywhere means background, and the last character goes even when it is not the '&' |
| ServicesUtilities.Verdict | services-utilities.c:248-259 | the verdict word is four characters and NUL-free |
| ServicesUtilities.ExecutePrefix | services-utilities.c:252 | the reply before the status is NUL-free and 38 characters longer than the request |
| ServicesUtilities.ExecuteSuffix | services-utilities.c:252 | the reply after the status holds the sentinel and the final newline |
| ServicesUtilities.ExecuteReply | services-utilities.c:246-261 | the execute reply is NUL-free and contains the sentinel |
| ServicesUtilities.ExecuteReplyVerdict | services-utilities.c:248-259 | the reply quotes the request and says "pass" right after it exactly when system returns 0, else "fail" |
| ServicesUtilities.ExecuteReplyStatus | services-utilities.c:252-258 | two statuses giving the same reply are equal: the reply reports the status |
| ServicesUtilities.ExecuteStep | services-utilities.c:230-262 | at most one final reply; the flag is untouched; a defined outcome returns system's status unchanged, after the output was appended to the log and the command recorded |
| ServicesUtilities.AssistServer.ExecuteRequest | services-utilities.c:230-262 | the in-place truncation, the command and the reply on the server's state agree with ExecuteStep |
| ServicesUtilities.HealthReply | services-utilities.c:213 | the health reply is NUL-free and contains the sentinel |
| ServicesUtilities.HealthStep | services-utilities.c:208-216 | sends the health reply once, changes nothing else, and returns SUCCESS when defined |
| ServicesUtilities.AssistServer.HealthCheck | services-utilities.c:208-216 | agrees with HealthStep |
| ServicesUtilities.OpenFailReply | services-utilities.c:175 | NUL-free and contains the sentinel |
| ServicesUtilities.CloseFailReply | services-utilities.c:184 | NUL-free and contains the sentinel |
| ServicesUtilities.ClearPassReply | services-utilities.c:192 | NUL-free and contains the sentinel |
| ServicesUtilities.ClearStep | services-utilities.c:167-196 | the log is empty whenever fopen succeeds; a defined outcome is FILE_OPEN_FAIL, FILE_CLOSE_FAIL or SUCCESS by which call failed; one final reply |
| ServicesUtilities.ClearIdempotent | services-utilities.c:167-196 | clearing leaves the log empty; a second successful clear gives the same log and outcome and sends the same pass text |
| ServicesUtilities.AssistServer.ClearConsoleLogs | services-utilities.c:167-196 | agrees with ClearStep |
| ServicesUtilities.CollectedLogs | services-utilities.c:94-155 | NULL exactly when the file is missing or empty; otherwise the file's text up to its first NUL, a newline and the sentinel: NUL-free, at least 15 characters, ending with the sentinel and so containing it |
| ServicesUtilities.AssistServer.CollectConsoleLogs | services-utilities.c:94-155 | the strcat-built buffer, one byte larger than the source's, yields CollectedLogs of the log |
| ServicesUtilities.RequestLogsStep | services-utilities.c:42-80 | at most one final reply and nothing else changes; a defined outcome is SUCCESS or WRITE_SOCKET_FAIL |
| ServicesUtilities.RequestLogsOutcomes | services-utilities.c:50-71 | CONSOLE_LOGS_ZERO_SIZE and COLLECT_CONSOLE_LOGS_FAIL are never returned; the outcome is undefined exactly when the log is empty or its send is; SUCCESS exactly when the send succeeds; the collected logs are the only message |
| ServicesUtilities.AssistServer.RequestConsoleLogs | services-utilities.c:42-80 | agrees with RequestLogsStep |
| ServicesUtilities.LogAllocationAsWritten | services-utilities.c:132-150 | for a non-empty log without NUL, the bytes written are one more than the bytes allocated |
| ServicesUtilities.LastStrCatOverflows | services-utilities.c:132-150 | in a buffer of the source's size holding the log and the newline, there is no room for the sentinel and its NUL, so the second strcat's precondition fails |
| ServicesUtilities.ReservedReply | services-utilities.c:286 | NUL-free and contains the sentinel |
| ServicesUtilities.NotReservedReply | services-utilities.c:291 | NUL-free and contains the sentinel |
| ServicesUtilities.ReservedForYouReply | services-utilities.c:314-320 | NUL-free and contains the sentinel |
| ServicesUtilities.UnreservedReply | services-utilities.c:344 | NUL-free and contains the sentinel |
| ServicesUtilities.UnreserveFailReply | services-utilities.c:350 | NUL-free and contains the sentinel |
| ServicesUtilities.CheckReserveStep | services-utilities.c:279-295 | reports the flag, leaves everything but the replies unchanged, and returns SUCCESS when defined |
| ServicesUtilities.ReserveStep | services-utilities.c:307-324 | sets the flag to ReserveNext of it, sends one final reply and returns SUCCESS when defined |
| ServicesUtilities.UnreserveStep | services-utilities.c:337-354 | sets the flag to UnreserveNext of it, sends one final reply and returns SUCCESS when defined |
| ServicesUtilities.ReservationFlag | services-utilities.c:307-354 | the handlers write only 999 or 888; reserving gives 999 exactly when the flag was not 999, unreserving gives 888 exactly when it was not 888; applied twice, either one restores a flag that was 999 or 888 |
| ServicesUtilities.ReservationReplies | services-utilities.c:307-324 | when its send is defined, reserve returns SUCCESS and sends the same text whatever the flag was; checking leaves the flag alone |
| ServicesUtilities.AssistServer.CheckReserve | services-utilities.c:279-295 | agrees with CheckReserveStep |
| ServicesUtilities.AssistServer.Reserve | services-utilities.c:307-324 | agrees with ReserveStep |
| ServicesUtilities.AssistServer.Unreserve | services-utilities.c:337-354 | agrees with UnreserveStep |
| ServicesUtilities.RunStep | services-utilities.c:371-388 | a defined outcome recorded the command, and is SUCCESS when system returns 0 and the handler's failure code otherwise; log and flag unchanged |
| ServicesUtilities.AssistServer.Run | services-utilities.c:371-388 | agrees with RunStep |
| ServicesUtilities.RunOutcome | services-utilities.c:371-388 | a command that fits is recorded, and a defined outcome is SUCCESS exactly when the status is 0 and the failure code exactly when it is not |
| ServicesUtilities.ValueTail | services-utilities.c:377 | the "Return value is n." tail is NUL-free and holds the sentinel |
| ServicesUtilities.RebootReply | services-utilities.c:377-385 | NUL-free and contains the sentinel |
| ServicesUtilities.RebootStep | services-utilities.c:366-390 | runs "reboot -h now"; SUCCESS exactly when system returns 0, else BOARD_REBOOT_FAIL; one final reply |
| ServicesUtilities.AssistServer.Reboot | services-utilities.c:366-390 | agrees with RebootStep |
| ServicesUtilities.ArgAt | services-utilities.c:407 | the argument at an offset inside the request is NUL-free |
| ServicesUtilities.ArgAfterVerb | services-utilities.c:407 | the offset just past "verb " yields exactly the argument |
| ServicesUtilities.StartReply | services-utilities.c:413-421 | NUL-free and contains the sentinel |
| ServicesUtilities.CheckReply | services-utilities.c:451-459 | NUL-free and contains the sentinel |
| ServicesUtilities.KillReply | services-utilities.c:489-497 | NUL-free and contains the sentinel |
| ServicesUtilities.StartStep | services-utilities.c:402-426 | a defined outcome ran the text from offset 13 and is SUCCESS when system returns 0, else PROCESS_START_FAIL; one final reply |
| ServicesUtilities.CheckProcessStep | services-utilities.c:438-464 | a defined outcome ran "pidof -x " plus the text from offset 20 and is SUCCESS when system returns 0, else PROCESS_NOT_RUNNING |
| ServicesUtilities.KillStep | services-utilities.c:476-502 | a defined outcome ran "pkill " plus the text from offset 19 and is SUCCESS when system returns 0, else PROCESS_KILL_FAIL |
| ServicesUtilities.AssistServer.StartProcess | services-utilities.c:402-426 | agrees with StartStep |
| ServicesUtilities.AssistServer.CheckProcessRunning | services-utilities.c:438-464 | agrees with CheckProcessStep |
| ServicesUtilities.AssistServer.KillRunningProcess | services-utilities.c:476-502 | agrees with KillStep |
| Services.VerbTextSelects | services.c:59-119 | each verb's own text selects it when READY_TO_USE is defined; without it only the three log and health verbs do, and the rest run as commands |
| Services.BoardVerbSelects | services.c:76-101 | the four exact board verbs select their handlers, and are commands in the shipped build |
| Services.StartVerbSelects | services.c:102-106 | "StartProcess" selects start_process |
| Services.CheckVerbSelects | services.c:102-112 | "CheckProcessRunning" selects check_process_running; it does not contain "StartProcess" |
| Services.KillVerbSelects | services.c:102-118 | "KillRunningProcess" selects kill_running_process, after the other two substring tests fail |
| Services.DefaultBuildVerbs | services.c:59-124 | in the shipped build a request is one of the three fixed verbs or runs as a command, and it runs as a command exactly when it is none of those texts, even if it starts with or contains one |
| Services.ProcessArgument | services-utilities.c:407-482 | "verb process" hands each process handler exactly the process: offsets 13, 20 and 19 are each verb's length plus one |
| Services.HandlerStep | services.c:59-124 | every handler sends at most one reply, a final one; only reserve and unreserve touch the flag, only clear and execute the log, only the handlers that call system add commands |
| Services.HandlerSucceeds | services.c:59-124 | every handler returns SUCCESS when system returns 0, the log opens, closes and holds some short text, the request is 20 to 100 characters and one write sends every byte |
| ServicesUtilities.SayStepSucceeds | services-utilities.c:212-215 | a reply that fits its buffer and one piece, sent by a write that takes every byte, returns the handler's code |
| Services.HandlerCodes | services.c:59-132 | the value returned is one of the selected handler's codes; execute returns system's status; the handlers that run a command succeed exactly when system returns 0 |
| Services.ReadFailReply | services.c:47 | the read-failure reply is NUL-free and contains the sentinel |
| Services.ServiceReplies | services.c:39-133 | whatever read returns, the client gets at most one reply and it is final; a failed read is undefined after its reply; in the shipped build the flag never changes |
| Services.ServiceRequest | services.c:39-133 | read_socket, whatever the malloc'd bytes beyond those received, the failure reply and the dispatch on the server's state agree with ServiceStep |

## Left out

- Socket setup (`create_socket`, `client_create_socket`, the accept loop in assist-server.c) is not modelled; `read` and `write` are oracles.
- Time: `time(NULL)` and the 600-second deadlines are the length of the oracle sequences, with one entry per loop iteration; `sleep(2)` is dropped.
- `system`, `pidof`, `pkill` and `reboot` are a caller-supplied status; a command's effect is only the output it adds to the log (execute) and the command being recorded.
- A background command's output is appended to the log at once, not later.
- File I/O: the console log is a `LogFile` value and the configuration file a sequence of lines; `fseek`, `ftell` and `fread` failures are not modelled, nor `malloc` failure.
- `get_config_value` assumes each line fits the 256-byte buffer and holds no NUL; `fgets` splitting a longer line is not modelled.
- `atoi` of the port text is a parameter of `DutClient.ClientMain`.
- Every `printf`/`perror` and `DEBUG` block is left out. DEBUG is defined (include/assist.h:46), so the `strlen(receive_data)` at dut-client.c:194 is undefined whenever `client_read_socket` is about to return NULL: after a negative read, after the fifth zero-byte read, or when no read happens at all. `DutClient.ClientReadSocket` returns the NULL the code evidently means instead. The `strlen` of a NULL `console_logs` in write_socket is on a path that is already undefined in the model.
- Heap ownership (`free` exactly once, services.c:126-131; dut-client.c:124-165) is not modelled.
- DutClient.StoreRead: the model's chunk buffer is one byte larger than the declared 4096, so a read that fills it stays in bounds (see Findings); the `chunk_buffer[-1]` store of a failed read is taken to have no effect.
- The one-byte-short allocations at dut-client.c:174 (`malloc(chunk_buffer_len)`, then `strcpy` of up to that many characters plus NUL) and communication.c:247 (`malloc(strlen(line))`) are not modelled; the strings they hold are.
- The overlapping `sprintf(line, "%s", &line[...])` at communication.c:246 is modelled as the intended copy.
- The READY_TO_USE branch of `service_request` calls the reservation handlers with one argument, while they are defined with two (services-utilities.c:279, 307, 337), and the prototypes in include/assist.h declare `service_request(int, int)`. As written that branch does not compile; the model passes the board's flag to the handlers.
- ServicesUtilities.AssistServer.ExecuteRequest: the in-place `request[strlen(request) - 1] = '\0'` is modelled on the value of the request.
- Communication.GetConfigValue: a 255-character key found in a 255-character line makes the `sprintf` at communication.c:246 read `line[256]`, one past the buffer; the model, like `Communication.ConfigValue`, returns the empty value there. The code looks up only "ip_address" and "port".

## Findings

| source | as written | input that shows it | evidently intended | confidence | as-written member | corrected member |
|---|---|---|---|---|---|---|
| services-utilities.c:132 | `malloc(console_logs_len + strlen("\n") + strlen("AssistDataEnds"))` leaves no room for the NUL the final `strcat` writes after the sentinel | a console log holding the single character "a": 16 bytes allocated, 17 written | one more byte for the terminator | not executed | ServicesUtilities.LastStrCatOverflows | ServicesUtilities.AssistServer.CollectConsoleLogs |
| dut-client.c:97 | `chunk_buffer[MAX_SIZE]` then `chunk_buffer[chunk_buffer_len] = '\0'` at line 114 stores past the buffer when read returns all 4096 bytes | any reply of 4095 characters or more: its first piece is 4096 bytes | a buffer of MAX_SIZE + 1 bytes | not executed | DutClient.FullReadOverflows | DutClient.StoreRead |
| dut-client.c:114 | the terminator is stored before the `read` result is checked, so a failed read stores at `chunk_buffer[-1]` | read returning -1 | check the result before storing | not executed | DutClient.FailedReadUnderruns | DutClient.StoreRead |
