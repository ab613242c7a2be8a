# A verified model of Vigile's stateful cores

Vigile is a fleet monitor: a master in Python keeps the nodes' state, alerts
and audit log, and a worker in Go runs on each node. This project models the
ten pieces of it that carry state or invert each other, and proves what they
promise for every input, every interleaving and every run.

`dafny verify dfyconfig.toml` checks the whole project.

| Files | What they model |
|---|---|
| `WsFrames`, `WsConn` | the worker's WebSocket frames (sections 5.2 and 5.3 of RFC 6455), its reader, its reading loop |
| `Sessions`, `SessionSafety`, `Answers`, `Worker` | connecting, sessions, the three semaphores, who is answered, results and reconnects |
| `Thresholds`, `RateLimit`, `AlertStore` | hysteresis, the firing limiter, alerts in memory and in the table |
| `AlertMachine`, `AlertHistory`, `AlertMarks`, `AlertReboots`, `AlertRows`, `AlertEngine` | the alert engine's steps; what its runs mean for thresholds, the sliding hours, reboots and the table; the engine itself |
| `AuditChain`, `AuditLog` | the audit hash chain, its verifier, its optimistic writers |
| `DiskScan`, `DiskWalk`, `DiskUsage`, `ScanPath` | the disk tree, its summary nodes, what its sizes count, the mount boundary |
| `Calendar`, `CronField`, `CronText`, `Cron` | cron expressions and the search for the next trigger |
| `LogTail` | the windowed tail of a log file |
| `Breaker` | the circuit breaker |
| `Investigations`, `InvestigationStories` | admission and life of alert investigations, and what a row's status says about it |
| `RefreshTokens`, `TokenLife`, `SplitRefresh` | rotation of refresh tokens, the life of one token, and the refresh handler as it is awaited |
| `Common`, `Text`, `Decimal` | counting, splitting and joining, decimal text |

Code that changes state step by step is a class or a machine whose methods are
proved against a step function; the theorems are about the step function and
about every run of it. Clocks, random identifiers, the network, the outcome of
each database write and the answers of libraries are inputs.

## What the models show to be false

The code is modelled as it is. Where a natural claim fails, a lemma exhibits
a failing run or input and another says exactly when it holds.

* **A result can reach another session's connection.** `sendJSON` tests the
  context and fetches the connection in two steps. A goroutine of an ended
  session can write to another one's connection exactly when it had passed the
  test, or had fetched such a connection, before
  (`LeaksExactlyWhenPastTheTest`, `ResultsCanReachAnotherSession`). Intents of the
  live session are answered on their own connection (`LiveIntentIsAnswered`), and
  an intent goes unanswered exactly if one of eight things befalls it
  (`UnansweredExactlyIfSetBack`).
* **Escalating an alert whose old row cannot be resolved leaves two firing
  rows**, unless nothing is inserted or the old row had been resolved already
  (`EscalationStaysRecordedExactly`, `FailedEscalationLeavesTwoRows`); a restart
  then does not restore the correspondence (`LoadCorrespondsExactly`).
* **An escalation can lose its alert.** The old alert is resolved before the new
  one is tried; if that is limited or cannot be inserted, a critical reading
  leaves no alert at all (`EscalationCanLoseTheAlert`). A reading moves its alert
  as the hysteresis machine does exactly if the firing or the end it asks for
  succeeds (`JudgeObserves`).
* **The orphan cleanup can lose memory records.** When the list of nodes cannot
  be read back it counts as empty. Firing rows stay recorded exactly if no node
  that keeps one is missing from that list (`OrphanCleanupKeepsRecordsExactly`,
  `OrphanCleanupCanLoseARecord`).
* **The limiter forgets firings that a clock going back makes recent again.**
  What it keeps is its history of the last 60 seconds exactly if no expired
  firing comes back into the window, and then the limit of 10 holds
  (`KeptIsRecentHistory`, `NoWindowHoldsMore`, `ClockGoingBackBreaksTheLimit`).
  A restart empties the limiter, so the limit holds within one process. The same
  condition is exact for the sliding hours of intent results and reconnections
  (`KeptIsTheHourExactly`).
* **The hashed text is ambiguous if a field holds `|`**, the details included,
  which are free text. The docstring says no field can hold it. An entry's text
  determines it exactly if no field does, and the last hash fixes a whole log
  exactly if no row holds one (`TextDeterminesExactlyWholeEntries`,
  `LastHashFixesExactlyWholeLogs`). Otherwise fields can be shifted and the log
  still verifies (`ShiftedDetailsVerify`, `ForgeRow`). Details may hold `|`
  where the fields before them are known not to, in both logs compared.
* **`next_trigger` fails for a yearly schedule before a leap day**: its 525,600
  minutes stop a day short. For a day that every year has, the search fails
  exactly if the leap day lies between one trigger and the next and it starts
  within a day of the first (`YearlySearch`); from its own trigger, exactly in
  leap years for days up to February and in the years before them for later days
  (`YearlyFailsBeforeLeapDays`). `0 0 29 2 *` fails from its own trigger every
  time (`LeapDayAlwaysFails`), and a day no year has is accepted and never found
  (`ImpossibleDayAlwaysFails`).
* **`next_trigger` can start a minute late**: a timestamp within half a
  microsecond below a whole minute is rounded up to it (`SearchStart`). `5/2`
  means 5 alone.
* **A tail can show a cut line as if it were whole**: exactly when one line is
  asked for, the window holds no line end, and it does not start where a line
  starts (`UnmarkedIsRight`, `CutLineGoesUnmarked`). A complete one is marked as
  cut when a blank line was left out of it (`MarkedExactly`).
* **A failed probe may leave the circuit half open.** HALF_OPEN admits any
  number of calls and a success recorded while OPEN zeroes the count; a failed
  probe reopens exactly if count + 1 reaches the threshold
  (`FailedProbeReopens`, `FailedProbeCanStayHalfOpen`).
* **A cancelled insertion keeps its reservation for ever**; otherwise the
  reservations are the investigations in flight
  (`ReservationsAreTheJobsInFlight`, `CancelledInsertionLeaks`).
* **A refresh taken apart can leave two live tokens in a family, or bring a dead
  family back to life** (`TwoRefreshesAtOnce`, `ReuseBetweenTheHalves`). With its
  select and its update as two steps, any run in which each update finds its
  token still alive leaves the rows that whole handlers would
  (`CarefulRunsAreWhole`), and the first update that does not, if it inserts,
  breaks one of the two promises (`FirstCarelessUpdateBreaks`). Logging out with
  a token that is not the newest leaves the family alive (`LogoutKillsIfNewest`).

## Model

| member | source | states |
|---|---|---|
| WsFrames.BigEndianRoundTrip | worker/wsclient.go:231-236 | big-endian bytes of a number that fits read back as the number |
| WsFrames.FromBigEndianRoundTrip | worker/wsclient.go:298-314 | every byte string is the big-endian form of the number read from it |
| WsFrames.MaskTwice | worker/wsclient.go:333-337 | masking with a key is undone by masking again (section 5.3 of RFC 6455) |
| WsFrames.XorIsBitwise | worker/wsclient.go:240-244 | each binary digit of the mask operation tells whether the two digits differ |
| WsFrames.FirstByteCountsMost | worker/wsclient.go:231-236 | in the announced length the first byte is the most significant |
| WsFrames.Decode | worker/wsclient.go:280-340 | an accepted payload is at most 1,048,576 bytes and every frame consumes at least two bytes |
| WsFrames.LengthIsAnnounced | worker/wsclient.go:295-314 | for each of the three length forms the reader finds the sender's payload length |
| WsFrames.DecodeSerialized | worker/wsclient.go:280-340 | any well-formed frame, followed by anything, reads back as its opcode and payload, leaving the rest; one over the cap is rejected |
| WsFrames.DecodedIsSerialized | worker/wsclient.go:280-340 | whatever is accepted is the serialization of a well-formed frame: the reader accepts nothing else |
| WsFrames.StrictPrefixRejected | worker/wsclient.go:280-340 | no strict prefix of a frame decodes to a frame |
| WsFrames.StreamRoundTrip | worker/wsclient.go:280-340 | a concatenation of frames, with any keys and length forms, reads back as exactly that list |
| WsFrames.ClientFrame | worker/wsclient.go:216-249 | what the worker writes for a payload within the cap is a frame its reader format accepts |
| WsFrames.WireLayout | worker/wsclient.go:280-340 | byte by byte where FIN, opcode, mask bit, length, key and payload of any well-formed frame lie |
| WsFrames.ClientFrameOnTheWire | worker/wsclient.go:216-249 | what the worker writes has FIN and the mask bit set, the shortest length form, the key and each payload byte masked with its key byte |
| WsConn.Conn.WriteFrame | worker/wsclient.go:216-249 | header bytes built in place and the masked copy are the serialization of the client frame; success exactly when the open connection takes all of it |
| WsConn.Conn.MaskCopy | worker/wsclient.go:240-244 | the writer's loop masks every byte with the key |
| WsConn.Conn.MaskInPlace | worker/wsclient.go:333-337 | the reader's loop unmasks the buffer in place |
| WsConn.Conn.ReadFrame | worker/wsclient.go:280-340 | the reader consumes the stream and fails exactly as the decoder says, error by error |
| WsConn.Conn.ReadBody | worker/wsclient.go:316-339 | key, size limit, payload and unmasking refine the decoder's last stage |
| WsConn.Conn.Close | worker/wsclient.go:343-356 | the first close writes one close frame at most and ends the connection; later ones do nothing |
| WsConn.Conn.React | worker/wsclient.go:258-276 | a ping is answered by a pong with its payload, a close ends the reading, the rest is skipped |
| WsConn.Conn.ReadText | worker/wsclient.go:252-278 | returns the next text frame of the stream, after answering exactly the pings before it, or nothing at the close or an error |
| WsConn.BeforeCloseIs | worker/connection.go:273-298 | what is read before the first close frame is a prefix without one |
| WsConn.TextRead | worker/wsclient.go:252-278 | one more text extends the texts delivered and the pongs written by exactly its share |
| WsConn.Conn.ReadSession | worker/connection.go:273-298 | over a whole session the texts are exactly the text frames before the first close frame, the pongs exactly the answers to its pings, in order, and a close frame is written exactly if the peer sent one to an open connection whose write lock is free |
| WsConn.WrittenReadsBack | worker/wsclient.go:216-249 | when no write is cut short the peer reads back the messages written, in order |
| Sessions.AdvanceKeepsSlots | worker/connection.go:375-476 | every exit of a goroutine, panic and cancel included, releases exactly the slots it holds |
| Sessions.AdmitKeepsSlots | worker/connection.go:369-449 | admission takes a slot exactly when a goroutine starts that will release it |
| Sessions.StepKeepsConnection | worker/connection.go:518-637 | sessions' connections are all different, and the worker's connection is the last session's while it serves |
| Sessions.StepKeepsLive | worker/connection.go:245-247 | only the serving session's context is live, and `ws` is then its connection |
| Sessions.StepKeepsInv | worker/connection.go:231-504 | every atomic step of any goroutine keeps all of the above |
| SessionSafety.RunKeepsInv | worker/connection.go:518-612 | so does every run, through disconnects, reconnects and enrollments |
| SessionSafety.SessionLimits | worker/connection.go:301-478 | in every reachable state of a session at most one mutation executes, one scan is admitted, four read-only intents execute; slots in use equal their holders; each intent has at most one result |
| SessionSafety.LiveSessionOwnsConnection | worker/connection.go:231-247 | while a session's context is live the worker is not stopped, its connection and epoch are that session's, and no other session is live |
| SessionSafety.FailuresBackOff | worker/connection.go:541-576 | after a failed attempt no connection is dialed in any run before the backoff has been waited out |
| SessionSafety.EndedSessionIsMadeUpFor | worker/connection.go:583-612 | after a session that ended the next dial needs no wait |
| SessionSafety.ResultsStayInTheirSession | worker/connection.go:641-658 | if no session ends between a goroutine's context test and its fetch of the connection, no result ever reaches another session's connection |
| SessionSafety.LeaksExactlyWhenPastTheTest | worker/connection.go:641-658 | a goroutine of an ended session can, in some run, have written to another session's connection if and only if it has, or has fetched one, or had passed the context test while another connection is or can become the worker's; stopped workers included |
| SessionSafety.DeadTaskStaysHome | worker/connection.go:381-384 | one that is not past the test never does so, in any run |
| SessionSafety.PlayedIsARun | worker/connection.go:518-612 | any schedule, its impossible events passed over, is a run that keeps the invariant; of a run nothing is passed over |
| SessionSafety.ResultsCanReachAnotherSession | worker/connection.go:641-658 | a run from the start in which a result does reach another session's connection |
| SessionSafety.AdvanceDecreasesWork | worker/connection.go:375-476 | every step of a goroutine uses up a measure |
| SessionSafety.OnlyWaitersBlock | worker/connection.go:406-421 | a goroutine that does not wait for a query slot can always go on |
| SessionSafety.WaitersHaveUnblockedHolders | worker/connection.go:406-462 | when no query slot is free, exactly four goroutines hold one and each of them can go on |
| SessionSafety.NoDeadlock | worker/connection.go:406-462 | unless all goroutines are gone one of them can go on |
| SessionSafety.SessionsDrain | worker/connection.go:369-478 | with no new intents a session takes a bounded number of steps and, when it can take no more, holds no slot |
| Answers.AdmitsExactlyIfFree | worker/connection.go:369-449 | an intent starts a goroutine if no other of its kind holds the only place, else it is over at once, answered if the write succeeds |
| Answers.ArrivalIsAdmittedOrRefused | worker/connection.go:369-449 | so in every run, the busy answer going to the live session's own connection |
| Answers.SilentExactlyIfSetBack | worker/connection.go:375-476 | from any reachable state, in any run: an intent that is over went unanswered if and only if it met a panic, a result that does not parse, a write error, an abandoned wait, a stale epoch, a cancelled context, no connection, or a busy answer not written |
| Answers.UnansweredExactlyIfSetBack | worker/connection.go:375-476 | so for every intent of every run from the start, which has at most one answer |
| Answers.LiveIntentIsAnswered | worker/connection.go:641-658 | while its session is live, an intent that no failure of its own befell is answered exactly once, on the session's own connection, whatever else happens |
| Answers.LeftAloneItAnswers | worker/connection.go:375-476 | in every reachable state a goroutine of the live session that finds a slot, if it waits for one, runs to its end when left to go on and has then answered |
| Worker.WorkerConn.BeginSession | worker/connection.go:231-247 | starting a session is the machine's step: a new context, epoch and set of semaphores, or an error without a connection |
| Worker.WorkerConn.ReceiveIntent | worker/connection.go:369-449 | receiving an intent is the machine's step: a goroutine, or WORKER_BUSY at once |
| Worker.WorkerConn.DropConnection | worker/connection.go:600-637 | disconnecting is the machine's step |
| Worker.RunGoroutine | worker/connection.go:375-476 | the goroutine's code, stage by stage, is the machine's step, or is blocked when the machine is |
| Worker.RunDeferred | worker/connection.go:375-421 | the deferred releases run in reverse order and receive one slot each |
| Worker.WorkerConn.AdvanceTask | worker/connection.go:375-476 | one step of any goroutine keeps the invariant of the whole worker and uses up its session's work |
| Worker.WorkerConn.Play | worker/connection.go:518-612 | any schedule leads to the state its possible events lead to, in order; that state keeps the invariant, and results stay in their session if the run is careful |
| AuditChain.JoinInjective | master/core/audit.py:109-119 | joining with the separator is injective when only the last field may hold it |
| AuditChain.RawSplitsBack | master/core/audit.py:109-119 | if no field holds the separator, splitting the hashed text gives back the seven fields in the documented order |
| AuditChain.TimestampTextReads | master/core/audit.py:113 | the text of a timestamp reads as a sign, whole seconds and six decimals within half a microsecond of it |
| Decimal.RoundsToNearest | master/core/audit.py:113 | rounding to microseconds goes to a nearest integer, and to the even one of two |
| AuditChain.TimestampTextInjective | master/core/audit.py:113 | timestamps with one text agree to six decimals, signs included |
| AuditChain.RawInjective | master/core/audit.py:109-119 | equal hashed texts mean equal hashed fields, a missing node and an empty one alike, if one row holds no separator whatever the other holds, or neither holds one before its details |
| AuditChain.ShiftFields | master/core/audit.py:104-119 | an entry with a separator in any field has a different twin with the same text |
| AuditChain.TextDeterminesExactlyWholeEntries | master/core/audit.py:109-119 | the text of an entry determines it among all entries if and only if no field holds the separator |
| AuditChain.RawFixesSequence | master/core/audit.py:109-119 | the previous hash and the sequence are fixed by the text whatever the other fields hold |
| AuditChain.SeparatorInsideFieldIsAmbiguous | master/core/audit.py:104-108 | two different entries with one hashed text, against the docstring |
| AuditChain.DetailsCanShift | master/core/audit.py:104-119 | two more, of which one holds separators in its details alone |
| AuditLog.VerifyChain | master/core/audit.py:213-316 | with `k` rows asked for, or all: valid exactly if each of the last `k` rows hashes to what it says and links to the one before it in sight; a valid report has total `k`, an invalid one names the first wrong row; no earlier row matters |
| AuditLog.LastRowsDecide | master/core/audit.py:265-304 | the declarative chain over a suffix is right exactly if each row of the suffix is, at its own place in the table |
| AuditLog.LastHashFixesTheLog | master/core/audit.py:265-304 | if a complete log that verifies holds no separator, any complete log that verifies and ends in the same hash, whatever it holds and however long it is, agrees with it in every hashed field of every row, or they exhibit a collision or a preimage of the genesis sentinel |
| AuditLog.ForgeRow | master/core/audit.py:265-304 | a row with a separator can be replaced by a different one with every text, hash and link unchanged |
| AuditLog.LastHashFixesExactlyWholeLogs | master/core/audit.py:265-304 | so the last hash fixes a log if and only if no row of it holds a separator |
| AuditLog.ShiftedDetailsVerify | master/core/audit.py:265-304 | for every hash function two different logs that verify and end alike without a collision, one with separators in its details alone |
| AuditLog.NextKeepsTable | master/core/audit.py:150-201 | each head read, insert and retry of any writer keeps sequences 1..n and every link, and only appends |
| AuditLog.RunKeepsTable | master/core/audit.py:150-201 | so does every run |
| AuditLog.SelectionVerifies | master/core/audit.py:240-262 | the last `k` rows of a well-linked log verify, for every `k` |
| AuditLog.EveryInterleavingVerifies | master/core/audit.py:123-210 | under every interleaving the log grows, is numbered 1..n, and its last `k` rows verify for every `k` |
| AuditLog.EveryEntryIsLoggedOnce | master/core/audit.py:150-201 | under every interleaving the log holds each entry exactly as often as writers were told that it is logged; nothing is lost, nothing written twice |
| AuditLog.AttemptsAreLosses | master/core/audit.py:150-201 | in every run a writer still trying has lost as many inserts as it made attempts, a refused one five, a successful one fewer |
| AuditLog.Log.Attempt | master/core/audit.py:151-201 | one attempt adds the others' rows and then the entry, unless they came first |
| AuditLog.Log.LogAction | master/core/audit.py:123-210 | the entry becomes the last row at the first attempt nobody gets in between; it is refused for its sequence exactly when all five are lost, for its hash only with a collision; the log is what the others inserted and, if it is not refused, the entry once |
| AuditLog.HashConflictCollides | master/core/audit.py:191-201 | an insert refused for its hash exhibits a collision |
| Thresholds.ReplayIsHighestSinceReset | master/core/alert_engine.py:263-312 | after any readings the active severity is the highest reached since the last resolving one, absent if there was none |
| Thresholds.HighestIsUnique | master/core/alert_engine.py:61-73 | that description determines the severity |
| Thresholds.SeverityNeverDrops | master/core/alert_engine.py:282-312 | while active the severity never drops; only a resolving reading ends the alert |
| Thresholds.BuiltinsResetWhenResolved | master/core/alert_engine.py:75-167 | for every built-in threshold the alert ends at exactly the readings `is_resolved` accepts: its recovery level and beyond it on the safe side |
| Thresholds.BuiltinsFireBeyondTheirLevels | master/core/alert_engine.py:61-167 | a built-in threshold reaches the worst level that the reading is strictly beyond |
| Thresholds.BuiltinNamesAreDistinct | master/core/alert_engine.py:99-167 | no two built-in thresholds share an alert |
| RateLimit.RecentTwiceExactly | master/core/alert_engine.py:618-629 | pruning earlier does not change a later pruning if and only if nothing expired comes back into the window; it never leaves more |
| RateLimit.KeptIsRecentHistory | master/core/alert_engine.py:618-629 | after every attempt the kept list is the full admission history of the last 60 seconds, if and only if no admitted firing expired at one attempt is recent at the next |
| RateLimit.NonDecreasingRevivesNothing | master/core/alert_engine.py:618-629 | which holds whenever the clock does not go back |
| RateLimit.SmallStepBackIsHarmless | master/core/alert_engine.py:618-629 | and for some clocks that do |
| RateLimit.NoWindowHoldsMore | master/core/alert_engine.py:618-629 | under that condition no 60-second window ever holds more than 10 admitted firings |
| RateLimit.AdmittedExactlyWhenRoom | master/core/alert_engine.py:618-629 | and a firing is admitted if and only if fewer than 10 of those admitted before are younger than 60 seconds |
| RateLimit.ClockGoingBackBreaksTheLimit | master/core/alert_engine.py:618-629 | without it a window can hold more |
| AlertStore.InsertKeepsOneToOne | master/core/alert_engine.py:504-577 | a successful firing keeps firing rows and memory records in step |
| AlertStore.ResolveKeepsOneToOne | master/core/alert_engine.py:579-612 | so does a successful resolve |
| AlertStore.EscalationKeepsRecordsExactly | master/core/alert_engine.py:282-308 | raising a severity, with an insert that succeeds, keeps every firing row recorded if and only if the resolve succeeded or the old row no longer fired |
| AlertStore.AcknowledgeKeepsRecords | master/api/admin.py:1149-1164 | an acknowledge keeps every firing row recorded, and leaves a record without row exactly when it resolves one |
| AlertStore.PurgeKeepsOneToOne | master/core/alert_engine.py:710-728 | purging old resolved rows keeps both directions |
| AlertStore.OrphanCleanupKeepsRecordsExactly | master/core/alert_engine.py:660-704 | the orphan cleanup keeps every firing row recorded if and only if no node that keeps one is missing from the second list |
| AlertStore.OrphanCleanupCanLoseARecord | master/core/alert_engine.py:674-688 | when the node list cannot be read back, a firing row loses its record |
| AlertStore.LoadedIsBacked | master/core/alert_engine.py:210-235 | every record loaded from any table has its firing row |
| AlertStore.LoadCorrespondsExactly | master/core/alert_engine.py:210-235 | the load makes memory and table correspond one to one if and only if it reads every firing row and no two of them share an alert |
| AlertStore.RebuildRestoresMemory | master/core/alert_engine.py:210-235 | memory rebuilt from the table alone is the memory that was lost |
| AlertMachine.JudgeObserves | master/core/alert_engine.py:272-312 | one reading touches no other alert, limiter list or row, and moves its own alert as the hysteresis machine does if and only if the firing it asks for succeeds and the end it asks for does |
| AlertMachine.EscalationCanLoseTheAlert | master/core/alert_engine.py:283-308 | an escalation that resolves the old alert and then is limited or cannot insert leaves no alert and no firing row |
| AlertMachine.EscalationStaysRecordedExactly | master/core/alert_engine.py:283-308 | an escalation keeps every firing row recorded if and only if its resolve succeeds, or it inserts nothing, or the old row no longer fired |
| AlertMachine.JudgeStaysInStep | master/core/alert_engine.py:272-312 | and keeps memory and table in step when its resolve succeeds |
| AlertMachine.FollowSettles | master/core/alert_engine.py:323-338 | an alert that follows a condition is active exactly then, unless its write fails or it is limited; a new one has the identifier, severity and time given, an old one is left as it was; an unneeded write is not made |
| AlertMachine.RebootFollowsUptime | master/core/alert_engine.py:314-338 | the reboot alert, a warning, is active exactly when the new report's uptime is more than five seconds below the last one's; without both nothing changes |
| AlertMachine.TrackFollowsFailures | master/core/alert_engine.py:463-498 | the failure alert, a warning, is active exactly when more than a fifth of at least five results in the pruned list are failures |
| AlertMachine.NodeAlertsFollowState | master/core/alert_engine.py:405-457 | a lost and a stale node's alerts fire as critical, a connected node's are resolved, and its flap alert, a warning, is active exactly when the pruned list holds five reconnections |
| AlertMachine.StepStaysInStep | master/core/alert_engine.py:175-728 | every event of the engine keeps firing rows recorded, and one to one with memory unless rows are taken from outside |
| AlertMachine.RunStaysInStep | master/core/alert_engine.py:175-728 | in every run whose writes succeed every firing row has its record, one to one unless an acknowledge or a deleted node took rows since the last restart |
| AlertMachine.FailedEscalationLeavesTwoRows | master/core/alert_engine.py:283-308 | a warning, then a critical reading whose resolve fails: two firing rows of one alert, one of them without record |
| AlertHistory.JudgeAllObserves | master/core/alert_engine.py:263-312 | one report judges every threshold of its node by its own reading, whatever the others do |
| AlertHistory.JudgeAllFrame | master/core/alert_engine.py:263-312 | and leaves all other alerts alone |
| AlertHistory.ReportObserves | master/core/alert_engine.py:241-312 | also after the reboot detection before it |
| AlertHistory.OtherEventsKeepAlert | master/core/alert_engine.py:175-728 | no other event changes a threshold's alert or its limiter list |
| AlertHistory.BuiltinsHaveOwnNames | master/core/alert_engine.py:99-167 | no built-in threshold's alert goes by another alert's name |
| AlertHistory.HighestSinceReset | master/core/alert_engine.py:241-312 | in any run, in the middle of whatever happens to other alerts and nodes: if the firings and ends that the threshold's readings ask for succeed, with fresh identifiers and firings too sparse for the limiter, the severity is the highest reached since the last resolving reading, absent if there was none |
| AlertMarks.LastHourTwiceExactly | master/core/alert_engine.py:474-481 | pruning to the hour earlier does not change a later pruning if and only if nothing old comes back |
| AlertMarks.KeptIsTheHourExactly | master/core/alert_engine.py:474-481 | after every mark the pruned list is all marks of the last hour, if and only if none comes back into it |
| AlertMarks.RunMarks | master/core/alert_engine.py:429-481 | in any run a node's lists are its intent results and reconnections since they were last emptied, so pruned |
| AlertMarks.FailureAlertMeansTheHour | master/core/alert_engine.py:463-498 | so in any run whose clock brings nothing back the failure alert is active exactly when more than a fifth of at least five of the node's results of the last hour failed |
| AlertMarks.FlapAlertMeansTheHour | master/core/alert_engine.py:424-457 | and the flap alert exactly when the node reconnected at least five times within the last hour |
| AlertReboots.RunReports | master/core/alert_engine.py:268-344 | the report the engine holds of a node after any run is its last one since it was forgotten |
| AlertReboots.RebootAlertMeansUptimeFell | master/core/alert_engine.py:241-344 | after a report in any run the reboot alert is active exactly when its uptime is more than five seconds below that of the node's report before, if both have one and the write succeeds; else it stays |
| AlertRows.RowGoesExactly | master/core/alert_engine.py:504-728 | in any event a row goes if and only if a purge finds it resolved before the cutoff or its node is gone; else it is as it was, or fired and is now resolved; an acknowledgement resolves the row it names and no other |
| AlertRows.RowsAreHistory | master/core/alert_engine.py:504-728 | in every run a row that nothing removes keeps its alert, severity and time, and once resolved never changes |
| AlertEngine.Engine.Initialize | master/core/alert_engine.py:210-235 | from any table the loop over firing rows leaves every record backed, and a one-to-one correspondence if and only if it read all of them and no two share an alert |
| AlertEngine.Engine.IsRateLimited | master/core/alert_engine.py:618-629 | refuses exactly when ten firings are recent, and keeps the list the limiter theory describes |
| AlertEngine.Engine.FireAlert | master/core/alert_engine.py:504-577 | fires exactly when not limited and the insert succeeds, changing memory and table together |
| AlertEngine.Engine.ResolveAlert | master/core/alert_engine.py:579-612 | resolves memory and row together, or nothing when the write fails |
| AlertEngine.Engine.EvaluateThreshold | master/core/alert_engine.py:272-312 | the branches for one reading make the machine's step and keep memory and table in step |
| AlertEngine.Engine.EvaluateBuiltinThresholds | master/core/alert_engine.py:263-312 | the loop judges every threshold whose metric the report holds, in order |
| AlertEngine.Engine.DetectReboot | master/core/alert_engine.py:314-338 | the branches make the machine's step on the last report's uptime |
| AlertEngine.Engine.EvaluateMetrics | master/core/alert_engine.py:241-261 | the reboot is judged by the old report, the thresholds by the new one |
| AlertEngine.Engine.TrackIntentResult | master/core/alert_engine.py:463-498 | adds the result, prunes the list and settles the failure alert on it, as the machine's step |
| AlertEngine.Engine.EvaluateNodeState | master/core/alert_engine.py:405-457 | the branches make the machine's step |
| AlertEngine.Engine.Restart | master/core/alert_engine.py:210-235 | on any table; restores exactly the memory that was lost if it corresponded to the table |
| AlertEngine.Engine.Play | master/core/alert_engine.py:175-728 | any events are a run of the machine, with all that runs of it keep and mean |
| DiskScan.SummaryConserves | worker/disk_scan.go:279-310 | folding children into summary nodes neither creates nor loses a byte and leaves at most max(0, maxChildren) + 2 nodes |
| DiskScan.SummaryKeepsTheLargest | worker/disk_scan.go:279-291 | kept children are at or above the minimum, and none of those folded for want of room is larger |
| DiskScan.SummaryAccounts | worker/disk_scan.go:279-310 | the two summary nodes, in their places and with their names, weigh what all children below the minimum weigh and what the other unkept children weigh |
| DiskScan.AllWithin | worker/disk_scan.go:180-260 | bounds of the children add up to the bound of their list |
| DiskScan.ParentWithin | worker/disk_scan.go:250-259 | a node over bounded children is bounded one level up: size conserved at every level, height, and the geometric series for the node count |
| DiskScan.SortDescending | worker/disk_scan.go:269-271 | the sort permutes the children into descending order and keeps their total |
| DiskScan.AggregateChildren | worker/disk_scan.go:264-311 | the loop's result is the fold of some descending permutation of the children |
| DiskWalk.KidsWeighTheUsage | worker/disk_scan.go:250-256 | the reported children of a folder weigh what disk usage says, whatever was folded below them |
| DiskUsage.UsageIsTheFlatSum | worker/disk_scan.go:180-256 | the size reported is the sum over the flat list of all the walk meets: everything counts with its own bytes, but an opened folder below which anything weighs does not |
| DiskUsage.CountersAreFlatCounts | worker/disk_scan.go:180-248 | the two counters count what is met and can be looked at, and what is denied |
| DiskWalk.SummaryWithin | worker/disk_scan.go:264-311 | folding keeps every node within the bounds |
| DiskWalk.FolderWithin | worker/disk_scan.go:250-259 | so a folder is within the bounds one level up |
| DiskWalk.DirSize | worker/disk_scan.go:250-253 | the summing loop computes the children's total |
| DiskWalk.Walk.WalkDir | worker/disk_scan.go:180-260 | wherever the context ends it, the tree conserves sizes and is within height max(0, maxDepth) and the geometric bound; if nothing ends it the node reports the entry, its size is the disk usage, and the counters are the visits and denials |
| DiskWalk.Walk.WalkEntries | worker/disk_scan.go:211-248 | the entry loop reports every entry that is not hidden, a link or unreadable, in order |
| DiskWalk.HandleDiskScan | worker/disk_scan.go:125-176 | only a path inside a mount is walked, an answer is within the bounds, and an unended walk answers with the report, childless exactly when it would be too long |
| ScanPath.TailBoundary | worker/disk_scan.go:68-72 | prefix-and-separator on texts is prefix on lists of names |
| ScanPath.BoundaryIsContainment | worker/disk_scan.go:58-73 | the test accepts exactly the mount and what lies below it, the root included |
| ScanPath.IsAllowedScanPath | worker/disk_scan.go:48-75 | allowed exactly when the path resolves below a mount that resolves; never without mounts |
| ScanPath.ChildOfCanonical | worker/disk_scan.go:221 | joining and cleaning a canonical directory's path and an entry's name adds just that name |
| Calendar.YearLength | master/core/cron_parser.py:104-106 | the closed form's years have 366 days exactly in leap years |
| Calendar.NextDayIsNext | master/core/cron_parser.py:123-123 | the calendar's next day is valid and has the next ordinal |
| Calendar.OrdinalOfDateOf | master/core/cron_parser.py:104-106 | counting days one by one agrees with the closed form |
| Calendar.NextMinuteIsNext | master/core/cron_parser.py:123-123 | adding a minute to the wall clock moves to the next minute, over every carry |
| Calendar.OrdinalOrders | master/core/cron_parser.py:104-106 | ordinals order dates by year, month and day, so no two dates share one |
| Calendar.MinuteIsAt | master/core/cron_parser.py:104-106 | every valid wall clock time is the one shown at its minute |
| CronField.RangeSetMembers | master/core/cron_parser.py:68-68 | a stepped range holds exactly the values its start reaches in whole steps |
| CronField.FieldSetRefuses | master/core/cron_parser.py:28-66 | a field is refused exactly for a component that is not understood |
| CronField.FieldSetMembers | master/core/cron_parser.py:26-70 | otherwise it allows exactly what some component allows |
| CronField.FieldSetInBounds | master/core/cron_parser.py:60-70 | which is never empty and never out of bounds |
| CronField.PartRange | master/core/cron_parser.py:32-66 | an accepted component is a non-empty range within the bounds with a positive step |
| CronField.UpTo | master/core/cron_parser.py:68-68 | the stepping loop builds the range |
| CronField.ParseCronField | master/core/cron_parser.py:13-70 | the loop over components, with its refusals, computes the field's set |
| CronText.ParseExpression | master/core/cron_parser.py:79-99 | five words, five fields, Sunday as 0 or 7 |
| CronText.ReadSchedulesAreSound | master/core/cron_parser.py:79-99 | a schedule that is read has no empty field and names only real minutes, hours, days, months and weekdays |
| CronText.ItemReadsBack | master/core/cron_parser.py:32-66 | a written component, with or without step, is understood as what it denotes |
| CronText.FieldReadsBack | master/core/cron_parser.py:28-70 | a written list is read as the union of its items, or refused for one out of bounds |
| CronText.ExpressionReadsBack | master/core/cron_parser.py:79-99 | writing any expression and reading it gives the schedule its items denote, or refuses it |
| CronText.DenoteMeans | master/core/cron_parser.py:16-20 | what a field denotes, value by value |
| CronText.WrittenIsRead | master/core/cron_parser.py:79-99 | a written expression is read if and only if every item has a positive step and lies within its field's bounds |
| CronText.SundayTwice | master/core/cron_parser.py:92-97 | in the last field 0 and 7 name the same day |
| CronText.WrittenExpressionFires | master/core/cron_parser.py:79-121 | a written expression fires at exactly the minutes whose minute, hour, day, month and day of the week its fields name, item by item; a number with a step names itself alone |
| Cron.EpochIs1970 | master/core/cron_parser.py:104 | timestamp zero shows as 1 January 1970, 00:00 |
| Cron.ThursdayIn1970 | master/core/cron_parser.py:110-112 | 1 January 1970 is a Thursday in cron's count |
| Cron.DowOfNextDay | master/core/cron_parser.py:110-112 | the next day is the next day of the week, Sunday after Saturday |
| Cron.FiresExactly | master/core/cron_parser.py:110-120 | a schedule fires exactly when all five fields name the moment, the day of the week being counted on from that Thursday |
| Cron.StartOfWholeMinute | master/core/cron_parser.py:104-106 | feeding an answer back starts the search at its own minute |
| Cron.FirstAfterIsFirst | master/core/cron_parser.py:101-102 | the first whole minute strictly after a timestamp, characterized |
| Cron.SearchStart | master/core/cron_parser.py:104-106 | the search starts there, one minute late exactly when rounding lifts the timestamp to a whole minute |
| Cron.NextTrigger | master/core/cron_parser.py:101-125 | returns the least matching minute after the start within 525,600, on a day of the week that the schedule names, or fails exactly when there is none |
| Cron.ChainEnumerates | master/core/cron_parser.py:101-125 | feeding answers back visits exactly the matching minutes, in order, none twice |
| Cron.SearchingOnFindsAllBeforeAGap | master/core/cron_parser.py:101-125 | searching on until a search fails finds exactly the matching minutes up to a gap: any later one lies more than 525,600 minutes after the last |
| Cron.YearlySearch | master/core/cron_parser.py:101-125 | for every day of the year that each year has and every start after one of its triggers: the search fails if and only if a leap day lies ahead of that trigger and the start is within a day of it, else it finds the next year's |
| Cron.YearlyFailsBeforeLeapDays | master/core/cron_parser.py:108-109 | from its own trigger in a year the search fails if and only if that year is a leap year, for days up to February, or the next one is, for later days |
| Cron.YearlyFailsInLeapYears | master/core/cron_parser.py:108-109 | for New Year's Day: exactly in leap years |
| Cron.LeapDayAlwaysFails | master/core/cron_parser.py:108-109 | for 29 February: always |
| Cron.ImpossibleDayAlwaysFails | master/core/cron_parser.py:108-125 | for a day that no year has: always, from any start |
| LogTail.ReadWindow | worker/logs.go:244-261 | the window and its lines from the first whole one on |
| LogTail.Filter | worker/logs.go:266-272 | the loop drops carriage returns and blank lines |
| LogTail.TailFile | worker/logs.go:237-277 | the answer is the window's tail, marked exactly when the window starts late and shows fewer lines than asked |
| LogTail.LinesOfWindow | worker/logs.go:252-258 | the file's lines end with the window's, the first one completed |
| LogTail.WholeFileWindow | worker/logs.go:248-277 | a window from the start of the file shows the tail of the file |
| LogTail.WindowShowsTail | worker/logs.go:258-272 | a window with a line end shows the tail of the whole file, of as many lines as it holds whole |
| LogTail.OneLineWindow | worker/logs.go:258-276 | what a window without a line end shows, and when it is marked |
| LogTail.UnmarkedIsRight | worker/logs.go:258-276 | an unmarked answer is right if and only if the window holds a line end, or nothing was asked for, or it starts where a line starts |
| LogTail.MarkedExactly | worker/logs.go:258-276 | with a line end in the window the answer is marked if and only if it holds fewer whole lines than asked for, or one of the file's last lines asked for is blank |
| LogTail.ShownConcat | worker/logs.go:266-272 | blank lines alone are left out and the others keep their order, whatever list they are part of |
| LogTail.AnswerSplitsBack | worker/logs.go:273-277 | the text answered splits back into exactly the lines shown |
| LogTail.TrimRightCutsLineEnds | worker/logs.go:258 | only line ends and carriage returns are cut off the end |
| LogTail.CutLineGoesUnmarked | worker/logs.go:259-261 | an input whose unmarked answer is wrong |
| Breaker.CountIsTrailingRun | master/core/circuit_breaker.py:105-118 | under any overlap of calls the count is the trailing run of failures, and CLOSED is below the limit |
| Breaker.StateMovesExactly | master/core/circuit_breaker.py:105-160 | under any overlap, which action leaves the circuit open or half open, in terms of the history, both ways |
| Breaker.OpenUntilLate | master/core/circuit_breaker.py:148-160 | in every run an open circuit stays open and admits no call until a check comes late or it is reset |
| Breaker.TraceKeepsSettled | master/core/circuit_breaker.py:80-118 | an uninterrupted call keeps the state in step with the history |
| Breaker.RejectedExactlyWhenTripped | master/core/circuit_breaker.py:148-160 | without overlap a call is rejected if and only if the run reached the threshold and less than the timeout has passed since the last failure |
| Breaker.FailedProbeReopens | master/core/circuit_breaker.py:113-118 | with overlap a failed probe reopens if and only if the count is still high enough |
| Breaker.FailedProbeCanStayHalfOpen | master/core/circuit_breaker.py:105-118 | a run in which it is not |
| Breaker.CircuitBreaker.Check | master/core/circuit_breaker.py:148-160 | checks, and admits or rejects, as the step function says |
| Breaker.CircuitBreaker.RecordSuccess | master/core/circuit_breaker.py:105-111 | a success zeroes the count in every state |
| Breaker.CircuitBreaker.RecordFailure | master/core/circuit_breaker.py:113-118 | a failure counts, is timed, and may open the circuit |
| Breaker.CircuitBreaker.Invoke | master/core/circuit_breaker.py:80-103 | a call that nothing overlaps: rejected, returned or raised |
| Breaker.CircuitBreaker.InvokeAll | master/core/circuit_breaker.py:80-103 | any sequence of calls, checks and resets: each call is rejected exactly when the history says so |
| Investigations.JobStepKeeps | master/core/investigation_manager.py:190-274 | a row's status moves only along its life cycle and always says how far the coroutine got |
| Investigations.JobStepMoves | master/core/investigation_manager.py:127-274 | how each step changes who is in flight and who holds the semaphore |
| Investigations.ResumeKeepsInv | master/core/investigation_manager.py:154-274 | counters and holders stay in step through every interleaved step |
| Investigations.RunKeepsInv | master/core/investigation_manager.py:99-274 | and through every run |
| Investigations.ReservationsAreTheJobsInFlight | master/core/investigation_manager.py:125-274 | running <= in flight <= reserved <= cap always; reserved equals the jobs in flight if and only if no insertion was cancelled |
| InvestigationStories.DroppedExactlyWhenFull | master/core/investigation_manager.py:125-154 | in every run an alert is dropped if and only if the jobs in flight and the cancelled insertions make up the cap when it fires |
| InvestigationStories.StoryTells | master/core/investigation_manager.py:99-274 | a job's story is how the run's events ended its awaits |
| InvestigationStories.StatusTellsTheStory | master/core/investigation_manager.py:204-272 | in every run a row's status, value by value, if and only if: `completed` when the analysis succeeded and was saved, `skipped` when there was no model and that was saved, `failed` when the analysis raised and that was saved or a failure was noted; a failure is noted only after a status write that broke |
| InvestigationStories.VerdictTellsTheStory | master/core/investigation_manager.py:125-274 | the verdict is how the insertion ended; a coroutine is cut off exactly by a cancellation, a session that does not open or a failure that cannot be noted |
| Investigations.CancelledInsertionLeaks | master/core/investigation_manager.py:154-171 | with a cap of one, a single cancelled insertion makes every later alert be dropped, in runs of any length |
| Investigations.AcquireNeverWaits | master/core/investigation_manager.py:197-202 | a spawned investigation always finds the semaphore free |
| Investigations.StepMovesForward | master/core/investigation_manager.py:125-184 | a verdict once given stays, and an ended job never changes |
| Investigations.VerdictsAreFinal | master/core/investigation_manager.py:125-184 | so in every longer run each alert keeps its one verdict, and each finished row its status |
| Investigations.TasksGoOn | master/core/investigation_manager.py:190-274 | whatever has not ended can go on |
| Investigations.ResumeUsesWork | master/core/investigation_manager.py:190-274 | and each step uses up a measure, so every run drains |
| Investigations.DrainedIsFree | master/core/investigation_manager.py:273-274 | when all have ended every slot and every reservation is back, cancelled insertions' excepted, and a finished row is terminal exactly if its coroutine was not cut off |
| Investigations.InvestigationManager.OnAlertFired | master/core/investigation_manager.py:125-154 | check and reservation are one step |
| Investigations.InvestigationManager.AfterInsert | master/core/investigation_manager.py:156-184 | a failed insertion gives the reservation back, a good one spawns the investigation |
| Investigations.InvestigationManager.Continue | master/core/investigation_manager.py:201-274 | the body from await to await; leaving it releases slot and reservation together |
| Investigations.InvestigationManager.Play | master/core/investigation_manager.py:99-274 | any sequence of events is a run of the machine |
| RefreshTokens.StepKeepsInv | master/api/auth.py:215-504 | every handler keeps: a live token is the newest of its family, hashes are unique, a family has one owner; rows are only added and revoked |
| RefreshTokens.RunKeepsInv | master/api/auth.py:215-504 | so every family has at most one live token in every run |
| RefreshTokens.DeadStepStaysDead | master/api/auth.py:313-384 | a family without live token gets none from any handler |
| RefreshTokens.DeadFamiliesStayDead | master/api/auth.py:313-384 | nor in any continuation of any run |
| RefreshTokens.ReuseKillsTheFamily | master/api/auth.py:313-335 | presenting a revoked token kills its family and no other |
| RefreshTokens.PasswordChangeKillsTheUsersFamilies | master/api/auth.py:491-495 | a password change kills exactly its user's families |
| RefreshTokens.LogoutKillsIfNewest | master/api/auth.py:427-431 | a logout leaves the family dead if and only if the token presented was live or the family dead before |
| RefreshTokens.RefreshExchanges | master/api/auth.py:300-391 | a refresh succeeds exactly for a known, live, unexpired token of an active user, and replaces it within its family |
| RefreshTokens.RevokedStaysRevoked | master/api/auth.py:313-361 | a revoked token stays so for ever |
| RefreshTokens.ExchangedAtMostOnce | master/api/auth.py:313-391 | no token is exchanged twice in any run, and the second attempt kills the family |
| TokenLife.LoginIssues | master/api/auth.py:163-252 | a login that is let in adds one live token with its hash, user, family and expiry, unless the hash is taken; any other changes nothing |
| TokenLife.RefreshAnswers | master/api/auth.py:300-398 | which token gets which answer, both ways, and that only an exchange or a reuse changes any row |
| TokenLife.SpentExactly | master/api/auth.py:149-505 | a request revokes a live token if and only if it exchanges it, presents a revoked one of its family, logs out with it, or changes its user's password |
| TokenLife.LivesUntilSpent | master/api/auth.py:149-505 | in every continuation of every run a live token is unchanged until such a request |
| TokenLife.LoginThenRefresh | master/api/auth.py:163-398 | the token a login issues can be refreshed up to its expiry, after any continuation, if and only if no request of it spent the token |
| RefreshTokens.LateRotation | master/api/auth.py:300-384 | a refresh that looked its row up earlier keeps one live token if and only if no other one lives meanwhile |
| RefreshTokens.LateRotationRevives | master/api/auth.py:300-384 | it leaves a dead family dead if and only if that is not the token's own |
| RefreshTokens.LateRotationIsSafeExactlyIfLive | master/api/auth.py:300-384 | it keeps both promises, one live token and no dead family revived, if and only if the token is still live when it revokes it |
| RefreshTokens.ReuseBetweenTheHalves | master/api/auth.py:300-384 | a reuse between the select and the update, after which the refresh brings the dead family back to life |
| RefreshTokens.TwoRefreshesAtOnce | master/api/auth.py:300-384 | two overlapping refreshes of one token that leave two live tokens |
| SplitRefresh.LiveUpdateIsWhole | master/api/auth.py:300-391 | an update that finds its token alive does what the whole handler would do at that moment |
| SplitRefresh.CarefulRunsAreWhole | master/api/auth.py:215-504 | any run of split refreshes and other handlers in which every update finds its token alive leaves the rows of its whole handlers run one after another |
| SplitRefresh.CarefulRunsKeepNewestOnly | master/api/auth.py:215-504 | so every family has at most one live token, its newest |
| SplitRefresh.CarefulRunsReviveNone | master/api/auth.py:313-384 | and a dead family stays dead in every continuation |
| SplitRefresh.FirstCarelessUpdateBreaks | master/api/auth.py:300-384 | after such a run an update that inserts keeps both promises if and only if it finds its token alive |
| RefreshTokens.TokenTable.HandleLogin | master/api/auth.py:163-252 | login inserts the first token of a new family, or nothing |
| RefreshTokens.TokenTable.HandleRefresh | master/api/auth.py:260-398 | the branches of a refresh, in their order |
| RefreshTokens.TokenTable.HandleLogout | master/api/auth.py:406-440 | the update revokes the presented token alone and keeps the table's invariant; the token's family is dead afterwards if and only if the token was live or the family dead before |
| RefreshTokens.TokenTable.HandleChangePassword | master/api/auth.py:448-505 | if the old password fits, no token of the user is live afterwards, and every live token is one that was live before; the invariant is kept |
| RefreshTokens.TokenTable.Serve | master/api/auth.py:149-505 | any requests one after another are a run of the machine |

## Left out

- SessionSafety.ResultsStayInTheirSession: assumes the context test and the fetch of the connection act as one step; without that it is false, and LeaksExactlyWhenPastTheTest says exactly when.
- RefreshTokens.StepKeepsInv: a handler is one step and drawn family identifiers do not repeat; `SplitRefresh` says which runs of separate steps come to the same.
- Breaker.RejectedExactlyWhenTripped: for calls that do not overlap, with a clock that does not go back; for overlapping ones the state is no longer fixed by the trailing run.
- AuditLog.LastHashFixesTheLog: the genuine log must hold no separator, or both logs none before their details; LastHashFixesExactlyWholeLogs shows that no weaker condition on the genuine log alone will do.
- AlertEngine.Engine.Play: memory and table stay in step if the resolve of an escalation succeeds, the two node lists of an orphan cleanup agree and a restart reads every firing row; the lemmas named "Exactly" say what happens otherwise.
- AlertHistory.HighestSinceReset: an orphan cleanup of the node in the middle of the run is excluded, and so is a restart that does not find in the table what memory held.
- RateLimit.NoWindowHoldsMore: holds within one process; a restart or an orphan cleanup of the node starts the history anew.
- AlertMachine.Step: an alert change reads the clock once; a firing row whose details do not parse counts as not read; the orphan cleanup finds limiter lists by node rather than by text prefix, and also drops the last report of a node none of whose reports held a threshold's metric.
- LogTail.TailFile: models the Go fallback only, on ASCII blanks; the branch that runs the `tail` command is foreign code. A negative line count would panic; every caller passes a positive one.
- Cron.NextTrigger: timestamps before year 1 and the end of year 9999, where Python's datetime raises, are not modelled.
- CronField.ParseCronField: whitespace and digits are the ASCII ones; Python also takes other Unicode spaces and decimal digits.
- DiskWalk.Walk.WalkDir: a file changing between its two Lstat calls is not modelled; the tree is a value, sizes do not overflow 64 bits.
- DiskWalk.HandleDiskScan: the JSON encoding is a size function.
- The HTTP upgrade, TLS, deadlines and locks; a write takes effect in one step and the close frame is sent only if the write lock is free.
- Fragmented messages (section 5.4 of RFC 6455): the reader ignores FIN and so does the model.
- isMutationAction: an intent's kind is an input.
- Heartbeats, status reports and token rotation inside a session: they hold no slot and write no result.
- The operation of updating and confirming worker binaries, enrollment messages and worker token storage: each is one step that succeeds or fails.
- SHA-256, JWT, bcrypt and Ed25519: arbitrary functions or inputs.
- SQLite: a table is a map or a sequence with its unique constraint and status guards; a failed write changes nothing, and rollback of outer transactions is not modelled.
- Rows deleted with their node or user cascade only for alerts.
- Synthetic metrics, alert texts and details, locale and logging.
- NaN, infinities and negative zero in readings and timestamps: numbers are reals.
- Cancelling an investigation's coroutine before its first step, which never runs its release.
- The insights model and its reports: an analysis ends in one of four ways.
- The plugin engine, event bus, routes, demo data, frontend and kickstart scripts.
