# teepeedee in Dafny

A model of the parts of the teepeedee FTP and HTTP server that keep tables, counters and buffers consistent
under arbitrary event orders, and of the printers and parsers that should undo each other, with proofs of what
they keep. What the original does in place is a class or a method with a loop here, proved against a
specification function or an invariant; lemmas about those functions, and methods that make whole runs, carry
the main results.

| file | models |
|---|---|
| StreamTable.dfy | the event table: deferred additions and removals, the poll array, dispatch, destruction |
| ConfDB.dfy | the write-back configuration cache as a plain map of numbers, with failing file writes |
| Account.dfy, Sessions.dfy, Quota.dfy | users, control connections, login and connection counters, byte quotas, over many sessions |
| Transfer.dfy | the transfer engine: kernel path, buffer, partial writes, hangup, booking |
| FtpSession.dfy | the FTP session machine: login, transfers, passive mode, restart, rename, quit |
| Responder.dfy, Lines.dfy | the line responder and its writer |
| FileLister.dfy, Listing.dfy, Glob.dfy | directory listings and file name globbing |
| Path.dfy, Uri.dfy | virtual paths, URI quoting, printing and parsing |
| Base64.dfy, PortText.dfy, Replies.dfy, PortRange.dfy | Basic credentials, PORT, PASV and EPRT, multi-line replies, the search for a port |
| Bytes.dfy, Decimal.dfy, Wrappers.dfy | strings of bytes, decimal text, optional values |

## What the environment decides

Everything outside the program is a parameter or an arbitrary choice, so that the results hold for all of it:
what the kernel answers to poll, read, write and sendfile (`KernelAnswer`, `Choice`), whether a file can be
written (`WriteResult`), whether a port can be bound, whether a password is right or a file permitted, and what
the upload ratio multiplies to (any growing function that is not negative). A call into a consumer is
`StreamTable.Callback`: it may queue any new streams, attach and detach consumers and throw, and it is
logged with its answer, so that the contracts can say who is asked what. It cannot queue
removals, because `add` is all that the interface lib/streamcontainer.hh gives to consumers.

Premises: descriptors of open streams are distinct and fixed (lib/streamfd.hh:93). sendfile returns 0 only
at the end of the file. The configuration that the session results start from has numbers that are not negative
for all counters and limits. All responses queued at a time have less than 2^32 bytes, as the writer's position
has 32 bits. Distinct configuration keys name distinct files ("a//b" and "a/b" would not), and a configuration
file that exists can be opened. Numbers in the configuration are unbounded; strtoul, the int it is cut to, and
the words of an address have their widths.

## Where the code falls short of what one would hope

Each of these is kept as the code has it, with the exact condition under which the hoped-for property holds.

- A stream added while it is in the table, as AUTH TLS does (src/ftpcontrol.cc:813, lib/sslstreamfactory.cc:53),
  and not removed before the table goes is deleted twice: `StreamTable.Free` says when, over a whole life
  `Lifetime` does, and `AddedAgain` shows it.
- A write that returns -1 moves the writer's position back, past zero when nothing is sent yet
  (lib/iocontextwriter.cc:24-25): a write keeps the order of the output if and only if it does not return -1
  (`Responder.WriteOut`, `ListWriter.WriteOut`).
- A response finished while half a line is buffered throws that half line away (lib/iocontextresponder.cc:105),
  as when a transfer ends while a command arrives in pieces: `Responder.WriteOut` says when a write does so,
  `Lines.HalfLineLost` when the next line then comes out wrong, and `Responders.Serve` when no byte of a run
  is lost; `HalfCommandLost` shows it.
- PASV, EPSV, PORT, EPRT or a hangup while a transfer waits in the passive listener uses a null pointer
  (src/ftpcontrol.cc:615-624): `PassiveOff` and each command say exactly when, `PassiveModeTwice` shows it, and
  the run ends there. PASV and the others are not refused while a transfer is pending.
- A transfer that ends while it waits in the listener makes the session forget the listener without detaching
  it (src/ftpcontrol.cc:107-110). If the session then goes first, the listener still reports to it: `HangUp`
  says exactly when, `HangUpAfterAbort` shows it.
- A multi-line reply whose text neither ends in a newline nor holds a NUL loses its last character
  (src/ftpcontrol.cc:491-513). Text read from a file ends with the end-of-file byte that `ConfDB::get` appends,
  which is what gets dropped there; other text is cut (`EffectiveIsIntended`), the default greeting included
  (`DefaultGreetingCut`).
- The accounting flags of a user are only ever cleared (src/user.cc:150-153), so after a login at a directory
  without a counter the bytes of later logins are not booked: `AccountingAfterLogins` and `BooksExactly` say
  exactly when they are, `NotBookedAfterRelogin` shows it.
- Storing the empty string under a key that is not cached is not seen as a change (lib/confdb.hh:29-41), so it
  is never written: `ConfDB.Put` says exactly when that matters and `EmptyStringLost` shows it. The server stores
  printed numbers only (lib/confdb.hh:133-141), which are never empty.
- EPRT answers twice when the protocol is not followed by its delimiter (src/ftpcontrol.cc:759-761):
  `EprtAnswersTwice` says exactly when. An argument that ends there is read on past its end, so what follows
  in memory is a parameter. EPSV says nothing at all when passive mode is not available.
- The URI round trip fails when the scheme or the authority holds a slash, when an authority stands without a
  scheme, or when the path is not normalised, and only then (`Uris.RoundTrip`).

Two things that are as intended but easily misread: REST stores a position also when it answers 501, which is
then always zero (`NoDigitsNoValue`), and a limit of zero means no limit, so that the download bound is about
positive maxima.

## Model

| member | source | states |
|---|---|---|
| StreamTables.Without | lib/streamtable.cc:82 | list removal takes out every occurrence of the stream and leaves the multiplicity of all others |
| StreamTables.StreamTable.constructor | lib/streamtable.hh:75-77 | the table starts empty |
| StreamTables.StreamTable.Add | lib/streamtable.hh:85-89 | an addition is only queued; notes whether the stream is in the table already |
| StreamTables.StreamTable.AddAll | lib/streamtable.hh:85-89 | many additions are queued in any order |
| StreamTables.StreamTable.Remove | lib/streamtable.hh:40-44 | a removal is only queued |
| StreamTables.StreamTable.RemoveConsumer | lib/streamtable.cc:17-29 | queues for removal exactly the listed and pending streams that have this consumer or none |
| StreamTables.StreamTable.DoAdd | lib/streamtable.cc:46-58 | the list stays the disjoint union of the descriptor map and the other list |
| StreamTables.StreamTable.DoRemove | lib/streamtable.cc:78-100 | the stream leaves all tables and is destroyed once; the tables stay consistent |
| StreamTables.StreamTable.SowAndReap | lib/streamtable.cc:60-75 | the list becomes exactly (old + added) - deleted, each deleted stream is destroyed once whatever order the sets are walked in, nothing is left pending, and which streams are in the list twice |
| StreamTables.StreamTable.Free | lib/streamtable.cc:32-44 | every stream ever added is destroyed by the end, and each exactly once if and only if none entered the list while in it and was not removed after that |
| StreamTables.AddedAgain | lib/streamtable.cc:46-75 | the input that breaks exactly-once: a stream added again while in the list, and not removed, is deleted at least twice |
| StreamTables.DestroyedOnce | lib/streamtable.cc:32-44 | destroying a list after earlier deletions covers every stream, and each once exactly when the list repeats none |
| StreamTables.RepeatedAfterSow | lib/streamtable.cc:65-68 | the streams in the list twice after additions are the earlier ones and those added while in it |
| StreamTables.RepeatedAfterReap | lib/streamtable.cc:70-73 | removals take repeated streams out and repeat none |
| StreamTables.StreamTable.Callback | lib/streamtable.cc:102-137 | any consumer call: it may queue streams, move consumers and throw; it is made only to a stream with a consumer, is logged with its answer, and the table invariant still holds |
| StreamTables.StreamTable.Ask | lib/streamtable.cc:105-122 | a consumer is asked only while there is one that has not thrown; its answer counts only if it did not throw |
| StreamTables.StreamTable.TryEvents | lib/streamtable.cc:105-122 | the consumer is asked to read, then to write, and a stream without descriptor that is ready also whether it wants more; the stream is queued for removal exactly when it has no consumer at the end |
| StreamTables.StreamTable.AskEvents | lib/streamtable.cc:105-118 | exactly what is asked in which order, and that it wants more exactly when an answer says so |
| StreamTables.AskedInTurn | lib/streamtable.cc:105-122 | the calls of a visit are the first of those to be made, each once and in order, and stop short exactly where the consumer is missing, throws or lets go of the stream |
| StreamTables.YesMeans | lib/streamtable.cc:105-118 | what a consumer has said yes to are the calls it answered so without throwing |
| StreamTables.StreamTable.DoEvents | lib/streamtable.cc:102-137 | the calls made are exactly those of a visit; the stream is queued for removal when it is closed, fails or has lost its consumer, all that a consumer leaves behind when it wishes to be destroyed, and nothing else |
| StreamTables.StreamTable.NonfdTurn | lib/streamtable.cc:164-173 | a stream without descriptor is served, then its consumer checks its timeout; an exception of that unguarded check escapes |
| StreamTables.StreamTable.NonfdEvents | lib/streamtable.cc:164-173 | every stream without descriptor has its turn, in order, until an exception escapes; pending exactly when one of them wants more; all calls and removals are theirs |
| StreamTables.GoodRoundsMeans | lib/streamtable.cc:164-173 | each round serves the stream at its place in the list |
| StreamTables.StreamTable.FillPollArray | lib/streamtable.cc:191-221 | one entry per key of the descriptor map, in ascending order, each asking for exactly what the consumer of its stream says it wants; all calls and removals on the way |
| StreamTables.StreamTable.Entry | lib/streamtable.cc:194-220 | the entry of a descriptor asks for reading and writing exactly when the consumer says so; removals only for the wish to be destroyed |
| StreamTables.StreamTable.Caught | lib/streamtable.cc:217-220 | only the wish to be destroyed is caught here, and removes what the consumer leaves behind; anything else escapes |
| StreamTables.StreamTable.AskStream | lib/streamtable.cc:198-215 | timeout, want_read and want_write are asked in turn, each once, and the answers are the consumer's |
| StreamTables.PollVisitsMeans | lib/streamtable.cc:191-221 | entry by entry, the poll array is that of the descriptors |
| OrderedKeys.Ordered | lib/streamtable.cc:192-196 | the keys of a map are walked in ascending order, each once and none missing |
| StreamTables.StreamTable.Dispatch | lib/streamtable.cc:234-243 | every lookup finds a live stream whatever callbacks queue; each entry due, and no other, has its consumer asked to read and then to write, in order: all of them when poll's number covers them, else the first so many; all calls and removals are theirs |
| StreamTables.StreamTable.DispatchLoop | lib/streamtable.cc:234-243 | the scan serves every active entry it passes and stops early only when the count of poll is used up or an exception escapes |
| StreamTables.ServedBelowMeans | lib/streamtable.cc:234-243 | entry by entry, what the scan has served are the active entries below its position |
| StreamTables.StreamTable.Serve | lib/streamtable.cc:236-241 | the stream of an entry is in the table and not destroyed; its consumer is asked to read and then to write, or the stream is queued for removal when it has none; so it is when it closes, fails or hangs up |
| StreamTables.ActiveIsExact | lib/streamtable.cc:234-236 | the entries with events are listed in ascending order, each once, none missing |
| StreamTables.DuePrefix | lib/streamtable.cc:234-243 | counting poll's number down to zero stops the scan on exactly the entries due |
| StreamTables.StreamTable.Pass | lib/streamtable.cc:161-243 | a whole turn of the poll loop: all its calls, in order; the poll array asks for what the consumers want, the streams served are those due, poll waits exactly when no stream wants more, and how the turn ends |
| StreamTables.StreamTable.ServeOthers | lib/streamtable.cc:163-173 | the streams served first are those without descriptor that the pending changes leave in the table |
| StreamTables.StreamTable.AskAll | lib/streamtable.cc:174-221 | the poll array is filled after the pending changes are carried out |
| StreamTables.StreamTable.Poll | lib/streamtable.cc:140-256 | the loop goes on until the table is empty, someone asks to stop or an exception escapes; every call into a consumer belongs to one of its turns, and no stream is forgotten |
| StreamTables.Lifetime | lib/streamtable.cc:32-256 | from construction to destruction, with any callbacks: exactly the streams ever added are destroyed, and each once if and only if none that entered the list twice was still there at the end |
| ConfDBs.NumericBeforeEof | lib/confdb.cc:67-86 | the end-of-file byte appended by a read does not change the number |
| ConfDBs.NumericOfPrinted | lib/confdb.hh:132-141 | a printed number is read back, negative ones included |
| ConfDBs.NumericReads | lib/confdb.hh:119-126 | a number is read after white space and one sign, up to the first character that is no digit |
| ConfDBs.NumericFails | lib/confdb.hh:119-126 | without a digit there is no number |
| ConfDBs.ConfDB.Exists | lib/confdb.cc:27-37 | a key exists exactly when the abstract map has it |
| ConfDBs.ConfDB.Get | lib/confdb.cc:67-86 | a read answers with the map's number, changes nothing in the map, and fails only for a missing key |
| ConfDBs.ConfDB.GetType | lib/confdb.hh:119-126 | the number of the map, or an exception for a missing or non-numeric one |
| ConfDBs.ConfDB.Put | lib/confdb.cc:88-92 | the map gets the number of the string; the cache stays consistent if and only if the string is not empty, the key is cached, or its file holds no number |
| ConfDBs.Cached | lib/confdb.hh:29-41 | caching a value changes the map at its key only, and leaves the cache consistent exactly when the value is marked as changed or on disk |
| ConfDBs.EmptyStringLost | lib/confdb.cc:88-92 | the input that shows the exception: the empty string over a file holding 5 is neither noticed nor written |
| ConfDBs.ConfDB.PutType | lib/confdb.hh:132-141 | the map gets exactly that number |
| ConfDBs.ConfDB.Increment | lib/confdb.cc:40-51 | is the map operation: refused exactly above a nonzero maximum, no change then |
| ConfDBs.ConfDB.Decrement | lib/confdb.cc:54-65 | is the map operation: refused exactly below the minimum, no change then |
| ConfDBs.IncrementBooks | lib/confdb.cc:40-51 | a booking adds exactly its amount, never above a nonzero maximum, and touches no other key; refused exactly when it would go above |
| ConfDBs.DecrementUndoesIncrement | lib/confdb.cc:40-65 | giving back what was booked restores the count, unless that is below the minimum |
| ConfDBs.NothingToTake | lib/confdb.cc:54-65 | a missing key is at its minimum |
| ConfDBs.ConfDB.WriteOut | lib/confdb.cc:94-115 | whichever files fail, the map is unchanged; exactly the failed ones stay marked as changed and are reported |
| ConfDBs.ConfDB.Sync | lib/confdb.hh:88-92 | succeeds exactly when every changed file is written; then the disk equals the map and the cache is empty, otherwise nothing is lost |
| ConfDBs.Run | lib/confdb.cc:27-115 | any sequence of operations with any files failing answers as a plain map does and ends as it ends |
| Accounts.DbKeyInjective | lib/conf.hh:33-37 | different directories or fields have different keys, also for directories that are prefixes of each other |
| Accounts.MaxIsNamed | lib/conf.hh:123-130 | the limit of a counter is named after it, and the byte counters after their direction |
| Accounts.GetLimit | lib/conf.hh:78-85 | an unset limit counts as zero; reading it changes nothing |
| Accounts.BookIncrement | lib/conf.hh:123-139 | a counter is booked against the limit of its own directory, as the map operation says |
| Accounts.User.constructor | src/user.hh:128-133 | a new user is not logged in and accounts for both directions |
| Accounts.User.Copy | src/user.hh:134-139 | a copy is bound to the same directory and never authenticated |
| Accounts.CopyBooksAlike | src/user.hh:134-139 | what a copy books goes where its original books, and it has no login to give back |
| Accounts.User.VerifyPassword | src/user.cc:167-221 | accepts exactly well-formed existing names with the right password; re-points the directory for every well-formed existing name |
| Accounts.ValidNames | src/user.cc:167-195 | a valid user name is one normal name of a path, made of letters, digits and two marks, of fewer than 200 |
| Accounts.User.Authenticate | src/user.cc:139-156 | new user state, database and result of a login, the refused and failing ones included |
| Accounts.User.Deauthenticate | src/user.cc:158-165 | gives back the one login that was counted, and only when authenticated |
| Accounts.User.GetXferLimit | src/user.hh:197-210 | maximum plus the ratio's bonus for downloads; a missing maximum is zero |
| Accounts.User.BookXfer | src/user.hh:212-220 | books against the limit, or does nothing when the direction is not accounted |
| Accounts.AccountingAfterLogins | src/user.cc:147-154 | over any logins of one user object, a direction is accounted for exactly when no login so far was booked at a directory without its counter |
| Accounts.FreshUserAccounts | src/user.hh:128-133 | a new user object accounts for both directions until a login at a directory without counter |
| Accounts.BooksExactly | src/user.hh:197-220 | bytes are added to their counter exactly when the direction is accounted for, counter and limit are numbers and the limit is zero or not exceeded; otherwise nothing changes |
| Accounts.NotBookedAfterRelogin | src/user.cc:147-154 | the input that shows it: after a login at a directory without counter, nothing is booked at one that has it |
| Accounts.Control.Connect | src/control.hh:36-40 | a connection exists exactly when it could be counted as unauthenticated |
| Accounts.Control.Decrement | src/control.cc:12-19 | takes the connection off the count once; the flag stays when the booking throws |
| Accounts.Control.UserLogin | src/control.cc:27-46 | a successful login moves the connection from the unauthenticated count to the user's logins |
| Sessions.CountAfterSet | lib/confdb.hh:132-141 | writing one counter of one directory leaves every other counter alone |
| Sessions.LogoutKeeps | src/user.cc:158-165 | a logout keeps all counter and quota invariants and leaves the user logged out |
| Sessions.LoginKeeps | src/control.cc:27-46 | a login of a logged-out user keeps the invariants, whatever fails in it |
| Sessions.AuthenticateKeeps | src/user.cc:139-156 | the part of a login that follows an accepted password keeps the invariants, at the limit too |
| Sessions.UncountKeeps | src/control.cc:12-19 | taking a connection off the count keeps the invariants and never throws |
| Sessions.ConnectKeeps | src/control.hh:36-40 | a new connection keeps the invariants |
| Sessions.DisconnectKeeps | src/control.hh:55-58 | the end of a connection keeps the invariants, authenticated or not |
| Sessions.DropKeeps | src/user.hh:182-185 | destroying a User keeps the invariants |
| Sessions.BookKeeps | src/user.hh:187-220 | booking bytes keeps the upload and download bounds, with any growing ratio |
| Sessions.BytesKept | src/user.hh:197-220 | a byte counter that grows within its limit keeps both quotas of its directory |
| Sessions.StepKeeps | src/control.cc:5-46 | every primitive step keeps the invariant when no login is made over an old one |
| Sessions.ProgramIsDisciplined | src/ftpcontrol.cc:564-584 | FTP and HTTP sessions never log in over an old login |
| Sessions.ProgramKeeps | src/ftpcontrol.cc:564-584 | the invariant holds after every single step inside every action of a session |
| Sessions.RunKeeps | src/user.cc:139-165 | over every interleaving of sessions: logins equal their start plus the live authenticated users, unauthenticated connections likewise, neither exceeds a maximum it started within, and uploads and downloads stay within their quotas |
| Sessions.LoginMovesCounts | src/control.cc:27-46 | a login succeeds exactly for a valid name that exists, with its password, below the maximum; it moves one connection to the logins of that user and changes no other counter |
| Sessions.PassLogsIn | src/ftpcontrol.cc:564-584 | after PASS a session is logged in exactly when the name, password and limit allow it once the old login is given up |
| Sessions.ActionEnds | src/control.hh:55-58 | a session, connection or transfer that is over leaves no user object or count behind |
| Sessions.ConnectionBegins | src/control.hh:36-40 | a connection begins counted, with a new user object |
| Sessions.TransferBegins | src/xferlimituser.hh:11-26 | a transfer has a copy of the user who started it |
| Sessions.RequestEnds | src/httpcontrol.cc:108-133 | the user object of an HTTP request is gone after it, and the copy for its transfer is not logged in |
| Sessions.AllGone | src/user.cc:158-165 | when all sessions and transfers are over, every login and connection counter is back where it started |
| Sessions.InvAtStart | src/control.hh:36-40 | a server without sessions satisfies the invariant for any well-formed configuration |
| Quotas.BytesStay | src/control.cc:5-46 | no step but a booking touches a byte counter |
| Quotas.BookingCounts | src/xferlimituser.hh:11-26 | a booking adds its bytes to the counter of its own directory and direction, or nothing to any |
| Quotas.CounterIsBooked | src/user.hh:212-220 | over every interleaving of sessions a byte counter has grown by exactly the bytes booked |
| Quotas.RefusedPieces | lib/xferlimit.hh:98-104 | the bytes whose booking was refused are at most one piece for every refusal |
| Quotas.TallyIsWhole | lib/xferlimit.hh:98-104 | every byte a transfer offers is booked, refused or not accounted for |
| Quotas.DownloadsMoveWithinQuota | src/user.hh:187-220 | all accounted downloads of a directory together move at most its positive maximum plus the bonus for uploads minus the starting counter, plus one piece for every refused booking |
| Quotas.UploadsMoveWithinQuota | src/user.hh:187-220 | all accounted uploads of a directory together move at most its nonzero maximum minus the starting counter, plus one piece for every refused booking |
| Transfers.Transfer.WriteOut | lib/sendfile.cc:112-123 | what the sink takes is the front of the buffer; on -1 or an error nothing moves |
| Transfers.Transfer.ReadIn | lib/sendfile.cc:126-143 | what is read is the front of the source, and how much; the end is reported exactly when the source is exhausted |
| Transfers.Transfer.LimitXfer | lib/xferlimit.hh:98-104 | bytes are added to the total or, when the booking throws, to the refused ones |
| Transfers.Transfer.SystemSendfile | lib/sendfile.cc:17-30 | the kernel moves bytes in order from source to sink, 0 only at the end of the file |
| Transfers.Transfer.Io | lib/sendfile.cc:73-110 | delivered and buffered bytes together stay the bytes consumed, in order; which path is taken, how much moves, and exactly when the round finishes, is refused or fails |
| Transfers.Transfer.DirectIo | lib/sendfile.cc:77-92 | the kernel path moves a piece and books it, finishes exactly at the end of the source, or fails and moves nothing so that the buffer takes over |
| Transfers.Transfer.BufferedIo | lib/sendfile.cc:94-110 | the buffer is drained before it is refilled, so nothing is overwritten; exactly when the round finishes, is refused or fails |
| Transfers.Transfer.RefillIo | lib/sendfile.cc:103-109 | finished exactly when the source is at its end and the booking accepted; refused exactly when it is not and the read did not fail |
| Transfers.Transfer.Notify | lib/iocontextcontrolled.hh:12-20 | the controller hears of the result at most once |
| Transfers.Transfer.Detach | lib/iocontextcontrolled.hh:25-29 | a controller that leaves hears nothing more |
| Transfers.Transfer.Destruct | lib/iocontextxfer.hh:97-100 | the streams lose their consumer, and a controller that has heard nothing hears of failure |
| Transfers.Transfer.DoIo | lib/iocontextxfer.hh:28-47 | success is reported, and destruction asked for, exactly when the round finishes, or the buffer is drained after the source is gone; then everything consumed is delivered |
| Transfers.Transfer.Adopt | lib/iocontextxfer.hh:102-126 | a new stream takes the free role and never both |
| Transfers.Transfer.WantWrite | lib/iocontextxfer.hh:102-111 | wants to write exactly when the sink is asked and the buffer is not empty, or not made yet |
| Transfers.Transfer.WantRead | lib/iocontextxfer.hh:112-126 | wants to read exactly when the source is asked and the buffer exists and is empty |
| Transfers.Transfer.StreamHungup | lib/iocontextxfer.hh:72-89 | the transfer survives exactly the loss of its source while bytes are buffered; no byte is lost then |
| Transfers.Turn | lib/iocontextxfer.hh:128-151 | one event keeps received + buffered + unread equal to the source |
| Transfers.Loses | lib/iocontextxfer.hh:72-100 | a stream that hangs up ends the transfer unless it was the source and bytes are buffered; nothing is lost or repeated and failure is reported |
| Transfers.Happen | lib/iocontextxfer.hh:28-151 | every event of the streams and the controller keeps received + buffered + unread equal to the source; a sink that goes, or a source that goes with nothing buffered, ends the transfer |
| Transfers.Run | lib/sendfile.cc:73-143 | for every run, with hangups of both streams and the controller leaving: received ++ buffered ++ unread is the source; completion means all delivered; the controller hears once whether it completed; received is at most booked plus 2^24 per refused buffered booking, and equal to it when drained without refusal; when all goes ahead, one event more than the source has bytes completes the transfer |
| FtpSessions.Listener.NewIoContext | src/ftpdatalistener.cc:16-26 | the waiting transfer is handed out once and the listener is then finished |
| FtpSessions.Listener.WantRead | src/ftpdatalistener.hh:66-77 | a finished listener asks for its destruction; it accepts exactly while a transfer waits |
| FtpSessions.BracketCounts | src/ftpcontrol.cc:103-146 | in a log of alternating opening and final replies the 150s exceed the finals by exactly one while a transfer is open and by none otherwise |
| FtpSessions.Session.constructor | src/ftpcontrol.cc:71-101 | a new session is logged out, with a 220 greeting and the peer's address as the active one |
| FtpSessions.Session.XferDone | src/ftpcontrol.cc:103-124 | one final reply for the pending transfer; quitting now closes; a listener that still held the transfer is forgotten but stays attached |
| FtpSessions.Session.Notify | lib/iocontextcontrolled.hh:12-20 | a transfer reports once and is detached; the login is not touched |
| FtpSessions.Session.ListenerDestroyed | src/ftpdatalistener.hh:79-82 | a listener that goes takes its waiting transfer along, which is reported as failed |
| FtpSessions.Session.ForgottenDestroyed | lib/iocontextcontrolled.hh:38-41 | a forgotten listener reports to the session without any effect, and is then detached |
| FtpSessions.Session.PassiveOff | src/ftpcontrol.cc:615-624 | brings the process down exactly when a transfer is waiting in the listener; otherwise passive mode ends and nothing else changes |
| FtpSessions.PassiveModeTwice | src/ftpcontrol.cc:615-624 | the input that does it: PASV, RETR, PASV without a connection in between |
| FtpSessions.HangUpAfterAbort | src/ftpcontrol.cc:107-110 | the input that leaves something behind: ABOR of a transfer waiting in the listener, then a hangup, and the listener is still attached to the session that is gone |
| FtpSessions.Session.StartXfer | src/ftpcontrol.cc:126-146 | the transfer waits in the listener or connects; pending and announced exactly when that works |
| FtpSessions.Session.Accepted | src/ftpdatalistener.cc:16-26 | a connection takes the waiting transfer, which stays pending in the session |
| FtpSessions.Session.MakeError | src/ftpcontrol.hh:127-132 | 421 and the connection closes |
| FtpSessions.Session.AssertAuth | src/ftpcontrol.hh:152-157 | 530 exactly when not logged in |
| FtpSessions.Session.AssertNoXfer | src/ftpcontrol.hh:158-163 | 451 exactly while a transfer is pending |
| FtpSessions.Session.LoseAuth | src/ftpcontrol.hh:103-111 | clears login, name, path, restart position and rename source |
| FtpSessions.Session.CmdPass | src/ftpcontrol.cc:564-584 | any attempt first gives up the old login; without a name nothing changes |
| Bytes.LowerCase | src/ftpcontrol.cc:723-724 | only the capital letters have a lower case of their own |
| Bytes.Spaces | src/httpcontrol.cc:118-121 | the white space of the C locale |
| FtpSessions.Session.CmdRein | src/ftpcontrol.hh:211-216 | logged out, everything else kept |
| FtpSessions.Session.CmdQuit | src/ftpcontrol.hh:218-226 | logged out and quitting; closes now exactly when no transfer is pending |
| FtpSessions.Session.CmdCwd | src/ftpcontrol.cc:469-482 | the path stays normalised and moves exactly when logged in and permitted |
| FtpSessions.Session.CmdRnfr | src/ftpcontrol.hh:313-321 | a rename source is kept only by someone logged in |
| FtpSessions.Session.CmdRnto | src/ftpcontrol.hh:322-337 | the rename source is spent exactly when both names are there and the rename is permitted, also when the rename then fails |
| FtpSessions.Session.CmdRest | src/ftpcontrol.cc:173-185 | the restart position becomes what strtoull makes of the argument, also when the answer is 501 |
| FtpSessions.Session.CmdFile | src/ftpcontrol.cc:187-258 | each refusal with its reply, in the order of the checks, and exactly when a transfer is started: a pending one is never replaced, and after REST not without a seek; the restart position is spent exactly when the file could be opened |
| FtpSessions.Session.CmdList | src/ftpcontrol.cc:309-343 | each refusal with its reply, and exactly when a transfer is started |
| FtpSessions.Session.CmdAbor | src/ftpcontrol.cc:345-357 | 426 and one final reply for a pending transfer, 226 without one |
| FtpSessions.Session.PassiveOn | src/ftpcontrol.cc:639-681 | the old listener goes first, and a new one waits for a transfer exactly when that is permitted and a port is free |
| FtpSessions.Session.CmdPasv | src/ftpcontrol.hh:273-280 | 227 with a new listener, or 502 without any; the exact condition for the crash |
| FtpSessions.Session.CmdEpsv | src/ftpcontrol.cc:714-729 | as PASV, but with silence where that answers 502; 501 for ALL, 522 for other protocols, which change nothing |
| FtpSessions.Session.ActiveOn | src/ftpcontrol.cc:260-270 | 502 and no change when active mode is forbidden, else passive mode ends |
| FtpSessions.Session.CmdPort | src/ftpcontrol.cc:273-306 | a well-formed permitted argument ends passive mode and becomes the address; the exact condition for the crash |
| FtpSessions.Session.CmdEprt | src/ftpcontrol.cc:731-784 | passive mode ends before the argument is looked at; all replies and the address then stored, for every argument; the exact condition for the crash |
| FtpSessions.Session.HangUp | src/ftpcontrol.cc:684-694 | a pending transfer goes on detached and a waiting one brings the process down; afterwards every transfer and listener ever made is detached if and only if no listener had been forgotten |
| FtpSessions.Step | src/ftpcontrol.cc:588-613 | every event keeps the session invariant or, exactly for the fatal ones, brings the process down; a pending transfer is never replaced by another; every command but EPSV is answered; what each event does to the login and to the pending transfer, and which final reply it adds |
| FtpSessions.Serve | src/ftpcontrol.cc:103-146 | over all event sequences up to the hangup: logged out means no path, restart position or rename source; quitting means closing or a pending transfer; openings minus finals is 1 with a pending transfer and 0 without; there are at least as many replies as commands other than EPSV; and what still reports after the hangup |
| Responders.Responder.constructor | lib/iocontextresponder.hh:98-102 | nothing read, nothing queued |
| Responders.Responder.PrepareRead | lib/iocontextresponder.hh:30-33 | what is buffered is thrown away, so that the lines handed over are the split of the bytes kept |
| Responders.Responder.PrepareIO | lib/iocontextresponder.cc:22-31 | with a response the writer is set to its start unless it is in the middle; without one half a line is dropped |
| Responders.Responder.AddResponse | lib/iocontextresponder.hh:83-91 | the queue grows at its end, also in the middle of a write; half a line is thrown away exactly by an empty response while nothing is being written |
| Responders.Responder.WriteOut | lib/iocontextwriter.cc:9-33 | sent plus unsent bytes stay the queued ones if and only if the write does not return -1; lines and buffer stay the split of the bytes read if and only if it does not finish a response while half a line is buffered |
| Responders.Responder.FinishedWriting | lib/iocontextresponder.cc:100-106 | the response is done and what is buffered is thrown away |
| Responders.Responder.ReadIn | lib/iocontextresponder.cc:42-80 | each outcome exactly characterised; the line handed over is the buffered bytes and those read up to the newline, without a CR at the end |
| Responders.Responder.ReadLine | lib/iocontextresponder.cc:51-76 | the loop stops at the first newline, when no byte is left or when the buffer is full, and no byte is lost |
| Responders.Responder.TakeByte | lib/iocontextresponder.cc:58-73 | a byte extends the buffer or ends the line, whatever was thrown away before |
| Responders.Responder.CutLine | lib/iocontextresponder.cc:63-70 | the newline and one CR before it are cut off |
| Responders.Responder.ReadDone | lib/iocontextresponder.cc:12-20 | the finished line is handed over once, and the receiver's replies are queued in order |
| Responders.Serve | lib/iocontextresponder.cc:12-80 | for every chunking of input and output and responses queued at any time: the bytes sent are a prefix of those queued, and all of them when the responder goes; the lines handed over and the buffer are the split of the bytes kept; with everything written, those are all bytes read if and only if no line was too long and no response was queued while half a line was buffered; writes that take something get the greeting out |
| Responders.Happen | lib/iocontextresponder.cc:12-80 | every event keeps both directions, does its work - bytes are read, written or queued, the connection is to close - and accounts for every byte thrown away |
| Responders.HalfCommandLost | lib/iocontextresponder.cc:100-106 | the input that breaks the split: a transfer that ends between NO and OP hands over OP, not NOOP |
| Lines.SplitIsExact | lib/iocontextresponder.cc:58-73 | the split is determined: pieces without newline that put together are the stream |
| Lines.LinesAreStripped | lib/iocontextresponder.cc:64-70 | the lines handed over are the pieces, each without one trailing CR |
| Lines.StripCRKeeps | lib/iocontextresponder.cc:63-70 | a line without a CR at its end stays as it is |
| Lines.PartialConcat | lib/iocontextresponder.cc:42-80 | text without newline extends only the unfinished line |
| Lines.FinishedPart | lib/iocontextresponder.hh:30-33 | dropping the unfinished line keeps all finished ones |
| Lines.HalfLineLost | lib/iocontextresponder.cc:100-106 | a line that lost its first half comes out wrong, unless just the CR before its newline was lost |
| Listings.ListWriter.FinishedWriting | lib/iocontextlist.hh:57-65 | the next entry, footer or completion follows without skipping or repeating anything, and completion exactly when nothing is left |
| Listings.ListWriter.FinishedListing | src/httplist.cc:55-64 | an HTTP listing completes after its footer, which is queued once |
| Listings.ListWriter.constructor | src/httplist.cc:8-29 | everything still to be sent is the whole listing: header, entries, footer |
| Listings.ListWriter.WantWrite | lib/iocontextwriter.hh:53-60 | wants to write exactly when something is buffered; completion means all sent |
| Listings.ListWriter.WriteOut | lib/iocontextwriter.cc:9-33 | sent plus pending text stays the whole listing if and only if the write does not return -1 |
| Listings.Send | lib/iocontextlist.hh:24-71 | for every run the text sent is a prefix of the listing, and all of it at completion, which comes when the stream has taken something often enough |
| Listings.HttpListing | src/httplist.cc:8-64 | an HTTP listing is its header, the text of each entry in order, and its footer |
| Listings.FtpListingLines | src/ftplist.hh:11-14 | a client splitting an FTP listing into lines gets the names back, in order |
| Uris.QuotePercent | lib/uri.cc:46-72 | computes the byte-wise quoting |
| Uris.DequotePercent | lib/uri.cc:74-94 | computes the dequoting, which stops at a NUL or an incomplete escape |
| Uris.DequotedQuoted | lib/uri.cc:46-94 | dequoting undoes quoting on every byte string, NUL and slash included |
| Uris.QuotedAlphabet | lib/uri.cc:46-72 | quoted text has only safe characters and %, no colon, and a slash only where the text has one |
| Uris.HexRoundTrip | lib/uri.cc:6-44 | two hex digits give the byte back and are no NUL |
| Uris.QuotedCharacter | lib/uri.cc:46-72 | letters, digits, the marks of section 2.3 of RFC 2396 and the slash stand for themselves; any other byte becomes % and two capital hex digits |
| Uris.EscapeRead | lib/uri.cc:6-24 | an escape is read back in capital digits, small ones and a mixture |
| Uris.HexDigitsOnly | lib/uri.cc:6-18 | any other character in an escape counts as zero |
| Uris.DequotedEnds | lib/uri.cc:74-94 | other characters stand for themselves; a NUL or an escape cut short ends the text |
| Uris.Uri.GetHtmlQuoted | lib/uri.cc:96-112 | prints the three parts as specified |
| Uris.Uri.ParseFromAuthority | lib/uri.cc:114-125 | the authority ends at the first slash |
| Uris.Uri.ParseFromPath | lib/uri.cc:127-131 | the dequoted text is appended to the path |
| Uris.Uri.Parse | lib/uri.cc:133-166 | computes the specified parse, the scan's odd cases included |
| Uris.Uri.constructor | lib/uri.cc:133-166 | a URI made from text holds its parse |
| Uris.Uri.SetPath | lib/uri.hh:58-62 | the path alone changes |
| Uris.ParsedPathIsNormal | lib/uri.cc:133-166 | whatever is parsed, the path is normalised |
| Uris.ParsedWithScheme | lib/uri.cc:133-166 | what follows a quoted scheme decides between authority and path |
| Uris.ParsedWithoutScheme | lib/uri.cc:133-166 | text without a colon is a bare path |
| Uris.ParsedAuthorityAlone | lib/uri.cc:114-125 | an authority that no slash follows is kept, with an empty path |
| Uris.ParsedColonInside | lib/uri.cc:133-166 | a colon that no slash follows: what is before it becomes the scheme and the whole text the path |
| Uris.RoundTrip | lib/uri.cc:96-166 | a URI survives printing and parsing if and only if scheme and authority hold no slash, an empty scheme goes with an empty authority, and the path is normalised |
| Paths.Path.AppendOne | lib/path.cc:21-31 | empty and "." do nothing, ".." drops the last name but not below the root |
| Paths.Path.Append | lib/path.cc:5-20 | every piece between slashes is appended in turn |
| Paths.Path.Scan | lib/path.cc:11-17 | one character: a slash appends the piece before it |
| Paths.Path.Chdir | lib/path.hh:53-61 | an absolute name starts over; the empty one does nothing |
| Paths.Path.Str | lib/path.hh:35-47 | the names with slashes between them |
| Paths.Path.FromStrings | lib/path.hh:18-22 | a directory and a change of directory from it |
| Paths.Path.FromString | lib/path.hh:14-17 | a directory appended to the root |
| Paths.Path.FromPath | lib/path.hh:23-27 | a change of directory from another path, which stays as it is |
| Paths.PiecesConcat | lib/path.cc:5-20 | the pieces of a + "/" + b are those of a and those of b |
| Paths.ChdirChainIsNormal | lib/path.hh:18-61 | no chain of chdirs puts an empty name, a slash, "." or ".." into a path |
| Paths.AppendConcat | lib/path.cc:5-20 | appending a + "/" + b is appending a and then b |
| Paths.ParentUndoesName | lib/path.cc:21-31 | a normal name is appended, and ".." takes exactly it back |
| Paths.NamesThatStay | lib/path.cc:21-31 | the root is its own parent; "." and the empty name lead nowhere |
| Paths.ParentInside | lib/path.cc:5-31 | a + "/" + name + "/../" + b leads where a + "/" + b does |
| Paths.ChdirStartsFrom | lib/path.hh:53-61 | changing directory goes on from where one is, or from the root after a leading slash |
| Paths.AppendJoined | lib/path.hh:35-47 | the text of a path gives the path back if and only if it is normalised |
| Paths.ChdirToJoined | lib/path.hh:35-61 | changing directory to "/" + p.str() from anywhere leads to p if and only if p is normalised |
| Globs.Match | lib/filelisterglob.hh:21-51 | true exactly when the name can be cut into one part per pattern character, each fitting it; terminates |
| Globs.MatchAfterStar | lib/filelisterglob.hh:29-40 | collapsing star runs and never trying the empty suffix loses no match |
| Globs.MatchesStar | lib/filelisterglob.hh:29-40 | a star matches exactly by some suffix of the name |
| Globs.MatchesTwoStars | lib/filelisterglob.hh:30-34 | a run of stars means one star |
| Globs.MatchesOne | lib/filelisterglob.hh:41-47 | any other character takes exactly one of the name |
| Globs.GlobLister.constructor | lib/filelisterglob.hh:67-72 | the lister stands on the first matching name |
| Globs.GlobLister.SkipTillMatch | lib/filelisterglob.hh:57-64 | no matching name is skipped |
| Globs.GlobLister.Last | lib/filelisterglob.hh:79-82 | at the end exactly when no matching name remains |
| Globs.GlobLister.Next | lib/filelisterglob.hh:84-89 | one matching name further |
| Globs.GlobLister.Name | lib/filelisterglob.hh:91-97 | the first matching name that remains |
| Globs.ListAll | lib/filelisterglob.hh:57-97 | a whole walk visits exactly the filtered names in their order |
| Globs.FilteredMember | lib/filelisterglob.hh:57-64 | the filter keeps exactly the matching names |
| Globs.FilteredConcat | lib/filelisterglob.hh:57-64 | the filter keeps order and multiplicity |
| FileListers.Lister.Next | lib/filelisterdir.hh:27-44 | walking a directory drops one name at a time |
| Base64.Base64Decode | src/httpcontrol.cc:48-106 | computes the specified decoding; malformed input gives the empty string |
| Base64.ReadQuad | src/httpcontrol.cc:93-100 | four characters are accepted exactly when all are in the alphabet |
| Base64.ShiftOrIsSum | src/httpcontrol.cc:101-102 | shifting, or-ing and cutting to eight bits is the sum of products and quotients that the decoder model computes |
| Base64.EncodeTripleDecodes | src/httpcontrol.cc:101-102 | packing the four sextets of three bytes gives the bytes back |
| Base64.DecodedEncoded | src/httpcontrol.cc:48-106 | decoding the base64 form of any byte string gives it back followed by one zero byte per pad character |
| Base64.Malformed | src/httpcontrol.cc:91-100 | rejected exactly when not whole quads over the alphabet |
| Base64.AlphabetIs | src/httpcontrol.cc:51-85 | the table is the alphabet of section 5.2 of RFC 1521 |
| Base64.DecodedCharacters | src/httpcontrol.cc:51-98 | the decoder takes that alphabet and the pad only, looking at seven bits |
| Base64.TryAuthenticate | src/httpcontrol.cc:108-133 | computes the credentials of an Authorization header, the refused headers included |
| Base64.SplitCredentials | src/httpcontrol.cc:124-130 | the name ends at the first colon of the C string |
| Base64.BasicRoundTrip | src/httpcontrol.cc:108-133 | a NUL-free user and password, the user without colon, are recovered from the Basic header |
| Base64.BasicInAnyCase | src/httpcontrol.cc:113-123 | the same with the scheme in any case and any white space after it |
| Base64.OtherScheme | src/httpcontrol.cc:113-119 | any other scheme is refused |
| PortText.ParsePort | src/ftpcontrol.cc:273-306 | computes the six-field parse of a PORT argument |
| PortText.CommaDumpAddr | src/ftpcontrol.cc:626-637 | prints address and port as six decimal bytes |
| PortText.StrtoulOfPrint | src/ftpcontrol.cc:148-161 | strtoul reads a printed number back up to the next non-digit |
| PortText.StrtoulReads | src/ftpcontrol.cc:148-161 | strtoul reads white space, one sign and digits; out of range gives the greatest number, a negative one wraps around |
| PortText.ToIntIs | src/ftpcontrol.cc:153 | the int differs from the unsigned long by a multiple of 2^32 |
| PortText.PortByteExactly | src/ftpcontrol.cc:148-161 | a printed number is accepted as a byte exactly when its lower word is one |
| PortText.PortByteOfPrint | src/ftpcontrol.cc:148-161 | a printed byte is read back and the rest of the text kept |
| PortText.WordOfBytes | src/ftpcontrol.cc:278-300 | reassembling the bytes of an address and port is exact, on numbers |
| PortText.ShiftIsProduct | src/ftpcontrol.cc:278-291 | on machine words, shifting an octet to its place is the product |
| PortText.MaskIsRemainder | src/ftpcontrol.cc:633-635 | on machine words, shifting and masking is a quotient and a remainder |
| PortText.OctetsApart | src/ftpcontrol.cc:281-286 | the words that the parser ors share no bit, at every turn of its loop |
| PortText.OrIsSum | src/ftpcontrol.cc:281-286 | or-ing words without a common bit is adding them |
| PortText.OrLoopIsSum | src/ftpcontrol.cc:281-286 | the word or-ed together from four octets is their sum |
| PortText.OrIsPortSum | src/ftpcontrol.cc:287-291 | the same for the port |
| PortText.OrOfOctets | src/ftpcontrol.cc:278-291 | or-ing the shifted octets of any address and port gives them back |
| PortText.FieldsOfListed | src/ftpcontrol.cc:278-300 | a list of printed bytes is parsed to the bytes |
| PortText.FieldsNeedCommas | src/ftpcontrol.cc:281-292 | numbers are accepted only with commas between them |
| PortText.PortReadsPasv | src/ftpcontrol.cc:626-637 | for every 32-bit address and 16-bit port the PORT parser reads back what PASV prints |
| PortText.ParseEprt | src/ftpcontrol.cc:742-783 | computes replies and address for every EPRT argument |
| PortText.EprtReadsBack | src/ftpcontrol.cc:742-783 | an address and port written as an EPRT argument are read back, with any delimiter that is no digit and not in the address |
| PortText.EprtAnswersTwice | src/ftpcontrol.cc:744-761 | there are two replies exactly when the protocol 1 is not followed by the delimiter before it |
| PortText.EprtProtocolRefused | src/ftpcontrol.cc:744-758 | without protocol 1 there is a 501 or 522 and no address |
| PortText.EprtAddressRefused | src/ftpcontrol.cc:762-781 | with a bad address, or no number and delimiter after it, there is a 501 and no port |
| PortText.NoDigitsNoValue | src/ftpcontrol.cc:180-182 | the position stored with a 501 is zero |
| Decimal.ReadPrinted | src/ftpcontrol.cc:626-637 | decimal printing and reading are inverse |
| Replies.MakeResponseMultiline | src/ftpcontrol.cc:491-513 | the text sent is the reply of the rows of the effective text |
| Replies.SendRow | src/ftpcontrol.cc:496-509 | one turn: a newline sends the row before it, marked by its place |
| Replies.SendLast | src/ftpcontrol.cc:510-512 | the last row ends the reply, without its last character when no NUL or newline ended the loop |
| Replies.EffectiveIsIntended | src/ftpcontrol.cc:491-513 | the reply drops nothing but a newline at the end exactly when the text is empty, holds a NUL or ends in a newline |
| Replies.DefaultGreetingCut | src/ftpcontrol.cc:82-85 | the input that shows it: the default greeting loses its full stop |
| Replies.ReplyLines | src/ftpcontrol.cc:484-513 | the lines of a reply are the marked rows |
| Replies.ClientReadsReply | src/ftpcontrol.cc:484-513 | a client following section 4.2 of RFC 959 finds the end of the reply, whatever follows, and gets the rows |
| PortRange.TurnsCoverOnce | lib/stream.cc:53-79 | every port of the range has exactly one turn from any random start |
| PortRange.ListenRange | lib/stream.cc:53-79 | ports are tried at most once; EADDRINUSE is rethrown exactly when all are in use, after all were tried; the code after the loop is not reached |

## Left out

- OpenSSL filters and streams, and the two streams an AUTH TLS handshake replaces: decided by a library that is not part of this model.
- Sockets, poll, signals, crypt, readdir and stat beyond their results; the masking of signals around poll.
- Timeouts, except that the check may throw; logging and dates.
- HTTP requests beyond Basic authentication: headers, response wording, mime types, error pages.
- Permission checks in src/user.cc: their outcome is a parameter of the FTP commands.
- Long FTP listings, MLST and MLSD facts, HTTP table rows: the text of an entry is a parameter of a listing.
- String-valued configuration, changes to the files by others, and the destructor of ConfDB.
- Overflow of off_t and of counters in the configuration, and the sign of a restart position above 2^63.
- The FreeBSD variant of sendfile, which seeks in the input first (lib/sendfile.cc:31-71).
- Sessions.RunKeeps: starts from a well-formed configuration, so sessions in which a counter is no number are covered by the single calls (Accounts.User.Authenticate, Accounts.Control.Decrement) only.
- Sessions.Program: lets a transfer copy the user of any FTP session or HTTP request, which is more than the server does; login attempts by an HTTP request are at most one, as in the code.
- Accounts.User.BookXfer: the ratio is any function of the upload total; its floating point product is not modelled.
- Transfers.Run: whether a booking is accepted is an answer of the environment there; Quotas says what the answers of the real counters add up to, taking each piece a transfer offers as one action.
- Responders.Serve: is about runs in which no write returns -1; what such a write does is in Responders.Responder.WriteOut.
- FtpSessions.Session.CmdEprt: what inet_pton makes of an address is a parameter.
- PortText.WordOfBytes: is about numbers; that shifts, masks and ors are products, remainders and sums is shown on machine words (PortText.OrLoopIsSum, PortText.MaskIsRemainder), and that a machine word below its limit is that number is taken for granted.
- FtpSessions.Session.CmdAnswer: stands for all commands that only answer, with any answer.
- FtpSessions.Session.CmdFile: opening and seeking a file are outcomes; the transfer itself is modelled in Transfers.
- StreamTables.StreamTable.Poll: is modelled for as many turns as the kernel answers, not for an endless run; streams and consumers are identities, and who consumes a stream is a map in the table that callbacks may change at will.
