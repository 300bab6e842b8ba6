# A verified model of a small HTTP/1.1 file server, in three versions

The server stores files in its working directory and serves them over
HTTP/1.1. A request names a resource of exactly eleven characters whose last
ten are letters or digits; the first is not checked, and the handlers
drop it when it is a `/`. `PUT` stores the request body under
that name, and `GET` sends the file back. The server exists in three
versions, each in its own `httpserver.cpp`.

- **asgn1** serves one connection at a time and reads requests into a
  4096-byte buffer. A request with a malformed name gets `400 Bad
  Request` and the connection is closed. A command other than `PUT` or
  `GET` is ignored and the connection stays open.
- **asgn2** has a dispatcher that accepts connections into a queue, and
  workers that take them off it. Each file has a mutex, registered at
  startup (by a scan of the directory) or by the first `PUT`. With `-r`
  (redundancy), every file is kept as three copies, `copy1/`, `copy2/` and
  `copy3/`. A `GET` serves a copy that agrees with another copy. An
  unknown command gets `400` and the connection is closed.
- **asgn3** goes back to one connection at a time and adds three
  requests:
  - `GET /b` copies every eligible file into a directory
    `backup-<seconds>`;
  - `GET /r` restores the newest backup, and `GET /r/<timestamp>`
    restores a named one;
  - `GET /l` lists the timestamps of the backups, one per line.

## How the model works

**The environment.**
- The working directory is a value `Store.Disk`. It holds:
  - regular files as byte sequences;
  - a set of directories;
  - a per-path fault that makes `open` fail with `ENOENT`, `EACCES` or
    another error;
  - the order in which `readdir` returns entries.
- A connection is a `Store.Inbox`: the byte chunks that successive
  `recv` calls return, and how the stream ends (the peer closes or
  `recv` fails).
- A request handler maps the disk, the inbox and a position in it to a
  `Store.Reply`. A reply holds:
  - the new disk;
  - the position after the chunks the handler consumed;
  - the bytes sent back;
  - what happens next (`Store.After`):
    - keep reading requests;
    - close the connection;
    - block for ever on a mutex nobody releases;
    - undefined behaviour of the C code.

**Parsing and responses.**
- `Protocol.HeaderOf` models `parseHeader` token by token, the way
  `strtok`, `strstr` and `strtol` see the buffer.
- `Protocol.Response` builds the status line and `Content-Length`
  header that `send_response` writes. Lemmas prove that this text parses
  back, under the same tokenizer, to its code and announced length.

**State and loops.** Pure C logic is modelled as functions. Loops that
read, write, count or scan are modelled as methods with loop invariants,
each proved equal to the function that specifies it. asgn2's shared
state (disk, mutex table, connection queue) is the class
`Asgn2.Server`. Its methods update those fields and are proved against
the functional model `Asgn2.Step`/`Asgn2.Serve`.

**Locks.** asgn2 takes a mutex per file, and this model has a single
worker. A mutex that the worker still holds, from an earlier request
whose error path returned without unlocking, makes the next request for
that file block for ever. The model keeps that behaviour, as the code
has it.

**Time.** asgn3's clock is a parameter. `Asgn3.Serve` takes a function
from chunk index to seconds: a request whose header is the chunk at
index `pos` of the inbox sees `clock(pos)` as the value of `time(NULL)`.

**Corner cases modelled as undefined.** Several C corner cases are
modelled as undefined, not guessed:
- a request that fills the whole buffer (the terminating NUL is written
  past it);
- a header without a command or a name (a NULL pointer is dereferenced);
- `Content-Length` followed by no digit (an uninitialised `long` is
  read);
- `recv` failing at the start of a request;
- a file larger than the `int` byte counter;
- a copy directory that cannot be opened at startup (`closedir(NULL)`);
- a backup name whose suffix is 20 characters or longer (it overflows
  `time_str`);
- `GET /r/<t>` with a timestamp of 491 digits or more: `./backup-<t>`
  does not fit the 500-byte path buffer, and the NUL is written at the
  index `snprintf` returns, past the buffer.

**Backup eligibility.** A file is backed up when its name has ten
characters, it is not a directory, and its ninth character is not `.`.
The test in `handle_backup` also has a clause
`(filename[9] != 'o' || filename[9] != 'c')`, which is always true.
`Snapshots.Eligible` keeps the clause as written and proves the
condition it reduces to.

## Model

| member | source | states |
|---|---|---|
| Text.DigitChar | asgn1/httpserver.cpp:61 | the character printed for a digit is a decimal digit whose value is that digit |
| Text.Decimal | asgn1/httpserver.cpp:61 | `%d` of a natural number is a non-empty run of digits with no leading zero whose value is the number |
| Text.DigitPrefix | asgn1/httpserver.cpp:46-48 | the digits that `strtol` consumes are a prefix of the text, all digits, and the next character (if any) is not a digit |
| Text.DigitPrefixOf | asgn1/httpserver.cpp:46-48 | a digit run followed by a non-digit is exactly the run that is consumed |
| Text.DecimalRoundTrip | asgn1/httpserver.cpp:46-48 | reading back the decimal text of n, whatever non-digit follows, gives n |
| Text.Strtol | asgn1/httpserver.cpp:47 | `strtol` yields a value in the range of a 64-bit `long` |
| Text.StrtolOfDigits | asgn1/httpserver.cpp:47 | on digits, `strtol` gives their value, saturated at `LONG_MAX` |
| Text.CString | asgn1/httpserver.cpp:170-174 | the string seen after `buf[n] = '\0'` is the prefix of the received bytes up to the first NUL, and holds no NUL |
| Text.AsText | asgn1/httpserver.cpp:326 | bytes sent as characters keep their length and their codes |
| Text.ContainsWhere | asgn1/httpserver.cpp:37 | when `strstr` finds a pattern, there is a position where it occurs |
| Protocol.RunLength | asgn1/httpserver.cpp:28-31 | the length of the token at the start of the text: no space inside it, a space (or the end) after it |
| Protocol.Tokens | asgn1/httpserver.cpp:28-43 | the `strtok` tokens of the text are all non-empty and space-free |
| Protocol.TokensJoin | asgn1/httpserver.cpp:28-43 | splitting space-joined tokens at spaces gives back those tokens |
| Protocol.Narrow | asgn1/httpserver.cpp:49 | storing a `long` length into the `int` field gives an `int`, and keeps every value that fits |
| Protocol.HeaderOf | asgn1/httpserver.cpp:25-54 | the command and the name are the first two `strtok` tokens, non-empty and space-free; the length is characterised by `Protocol.LengthAbsent`, `Protocol.LengthFromField` and `Protocol.LengthStopsAtEnd` |
| Protocol.ParseHeader | asgn1/httpserver.cpp:25-54 | the token loop computes exactly the header `Protocol.HeaderOf` specifies |
| Protocol.LengthAbsent | asgn1/httpserver.cpp:34-51 | with no `Content-Length` token, the length stays -1 |
| Protocol.LengthFromField | asgn1/httpserver.cpp:42-49 | the length is -1 or the narrowed leading number of a token that follows a `Content-Length` token |
| Protocol.LengthStopsAtEnd | asgn1/httpserver.cpp:37-40 | a `Content-Length` after the token holding the blank line is not read |
| Protocol.ValidName | asgn1/httpserver.cpp:181-200 | a name is accepted iff it has 11 characters and the last 10 are letters or digits (examples in `Protocol.ValidNameExamples`, consequences in `Asgn1.BadNameCloses` and `Asgn3.BadNameCloses`) |
| Protocol.ValidNameExamples | asgn1/httpserver.cpp:181-200 | `/abcdefghij` is accepted; a ten-character name and one holding `-` are refused |
| Protocol.Reason | asgn1/httpserver.cpp:56-91 | each known code's reason phrase is non-empty words without CR or LF |
| Protocol.Response | asgn1/httpserver.cpp:56-91 | a response is sent iff the code is one of the six known codes; what it parses back to is `Protocol.ResponseFields` |
| Protocol.ResponseFields | asgn1/httpserver.cpp:56-91 | a response is sent exactly for codes 200, 201, 400, 403, 404 and 500; it parses back to `HTTP/1.1`, the code and the announced length (the length for 200 and 400, otherwise 0) |
| Protocol.LengthSkipsWords | asgn1/httpserver.cpp:36-51 | tokens that are neither a length field nor the header end do not change the length found after them |
| Store.OpenRead | asgn1/httpserver.cpp:267-285 | `open` for reading succeeds iff the path has no fault and is a file or a directory |
| Store.OpenWrite | asgn1/httpserver.cpp:210-220 | `open` with `O_CREAT` succeeds iff the path has no fault, is not a directory, and its parent exists |
| Store.OpenDir | asgn3/httpserver.cpp:340-355 | `opendir` succeeds iff the path has no fault and is a directory |
| Store.Write | asgn1/httpserver.cpp:210-258 | truncating and writing a file replaces its bytes and changes nothing else |
| Store.WriteIfOpen | asgn3/httpserver.cpp:267-286 | a write through a descriptor that failed to open changes nothing; otherwise it replaces the file |
| Store.MakeDir | asgn3/httpserver.cpp:242 | `mkdir` adds the directory unless the path already exists, and changes no file |
| Store.EntriesOf | asgn3/httpserver.cpp:441-447 | the entries `readdir` returns are the directory's children, each typed as a directory iff it is one |
| Store.ListingComplete | asgn3/httpserver.cpp:441-447 | every child of a directory is listed |
| Store.Declared | asgn1/httpserver.cpp:223-243 | the body loop for a declared length stops within the chunks received; its meaning is `Store.DeclaredMeaning` |
| Store.DeclaredMeaning | asgn1/httpserver.cpp:223-243 | the body read for a declared length is the chunks received, stopping at the first chunk that reaches the length, or at the end of the stream |
| Store.ReceiveDeclared | asgn1/httpserver.cpp:224-237 | the `recv` loop reads exactly the body `Store.Declared` specifies |
| Store.ReceiveToEnd | asgn1/httpserver.cpp:244-252 | without a length, the body is every remaining chunk |
| Store.PutSpec | asgn3/httpserver.cpp:96-156 | an open error gets its 403 or 500 and closes; otherwise the file holds the bytes received, which are every remaining chunk without a length and the chunks up to where `Store.Declared` stops with one, and 201 is sent and the connection kept, except that a short body closes silently in the strict (later) versions |
| Store.HandlePut | asgn1/httpserver.cpp:203-259 | the PUT handler computes exactly `Store.PutSpec` |
| Store.GetSpec | asgn3/httpserver.cpp:158-232 | no file changes; the connection is kept iff the file is readable and its size fits an `int`, and then 200 and the file's bytes are sent; open errors get 404, 403 or 500 and close the connection; a directory gets 500 and closes; a file larger than the `int` counter is undefined |
| Store.CopyBytes | asgn3/httpserver.cpp:271-282 | the buffered read/write loop copies the file exactly |
| Store.CountBytes | asgn1/httpserver.cpp:287-303 | the counting loop finds the file's size |
| Store.SendBytes | asgn1/httpserver.cpp:318-332 | the sending loop sends the file's bytes in order |
| Store.HandleGet | asgn1/httpserver.cpp:261-336 | the GET handler computes exactly `Store.GetSpec` |
| Store.PutThenGet | asgn1/httpserver.cpp:203-336 | after a PUT that keeps the connection, a GET of the same name returns 200 and the bytes put |
| Store.ShortBody | asgn3/httpserver.cpp:122-127 | on a body shorter than announced, the first version replies 201 and keeps the connection; the later versions write the same bytes but send nothing and close |
| Asgn1.Step | asgn1/httpserver.cpp:169-337 | each pass of the request loop consumes at least one chunk |
| Asgn1.Handle | asgn1/httpserver.cpp:203-336 | a request consumes no chunk before its body; GET changes no file and consumes no chunk; a command other than PUT or GET sends nothing, changes nothing and keeps the connection |
| Asgn1.Serve | asgn1/httpserver.cpp:160-341 | the session ends with the peer gone only when the peer closed its side; its steps are stated by `Asgn1.ServeKeepsValid`, `Asgn1.BadNameCloses`, `Asgn1.UnknownCommandIgnored` and `Asgn1.PutThenGetOnConnection` |
| Asgn1.Request | asgn1/httpserver.cpp:169-337 | one pass of the request loop computes `Asgn1.Step` |
| Asgn1.ServeConnection | asgn1/httpserver.cpp:160-341 | the connection loop computes the session `Asgn1.Serve` specifies |
| Asgn1.ServeKeepsValid | asgn1/httpserver.cpp:169-337 | a connection leaves the directory well formed |
| Asgn1.UnknownCommandIgnored | asgn1/httpserver.cpp:203-336 | a well-formed request with a command other than PUT or GET sends nothing, changes nothing, and the session goes on with the next chunk |
| Asgn1.BadNameCloses | asgn1/httpserver.cpp:181-200 | a malformed name gets 400, changes nothing, and ends the connection |
| Asgn1.DeclaredExact | asgn1/httpserver.cpp:223-243 | a body of exactly the declared length is read to its last chunk and no further |
| Asgn1.PutStep | asgn1/httpserver.cpp:203-259 | a PUT whose body arrives in full stores it and answers 201 |
| Asgn1.GetStep | asgn1/httpserver.cpp:261-336 | a GET of a readable file answers 200 and its bytes, whatever length it announces |
| Asgn1.GetAfterWrite | asgn1/httpserver.cpp:261-336 | a GET of a file just written returns the bytes written |
| Asgn1.PutThenGetOnConnection | asgn1/httpserver.cpp:169-337 | on one connection, a PUT and a GET of the same name answer 201, then 200 with the bytes put |
| Replicas.CompareSpec | asgn2/httpserver.cpp:139-178 | two copies are equal iff both are readable files with the same bytes; comparing never ends iff both open but neither is a file |
| Replicas.CompareTwoFiles | asgn2/httpserver.cpp:139-178 | the byte-by-byte comparison loop computes `Replicas.CompareSpec` |
| Replicas.Which | asgn2/httpserver.cpp:180-195 | the copy served: characterised by `Replicas.WhichMeaning` and `Replicas.MajorityServed`; it hangs when a comparison never ends |
| Replicas.WhichMeaning | asgn2/httpserver.cpp:180-195 | copy 1 is served iff it agrees with copy 2 or copy 3; copy 2 iff only copies 2 and 3 agree; none iff no two agree |
| Replicas.MajorityServed | asgn2/httpserver.cpp:180-195 | when two copies agree, a readable copy that agrees with another is served |
| Replicas.WriteReplicas | asgn2/httpserver.cpp:337-382 | each copy that opened holds the body; every other file, every directory and every fault is unchanged, and no path other than the three copies is created |
| Replicas.PutReplicasSpec | asgn2/httpserver.cpp:308-382 | when two of the three opens fail, the last error is sent and the connection closed; otherwise the copies that opened hold the bytes received (every remaining chunk without a length, the chunks up to where `Store.Declared` stops with one), and 201 is sent iff the body reached its announced length |
| Replicas.PutReplicas | asgn2/httpserver.cpp:317-382 | the redundant PUT computes `Replicas.PutReplicasSpec` |
| Replicas.GetReplicasSpec | asgn2/httpserver.cpp:514-601 | no file changes; when two copies fail to open, the last open error is sent and the connection closed; when no two copies agree, 500 is sent and the connection closed; a comparison that never ends hangs; the connection is kept iff copy 1 or 2 is picked and fits an `int`, and then 200 and that copy's bytes are sent |
| Replicas.TwoFailedNoPick | asgn2/httpserver.cpp:518-542 | when two copies fail to open, no copy is served |
| Replicas.GetReplicas | asgn2/httpserver.cpp:514-601 | the redundant GET computes `Replicas.GetReplicasSpec` |
| Replicas.ReplicasKept | asgn2/httpserver.cpp:317-382 | when all three copies can be written, each holds the bytes received |
| Replicas.WrittenReplicasServed | asgn2/httpserver.cpp:484-608 | three copies written with the same bytes are served back with 200 |
| Asgn2.Acquire | asgn2/httpserver.cpp:209-215 | locking registers the names, holds only names listed, and on success holds all of them |
| Asgn2.AcquireOne | asgn2/httpserver.cpp:214-215 | one mutex is taken iff nobody holds it |
| Asgn2.AcquireMeaning | asgn2/httpserver.cpp:303-306 | a run of locks succeeds iff the names are distinct and none is held |
| Asgn2.AcquireBlocked | asgn2/httpserver.cpp:303-306 | a run that blocks stops at the first name held, or already listed, and holds the ones before it |
| Asgn2.Release | asgn2/httpserver.cpp:384-387 | unlocking frees exactly the listed names, keeps every other held name held, and registers nothing |
| Asgn2.AcquireRelease | asgn2/httpserver.cpp:384-387 | unlocking what was locked frees those names and keeps them registered |
| Asgn2.PutOne | asgn2/httpserver.cpp:197-275 | PUT registers the name and blocks iff its mutex is held; otherwise it behaves as `Store.PutSpec` (strict), and the mutex stays held after an error |
| Asgn2.GetOne | asgn2/httpserver.cpp:392-482 | GET of an unregistered name gets 404; a held mutex blocks; otherwise it behaves as `Store.GetSpec`, and the mutex stays held after an error |
| Asgn2.ReplicaNames | asgn2/httpserver.cpp:283-289 | the three copies of a name are `copy1/`, `copy2/` and `copy3/` followed by the name |
| Asgn2.ReplicaLocks | asgn2/httpserver.cpp:303-306 | the three copy mutexes are taken iff none is held |
| Asgn2.PutMany | asgn2/httpserver.cpp:277-390 | the redundant PUT registers all three copies, blocks iff one is held, otherwise behaves as `Replicas.PutReplicasSpec`, and keeps the three held after an error |
| Asgn2.GetMany | asgn2/httpserver.cpp:484-608 | the redundant GET gets 404 unless all three copies are registered, blocks if one is held, otherwise behaves as `Replicas.GetReplicasSpec` |
| Asgn2.FailedPutBlocks | asgn2/httpserver.cpp:220-231 | after a PUT whose open fails, every later PUT or GET of that name blocks for ever |
| Asgn2.PutThenGetOne | asgn2/httpserver.cpp:197-482 | after a PUT that keeps the connection, a GET of the name returns 200 and the bytes put |
| Asgn2.PutThenGetMany | asgn2/httpserver.cpp:277-608 | the same round trip holds with redundancy |
| Asgn2.Step | asgn2/httpserver.cpp:654-717 | each request consumes at least one chunk |
| Asgn2.StepReleases | asgn2/httpserver.cpp:654-717 | a request that keeps the connection leaves no new mutex held |
| Asgn2.Serve | asgn2/httpserver.cpp:653-719 | the session ends with the peer gone only when the peer closed its side; its mutexes are stated by `Asgn2.ServeReleases` |
| Asgn2.ServeReleases | asgn2/httpserver.cpp:653-719 | a connection that the peer ends holds no mutex that was free before |
| Asgn2.Server.constructor | asgn2/httpserver.cpp:889-907 | the shared data starts with the registry it is given (at startup, the one `Startup.Scanned` computes), no mutex held, and an empty queue |
| Asgn2.Server.Accept | asgn2/httpserver.cpp:610-628 | the dispatcher appends a connection to the queue and changes nothing else |
| Asgn2.Server.Take | asgn2/httpserver.cpp:636-650 | a worker removes the connection at the head of the queue |
| Asgn2.Server.LockAll | asgn2/httpserver.cpp:303-306 | locking updates the mutex table as `Asgn2.Acquire` |
| Asgn2.Server.UnlockAll | asgn2/httpserver.cpp:384-387 | unlocking updates the mutex table as `Asgn2.Release` |
| Asgn2.Server.PutFile | asgn2/httpserver.cpp:197-275 | the table, disk and reply become those of `Asgn2.PutOne` |
| Asgn2.Server.GetFile | asgn2/httpserver.cpp:392-482 | the table, disk and reply become those of `Asgn2.GetOne` |
| Asgn2.Server.PutReplicated | asgn2/httpserver.cpp:277-390 | the table, disk and reply become those of `Asgn2.PutMany` |
| Asgn2.Server.GetReplicated | asgn2/httpserver.cpp:484-608 | the table, disk and reply become those of `Asgn2.GetMany` |
| Asgn2.Server.Request | asgn2/httpserver.cpp:654-717 | one request updates the server as `Asgn2.Step` |
| Asgn2.Server.ServeConnection | asgn2/httpserver.cpp:653-719 | a whole connection updates the server as `Asgn2.Serve` |
| Asgn2.Server.Work | asgn2/httpserver.cpp:630-722 | a worker takes the head of the queue and serves it as `Asgn2.Serve` |
| Startup.CopyNames | asgn2/httpserver.cpp:836-847 | the paths registered from a copy directory are exactly its entries not starting with `.` |
| Startup.RegisterCopies | asgn2/httpserver.cpp:837-847 | the loop adds exactly `Startup.CopyNames` to the registry |
| Startup.Scanned | asgn2/httpserver.cpp:820-866 | without redundancy, the registry is exactly the listed names not excluded, hidden or copy directories; with it, the scan is undefined iff a listed copy directory cannot be opened, and copies are noted iff a copy directory is listed |
| Startup.Populate | asgn2/httpserver.cpp:820-866 | the startup scan computes `Startup.Scanned` |
| Startup.UndefinedStays | asgn2/httpserver.cpp:849-852 | once `closedir(NULL)` is reached, the scan stays undefined |
| Startup.RegistryPlain | asgn2/httpserver.cpp:828-859 | without redundancy, the registry is exactly the names not excluded, not hidden and not a copy directory |
| Startup.RegistryRedundant | asgn2/httpserver.cpp:828-853 | with redundancy, the scan is undefined iff a copy directory cannot be opened; otherwise copy directories are noted and the registry is exactly the visible entries of the copy directories |
| Snapshots.SnapshotName | asgn3/httpserver.cpp:239 | a backup directory is named `backup-` followed by a non-empty suffix without `/` |
| Snapshots.Eligible | asgn3/httpserver.cpp:254 | a file is backed up iff its name has ten characters, it is not a directory, and its ninth character is not `.` |
| Snapshots.CopyOne | asgn3/httpserver.cpp:255-286 | copying one file changes only paths inside the backup directory, and fails iff the file cannot be read: its open fails with an error other than `EACCES`, or it is a directory |
| Snapshots.CopyFrom | asgn3/httpserver.cpp:250-288 | the backup loop changes only paths inside the backup directory |
| Snapshots.CopyFiles | asgn3/httpserver.cpp:250-288 | the loop computes `Snapshots.CopyFrom` |
| Snapshots.CopyFails | asgn3/httpserver.cpp:250-288 | the backup fails iff some eligible file cannot be read (an open error other than `EACCES`, or a directory) |
| Snapshots.CopyKeeps | asgn3/httpserver.cpp:255-286 | when the backup succeeds, every eligible readable file has a copy with its bytes |
| Snapshots.BackupSpec | asgn3/httpserver.cpp:234-295 | a backup consumes no chunk and leaves the directory well formed; it answers 201 and keeps the connection iff no eligible file of the working directory (listed after the `mkdir`) is unreadable, and otherwise sends 500 and closes; it creates `backup-<seconds>` (unless a file has that name) and changes no file outside it |
| Snapshots.HandleBackup | asgn3/httpserver.cpp:234-295 | the backup handler computes `Snapshots.BackupSpec` |
| Snapshots.BackupSaves | asgn3/httpserver.cpp:234-295 | after a successful backup, the new directory exists and holds a copy of each eligible readable file with its bytes; the original is unchanged |
| Snapshots.ListedCopied | asgn3/httpserver.cpp:250-288 | an eligible readable file of the working directory is copied when the backup loop succeeds |
| Snapshots.RestoreOne | asgn3/httpserver.cpp:399-422 | restoring one file changes no directory and no fault |
| Snapshots.RestoreFrom | asgn3/httpserver.cpp:392-423 | the restore loop changes no file inside a subdirectory |
| Snapshots.RestoreStable | asgn3/httpserver.cpp:392-423 | a file already holding its restored bytes keeps them |
| Snapshots.RestoreWrites | asgn3/httpserver.cpp:392-423 | every file in the backup that can be written ends up holding the backup's bytes |
| Snapshots.RestoreLeaves | asgn3/httpserver.cpp:392-423 | a working file with no entry in the backup, or one that cannot be opened for writing, is neither created, removed nor changed |
| Snapshots.RestoreFiles | asgn3/httpserver.cpp:392-423 | the loop computes `Snapshots.RestoreFrom` |
| Snapshots.LatestFrom | asgn3/httpserver.cpp:311-333 | the newest timestamp is at least the start value, bounds every backup's, and is the start value or one of them |
| Snapshots.Latest | asgn3/httpserver.cpp:311-333 | the newest timestamp: 0 or some backup's, and at least every backup's (`Snapshots.LatestFrom` from 0) |
| Snapshots.Overflows | asgn3/httpserver.cpp:455-459 | a backup directory whose suffix has 20 characters or more, which overruns `time_str` here and at lines 322-326 and 503-507; `Snapshots.NewestSnapshot`, `Snapshots.CountSnapshots` and `Snapshots.ListSpec` detect it and make it undefined |
| Snapshots.NewestSnapshot | asgn3/httpserver.cpp:303-333 | the scan reports overflow iff some suffix overflows `time_str`, and otherwise finds `Snapshots.Latest` |
| Snapshots.CheckDigits | asgn3/httpserver.cpp:363-368 | the timestamp check accepts iff every character is a digit |
| Snapshots.RestoreSpec | asgn3/httpserver.cpp:370-430 | a restore consumes no chunk and leaves the directory well formed; a snapshot directory that does not open gets 404, 403 or 500, changes nothing and closes; otherwise 201 is sent and the connection kept |
| Snapshots.HandleRestore | asgn3/httpserver.cpp:370-430 | the restore handler computes `Snapshots.RestoreSpec` |
| Snapshots.RecoverSpec | asgn3/httpserver.cpp:297-430 | a recovery consumes no chunk and leaves the directory well formed; a named timestamp that is not all digits gets 400 and closes; one too long for the path buffer is undefined; `GET /r` is undefined iff a suffix overflows `time_str`; the chosen snapshot directory failing to open gets 404, 403 or 500, changes nothing and closes, and otherwise 201 is sent and the connection kept |
| Snapshots.HandleRecover | asgn3/httpserver.cpp:297-430 | the recovery handler computes `Snapshots.RecoverSpec` |
| Snapshots.RecoverRestores | asgn3/httpserver.cpp:357-430 | `GET /r/<s>` keeps the connection and restores each file of `backup-<s>` that can be written |
| Snapshots.BackupThenRecover | asgn3/httpserver.cpp:234-430 | after a backup, overwriting a file and recovering that backup gives back the file's bytes |
| Snapshots.RecoverAfterWrite | asgn3/httpserver.cpp:357-430 | a file overwritten after its backup gets the backed-up bytes back |
| Snapshots.NewestRestored | asgn3/httpserver.cpp:303-340 | `GET /r` recovers the same backup as naming the newest timestamp |
| Snapshots.Listed | asgn3/httpserver.cpp:443-468 | a backup is listed iff it is a directory named `backup-` and a suffix of digits; `Snapshots.NothingListed` ties it to the announced length |
| Snapshots.ListLength | asgn3/httpserver.cpp:469-474 | the counting pass's total, one line length per listed backup; equal to the served listing's length by `Snapshots.ListLengthIsBody` |
| Snapshots.ListBody | asgn3/httpserver.cpp:488-524 | the listing served (the corrected sending pass): its length is `Snapshots.ListLength` by `Snapshots.ListLengthIsBody` |
| Snapshots.ListBodyAsWritten | asgn3/httpserver.cpp:517-521 | the listing as the code sends it; it falls short of `Snapshots.ListLength` by `Snapshots.AsWrittenShortfall` |
| Snapshots.ListLengthIsBody | asgn3/httpserver.cpp:469-474 | the counting pass's total is the length of the intended listing |
| Snapshots.NothingListed | asgn3/httpserver.cpp:479-481 | the total is 0 iff no directory is listed |
| Snapshots.ListSpec | asgn3/httpserver.cpp:432-529 | a list changes nothing; a suffix that overflows `time_str` makes it undefined, and otherwise it sends 200 with the listing's length and the listing and keeps the connection |
| Snapshots.CountSnapshots | asgn3/httpserver.cpp:441-477 | the counting pass finds the listing length, and whether any backup is listed |
| Snapshots.SendSnapshots | asgn3/httpserver.cpp:488-524 | the corrected sending pass sends `Snapshots.ListBody`: each listed timestamp with its newline, unlike lines 517-521 as written (see Findings) |
| Snapshots.SendSnapshotsAsWritten | asgn3/httpserver.cpp:488-524 | the sending pass as written sends `Snapshots.ListBodyAsWritten`: each line cut to 19 characters by the 20-byte buffer |
| Snapshots.HandleList | asgn3/httpserver.cpp:432-529 | the list handler computes `Snapshots.ListSpec` |
| Snapshots.AsWrittenShortfall | asgn3/httpserver.cpp:469-474 | as written, the bytes sent fall short of the announced length by one per 19-digit timestamp, and match it when there are none |
| Snapshots.NineteenDigitTimestamp | asgn3/httpserver.cpp:517-521 | for `backup-1234567890123456789` the length announced is 20, but only the 19 digits are sent, without the newline |
| Asgn3.RouteOf | asgn3/httpserver.cpp:626-658 | a request goes to backup iff it is `GET` of a two-character name ending in `b`, to recovery iff it is `GET` of a two-character name ending in `r` or a name longer than three whose second and third characters are `r/`, to list iff it is `GET` of a two-character name ending in `l`, and otherwise to the file handlers; the first character is not looked at, and the snapshot routes never take a valid file name |
| Asgn3.Step | asgn3/httpserver.cpp:617-688 | each request consumes at least one chunk |
| Asgn3.Request | asgn3/httpserver.cpp:617-688 | one pass of the request loop computes `Asgn3.Step` |
| Asgn3.Turn | asgn3/httpserver.cpp:607-690 | a request that keeps the connection is followed by the rest of the session; any other outcome ends it |
| Asgn3.Serve | asgn3/httpserver.cpp:598-693 | the session ends with the peer gone only when the peer closed its side; its steps are stated by `Asgn3.Turn`, `Asgn3.ServeKeepsValid` and the per-request lemmas below |
| Asgn3.ServeConnection | asgn3/httpserver.cpp:598-693 | the connection loop computes the session `Asgn3.Serve` specifies |
| Asgn3.ServeKeepsValid | asgn3/httpserver.cpp:607-690 | a connection leaves the directory well formed |
| Asgn3.BadNameCloses | asgn3/httpserver.cpp:635-657 | a malformed file name gets 400, changes nothing, and ends the connection |
| Asgn3.UnknownCommandCloses | asgn3/httpserver.cpp:684-688 | a command other than PUT or GET gets 400 and ends the connection |
| Asgn3.ListAnswered | asgn3/httpserver.cpp:633-634 | `GET /l` answers 200 and the corrected listing `Snapshots.ListBody` (see Findings) and keeps the connection |
| Asgn3.BackupAnswered | asgn3/httpserver.cpp:627-682 | `GET /b` is handled as a backup at the current second, with the body starting at the next chunk |
| Asgn3.RecoverAnswered | asgn3/httpserver.cpp:629-682 | `GET /r` and `GET /r/<t>` are handled as a recovery of the resource named |
| Asgn3.FileAnswered | asgn3/httpserver.cpp:635-682 | any other request with a valid name is a file request: `PUT` stores the body as the strict PUT does, and `GET` sends the file |
| Asgn3.BadTimestampCloses | asgn3/httpserver.cpp:363-368 | `GET /r/` followed by a non-digit gets 400 and ends the connection |

## Left out

- Sockets, `getaddrinfo`, `bind`, `listen`, `accept` failures and argument parsing: they are I/O outside the request logic.
- `warn` and `fprintf` logging: it has no effect on the replies.
- `send` failures and partial sends are not modelled: every `send` is taken to deliver all its bytes.
- A read from an opened regular file never fails: only an open fault or a directory makes reading fail.
- The `close`, `free` and `malloc` calls, and the descriptors asgn2's worker never closes, are not modelled: they are resource handling with no effect on the bytes exchanged.
- Threads are not modelled. asgn2 is modelled with one worker serving connections in turn. Interleavings of several workers, the race between two first PUTs registering one name, and the dispatcher's condition variable are outside a sequential model.
- Creating `copy1`–`copy3` at startup (asgn2/httpserver.cpp:868-873) is not modelled; the model starts from the directory after startup.
- The working directory is assumed to open at startup and in asgn3's `opendir(".")` calls. A failure there would pass `NULL` to `readdir`.
- `readdir` order is `Disk.order`, filtered to the listed directory's children. `.` and `..` are never returned (every loop that sees them skips them), and `d_type` is taken from `Disk.dirs`.
- Recovery with a named timestamp builds the path `./backup-<t>`; the model drops the `./`, which names the same directory.
- In `GET /r`, `time_str` receives a suffix of 19 characters or fewer without its NUL. The model assumes the byte after it is not a digit.
- A suffix of 20 characters or more, which overruns `time_str`, is modelled as undefined (`Snapshots.Overflows`).
- The path `backup_filename` of each restored file (asgn3/httpserver.cpp:400-402) overruns its 500-byte buffer when `./backup-<t>/<name>` is 500 characters or longer. That undefined case is not modelled: `Snapshots.RestoreFrom` restores such a file like any other.
- The listing's `int` total (`content_len` in `handle_list`) is not bounded: its overflow is not modelled.
- Snapshots.BackupSpec: its own contract states the reply (201 or 500) and when each is sent, and that it creates the snapshot directory and changes nothing outside it, but not the copies it writes. What a backup saves is stated by `Snapshots.BackupSaves` and `Snapshots.CopyKeeps`.
- Snapshots.RecoverSpec: its own contract states every reply (400, undefined, 404/403/500, 201) and when each is sent, but not the files it writes. What it restores is stated by `Snapshots.RecoverRestores`, `Snapshots.RecoverAfterWrite` and `Snapshots.NewestRestored`.
- Snapshots.RestoreSpec: its own contract states the reply (an open error or 201) and when each is sent, but not the files it writes. What it writes is stated by `Snapshots.RestoreWrites` and `Snapshots.RestoreStable`, and what it leaves alone by `Snapshots.RestoreLeaves`.
- Snapshots.ListSpec: the listing it serves is the corrected `Snapshots.ListBody`, not the as-written `Snapshots.ListBodyAsWritten`. So `Snapshots.SendSnapshots`, `Snapshots.HandleList`, `Asgn3.Step`, `Asgn3.Serve` and `Asgn3.ListAnswered` also send the corrected listing. The two differ only when a backup has a 19-digit timestamp (see Findings); the code as written is `Snapshots.SendSnapshotsAsWritten`.
- Asgn1.Step, Asgn2.Step, Asgn3.Step: their own contracts state only progress through the chunks. The behaviour of each request is stated by the handler specifications and the per-request lemmas beside them.

## Findings

| source | as written | input that shows it | evidently intended | confidence | as-written member | corrected member |
|---|---|---|---|---|---|---|
| asgn3/httpserver.cpp:469-474, 517-521 | each listing line is formatted with `snprintf` into a 20-byte `timestamp`. The counting pass adds `snprintf`'s return value (the untruncated length); the sending pass sends `strlen` of the truncated text | a backup directory `backup-1234567890123456789` (a 19-digit timestamp): `Content-Length: 20` is announced, but only the 19 digits are sent, without the newline | every line is sent whole, timestamp and newline, so the bytes sent match `Content-Length` | not executed | Snapshots.ListBodyAsWritten, with Snapshots.NineteenDigitTimestamp and Snapshots.AsWrittenShortfall | Snapshots.ListBody, with Snapshots.ListLengthIsBody (used by Snapshots.ListSpec) |
