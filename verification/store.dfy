/** The server's view of the working directory and of one client
    connection, and the PUT and GET handlers built on them.

    The directory holds regular files (their bytes) and directories; a path
    is a name ("abcdefghij") or a directory and a name ("copy1/abcdefghij").
    `order` lists every path in the order it was created, which is the order
    readdir reports entries in this model. `faults` makes open fail for a
    path with the given errno. */
module Store {
  import opened Text
  import opened Protocol

  /** The outcome of open(2): success, or the errno it sets. */
  datatype OpenResult = Ok | NoEnt | Access | Other

  datatype Disk = Disk(files: map<string, seq<byte>>, dirs: set<string>,
                       faults: map<string, OpenResult>, order: seq<string>)

  /** Every path is listed once, and a path is either a file or a directory. */
  predicate Valid(d: Disk)
  {
    (forall i, j :: 0 <= i < j < |d.order| ==> d.order[i] != d.order[j])
    && (forall p :: p in d.order ==> p in d.files || p in d.dirs)
    && (forall p :: p in d.files ==> p in d.order)
    && (forall p :: p in d.dirs ==> p in d.order)
    && (forall p :: p in d.files ==> p !in d.dirs)
  }

  /** The errno an open of p fails with regardless of the call (permissions,
      I/O errors), or Ok. */
  function Fault(d: Disk, p: string): OpenResult
  {
    if p in d.faults then d.faults[p] else Ok
  }

  /** open(p, O_RDONLY): a directory can be opened, but reading it fails. */
  function OpenRead(d: Disk, p: string): (r: OpenResult)
    ensures r == Ok <==> Fault(d, p) == Ok && (p in d.files || p in d.dirs)
  {
    if Fault(d, p) != Ok then Fault(d, p)
    else if p in d.files || p in d.dirs then Ok
    else NoEnt
  }

  /** Every directory on the way to p exists. */
  predicate ParentExists(d: Disk, p: string)
  {
    forall i :: 0 <= i < |p| && p[i] == '/' ==> p[..i] in d.dirs
  }

  /** open(p, O_RDWR | O_CREAT | O_TRUNC): fails on a directory and in a
      directory that does not exist, otherwise creates or truncates the
      file. */
  function OpenWrite(d: Disk, p: string): (r: OpenResult)
    ensures r == Ok <==> Fault(d, p) == Ok && p !in d.dirs && ParentExists(d, p)
  {
    if Fault(d, p) != Ok then Fault(d, p)
    else if p in d.dirs then Other
    else if !ParentExists(d, p) then NoEnt
    else Ok
  }

  /** opendir(p): a regular file is not a directory (ENOTDIR). */
  function OpenDir(d: Disk, p: string): (r: OpenResult)
    ensures r == Ok <==> Fault(d, p) == Ok && p in d.dirs
  {
    if Fault(d, p) != Ok then Fault(d, p)
    else if p in d.dirs then Ok
    else if p in d.files then Other
    else NoEnt
  }

  /** The file p now holds exactly bytes; a new path goes to the end of the
      creation order. */
  function Write(d: Disk, p: string, bytes: seq<byte>): (r: Disk)
    requires p !in d.dirs
    ensures r.files == d.files[p := bytes] && r.dirs == d.dirs && r.faults == d.faults
    ensures Valid(d) ==> Valid(r)
  {
    d.(files := d.files[p := bytes], order := if p in d.order then d.order else d.order + [p])
  }

  /** Write bytes to p if its open succeeded (a write to the descriptor
      -1 of a failed open does nothing). */
  function WriteIfOpen(d: Disk, p: string, o: OpenResult, bytes: seq<byte>): (r: Disk)
    requires o == Ok ==> p !in d.dirs
    ensures r.dirs == d.dirs && r.faults == d.faults
    ensures o == Ok ==> r.files == d.files[p := bytes]
    ensures o != Ok ==> r == d
    ensures Valid(d) ==> Valid(r)
  {
    if o == Ok then Write(d, p, bytes) else d
  }

  /** mkdir(p): nothing happens when p already exists. */
  function MakeDir(d: Disk, p: string): (r: Disk)
    ensures p in d.files || p in d.dirs ==> r == d
    ensures p !in d.files && p !in d.dirs ==> r.dirs == d.dirs + {p}
    ensures r.files == d.files && r.faults == d.faults
    ensures Valid(d) ==> Valid(r)
  {
    if p in d.files || p in d.dirs then d
    else d.(dirs := d.dirs + {p}, order := d.order + [p])
  }

  /** Status code for a failed open for writing. */
  function WriteError(o: OpenResult): int
  {
    if o == Access then 403 else 500
  }

  /** Status code for a failed open for reading. */
  function ReadError(o: OpenResult): int
  {
    if o == NoEnt then 404 else if o == Access then 403 else 500
  }

  /** One directory entry as readdir reports it. */
  datatype Entry = Entry(name: string, isDir: bool)

  /** p is an entry of directory dir ("" is the working directory). */
  predicate ChildOf(p: string, dir: string)
  {
    if dir == "" then '/' !in p
    else |dir| + 1 <= |p| && p[..|dir| + 1] == dir + "/" && '/' !in p[|dir| + 1..]
  }

  /** The name of an entry of dir. */
  function BaseName(p: string, dir: string): string
    requires ChildOf(p, dir)
  {
    if dir == "" then p else p[|dir| + 1..]
  }

  /** The path of name inside dir. */
  function PathIn(dir: string, name: string): string
  {
    if dir == "" then name else dir + "/" + name
  }

  lemma PathOfChild(p: string, dir: string)
    requires ChildOf(p, dir)
    ensures PathIn(dir, BaseName(p, dir)) == p
  {
    if dir != "" {
      assert p == p[..|dir| + 1] + p[|dir| + 1..];
    }
  }

  /** The entries of dir among the paths, in order ("." and ".." are left
      out: every reader of a listing skips them). */
  function EntriesOf(d: Disk, paths: seq<string>, dir: string): (es: seq<Entry>)
    ensures forall e :: e in es ==> PathIn(dir, e.name) in paths
    ensures forall e :: e in es ==> (e.isDir <==> PathIn(dir, e.name) in d.dirs)
    ensures Plain(es)
  {
    if |paths| == 0 then []
    else
      var rest := EntriesOf(d, paths[1..], dir);
      if ChildOf(paths[0], dir) then
        PathOfChild(paths[0], dir);
        [Entry(BaseName(paths[0], dir), paths[0] in d.dirs)] + rest
      else rest
  }

  /** No entry name holds a '/'. */
  predicate Plain(es: seq<Entry>)
  {
    forall e :: e in es ==> '/' !in e.name
  }

  /** What readdir returns for dir, one entry per call. */
  function Listing(d: Disk, dir: string): seq<Entry>
  {
    EntriesOf(d, d.order, dir)
  }

  /** Every file and directory of dir is in its listing. */
  lemma {:induction false} ListingComplete(d: Disk, paths: seq<string>, dir: string, p: string)
    requires p in paths && ChildOf(p, dir)
    ensures Entry(BaseName(p, dir), p in d.dirs) in EntriesOf(d, paths, dir)
  {
    if paths[0] != p {
      ListingComplete(d, paths[1..], dir, p);
    }
  }

  // ---------------------------------------------------------------------
  // The connection

  /** What one successful recv returns: at least one byte. */
  type Chunk = c: seq<byte> | |c| > 0 witness [0]

  /** What recv returns once the chunks are used up: 0 when the client
      has closed its side, -1 on an error. */
  datatype RecvEnd = PeerClosed | RecvError

  /** The data a client sends on one connection, as recv hands it out. */
  datatype Inbox = Inbox(chunks: seq<Chunk>, end: RecvEnd)

  function Concat(cs: seq<Chunk>): seq<byte>
  {
    if |cs| == 0 then [] else Concat(cs[..|cs| - 1]) + cs[|cs| - 1]
  }

  lemma ConcatStep(cs: seq<Chunk>, i: nat, j: nat)
    requires i <= j < |cs|
    ensures Concat(cs[i..j + 1]) == Concat(cs[i..j]) + cs[j]
  {
    assert cs[i..j + 1][..j - i] == cs[i..j];
  }

  lemma {:induction false} ConcatFront(cs: seq<Chunk>)
    requires 0 < |cs|
    ensures Concat(cs) == cs[0] + Concat(cs[1..])
  {
    if |cs| > 1 {
      ConcatFront(cs[..|cs| - 1]);
      assert cs[..|cs| - 1][1..] == cs[1..][..|cs| - 2];
      assert cs[..|cs| - 1][0] == cs[0];
    } else {
      assert cs[..0] == [] && cs[1..] == [];
    }
  }

  lemma ConcatSlice(cs: seq<Chunk>, i: nat, j: nat)
    requires i < j <= |cs|
    ensures Concat(cs[i..j]) == cs[i] + Concat(cs[i + 1..j])
  {
    ConcatFront(cs[i..j]);
    assert cs[i..j][1..] == cs[i + 1..j];
  }

  /** The outcome of reading a body announced with a Content-Length. */
  datatype Body = Body(bytes: seq<byte>, next: nat, complete: bool)

  /** The body loop of a PUT with a Content-Length: recv and write whole
      chunks while the announced count is not used up; stop early when
      recv returns 0 or -1. The last chunk may carry more bytes than
      announced: all of them are written. */
  function Declared(chunks: seq<Chunk>, pos: nat, remaining: int): (b: Body)
    requires pos <= |chunks|
    ensures pos <= b.next <= |chunks|
    decreases |chunks| - pos
  {
    if remaining <= 0 then Body([], pos, true)
    else if pos == |chunks| then Body([], pos, false)
    else
      var rest := Declared(chunks, pos + 1, remaining - |chunks[pos]|);
      Body(chunks[pos] + rest.bytes, rest.next, rest.complete)
  }

  /** The body read is every chunk from pos up to where the loop stopped.
      A complete body holds at least the announced count, and the loop
      stopped at the first chunk that reached it; an incomplete one used up
      all chunks and holds fewer bytes than announced. */
  lemma {:induction false} DeclaredMeaning(chunks: seq<Chunk>, pos: nat, remaining: int)
    requires pos <= |chunks|
    ensures var b := Declared(chunks, pos, remaining);
      b.bytes == Concat(chunks[pos..b.next])
      && (b.complete ==> remaining <= |b.bytes|)
      && (b.complete && b.next > pos ==> |Concat(chunks[pos..b.next - 1])| < remaining)
      && (!b.complete ==> b.next == |chunks| && |b.bytes| < remaining)
    decreases |chunks| - pos
  {
    if remaining > 0 && pos < |chunks| {
      var rest := Declared(chunks, pos + 1, remaining - |chunks[pos]|);
      DeclaredMeaning(chunks, pos + 1, remaining - |chunks[pos]|);
      ConcatSlice(chunks, pos, rest.next);
      if rest.next > pos + 1 {
        ConcatSlice(chunks, pos, rest.next - 1);
      }
    } else {
      assert chunks[pos..pos] == [];
    }
  }

  /** The loop of handle_put that counts content_size down. */
  method ReceiveDeclared(chunks: seq<Chunk>, pos: nat, declared: int) returns (b: Body)
    requires pos <= |chunks|
    ensures b == Declared(chunks, pos, declared)
  {
    var remaining := declared;
    var i := pos;
    var body: seq<byte> := [];
    var complete := true;
    while remaining > 0
      invariant pos <= i <= |chunks|
      invariant Declared(chunks, pos, declared)
        == var r := Declared(chunks, i, remaining); Body(body + r.bytes, r.next, r.complete)
      decreases |chunks| - i
    {
      if i == |chunks| {
        complete := false;
        break;
      }
      remaining := remaining - |chunks[i]|;
      body := body + chunks[i];
      i := i + 1;
    }
    assert body + [] == body;
    b := Body(body, i, complete);
  }

  /** The loop of handle_put without a Content-Length: write every chunk
      until recv returns 0 or -1. */
  method ReceiveToEnd(chunks: seq<Chunk>, pos: nat) returns (body: seq<byte>)
    requires pos <= |chunks|
    ensures body == Concat(chunks[pos..])
  {
    body := [];
    var i := pos;
    while i < |chunks|
      invariant pos <= i <= |chunks|
      invariant body == Concat(chunks[pos..i])
    {
      ConcatStep(chunks, pos, i);
      body := body + chunks[i];
      i := i + 1;
    }
    assert chunks[pos..] == chunks[pos..i];
  }

  // ---------------------------------------------------------------------
  // PUT and GET on one file

  /** What a connection does after a request: wait for the next request,
      close, never return (the worker waits for ever), or nothing defined
      (the C code has undefined behaviour). */
  datatype After = Keep | Close | Hang | Undefined

  /** How a connection loop ends after a request that does not keep it. */
  function StopOf(a: After): Stop
  {
    if a == Close then Closed else if a == Hang then Blocked else Stop.Undefined
  }

  /** Why a connection loop ended: the client closed its side, the server
      closed the connection, the worker blocks for ever on a mutex it can
      never get, or the C code has undefined behaviour. */
  datatype Stop = PeerGone | Closed | Blocked | Undefined

  /** The resource name without the '/' that the handlers strip. */
  function StripSlash(r: string): string
  {
    if |r| > 0 && r[0] == '/' then r[1..] else r
  }

  /** The state after a request: the directory, the number of chunks
      consumed, the bytes sent back, and what happens next. */
  datatype Reply = Reply(disk: Disk, pos: nat, out: string, after: After)

  /** handle_put on one file. With `strict` (the later versions) a body that
      ends before the announced length closes the connection without a
      response; without it (the first version) 201 is sent anyway. */
  function PutSpec(d: Disk, name: string, len: int, chunks: seq<Chunk>, pos: nat, strict: bool): (r: Reply)
    requires pos <= |chunks|
    ensures OpenWrite(d, name) != Ok ==>
      r == Reply(d, pos, Response(WriteError(OpenWrite(d, name)), len), Close)
    ensures OpenWrite(d, name) == Ok ==>
      pos <= r.pos <= |chunks| && r.disk == Write(d, name, Concat(chunks[pos..r.pos]))
    ensures r.after == Keep <==>
      OpenWrite(d, name) == Ok && (!strict || len <= |Concat(chunks[pos..r.pos])|)
    ensures r.after == Keep ==> r.out == Response(201, len)
    ensures OpenWrite(d, name) == Ok && r.after != Keep ==> r.out == [] && r.after == Close
    ensures OpenWrite(d, name) == Ok && len <= -1 ==> r.pos == |chunks|
    ensures OpenWrite(d, name) == Ok && len > -1 ==> r.pos == Declared(chunks, pos, len).next
  {
    var o := OpenWrite(d, name);
    if o != Ok then Reply(d, pos, Response(WriteError(o), len), Close)
    else if len > -1 then
      var b := Declared(chunks, pos, len);
      DeclaredMeaning(chunks, pos, len);
      var d' := Write(d, name, b.bytes);
      if !b.complete && strict then Reply(d', b.next, "", Close)
      else Reply(d', b.next, Response(201, len), Keep)
    else
      assert chunks[pos..|chunks|] == chunks[pos..];
      Reply(Write(d, name, Concat(chunks[pos..])), |chunks|, Response(201, len), Keep)
  }

  method HandlePut(d: Disk, name: string, len: int, chunks: seq<Chunk>, pos: nat, strict: bool)
    returns (r: Reply)
    requires pos <= |chunks|
    ensures r == PutSpec(d, name, len, chunks, pos, strict)
  {
    var o := OpenWrite(d, name);
    if o != Ok {
      return Reply(d, pos, Response(WriteError(o), len), Close);
    }
    if len > -1 {
      var b := ReceiveDeclared(chunks, pos, len);
      var d' := Write(d, name, b.bytes);
      if !b.complete && strict {
        r := Reply(d', b.next, "", Close);
      } else {
        r := Reply(d', b.next, Response(201, len), Keep);
      }
    } else {
      var body := ReceiveToEnd(chunks, pos);
      r := Reply(Write(d, name, body), |chunks|, Response(201, len), Keep);
    }
  }

  /** The bytes of a file that can be read: it opens and is not a directory. */
  predicate Readable(d: Disk, p: string)
  {
    OpenRead(d, p) == Ok && p in d.files
  }

  /** handle_get on one file: the open errors map to 404, 403 and 500; a
      directory opens but cannot be read (500); otherwise 200 with the size
      counted first, then the bytes. A size beyond the range of the int
      counter is undefined. */
  function GetSpec(d: Disk, pos: nat, name: string, len: int): (r: Reply)
    ensures r.disk == d && r.pos == pos
    ensures r.after == Keep <==> Readable(d, name) && |d.files[name]| <= IntMax
    ensures r.after == Keep ==> r.out == Response(200, |d.files[name]|) + AsText(d.files[name])
    ensures OpenRead(d, name) != Ok ==> r.out == Response(ReadError(OpenRead(d, name)), len)
    ensures OpenRead(d, name) == Ok && name !in d.files ==> r.out == Response(500, len) && r.after == Close
    ensures OpenRead(d, name) != Ok ==> r.after == Close
    ensures Readable(d, name) && |d.files[name]| > IntMax ==> r.after == After.Undefined
  {
    var o := OpenRead(d, name);
    if o != Ok then Reply(d, pos, Response(ReadError(o), len), Close)
    else if name !in d.files then Reply(d, pos, Response(500, len), Close)
    else if |d.files[name]| > IntMax then Reply(d, pos, "", After.Undefined)
    else Reply(d, pos, Response(200, |d.files[name]|) + AsText(d.files[name]), Keep)
  }

  /** A read/write loop that copies a file, bufSize bytes at a time. */
  method CopyBytes(file: seq<byte>, bufSize: nat) returns (copy: seq<byte>)
    requires bufSize > 0
    ensures copy == file
  {
    copy := [];
    while |copy| < |file|
      invariant |copy| <= |file| && copy == file[..|copy|]
      decreases |file| - |copy|
    {
      var i := |copy|;
      var size := if |file| - i < bufSize then |file| - i else bufSize;
      assert file[..i + size] == file[..i] + file[i..i + size];
      copy := copy + file[i..i + size];
    }
  }

  /** The read loop that counts the bytes of a file, bufSize at a time. */
  method CountBytes(file: seq<byte>, bufSize: nat) returns (n: int)
    requires bufSize > 0
    ensures n == |file|
  {
    n := 0;
    while n < |file|
      invariant 0 <= n <= |file|
    {
      var size := if |file| - n < bufSize then |file| - n else bufSize;
      n := n + size;
    }
  }

  /** The read/send loop that sends a file, bufSize bytes at a time. */
  method SendBytes(file: seq<byte>, bufSize: nat) returns (out: string)
    requires bufSize > 0
    ensures out == AsText(file)
  {
    out := [];
    var i := 0;
    while i < |file|
      invariant 0 <= i <= |file|
      invariant out == AsText(file[..i])
    {
      var size := if |file| - i < bufSize then |file| - i else bufSize;
      AsTextAppend(file[..i], file[i..i + size]);
      assert file[..i] + file[i..i + size] == file[..i + size];
      out := out + AsText(file[i..i + size]);
      i := i + size;
    }
    assert file[..i] == file;
  }

  method HandleGet(d: Disk, pos: nat, name: string, len: int, bufSize: nat) returns (r: Reply)
    requires bufSize > 0
    ensures r == GetSpec(d, pos, name, len)
  {
    var o := OpenRead(d, name);
    if o != Ok {
      return Reply(d, pos, Response(ReadError(o), len), Close);
    }
    if name !in d.files {
      return Reply(d, pos, Response(500, len), Close);
    }
    var file := d.files[name];
    var size := CountBytes(file, bufSize);
    if size > IntMax {
      return Reply(d, pos, "", After.Undefined);
    }
    var body := SendBytes(file, bufSize);
    r := Reply(d, pos, Response(200, size) + body, Keep);
  }

  /** A PUT whose body arrives in full, then a GET of the same name, returns
      exactly the bytes the PUT received, behind a 200 that announces their
      number. */
  lemma PutThenGet(d: Disk, name: string, len: int, chunks: seq<Chunk>, pos: nat, strict: bool)
    requires pos <= |chunks|
    requires OpenWrite(d, name) == Ok
    requires |Concat(chunks[pos..])| <= IntMax
    ensures var p := PutSpec(d, name, len, chunks, pos, strict);
      var body := Concat(chunks[pos..p.pos]);
      p.after == Keep ==>
        GetSpec(p.disk, p.pos, name, len).out == Response(200, |body|) + AsText(body)
  {
    var p := PutSpec(d, name, len, chunks, pos, strict);
    var body := Concat(chunks[pos..p.pos]);
    ConcatPrefix(chunks[pos..], p.pos - pos);
    assert chunks[pos..][..p.pos - pos] == chunks[pos..p.pos];
  }

  /** The bytes of the chunks from pos up to q are no more than all the
      bytes from pos. */
  lemma ConcatBound(chunks: seq<Chunk>, pos: nat, q: nat)
    requires pos <= q <= |chunks|
    ensures |Concat(chunks[pos..q])| <= |Concat(chunks[pos..])|
  {
    ConcatPrefix(chunks[pos..], q - pos);
    assert chunks[pos..][..q - pos] == chunks[pos..q];
  }

  /** The bytes of a prefix of the chunks are no more than all of them. */
  lemma {:induction false} ConcatPrefix(cs: seq<Chunk>, k: nat)
    requires k <= |cs|
    ensures |Concat(cs[..k])| <= |Concat(cs)|
  {
    if k < |cs| {
      ConcatPrefix(cs[..|cs| - 1], k);
      assert cs[..|cs| - 1][..k] == cs[..k];
    } else {
      assert cs[..k] == cs;
    }
  }

  /** The first version keeps the connection after a PUT whose open
      succeeded even when the body is short; the later versions close it
      without a response. */
  lemma ShortBody(d: Disk, name: string, len: int, chunks: seq<Chunk>, pos: nat)
    requires pos <= |chunks| && OpenWrite(d, name) == Ok
    requires len > |Concat(chunks[pos..])|
    ensures PutSpec(d, name, len, chunks, pos, false).after == Keep
    ensures PutSpec(d, name, len, chunks, pos, true) == PutSpec(d, name, len, chunks, pos, false).(out := "", after := Close)
  {
    var b := Declared(chunks, pos, len);
    DeclaredMeaning(chunks, pos, len);
    ConcatPrefix(chunks[pos..], b.next - pos);
    assert chunks[pos..][..b.next - pos] == chunks[pos..b.next];
  }
}
