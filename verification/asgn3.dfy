/** The third version: one connection at a time, as in the first, with
    PUT and GET on files and the backup ("/b"), recovery ("/r", "/r/<t>")
    and list ("/l") requests. The clock that names snapshots is a
    parameter: the second at which the request in each chunk is handled. */
module Asgn3 {
  import opened Text
  import opened Protocol
  import opened Store
  import opened Snapshots

  /** The receive buffer. */
  const Size: nat := 16384

  /** The handler main sends a request to. */
  datatype Route = Backup | Recover | List | File

  /** The router of main: a GET of "/b", "/r", "/r/<t>" (more than three
      characters) or "/l" goes to a snapshot handler, the first character
      not being looked at; every other request is a file request. The
      snapshot routes never take a valid file name. */
  function RouteOf(h: Header): (route: Route)
    ensures route != File ==> h.command == "GET" && !ValidName(h.resource)
    ensures route == Recover ==> |h.resource| == 2 || |h.resource| > 3
    ensures h.command == "GET" && |h.resource| == 2 && h.resource[1] in "brl" ==> route != File
    ensures route == Backup <==> h.command == "GET" && |h.resource| == 2 && h.resource[1] == 'b'
    ensures route == Recover <==>
      h.command == "GET" && |h.resource| >= 2 && h.resource[1] == 'r'
      && (|h.resource| == 2 || (|h.resource| > 3 && h.resource[2] == '/'))
    ensures route == List <==> h.command == "GET" && |h.resource| == 2 && h.resource[1] == 'l'
  {
    var r := h.resource;
    if h.command != "GET" then File
    else if |r| == 2 && r[1] == 'b' then Backup
    else if (|r| == 2 && r[1] == 'r') || (|r| > 3 && r[1] == 'r' && r[2] == '/') then Recover
    else if |r| == 2 && r[1] == 'l' then List
    else File
  }

  /** The end of a connection: the directory, everything sent back, and why
      the loop stopped. */
  datatype Session = Session(disk: Disk, out: string, stop: Stop)

  /** One request read from the chunk at pos, at second now. A recv of Size
      bytes writes the terminating NUL past the buffer, and a request
      without command and name (or with a Content-Length token not followed
      by digits) is read through a NULL or uninitialised value: both are
      undefined. A file request whose name is not 11 characters with 10
      letters or digits after the first gets 400, and so does a command
      other than PUT or GET; both end the connection, as does any handler
      that fails. */
  function Step(d: Disk, chunks: seq<Chunk>, pos: nat, now: int): (r: Reply)
    requires pos < |chunks|
    ensures pos < r.pos <= |chunks|
  {
    var c := chunks[pos];
    if |c| >= Size || !Parseable(AsText(c)) then Reply(d, pos + 1, "", After.Undefined)
    else
      var h := HeaderOf(AsText(c));
      var route := RouteOf(h);
      if route == File && !ValidName(h.resource) then Reply(d, pos + 1, Response(400, 0), Close)
      else if h.command == "PUT" then
        PutSpec(d, StripSlash(h.resource), h.contentLength, chunks, pos + 1, true)
      else if h.command != "GET" then Reply(d, pos + 1, Response(400, 0), Close)
      else
        match route
        case Backup => BackupSpec(d, now, pos + 1, h.contentLength)
        case Recover => RecoverSpec(d, h.resource, pos + 1, h.contentLength)
        case List => ListSpec(d, pos + 1)
        case File => GetSpec(d, pos + 1, StripSlash(h.resource), h.contentLength)
  }

  /** The connection loop from the chunk at pos on; recv returning -1 at
      the start of a request writes the NUL before the buffer, which is
      undefined. */
  function Serve(d: Disk, inbox: Inbox, clock: nat -> int, pos: nat): (s: Session)
    requires pos <= |inbox.chunks|
    ensures s.stop == PeerGone ==> inbox.end == PeerClosed
    decreases |inbox.chunks| - pos
  {
    if pos == |inbox.chunks| then
      Session(d, "", if inbox.end == PeerClosed then PeerGone else Stop.Undefined)
    else
      var r := Step(d, inbox.chunks, pos, clock(pos));
      if r.after == Keep then
        var rest := Serve(r.disk, inbox, clock, r.pos);
        Session(rest.disk, r.out + rest.out, rest.stop)
      else Session(r.disk, r.out, StopOf(r.after))
  }

  /** One pass of the connection loop. */
  method Request(d: Disk, chunks: seq<Chunk>, pos: nat, now: int) returns (r: Reply)
    requires pos < |chunks|
    ensures r == Step(d, chunks, pos, now)
  {
    var c := chunks[pos];
    if |c| >= Size || !Parseable(AsText(c)) {
      return Reply(d, pos + 1, "", After.Undefined);
    }
    var h := ParseHeader(AsText(c));
    var route := RouteOf(h);
    if route == File && !ValidName(h.resource) {
      return Reply(d, pos + 1, Response(400, 0), Close);
    }
    if h.command == "PUT" {
      r := HandlePut(d, StripSlash(h.resource), h.contentLength, chunks, pos + 1, true);
    } else if h.command == "GET" {
      match route {
        case Backup => r := HandleBackup(d, now, pos + 1, h.contentLength);
        case Recover => r := HandleRecover(d, h.resource, pos + 1, h.contentLength);
        case List => r := HandleList(d, pos + 1);
        case File => r := HandleGet(d, pos + 1, StripSlash(h.resource), h.contentLength, Size);
      }
    } else {
      r := Reply(d, pos + 1, Response(400, 0), Close);
    }
  }

  /** One pass of the connection loop, and how the rest of the connection
      follows from its reply. */
  method Turn(d: Disk, inbox: Inbox, clock: nat -> int, pos: nat) returns (r: Reply)
    requires pos < |inbox.chunks|
    ensures pos < r.pos <= |inbox.chunks|
    ensures r.after == Keep ==> var rest := Serve(r.disk, inbox, clock, r.pos);
      Serve(d, inbox, clock, pos) == Session(rest.disk, r.out + rest.out, rest.stop)
    ensures r.after != Keep ==> Serve(d, inbox, clock, pos) == Session(r.disk, r.out, StopOf(r.after))
  {
    r := Request(d, inbox.chunks, pos, clock(pos));
  }

  /** The accept loop body for one connection. */
  method ServeConnection(d: Disk, inbox: Inbox, clock: nat -> int) returns (s: Session)
    ensures s == Serve(d, inbox, clock, 0)
  {
    var disk := d;
    var pos := 0;
    var out := "";
    while pos < |inbox.chunks|
      invariant pos <= |inbox.chunks|
      invariant Serve(d, inbox, clock, 0)
        == var t := Serve(disk, inbox, clock, pos); Session(t.disk, out + t.out, t.stop)
      decreases |inbox.chunks| - pos
    {
      var r := Turn(disk, inbox, clock, pos);
      if r.after != Keep {
        return Session(r.disk, out + r.out, StopOf(r.after));
      }
      ghost var rest := Serve(r.disk, inbox, clock, r.pos);
      assert out + (r.out + rest.out) == (out + r.out) + rest.out;
      disk, pos, out := r.disk, r.pos, out + r.out;
    }
    assert out + "" == out;
    s := Session(disk, out, if inbox.end == PeerClosed then PeerGone else Stop.Undefined);
  }

  /** The directory stays well formed across a whole connection. */
  lemma {:induction false} ServeKeepsValid(d: Disk, inbox: Inbox, clock: nat -> int, pos: nat)
    requires pos <= |inbox.chunks| && Valid(d)
    ensures Valid(Serve(d, inbox, clock, pos).disk)
    decreases |inbox.chunks| - pos
  {
    if pos < |inbox.chunks| {
      var r := Step(d, inbox.chunks, pos, clock(pos));
      StepKeepsValid(d, inbox.chunks, pos, clock(pos));
      if r.after == Keep {
        ServeKeepsValid(r.disk, inbox, clock, r.pos);
        assert Serve(d, inbox, clock, pos).disk == Serve(r.disk, inbox, clock, r.pos).disk;
      } else {
        assert Serve(d, inbox, clock, pos).disk == r.disk;
      }
    }
  }

  lemma StepKeepsValid(d: Disk, chunks: seq<Chunk>, pos: nat, now: int)
    requires pos < |chunks| && Valid(d)
    ensures Valid(Step(d, chunks, pos, now).disk)
  {
  }

  /** The chunk holds a whole request header that fits the buffer and
      reads as h. */
  predicate Carries(c: Chunk, h: Header)
  {
    |c| < Size && Parseable(AsText(c)) && HeaderOf(AsText(c)) == h
  }

  /** A file request whose name is malformed, a PUT of "/b", "/r" or "/l"
      among them, gets 400 and ends the connection, whatever follows it,
      and changes no file. */
  lemma BadNameCloses(d: Disk, inbox: Inbox, clock: nat -> int, pos: nat, h: Header)
    requires pos < |inbox.chunks| && Carries(inbox.chunks[pos], h)
    requires RouteOf(h) == File && !ValidName(h.resource)
    ensures Serve(d, inbox, clock, pos) == Session(d, Response(400, 0), Closed)
  {
    assert Step(d, inbox.chunks, pos, clock(pos)) == Reply(d, pos + 1, Response(400, 0), Close);
  }

  /** Unlike the first version, a request with a valid name and a command
      other than PUT or GET gets 400 and ends the connection. */
  lemma UnknownCommandCloses(d: Disk, inbox: Inbox, clock: nat -> int, pos: nat, h: Header)
    requires pos < |inbox.chunks| && Carries(inbox.chunks[pos], h)
    requires ValidName(h.resource) && h.command != "PUT" && h.command != "GET"
    ensures Serve(d, inbox, clock, pos) == Session(d, Response(400, 0), Closed)
  {
    assert Step(d, inbox.chunks, pos, clock(pos)) == Reply(d, pos + 1, Response(400, 0), Close);
  }

  /** A GET of "/l" is answered 200 with a Content-Length equal to the
      length of the list that follows it. */
  lemma ListAnswered(d: Disk, chunks: seq<Chunk>, pos: nat, now: int, h: Header)
    requires pos < |chunks| && Carries(chunks[pos], h)
    requires h.command == "GET" && |h.resource| == 2 && h.resource[1] == 'l'
    requires !Overflows(Listing(d, ""))
    ensures var body := ListBody(Listing(d, ""));
      Step(d, chunks, pos, now) == Reply(d, pos + 1, Response(200, |body|) + body, Keep)
  {
    assert RouteOf(h) == List;
  }

  /** A GET of "/b" is handled as a backup taken at the second the
      request is handled. */
  lemma BackupAnswered(d: Disk, chunks: seq<Chunk>, pos: nat, now: int, h: Header)
    requires pos < |chunks| && Carries(chunks[pos], h)
    requires h.command == "GET" && |h.resource| == 2 && h.resource[1] == 'b'
    ensures Step(d, chunks, pos, now) == BackupSpec(d, now, pos + 1, h.contentLength)
  {
    assert RouteOf(h) == Backup;
  }

  /** A GET of "/r", or of "/r/" followed by at least one character, is
      handled as a recovery of the resource named. */
  lemma RecoverAnswered(d: Disk, chunks: seq<Chunk>, pos: nat, now: int, h: Header)
    requires pos < |chunks| && Carries(chunks[pos], h)
    requires h.command == "GET" && |h.resource| >= 2 && h.resource[1] == 'r'
    requires |h.resource| == 2 || (|h.resource| > 3 && h.resource[2] == '/')
    ensures Step(d, chunks, pos, now) == RecoverSpec(d, h.resource, pos + 1, h.contentLength)
  {
    assert RouteOf(h) == Recover;
  }

  /** Every other request with a valid name is a file request: PUT stores
      the body under the name without its first character '/', and GET
      sends that file. */
  lemma FileAnswered(d: Disk, chunks: seq<Chunk>, pos: nat, now: int, h: Header)
    requires pos < |chunks| && Carries(chunks[pos], h)
    requires RouteOf(h) == File && ValidName(h.resource)
    ensures h.command == "PUT" ==>
      Step(d, chunks, pos, now) == PutSpec(d, StripSlash(h.resource), h.contentLength, chunks, pos + 1, true)
    ensures h.command == "GET" ==>
      Step(d, chunks, pos, now) == GetSpec(d, pos + 1, StripSlash(h.resource), h.contentLength)
  {
  }

  /** A GET of "/r/<t>" with a character other than a digit in t gets 400
      and ends the connection before any directory is opened or any file
      written. */
  lemma BadTimestampCloses(d: Disk, chunks: seq<Chunk>, pos: nat, now: int, h: Header)
    requires pos < |chunks| && Carries(chunks[pos], h)
    requires h.command == "GET" && |h.resource| > 3 && h.resource[..3] == "/r/"
    requires !AllDigits(h.resource[3..])
    ensures Step(d, chunks, pos, now) == Reply(d, pos + 1, Response(400, 0), Close)
  {
    assert h.resource[1] == 'r' && h.resource[2] == '/';
    assert RouteOf(h) == Recover;
  }
}
