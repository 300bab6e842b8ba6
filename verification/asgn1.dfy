/** The first version of the server: one connection at a time, requests
    PUT and GET on files of the working directory. */
module Asgn1 {
  import opened Text
  import opened Protocol
  import opened Store

  /** The receive buffer. */
  const Size: nat := 4096

  /** The end of a connection: the directory, everything sent back, and why
      the loop stopped. */
  datatype Session = Session(disk: Disk, out: string, stop: Stop)

  /** One request read from the chunk at pos. A recv of Size bytes writes
      the terminating NUL past the buffer, and a request without command and
      name (or with a Content-Length token not followed by digits) is read
      through a NULL or uninitialised value: both are undefined. A name that
      is not 11 characters with 10 letters or digits after the first gets
      400 and the connection is closed; a command other than PUT or GET is
      ignored. */
  function Step(d: Disk, chunks: seq<Chunk>, pos: nat): (r: Reply)
    requires pos < |chunks|
    ensures pos < r.pos <= |chunks|
  {
    var c := chunks[pos];
    if |c| >= Size || !Parseable(AsText(c)) then Reply(d, pos + 1, "", After.Undefined)
    else
      var h := HeaderOf(AsText(c));
      if !ValidName(h.resource) then Reply(d, pos + 1, Response(400, 0), Close)
      else Handle(d, h, chunks, pos + 1)
  }

  /** One request with a valid name, from the chunk after its header. */
  function Handle(d: Disk, h: Header, chunks: seq<Chunk>, pos: nat): (r: Reply)
    requires pos <= |chunks|
    ensures pos <= r.pos <= |chunks|
    ensures h.command == "GET" ==> r.disk == d && r.pos == pos
    ensures h.command != "PUT" && h.command != "GET" ==> r == Reply(d, pos, "", Keep)
  {
    var name := StripSlash(h.resource);
    if h.command == "PUT" then
      var p := PutSpec(d, name, h.contentLength, chunks, pos, false);
      p
    else if h.command == "GET" then GetSpec(d, pos, name, h.contentLength)
    else Reply(d, pos, "", Keep)
  }

  /** The connection loop from the chunk at pos on; recv returning -1 at
      the start of a request writes the NUL before the buffer, which is
      undefined. */
  function Serve(d: Disk, inbox: Inbox, pos: nat): (s: Session)
    requires pos <= |inbox.chunks|
    ensures s.stop == PeerGone ==> inbox.end == PeerClosed
    decreases |inbox.chunks| - pos
  {
    if pos == |inbox.chunks| then
      Session(d, "", if inbox.end == PeerClosed then PeerGone else Stop.Undefined)
    else
      var r := Step(d, inbox.chunks, pos);
      if r.after == Keep then
        var rest := Serve(r.disk, inbox, r.pos);
        Session(rest.disk, r.out + rest.out, rest.stop)
      else Session(r.disk, r.out, StopOf(r.after))
  }

  /** One pass of the connection loop. */
  method Request(d: Disk, chunks: seq<Chunk>, pos: nat) returns (r: Reply)
    requires pos < |chunks|
    ensures r == Step(d, chunks, pos)
  {
    var c := chunks[pos];
    if |c| >= Size || !Parseable(AsText(c)) {
      return Reply(d, pos + 1, "", After.Undefined);
    }
    var h := ParseHeader(AsText(c));
    if !ValidName(h.resource) {
      return Reply(d, pos + 1, Response(400, 0), Close);
    }
    var name := StripSlash(h.resource);
    if h.command == "PUT" {
      r := HandlePut(d, name, h.contentLength, chunks, pos + 1, false);
    } else if h.command == "GET" {
      r := HandleGet(d, pos + 1, name, h.contentLength, Size);
    } else {
      r := Reply(d, pos + 1, "", Keep);
    }
  }

  /** The accept loop body for one connection. */
  method ServeConnection(d: Disk, inbox: Inbox) returns (s: Session)
    ensures s == Serve(d, inbox, 0)
  {
    var disk := d;
    var pos := 0;
    var out := "";
    while pos < |inbox.chunks|
      invariant pos <= |inbox.chunks|
      invariant Serve(d, inbox, 0) == var t := Serve(disk, inbox, pos); Session(t.disk, out + t.out, t.stop)
      decreases |inbox.chunks| - pos
    {
      var r := Request(disk, inbox.chunks, pos);
      if r.after != Keep {
        return Session(r.disk, out + r.out, StopOf(r.after));
      }
      ghost var rest := Serve(r.disk, inbox, r.pos);
      assert out + (r.out + rest.out) == (out + r.out) + rest.out;
      disk, pos, out := r.disk, r.pos, out + r.out;
    }
    assert out + "" == out;
    s := Session(disk, out, if inbox.end == PeerClosed then PeerGone else Stop.Undefined);
  }

  /** The directory stays well formed across a whole connection. */
  lemma {:induction false} ServeKeepsValid(d: Disk, inbox: Inbox, pos: nat)
    requires pos <= |inbox.chunks| && Valid(d)
    ensures Valid(Serve(d, inbox, pos).disk)
    decreases |inbox.chunks| - pos
  {
    if pos < |inbox.chunks| {
      var r := Step(d, inbox.chunks, pos);
      StepKeepsValid(d, inbox.chunks, pos);
      if r.after == Keep {
        ServeKeepsValid(r.disk, inbox, r.pos);
        assert Serve(d, inbox, pos).disk == Serve(r.disk, inbox, r.pos).disk;
      } else {
        assert Serve(d, inbox, pos).disk == r.disk;
      }
    }
  }

  lemma StepKeepsValid(d: Disk, chunks: seq<Chunk>, pos: nat)
    requires pos < |chunks| && Valid(d)
    ensures Valid(Step(d, chunks, pos).disk)
  {
  }

  /** A request whose name is malformed gets 400 and ends the connection,
      whatever follows it, and changes no file. */
  lemma BadNameCloses(d: Disk, inbox: Inbox, pos: nat)
    requires pos < |inbox.chunks|
    requires |inbox.chunks[pos]| < Size && Parseable(AsText(inbox.chunks[pos]))
    requires !ValidName(HeaderOf(AsText(inbox.chunks[pos])).resource)
    ensures Serve(d, inbox, pos) == Session(d, Response(400, 0), Closed)
  {
    assert Step(d, inbox.chunks, pos) == Reply(d, pos + 1, Response(400, 0), Close);
  }

  /** A body of exactly the announced length, in whole chunks, is consumed
      to its last chunk and no further. */
  lemma {:induction false} DeclaredExact(chunks: seq<Chunk>, pos: nat, k: nat)
    requires pos + k <= |chunks|
    decreases k
    ensures Declared(chunks, pos, |Concat(chunks[pos..pos + k])|) == Body(Concat(chunks[pos..pos + k]), pos + k, true)
  {
    if k > 0 {
      ConcatSlice(chunks, pos, pos + k);
      var rest := Concat(chunks[pos + 1..pos + k]);
      assert pos + 1 + (k - 1) == pos + k;
      DeclaredExact(chunks, pos + 1, k - 1);
      assert Declared(chunks, pos + 1, |rest|) == Body(rest, pos + k, true);
      assert |Concat(chunks[pos..pos + k])| - |chunks[pos]| == |rest|;
    } else {
      assert chunks[pos..pos] == [];
    }
  }

  /** The chunk holds a whole request header that fits the buffer and
      reads as h. */
  predicate Carries(c: Chunk, h: Header)
  {
    |c| < Size && Parseable(AsText(c)) && HeaderOf(AsText(c)) == h
  }

  /** A PUT request whose body arrives in full, in the k chunks after it,
      is answered 201 and leaves the bytes in the file. */
  lemma PutStep(d: Disk, chunks: seq<Chunk>, pos: nat, k: nat, res: string)
    requires pos + 1 + k <= |chunks|
    requires Carries(chunks[pos], Header("PUT", res, |Concat(chunks[pos + 1..pos + 1 + k])|))
    requires ValidName(res) && OpenWrite(d, StripSlash(res)) == Ok
    ensures var body := Concat(chunks[pos + 1..pos + 1 + k]);
      Step(d, chunks, pos) == Reply(Write(d, StripSlash(res), body), pos + 1 + k, Response(201, |body|), Keep)
  {
    DeclaredExact(chunks, pos + 1, k);
  }

  /** A GET request for a readable file is answered 200 with its bytes,
      whatever Content-Length it carries. */
  lemma GetStep(d: Disk, chunks: seq<Chunk>, pos: nat, res: string, len: int)
    requires pos < |chunks|
    requires Carries(chunks[pos], Header("GET", res, len))
    requires ValidName(res) && Readable(d, StripSlash(res)) && |d.files[StripSlash(res)]| <= IntMax
    ensures var f := d.files[StripSlash(res)];
      Step(d, chunks, pos) == Reply(d, pos + 1, Response(200, |f|) + AsText(f), Keep)
  {
  }

  /** A GET of a name just written returns the bytes written. */
  lemma GetAfterWrite(d: Disk, chunks: seq<Chunk>, pos: nat, res: string, len: int, body: seq<byte>)
    requires pos < |chunks|
    requires Carries(chunks[pos], Header("GET", res, len))
    requires ValidName(res) && OpenWrite(d, StripSlash(res)) == Ok
    requires |body| <= IntMax
    ensures var w := Write(d, StripSlash(res), body);
      Step(w, chunks, pos) == Reply(w, pos + 1, Response(200, |body|) + AsText(body), Keep)
  {
    GetStep(Write(d, StripSlash(res), body), chunks, pos, res, len);
  }

  /** A well-formed request with a command other than PUT or GET is
      skipped: nothing is sent, no file changes, and the connection goes on
      with the next chunk. */
  lemma UnknownCommandIgnored(d: Disk, inbox: Inbox, pos: nat, h: Header)
    requires pos < |inbox.chunks| && Carries(inbox.chunks[pos], h)
    requires ValidName(h.resource) && h.command != "PUT" && h.command != "GET"
    ensures Step(d, inbox.chunks, pos) == Reply(d, pos + 1, "", Keep)
    ensures Serve(d, inbox, pos) == Serve(d, inbox, pos + 1)
  {
    var rest := Serve(d, inbox, pos + 1);
    assert "" + rest.out == rest.out;
  }

  /** On one connection, a PUT of a file whose body arrives in full and a
      GET of the same name answer 201, then 200 with the bytes that were
      put. */
  lemma PutThenGetOnConnection(d: Disk, inbox: Inbox, k: nat, res: string, len: int, body: seq<byte>)
    requires 2 + k <= |inbox.chunks| && body == Concat(inbox.chunks[1..1 + k])
    requires Carries(inbox.chunks[0], Header("PUT", res, |body|))
    requires Carries(inbox.chunks[1 + k], Header("GET", res, len))
    requires ValidName(res) && OpenWrite(d, StripSlash(res)) == Ok
    requires |body| <= IntMax
    ensures IsPrefix(Response(201, |body|) + (Response(200, |body|) + AsText(body)), Serve(d, inbox, 0).out)
  {
    PutStep(d, inbox.chunks, 0, k, res);
    GetAfterWrite(d, inbox.chunks, 1 + k, res, len, body);
    TwoKept(d, inbox, 0);
  }

  /** Two requests in a row that keep the connection send their replies
      first, in order. */
  lemma TwoKept(d: Disk, inbox: Inbox, pos: nat)
    requires pos < |inbox.chunks| && Step(d, inbox.chunks, pos).after == Keep
    requires var r := Step(d, inbox.chunks, pos);
      r.pos < |inbox.chunks| && Step(r.disk, inbox.chunks, r.pos).after == Keep
    ensures var r := Step(d, inbox.chunks, pos);
      IsPrefix(r.out + Step(r.disk, inbox.chunks, r.pos).out, Serve(d, inbox, pos).out)
  {
    var r := Step(d, inbox.chunks, pos);
    var g := Step(r.disk, inbox.chunks, r.pos);
    ServeKeep(d, inbox, pos);
    ServeKeep(r.disk, inbox, r.pos);
    var rest := Serve(g.disk, inbox, g.pos).out;
    assert (r.out + (g.out + rest))[..|r.out + g.out|] == r.out + g.out;
  }

  /** A request that keeps the connection is followed by the rest of the
      loop. */
  lemma ServeKeep(d: Disk, inbox: Inbox, pos: nat)
    requires pos < |inbox.chunks| && Step(d, inbox.chunks, pos).after == Keep
    ensures var r := Step(d, inbox.chunks, pos);
      Serve(d, inbox, pos).out == r.out + Serve(r.disk, inbox, r.pos).out
  {
  }
}
