/** The redundancy mode of the multi-threaded version: every file name is
    kept as three replicas copy1/<name>, copy2/<name> and copy3/<name>; a
    PUT writes all the replicas it can open, a GET serves a replica that
    agrees with another one. */
module Replicas {
  import opened Text
  import opened Protocol
  import opened Store

  /** The replica directories. */
  function CopyDir(k: int): string
  {
    if k == 1 then "copy1" else if k == 2 then "copy2" else "copy3"
  }

  /** The path of replica k of name. */
  function Replica(k: int, name: string): string
  {
    PathIn(CopyDir(k), name)
  }

  /** The outcome of compare_two_files. Two directories are never told
      apart: read returns -1 on both for ever and the loop does not end. */
  datatype Compare = Equal | Unequal | Forever

  /** compare_two_files: both open and hold the same bytes. A directory
      opens, and reading it fails; against a regular file that makes the
      sizes differ. */
  function CompareSpec(d: Disk, p1: string, p2: string): (c: Compare)
    ensures c == Equal <==> Readable(d, p1) && Readable(d, p2) && d.files[p1] == d.files[p2]
    ensures c == Forever <==> OpenRead(d, p1) == Ok && OpenRead(d, p2) == Ok && p1 !in d.files && p2 !in d.files
  {
    if OpenRead(d, p1) != Ok || OpenRead(d, p2) != Ok then Unequal
    else if p1 !in d.files && p2 !in d.files then Forever
    else if p1 !in d.files || p2 !in d.files then Unequal
    else if d.files[p1] == d.files[p2] then Equal
    else Unequal
  }

  /** The byte-by-byte loop of compare_two_files: read one byte of each
      file per step; a differing pair ends it, so does the end of either
      file; the files are equal when both ended together. */
  method CompareTwoFiles(d: Disk, p1: string, p2: string) returns (c: Compare)
    ensures c == CompareSpec(d, p1, p2)
  {
    if OpenRead(d, p1) != Ok || OpenRead(d, p2) != Ok {
      return Unequal;
    }
    if p1 !in d.files && p2 !in d.files {
      return Forever;
    }
    if p1 !in d.files || p2 !in d.files {
      return Unequal;
    }
    var f1 := d.files[p1];
    var f2 := d.files[p2];
    var size1, size2 := 1, 1;
    var i := 0;
    while size1 != 0 && size2 != 0
      invariant 0 <= i <= |f1| && i <= |f2|
      invariant f1[..i] == f2[..i]
      invariant size1 == 0 || size2 == 0 ==>
        (size1 == 0 <==> i == |f1|) && (size2 == 0 <==> i == |f2|)
      decreases |f1| - i + (if size1 != 0 && size2 != 0 then 1 else 0)
    {
      size1 := if i < |f1| then 1 else 0;
      size2 := if i < |f2| then 1 else 0;
      if size1 == 1 && size2 == 1 {
        if f1[i] != f2[i] {
          assert f1 != f2 by { assert f1[i] != f2[i]; }
          return Unequal;
        }
        assert f1[..i + 1] == f1[..i] + [f1[i]] && f2[..i + 1] == f2[..i] + [f2[i]];
        i := i + 1;
      }
    }
    if size1 != size2 {
      assert |f1| != |f2|;
      return Unequal;
    }
    assert f1 == f1[..i] && f2 == f2[..i];
    c := Equal;
  }

  /** The outcome of get_which_file: a replica number, or no answer
      because a comparison never ends. */
  datatype Choice = Pick(n: int) | Hangs

  /** get_which_file: replica 1 if it agrees with replica 2 or 3, else
      replica 2 if it agrees with replica 3, else -1. The comparisons run
      in the order 1-2, 1-3, 2-3, and all three run. */
  function Which(d: Disk, name: string): Choice
  {
    var c12 := CompareSpec(d, Replica(1, name), Replica(2, name));
    var c13 := CompareSpec(d, Replica(1, name), Replica(3, name));
    var c23 := CompareSpec(d, Replica(2, name), Replica(3, name));
    if c12 == Forever || c13 == Forever || c23 == Forever then Hangs
    else if c12 == Equal then Pick(1)
    else if c13 == Equal then Pick(1)
    else if c23 == Equal then Pick(2)
    else Pick(-1)
  }

  /** Replicas a and b hold the same bytes. */
  predicate Agree(d: Disk, name: string, a: int, b: int)
  {
    var pa := Replica(a, name);
    var pb := Replica(b, name);
    Readable(d, pa) && Readable(d, pb) && d.files[pa] == d.files[pb]
  }

  /** The replica get_which_file chooses agrees with another replica, and
      -1 comes back exactly when no two replicas agree. */
  lemma WhichMeaning(d: Disk, name: string)
    requires Which(d, name) != Hangs
    ensures Which(d, name) == Pick(1) <==> Agree(d, name, 1, 2) || Agree(d, name, 1, 3)
    ensures Which(d, name) == Pick(2) <==> !Agree(d, name, 1, 2) && !Agree(d, name, 1, 3) && Agree(d, name, 2, 3)
    ensures Which(d, name) == Pick(-1) <==> !Agree(d, name, 1, 2) && !Agree(d, name, 1, 3) && !Agree(d, name, 2, 3)
  {
  }

  /** One corrupted or missing replica does not change the bytes served:
      when two replicas agree, the chosen one holds their bytes. */
  lemma MajorityServed(d: Disk, name: string, a: int, b: int)
    requires a in {1, 2, 3} && b in {1, 2, 3} && a != b
    requires Agree(d, name, a, b)
    requires Which(d, name) != Hangs
    ensures Which(d, name).n in {1, 2}
    ensures var k := Which(d, name).n;
      Readable(d, Replica(k, name)) && (exists j :: j in {1, 2, 3} && j != k && Agree(d, name, k, j))
  {
    var k := Which(d, name).n;
    if k == 1 {
      if Agree(d, name, 1, 2) {
        assert 2 in {1, 2, 3} && 2 != k && Agree(d, name, k, 2);
      } else {
        assert 3 in {1, 2, 3} && 3 != k && Agree(d, name, k, 3);
      }
    } else {
      assert 3 in {1, 2, 3} && 3 != k && Agree(d, name, k, 3);
    }
  }

  /** The errno left by three opens: that of the last one that failed. */
  function LastError(o1: OpenResult, o2: OpenResult, o3: OpenResult): OpenResult
  {
    if o3 != Ok then o3 else if o2 != Ok then o2 else o1
  }

  /** At least two of the three opens failed. */
  predicate TwoFailed(o1: OpenResult, o2: OpenResult, o3: OpenResult)
  {
    (o1 != Ok && o2 != Ok) || (o1 != Ok && o3 != Ok) || (o2 != Ok && o3 != Ok)
  }

  /** All replicas that opened now hold bytes; the others are untouched. */
  function WriteReplicas(d: Disk, name: string, bytes: seq<byte>): (r: Disk)
    ensures forall k :: k in {1, 2, 3} && OpenWrite(d, Replica(k, name)) == Ok ==>
      Replica(k, name) in r.files && r.files[Replica(k, name)] == bytes
    ensures forall p :: p in d.files && (forall k :: k in {1, 2, 3} ==> p != Replica(k, name) || OpenWrite(d, p) != Ok) ==>
      p in r.files && r.files[p] == d.files[p]
    ensures r.dirs == d.dirs && r.faults == d.faults
    ensures forall p :: p in r.files ==> p in d.files || exists k :: k in {1, 2, 3} && p == Replica(k, name)
    ensures Valid(d) ==> Valid(r)
  {
    var p1, p2, p3 := Replica(1, name), Replica(2, name), Replica(3, name);
    var d1 := WriteIfOpen(d, p1, OpenWrite(d, p1), bytes);
    var d2 := WriteIfOpen(d1, p2, OpenWrite(d, p2), bytes);
    var d3 := WriteIfOpen(d2, p3, OpenWrite(d, p3), bytes);
    assert p1 != p2 && p1 != p3 && p2 != p3 by { DistinctReplicas(name); }
    d3
  }

  lemma DistinctReplicas(name: string)
    ensures Replica(1, name) != Replica(2, name) && Replica(1, name) != Replica(3, name)
    ensures Replica(2, name) != Replica(3, name)
  {
    assert Replica(1, name)[4] == '1' && Replica(2, name)[4] == '2' && Replica(3, name)[4] == '3';
  }

  /** handle_put_redundancy apart from its mutexes: when two of the three
      opens fail it answers with the errno of the last failure (403 for
      EACCES, else 500) and the one replica that did open is left
      truncated; otherwise the body is received as in handle_put and
      written to every replica that opened. */
  function PutReplicasSpec(d: Disk, name: string, len: int, chunks: seq<Chunk>, pos: nat): (r: Reply)
    requires pos <= |chunks|
    ensures TwoFailed(OpenWrite(d, Replica(1, name)), OpenWrite(d, Replica(2, name)), OpenWrite(d, Replica(3, name))) ==>
      r == Reply(WriteReplicas(d, name, []), pos,
        Response(WriteError(LastError(OpenWrite(d, Replica(1, name)), OpenWrite(d, Replica(2, name)), OpenWrite(d, Replica(3, name)))), len),
        Close)
    ensures !TwoFailed(OpenWrite(d, Replica(1, name)), OpenWrite(d, Replica(2, name)), OpenWrite(d, Replica(3, name))) ==>
      pos <= r.pos <= |chunks| && r.disk == WriteReplicas(d, name, Concat(chunks[pos..r.pos]))
      && (r.after == Keep <==> len <= |Concat(chunks[pos..r.pos])|)
      && (r.after == Keep ==> r.out == Response(201, len))
      && (r.after != Keep ==> r.out == [] && r.after == Close)
      && (len <= -1 ==> r.pos == |chunks|)
      && (len > -1 ==> r.pos == Declared(chunks, pos, len).next)
  {
    var o1, o2, o3 := OpenWrite(d, Replica(1, name)), OpenWrite(d, Replica(2, name)), OpenWrite(d, Replica(3, name));
    if TwoFailed(o1, o2, o3) then
      Reply(WriteReplicas(d, name, []), pos, Response(WriteError(LastError(o1, o2, o3)), len), Close)
    else if len > -1 then
      var b := Declared(chunks, pos, len);
      DeclaredMeaning(chunks, pos, len);
      if !b.complete then Reply(WriteReplicas(d, name, b.bytes), b.next, "", Close)
      else Reply(WriteReplicas(d, name, b.bytes), b.next, Response(201, len), Keep)
    else
      assert chunks[pos..|chunks|] == chunks[pos..];
      Reply(WriteReplicas(d, name, Concat(chunks[pos..])), |chunks|, Response(201, len), Keep)
  }

  method PutReplicas(d: Disk, name: string, len: int, chunks: seq<Chunk>, pos: nat) returns (r: Reply)
    requires pos <= |chunks|
    ensures r == PutReplicasSpec(d, name, len, chunks, pos)
  {
    var o1, o2, o3 := OpenWrite(d, Replica(1, name)), OpenWrite(d, Replica(2, name)), OpenWrite(d, Replica(3, name));
    if TwoFailed(o1, o2, o3) {
      return Reply(WriteReplicas(d, name, []), pos, Response(WriteError(LastError(o1, o2, o3)), len), Close);
    }
    if len > -1 {
      var b := ReceiveDeclared(chunks, pos, len);
      if !b.complete {
        r := Reply(WriteReplicas(d, name, b.bytes), b.next, "", Close);
      } else {
        r := Reply(WriteReplicas(d, name, b.bytes), b.next, Response(201, len), Keep);
      }
    } else {
      var body := ReceiveToEnd(chunks, pos);
      r := Reply(WriteReplicas(d, name, body), |chunks|, Response(201, len), Keep);
    }
  }

  /** handle_get_redundancy apart from its mutexes: when two of the three
      opens fail it answers with the errno of the last failure (404, 403 or
      500); a comparison that never ends leaves the worker waiting; no two
      agreeing replicas give 500; otherwise the chosen replica is sent
      behind a 200 that announces its size. */
  function GetReplicasSpec(d: Disk, pos: nat, name: string, len: int): (r: Reply)
    ensures r.disk == d && r.pos == pos
    ensures r.after == Keep <==>
      (Which(d, name) in {Pick(1), Pick(2)} && |d.files[Replica(Which(d, name).n, name)]| <= IntMax)
    ensures r.after == Keep ==>
      var f := d.files[Replica(Which(d, name).n, name)];
      r.out == Response(200, |f|) + AsText(f)
    ensures var o1, o2, o3 := OpenRead(d, Replica(1, name)), OpenRead(d, Replica(2, name)), OpenRead(d, Replica(3, name));
      TwoFailed(o1, o2, o3) ==> r == Reply(d, pos, Response(ReadError(LastError(o1, o2, o3)), len), Close)
    ensures var o1, o2, o3 := OpenRead(d, Replica(1, name)), OpenRead(d, Replica(2, name)), OpenRead(d, Replica(3, name));
      !TwoFailed(o1, o2, o3) && Which(d, name) == Hangs ==> r == Reply(d, pos, "", Hang)
    ensures var o1, o2, o3 := OpenRead(d, Replica(1, name)), OpenRead(d, Replica(2, name)), OpenRead(d, Replica(3, name));
      !TwoFailed(o1, o2, o3) && Which(d, name) == Pick(-1) ==> r == Reply(d, pos, Response(500, len), Close)
  {
    var o1, o2, o3 := OpenRead(d, Replica(1, name)), OpenRead(d, Replica(2, name)), OpenRead(d, Replica(3, name));
    if TwoFailed(o1, o2, o3) then
      TwoFailedNoPick(d, name);
      Reply(d, pos, Response(ReadError(LastError(o1, o2, o3)), len), Close)
    else
      match Which(d, name)
      case Hangs => Reply(d, pos, "", Hang)
      case Pick(k) =>
        if k != 1 && k != 2 then Reply(d, pos, Response(500, len), Close)
        else
          var f := d.files[Replica(k, name)];
          if |f| > IntMax then Reply(d, pos, "", After.Undefined)
          else Reply(d, pos, Response(200, |f|) + AsText(f), Keep)
  }

  /** With two replicas that cannot be opened no two replicas agree. */
  lemma TwoFailedNoPick(d: Disk, name: string)
    requires TwoFailed(OpenRead(d, Replica(1, name)), OpenRead(d, Replica(2, name)), OpenRead(d, Replica(3, name)))
    ensures Which(d, name) !in {Pick(1), Pick(2)}
  {
  }

  method GetReplicas(d: Disk, pos: nat, name: string, len: int, bufSize: nat) returns (r: Reply)
    requires bufSize > 0
    ensures r == GetReplicasSpec(d, pos, name, len)
  {
    var p1, p2, p3 := Replica(1, name), Replica(2, name), Replica(3, name);
    var o1, o2, o3 := OpenRead(d, p1), OpenRead(d, p2), OpenRead(d, p3);
    if TwoFailed(o1, o2, o3) {
      return Reply(d, pos, Response(ReadError(LastError(o1, o2, o3)), len), Close);
    }
    var c12 := CompareTwoFiles(d, p1, p2);
    var c13 := CompareTwoFiles(d, p1, p3);
    var c23 := CompareTwoFiles(d, p2, p3);
    if c12 == Forever || c13 == Forever || c23 == Forever {
      return Reply(d, pos, "", Hang);
    }
    var k := if c12 == Equal then 1 else if c13 == Equal then 1 else if c23 == Equal then 2 else -1;
    if k < 0 {
      return Reply(d, pos, Response(500, len), Close);
    }
    var f := d.files[Replica(k, name)];
    var size := CountBytes(f, bufSize);
    if size > IntMax {
      return Reply(d, pos, "", After.Undefined);
    }
    var body := SendBytes(f, bufSize);
    r := Reply(d, pos, Response(200, size) + body, Keep);
  }

  /** All three replicas can be opened for writing. */
  predicate AllWritable(d: Disk, name: string)
  {
    OpenWrite(d, Replica(1, name)) == Ok && OpenWrite(d, Replica(2, name)) == Ok
    && OpenWrite(d, Replica(3, name)) == Ok
  }

  /** A replicated PUT that answered 201 with every replica open wrote the
      bytes it received to all three. */
  lemma ReplicasKept(d: Disk, name: string, len: int, chunks: seq<Chunk>, pos: nat)
    requires pos <= |chunks| && AllWritable(d, name)
    ensures var r := PutReplicasSpec(d, name, len, chunks, pos);
      r.disk == WriteReplicas(d, name, Concat(chunks[pos..r.pos]))
  {
  }

  /** Once bytes are written to all three replicas, a GET on the replicas
      serves them from replica 1 behind a 200 that announces their number. */
  lemma WrittenReplicasServed(d: Disk, name: string, bytes: seq<byte>, pos: nat, len: int)
    requires AllWritable(d, name)
    requires |bytes| <= IntMax
    ensures GetReplicasSpec(WriteReplicas(d, name, bytes), pos, name, len)
      == Reply(WriteReplicas(d, name, bytes), pos, Response(200, |bytes|) + AsText(bytes), Keep)
  {
    var w := WriteReplicas(d, name, bytes);
    assert Readable(w, Replica(1, name)) && Readable(w, Replica(2, name)) && Readable(w, Replica(3, name));
    assert Agree(w, name, 1, 2);
    assert Which(w, name) == Pick(1);
  }
}
