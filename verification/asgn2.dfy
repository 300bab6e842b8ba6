/** The multi-threaded version: a dispatcher queues accepted connections,
    workers take them from the queue one at a time and serve their
    requests, and a table with one mutex per file name keeps requests on
    the same file apart. With redundancy every file is kept as three
    replicas (module Replicas).

    Threads are not modelled: one worker serves the queued connections in
    order, and a mutex that is already locked when a request wants it
    makes that request wait for ever (Hang). The handlers return on their
    error paths without unlocking what they locked; the model keeps those
    locks held, so a later request on the same name waits for ever. */
module Asgn2 {
  import opened Text
  import opened Protocol
  import opened Store
  import opened Replicas

  /** The receive buffer of each worker. */
  const Size: nat := 16384

  /** file_mutex_map: the names that have a mutex, and the mutexes that are
      locked. */
  datatype Table = Table(registered: set<string>, held: set<string>)

  function Names(ns: seq<string>): set<string>
  {
    set n | n in ns
  }

  /** Locking a list of mutexes in turn: the table afterwards, and whether
      all were taken (false: the worker waits for ever on one of them,
      keeping those it took before). */
  datatype Locking = Locking(table: Table, acquired: bool)

  /** pthread_mutex_lock on each name in order. Indexing the map inserts
      a mutex for a name it does not know. A mutex locked twice in the
      list blocks on the second lock. */
  function Acquire(t: Table, ns: seq<string>): (r: Locking)
    ensures r.acquired ==> r.table == Table(t.registered + Names(ns), t.held + Names(ns))
    ensures t.registered <= r.table.registered <= t.registered + Names(ns)
    ensures t.held <= r.table.held <= t.held + Names(ns)
    decreases |ns|
  {
    if |ns| == 0 then Locking(t, true)
    else if ns[0] in t.held then Locking(t, false)
    else
      var r := Acquire(Table(t.registered + {ns[0]}, t.held + {ns[0]}), ns[1..]);
      assert Names(ns) == {ns[0]} + Names(ns[1..]) by {
        assert forall n :: n in ns ==> n == ns[0] || n in ns[1..];
      }
      r
  }

  /** Locking one mutex. */
  lemma AcquireOne(t: Table, n: string)
    ensures Acquire(t, [n]) ==
      if n in t.held then Locking(t, false) else Locking(Table(t.registered + {n}, t.held + {n}), true)
  {
    assert [n][1..] == [];
  }

  /** pthread_mutex_unlock on each name. */
  function Release(t: Table, ns: seq<string>): (r: Table)
    ensures r.registered == t.registered
    ensures forall n :: n in r.held <==> n in t.held && n !in ns
  {
    t.(held := t.held - Names(ns))
  }

  /** None of the mutexes is locked and the list names none twice. */
  predicate Lockable(held: set<string>, ns: seq<string>)
  {
    forall i :: 0 <= i < |ns| ==> ns[i] !in held && ns[i] !in ns[..i]
  }

  /** All the mutexes are taken exactly when none of them is locked and the
      list names none twice. */
  lemma {:induction false} AcquireMeaning(t: Table, ns: seq<string>)
    ensures Acquire(t, ns).acquired <==> Lockable(t.held, ns)
    decreases |ns|
  {
    if |ns| > 0 && ns[0] !in t.held {
      var t' := Table(t.registered + {ns[0]}, t.held + {ns[0]});
      assert Acquire(t, ns) == Acquire(t', ns[1..]);
      AcquireMeaning(t', ns[1..]);
      LockableShift(t.held, ns);
    } else if |ns| > 0 {
      assert !Lockable(t.held, ns) by { assert ns[0] in t.held; }
    }
  }

  /** Taking the first mutex of a list leaves the rest lockable exactly when
      the whole list was. */
  lemma LockableShift(held: set<string>, ns: seq<string>)
    requires |ns| > 0 && ns[0] !in held
    ensures Lockable(held + {ns[0]}, ns[1..]) <==> Lockable(held, ns)
  {
    forall i | 1 <= i < |ns|
      ensures (ns[1..][i - 1] !in held + {ns[0]} && ns[1..][i - 1] !in ns[1..][..i - 1])
        <==> (ns[i] !in held && ns[i] !in ns[..i])
    {
      assert ns[..i] == [ns[0]] + ns[1..][..i - 1];
    }
    assert ns[..0] == [];
  }

  /** When a mutex in the list is locked, the worker waits at position k,
      on a mutex locked before or earlier in the list, holding exactly the
      mutexes listed before it. */
  lemma {:induction false} AcquireBlocked(t: Table, ns: seq<string>) returns (k: nat)
    requires !Acquire(t, ns).acquired
    ensures k < |ns| && (ns[k] in t.held || ns[k] in ns[..k])
    ensures Acquire(t, ns).table.held == t.held + Names(ns[..k])
    decreases |ns|
  {
    if ns[0] !in t.held {
      var t' := Table(t.registered + {ns[0]}, t.held + {ns[0]});
      var j := AcquireBlocked(t', ns[1..]);
      k := j + 1;
      assert ns[..k] == [ns[0]] + ns[1..][..j];
      assert Names(ns[..k]) == {ns[0]} + Names(ns[1..][..j]) by {
        assert forall n :: n in ns[..k] ==> n == ns[0] || n in ns[1..][..j];
      }
      assert ns[k] == ns[1..][j];
    } else {
      k := 0;
      assert Names(ns[..0]) == {};
    }
  }

  /** Taking a list of free, distinct mutexes and releasing them gives the
      table back with the names registered. */
  lemma AcquireRelease(t: Table, ns: seq<string>)
    requires Acquire(t, ns).acquired
    ensures Release(Acquire(t, ns).table, ns) == Table(t.registered + Names(ns), t.held - Names(ns))
  {
  }

  /** The result of a handler: the table and the reply. */
  datatype Outcome = Outcome(table: Table, reply: Reply)

  /** handle_put without redundancy: register the name if it has no mutex,
      lock it, run the PUT (a body shorter than announced ends the
      connection without a response); unlock only when the PUT answered
      201. */
  function PutOne(t: Table, d: Disk, name: string, len: int, chunks: seq<Chunk>, pos: nat): (o: Outcome)
    requires pos <= |chunks|
    ensures o.table.registered == t.registered + {name}
    ensures o.reply.after == Hang <==> name in t.held
    ensures name in t.held ==> o == Outcome(Table(t.registered + {name}, t.held), Reply(d, pos, "", Hang))
    ensures name !in t.held ==> o.reply == PutSpec(d, name, len, chunks, pos, true)
    ensures o.reply.after == Keep ==> o.table.held == t.held
    ensures name !in t.held && o.reply.after != Keep ==> o.table.held == t.held + {name}
  {
    var t1 := if name in t.registered then t else t.(registered := t.registered + {name});
    var l := Acquire(t1, [name]);
    AcquireOne(t1, name);
    assert Names([name]) == {name};
    if !l.acquired then Outcome(l.table, Reply(d, pos, "", Hang))
    else
      var p := PutSpec(d, name, len, chunks, pos, true);
      Outcome(if p.after == Keep then Release(l.table, [name]) else l.table, p)
  }

  /** handle_get without redundancy: a name without a mutex gets 404 and
      nothing is opened or locked; otherwise lock it, run the GET, and
      unlock only when it answered 200. */
  function GetOne(t: Table, d: Disk, name: string, len: int, pos: nat): (o: Outcome)
    ensures name !in t.registered ==> o == Outcome(t, Reply(d, pos, Response(404, len), Close))
    ensures name in t.registered ==> (o.reply.after == Hang <==> name in t.held)
    ensures name in t.registered && name !in t.held ==> o.reply == GetSpec(d, pos, name, len)
    ensures o.reply.after == Keep ==> o.table == t
    ensures name in t.registered && name !in t.held && o.reply.after != Keep ==>
      o.table == Table(t.registered, t.held + {name})
  {
    if name !in t.registered then Outcome(t, Reply(d, pos, Response(404, len), Close))
    else
      var l := Acquire(t, [name]);
      AcquireOne(t, name);
      assert Names([name]) == {name};
      if !l.acquired then Outcome(l.table, Reply(d, pos, "", Hang))
      else
        var g := GetSpec(d, pos, name, len);
        Outcome(if g.after == Keep then Release(l.table, [name]) else l.table, g)
  }

  /** The three replica names in the order their mutexes are locked. */
  function ReplicaNames(name: string): (ns: seq<string>)
    ensures |ns| == 3 && forall i :: 0 <= i < 3 ==> ns[i] == Replica(i + 1, name)
    ensures Names(ns) == {Replica(1, name), Replica(2, name), Replica(3, name)}
  {
    [Replica(1, name), Replica(2, name), Replica(3, name)]
  }

  /** All three replicas of name have a mutex. */
  predicate AllRegistered(t: Table, name: string)
  {
    Replica(1, name) in t.registered && Replica(2, name) in t.registered && Replica(3, name) in t.registered
  }

  /** Some replica of name is locked. */
  predicate AnyHeld(t: Table, name: string)
  {
    Replica(1, name) in t.held || Replica(2, name) in t.held || Replica(3, name) in t.held
  }

  /** The three replica mutexes are distinct, so they can all be taken
      exactly when none is locked. */
  lemma ReplicaLocks(t: Table, name: string)
    ensures Acquire(t, ReplicaNames(name)).acquired <==> !AnyHeld(t, name)
  {
    DistinctReplicas(name);
    var ns := ReplicaNames(name);
    AcquireMeaning(t, ns);
    assert ns[..1] == [ns[0]] && ns[..2] == [ns[0], ns[1]];
  }

  /** The table handle_put_redundancy locks: when any replica has no mutex,
      fresh unlocked mutexes replace all three. */
  function ReplicaTable(t: Table, name: string): Table
  {
    var ns := Names(ReplicaNames(name));
    if AllRegistered(t, name) then t else Table(t.registered + ns, t.held - ns)
  }

  /** handle_put_redundancy: registers the replicas (all three afresh if one
      is missing), locks copy1, copy2, copy3 in that order, runs the PUT
      on the replicas, and unlocks all three only when it answered 201. */
  function PutMany(t: Table, d: Disk, name: string, len: int, chunks: seq<Chunk>, pos: nat): (o: Outcome)
    requires pos <= |chunks|
    ensures o.table.registered == t.registered + Names(ReplicaNames(name))
    ensures o.reply.after == Hang <==> AnyHeld(ReplicaTable(t, name), name)
    ensures !AnyHeld(ReplicaTable(t, name), name) ==> o.reply == PutReplicasSpec(d, name, len, chunks, pos)
    ensures o.reply.after == Keep ==> o.table.held == t.held - Names(ReplicaNames(name))
    ensures o.reply.after == Close ==> o.table.held == t.held + Names(ReplicaNames(name))
  {
    var ns := ReplicaNames(name);
    var t1 := ReplicaTable(t, name);
    var l := Acquire(t1, ns);
    ReplicaLocks(t1, name);
    if !l.acquired then Outcome(l.table, Reply(d, pos, "", Hang))
    else
      var p := PutReplicasSpec(d, name, len, chunks, pos);
      Outcome(if p.after == Keep then Release(l.table, ns) else l.table, p)
  }

  /** handle_get_redundancy: a name whose replicas do not all have a mutex
      gets 404 and nothing is opened or locked; otherwise lock copy1,
      copy2, copy3 in that order, run the GET on the replicas, and unlock
      all three only when it answered 200. */
  function GetMany(t: Table, d: Disk, name: string, len: int, pos: nat): (o: Outcome)
    ensures !AllRegistered(t, name) ==> o == Outcome(t, Reply(d, pos, Response(404, len), Close))
    ensures AllRegistered(t, name) && AnyHeld(t, name) ==> o.reply == Reply(d, pos, "", Hang)
    ensures AllRegistered(t, name) && !AnyHeld(t, name) ==> o.reply == GetReplicasSpec(d, pos, name, len)
    ensures o.reply.after == Keep ==> o.table == t
    ensures AllRegistered(t, name) && !AnyHeld(t, name) && o.reply.after != Keep ==>
      o.table == Table(t.registered, t.held + Names(ReplicaNames(name)))
  {
    if !AllRegistered(t, name) then Outcome(t, Reply(d, pos, Response(404, len), Close))
    else
      var ns := ReplicaNames(name);
      var l := Acquire(t, ns);
      ReplicaLocks(t, name);
      assert !AnyHeld(t, name) ==> Release(l.table, ns) == t && l.table == Table(t.registered, t.held + Names(ns));
      if !l.acquired then Outcome(l.table, Reply(d, pos, "", Hang))
      else
        var g := GetReplicasSpec(d, pos, name, len);
        Outcome(if g.after == Keep then Release(l.table, ns) else l.table, g)
  }

  /** A PUT whose open fails leaves the name's mutex locked, so every later
      PUT or GET of that name waits for ever. */
  lemma FailedPutBlocks(t: Table, d: Disk, name: string, len: int, chunks: seq<Chunk>, pos: nat,
                        d': Disk, len': int, chunks': seq<Chunk>, pos': nat)
    requires pos <= |chunks| && pos' <= |chunks'|
    requires name !in t.held && OpenWrite(d, name) != Ok
    ensures var o := PutOne(t, d, name, len, chunks, pos);
      o.reply.out == Response(WriteError(OpenWrite(d, name)), len)
      && PutOne(o.table, d', name, len', chunks', pos').reply.after == Hang
      && GetOne(o.table, d', name, len', pos').reply.after == Hang
  {
  }

  /** On a name that has a mutex and is free, a PUT whose body arrives in
      full and then a GET return exactly the bytes received, and leave the
      table as it was. */
  lemma PutThenGetOne(t: Table, d: Disk, name: string, len: int, chunks: seq<Chunk>, pos: nat, len': int)
    requires pos <= |chunks| && name !in t.held
    requires OpenWrite(d, name) == Ok
    requires |Concat(chunks[pos..])| <= IntMax
    ensures var p := PutOne(t, d, name, len, chunks, pos);
      var body := Concat(chunks[pos..p.reply.pos]);
      p.reply.after == Keep ==>
        p.table == Table(t.registered + {name}, t.held)
        && GetOne(p.table, p.reply.disk, name, len', p.reply.pos)
          == Outcome(p.table, Reply(p.reply.disk, p.reply.pos, Response(200, |body|) + AsText(body), Keep))
  {
    PutThenGet(d, name, len, chunks, pos, true);
  }

  /** With redundancy, when all three replicas can be written, a PUT whose
      body arrives in full and then a GET return exactly the bytes
      received, read from replica 1. */
  lemma PutThenGetMany(t: Table, d: Disk, name: string, len: int, chunks: seq<Chunk>, pos: nat, len': int)
    requires pos <= |chunks| && !AnyHeld(t, name) && AllWritable(d, name)
    requires |Concat(chunks[pos..])| <= IntMax
    ensures var p := PutMany(t, d, name, len, chunks, pos);
      var body := Concat(chunks[pos..p.reply.pos]);
      p.reply.after == Keep ==>
        GetMany(p.table, p.reply.disk, name, len', p.reply.pos).reply
          == Reply(p.reply.disk, p.reply.pos, Response(200, |body|) + AsText(body), Keep)
  {
    var p := PutMany(t, d, name, len, chunks, pos);
    if p.reply.after == Keep {
      FreeReplicaTable(t, name);
      ReplicasKept(d, name, len, chunks, pos);
      var body := Concat(chunks[pos..p.reply.pos]);
      ConcatBound(chunks, pos, p.reply.pos);
      WrittenReplicasServed(d, name, body, p.reply.pos, len');
    }
  }

  /** Replacing the replica mutexes by fresh ones locks none of them. */
  lemma FreeReplicaTable(t: Table, name: string)
    requires !AnyHeld(t, name)
    ensures !AnyHeld(ReplicaTable(t, name), name)
  {
  }

  /** The end of a connection: the table, the directory, everything sent
      back, and why the loop stopped. */
  datatype Session = Session(table: Table, disk: Disk, out: string, stop: Stop)

  /** One request read from the chunk at pos, as the worker's loop handles
      it: a request filling the buffer or missing its command or name is
      undefined; a malformed name and a command other than PUT and GET get
      400 and end the connection. */
  function Step(redundancy: bool, t: Table, d: Disk, chunks: seq<Chunk>, pos: nat): (o: Outcome)
    requires pos < |chunks|
    ensures pos < o.reply.pos <= |chunks|
  {
    var c := chunks[pos];
    if |c| >= Size || !Parseable(AsText(c)) then Outcome(t, Reply(d, pos + 1, "", After.Undefined))
    else
      var h := HeaderOf(AsText(c));
      if !ValidName(h.resource) then Outcome(t, Reply(d, pos + 1, Response(400, 0), Close))
      else
        var name := StripSlash(h.resource);
        if h.command == "PUT" then
          if redundancy then PutMany(t, d, name, h.contentLength, chunks, pos + 1)
          else PutOne(t, d, name, h.contentLength, chunks, pos + 1)
        else if h.command == "GET" then
          if redundancy then GetMany(t, d, name, h.contentLength, pos + 1)
          else GetOne(t, d, name, h.contentLength, pos + 1)
        else Outcome(t, Reply(d, pos + 1, Response(400, 0), Close))
  }

  /** The worker's request loop on one connection from the chunk at pos. */
  function Serve(redundancy: bool, t: Table, d: Disk, inbox: Inbox, pos: nat): (s: Session)
    requires pos <= |inbox.chunks|
    ensures s.stop == PeerGone ==> inbox.end == PeerClosed
    decreases |inbox.chunks| - pos
  {
    if pos == |inbox.chunks| then
      Session(t, d, "", if inbox.end == PeerClosed then PeerGone else Stop.Undefined)
    else
      var o := Step(redundancy, t, d, inbox.chunks, pos);
      if o.reply.after == Keep then
        var rest := Serve(redundancy, o.table, o.reply.disk, inbox, o.reply.pos);
        Session(rest.table, rest.disk, o.reply.out + rest.out, rest.stop)
      else Session(o.table, o.reply.disk, o.reply.out, StopOf(o.reply.after))
  }

  /** A request that keeps the connection leaves no mutex locked that was
      free before it. */
  lemma StepReleases(redundancy: bool, t: Table, d: Disk, chunks: seq<Chunk>, pos: nat)
    requires pos < |chunks|
    ensures var o := Step(redundancy, t, d, chunks, pos);
      o.reply.after == Keep ==> o.table.held <= t.held
  {
  }

  /** A connection the client ends leaves no mutex locked that was free
      when it was taken from the queue. */
  lemma {:induction false} ServeReleases(redundancy: bool, t: Table, d: Disk, inbox: Inbox, pos: nat)
    requires pos <= |inbox.chunks|
    ensures var s := Serve(redundancy, t, d, inbox, pos);
      s.stop == PeerGone ==> s.table.held <= t.held
    decreases |inbox.chunks| - pos
  {
    if pos < |inbox.chunks| {
      var o := Step(redundancy, t, d, inbox.chunks, pos);
      StepReleases(redundancy, t, d, inbox.chunks, pos);
      if o.reply.after == Keep {
        ServeReleases(redundancy, o.table, o.reply.disk, inbox, o.reply.pos);
      }
    }
  }

  /** The shared state of the server: the directory, the mutex table, the
      connection queue, and (ghost) every connection ever queued and ever
      taken from the queue. */
  class Server {
    var disk: Disk
    var table: Table
    var queue: seq<Inbox>
    ghost var accepted: seq<Inbox>
    ghost var taken: seq<Inbox>
    const redundancy: bool

    /** The queue is first in, first out: the connections taken, then the
        ones waiting, are the connections accepted, in order. */
    ghost predicate Valid()
      reads this
    {
      accepted == taken + queue
    }

    /** The shared data main sets up: the table from the start-up scan,
        every mutex unlocked, and an empty queue. */
    constructor (d: Disk, registry: set<string>, redundancy: bool)
      ensures disk == d && table == Table(registry, {}) && queue == []
      ensures this.redundancy == redundancy && accepted == [] && taken == []
      ensures Valid()
    {
      disk := d;
      table := Table(registry, {});
      queue := [];
      accepted := [];
      taken := [];
      this.redundancy := redundancy;
    }

    /** The dispatcher: an accepted connection goes to the back of the
        queue. */
    method Accept(c: Inbox)
      requires Valid()
      modifies this
      ensures queue == old(queue) + [c] && accepted == old(accepted) + [c] && taken == old(taken)
      ensures disk == old(disk) && table == old(table)
      ensures Valid()
    {
      queue := queue + [c];
      accepted := accepted + [c];
    }

    /** A worker, once the queue is not empty, takes the connection at its
        front. */
    method Take() returns (c: Inbox)
      requires Valid() && |queue| > 0
      modifies this
      ensures c == old(queue)[0] && queue == old(queue)[1..]
      ensures taken == old(taken) + [c] && accepted == old(accepted)
      ensures disk == old(disk) && table == old(table)
      ensures Valid()
    {
      c := queue[0];
      queue := queue[1..];
      taken := taken + [c];
    }

    /** pthread_mutex_lock on each name in order; false when one is
        already locked (the worker waits there for ever). */
    method LockAll(ns: seq<string>) returns (acquired: bool)
      modifies this
      ensures Locking(table, acquired) == Acquire(old(table), ns)
      ensures disk == old(disk) && queue == old(queue) && accepted == old(accepted) && taken == old(taken)
    {
      var i := 0;
      while i < |ns|
        invariant 0 <= i <= |ns|
        invariant Acquire(old(table), ns) == Acquire(table, ns[i..])
        invariant disk == old(disk) && queue == old(queue) && accepted == old(accepted) && taken == old(taken)
      {
        assert ns[i..][1..] == ns[i + 1..];
        if ns[i] in table.held {
          return false;
        }
        table := Table(table.registered + {ns[i]}, table.held + {ns[i]});
        i := i + 1;
      }
      acquired := true;
    }

    /** pthread_mutex_unlock on each name. */
    method UnlockAll(ns: seq<string>)
      modifies this
      ensures table == Release(old(table), ns)
      ensures disk == old(disk) && queue == old(queue) && accepted == old(accepted) && taken == old(taken)
    {
      var i := 0;
      while i < |ns|
        invariant 0 <= i <= |ns|
        invariant table == Release(old(table), ns[..i])
        invariant disk == old(disk) && queue == old(queue) && accepted == old(accepted) && taken == old(taken)
      {
        assert Names(ns[..i + 1]) == Names(ns[..i]) + {ns[i]} by {
          assert ns[..i + 1] == ns[..i] + [ns[i]];
        }
        table := table.(held := table.held - {ns[i]});
        i := i + 1;
      }
      assert ns[..i] == ns;
    }

    /** handle_put. */
    method PutFile(name: string, len: int, chunks: seq<Chunk>, pos: nat) returns (r: Reply)
      requires pos <= |chunks|
      modifies this
      ensures Outcome(table, r) == PutOne(old(table), old(disk), name, len, chunks, pos)
      ensures disk == r.disk
      ensures queue == old(queue) && accepted == old(accepted) && taken == old(taken)
    {
      if name !in table.registered {
        table := table.(registered := table.registered + {name});
      }
      var ok := LockAll([name]);
      if !ok {
        return Reply(disk, pos, "", Hang);
      }
      r := HandlePut(disk, name, len, chunks, pos, true);
      disk := r.disk;
      if r.after == Keep {
        UnlockAll([name]);
      }
    }

    /** handle_get. */
    method GetFile(name: string, len: int, pos: nat) returns (r: Reply)
      modifies this
      ensures Outcome(table, r) == GetOne(old(table), old(disk), name, len, pos)
      ensures disk == r.disk
      ensures queue == old(queue) && accepted == old(accepted) && taken == old(taken)
    {
      if name !in table.registered {
        return Reply(disk, pos, Response(404, len), Close);
      }
      var ok := LockAll([name]);
      if !ok {
        return Reply(disk, pos, "", Hang);
      }
      r := HandleGet(disk, pos, name, len, Size);
      if r.after == Keep {
        UnlockAll([name]);
      }
    }

    /** handle_put_redundancy. */
    method PutReplicated(name: string, len: int, chunks: seq<Chunk>, pos: nat) returns (r: Reply)
      requires pos <= |chunks|
      modifies this
      ensures Outcome(table, r) == PutMany(old(table), old(disk), name, len, chunks, pos)
      ensures disk == r.disk
      ensures queue == old(queue) && accepted == old(accepted) && taken == old(taken)
    {
      var ns := ReplicaNames(name);
      if !AllRegistered(table, name) {
        table := Table(table.registered + Names(ns), table.held - Names(ns));
      }
      var ok := LockAll(ns);
      if !ok {
        return Reply(disk, pos, "", Hang);
      }
      r := PutReplicas(disk, name, len, chunks, pos);
      disk := r.disk;
      if r.after == Keep {
        UnlockAll(ns);
      }
    }

    /** handle_get_redundancy. */
    method GetReplicated(name: string, len: int, pos: nat) returns (r: Reply)
      modifies this
      ensures Outcome(table, r) == GetMany(old(table), old(disk), name, len, pos)
      ensures disk == r.disk
      ensures queue == old(queue) && accepted == old(accepted) && taken == old(taken)
    {
      if !AllRegistered(table, name) {
        return Reply(disk, pos, Response(404, len), Close);
      }
      var ns := ReplicaNames(name);
      var ok := LockAll(ns);
      if !ok {
        return Reply(disk, pos, "", Hang);
      }
      r := GetReplicas(disk, pos, name, len, Size);
      if r.after == Keep {
        UnlockAll(ns);
      }
    }

    /** One pass of the worker's request loop. */
    method Request(chunks: seq<Chunk>, pos: nat) returns (r: Reply)
      requires pos < |chunks|
      modifies this
      ensures Outcome(table, r) == Step(redundancy, old(table), old(disk), chunks, pos)
      ensures disk == r.disk
      ensures queue == old(queue) && accepted == old(accepted) && taken == old(taken)
    {
      var c := chunks[pos];
      if |c| >= Size || !Parseable(AsText(c)) {
        return Reply(disk, pos + 1, "", After.Undefined);
      }
      var h := ParseHeader(AsText(c));
      if !ValidName(h.resource) {
        return Reply(disk, pos + 1, Response(400, 0), Close);
      }
      var name := StripSlash(h.resource);
      if h.command == "PUT" {
        if redundancy {
          r := PutReplicated(name, h.contentLength, chunks, pos + 1);
        } else {
          r := PutFile(name, h.contentLength, chunks, pos + 1);
        }
      } else if h.command == "GET" {
        if redundancy {
          r := GetReplicated(name, h.contentLength, pos + 1);
        } else {
          r := GetFile(name, h.contentLength, pos + 1);
        }
      } else {
        r := Reply(disk, pos + 1, Response(400, 0), Close);
      }
    }

    /** A worker's request loop on one connection. */
    method ServeConnection(inbox: Inbox) returns (out: string, stop: Stop)
      modifies this
      ensures Session(table, disk, out, stop) == Serve(redundancy, old(table), old(disk), inbox, 0)
      ensures queue == old(queue) && accepted == old(accepted) && taken == old(taken)
    {
      var pos := 0;
      out := "";
      while pos < |inbox.chunks|
        invariant pos <= |inbox.chunks|
        invariant Serve(redundancy, old(table), old(disk), inbox, 0)
          == var s := Serve(redundancy, table, disk, inbox, pos); Session(s.table, s.disk, out + s.out, s.stop)
        invariant queue == old(queue) && accepted == old(accepted) && taken == old(taken)
        decreases |inbox.chunks| - pos
      {
        var r := Request(inbox.chunks, pos);
        if r.after != Keep {
          return out + r.out, StopOf(r.after);
        }
        ghost var rest := Serve(redundancy, table, disk, inbox, r.pos);
        assert out + (r.out + rest.out) == (out + r.out) + rest.out;
        pos, out := r.pos, out + r.out;
      }
      assert out + "" == out;
      stop := if inbox.end == PeerClosed then PeerGone else Stop.Undefined;
    }

    /** A worker's turn: take the connection at the front of the queue and
        serve it until its loop ends. */
    method Work() returns (c: Inbox, out: string, stop: Stop)
      requires Valid() && |queue| > 0
      modifies this
      ensures c == old(queue)[0] && queue == old(queue)[1..] && taken == old(taken) + [c]
      ensures Session(table, disk, out, stop) == Serve(redundancy, old(table), old(disk), c, 0)
      ensures Valid()
    {
      c := Take();
      out, stop := ServeConnection(c);
    }
  }
}
