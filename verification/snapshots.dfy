/** The backup, recovery and list requests of the third version: a backup
    copies the working files into a snapshot directory "backup-<seconds>",
    a recovery copies the files of the newest or of a named snapshot back
    over the working files, and a list reports the timestamps of the
    snapshots. The clock is a parameter. */
module Snapshots {
  import opened Text
  import opened Protocol
  import opened Store

  /** The size of the buffers the copy loops read into. */
  const BufferSize: nat := 16384

  const SnapshotPrefix := "backup-"

  /** The snapshot directory of a backup taken at the given second. */
  function SnapshotName(seconds: int): (s: string)
    ensures IsPrefix(SnapshotPrefix, s) && |s| > |SnapshotPrefix| && '/' !in s
  {
    assert '/' !in IntText(seconds) by {
      assert forall i :: 0 <= i < |IntText(seconds)| ==> IntText(seconds)[i] == '-' || IsDigit(IntText(seconds)[i]);
    }
    SnapshotPrefix + IntText(seconds)
  }

  /** p lies inside directory dir. */
  predicate Under(dir: string, p: string)
  {
    IsPrefix(dir + "/", p)
  }

  lemma InsideUnder(dir: string, name: string)
    ensures Under(dir, dir + "/" + name) && (dir + "/" + name)[|dir|] == '/'
    ensures (dir + "/" + name)[|dir| + 1..] == name
  {
    assert (dir + "/" + name)[..|dir| + 1] == dir + "/";
  }

  /** A name without '/' is not inside any directory. */
  lemma PlainNotUnder(dir: string, n: string)
    requires '/' !in n
    ensures !Under(dir, n)
  {
    assert |n| > |dir| ==> n[|dir|] != '/';
  }

  /** Two directories agree on everything outside dir. */
  ghost predicate SameOutside(d: Disk, d': Disk, dir: string)
  {
    d'.dirs == d.dirs && d'.faults == d.faults
    && forall p :: !Under(dir, p) ==>
      (p in d'.files <==> p in d.files) && (p in d.files ==> d'.files[p] == d.files[p])
  }

  /** Outside dir, opens and reads give the same results in both. */
  lemma ReadsOutside(d: Disk, d': Disk, dir: string, n: string)
    requires SameOutside(d, d', dir) && !Under(dir, n)
    ensures OpenRead(d', n) == OpenRead(d, n) && Readable(d', n) == Readable(d, n)
    ensures Readable(d, n) ==> d'.files[n] == d.files[n]
  {
  }

  // ---------------------------------------------------------------------
  // Backup

  /** A working directory entry handle_backup copies: 10 characters, not a
      directory, no '.' at position 8. The test on the last character, as
      written, holds whatever that character is. */
  predicate Eligible(e: Entry)
    ensures Eligible(e) <==> |e.name| == 10 && !e.isDir && e.name[8] != '.'
  {
    |e.name| == 10 && !e.isDir && (e.name[8] != '.' && (e.name[9] != 'o' || e.name[9] != 'c'))
  }

  /** The state of the backup loop: the directory, and whether a read
      failed (500 is sent and the handler returns -1). */
  datatype Copying = Copying(disk: Disk, failed: bool)

  /** A working file that cannot be read: its open fails with an errno
      other than EACCES, or it is a directory. */
  predicate Unreadable(d: Disk, name: string)
  {
    OpenRead(d, name) != Access && !Readable(d, name)
  }

  /** One eligible file. An open that fails with EACCES skips it.
      Otherwise dir/name is created or truncated and receives the file's
      bytes; a file that cannot be read leaves the copy empty and fails. */
  function CopyOne(d: Disk, dir: string, name: string): (c: Copying)
    ensures SameOutside(d, c.disk, dir)
    ensures Valid(d) ==> Valid(c.disk)
    ensures c.failed <==> Unreadable(d, name)
  {
    var dest := dir + "/" + name;
    InsideUnder(dir, name);
    var o := OpenWrite(d, dest);
    if OpenRead(d, name) == Access then Copying(d, false)
    else if Readable(d, name) then Copying(WriteIfOpen(d, dest, o, d.files[name]), false)
    else Copying(WriteIfOpen(d, dest, o, []), true)
  }

  /** The readdir loop of handle_backup over the entries es, copying into
      dir; it stops at the first failed read. */
  function CopyFrom(d: Disk, dir: string, es: seq<Entry>): (c: Copying)
    ensures SameOutside(d, c.disk, dir)
    ensures Valid(d) ==> Valid(c.disk)
    decreases |es|
  {
    if |es| == 0 then Copying(d, false)
    else if !Eligible(es[0]) then CopyFrom(d, dir, es[1..])
    else
      var c := CopyOne(d, dir, es[0].name);
      if c.failed then c else CopyFrom(c.disk, dir, es[1..])
  }

  /** handle_backup at the given second: mkdir of the snapshot directory
      (an existing one is reused), the copy loop over the working directory
      as listed after the mkdir, then 201; a failed read sends 500 and ends
      the connection. */
  function BackupSpec(d: Disk, seconds: int, pos: nat, len: int): (r: Reply)
    ensures r.pos == pos && (Valid(d) ==> Valid(r.disk))
    ensures var d1 := MakeDir(d, SnapshotName(seconds));
      r.after == Keep <==> !exists e :: e in Listing(d1, "") && Eligible(e) && Unreadable(d1, e.name)
    ensures r.after == Keep ==> r.out == Response(201, len)
    ensures r.after != Keep ==> r.out == Response(500, len) && r.after == Close
    ensures SnapshotName(seconds) !in d.files ==> r.disk.dirs == d.dirs + {SnapshotName(seconds)}
    ensures forall p :: !Under(SnapshotName(seconds), p) ==>
      (p in r.disk.files <==> p in d.files) && (p in d.files ==> r.disk.files[p] == d.files[p])
  {
    var dir := SnapshotName(seconds);
    var d1 := MakeDir(d, dir);
    CopyFails(d1, dir, Listing(d1, ""));
    var c := CopyFrom(d1, dir, Listing(d1, ""));
    if c.failed then Reply(c.disk, pos, Response(500, len), Close)
    else Reply(c.disk, pos, Response(201, len), Keep)
  }

  /** The readdir loop of handle_backup, with its inner read/write loop. */
  method CopyFiles(d: Disk, dir: string, es: seq<Entry>) returns (c: Copying)
    ensures c == CopyFrom(d, dir, es)
  {
    var disk := d;
    var i := 0;
    while i < |es|
      invariant 0 <= i <= |es|
      invariant CopyFrom(d, dir, es) == CopyFrom(disk, dir, es[i..])
    {
      assert es[i..][1..] == es[i + 1..];
      var name := es[i].name;
      if Eligible(es[i]) {
        var dest := dir + "/" + name;
        var src := OpenRead(disk, name);
        if src != Access {
          var o := OpenWrite(disk, dest);
          if src != Ok || name !in disk.files {
            return Copying(WriteIfOpen(disk, dest, o, []), true);
          }
          var bytes := CopyBytes(disk.files[name], BufferSize);
          disk := WriteIfOpen(disk, dest, o, bytes);
        }
      }
      i := i + 1;
    }
    c := Copying(disk, false);
  }

  method HandleBackup(d: Disk, seconds: int, pos: nat, len: int) returns (r: Reply)
    ensures r == BackupSpec(d, seconds, pos, len)
  {
    var dir := SnapshotName(seconds);
    var d1 := MakeDir(d, dir);
    var c := CopyFiles(d1, dir, Listing(d1, ""));
    if c.failed {
      r := Reply(c.disk, pos, Response(500, len), Close);
    } else {
      r := Reply(c.disk, pos, Response(201, len), Keep);
    }
  }

  lemma PlainRest(es: seq<Entry>)
    requires 0 < |es| && Plain(es)
    ensures Plain(es[1..]) && '/' !in es[0].name
  {
    assert es[0] in es;
    forall e | e in es[1..]
      ensures '/' !in e.name
    {
      assert e in es;
    }
  }

  /** The backup fails exactly when some eligible file cannot be read. */
  lemma {:induction false} CopyFails(d: Disk, dir: string, es: seq<Entry>)
    requires Plain(es)
    ensures CopyFrom(d, dir, es).failed <==>
      exists e :: e in es && Eligible(e) && Unreadable(d, e.name)
    decreases |es|
  {
    if |es| > 0 {
      var rest := es[1..];
      PlainRest(es);
      assert forall e :: e in rest ==> e in es;
      assert forall e :: e in es ==> e == es[0] || e in rest;
      if !Eligible(es[0]) {
        CopyFails(d, dir, rest);
      } else {
        var c := CopyOne(d, dir, es[0].name);
        if !c.failed {
          CopyFails(c.disk, dir, rest);
          forall e | e in rest
            ensures Unreadable(c.disk, e.name) == Unreadable(d, e.name)
          {
            PlainNotUnder(dir, e.name);
            ReadsOutside(d, c.disk, dir, e.name);
          }
        }
      }
    }
  }

  /** A copy that already holds the file's bytes keeps them for the rest of
      a backup that does not fail. */
  lemma {:induction false} CopyStable(d: Disk, dir: string, es: seq<Entry>, n: string)
    requires Plain(es) && '/' !in n && Readable(d, n)
    requires dir + "/" + n in d.files && d.files[dir + "/" + n] == d.files[n]
    requires !CopyFrom(d, dir, es).failed
    ensures var f := CopyFrom(d, dir, es).disk.files;
      dir + "/" + n in f && f[dir + "/" + n] == d.files[n]
    decreases |es|
  {
    if |es| > 0 {
      PlainRest(es);
      if !Eligible(es[0]) {
        CopyStable(d, dir, es[1..], n);
      } else {
        var m := es[0].name;
        var c := CopyOne(d, dir, m);
        InsideUnder(dir, m);
        InsideUnder(dir, n);
        PlainNotUnder(dir, n);
        ReadsOutside(d, c.disk, dir, n);
        assert dir + "/" + n in c.disk.files && c.disk.files[dir + "/" + n] == d.files[n];
        CopyStable(c.disk, dir, es[1..], n);
      }
    }
  }

  /** A backup that does not fail holds, for every eligible readable file
      whose copy can be created, a copy with the file's bytes. */
  lemma {:induction false} CopyKeeps(d: Disk, dir: string, es: seq<Entry>, n: string)
    requires Plain(es) && Entry(n, false) in es && Eligible(Entry(n, false))
    requires Readable(d, n) && OpenWrite(d, dir + "/" + n) == Ok
    requires !CopyFrom(d, dir, es).failed
    ensures var f := CopyFrom(d, dir, es).disk.files;
      dir + "/" + n in f && f[dir + "/" + n] == d.files[n]
    decreases |es|
  {
    PlainRest(es);
    assert Entry(n, false) in es;
    var c := CopyOne(d, dir, es[0].name);
    if es[0] == Entry(n, false) {
      InsideUnder(dir, n);
      PlainNotUnder(dir, n);
      ReadsOutside(d, c.disk, dir, n);
      CopyStable(c.disk, dir, es[1..], n);
    } else {
      assert Entry(n, false) in es[1..];
      if !Eligible(es[0]) {
        CopyKeeps(d, dir, es[1..], n);
      } else {
        PlainNotUnder(dir, n);
        ReadsOutside(d, c.disk, dir, n);
        CopyKeeps(c.disk, dir, es[1..], n);
      }
    }
  }

  // ---------------------------------------------------------------------
  // Recovery

  /** One entry of a snapshot: the working file of the same name is
      created or truncated and receives the bytes of dir/name; an entry
      that cannot be read (an open error, a directory) leaves it empty. A
      working file that cannot be opened is left alone. */
  function RestoreOne(d: Disk, dir: string, name: string): (r: Disk)
    ensures r.dirs == d.dirs && r.faults == d.faults
    ensures Valid(d) ==> Valid(r)
  {
    var src := dir + "/" + name;
    WriteIfOpen(d, name, OpenWrite(d, name), if Readable(d, src) then d.files[src] else [])
  }

  /** The readdir loop of handle_recovery over the snapshot's entries. */
  function RestoreFrom(d: Disk, dir: string, es: seq<Entry>): (r: Disk)
    ensures r.dirs == d.dirs && r.faults == d.faults
    ensures Plain(es) ==> forall p :: '/' in p ==>
      (p in r.files <==> p in d.files) && (p in d.files ==> r.files[p] == d.files[p])
    ensures Valid(d) ==> Valid(r)
    decreases |es|
  {
    if |es| == 0 then d
    else
      assert Plain(es) ==> Plain(es[1..]) && '/' !in es[0].name by {
        if Plain(es) {
          PlainRest(es);
        }
      }
      RestoreFrom(RestoreOne(d, dir, es[0].name), dir, es[1..])
  }

  /** What a restore puts in the working file n: the bytes of dir/n, or
      nothing when dir/n cannot be read. */
  function Restored(d: Disk, dir: string, n: string): seq<byte>
  {
    var src := dir + "/" + n;
    if Readable(d, src) then d.files[src] else []
  }

  /** Once a working file holds what the restore puts in it, the rest of
      the restore leaves it so. */
  lemma {:induction false} RestoreStable(d: Disk, dir: string, es: seq<Entry>, n: string)
    requires Plain(es) && '/' !in n
    requires n in d.files && d.files[n] == Restored(d, dir, n)
    ensures var r := RestoreFrom(d, dir, es);
      n in r.files && r.files[n] == Restored(d, dir, n)
    decreases |es|
  {
    if |es| > 0 {
      PlainRest(es);
      var m := es[0].name;
      var d' := RestoreOne(d, dir, m);
      InsideUnder(dir, n);
      InsideUnder(dir, m);
      assert Restored(d', dir, n) == Restored(d, dir, n);
      RestoreStable(d', dir, es[1..], n);
    }
  }

  /** Every entry of the snapshot whose working file can be opened ends up
      holding the bytes of the snapshot's copy (nothing when that copy
      cannot be read). */
  lemma {:induction false} RestoreWrites(d: Disk, dir: string, es: seq<Entry>, n: string)
    requires Plain(es) && n in Names(es) && OpenWrite(d, n) == Ok
    ensures var r := RestoreFrom(d, dir, es);
      n in r.files && r.files[n] == Restored(d, dir, n)
    decreases |es|
  {
    PlainRest(es);
    var m := es[0].name;
    var d' := RestoreOne(d, dir, m);
    InsideUnder(dir, n);
    InsideUnder(dir, m);
    assert Restored(d', dir, n) == Restored(d, dir, n);
    if m == n {
      RestoreStable(d', dir, es[1..], n);
    } else {
      assert n in Names(es[1..]);
      RestoreWrites(d', dir, es[1..], n);
    }
  }

  /** A working file the snapshot has no entry for, or one that cannot be
      opened for writing, is left as it was: it is neither created, removed
      nor changed. */
  lemma {:induction false} RestoreLeaves(d: Disk, dir: string, es: seq<Entry>, p: string)
    requires p !in Names(es) || OpenWrite(d, p) != Ok
    ensures var r := RestoreFrom(d, dir, es);
      (p in r.files <==> p in d.files) && (p in d.files ==> r.files[p] == d.files[p])
    decreases |es|
  {
    if |es| > 0 {
      var d' := RestoreOne(d, dir, es[0].name);
      assert OpenWrite(d', p) == OpenWrite(d, p);
      assert p !in Names(es) ==> p !in Names(es[1..]);
      RestoreLeaves(d', dir, es[1..], p);
    }
  }

  /** The names of the entries. */
  function Names(es: seq<Entry>): (ns: set<string>)
    ensures forall e :: e in es ==> e.name in ns
    ensures forall n :: n in ns ==> exists e :: e in es && e.name == n
  {
    if |es| == 0 then {}
    else
      assert forall e :: e in es ==> e == es[0] || e in es[1..];
      assert forall e :: e in es[1..] ==> e in es;
      {es[0].name} + Names(es[1..])
  }

  /** An entry of the working directory that the recovery and list loops
      look at: a directory whose name has at least 8 characters and starts
      with "backup-". */
  predicate IsSnapshot(e: Entry)
  {
    e.isDir && |e.name| >= 8 && e.name[..7] == SnapshotPrefix
  }

  /** What follows "backup-" in a snapshot's name. */
  function Suffix(e: Entry): string
    requires IsSnapshot(e)
  {
    e.name[7..]
  }

  /** A snapshot whose suffix has 20 characters or more: copying it into
      the 20-byte time_str buffer is undefined. */
  predicate Overflows(es: seq<Entry>)
  {
    exists e :: e in es && IsSnapshot(e) && |Suffix(e)| >= 20
  }

  /** The timestamp strtol reads from a snapshot's suffix. */
  function Stamp(e: Entry): int
    requires IsSnapshot(e)
  {
    Strtol(Suffix(e))
  }

  /** The running maximum of the recovery loop, from ts on: it is at least
      ts and every stamp, and it is ts or one of the stamps. */
  function LatestFrom(es: seq<Entry>, ts: int): (t: int)
    ensures t >= ts
    ensures forall e :: e in es && IsSnapshot(e) ==> Stamp(e) <= t
    ensures t == ts || exists e :: e in es && IsSnapshot(e) && Stamp(e) == t
    decreases |es|
  {
    if |es| == 0 then ts
    else
      assert forall e :: e in es ==> e == es[0] || e in es[1..];
      assert forall e :: e in es[1..] ==> e in es;
      LatestFrom(es[1..], if IsSnapshot(es[0]) && Stamp(es[0]) > ts then Stamp(es[0]) else ts)
  }

  /** The timestamp of the newest snapshot, 0 when there is none. */
  function Latest(es: seq<Entry>): int
  {
    LatestFrom(es, 0)
  }

  /** The running-maximum loop of handle_recovery over the working
      directory; it stops where a suffix overflows time_str. */
  method NewestSnapshot(es: seq<Entry>) returns (ts: int, overflow: bool)
    ensures overflow <==> Overflows(es)
    ensures !overflow ==> ts == Latest(es)
  {
    ts := 0;
    var i := 0;
    while i < |es|
      invariant 0 <= i <= |es|
      invariant LatestFrom(es[i..], ts) == Latest(es)
      invariant !Overflows(es[..i])
    {
      var e := es[i];
      assert es[i..][1..] == es[i + 1..];
      assert forall x :: x in es[..i + 1] ==> x in es[..i] || x == e;
      if IsSnapshot(e) {
        if |Suffix(e)| >= 20 {
          assert e in es;
          return ts, true;
        }
        var stamp := Strtol(Suffix(e));
        if stamp > ts {
          ts := stamp;
        }
      }
      i := i + 1;
    }
    assert es[..i] == es;
    overflow := false;
  }

  /** The size of the path buffer handle_recovery formats a snapshot
      directory into. */
  const PathBuffer: nat := 500

  /** "./backup-<t>" fits the path buffer with room for its NUL; when it
      does not, snprintf returns an index past the buffer, and the NUL
      written there is undefined. */
  predicate Fits(t: string)
  {
    |"./" + SnapshotPrefix + t| < PathBuffer
  }

  /** The snapshot a recovery request names: "/r" the newest one, "/r/<t>"
      the one of timestamp t, which must be all digits. */
  function RecoverSpec(d: Disk, resource: string, pos: nat, len: int): (r: Reply)
    requires |resource| == 2 || |resource| > 3
    ensures r.pos == pos && (Valid(d) ==> Valid(r.disk))
    ensures |resource| > 3 && !AllDigits(Timestamp(resource)) ==> r == Reply(d, pos, Response(400, 0), Close)
    ensures |resource| > 3 && AllDigits(Timestamp(resource)) && !Fits(Timestamp(resource)) ==>
      r == Reply(d, pos, "", After.Undefined)
    ensures |resource| > 3 && AllDigits(Timestamp(resource)) && Fits(Timestamp(resource)) ==>
      var dir := SnapshotPrefix + Timestamp(resource);
      (OpenDir(d, dir) != Ok ==> r == Reply(d, pos, Response(ReadError(OpenDir(d, dir)), len), Close))
      && (OpenDir(d, dir) == Ok ==> r.after == Keep && r.out == Response(201, len))
    ensures |resource| == 2 ==> (r.after == After.Undefined <==> Overflows(Listing(d, "")))
    ensures |resource| == 2 && !Overflows(Listing(d, "")) ==>
      var dir := SnapshotName(Latest(Listing(d, "")));
      (OpenDir(d, dir) != Ok ==> r == Reply(d, pos, Response(ReadError(OpenDir(d, dir)), len), Close))
      && (OpenDir(d, dir) == Ok ==> r.after == Keep && r.out == Response(201, len))
  {
    if |resource| == 2 then
      var es := Listing(d, "");
      if Overflows(es) then Reply(d, pos, "", After.Undefined)
      else RestoreSpec(d, SnapshotName(Latest(es)), pos, len)
    else
      var t := Timestamp(resource);
      if !AllDigits(t) then Reply(d, pos, Response(400, 0), Close)
      else if !Fits(t) then Reply(d, pos, "", After.Undefined)
      else RestoreSpec(d, SnapshotPrefix + t, pos, len)
  }

  /** The timestamp of "/r/<t>": the three characters "/r/" are removed
      when the name starts with '/'. */
  function Timestamp(resource: string): string
    requires |resource| > 3
  {
    if resource[0] == '/' then resource[3..] else resource
  }

  /** opendir of the snapshot (404, 403 or 500 when it fails), the restore
      loop, then 201. */
  function RestoreSpec(d: Disk, dir: string, pos: nat, len: int): (r: Reply)
    ensures r.pos == pos && (Valid(d) ==> Valid(r.disk))
    ensures OpenDir(d, dir) != Ok ==> r == Reply(d, pos, Response(ReadError(OpenDir(d, dir)), len), Close)
    ensures OpenDir(d, dir) == Ok ==> r.after == Keep && r.out == Response(201, len)
  {
    var o := OpenDir(d, dir);
    if o != Ok then Reply(d, pos, Response(ReadError(o), len), Close)
    else Reply(RestoreFrom(d, dir, Listing(d, dir)), pos, Response(201, len), Keep)
  }

  /** The digit check of an explicit timestamp. */
  method CheckDigits(t: string) returns (ok: bool)
    ensures ok <==> AllDigits(t)
  {
    var i := 0;
    while i < |t|
      invariant 0 <= i <= |t|
      invariant forall j :: 0 <= j < i ==> IsDigit(t[j])
    {
      if !IsDigit(t[i]) {
        return false;
      }
      i := i + 1;
    }
    ok := true;
  }

  /** The restore loop of handle_recovery, with its inner read/write loop. */
  method RestoreFiles(d: Disk, dir: string, es: seq<Entry>) returns (r: Disk)
    ensures r == RestoreFrom(d, dir, es)
  {
    r := d;
    var i := 0;
    while i < |es|
      invariant 0 <= i <= |es|
      invariant RestoreFrom(d, dir, es) == RestoreFrom(r, dir, es[i..])
    {
      assert es[i..][1..] == es[i + 1..];
      var name := es[i].name;
      var src := dir + "/" + name;
      var o := OpenWrite(r, name);
      var bytes: seq<byte> := [];
      if Readable(r, src) {
        bytes := CopyBytes(r.files[src], BufferSize);
      }
      r := WriteIfOpen(r, name, o, bytes);
      i := i + 1;
    }
  }

  method HandleRestore(d: Disk, dir: string, pos: nat, len: int) returns (r: Reply)
    ensures r == RestoreSpec(d, dir, pos, len)
  {
    var o := OpenDir(d, dir);
    if o != Ok {
      return Reply(d, pos, Response(ReadError(o), len), Close);
    }
    var d' := RestoreFiles(d, dir, Listing(d, dir));
    r := Reply(d', pos, Response(201, len), Keep);
  }

  method HandleRecover(d: Disk, resource: string, pos: nat, len: int) returns (r: Reply)
    requires |resource| == 2 || |resource| > 3
    ensures r == RecoverSpec(d, resource, pos, len)
  {
    if |resource| == 2 {
      var ts, overflow := NewestSnapshot(Listing(d, ""));
      if overflow {
        return Reply(d, pos, "", After.Undefined);
      }
      r := HandleRestore(d, SnapshotName(ts), pos, len);
    } else {
      var t := if resource[0] == '/' then resource[3..] else resource;
      var ok := CheckDigits(t);
      if !ok {
        return Reply(d, pos, Response(400, 0), Close);
      }
      if !Fits(t) {
        return Reply(d, pos, "", After.Undefined);
      }
      r := HandleRestore(d, SnapshotPrefix + t, pos, len);
    }
  }

  // ---------------------------------------------------------------------
  // List

  /** A snapshot the list request reports: its suffix is all digits. */
  predicate Listed(e: Entry)
  {
    IsSnapshot(e) && AllDigits(Suffix(e))
  }

  /** The line reported for a snapshot: its timestamp and a newline. */
  function ListLine(e: Entry): string
    requires Listed(e)
  {
    Suffix(e) + "\n"
  }

  /** The length the counting pass adds for an entry: what snprintf
      returns, the length of the whole line. */
  function LineLength(e: Entry): nat
  {
    if Listed(e) then |Suffix(e)| + 1 else 0
  }

  /** The Content-Length the counting pass of handle_list computes. */
  function ListLength(es: seq<Entry>): nat
  {
    if |es| == 0 then 0 else LineLength(es[0]) + ListLength(es[1..])
  }

  /** The body the sending pass sends: one line per reported snapshot. */
  function ListBody(es: seq<Entry>): string
  {
    if |es| == 0 then ""
    else (if Listed(es[0]) then ListLine(es[0]) else "") + ListBody(es[1..])
  }

  /** The announced length is the length of the body. */
  lemma {:induction false} ListLengthIsBody(es: seq<Entry>)
    ensures ListLength(es) == |ListBody(es)|
  {
    if |es| > 0 {
      ListLengthIsBody(es[1..]);
    }
  }

  /** No snapshot is reported exactly when the announced length is 0. */
  lemma {:induction false} NothingListed(es: seq<Entry>)
    ensures ListLength(es) == 0 <==> forall e :: e in es ==> !Listed(e)
  {
    if |es| > 0 {
      NothingListed(es[1..]);
      assert forall e :: e in es ==> e == es[0] || e in es[1..];
      assert forall e :: e in es[1..] ==> e in es;
    }
  }

  /** handle_list: both passes read the same listing of the working
      directory; with no snapshot to report 200 with Content-Length 0,
      otherwise 200 with the counted length and the lines. */
  function ListSpec(d: Disk, pos: nat): (r: Reply)
    ensures r.disk == d && r.pos == pos
    ensures r.after == Keep <==> !Overflows(Listing(d, ""))
    ensures Overflows(Listing(d, "")) ==> r == Reply(d, pos, "", After.Undefined)
    ensures r.after == Keep ==>
      var body := ListBody(Listing(d, "")); r.out == Response(200, |body|) + body
  {
    var es := Listing(d, "");
    ListLengthIsBody(es);
    if Overflows(es) then Reply(d, pos, "", After.Undefined)
    else if ListLength(es) == 0 then Reply(d, pos, Response(200, 0), Keep)
    else Reply(d, pos, Response(200, ListLength(es)) + ListBody(es), Keep)
  }

  /** The counting pass of handle_list, with contains_no_backups; it stops
      where a suffix overflows time_str. */
  method CountSnapshots(es: seq<Entry>) returns (n: int, none: bool, overflow: bool)
    ensures overflow <==> Overflows(es)
    ensures !overflow ==> n == ListLength(es) && (none <==> forall e :: e in es ==> !Listed(e))
  {
    n, none := 0, true;
    var i := 0;
    while i < |es|
      invariant 0 <= i <= |es|
      invariant n + ListLength(es[i..]) == ListLength(es)
      invariant none <==> forall e :: e in es[..i] ==> !Listed(e)
      invariant !Overflows(es[..i])
    {
      var e := es[i];
      assert es[i..][1..] == es[i + 1..];
      assert forall x :: x in es[..i + 1] <==> x in es[..i] || x == e;
      if IsSnapshot(e) {
        if |Suffix(e)| >= 20 {
          assert e in es;
          return n, none, true;
        }
        var ok := CheckDigits(Suffix(e));
        if ok {
          n := n + |Suffix(e)| + 1;
          none := false;
        }
      }
      i := i + 1;
    }
    assert es[..i] == es;
    overflow := false;
  }

  /** The sending pass of handle_list. */
  method SendSnapshots(es: seq<Entry>) returns (out: string)
    ensures out == ListBody(es)
  {
    out := "";
    var i := 0;
    while i < |es|
      invariant 0 <= i <= |es|
      invariant out + ListBody(es[i..]) == ListBody(es)
    {
      var e := es[i];
      assert es[i..][1..] == es[i + 1..];
      if IsSnapshot(e) {
        var ok := CheckDigits(Suffix(e));
        if ok {
          assert out + ListBody(es[i..]) == (out + ListLine(e)) + ListBody(es[i + 1..]);
          out := out + ListLine(e);
        }
      }
      i := i + 1;
    }
    assert out + "" == out;
  }

  /** The sending pass as written: each line goes through a 20-byte
      snprintf buffer, so a timestamp of 19 digits loses its newline. */
  method SendSnapshotsAsWritten(es: seq<Entry>) returns (out: string)
    ensures out == ListBodyAsWritten(es)
  {
    out := "";
    var i := 0;
    while i < |es|
      invariant 0 <= i <= |es|
      invariant out + ListBodyAsWritten(es[i..]) == ListBodyAsWritten(es)
    {
      var e := es[i];
      assert es[i..][1..] == es[i + 1..];
      if IsSnapshot(e) {
        var ok := CheckDigits(Suffix(e));
        if ok {
          var line := Suffix(e) + "\n";
          if |line| > 19 {
            line := line[..19];
          }
          assert line == ListLineAsWritten(e);
          assert out + ListBodyAsWritten(es[i..]) == (out + line) + ListBodyAsWritten(es[i + 1..]);
          out := out + line;
        }
      }
      i := i + 1;
    }
    assert out + "" == out;
  }

  method HandleList(d: Disk, pos: nat) returns (r: Reply)
    ensures r == ListSpec(d, pos)
  {
    var es := Listing(d, "");
    var n, none, overflow := CountSnapshots(es);
    if overflow {
      return Reply(d, pos, "", After.Undefined);
    }
    NothingListed(es);
    if none {
      return Reply(d, pos, Response(200, 0), Keep);
    }
    var body := SendSnapshots(es);
    r := Reply(d, pos, Response(200, n) + body, Keep);
  }

  /** The line handle_list sends as written: snprintf into a 20-byte
      buffer keeps at most 19 characters of it. */
  function ListLineAsWritten(e: Entry): string
    requires Listed(e)
  {
    var line := Suffix(e) + "\n";
    if |line| <= 19 then line else line[..19]
  }

  /** The body of the sending pass as written. */
  function ListBodyAsWritten(es: seq<Entry>): string
  {
    if |es| == 0 then ""
    else (if Listed(es[0]) then ListLineAsWritten(es[0]) else "") + ListBodyAsWritten(es[1..])
  }

  /** The number of reported snapshots with a 19-digit timestamp. */
  function Nineteens(es: seq<Entry>): nat
  {
    if |es| == 0 then 0
    else (if Listed(es[0]) && |Suffix(es[0])| == 19 then 1 else 0) + Nineteens(es[1..])
  }

  /** As written, the body falls short of the announced length by one byte
      (a missing newline) for every 19-digit timestamp, and is otherwise
      the body of the corrected handler. */
  lemma {:induction false} AsWrittenShortfall(es: seq<Entry>)
    requires !Overflows(es)
    ensures ListLength(es) == |ListBodyAsWritten(es)| + Nineteens(es)
    ensures Nineteens(es) == 0 ==> ListBodyAsWritten(es) == ListBody(es)
  {
    if |es| > 0 {
      assert forall e :: e in es[1..] ==> e in es;
      assert es[0] in es;
      AsWrittenShortfall(es[1..]);
    }
  }

  /** The snapshot "backup-1234567890123456789" is announced as 20 bytes
      but sent as 19, without its newline. */
  lemma NineteenDigitTimestamp()
    ensures var es := [Entry(SnapshotPrefix + "1234567890123456789", true)];
      !Overflows(es) && ListLength(es) == 20 && ListBodyAsWritten(es) == "1234567890123456789"
      && ListBody(es) == "1234567890123456789\n"
  {
    var e := Entry(SnapshotPrefix + "1234567890123456789", true);
    NineteenListed(e, "1234567890123456789");
    OneNineteen(e);
  }

  /** A directory named "backup-" and 19 digits is a reported snapshot. */
  lemma NineteenListed(e: Entry, t: string)
    requires t == "1234567890123456789" && e == Entry(SnapshotPrefix + t, true)
    ensures Listed(e) && Suffix(e) == t && |t| == 19
  {
    assert e.name[..7] == SnapshotPrefix && e.name[7..] == t;
    assert AllDigits(t) by { assert t == "123456789" + "0123456789"; }
  }

  /** A single reported snapshot with a 19-digit timestamp: 20 bytes are
      announced, the sending pass as written sends the 19 digits, and the
      full line is the digits and a newline. */
  lemma OneNineteen(e: Entry)
    requires Listed(e) && |Suffix(e)| == 19
    ensures !Overflows([e]) && ListLength([e]) == 20
    ensures ListBodyAsWritten([e]) == Suffix(e) && ListBody([e]) == Suffix(e) + "\n"
  {
    assert forall x :: x in [e] ==> x == e;
    assert [e][1..] == [];
    assert (Suffix(e) + "\n")[..19] == Suffix(e);
  }

  // ---------------------------------------------------------------------
  // Backup and recovery together

  /** The copy loop of a backup that does not fail, over the listing of
      the working directory, leaves a copy of every eligible readable file
      whose copy can be created. */
  lemma ListedCopied(d: Disk, dir: string, n: string)
    requires Valid(d) && '/' !in n && |n| == 10 && n[8] != '.' && Readable(d, n)
    requires OpenWrite(d, dir + "/" + n) == Ok
    requires !CopyFrom(d, dir, Listing(d, "")).failed
    ensures var f := CopyFrom(d, dir, Listing(d, "")).disk.files;
      dir + "/" + n in f && f[dir + "/" + n] == d.files[n]
  {
    assert n in d.order;
    ListingComplete(d, d.order, "", n);
    CopyKeeps(d, dir, Listing(d, ""), n);
  }

  /** A backup at second s that answers 201 holds, for every eligible
      readable working file whose copy can be created, a copy with the
      file's bytes, in the snapshot directory it created. */
  lemma BackupSaves(d: Disk, s: int, n: string, pos: nat, len: int)
    requires Valid(d) && '/' !in n && |n| == 10 && n[8] != '.' && Readable(d, n)
    requires OpenWrite(MakeDir(d, SnapshotName(s)), SnapshotName(s) + "/" + n) == Ok
    ensures var b := BackupSpec(d, s, pos, len);
      var copy := SnapshotName(s) + "/" + n;
      b.after == Keep ==>
        SnapshotName(s) in b.disk.dirs && b.disk.faults == d.faults && Valid(b.disk)
        && b.disk.dirs == MakeDir(d, SnapshotName(s)).dirs
        && copy in b.disk.files && b.disk.files[copy] == d.files[n]
        && (n in b.disk.files && b.disk.files[n] == d.files[n])
  {
    var dir := SnapshotName(s);
    var d1 := MakeDir(d, dir);
    assert Readable(d1, n);
    assert dir in d1.dirs by {
      InsideUnder(dir, n);
      assert (dir + "/" + n)[..|dir|] == dir;
    }
    CopySaves(d1, dir, n);
  }

  /** The copy loop over a listing of the working directory, when it does
      not fail, keeps the directories and faults, and leaves a copy of an
      eligible readable file beside the file itself. */
  lemma CopySaves(d: Disk, dir: string, n: string)
    requires Valid(d) && '/' !in n && |n| == 10 && n[8] != '.' && Readable(d, n)
    requires OpenWrite(d, dir + "/" + n) == Ok
    ensures var c := CopyFrom(d, dir, Listing(d, ""));
      var copy := dir + "/" + n;
      !c.failed ==>
        c.disk.dirs == d.dirs && c.disk.faults == d.faults && Valid(c.disk)
        && copy in c.disk.files && c.disk.files[copy] == d.files[n]
        && (n in c.disk.files && c.disk.files[n] == d.files[n])
  {
    var c := CopyFrom(d, dir, Listing(d, ""));
    if !c.failed {
      ListedCopied(d, dir, n);
      InsideUnder(dir, n);
      PlainNotUnder(dir, n);
    }
  }


  /** A recovery of "/r/<s>" whose snapshot directory opens writes, into
      every working file n that can be opened and has a copy in the
      snapshot, the bytes of that copy. */
  lemma RecoverRestores(w: Disk, s: nat, n: string, pos: nat, len: int)
    requires '/' !in n && OpenWrite(w, n) == Ok
    requires OpenDir(w, SnapshotName(s)) == Ok && SnapshotName(s) + "/" + n in w.order
    requires Fits(Decimal(s))
    ensures var r := RecoverSpec(w, "/r/" + Decimal(s), pos, len);
      r.after == Keep && n in r.disk.files && r.disk.files[n] == Restored(w, SnapshotName(s), n)
  {
    var dir := SnapshotName(s);
    var res := "/r/" + Decimal(s);
    assert Timestamp(res) == Decimal(s);
    assert SnapshotPrefix + Decimal(s) == dir;
    InsideUnder(dir, n);
    ListingComplete(w, w.order, dir, dir + "/" + n);
    RestoreWrites(w, dir, Listing(w, dir), n);
  }

  /** A working file saved by a backup at second s gets its bytes back
      from a recovery of "/r/<s>", whatever was written to it in between. */
  lemma BackupThenRecover(d: Disk, s: nat, n: string, junk: seq<byte>, pos: nat, len: int, pos': nat, len': int)
    requires Valid(d) && '/' !in n && |n| == 10 && n[8] != '.'
    requires Readable(d, n) && OpenWrite(d, n) == Ok && Fault(d, SnapshotName(s)) == Ok
    requires OpenWrite(MakeDir(d, SnapshotName(s)), SnapshotName(s) + "/" + n) == Ok
    requires Fits(Decimal(s))
    ensures var b := BackupSpec(d, s, pos, len);
      b.after == Keep ==>
        n !in b.disk.dirs
        && var r := RecoverSpec(Write(b.disk, n, junk), "/r/" + Decimal(s), pos', len');
           r.after == Keep && n in r.disk.files && r.disk.files[n] == d.files[n]
  {
    var b := BackupSpec(d, s, pos, len);
    if b.after == Keep {
      BackupSaves(d, s, n, pos, len);
      RecoverAfterWrite(b.disk, d, s, n, junk, pos', len');
    }
  }

  /** The second half of BackupThenRecover: a directory holding the copy
      of n in the snapshot of second s. */
  lemma RecoverAfterWrite(b: Disk, d: Disk, s: nat, n: string, junk: seq<byte>, pos: nat, len: int)
    requires Valid(b) && '/' !in n && OpenWrite(d, n) == Ok && n in b.files && n in d.files
    requires SnapshotName(s) in b.dirs && b.faults == d.faults
    requires Fault(d, SnapshotName(s)) == Ok && Fault(d, SnapshotName(s) + "/" + n) == Ok
    requires SnapshotName(s) + "/" + n in b.files && b.files[SnapshotName(s) + "/" + n] == d.files[n]
    requires Fits(Decimal(s))
    ensures n !in b.dirs
    ensures var r := RecoverSpec(Write(b, n, junk), "/r/" + Decimal(s), pos, len);
      r.after == Keep && n in r.disk.files && r.disk.files[n] == d.files[n]
  {
    var dir := SnapshotName(s);
    InsideUnder(dir, n);
    assert n != dir + "/" + n;
    var w := Write(b, n, junk);
    assert ParentExists(w, n);
    RecoverRestores(w, s, n, pos, len);
  }

  /** When the newest snapshot was taken at second s, "/r" restores the
      same snapshot as "/r/<s>". */
  lemma NewestRestored(d: Disk, s: nat, pos: nat, len: int)
    requires s <= LongMax && !Overflows(Listing(d, ""))
    requires Entry(SnapshotName(s), true) in Listing(d, "")
    requires forall e :: e in Listing(d, "") && IsSnapshot(e) ==> Stamp(e) <= s
    ensures RecoverSpec(d, "/r", pos, len) == RecoverSpec(d, "/r/" + Decimal(s), pos, len)
  {
    var e := Entry(SnapshotName(s), true);
    assert e.name[..7] == SnapshotPrefix;
    assert Suffix(e) == Decimal(s);
    assert Fits(Decimal(s));
    StrtolOfDigits(Decimal(s));
    assert Stamp(e) == s;
    assert Latest(Listing(d, "")) == s;
    assert Timestamp("/r/" + Decimal(s)) == Decimal(s);
  }
}
