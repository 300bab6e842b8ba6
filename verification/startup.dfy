/** The start-up scan of the multi-threaded version: before any connection
    is accepted, every file already in the working directory (or, with
    redundancy, in the replica directories copy1, copy2 and copy3) gets an
    unlocked mutex in the file table. */
module Startup {
  import opened Store

  /** The build and hand-in files of the server itself, never served. */
  const Excluded: set<string> :=
    {"httpserver", "httpserver.cpp", "httpserver.o", "Makefile", "DESIGN.pdf", "README.md"}

  predicate IsCopyDir(n: string)
  {
    n == "copy1" || n == "copy2" || n == "copy3"
  }

  /** A name starting with '.': hidden files, "." and "..". */
  predicate Hidden(n: string)
  {
    |n| > 0 && n[0] == '.'
  }

  /** The scan so far: the registered names and whether a replica
      directory was seen. A replica directory that opendir cannot open is
      closed with closedir(NULL), which is undefined. */
  datatype Scan = Scan(registry: set<string>, copiesExist: bool) | Undefined

  /** The names the scan of replica directory dir registers: each entry
      not starting with '.', as "dir/<entry>". */
  function CopyNames(dir: string, es: seq<Entry>): (r: set<string>)
    ensures forall n :: n in r <==> exists e :: e in es && !Hidden(e.name) && n == PathIn(dir, e.name)
  {
    if |es| == 0 then {}
    else
      var rest := CopyNames(dir, es[1..]);
      assert forall e :: e in es[1..] ==> e in es;
      assert forall e :: e in es ==> e == es[0] || e in es[1..];
      if Hidden(es[0].name) then rest else rest + {PathIn(dir, es[0].name)}
  }

  /** One entry of the working directory. Without redundancy every name
      that is not excluded, hidden or a replica directory is registered;
      with it only the replica directories count, through their entries. */
  function Visit(d: Disk, e: Entry, redundancy: bool, acc: Scan): Scan
  {
    if acc.Undefined? || e.name in Excluded || Hidden(e.name) then acc
    else if IsCopyDir(e.name) && redundancy then
      if OpenDir(d, e.name) != Ok then Scan.Undefined
      else Scan(acc.registry + CopyNames(e.name, Listing(d, e.name)), true)
    else if !IsCopyDir(e.name) && !redundancy then Scan(acc.registry + {e.name}, acc.copiesExist)
    else acc
  }

  /** The readdir loop over the working directory from acc on. */
  function ScanFrom(d: Disk, es: seq<Entry>, redundancy: bool, acc: Scan): Scan
  {
    if |es| == 0 then acc else ScanFrom(d, es[1..], redundancy, Visit(d, es[0], redundancy, acc))
  }

  /** The start-up scan, the working directory listed as es. */
  function Scanned(d: Disk, es: seq<Entry>, redundancy: bool): (s: Scan)
    ensures !redundancy ==> s.Scan? && !s.copiesExist
    ensures !redundancy && s.Scan? ==>
      forall n :: n in s.registry <==> exists e :: e in es && e.name == n && n !in Excluded && !Hidden(n) && !IsCopyDir(n)
    ensures redundancy ==> (s.Undefined? <==> exists e :: e in es && IsCopyDir(e.name) && OpenDir(d, e.name) != Ok)
    ensures redundancy && s.Scan? ==> (s.copiesExist <==> exists e :: e in es && IsCopyDir(e.name))
  {
    RegistryPlain(d, es, {}, false);
    RegistryRedundant(d, es, {}, false);
    ScanFrom(d, es, redundancy, Scan({}, false))
  }

  /** The inner readdir loop over one replica directory. */
  method RegisterCopies(dir: string, es: seq<Entry>, registry: set<string>) returns (r: set<string>)
    ensures r == registry + CopyNames(dir, es)
  {
    r := registry;
    var i := 0;
    while i < |es|
      invariant 0 <= i <= |es|
      invariant r + CopyNames(dir, es[i..]) == registry + CopyNames(dir, es)
    {
      if !Hidden(es[i].name) {
        r := r + {PathIn(dir, es[i].name)};
      }
      assert es[i..][1..] == es[i + 1..];
      i := i + 1;
    }
  }

  /** The start-up loop of main: readdir on the working directory, and on
      each replica directory when redundancy is on. */
  method Populate(d: Disk, es: seq<Entry>, redundancy: bool) returns (s: Scan)
    ensures s == Scanned(d, es, redundancy)
  {
    var registry: set<string> := {};
    var copiesExist := false;
    var i := 0;
    while i < |es|
      invariant 0 <= i <= |es|
      invariant Scanned(d, es, redundancy) == ScanFrom(d, es[i..], redundancy, Scan(registry, copiesExist))
    {
      var name := es[i].name;
      assert es[i..][1..] == es[i + 1..];
      if name !in Excluded && !Hidden(name) {
        if IsCopyDir(name) && redundancy {
          copiesExist := true;
          if OpenDir(d, name) != Ok {
            assert ScanFrom(d, es[i + 1..], redundancy, Scan.Undefined) == Scan.Undefined by {
              UndefinedStays(d, es[i + 1..], redundancy);
            }
            return Scan.Undefined;
          }
          registry := RegisterCopies(name, Listing(d, name), registry);
        } else if !IsCopyDir(name) && !redundancy {
          registry := registry + {name};
        }
      }
      i := i + 1;
    }
    s := Scan(registry, copiesExist);
  }

  /** Once undefined, the scan stays undefined. */
  lemma {:induction false} UndefinedStays(d: Disk, es: seq<Entry>, redundancy: bool)
    ensures ScanFrom(d, es, redundancy, Scan.Undefined) == Scan.Undefined
  {
    if |es| > 0 {
      UndefinedStays(d, es[1..], redundancy);
    }
  }

  /** Without redundancy the table holds exactly the listed names that are
      not excluded, hidden or replica directories, and no replica directory
      is noted. */
  lemma {:induction false} RegistryPlain(d: Disk, es: seq<Entry>, registry: set<string>, copiesExist: bool)
    ensures var s := ScanFrom(d, es, false, Scan(registry, copiesExist));
      s.Scan? && s.copiesExist == copiesExist
      && forall n :: n in s.registry <==>
        n in registry || exists e :: e in es && e.name == n && n !in Excluded && !Hidden(n) && !IsCopyDir(n)
  {
    if |es| > 0 {
      var next := Visit(d, es[0], false, Scan(registry, copiesExist));
      RegistryPlain(d, es[1..], next.registry, next.copiesExist);
      assert forall e :: e in es[1..] ==> e in es;
      assert forall e :: e in es ==> e == es[0] || e in es[1..];
    }
  }

  /** With redundancy the table holds exactly "copyN/<name>" for every
      entry not starting with '.' of every replica directory in the
      listing; the copies are noted as existing exactly when a replica
      directory is listed; the scan is undefined exactly when a listed
      replica directory cannot be opened. */
  lemma {:induction false} RegistryRedundant(d: Disk, es: seq<Entry>, registry: set<string>, copiesExist: bool)
    ensures var s := ScanFrom(d, es, true, Scan(registry, copiesExist));
      (s.Undefined? <==> exists e :: e in es && IsCopyDir(e.name) && OpenDir(d, e.name) != Ok)
      && (s.Scan? ==> (s.copiesExist <==> copiesExist || exists e :: e in es && IsCopyDir(e.name)))
      && (s.Scan? ==> forall n :: n in s.registry <==>
        n in registry || exists e :: e in es && IsCopyDir(e.name) && n in CopyNames(e.name, Listing(d, e.name)))
  {
    if |es| > 0 {
      var next := Visit(d, es[0], true, Scan(registry, copiesExist));
      assert forall e :: e in es[1..] ==> e in es;
      assert forall e :: e in es ==> e == es[0] || e in es[1..];
      if next.Undefined? {
        UndefinedStays(d, es[1..], true);
      } else {
        RegistryRedundant(d, es[1..], next.registry, next.copiesExist);
      }
    }
  }
}
