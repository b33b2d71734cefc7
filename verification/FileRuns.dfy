/**
 * Runs of writes, reads and seeks on one open file: together they are those of
 * a plain sequence of bytes with a cursor.
 */
module FileRuns {
  import opened Base
  import opened Chains
  import opened FileData
  import opened Volume
  import opened File

  datatype Op = OpWrite(data: seq<byte>) | OpRead(count: nat) | OpSeek(ofs: nat)

  /**
   * What a caller sees of an operation: how many bytes were written, which were
   * read, and whether the volume was full
   */
  datatype Event = Written(n: nat, full: bool) | Delivered(data: seq<byte>) | Sought(full: bool)

  /** The plain file: its bytes and the cursor */
  datatype PlainFile = PlainFile(bytes: seq<byte>, pos: nat)

  /**
   * One operation on a plain file. A write or a seek behind the end stops early
   * only when the volume is full, or the file has its largest size; what lies
   * behind the old end after a seek is not determined.
   */
  predicate Steps(a: PlainFile, op: Op, e: Event, b: PlainFile)
  {
    match op
    case OpWrite(data) =>
      && e.Written? && e.n <= |data| && a.pos <= |a.bytes| && a.pos < DWORD
      && (e.full || e.n == WriteLimit(a.pos, |data|))
      && b == PlainFile(Overlay(a.bytes, a.pos, data[..e.n]), a.pos + e.n)
    case OpRead(count) =>
      && a.pos <= |a.bytes|
      && var n := Min(count, |a.bytes| - a.pos);
         e == Delivered(a.bytes[a.pos..a.pos + n]) && b == PlainFile(a.bytes, a.pos + n)
    case OpSeek(ofs) =>
      && e.Sought? && (b.pos == ofs || (e.full && |a.bytes| <= b.pos < ofs))
      && |b.bytes| == Max(|a.bytes|, b.pos) && b.bytes[..|a.bytes|] == a.bytes
  }

  ghost predicate Runs(a: PlainFile, ops: seq<Op>, events: seq<Event>, b: PlainFile)
  {
    && |events| == |ops|
    && if ops == [] then a == b
       else
         var n := |ops| - 1;
         exists m: PlainFile :: Runs(a, ops[..n], events[..n], m) && Steps(m, ops[n], events[n], b)
  }

  lemma RunsOn(a: PlainFile, ops: seq<Op>, events: seq<Event>, m: PlainFile, i: nat, e: Event, b: PlainFile)
    requires i < |ops| && Runs(a, ops[..i], events, m) && Steps(m, ops[i], e, b)
    ensures Runs(a, ops[..i + 1], events + [e], b)
  {
    var longer := ops[..i + 1];
    assert longer[..i] == ops[..i] && (events + [e])[..i] == events;
  }

  /** The file as a plain one */
  ghost function PlainOf(f: FileObject): (p: PlainFile)
    reads f, f.buf, f.fs, f.fs.win, f.fs.disk
    requires f.Core()
  {
    PlainFile(f.State().bytes, f.fptr)
  }

  /** The operations keep the FAT well-formed, and extend no chain but this one. */
  lemma ConfinedWellFormed(f: FileObject, a: FileState, b: FileState)
    requires StateOn(f.fs.geo, a) && StateOn(f.fs.geo, b) && Confined(f.fs.geo, a, b) && WellFormed(a.fat)
    ensures WellFormed(b.fat)
  {
    ChainOrNothing(a.fat, a.sclust, a.chain);
    ChainOrNothing(b.fat, b.sclust, b.chain);
    hide IsChain, WellFormed;
    GrowsKeepsWellFormed(a.fat, b.fat, a.chain, b.chain);
  }

  lemma ChainOrNothing(fat: seq<nat>, sclust: nat, chain: seq<nat>)
    requires ChainOf(fat, sclust, chain)
    ensures chain == [] || IsChain(fat, chain)
  {
  }

  /** A file that is open for both reading and writing, on a disk that does not fail */
  ghost predicate Ready(f: FileObject)
    reads f, f.buf, f.fs, f.fs.win, f.fs.disk
    ensures Ready(f) ==> f.Valid() && f.Core() && f.err == FrOk && f.canRead && f.canWrite && f.fs.disk.reliable
  {
    f.Valid() && f.Core() && f.err == FrOk && f.canRead && f.canWrite && f.fs.disk.reliable && NoReserved(f.fs.Table())
  }

  lemma ReadyHas(f: FileObject)
    requires Ready(f)
    ensures NoReserved(f.State().fat) && f.State().fat == f.fs.Table()
  {
  }

  /** Ready again after an operation that kept to the file */
  lemma ReadyAgain(f: FileObject, a: FileState)
    requires f.Valid() && f.Core() && f.err == FrOk && f.canRead && f.canWrite && f.fs.disk.reliable
    requires StateOn(f.fs.geo, a) && NoReserved(a.fat) && Confined(f.fs.geo, a, f.State())
    ensures Ready(f)
  {
    ConfinedUnreserved(f.fs.geo, a, f.State());
  }

  predicate RanFull(e: Event)
  {
    (e.Written? || e.Sought?) && e.full
  }

  /** A full volume stays full. */
  lemma StaysFull(f: FileObject, a: FileState, b: FileState)
    requires StateOn(f.fs.geo, a) && StateOn(f.fs.geo, b) && Confined(f.fs.geo, a, b) && NoHole(a.fat)
    ensures NoHole(b.fat)
  {
    ChainOrNothing(b.fat, b.sclust, b.chain);
    forall c | 2 <= c < |b.fat|
      ensures b.fat[c] >= 2
    {
      if c in b.chain {
        var i :| 0 <= i < |b.chain| && b.chain[i] == c;
        MemberStep(b.fat, b.chain, i);
      }
    }
  }

  /** One operation */
  method Perform(f: FileObject, op: Op) returns (e: Event)
    requires Ready(f) && (op.OpWrite? ==> |op.data| < DWORD) && (op.OpSeek? ==> op.ofs < DWORD)
    modifies f, f.buf, f.fs, f.fs.win, f.fs.disk
    ensures Ready(f) && Steps(old(PlainOf(f)), op, e, PlainOf(f))
    ensures Confined(f.fs.geo, old(f.State()), f.State())
    ensures RanFull(e) ==> NoHole(f.State().fat)
  {
    hide *;
    match op {
      case OpWrite(data) => e := PerformWrite(f, data);
      case OpRead(count) => e := PerformRead(f, count);
      case OpSeek(ofs) => e := PerformSeek(f, ofs);
    }
  }

  method PerformWrite(f: FileObject, data: seq<byte>) returns (e: Event)
    requires Ready(f) && |data| < DWORD
    modifies f, f.buf, f.fs, f.fs.win, f.fs.disk
    ensures Ready(f) && Steps(old(PlainOf(f)), OpWrite(data), e, PlainOf(f))
    ensures Confined(f.fs.geo, old(f.State()), f.State())
    ensures RanFull(e) ==> NoHole(f.State().fat)
  {
    hide FileObject.Valid, FileObject.Core, FileObject.State, FileObject.Contents, FileSystem.Valid, FileSystem.Table;
    hide FileSystem.Logical;
    hide NoReserved, Confined, NoHole, Overlay, Ready, StateOn;
    ReadyHas(f);
    CursorInside(f);
    ghost var a := f.State();
    var p := f.fptr;
    PositionBound(f);
    var _, n := f.Write(data);
    e := Written(n, n < WriteLimit(p, |data|));
    ReadyAgain(f, a);
    ReadyHas(f);
  }

  method PerformSeek(f: FileObject, ofs: nat) returns (e: Event)
    requires Ready(f) && ofs < DWORD
    modifies f, f.buf, f.fs, f.fs.win, f.fs.disk
    ensures Ready(f) && Steps(old(PlainOf(f)), OpSeek(ofs), e, PlainOf(f))
    ensures Confined(f.fs.geo, old(f.State()), f.State())
    ensures RanFull(e) ==> NoHole(f.State().fat)
  {
    hide FileObject.Valid, FileObject.Core, FileObject.State, FileObject.Contents, FileSystem.Valid, FileSystem.Table;
    hide FileSystem.Logical;
    hide NoReserved, Confined, NoHole, Ready, StateOn;
    ReadyHas(f);
    CursorInside(f);
    ghost var a := f.State();
    var _ := f.Seek(ofs);
    e := Sought(f.fptr != ofs);
    ReadyAgain(f, a);
    ReadyHas(f);
  }

  lemma PositionBound(f: FileObject)
    requires f.Core()
    ensures f.fptr < DWORD
  {
    hide FileOn, FileSystem.Valid, FileSystem.Table, FileSystem.Logical, WindowAway;
  }

  lemma CursorInside(f: FileObject)
    requires f.Core()
    ensures f.fptr <= |f.State().bytes| == f.objsize && f.State().bytes == f.Contents()
  {
  }

  method PerformRead(f: FileObject, count: nat) returns (e: Event)
    requires Ready(f)
    modifies f, f.buf, f.fs, f.fs.win, f.fs.disk
    ensures Ready(f) && Steps(old(PlainOf(f)), OpRead(count), e, PlainOf(f)) && !RanFull(e)
    ensures Confined(f.fs.geo, old(f.State()), f.State())
  {
    hide FileObject.Valid, FileObject.Core, FileObject.State, FileObject.Contents, FileSystem.Valid, FileSystem.Table;
    hide FileSystem.Logical;
    hide NoReserved, Confined, Overlay, Ready, StateOn;
    ReadyHas(f);
    CursorInside(f);
    var rbuff := new byte[count];
    ghost var was, a, p := rbuff[..], f.State(), f.fptr;
    var _, n := f.Read(rbuff, count);
    OverlayFront(was, a.bytes[p..p + n]);
    e := Delivered(rbuff[..n]);
    ReadyAgain(f, a);
  }

  lemma OverlayFront(was: seq<byte>, d: seq<byte>)
    requires |d| <= |was|
    ensures Overlay(was, 0, d)[..|d|] == d
  {
  }

  lemma SameChain(fat: seq<nat>, sclust: nat, a: seq<nat>, b: seq<nat>)
    requires ChainOf(fat, sclust, a) && ChainOf(fat, sclust, b)
    ensures a == b
  {
    if a != [] && b != [] {
      forall i | 0 <= i < |a|
        ensures i < |b| && a[i] == b[i]
      {
        ChainUnique(fat, a, b, i);
      }
      ChainUnique(fat, b, a, |b| - 1);
    }
  }

  /**
   * Two open files that start at the same cluster and stand at the same place
   * stand in the same cluster, sector and data, however they got there.
   */
  lemma PathIndependent(f: FileObject, h: FileObject)
    requires f.Valid() && h.Valid() && f.err == h.err == FrOk && f.fs == h.fs
    requires f.sclust == h.sclust && f.fptr == h.fptr > 0
    ensures f.chain == h.chain && f.clust == h.clust
    ensures f.fptr % SECTOR_SIZE != 0 ==> f.sect == h.sect
    ensures f.fptr % SECTOR_SIZE != 0 && !f.dirty && !h.dirty ==> f.buf[..] == h.buf[..]
  {
    var g, k := f.fs.geo, f.fptr / SECTOR_SIZE;
    SameChain(f.fs.Table(), f.sclust, f.chain, h.chain);
    if f.fptr % SECTOR_SIZE != 0 {
      SlotInside(g, k);
      DataSectorInside(g, f.chain, k, |f.fs.Logical()|);
    }
    hide DataSector, ClusterOf, SlotOf, FileSystem.Logical, FileSystem.Table, FileSystem.Valid, WindowAway, Holds;
  }

  /** Any number of operations, one after the other */
  method PerformAll(f: FileObject, ops: seq<Op>) returns (events: seq<Event>)
    requires Ready(f) && forall i :: 0 <= i < |ops| ==>
               (ops[i].OpWrite? ==> |ops[i].data| < DWORD) && (ops[i].OpSeek? ==> ops[i].ofs < DWORD)
    modifies f, f.buf, f.fs, f.fs.win, f.fs.disk
    ensures Ready(f) && Runs(old(PlainOf(f)), ops, events, PlainOf(f))
    ensures Confined(f.fs.geo, old(f.State()), f.State())
    ensures WellFormed(old(f.State()).fat) ==> WellFormed(f.State().fat)
    ensures (exists i :: 0 <= i < |events| && RanFull(events[i])) ==> NoHole(f.State().fat)
  {
    hide FileObject.Valid, FileObject.Core, FileObject.State, FileSystem.Valid, FileSystem.Table, FileSystem.Logical;
    hide Confined, Ready, Steps, WellFormed, NoHole, RanFull;
    ghost var g, a, start := f.fs.geo, f.State(), PlainOf(f);
    ConfinedReflexive(g, a);
    events := [];
    var i := 0;
    assert ops[..0] == [];
    assert Runs(start, ops[..0], events, start);
    hide Runs;
    while i < |ops|
      invariant 0 <= i <= |ops| && Ready(f) && Runs(start, ops[..i], events, PlainOf(f))
      invariant Confined(g, a, f.State())
      invariant |events| == i && ((exists j :: 0 <= j < i && RanFull(events[j])) ==> NoHole(f.State().fat))
    {
      ghost var m, b := PlainOf(f), f.State();
      var e := Perform(f, ops[i]);
      RunsOn(start, ops, events, m, i, e, PlainOf(f));
      ConfinedTransitive(g, a, b, f.State());
      if NoHole(b.fat) { StaysFull(f, b, f.State()); }
      events, i := events + [e], i + 1;
    }
    assert ops[..i] == ops;
    if WellFormed(a.fat) {
      ConfinedWellFormed(f, a, f.State());
    }
  }
}
