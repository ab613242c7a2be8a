/**
 What the sizes of a disk scan count (worker/disk_scan.go), told on the flat list
 of everything the walk meets instead of level by level.
 */
module DiskUsage {
  import opened Common
  import opened DiskScan

  /** An entry that was met, and how many levels below it may still be opened. */
  datatype Meeting = Meeting(entry: Entry, levels: int)

  /** The walk goes by hidden entries, unless asked for them, and by links. */
  predicate Visible(e: Entry, hidden: bool) {
    (hidden || !Hidden(e)) && !e.info.Link?
  }

  /** Whether a folder's entries are looked at. */
  predicate Opened(m: Meeting) {
    m.entry.info.Folder? && m.levels > 0
  }

  /** All that the walk meets below and including an entry, in its order. */
  function Met(e: Entry, levels: int, hidden: bool): seq<Meeting>
    decreases e, 1
  {
    [Meeting(e, levels)] + if e.info.Folder? && levels > 0 then MetAll(e.info.entries, levels - 1, hidden) else []
  }

  function MetAll(entries: seq<Entry>, levels: int, hidden: bool): seq<Meeting>
    decreases entries, 0
  {
    if entries == [] then []
    else
      var n := |entries| - 1;
      MetAll(entries[..n], levels, hidden) +
      (if Visible(entries[n], hidden) then Met(entries[n], levels, hidden) else [])
  }

  function BytesOf(m: Meeting): nat {
    match m.entry.info
    case Unreadable(_) => 0
    case Leaf(bytes) => bytes
    case Link(bytes) => bytes
    case Folder(bytes, _) => bytes
    case SealedFolder(bytes, _) => bytes
  }

  predicate AnyBytes(ms: seq<Meeting>) {
    exists m :: m in ms && BytesOf(m) > 0
  }

  /** Everything counts with its own bytes, but a folder that was opened and holds anything that weighs does not. */
  function Counts(m: Meeting, hidden: bool): nat {
    if Opened(m) && AnyBytes(MetAll(m.entry.info.entries, m.levels - 1, hidden)) then 0 else BytesOf(m)
  }

  predicate Readable(m: Meeting) {
    !m.entry.info.Unreadable?
  }

  /** The file system denied a look at the entry, or into the folder where one was due. */
  predicate WasDenied(m: Meeting) {
    match m.entry.info
    case Unreadable(permission) => permission
    case SealedFolder(_, permission) => permission && m.levels > 0
    case _ => false
  }

  lemma JustOne<T>(x: T, f: T -> int, p: T -> bool)
    ensures Sum([x], f) == f(x) && Count([x], p) == if p(x) then 1 else 0
  {
    assert [x][..0] == [];
  }

  lemma AnyBytesConcat(a: seq<Meeting>, b: seq<Meeting>)
    ensures AnyBytes(a + b) <==> AnyBytes(a) || AnyBytes(b)
  {
    assert forall m :: m in a + b <==> m in a || m in b;
  }

  function Weights(hidden: bool): Meeting -> int {
    (m: Meeting) => Counts(m, hidden)
  }

  /** The bytes an entry is reported with are those that everything met below it counts with. */
  lemma {:induction false} UsageIsTheFlatSum(e: Entry, levels: int, hidden: bool)
    ensures Usage(e, levels, hidden) == Sum(Met(e, levels, hidden), Weights(hidden))
    ensures Usage(e, levels, hidden) > 0 <==> AnyBytes(Met(e, levels, hidden))
    decreases e, 1
  {
    hide MetAll, Sum, UsageAll;
    var me := Meeting(e, levels);
    JustOne(me, Weights(hidden), Readable);
    if e.info.Folder? && levels > 0 {
      var inside := MetAll(e.info.entries, levels - 1, hidden);
      UsageAllIsTheFlatSum(e.info.entries, levels - 1, hidden);
      SumConcat([me], inside, Weights(hidden));
      AnyBytesConcat([me], inside);
    } else {
      assert Met(e, levels, hidden) == [me];
    }
  }

  lemma {:induction false} UsageAllIsTheFlatSum(entries: seq<Entry>, levels: int, hidden: bool)
    ensures UsageAll(entries, levels, hidden) == Sum(MetAll(entries, levels, hidden), Weights(hidden))
    ensures UsageAll(entries, levels, hidden) > 0 <==> AnyBytes(MetAll(entries, levels, hidden))
    decreases entries, 0
  {
    hide Met, Usage, Sum, AnyBytes, Hidden;
    if entries == [] {
      NothingWeighs(hidden);
    } else {
      var n := |entries| - 1;
      var before := MetAll(entries[..n], levels, hidden);
      UsageAllIsTheFlatSum(entries[..n], levels, hidden);
      UsageIsTheFlatSum(entries[n], levels, hidden);
      UnreadableWeighsNothing(entries[n], levels, hidden);
      if Visible(entries[n], hidden) {
        SumConcat(before, Met(entries[n], levels, hidden), Weights(hidden));
        AnyBytesConcat(before, Met(entries[n], levels, hidden));
      } else {
        assert MetAll(entries, levels, hidden) == before;
      }
    }
  }

  lemma NothingWeighs(hidden: bool)
    ensures Sum([], Weights(hidden)) == 0 && !AnyBytes([])
  {
  }

  lemma UnreadableWeighsNothing(e: Entry, levels: int, hidden: bool)
    ensures e.info.Unreadable? ==> Usage(e, levels, hidden) == 0
  {
  }

  /** The walk counts every path it meets, but for children it cannot look at, and every denial. */
  lemma {:induction false} CountersAreFlatCounts(e: Entry, levels: int, hidden: bool)
    ensures Visits(e, levels, hidden) ==
            Count(Met(e, levels, hidden), Readable) + if e.info.Unreadable? then 1 else 0
    ensures Denied(e, levels, hidden) == Count(Met(e, levels, hidden), WasDenied)
    decreases e, 1
  {
    hide MetAll, Count, VisitsAll, DeniedAll;
    var me := Meeting(e, levels);
    JustOne(me, Weights(hidden), Readable);
    JustOne(me, Weights(hidden), WasDenied);
    if e.info.Folder? && levels > 0 {
      var inside := MetAll(e.info.entries, levels - 1, hidden);
      AllCountersAreFlatCounts(e.info.entries, levels - 1, hidden);
      CountConcat([me], inside, Readable);
      CountConcat([me], inside, WasDenied);
    } else {
      assert Met(e, levels, hidden) == [me];
    }
  }

  lemma {:induction false} AllCountersAreFlatCounts(entries: seq<Entry>, levels: int, hidden: bool)
    ensures VisitsAll(entries, levels, hidden) == Count(MetAll(entries, levels, hidden), Readable)
    ensures DeniedAll(entries, levels, hidden) == Count(MetAll(entries, levels, hidden), WasDenied)
    decreases entries, 0
  {
    hide Met, Visits, Denied, Count, Hidden;
    if entries == [] {
      NothingCounted();
    } else {
      var n := |entries| - 1;
      var before := MetAll(entries[..n], levels, hidden);
      AllCountersAreFlatCounts(entries[..n], levels, hidden);
      CountersAreFlatCounts(entries[n], levels, hidden);
      UnreadableIsOneVisit(entries[n], levels, hidden);
      if Visible(entries[n], hidden) {
        CountConcat(before, Met(entries[n], levels, hidden), Readable);
        CountConcat(before, Met(entries[n], levels, hidden), WasDenied);
      } else {
        assert MetAll(entries, levels, hidden) == before;
      }
    }
  }

  lemma NothingCounted()
    ensures Count([], Readable) == 0 && Count([], WasDenied) == 0
  {
  }

  lemma UnreadableIsOneVisit(e: Entry, levels: int, hidden: bool)
    ensures e.info.Unreadable? ==> Visits(e, levels, hidden) == 1
  {
  }
}
