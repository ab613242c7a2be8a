/**
 The recursive walk of the disk scan (worker/disk_scan.go, walkDir and
 handleDiskScan): what tree it reports, however it is cancelled.
 */
module DiskWalk {
  import opened Common
  import opened DiskScan
  import ScanPath

  predicate IsFolder(e: Entry) {
    e.info.Folder? || e.info.SealedFolder?
  }

  // --- the report of a completed walk ---

  /** The children reported for these nodes: some descending order of them, folded. */
  ghost predicate FoldOf(children: seq<Node>, kids: seq<Node>, path: string, p: Params) {
    exists order: seq<Node> ::
      && multiset(order) == multiset(kids)
      && Descending(order)
      && children == Summary(order, p.minSize, p.maxChildren, path)
  }

  /** `n` is the report of `e` with `depth` levels opened. */
  ghost predicate Reports(n: Node, e: Entry, path: string, depth: int, p: Params)
    decreases e, 1
  {
    && n.name == e.name
    && n.path == path
    && n.isDir == IsFolder(e)
    && n.size == Usage(e, depth, p.includeHidden)
    && if e.info.Folder? && depth > 0 then
         exists kids: seq<Node> :: KidsOf(kids, e.info.entries, path, depth - 1, p) && FoldOf(n.children, kids, path, p)
       else
         n.children == []
  }

  /** `kids` are the reports of the entries that are reported, in order. */
  ghost predicate KidsOf(kids: seq<Node>, entries: seq<Entry>, path: string, depth: int, p: Params)
    decreases entries, 0
  {
    if entries == [] then kids == []
    else
      var last := entries[|entries| - 1];
      if Reported(last, p.includeHidden) then
        && kids != []
        && Reports(kids[|kids| - 1], last, ScanPath.ChildPath(path, last.name), depth, p)
        && KidsOf(kids[..|kids| - 1], entries[..|entries| - 1], path, depth, p)
      else
        KidsOf(kids, entries[..|entries| - 1], path, depth, p)
  }

  lemma ReportWeighs(n: Node, e: Entry, path: string, depth: int, p: Params)
    requires Reports(n, e, path, depth, p)
    ensures n.size == Usage(e, depth, p.includeHidden)
  {
  }

  lemma {:induction false} KidsWeighTheUsage(kids: seq<Node>, entries: seq<Entry>, path: string, depth: int, p: Params)
    requires KidsOf(kids, entries, path, depth, p)
    ensures Total(kids) == UsageAll(entries, depth, p.includeHidden)
    decreases |entries|
  {
    hide Reports, Usage, Total, Reported;
    if entries == [] {
      NoTotal();
    } else {
      var n, k := |entries| - 1, |kids| - 1;
      if Reported(entries[n], p.includeHidden) {
        ReportWeighs(kids[k], entries[n], ScanPath.ChildPath(path, entries[n].name), depth, p);
        KidsWeighTheUsage(kids[..k], entries[..n], path, depth, p);
        assert kids == kids[..k] + [kids[k]];
        TotalAppend(kids[..k], kids[k]);
      } else {
        KidsWeighTheUsage(kids, entries[..n], path, depth, p);
      }
    }
  }

  lemma KidsGrow(kids: seq<Node>, kid: Node, entries: seq<Entry>, i: nat, path: string, depth: int, p: Params)
    requires i < |entries| && Reported(entries[i], p.includeHidden)
    requires KidsOf(kids, entries[..i], path, depth, p)
    requires Reports(kid, entries[i], ScanPath.ChildPath(path, entries[i].name), depth, p)
    ensures KidsOf(kids + [kid], entries[..i + 1], path, depth, p)
  {
    hide Reports;
    assert entries[..i + 1][..i] == entries[..i];
    assert (kids + [kid])[..|kids|] == kids;
  }

  lemma KidsPass(kids: seq<Node>, entries: seq<Entry>, i: nat, path: string, depth: int, p: Params)
    requires i < |entries| && !Reported(entries[i], p.includeHidden)
    requires KidsOf(kids, entries[..i], path, depth, p)
    ensures KidsOf(kids, entries[..i + 1], path, depth, p)
  {
    hide Reports;
    assert entries[..i + 1][..i] == entries[..i];
  }

  // --- bounds that also hold of a cut short walk ---

  /** The number of levels and of children per node that the parameters allow. */
  function Levels(depth: int): nat {
    if depth < 0 then 0 else depth
  }

  function Width(p: Params): nat {
    Max(0, p.maxChildren) + 2
  }

  ghost predicate AllKidsWithin(kids: seq<Node>, p: Params, h: nat) {
    forall k :: k in kids ==> Within(k, Width(p), h)
  }

  lemma GhostWithin(name: string, path: string, size: int, b: nat, h: nat)
    requires size >= 0
    ensures Within(Ghost(name, path, size), b, h)
  {
  }

  lemma {:induction false} TotalNonNegative(nodes: seq<Node>)
    requires forall n :: n in nodes ==> n.size >= 0
    ensures Total(nodes) >= 0
  {
    SumNonNegative(nodes, SizeOf);
  }

  lemma SummaryWithin(order: seq<Node>, path: string, p: Params, h: nat)
    requires AllKidsWithin(order, p, h)
    ensures AllKidsWithin(Summary(order, p.minSize, p.maxChildren, path), p, h)
  {
    hide Within, Total, BigCount, Width;
    forall k | k in order ensures k.size >= 0 {
      WithinSize(k, Width(p), h);
    }
    var big := BigCount(order, p.minSize);
    var kept := if big <= Max(0, p.maxChildren) then big else Max(0, p.maxChildren);
    TotalNonNegative(order[big..]);
    TotalNonNegative(order[kept..big]);
    GhostWithin("* (small)", path, Total(order[big..]), Width(p), h);
    GhostWithin("* (others)", path, Total(order[kept..big]), Width(p), h);
  }

  lemma WithinSize(n: Node, b: nat, h: nat)
    requires Within(n, b, h)
    ensures n.size >= 0
  {
  }

  lemma SameMembers(a: seq<Node>, b: seq<Node>, p: Params, h: nat)
    requires multiset(a) == multiset(b) && AllKidsWithin(b, p, h)
    ensures AllKidsWithin(a, p, h)
  {
    hide Within;
    forall k | k in a ensures k in b {
      assert k in multiset(a);
    }
  }

  /** A folder whose children were folded is within the bounds one level up. */
  lemma FolderWithin(n: Node, order: seq<Node>, p: Params, h: nat)
    requires AllKidsWithin(order, p, h) && n.children == Summary(order, p.minSize, p.maxChildren, n.path)
    requires n.size >= 0 && (Total(order) > 0 ==> n.size == Total(order))
    ensures Within(n, Width(p), h + 1)
  {
    hide Within, Total, Summary;
    SummaryConserves(order, p.minSize, p.maxChildren, n.path);
    SummaryWithin(order, n.path, p, h);
    ParentWithin(n, Width(p), h);
  }

  // --- the walk ---

  method DirSize(kids: seq<Node>) returns (size: int)
    ensures size == Total(kids)
  {
    hide Total;
    size := 0;
    EmptyTotal(kids, 0);
    assert kids[..0] == kids[0..0];
    for i := 0 to |kids|
      invariant size == Total(kids[..i])
    {
      assert kids[..i + 1] == kids[..i] + [kids[i]];
      TotalAppend(kids[..i], kids[i]);
      size := size + kids[i].size;
    }
    assert kids[..|kids|] == kids;
  }

  /** When the context is cancelled: at which of its checks, and whether by the deadline. */
  datatype End = Never | From(check: nat, deadline: bool)

  /** The counters of a walk, and the context that may end it. */
  class Walk {
    var walkedCount: nat
    var skippedPerm: nat
    var checks: nat
    const end: End

    constructor (end: End)
      ensures walkedCount == skippedPerm == checks == 0 && this.end == end
    {
      walkedCount, skippedPerm, checks := 0, 0, 0;
      this.end := end;
    }

    /** No check so far has found the context cancelled. */
    predicate Live()
      reads this
    {
      end.Never? || checks <= end.check
    }

    method Cancelled() returns (gone: bool)
      modifies this`checks
      ensures checks == old(checks) + 1
      ensures gone == !Live()
    {
      gone := end.From? && checks >= end.check;
      checks := checks + 1;
    }

    /**
     However the context ends the walk, the node is within the bounds; if it did
     not, the node reports the entry and the counters grew by what was met.
     */
    method WalkDir(e: Entry, path: string, depth: int, p: Params) returns (node: Node)
      modifies this
      ensures Within(node, Width(p), Levels(p.maxDepth - depth))
      ensures checks >= old(checks)
      ensures Live() ==> Reports(node, e, path, p.maxDepth - depth, p)
      ensures Live() ==> walkedCount == old(walkedCount) + Visits(e, p.maxDepth - depth, p.includeHidden)
      ensures Live() ==> skippedPerm == old(skippedPerm) + Denied(e, p.maxDepth - depth, p.includeHidden)
      decreases e, 1
    {
      hide Within, Width, Summary, Total, KidsOf, FoldOf;
      walkedCount := walkedCount + 1;
      if e.info.Unreadable? {
        if e.info.permission {
          skippedPerm := skippedPerm + 1;
        }
        LeafWithin(Node(e.name, path, 0, false, []), Width(p), Levels(p.maxDepth - depth));
        return Node(e.name, path, 0, false, []);
      }
      node := Node(e.name, path, e.info.bytes, IsFolder(e), []);
      LeafWithin(node, Width(p), Levels(p.maxDepth - depth));
      if !IsFolder(e) {
        return;
      }
      var gone := Cancelled();
      if gone || depth >= p.maxDepth {
        return;
      }
      if e.info.SealedFolder? {
        if e.info.permission {
          skippedPerm := skippedPerm + 1;
        }
        return;
      }
      var kids := WalkEntries(e.info.entries, path, depth, p);
      var dirSize := DirSize(kids);
      if dirSize > 0 {
        node := node.(size := dirSize);
      }
      var children, order := AggregateChildren(kids, p.minSize, p.maxChildren, path);
      node := node.(children := children);
      SameMembers(order, kids, p, Levels(p.maxDepth - depth - 1));
      FolderWithin(node, order, p, Levels(p.maxDepth - depth - 1));
      if Live() {
        FoldedBy(children, kids, order, path, p);
        KidsWeighTheUsage(kids, e.info.entries, path, p.maxDepth - depth - 1, p);
      }
    }

    method WalkEntries(entries: seq<Entry>, path: string, depth: int, p: Params) returns (kids: seq<Node>)
      requires depth < p.maxDepth
      modifies this
      ensures AllKidsWithin(kids, p, Levels(p.maxDepth - depth - 1))
      ensures checks >= old(checks)
      ensures Live() ==> KidsOf(kids, entries, path, p.maxDepth - depth - 1, p)
      ensures Live() ==> walkedCount == old(walkedCount) + VisitsAll(entries, p.maxDepth - depth - 1, p.includeHidden)
      ensures Live() ==> skippedPerm == old(skippedPerm) + DeniedAll(entries, p.maxDepth - depth - 1, p.includeHidden)
      decreases entries, 0
    {
      hide Within, Width, Reports, KidsOf, Usage, Visits, Denied, Hidden;
      kids := [];
      var left := p.maxDepth - depth - 1;
      NoKids(path, left, p);
      assert entries[..0] == [];
      for i := 0 to |entries|
        invariant AllKidsWithin(kids, p, Levels(left))
        invariant checks >= old(checks)
        invariant Live() ==> KidsOf(kids, entries[..i], path, left, p)
        invariant Live() ==> walkedCount == old(walkedCount) + VisitsAll(entries[..i], left, p.includeHidden)
        invariant Live() ==> skippedPerm == old(skippedPerm) + DeniedAll(entries[..i], left, p.includeHidden)
      {
        var entry := entries[i];
        assert entries[..i + 1][..i] == entries[..i];
        ghost var before := kids;
        var gone := Cancelled();
        if gone {
          break;
        }
        if !p.includeHidden && Hidden(entry) {
          KidsPass(kids, entries, i, path, left, p);
          continue;
        }
        if entry.info.Unreadable? {
          KidsPass(kids, entries, i, path, left, p);
          DeniedUnreadable(entry, left, p.includeHidden);
          if entry.info.permission {
            skippedPerm := skippedPerm + 1;
          }
          continue;
        }
        if entry.info.Link? {
          KidsPass(kids, entries, i, path, left, p);
          continue;
        }
        var childPath := ScanPath.ChildPath(path, entry.name);
        var child: Node;
        if IsFolder(entry) {
          child := WalkDir(entry, childPath, depth + 1, p);
        } else {
          walkedCount := walkedCount + 1;
          child := Node(entry.name, childPath, entry.info.bytes, false, []);
          LeafReported(child, entry, childPath, left, p);
        }
        kids := kids + [child];
        if Live() {
          KidsGrow(before, child, entries, i, path, left, p);
        }
      }
      assert entries[..|entries|] == entries;
    }
  }

  lemma LeafWithin(n: Node, b: nat, h: nat)
    requires n.children == [] && n.size >= 0
    ensures Within(n, b, h)
  {
  }

  lemma NoKids(path: string, depth: int, p: Params)
    ensures KidsOf([], [], path, depth, p)
  {
  }

  lemma DeniedUnreadable(e: Entry, depth: int, hidden: bool)
    requires e.info.Unreadable?
    ensures Denied(e, depth, hidden) == if e.info.permission then 1 else 0
  {
  }

  lemma LeafReported(n: Node, e: Entry, path: string, depth: int, p: Params)
    requires e.info.Leaf? && n == Node(e.name, path, e.info.bytes, false, [])
    ensures Reports(n, e, path, depth, p) && Within(n, Width(p), Levels(depth))
    ensures Visits(e, depth, p.includeHidden) == 1 && Denied(e, depth, p.includeHidden) == 0
  {
  }

  lemma FoldedBy(children: seq<Node>, kids: seq<Node>, order: seq<Node>, path: string, p: Params)
    requires multiset(order) == multiset(kids) && Descending(order)
    requires children == Summary(order, p.minSize, p.maxChildren, path)
    ensures FoldOf(children, kids, path, p)
  {
  }

  // --- the DISK_SCAN intent ---

  const MAX_SCAN_RESULT_BYTES := 2 * 1024 * 1024

  datatype Answer =
    | Refused
    | TimedOut
    | Report(root: Node, truncated: bool, walkedCount: nat, skippedPerm: nat)

  /**
   Only a path inside a mount is walked; an answer is within the bounds; and if
   nothing ended the walk it reports the entry, childless when it would be too long.
   */
  method HandleDiskScan(path: string, e: Entry, mounts: seq<string>, p: Params, end: End,
                        canon: string -> Option<seq<string>>, encodedSize: Node -> nat)
    returns (answer: Answer)
    requires forall s :: canon(s).Some? ==> ScanPath.AreNames(canon(s).value)
    ensures answer.Refused? <==> !ScanPath.Allowed(path, mounts, canon)
    ensures answer.TimedOut? ==> end.From? && end.deadline
    ensures answer.Report? ==> Within(answer.root, Width(p), Levels(p.maxDepth))
    ensures answer.Report? && end.Never? ==>
              && answer.walkedCount == Visits(e, p.maxDepth, p.includeHidden)
              && answer.skippedPerm == Denied(e, p.maxDepth, p.includeHidden)
              && answer.root.size == Usage(e, p.maxDepth, p.includeHidden)
              && exists full :: Reports(full, e, path, p.maxDepth, p)
                                && answer.truncated == (encodedSize(full) > MAX_SCAN_RESULT_BYTES)
                                && answer.root == if answer.truncated then full.(children := []) else full
  {
    hide Within, Width;
    if |mounts| == 0 {
      return Refused;
    }
    var allowed := ScanPath.IsAllowedScanPath(path, mounts, canon);
    if !allowed {
      return Refused;
    }
    var stats := new Walk(end);
    var root := stats.WalkDir(e, path, 0, p);
    var gone := stats.Cancelled();
    if gone && end.deadline {
      return TimedOut;
    }
    var truncated := encodedSize(root) > MAX_SCAN_RESULT_BYTES;
    if truncated {
      WithinSize(root, Width(p), Levels(p.maxDepth));
      LeafWithin(root.(children := []), Width(p), Levels(p.maxDepth));
      return Report(root.(children := []), truncated, stats.walkedCount, stats.skippedPerm);
    }
    return Report(root, truncated, stats.walkedCount, stats.skippedPerm);
  }
}
