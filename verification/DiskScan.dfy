/**
 The disk scan (worker/disk_scan.go): a recursive walk with depth control that
 folds small and surplus children into summary nodes.  The file system is a
 value; a cancellation strikes at some check of the context.
 */
module DiskScan {
  import opened Common

  /** What Lstat and ReadDir say about a path. */
  datatype Info =
    | Unreadable(permission: bool)
    | Leaf(bytes: nat)
    | Link(bytes: nat)
    | Folder(bytes: nat, entries: seq<Entry>)
    | SealedFolder(bytes: nat, permission: bool)

  datatype Entry = Entry(name: string, info: Info)

  datatype Node = Node(name: string, path: string, size: int, isDir: bool, children: seq<Node>)

  datatype Params = Params(maxDepth: int, minSize: int, maxChildren: int, includeHidden: bool)

  // --- what the walk should find ---

  predicate Hidden(e: Entry) {
    |e.name| > 0 && e.name[0] == '.'
  }

  /** Entries the walk reports: not hidden ones, not links, not unreadable ones. */
  predicate Reported(e: Entry, includeHidden: bool) {
    (includeHidden || !Hidden(e)) && !e.info.Link? && !e.info.Unreadable?
  }

  /** Disk usage with `depth` levels opened; a folder counts its contents if they weigh anything. */
  function Usage(e: Entry, depth: int, hidden: bool): (u: nat)
    decreases e, 1
  {
    match e.info
    case Unreadable(_) => 0
    case Leaf(bytes) => bytes
    case Link(bytes) => bytes
    case SealedFolder(bytes, _) => bytes
    case Folder(bytes, entries) =>
      var inside := if depth <= 0 then 0 else UsageAll(entries, depth - 1, hidden);
      if inside > 0 then inside else bytes
  }

  function UsageAll(entries: seq<Entry>, depth: int, hidden: bool): (u: nat)
    decreases entries, 0
  {
    if entries == [] then 0
    else
      var n := |entries| - 1;
      UsageAll(entries[..n], depth, hidden) +
      (if Reported(entries[n], hidden) then Usage(entries[n], depth, hidden) else 0)
  }

  /** How many paths the walk visits. */
  function Visits(e: Entry, depth: int, hidden: bool): nat
    decreases e, 1
  {
    1 + if e.info.Folder? && depth > 0 then VisitsAll(e.info.entries, depth - 1, hidden) else 0
  }

  function VisitsAll(entries: seq<Entry>, depth: int, hidden: bool): nat
    decreases entries, 0
  {
    if entries == [] then 0
    else
      var n := |entries| - 1;
      VisitsAll(entries[..n], depth, hidden) +
      (if Reported(entries[n], hidden) then Visits(entries[n], depth, hidden) else 0)
  }

  /** How many paths it is denied. */
  function Denied(e: Entry, depth: int, hidden: bool): nat
    decreases e, 1
  {
    match e.info
    case Unreadable(permission) => if permission then 1 else 0
    case SealedFolder(_, permission) => if permission && depth > 0 then 1 else 0
    case Folder(_, entries) => if depth > 0 then DeniedAll(entries, depth - 1, hidden) else 0
    case _ => 0
  }

  function DeniedAll(entries: seq<Entry>, depth: int, hidden: bool): nat
    decreases entries, 0
  {
    if entries == [] then 0
    else
      var n := |entries| - 1;
      DeniedAll(entries[..n], depth, hidden) +
      (if (hidden || !Hidden(entries[n])) && !entries[n].info.Link? then Denied(entries[n], depth, hidden) else 0)
  }

  // --- what the reported tree should look like ---

  function SizeOf(n: Node): int {
    n.size
  }

  function Total(nodes: seq<Node>): int {
    Sum(nodes, SizeOf)
  }

  /** At every level a node whose children weigh anything weighs what they weigh. */
  predicate Conserves(n: Node) {
    && n.size >= 0
    && (Total(n.children) > 0 ==> n.size == Total(n.children))
    && forall c :: c in n.children ==> Conserves(c)
  }

  function Height(n: Node): nat
    decreases n, 1
  {
    if n.children == [] then 0 else 1 + HeightAll(n.children)
  }

  function HeightAll(nodes: seq<Node>): (h: nat)
    decreases nodes, 0
  {
    if nodes == [] then 0
    else
      var n := |nodes| - 1;
      Max(HeightAll(nodes[..n]), Height(nodes[n]))
  }

  function Nodes(n: Node): nat
    decreases n, 1
  {
    1 + NodesAll(n.children)
  }

  function NodesAll(nodes: seq<Node>): nat
    decreases nodes, 0
  {
    if nodes == [] then 0 else NodesAll(nodes[..|nodes| - 1]) + Nodes(nodes[|nodes| - 1])
  }

  /** 1 + b + b² + … + bʰ. */
  function Geometric(b: nat, h: nat): (g: nat)
    ensures g >= 1
  {
    if h == 0 then 1 else 1 + b * Geometric(b, h - 1)
  }

  /** A subtree within the bounds for `h` levels of at most `b` children each. */
  predicate Within(n: Node, b: nat, h: nat) {
    Conserves(n) && Height(n) <= h && Nodes(n) <= Geometric(b, h)
  }

  lemma {:induction false} AllWithin(nodes: seq<Node>, b: nat, h: nat)
    requires forall n :: n in nodes ==> Within(n, b, h)
    ensures HeightAll(nodes) <= h && NodesAll(nodes) <= |nodes| * Geometric(b, h)
  {
    hide Conserves, Geometric, Height, Nodes;
    if nodes != [] {
      var g := Geometric(b, h);
      AllWithin(nodes[..|nodes| - 1], b, h);
      assert Within(nodes[|nodes| - 1], b, h);
      assert |nodes| * g == (|nodes| - 1) * g + g;
    }
  }

  lemma ParentWithin(n: Node, b: nat, h: nat)
    requires |n.children| <= b && n.size >= 0
    requires Total(n.children) > 0 ==> n.size == Total(n.children)
    requires forall c :: c in n.children ==> Within(c, b, h)
    ensures Within(n, b, h + 1)
  {
    AllWithin(n.children, b, h);
    var g := Geometric(b, h);
    assert |n.children| * g <= b * g;
  }

  // --- aggregation ---

  predicate Descending(nodes: seq<Node>) {
    forall i, j :: 0 <= i < j < |nodes| ==> nodes[i].size >= nodes[j].size
  }

  /** How many nodes lead the list at or above the minimum size. */
  function BigCount(order: seq<Node>, minSize: int): (k: nat)
    ensures k <= |order| && (forall i :: 0 <= i < k ==> order[i].size >= minSize)
    ensures k < |order| ==> order[k].size < minSize
  {
    if order == [] || order[0].size < minSize then 0 else 1 + BigCount(order[1..], minSize)
  }

  function Ghost(name: string, path: string, size: int): Node {
    Node(name, path, size, false, [])
  }

  /** The kept children and the two summary nodes, from children in descending order. */
  function Summary(order: seq<Node>, minSize: int, maxChildren: int, path: string): seq<Node> {
    var big := BigCount(order, minSize);
    var kept := if big <= Max(0, maxChildren) then big else Max(0, maxChildren);
    order[..kept] +
    (if big < |order| then [Ghost("* (small)", path, Total(order[big..]))] else []) +
    (if kept < big then [Ghost("* (others)", path, Total(order[kept..big]))] else [])
  }

  lemma TotalConcat(a: seq<Node>, b: seq<Node>)
    ensures Total(a + b) == Total(a) + Total(b)
  {
    SumConcat(a, b, SizeOf);
  }

  lemma TotalOne(n: Node)
    ensures Total([n]) == n.size
  {
    var none: seq<Node> := [];
    assert none + [n] == [n];
    SumAppend(none, n, SizeOf);
  }

  lemma TotalAppend(nodes: seq<Node>, n: Node)
    ensures Total(nodes + [n]) == Total(nodes) + n.size
  {
    SumAppend(nodes, n, SizeOf);
  }

  /** Aggregation neither creates nor loses a byte, and bounds the number of children. */
  lemma SummaryConserves(order: seq<Node>, minSize: int, maxChildren: int, path: string)
    ensures Total(Summary(order, minSize, maxChildren, path)) == Total(order)
    ensures |Summary(order, minSize, maxChildren, path)| <= Max(0, maxChildren) + 2
  {
    hide Total, BigCount;
    var big := BigCount(order, minSize);
    var kept := if big <= Max(0, maxChildren) then big else Max(0, maxChildren);
    var small := if big < |order| then [Ghost("* (small)", path, Total(order[big..]))] else [];
    var others := if kept < big then [Ghost("* (others)", path, Total(order[kept..big]))] else [];
    TotalConcat(order[..kept] + small, others);
    TotalConcat(order[..kept], small);
    TotalOne(Ghost("* (small)", path, Total(order[big..])));
    TotalOne(Ghost("* (others)", path, Total(order[kept..big])));
    MiddleWeighs(order, kept, big);
    EmptyTotal(order, |order|);
    EmptyTotal(order, kept);
    assert big == |order| ==> order[big..] == order[big..big];
    assert Total(small) == Total(order[big..]) && Total(others) == Total(order[kept..big]) by { NoTotal(); }
  }

  lemma NoTotal()
    ensures Total([]) == 0
  {
  }

  /** What is kept is at or above the minimum, and nothing left out that is so is larger. */
  lemma SummaryKeepsTheLargest(order: seq<Node>, minSize: int, maxChildren: int, path: string, i: nat, j: nat)
    requires Descending(order) && j < |order|
    requires i < |Summary(order, minSize, maxChildren, path)| && i < BigCount(order, minSize) && i < maxChildren
    ensures Summary(order, minSize, maxChildren, path)[i] == order[i] && order[i].size >= minSize
    ensures j >= BigCount(order, minSize) ==> order[j].size < minSize
    ensures j >= maxChildren ==> order[i].size >= order[j].size
  {
  }

  function AtLeast(minSize: int): Node -> bool {
    (n: Node) => n.size >= minSize
  }

  function WeightBelow(minSize: int): Node -> int {
    (n: Node) => if n.size < minSize then n.size else 0
  }

  lemma {:induction false} BelowIsTheRest(order: seq<Node>, minSize: int, k: nat)
    requires k <= |order|
    requires forall i :: 0 <= i < k ==> order[i].size >= minSize
    requires forall i :: k <= i < |order| ==> order[i].size < minSize
    ensures Count(order, AtLeast(minSize)) == k && Sum(order, WeightBelow(minSize)) == Total(order[k..])
  {
    if order != [] {
      var n := |order| - 1;
      if k == |order| {
        BelowIsTheRest(order[..n], minSize, n);
        assert order[..n][n..] == order[k..];
      } else {
        BelowIsTheRest(order[..n], minSize, k);
        assert order[k..] == order[..n][k..] + [order[n]];
        TotalAppend(order[..n][k..], order[n]);
      }
    }
  }

  /**
   What the summary nodes stand for: one weighs what all children below the
   minimum weigh, the other what the rest of the unkept children weigh.
   */
  lemma SummaryAccounts(order: seq<Node>, minSize: int, maxChildren: int, path: string)
    requires Descending(order)
    ensures var s := Summary(order, minSize, maxChildren, path);
            var big, below := Count(order, AtLeast(minSize)), Sum(order, WeightBelow(minSize));
            var kept := if big <= Max(0, maxChildren) then big else Max(0, maxChildren);
            && big <= |order|
            && |s| == kept + (if big < |order| then 1 else 0) + (if kept < big then 1 else 0)
            && s[..kept] == order[..kept]
            && (big < |order| ==> s[kept] == Ghost("* (small)", path, below))
            && (kept < big ==> s[|s| - 1] == Ghost("* (others)", path, Total(order) - below - Total(order[..kept])))
  {
    hide Total, BigCount, Summary, Descending;
    var big := LeadingBig(order, minSize);
    var kept := if big <= Max(0, maxChildren) then big else Max(0, maxChildren);
    BelowIsTheRest(order, minSize, big);
    MiddleWeighs(order, kept, big);
    SummaryFromParts(order, minSize, maxChildren, path, kept, big);
  }

  lemma MiddleWeighs(order: seq<Node>, i: nat, j: nat)
    requires i <= j <= |order|
    ensures order[j..] == order[j..|order|]
    ensures Total(order[i..j]) == Total(order) - Total(order[j..]) - Total(order[..i])
  {
    hide Total;
    assert order == order[..i] + order[i..j] + order[j..];
    TotalConcat(order[..i] + order[i..j], order[j..]);
    TotalConcat(order[..i], order[i..j]);
  }

  lemma LeadingBig(order: seq<Node>, minSize: int) returns (k: nat)
    requires Descending(order)
    ensures k <= |order|
    ensures forall i :: 0 <= i < k ==> order[i].size >= minSize
    ensures forall i :: k <= i < |order| ==> order[i].size < minSize
  {
    k := BigCount(order, minSize);
  }

  /** One round of the sort: a node goes after the ones that are not smaller. */
  method Insert(sorted: seq<Node>, node: Node) returns (order: seq<Node>)
    requires Descending(sorted)
    ensures multiset(order) == multiset(sorted + [node]) && Descending(order)
    ensures Total(order) == Total(sorted) + node.size
  {
    hide Total;
    var at := |sorted|;
    while at > 0 && sorted[at - 1].size < node.size
      invariant 0 <= at <= |sorted|
      invariant forall i :: at <= i < |sorted| ==> sorted[i].size < node.size
    {
      at := at - 1;
    }
    order := sorted[..at] + [node] + sorted[at..];
    Inserted(sorted, at, node);
  }

  lemma Inserted(sorted: seq<Node>, at: nat, node: Node)
    requires Descending(sorted) && at <= |sorted|
    requires at > 0 ==> sorted[at - 1].size >= node.size
    requires forall i :: at <= i < |sorted| ==> sorted[i].size < node.size
    ensures var order := sorted[..at] + [node] + sorted[at..];
            && Descending(order)
            && multiset(order) == multiset(sorted + [node])
            && Total(order) == Total(sorted) + node.size
  {
    hide Total, Descending;
    InsertedDescends(sorted, at, node);
    InsertedWeighs(sorted, at, node);
    var a, b := sorted[..at], sorted[at..];
    assert sorted == a + b;
    assert sorted + [node] == a + (b + [node]);
  }

  lemma InsertedDescends(sorted: seq<Node>, at: nat, node: Node)
    requires Descending(sorted) && at <= |sorted|
    requires at > 0 ==> sorted[at - 1].size >= node.size
    requires forall i :: at <= i < |sorted| ==> sorted[i].size < node.size
    ensures Descending(sorted[..at] + [node] + sorted[at..])
  {
    var order := sorted[..at] + [node] + sorted[at..];
    forall i, j | 0 <= i < j < |order| ensures order[i].size >= order[j].size {
      assert at > 0 && i < at ==> order[i].size >= sorted[at - 1].size;
      assert order[j] == if j < at then sorted[j] else if j == at then node else sorted[j - 1];
    }
  }

  lemma InsertedWeighs(sorted: seq<Node>, at: nat, node: Node)
    requires at <= |sorted|
    ensures Total(sorted[..at] + [node] + sorted[at..]) == Total(sorted) + node.size
  {
    hide Total;
    var a, b := sorted[..at], sorted[at..];
    assert sorted == a + b;
    TotalConcat(a, b);
    TotalConcat(a + [node], b);
    TotalAppend(a, node);
  }

  lemma SummaryOfNothing(order: seq<Node>, minSize: int, maxChildren: int, path: string)
    requires |order| == 0
    ensures Summary(order, minSize, maxChildren, path) == []
  {
  }

  method SortDescending(nodes: seq<Node>) returns (order: seq<Node>)
    ensures multiset(order) == multiset(nodes) && Descending(order) && Total(order) == Total(nodes)
  {
    hide Total, Descending;
    order := [];
    assert Descending(order) && nodes[..0] == order by { NothingDescends(); }
    for n := 0 to |nodes|
      invariant multiset(order) == multiset(nodes[..n]) && Descending(order) && Total(order) == Total(nodes[..n])
    {
      order := Insert(order, nodes[n]);
      assert nodes[..n + 1] == nodes[..n] + [nodes[n]];
      TotalAppend(nodes[..n], nodes[n]);
    }
    assert nodes[..|nodes|] == nodes;
  }

  lemma NothingDescends()
    ensures Descending([])
  {
  }

  lemma {:induction false} BigCountIs(order: seq<Node>, minSize: int, k: nat)
    requires k <= |order| && (forall i :: 0 <= i < k ==> order[i].size >= minSize)
    requires k < |order| ==> order[k].size < minSize
    ensures BigCount(order, minSize) == k
  {
    if k > 0 {
      BigCountIs(order[1..], minSize, k - 1);
    }
  }

  /** Extending a slice by the node after it adds the node's size. */
  lemma SliceGrows(order: seq<Node>, i: nat, n: nat)
    requires i <= n < |order|
    ensures Total(order[i..n + 1]) == Total(order[i..n]) + order[n].size
  {
    hide Total;
    assert order[i..n + 1] == order[i..n] + [order[n]];
    TotalAppend(order[i..n], order[n]);
  }

  /** What the counters of the loop amount to. */
  lemma SummaryFromParts(order: seq<Node>, minSize: int, maxChildren: int, path: string, kept: nat, big: nat)
    requires kept <= big <= |order|
    requires forall i :: 0 <= i < big ==> order[i].size >= minSize
    requires forall i :: big <= i < |order| ==> order[i].size < minSize
    requires kept <= Max(0, maxChildren) && (kept < big ==> kept >= maxChildren)
    ensures var small := Ghost("* (small)", path, Total(order[big..|order|]));
            var others := Ghost("* (others)", path, Total(order[kept..big]));
            Summary(order, minSize, maxChildren, path) ==
            if big < |order| && kept < big then order[..kept] + [small] + [others]
            else if big < |order| then order[..kept] + [small]
            else if kept < big then order[..kept] + [others]
            else order[..kept]
  {
    hide Total, BigCount;
    BigCountIs(order, minSize, big);
    assert order[big..] == order[big..|order|];
  }

  lemma RestIsSmall(order: seq<Node>, n: nat, minSize: int)
    requires Descending(order) && n < |order| && order[n].size < minSize
    ensures forall i :: n <= i < |order| ==> order[i].size < minSize
  {
  }

  /** `order` is the order the sort left the children in; ties may fall either way. */
  method AggregateChildren(children: seq<Node>, minSize: int, maxChildren: int, parentPath: string)
    returns (result: seq<Node>, ghost order: seq<Node>)
    ensures multiset(order) == multiset(children) && Descending(order) && Total(order) == Total(children)
    ensures result == Summary(order, minSize, maxChildren, parentPath)
  {
    hide Total, BigCount, Summary, Descending;
    if |children| == 0 {
      NothingDescends();
      SummaryOfNothing(children, minSize, maxChildren, parentPath);
      return [], children;
    }
    var sorted := SortDescending(children);
    order := sorted;
    var kept: seq<Node> := [];
    var smallSum, extraSum := 0, 0;
    var smallCount: nat, extraCount: nat := 0, 0;
    EmptyTotal(sorted, 0);
    for n := 0 to |sorted|
      invariant n == |kept| + extraCount + smallCount
      invariant |kept| <= Max(0, maxChildren) && (|kept| < maxChildren ==> extraCount == 0)
      invariant kept == sorted[..|kept|]
      invariant forall i :: 0 <= i < n - smallCount ==> sorted[i].size >= minSize
      invariant forall i :: n - smallCount <= i < n ==> sorted[i].size < minSize
      invariant smallCount > 0 ==> forall i :: n <= i < |sorted| ==> sorted[i].size < minSize
      invariant extraSum == Total(sorted[|kept|..n - smallCount])
      invariant smallSum == Total(sorted[n - smallCount..n])
    {
      var child := sorted[n];
      EmptyTotal(sorted, n);
      EmptyTotal(sorted, n + 1);
      if child.size < minSize {
        SliceGrows(sorted, n - smallCount, n);
        RestIsSmall(sorted, n, minSize);
        smallSum := smallSum + child.size;
        smallCount := smallCount + 1;
      } else {
        if |kept| < maxChildren {
          assert n == |kept| && sorted[..n + 1] == sorted[..n] + [child];
          kept := kept + [child];
        } else {
          SliceGrows(sorted, |kept|, n);
          extraSum := extraSum + child.size;
          extraCount := extraCount + 1;
        }
      }
    }
    SummaryFromParts(sorted, minSize, maxChildren, parentPath, |kept|, |kept| + extraCount);
    result := kept;
    if smallCount > 0 {
      result := result + [Ghost("* (small)", parentPath, smallSum)];
    }
    if extraCount > 0 {
      result := result + [Ghost("* (others)", parentPath, extraSum)];
    }
  }

  lemma EmptyTotal(order: seq<Node>, i: nat)
    requires i <= |order|
    ensures Total(order[i..i]) == 0
  {
  }
}
