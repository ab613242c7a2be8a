/**
 The audit log as a table (master/core/audit.py): the verifier, what a
 successful verification proves, and the optimistic writers.  SHA-256's
 hexadecimal digest is an arbitrary function of text with one law.
 */
module AuditLog {
  import opened Common
  import opened AuditChain

  type Hash = string -> string

  /** The one law assumed of SHA-256's hexadecimal digest: it never holds the separator. */
  ghost predicate IsDigest(h: Hash) {
    forall s :: PipeFree(h(s))
  }

  // --- verification ---

  /** The hash a row's link should name; the first row of a partial view is taken at its word. */
  function ExpectedPrevious(rows: seq<Row>, i: nat): string
    requires i < |rows|
  {
    if i > 0 then rows[i - 1].entryHash
    else if rows[0].sequence == 1 then GENESIS_HASH
    else rows[0].previousHash
  }

  predicate LinkOk(h: Hash, rows: seq<Row>, i: nat)
    requires i < |rows|
  {
    rows[i].previousHash == ExpectedPrevious(rows, i) && rows[i].entryHash == h(RowRaw(rows[i]))
  }

  predicate ChainOk(h: Hash, rows: seq<Row>) {
    forall i :: 0 <= i < |rows| ==> LinkOk(h, rows, i)
  }

  datatype Report = Report(valid: bool, total: nat, firstBroken: Option<int>)

  /** A limit asks for the last `k` of `n` rows; a negative one, as in SQLite, or a missing one for all. */
  predicate AsksFor(maxEntries: Option<int>, n: nat, k: nat) {
    k <= n && (maxEntries == Some(k) || (k == n && (maxEntries.None? || maxEntries.value < 0 || maxEntries.value > n)))
  }

  /** The rows a query with `LIMIT` and descending order selects, put back in order. */
  function Selected(table: seq<Row>, maxEntries: Option<int>): (rows: seq<Row>)
    ensures forall k: nat :: AsksFor(maxEntries, |table|, k) ==> rows == table[|table| - k..]
    ensures AsksFor(maxEntries, |table|, |rows|)
  {
    if maxEntries.None? || maxEntries.value < 0 || maxEntries.value >= |table| then table
    else table[|table| - maxEntries.value..]
  }

  /** The row with this number hashes to what it says, and links to the one before it unless that is out of sight. */
  predicate RowOk(h: Hash, table: seq<Row>, from: nat, i: nat)
    requires from <= i < |table|
  {
    && table[i].entryHash == h(RowRaw(table[i]))
    && (i > from ==> table[i].previousHash == table[i - 1].entryHash)
    && (i == from && table[i].sequence == 1 ==> table[i].previousHash == GENESIS_HASH)
  }

  /** A verification of the rows from a place on looks at each of them and at no other. */
  lemma LastRowsDecide(h: Hash, table: seq<Row>, from: nat)
    requires from <= |table|
    ensures ChainOk(h, table[from..]) <==> forall i :: from <= i < |table| ==> RowOk(h, table, from, i)
  {
    hide RowRaw;
    var rows := table[from..];
    forall i: nat | i < |rows|
      ensures LinkOk(h, rows, i) <==> RowOk(h, table, from, from + i)
    {
      assert i > 0 ==> rows[i - 1] == table[from + i - 1];
    }
    if ChainOk(h, rows) {
      forall i | from <= i < |table| ensures RowOk(h, table, from, i) {
        assert LinkOk(h, rows, i - from);
      }
    }
  }

  /** The report names the first row from a place on that is wrong, and how many rows were looked at. */
  ghost predicate NamesFirstWrong(h: Hash, table: seq<Row>, from: nat, report: Report, i: nat) {
    && from <= i < |table| && !RowOk(h, table, from, i)
    && report.firstBroken == Some(table[i].sequence) && report.total == i - from + 1
    && forall j :: from <= j < i ==> RowOk(h, table, from, j)
  }

  lemma AskedFits(maxEntries: Option<int>, n: nat, k: nat)
    requires AsksFor(maxEntries, n, k)
    ensures k <= n
  {
  }

  lemma AsksForOne(maxEntries: Option<int>, n: nat, j: nat, k: nat)
    requires AsksFor(maxEntries, n, j) && AsksFor(maxEntries, n, k)
    ensures j == k
  {
  }

  /** The log is verified if each of the last rows asked for is right; otherwise the first wrong one is named. */
  method VerifyChain(h: Hash, table: seq<Row>, maxEntries: Option<int>) returns (report: Report)
    ensures forall k: nat :: AsksFor(maxEntries, |table|, k) ==>
              var from := |table| - k;
              && (report.valid <==> forall i :: from <= i < |table| ==> RowOk(h, table, from, i))
              && (report.valid ==> report.total == k && report.firstBroken == None)
              && (!report.valid ==> exists i: nat :: NamesFirstWrong(h, table, from, report, i))
  {
    hide RowOk, LinkOk, ChainOk, AsksFor, NamesFirstWrong, StopsAt, Selected;
    var rows := Selected(table, maxEntries);
    report := VerifyRows(h, rows);
    forall k: nat | AsksFor(maxEntries, |table|, k) ensures k == |rows| {
      AsksForOne(maxEntries, |table|, k, |rows|);
    }
    AskedFits(maxEntries, |table|, |rows|);
    ghost var from := |table| - |rows|;
    LastRowsDecide(h, table, from);
    if !report.valid {
      FirstBrokenRow(h, table, from, report);
    }
  }

  /** The row that the check of a selection stops at. */
  ghost predicate StopsAt(h: Hash, rows: seq<Row>, report: Report, i: nat) {
    && i < |rows| && !LinkOk(h, rows, i) && report.firstBroken == Some(rows[i].sequence) && report.total == i + 1
    && forall j: nat :: j < i ==> LinkOk(h, rows, j)
  }

  lemma FirstBrokenRow(h: Hash, table: seq<Row>, from: nat, report: Report)
    requires from <= |table| && exists i: nat :: StopsAt(h, table[from..], report, i)
    ensures exists i: nat :: NamesFirstWrong(h, table, from, report, i)
  {
    hide RowRaw;
    var rows := table[from..];
    var i: nat :| StopsAt(h, rows, report, i);
    assert i > 0 ==> rows[i - 1] == table[from + i - 1];
    assert !RowOk(h, table, from, from + i);
    forall j | from <= j < from + i ensures RowOk(h, table, from, j) {
      assert LinkOk(h, rows, j - from);
      assert j > from ==> rows[j - from - 1] == table[j - 1];
    }
    assert NamesFirstWrong(h, table, from, report, from + i);
  }

  /** The loop of the verifier over the rows selected. */
  method VerifyRows(h: Hash, rows: seq<Row>) returns (report: Report)
    ensures report.valid <==> ChainOk(h, rows)
    ensures report.valid ==> report.total == |rows| && report.firstBroken == None
    ensures !report.valid ==> exists i: nat :: StopsAt(h, rows, report, i)
  {
    report := Report(true, 0, None);
    if rows == [] { return; }
    var expectedPreviousHash := if rows[0].sequence == 1 then GENESIS_HASH else rows[0].previousHash;
    var count := 0;
    while count < |rows|
      invariant 0 <= count <= |rows| && report == Report(true, 0, None)
      invariant count < |rows| ==> expectedPreviousHash == ExpectedPrevious(rows, count)
      invariant forall j: nat :: j < count ==> LinkOk(h, rows, j)
    {
      var row := rows[count];
      count := count + 1;
      if row.previousHash != expectedPreviousHash || h(RowRaw(row)) != row.entryHash {
        report := Report(false, count, Some(row.sequence));
        assert StopsAt(h, rows, report, count - 1);
        return;
      }
      expectedPreviousHash := row.entryHash;
    }
    report := report.(total := count);
  }

  // --- what a valid chain proves ---

  predicate Collision(h: Hash, x: string, y: string) {
    x != y && h(x) == h(y)
  }

  /** Two rows of the logs exhibit a collision of the hash function. */
  predicate RowsCollide(h: Hash, a: seq<Row>, b: seq<Row>) {
    exists i, j :: 0 <= i < |a| && 0 <= j < |b| && Collision(h, RowRaw(a[i]), RowRaw(b[j]))
  }

  /** A row hashes to the sentinel that stands before the first entry. */
  predicate HashesToGenesis(h: Hash, rows: seq<Row>) {
    exists i :: 0 <= i < |rows| && h(RowRaw(rows[i])) == GENESIS_HASH
  }

  predicate FullChain(h: Hash, rows: seq<Row>) {
    rows != [] && rows[0].sequence == 1 && ChainOk(h, rows)
  }

  predicate AllSeparatorFree(rows: seq<Row>) {
    forall i :: 0 <= i < |rows| ==> SeparatorFree(rows[i].entry)
  }

  predicate AllWhole(rows: seq<Row>) {
    forall i :: 0 <= i < |rows| ==> Whole(rows[i].entry)
  }

  /** No shift of fields can pass a row of one log for a row of the other. */
  predicate LogsApart(a: seq<Row>, b: seq<Row>) {
    AllWhole(a) || (AllSeparatorFree(a) && AllSeparatorFree(b))
  }

  predicate SameLog(a: seq<Row>, b: seq<Row>) {
    |a| == |b| && forall i :: 0 <= i < |a| ==> SameHashedContent(a[i], b[i]) && a[i].entryHash == b[i].entryHash
  }

  lemma ChainPrefix(h: Hash, rows: seq<Row>)
    requires FullChain(h, rows) && |rows| > 1
    ensures FullChain(h, rows[..|rows| - 1])
  {
    var p := rows[..|rows| - 1];
    forall i: nat | i < |p|
      ensures LinkOk(h, p, i)
    {
      assert LinkOk(h, rows, i);
    }
  }

  lemma LastLinks(h: Hash, rows: seq<Row>)
    requires IsDigest(h) && FullChain(h, rows)
    ensures var n := |rows| - 1;
            && PipeFree(rows[n].previousHash) && rows[n].entryHash == h(RowRaw(rows[n]))
            && rows[n].previousHash == if n == 0 then GENESIS_HASH else h(RowRaw(rows[n - 1]))
  {
    var n := |rows| - 1;
    assert LinkOk(h, rows, n);
    if n > 0 {
      assert LinkOk(h, rows, n - 1);
    }
  }

  lemma PrefixesApart(a: seq<Row>, b: seq<Row>)
    requires LogsApart(a, b) && |a| > 0 && |b| > 0
    ensures LogsApart(a[..|a| - 1], b[..|b| - 1])
  {
    hide Whole, SeparatorFree;
  }

  lemma LastRowsApart(a: seq<Row>, b: seq<Row>)
    requires LogsApart(a, b) && |a| > 0 && |b| > 0
    requires PipeFree(a[|a| - 1].previousHash) && PipeFree(b[|b| - 1].previousHash)
    ensures Apart(a[|a| - 1], b[|b| - 1])
  {
    hide Whole, SeparatorFree;
  }

  lemma DifferentTextsCollide(h: Hash, a: seq<Row>, b: seq<Row>, i: nat, j: nat)
    requires i < |a| && j < |b| && RowRaw(a[i]) != RowRaw(b[j]) && h(RowRaw(a[i])) == h(RowRaw(b[j]))
    ensures RowsCollide(h, a, b)
  {
    hide RowRaw;
    assert Collision(h, RowRaw(a[i]), RowRaw(b[j]));
  }

  lemma SameSingleRows(a: seq<Row>, b: seq<Row>)
    requires |a| == |b| == 1 && SameHashedContent(a[0], b[0]) && a[0].entryHash == b[0].entryHash
    ensures SameLog(a, b)
  {
  }

  /**
   The last hash fixes the whole log: if the rows of a complete log that
   verifies hold no separator, every complete log that verifies and ends in the
   same hash, whatever it holds, agrees with it in every hashed field of every
   row, or they exhibit a collision, or a row that hashes to the genesis
   sentinel.  Details may hold the separator if it is kept out of the fields
   before them in both logs.
   */
  lemma {:induction false} LastHashFixesTheLog(h: Hash, a: seq<Row>, b: seq<Row>)
    requires IsDigest(h) && FullChain(h, a) && FullChain(h, b) && LogsApart(a, b)
    requires a[|a| - 1].entryHash == b[|b| - 1].entryHash
    ensures SameLog(a, b) || RowsCollide(h, a, b) || HashesToGenesis(h, a) || HashesToGenesis(h, b)
    decreases |a|
  {
    hide RowRaw, SameHashedContent, LinkOk, ChainOk, LogsApart, Apart, PipeFree, IsDigest, Collision, SameLog;
    var m, n := |a| - 1, |b| - 1;
    LastLinks(h, a);
    LastLinks(h, b);
    if RowRaw(a[m]) != RowRaw(b[n]) {
      DifferentTextsCollide(h, a, b, m, n);
    } else {
      LastRowsApart(a, b);
      RawInjective(a[m], b[n]);
      SamePrevious(a[m], b[n]);
      if m > 0 && n > 0 {
        ChainPrefix(h, a);
        ChainPrefix(h, b);
        LastLinks(h, a[..m]);
        LastLinks(h, b[..n]);
        PrefixesApart(a, b);
        LastHashFixesTheLog(h, a[..m], b[..n]);
        FromPrefixes(h, a, b);
      } else if n > 0 {
        assert h(RowRaw(b[n - 1])) == GENESIS_HASH;
      } else if m > 0 {
        assert h(RowRaw(a[m - 1])) == GENESIS_HASH;
      } else {
        SameSingleRows(a, b);
      }
    }
  }

  /** A row that holds a separator can be passed for another one: all texts, hashes and links stay. */
  lemma ForgeRow(h: Hash, a: seq<Row>, i: nat) returns (b: seq<Row>)
    requires FullChain(h, a) && i < |a| && !Whole(a[i].entry)
    ensures FullChain(h, b) && |b| == |a| && b[|b| - 1].entryHash == a[|a| - 1].entryHash
    ensures forall j :: 0 <= j < |a| ==> RowRaw(b[j]) == RowRaw(a[j])
    ensures !SameLog(a, b)
  {
    hide Raw, Whole;
    var d := ShiftFields(a[i].entry);
    TailDecidesRaw(a[i].previousHash, a[i].sequence, d, a[i].entry);
    b := a[i := a[i].(entry := d)];
    forall j: nat | j < |b|
      ensures LinkOk(h, b, j)
    {
      assert LinkOk(h, a, j);
    }
    assert !SameHashedContent(a[i], b[i]);
  }

  /** Every complete log that verifies and ends like this one is this one, or gives the hash function away. */
  ghost predicate LastHashFixes(h: Hash, a: seq<Row>)
    requires a != []
  {
    forall b: seq<Row> :: FullChain(h, b) && b[|b| - 1].entryHash == a[|a| - 1].entryHash ==>
      SameLog(a, b) || RowsCollide(h, a, b) || HashesToGenesis(h, a) || HashesToGenesis(h, b)
  }

  /** That holds of a log exactly when none of its fields holds the separator. */
  lemma LastHashFixesExactlyWholeLogs(h: Hash, a: seq<Row>)
    requires IsDigest(h) && FullChain(h, a) && !RowsCollide(h, a, a) && !HashesToGenesis(h, a)
    ensures LastHashFixes(h, a) <==> AllWhole(a)
  {
    hide RowRaw, SameLog, ChainOk, Whole, IsDigest, Collision;
    if AllWhole(a) {
      forall b: seq<Row> | FullChain(h, b) && b[|b| - 1].entryHash == a[|a| - 1].entryHash
        ensures SameLog(a, b) || RowsCollide(h, a, b) || HashesToGenesis(h, a) || HashesToGenesis(h, b)
      {
        LastHashFixesTheLog(h, a, b);
      }
    } else {
      var i: nat :| i < |a| && !Whole(a[i].entry);
      var b := ForgeRow(h, a, i);
      SameTextsCollideAlike(h, a, b);
      assert !(SameLog(a, b) || RowsCollide(h, a, b) || HashesToGenesis(h, a) || HashesToGenesis(h, b));
    }
  }

  lemma SameTextsCollideAlike(h: Hash, a: seq<Row>, b: seq<Row>)
    requires |a| == |b| && forall j :: 0 <= j < |a| ==> RowRaw(b[j]) == RowRaw(a[j])
    requires !RowsCollide(h, a, a) && !HashesToGenesis(h, a)
    ensures !RowsCollide(h, a, b) && !HashesToGenesis(h, b)
  {
    hide RowRaw, Collision;
    forall i, j | 0 <= i < |a| && 0 <= j < |b|
      ensures !Collision(h, RowRaw(a[i]), RowRaw(b[j]))
    {
      assert !Collision(h, RowRaw(a[i]), RowRaw(a[j]));
    }
  }

  lemma SamePrevious(a: Row, b: Row)
    requires SameHashedContent(a, b)
    ensures a.previousHash == b.previousHash
  {
  }

  lemma FromPrefixes(h: Hash, a: seq<Row>, b: seq<Row>)
    requires |a| > 1 && |b| > 1
    requires var p, q := a[..|a| - 1], b[..|b| - 1];
             SameLog(p, q) || RowsCollide(h, p, q) || HashesToGenesis(h, p) || HashesToGenesis(h, q)
    requires SameHashedContent(a[|a| - 1], b[|b| - 1]) && a[|a| - 1].entryHash == b[|b| - 1].entryHash
    ensures SameLog(a, b) || RowsCollide(h, a, b) || HashesToGenesis(h, a) || HashesToGenesis(h, b)
  {
    hide SameHashedContent, Collision, RowRaw;
    var p, q := a[..|a| - 1], b[..|b| - 1];
    if SameLog(p, q) {
      forall i | 0 <= i < |a|
        ensures SameHashedContent(a[i], b[i]) && a[i].entryHash == b[i].entryHash
      {
        assert i < |p| ==> SameHashedContent(p[i], q[i]);
      }
    } else if RowsCollide(h, p, q) {
      var i, j :| 0 <= i < |p| && 0 <= j < |q| && Collision(h, RowRaw(p[i]), RowRaw(q[j]));
      assert a[i] == p[i] && b[j] == q[j];
    } else if HashesToGenesis(h, p) {
      var i :| 0 <= i < |p| && h(RowRaw(p[i])) == GENESIS_HASH;
      assert a[i] == p[i];
    } else {
      var i :| 0 <= i < |q| && h(RowRaw(q[i])) == GENESIS_HASH;
      assert b[i] == q[i];
    }
  }

  // --- the writers ---

  /** For every hash function: two different logs of one entry each that verify and end in the same hash. */
  lemma ShiftedDetailsVerify(h: Hash, t: real)
    ensures var genuine := Entry(t, "A", "B", Some("C"), "D|E");
            var a := [NewRow(h, "", GENESIS_HASH, 1, genuine)];
            var b := [NewRow(h, "", GENESIS_HASH, 1, Entry(t, "A|B", "C", Some("D"), "E"))];
            && SeparatorFree(genuine)
            && FullChain(h, a) && FullChain(h, b) && a[0].entryHash == b[0].entryHash
            && !SameLog(a, b) && !RowsCollide(h, a, b)
  {
    hide Raw;
    DetailsCanShift(GENESIS_HASH, 1, t);
  }

  /** A table as the writers build it: sequences 1, 2, 3, … and every link right. */
  predicate WellLinked(h: Hash, rows: seq<Row>) {
    (forall i :: 0 <= i < |rows| ==> rows[i].sequence == i + 1) && ChainOk(h, rows)
  }

  /** What a writer reads off the table before it computes its row. */
  function HeadSequence(rows: seq<Row>): int {
    if rows == [] then 0 else rows[|rows| - 1].sequence
  }

  function HeadHash(rows: seq<Row>): string {
    if rows == [] then GENESIS_HASH else rows[|rows| - 1].entryHash
  }

  function NewRow(h: Hash, id: string, previousHash: string, sequence: int, e: Entry): Row {
    Row(id, sequence, e, previousHash, h(Raw(previousHash, sequence, e)))
  }

  predicate SequenceTaken(rows: seq<Row>, sequence: int) {
    exists i :: 0 <= i < |rows| && rows[i].sequence == sequence
  }

  predicate HashTaken(rows: seq<Row>, hash: string) {
    exists i :: 0 <= i < |rows| && rows[i].entryHash == hash
  }

  /** A writer before its next head read, holding a head it has read, or done. */
  datatype Writer =
    | Reading(id: string, entry: Entry, attempt: nat)
    | Holding(id: string, entry: Entry, attempt: nat, previousHash: string, sequence: int)
    | Logged(id: string, entry: Entry)
    | Refused(id: string, entry: Entry)

  datatype Table = Table(rows: seq<Row>, writers: seq<Writer>)

  datatype Step = Start(id: string, entry: Entry) | ReadHead(w: nat) | Insert(w: nat)

  /** One atomic step of one writer; writers may be in different processes. */
  function Next(h: Hash, t: Table, s: Step): Table {
    match s
    case Start(id, entry) => t.(writers := t.writers + [Reading(id, entry, 0)])
    case ReadHead(w) =>
      if w < |t.writers| && t.writers[w].Reading? then
        var x := t.writers[w];
        t.(writers := t.writers[w := Holding(x.id, x.entry, x.attempt, HeadHash(t.rows), HeadSequence(t.rows) + 1)])
      else t
    case Insert(w) =>
      if w < |t.writers| && t.writers[w].Holding? then
        var x := t.writers[w];
        var row := NewRow(h, x.id, x.previousHash, x.sequence, x.entry);
        if SequenceTaken(t.rows, row.sequence) then
          t.(writers := t.writers[w := if x.attempt < MAX_ATTEMPTS - 1 then Reading(x.id, x.entry, x.attempt + 1)
                                       else Refused(x.id, x.entry)])
        else if HashTaken(t.rows, row.entryHash) then t.(writers := t.writers[w := Refused(x.id, x.entry)])
        else Table(t.rows + [row], t.writers[w := Logged(x.id, x.entry)])
      else t
  }

  function Run(h: Hash, t: Table, steps: seq<Step>): Table
    decreases |steps|
  {
    if steps == [] then t else Run(h, Next(h, t, steps[0]), steps[1..])
  }

  /** A held head is the current one, or its next sequence is already taken. */
  predicate HoldsPossibleHead(rows: seq<Row>, w: Writer) {
    w.Holding? ==>
      1 <= w.sequence <= |rows| + 1 && (w.sequence == |rows| + 1 ==> w.previousHash == HeadHash(rows))
  }

  predicate TableOk(h: Hash, t: Table) {
    WellLinked(h, t.rows) && forall w :: 0 <= w < |t.writers| ==> HoldsPossibleHead(t.rows, t.writers[w])
  }

  lemma AppendKeepsLinks(h: Hash, rows: seq<Row>, id: string, e: Entry)
    requires WellLinked(h, rows)
    ensures WellLinked(h, rows + [NewRow(h, id, HeadHash(rows), |rows| + 1, e)])
  {
    var longer := rows + [NewRow(h, id, HeadHash(rows), |rows| + 1, e)];
    forall i: nat | i < |longer|
      ensures LinkOk(h, longer, i)
    {
      if i < |rows| {
        assert LinkOk(h, rows, i);
      }
    }
  }

  lemma NextKeepsTable(h: Hash, t: Table, s: Step)
    requires TableOk(h, t)
    ensures TableOk(h, Next(h, t, s)) && t.rows <= Next(h, t, s).rows
  {
    hide ChainOk, Raw, HashTaken;
    if s.Insert? && s.w < |t.writers| && t.writers[s.w].Holding? {
      var x := t.writers[s.w];
      assert HoldsPossibleHead(t.rows, x);
      if x.sequence <= |t.rows| {
        assert t.rows[x.sequence - 1].sequence == x.sequence;
      } else {
        AppendKeepsLinks(h, t.rows, x.id, x.entry);
      }
    }
  }

  lemma {:induction false} RunKeepsTable(h: Hash, t: Table, steps: seq<Step>)
    requires TableOk(h, t)
    ensures TableOk(h, Run(h, t, steps)) && t.rows <= Run(h, t, steps).rows
    decreases |steps|
  {
    if steps != [] {
      NextKeepsTable(h, t, steps[0]);
      RunKeepsTable(h, Next(h, t, steps[0]), steps[1..]);
    }
  }

  /** The last rows of such a table verify, however many are asked for. */
  lemma SelectionVerifies(h: Hash, rows: seq<Row>, k: nat)
    requires WellLinked(h, rows) && k <= |rows|
    ensures ChainOk(h, rows[|rows| - k..])
  {
    var skip := |rows| - k;
    var part := rows[skip..];
    forall i: nat | i < |part|
      ensures LinkOk(h, part, i)
    {
      assert part[i] == rows[skip + i] && LinkOk(h, rows, skip + i);
    }
  }

  /**
   Under every interleaving of any number of writers the log only grows, its
   sequences are 1..n, and it verifies in full and for every number of last entries.
   */
  lemma EveryInterleavingVerifies(h: Hash, steps: seq<Step>, more: seq<Step>, k: nat)
    ensures var t := Run(h, Table([], []), steps);
            && (forall i :: 0 <= i < |t.rows| ==> t.rows[i].sequence == i + 1)
            && t.rows <= Run(h, t, more).rows
            && (k <= |t.rows| ==> ChainOk(h, t.rows[|t.rows| - k..]))
  {
    var t := Run(h, Table([], []), steps);
    RunKeepsTable(h, Table([], []), steps);
    RunKeepsTable(h, t, more);
    if k <= |t.rows| {
      SelectionVerifies(h, t.rows, k);
    }
  }

  // --- nothing is lost, nothing written twice ---

  predicate Holds(row: Row, id: string, e: Entry) {
    row.id == id && row.entry == e
  }

  /** How many rows hold an entry under an identifier. */
  function RowsWith(rows: seq<Row>, id: string, e: Entry): nat {
    Count(rows, row => Holds(row, id, e))
  }

  /** How many writers were told that they have logged it. */
  function LoggedWith(writers: seq<Writer>, id: string, e: Entry): nat {
    Count(writers, w => w == Logged(id, e))
  }

  /** The writers keep what they came with, and one more row is one more writer done. */
  lemma NextConserves(h: Hash, t: Table, s: Step, id: string, e: Entry)
    requires RowsWith(t.rows, id, e) == LoggedWith(t.writers, id, e)
    ensures var n := Next(h, t, s);
            && RowsWith(n.rows, id, e) == LoggedWith(n.writers, id, e)
            && |n.writers| >= |t.writers|
            && forall w :: 0 <= w < |t.writers| ==>
                 n.writers[w].id == t.writers[w].id && n.writers[w].entry == t.writers[w].entry
  {
    hide Count, SequenceTaken, HashTaken, HeadHash, HeadSequence;
    var logged := (w: Writer) => w == Logged(id, e);
    var n := Next(h, t, s);
    match s {
      case Start(_, _) => CountAppend(t.writers, n.writers[|t.writers|], logged);
      case ReadHead(w) =>
        if w < |t.writers| {
          CountUpdate(t.writers, w, n.writers[w], logged);
          assert n.writers == t.writers[w := n.writers[w]];
        }
      case Insert(w) =>
        if w < |t.writers| {
          CountUpdate(t.writers, w, n.writers[w], logged);
          assert n.writers == t.writers[w := n.writers[w]];
          if n.rows != t.rows {
            CountAppend(t.rows, n.rows[|t.rows|], row => Holds(row, id, e));
          }
        }
    }
  }

  /**
   Under every interleaving the log holds each entry exactly as often as writers
   were told that they have logged it; writers that wait or are refused left nothing.
   */
  lemma {:induction false} EveryEntryIsLoggedOnce(h: Hash, t: Table, steps: seq<Step>, id: string, e: Entry)
    requires RowsWith(t.rows, id, e) == LoggedWith(t.writers, id, e)
    ensures var n := Run(h, t, steps);
            && RowsWith(n.rows, id, e) == LoggedWith(n.writers, id, e)
            && |n.writers| >= |t.writers|
            && forall w :: 0 <= w < |t.writers| ==>
                 n.writers[w].id == t.writers[w].id && n.writers[w].entry == t.writers[w].entry
    decreases |steps|
  {
    hide Next, RowsWith, LoggedWith;
    if steps != [] {
      NextConserves(h, t, steps[0], id, e);
      EveryEntryIsLoggedOnce(h, Next(h, t, steps[0]), steps[1..], id, e);
    }
  }

  // --- five attempts ---

  predicate Trying(w: Writer) {
    w.Reading? || w.Holding?
  }

  /** The step is this writer's insert, and another row has its sequence. */
  predicate Loses(t: Table, s: Step, w: nat) {
    s == Insert(w) && w < |t.writers| && t.writers[w].Holding? && SequenceTaken(t.rows, t.writers[w].sequence)
  }

  /** How many of the writer's inserts lose. */
  function Losses(h: Hash, t: Table, steps: seq<Step>, w: nat): nat
    decreases |steps|
  {
    if steps == [] then 0
    else (if Loses(t, steps[0], w) then 1 else 0) + Losses(h, Next(h, t, steps[0]), steps[1..], w)
  }

  /** The step is this writer's insert, and another row has its hash. */
  predicate Clashes(h: Hash, t: Table, s: Step, w: nat) {
    && s == Insert(w) && w < |t.writers| && t.writers[w].Holding?
    && var x := t.writers[w]; HashTaken(t.rows, h(Raw(x.previousHash, x.sequence, x.entry)))
  }

  /** No insert of the writer is refused for its hash. */
  predicate NoClash(h: Hash, t: Table, steps: seq<Step>, w: nat)
    decreases |steps|
  {
    steps == [] || (!Clashes(h, t, steps[0], w) && NoClash(h, Next(h, t, steps[0]), steps[1..], w))
  }

  lemma DoneStaysDone(h: Hash, t: Table, s: Step, w: nat)
    requires w < |t.writers| && !Trying(t.writers[w])
    ensures w < |Next(h, t, s).writers| && Next(h, t, s).writers[w] == t.writers[w] && !Loses(t, s, w)
  {
    hide SequenceTaken, HashTaken, NewRow;
  }

  lemma {:induction false} DoneForGood(h: Hash, t: Table, steps: seq<Step>, w: nat)
    requires w < |t.writers| && !Trying(t.writers[w])
    ensures w < |Run(h, t, steps).writers| && Run(h, t, steps).writers[w] == t.writers[w]
    ensures Losses(h, t, steps, w) == 0
    decreases |steps|
  {
    hide Next, Loses, Trying;
    if steps != [] {
      DoneStaysDone(h, t, steps[0], w);
      DoneForGood(h, Next(h, t, steps[0]), steps[1..], w);
    }
  }

  lemma NextTry(h: Hash, t: Table, s: Step, w: nat)
    requires w < |t.writers| && Trying(t.writers[w]) && t.writers[w].attempt < MAX_ATTEMPTS && !Clashes(h, t, s, w)
    ensures w < |Next(h, t, s).writers|
    ensures var x, y := t.writers[w], Next(h, t, s).writers[w];
            if Trying(y) then y.attempt == x.attempt + (if Loses(t, s, w) then 1 else 0) < MAX_ATTEMPTS
            else if y.Refused? then Loses(t, s, w) && x.attempt + 1 == MAX_ATTEMPTS
            else !Loses(t, s, w)
  {
    hide SequenceTaken, HashTaken, Raw;
  }

  /**
   In every run: a writer that is still trying has lost as many inserts as it has
   made attempts; one that is refused has lost five; one that has logged, fewer.
   */
  lemma {:induction false} AttemptsAreLosses(h: Hash, t: Table, steps: seq<Step>, w: nat)
    requires w < |t.writers| && Trying(t.writers[w]) && t.writers[w].attempt < MAX_ATTEMPTS
    requires NoClash(h, t, steps, w)
    ensures w < |Run(h, t, steps).writers|
    ensures var y, tries := Run(h, t, steps).writers[w], t.writers[w].attempt + Losses(h, t, steps, w);
            if Trying(y) then y.attempt == tries
            else if y.Refused? then tries == MAX_ATTEMPTS
            else tries < MAX_ATTEMPTS
    decreases |steps|
  {
    hide Next, Loses, Clashes;
    if steps != [] {
      NextTry(h, t, steps[0], w);
      var n := Next(h, t, steps[0]);
      if Trying(n.writers[w]) {
        AttemptsAreLosses(h, n, steps[1..], w);
      } else {
        DoneForGood(h, n, steps[1..], w);
      }
    }
  }

  // --- one call ---

  datatype Tried = Done | Taken | Clash

  datatype Outcome = Written(attempt: nat) | SequenceConflict | HashConflict(attempt: nat)

  /** What a log says, row by row. */
  function Contents(rows: seq<Row>): seq<(string, Entry)> {
    Map(rows, (row: Row) => (row.id, row.entry))
  }

  lemma ContentsSnoc(rows: seq<Row>, row: Row)
    ensures Contents(rows + [row]) == Contents(rows) + [(row.id, row.entry)]
  {
  }

  /** What the others insert during the first attempts. */
  function Inserted(others: nat -> seq<(string, Entry)>, attempts: nat): seq<(string, Entry)> {
    if attempts == 0 then [] else Inserted(others, attempts - 1) + others(attempts - 1)
  }

  lemma InsertedNext(others: nat -> seq<(string, Entry)>, n: nat)
    ensures n == 0 ==> Inserted(others, n) == []
    ensures Inserted(others, n + 1) == Inserted(others, n) + others(n)
  {
  }

  function Attempts(o: Outcome): nat {
    match o
    case Written(k) => k + 1
    case SequenceConflict => MAX_ATTEMPTS
    case HashConflict(k) => k + 1
  }

  /** The table as one writer's `log_action` sees it. */
  class Log {
    const h: Hash
    var rows: seq<Row>

    constructor (h: Hash)
      ensures this.h == h && rows == []
    {
      this.h, rows := h, [];
    }

    /** Other writers complete appends of their own. */
    method AppendByOthers(entries: seq<(string, Entry)>)
      requires WellLinked(h, rows)
      modifies this
      ensures WellLinked(h, rows) && old(rows) <= rows && |rows| == |old(rows)| + |entries|
      ensures Contents(rows) == Contents(old(rows)) + entries
    {
      hide WellLinked, HeadHash, Contents, Raw;
      for k := 0 to |entries|
        invariant WellLinked(h, rows) && old(rows) <= rows && |rows| == |old(rows)| + k
        invariant Contents(rows) == Contents(old(rows)) + entries[..k]
      {
        AppendKeepsLinks(h, rows, entries[k].0, entries[k].1);
        ContentsSnoc(rows, NewRow(h, entries[k].0, HeadHash(rows), |rows| + 1, entries[k].1));
        assert entries[..k + 1] == entries[..k] + [entries[k]];
        rows := rows + [NewRow(h, entries[k].0, HeadHash(rows), |rows| + 1, entries[k].1)];
      }
    }

    /** One attempt: the head is read, others get in between, the row is inserted or refused. */
    method Attempt(id: string, e: Entry, others: seq<(string, Entry)>) returns (tried: Tried)
      requires WellLinked(h, rows)
      modifies this
      ensures WellLinked(h, rows) && old(rows) <= rows
      ensures tried == Taken <==> others != []
      ensures Contents(rows) == Contents(old(rows)) + others + if tried == Done then [(id, e)] else []
      ensures tried == Done ==> |rows| > |old(rows)| && rows[|rows| - 1].id == id && rows[|rows| - 1].entry == e
      ensures tried == Clash && IsDigest(h) ==>
                exists i :: 0 <= i < |rows| && Collision(h, RowRaw(rows[i]), Raw(HeadHash(rows), |rows| + 1, e))
    {
      hide WellLinked, SequenceTaken, HashTaken, Collision, Raw, RowRaw, IsDigest, Contents;
      var previousHash, sequence := HeadHash(rows), HeadSequence(rows) + 1;
      var row := NewRow(h, id, previousHash, sequence, e);
      ghost var before := rows;
      HeadIsLength(h, rows);
      AppendByOthers(others);
      TakenIfGrown(h, rows, |before|);
      assert |rows| == |before| ==> rows == before;
      assert Contents(before) + [] == Contents(before);
      if SequenceTaken(rows, sequence) {
        return Taken;
      }
      if HashTaken(rows, row.entryHash) {
        if IsDigest(h) {
          HashConflictCollides(h, rows, e);
        }
        return Clash;
      }
      AppendKeepsLinks(h, rows, id, e);
      ContentsSnoc(rows, row);
      rows := rows + [row];
      return Done;
    }

    /**
     log_action: five attempts, `others(k)` being what other writers insert
     between the head read and the insert of attempt `k`.  The entry ends up as
     the last row at the first attempt nobody gets in between; it is refused for
     its sequence exactly when every attempt is lost, and for its hash only when
     that exhibits a collision.  A refused entry is not in the log.
     */
    method LogAction(id: string, e: Entry, others: nat -> seq<(string, Entry)>) returns (outcome: Outcome)
      requires WellLinked(h, rows)
      modifies this
      ensures WellLinked(h, rows) && old(rows) <= rows
      ensures outcome.SequenceConflict? <==> forall k: nat :: k < MAX_ATTEMPTS ==> others(k) != []
      ensures outcome.Written? ==>
                && others(outcome.attempt) == [] && (forall k: nat :: k < outcome.attempt ==> others(k) != [])
                && |rows| > |old(rows)| && rows[|rows| - 1].id == id && rows[|rows| - 1].entry == e
      ensures Contents(rows) == Contents(old(rows)) + Inserted(others, Attempts(outcome)) +
                                if outcome.Written? then [(id, e)] else []
      ensures outcome.HashConflict? && IsDigest(h) ==>
                exists i :: 0 <= i < |rows| &&
                  Collision(h, RowRaw(rows[i]), Raw(HeadHash(rows), |rows| + 1, e))
    {
      hide WellLinked, Collision, Raw, IsDigest, Contents, HeadHash, Inserted;
      InsertedNext(others, 0);
      assert Contents(rows) + [] == Contents(rows);
      var attempt: nat := 0;
      while attempt < MAX_ATTEMPTS
        invariant attempt <= MAX_ATTEMPTS && WellLinked(h, rows) && old(rows) <= rows
        invariant forall k: nat :: k < attempt ==> others(k) != []
        invariant Contents(rows) == Contents(old(rows)) + Inserted(others, attempt)
      {
        ghost var before := Contents(old(rows));
        InsertedNext(others, attempt);
        var tried := Attempt(id, e, others(attempt));
        Concat3(before, Inserted(others, attempt), others(attempt));
        match tried {
          case Done =>
            return Written(attempt);
          case Taken =>
            attempt := attempt + 1;
          case Clash =>
            return HashConflict(attempt);
        }
      }
      outcome := SequenceConflict;
    }
  }

  lemma HeadIsLength(h: Hash, rows: seq<Row>)
    requires WellLinked(h, rows)
    ensures HeadSequence(rows) == |rows|
  {
    hide ChainOk;
  }

  /** The next sequence is taken exactly when the log has grown. */
  lemma TakenIfGrown(h: Hash, rows: seq<Row>, before: nat)
    requires WellLinked(h, rows) && before <= |rows|
    ensures SequenceTaken(rows, before + 1) <==> |rows| > before
  {
    hide ChainOk;
    if |rows| > before {
      assert rows[before].sequence == before + 1;
    }
  }

  /** Two rows of a log never hash the same text, so an equal hash is a collision. */
  lemma HashConflictCollides(h: Hash, rows: seq<Row>, e: Entry)
    requires IsDigest(h) && WellLinked(h, rows) && HashTaken(rows, h(Raw(HeadHash(rows), |rows| + 1, e)))
    ensures exists i :: 0 <= i < |rows| && Collision(h, RowRaw(rows[i]), Raw(HeadHash(rows), |rows| + 1, e))
  {
    var text := Raw(HeadHash(rows), |rows| + 1, e);
    var i :| 0 <= i < |rows| && rows[i].entryHash == h(text);
    assert LinkOk(h, rows, i) && LinkOk(h, rows, |rows| - 1);
    if RowRaw(rows[i]) == text {
      assert i > 0 ==> LinkOk(h, rows, i - 1);
      RawFixesSequence(rows[i].previousHash, rows[i].sequence, rows[i].entry, HeadHash(rows), |rows| + 1, e);
      assert false;
    }
  }
}
