/**
 The alerts in memory and in the `alerts` table (master/core/alert_engine.py,
 master/api/admin.py), and how each operation keeps the two in step.
 */
module AlertStore {
  import opened Common
  import opened Thresholds

  datatype Key = Key(node: string, alert: string)

  datatype Active = Active(id: string, severity: Severity, createdAt: real)

  datatype AlertRow = AlertRow(key: Key, severity: Severity, firing: bool, createdAt: real, resolvedAt: Option<real>)

  datatype Store = Store(active: map<Key, Active>, rows: map<string, AlertRow>)

  /** Every firing row has its memory record, with the same id, severity and time. */
  predicate Recorded(s: Store) {
    forall id :: id in s.rows && s.rows[id].firing ==> RowRecorded(s, id)
  }

  predicate RowRecorded(s: Store, id: string)
    requires id in s.rows
  {
    var r := s.rows[id];
    r.key in s.active && s.active[r.key] == Active(id, r.severity, r.createdAt)
  }

  /** Every memory record has its firing row. */
  predicate Backed(s: Store) {
    forall k :: k in s.active ==> s.active[k].id in s.rows && RowBacks(s.rows[s.active[k].id], k, s.active[k])
  }

  predicate RowBacks(r: AlertRow, k: Key, a: Active) {
    r.firing && r.key == k && r.severity == a.severity && r.createdAt == a.createdAt
  }

  predicate OneToOne(s: Store) {
    Recorded(s) && Backed(s)
  }

  // --- the operations ---

  /** A successful insert of a new firing alert. */
  function Insert(s: Store, k: Key, severity: Severity, id: string, now: real): Store {
    Store(s.active[k := Active(id, severity, now)], s.rows[id := AlertRow(k, severity, true, now, None)])
  }

  function MarkResolved(rows: map<string, AlertRow>, id: string, now: real): map<string, AlertRow> {
    if id in rows && rows[id].firing then rows[id := rows[id].(firing := false, resolvedAt := Some(now))] else rows
  }

  /** A successful resolve; the row is touched only if it is still firing. */
  function Resolve(s: Store, k: Key, now: real): Store {
    if k in s.active then Store(s.active - {k}, MarkResolved(s.rows, s.active[k].id, now)) else s
  }

  /** An operator's acknowledge touches only the table. */
  function Acknowledge(s: Store, id: string, now: real): Store {
    s.(rows := MarkResolved(s.rows, id, now))
  }

  function PurgeOld(s: Store, cutoff: real): Store {
    s.(rows := map id | id in s.rows &&
                        !(!s.rows[id].firing && s.rows[id].resolvedAt.Some? && s.rows[id].resolvedAt.value < cutoff)
                 :: s.rows[id])
  }

  /** Rows of nodes outside `nodes` go from the table, records of nodes outside `valid` from memory. */
  function DropOrphans(s: Store, nodes: set<string>, valid: set<string>): Store {
    Store(map k | k in s.active && k.node in valid :: s.active[k],
          map id | id in s.rows && s.rows[id].key.node in nodes :: s.rows[id])
  }

  // --- what they keep ---

  lemma InsertKeepsOneToOne(s: Store, k: Key, severity: Severity, id: string, now: real)
    requires Recorded(s) && id !in s.rows && (k in s.active ==> !StillFiring(s, k))
    ensures Recorded(Insert(s, k, severity, id, now))
    ensures Backed(s) ==> Backed(Insert(s, k, severity, id, now))
  {
    var n := Insert(s, k, severity, id, now);
    forall i | i in n.rows && n.rows[i].firing
      ensures RowRecorded(n, i)
    {
      assert i != id ==> RowRecorded(s, i);
    }
  }

  /** Whether the row of a memory record is still firing. */
  predicate StillFiring(s: Store, k: Key)
    requires k in s.active
  {
    s.active[k].id in s.rows && s.rows[s.active[k].id].firing && s.rows[s.active[k].id].key == k
  }

  lemma ResolveKeepsOneToOne(s: Store, k: Key, now: real)
    requires Recorded(s)
    ensures Recorded(Resolve(s, k, now))
    ensures Backed(s) ==> Backed(Resolve(s, k, now))
  {
    var n := Resolve(s, k, now);
    forall i | i in n.rows && n.rows[i].firing
      ensures RowRecorded(n, i)
    {
      assert RowRecorded(s, i);
    }
    if k in s.active && Backed(s) {
      forall j | j in n.active
        ensures n.active[j].id in n.rows && RowBacks(n.rows[n.active[j].id], j, n.active[j])
      {
        assert RowBacks(s.rows[s.active[j].id], j, s.active[j]) && RowBacks(s.rows[s.active[k].id], k, s.active[k]);
      }
    }
  }

  /**
   Raising an alert's severity resolves the old alert and inserts a new one.  If
   the insert succeeds, the records stay in step exactly when the resolve did,
   unless the old row was no longer firing anyway.
   */
  lemma EscalationKeepsRecordsExactly(s: Store, k: Key, severity: Severity, id: string, now: real, resolveOk: bool)
    requires Recorded(s) && k in s.active && id !in s.rows
    ensures var mid := if resolveOk then Resolve(s, k, now) else s;
            Recorded(Insert(mid, k, severity, id, now)) <==> resolveOk || !StillFiring(s, k)
  {
    if resolveOk {
      ResolveKeepsOneToOne(s, k, now);
      InsertKeepsOneToOne(Resolve(s, k, now), k, severity, id, now);
    } else if StillFiring(s, k) {
      assert !RowRecorded(Insert(s, k, severity, id, now), s.active[k].id);
    } else {
      InsertKeepsOneToOne(s, k, severity, id, now);
    }
  }

  /** An acknowledge keeps every firing row recorded; it breaks the other direction when it resolves a row. */
  lemma AcknowledgeKeepsRecords(s: Store, id: string, now: real)
    requires OneToOne(s)
    ensures Recorded(Acknowledge(s, id, now))
    ensures Backed(Acknowledge(s, id, now)) <==> !(id in s.rows && s.rows[id].firing)
  {
    var n := Acknowledge(s, id, now);
    forall i | i in n.rows && n.rows[i].firing
      ensures RowRecorded(n, i)
    {
      assert RowRecorded(s, i);
    }
    if id in s.rows && s.rows[id].firing {
      assert RowRecorded(s, id);
      assert !RowBacks(n.rows[id], s.rows[id].key, s.active[s.rows[id].key]);
    }
  }

  lemma AcknowledgeKeepsRecorded(s: Store, id: string, now: real)
    requires Recorded(s)
    ensures Recorded(Acknowledge(s, id, now))
  {
    var n := Acknowledge(s, id, now);
    forall i | i in n.rows && n.rows[i].firing
      ensures RowRecorded(n, i)
    {
      assert RowRecorded(s, i);
    }
  }

  lemma PurgeKeepsOneToOne(s: Store, cutoff: real)
    requires Recorded(s)
    ensures Recorded(PurgeOld(s, cutoff)) && (Backed(s) ==> Backed(PurgeOld(s, cutoff)))
  {
    var n := PurgeOld(s, cutoff);
    forall i | i in n.rows && n.rows[i].firing
      ensures RowRecorded(n, i)
    {
      assert RowRecorded(s, i);
    }
  }

  /**
   The orphan cleanup keeps every firing row recorded exactly when no node that
   keeps a firing row is missing from the node list it reads back.
   */
  lemma OrphanCleanupKeepsRecordsExactly(s: Store, nodes: set<string>, valid: set<string>)
    requires OneToOne(s)
    ensures Recorded(DropOrphans(s, nodes, valid)) <==>
            forall id :: id in s.rows && s.rows[id].firing && s.rows[id].key.node in nodes ==>
              s.rows[id].key.node in valid
    ensures nodes == valid ==> OneToOne(DropOrphans(s, nodes, valid))
  {
    var n := DropOrphans(s, nodes, valid);
    forall i | i in n.rows && n.rows[i].firing
      ensures RowRecorded(n, i) <==> n.rows[i].key.node in valid
    {
      assert RowRecorded(s, i);
    }
    if Recorded(n) {
      forall id | id in s.rows && s.rows[id].firing && s.rows[id].key.node in nodes
        ensures s.rows[id].key.node in valid
      {
        assert id in n.rows && RowRecorded(n, id);
      }
    }
    if nodes == valid {
      forall k | k in n.active
        ensures n.active[k].id in n.rows && RowBacks(n.rows[n.active[k].id], k, n.active[k])
      {
        assert RowBacks(s.rows[s.active[k].id], k, s.active[k]);
      }
    }
  }

  /** If the list of nodes cannot be read back it counts as empty, and firing rows lose their records. */
  lemma OrphanCleanupCanLoseARecord(k: Key, id: string, severity: Severity, now: real)
    ensures var s := Insert(Store(map[], map[]), k, severity, id, now);
            var after := DropOrphans(s, {k.node}, {});
            && OneToOne(s)
            && id in after.rows && after.rows[id].firing && k !in after.active && !Recorded(after)
  {
    var s := Insert(Store(map[], map[]), k, severity, id, now);
    var after := DropOrphans(s, {k.node}, {});
    assert s.rows[id].key.node in {k.node} && id in after.rows;
    assert !RowRecorded(after, id);
  }

  lemma OrphanCleanupKeepsRecorded(s: Store, nodes: set<string>)
    requires Recorded(s)
    ensures Recorded(DropOrphans(s, nodes, nodes))
  {
    var n := DropOrphans(s, nodes, nodes);
    forall i | i in n.rows && n.rows[i].firing
      ensures RowRecorded(n, i)
    {
      assert RowRecorded(s, i);
    }
  }

  /** No two firing rows are for the same alert of the same node. */
  predicate DistinctFiringKeys(rows: map<string, AlertRow>) {
    forall id, other :: id in rows && other in rows && rows[id].firing && rows[other].firing && id != other ==>
      rows[id].key != rows[other].key
  }

  lemma RecordedKeysDiffer(s: Store)
    requires Recorded(s)
    ensures DistinctFiringKeys(s.rows)
  {
    forall id, other | id in s.rows && other in s.rows && s.rows[id].firing && s.rows[other].firing && id != other
      ensures s.rows[id].key != s.rows[other].key
    {
      assert RowRecorded(s, id) && RowRecorded(s, other);
    }
  }

  // --- starting from the table ---

  predicate IsFiring(rows: map<string, AlertRow>, id: string) {
    id in rows && rows[id].firing
  }

  /** The records of the firing rows, in the order the database returns them; a later one replaces an earlier. */
  function Load(rows: map<string, AlertRow>, order: seq<string>): map<Key, Active> {
    if order == [] then map[]
    else
      var before, id := Load(rows, order[..|order| - 1]), order[|order| - 1];
      if IsFiring(rows, id) then before[rows[id].key := Active(id, rows[id].severity, rows[id].createdAt)] else before
  }

  /** Every record loaded has its firing row, and every firing row listed left a record for its alert. */
  lemma {:induction false} LoadedIsBacked(rows: map<string, AlertRow>, order: seq<string>)
    ensures Backed(Store(Load(rows, order), rows))
    ensures forall id :: id in order && IsFiring(rows, id) ==> rows[id].key in Load(rows, order)
    ensures forall k :: k in Load(rows, order) ==> Load(rows, order)[k].id in order
  {
    if order != [] {
      LoadedIsBacked(rows, order[..|order| - 1]);
      assert order == order[..|order| - 1] + [order[|order| - 1]];
    }
  }

  /**
   For any table and any order: memory and table correspond one to one after the
   load, if and only if it lists every firing row and no two of them share an alert.
   */
  lemma LoadCorrespondsExactly(rows: map<string, AlertRow>, order: seq<string>)
    ensures OneToOne(Store(Load(rows, order), rows)) <==>
            (forall id :: IsFiring(rows, id) ==> id in order) && DistinctFiringKeys(rows)
  {
    hide Load, Backed;
    var s := Store(Load(rows, order), rows);
    LoadedIsBacked(rows, order);
    if Recorded(s) {
      RecordedKeysDiffer(s);
      forall id | IsFiring(rows, id)
        ensures id in order
      {
        assert RowRecorded(s, id);
        assert s.active[rows[id].key].id in order;
      }
    }
    if (forall id :: IsFiring(rows, id) ==> id in order) && DistinctFiringKeys(rows) {
      forall id | id in rows && rows[id].firing
        ensures RowRecorded(s, id)
      {
        assert IsFiring(rows, id);
        LoadedRecord(rows, order, rows[id].key);
      }
    }
  }

  lemma LoadedRecord(rows: map<string, AlertRow>, order: seq<string>, k: Key)
    requires k in Load(rows, order)
    ensures var a := Load(rows, order)[k]; a.id in rows && RowBacks(rows[a.id], k, a)
  {
    hide Load;
    LoadedIsBacked(rows, order);
    assert k in Store(Load(rows, order), rows).active;
  }

  /** Memory rebuilt from the table alone is the memory that was lost. */
  lemma RebuildRestoresMemory(s: Store, rebuilt: map<Key, Active>)
    requires OneToOne(s)
    requires OneToOne(Store(rebuilt, s.rows))
    ensures rebuilt == s.active
  {
    var n := Store(rebuilt, s.rows);
    forall k
      ensures k in rebuilt <==> k in s.active
      ensures k in rebuilt ==> rebuilt[k] == s.active[k]
    {
      if k in s.active {
        assert RowBacks(s.rows[s.active[k].id], k, s.active[k]);
        assert RowRecorded(n, s.active[k].id);
      }
      if k in rebuilt {
        assert RowBacks(s.rows[rebuilt[k].id], k, rebuilt[k]);
        assert RowRecorded(s, rebuilt[k].id);
      }
    }
  }
}
