/**
 The text the audit log's hash chain hashes (master/core/audit.py), and when it
 determines the entry it was made from.
 */
module AuditChain {
  import opened Common
  import opened Decimal
  import opened Text

  const GENESIS_HASH := Zeros(64)
  const MAX_ATTEMPTS := 5

  datatype Entry = Entry(timestamp: real, action: string, user: string, node: Option<string>, details: string)

  /** A row of the table; the identifier is not hashed. */
  datatype Row = Row(id: string, sequence: int, entry: Entry, previousHash: string, entryHash: string)

  function Zeros(n: nat): (s: string)
    ensures |s| == n && forall i :: 0 <= i < n ==> s[i] == '0'
  {
    if n == 0 then "" else Zeros(n - 1) + "0"
  }

  // --- the hashed text ---

  predicate PipeFree(s: string) {
    '|' !in s
  }

  /** The number of microseconds of a timestamp as six decimals show it. */
  function Micros(t: real): int {
    if t < 0.0 then -RoundHalfEven(-t * 1_000_000.0) else RoundHalfEven(t * 1_000_000.0)
  }

  function Abs(n: int): nat {
    if n < 0 then -n else n
  }

  function TimestampText(t: real): string {
    (if t < 0.0 then "-" else "") + Fixed6(Abs(Micros(t)))
  }

  function NodeText(node: Option<string>): string {
    if node.Some? then node.value else ""
  }

  function Fields(previousHash: string, sequence: int, e: Entry): (f: seq<string>)
    ensures |f| == 7
  {
    [previousHash, IntText(sequence), TimestampText(e.timestamp), e.action, e.user, NodeText(e.node), e.details]
  }

  function Raw(previousHash: string, sequence: int, e: Entry): string {
    Join(Fields(previousHash, sequence, e), '|')
  }

  function RowRaw(r: Row): string {
    Raw(r.previousHash, r.sequence, r.entry)
  }

  /** No field before the details holds the separator. */
  predicate SeparatorFree(e: Entry) {
    PipeFree(e.action) && PipeFree(e.user) && PipeFree(NodeText(e.node))
  }

  /** No field at all holds the separator. */
  predicate Whole(e: Entry) {
    SeparatorFree(e) && PipeFree(e.details)
  }

  /** All hashed contents agree; timestamps to six decimals, a missing node and an empty one alike. */
  predicate SameHashedContent(a: Row, b: Row) {
    && a.previousHash == b.previousHash && a.sequence == b.sequence
    && Micros(a.entry.timestamp) == Micros(b.entry.timestamp)
    && a.entry.action == b.entry.action && a.entry.user == b.entry.user
    && NodeText(a.entry.node) == NodeText(b.entry.node) && a.entry.details == b.entry.details
  }

  lemma HeadOfJoin(x: string, s: string, y: string, t: string)
    requires PipeFree(x) && PipeFree(y) && x + ['|'] + s == y + ['|'] + t
    ensures x == y && s == t
  {
    var w := x + ['|'] + s;
    assert w[|x|] == '|' && w[|y|] == '|';
    assert w[..|x|] == x && w[..|y|] == y && w[|x| + 1..] == s && w[|y| + 1..] == t;
  }

  /** Joining is injective although the last field may hold the separator. */
  lemma {:induction false} JoinInjective(f: seq<string>, g: seq<string>)
    requires |f| == |g| > 0 && Join(f, '|') == Join(g, '|')
    requires forall i :: 0 <= i < |f| - 1 ==> PipeFree(f[i]) && PipeFree(g[i])
    ensures f == g
  {
    if |f| > 1 {
      HeadOfJoin(f[0], Join(f[1..], '|'), g[0], Join(g[1..], '|'));
      JoinInjective(f[1..], g[1..]);
      assert f == [f[0]] + f[1..] && g == [g[0]] + g[1..];
    }
  }

  lemma DigitsArePipeFree(s: string)
    requires AllDigits(s)
    ensures PipeFree(s)
  {
  }

  /** The text of a timestamp reads as a sign and six decimals, the nearest to it. */
  lemma TimestampTextReads(t: real) returns (whole: string, part: string)
    ensures AllDigits(whole) && AllDigits(part) && |part| == 6
    ensures TimestampText(t) == (if t < 0.0 then "-" else "") + whole + "." + part
    ensures var micros := (Value(whole) * 1_000_000 + Value(part)) as real;
            -0.5 <= micros - (if t < 0.0 then -t else t) * 1_000_000.0 <= 0.5
  {
    hide RoundHalfEven, Fixed6, Value;
    var u := (if t < 0.0 then -t else t) * 1_000_000.0;
    RoundsToNearest(u);
    assert u >= 0.0 && RoundHalfEven(u) >= 0;
    assert Abs(Micros(t)) == RoundHalfEven(u);
    whole, part := Fixed6Reads(Abs(Micros(t)));
    var sign := if t < 0.0 then "-" else "";
    assert sign + (whole + "." + part) == sign + whole + "." + part;
  }

  /** If no field holds the separator, splitting the hashed text gives back the seven fields, in this order. */
  lemma RawSplitsBack(previousHash: string, sequence: int, e: Entry)
    requires PipeFree(previousHash) && Whole(e)
    ensures Split(Raw(previousHash, sequence, e), '|') ==
            [previousHash, IntText(sequence), TimestampText(e.timestamp), e.action, e.user, NodeText(e.node), e.details]
  {
    hide IntText, TimestampText, Split, Join;
    FieldsArePipeFree(previousHash, sequence, e);
    SplitJoin(Fields(previousHash, sequence, e), '|');
  }

  lemma TimestampTextInjective(s: real, t: real)
    requires TimestampText(s) == TimestampText(t)
    ensures Micros(s) == Micros(t)
  {
    var a, b := Fixed6(Abs(Micros(s))), Fixed6(Abs(Micros(t)));
    assert IsDigit(a[0]) && IsDigit(b[0]);
    assert s < 0.0 ==> TimestampText(s)[0] == '-' && TimestampText(s)[1..] == a;
    assert t < 0.0 ==> TimestampText(t)[0] == '-' && TimestampText(t)[1..] == b;
    assert s >= 0.0 ==> TimestampText(s) == a;
    assert t >= 0.0 ==> TimestampText(t) == b;
    Fixed6Injective(Abs(Micros(s)), Abs(Micros(t)));
  }

  lemma FieldsArePipeFree(previousHash: string, sequence: int, e: Entry)
    requires PipeFree(previousHash) && SeparatorFree(e)
    ensures forall i :: 0 <= i < 6 ==> PipeFree(Fields(previousHash, sequence, e)[i])
    ensures PipeFree(e.details) ==> forall f :: f in Fields(previousHash, sequence, e) ==> '|' !in f
  {
    DigitsArePipeFree(NatText(Abs(sequence)));
    var m := Abs(Micros(e.timestamp));
    DigitsArePipeFree(NatText(m / 1_000_000));
    DigitsArePipeFree(Padded(m % 1_000_000, 6));
  }

  lemma SameFields(a: Row, b: Row)
    requires Fields(a.previousHash, a.sequence, a.entry) == Fields(b.previousHash, b.sequence, b.entry)
    ensures SameHashedContent(a, b)
  {
    var f, g := Fields(a.previousHash, a.sequence, a.entry), Fields(b.previousHash, b.sequence, b.entry);
    assert f[0] == g[0] && f[1] == g[1] && f[2] == g[2] && f[3] == g[3] && f[4] == g[4] && f[5] == g[5] && f[6] == g[6];
    IntTextInjective(a.sequence, b.sequence);
    TimestampTextInjective(a.entry.timestamp, b.entry.timestamp);
  }

  /** Two rows that no shift of fields between them can make hash the same text. */
  predicate Apart(a: Row, b: Row) {
    || (PipeFree(a.previousHash) && Whole(a.entry))
    || (PipeFree(a.previousHash) && PipeFree(b.previousHash) && SeparatorFree(a.entry) && SeparatorFree(b.entry))
  }

  /**
   Equal hashed texts mean equal contents if one row holds no separator,
   whatever the other holds, or if neither holds one before its details.
   */
  lemma RawInjective(a: Row, b: Row)
    ensures Apart(a, b) && RowRaw(a) == RowRaw(b) ==> SameHashedContent(a, b)
  {
    hide Fields, Join, SameHashedContent, SeparatorFree;
    if Apart(a, b) && RowRaw(a) == RowRaw(b) {
      FieldsArePipeFree(a.previousHash, a.sequence, a.entry);
      if Whole(a.entry) {
        JoinDetermines(Fields(a.previousHash, a.sequence, a.entry), Fields(b.previousHash, b.sequence, b.entry), '|');
      } else {
        FieldsArePipeFree(b.previousHash, b.sequence, b.entry);
        JoinInjective(Fields(a.previousHash, a.sequence, a.entry), Fields(b.previousHash, b.sequence, b.entry));
      }
      SameFields(a, b);
    }
  }

  /** The first two fields are fixed by the text whatever the others hold. */
  lemma RawFixesSequence(p: string, m: int, d: Entry, q: string, n: int, e: Entry)
    requires PipeFree(p) && PipeFree(q)
    ensures Raw(p, m, d) == Raw(q, n, e) ==> p == q && m == n
  {
    if Raw(p, m, d) == Raw(q, n, e) {
      var f, g := Fields(p, m, d), Fields(q, n, e);
      DigitsArePipeFree(NatText(Abs(m)));
      DigitsArePipeFree(NatText(Abs(n)));
      HeadOfJoin(f[0], Join(f[1..], '|'), g[0], Join(g[1..], '|'));
      assert f[1..][1..] == f[2..] && g[1..][1..] == g[2..];
      HeadOfJoin(f[1], Join(f[2..], '|'), g[1], Join(g[2..], '|'));
      IntTextInjective(m, n);
    }
  }

  lemma JoinOfSeven(f: seq<string>)
    requires |f| == 7
    ensures Join(f, '|') ==
            f[0] + ['|'] + (f[1] + ['|'] + (f[2] + ['|'] + (f[3] + ['|'] + (f[4] + ['|'] + (f[5] + ['|'] + f[6])))))
  {
    assert f[5..] == [f[5], f[6]] && f[5..][1..] == [f[6]];
    assert Join(f[5..], '|') == f[5] + ['|'] + f[6];
    assert f[4..][1..] == f[5..] && f[3..][1..] == f[4..] && f[2..][1..] == f[3..] && f[1..][1..] == f[2..];
    assert Join(f[3..], '|') == f[3] + ['|'] + (f[4] + ['|'] + Join(f[5..], '|'));
    assert Join(f[1..], '|') == f[1] + ['|'] + (f[2] + ['|'] + Join(f[3..], '|'));
  }

  /** The text of the fields an entry adds after its timestamp. */
  function AfterTimestamp(e: Entry): string {
    e.action + ['|'] + (e.user + ['|'] + (NodeText(e.node) + ['|'] + e.details))
  }

  lemma TailDecidesRaw(previousHash: string, sequence: int, d: Entry, e: Entry)
    requires d.timestamp == e.timestamp && AfterTimestamp(d) == AfterTimestamp(e)
    ensures Raw(previousHash, sequence, d) == Raw(previousHash, sequence, e)
  {
    JoinOfSeven(Fields(previousHash, sequence, d));
    JoinOfSeven(Fields(previousHash, sequence, e));
  }

  /** A separator inside the details does so too: they can be shifted into the fields before them. */
  lemma DetailsCanShift(previousHash: string, sequence: int, t: real)
    ensures Raw(previousHash, sequence, Entry(t, "A", "B", Some("C"), "D|E")) ==
            Raw(previousHash, sequence, Entry(t, "A|B", "C", Some("D"), "E"))
  {
    hide Raw;
    assert "A" + ['|'] + ("B" + ['|'] + ("C" + ['|'] + "D|E")) == "A|B" + ['|'] + ("C" + ['|'] + ("D" + ['|'] + "E"));
    TailDecidesRaw(previousHash, sequence, Entry(t, "A", "B", Some("C"), "D|E"), Entry(t, "A|B", "C", Some("D"), "E"));
  }

  lemma Regroup(x: string, y: string, z: string)
    ensures (x + ['|'] + y) + ['|'] + z == x + ['|'] + (y + ['|'] + z)
  {
  }

  lemma CutAtPipe(s: string) returns (x: string, y: string)
    requires !PipeFree(s)
    ensures s == x + ['|'] + y && |x| < |s| && |y| < |s|
  {
    var i :| 0 <= i < |s| && s[i] == '|';
    x, y := s[..i], s[i + 1..];
  }

  function OtherFields(e: Entry, action: string, user: string, node: string, details: string): Entry {
    Entry(e.timestamp, action, user, Some(node), details)
  }

  /** The entry with the same text that a separator in a field allows. */
  lemma ShiftFields(e: Entry) returns (d: Entry)
    requires !Whole(e)
    ensures d.timestamp == e.timestamp && AfterTimestamp(d) == AfterTimestamp(e)
    ensures !(d.action == e.action && d.user == e.user &&
              NodeText(d.node) == NodeText(e.node) && d.details == e.details)
  {
    var n := NodeText(e.node);
    if !PipeFree(e.action) {
      var x, y := CutAtPipe(e.action);
      d := OtherFields(e, x, y, e.user, n + ['|'] + e.details);
      Regroup(x, y, e.user + ['|'] + (n + ['|'] + e.details));
    } else if !PipeFree(e.user) {
      var x, y := CutAtPipe(e.user);
      d := OtherFields(e, e.action, x, y, n + ['|'] + e.details);
      Regroup(x, y, n + ['|'] + e.details);
    } else if !PipeFree(n) {
      var x, y := CutAtPipe(n);
      d := OtherFields(e, e.action, e.user, x, y + ['|'] + e.details);
      Regroup(x, y, e.details);
    } else {
      var x, y := CutAtPipe(e.details);
      d := OtherFields(e, e.action, e.user + ['|'] + n, x, y);
      Regroup(e.user, n, x + ['|'] + y);
    }
  }

  /** The text of an entry determines it among all entries. */
  ghost predicate TextDetermines(previousHash: string, sequence: int, e: Entry) {
    forall id, hash, d :: Raw(previousHash, sequence, d) == Raw(previousHash, sequence, e) ==>
      SameHashedContent(Row(id, sequence, e, previousHash, hash), Row(id, sequence, d, previousHash, hash))
  }

  /** It does so exactly when no field of the entry holds the separator. */
  lemma TextDeterminesExactlyWholeEntries(previousHash: string, sequence: int, e: Entry)
    requires PipeFree(previousHash)
    ensures TextDetermines(previousHash, sequence, e) <==> Whole(e)
  {
    hide Raw, Whole;
    if Whole(e) {
      forall id, hash, d | Raw(previousHash, sequence, d) == Raw(previousHash, sequence, e)
        ensures SameHashedContent(Row(id, sequence, e, previousHash, hash), Row(id, sequence, d, previousHash, hash))
      {
        RawInjective(Row(id, sequence, e, previousHash, hash), Row(id, sequence, d, previousHash, hash));
      }
    } else {
      var d := ShiftFields(e);
      TailDecidesRaw(previousHash, sequence, d, e);
      assert !SameHashedContent(Row("", sequence, e, previousHash, ""), Row("", sequence, d, previousHash, ""));
    }
  }

  /** The separator inside a field does break it: two different entries, one text. */
  lemma SeparatorInsideFieldIsAmbiguous(previousHash: string, sequence: int, t: real, details: string)
    ensures Raw(previousHash, sequence, Entry(t, "A", "B|C", Some("D"), details)) ==
            Raw(previousHash, sequence, Entry(t, "A|B", "C", Some("D"), details))
  {
    hide Raw;
    assert "A" + ['|'] + ("B|C" + ['|'] + ("D" + ['|'] + details)) ==
           "A|B" + ['|'] + ("C" + ['|'] + ("D" + ['|'] + details));
    TailDecidesRaw(previousHash, sequence, Entry(t, "A", "B|C", Some("D"), details),
                   Entry(t, "A|B", "C", Some("D"), details));
  }
}
