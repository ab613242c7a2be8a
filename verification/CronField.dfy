/**
 Cron expressions as text (master/core/cron_parser.py, parse_cron_field and
 CronExpression).  Whitespace and digits are the ASCII ones.  Every refusal is
 the same exception, so it is the same `None` here.
 */
module CronField {
  import opened Common
  import opened Decimal
  import opened Text
  import opened Cron

  // --- Python's reading of an integer ---

  predicate IsSpace(c: char) {
    9 <= c as int <= 13 || 28 <= c as int <= 32
  }

  function Strip(s: string): string {
    if s == "" then ""
    else if IsSpace(s[0]) then Strip(s[1..])
    else if IsSpace(s[|s| - 1]) then Strip(s[..|s| - 1])
    else s
  }

  /** Digits, with single underscores allowed between them. */
  function DigitsOf(s: string): Option<int> {
    var groups := Split(s, '_');
    if forall g :: g in groups ==> g != "" && AllDigits(g) then
      FlattenDigits(groups);
      Some(Value(Flatten(groups)))
    else None
  }

  lemma {:induction false} FlattenDigits(groups: seq<string>)
    requires forall g :: g in groups ==> AllDigits(g)
    ensures AllDigits(Flatten(groups))
  {
    if groups != [] {
      assert AllDigits(groups[0]);
      FlattenDigits(groups[1..]);
    }
  }

  function IntOf(text: string): Option<int> {
    var s := Strip(text);
    if s != "" && (s[0] == '-' || s[0] == '+') then
      match DigitsOf(s[1..])
      case None => None
      case Some(n) => Some(if s[0] == '-' then -n else n)
    else
      match DigitsOf(s)
      case None => None
      case Some(n) => Some(n)
  }

  // --- one component of a field ---

  datatype Range = Range(lo: int, hi: int, step: int)

  predicate Proper(r: Range, min: int, max: int) {
    min <= r.lo <= r.hi <= max && r.step >= 1
  }

  /** What a component between commas stands for. */
  function PartRange(part: string, min: int, max: int): (r: Option<Range>)
    ensures r.Some? ==> Proper(r.value, min, max)
  {
    var pieces := Split(part, '/');
    var ends := Split(pieces[0], '-');
    var step := if |pieces| == 1 then Some(1) else if |pieces| == 2 then IntOf(pieces[1]) else None;
    var lo := if pieces[0] == "*" then Some(min) else IntOf(ends[0]);
    var hi := if pieces[0] == "*" then Some(max)
              else if |ends| == 2 then IntOf(ends[1])
              else if |ends| == 1 then lo
              else None;
    if step.None? || lo.None? || hi.None? then None
    else
      var r := Range(lo.value, hi.value, step.value);
      if Proper(r, min, max) then Some(r) else None
  }

  /** `range(lo, hi + 1, step)` as a set. */
  function RangeSet(r: Range): set<int>
    requires r.step >= 1
    decreases if r.lo <= r.hi then r.hi - r.lo + 1 else 0
  {
    if r.lo > r.hi then {} else {r.lo} + RangeSet(r.(lo := r.lo + r.step))
  }

  lemma ModShift(x: int, k: int)
    requires k >= 1
    ensures (x - k) % k == x % k
  {
    var q, r := x / k, x % k;
    assert x - k == (q - 1) * k + r;
    ModIs(x - k, k, q - 1, r);
  }

  lemma ModIs(x: int, k: int, q: int, r: int)
    requires k >= 1 && 0 <= r < k && x == q * k + r
    ensures x % k == r
  {
    var d := x / k - q;
    assert d * k == r - x % k;
    if d >= 1 {
      MulAtLeast(d, k);
    } else if d <= -1 {
      MulAtLeast(-d, k);
    }
  }

  lemma MulAtLeast(d: int, k: int)
    requires d >= 1 && k >= 1
    ensures d * k >= k
  {
    assert (d - 1) * k >= 0;
  }

  lemma {:induction false} RangeSetMembers(r: Range, v: int)
    requires r.step >= 1
    ensures v in RangeSet(r) <==> r.lo <= v <= r.hi && (v - r.lo) % r.step == 0
    decreases if r.lo <= r.hi then r.hi - r.lo + 1 else 0
  {
    if r.lo <= r.hi {
      RangeSetMembers(r.(lo := r.lo + r.step), v);
      ModShift(v - r.lo, r.step);
      if r.lo <= v < r.lo + r.step {
        ModIs(v - r.lo, r.step, 0, v - r.lo);
      }
    }
  }

  /** Everything the components allow, if all of them are understood. */
  function FieldSet(parts: seq<string>, min: int, max: int): Option<set<int>> {
    if parts == [] then Some({})
    else
      var n := |parts| - 1;
      match (FieldSet(parts[..n], min, max), PartRange(parts[n], min, max))
      case (Some(allowed), Some(r)) => Some(allowed + RangeSet(r))
      case _ => None
  }

  /** A field is refused exactly for a component that is not understood. */
  lemma {:induction false} FieldSetRefuses(parts: seq<string>, min: int, max: int)
    ensures FieldSet(parts, min, max).None? <==> exists i :: 0 <= i < |parts| && PartRange(parts[i], min, max).None?
  {
    hide PartRange, RangeSet;
    if parts != [] {
      FieldSetRefuses(parts[..|parts| - 1], min, max);
    }
  }

  /** It allows what some component allows. */
  lemma {:induction false} FieldSetMembers(parts: seq<string>, min: int, max: int, v: int)
    requires FieldSet(parts, min, max).Some?
    ensures v in FieldSet(parts, min, max).value <==>
            exists i :: 0 <= i < |parts| && PartRange(parts[i], min, max).Some? &&
                        v in RangeSet(PartRange(parts[i], min, max).value)
  {
    hide PartRange, RangeSet;
    if parts != [] {
      FieldSetMembers(parts[..|parts| - 1], min, max, v);
    }
  }

  /** That is something, and nothing outside the bounds. */
  lemma FieldSetInBounds(parts: seq<string>, min: int, max: int)
    requires parts != [] && FieldSet(parts, min, max).Some?
    ensures FieldSet(parts, min, max).value != {}
    ensures forall v :: v in FieldSet(parts, min, max).value ==> min <= v <= max
  {
    hide PartRange, RangeSet, FieldSet;
    FieldSetRefuses(parts, min, max);
    forall v | v in FieldSet(parts, min, max).value ensures min <= v <= max {
      FieldSetMembers(parts, min, max, v);
      var i :| 0 <= i < |parts| && PartRange(parts[i], min, max).Some? &&
               v in RangeSet(PartRange(parts[i], min, max).value);
      RangeSetMembers(PartRange(parts[i], min, max).value, v);
    }
    var r := PartRange(parts[0], min, max).value;
    LeastOfRange(r);
    FieldSetMembers(parts, min, max, r.lo);
  }

  lemma LeastOfRange(r: Range)
    requires r.step >= 1 && r.lo <= r.hi
    ensures r.lo in RangeSet(r)
  {
  }

  method ParseCronField(text: string, min: int, max: int) returns (r: Option<set<int>>)
    ensures r == FieldSet(Split(Strip(text), ','), min, max)
  {
    hide IntOf, Strip, RangeSet, Split;
    var field := Strip(text);
    var parts := Split(field, ',');
    if field == "" {
      EmptyIsRefused(min, max);
      return None;
    }
    var allowed: set<int> := {};
    for i := 0 to |parts|
      invariant FieldSet(parts[..i], min, max) == Some(allowed)
    {
      var part := parts[i];
      RefusedForGood(parts, i, min, max);
      assert parts[..i + 1][..i] == parts[..i];
      if part == "" {
        EmptyIsRefused(min, max);
        return None;
      }
      var step := 1;
      var pieces := Split(part, '/');
      if |pieces| > 1 {
        if |pieces| != 2 {
          return None;
        }
        var n := IntOf(pieces[1]);
        if n.None? || n.value <= 0 {
          return None;
        }
        step := n.value;
      }
      var start, end := min, max;
      if pieces[0] != "*" {
        var ends := Split(pieces[0], '-');
        if |ends| > 2 {
          return None;
        }
        var lo := IntOf(ends[0]);
        var hi := if |ends| == 2 then IntOf(ends[1]) else lo;
        if lo.None? || hi.None? {
          return None;
        }
        start, end := lo.value, hi.value;
      }
      if start < min || start > max || end < min || end > max {
        return None;
      }
      if start > end {
        return None;
      }
      var range := UpTo(start, end, step);
      allowed := allowed + range;
    }
    assert parts[..|parts|] == parts;
    return Some(allowed);
  }

  method UpTo(start: int, end: int, step: int) returns (s: set<int>)
    requires step >= 1
    ensures s == RangeSet(Range(start, end, step))
  {
    s := {};
    var v := start;
    while v <= end
      invariant s + RangeSet(Range(v, end, step)) == RangeSet(Range(start, end, step))
      decreases end + 1 - v
    {
      s := s + {v};
      v := v + step;
    }
  }

  lemma EmptyIsRefused(min: int, max: int)
    ensures Split("", ',') == [""] && PartRange("", min, max).None? && FieldSet([""], min, max).None?
  {
    assert Split("", '/') == [""] && Split("", '-') == [""];
    assert Split("", '_') == [""] && "" in Split("", '_');
    assert IntOf("").None?;
    assert [""][0] == "";
  }

  lemma RefusedForGood(parts: seq<string>, i: nat, min: int, max: int)
    requires i < |parts|
    ensures PartRange(parts[i], min, max).None? ==> FieldSet(parts, min, max).None?
  {
    FieldSetRefuses(parts, min, max);
  }
}
