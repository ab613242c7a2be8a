/**
 Whole cron expressions: the five fields of CronExpression.__init__, and that a
 written expression is read back as the schedule it denotes.
 */
module CronText {
  import opened Calendar
  import opened Common
  import opened Decimal
  import opened Text
  import opened Cron
  import opened CronField

  // --- five words ---

  predicate NoSpace(s: string) {
    forall i :: 0 <= i < |s| ==> !IsSpace(s[i])
  }

  function FirstWord(s: string): (w: string)
    ensures w <= s && NoSpace(w)
    ensures |w| < |s| ==> IsSpace(s[|w|])
  {
    if s == "" || IsSpace(s[0]) then "" else [s[0]] + FirstWord(s[1..])
  }

  /** The words between whitespace; none of them is empty. */
  function Words(s: string): seq<string> {
    if s == "" then []
    else if IsSpace(s[0]) then Words(s[1..])
    else
      var w := FirstWord(s);
      [w] + Words(s[|w|..])
  }

  /** Sunday may be written 7. */
  function Sundays(dow: set<int>): set<int> {
    if 7 in dow then dow - {7} + {0} else dow
  }

  /** The source's constructor. */
  method ParseExpression(expr: string) returns (r: Option<Schedule>)
    ensures r == ScheduleOf(Words(Strip(expr)))
  {
    var parts := Words(Strip(expr));
    if |parts| != 5 {
      return None;
    }
    var minutes := ParseCronField(parts[0], 0, 59);
    if minutes.None? { return None; }
    var hours := ParseCronField(parts[1], 0, 23);
    if hours.None? { return None; }
    var dom := ParseCronField(parts[2], 1, 31);
    if dom.None? { return None; }
    var months := ParseCronField(parts[3], 1, 12);
    if months.None? { return None; }
    var field := ParseCronField(parts[4], 0, 7);
    if field.None? { return None; }
    var dow := field.value;
    if 7 in dow {
      dow := dow - {7};
      dow := dow + {0};
    }
    return Some(Schedule(minutes.value, hours.value, dom.value, months.value, dow));
  }

  function Field(text: string, min: int, max: int): Option<set<int>> {
    FieldSet(Split(Strip(text), ','), min, max)
  }

  function Assemble(minutes: Option<set<int>>, hours: Option<set<int>>, dom: Option<set<int>>, months: Option<set<int>>,
                    dow: Option<set<int>>): Option<Schedule> {
    if minutes.None? || hours.None? || dom.None? || months.None? || dow.None? then None
    else Some(Schedule(minutes.value, hours.value, dom.value, months.value, Sundays(dow.value)))
  }

  function ScheduleOf(words: seq<string>): Option<Schedule> {
    if |words| != 5 then None
    else
      Assemble(Field(words[0], 0, 59), Field(words[1], 0, 23), Field(words[2], 1, 31), Field(words[3], 1, 12),
               Field(words[4], 0, 7))
  }

  /** A schedule that is read lets some minute, hour, day and month pass, and names real ones only. */
  lemma ReadSchedulesAreSound(words: seq<string>)
    ensures ScheduleOf(words).Some? ==>
            var s := ScheduleOf(words).value;
            && s.minutes != {} && (forall v :: v in s.minutes ==> 0 <= v <= 59)
            && s.hours != {} && (forall v :: v in s.hours ==> 0 <= v <= 23)
            && s.dom != {} && (forall v :: v in s.dom ==> 1 <= v <= 31)
            && s.months != {} && (forall v :: v in s.months ==> 1 <= v <= 12)
            && s.dow != {} && (forall v :: v in s.dow ==> 0 <= v <= 6)
  {
    hide FieldSet, Split, Strip;
    if ScheduleOf(words).Some? {
      FieldSetInBounds(Split(Strip(words[0]), ','), 0, 59);
      FieldSetInBounds(Split(Strip(words[1]), ','), 0, 23);
      FieldSetInBounds(Split(Strip(words[2]), ','), 1, 31);
      FieldSetInBounds(Split(Strip(words[3]), ','), 1, 12);
      FieldSetInBounds(Split(Strip(words[4]), ','), 0, 7);
      var dow := Field(words[4], 0, 7).value;
      if 7 in dow {
        assert 0 in Sundays(dow);
      }
    }
  }

  // --- written expressions ---

  datatype Item =
    | Every(step: Option<nat>)
    | One(value: nat, step: Option<nat>)
    | Span(first: nat, last: nat, step: Option<nat>)

  function StepText(step: Option<nat>): string {
    if step.None? then "" else "/" + NatText(step.value)
  }

  function Body(item: Item): string {
    match item
    case Every(_) => "*"
    case One(v, _) => NatText(v)
    case Span(a, b, _) => NatText(a) + "-" + NatText(b)
  }

  function ItemText(item: Item): string {
    Body(item) + StepText(item.step)
  }

  /** What an item denotes, if it is within the field's bounds. */
  function ItemRange(item: Item, min: int, max: int): (o: Option<Range>)
    ensures o.Some? ==> Proper(o.value, min, max)
  {
    var step := if item.step.None? then 1 else item.step.value;
    var r := match item
      case Every(_) => Range(min, max, step)
      case One(v, _) => Range(v, v, step)
      case Span(a, b, _) => Range(a, b, step);
    if Proper(r, min, max) then Some(r) else None
  }

  function Denote(items: seq<Item>, min: int, max: int): Option<set<int>> {
    if items == [] then Some({})
    else
      var n := |items| - 1;
      match (Denote(items[..n], min, max), ItemRange(items[n], min, max))
      case (Some(allowed), Some(r)) => Some(allowed + RangeSet(r))
      case _ => None
  }

  predicate Plain(c: char) {
    IsDigit(c) || c == '*' || c == '-' || c == '/'
  }

  predicate AllPlain(s: string) {
    forall i :: 0 <= i < |s| ==> Plain(s[i])
  }

  lemma ItemTextIsPlain(item: Item)
    ensures AllPlain(ItemText(item)) && ItemText(item) != ""
  {
  }

  lemma StripPlain(s: string)
    requires NoSpace(s)
    ensures Strip(s) == s
  {
  }

  lemma NatReadsBack(n: nat)
    ensures IntOf(NatText(n)) == Some(n)
  {
    var s := NatText(n);
    StripPlain(s);
    SplitWhole(s, '_');
    assert Flatten([s]) == s + Flatten([]);
    assert s + Flatten([]) == s;
    NatTextValue(n);
    assert IsDigit(s[0]);
  }

  lemma PiecesOfItem(item: Item)
    ensures Split(ItemText(item), '/') ==
            if item.step.None? then [Body(item)] else [Body(item), NatText(item.step.value)]
  {
    var b := Body(item);
    assert '/' !in b;
    SplitWhole(b, '/');
    if item.step.None? {
      assert b + "" == b;
    } else {
      var t := NatText(item.step.value);
      SplitWhole(t, '/');
      SplitAtSeparator(b, t, '/');
      assert b + ("/" + t) == b + ['/'] + t;
    }
  }

  lemma EndsOfItem(item: Item)
    requires !item.Every?
    ensures Split(Body(item), '-') ==
            if item.One? then [NatText(item.value)] else [NatText(item.first), NatText(item.last)]
    ensures Body(item) != "*"
  {
    match item
    case One(v, _) =>
      SplitWhole(NatText(v), '-');
      assert IsDigit(Body(item)[0]);
    case Span(a, b, _) =>
      SplitWhole(NatText(a), '-');
      SplitWhole(NatText(b), '-');
      SplitAtSeparator(NatText(a), NatText(b), '-');
      assert IsDigit(Body(item)[0]);
  }

  /** A written component is understood as what it denotes. */
  lemma ItemReadsBack(item: Item, min: int, max: int)
    ensures PartRange(ItemText(item), min, max) == ItemRange(item, min, max)
  {
    hide IntOf, Split, ItemText, Body;
    PiecesOfItem(item);
    if item.step.Some? {
      NatReadsBack(item.step.value);
    }
    match item
    case Every(_) =>
      assert Body(item) == "*" by { StarBody(item); }
    case One(v, _) =>
      EndsOfItem(item);
      NatReadsBack(v);
    case Span(a, b, _) =>
      EndsOfItem(item);
      NatReadsBack(a);
      NatReadsBack(b);
  }

  lemma StarBody(item: Item)
    requires item.Every?
    ensures Body(item) == "*"
  {
  }

  function Texts(items: seq<Item>): (t: seq<string>)
    ensures |t| == |items| && forall i :: 0 <= i < |t| ==> t[i] == ItemText(items[i])
  {
    Map(items, ItemText)
  }

  lemma {:induction false} FieldReadsBack(items: seq<Item>, min: int, max: int)
    ensures FieldSet(Texts(items), min, max) == Denote(items, min, max)
  {
    hide PartRange, RangeSet, ItemText, ItemRange;
    if items != [] {
      var n := |items| - 1;
      FieldReadsBack(items[..n], min, max);
      assert Texts(items)[..n] == Texts(items[..n]);
      ItemReadsBack(items[n], min, max);
    }
  }

  /** A field as written: its items between commas. */
  function FieldText(items: seq<Item>): string
    requires items != []
  {
    Join(Texts(items), ',')
  }

  lemma {:induction false} JoinIsWord(parts: seq<string>)
    requires parts != [] && forall p :: p in parts ==> AllPlain(p) && p != ""
    ensures NoSpace(Join(parts, ',')) && Join(parts, ',') != ""
  {
    assert AllPlain(parts[0]);
    if |parts| > 1 {
      JoinIsWord(parts[1..]);
    }
  }

  lemma TextsArePlain(items: seq<Item>)
    requires items != []
    ensures forall p :: p in Texts(items) ==> AllPlain(p) && p != "" && ',' !in p
  {
    hide ItemText;
    forall p | p in Texts(items) ensures AllPlain(p) && p != "" && ',' !in p {
      var i :| 0 <= i < |items| && p == Texts(items)[i];
      ItemTextIsPlain(items[i]);
    }
  }

  lemma FieldTextReadsBack(items: seq<Item>, min: int, max: int)
    requires items != []
    ensures Field(FieldText(items), min, max) == Denote(items, min, max)
    ensures NoSpace(FieldText(items)) && FieldText(items) != ""
  {
    hide FieldSet, Split, Strip, ItemText;
    TextsArePlain(items);
    JoinIsWord(Texts(items));
    StripPlain(FieldText(items));
    SplitJoin(Texts(items), ',');
    FieldReadsBack(items, min, max);
  }

  // --- the whole expression ---

  datatype Expression =
    Expression(minutes: seq<Item>, hours: seq<Item>, dom: seq<Item>, months: seq<Item>, dow: seq<Item>)

  predicate Complete(e: Expression) {
    e.minutes != [] && e.hours != [] && e.dom != [] && e.months != [] && e.dow != []
  }

  function ExpressionText(e: Expression): string
    requires Complete(e)
  {
    Join([FieldText(e.minutes), FieldText(e.hours), FieldText(e.dom), FieldText(e.months), FieldText(e.dow)], ' ')
  }

  lemma {:induction false} FirstWordIs(w: string, rest: string)
    requires NoSpace(w) && (rest != "" ==> IsSpace(rest[0]))
    ensures FirstWord(w + rest) == w
  {
    if w == "" {
      assert w + rest == rest;
    } else {
      assert (w + rest)[1..] == w[1..] + rest;
      FirstWordIs(w[1..], rest);
    }
  }

  lemma WordsOfWord(w: string, rest: string)
    requires NoSpace(w) && w != "" && (rest != "" ==> IsSpace(rest[0]))
    ensures Words(w + rest) == [w] + Words(rest)
  {
    hide FirstWord;
    FirstWordIs(w, rest);
    assert (w + rest)[|w|..] == rest && (w + rest)[0] == w[0];
  }

  lemma WordsAfterSpace(s: string)
    requires s != "" && IsSpace(s[0])
    ensures Words(s) == Words(s[1..])
  {
  }

  lemma NoWords()
    ensures Words("") == []
  {
  }

  lemma SpaceIsSpace()
    ensures IsSpace(' ')
  {
  }

  lemma {:induction false} WordsOfJoin(words: seq<string>)
    requires words != [] && forall w :: w in words ==> NoSpace(w) && w != ""
    ensures Words(Join(words, ' ')) == words
  {
    hide Words, FirstWord, NoSpace, IsSpace;
    var w := words[0];
    if |words| == 1 {
      assert w + "" == w;
      WordsOfWord(w, "");
      NoWords();
    } else {
      var rest := Join(words[1..], ' ');
      WordsOfJoin(words[1..]);
      var tail := [' '] + rest;
      assert w + [' '] + rest == w + tail && tail[1..] == rest;
      SpaceIsSpace();
      WordsOfWord(w, tail);
      WordsAfterSpace(tail);
      assert words == [w] + words[1..];
    }
  }

  lemma {:induction false} StripEnds(s: string)
    requires s != "" && !IsSpace(s[0]) && !IsSpace(s[|s| - 1])
    ensures Strip(s) == s
  {
  }

  lemma {:induction false} JoinEnds(words: seq<string>)
    requires words != [] && forall w :: w in words ==> NoSpace(w) && w != ""
    ensures var s := Join(words, ' '); s != "" && !IsSpace(s[0]) && !IsSpace(s[|s| - 1])
  {
    assert NoSpace(words[0]);
    if |words| > 1 {
      JoinEnds(words[1..]);
    }
  }

  /** Writing an expression and reading it gives the schedule its items denote, or refuses one out of bounds. */
  lemma ExpressionReadsBack(e: Expression)
    requires Complete(e)
    ensures ScheduleOf(Words(Strip(ExpressionText(e)))) ==
            Assemble(Denote(e.minutes, 0, 59), Denote(e.hours, 0, 23), Denote(e.dom, 1, 31), Denote(e.months, 1, 12),
                     Denote(e.dow, 0, 7))
  {
    hide Field, FieldText, Denote, Words, Strip, NoSpace;
    FieldTextReadsBack(e.minutes, 0, 59);
    FieldTextReadsBack(e.hours, 0, 23);
    FieldTextReadsBack(e.dom, 1, 31);
    FieldTextReadsBack(e.months, 1, 12);
    FieldTextReadsBack(e.dow, 0, 7);
    var words := [FieldText(e.minutes), FieldText(e.hours), FieldText(e.dom), FieldText(e.months), FieldText(e.dow)];
    JoinEnds(words);
    StripEnds(ExpressionText(e));
    WordsOfJoin(words);
  }

  /** What a field denotes: the values some item reaches from its first in whole steps. */
  lemma {:induction false} DenoteMeans(items: seq<Item>, min: int, max: int, v: int)
    ensures Denote(items, min, max).None? <==> exists i :: 0 <= i < |items| && ItemRange(items[i], min, max).None?
    ensures Denote(items, min, max).Some? ==>
              (v in Denote(items, min, max).value <==>
               exists i :: 0 <= i < |items| && ItemRange(items[i], min, max).Some? &&
                           Reaches(ItemRange(items[i], min, max).value, v))
  {
    hide ItemRange, RangeSet, Reaches;
    if items != [] {
      var n := |items| - 1;
      DenoteMeans(items[..n], min, max, v);
      if ItemRange(items[n], min, max).Some? {
        ReachesIsRange(items[n], min, max, v);
      }
    }
  }

  predicate Reaches(r: Range, v: int)
    requires r.step >= 1
  {
    r.lo <= v <= r.hi && (v - r.lo) % r.step == 0
  }

  lemma ReachesIsRange(item: Item, min: int, max: int, v: int)
    requires ItemRange(item, min, max).Some?
    ensures ItemRange(item, min, max).value.step >= 1
    ensures v in RangeSet(ItemRange(item, min, max).value) <==> Reaches(ItemRange(item, min, max).value, v)
  {
    RangeSetMembers(ItemRange(item, min, max).value, v);
  }

  // --- when a written expression fires ---

  function StepOf(item: Item): nat {
    if item.step.None? then 1 else item.step.value
  }

  /** `*` names every value of the field, a number itself alone, a span its values; with a step, from its first on. */
  predicate ItemNames(item: Item, min: int, max: int, v: int) {
    && StepOf(item) > 0
    && match item
       case Every(_) => min <= v <= max && (v - min) % StepOf(item) == 0
       case One(a, _) => v == a
       case Span(a, b, _) => a <= v <= b && (v - a) % StepOf(item) == 0
  }

  /** The item has a step of at least one and lies within the field's bounds. */
  predicate ItemInBounds(item: Item, min: int, max: int) {
    && StepOf(item) > 0
    && match item
       case Every(_) => min <= max
       case One(a, _) => min <= a <= max
       case Span(a, b, _) => min <= a <= b <= max
  }

  predicate InBounds(items: seq<Item>, min: int, max: int) {
    forall i :: 0 <= i < |items| ==> ItemInBounds(items[i], min, max)
  }

  /** Some item of a field names the value. */
  predicate Names(items: seq<Item>, min: int, max: int, v: int) {
    exists i :: 0 <= i < |items| && ItemInBounds(items[i], min, max) && ItemNames(items[i], min, max, v)
  }

  lemma ItemMeans(item: Item, min: int, max: int, v: int)
    ensures ItemRange(item, min, max).Some? <==> ItemInBounds(item, min, max)
    ensures ItemRange(item, min, max).Some? ==>
              (Reaches(ItemRange(item, min, max).value, v) <==> ItemNames(item, min, max, v))
  {
  }

  lemma FieldMeans(items: seq<Item>, min: int, max: int, v: int)
    ensures Denote(items, min, max).Some? <==> InBounds(items, min, max)
    ensures Denote(items, min, max).Some? ==> (v in Denote(items, min, max).value <==> Names(items, min, max, v))
  {
    hide Denote, ItemRange, Reaches, ItemInBounds, ItemNames;
    DenoteMeans(items, min, max, v);
    forall i | 0 <= i < |items|
      ensures ItemRange(items[i], min, max).Some? <==> ItemInBounds(items[i], min, max)
      ensures ItemRange(items[i], min, max).Some? ==>
                (Reaches(ItemRange(items[i], min, max).value, v) <==> ItemNames(items[i], min, max, v))
    {
      ItemMeans(items[i], min, max, v);
    }
  }

  lemma FieldNames(items: seq<Item>, min: int, max: int)
    ensures Denote(items, min, max).Some? <==> InBounds(items, min, max)
    ensures Denote(items, min, max).Some? ==>
              forall v :: v in Denote(items, min, max).value <==> Names(items, min, max, v)
  {
    hide Denote, InBounds, Names;
    FieldMeans(items, min, max, 0);
    if Denote(items, min, max).Some? {
      forall v ensures v in Denote(items, min, max).value <==> Names(items, min, max, v) {
        FieldMeans(items, min, max, v);
      }
    }
  }

  /** In the last field 0 and 7 are both Sunday. */
  lemma SundayTwice(dow: set<int>, day: int)
    requires (forall v :: v in dow ==> 0 <= v <= 7) && 0 <= day < 7
    ensures day in Sundays(dow) <==> exists v :: v in dow && v % 7 == day
  {
    if day in Sundays(dow) {
      var v := if day in dow then day else 7;
      assert v in dow && v % 7 == day;
    }
  }

  lemma NamedDaysAreInBounds(items: seq<Item>)
    ensures forall v :: Names(items, 0, 7, v) ==> 0 <= v <= 7
  {
  }

  /** What is written is read unless an item is out of bounds. */
  lemma WrittenIsRead(e: Expression)
    requires Complete(e)
    ensures ScheduleOf(Words(Strip(ExpressionText(e)))).Some? <==>
            && InBounds(e.minutes, 0, 59) && InBounds(e.hours, 0, 23) && InBounds(e.dom, 1, 31)
            && InBounds(e.months, 1, 12) && InBounds(e.dow, 0, 7)
  {
    hide ScheduleOf, Words, Strip, ExpressionText, Denote, InBounds, Sundays;
    ExpressionReadsBack(e);
    FieldNames(e.minutes, 0, 59);
    FieldNames(e.hours, 0, 23);
    FieldNames(e.dom, 1, 31);
    FieldNames(e.months, 1, 12);
    FieldNames(e.dow, 0, 7);
  }

  /**
   A written expression, once read, fires at exactly the minutes whose minute,
   hour, day of the month, month and day of the week its five fields name, in
   this order; 7 fires on the days of 0.
   */
  lemma WrittenExpressionFires(e: Expression, m: nat, d: Date)
    requires Complete(e) && ValidDate(d) && Ordinal(d) == m / 1440 + 1
    ensures var read := ScheduleOf(Words(Strip(ExpressionText(e))));
            read.Some? ==>
              (Fires(read.value, m) <==>
               && Names(e.minutes, 0, 59, m % 60) && Names(e.hours, 0, 23, m / 60 % 24)
               && Names(e.dom, 1, 31, d.day) && Names(e.months, 1, 12, d.month)
               && exists v :: Names(e.dow, 0, 7, v) && v % 7 == DayOfWeek(m))
  {
    hide ScheduleOf, Words, Strip, ExpressionText, Denote, Names, Ordinal, ValidDate, Fires, Sundays, Complete;
    ExpressionReadsBack(e);
    FieldNames(e.minutes, 0, 59);
    FieldNames(e.hours, 0, 23);
    FieldNames(e.dom, 1, 31);
    FieldNames(e.months, 1, 12);
    FieldNames(e.dow, 0, 7);
    NamedDaysAreInBounds(e.dow);
    var read := ScheduleOf(Words(Strip(ExpressionText(e))));
    if read.Some? {
      SundayTwice(Denote(e.dow, 0, 7).value, DayOfWeek(m));
      FiresExactly(read.value, m, d);
    }
  }
}
