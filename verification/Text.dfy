/** Splitting and joining text at a separator, as Go's and Python's libraries do. */
module Text {

  /** The text between separators, once around each. */
  function Split(s: string, sep: char): (parts: seq<string>)
    ensures |parts| > 0 && forall p :: p in parts ==> sep !in p
  {
    if s == "" then [""]
    else
      var rest := Split(s[1..], sep);
      if s[0] == sep then [""] + rest else [[s[0]] + rest[0]] + rest[1..]
  }

  function Join(parts: seq<string>, sep: char): string
    requires parts != []
  {
    if |parts| == 1 then parts[0] else parts[0] + [sep] + Join(parts[1..], sep)
  }

  /** Two lists of parts whose texts touch: the last part of one and the first of the other are one. */
  function Glue(a: seq<string>, b: seq<string>): seq<string>
    requires a != [] && b != []
  {
    a[..|a| - 1] + [a[|a| - 1] + b[0]] + b[1..]
  }

  /** What one more leading character does to the parts. */
  function Push(c: char, parts: seq<string>, sep: char): seq<string>
    requires parts != []
  {
    if c == sep then [""] + parts else [[c] + parts[0]] + parts[1..]
  }

  lemma {:induction false} SplitConcat(a: string, b: string, sep: char)
    ensures Split(a + b, sep) == Glue(Split(a, sep), Split(b, sep))
  {
    hide Push, Glue;
    if a == "" {
      assert a + b == b;
      GlueNothing(Split(b, sep));
    } else {
      SplitConcat(a[1..], b, sep);
      assert (a + b)[1..] == a[1..] + b;
      SplitPushes(a + b, sep);
      SplitPushes(a, sep);
      PushGlue(a[0], Split(a[1..], sep), Split(b, sep), sep);
    }
  }

  lemma SplitPushes(s: string, sep: char)
    requires s != ""
    ensures Split(s, sep) == Push(s[0], Split(s[1..], sep), sep)
  {
  }

  lemma GlueNothing(parts: seq<string>)
    requires parts != []
    ensures Glue([""], parts) == parts
  {
    assert "" + parts[0] == parts[0];
  }

  lemma GlueMore(x: string, rest: seq<string>, tail: seq<string>)
    requires rest != [] && tail != []
    ensures Glue([x] + rest, tail) == [x] + Glue(rest, tail)
  {
    var n := |rest| - 1;
    assert ([x] + rest)[..n + 1] == [x] + rest[..n];
    assert ([x] + rest)[n + 1] == rest[n];
  }

  lemma PushGlue(c: char, rest: seq<string>, tail: seq<string>, sep: char)
    requires rest != [] && tail != []
    ensures Glue(Push(c, rest, sep), tail) == Push(c, Glue(rest, tail), sep)
  {
    if c == sep {
      GlueMore("", rest, tail);
    } else if |rest| == 1 {
      PushGlueOne(c, rest[0], tail, sep);
      assert rest == [rest[0]];
    } else {
      var r, more := rest[0], rest[1..];
      GlueMore([c] + r, more, tail);
      GlueMore(r, more, tail);
      assert rest == [r] + more;
      PushFirst(c, r, Glue(more, tail), sep);
    }
  }

  lemma PushFirst(c: char, r: string, more: seq<string>, sep: char)
    requires c != sep
    ensures Push(c, [r] + more, sep) == [[c] + r] + more
  {
  }

  lemma PushGlueOne(c: char, r: string, tail: seq<string>, sep: char)
    requires c != sep && tail != []
    ensures Glue(Push(c, [r], sep), tail) == Push(c, Glue([r], tail), sep)
  {
    assert [c] + (r + tail[0]) == ([c] + r) + tail[0];
    assert Push(c, [r], sep) == [[c] + r];
    assert Glue([r], tail) == [r + tail[0]] + tail[1..];
  }

  lemma {:induction false} SplitWhole(s: string, sep: char)
    requires sep !in s
    ensures Split(s, sep) == [s]
  {
    if s != "" {
      SplitWhole(s[1..], sep);
      assert [s[0]] + s[1..] == s;
    }
  }

  /** Splitting at a separator in the middle. */
  lemma SplitAtSeparator(a: string, b: string, sep: char)
    ensures Split(a + [sep] + b, sep) == Split(a, sep) + Split(b, sep)
  {
    SplitConcat(a, [sep] + b, sep);
    assert a + ([sep] + b) == a + [sep] + b;
    assert ([sep] + b)[1..] == b;
    var x := Split(a, sep);
    assert x[|x| - 1] + "" == x[|x| - 1];
    assert x == x[..|x| - 1] + [x[|x| - 1]];
  }

  /** Parts without the separator come back from their join. */
  lemma {:induction false} SplitJoin(parts: seq<string>, sep: char)
    requires parts != [] && forall p :: p in parts ==> sep !in p
    ensures Split(Join(parts, sep), sep) == parts
  {
    SplitWhole(parts[0], sep);
    if |parts| > 1 {
      SplitJoin(parts[1..], sep);
      SplitAtSeparator(parts[0], Join(parts[1..], sep), sep);
    }
  }

  /** A text with a single part is that part. */
  lemma {:induction false} OnePart(s: string, sep: char)
    requires |Split(s, sep)| == 1
    ensures Split(s, sep) == [s]
  {
    if s != "" {
      OnePart(s[1..], sep);
      assert [s[0]] + s[1..] == s;
    }
  }

  /** A join has at least as many parts as were joined, and just as many only if none holds the separator. */
  lemma {:induction false} PartsOfJoin(parts: seq<string>, sep: char)
    requires parts != []
    ensures |Split(Join(parts, sep), sep)| >= |parts|
    ensures |Split(Join(parts, sep), sep)| == |parts| ==> forall p :: p in parts ==> sep !in p
  {
    var first := Split(parts[0], sep);
    if |first| == 1 {
      OnePart(parts[0], sep);
    }
    assert |first| == 1 ==> parts[0] in first && sep !in parts[0];
    if |parts| > 1 {
      PartsOfJoin(parts[1..], sep);
      SplitAtSeparator(parts[0], Join(parts[1..], sep), sep);
      assert parts == [parts[0]] + parts[1..];
    } else {
      assert parts == [parts[0]];
    }
  }

  /** Parts without the separator are the only ones, among as many, that join to their text. */
  lemma JoinDetermines(f: seq<string>, g: seq<string>, sep: char)
    requires |f| == |g| > 0 && Join(f, sep) == Join(g, sep)
    requires forall p :: p in f ==> sep !in p
    ensures f == g
  {
    hide Split, Join;
    SplitJoin(f, sep);
    PartsOfJoin(g, sep);
    SplitJoin(g, sep);
  }
}
