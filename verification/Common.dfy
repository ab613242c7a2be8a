/** Datatypes and counting facts shared by the models. */
module Common {

  datatype Option<+T> = None | Some(value: T)

  /** The larger of two integers. */
  function Max(a: int, b: int): int {
    if a < b then b else a
  }

  /** How many elements of a sequence satisfy a predicate. */
  function Count<T>(s: seq<T>, p: T -> bool): nat {
    if s == [] then 0 else Count(s[..|s| - 1], p) + (if p(s[|s| - 1]) then 1 else 0)
  }

  lemma {:induction false} CountUpdate<T>(s: seq<T>, i: nat, x: T, p: T -> bool)
    requires i < |s|
    ensures Count(s[i := x], p) == Count(s, p) - (if p(s[i]) then 1 else 0) + (if p(x) then 1 else 0)
  {
    var n := |s| - 1;
    if i == n {
      assert s[i := x][..n] == s[..n];
    } else {
      assert s[i := x][..n] == s[..n][i := x];
      CountUpdate(s[..n], i, x, p);
    }
  }

  lemma CountAppend<T>(s: seq<T>, x: T, p: T -> bool)
    ensures Count(s + [x], p) == Count(s, p) + (if p(x) then 1 else 0)
  {
    assert (s + [x])[..|s|] == s;
  }

  lemma {:induction false} CountPositive<T>(s: seq<T>, i: nat, p: T -> bool)
    requires i < |s| && p(s[i])
    ensures Count(s, p) >= 1
  {
    if i < |s| - 1 {
      CountPositive(s[..|s| - 1], i, p);
    }
  }

  lemma {:induction false} CountNone<T>(s: seq<T>, p: T -> bool)
    ensures Count(s, p) == 0 <==> forall x :: x in s ==> !p(x)
  {
    if s != [] {
      var n := |s| - 1;
      CountNone(s[..n], p);
      assert s == s[..n] + [s[n]];
    }
  }

  /** A predicate that implies another is satisfied by no more elements. */
  lemma {:induction false} CountMonotone<T>(s: seq<T>, p: T -> bool, q: T -> bool)
    requires forall x :: x in s && p(x) ==> q(x)
    ensures Count(s, p) <= Count(s, q)
  {
    if s != [] {
      CountMonotone(s[..|s| - 1], p, q);
    }
  }

  /** The sum of a measure over a sequence. */
  function Sum<T>(s: seq<T>, f: T -> int): int {
    if s == [] then 0 else Sum(s[..|s| - 1], f) + f(s[|s| - 1])
  }

  lemma {:induction false} SumUpdate<T>(s: seq<T>, i: nat, x: T, f: T -> int)
    requires i < |s|
    ensures Sum(s[i := x], f) == Sum(s, f) - f(s[i]) + f(x)
  {
    var n := |s| - 1;
    if i == n {
      assert s[i := x][..n] == s[..n];
    } else {
      assert s[i := x][..n] == s[..n][i := x];
      SumUpdate(s[..n], i, x, f);
    }
  }

  lemma SumAppend<T>(s: seq<T>, x: T, f: T -> int)
    ensures Sum(s + [x], f) == Sum(s, f) + f(x)
  {
    assert (s + [x])[..|s|] == s;
  }

  lemma {:induction false} SumConcat<T>(a: seq<T>, b: seq<T>, f: T -> int)
    ensures Sum(a + b, f) == Sum(a, f) + Sum(b, f)
  {
    if b == [] {
      assert a + b == a;
    } else {
      var n := |b| - 1;
      assert a + b == (a + b[..n]) + [b[n]] && b == b[..n] + [b[n]];
      SumConcat(a, b[..n], f);
      SumAppend(a + b[..n], b[n], f);
    }
  }

  lemma {:induction false} CountConcat<T>(a: seq<T>, b: seq<T>, p: T -> bool)
    ensures Count(a + b, p) == Count(a, p) + Count(b, p)
  {
    if b == [] {
      assert a + b == a;
    } else {
      var n := |b| - 1;
      assert a + b == (a + b[..n]) + [b[n]] && b == b[..n] + [b[n]];
      CountConcat(a, b[..n], p);
      CountAppend(a + b[..n], b[n], p);
    }
  }

  lemma {:induction false} SumNonNegative<T>(s: seq<T>, f: T -> int)
    requires forall x :: x in s ==> f(x) >= 0
    ensures Sum(s, f) >= 0
  {
    if s != [] {
      SumNonNegative(s[..|s| - 1], f);
    }
  }

  /** Appending one element to both sides of an equation changes nothing, and to one side too much. */
  lemma SnocEqual<T>(a: seq<T>, b: seq<T>, x: T)
    ensures a + [x] == b + [x] <==> a == b
    ensures |a| <= |b| ==> a != b + [x]
  {
    if a + [x] == b + [x] {
      assert a == (a + [x])[..|a|] && b == (b + [x])[..|b|];
    }
  }

  /** Cutting a concatenation of four sequences at its seams. */
  lemma Seams<T>(a: seq<T>, b: seq<T>, c: seq<T>, d: seq<T>)
    ensures var s := a + b + c + d;
            && s[..|a|] == a
            && s[|a|..|a| + |b|] == b
            && s[|a| + |b|..] == c + d
            && s[|a| + |b|..|a| + |b| + |c|] == c
            && s[|a| + |b| + |c|..] == d
  {
  }

  /** A sequence is its first two elements and its pieces between three cuts. */
  lemma Pieces<T>(s: seq<T>, i: nat, j: nat, k: nat)
    requires 2 <= i <= j <= k <= |s|
    ensures s == [s[0], s[1]] + s[2..i] + s[i..j] + s[j..k] + s[k..]
  {
  }

  /** If a prefix of `a` is `b + r`, then `a` is `b` followed by `r` and what was cut off. */
  lemma Rejoin<T>(a: seq<T>, k: nat, b: seq<T>, r: seq<T>)
    requires k <= |a| && a[..k] == b + r
    ensures b + (r + a[k..]) == a
  {
  }

  /** The concatenation of a list of chunks. */
  function Flatten<T>(chunks: seq<seq<T>>): seq<T> {
    if chunks == [] then [] else chunks[0] + Flatten(chunks[1..])
  }

  lemma Concat3<T>(a: seq<T>, b: seq<T>, c: seq<T>)
    ensures a + b + c == a + (b + c)
  {
  }

  lemma SliceOfSuffixIfFits<T>(s: seq<T>, i: nat, n: nat)
    requires i <= |s|
    ensures i + n <= |s| ==> s[i..][..n] == s[i..i + n] && s[i..][n..] == s[i + n..]
  {
  }

  function Map<P, T>(items: seq<P>, f: P -> T): (r: seq<T>)
    ensures |r| == |items| && forall i :: 0 <= i < |items| ==> r[i] == f(items[i])
  {
    seq(|items|, i requires 0 <= i < |items| => f(items[i]))
  }

  /** A chunk that a reader takes for exactly one message, whatever follows it. */
  ghost predicate ReadsAs<B(!new), M>(read: seq<B> -> seq<M>, chunk: seq<B>, m: M) {
    forall more :: read(chunk + more) == [m] + read(more)
  }

  /** If each chunk reads as its own message, all of them read back in order. */
  lemma {:induction false} ChunksReadBack<B(!new), M>(chunks: seq<seq<B>>, messages: seq<M>, read: seq<B> -> seq<M>,
                                                      tail: seq<B>)
    requires |chunks| == |messages|
    requires forall i :: 0 <= i < |chunks| ==> ReadsAs(read, chunks[i], messages[i])
    ensures read(Flatten(chunks) + tail) == messages + read(tail)
  {
    if chunks == [] {
      assert Flatten(chunks) + tail == tail;
    } else {
      var rest := Flatten(chunks[1..]);
      ChunksReadBack(chunks[1..], messages[1..], read, tail);
      Concat3(chunks[0], rest, tail);
      assert ReadsAs(read, chunks[0], messages[0]);
      assert read(chunks[0] + (rest + tail)) == [messages[0]] + read(rest + tail);
    }
  }
}
