/**
 The path boundary test of the disk scan (worker/disk_scan.go, isAllowedScanPath).
 Resolving a path against the file system is a parameter that may fail.
 */
module ScanPath {
  import opened Common
  import opened Text

  /** A file name: not empty, and without the separator. */
  predicate IsName(c: string) {
    c != "" && '/' !in c
  }

  predicate AreNames(names: seq<string>) {
    forall c :: c in names ==> IsName(c)
  }

  /** The names below the root, each after a separator. */
  function Tail(names: seq<string>): (t: string)
    ensures t != "" ==> t[0] == '/'
    ensures t == "" <==> names == []
  {
    if names == [] then "" else "/" + names[0] + Tail(names[1..])
  }

  /** The text of a canonical absolute path. */
  function PathText(names: seq<string>): string {
    if names == [] then "/" else Tail(names)
  }

  /** The source's comparison of two canonical paths. */
  predicate AtBoundary(path: string, mount: string) {
    mount == "/" || (mount <= path && (|path| == |mount| || path[|mount|] == '/'))
  }

  lemma {:induction false} TailBoundary(path: seq<string>, mount: seq<string>)
    requires AreNames(path) && AreNames(mount)
    ensures (Tail(mount) <= Tail(path) && (|Tail(path)| == |Tail(mount)| || Tail(path)[|Tail(mount)|] == '/'))
            <==> mount <= path
  {
    if mount != [] && path != [] {
      var x, y := mount[0], path[0];
      var restM, restP := Tail(mount[1..]), Tail(path[1..]);
      TailBoundary(path[1..], mount[1..]);
      if x == y {
        assert Tail(mount) == ("/" + x) + restM && Tail(path) == ("/" + x) + restP;
        PrefixAfter("/" + x, restM, restP);
        assert mount <= path <==> mount[1..] <= path[1..] by {
          PrefixAfter([x], mount[1..], path[1..]);
          assert [x] + mount[1..] == mount && [x] + path[1..] == path;
        }
      } else {
        assert IsName(x) && IsName(y);
        if Tail(mount) <= Tail(path) && (|Tail(path)| == |Tail(mount)| || Tail(path)[|Tail(mount)|] == '/') {
          NamesAgree(x, y, restM, restP);
        }
      }
    }
  }

  lemma PrefixAfter<T>(a: seq<T>, b: seq<T>, c: seq<T>)
    ensures a + b <= a + c <==> b <= c
  {
    if a + b <= a + c {
      assert b == (a + b)[|a|..] && c == (a + c)[|a|..];
    }
  }

  /** What stands before the first separator. */
  lemma FirstPart(x: string, rest: string)
    requires IsName(x) && (rest != "" ==> rest[0] == '/')
    ensures Split(x + rest, '/')[0] == x
  {
    SplitWhole(x, '/');
    SplitConcat(x, rest, '/');
    assert Split(rest, '/')[0] == "" && x + "" == x;
  }

  lemma NamesAgree(x: string, y: string, restX: string, restY: string)
    requires IsName(x) && IsName(y)
    requires (restX != "" ==> restX[0] == '/') && (restY != "" ==> restY[0] == '/')
    requires var m, p := "/" + x + restX, "/" + y + restY;
             m <= p && (|p| == |m| || p[|m|] == '/')
    ensures x == y
  {
    hide Split;
    var m, p := "/" + x + restX, "/" + y + restY;
    var more := p[|m|..];
    assert p == m + more && (more != "" ==> more[0] == '/');
    assert p[1..] == y + restY && (m + more)[1..] == x + (restX + more);
    FirstPart(x, restX + more);
    FirstPart(y, restY);
  }

  /** The text comparison accepts exactly the mount itself and what lies below it. */
  lemma BoundaryIsContainment(path: seq<string>, mount: seq<string>)
    requires AreNames(path) && AreNames(mount)
    ensures AtBoundary(PathText(path), PathText(mount)) <==> mount <= path
  {
    TailBoundary(path, mount);
    if mount != [] {
      assert IsName(mount[0]) && |Tail(mount)| >= 2;
    }
  }

  // --- cleaning, and the path of a directory's entry ---

  /** A component is dropped, climbs, or is entered; a relative path may climb out of where it starts. */
  function Enter(names: seq<string>, part: string, rooted: bool): seq<string> {
    if part == "" || part == "." then names
    else if part == ".." then
      if names != [] && names[|names| - 1] != ".." then names[..|names| - 1]
      else if rooted then names
      else names + [part]
    else names + [part]
  }

  function Walked(names: seq<string>, parts: seq<string>, rooted: bool): seq<string>
    decreases |parts|
  {
    if parts == [] then names else Walked(Enter(names, parts[0], rooted), parts[1..], rooted)
  }

  predicate Rooted(path: string) {
    path != "" && path[0] == '/'
  }

  /** Go's filepath.Clean. */
  function Clean(path: string): string {
    var names := Walked([], Split(path, '/'), Rooted(path));
    if Rooted(path) then PathText(names) else if names == [] then "." else Join(names, '/')
  }

  /** Go's filepath.Join of a directory and an entry of it. */
  function ChildPath(path: string, name: string): string {
    if path == "" then Clean(name) else Clean(path + "/" + name)
  }

  /** A name that is entered, as a directory's entries are. */
  predicate IsEntry(name: string) {
    IsName(name) && name != "." && name != ".."
  }

  predicate AreEntries(names: seq<string>) {
    forall c :: c in names ==> IsEntry(c)
  }

  lemma {:induction false} WalkedThrough(names: seq<string>, parts: seq<string>, rooted: bool)
    requires AreEntries(parts)
    ensures Walked(names, parts, rooted) == names + parts
    decreases |parts|
  {
    if parts == [] {
      assert names + parts == names;
    } else {
      assert IsEntry(parts[0]);
      WalkedThrough(names + [parts[0]], parts[1..], rooted);
      assert names + [parts[0]] + parts[1..] == names + parts;
    }
  }

  lemma SplitSlash(rest: string)
    ensures Split("/" + rest, '/') == [""] + Split(rest, '/')
  {
    SplitWhole("", '/');
    SplitAtSeparator("", rest, '/');
    assert "" + ['/'] + rest == "/" + rest;
  }

  lemma SplitName(x: string, rest: string, parts: seq<string>)
    requires IsName(x) && Split(rest, '/') == [""] + parts
    ensures Split(x + rest, '/') == [x] + parts
  {
    hide Split;
    SplitWhole(x, '/');
    SplitConcat(x, rest, '/');
    assert x + "" == x && ([""] + parts)[1..] == parts;
  }

  /** A canonical path is split into nothing and its names. */
  lemma {:induction false} SplitTail(names: seq<string>, more: string)
    requires AreNames(names)
    ensures Split(Tail(names) + "/" + more, '/') == [""] + (names + Split(more, '/'))
  {
    hide Split, IsName, Tail;
    TailStep(names, more);
    if names == [] {
      SplitSlash(more);
      assert names + Split(more, '/') == Split(more, '/');
    } else {
      var x, rest, parts := names[0], Tail(names[1..]) + "/" + more, Split(more, '/');
      SplitTail(names[1..], more);
      SplitName(x, rest, names[1..] + parts);
      SplitSlash(x + rest);
      Concat3([x], names[1..], parts);
      assert names == [x] + names[1..];
    }
  }

  lemma TailStep(names: seq<string>, more: string)
    ensures Tail(names) + "/" + more ==
            if names == [] then "/" + more else "/" + (names[0] + (Tail(names[1..]) + "/" + more))
  {
    if names == [] {
      assert "" + "/" + more == "/" + more;
    } else {
      var t := Tail(names[1..]);
      assert "/" + names[0] + t + "/" + more == "/" + (names[0] + (t + "/" + more));
    }
  }

  lemma EmptyPartIsDropped(names: seq<string>, parts: seq<string>)
    ensures Walked(names, [""] + parts, true) == Walked(names, parts, true)
  {
    assert ([""] + parts)[1..] == parts;
  }

  /** Below a canonical directory an entry's path is one name longer. */
  lemma ChildOfCanonical(names: seq<string>, name: string)
    requires AreEntries(names) && IsEntry(name)
    ensures ChildPath(PathText(names), name) == PathText(names + [name])
  {
    hide Split, Walked, Join;
    var parts := names + [name];
    SplitWhole(name, '/');
    if names == [] {
      SplitTail([], "/" + name);
      SplitTail([], name);
      assert PathText(names) + "/" + name == Tail([]) + "/" + ("/" + name);
      assert "/" + name == Tail([]) + "/" + name;
      assert [] + [name] == parts && [] + ([""] + parts) == [""] + parts;
      EmptyPartIsDropped([], [""] + parts);
    } else {
      assert forall c :: c in names ==> IsName(c);
      SplitTail(names, name);
    }
    EmptyPartIsDropped([], parts);
    WalkedThrough([], parts, true);
    assert [] + parts == parts;
  }

  /** The path resolves to a mount or to something below one. */
  predicate Allowed(path: string, mounts: seq<string>, canon: string -> Option<seq<string>>) {
    && canon(path).Some?
    && exists i :: 0 <= i < |mounts| && canon(mounts[i]).Some? && canon(mounts[i]).value <= canon(path).value
  }

  /** `canon` is what cleaning and resolving a path gives, if it succeeds. */
  method IsAllowedScanPath(path: string, mounts: seq<string>, canon: string -> Option<seq<string>>) returns (ok: bool)
    requires forall s :: canon(s).Some? ==> AreNames(canon(s).value)
    ensures ok == Allowed(path, mounts, canon)
  {
    if |mounts| == 0 {
      return false;
    }
    var absPath := canon(path);
    if absPath.None? {
      return false;
    }
    for i := 0 to |mounts|
      invariant forall j :: 0 <= j < i ==> canon(mounts[j]).None? || !(canon(mounts[j]).value <= absPath.value)
    {
      var absMount := canon(mounts[i]);
      if absMount.None? {
        continue;
      }
      BoundaryIsContainment(absPath.value, absMount.value);
      if PathText(absMount.value) == "/" {
        return true;
      }
      if PathText(absMount.value) <= PathText(absPath.value) {
        if |PathText(absPath.value)| == |PathText(absMount.value)|
           || PathText(absPath.value)[|PathText(absMount.value)|] == '/' {
          return true;
        }
      }
    }
    return false;
  }
}
