/**
 Rotation of refresh tokens (master/api/auth.py): what the handlers do to the
 rows of refresh_tokens, in the order they were inserted.  A handler is one step;
 the last section takes a rotation apart.  Tokens are known by their hash.
 */
module RefreshTokens {
  import opened Common

  type Hash = string

  datatype Row = Row(hash: Hash, user: string, family: string, expiresAt: real, revoked: bool)

  /**
   What the handlers are called with, and what the libraries they call answer:
   whether the password fits, whose valid token it is, whether that user is
   active, and the random identifiers drawn.
   */
  datatype Request =
    | Login(demo: bool, user: string, welcome: bool, newHash: Hash, newFamily: string, expiresAt: real)
    | Refresh(hash: Hash, subject: Option<string>, active: bool, now: real, newHash: Hash, expiresAt: real)
    | Logout(hash: Hash)
    | ChangePassword(demo: bool, user: string, fits: bool)

  datatype Answer = Issued | Unauthorized | TokenReused | TokenExpired | Done | DatabaseError

  const DEMO_USER_ID := "demo-user"

  // --- the table ---

  function Find(rows: seq<Row>, hash: Hash): (r: Option<nat>)
    ensures r.Some? ==> r.value < |rows| && rows[r.value].hash == hash
    ensures r.None? ==> forall i :: 0 <= i < |rows| ==> rows[i].hash != hash
  {
    if rows == [] then None
    else if rows[|rows| - 1].hash == hash then Some(|rows| - 1)
    else Find(rows[..|rows| - 1], hash)
  }

  function Revoked(row: Row): Row {
    row.(revoked := true)
  }

  /** UPDATE refresh_tokens SET revoked = 1 WHERE … */
  function RevokeWhere(rows: seq<Row>, p: Row -> bool): seq<Row> {
    Map(rows, row => if p(row) then Revoked(row) else row)
  }

  function InFamily(family: string): Row -> bool {
    (row: Row) => row.family == family
  }

  function HasHash(hash: Hash): Row -> bool {
    (row: Row) => row.hash == hash
  }

  function OwnedBy(user: string): Row -> bool {
    (row: Row) => row.user == user
  }

  /** INSERT, refused by the unique hash. */
  function Insert(rows: seq<Row>, row: Row): Option<seq<Row>> {
    if Find(rows, row.hash).Some? then None else Some(rows + [row])
  }

  predicate FamilyExists(rows: seq<Row>, family: string) {
    exists i :: 0 <= i < |rows| && rows[i].family == family
  }

  // --- the handlers ---

  /** The second half of a refresh: revoke the row that was looked up, insert its successor. */
  function Rotate(rows: seq<Row>, spent: nat, newHash: Hash, expiresAt: real): Option<seq<Row>>
    requires spent < |rows|
  {
    Insert(rows[spent := Revoked(rows[spent])], Row(newHash, rows[spent].user, rows[spent].family, expiresAt, false))
  }

  function Step(rows: seq<Row>, q: Request): (seq<Row>, Answer) {
    match q
    case Login(demo, user, welcome, newHash, newFamily, expiresAt) =>
      if demo then (rows, Issued)
      else if !welcome then (rows, Unauthorized)
      else
        (match Insert(rows, Row(newHash, user, newFamily, expiresAt, false))
         case None => (rows, DatabaseError)
         case Some(r) => (r, Issued))
    case Refresh(hash, subject, active, now, newHash, expiresAt) =>
      if subject.None? then (rows, Unauthorized)
      else if subject.value == DEMO_USER_ID then (rows, Issued)
      else if Find(rows, hash).None? then (rows, Unauthorized)
      else
        var spent := Find(rows, hash).value;
        if rows[spent].revoked then (RevokeWhere(rows, InFamily(rows[spent].family)), TokenReused)
        else if now > rows[spent].expiresAt then (rows, TokenExpired)
        else if !active then (rows, Unauthorized)
        else
          (match Rotate(rows, spent, newHash, expiresAt)
           case None => (rows, DatabaseError)
           case Some(r) => (r, Issued))
    case Logout(hash) => (RevokeWhere(rows, HasHash(hash)), Done)
    case ChangePassword(demo, user, fits) =>
      if demo || !fits then (rows, Unauthorized)
      else (RevokeWhere(rows, OwnedBy(user)), Done)
  }

  /** Random family identifiers do not repeat. */
  predicate FreshFamily(rows: seq<Row>, q: Request) {
    q.Login? ==> !FamilyExists(rows, q.newFamily)
  }

  /** A run of the handlers from an empty table, in which that holds throughout. */
  predicate Possible(requests: seq<Request>) {
    requests == [] || (var n := |requests| - 1;
                       Possible(requests[..n]) && FreshFamily(Run(requests[..n]), requests[n]))
  }

  function Run(requests: seq<Request>): seq<Row> {
    if requests == [] then [] else Step(Run(requests[..|requests| - 1]), requests[|requests| - 1]).0
  }

  // --- one live token per family, the newest ---

  predicate Live(rows: seq<Row>, i: int) {
    0 <= i < |rows| && !rows[i].revoked
  }

  /** A token that is not revoked is the newest of its family; so a family has at most one. */
  ghost predicate NewestOnly(rows: seq<Row>) {
    forall i, j :: Live(rows, i) && i < j < |rows| ==> rows[j].family != rows[i].family
  }

  ghost predicate UniqueHashes(rows: seq<Row>) {
    forall i, j :: 0 <= i < j < |rows| ==> rows[i].hash != rows[j].hash
  }

  /** A family belongs to one user. */
  ghost predicate OneOwner(rows: seq<Row>) {
    forall i, j :: 0 <= i < |rows| && 0 <= j < |rows| && rows[i].family == rows[j].family ==>
      rows[i].user == rows[j].user
  }

  ghost predicate Inv(rows: seq<Row>) {
    NewestOnly(rows) && UniqueHashes(rows) && OneOwner(rows)
  }

  ghost predicate Dead(rows: seq<Row>, family: string) {
    forall i :: Live(rows, i) ==> rows[i].family != family
  }

  /** Later rows of the same table: nothing is lost, nothing is unrevoked. */
  ghost predicate Extends(before: seq<Row>, after: seq<Row>) {
    && |before| <= |after|
    && forall i :: 0 <= i < |before| ==> after[i] == before[i] || after[i] == Revoked(before[i])
  }

  lemma RevokeWhereKeepsInv(rows: seq<Row>, p: Row -> bool)
    requires Inv(rows)
    ensures Inv(RevokeWhere(rows, p)) && Extends(rows, RevokeWhere(rows, p))
  {
    var r := RevokeWhere(rows, p);
    assert forall i :: 0 <= i < |rows| ==> r[i] == rows[i] || r[i] == Revoked(rows[i]);
    assert forall i :: Live(r, i) ==> Live(rows, i);
  }

  lemma RotateKeepsInv(rows: seq<Row>, spent: nat, newHash: Hash, expiresAt: real)
    requires Inv(rows) && Live(rows, spent) && Rotate(rows, spent, newHash, expiresAt).Some?
    ensures Inv(Rotate(rows, spent, newHash, expiresAt).value)
    ensures Extends(rows, Rotate(rows, spent, newHash, expiresAt).value)
  {
    var r := Rotate(rows, spent, newHash, expiresAt).value;
    assert forall i :: Live(r, i) && i < |rows| ==> Live(rows, i) && i != spent;
    forall i | Live(r, i) && i < |rows| ensures rows[i].family != rows[spent].family {
      if i < spent {
      } else {
        assert Live(rows, spent) && spent < i;
      }
    }
  }

  lemma LoginKeepsInv(rows: seq<Row>, row: Row)
    requires Inv(rows) && !FamilyExists(rows, row.family) && Insert(rows, row).Some?
    ensures Inv(rows + [row]) && Extends(rows, rows + [row])
  {
    var r := rows + [row];
    assert forall i :: Live(r, i) && i < |rows| ==> Live(rows, i);
  }

  lemma StepKeepsInv(rows: seq<Row>, q: Request)
    requires Inv(rows) && FreshFamily(rows, q)
    ensures Inv(Step(rows, q).0) && Extends(rows, Step(rows, q).0)
  {
    hide Inv, Extends, RevokeWhere, Rotate, FamilyExists;
    Unchanged(rows);
    match q {
      case Login(demo, user, welcome, newHash, newFamily, expiresAt) =>
        if Insert(rows, Row(newHash, user, newFamily, expiresAt, false)).Some? {
          LoginKeepsInv(rows, Row(newHash, user, newFamily, expiresAt, false));
        }
      case Refresh(hash, subject, active, now, newHash, expiresAt) =>
        var found := Find(rows, hash);
        if found.Some? {
          RevokeWhereKeepsInv(rows, InFamily(rows[found.value].family));
          if !rows[found.value].revoked && Rotate(rows, found.value, newHash, expiresAt).Some? {
            RotateKeepsInv(rows, found.value, newHash, expiresAt);
          }
        }
      case Logout(hash) => RevokeWhereKeepsInv(rows, HasHash(hash));
      case ChangePassword(demo, user, fits) => RevokeWhereKeepsInv(rows, OwnedBy(user));
    }
  }

  lemma Unchanged(rows: seq<Row>)
    ensures Extends(rows, rows)
  {
  }

  /** In every run each family has at most one token that is not revoked: its newest. */
  lemma {:induction false} RunKeepsInv(requests: seq<Request>)
    requires Possible(requests)
    ensures Inv(Run(requests))
  {
    hide Inv, Step;
    if requests == [] {
      EmptyInv();
    } else {
      var n := |requests| - 1;
      RunKeepsInv(requests[..n]);
      StepKeepsInv(Run(requests[..n]), requests[n]);
    }
  }

  lemma EmptyInv()
    ensures Inv([])
  {
  }

  // --- what is revoked stays so ---

  /** A family with a token but none alive stays so through any step. */
  lemma DeadStepStaysDead(rows: seq<Row>, q: Request, family: string)
    requires Inv(rows) && FreshFamily(rows, q) && FamilyExists(rows, family) && Dead(rows, family)
    ensures Dead(Step(rows, q).0, family) && FamilyExists(Step(rows, q).0, family)
  {
    hide Inv, Step;
    var after := Step(rows, q).0;
    StepKeepsInv(rows, q);
    var k :| 0 <= k < |rows| && rows[k].family == family;
    assert after[k].family == family;
    NewRowsFamily(rows, q);
    forall i | Live(after, i) ensures after[i].family != family {
      if i < |rows| {
        assert Live(rows, i);
      }
    }
  }

  /** A row that a handler inserts belongs to a live token's family or to a new one. */
  lemma NewRowsFamily(rows: seq<Row>, q: Request)
    ensures forall i :: |rows| <= i < |Step(rows, q).0| ==>
              var family := Step(rows, q).0[i].family;
              (q.Login? && family == q.newFamily) || exists j :: Live(rows, j) && rows[j].family == family
  {
    hide RevokeWhere, FamilyExists;
    if q.Refresh? && Find(rows, q.hash).Some? {
      var spent := Find(rows, q.hash).value;
      assert !rows[spent].revoked ==> Live(rows, spent);
      RevokeKeepsLength(rows, InFamily(rows[spent].family));
    } else if q.Logout? {
      RevokeKeepsLength(rows, HasHash(q.hash));
      assert Step(rows, q).0 == RevokeWhere(rows, HasHash(q.hash));
    } else if q.ChangePassword? {
      RevokeKeepsLength(rows, OwnedBy(q.user));
      assert Step(rows, q).0 == rows || Step(rows, q).0 == RevokeWhere(rows, OwnedBy(q.user));
    }
  }

  lemma RevokeKeepsLength(rows: seq<Row>, p: Row -> bool)
    ensures |RevokeWhere(rows, p)| == |rows|
  {
  }

  /** Whatever runs afterwards, no token of that family is ever alive again. */
  lemma {:induction false} DeadFamiliesStayDead(requests: seq<Request>, more: seq<Request>, family: string)
    requires Possible(requests + more)
    requires FamilyExists(Run(requests), family) && Dead(Run(requests), family)
    ensures Dead(Run(requests + more), family) && FamilyExists(Run(requests + more), family)
    decreases |more|
  {
    hide Inv, Dead, FamilyExists, Step, FreshFamily;
    if more == [] {
      assert requests + more == requests;
    } else {
      var n := |more| - 1;
      Shorter(requests, more);
      DeadFamiliesStayDead(requests, more[..n], family);
      RunKeepsInv(requests + more[..n]);
      DeadStepStaysDead(Run(requests + more[..n]), more[n], family);
    }
  }

  lemma Shorter(requests: seq<Request>, more: seq<Request>)
    requires more != []
    ensures var n := |more| - 1;
            && (requests + more)[..|requests + more| - 1] == requests + more[..n]
            && Run(requests + more) == Step(Run(requests + more[..n]), more[n]).0
            && (Possible(requests + more) ==>
                  Possible(requests + more[..n]) && FreshFamily(Run(requests + more[..n]), more[n]))
  {
    hide Step, FreshFamily;
    assert (requests + more)[..|requests + more| - 1] == requests + more[..|more| - 1];
  }

  /** Presenting a revoked token kills its whole family. */
  lemma ReuseKillsTheFamily(rows: seq<Row>, q: Request, i: nat)
    requires UniqueHashes(rows) && i < |rows|
    requires q.Refresh? && q.hash == rows[i].hash && rows[i].revoked
    requires q.subject.Some? && q.subject.value != DEMO_USER_ID
    ensures Step(rows, q).1 == TokenReused
    ensures Dead(Step(rows, q).0, rows[i].family)
    ensures forall j :: Live(rows, j) && rows[j].family != rows[i].family ==> Step(rows, q).0[j] == rows[j]
  {
  }

  /** A password change kills all of its user's families, and no others. */
  lemma PasswordChangeKillsTheUsersFamilies(rows: seq<Row>, user: string, family: string)
    requires Inv(rows)
    ensures (exists i :: 0 <= i < |rows| && rows[i].family == family && rows[i].user == user) ==>
              Dead(Step(rows, ChangePassword(false, user, true)).0, family)
    ensures (forall i :: 0 <= i < |rows| && rows[i].family == family ==> rows[i].user != user) ==>
              (Dead(Step(rows, ChangePassword(false, user, true)).0, family) <==> Dead(rows, family))
  {
    var after := Step(rows, ChangePassword(false, user, true)).0;
    assert forall i :: Live(after, i) <==> Live(rows, i) && rows[i].user != user;
    assert forall i :: 0 <= i < |rows| ==> after[i].family == rows[i].family;
  }

  /** A logout kills the family exactly when the newest token is presented, if it was alive. */
  lemma LogoutKillsIfNewest(rows: seq<Row>, i: nat)
    requires Inv(rows) && i < |rows|
    ensures Dead(Step(rows, Logout(rows[i].hash)).0, rows[i].family) <==> Live(rows, i) || Dead(rows, rows[i].family)
  {
    var after := Step(rows, Logout(rows[i].hash)).0;
    assert forall j :: 0 <= j < |rows| ==> after[j] == if j == i then Revoked(rows[j]) else rows[j];
    assert forall j :: Live(after, j) <==> Live(rows, j) && j != i;
  }

  // --- a token is exchanged once ---

  predicate Exchanged(rows: seq<Row>, q: Request) {
    q.Refresh? && q.subject != Some(DEMO_USER_ID) && Step(rows, q).1 == Issued
  }

  /** A refresh succeeds exactly for a known, live, unexpired token of an active user, and replaces it. */
  lemma RefreshExchanges(rows: seq<Row>, q: Request)
    requires q.Refresh? && q.subject.Some? && q.subject != Some(DEMO_USER_ID) && Find(rows, q.newHash).None?
    ensures Exchanged(rows, q) <==>
              && q.active && Find(rows, q.hash).Some? && Live(rows, Find(rows, q.hash).value)
              && q.now <= rows[Find(rows, q.hash).value].expiresAt
    ensures Exchanged(rows, q) ==>
              var spent := Find(rows, q.hash).value;
              Step(rows, q).0 ==
              rows[spent := Revoked(rows[spent])] +
              [Row(q.newHash, rows[spent].user, rows[spent].family, q.expiresAt, false)]
  {
    var found := Find(rows, q.hash);
    if found.Some? {
      NotFoundAfterUpdate(rows, found.value, q.newHash);
    }
  }

  lemma NotFoundAfterUpdate(rows: seq<Row>, i: nat, hash: Hash)
    requires i < |rows| && Find(rows, hash).None?
    ensures Find(rows[i := Revoked(rows[i])], hash).None?
  {
    var after := rows[i := Revoked(rows[i])];
    assert forall j :: 0 <= j < |rows| ==> after[j].hash == rows[j].hash;
  }

  /** Once spent — exchanged, logged out or revoked — a token is never exchanged again in any run. */
  lemma {:induction false} RevokedStaysRevoked(requests: seq<Request>, more: seq<Request>, i: nat)
    requires Possible(requests + more) && i < |Run(requests)| && Run(requests)[i].revoked
    ensures i < |Run(requests + more)| && Run(requests + more)[i] == Run(requests)[i]
    decreases |more|
  {
    hide Inv, Step, FreshFamily;
    if more == [] {
      assert requests + more == requests;
    } else {
      var n := |more| - 1;
      Shorter(requests, more);
      RevokedStaysRevoked(requests, more[..n], i);
      RunKeepsInv(requests + more[..n]);
      StepKeepsInv(Run(requests + more[..n]), more[n]);
    }
  }

  /** No token is exchanged twice, and the second attempt kills the family for good. */
  lemma ExchangedAtMostOnce(requests: seq<Request>, first: Request, more: seq<Request>, second: Request)
    requires Possible(requests + [first] + more)
    requires Exchanged(Run(requests), first)
    requires second.Refresh? && second.hash == first.hash
    requires second.subject.Some? && second.subject.value != DEMO_USER_ID
    ensures var spent := Find(Run(requests), first.hash).value;
            var rows := Run(requests + [first] + more);
            && Step(rows, second).1 == TokenReused
            && Dead(Step(rows, second).0, Run(requests)[spent].family)
  {
    hide Step, Possible, FreshFamily;
    ExchangeRevokes(Run(requests), first);
    var spent := Find(Run(requests), first.hash).value;
    Shorter(requests, [first]);
    assert requests + [first][..0] == requests;
    RevokedStaysRevoked(requests + [first], more, spent);
    RunKeepsInv(requests + [first] + more);
    ReuseKillsTheFamily(Run(requests + [first] + more), second, spent);
  }

  lemma ExchangeRevokes(rows: seq<Row>, q: Request)
    requires Exchanged(rows, q)
    ensures Find(rows, q.hash).Some?
    ensures var spent := Find(rows, q.hash).value;
            && spent < |Step(rows, q).0|
            && Step(rows, q).0[spent] == Revoked(rows[spent])
  {
  }

  // --- two refreshes at once ---

  /** A refresh that looked its row up earlier leaves at most one live token exactly if no other one lives meanwhile. */
  lemma LateRotation(rows: seq<Row>, spent: nat, newHash: Hash, expiresAt: real)
    requires Inv(rows) && spent < |rows| && Rotate(rows, spent, newHash, expiresAt).Some?
    ensures NewestOnly(Rotate(rows, spent, newHash, expiresAt).value) <==>
            forall i :: Live(rows, i) && i != spent ==> rows[i].family != rows[spent].family
  {
    var after := Rotate(rows, spent, newHash, expiresAt).value;
    var n := |rows|;
    assert forall i :: 0 <= i < n ==> after[i] == if i == spent then Revoked(rows[i]) else rows[i];
    assert forall i :: Live(after, i) && i < n <==> Live(rows, i) && i != spent;
    assert after[n].family == rows[spent].family;
    if NewestOnly(after) {
      forall i | Live(rows, i) && i != spent ensures rows[i].family != rows[spent].family {
        assert Live(after, i) && i < n < |after|;
      }
    }
  }

  /** A refresh that looked its row up earlier leaves a dead family dead exactly if it is not the token's own. */
  lemma LateRotationRevives(rows: seq<Row>, spent: nat, newHash: Hash, expiresAt: real, family: string)
    requires spent < |rows| && Rotate(rows, spent, newHash, expiresAt).Some? && Dead(rows, family)
    ensures Dead(Rotate(rows, spent, newHash, expiresAt).value, family) <==> family != rows[spent].family
  {
    var after := Rotate(rows, spent, newHash, expiresAt).value;
    assert Live(after, |rows|) && after[|rows|].family == rows[spent].family;
    assert forall i :: Live(after, i) && i < |rows| ==> Live(rows, i) && after[i] == rows[i];
  }

  /** No family that has a token, and none alive, comes alive. */
  ghost predicate RevivesNone(before: seq<Row>, after: seq<Row>) {
    forall family :: FamilyExists(before, family) && Dead(before, family) ==> Dead(after, family)
  }

  /**
   So a refresh taken apart keeps both promises, at most one live token in each
   family and no dead family alive again, exactly if the token it looked up is
   still alive when it comes to revoke it.
   */
  lemma LateRotationIsSafeExactlyIfLive(rows: seq<Row>, spent: nat, newHash: Hash, expiresAt: real)
    requires Inv(rows) && spent < |rows| && Rotate(rows, spent, newHash, expiresAt).Some?
    ensures var after := Rotate(rows, spent, newHash, expiresAt).value;
            NewestOnly(after) && RevivesNone(rows, after) <==> Live(rows, spent)
  {
    hide Rotate, NewestOnly;
    var after := Rotate(rows, spent, newHash, expiresAt).value;
    var family := rows[spent].family;
    LateRotation(rows, spent, newHash, expiresAt);
    if Live(rows, spent) {
      LiveIsAlone(rows, spent);
      forall f | FamilyExists(rows, f) && Dead(rows, f)
        ensures Dead(after, f)
      {
        LateRotationRevives(rows, spent, newHash, expiresAt, f);
      }
    } else if Dead(rows, family) {
      LateRotationRevives(rows, spent, newHash, expiresAt, family);
      assert FamilyExists(rows, family);
    }
  }

  lemma LiveIsAlone(rows: seq<Row>, i: nat)
    requires NewestOnly(rows) && Live(rows, i)
    ensures forall j :: Live(rows, j) && j != i ==> rows[j].family != rows[i].family
  {
  }

  lemma RevokedAt(rows: seq<Row>, p: Row -> bool, i: nat)
    requires i < |rows|
    ensures RevokeWhere(rows, p)[i] == if p(rows[i]) then Revoked(rows[i]) else rows[i]
  {
  }

  /**
   A refresh looks up a live token; a reuse of an older one kills the family;
   the refresh then revokes and inserts, and the family is alive again.
   */
  lemma ReuseBetweenTheHalves()
    ensures var rows := [Row("z", "u", "f", 9.0, true), Row("a", "u", "f", 9.0, false)];
            var killed := Step(rows, Refresh("z", Some("u"), true, 1.0, "c", 9.0));
            var late := Rotate(killed.0, 1, "b", 9.0);
            && Live(rows, 1)
            && killed.1 == TokenReused && Dead(killed.0, "f")
            && late.Some? && Live(late.value, 2) && late.value[2].family == "f"
  {
    var rows := [Row("z", "u", "f", 9.0, true), Row("a", "u", "f", 9.0, false)];
    var reuse := Refresh("z", Some("u"), true, 1.0, "c", 9.0);
    assert "a"[0] != "z"[0] && "b"[0] != "z"[0] && "b"[0] != "a"[0] && "u"[0] != DEMO_USER_ID[0];
    ReuseKillsTheFamily(rows, reuse, 0);
    assert rows[..1] == [rows[0]] && Find(rows, "z") == Some(0);
    var killed := RevokeWhere(rows, InFamily("f"));
    assert Step(rows, reuse).0 == killed;
    RevokedAt(rows, InFamily("f"), 0);
    RevokedAt(rows, InFamily("f"), 1);
    assert |killed| == 2 && killed[0].hash == "z" && killed[1].hash == "a" && killed[1].family == "f";
    assert Find(killed[1 := Revoked(killed[1])], "b").None?;
  }

  /** Two refreshes of one token that both look it up before either revokes it leave two live tokens. */
  lemma TwoRefreshesAtOnce()
    ensures var rows := [Row("a", "u", "f", 9.0, false)];
            var first := Rotate(rows, 0, "b", 9.0);
            && first.Some?
            && var second := Rotate(first.value, 0, "c", 9.0);
            && second.Some?
            && Live(second.value, 1) && Live(second.value, 2)
            && second.value[1].family == second.value[2].family
  {
    var rows := [Row("a", "u", "f", 9.0, false)];
    assert Find(rows[0 := Revoked(rows[0])], "b").None?;
    var first := Rotate(rows, 0, "b", 9.0).value;
    assert Find(first[0 := Revoked(first[0])], "c").None?;
  }

  // --- the table itself ---

  class TokenTable {
    var rows: seq<Row>

    constructor ()
      ensures rows == []
    {
      rows := [];
    }

    method HandleLogin(demo: bool, user: string, welcome: bool, newHash: Hash, newFamily: string, expiresAt: real)
      returns (answer: Answer)
      modifies this
      ensures (rows, answer) == Step(old(rows), Login(demo, user, welcome, newHash, newFamily, expiresAt))
    {
      if demo {
        return Issued;
      }
      if !welcome {
        return Unauthorized;
      }
      if Find(rows, newHash).Some? {
        return DatabaseError;
      }
      rows := rows + [Row(newHash, user, newFamily, expiresAt, false)];
      return Issued;
    }

    method HandleRefresh(hash: Hash, subject: Option<string>, active: bool, now: real, newHash: Hash, expiresAt: real)
      returns (answer: Answer)
      modifies this
      ensures (rows, answer) == Step(old(rows), Refresh(hash, subject, active, now, newHash, expiresAt))
    {
      hide Find;
      if subject.None? {
        return Unauthorized;
      }
      if subject.value == DEMO_USER_ID {
        return Issued;
      }
      var found := Find(rows, hash);
      if found.None? {
        return Unauthorized;
      }
      var token := rows[found.value];
      if token.revoked {
        RevokeFamily(token.family);
        return TokenReused;
      }
      if now > token.expiresAt {
        return TokenExpired;
      }
      if !active {
        return Unauthorized;
      }
      var before := rows;
      rows := rows[found.value := Revoked(token)];
      if Find(rows, newHash).Some? {
        rows := before;
        return DatabaseError;
      }
      rows := rows + [Row(newHash, token.user, token.family, expiresAt, false)];
      return Issued;
    }

    method RevokeFamily(family: string)
      modifies this
      ensures rows == RevokeWhere(old(rows), InFamily(family))
    {
      var done: seq<Row> := [];
      for i := 0 to |rows|
        invariant rows == old(rows) && |done| == i
        invariant forall k :: 0 <= k < i ==> done[k] == if rows[k].family == family then Revoked(rows[k]) else rows[k]
      {
        done := done + [if rows[i].family == family then Revoked(rows[i]) else rows[i]];
      }
      rows := done;
    }

    /** The update is a scan of the table; it touches the presented token alone, if it is known. */
    method HandleLogout(hash: Hash)
      modifies this
      ensures rows == Step(old(rows), Logout(hash)).0
      ensures Inv(old(rows)) ==> Inv(rows) && Extends(old(rows), rows)
      ensures Inv(old(rows)) ==> forall i :: 0 <= i < |old(rows)| && old(rows)[i].hash == hash ==>
                (Dead(rows, old(rows)[i].family) <==> Live(old(rows), i) || Dead(old(rows), old(rows)[i].family))
    {
      hide Inv, Dead, Extends;
      ghost var before := rows;
      var done: seq<Row> := [];
      for i := 0 to |rows|
        invariant rows == before && |done| == i
        invariant forall k :: 0 <= k < i ==> done[k] == if rows[k].hash == hash then Revoked(rows[k]) else rows[k]
      {
        done := done + [if rows[i].hash == hash then Revoked(rows[i]) else rows[i]];
      }
      assert done == RevokeWhere(before, HasHash(hash));
      rows := done;
      if Inv(before) {
        StepKeepsInv(before, Logout(hash));
        forall i | 0 <= i < |before| && before[i].hash == hash
          ensures Dead(rows, before[i].family) <==> Live(before, i) || Dead(before, before[i].family)
        {
          LogoutKillsIfNewest(before, i);
        }
      }
    }

    /** The update is a scan of the table; if the old password fits it leaves the user no live token. */
    method HandleChangePassword(demo: bool, user: string, fits: bool) returns (answer: Answer)
      modifies this
      ensures (rows, answer) == Step(old(rows), ChangePassword(demo, user, fits))
      ensures Inv(old(rows)) ==> Inv(rows) && Extends(old(rows), rows)
      ensures answer == Done <==> !demo && fits
      ensures answer == Done ==> forall i :: Live(rows, i) ==> rows[i].user != user && rows[i] == old(rows)[i]
    {
      hide Inv, Extends;
      ghost var before := rows;
      if Inv(before) {
        StepKeepsInv(before, ChangePassword(demo, user, fits));
      }
      if demo || !fits {
        return Unauthorized;
      }
      var done: seq<Row> := [];
      for i := 0 to |rows|
        invariant rows == before && |done| == i
        invariant forall k :: 0 <= k < i ==> done[k] == if rows[k].user == user then Revoked(rows[k]) else rows[k]
      {
        done := done + [if rows[i].user == user then Revoked(rows[i]) else rows[i]];
      }
      assert done == RevokeWhere(before, OwnedBy(user));
      rows := done;
      return Done;
    }

    /** Requests one after another, from an empty table. */
    method Serve(requests: seq<Request>)
      requires rows == []
      modifies this
      ensures rows == Run(requests)
    {
      hide Step, Run;
      RunSteps(requests, 0);
      for i := 0 to |requests|
        invariant rows == Run(requests[..i])
      {
        RunSteps(requests, i);
        match requests[i] {
          case Login(demo, user, welcome, newHash, newFamily, expiresAt) =>
            var _ := HandleLogin(demo, user, welcome, newHash, newFamily, expiresAt);
          case Refresh(hash, subject, active, now, newHash, expiresAt) =>
            var _ := HandleRefresh(hash, subject, active, now, newHash, expiresAt);
          case Logout(hash) => HandleLogout(hash);
          case ChangePassword(demo, user, fits) =>
            var _ := HandleChangePassword(demo, user, fits);
        }
      }
      assert requests[..|requests|] == requests;
    }
  }

  lemma RunSteps(requests: seq<Request>, i: nat)
    requires i <= |requests|
    ensures i == 0 ==> Run(requests[..i]) == []
    ensures i < |requests| ==> Run(requests[..i + 1]) == Step(Run(requests[..i]), requests[i]).0
  {
    hide Step;
    assert i < |requests| ==> requests[..i + 1][..i] == requests[..i];
  }
}
