/**
 The life of a refresh token (master/api/auth.py): a login or a refresh issues a
 live one, and it can be exchanged at any time up to its expiry until one of four
 kinds of request spends it.
 */
module TokenLife {
  import opened Common
  import opened RefreshTokens

  predicate Unknown(rows: seq<Row>, hash: Hash) {
    forall i :: 0 <= i < |rows| ==> rows[i].hash != hash
  }

  /** A login that is let in adds one live token, unless its hash is taken; any other changes nothing. */
  lemma LoginIssues(rows: seq<Row>, q: Request)
    requires q.Login?
    ensures !q.demo && q.welcome && Unknown(rows, q.newHash) ==>
              Step(rows, q) == (rows + [Row(q.newHash, q.user, q.newFamily, q.expiresAt, false)], Issued)
    ensures q.demo || !q.welcome || !Unknown(rows, q.newHash) ==> Step(rows, q).0 == rows
    ensures !q.demo && (!q.welcome || !Unknown(rows, q.newHash)) ==> Step(rows, q).1 != Issued
  {
    var found := Find(rows, q.newHash);
  }

  /** What a refresh that names its user answers, and that only an exchange or a reuse changes anything. */
  lemma RefreshAnswers(rows: seq<Row>, q: Request)
    requires q.Refresh? && q.subject.Some? && q.subject.value != DEMO_USER_ID && UniqueHashes(rows)
    ensures Unknown(rows, q.hash) ==> Step(rows, q).1 == Unauthorized
    ensures forall i :: 0 <= i < |rows| && rows[i].hash == q.hash ==>
              && (rows[i].revoked <==> Step(rows, q).1 == TokenReused)
              && (!rows[i].revoked && q.now > rows[i].expiresAt <==> Step(rows, q).1 == TokenExpired)
              && (!rows[i].revoked && q.now <= rows[i].expiresAt && !q.active <==> Step(rows, q).1 == Unauthorized)
    ensures Step(rows, q).1 != Issued && Step(rows, q).1 != TokenReused ==> Step(rows, q).0 == rows
  {
    hide RevokeWhere, Insert;
    var found := Find(rows, q.hash);
  }

  // --- what spends a token ---

  /** The refresh exchanges the token: it is presented by its active user in time. */
  predicate Takes(rows: seq<Row>, q: Request, token: Row) {
    q.Refresh? && q.hash == token.hash && q.now <= token.expiresAt && q.active && Unknown(rows, q.newHash)
  }

  /** The refresh presents a revoked token of the same family. */
  predicate Betrays(rows: seq<Row>, q: Request, token: Row) {
    q.Refresh? && exists j :: 0 <= j < |rows| && rows[j].hash == q.hash && rows[j].revoked &&
                              rows[j].family == token.family
  }

  /** An exchange, a reuse within the family, a logout with the token, a password change of its user. */
  predicate Spends(rows: seq<Row>, q: Request, token: Row) {
    match q
    case Login(_, _, _, _, _, _) => false
    case Refresh(_, subject, _, _, _, _) =>
      subject.Some? && subject.value != DEMO_USER_ID && (Takes(rows, q, token) || Betrays(rows, q, token))
    case Logout(hash) => hash == token.hash
    case ChangePassword(demo, user, fits) => !demo && fits && user == token.user
  }

  lemma RefreshSpends(rows: seq<Row>, q: Request, i: nat)
    requires UniqueHashes(rows) && Live(rows, i) && q.Refresh?
    ensures i < |Step(rows, q).0|
    ensures Step(rows, q).0[i] == if Spends(rows, q, rows[i]) then Revoked(rows[i]) else rows[i]
  {
    hide Insert, RevokeWhere;
    var found := Find(rows, q.hash);
    if found.Some? && q.subject.Some? && q.subject.value != DEMO_USER_ID {
      var spent := found.value;
      if rows[spent].revoked {
        RevokeKeepsLength(rows, InFamily(rows[spent].family));
        RevokedAt(rows, InFamily(rows[spent].family), i);
      } else {
        assert forall j :: 0 <= j < |rows| && rows[j].hash == q.hash ==> j == spent;
        Inserts(rows[spent := Revoked(rows[spent])],
                Row(q.newHash, rows[spent].user, rows[spent].family, q.expiresAt, false));
        SameHashes(rows, spent, q.newHash);
      }
    }
  }

  lemma Inserts(rows: seq<Row>, row: Row)
    ensures Insert(rows, row) == if Unknown(rows, row.hash) then Some(rows + [row]) else None
  {
    var found := Find(rows, row.hash);
  }

  lemma SameHashes(rows: seq<Row>, i: nat, hash: Hash)
    requires i < |rows|
    ensures Unknown(rows[i := Revoked(rows[i])], hash) == Unknown(rows, hash)
  {
    var after := rows[i := Revoked(rows[i])];
    assert forall j :: 0 <= j < |rows| ==> after[j].hash == rows[j].hash;
  }

  /** A request revokes a live token exactly if it spends it, and changes nothing else about it. */
  lemma SpentExactly(rows: seq<Row>, q: Request, i: nat)
    requires UniqueHashes(rows) && Live(rows, i)
    ensures i < |Step(rows, q).0|
    ensures Step(rows, q).0[i] == if Spends(rows, q, rows[i]) then Revoked(rows[i]) else rows[i]
  {
    hide RevokeWhere, Takes, Betrays;
    match q {
      case Login(_, _, _, _, _, _) => LoginIssues(rows, q);
      case Refresh(_, _, _, _, _, _) => RefreshSpends(rows, q, i);
      case Logout(hash) =>
        RevokeKeepsLength(rows, HasHash(hash));
        RevokedAt(rows, HasHash(hash), i);
      case ChangePassword(_, user, _) =>
        RevokeKeepsLength(rows, OwnedBy(user));
        RevokedAt(rows, OwnedBy(user), i);
    }
  }

  /** Some request of a continuation spends the token. */
  predicate SpentIn(requests: seq<Request>, more: seq<Request>, token: Row) {
    exists k :: 0 <= k < |more| && Spends(Run(requests + more[..k]), more[k], token)
  }

  lemma SpentInLonger(requests: seq<Request>, more: seq<Request>, token: Row)
    requires more != []
    ensures var n := |more| - 1;
            SpentIn(requests, more, token) <==>
            SpentIn(requests, more[..n], token) || Spends(Run(requests + more[..n]), more[n], token)
  {
    hide Spends, Run;
    var n := |more| - 1;
    assert forall k :: 0 <= k <= n ==> more[..n][..k] == more[..k];
    if SpentIn(requests, more[..n], token) {
      var k :| 0 <= k < n && Spends(Run(requests + more[..n][..k]), more[..n][k], token);
      assert Spends(Run(requests + more[..k]), more[k], token);
    }
    if SpentIn(requests, more, token) {
      var k :| 0 <= k < |more| && Spends(Run(requests + more[..k]), more[k], token);
      assert k < n ==> Spends(Run(requests + more[..n][..k]), more[..n][k], token);
    }
  }

  /** In every continuation of every run a live token stays as it is until a request spends it. */
  lemma {:induction false} LivesUntilSpent(requests: seq<Request>, more: seq<Request>, i: nat)
    requires Possible(requests + more) && Live(Run(requests), i)
    ensures i < |Run(requests + more)|
    ensures var token := Run(requests)[i];
            Run(requests + more)[i] == if SpentIn(requests, more, token) then Revoked(token) else token
    decreases |more|
  {
    hide Inv, Step, FreshFamily, Spends, SpentIn;
    var token := Run(requests)[i];
    if more == [] {
      assert requests + more == requests;
      NothingSpends(requests, token);
    } else {
      var n := |more| - 1;
      var rows := Run(requests + more[..n]);
      Shorter(requests, more);
      LivesUntilSpent(requests, more[..n], i);
      SpentInLonger(requests, more, token);
      RunKeepsInv(requests + more[..n]);
      if rows[i].revoked {
        StepKeepsInv(rows, more[n]);
      } else {
        HashesDiffer(rows);
        SpentExactly(rows, more[n], i);
      }
    }
  }

  lemma NothingSpends(requests: seq<Request>, token: Row)
    ensures !SpentIn(requests, [], token)
  {
  }

  lemma HashesDiffer(rows: seq<Row>)
    requires Inv(rows)
    ensures UniqueHashes(rows)
  {
  }

  /** The refresh names an active user, comes in time for the token, and draws a new hash. */
  predicate Timely(rows: seq<Row>, refresh: Request, token: Row) {
    && refresh.Refresh? && refresh.hash == token.hash
    && refresh.subject.Some? && refresh.subject.value != DEMO_USER_ID
    && refresh.active && refresh.now <= token.expiresAt && Unknown(rows, refresh.newHash)
  }

  lemma LiveIsExchanged(rows: seq<Row>, i: nat, refresh: Request)
    requires UniqueHashes(rows) && i < |rows| && Timely(rows, refresh, rows[i])
    ensures Exchanged(rows, refresh) <==> !rows[i].revoked
  {
    var found, taken := Find(rows, refresh.hash), Find(rows, refresh.newHash);
    assert found == Some(i);
    RefreshExchanges(rows, refresh);
  }

  /**
   The token a login issues can be refreshed at any time up to its expiry, after
   any continuation, exactly if no request of it spent the token before.
   */
  lemma LoginThenRefresh(requests: seq<Request>, login: Request, more: seq<Request>, refresh: Request)
    requires Possible(requests + [login] + more)
    requires login.Login? && !login.demo && login.welcome && Unknown(Run(requests), login.newHash)
    ensures var token := Row(login.newHash, login.user, login.newFamily, login.expiresAt, false);
            var rows := Run(requests + [login] + more);
            Timely(rows, refresh, token) ==>
              (Exchanged(rows, refresh) <==> !SpentIn(requests + [login], more, token))
  {
    hide Inv, Step, FreshFamily, Possible, SpentIn, Timely, Unknown, Exchanged;
    var token := Row(login.newHash, login.user, login.newFamily, login.expiresAt, false);
    var i := |Run(requests)|;
    Shorter(requests, [login]);
    assert requests + [login][..0] == requests;
    LoginIssues(Run(requests), login);
    assert Run(requests + [login]) == Run(requests) + [token];
    LivesUntilSpent(requests + [login], more, i);
    var rows := Run(requests + [login] + more);
    RunKeepsInv(requests + [login] + more);
    HashesDiffer(rows);
    if Timely(rows, refresh, token) {
      SameTerms(rows, refresh, token, rows[i]);
      LiveIsExchanged(rows, i, refresh);
    }
  }

  lemma SameTerms(rows: seq<Row>, refresh: Request, token: Row, later: Row)
    requires later == token || later == Revoked(token)
    ensures Timely(rows, refresh, token) == Timely(rows, refresh, later)
  {
  }
}
