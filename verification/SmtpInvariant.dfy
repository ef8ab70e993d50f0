/** All SMTP sessions over the shared path pool: who owns which path, and who may
    have got how far. */
module SmtpInvariant {
  import opened Bytes
  import opened PathParsing
  import opened SmtpSessions

  datatype World = World(pool: seq<Path>, sessions: seq<Session>)

  datatype Event =
    | Accept(slot: nat, listener: Listener, tlsOnly: bool)
    | Handshake(slot: nat)
    | Line(slot: nat, cmd: Command, sasl: SaslOutcome)
    | Hangup(slot: nat)

  predicate Live(w: World, slot: nat) { slot < |w.sessions| && w.sessions[slot].open }

  function Put(w: World, slot: nat, result: (seq<Path>, Session)): World
    requires slot < |w.sessions|
  {
    World(result.0, w.sessions[slot := result.1])
  }

  // ------------------------------------------------------------ ownership

  predicate Held(pool: seq<Path>, i: nat) { i < |pool| && pool[i].inTransaction }

  ghost predicate Refers(sessions: seq<Session>, t: nat, k: nat, i: nat) {
    t < |sessions| && k < |sessions[t].forward| && sessions[t].forward[k] == i
  }

  ghost predicate Referenced(sessions: seq<Session>, i: nat) {
    exists t, k :: Refers(sessions, t, k, i)
  }

  /** The paths in a transaction are those the sessions refer to, each once; the free
      ones are reset; there are no more than the limit. */
  ghost predicate Owned(w: World) {
    && |w.pool| <= MAX_POOLED_PATHS
    && (forall t, k, i :: Refers(w.sessions, t, k, i) ==> Held(w.pool, i))
    && (forall t, k, u, l, i :: Refers(w.sessions, t, k, i) && Refers(w.sessions, u, l, i) ==> t == u && k == l)
    && (forall i :: 0 <= i < |w.pool| && w.pool[i].inTransaction ==> Referenced(w.sessions, i))
    && (forall i :: 0 <= i < |w.pool| && !w.pool[i].inTransaction ==> w.pool[i] == CLEAR)
  }

  lemma OwnedInPool(w: World, slot: nat)
    requires Owned(w) && slot < |w.sessions|
    ensures InPool(w.pool, w.sessions[slot])
  {
    forall j | 0 <= j < |w.sessions[slot].forward| ensures w.sessions[slot].forward[j] < |w.pool| {
      assert Refers(w.sessions, slot, j, w.sessions[slot].forward[j]);
    }
  }

  /** A session changes, but not what it refers to; the pool may have grown by a path
      that is free again. */
  lemma OwnedQuiet(w: World, slot: nat, pool': seq<Path>, s': Session)
    requires Owned(w) && slot < |w.sessions| && s'.forward == w.sessions[slot].forward
    requires pool' == w.pool || (pool' == w.pool + [CLEAR] && |w.pool| < MAX_POOLED_PATHS)
    ensures Owned(Put(w, slot, (pool', s')))
  {
    var w' := Put(w, slot, (pool', s'));
    forall t, k, i ensures Refers(w'.sessions, t, k, i) <==> Refers(w.sessions, t, k, i) { }
    forall i | 0 <= i < |pool'| && pool'[i].inTransaction ensures Referenced(w'.sessions, i) {
      assert Referenced(w.sessions, i);
      var t, k :| Refers(w.sessions, t, k, i);
      assert Refers(w'.sessions, t, k, i);
    }
  }

  /** A free path goes into the transaction of one session. */
  lemma OwnedTake(w: World, slot: nat, pool': seq<Path>, s': Session, n: nat)
    requires Owned(w) && slot < |w.sessions| && s'.forward == w.sessions[slot].forward + [n]
    requires !Held(w.pool, n) && n < |pool'| <= MAX_POOLED_PATHS && pool'[n].inTransaction
    requires |w.pool| <= |pool'| <= |w.pool| + 1 && (|pool'| > |w.pool| ==> n == |w.pool|)
    requires forall i :: 0 <= i < |w.pool| && i != n ==> pool'[i] == w.pool[i]
    ensures Owned(Put(w, slot, (pool', s')))
  {
    var w' := Put(w, slot, (pool', s'));
    var last := |w.sessions[slot].forward|;
    forall t, k, i
      ensures Refers(w'.sessions, t, k, i) <==> Refers(w.sessions, t, k, i) || (t == slot && k == last && i == n)
    {
    }
    forall i | 0 <= i < |pool'| && pool'[i].inTransaction ensures Referenced(w'.sessions, i) {
      if i == n {
        assert Refers(w'.sessions, slot, last, i);
      } else {
        assert Referenced(w.sessions, i);
        var t, k :| Refers(w.sessions, t, k, i);
        assert Refers(w'.sessions, t, k, i);
      }
    }
  }

  lemma {:induction false} ReturnedAt(pool: seq<Path>, forward: seq<nat>, k: nat, i: nat)
    requires k <= |forward| && i < |pool| && forall j :: 0 <= j < |forward| ==> forward[j] < |pool|
    ensures PoolReturn(pool, forward, k)[i] == if i in forward[..k] then CLEAR else pool[i]
  {
    if k > 0 {
      ReturnedAt(pool, forward, k - 1, i);
      assert forward[..k] == forward[..k - 1] + [forward[k - 1]];
    }
  }

  /** A session gives all its paths back. */
  lemma OwnedReset(w: World, slot: nat, s': Session)
    requires Owned(w) && slot < |w.sessions| && InPool(w.pool, w.sessions[slot]) && s'.forward == []
    ensures Owned(Put(w, slot, (MailReset(w.pool, w.sessions[slot]).0, s')))
  {
    var forward := w.sessions[slot].forward;
    var pool' := PoolReturn(w.pool, forward, |forward|);
    var w' := Put(w, slot, (pool', s'));
    assert forward[..|forward|] == forward;
    forall i: nat | i < |w.pool| ensures pool'[i] == if i in forward then CLEAR else w.pool[i] {
      ReturnedAt(w.pool, forward, |forward|, i);
    }
    forall t, k, i ensures Refers(w'.sessions, t, k, i) <==> t != slot && Refers(w.sessions, t, k, i) { }
    forall t, k, i | Refers(w'.sessions, t, k, i) ensures Held(pool', i) {
      if i in forward {
        var l :| 0 <= l < |forward| && forward[l] == i;
        assert Refers(w.sessions, slot, l, i);
      }
    }
    forall i | 0 <= i < |pool'| && pool'[i].inTransaction ensures Referenced(w'.sessions, i) {
      assert Referenced(w.sessions, i);
      var t, k :| Refers(w.sessions, t, k, i);
      assert Refers(w'.sessions, t, k, i);
    }
  }

  // ------------------------------------------------------------ admission

  /** A recipient as RCPT lets it in: well delimited, resolved by the address table, and
      local unless the session is authenticated. */
  ghost predicate Admitted(p: Path, dir: Directory, authenticated: bool) {
    && WellDelimited(Parsed(p.text, p.delimiter))
    && (p.route.Some? ==> p.route.value in dir.addresses(p.text) && p.route.value.router != REJECT)
    && (p.route.None? ==> dir.addresses(p.text) == [])
    && Acceptable(p, authenticated)
  }

  predicate PastMail(s: Session) { s.state.Recipients? || s.state.Data? }

  /** An originating user has a router other than `reject`, and with router `defined`
      sends from a path that some address row stores to that user. */
  ghost predicate OriginChecked(s: Session, dir: Directory) {
    s.authorized.Some? ==>
      && s.originating.Some? && s.originating.value.router != REJECT
      && (s.originating.value.router == DEFINED ==>
            && s.reverse.route == Some(Route(STORE, s.authorized))
            && Route(STORE, s.authorized) in dir.addresses(s.reverse.text))
  }

  predicate AuthAllowed(s: Session) {
    s.listener.authOffer.AnyAuth? || (s.listener.authOffer.TlsOnlyAuth? && s.tls.Active?)
  }

  ghost predicate Shown(dir: Directory, user: Text, identity: Text) {
    exists secret :: (user, secret) in dir.credentials && dir.credentials[(user, secret)] == identity
  }

  /** Who is authenticated is the fixed user of the listener, or has shown valid
      credentials where that is offered; the originating route is that of the identity. */
  ghost predicate SignedInProperly(s: Session, dir: Directory) {
    s.authenticated.Some? && s.authorized.Some? ==>
      && s.originating == Origin(dir, s.authorized.value)
      && ((s.listener.fixedUser == s.authenticated && s.authorized == s.authenticated)
          || (AuthAllowed(s) && Shown(dir, s.authenticated.value, s.authorized.value)))
  }

  ghost predicate SessionOk(s: Session, dir: Directory) {
    && (s.authenticated.Some? <==> s.authorized.Some?)
    && (!s.open || !PastMail(s) ==> s.forward == [] && s.reverse.route.None?)
    && (s.open && PastMail(s) ==> (s.listener.authRequire ==> s.authenticated.Some?) && OriginChecked(s, dir))
    && (s.open && s.state.Auth? ==> s.saslActive && s.authenticated.None? && AuthAllowed(s))
    && (s.open ==> SignedInProperly(s, dir))
    && |s.forward| <= MAX_RECIPIENTS
    && (s.state.Data? && s.open ==> s.forward != [])
  }

  ghost predicate PathsAdmitted(pool: seq<Path>, s: Session, dir: Directory) {
    forall k :: 0 <= k < |s.forward| ==>
      s.forward[k] < |pool| && Admitted(pool[s.forward[k]], dir, s.authenticated.Some?)
  }

  ghost predicate WorldOk(w: World, dir: Directory) {
    && Owned(w)
    && (forall t :: 0 <= t < |w.sessions| ==> SessionOk(w.sessions[t], dir))
    && forall t :: 0 <= t < |w.sessions| ==> PathsAdmitted(w.pool, w.sessions[t], dir)
  }

  /** The pool of a session may change where the session does not look. */
  lemma AdmittedElsewhere(pool: seq<Path>, pool': seq<Path>, s: Session, dir: Directory)
    requires PathsAdmitted(pool, s, dir) && |pool| <= |pool'|
    requires forall k :: 0 <= k < |s.forward| ==> s.forward[k] < |pool| && pool'[s.forward[k]] == pool[s.forward[k]]
    ensures PathsAdmitted(pool', s, dir)
  {
  }

  /** Quiet step: as before, but the session may have changed otherwise. */
  lemma QuietOk(w: World, slot: nat, pool': seq<Path>, s': Session, dir: Directory)
    requires WorldOk(w, dir) && slot < |w.sessions| && s'.forward == w.sessions[slot].forward
    requires pool' == w.pool || (pool' == w.pool + [CLEAR] && |w.pool| < MAX_POOLED_PATHS)
    requires SessionOk(s', dir)
    requires s'.forward == [] || s'.authenticated == w.sessions[slot].authenticated
    ensures WorldOk(Put(w, slot, (pool', s')), dir)
  {
    hide Owned, Admitted;
    OwnedQuiet(w, slot, pool', s');
    var sessions' := w.sessions[slot := s'];
    forall t | 0 <= t < |sessions'| ensures PathsAdmitted(pool', sessions'[t], dir) {
      assert PathsAdmitted(w.pool, w.sessions[t], dir);
    }
  }

  lemma ResetOk(w: World, slot: nat, s': Session, dir: Directory)
    requires WorldOk(w, dir) && slot < |w.sessions| && InPool(w.pool, w.sessions[slot]) && s'.forward == []
    requires SessionOk(s', dir)
    ensures WorldOk(Put(w, slot, (MailReset(w.pool, w.sessions[slot]).0, s')), dir)
  {
    hide Admitted, SessionOk;
    OwnedReset(w, slot, s');
    var forward := w.sessions[slot].forward;
    var pool' := MailReset(w.pool, w.sessions[slot]).0;
    assert forward[..|forward|] == forward;
    forall t | 0 <= t < |w.sessions| && t != slot ensures PathsAdmitted(pool', w.sessions[t], dir) {
      assert PathsAdmitted(w.pool, w.sessions[t], dir);
      forall k | 0 <= k < |w.sessions[t].forward|
        ensures w.sessions[t].forward[k] < |w.pool| && pool'[w.sessions[t].forward[k]] == w.pool[w.sessions[t].forward[k]]
      {
        OtherPath(w, slot, t, k);
        ReturnedAt(w.pool, forward, |forward|, w.sessions[t].forward[k]);
      }
      AdmittedElsewhere(w.pool, pool', w.sessions[t], dir);
    }
  }

  /** No other session refers to a path of this one. */
  lemma OtherPath(w: World, slot: nat, t: nat, k: nat)
    requires Owned(w) && slot < |w.sessions| && t < |w.sessions| && t != slot && k < |w.sessions[t].forward|
    ensures w.sessions[t].forward[k] !in w.sessions[slot].forward
    ensures Held(w.pool, w.sessions[t].forward[k])
  {
    var i, forward := w.sessions[t].forward[k], w.sessions[slot].forward;
    assert Refers(w.sessions, t, k, i);
    forall l | 0 <= l < |forward| ensures forward[l] != i {
      assert Refers(w.sessions, slot, l, forward[l]);
    }
  }

  lemma TakeOk(w: World, slot: nat, pool': seq<Path>, s': Session, n: nat, dir: Directory)
    requires WorldOk(w, dir) && slot < |w.sessions| && SessionOk(s', dir)
    requires s'.forward == w.sessions[slot].forward + [n] && s'.authenticated == w.sessions[slot].authenticated
    requires !Held(w.pool, n) && n < |pool'| <= MAX_POOLED_PATHS && pool'[n].inTransaction
    requires |w.pool| <= |pool'| <= |w.pool| + 1 && (|pool'| > |w.pool| ==> n == |w.pool|)
    requires forall i :: 0 <= i < |w.pool| && i != n ==> pool'[i] == w.pool[i]
    requires Admitted(pool'[n], dir, s'.authenticated.Some?)
    ensures WorldOk(Put(w, slot, (pool', s')), dir)
  {
    hide Admitted, SessionOk, Owned;
    OwnedTake(w, slot, pool', s', n);
    var sessions' := w.sessions[slot := s'];
    forall t | 0 <= t < |sessions'| ensures PathsAdmitted(pool', sessions'[t], dir) {
      assert PathsAdmitted(w.pool, w.sessions[t], dir);
      forall k | 0 <= k < |w.sessions[t].forward|
        ensures w.sessions[t].forward[k] < |w.pool| && pool'[w.sessions[t].forward[k]] == w.pool[w.sessions[t].forward[k]]
      {
        HeldPath(w, t, k);
      }
      AdmittedElsewhere(w.pool, pool', w.sessions[t], dir);
      OneMorePath(pool', w.sessions[slot], s', n, dir);
    }
  }

  lemma HeldPath(w: World, t: nat, k: nat)
    requires Owned(w) && t < |w.sessions| && k < |w.sessions[t].forward|
    ensures Held(w.pool, w.sessions[t].forward[k])
  {
    assert Refers(w.sessions, t, k, w.sessions[t].forward[k]);
  }

  lemma OneMorePath(pool: seq<Path>, s: Session, s': Session, n: nat, dir: Directory)
    requires n < |pool| && s'.forward == s.forward + [n] && s'.authenticated == s.authenticated
    requires Admitted(pool[n], dir, s'.authenticated.Some?)
    ensures PathsAdmitted(pool, s, dir) ==> PathsAdmitted(pool, s', dir)
  {
  }

  // ------------------------------------------------------------ commands

  /** RCPT either leaves session and pool as they were, up to one more free path, or
      appends a path that was free and is now admitted. */
  lemma RcptOutcome(w: World, slot: nat, dir: Directory, spec: Text)
    requires WorldOk(w, dir) && slot < |w.sessions|
    ensures var s := w.sessions[slot];
            var (pool', s') := RcptCommand(w.pool, s, dir, spec);
            || (s' == s && (pool' == w.pool || (pool' == w.pool + [CLEAR] && |w.pool| < MAX_POOLED_PATHS)))
            || exists n: nat ::
                 && s' == s.(forward := s.forward + [n]) && |s.forward| < MAX_RECIPIENTS
                 && !Held(w.pool, n) && n < |pool'| <= MAX_POOLED_PATHS && pool'[n].inTransaction
                 && |w.pool| <= |pool'| <= |w.pool| + 1 && (|pool'| > |w.pool| ==> n == |w.pool|)
                 && (forall i :: 0 <= i < |w.pool| && i != n ==> pool'[i] == w.pool[i])
                 && Admitted(pool'[n], dir, s'.authenticated.Some?)
  {
    hide PathOf, SessionOk, PathsAdmitted, Referenced, Select;
    var s := w.sessions[slot];
    var (pool', s') := RcptCommand(w.pool, s, dir, spec);
    var n := FirstFree(w.pool, 0);
    ParseWellDelimited(spec);
    if s' == s {
      if n < |w.pool| {
        assert w.pool[n] == CLEAR;
        assert w.pool[n := CLEAR.(inTransaction := true)][n := CLEAR] == w.pool;
      } else {
        assert (w.pool + [CLEAR.(inTransaction := true)])[n := CLEAR] == w.pool + [CLEAR];
      }
    } else {
      assert n < |w.pool| ==> w.pool[n] == CLEAR;
      assert Admitted(pool'[n], dir, s'.authenticated.Some?);
    }
  }

  lemma RcptOk(w: World, slot: nat, dir: Directory, spec: Text)
    requires WorldOk(w, dir) && Live(w, slot) && w.sessions[slot].state.Recipients?
    ensures WorldOk(Put(w, slot, RcptCommand(w.pool, w.sessions[slot], dir, spec)), dir)
  {
    hide RcptCommand, Owned, Admitted, PathsAdmitted;
    var s := w.sessions[slot];
    var (pool', s') := RcptCommand(w.pool, s, dir, spec);
    RcptOutcome(w, slot, dir, spec);
    assert SessionOk(s, dir);
    if s' == s {
      QuietOk(w, slot, pool', s', dir);
    } else {
      var n: nat :| s' == s.(forward := s.forward + [n])
        && !Held(w.pool, n) && n < |pool'| <= MAX_POOLED_PATHS && pool'[n].inTransaction
        && |w.pool| <= |pool'| <= |w.pool| + 1 && (|pool'| > |w.pool| ==> n == |w.pool|)
        && (forall i :: 0 <= i < |w.pool| && i != n ==> pool'[i] == w.pool[i])
        && Admitted(pool'[n], dir, s'.authenticated.Some?);
      TakeOk(w, slot, pool', s', n, dir);
    }
  }

  lemma MailOk(s: Session, dir: Directory, ok: bool, text: Text, delimiter: nat)
    requires SessionOk(s, dir) && s.open && s.state.Idle?
    ensures SessionOk(MailCommand(s, dir, ok, text, delimiter), dir)
    ensures MailCommand(s, dir, ok, text, delimiter).forward == []
  {
  }

  lemma SaslOk(s: Session, dir: Directory, sasl: SaslOutcome)
    requires SessionOk(s, dir) && s.open && (s.state.Auth? || s.state.Idle?) && s.authenticated.None? && AuthAllowed(s)
    ensures SessionOk(SaslResult(s, dir, sasl), dir) && SaslResult(s, dir, sasl).forward == []
  {
  }

  lemma IdleOk(w: World, slot: nat, dir: Directory, cmd: Command, sasl: SaslOutcome)
    requires WorldOk(w, dir) && Live(w, slot) && w.sessions[slot].state.Idle? && InPool(w.pool, w.sessions[slot])
    ensures WorldOk(Put(w, slot, IdleLine(w.pool, w.sessions[slot], dir, cmd, sasl)), dir)
  {
    hide Owned, PathsAdmitted, SaslResult, MailCommand;
    var s := w.sessions[slot];
    assert SessionOk(s, dir);
    match cmd
    case Rset => ResetOk(w, slot, MailReset(w.pool, s).1, dir);
    case StartTls =>
      if !s.tls.Plain? || !s.listener.negotiable {
        QuietOk(w, slot, w.pool, s, dir);
      } else {
        ResetOk(w, slot, MailReset(w.pool, s).1.(state := New, tls := Negotiating), dir);
      }
    case AuthBegin =>
      if MayAuth(s) {
        SaslOk(s, dir, sasl);
        QuietOk(w, slot, w.pool, SaslResult(s, dir, sasl), dir);
      } else {
        QuietOk(w, slot, w.pool, s, dir);
      }
    case Quit => CloseOk(w, slot, dir);
    case MailFrom(ok, text, delimiter) =>
      MailOk(s, dir, ok, text, delimiter);
      QuietOk(w, slot, w.pool, MailCommand(s, dir, ok, text, delimiter), dir);
    case _ => QuietOk(w, slot, w.pool, s, dir);
  }

  lemma CloseOk(w: World, slot: nat, dir: Directory)
    requires WorldOk(w, dir) && slot < |w.sessions| && InPool(w.pool, w.sessions[slot])
    ensures WorldOk(Put(w, slot, Close(w.pool, w.sessions[slot])), dir)
  {
    hide Owned, PathsAdmitted;
    assert SessionOk(w.sessions[slot], dir);
    ResetOk(w, slot, Close(w.pool, w.sessions[slot]).1, dir);
  }

  lemma RecipientsOk(w: World, slot: nat, dir: Directory, cmd: Command)
    requires WorldOk(w, dir) && Live(w, slot) && w.sessions[slot].state.Recipients? && InPool(w.pool, w.sessions[slot])
    ensures WorldOk(Put(w, slot, RecipientsLine(w.pool, w.sessions[slot], dir, cmd)), dir)
  {
    hide Owned, PathsAdmitted, RcptCommand;
    var s := w.sessions[slot];
    assert SessionOk(s, dir);
    match cmd
    case RcptTo(spec) => RcptOk(w, slot, dir, spec);
    case Quit => CloseOk(w, slot, dir);
    case Rset => ResetOk(w, slot, MailReset(w.pool, s).1.(state := Idle), dir);
    case DataBegin => QuietOk(w, slot, w.pool, if s.forward == [] then s else s.(state := Data), dir);
    case _ => QuietOk(w, slot, w.pool, s, dir);
  }

  lemma HandleOk(w: World, slot: nat, dir: Directory, cmd: Command, sasl: SaslOutcome)
    requires WorldOk(w, dir) && Live(w, slot) && InPool(w.pool, w.sessions[slot])
    ensures WorldOk(Put(w, slot, HandleLine(w.pool, w.sessions[slot], dir, cmd, sasl)), dir)
  {
    hide Owned, PathsAdmitted, IdleLine, RecipientsLine, SaslResult;
    var s := w.sessions[slot];
    assert SessionOk(s, dir);
    match s.state
    case New => QuietOk(w, slot, w.pool, if cmd.Helo? then s.(state := Idle) else s, dir);
    case Idle => IdleOk(w, slot, dir, cmd, sasl);
    case Auth =>
      SaslOk(s, dir, sasl);
      QuietOk(w, slot, w.pool, AuthLine(s, dir, cmd, sasl), dir);
    case Recipients => RecipientsOk(w, slot, dir, cmd);
    case Data =>
      if cmd.EndOfData? {
        ResetOk(w, slot, MailReset(w.pool, s).1.(state := Idle), dir);
      } else {
        QuietOk(w, slot, w.pool, s, dir);
      }
  }

  // ------------------------------------------------------------ runs

  function Step(w: World, dir: Directory, e: Event): World
    requires Owned(w)
  {
    match e
    case Accept(slot, listener, tlsOnly) =>
      if slot == |w.sessions| then w.(sessions := w.sessions + [Accepted(listener, dir, tlsOnly)])
      else if slot < |w.sessions| && !w.sessions[slot].open && w.sessions[slot].forward == [] then
        w.(sessions := w.sessions[slot := Accepted(listener, dir, tlsOnly)])
      else w
    case Handshake(slot) => if Live(w, slot) then Put(w, slot, (w.pool, Secured(w.sessions[slot]))) else w
    case Line(slot, cmd, sasl) =>
      if Live(w, slot) then
        OwnedInPool(w, slot);
        Put(w, slot, HandleLine(w.pool, w.sessions[slot], dir, cmd, sasl))
      else w
    case Hangup(slot) =>
      if Live(w, slot) then
        OwnedInPool(w, slot);
        Put(w, slot, Close(w.pool, w.sessions[slot]))
      else w
  }

  lemma AcceptOk(w: World, dir: Directory, listener: Listener, tlsOnly: bool)
    requires WorldOk(w, dir)
    ensures WorldOk(w.(sessions := w.sessions + [Accepted(listener, dir, tlsOnly)]), dir)
  {
    var s := Accepted(listener, dir, tlsOnly);
    var w' := w.(sessions := w.sessions + [s]);
    forall t, k, i ensures Refers(w'.sessions, t, k, i) <==> Refers(w.sessions, t, k, i) { }
    forall i | 0 <= i < |w.pool| && w.pool[i].inTransaction ensures Referenced(w'.sessions, i) {
      assert Referenced(w.sessions, i);
      var t, k :| Refers(w.sessions, t, k, i);
      assert Refers(w'.sessions, t, k, i);
    }
  }

  lemma StepOk(w: World, dir: Directory, e: Event)
    requires WorldOk(w, dir)
    ensures WorldOk(Step(w, dir, e), dir)
  {
    hide HandleLine, Close, Admitted, PathsAdmitted, Refers;
    match e
    case Accept(slot, listener, tlsOnly) =>
      if slot == |w.sessions| {
        AcceptOk(w, dir, listener, tlsOnly);
      } else if slot < |w.sessions| && !w.sessions[slot].open && w.sessions[slot].forward == [] {
        QuietOk(w, slot, w.pool, Accepted(listener, dir, tlsOnly), dir);
      }
    case Handshake(slot) =>
      if Live(w, slot) { QuietOk(w, slot, w.pool, Secured(w.sessions[slot]), dir); }
    case Line(slot, cmd, sasl) =>
      if Live(w, slot) {
        OwnedInPool(w, slot);
        HandleOk(w, slot, dir, cmd, sasl);
      }
    case Hangup(slot) =>
      if Live(w, slot) {
        OwnedInPool(w, slot);
        CloseOk(w, slot, dir);
      }
  }

  /** The worlds the daemon can reach. */
  ghost predicate Reachable(w: World, dir: Directory, es: seq<Event>)
    decreases |es|
  {
    if es == [] then w == World([], [])
    else exists before :: Reachable(before, dir, es[..|es| - 1]) && Owned(before) && w == Step(before, dir, es[|es| - 1])
  }

  lemma {:induction false} ReachableOk(w: World, dir: Directory, es: seq<Event>)
    requires Reachable(w, dir, es)
    ensures WorldOk(w, dir)
    decreases |es|
  {
    hide Step;
    if es == [] {
      StartOk(dir);
    } else {
      var before :| Reachable(before, dir, es[..|es| - 1]) && Owned(before) && w == Step(before, dir, es[|es| - 1]);
      ReachableOk(before, dir, es[..|es| - 1]);
      StepOk(before, dir, es[|es| - 1]);
    }
  }

  lemma StartOk(dir: Directory)
    ensures WorldOk(World([], []), dir)
  {
  }

  // ------------------------------------------------------------ promises

  /** An open session has the path in its `forward_paths`. */
  ghost predicate InOpenSession(w: World, i: nat) {
    exists t, k :: Refers(w.sessions, t, k, i) && Live(w, t)
  }

  /** After every command of every session: a path is in a transaction exactly if an
      open session refers to it, then once only; free paths are reset; and the pool
      is within its limit. */
  lemma PoolOwnership(w: World, dir: Directory, es: seq<Event>, i: nat)
    requires Reachable(w, dir, es) && i < |w.pool|
    ensures |w.pool| <= MAX_POOLED_PATHS
    ensures w.pool[i].inTransaction <==> InOpenSession(w, i)
    ensures forall t, k, u, l :: Refers(w.sessions, t, k, i) && Refers(w.sessions, u, l, i) ==> t == u && k == l
    ensures !w.pool[i].inTransaction ==> w.pool[i] == CLEAR
  {
    hide WorldOk, Reachable, Refers;
    ReachableOk(w, dir, es);
    OwnedWorld(w, dir);
    if w.pool[i].inTransaction {
      assert Referenced(w.sessions, i);
      var t, k :| Refers(w.sessions, t, k, i);
      ReferringIsOpen(w, dir, t, k, i);
    }
    if InOpenSession(w, i) {
      var t, k :| Refers(w.sessions, t, k, i) && Live(w, t);
      assert Held(w.pool, i);
    }
  }

  lemma OwnedWorld(w: World, dir: Directory)
    requires WorldOk(w, dir)
    ensures Owned(w)
  {
  }

  lemma ReferringIsOpen(w: World, dir: Directory, t: nat, k: nat, i: nat)
    requires WorldOk(w, dir) && Refers(w.sessions, t, k, i)
    ensures Live(w, t)
  {
    assert SessionOk(w.sessions[t], dir);
  }

  /** Whoever is past MAIL may be there, and every recipient may have been accepted:
      local ones for anybody, others for authenticated users only. */
  lemma Admission(w: World, dir: Directory, es: seq<Event>, slot: nat)
    requires Reachable(w, dir, es) && Live(w, slot)
    ensures var s := w.sessions[slot];
            && (PastMail(s) && s.listener.authRequire ==> s.authenticated.Some?)
            && (s.authenticated.Some? <==> s.authorized.Some?) && SignedInProperly(s, dir)
            && (PastMail(s) ==> OriginChecked(s, dir))
            && (s.state.Data? ==> s.forward != [])
            && PathsAdmitted(w.pool, s, dir)
            && (s.authenticated.None? ==>
                  forall k :: 0 <= k < |s.forward| ==> s.forward[k] < |w.pool| && w.pool[s.forward[k]].route.Some?)
  {
    ReachableOk(w, dir, es);
    assert SessionOk(w.sessions[slot], dir);
    var s := w.sessions[slot];
    if s.authenticated.None? {
      forall k | 0 <= k < |s.forward| ensures s.forward[k] < |w.pool| && w.pool[s.forward[k]].route.Some? {
        assert Admitted(w.pool[s.forward[k]], dir, false);
      }
    }
  }

  /** Paths are always resolved for the first time, and RCPT always parses into a reset
      path: the early exit of `path_resolve` is never taken. */
  lemma AlwaysFresh(w: World, dir: Directory, es: seq<Event>, slot: nat)
    requires Reachable(w, dir, es) && Live(w, slot)
    ensures w.sessions[slot].state.Idle? ==> w.sessions[slot].reverse.route.None?
    ensures var (pool', k) := PoolGet(w.pool);
            k.Some? ==> k.value < |pool'| && pool'[k.value] == CLEAR.(inTransaction := true)
  {
    ReachableOk(w, dir, es);
    assert SessionOk(w.sessions[slot], dir);
  }
}
