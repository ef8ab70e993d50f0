/** All POP sessions over the shared databases: every interleaving of their lines,
    of connections that come and go, and of mail that arrives. */
module PopRuns {
  import opened Bytes
  import opened MailTables
  import opened Maildrops
  import opened PopSessions
  import opened PopInvariant

  /** `sessions` are the slots of the connection pool. */
  datatype World = World(store: Store, sessions: seq<Session>)

  /** `fault` makes the lock statement or the mark statement of the step fail.
      `Hangup` is every exit but QUIT: disconnect, read error, long line, bad score. */
  datatype Event =
    | Accept(slot: nat, listener: Listener)
    | Line(slot: nat, cmd: Command, sasl: SaslOutcome, fault: bool)
    | Hangup(slot: nat, fault: bool)
    | Arrive(inbox: Option<Text>, at: nat, user: Text, ident: Text, data: Text)

  function HandleLine(store: Store, s: Session, cmd: Command, sasl: SaslOutcome, fault: bool): (Store, Session) {
    if s.stage.Authorization? then AuthorizationLine(store, s, cmd, sasl, fault)
    else if s.authorized.Some? then TransactionLine(store, s, cmd, fault)
    else (store, s)
  }

  predicate Live(w: World, slot: nat) { slot < |w.sessions| && w.sessions[slot].open }

  function Put(w: World, slot: nat, result: (Store, Session)): World
    requires slot < |w.sessions|
  {
    World(result.0, w.sessions[slot := result.1])
  }

  function Deliver(store: Store, inbox: Option<Text>, at: nat, user: Text, ident: Text, data: Text): Store {
    match inbox
    case None =>
      if at <= |store.master.rows| then store.(master := Arrival(store.master, at, user, ident, data)) else store
    case Some(f) =>
      if f in store.files && at <= |store.files[f].rows| then
        store.(files := store.files[f := Arrival(store.files[f], at, user, ident, data)])
      else store
  }

  function Step(w: World, e: Event): World {
    match e
    case Accept(slot, listener) =>
      if slot == |w.sessions| then w.(sessions := w.sessions + [Fresh(listener)])
      else if slot < |w.sessions| && !w.sessions[slot].open then w.(sessions := w.sessions[slot := Fresh(listener)])
      else w
    case Line(slot, cmd, sasl, fault) =>
      if Live(w, slot) then Put(w, slot, HandleLine(w.store, w.sessions[slot], cmd, sasl, fault)) else w
    case Hangup(slot, fault) =>
      if Live(w, slot) then Put(w, slot, Close(w.store, w.sessions[slot], fault)) else w
    case Arrive(inbox, at, user, ident, data) => w.(store := Deliver(w.store, inbox, at, user, ident, data))
  }

  // ------------------------------------------------------------ mutual exclusion

  /** The session holds the maildrop of `user`. */
  predicate Holds(s: Session, user: Text) {
    s.open && s.stage.Transaction? && s.authorized == Some(user)
  }

  /** Signed in is the same as being in TRANSACTION, and only with the lock set. */
  predicate SignedInOk(store: Store, s: Session) {
    if s.authOk then
      s.open && s.stage.Transaction? && s.authenticated.Some? && s.authorized.Some? && Locked(store, s.authorized.value)
    else s.open ==> s.stage.Authorization?
  }

  ghost predicate Exclusive(w: World) {
    && (forall i :: 0 <= i < |w.sessions| ==> SignedInOk(w.store, w.sessions[i]))
    && (forall i, j :: 0 <= i < j < |w.sessions| && w.sessions[i].authOk && w.sessions[j].authOk ==>
          w.sessions[i].authorized != w.sessions[j].authorized)
  }

  /** Nobody but `slot` holds `user`. */
  ghost predicate FreeBut(w: World, slot: nat, user: Text) {
    forall j :: 0 <= j < |w.sessions| && j != slot ==> !Holds(w.sessions[j], user)
  }

  /** One session and the databases change, as far as `user` is concerned. */
  lemma ExclusiveAfter(w: World, slot: nat, store': Store, s': Session, user: Text)
    requires Exclusive(w) && slot < |w.sessions| && SignedInOk(store', s')
    requires forall v :: v != user ==> Locked(w.store, v) == Locked(store', v)
    requires w.sessions[slot].authOk ==> w.sessions[slot].authorized == Some(user)
    requires s'.authOk ==> s'.authorized == Some(user) && FreeBut(w, slot, user)
    requires Locked(w.store, user) && !Locked(store', user) ==> FreeBut(w, slot, user)
    ensures Exclusive(Put(w, slot, (store', s')))
  {
    var w' := Put(w, slot, (store', s'));
    forall j | 0 <= j < |w'.sessions| ensures SignedInOk(store', w'.sessions[j]) {
      assert j != slot ==> SignedInOk(w.store, w.sessions[j]);
    }
    assert forall j :: 0 <= j < |w.sessions| ==> SignedInOk(w.store, w.sessions[j]);
  }

  /** While a session is signed in nobody else holds its user. */
  lemma HolderIsAlone(w: World, slot: nat)
    requires Exclusive(w) && slot < |w.sessions| && w.sessions[slot].authOk
    ensures FreeBut(w, slot, w.sessions[slot].authorized.value)
  {
    assert SignedInOk(w.store, w.sessions[slot]);
    forall j | 0 <= j < |w.sessions| && j != slot
      ensures !Holds(w.sessions[j], w.sessions[slot].authorized.value)
    {
      assert SignedInOk(w.store, w.sessions[j]);
    }
  }

  /** The maildrop a line asks for, if its credentials are good. */
  function Wanted(store: Store, s: Session, cmd: Command, sasl: SaslOutcome): Option<Text> {
    match React(s, cmd, sasl)
    case SignIn(_, user, secret) =>
      if (user, secret) in store.credentials then Some(store.credentials[(user, secret)]) else None
    case _ => None
  }

  /** The lock statement fails, which the caller takes for a success, although
      somebody holds the maildrop or its lock stays open. */
  ghost predicate WrongGrant(w: World, e: Event) {
    e.Line? && Live(w, e.slot) && e.fault && w.sessions[e.slot].stage.Authorization?
    && var user := Wanted(w.store, w.sessions[e.slot], e.cmd, e.sasl);
       user.Some? && Attachable(w.store, user.value)
       && !(Locked(w.store, user.value) && FreeBut(w, e.slot, user.value))
  }

  lemma ReactKeeps(s: Session, cmd: Command, sasl: SaslOutcome)
    requires !s.authOk && s.stage.Authorization?
    ensures React(s, cmd, sasl).Stay? ==>
      var t := React(s, cmd, sasl).next; !t.authOk && t.open == s.open && t.stage == s.stage && t.drop == s.drop
    ensures React(s, cmd, sasl).SignIn? ==>
      var t := React(s, cmd, sasl).base;
      !t.authOk && t.open == s.open && t.stage == s.stage && t.drop == s.drop
      && t.authenticated == Some(React(s, cmd, sasl).user)
  {
  }

  lemma AcquireLocks(store: Store, drop: Drop, user: Text, fault: bool)
    ensures var (store', _, status) := Acquire(store, drop, user, fault);
            && (forall v :: v != user ==> Locked(store', v) == Locked(store, v))
            && (Locked(store, user) ==> Locked(store', user))
            && (status == 0 || status == -1)
            && (status == 0 <==> Attachable(store, user) && (fault || (user in store.locks && !store.locks[user])))
            && (status == 0 && !fault ==> Locked(store', user) && !Locked(store, user))
            && (fault ==> store' == store)
  {
    hide Snapshot;
  }

  lemma LoginExclusive(w: World, slot: nat, base: Session, user: Text, secret: Text, fault: bool)
    requires Exclusive(w) && slot < |w.sessions| && !w.sessions[slot].authOk
    requires base.open && base.stage.Authorization? && !base.authOk && base.authenticated.Some?
    requires (user, secret) in w.store.credentials
    ensures var identity := w.store.credentials[(user, secret)];
            Exclusive(Put(w, slot, Login(w.store, base, user, secret, fault))) <==>
            !(fault && Attachable(w.store, identity) && !(Locked(w.store, identity) && FreeBut(w, slot, identity)))
  {
    hide Acquire, Attachable;
    var identity := w.store.credentials[(user, secret)];
    AcquireLocks(w.store, base.drop, identity, fault);
    var (store', s') := Login(w.store, base, user, secret, fault);
    var w' := Put(w, slot, (store', s'));
    assert w'.sessions[slot] == s';
    if s'.authOk {
      if !Locked(w.store, identity) {
        forall j | 0 <= j < |w.sessions| && j != slot ensures !Holds(w.sessions[j], identity) {
          assert SignedInOk(w.store, w.sessions[j]);
        }
      }
      if FreeBut(w, slot, identity) && Locked(store', identity) {
        ExclusiveAfter(w, slot, store', s', identity);
      }
      if Exclusive(w') {
        HolderIsAlone(w', slot);
        forall j | 0 <= j < |w.sessions| && j != slot ensures !Holds(w.sessions[j], identity) {
          assert !Holds(w'.sessions[j], identity);
        }
        assert SignedInOk(store', w'.sessions[slot]);
      }
    } else {
      ExclusiveAfter(w, slot, store', s', identity);
    }
  }

  /** However a session ends, it gives up nobody's lock but its own. */
  lemma CloseExclusive(w: World, slot: nat, cleaned: Store, fault: bool)
    requires Exclusive(w) && slot < |w.sessions| && cleaned.locks == w.store.locks
    ensures Exclusive(Put(w, slot, Close(cleaned, w.sessions[slot], fault)))
  {
    var s := w.sessions[slot];
    assert SignedInOk(w.store, s);
    var (store', s') := Close(cleaned, s, fault);
    if s.authOk {
      HolderIsAlone(w, slot);
      ExclusiveAfter(w, slot, store', s', s.authorized.value);
    } else {
      ExclusiveAfter(w, slot, store', s', []);
    }
  }

  lemma TransactionExclusive(w: World, slot: nat, cmd: Command, fault: bool)
    requires Exclusive(w) && slot < |w.sessions| && w.sessions[slot].authOk
    ensures w.sessions[slot].authorized.Some?
    ensures Exclusive(Put(w, slot, TransactionLine(w.store, w.sessions[slot], cmd, fault)))
  {
    hide Close;
    var s := w.sessions[slot];
    assert SignedInOk(w.store, s);
    if cmd.Quit? {
      CloseExclusive(w, slot, Update(w.store, s.drop, s.authorized.value), fault);
    } else {
      var (store', s') := TransactionLine(w.store, s, cmd, fault);
      HolderIsAlone(w, slot);
      ExclusiveAfter(w, slot, store', s', s.authorized.value);
    }
  }

  /** Mutual exclusion survives a step exactly when no lock statement that failed
      was taken for a success. */
  lemma ExclusionKept(w: World, e: Event)
    requires Exclusive(w)
    ensures Exclusive(Step(w, e)) <==> !WrongGrant(w, e)
  {
    hide Login, Close, TransactionLine, React, Attachable, Arrival;
    match e
    case Accept(slot, listener) =>
      var w' := Step(w, e);
      forall j | 0 <= j < |w'.sessions| ensures SignedInOk(w.store, w'.sessions[j]) {
        assert j < |w.sessions| ==> SignedInOk(w.store, w.sessions[j]);
      }
    case Line(slot, cmd, sasl, fault) =>
      if Live(w, slot) {
        var s := w.sessions[slot];
        assert SignedInOk(w.store, s);
        if s.stage.Authorization? {
          ReactKeeps(s, cmd, sasl);
          match React(s, cmd, sasl)
          case Stay(next) => ExclusiveAfter(w, slot, w.store, next, []);
          case Leave => CloseExclusive(w, slot, w.store, fault);
          case SignIn(base, user, secret) =>
            if (user, secret) in w.store.credentials {
              LoginExclusive(w, slot, base, user, secret, fault);
            } else {
              RefusedLogin(w.store, base, user, secret, fault);
              ExclusiveAfter(w, slot, w.store, AuthReset(base), []);
            }
        } else {
          TransactionExclusive(w, slot, cmd, fault);
        }
      }
    case Hangup(slot, fault) =>
      if Live(w, slot) {
        CloseExclusive(w, slot, w.store, fault);
      }
    case Arrive(inbox, at, user, ident, data) =>
      var w' := Step(w, e);
      assert forall j :: 0 <= j < |w'.sessions| ==> SignedInOk(w.store, w.sessions[j]);
  }

  lemma RefusedLogin(store: Store, base: Session, user: Text, secret: Text, fault: bool)
    requires (user, secret) !in store.credentials
    ensures Login(store, base, user, secret, fault) == (store, AuthReset(base))
  {
  }
}
