/** With the locks, the snapshots and the deletion marks in order before a step,
    exactly which steps leave them in order, and what follows for whole runs. */
module PopConsistency {
  import opened Bytes
  import opened MailTables
  import opened Maildrops
  import opened PopSessions
  import opened PopInvariant
  import opened PopRuns

  /** Credentials of `user` authorize `identity`: the user itself or its alias. */
  ghost predicate Shown(store: Store, user: Text, identity: Text) {
    exists secret :: (user, secret) in store.credentials && store.credentials[(user, secret)] == identity
  }

  ghost predicate SessionOk(store: Store, s: Session) {
    SignedInOk(store, s)
    && if s.authOk then
         Holding(store, s.authorized.value, s.drop) && Shown(store, s.authenticated.value, s.authorized.value)
       else s.drop == EMPTY_DROP
  }

  ghost predicate HasHolder(w: World, user: Text) {
    exists i :: 0 <= i < |w.sessions| && Holds(w.sessions[i], user)
  }

  ghost predicate WorldOk(w: World) {
    && TablesOk(w.store) && Exclusive(w)
    && (forall i :: 0 <= i < |w.sessions| ==> SessionOk(w.store, w.sessions[i]))
    && (forall u :: Locked(w.store, u) ==> HasHolder(w, u))
    && (forall m :: m in w.store.marks ==> Locked(w.store, m.user))
  }

  /** The lock of a user is set exactly while one session, and no other, is in
      TRANSACTION as that user. */
  lemma LockedIffHeldOnce(w: World, user: Text)
    requires WorldOk(w)
    ensures Locked(w.store, user) <==> HasHolder(w, user)
    ensures forall i, j | 0 <= i < |w.sessions| && 0 <= j < |w.sessions| ::
              Holds(w.sessions[i], user) && Holds(w.sessions[j], user) ==> i == j
  {
    if HasHolder(w, user) {
      var i :| 0 <= i < |w.sessions| && Holds(w.sessions[i], user);
      assert SignedInOk(w.store, w.sessions[i]);
      HolderIsAlone(w, i);
    }
  }

  lemma UnlockedIsFree(w: World, slot: nat, user: Text)
    requires WorldOk(w) && !Locked(w.store, user)
    ensures FreeBut(w, slot, user) && NoMarks(w.store, user)
  {
    forall j | 0 <= j < |w.sessions| && j != slot ensures !Holds(w.sessions[j], user) {
      assert SignedInOk(w.store, w.sessions[j]);
    }
  }

  /** A session that is not signed in changes by itself. */
  lemma QuietStep(w: World, slot: nat, s': Session)
    requires WorldOk(w) && slot < |w.sessions| && !w.sessions[slot].authOk
    requires !s'.authOk && SessionOk(w.store, s')
    ensures WorldOk(Put(w, slot, (w.store, s')))
  {
    var w' := Put(w, slot, (w.store, s'));
    assert SessionOk(w.store, w.sessions[slot]);
    ExclusiveAfter(w, slot, w.store, s', []);
    forall u | Locked(w.store, u) ensures HasHolder(w', u) {
      var i :| 0 <= i < |w.sessions| && Holds(w.sessions[i], u);
      assert i != slot;
      assert Holds(w'.sessions[i], u);
    }
  }

  /** A step for `user`, whom nobody else holds. */
  lemma OwnStep(w: World, slot: nat, store': Store, s': Session, user: Text)
    requires WorldOk(w) && slot < |w.sessions| && FreeBut(w, slot, user)
    requires TablesOk(store') && SessionOk(store', s') && OthersUntouched(w.store, store', user)
    requires w.sessions[slot].authOk ==> w.sessions[slot].authorized == Some(user)
    requires s'.authOk ==> s'.authorized == Some(user)
    requires Locked(store', user) ==> s'.authOk
    requires s'.authOk || NoMarks(store', user)
    ensures WorldOk(Put(w, slot, (store', s')))
  {
    hide Holding;
    var w' := Put(w, slot, (store', s'));
    forall v | v != user ensures Locked(w.store, v) == Locked(store', v) {
      assert Untouched(w.store, store', v);
    }
    ExclusiveAfter(w, slot, store', s', user);
    forall j | 0 <= j < |w'.sessions| ensures SessionOk(store', w'.sessions[j]) {
      if j != slot {
        OtherSessionOk(w, slot, j, store', user);
      }
    }
    forall v | Locked(store', v) ensures HasHolder(w', v) {
      if v == user {
        assert Holds(w'.sessions[slot], user);
      } else {
        assert Untouched(w.store, store', v);
        var i :| 0 <= i < |w.sessions| && Holds(w.sessions[i], v);
        assert SignedInOk(w.store, w.sessions[i]);
        assert Holds(w'.sessions[i], v);
      }
    }
    forall m | m in store'.marks ensures Locked(store', m.user) {
      if m.user != user {
        assert Untouched(w.store, store', m.user);
        assert Mark(m.user, m.id) == m;
        assert m in w.store.marks;
      }
    }
  }

  lemma OtherSessionOk(w: World, slot: nat, j: nat, store': Store, user: Text)
    requires WorldOk(w) && FreeBut(w, slot, user) && j < |w.sessions| && j != slot
    requires OthersUntouched(w.store, store', user)
    ensures SessionOk(store', w.sessions[j])
  {
    hide Holding, Untouched;
    var s := w.sessions[j];
    assert SessionOk(w.store, s);
    if s.authOk {
      assert !Holds(s, user);
      UntouchedHolding(w.store, store', s.authorized.value, s.drop);
      LockUntouched(w.store, store', s.authorized.value);
    }
  }

  lemma LockUntouched(store: Store, store': Store, user: Text)
    requires Untouched(store, store', user)
    ensures Locked(store', user) == Locked(store, user) && store'.credentials == store.credentials
  {
  }

  // ------------------------------------------------------------ signing in

  /** Signing in goes well unless the user database of a free maildrop does not
      open. When the lock statement fails, nothing may come of it. */
  predicate LoginSound(store: Store, user: Text, fault: bool) {
    if fault then !Attachable(store, user) && Query(store.master.rows, user) == []
    else user in store.locks && !store.locks[user] ==> Attachable(store, user)
  }

  lemma LoginKept(w: World, slot: nat, base: Session, user: Text, secret: Text, fault: bool)
    requires WorldOk(w) && slot < |w.sessions| && !w.sessions[slot].authOk
    requires base.open && base.stage.Authorization? && !base.authOk && base.authenticated == Some(user)
    requires base.drop == EMPTY_DROP && (user, secret) in w.store.credentials
    ensures WorldOk(Put(w, slot, Login(w.store, base, user, secret, fault)))
       <==> LoginSound(w.store, w.store.credentials[(user, secret)], fault)
  {
    hide Holding, Acquire, Query, Attachable, Snapshot, OthersUntouched, Exclusive, TableOk, Lock, Attach;
    var store, identity := w.store, w.store.credentials[(user, secret)];
    if fault {
      FaultyLogin(w, slot, base, user, secret);
    } else if identity in store.locks && !store.locks[identity] {
      if Attachable(store, identity) {
        UnlockedIsFree(w, slot, identity);
        AcquireHolds(store, identity);
        var (store', s') := Login(store, base, user, secret, false);
        assert Shown(store', user, identity);
        OwnStep(w, slot, store', s', identity);
      } else {
        StrandedLogin(w, slot, base, user, secret);
      }
    } else {
      LockedOut(store, base, user, secret);
      QuietStep(w, slot, AuthReset(base));
    }
  }

  lemma LockedOut(store: Store, base: Session, user: Text, secret: Text)
    requires (user, secret) in store.credentials
    requires var u := store.credentials[(user, secret)]; u in store.locks ==> store.locks[u]
    ensures Login(store, base, user, secret, false) == (store, AuthReset(base))
  {
  }

  /** The lock is taken and kept, but nobody is signed in. */
  lemma StrandedLogin(w: World, slot: nat, base: Session, user: Text, secret: Text)
    requires WorldOk(w) && slot < |w.sessions| && base.stage.Authorization?
    requires (user, secret) in w.store.credentials
    requires var u := w.store.credentials[(user, secret)];
             u in w.store.locks && !w.store.locks[u] && !Attachable(w.store, u)
    ensures !WorldOk(Put(w, slot, Login(w.store, base, user, secret, false)))
  {
    hide Snapshot, Holding, Exclusive, TablesOk;
    var identity := w.store.credentials[(user, secret)];
    UnlockedIsFree(w, slot, identity);
    var w' := Put(w, slot, Login(w.store, base, user, secret, false));
    assert Locked(w'.store, identity);
    forall j | 0 <= j < |w'.sessions| ensures !Holds(w'.sessions[j], identity) {
      assert j != slot ==> !Holds(w.sessions[j], identity);
    }
  }

  lemma FaultyLogin(w: World, slot: nat, base: Session, user: Text, secret: Text)
    requires WorldOk(w) && slot < |w.sessions| && !w.sessions[slot].authOk
    requires base.open && base.stage.Authorization? && !base.authOk && base.authenticated.Some?
    requires base.drop == EMPTY_DROP && (user, secret) in w.store.credentials
    ensures WorldOk(Put(w, slot, Login(w.store, base, user, secret, true)))
       <==> LoginSound(w.store, w.store.credentials[(user, secret)], true)
  {
    hide Query, Holding, Exclusive, TablesOk;
    var store, identity := w.store, w.store.credentials[(user, secret)];
    var (store', s') := Login(store, base, user, secret, true);
    var w' := Put(w, slot, (store', s'));
    if Attachable(store, identity) {
      LoginExclusive(w, slot, base, user, secret, true);
      LockedElsewhere(w, slot, identity);
    } else {
      assert [] + (Entries(Query(store.master.rows, identity), true) + []) == Entries(Query(store.master.rows, identity), true);
      if Query(store.master.rows, identity) == [] {
        QuietStep(w, slot, AuthReset(base));
      } else {
        assert |s'.drop.mails| > 0;
        assert !SessionOk(store', w'.sessions[slot]);
      }
    }
  }

  lemma LockedElsewhere(w: World, slot: nat, user: Text)
    requires WorldOk(w) && slot < |w.sessions| && !w.sessions[slot].authOk
    ensures Locked(w.store, user) ==> !FreeBut(w, slot, user)
  {
    assert SignedInOk(w.store, w.sessions[slot]);
    if Locked(w.store, user) {
      var i :| 0 <= i < |w.sessions| && Holds(w.sessions[i], user);
      assert i != slot;
    }
  }

  // ------------------------------------------------------------ signed in

  /** The way out, with or without the removal before it. */
  lemma CloseKept(w: World, slot: nat, cleaned: Store, fault: bool)
    requires WorldOk(w) && slot < |w.sessions| && w.sessions[slot].authOk
    requires w.sessions[slot].authorized.Some? && cleaned.locks == w.store.locks
    requires TablesOk(cleaned) && OthersUntouched(w.store, cleaned, w.sessions[slot].authorized.value)
    ensures WorldOk(Put(w, slot, Close(cleaned, w.sessions[slot], fault))) <==> !fault
  {
    hide Holding, Release, Untouched;
    var s := w.sessions[slot];
    var user := s.authorized.value;
    assert SessionOk(w.store, s);
    HolderIsAlone(w, slot);
    var (store', s') := Close(cleaned, s, fault);
    ReleaseUntouched(cleaned, user, s.drop, fault);
    UntouchedTwice(w.store, cleaned, store', user);
    if fault {
      var w' := Put(w, slot, (store', s'));
      assert Locked(store', user);
      forall j | 0 <= j < |w'.sessions| ensures !Holds(w'.sessions[j], user) {
        assert j != slot ==> !Holds(w.sessions[j], user);
      }
    } else {
      OwnStep(w, slot, store', s', user);
    }
  }

  lemma UntouchedTwice(a: Store, b: Store, c: Store, user: Text)
    requires OthersUntouched(a, b, user) && OthersUntouched(b, c, user)
    ensures OthersUntouched(a, c, user)
  {
    forall v | v != user ensures Untouched(a, c, v) {
      assert Untouched(a, b, v) && Untouched(b, c, v);
      forall id: nat | Fetch(a.master.rows, id).Some? && Fetch(a.master.rows, id).value.user == v
        ensures Fetch(c.master.rows, id) == Fetch(a.master.rows, id)
      {
        assert Fetch(b.master.rows, id) == Fetch(a.master.rows, id);
      }
      forall f | f in a.files ensures KeepsRows(a.files[f].rows, c.files[f].rows, v) {
        assert f in b.files;
        assert KeepsRows(a.files[f].rows, b.files[f].rows, v) && KeepsRows(b.files[f].rows, c.files[f].rows, v);
      }
    }
  }

  /** A mark that fails leaves the flag without its row. */
  lemma DeleKept(w: World, slot: nat, n: nat, fault: bool)
    requires WorldOk(w) && slot < |w.sessions| && w.sessions[slot].authOk
    ensures w.sessions[slot].authorized.Some?
    ensures WorldOk(Put(w, slot, TransactionLine(w.store, w.sessions[slot], Dele(n), fault)))
       <==> !(fault && Deletable(w.sessions[slot].drop.mails, n))
  {
    hide Untouched, MarkMail;
    var s := w.sessions[slot];
    assert SessionOk(w.store, s);
    var user := s.authorized.value;
    var (store', s') := TransactionLine(w.store, s, Dele(n), fault);
    if !Deletable(s.drop.mails, n) {
      assert w.sessions[slot := s] == w.sessions;
    } else if fault {
      FlagWithoutMark(w.store, user, s.drop, n - 1);
      var w' := Put(w, slot, (store', s'));
      assert !SessionOk(store', w'.sessions[slot]);
    } else {
      HolderIsAlone(w, slot);
      MarkHolds(w.store, user, s.drop, n - 1);
      MarkKeepsTables(w.store, user, s.drop, n - 1);
      OwnStep(w, slot, store', s', user);
    }
  }

  lemma MarkKeepsTables(store: Store, user: Text, drop: Drop, k: nat)
    requires k < |drop.mails| && TablesOk(store)
    ensures TablesOk(MarkMail(store, drop, user, k).0)
    ensures Locked(MarkMail(store, drop, user, k).0, user) == Locked(store, user)
    ensures MarkMail(store, drop, user, k).0.credentials == store.credentials
  {
  }

  lemma FlagWithoutMark(store: Store, user: Text, drop: Drop, k: nat)
    requires Holding(store, user, drop) && k < |drop.mails| && !drop.mails[k].deleted
    ensures !FlagsAgree(store, user, drop.(mails := WithFlag(drop.mails, k)))
  {
    var master, id := drop.mails[k].master, drop.mails[k].id;
    assert !Flagged(drop.mails, master, id);
    FlaggedAfter(drop.mails, k, master, id);
  }

  lemma RsetKept(w: World, slot: nat, fault: bool)
    requires WorldOk(w) && slot < |w.sessions| && w.sessions[slot].authOk
    ensures w.sessions[slot].authorized.Some?
    ensures WorldOk(Put(w, slot, TransactionLine(w.store, w.sessions[slot], Rset, fault)))
  {
    hide Untouched;
    var s := w.sessions[slot];
    assert SessionOk(w.store, s);
    HolderIsAlone(w, slot);
    UnmarkHolds(w.store, s.authorized.value, s.drop);
    var (store', s') := TransactionLine(w.store, s, Rset, fault);
    OwnStep(w, slot, store', s', s.authorized.value);
  }

  /** What can go wrong in TRANSACTION: the mark of a DELE and the unlocking at the end. */
  predicate TransactionSound(s: Session, cmd: Command, fault: bool) {
    fault ==> !cmd.Quit? && !(cmd.Dele? && Deletable(s.drop.mails, cmd.n))
  }

  lemma TransactionKept(w: World, slot: nat, cmd: Command, fault: bool)
    requires WorldOk(w) && slot < |w.sessions| && w.sessions[slot].authOk
    ensures w.sessions[slot].authorized.Some?
    ensures WorldOk(Put(w, slot, TransactionLine(w.store, w.sessions[slot], cmd, fault)))
       <==> TransactionSound(w.sessions[slot], cmd, fault)
  {
    hide Holding, Untouched, WorldOk;
    var s := w.sessions[slot];
    SlotHolds(w, slot);
    if cmd.Quit? {
      UpdateUntouched(w.store, s.authorized.value, s.drop);
      UpdateLocks(w.store, s.authorized.value, s.drop);
      CloseKept(w, slot, Update(w.store, s.drop, s.authorized.value), fault);
    } else if cmd.Dele? {
      DeleKept(w, slot, cmd.n, fault);
    } else if cmd.Rset? {
      RsetKept(w, slot, fault);
    } else {
      assert w.sessions[slot := s] == w.sessions;
    }
  }

  lemma UpdateLocks(store: Store, user: Text, drop: Drop)
    ensures Update(store, drop, user).locks == store.locks
  {
  }

  lemma SlotHolds(w: World, slot: nat)
    requires WorldOk(w) && slot < |w.sessions| && w.sessions[slot].authOk
    ensures TablesOk(w.store) && w.sessions[slot].authorized.Some?
    ensures SessionOk(w.store, w.sessions[slot])
    ensures Holding(w.store, w.sessions[slot].authorized.value, w.sessions[slot].drop)
  {
    assert SessionOk(w.store, w.sessions[slot]);
  }

  // ------------------------------------------------------------ any step

  lemma AuthorizationKept(w: World, slot: nat, cmd: Command, sasl: SaslOutcome, fault: bool)
    requires WorldOk(w) && Live(w, slot) && w.sessions[slot].stage.Authorization?
    ensures WorldOk(Put(w, slot, AuthorizationLine(w.store, w.sessions[slot], cmd, sasl, fault)))
       <==> var user := Wanted(w.store, w.sessions[slot], cmd, sasl);
            user.Some? ==> LoginSound(w.store, user.value, fault)
  {
    hide WorldOk, Login, Holding, LoginSound, React;
    var s := w.sessions[slot];
    QuietSlot(w, slot);
    ReactKeeps(s, cmd, sasl);
    match React(s, cmd, sasl)
    case Stay(next) => QuietStep(w, slot, next);
    case Leave => QuietStep(w, slot, AuthReset(s.(open := false, tls := false)));
    case SignIn(base, user, secret) =>
      if (user, secret) in w.store.credentials {
        LoginKept(w, slot, base, user, secret, fault);
      } else {
        RefusedLogin(w.store, base, user, secret, fault);
        QuietStep(w, slot, AuthReset(base));
      }
  }

  lemma QuietSlot(w: World, slot: nat)
    requires WorldOk(w) && slot < |w.sessions|
    ensures SessionOk(w.store, w.sessions[slot])
    ensures SignedInOk(w.store, w.sessions[slot])
  {
  }

  lemma AcceptKept(w: World, slot: nat, listener: Listener)
    requires WorldOk(w)
    ensures WorldOk(Step(w, Accept(slot, listener)))
  {
    var w' := Step(w, Accept(slot, listener));
    if slot == |w.sessions| {
      ExclusionKept(w, Accept(slot, listener));
      forall u | Locked(w.store, u) ensures HasHolder(w', u) {
        var i :| 0 <= i < |w.sessions| && Holds(w.sessions[i], u);
        assert Holds(w'.sessions[i], u);
      }
      forall j | 0 <= j < |w'.sessions| ensures SessionOk(w.store, w'.sessions[j]) {
        assert j < |w.sessions| ==> SessionOk(w.store, w.sessions[j]);
      }
    } else if slot < |w.sessions| && !w.sessions[slot].open {
      QuietSlot(w, slot);
      QuietStep(w, slot, Fresh(listener));
    }
  }

  lemma ArrivalKeeps(t: Table, at: nat, user: Text, ident: Text, data: Text, v: Text)
    requires TableOk(t) && at <= |t.rows|
    ensures KeepsRows(t.rows, Arrival(t, at, user, ident, data).rows, v)
  {
    hide Arrival;
    forall id: nat | Fetch(t.rows, id).Some? ensures Fetch(Arrival(t, at, user, ident, data).rows, id) == Fetch(t.rows, id) {
      var k :| 0 <= k < |t.rows| && t.rows[k] == Fetch(t.rows, id).value;
      ArrivalFetch(t, at, user, ident, data, id);
    }
  }

  lemma ArriveKept(w: World, inbox: Option<Text>, at: nat, user: Text, ident: Text, data: Text)
    requires WorldOk(w)
    ensures WorldOk(w.(store := Deliver(w.store, inbox, at, user, ident, data)))
  {
    hide Arrival, Holding, Fetch, TableOk;
    var store' := Deliver(w.store, inbox, at, user, ident, data);
    var w' := w.(store := store');
    forall v ensures Untouched(w.store, store', v) {
      DeliverUntouched(w.store, inbox, at, user, ident, data, v);
    }
    DeliverTables(w.store, inbox, at, user, ident, data);
    forall j | 0 <= j < |w'.sessions| ensures SessionOk(store', w'.sessions[j]) {
      var s := w.sessions[j];
      assert SessionOk(w.store, s);
      if s.authOk {
        UntouchedHolding(w.store, store', s.authorized.value, s.drop);
      }
    }
    forall u | Locked(store', u) ensures HasHolder(w', u) {
      assert HasHolder(w, u);
      var i :| 0 <= i < |w.sessions| && Holds(w.sessions[i], u);
      assert Holds(w'.sessions[i], u);
    }
  }

  lemma DeliverUntouched(store: Store, inbox: Option<Text>, at: nat, user: Text, ident: Text, data: Text, v: Text)
    requires TablesOk(store)
    ensures Untouched(store, Deliver(store, inbox, at, user, ident, data), v)
  {
    hide Arrival, Fetch;
    match inbox
    case None =>
      if at <= |store.master.rows| { ArrivalKeeps(store.master, at, user, ident, data, v); }
    case Some(f) =>
      if f in store.files && at <= |store.files[f].rows| { ArrivalKeeps(store.files[f], at, user, ident, data, v); }
  }

  lemma DeliverTables(store: Store, inbox: Option<Text>, at: nat, user: Text, ident: Text, data: Text)
    requires TablesOk(store)
    ensures TablesOk(Deliver(store, inbox, at, user, ident, data))
  {
    hide Arrival, TableOk;
    match inbox
    case None =>
      if at <= |store.master.rows| { ArrivalOk(store.master, at, user, ident, data); }
    case Some(f) =>
      if f in store.files && at <= |store.files[f].rows| { ArrivalOk(store.files[f], at, user, ident, data); }
  }

  /** The steps that leave everything in order, as the databases can tell beforehand. */
  ghost predicate Sound(w: World, e: Event) {
    match e
    case Line(slot, cmd, sasl, fault) =>
      Live(w, slot) ==>
        var s := w.sessions[slot];
        if s.stage.Transaction? then TransactionSound(s, cmd, fault)
        else
          var user := Wanted(w.store, s, cmd, sasl);
          user.Some? ==> LoginSound(w.store, user.value, fault)
    case Hangup(slot, fault) => Live(w, slot) && w.sessions[slot].authOk ==> !fault
    case _ => true
  }

  lemma OrderKept(w: World, e: Event)
    requires WorldOk(w)
    ensures WorldOk(Step(w, e)) <==> Sound(w, e)
  {
    hide WorldOk, Holding, AuthorizationLine, TransactionLine, LoginSound, TransactionSound, Wanted;
    match e
    case Accept(slot, listener) => AcceptKept(w, slot, listener);
    case Line(slot, cmd, sasl, fault) =>
      if Live(w, slot) {
        QuietSlot(w, slot);
        if w.sessions[slot].stage.Authorization? {
          AuthorizationKept(w, slot, cmd, sasl, fault);
        } else {
          TransactionKept(w, slot, cmd, fault);
        }
      }
    case Hangup(slot, fault) =>
      if Live(w, slot) {
        var s := w.sessions[slot];
        QuietSlot(w, slot);
        if s.authOk {
          SlotHolds(w, slot);
          assert OthersUntouched(w.store, w.store, s.authorized.value);
          CloseKept(w, slot, w.store, fault);
        } else {
          QuietStep(w, slot, AuthReset(s.(open := false, tls := false)));
        }
      }
    case Arrive(inbox, at, user, ident, data) => ArriveKept(w, inbox, at, user, ident, data);
  }
}
