/** What holds of maildrops although user databases do not open, locks stay set and
    marks fail: as long as no maildrop is granted wrongly and nobody signs in over what
    a failed sign-in left behind, every session deals with its own user's mail only. */
module PopFairness {
  import opened Bytes
  import opened MailTables
  import opened Maildrops
  import opened PopSessions
  import opened PopInvariant
  import opened PopRuns
  import opened PopConsistency

  /** The row is there and belongs to the user. */
  ghost predicate Own(rows: seq<Row>, id: nat, user: Text) {
    Fetch(rows, id).Some? && Fetch(rows, id).value.user == user
  }

  /** What a failed sign-in leaves in a maildrop: master mails, without flags, of users
      whose database does not open. */
  predicate Leftover(store: Store, mail: PopMail) {
    && mail.master && !mail.deleted
    && var row := Fetch(store.master.rows, mail.id);
       row.Some? && Entry(row.value, true) == mail && !Attachable(store, row.value.user)
  }

  ghost predicate Leftovers(store: Store, mails: seq<PopMail>) {
    forall k :: 0 <= k < |mails| ==> Leftover(store, mails[k])
  }

  /** The private table of marks of a signed-in session. */
  ghost predicate PrivateMarksOwn(store: Store, user: Text, drop: Drop) {
    forall m :: m in drop.marks ==>
      && m.user == user && drop.conn.Some? && drop.conn.value in store.files
      && Own(store.files[drop.conn.value].rows, m.id, user)
  }

  /** A signed-in session deals with its user's rows only. */
  ghost predicate OwnMaildrop(store: Store, user: Text, drop: Drop) {
    && drop.conn == ConnOf(store, user) && Attachable(store, user)
    && Backed(store, user, drop) && PrivateMarksOwn(store, user, drop)
  }

  ghost predicate SessionFair(store: Store, s: Session) {
    if s.authOk then s.authorized.Some? && OwnMaildrop(store, s.authorized.value, s.drop)
    else s.drop.conn.None? && s.drop.marks == {} && Leftovers(store, s.drop.mails)
  }

  ghost predicate MarksFair(w: World) {
    forall m :: m in w.store.marks ==> Own(w.store.master.rows, m.id, m.user) && HasHolder(w, m.user)
  }

  ghost predicate FairWorld(w: World) {
    && TablesOk(w.store) && Exclusive(w) && MarksFair(w)
    && forall i :: 0 <= i < |w.sessions| ==> SessionFair(w.store, w.sessions[i])
  }

  // ------------------------------------------------------------ frames

  /** The rows of a user survive, and the configuration is the same. */
  ghost predicate RowsKept(store: Store, store': Store, user: Text) {
    && store.databases == store'.databases && store.files.Keys == store'.files.Keys
    && KeepsRows(store.master.rows, store'.master.rows, user)
    && forall f :: f in store.files ==> KeepsRows(store.files[f].rows, store'.files[f].rows, user)
  }

  /** Only rows of `user` may be lost, and only if its database opens. */
  ghost predicate OnlyRowsOf(store: Store, store': Store, user: Text) {
    forall v :: v != user || !Attachable(store, v) ==> RowsKept(store, store', v)
  }

  lemma OwnMaildropKept(store: Store, store': Store, user: Text, drop: Drop)
    requires OwnMaildrop(store, user, drop) && RowsKept(store, store', user)
    ensures OwnMaildrop(store', user, drop)
  {
    forall k | 0 <= k < |drop.mails| ensures Backs(Denoted(store', drop, k + 1), drop.mails[k], user) {
      assert Backs(Denoted(store, drop, k + 1), drop.mails[k], user);
    }
  }

  lemma LeftoversKept(store: Store, store': Store, mails: seq<PopMail>)
    requires Leftovers(store, mails)
    requires forall v :: !Attachable(store, v) ==> RowsKept(store, store', v)
    ensures Leftovers(store', mails)
  {
    forall k | 0 <= k < |mails| ensures Leftover(store', mails[k]) {
      assert Leftover(store, mails[k]);
      var user := Fetch(store.master.rows, mails[k].id).value.user;
      assert RowsKept(store, store', user);
    }
  }

  lemma SessionFairKept(store: Store, store': Store, user: Text, s: Session)
    requires SessionFair(store, s) && OnlyRowsOf(store, store', user)
    requires s.authOk ==> s.authorized != Some(user)
    ensures SessionFair(store', s)
  {
    hide OwnMaildrop, Leftovers, RowsKept;
    if s.authOk {
      OwnMaildropKept(store, store', s.authorized.value, s.drop);
    } else {
      LeftoversKept(store, store', s.drop.mails);
    }
  }

  /** A step of one session for one user, with what it may do to the marks. */
  lemma FairAfter(w: World, slot: nat, store': Store, s': Session, user: Text)
    requires FairWorld(w) && slot < |w.sessions| && TablesOk(store') && SessionFair(store', s')
    requires Exclusive(Put(w, slot, (store', s'))) && OnlyRowsOf(w.store, store', user)
    requires store' == w.store || FreeBut(w, slot, user)
    requires w.sessions[slot].authOk ==> w.sessions[slot].authorized == Some(user)
    requires s'.authOk ==> s'.authorized == Some(user)
    requires forall m :: m in store'.marks ==>
      || (m in w.store.marks && (m.user != user || !w.sessions[slot].authOk))
      || (m.user == user && s'.authOk && Own(store'.master.rows, m.id, user))
    ensures FairWorld(Put(w, slot, (store', s')))
  {
    hide RowsKept, OwnMaildrop, Leftovers, Exclusive, TablesOk, Own;
    var w' := Put(w, slot, (store', s'));
    forall j | 0 <= j < |w'.sessions| ensures SessionFair(store', w'.sessions[j]) {
      if j != slot && store' != w.store {
        assert !Holds(w.sessions[j], user);
        SignedInHolds(w, j);
        SessionFairKept(w.store, store', user, w.sessions[j]);
      }
    }
    forall m | m in store'.marks ensures Own(store'.master.rows, m.id, m.user) && HasHolder(w', m.user) {
      if m in w.store.marks && (m.user != user || !w.sessions[slot].authOk) {
        HolderElsewhere(w, slot, m.user, user);
        var i :| 0 <= i < |w.sessions| && i != slot && Holds(w.sessions[i], m.user);
        assert Holds(w'.sessions[i], m.user);
        if store' != w.store {
          assert m.user != user;
          OwnKept(w.store, store', m.id, m.user);
        }
      } else {
        NewHolder(w', slot, user);
      }
    }
  }

  lemma SignedInHolds(w: World, j: nat)
    requires Exclusive(w) && j < |w.sessions|
    ensures w.sessions[j].authOk ==> w.sessions[j].authorized.Some? && Holds(w.sessions[j], w.sessions[j].authorized.value)
  {
    assert SignedInOk(w.store, w.sessions[j]);
  }

  lemma HolderElsewhere(w: World, slot: nat, holder: Text, user: Text)
    requires Exclusive(w) && slot < |w.sessions| && HasHolder(w, holder)
    requires w.sessions[slot].authOk ==> w.sessions[slot].authorized == Some(user)
    requires holder != user || !w.sessions[slot].authOk
    ensures exists i :: 0 <= i < |w.sessions| && i != slot && Holds(w.sessions[i], holder)
  {
    var i :| 0 <= i < |w.sessions| && Holds(w.sessions[i], holder);
    assert SignedInOk(w.store, w.sessions[i]);
    assert i != slot;
  }

  lemma OwnKept(store: Store, store': Store, id: nat, user: Text)
    requires RowsKept(store, store', user) && Own(store.master.rows, id, user)
    ensures Own(store'.master.rows, id, user)
  {
  }

  lemma NewHolder(w: World, slot: nat, user: Text)
    requires Exclusive(w) && slot < |w.sessions| && w.sessions[slot].authOk && w.sessions[slot].authorized == Some(user)
    ensures HasHolder(w, user)
  {
    SignedInHolds(w, slot);
  }

  lemma NothingChanges(store: Store, user: Text)
    ensures OnlyRowsOf(store, store, user)
  {
  }

  lemma SlotFair(w: World, slot: nat)
    requires FairWorld(w) && slot < |w.sessions|
    ensures SessionFair(w.store, w.sessions[slot]) && SignedInOk(w.store, w.sessions[slot])
  {
  }

  // ------------------------------------------------------------ signing in

  /** The sign-in is granted. */
  ghost predicate Granted(store: Store, drop: Drop, user: Text, fault: bool) {
    Attachable(store, user) && (fault || (user in store.locks && !store.locks[user]))
  }

  /** Behind what was left over come the rows of the user. */
  lemma GrantedMails(store: Store, drop: Drop, user: Text, fault: bool)
    requires Granted(store, drop, user, fault) && drop.conn.None? && drop.marks == {}
    ensures var (store', drop', status) := Acquire(store, drop, user, fault);
            && status == 0 && drop'.mails == drop.mails + Snapshot(store, user)
            && drop'.conn == ConnOf(store, user) && drop'.marks == {}
            && store'.master == store.master && store'.files == store.files && store'.marks == store.marks
            && store'.databases == store.databases
  {
    hide Snapshot;
  }

  /** A granted sign-in shows the user its own mail only if and only if nothing was left
      over on the connection: whatever was is another user's. */
  lemma OnlyOwnMail(store: Store, drop: Drop, user: Text, fault: bool)
    requires TablesOk(store) && Granted(store, drop, user, fault)
    requires drop.conn.None? && drop.marks == {} && Leftovers(store, drop.mails)
    ensures var (store', drop', _) := Acquire(store, drop, user, fault);
            OwnMaildrop(store', user, drop') <==> drop.mails == []
  {
    hide Acquire, Snapshot, Query, Fetch;
    GrantedMails(store, drop, user, fault);
    var (store', drop', _) := Acquire(store, drop, user, fault);
    if drop.mails == [] {
      assert [] + Snapshot(store, user) == Snapshot(store, user);
      SnapshotBacked(store, user, drop');
      SameRowsBacked(store, store', user, drop');
    } else {
      assert Leftover(store, drop.mails[0]);
      assert drop'.mails[0] == drop.mails[0];
      assert !Backs(Denoted(store', drop', 0 + 1), drop'.mails[0], user);
    }
  }

  lemma SameRowsBacked(store: Store, store': Store, user: Text, drop: Drop)
    requires Backed(store, user, drop) && store'.master == store.master && store'.files == store.files
    ensures Backed(store', user, drop)
  {
    forall k | 0 <= k < |drop.mails| ensures Backs(Denoted(store', drop, k + 1), drop.mails[k], user) {
      assert Backs(Denoted(store, drop, k + 1), drop.mails[k], user);
    }
  }

  /** A sign-in that is granted on a connection where one failed before. */
  ghost predicate OverLeftovers(w: World, e: Event) {
    e.Line? && Live(w, e.slot) && w.sessions[e.slot].stage.Authorization?
    && var (s, user) := (w.sessions[e.slot], Wanted(w.store, w.sessions[e.slot], e.cmd, e.sasl));
       user.Some? && Granted(w.store, s.drop, user.value, e.fault) && s.drop.mails != []
  }

  lemma UnattachableRows(store: Store, user: Text)
    requires TablesOk(store) && !Attachable(store, user)
    ensures Leftovers(store, Snapshot(store, user))
  {
    QueryMembers(store.master.rows, user);
    var rows := Query(store.master.rows, user);
    assert Snapshot(store, user) == Entries(rows, true) + [];
    forall k | 0 <= k < |Snapshot(store, user)| ensures Leftover(store, Snapshot(store, user)[k]) {
      assert Fetch(store.master.rows, rows[k].id) == Some(rows[k]);
    }
  }

  lemma MoreLeftovers(store: Store, store': Store, a: seq<PopMail>, b: seq<PopMail>)
    requires Leftovers(store, a) && Leftovers(store, b)
    requires store'.master == store.master && store'.files == store.files && store'.databases == store.databases
    ensures Leftovers(store', a + b)
  {
    var mails := a + b;
    forall k | 0 <= k < |mails| ensures Leftover(store', mails[k]) {
      assert Leftover(store, if k < |a| then a[k] else b[k - |a|]);
    }
  }

  /** A sign-in that is refused leaves at most mails of a user whose database fails. */
  lemma RefusedLeavesLeftovers(store: Store, base: Session, user: Text, secret: Text, fault: bool)
    requires TablesOk(store) && (user, secret) in store.credentials && !base.authOk
    requires base.drop.conn.None? && base.drop.marks == {} && Leftovers(store, base.drop.mails)
    requires !Granted(store, base.drop, store.credentials[(user, secret)], fault)
    ensures var (store', s') := Login(store, base, user, secret, fault);
            && !s'.authOk && SessionFair(store', s')
            && store'.master == store.master && store'.files == store.files && store'.marks == store.marks
            && store'.databases == store.databases
  {
    hide Snapshot, Leftover;
    var identity := store.credentials[(user, secret)];
    var (store', s') := Login(store, base, user, secret, fault);
    if !Attachable(store, identity) {
      UnattachableRows(store, identity);
      MoreLeftovers(store, store', base.drop.mails, Snapshot(store, identity));
    }
    MoreLeftovers(store, store', base.drop.mails, []);
    assert base.drop.mails + [] == base.drop.mails;
  }

  lemma LoginFair(w: World, slot: nat, base: Session, user: Text, secret: Text, fault: bool)
    requires FairWorld(w) && slot < |w.sessions| && !w.sessions[slot].authOk
    requires base.open && base.stage.Authorization? && !base.authOk && base.authenticated.Some?
    requires base.drop == w.sessions[slot].drop && (user, secret) in w.store.credentials
    ensures var identity := w.store.credentials[(user, secret)];
            FairWorld(Put(w, slot, Login(w.store, base, user, secret, fault))) <==>
            && !(fault && Attachable(w.store, identity) && !(Locked(w.store, identity) && FreeBut(w, slot, identity)))
            && !(Granted(w.store, base.drop, identity, fault) && base.drop.mails != [])
  {
    hide Login, Acquire, OwnMaildrop, Leftovers, Exclusive, TablesOk, MarksFair, Snapshot, OnlyRowsOf;
    var identity := w.store.credentials[(user, secret)];
    SlotFair(w, slot);
    LoginExclusive(w, slot, base, user, secret, fault);
    var (store', s') := Login(w.store, base, user, secret, fault);
    if Granted(w.store, base.drop, identity, fault) {
      GrantedLogin(w.store, base, user, secret, fault);
      OnlyOwnMail(w.store, base.drop, identity, fault);
      var w' := Put(w, slot, (store', s'));
      if Exclusive(w') && base.drop.mails == [] {
        GrantedFair(w, slot, store', s', identity, fault);
      }
      assert w'.sessions[slot] == s';
    } else {
      RefusedLeavesLeftovers(w.store, base, user, secret, fault);
      SameRows(w.store, store', identity);
      if store' != w.store { LockTakenIsFree(w, slot, base, user, secret, fault); }
      MarksOfOthers(w);
      FairAfter(w, slot, store', s', identity);
    }
  }

  lemma MarksOfOthers(w: World)
    requires MarksFair(w)
    ensures forall m :: m in w.store.marks ==> Own(w.store.master.rows, m.id, m.user)
  {
  }

  lemma GrantedLogin(store: Store, base: Session, user: Text, secret: Text, fault: bool)
    requires (user, secret) in store.credentials && base.drop.conn.None? && base.drop.marks == {}
    requires Granted(store, base.drop, store.credentials[(user, secret)], fault)
    ensures var identity := store.credentials[(user, secret)];
            var (store', drop', _) := Acquire(store, base.drop, identity, fault);
            Login(store, base, user, secret, fault)
            == (store', base.(stage := Transaction, authOk := true, authorized := Some(identity), drop := drop'))
    ensures var store' := Login(store, base, user, secret, fault).0;
            && store'.master == store.master && store'.files == store.files && store'.marks == store.marks
            && store'.databases == store.databases
  {
    hide Acquire, Snapshot;
    GrantedMails(store, base.drop, store.credentials[(user, secret)], fault);
  }

  lemma GrantedFair(w: World, slot: nat, store': Store, s': Session, user: Text, fault: bool)
    requires FairWorld(w) && slot < |w.sessions| && !w.sessions[slot].authOk
    requires Granted(w.store, w.sessions[slot].drop, user, fault)
    requires store'.master == w.store.master && store'.files == w.store.files && store'.marks == w.store.marks
    requires store'.databases == w.store.databases && SessionFair(store', s') && s'.authOk && s'.authorized == Some(user)
    requires Exclusive(Put(w, slot, (store', s')))
    ensures FairWorld(Put(w, slot, (store', s')))
  {
    hide Exclusive, SessionFair, RowsKept;
    var w' := Put(w, slot, (store', s'));
    SameRows(w.store, store', user);
    assert w'.sessions[slot] == s';
    HolderIsAlone(w', slot);
    forall j | 0 <= j < |w.sessions| && j != slot ensures !Holds(w.sessions[j], user) {
      assert !Holds(w'.sessions[j], user);
    }
    SameTables(w.store, store');
    FairAfter(w, slot, store', s', user);
  }

  lemma SameTables(store: Store, store': Store)
    requires TablesOk(store) && store'.master == store.master && store'.files == store.files
    ensures TablesOk(store')
  {
  }

  lemma SameRows(store: Store, store': Store, user: Text)
    requires store'.master == store.master && store'.files == store.files && store'.databases == store.databases
    ensures OnlyRowsOf(store, store', user)
    ensures TablesOk(store) ==> TablesOk(store')
  {
  }

  /** When a sign-in changes a lock nobody holds the maildrop. */
  lemma LockTakenIsFree(w: World, slot: nat, base: Session, user: Text, secret: Text, fault: bool)
    requires Exclusive(w) && (user, secret) in w.store.credentials
    requires Login(w.store, base, user, secret, fault).0 != w.store
    ensures FreeBut(w, slot, w.store.credentials[(user, secret)])
  {
    hide Snapshot, Attach;
    var identity := w.store.credentials[(user, secret)];
    assert !Locked(w.store, identity);
    forall j | 0 <= j < |w.sessions| && j != slot ensures !Holds(w.sessions[j], identity) {
      assert SignedInOk(w.store, w.sessions[j]);
    }
  }

  // ------------------------------------------------------------ the other steps

  lemma QuietFair(w: World, slot: nat, s': Session)
    requires FairWorld(w) && slot < |w.sessions| && !w.sessions[slot].authOk && !s'.authOk
    requires s'.drop == w.sessions[slot].drop && SignedInOk(w.store, s')
    ensures FairWorld(Put(w, slot, (w.store, s')))
  {
    hide OwnMaildrop, Leftovers, Own;
    SlotFair(w, slot);
    ExclusiveAfter(w, slot, w.store, s', []);
    NothingChanges(w.store, []);
    FairAfter(w, slot, w.store, s', []);
  }

  /** Removal touches no row of anybody else. */
  lemma UpdateFair(w: World, slot: nat)
    requires FairWorld(w) && slot < |w.sessions| && w.sessions[slot].authOk
    ensures w.sessions[slot].authorized.Some?
    ensures var (user, store') := (w.sessions[slot].authorized.value,
                                   Update(w.store, w.sessions[slot].drop, w.sessions[slot].authorized.value));
            && OnlyRowsOf(w.store, store', user) && TablesOk(store') && store'.locks == w.store.locks
            && store'.marks == w.store.marks
  {
    hide Without, Fetch, Backed;
    SlotFair(w, slot);
    var (store, drop, user) := (w.store, w.sessions[slot].drop, w.sessions[slot].authorized.value);
    var store' := Update(store, drop, user);
    WithoutOkTable(store.master, store.marks, user);
    forall id: nat | Mark(user, id) in store.marks
      ensures Fetch(store.master.rows, id).Some? && Fetch(store.master.rows, id).value.user == user
    {
      assert Own(store.master.rows, Mark(user, id).id, Mark(user, id).user);
    }
    if drop.conn.Some? {
      var table := store.files[drop.conn.value];
      WithoutOkTable(table, drop.marks, user);
      forall id: nat | Mark(user, id) in drop.marks
        ensures Fetch(table.rows, id).Some? && Fetch(table.rows, id).value.user == user
      {
        assert Own(table.rows, Mark(user, id).id, user);
      }
    }
    forall v | v != user || !Attachable(store, v) ensures RowsKept(store, store', v) {
      WithoutKeepsRows(store.master.rows, store.marks, user, v);
      if drop.conn.Some? {
        WithoutKeepsRows(store.files[drop.conn.value].rows, drop.marks, user, v);
      }
      assert forall f :: f in store.files ==> KeepsRows(store.files[f].rows, store'.files[f].rows, v);
    }
  }

  lemma CloseFair(w: World, slot: nat, cleaned: Store, fault: bool)
    requires FairWorld(w) && slot < |w.sessions| && w.sessions[slot].authOk && w.sessions[slot].authorized.Some?
    requires OnlyRowsOf(w.store, cleaned, w.sessions[slot].authorized.value) && TablesOk(cleaned)
    requires cleaned.locks == w.store.locks && cleaned.marks == w.store.marks
    ensures FairWorld(Put(w, slot, Close(cleaned, w.sessions[slot], fault)))
  {
    hide OwnMaildrop, TablesOk, Exclusive, RowsKept, Own, Release;
    var s := w.sessions[slot];
    var user := s.authorized.value;
    CloseExclusive(w, slot, cleaned, fault);
    SlotFair(w, slot);
    HolderIsAlone(w, slot);
    var (store', s') := Close(cleaned, s, fault);
    ReleasedFair(w.store, cleaned, user, s.drop, fault);
    FairAfter(w, slot, store', s', user);
  }

  lemma ReleasedFair(store: Store, cleaned: Store, user: Text, drop: Drop, fault: bool)
    requires OnlyRowsOf(store, cleaned, user) && TablesOk(cleaned) && cleaned.marks == store.marks
    ensures var store' := Release(cleaned, drop, user, fault);
            && OnlyRowsOf(store, store', user) && TablesOk(store')
            && forall m :: m in store'.marks ==> m in store.marks && m.user != user
  {
    var store' := Release(cleaned, drop, user, fault);
    forall v | v != user || !Attachable(store, v) ensures RowsKept(store, store', v) {
      assert RowsKept(store, cleaned, v);
    }
  }

  lemma DeleFair(w: World, slot: nat, n: nat, fault: bool)
    requires FairWorld(w) && slot < |w.sessions| && w.sessions[slot].authOk
    ensures w.sessions[slot].authorized.Some?
    ensures FairWorld(Put(w, slot, TransactionLine(w.store, w.sessions[slot], Dele(n), fault)))
  {
    hide Exclusive, RowsKept, Fetch;
    var s := w.sessions[slot];
    SlotFair(w, slot);
    var user := s.authorized.value;
    TransactionExclusive(w, slot, Dele(n), fault);
    if Deletable(s.drop.mails, n) {
      var (store', s') := TransactionLine(w.store, s, Dele(n), fault);
      HolderIsAlone(w, slot);
      MarkedMaildrop(w.store, user, s.drop, n - 1, fault);
      SameRows(w.store, store', user);
      MarksOfOthers(w);
      FairAfter(w, slot, store', s', user);
    } else {
      assert w.sessions[slot := s] == w.sessions;
    }
  }

  /** A mark concerns a row of the user, and the flag changes nothing else. */
  lemma MarkedMaildrop(store: Store, user: Text, drop: Drop, k: nat, fault: bool)
    requires OwnMaildrop(store, user, drop) && k < |drop.mails|
    ensures var (store', drop') := if fault then (store, drop) else MarkMail(store, drop, user, k);
            && OwnMaildrop(store', user, drop'.(mails := WithFlag(drop.mails, k)))
            && (forall m :: m in store'.marks ==> m in store.marks || (m.user == user && Own(store.master.rows, m.id, user)))
  {
    hide Fetch;
    var (store', marked) := if fault then (store, drop) else MarkMail(store, drop, user, k);
    var drop' := marked.(mails := WithFlag(drop.mails, k));
    assert Backs(Denoted(store, drop, k + 1), drop.mails[k], user);
    forall j | 0 <= j < |drop'.mails| ensures Backs(Denoted(store', drop', j + 1), drop'.mails[j], user) {
      assert Backs(Denoted(store, drop, j + 1), drop.mails[j], user);
    }
  }

  lemma RsetFair(w: World, slot: nat, fault: bool)
    requires FairWorld(w) && slot < |w.sessions| && w.sessions[slot].authOk
    ensures w.sessions[slot].authorized.Some?
    ensures FairWorld(Put(w, slot, TransactionLine(w.store, w.sessions[slot], Rset, fault)))
  {
    hide Exclusive, RowsKept, Fetch;
    var s := w.sessions[slot];
    SlotFair(w, slot);
    var user := s.authorized.value;
    TransactionExclusive(w, slot, Rset, fault);
    HolderIsAlone(w, slot);
    var (store', s') := TransactionLine(w.store, s, Rset, fault);
    forall j | 0 <= j < |s'.drop.mails| ensures Backs(Denoted(store', s'.drop, j + 1), s'.drop.mails[j], user) {
      assert Backs(Denoted(w.store, s.drop, j + 1), s.drop.mails[j], user);
    }
    SameRows(w.store, store', user);
    MarksOfOthers(w);
    FairAfter(w, slot, store', s', user);
  }

  lemma TransactionFair(w: World, slot: nat, cmd: Command, fault: bool)
    requires FairWorld(w) && slot < |w.sessions| && w.sessions[slot].authOk
    ensures w.sessions[slot].authorized.Some?
    ensures FairWorld(Put(w, slot, TransactionLine(w.store, w.sessions[slot], cmd, fault)))
  {
    hide OwnMaildrop, FairWorld, OnlyRowsOf;
    var s := w.sessions[slot];
    SlotFair(w, slot);
    if cmd.Quit? {
      UpdateFair(w, slot);
      CloseFair(w, slot, Update(w.store, s.drop, s.authorized.value), fault);
    } else if cmd.Dele? {
      DeleFair(w, slot, cmd.n, fault);
    } else if cmd.Rset? {
      RsetFair(w, slot, fault);
    } else {
      assert w.sessions[slot := s] == w.sessions;
    }
  }

  lemma HangupFair(w: World, slot: nat, fault: bool)
    requires FairWorld(w) && slot < |w.sessions|
    ensures FairWorld(Put(w, slot, Close(w.store, w.sessions[slot], fault)))
  {
    hide OwnMaildrop, FairWorld, OnlyRowsOf, Leftovers;
    var s := w.sessions[slot];
    SlotFair(w, slot);
    if s.authOk {
      NothingChanges(w.store, s.authorized.value);
      FairTables(w);
      CloseFair(w, slot, w.store, fault);
    } else {
      QuietFair(w, slot, AuthReset(s.(open := false, tls := false)));
    }
  }

  lemma FairTables(w: World)
    requires FairWorld(w)
    ensures TablesOk(w.store) && Exclusive(w)
  {
  }

  lemma AuthorizationFair(w: World, slot: nat, cmd: Command, sasl: SaslOutcome, fault: bool)
    requires FairWorld(w) && Live(w, slot) && w.sessions[slot].stage.Authorization?
    ensures FairWorld(Put(w, slot, AuthorizationLine(w.store, w.sessions[slot], cmd, sasl, fault)))
       <==> !WrongGrant(w, Line(slot, cmd, sasl, fault)) && !OverLeftovers(w, Line(slot, cmd, sasl, fault))
  {
    hide FairWorld, Login, OwnMaildrop, Leftovers, React, Attachable, FreeBut;
    var s := w.sessions[slot];
    SlotFair(w, slot);
    ReactKeeps(s, cmd, sasl);
    match React(s, cmd, sasl)
    case Stay(next) => QuietFair(w, slot, next);
    case Leave => HangupFair(w, slot, fault);
    case SignIn(base, user, secret) =>
      if (user, secret) in w.store.credentials {
        LoginFair(w, slot, base, user, secret, fault);
      } else {
        RefusedLogin(w.store, base, user, secret, fault);
        QuietFair(w, slot, AuthReset(base));
      }
  }

  lemma AcceptFair(w: World, slot: nat, listener: Listener)
    requires FairWorld(w)
    ensures FairWorld(Step(w, Accept(slot, listener)))
  {
    hide OwnMaildrop, TablesOk, Exclusive, WrongGrant, Own;
    var w' := Step(w, Accept(slot, listener));
    ExclusionKept(w, Accept(slot, listener));
    NotAGrant(w, slot, listener);
    forall j | 0 <= j < |w'.sessions| ensures SessionFair(w.store, w'.sessions[j]) {
      assert j < |w.sessions| ==> SessionFair(w.store, w.sessions[j]);
    }
    forall m | m in w.store.marks ensures Own(w.store.master.rows, m.id, m.user) && HasHolder(w', m.user) {
      var i :| 0 <= i < |w.sessions| && Holds(w.sessions[i], m.user);
      assert Holds(w'.sessions[i], m.user);
    }
  }

  lemma NotAGrant(w: World, slot: nat, listener: Listener)
    ensures !WrongGrant(w, Accept(slot, listener)) && !OverLeftovers(w, Accept(slot, listener))
  {
  }

  lemma ArriveFair(w: World, inbox: Option<Text>, at: nat, user: Text, ident: Text, data: Text)
    requires FairWorld(w)
    ensures FairWorld(w.(store := Deliver(w.store, inbox, at, user, ident, data)))
  {
    hide Arrival, OwnMaildrop, Leftovers, TableOk, Own, RowsKept;
    var store' := Deliver(w.store, inbox, at, user, ident, data);
    var w' := w.(store := store');
    DeliverTables(w.store, inbox, at, user, ident, data);
    forall v ensures RowsKept(w.store, store', v) {
      DeliveredRows(w.store, inbox, at, user, ident, data, v);
    }
    assert forall j :: 0 <= j < |w'.sessions| ==> SignedInOk(w.store, w.sessions[j]);
    forall j | 0 <= j < |w'.sessions| ensures SessionFair(store', w'.sessions[j]) {
      var s := w.sessions[j];
      assert SessionFair(w.store, s);
      if s.authOk {
        OwnMaildropKept(w.store, store', s.authorized.value, s.drop);
      } else {
        LeftoversKept(w.store, store', s.drop.mails);
      }
    }
    forall m | m in store'.marks ensures Own(store'.master.rows, m.id, m.user) && HasHolder(w', m.user) {
      OwnKept(w.store, store', m.id, m.user);
      var i :| 0 <= i < |w.sessions| && Holds(w.sessions[i], m.user);
      assert Holds(w'.sessions[i], m.user);
    }
  }

  lemma DeliveredRows(store: Store, inbox: Option<Text>, at: nat, user: Text, ident: Text, data: Text, v: Text)
    requires TablesOk(store)
    ensures RowsKept(store, Deliver(store, inbox, at, user, ident, data), v)
  {
    hide Arrival, Fetch;
    DeliverUntouched(store, inbox, at, user, ident, data, v);
  }

  /** Any step keeps every session to its own user's mail if and only if it grants no
      maildrop wrongly and signs nobody in over what was left behind. */
  lemma FairKept(w: World, e: Event)
    requires FairWorld(w)
    ensures FairWorld(Step(w, e)) <==> !WrongGrant(w, e) && !OverLeftovers(w, e)
  {
    hide FairWorld, AuthorizationLine, TransactionLine, WrongGrant, OverLeftovers, OwnMaildrop, Leftovers, Close;
    match e
    case Accept(slot, listener) =>
      AcceptFair(w, slot, listener);
      NotAGrant(w, slot, listener);
    case Line(slot, cmd, sasl, fault) =>
      if Live(w, slot) {
        SlotFair(w, slot);
        if w.sessions[slot].stage.Authorization? {
          AuthorizationFair(w, slot, cmd, sasl, fault);
        } else {
          TransactionFair(w, slot, cmd, fault);
          NoGrantInTransaction(w, e);
        }
      } else {
        NoGrantInTransaction(w, e);
      }
    case Hangup(slot, fault) =>
      NoGrantInTransaction(w, e);
      if Live(w, slot) {
        HangupFair(w, slot, fault);
      }
    case Arrive(inbox, at, user, ident, data) =>
      NoGrantInTransaction(w, e);
      ArriveFair(w, inbox, at, user, ident, data);
  }

  lemma NoGrantInTransaction(w: World, e: Event)
    requires e.Line? && Live(w, e.slot) ==> w.sessions[e.slot].stage.Transaction?
    ensures !WrongGrant(w, e) && !OverLeftovers(w, e)
  {
  }
}
