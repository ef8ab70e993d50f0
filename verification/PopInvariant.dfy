/** What every POP session keeps true of the databases: the lock, the snapshot and
    the deletion marks of the user it is signed in as. */
module PopInvariant {
  import opened Bytes
  import opened MailTables
  import opened Maildrops
  import opened PopSessions

  predicate Locked(store: Store, user: Text) { user in store.locks && store.locks[user] }

  function ConnOf(store: Store, user: Text): Option<Text> {
    if user in store.databases then Some(store.databases[user]) else None
  }

  /** Some mail with this id from this database is flagged for deletion. */
  ghost predicate Flagged(mails: seq<PopMail>, master: bool, id: nat) {
    exists k :: 0 <= k < |mails| && mails[k].deleted && mails[k].master == master && mails[k].id == id
  }

  /** The flags of the snapshot say what the deletion tables say. */
  ghost predicate FlagsAgree(store: Store, user: Text, drop: Drop) {
    && (forall id: nat :: Mark(user, id) in store.marks <==> Flagged(drop.mails, true, id))
    && (forall id: nat :: Mark(user, id) in drop.marks <==> Flagged(drop.mails, false, id))
    && (forall m :: m in drop.marks ==> m.user == user)
  }

  /** The snapshot entry is what listing `row` would give, the flag aside. */
  predicate Backs(row: Option<Row>, mail: PopMail, user: Text) {
    row.Some? && row.value.user == user && Entry(row.value, mail.master) == mail.(deleted := false)
  }

  ghost predicate Backed(store: Store, user: Text, drop: Drop) {
    forall k :: 0 <= k < |drop.mails| ==> Backs(Denoted(store, drop, k + 1), drop.mails[k], user)
  }

  /** No two entries stand for the same row. */
  ghost predicate Separate(mails: seq<PopMail>) {
    forall j, k :: 0 <= j < k < |mails| && mails[j].master == mails[k].master ==> mails[j].id != mails[k].id
  }

  /** What holds while a session is signed in as `user`. */
  ghost predicate Holding(store: Store, user: Text, drop: Drop) {
    && Locked(store, user) && drop.conn == ConnOf(store, user) && Attachable(store, user)
    && Backed(store, user, drop) && Separate(drop.mails) && FlagsAgree(store, user, drop)
  }

  ghost predicate TablesOk(store: Store) {
    TableOk(store.master) && forall f :: f in store.files ==> TableOk(store.files[f])
  }

  /** No row of `user` is lost or changed. */
  ghost predicate KeepsRows(rows: seq<Row>, rows': seq<Row>, user: Text) {
    forall id: nat :: Fetch(rows, id).Some? && Fetch(rows, id).value.user == user ==> Fetch(rows', id) == Fetch(rows, id)
  }

  /** Nothing that concerns `user` changes. */
  ghost predicate Untouched(store: Store, store': Store, user: Text) {
    && Locked(store, user) == Locked(store', user)
    && (forall id: nat :: Mark(user, id) in store.marks <==> Mark(user, id) in store'.marks)
    && store.databases == store'.databases && store.credentials == store'.credentials
    && store.files.Keys == store'.files.Keys
    && KeepsRows(store.master.rows, store'.master.rows, user)
    && forall f :: f in store.files ==> KeepsRows(store.files[f].rows, store'.files[f].rows, user)
  }

  ghost predicate OthersUntouched(store: Store, store': Store, user: Text) {
    forall v :: v != user ==> Untouched(store, store', v)
  }

  ghost predicate NoMarks(store: Store, user: Text) {
    forall m :: m in store.marks ==> m.user != user
  }

  lemma UntouchedHolding(store: Store, store': Store, user: Text, drop: Drop)
    requires Holding(store, user, drop) && Untouched(store, store', user)
    ensures Holding(store', user, drop)
  {
    forall k | 0 <= k < |drop.mails| ensures Backs(Denoted(store', drop, k + 1), drop.mails[k], user) {
      assert Backs(Denoted(store, drop, k + 1), drop.mails[k], user);
    }
  }

  // ------------------------------------------------------------ acquiring

  lemma SnapshotSeparate(store: Store, user: Text)
    requires TablesOk(store)
    ensures Separate(Snapshot(store, user))
  {
    var first, second := Entries(Query(store.master.rows, user), true), UserRows(store, user);
    QueryMembers(store.master.rows, user);
    if user in store.databases && store.databases[user] in store.files {
      QueryMembers(store.files[store.databases[user]].rows, user);
    }
    assert forall k :: 0 <= k < |second| ==> !second[k].master;
    assert Separate(first) && Separate(second);
  }

  lemma SnapshotBacked(store: Store, user: Text, drop: Drop)
    requires TablesOk(store) && Attachable(store, user)
    requires drop.conn == ConnOf(store, user) && drop.mails == Snapshot(store, user)
    ensures Backed(store, user, drop)
    ensures forall k :: 0 <= k < |drop.mails| ==> !drop.mails[k].deleted
  {
    var first, second := Entries(Query(store.master.rows, user), true), UserRows(store, user);
    QueryMembers(store.master.rows, user);
    if user in store.databases {
      QueryMembers(store.files[store.databases[user]].rows, user);
    }
    forall k | 0 <= k < |drop.mails|
      ensures Backs(Denoted(store, drop, k + 1), drop.mails[k], user) && !drop.mails[k].deleted
    {
      if k < |first| {
        assert drop.mails[k] == first[k];
      } else {
        assert drop.mails[k] == second[k - |first|];
      }
    }
  }

  /** A free maildrop is acquired with everything in order. */
  lemma AcquireHolds(store: Store, user: Text)
    requires TablesOk(store) && user in store.locks && !store.locks[user]
    requires Attachable(store, user) && NoMarks(store, user)
    ensures var (store', drop', status) := Acquire(store, EMPTY_DROP, user, false);
            && status == 0 && store' == store.(locks := store.locks[user := true])
            && drop'.mails == Snapshot(store, user)
            && Holding(store', user, drop')
            && OthersUntouched(store, store', user)
  {
    hide Snapshot, Query, Fetch, Backed, Separate, FlagsAgree, Untouched;
    var (store', drop', status) := Acquire(store, EMPTY_DROP, user, false);
    var snapshot := Snapshot(store, user);
    assert [] + snapshot == snapshot;
    SnapshotSeparate(store, user);
    SnapshotBacked(store, user, drop');
    LockOnly(store, user, drop');
    NothingFlagged(store', user, drop');
  }

  /** Taking the lock of a user touches no rows and nobody else. */
  lemma LockOnly(store: Store, user: Text, drop: Drop)
    ensures var store' := store.(locks := store.locks[user := true]);
            && OthersUntouched(store, store', user)
            && (Backed(store, user, drop) ==> Backed(store', user, drop))
  {
    var store' := store.(locks := store.locks[user := true]);
    if Backed(store, user, drop) {
      forall k | 0 <= k < |drop.mails| ensures Backs(Denoted(store', drop, k + 1), drop.mails[k], user) {
        assert Backs(Denoted(store, drop, k + 1), drop.mails[k], user);
      }
    }
  }

  lemma NothingFlagged(store: Store, user: Text, drop: Drop)
    requires NoMarks(store, user) && drop.marks == {}
    requires forall k :: 0 <= k < |drop.mails| ==> !drop.mails[k].deleted
    ensures FlagsAgree(store, user, drop)
  {
  }

  // ------------------------------------------------------------ marking

  function WithFlag(mails: seq<PopMail>, k: nat): seq<PopMail>
    requires k < |mails|
  {
    mails[k := mails[k].(deleted := true)]
  }

  lemma FlaggedAfter(mails: seq<PopMail>, k: nat, master: bool, id: nat)
    requires k < |mails|
    ensures Flagged(WithFlag(mails, k), master, id) <==>
            Flagged(mails, master, id) || (mails[k].master == master && mails[k].id == id)
  {
    var mails' := WithFlag(mails, k);
    if Flagged(mails, master, id) {
      var j :| 0 <= j < |mails| && mails[j].deleted && mails[j].master == master && mails[j].id == id;
      assert mails'[j].deleted && mails'[j].id == id && mails'[j].master == master;
    }
    if mails[k].master == master && mails[k].id == id {
      assert mails'[k].deleted && mails'[k].id == id && mails'[k].master == master;
    }
  }

  lemma MarkHolds(store: Store, user: Text, drop: Drop, k: nat)
    requires Holding(store, user, drop) && k < |drop.mails|
    ensures var (store', drop') := MarkMail(store, drop, user, k);
            && Holding(store', user, drop'.(mails := WithFlag(drop.mails, k)))
            && OthersUntouched(store, store', user)
  {
    hide Fetch;
    var (store', marked) := MarkMail(store, drop, user, k);
    var drop' := marked.(mails := WithFlag(drop.mails, k));
    forall id: nat, master: bool
      ensures Flagged(drop'.mails, master, id) <==>
              Flagged(drop.mails, master, id) || (drop.mails[k].master == master && drop.mails[k].id == id)
    {
      FlaggedAfter(drop.mails, k, master, id);
    }
    assert FlagsAgree(store', user, drop');
    forall j | 0 <= j < |drop'.mails| ensures Backs(Denoted(store', drop', j + 1), drop'.mails[j], user) {
      assert Backs(Denoted(store, drop, j + 1), drop.mails[j], user);
    }
  }

  lemma UnmarkHolds(store: Store, user: Text, drop: Drop)
    requires Holding(store, user, drop)
    ensures var (store', drop') := UnmarkAll(store, drop, user);
            && Holding(store', user, drop'.(mails := Cleared(drop.mails)))
            && OthersUntouched(store, store', user) && NoMarks(store', user)
  {
    hide Fetch;
    var (store', unmarked) := UnmarkAll(store, drop, user);
    var drop' := unmarked.(mails := Cleared(drop.mails));
    forall j | 0 <= j < |drop'.mails| ensures Backs(Denoted(store', drop', j + 1), drop'.mails[j], user) {
      assert Backs(Denoted(store, drop, j + 1), drop.mails[j], user);
    }
    MarksNeedConnection(store, user, drop);
    assert FlagsAgree(store', user, drop');
  }

  /** Only a session with a user database has marks for one. */
  lemma MarksNeedConnection(store: Store, user: Text, drop: Drop)
    requires Holding(store, user, drop)
    ensures drop.marks != {} ==> drop.conn.Some?
  {
    if drop.marks != {} {
      var m :| m in drop.marks;
      assert Mark(user, m.id) == m;
      UserMarkedIsOwn(store, user, drop, m.id);
    }
  }

  // ------------------------------------------------------------ removing

  /** A marked row of the master table is the holder's own. */
  lemma MarkedIsOwn(store: Store, user: Text, drop: Drop, id: nat)
    requires Holding(store, user, drop) && Mark(user, id) in store.marks
    ensures Fetch(store.master.rows, id).Some? && Fetch(store.master.rows, id).value.user == user
  {
    assert Flagged(drop.mails, true, id);
    var k :| 0 <= k < |drop.mails| && drop.mails[k].deleted && drop.mails[k].master && drop.mails[k].id == id;
    assert Backs(Denoted(store, drop, k + 1), drop.mails[k], user);
  }

  lemma UserMarkedIsOwn(store: Store, user: Text, drop: Drop, id: nat)
    requires Holding(store, user, drop) && Mark(user, id) in drop.marks
    ensures drop.conn.Some? && drop.conn.value in store.files
    ensures Fetch(store.files[drop.conn.value].rows, id).Some?
    ensures Fetch(store.files[drop.conn.value].rows, id).value.user == user
  {
    assert Flagged(drop.mails, false, id);
    var k :| 0 <= k < |drop.mails| && drop.mails[k].deleted && !drop.mails[k].master && drop.mails[k].id == id;
    assert Backs(Denoted(store, drop, k + 1), drop.mails[k], user);
  }

  lemma WithoutKeepsRows(rows: seq<Row>, marks: set<Mark>, user: Text, other: Text)
    requires other != user
    requires forall id: nat :: Mark(user, id) in marks ==> Fetch(rows, id).Some? && Fetch(rows, id).value.user == user
    ensures KeepsRows(rows, Without(rows, marks, user), other)
  {
    forall id: nat ensures Fetch(Without(rows, marks, user), id) == if Mark(user, id) in marks then None else Fetch(rows, id) {
      WithoutFetch(rows, marks, user, id);
    }
  }

  lemma UpdateUntouched(store: Store, user: Text, drop: Drop)
    requires TablesOk(store) && Holding(store, user, drop)
    ensures TablesOk(Update(store, drop, user)) && OthersUntouched(store, Update(store, drop, user), user)
  {
    hide Without, Fetch;
    var store' := Update(store, drop, user);
    WithoutOkTable(store.master, store.marks, user);
    forall id: nat | Mark(user, id) in store.marks
      ensures Fetch(store.master.rows, id).Some? && Fetch(store.master.rows, id).value.user == user
    {
      MarkedIsOwn(store, user, drop, id);
    }
    if drop.conn.Some? {
      var table := store.files[drop.conn.value];
      WithoutOkTable(table, drop.marks, user);
      forall id: nat | Mark(user, id) in drop.marks
        ensures Fetch(table.rows, id).Some? && Fetch(table.rows, id).value.user == user
      {
        UserMarkedIsOwn(store, user, drop, id);
      }
    }
    forall v | v != user ensures Untouched(store, store', v) {
      WithoutKeepsRows(store.master.rows, store.marks, user, v);
      if drop.conn.Some? {
        WithoutKeepsRows(store.files[drop.conn.value].rows, drop.marks, user, v);
      }
      assert forall f :: f in store.files ==> KeepsRows(store.files[f].rows, store'.files[f].rows, v);
    }
  }

  lemma WithoutOkTable(t: Table, marks: set<Mark>, user: Text)
    requires TableOk(t)
    ensures TableOk(TableWithout(t, marks, user))
  {
    WithoutOk(t.rows, marks, user);
    WithoutKeeps(t.rows, marks, user);
    var kept := Without(t.rows, marks, user);
    forall k | 0 <= k < |kept| ensures kept[k].id < t.nextId {
      assert kept[k] in kept;
      assert kept[k] in t.rows;
    }
  }

  lemma ReleaseUntouched(store: Store, user: Text, drop: Drop, fault: bool)
    ensures var store' := Release(store, drop, user, fault);
            && OthersUntouched(store, store', user) && NoMarks(store', user)
            && store'.master == store.master && store'.files == store.files
            && Locked(store', user) == (Locked(store, user) && fault)
  {
  }
}
