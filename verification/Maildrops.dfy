/** The maildrop of a POP session: lock, snapshot, deletion marks, removal. Each
    operation is a function on values and a method on the structures it changes. */
module Maildrops {
  import opened Bytes
  import opened MailTables

  const CHUNK := 10
  const MESSAGEID_MAX := 70

  datatype PopMail = PopMail(id: nat, size: nat, master: bool, deleted: bool, ident: Text)

  /** The databases as the daemon sees them. `credentials` is what `auth_validate`
      accepts and the identity it authorizes, `databases` the user database files
      configured, `files` those that can be opened. */
  datatype Store = Store(
    locks: map<Text, bool>, master: Table, marks: set<Mark>, files: map<Text, Table>,
    credentials: map<(Text, Text), Text>, databases: map<Text, Text>)

  /** The maildrop of a session. A user database connection has its own table of marks. */
  datatype Drop = Drop(mails: seq<PopMail>, conn: Option<Text>, marks: set<Mark>)

  const EMPTY_DROP := Drop([], None, {})

  function Prefix(s: Text, n: nat): Text { if |s| <= n then s else s[..n] }

  function Entry(row: Row, master: bool): PopMail {
    PopMail(row.id, |row.data|, master, false, Prefix(row.ident, MESSAGEID_MAX))
  }

  function Entries(rows: seq<Row>, master: bool): (r: seq<PopMail>)
    ensures |r| == |rows|
    ensures forall k :: 0 <= k < |rows| ==> r[k] == Entry(rows[k], master)
  {
    seq(|rows|, k requires 0 <= k < |rows| => Entry(rows[k], master))
  }

  /** `UPDATE popd SET pop_lock=want WHERE pop_user=user AND pop_lock=!want`. The
      status of a statement that fails is 1, which no caller takes for a failure. */
  function Lock(store: Store, user: Text, want: bool, fault: bool): (Store, int) {
    if fault then (store, 1)
    else if user in store.locks && store.locks[user] != want then (store.(locks := store.locks[user := want]), 0)
    else (store, -1)
  }

  function Attach(store: Store, drop: Drop, user: Text): (Drop, int) {
    if user !in store.databases then (drop, 1)
    else if store.databases[user] !in store.files then (drop.(conn := None), -1)
    else (drop.(conn := Some(store.databases[user]), marks := {}), 0)
  }

  function Attachable(store: Store, user: Text): bool {
    user in store.databases ==> store.databases[user] in store.files
  }

  function UserRows(store: Store, user: Text): seq<PopMail> {
    if user in store.databases && store.databases[user] in store.files then
      Entries(Query(store.files[store.databases[user]].rows, user), false)
    else []
  }

  /** What the listing queries hand to a session of `user`: master rows, then user rows. */
  function Snapshot(store: Store, user: Text): seq<PopMail> {
    Entries(Query(store.master.rows, user), true) + UserRows(store, user)
  }

  /** Neither the locks nor the mails read so far matter to attaching and listing. */
  lemma LocksIgnored(store: Store, locks: map<Text, bool>, drop: Drop, mails: seq<PopMail>, user: Text)
    ensures UserRows(store.(locks := locks), user) == UserRows(store, user)
    ensures Attach(store.(locks := locks), drop.(mails := mails), user).1 == Attach(store, drop, user).1
    ensures Attach(store.(locks := locks), drop.(mails := mails), user).0
         == Attach(store, drop, user).0.(mails := mails)
    ensures Attach(store.(locks := locks), drop, user) == Attach(store, drop, user)
  {
  }

  function Acquire(store: Store, drop: Drop, user: Text, fault: bool): (Store, Drop, int) {
    var (locked, status) := Lock(store, user, true, fault);
    if status < 0 then (store, drop, -1)
    else
      var (attached, found) := Attach(locked, drop, user);
      (locked, attached.(mails := drop.mails + Snapshot(store, user)), if found < 0 then -1 else 0)
  }

  /** The mark of mail `k`, in the table of the database it came from. */
  function MarkMail(store: Store, drop: Drop, user: Text, k: nat): (Store, Drop)
    requires k < |drop.mails|
  {
    var mark := Mark(user, drop.mails[k].id);
    if drop.mails[k].master then (store.(marks := store.marks + {mark}), drop)
    else (store, drop.(marks := drop.marks + {mark}))
  }

  function UnmarkAll(store: Store, drop: Drop, user: Text): (Store, Drop) {
    (store.(marks := Unmarked(store.marks, user)),
     if drop.conn.Some? then drop.(marks := Unmarked(drop.marks, user)) else drop)
  }

  function TableWithout(t: Table, marks: set<Mark>, user: Text): Table {
    t.(rows := Without(t.rows, marks, user))
  }

  function Update(store: Store, drop: Drop, user: Text): Store {
    var cleaned := store.(master := TableWithout(store.master, store.marks, user));
    match drop.conn
    case Some(file) =>
      if file in store.files then
        cleaned.(files := store.files[file := TableWithout(store.files[file], drop.marks, user)])
      else cleaned
    case None => cleaned
  }

  function Release(store: Store, drop: Drop, user: Text, fault: bool): Store {
    Lock(UnmarkAll(store, drop, user).0, user, false, fault).0
  }

  // ------------------------------------------------------------ the structures

  /** The master connection and the files beside it. */
  class Database {
    var locks: map<Text, bool>
    var master: Table
    var marks: set<Mark>
    var files: map<Text, Table>
    const credentials: map<(Text, Text), Text>
    const databases: map<Text, Text>

    function Value(): Store
      reads this
    {
      Store(locks, master, marks, files, credentials, databases)
    }

    constructor (store: Store)
      ensures Value() == store
    {
      locks, master, marks, files := store.locks, store.master, store.marks, store.files;
      credentials, databases := store.credentials, store.databases;
    }

    /** `maildrop_lock`. */
    method UpdateLock(user: Text, lock: bool, fault: bool) returns (status: int)
      modifies this`locks
      ensures (Value(), status) == Lock(old(Value()), user, lock, fault)
    {
      if fault {
        status := 1;
      } else if user in locks && locks[user] == !lock {
        locks := locks[user := lock];
        status := 0;
      } else {
        status := -1;
      }
    }
  }

  class Maildrop {
    var count: nat
    var mails: array?<PopMail>
    var conn: Option<Text>
    var marks: set<Mark>

    ghost predicate Valid()
      reads this
    {
      count <= if mails == null then 0 else mails.Length
    }

    function Mails(): (r: seq<PopMail>)
      requires Valid()
      reads this, mails
      ensures |r| == count
    {
      if mails == null then [] else mails[..count]
    }

    function Value(): Drop
      requires Valid()
      reads this, mails
    {
      Drop(Mails(), conn, marks)
    }

    constructor ()
      ensures Valid() && Value() == EMPTY_DROP && mails == null
    {
      count, mails, conn, marks := 0, null, None, {};
    }

    /** `realloc` and the initialisation of the new entries. */
    method Expand(index: nat, rows: nat, master: bool)
      requires Valid() && index == count < rows
      modifies this`mails, this`count
      ensures mails != null && fresh(mails) && mails.Length == count == rows
      ensures mails[..index] == old(Mails())
      ensures forall k :: index <= k < rows ==> mails[k] == PopMail(0, 0, master, false, [])
    {
      var kept := Mails();
      var grown := new PopMail[rows](k requires 0 <= k < rows =>
        if k < |kept| then kept[k] else PopMail(0, 0, master, false, []));
      mails, count := grown, rows;
      assert mails[..index] == kept;
    }

    /** One row of the listing, into the entry that stands ready for it. */
    method Fill(index: nat, row: Row, ghost master: bool)
      requires mails != null && index < mails.Length && mails[index] == PopMail(0, 0, master, false, [])
      modifies mails
      ensures mails[index] == Entry(row, master)
      ensures forall k :: 0 <= k < mails.Length && k != index ==> mails[k] == old(mails[k])
    {
      mails[index] := mails[index].(id := row.id, size := |row.data|, ident := Prefix(row.ident, MESSAGEID_MAX));
    }

    /** While a listing is read: `index` entries are in use, those behind are blank. */
    ghost predicate Reading(done: seq<PopMail>, master: bool)
      reads this, mails
    {
      && Valid() && |done| <= count <= |done| + CHUNK
      && Mails()[..|done|] == done
      && forall k :: |done| <= k < count ==> Mails()[k] == PopMail(0, 0, master, false, [])
    }

    /** One row: entries are made ten at a time. */
    method ReadRow(index: nat, row: Row, master: bool, ghost done: seq<PopMail>)
      requires Reading(done, master) && index == |done|
      modifies this`mails, this`count, mails
      ensures Reading(done + [Entry(row, master)], master)
      ensures mails == old(mails) || fresh(mails)
    {
      if index >= count {
        Expand(index, count + CHUNK, master);
        assert mails[..index] == done;
      }
      Fill(index, row, master);
      assert mails[..index] == done;
    }

    /** `maildrop_read`: the count is set right at the end. */
    method Read(listing: seq<Row>, master: bool)
      requires Valid()
      modifies this`mails, this`count, mails
      ensures Valid() && Mails() == old(Mails()) + Entries(listing, master)
      ensures mails == old(mails) || fresh(mails)
    {
      ghost var before := Mails();
      var start, step := count, 0;
      ghost var done := before;
      while step < |listing|
        invariant 0 <= step <= |listing| && start == |before|
        invariant done == before + Entries(listing[..step], master)
        invariant Reading(done, master)
        invariant mails == old(mails) || fresh(mails)
      {
        ReadRow(start + step, listing[step], master, done);
        done := done + [Entry(listing[step], master)];
        assert Entries(listing[..step + 1], master) == Entries(listing[..step], master) + [Entry(listing[step], master)];
        step := step + 1;
      }
      count := start + step;
      assert listing[..step] == listing;
    }

    /** `maildrop_user_attach`. */
    method UserAttach(db: Database, user: Text) returns (status: int)
      requires Valid()
      modifies this`conn, this`marks
      ensures Valid() && (Value(), status) == Attach(db.Value(), old(Value()), user)
    {
      if user !in db.databases {
        return 1;
      }
      var file := db.databases[user];
      if file !in db.files {
        conn := None;
        return -1;
      }
      conn, marks := Some(file), {};
      return 0;
    }

    /** The user database part of `maildrop_acquire`. */
    method ReadUser(db: Database, user: Text) returns (status: int)
      requires Valid()
      modifies this, mails
      ensures Valid() && (mails == old(mails) || fresh(mails))
      ensures (Value().(mails := old(Mails())), status) == Attach(db.Value(), old(Value()), user)
      ensures Mails() == old(Mails()) + UserRows(db.Value(), user)
    {
      hide Query;
      status := UserAttach(db, user);
      if status == 0 {
        Read(Query(db.files[db.databases[user]].rows, user), false);
      }
    }

    /** `maildrop_acquire`. */
    method AcquireFor(db: Database, user: Text, fault: bool) returns (status: int)
      requires Valid()
      modifies this, mails, db`locks
      ensures Valid() && (db.Value(), Value(), status) == Acquire(old(db.Value()), old(Value()), user, fault)
      ensures mails == old(mails) || fresh(mails)
    {
      hide Query, Attach, UserRows;
      ghost var start, drop := db.Value(), Value();
      var locked := db.UpdateLock(user, true, fault);
      if locked < 0 {
        return -1;
      }
      ghost var before, first, second := Mails(), Entries(Query(db.master.rows, user), true), UserRows(db.Value(), user);
      Read(Query(db.master.rows, user), true);
      LocksIgnored(start, db.locks, drop, Mails(), user);
      var attached := ReadUser(db, user);
      assert before + (first + second) == before + first + second;
      status := if attached < 0 then -1 else 0;
    }

    /** `maildrop_mark`. */
    method MarkOne(db: Database, user: Text, k: nat, fault: bool)
      requires Valid() && k < count
      modifies this`marks, db`marks
      ensures Valid()
      ensures (db.Value(), Value()) ==
        if fault then (old(db.Value()), old(Value())) else MarkMail(old(db.Value()), old(Value()), user, k)
    {
      if !fault {
        if mails[k].master {
          db.marks := db.marks + {Mark(user, mails[k].id)};
        } else {
          marks := marks + {Mark(user, mails[k].id)};
        }
      }
    }

    /** `maildrop_unmark`, for both connections. */
    method UnmarkBoth(db: Database, user: Text)
      requires Valid()
      modifies this`marks, db`marks
      ensures Valid() && (db.Value(), Value()) == UnmarkAll(old(db.Value()), old(Value()), user)
    {
      db.marks := Unmarked(db.marks, user);
      if conn.Some? {
        marks := Unmarked(marks, user);
      }
    }

    /** `maildrop_update`. */
    method Remove(db: Database, user: Text)
      requires Valid()
      modifies db`master, db`files
      ensures db.Value() == Update(old(db.Value()), old(Value()), user)
    {
      db.master := TableWithout(db.master, db.marks, user);
      if conn.Some? && conn.value in db.files {
        db.files := db.files[conn.value := TableWithout(db.files[conn.value], marks, user)];
      }
    }

    /** `maildrop_release`. */
    method Free(db: Database, user: Text, fault: bool)
      requires Valid()
      modifies this, db
      ensures Valid() && Value() == EMPTY_DROP && mails == null
      ensures db.Value() == Release(old(db.Value()), old(Value()), user, fault)
    {
      UnmarkBoth(db, user);
      var _ := db.UpdateLock(user, false, fault);
      count, mails, conn, marks := 0, null, None, {};
    }

    /** Sets the deletion flag of mail `k`. */
    method Flag(k: nat)
      requires Valid() && k < count
      modifies mails
      ensures Valid() && Value() == old(Value()).(mails := old(Mails())[k := old(Mails())[k].(deleted := true)])
    {
      ghost var before := Mails();
      mails[k] := mails[k].(deleted := true);
      assert Mails() == before[k := before[k].(deleted := true)];
    }

    /** The loop of `pop_rset`. */
    method Unflag()
      requires Valid()
      modifies mails
      ensures Valid() && Value() == old(Value()).(mails := Cleared(old(Mails())))
    {
      ghost var before := Mails();
      var i := 0;
      while i < count
        invariant 0 <= i <= count && Valid() && |before| == count
        invariant forall k :: 0 <= k < i ==> Mails()[k] == before[k].(deleted := false)
        invariant forall k :: i <= k < count ==> Mails()[k] == before[k]
      {
        mails[i] := mails[i].(deleted := false);
        i := i + 1;
      }
      assert Mails() == Cleared(before);
    }
  }

  function Cleared(mails: seq<PopMail>): (r: seq<PopMail>)
    ensures |r| == |mails|
    ensures forall k :: 0 <= k < |mails| ==> r[k] == mails[k].(deleted := false)
  {
    seq(|mails|, k requires 0 <= k < |mails| => mails[k].(deleted := false))
  }
}
