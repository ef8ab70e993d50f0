/** What signing in shows and when it succeeds: every mail of the user, under one number
    each, in the order of the tables. */
module PopOutcomes {
  import opened Bytes
  import opened MailTables
  import opened Maildrops
  import opened PopSessions
  import opened PopInvariant
  import opened PopRuns
  import opened PopFairness

  // ------------------------------------------------------------ the listing

  /** The rows of the user's own database. */
  function OwnRows(store: Store, user: Text): seq<Row> {
    if user in store.databases && store.databases[user] in store.files then store.files[store.databases[user]].rows else []
  }

  /** Message number `n` shows `row`, from the master mailbox or from the user's own. */
  predicate Shows(mails: seq<PopMail>, n: nat, master: bool, row: Row) {
    1 <= n <= |mails|
    && mails[n - 1] == PopMail(row.id, |row.data|, master, false, if |row.ident| <= 70 then row.ident else row.ident[..70])
  }

  ghost predicate Numbered(mails: seq<PopMail>, master: bool, row: Row) {
    exists n :: Shows(mails, n, master, row)
  }

  /** The rows of a table that belong to the user are numbered, in table order. */
  ghost predicate ListedInOrder(mails: seq<PopMail>, master: bool, rows: seq<Row>, user: Text) {
    && (forall j :: 0 <= j < |rows| && rows[j].user == user ==> Numbered(mails, master, rows[j]))
    && (forall j, k, m, n | 0 <= j < k < |rows| && rows[j].user == rows[k].user == user ::
          Shows(mails, m, master, rows[j]) && Shows(mails, n, master, rows[k]) ==> m < n)
  }

  /** Number `n` shows a row of the user. */
  ghost predicate ShowsOwn(mails: seq<PopMail>, n: nat, store: Store, user: Text)
    requires 1 <= n <= |mails|
  {
    var rows := if mails[n - 1].master then store.master.rows else OwnRows(store, user);
    exists row :: Shows(mails, n, mails[n - 1].master, row) && row.user == user && row in rows
  }

  ghost predicate OnlyRows(mails: seq<PopMail>, store: Store, user: Text) {
    forall n :: 1 <= n <= |mails| ==> ShowsOwn(mails, n, store, user)
  }

  /** Number `n` of a part of the listing that begins behind `base` others. */
  lemma RankShown(mails: seq<PopMail>, base: nat, rows: seq<Row>, user: Text, master: bool, j: nat)
    requires j < |rows| && rows[j].user == user
    requires base + |Query(rows, user)| <= |mails|
    requires mails[base..base + |Query(rows, user)|] == Entries(Query(rows, user), master)
    ensures Shows(mails, base + |Query(rows[..j], user)| + 1, master, rows[j])
  {
    hide Query;
    QueryRank(rows, user, j);
    var n := |Query(rows[..j], user)|;
    assert mails[base + n] == mails[base..base + |Query(rows, user)|][n];
  }

  lemma PartListed(mails: seq<PopMail>, base: nat, rows: seq<Row>, user: Text, master: bool)
    requires base + |Query(rows, user)| <= |mails| && Separate(mails)
    requires mails[base..base + |Query(rows, user)|] == Entries(Query(rows, user), master)
    ensures ListedInOrder(mails, master, rows, user)
  {
    hide Query;
    forall j | 0 <= j < |rows| && rows[j].user == user ensures Numbered(mails, master, rows[j]) {
      RankShown(mails, base, rows, user, master, j);
    }
    forall j, k, m, n | 0 <= j < k < |rows| && rows[j].user == rows[k].user == user
      && Shows(mails, m, master, rows[j]) && Shows(mails, n, master, rows[k])
      ensures m < n
    {
      RankShown(mails, base, rows, user, master, j);
      RankShown(mails, base, rows, user, master, k);
      QueryRankGrows(rows, user, j, k);
      ShownOnce(mails, m, base + |Query(rows[..j], user)| + 1, master, rows[j]);
      ShownOnce(mails, n, base + |Query(rows[..k], user)| + 1, master, rows[k]);
    }
  }

  lemma ShownOnce(mails: seq<PopMail>, m: nat, n: nat, master: bool, row: Row)
    requires Separate(mails) && Shows(mails, m, master, row) && Shows(mails, n, master, row)
    ensures m == n
  {
  }

  lemma PartOnly(mails: seq<PopMail>, base: nat, rows: seq<Row>, user: Text, master: bool, n: nat)
    requires base + |Query(rows, user)| <= |mails| && base < n <= base + |Query(rows, user)|
    requires mails[base..base + |Query(rows, user)|] == Entries(Query(rows, user), master)
    ensures mails[n - 1].master == master
    ensures exists row :: Shows(mails, n, master, row) && row.user == user && row in rows
  {
    hide Query;
    QueryOnly(rows, user, n - 1 - base);
    assert mails[n - 1] == mails[base..base + |Query(rows, user)|][n - 1 - base];
    assert Shows(mails, n, master, Query(rows, user)[n - 1 - base]);
  }

  lemma SnapshotParts(store: Store, user: Text)
    ensures Snapshot(store, user) == Entries(Query(store.master.rows, user), true) + Entries(Query(OwnRows(store, user), user), false)
  {
    QueryOne(Row(0, [], [], []), user);
  }

  lemma OwnShown(mails: seq<PopMail>, store: Store, user: Text, n: nat)
    requires 1 <= n <= |mails|
    requires mails == Entries(Query(store.master.rows, user), true) + Entries(Query(OwnRows(store, user), user), false)
    ensures ShowsOwn(mails, n, store, user)
  {
    hide Query, Shows, OwnRows;
    var first, second := Query(store.master.rows, user), Query(OwnRows(store, user), user);
    assert mails[0..0 + |first|] == Entries(first, true);
    assert mails[|first|..|first| + |second|] == Entries(second, false);
    if n <= |first| { PartOnly(mails, 0, store.master.rows, user, true, n); }
    else { PartOnly(mails, |first|, OwnRows(store, user), user, false, n); }
  }

  ghost predicate ListsAll(mails: seq<PopMail>, store: Store, user: Text) {
    && ListedInOrder(mails, true, store.master.rows, user)
    && ListedInOrder(mails, false, OwnRows(store, user), user)
    && OnlyRows(mails, store, user) && Separate(mails)
    && forall m, n :: 0 <= m < n < |mails| && mails[n].master ==> mails[m].master
  }

  lemma PartsListAll(mails: seq<PopMail>, store: Store, user: Text)
    requires mails == Entries(Query(store.master.rows, user), true) + Entries(Query(OwnRows(store, user), user), false)
    requires Separate(mails)
    ensures ListsAll(mails, store, user)
  {
    hide Query, Separate, ListedInOrder, OwnRows, ShowsOwn;
    var first, second := Query(store.master.rows, user), Query(OwnRows(store, user), user);
    assert mails[0..0 + |first|] == Entries(first, true);
    assert mails[|first|..|first| + |second|] == Entries(second, false);
    PartListed(mails, 0, store.master.rows, user, true);
    PartListed(mails, |first|, OwnRows(store, user), user, false);
    forall n | 1 <= n <= |mails| ensures ShowsOwn(mails, n, store, user) { OwnShown(mails, store, user, n); }
  }

  /** A granted sign-in on a connection where nothing was left over: every row of the user in
      the master mailbox and in its own database has exactly one message number, which shows
      its id, its size and its ident; rows of a table keep their order, master rows come
      first, nothing is marked, and every number shows a row of the user. */
  lemma SignInListsAll(store: Store, user: Text, fault: bool)
    requires TablesOk(store) && Granted(store, EMPTY_DROP, user, fault)
    ensures ListsAll(Acquire(store, EMPTY_DROP, user, fault).1.mails, store, user)
  {
    hide Query, Acquire, Snapshot, ListsAll, Separate, OwnRows, Granted, TablesOk;
    GrantedMails(store, EMPTY_DROP, user, fault);
    SnapshotSeparate(store, user);
    SnapshotParts(store, user);
    assert [] + Snapshot(store, user) == Snapshot(store, user);
    PartsListAll(Snapshot(store, user), store, user);
  }

  // ------------------------------------------------------------ STAT

  /** How many rows of a table belong to the user, and how many bytes they hold. */
  function RowsOf(rows: seq<Row>, user: Text): nat {
    if rows == [] then 0 else (if rows[0].user == user then 1 else 0) + RowsOf(rows[1..], user)
  }

  function BytesOf(rows: seq<Row>, user: Text): nat {
    if rows == [] then 0 else (if rows[0].user == user then |rows[0].data| else 0) + BytesOf(rows[1..], user)
  }

  lemma {:induction false} SizeOfAppend(a: seq<PopMail>, b: seq<PopMail>, k: nat)
    requires k <= |b|
    ensures SizeOf(a + b, |a| + k) == SizeOf(a, |a|) + SizeOf(b, k)
  {
    if k == 0 { SizeOfPrefix(a, b, |a|); } else { SizeOfAppend(a, b, k - 1); }
  }

  lemma {:induction false} SizeOfPrefix(a: seq<PopMail>, b: seq<PopMail>, k: nat)
    requires k <= |a|
    ensures SizeOf(a + b, k) == SizeOf(a, k)
  {
    if k > 0 { SizeOfPrefix(a, b, k - 1); }
  }

  function TotalSize(mails: seq<PopMail>): nat { SizeOf(mails, |mails|) }

  lemma {:induction false} ListedBytes(rows: seq<Row>, user: Text, master: bool)
    ensures |Query(rows, user)| == RowsOf(rows, user)
    ensures TotalSize(Entries(Query(rows, user), master)) == BytesOf(rows, user)
  {
    hide TotalSize;
    if rows != [] {
      ListedBytes(rows[1..], user, master);
      if rows[0].user == user {
        EntriesCons(rows[0], Query(rows[1..], user), master);
        OneMoreCounted(Entry(rows[0], master), Entries(Query(rows[1..], user), master));
      }
    } else {
      NothingListed(Entries([], master));
    }
  }

  lemma NothingListed(mails: seq<PopMail>)
    requires mails == []
    ensures TotalSize(mails) == 0
  {
  }

  lemma OneMoreCounted(mail: PopMail, rest: seq<PopMail>)
    ensures TotalSize([mail] + rest) == mail.size + TotalSize(rest)
  {
    hide SizeOf;
    SizeOfAppend([mail], rest, |rest|);
    SizeOfOne(mail);
  }

  lemma EntriesCons(row: Row, rest: seq<Row>, master: bool)
    ensures Entries([row] + rest, master) == [Entry(row, master)] + Entries(rest, master)
  {
    hide Entry;
    var all, listed := [row] + rest, [Entry(row, master)] + Entries(rest, master);
    forall k | 0 <= k < |all| ensures Entries(all, master)[k] == listed[k] {
      if k > 0 { assert all[k] == rest[k - 1]; }
    }
  }

  lemma SizeOfOne(mail: PopMail)
    ensures SizeOf([mail], 1) == mail.size
  {
    assert SizeOf([mail], 0) == 0;
  }

  /** STAT after signing in: as many mails and bytes as the user has in both databases. */
  lemma StatCounts(store: Store, user: Text, fault: bool)
    requires Granted(store, EMPTY_DROP, user, fault)
    ensures Answered(Acquire(store, EMPTY_DROP, user, fault).1.mails, Stat) ==
            Totals(RowsOf(store.master.rows, user) + RowsOf(OwnRows(store, user), user),
                   BytesOf(store.master.rows, user) + BytesOf(OwnRows(store, user), user))
  {
    hide Query, Acquire, SizeOf, Snapshot;
    SnapshotParts(store, user);
    GrantedMails(store, EMPTY_DROP, user, fault);
    var mails := Snapshot(store, user);
    assert [] + mails == mails;
    var first, second := Entries(Query(store.master.rows, user), true), Entries(Query(OwnRows(store, user), user), false);
    ListedBytes(store.master.rows, user, true);
    ListedBytes(OwnRows(store, user), user, false);
    SizeOfAppend(first, second, |second|);
    assert TotalSize(first) == SizeOf(first, |first|) && TotalSize(second) == SizeOf(second, |second|);
  }

  // ------------------------------------------------------------ refusals

  /** What RETR and the listings answer to a number that stands for nothing, for marked mail,
      or for a row that is gone. */
  lemma Refusals(store: Store, drop: Drop, n: nat)
    ensures n == 0 || n > |drop.mails| ==> Retrieved(store, drop, n) == Ascii("-ERR No such mail\r\n")
    ensures n > |drop.mails| ==> Answered(drop.mails, List(n)) == NoSuchMail
    ensures 1 <= n <= |drop.mails| && drop.mails[n - 1].deleted ==>
      && Retrieved(store, drop, n) == Ascii("-ERR Mail marked for deletion\r\n")
      && Answered(drop.mails, List(n)) == MarkedMail
    ensures 1 <= n <= |drop.mails| && !drop.mails[n - 1].deleted ==>
      && Answered(drop.mails, List(n)).Scan?
      && (Denoted(store, drop, n).None? ==>
            Retrieved(store, drop, n) == Ascii("-ERR Failed to fetch mail\r\n") + (CRLF + [DOT] + CRLF))
    ensures forall cmd: Command :: !cmd.Stat? && !cmd.List? ==> Answered(drop.mails, cmd) == Nothing
  {
    hide Ascii;
  }

  // ------------------------------------------------------------ signing in

  /** The user and the secret a line of the AUTHORIZATION state shows, if it does. */
  function Shown(s: Session, cmd: Command, sasl: SaslOutcome): Option<(Text, Text)> {
    if s.listener.tlsRequire && !s.tls then None
    else if s.authMethod.BySasl? || cmd.Auth? then
      if sasl.Credentials? && !(s.authMethod.BySasl? && cmd.Cancel?) then Some((sasl.user, sasl.secret)) else None
    else if cmd.Pass? && s.authenticated.Some? then Some((s.authenticated.value, cmd.secret))
    else None
  }

  /** The lines that lead up to it: USER is remembered unless a user is, AUTH begins a SASL
      exchange, which ends where it fails or is cancelled, and STLS brings TLS where it is
      offered. Without TLS that is required nothing but STLS and QUIT has an effect. */
  lemma Prepares(store: Store, s: Session, cmd: Command, sasl: SaslOutcome, fault: bool)
    requires s.open && s.stage.Authorization? && !s.authOk && !cmd.Quit? && Shown(s, cmd, sasl).None?
    ensures var (store', s') := HandleLine(store, s, cmd, sasl, fault);
            && store' == store
            && s' == if s.listener.tlsRequire && !s.tls then
                       if cmd.Stls? && s.listener.negotiable then s.(tls := true) else s
                     else if s.authMethod.BySasl? then
                       if cmd.Cancel? || sasl.Failed? then
                         s.(authMethod := ByUser, authenticated := None, authorized := None)
                       else s
                     else
                       match cmd
                       case Auth =>
                         if sasl.Failed? then s.(authenticated := None, authorized := None)
                         else s.(authMethod := BySasl, authenticated := None, authorized := None)
                       case User(name) => if s.authenticated.None? then s.(authenticated := Some(name)) else s
                       case Stls => if s.tls || !s.listener.negotiable then s else s.(tls := true)
                       case _ => s
  {
  }

  /** What the state machine makes of the line. */
  lemma ShownReacts(s: Session, cmd: Command, sasl: SaslOutcome)
    requires s.open && s.stage.Authorization? && !s.authOk
    ensures match React(s, cmd, sasl)
            case SignIn(base, user, secret) => Shown(s, cmd, sasl) == Some((user, secret))
            case _ => Shown(s, cmd, sasl).None?
  {
  }

  /** The database of a user opens, if there is one, and its lock is free, or the lock
      statement fails. */
  predicate MayHold(store: Store, user: Text, fault: bool) {
    && (user in store.databases ==> store.databases[user] in store.files)
    && (fault || (user in store.locks && !store.locks[user]))
  }

  /** A line signs in exactly if it shows credentials that are valid and the maildrop of the
      identity they authorize may be held. The session is then authorized as that identity,
      its maildrop is acquired, and but for a fault the lock is set. */
  lemma SignsIn(store: Store, s: Session, cmd: Command, sasl: SaslOutcome, fault: bool)
    requires s.open && s.stage.Authorization? && !s.authOk
    ensures var (shown, (store', s')) := (Shown(s, cmd, sasl), HandleLine(store, s, cmd, sasl, fault));
            if shown.Some? && shown.value in store.credentials && MayHold(store, store.credentials[shown.value], fault) then
              SignedIn(store, s, store', s', shown.value.0, store.credentials[shown.value], fault)
            else s'.stage.Authorization? && !s'.authOk
  {
    hide Acquire, React, Shown, Login, SignedIn, MayHold;
    ShownReacts(s, cmd, sasl);
    ReactKeeps(s, cmd, sasl);
    match React(s, cmd, sasl)
    case Stay(next) =>
    case Leave =>
    case SignIn(base, user, secret) => LoginSignsIn(store, s, base, user, secret, fault);
  }

  ghost predicate SignedIn(store: Store, s: Session, store': Store, s': Session, user: Text, identity: Text, fault: bool) {
    && s'.stage.Transaction? && s'.authOk && s'.open
    && s'.authenticated == Some(user) && s'.authorized == Some(identity)
    && (store', s'.drop) == (Acquire(store, s.drop, identity, fault).0, Acquire(store, s.drop, identity, fault).1)
    && (!fault ==> store' == store.(locks := store.locks[identity := true]))
  }

  lemma LoginSignsIn(store: Store, s: Session, base: Session, user: Text, secret: Text, fault: bool)
    requires !base.authOk && base.open && base.stage.Authorization? && base.drop == s.drop && base.authenticated == Some(user)
    ensures var (store', s') := Login(store, base, user, secret, fault);
            if (user, secret) in store.credentials && MayHold(store, store.credentials[(user, secret)], fault) then
              SignedIn(store, s, store', s', user, store.credentials[(user, secret)], fault)
            else s'.stage.Authorization? && !s'.authOk
  {
    hide Acquire;
    if (user, secret) in store.credentials {
      AcquireLocks(store, base.drop, store.credentials[(user, secret)], fault);
      AcquireStore(store, base.drop, store.credentials[(user, secret)], fault);
    }
  }

  lemma AcquireStore(store: Store, drop: Drop, user: Text, fault: bool)
    ensures var (store', _, status) := Acquire(store, drop, user, fault);
            status == 0 && !fault ==> store' == store.(locks := store.locks[user := true])
  {
    hide Snapshot;
  }

  /** Mail may arrive at any place of any mailbox there is, and is found there afterwards. */
  lemma Arrives(w: World, inbox: Option<Text>, at: nat, user: Text, ident: Text, data: Text)
    requires TablesOk(w.store)
    ensures var store' := Step(w, Arrive(inbox, at, user, ident, data)).store;
            && (inbox.None? && at <= |w.store.master.rows| ==>
                  var id := w.store.master.nextId;
                  Fetch(store'.master.rows, id) == Some(Row(id, user, ident, data)))
            && (inbox.Some? && inbox.value in w.store.files && at <= |w.store.files[inbox.value].rows| ==>
                  var id := w.store.files[inbox.value].nextId;
                  Fetch(store'.files[inbox.value].rows, id) == Some(Row(id, user, ident, data)))
  {
    hide Fetch, Arrival;
    match inbox
    case None =>
      if at <= |w.store.master.rows| { ArrivalFetch(w.store.master, at, user, ident, data, w.store.master.nextId); }
    case Some(f) =>
      if f in w.store.files && at <= |w.store.files[f].rows| {
        ArrivalFetch(w.store.files[f], at, user, ident, data, w.store.files[f].nextId);
      }
  }
}
