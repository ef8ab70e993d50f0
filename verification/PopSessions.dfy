/** A POP3 session: the AUTHORIZATION and TRANSACTION states, sign-in, deletion,
    and what happens on the way out. */
module PopSessions {
  import opened Bytes
  import opened DotStuffing
  import opened MailTables
  import opened Maildrops

  datatype Stage = Authorization | Transaction
  datatype AuthMethod = ByUser | BySasl

  /** What the SASL layer makes of a line. */
  datatype SaslOutcome = Failed | More | Credentials(user: Text, secret: Text)

  /** The commands that change a session or read mail. `Cancel` is a lone `*`, `List`
      stands for LIST and UIDL with or without a number, `Other` for everything that
      neither changes nor reads. */
  datatype Command = User(name: Text) | Pass(secret: Text) | Auth | Cancel | Stls
    | Stat | List(n: nat) | Retr(n: nat) | Dele(n: nat) | Rset | Quit | Other

  /** Whether signing in requires TLS, and how TLS comes about. */
  datatype Listener = Listener(tlsRequire: bool, negotiable: bool, tlsOnly: bool)

  datatype Session = Session(
    open: bool, listener: Listener, tls: bool, stage: Stage, authMethod: AuthMethod, authOk: bool,
    authenticated: Option<Text>, authorized: Option<Text>, drop: Drop)

  /** As `client_accept` leaves the slot. */
  function Fresh(listener: Listener): Session {
    Session(true, listener, listener.tlsOnly, Authorization, ByUser, false, None, None, EMPTY_DROP)
  }

  function AuthReset(s: Session): Session {
    s.(authMethod := ByUser, authOk := false, authenticated := None, authorized := None)
  }

  /** What `state_authorization` does with a line, short of signing in and leaving. */
  datatype Reaction = Stay(next: Session) | SignIn(base: Session, user: Text, secret: Text) | Leave

  function SaslReaction(s: Session, sasl: SaslOutcome): Reaction {
    match sasl
    case Failed => Stay(AuthReset(s))
    case More => Stay(s)
    case Credentials(user, secret) => SignIn(s.(authenticated := Some(user)), user, secret)
  }

  /** Signing in is possible. */
  predicate MaySignIn(s: Session) { s.tls || !s.listener.tlsRequire }

  /** The commands of the AUTHORIZATION state that do not sign in. */
  function ReactOther(s: Session, cmd: Command): Reaction {
    match cmd
    case Quit => Leave
    case Stls => Stay(if s.tls || !s.listener.negotiable then s else s.(tls := true))
    case _ => Stay(s)
  }

  /** Beginning SASL clears the user that USER may have set. */
  function React(s: Session, cmd: Command, sasl: SaslOutcome): Reaction {
    if !MaySignIn(s) then ReactOther(s, cmd)
    else if s.authMethod.BySasl? && !s.authOk then
      if cmd.Cancel? then Stay(AuthReset(s)) else SaslReaction(s, sasl)
    else
      match cmd
      case Auth => SaslReaction(s.(authMethod := BySasl, authenticated := None, authorized := None), sasl)
      case User(name) =>
        Stay(if s.authenticated.Some? then s else s.(authMethod := ByUser, authenticated := Some(name)))
      case Pass(secret) =>
        if s.authenticated.None? || !s.authMethod.ByUser? then Stay(s) else SignIn(s, s.authenticated.value, secret)
      case _ => ReactOther(s, cmd)
  }

  /** Validation, then the maildrop. `base` is the session the attempt starts from. */
  function Login(store: Store, base: Session, user: Text, secret: Text, fault: bool): (Store, Session) {
    if (user, secret) !in store.credentials then (store, AuthReset(base))
    else
      var identity := store.credentials[(user, secret)];
      var (store', drop', status) := Acquire(store, base.drop, identity, fault);
      if status < 0 then (store', AuthReset(base.(drop := drop')))
      else (store', base.(stage := Transaction, authOk := true, authorized := Some(identity), drop := drop'))
  }

  /** `client_close`. */
  function Close(store: Store, s: Session, fault: bool): (Store, Session) {
    if s.authOk && s.authenticated.Some? && s.authorized.Some? then
      (Release(store, s.drop, s.authorized.value, fault), AuthReset(s.(open := false, tls := false, drop := EMPTY_DROP)))
    else (store, AuthReset(s.(open := false, tls := false)))
  }

  function AuthorizationLine(store: Store, s: Session, cmd: Command, sasl: SaslOutcome, fault: bool): (Store, Session) {
    match React(s, cmd, sasl)
    case Stay(next) => (store, next)
    case SignIn(base, user, secret) => Login(store, base, user, secret, fault)
    case Leave => Close(store, s, fault)
  }

  predicate Deletable(mails: seq<PopMail>, n: nat) {
    1 <= n <= |mails| && !mails[n - 1].deleted
  }

  function TransactionLine(store: Store, s: Session, cmd: Command, fault: bool): (Store, Session)
    requires s.authorized.Some?
  {
    var user, mails := s.authorized.value, s.drop.mails;
    match cmd
    case Quit => Close(Update(store, s.drop, user), s, fault)
    case Dele(n) =>
      if !Deletable(mails, n) then (store, s)
      else
        var (store', drop') := if fault then (store, s.drop) else MarkMail(store, s.drop, user, n - 1);
        (store', s.(drop := drop'.(mails := mails[n - 1 := mails[n - 1].(deleted := true)])))
    case Rset =>
      var (store', drop') := UnmarkAll(store, s.drop, user);
      (store', s.(drop := drop'.(mails := Cleared(mails))))
    case _ => (store, s)
  }

  // ------------------------------------------------------------ retrieval

  /** The table mail `n` of the listing lives in. */
  function HomeRows(store: Store, drop: Drop, master: bool): seq<Row> {
    if master then store.master.rows
    else if drop.conn.Some? && drop.conn.value in store.files then store.files[drop.conn.value].rows
    else []
  }

  /** The row message number `n` stands for. */
  function Denoted(store: Store, drop: Drop, n: nat): Option<Row>
    requires 1 <= n <= |drop.mails|
  {
    Fetch(HomeRows(store, drop, drop.mails[n - 1].master), drop.mails[n - 1].id)
  }

  const NO_SUCH_MAIL: seq<byte> := Ascii("-ERR No such mail\r\n")
  const MARKED: seq<byte> := Ascii("-ERR Mail marked for deletion\r\n")
  const FETCH_FAILED: seq<byte> := Ascii("-ERR Failed to fetch mail\r\n")
  const HERE_IT_COMES: seq<byte> := Ascii("+OK Here it comes\r\n")

  function Retrieved(store: Store, drop: Drop, n: nat): seq<byte> {
    if n == 0 || n > |drop.mails| then NO_SUCH_MAIL
    else if drop.mails[n - 1].deleted then MARKED
    else
      match Denoted(store, drop, n)
      case Some(row) => HERE_IT_COMES + Wire(row.data)
      case None => FETCH_FAILED + TERMINATOR
  }

  /** The entries LIST and UIDL show, by number. */
  datatype Listed = Listed(number: nat, size: nat, ident: Text)

  function ListingFrom(mails: seq<PopMail>, k: nat): seq<Listed>
    requires k <= |mails|
    decreases |mails| - k
  {
    if k == |mails| then []
    else if mails[k].deleted then ListingFrom(mails, k + 1)
    else [Listed(k + 1, mails[k].size, mails[k].ident)] + ListingFrom(mails, k + 1)
  }

  /** LIST and UIDL show every mail that is not marked under the number it has had all along. */
  lemma {:induction false} ListingShows(mails: seq<PopMail>, k: nat, entry: Listed)
    requires k <= |mails|
    ensures entry in ListingFrom(mails, k) <==>
            k < entry.number <= |mails| && !mails[entry.number - 1].deleted
            && entry.size == mails[entry.number - 1].size && entry.ident == mails[entry.number - 1].ident
    decreases |mails| - k
  {
    if k == |mails| {
    } else {
      ListingShows(mails, k + 1, entry);
      if !mails[k].deleted {
        var first := Listed(k + 1, mails[k].size, mails[k].ident);
        assert entry in ListingFrom(mails, k) <==> entry == first || entry in ListingFrom(mails, k + 1);
      }
    }
  }

  /** Numbers ascend, from above `k`. */
  ghost predicate Ascending(l: seq<Listed>, k: nat) {
    && (forall i :: 0 <= i < |l| ==> k < l[i].number)
    && forall i, j :: 0 <= i < j < |l| ==> l[i].number < l[j].number
  }

  /** They show each once and in order. */
  lemma {:induction false} ListingOrdered(mails: seq<PopMail>, k: nat)
    requires k <= |mails|
    ensures Ascending(ListingFrom(mails, k), k)
    decreases |mails| - k
  {
    if k < |mails| {
      ListingOrdered(mails, k + 1);
      var l, rest := ListingFrom(mails, k), ListingFrom(mails, k + 1);
      if mails[k].deleted {
        assert l == rest;
      } else {
        assert l == [Listed(k + 1, mails[k].size, mails[k].ident)] + rest;
        forall i | 0 <= i < |l| ensures k < l[i].number { assert i > 0 ==> l[i] == rest[i - 1]; }
        forall i, j | 0 <= i < j < |l| ensures l[i].number < l[j].number {
          assert l[j] == rest[j - 1] && (i > 0 ==> l[i] == rest[i - 1]);
        }
      }
    }
  }

  /** What STAT, LIST and UIDL answer. */
  datatype Answer = Nothing | Totals(count: nat, bytes: nat) | Scan(entries: seq<Listed>) | NoSuchMail | MarkedMail

  /** The size of the first `k` mails, marked or not. */
  function SizeOf(mails: seq<PopMail>, k: nat): nat
    requires k <= |mails|
  {
    if k == 0 then 0 else SizeOf(mails, k - 1) + mails[k - 1].size
  }

  function ListAnswer(mails: seq<PopMail>, n: nat): Answer {
    if n == 0 then Scan(ListingFrom(mails, 0))
    else if n > |mails| then NoSuchMail
    else if mails[n - 1].deleted then MarkedMail
    else Scan([Listed(n, mails[n - 1].size, mails[n - 1].ident)])
  }

  function Answered(mails: seq<PopMail>, cmd: Command): Answer {
    match cmd
    case Stat => Totals(|mails|, SizeOf(mails, |mails|))
    case List(n) => ListAnswer(mails, n)
    case _ => Nothing
  }

  /** LIST with a number shows what LIST without one shows for it. */
  lemma ListOneIsListAll(mails: seq<PopMail>, n: nat, entry: Listed)
    requires n > 0
    ensures (ListAnswer(mails, n).Scan? && entry in ListAnswer(mails, n).entries)
       <==> (entry in ListingFrom(mails, 0) && entry.number == n)
  {
    ListingShows(mails, 0, entry);
  }

  // ------------------------------------------------------------ the client structure

  class Client {
    var open: bool
    const listener: Listener
    var tls: bool
    var stage: Stage
    var authMethod: AuthMethod
    var authOk: bool
    var authenticated: Option<Text>
    var authorized: Option<Text>
    const maildrop: Maildrop
    const conn: Connection

    ghost predicate Valid()
      reads this, maildrop
    {
      maildrop.Valid()
    }

    function Value(): Session
      requires Valid()
      reads this, maildrop, maildrop.mails
    {
      Session(open, listener, tls, stage, authMethod, authOk, authenticated, authorized, maildrop.Value())
    }

    constructor (listener: Listener)
      ensures Valid() && Value() == Fresh(listener) && fresh(maildrop) && fresh(conn)
    {
      this.listener, tls := listener, listener.tlsOnly;
      open, stage, authMethod, authOk, authenticated, authorized := true, Authorization, ByUser, false, None, None;
      maildrop := new Maildrop();
      conn := new Connection();
    }

    /** `auth_reset`. */
    method ResetAuth()
      requires Valid()
      modifies this
      ensures Valid() && Value() == AuthReset(old(Value()))
    {
      authMethod, authOk, authenticated, authorized := ByUser, false, None, None;
    }

    /** `client_close`. */
    method CloseClient(db: Database, fault: bool)
      requires Valid()
      modifies this, maildrop, db
      ensures Valid() && (db.Value(), Value()) == Close(old(db.Value()), old(Value()), fault)
    {
      if authOk && authenticated.Some? && authorized.Some? {
        maildrop.Free(db, authorized.value, fault);
      }
      ResetAuth();
      open, tls := false, false;
    }

    /** The sign-in both PASS and SASL end in. */
    method TryLogin(db: Database, user: Text, secret: Text, fault: bool)
      requires Valid()
      modifies this, maildrop, maildrop.mails, db
      ensures Valid() && (db.Value(), Value()) == Login(old(db.Value()), old(Value()), user, secret, fault)
    {
      hide Acquire;
      if (user, secret) !in db.credentials {
        ResetAuth();
        return;
      }
      authOk, authorized := true, Some(db.credentials[(user, secret)]);
      var status := maildrop.AcquireFor(db, authorized.value, fault);
      if status < 0 {
        ResetAuth();
        return;
      }
      stage := Transaction;
    }

    /** The outcome of a SASL exchange. */
    method SaslResult(db: Database, sasl: SaslOutcome, fault: bool)
      requires Valid()
      modifies this, maildrop, maildrop.mails, db
      ensures Valid()
      ensures (db.Value(), Value()) ==
        match SaslReaction(old(Value()), sasl)
        case Stay(next) => (old(db.Value()), next)
        case SignIn(base, user, secret) => Login(old(db.Value()), base, user, secret, fault)
        case Leave => Close(old(db.Value()), old(Value()), fault)
    {
      hide Login;
      match sasl {
        case Failed => ResetAuth();
        case More =>
        case Credentials(user, secret) =>
          authenticated := Some(user);
          TryLogin(db, user, secret, fault);
      }
    }

    /** The part of `state_authorization` that needs TLS where TLS is required. */
    method SignInCommand(db: Database, cmd: Command, sasl: SaslOutcome, fault: bool) returns (handled: bool)
      requires Valid() && MaySignIn(Value())
      modifies this, maildrop, maildrop.mails, db
      ensures Valid()
      ensures handled ==>
        (db.Value(), Value()) == AuthorizationLine(old(db.Value()), old(Value()), cmd, sasl, fault)
      ensures !handled ==>
        && db.Value() == old(db.Value()) && Value() == old(Value())
        && React(Value(), cmd, sasl) == ReactOther(Value(), cmd)
    {
      hide Login, Close;
      handled := true;
      if authMethod.BySasl? && !authOk {
        if cmd.Cancel? {
          ResetAuth();
        } else {
          SaslResult(db, sasl, fault);
        }
      } else {
        match cmd {
          case Auth =>
            authMethod, authenticated, authorized := BySasl, None, None;
            SaslResult(db, sasl, fault);
          case User(name) =>
            if authenticated.None? {
              authMethod, authenticated := ByUser, Some(name);
            }
          case Pass(secret) =>
            if authenticated.Some? && authMethod.ByUser? {
              TryLogin(db, authenticated.value, secret, fault);
            }
          case _ => handled := false;
        }
      }
    }

    /** `state_authorization`. */
    method StateAuthorization(db: Database, cmd: Command, sasl: SaslOutcome, fault: bool)
      requires Valid()
      modifies this, maildrop, maildrop.mails, db
      ensures Valid()
      ensures (db.Value(), Value()) == AuthorizationLine(old(db.Value()), old(Value()), cmd, sasl, fault)
    {
      hide Login, Close, SaslReaction;
      if tls || !listener.tlsRequire {
        var handled := SignInCommand(db, cmd, sasl, fault);
        if handled {
          return;
        }
      }
      match cmd {
        case Quit => CloseClient(db, fault);
        case Stls =>
          if !tls && listener.negotiable {
            tls := true;
          }
        case _ =>
      }
    }

    /** `pop_quit` in the TRANSACTION state. */
    method PopQuit(db: Database, fault: bool)
      requires Valid() && authorized.Some?
      modifies this, maildrop, db
      ensures Valid() && (db.Value(), Value()) == TransactionLine(old(db.Value()), old(Value()), Quit, fault)
    {
      hide Close, Update;
      maildrop.Remove(db, authorized.value);
      CloseClient(db, fault);
    }

    /** `pop_dele`: a mark that fails still sets the flag. */
    method PopDele(db: Database, n: nat, fault: bool)
      requires Valid() && authorized.Some?
      modifies maildrop, maildrop.mails, db
      ensures Valid() && (db.Value(), Value()) == TransactionLine(old(db.Value()), old(Value()), Dele(n), fault)
    {
      if n > maildrop.count || n < 1 {
        return;
      }
      if maildrop.mails[n - 1].deleted {
        return;
      }
      maildrop.MarkOne(db, authorized.value, n - 1, fault);
      maildrop.Flag(n - 1);
    }

    /** `pop_rset`. */
    method PopRset(db: Database)
      requires Valid() && authorized.Some?
      modifies maildrop, maildrop.mails, db
      ensures Valid() && (db.Value(), Value()) == TransactionLine(old(db.Value()), old(Value()), Rset, false)
    {
      maildrop.UnmarkBoth(db, authorized.value);
      maildrop.Unflag();
    }

    /** `pop_retr`. */
    method PopRetr(db: Database, n: nat)
      requires Valid()
      modifies conn
      ensures conn.sent == old(conn.sent) + Retrieved(db.Value(), maildrop.Value(), n)
    {
      hide Wire;
      if n == 0 || n > maildrop.count {
        conn.Send(NO_SUCH_MAIL);
        return;
      }
      if maildrop.mails[n - 1].deleted {
        conn.Send(MARKED);
        return;
      }
      var home := HomeRows(db.Value(), maildrop.Value(), maildrop.mails[n - 1].master);
      match Fetch(home, maildrop.mails[n - 1].id) {
        case Some(row) =>
          conn.Send(HERE_IT_COMES);
          SendBody(conn, row.data);
          assert (old(conn.sent) + HERE_IT_COMES) + Wire(row.data) == old(conn.sent) + (HERE_IT_COMES + Wire(row.data));
        case None =>
          conn.Send(FETCH_FAILED);
          conn.Send(TERMINATOR);
          assert (old(conn.sent) + FETCH_FAILED) + TERMINATOR == old(conn.sent) + (FETCH_FAILED + TERMINATOR);
      }
    }

    /** The listing loop of `pop_list` and `pop_uidl`. */
    method ListAll() returns (listing: seq<Listed>)
      requires Valid()
      ensures listing == ListingFrom(maildrop.Mails(), 0)
    {
      listing := [];
      var i := 0;
      while i < maildrop.count
        invariant 0 <= i <= maildrop.count
        invariant ListingFrom(maildrop.Mails(), 0) == listing + ListingFrom(maildrop.Mails(), i)
      {
        if !maildrop.mails[i].deleted {
          listing := listing + [Listed(i + 1, maildrop.mails[i].size, maildrop.mails[i].ident)];
        }
        i := i + 1;
      }
    }

    /** `pop_list` and `pop_uidl`. */
    method PopList(n: nat) returns (answer: Answer)
      requires Valid()
      ensures answer == ListAnswer(maildrop.Mails(), n)
    {
      if n == 0 {
        var listing := ListAll();
        return Scan(listing);
      }
      if n > maildrop.count {
        return NoSuchMail;
      }
      if maildrop.mails[n - 1].deleted {
        return MarkedMail;
      }
      return Scan([Listed(n, maildrop.mails[n - 1].size, maildrop.mails[n - 1].ident)]);
    }

    /** `pop_stat`. */
    method PopStat() returns (answer: Answer)
      requires Valid()
      ensures answer == Totals(|maildrop.Mails()|, SizeOf(maildrop.Mails(), |maildrop.Mails()|))
    {
      var bytes, i := 0, 0;
      while i < maildrop.count
        invariant 0 <= i <= maildrop.count && bytes == SizeOf(maildrop.Mails(), i)
      {
        bytes := bytes + maildrop.mails[i].size;
        i := i + 1;
      }
      return Totals(maildrop.count, bytes);
    }

    /** `state_transaction`. */
    method StateTransaction(db: Database, cmd: Command, fault: bool) returns (answer: Answer)
      requires Valid() && authorized.Some?
      modifies this, maildrop, maildrop.mails, db, conn
      ensures Valid() && (db.Value(), Value()) == TransactionLine(old(db.Value()), old(Value()), cmd, fault)
      ensures answer == Answered(old(maildrop.Mails()), cmd)
      ensures conn.sent ==
        old(conn.sent) + if cmd.Retr? then Retrieved(old(db.Value()), old(maildrop.Value()), cmd.n) else []
    {
      hide Close, Update, MarkMail, UnmarkAll, ListingFrom, Retrieved;
      answer := Nothing;
      assert conn.sent + [] == conn.sent;
      match cmd {
        case Stat => answer := PopStat();
        case List(n) => answer := PopList(n);
        case Quit => PopQuit(db, fault);
        case Dele(n) => PopDele(db, n, fault);
        case Rset => PopRset(db);
        case Retr(n) => PopRetr(db, n);
        case _ =>
      }
    }
  }
}
