/** The SMTP server session: five states, authentication, address resolution, and
    the pool of path structures that all sessions share. A pointer into the pool is
    the index of the structure: structures are never moved or freed while the daemon
    serves. */
module SmtpSessions {
  import opened Bytes
  import opened PathParsing

  type Text = seq<byte>

  const MAX_RECIPIENTS := 150
  const MAX_POOLED_PATHS := 500

  const STORE: Text := Ascii("store")
  const REJECT: Text := Ascii("reject")
  const DEFINED: Text := Ascii("defined")

  datatype Route = Route(router: Text, argument: Option<Text>)

  /** `MAILPATH`. */
  datatype Path = Path(inTransaction: bool, text: Text, delimiter: nat, route: Option<Route>)

  /** As `path_reset` leaves it. */
  const CLEAR := Path(false, [], 0, None)

  /** What the daemon reads from the database: valid credentials and the identity they
      authorize, the routers for originating users, and the result of the address
      query, whose pattern matching is left open. */
  datatype Directory = Directory(
    credentials: map<(Text, Text), Text>, origins: map<Text, Route>, addresses: Text -> seq<Route>)

  datatype AuthOffer = NoAuth | TlsOnlyAuth | AnyAuth

  datatype Listener = Listener(authRequire: bool, authOffer: AuthOffer, negotiable: bool, fixedUser: Option<Text>)

  /** Without TLS, between its announcement and the end of the handshake, or with it. */
  datatype Tls = Plain | Negotiating | Active

  datatype State = New | Idle | Auth | Recipients | Data

  datatype Session = Session(
    open: bool, listener: Listener, tls: Tls, state: State, saslActive: bool,
    reverse: Path, forward: seq<nat>,
    authenticated: Option<Text>, authorized: Option<Text>, originating: Option<Route>)

  datatype SaslOutcome = Failed | More | Credentials(user: Text, secret: Text)

  /** `MailFrom` carries what `path_parse` makes of its argument: the reverse path may
      be stale, so that this is left open. `Cancel` is a lone `*`, `EndOfData` a lone
      dot, `Other` everything that changes nothing here. */
  datatype Command = Helo | Rset | StartTls | AuthBegin | Cancel | Quit
    | MailFrom(ok: bool, text: Text, delimiter: nat) | RcptTo(spec: Text) | DataBegin | EndOfData | Other

  // ------------------------------------------------------------ the pool

  /** The first path at or behind `i` that is not in a transaction, or the end. */
  function FirstFree(pool: seq<Path>, i: nat): (k: nat)
    requires i <= |pool|
    ensures i <= k <= |pool| && (k < |pool| ==> !pool[k].inTransaction)
    ensures forall j :: i <= j < k ==> pool[j].inTransaction
    decreases |pool| - i
  {
    if i == |pool| || !pool[i].inTransaction then i else FirstFree(pool, i + 1)
  }

  /** `pathpool_get`. */
  function PoolGet(pool: seq<Path>): (seq<Path>, Option<nat>) {
    var k := FirstFree(pool, 0);
    if k < |pool| then (pool[k := pool[k].(inTransaction := true)], Some(k))
    else if |pool| < MAX_POOLED_PATHS then (pool + [CLEAR.(inTransaction := true)], Some(k))
    else (pool, None)
  }

  /** `pathpool_return` of the first `k` of these paths. */
  function PoolReturn(pool: seq<Path>, forward: seq<nat>, k: nat): (r: seq<Path>)
    requires k <= |forward| && forall j :: 0 <= j < |forward| ==> forward[j] < |pool|
    ensures |r| == |pool|
  {
    if k == 0 then pool else PoolReturn(pool, forward, k - 1)[forward[k - 1] := CLEAR]
  }

  // ------------------------------------------------------------ resolution

  /** The row `path_resolve` takes: the first there is, or with an originating user one
      that stores to that user, wherever it stands. */
  function Select(rows: seq<Route>, user: Option<Text>): (r: Option<Route>)
    ensures user.None? ==> r == if rows == [] then None else Some(rows[0])
    ensures user.Some? ==> r == if Route(STORE, user) in rows then Some(Route(STORE, user)) else None
  {
    if rows == [] then None
    else if user.Some? && rows[0] != Route(STORE, user) then Select(rows[1..], user)
    else Some(rows[0])
  }

  /** `path_resolve`, with the early exit for a path that has a route. */
  function Resolved(path: Path, dir: Directory, user: Option<Text>): (Path, int) {
    if path.route.Some? then (path, 0)
    else
      var route := Select(dir.addresses(path.text), user);
      (path.(route := route), if route.Some? && route.value.router == REJECT then 1 else 0)
  }

  // ------------------------------------------------------------ handlers

  ghost predicate InPool(pool: seq<Path>, s: Session) {
    forall j :: 0 <= j < |s.forward| ==> s.forward[j] < |pool|
  }

  /** `mail_reset`. */
  function MailReset(pool: seq<Path>, s: Session): (seq<Path>, Session)
    requires InPool(pool, s)
  {
    (PoolReturn(pool, s.forward, |s.forward|), s.(reverse := CLEAR, forward := []))
  }

  /** `client_close`. */
  function Close(pool: seq<Path>, s: Session): (seq<Path>, Session)
    requires InPool(pool, s)
  {
    var (pool', s') := MailReset(pool, s);
    (pool', s'.(open := false, authenticated := None, authorized := None, originating := None))
  }

  function Origin(dir: Directory, user: Text): Option<Route> {
    if user in dir.origins then Some(dir.origins[user]) else None
  }

  /** What follows a SASL exchange. */
  function SaslResult(s: Session, dir: Directory, sasl: SaslOutcome): Session {
    match sasl
    case Failed => s.(state := Idle, saslActive := false)
    case More => s.(state := Auth, saslActive := true)
    case Credentials(user, secret) =>
      var idle := s.(state := Idle, saslActive := false);
      if (user, secret) in dir.credentials then
        var identity := dir.credentials[(user, secret)];
        idle.(authenticated := Some(user), authorized := Some(identity), originating := Origin(dir, identity))
      else idle.(authenticated := None, authorized := None)
  }

  /** `smtpstate_auth` for a line that is not the one that began the exchange. */
  function AuthLine(s: Session, dir: Directory, cmd: Command, sasl: SaslOutcome): Session {
    if !s.saslActive then s.(state := Idle)
    else if cmd.Cancel? then s.(state := Idle, saslActive := false)
    else SaslResult(s, dir, sasl)
  }

  predicate MayAuth(s: Session) {
    s.authenticated.None? && (s.listener.authOffer.AnyAuth? || (s.listener.authOffer.TlsOnlyAuth? && s.tls.Active?))
  }

  /** Whether the originating user may send from the resolved reverse path. */
  predicate OriginAllowed(s: Session, reverse: Path) {
    s.authenticated.Some? && s.authorized.Some? ==>
      && s.originating.Some? && s.originating.value.router != REJECT
      && (s.originating.value.router == DEFINED ==> reverse.route == Some(Route(STORE, s.authorized)))
  }

  /** The MAIL command. */
  function MailCommand(s: Session, dir: Directory, ok: bool, text: Text, delimiter: nat): Session {
    if s.listener.authRequire && s.authenticated.None? then s
    else
      var parsed := s.reverse.(text := text, delimiter := delimiter);
      if !ok then s.(reverse := parsed)
      else
        var (resolved, status) := Resolved(parsed, dir, s.authorized);
        if status == 0 && !OriginAllowed(s, resolved) then s.(reverse := CLEAR)
        else s.(reverse := resolved, state := Recipients)
  }

  function IdleLine(pool: seq<Path>, s: Session, dir: Directory, cmd: Command, sasl: SaslOutcome): (seq<Path>, Session)
    requires InPool(pool, s)
  {
    match cmd
    case Rset => MailReset(pool, s)
    case StartTls =>
      if !s.tls.Plain? || !s.listener.negotiable then (pool, s)
      else
        var (pool', s') := MailReset(pool, s);
        (pool', s'.(state := New, tls := Negotiating))
    case AuthBegin => (pool, if MayAuth(s) then SaslResult(s, dir, sasl) else s)
    case Quit => Close(pool, s)
    case MailFrom(ok, text, delimiter) => (pool, MailCommand(s, dir, ok, text, delimiter))
    case _ => (pool, s)
  }

  predicate HasDomainPart(p: Path) { p.delimiter < |p.text| && p.text[p.delimiter] == AT }

  /** Paths without a router leave for elsewhere: they need a domain and a user. */
  predicate Acceptable(p: Path, authenticated: bool) {
    p.route.None? ==> HasDomainPart(p) && authenticated
  }

  /** The RCPT command. The path from the pool is fresh, so that `PathOf` describes
      what `path_parse` makes of it. */
  function RcptCommand(pool: seq<Path>, s: Session, dir: Directory, spec: Text): (seq<Path>, Session) {
    if |s.forward| >= MAX_RECIPIENTS then (pool, s)
    else
      match PoolGet(pool)
      case (_, None) => (pool, s)
      case (taken, Some(k)) =>
        if k >= |taken| then (pool, s)
        else
          match PathOf(spec)
          case Rejected(_, _) => (taken[k := CLEAR], s)
          case Parsed(text, delimiter) =>
            var (path, status) := Resolved(taken[k].(text := text, delimiter := delimiter), dir, None);
            if status != 0 || !Acceptable(path, s.authenticated.Some?) then (taken[k := CLEAR], s)
            else (taken[k := path], s.(forward := s.forward + [k]))
  }

  function RecipientsLine(pool: seq<Path>, s: Session, dir: Directory, cmd: Command): (seq<Path>, Session)
    requires InPool(pool, s)
  {
    match cmd
    case RcptTo(spec) => RcptCommand(pool, s, dir, spec)
    case Quit => Close(pool, s)
    case Rset =>
      var (pool', s') := MailReset(pool, s);
      (pool', s'.(state := Idle))
    case DataBegin => (pool, if s.forward == [] then s else s.(state := Data))
    case _ => (pool, s)
  }

  /** Of `smtpstate_data` what matters here: the mail ends, however it was judged. */
  function DataLine(pool: seq<Path>, s: Session, cmd: Command): (seq<Path>, Session)
    requires InPool(pool, s)
  {
    if cmd.EndOfData? then
      var (pool', s') := MailReset(pool, s);
      (pool', s'.(state := Idle))
    else (pool, s)
  }

  /** `client_line`. */
  function HandleLine(pool: seq<Path>, s: Session, dir: Directory, cmd: Command, sasl: SaslOutcome): (seq<Path>, Session)
    requires InPool(pool, s)
  {
    match s.state
    case New => (pool, if cmd.Helo? then s.(state := Idle) else s)
    case Idle => IdleLine(pool, s, dir, cmd, sasl)
    case Auth => (pool, AuthLine(s, dir, cmd, sasl))
    case Recipients => RecipientsLine(pool, s, dir, cmd)
    case Data => DataLine(pool, s, cmd)
  }

  /** `client_accept`: where TLS is all there is, the handshake comes first. */
  function Accepted(listener: Listener, dir: Directory, tlsOnly: bool): Session {
    Session(true, listener, if tlsOnly then Negotiating else Plain, New, false, CLEAR, [], listener.fixedUser, listener.fixedUser,
      if listener.fixedUser.Some? then Origin(dir, listener.fixedUser.value) else None)
  }

  /** A handshake that succeeds; one that fails ends the connection. */
  function Secured(s: Session): Session {
    if s.tls.Negotiating? then s.(tls := Active) else s
  }
}
