/** The SMTP server's structures and the handlers that work on them. */
module SmtpServer {
  import opened Bytes
  import opened PathParsing
  import opened SmtpSessions

  /** `PATHPOOL`. */
  class PathPool {
    var paths: seq<Path>

    constructor ()
      ensures paths == []
    {
      paths := [];
    }

    /** `pathpool_get`. */
    method Get() returns (k: Option<nat>)
      modifies this
      ensures (paths, k) == PoolGet(old(paths))
    {
      var i := 0;
      while i < |paths| && paths[i].inTransaction
        invariant 0 <= i <= |paths| && paths == old(paths)
        invariant FirstFree(paths, 0) == FirstFree(paths, i)
      {
        i := i + 1;
      }
      if i < |paths| {
        paths := paths[i := paths[i].(inTransaction := true)];
        return Some(i);
      }
      if |paths| < MAX_POOLED_PATHS {
        paths := paths + [CLEAR.(inTransaction := true)];
        return Some(i);
      }
      return None;
    }

    /** `pathpool_return`. */
    method Return(k: nat)
      requires k < |paths|
      modifies this
      ensures paths == old(paths)[k := CLEAR]
    {
      paths := paths[k := CLEAR];
    }
  }

  /** The loop of `path_resolve` over the rows of the address query. */
  method PathResolve(path: Path, dir: Directory, user: Option<Text>) returns (resolved: Path, status: int)
    ensures (resolved, status) == Resolved(path, dir, user)
  {
    if path.route.Some? {
      return path, 0;
    }
    var rows := dir.addresses(path.text);
    var i := 0;
    while i < |rows| && user.Some? && rows[i] != Route(STORE, user)
      invariant 0 <= i <= |rows|
      invariant Select(rows[i..], user) == Select(rows, user)
    {
      assert rows[i..][1..] == rows[i + 1..];
      i := i + 1;
    }
    if i == |rows| {
      return path.(route := None), 0;
    }
    assert rows[i..][0] == rows[i];
    resolved := path.(route := Some(rows[i]));
    status := if rows[i].router == REJECT then 1 else 0;
  }

  /** The string in a parsed path. */
  method TextOf(buffer: PathBuffer, ghost text: Text) returns (s: Text)
    requires buffer.HoldsText(text) && NUL !in text
    ensures s == text
  {
    s := [];
    while buffer.path[|s|] != NUL
      invariant |s| <= |text| && s == text[..|s|]
      invariant |s| < |text| ==> buffer.path[|s|] == text[|s|]
      decreases |text| - |s|
    {
      s := s + [buffer.path[|s|]];
      assert |s| < |text| ==> buffer.path[..|text|][|s|] == text[|s|];
    }
  }

  /** `CLIENT` with its `MAIL`. `forward_paths` is a table of 150 pointers; the first
      that is empty ends it. */
  class SmtpClient {
    var open: bool
    const listener: Listener
    var tls: Tls
    var state: State
    var saslActive: bool
    var reverse: Path
    const forward: array<Option<nat>>
    var authenticated: Option<Text>
    var authorized: Option<Text>
    var originating: Option<Route>
    ghost var recipients: seq<nat>

    /** The recipients are a prefix of the table without gaps. */
    ghost predicate Valid()
      reads this, forward
    {
      && forward.Length == MAX_RECIPIENTS && |recipients| <= MAX_RECIPIENTS
      && (forall k :: 0 <= k < |recipients| ==> forward[k] == Some(recipients[k]))
      && forall k :: |recipients| <= k < MAX_RECIPIENTS ==> forward[k].None?
    }

    ghost function Value(): Session
      reads this
    {
      Session(open, listener, tls, state, saslActive, reverse, recipients, authenticated, authorized, originating)
    }

    /** `client_accept`. */
    constructor (listener: Listener, dir: Directory, tlsOnly: bool)
      ensures Valid() && fresh(forward) && Value() == Accepted(listener, dir, tlsOnly)
    {
      this.listener, tls := listener, if tlsOnly then Negotiating else Plain;
      open, state, saslActive, reverse := true, New, false, CLEAR;
      forward := new Option<nat>[MAX_RECIPIENTS](i => None);
      authenticated, authorized := listener.fixedUser, listener.fixedUser;
      originating := if listener.fixedUser.Some? then Origin(dir, listener.fixedUser.value) else None;
      recipients := [];
    }

    /** The loop of `mail_reset` that gives the paths back. */
    method ReturnPaths(pool: PathPool)
      requires Valid() && InPool(pool.paths, Value())
      modifies pool
      ensures pool.paths == PoolReturn(old(pool.paths), recipients, |recipients|)
    {
      var i := 0;
      while i < MAX_RECIPIENTS && forward[i].Some?
        invariant 0 <= i <= |recipients|
        invariant pool.paths == PoolReturn(old(pool.paths), recipients, i)
      {
        pool.Return(forward[i].value);
        i := i + 1;
      }
    }

    /** The table as `mail_reset` leaves it. */
    method ClearForward()
      requires Valid()
      modifies this`recipients, forward
      ensures Valid() && recipients == []
    {
      forall i | 0 <= i < forward.Length { forward[i] := None; }
      recipients := [];
    }

    /** `mail_reset`. */
    method ResetMail(pool: PathPool)
      requires Valid() && InPool(pool.paths, Value())
      modifies this`recipients, this`reverse, forward, pool
      ensures Valid() && (pool.paths, Value()) == MailReset(old(pool.paths), old(Value()))
    {
      hide PoolReturn;
      ReturnPaths(pool);
      ClearForward();
      reverse := CLEAR;
    }

    /** `client_close`. */
    method CloseClient(pool: PathPool)
      requires Valid() && InPool(pool.paths, Value())
      modifies this, forward, pool
      ensures Valid() && (pool.paths, Value()) == Close(old(pool.paths), old(Value()))
    {
      hide PoolReturn;
      ResetMail(pool);
      open, authenticated, authorized, originating := false, None, None, None;
    }

    /** The outcomes of `sasl_begin` and `sasl_continue`. */
    method SaslOutcomes(dir: Directory, sasl: SaslOutcome)
      requires Valid()
      modifies this`state, this`saslActive, this`authenticated, this`authorized, this`originating
      ensures Valid() && Value() == SaslResult(old(Value()), dir, sasl)
    {
      match sasl {
        case Failed => state, saslActive := Idle, false;
        case More => state, saslActive := Auth, true;
        case Credentials(user, secret) =>
          state, saslActive := Idle, false;
          if (user, secret) in dir.credentials {
            authenticated, authorized := Some(user), Some(dir.credentials[(user, secret)]);
            originating := Origin(dir, authorized.value);
          } else {
            authenticated, authorized := None, None;
          }
      }
    }

    /** `smtpstate_auth`. */
    method StateAuth(dir: Directory, cmd: Command, sasl: SaslOutcome)
      requires Valid()
      modifies this`state, this`saslActive, this`authenticated, this`authorized, this`originating
      ensures Valid() && Value() == AuthLine(old(Value()), dir, cmd, sasl)
    {
      hide SaslResult;
      if !saslActive {
        state := Idle;
      } else if cmd.Cancel? {
        state, saslActive := Idle, false;
      } else {
        SaslOutcomes(dir, sasl);
      }
    }

    /** MAIL FROM. */
    method MailFromCommand(dir: Directory, ok: bool, text: Text, delimiter: nat)
      requires Valid()
      modifies this`state, this`reverse
      ensures Valid() && Value() == MailCommand(old(Value()), dir, ok, text, delimiter)
    {
      hide Resolved;
      if listener.authRequire && authenticated.None? {
        return;
      }
      reverse := reverse.(text := text, delimiter := delimiter);
      if !ok {
        return;
      }
      var status;
      reverse, status := PathResolve(reverse, dir, authorized);
      if status == 0 {
        if authenticated.Some? && authorized.Some? {
          if originating.None? || originating.value.router == REJECT {
            reverse := CLEAR;
            return;
          }
          if originating.value.router == DEFINED && reverse.route != Some(Route(STORE, authorized)) {
            reverse := CLEAR;
            return;
          }
        }
      }
      state := Recipients;
    }

    /** The first empty slot of `forward_paths`. */
    method EmptySlot() returns (i: nat)
      requires Valid()
      ensures i == |recipients|
    {
      i := 0;
      while i < MAX_RECIPIENTS && forward[i].Some?
        invariant 0 <= i <= |recipients|
      {
        i := i + 1;
      }
    }

    method SetSlot(i: nat, k: nat)
      requires Valid() && i == |recipients| < MAX_RECIPIENTS
      modifies this`recipients, forward
      ensures Valid() && recipients == old(recipients) + [k]
    {
      forward[i] := Some(k);
      recipients := recipients + [k];
    }

    /** RCPT TO. */
    method RcptToCommand(pool: PathPool, dir: Directory, spec: Text)
      requires Valid() && NUL !in spec
      // the pool keeps its free paths reset
      requires forall i :: 0 <= i < |pool.paths| && !pool.paths[i].inTransaction ==> pool.paths[i] == CLEAR
      modifies this`recipients, forward, pool
      ensures Valid() && (pool.paths, Value()) == RcptCommand(old(pool.paths), old(Value()), dir, spec)
    {
      hide Resolved, PathOf;
      var i := EmptySlot();
      if i == MAX_RECIPIENTS {
        return;
      }
      var got := pool.Get();
      if got.None? {
        return;
      }
      var k := got.value;
      assert pool.paths[k] == CLEAR.(inTransaction := true);
      var ok, path := ParseFresh(spec);
      if !ok {
        pool.Return(k);
        return;
      }
      var status;
      path, status := PathResolve(path, dir, None);
      if status != 0 {
        pool.Return(k);
        return;
      }
      if path.route.None? {
        if !HasDomainPart(path) || authenticated.None? {
          pool.Return(k);
          return;
        }
      }
      pool.paths := pool.paths[k := path];
      SetSlot(i, k);
    }

    /** `path_parse` on a path that has just come from the pool. */
    method ParseFresh(spec: Text) returns (ok: bool, path: Path)
      requires NUL !in spec
      ensures ok <==> PathOf(spec).Parsed?
      ensures ok ==> path == Path(true, PathOf(spec).text, PathOf(spec).delimiter, None)
    {
      var buffer := new PathBuffer();
      var status := buffer.Parse(spec);
      ok, path := status == 0, CLEAR;
      if ok {
        ParseWellDelimited(spec);
        PrintableNoNul(PathOf(spec).text);
        var text := TextOf(buffer, PathOf(spec).text);
        path := Path(true, text, buffer.delimiterPosition, None);
      }
    }

    /** The end of the handshake in `client_process`. */
    method HandshakeDone()
      requires Valid()
      modifies this`tls
      ensures Valid() && Value() == Secured(old(Value()))
    {
      if tls.Negotiating? {
        tls := Active;
      }
    }

    /** `smtpstate_idle`. */
    method StateIdle(pool: PathPool, dir: Directory, cmd: Command, sasl: SaslOutcome)
      requires Valid() && InPool(pool.paths, Value())
      modifies this, forward, pool
      ensures Valid() && (pool.paths, Value()) == IdleLine(old(pool.paths), old(Value()), dir, cmd, sasl)
    {
      hide SaslResult, PoolReturn, MailCommand, InPool;
      match cmd {
        case Rset => ResetMail(pool);
        case StartTls =>
          if tls.Plain? && listener.negotiable {
            ResetMail(pool);
            state, tls := New, Negotiating;
          }
        case AuthBegin =>
          if authenticated.None? && (listener.authOffer.AnyAuth? || (listener.authOffer.TlsOnlyAuth? && tls.Active?)) {
            SaslOutcomes(dir, sasl);
          }
        case Quit => CloseClient(pool);
        case MailFrom(ok, text, delimiter) => MailFromCommand(dir, ok, text, delimiter);
        case _ =>
      }
    }

    /** `smtpstate_recipients`. */
    method StateRecipients(pool: PathPool, dir: Directory, cmd: Command)
      requires Valid() && InPool(pool.paths, Value()) && (cmd.RcptTo? ==> NUL !in cmd.spec)
      requires forall i :: 0 <= i < |pool.paths| && !pool.paths[i].inTransaction ==> pool.paths[i] == CLEAR
      modifies this, forward, pool
      ensures Valid() && (pool.paths, Value()) == RecipientsLine(old(pool.paths), old(Value()), dir, cmd)
    {
      hide PoolReturn, RcptCommand;
      match cmd {
        case RcptTo(spec) => RcptToCommand(pool, dir, spec);
        case Quit => CloseClient(pool);
        case Rset =>
          state := Idle;
          ResetMail(pool);
        case DataBegin =>
          if forward[0].Some? {
            state := Data;
          }
        case _ =>
      }
    }

    /** `client_line`. */
    method ClientLine(pool: PathPool, dir: Directory, cmd: Command, sasl: SaslOutcome)
      requires Valid() && InPool(pool.paths, Value()) && (cmd.RcptTo? ==> NUL !in cmd.spec)
      requires forall i :: 0 <= i < |pool.paths| && !pool.paths[i].inTransaction ==> pool.paths[i] == CLEAR
      modifies this, forward, pool
      ensures Valid() && (pool.paths, Value()) == HandleLine(old(pool.paths), old(Value()), dir, cmd, sasl)
    {
      hide IdleLine, RecipientsLine, AuthLine, PoolReturn, InPool;
      match state {
        case New =>
          if cmd.Helo? {
            state := Idle;
          }
        case Idle => StateIdle(pool, dir, cmd, sasl);
        case Auth => StateAuth(dir, cmd, sasl);
        case Recipients => StateRecipients(pool, dir, cmd);
        case Data =>
          if cmd.EndOfData? {
            ResetMail(pool);
            state := Idle;
          }
      }
    }
  }

  lemma PrintableNoNul(text: Text)
    requires Printable(text)
    ensures NUL !in text
  {
    forall b | b in text ensures b != NUL {
      var i :| 0 <= i < |text| && text[i] == b;
      assert IsPrint(text[i]);
    }
  }
}
