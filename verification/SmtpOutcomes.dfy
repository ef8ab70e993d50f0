/** When the commands of an SMTP session succeed, and what they leave: stated of the lines
    a client sends, in the terms of the directory alone. */
module SmtpOutcomes {
  import opened Bytes
  import opened PathParsing
  import opened SmtpSessions
  import opened SmtpInvariant

  /** The first router of an address. */
  function FirstRoute(dir: Directory, text: Text): Option<Route> {
    if dir.addresses(text) == [] then None else Some(dir.addresses(text)[0])
  }

  ghost predicate RoomForPath(pool: seq<Path>, s: Session) {
    |s.forward| < 150 && (|pool| < 500 || exists i :: 0 <= i < |pool| && !pool[i].inTransaction)
  }

  /** An address with a router other than `reject`, or one elsewhere that an authenticated
      user writes to. */
  ghost predicate Addressable(s: Session, dir: Directory, text: Text, delimiter: nat) {
    if dir.addresses(text) != [] then dir.addresses(text)[0].router != Ascii("reject")
    else delimiter < |text| && text[delimiter] == AT && s.authenticated.Some?
  }

  /** RCPT takes the recipient exactly if there is room, the path parses and its address may
      be written to. It is then the last one, under a path that was free and holds what was
      parsed with its first router; otherwise the session is as it was. */
  lemma RcptAdmits(w: World, slot: nat, dir: Directory, spec: Text, sasl: SaslOutcome) returns (n: nat)
    requires WorldOk(w, dir) && slot < |w.sessions| && w.sessions[slot].state.Recipients?
    ensures InPool(w.pool, w.sessions[slot])
    ensures var (s, p) := (w.sessions[slot], PathOf(spec));
            var (pool', s') := HandleLine(w.pool, s, dir, RcptTo(spec), sasl);
            if RoomForPath(w.pool, s) && p.Parsed? && Addressable(s, dir, p.text, p.delimiter) then
              && s' == s.(forward := s.forward + [n]) && !Held(w.pool, n)
              && n < |pool'| && pool'[n] == Path(true, p.text, p.delimiter, FirstRoute(dir, p.text))
            else s' == s
  {
    hide PathOf, SessionOk, PathsAdmitted, Ascii;
    OwnedInPool(w, slot);
    n := FirstFree(w.pool, 0);
  }

  /** MAIL succeeds exactly if nobody has to authenticate first, the path parses, and an
      authenticated user has a router other than `reject` and, with `defined`, an address row
      that stores to it. */
  ghost predicate Sendable(s: Session, dir: Directory, ok: bool, text: Text) {
    && (s.listener.authRequire ==> s.authenticated.Some?) && ok
    && (s.authorized.Some? ==>
          && s.originating.Some? && s.originating.value.router != Ascii("reject")
          && (s.originating.value.router == Ascii("defined") ==> Route(Ascii("store"), s.authorized) in dir.addresses(text)))
  }

  /** What MAIL resolves the sender to: the user's own row, or for clients that are not
      authenticated the first. */
  function SenderRoute(s: Session, dir: Directory, text: Text): Option<Route> {
    if s.authorized.None? then FirstRoute(dir, text)
    else if Route(Ascii("store"), s.authorized) in dir.addresses(text) then Some(Route(Ascii("store"), s.authorized))
    else None
  }

  /** Refused for its origin, the reverse path is reset; refused for its syntax, it keeps what
      the parser has left in it. */
  lemma MailAdmits(w: World, slot: nat, dir: Directory, ok: bool, text: Text, delimiter: nat, sasl: SaslOutcome)
    requires WorldOk(w, dir) && Live(w, slot) && w.sessions[slot].state.Idle?
    ensures InPool(w.pool, w.sessions[slot])
    ensures var s := w.sessions[slot];
            var (pool', s') := HandleLine(w.pool, s, dir, MailFrom(ok, text, delimiter), sasl);
            && pool' == w.pool
            && if Sendable(s, dir, ok, text) then
                 s' == s.(state := Recipients,
                          reverse := Path(s.reverse.inTransaction, text, delimiter, SenderRoute(s, dir, text)))
               else if s.listener.authRequire && s.authenticated.None? then s' == s
               else s' == s.(reverse := if ok then CLEAR else s.reverse.(text := text, delimiter := delimiter))
  {
    hide Owned, PathsAdmitted, Ascii;
    OwnedInPool(w, slot);
    assert SessionOk(w.sessions[slot], dir);
  }

  /** A SASL exchange may end in this line. */
  ghost predicate Exchanging(s: Session, cmd: Command) {
    if s.state.Auth? then s.saslActive && !cmd.Cancel?
    else
      && s.state.Idle? && cmd.AuthBegin? && s.authenticated.None?
      && (s.listener.authOffer.AnyAuth? || (s.listener.authOffer.TlsOnlyAuth? && s.tls.Active?))
  }

  /** Whoever shows valid credentials where an exchange may end is signed in, with the router
      of the identity they authorize, and nobody else is. */
  lemma SignsIn(pool: seq<Path>, s: Session, dir: Directory, cmd: Command, user: Text, secret: Text)
    requires InPool(pool, s) && (s.state.Auth? || (s.state.Idle? && cmd.AuthBegin?))
    ensures var s' := HandleLine(pool, s, dir, cmd, Credentials(user, secret)).1;
            if !Exchanging(s, cmd) then s'.authenticated == s.authenticated && s'.authorized == s.authorized
            else if (user, secret) !in dir.credentials then
              s' == s.(state := Idle, saslActive := false, authenticated := None, authorized := None)
            else
              var identity := dir.credentials[(user, secret)];
              s' == s.(state := Idle, saslActive := false, authenticated := Some(user), authorized := Some(identity),
                       originating := if identity in dir.origins then Some(dir.origins[identity]) else None)
  {
  }

  /** Short of credentials: an exchange goes on or ends without anybody signed in. */
  lemma ExchangeGoesOn(pool: seq<Path>, s: Session, dir: Directory, cmd: Command, sasl: SaslOutcome)
    requires InPool(pool, s) && (s.state.Auth? || (s.state.Idle? && cmd.AuthBegin?)) && !sasl.Credentials?
    ensures var (pool', s') := HandleLine(pool, s, dir, cmd, sasl);
            && pool' == pool
            && s' == if Exchanging(s, cmd) && sasl.More? then s.(state := Auth, saslActive := true)
                     else if s.state.Auth? then s.(state := Idle, saslActive := false)
                     else if Exchanging(s, cmd) then s.(state := Idle, saslActive := false)
                     else s
  {
  }

  /** A connection begins in NEW, as the fixed user of its listener if it has one, with that
      user's router, and with a handshake first where TLS is all there is. A handshake makes a
      negotiation TLS. */
  lemma Connects(w: World, dir: Directory, listener: Listener, tlsOnly: bool)
    requires Owned(w)
    ensures var (fixed, w') := (listener.fixedUser, Step(w, dir, Accept(|w.sessions|, listener, tlsOnly)));
            && w' == World(w.pool, w.sessions + [w'.sessions[|w.sessions|]])
            && var s := w'.sessions[|w.sessions|];
               && s.open && s.state.New? && s.listener == listener && !s.saslActive && s.forward == []
               && s.authenticated == s.authorized == fixed
               && s.originating == (if fixed.Some? && fixed.value in dir.origins then Some(dir.origins[fixed.value]) else None)
               && (if tlsOnly then s.tls.Negotiating? else s.tls.Plain?)
    ensures forall slot: nat ::
      Live(w, slot) ==>
        Step(w, dir, Handshake(slot)) ==
        if w.sessions[slot].tls.Negotiating? then w.(sessions := w.sessions[slot := w.sessions[slot].(tls := Active)])
        else w
  {
    hide Owned;
  }

  /** The way through a mail: HELO, DATA with at least one recipient, and at the end, or on
      RSET, the paths are free again and the session begins anew; STARTTLS and QUIT. */
  lemma MailProceeds(w: World, slot: nat, dir: Directory, cmd: Command, sasl: SaslOutcome)
    requires WorldOk(w, dir) && slot < |w.sessions|
    ensures InPool(w.pool, w.sessions[slot])
    ensures var s := w.sessions[slot];
            var (pool', s') := HandleLine(w.pool, s, dir, cmd, sasl);
            && (s.state.New? ==> (pool', s') == (w.pool, if cmd.Helo? then s.(state := Idle) else s))
            && (s.state.Recipients? && cmd.DataBegin? ==>
                  (pool', s') == (w.pool, if s.forward == [] then s else s.(state := Data)))
            && ((s.state.Data? && cmd.EndOfData?) || (s.state.Recipients? && cmd.Rset?) ==>
                  && s' == s.(state := Idle, reverse := CLEAR, forward := []) && |pool'| == |w.pool|
                  && forall i :: 0 <= i < |pool'| ==> pool'[i] == if i in s.forward then CLEAR else w.pool[i])
            && (s.state.Data? && !cmd.EndOfData? ==> (pool', s') == (w.pool, s))
            && (s.state.Idle? && cmd.StartTls? ==>
                  s' == if s.tls.Plain? && s.listener.negotiable then
                          s.(state := New, tls := Negotiating, reverse := CLEAR, forward := [])
                        else s)
            && ((s.state.Idle? || s.state.Recipients?) && cmd.Quit? ==>
                  s' == s.(open := false, reverse := CLEAR, forward := [],
                           authenticated := None, authorized := None, originating := None))
  {
    hide SessionOk, PathsAdmitted;
    OwnedInPool(w, slot);
    var s := w.sessions[slot];
    forall i | 0 <= i < |w.pool|
      ensures PoolReturn(w.pool, s.forward, |s.forward|)[i] == if i in s.forward then CLEAR else w.pool[i]
    {
      ReturnedPath(w.pool, s.forward, |s.forward|, i);
      assert s.forward[..|s.forward|] == s.forward;
    }
  }

  lemma {:induction false} ReturnedPath(pool: seq<Path>, forward: seq<nat>, k: nat, i: nat)
    requires k <= |forward| && (forall j :: 0 <= j < |forward| ==> forward[j] < |pool|) && i < |pool|
    ensures PoolReturn(pool, forward, k)[i] == if i in forward[..k] then CLEAR else pool[i]
  {
    if k > 0 {
      ReturnedPath(pool, forward, k - 1, i);
      assert forward[..k] == forward[..k - 1] + [forward[k - 1]];
    }
  }
}
