/** The end of a mail in the session that sent it: what the session has let in is
    what gets routed. */
module MailEnd {
  import opened Bytes
  import opened SmtpSessions
  import opened SmtpInvariant
  import opened Routing

  /** The recipients of a session, in the order in which they were accepted. */
  function Recipients(pool: seq<Path>, s: Session): (r: seq<Path>)
    requires InPool(pool, s)
    ensures |r| == |s.forward| && forall k :: 0 <= k < |r| ==> r[k] == pool[s.forward[k]]
  {
    seq(|s.forward|, k requires 0 <= k < |s.forward| => pool[s.forward[k]])
  }

  /** The mail of a session, whatever stands behind its reverse path. */
  function MailOf(s: Session, behind: Text, data: Text): Mail {
    Mail(Reverse(s.reverse.text, s.reverse.delimiter, behind), data)
  }

  /** What is to be routed: the data under the reverse path. */
  ghost function MailWith(reverse: Path, behind: Text, data: Text): Mail {
    Mail(Reverse(reverse.text, reverse.delimiter, behind), data)
  }

  /** The lone dot of a mail within its limits: who is authenticated originates. */
  function Routed(t: Tables, site: Site, behind: Text, data: Text, pool: seq<Path>, s: Session): (Tables, nat)
    requires InPool(pool, s) && Ready(Recipients(pool, s))
  {
    var m := MailOf(s, behind, data);
    if s.authenticated.None? then RouteFrom(t, site, m, Recipients(pool, s), 0)
    else Originate(t, site, m, s.originating, Recipients(pool, s))
  }

  /** Whatever a session has accepted can be routed. */
  lemma SessionReady(w: World, dir: Directory, es: seq<Event>, slot: nat)
    requires Reachable(w, dir, es) && Live(w, slot)
    ensures InPool(w.pool, w.sessions[slot])
    ensures Ready(Recipients(w.pool, w.sessions[slot]))
  {
    hide Reachable, WorldOk;
    ReachableOk(w, dir, es);
    OwnedWorld(w, dir);
    OwnedInPool(w, slot);
    Admission(w, dir, es, slot);
    var s := w.sessions[slot];
    forall k | 0 <= k < |s.forward| ensures SplitPath(Recipients(w.pool, s)[k]) {
      assert Admitted(w.pool[s.forward[k]], dir, s.authenticated.Some?);
    }
  }

  /** Mail of a client that is not authenticated goes to local recipients only: each has
      a router, which is never `reject`, so that neither the outbound branch of
      `mail_route` nor the last resort of `route_local_path` is ever reached. When the
      mail is accepted each recipient has its row. */
  lemma AnonymousMailStaysLocal(w: World, dir: Directory, es: seq<Event>, slot: nat, t: Tables, site: Site, behind: Text, data: Text)
    returns (added: seq<Row>)
    requires Reachable(w, dir, es) && Live(w, slot) && w.sessions[slot].state.Data?
    requires w.sessions[slot].authenticated.None?
    ensures InPool(w.pool, w.sessions[slot])
    ensures var paths := Recipients(w.pool, w.sessions[slot]);
            && Ready(paths) && paths != []
            && (forall k :: 0 <= k < |paths| ==> paths[k].route.Some? && paths[k].route.value.router != REJECT)
            && var (t', code) := Routed(t, site, behind, data, w.pool, w.sessions[slot]);
               && t'.rows == t.rows + added
               && (code == 250 ==> Accounts(site, MailWith(w.sessions[slot].reverse, behind, data), added, paths, 0, |paths|))
  {
    hide Reachable, RouteFrom, Accounts;
    SessionReady(w, dir, es, slot);
    Admission(w, dir, es, slot);
    var s := w.sessions[slot];
    var paths := Recipients(w.pool, s);
    forall k | 0 <= k < |paths| ensures paths[k].route.Some? && paths[k].route.value.router != REJECT {
      assert Admitted(w.pool[s.forward[k]], dir, false);
    }
    var n;
    n, added := RoutingConserves(t, site, MailOf(s, behind, data), paths, 0);
  }

  /** Mail of an authenticated user goes where the router of its identity sends it: that
      router exists and is not `reject`, a handoff names the remote of its argument for each
      recipient, and but for `drop` and a handoff without argument each recipient that
      needs one has its row when the mail is accepted. */
  lemma AuthenticatedMailIsOriginated(w: World, dir: Directory, es: seq<Event>, slot: nat, t: Tables, site: Site, behind: Text, data: Text)
    returns (n: nat, added: seq<Row>)
    requires Reachable(w, dir, es) && Live(w, slot) && w.sessions[slot].state.Data?
    requires w.sessions[slot].authenticated.Some?
    ensures InPool(w.pool, w.sessions[slot])
    ensures var (s, paths) := (w.sessions[slot], Recipients(w.pool, w.sessions[slot]));
            && Ready(paths) && n <= |paths|
            && s.authorized.Some? && s.authorized.value in dir.origins && dir.origins[s.authorized.value].router != REJECT
            && var (t', code) := Routed(t, site, behind, data, w.pool, s);
               var Route(router, argument) := dir.origins[s.authorized.value];
               if router == Ascii("drop") || (router == Ascii("handoff") && argument.None?) then t' == t && code == 250
               else
                 && t'.rows == t.rows + added && (code == 250 <==> n == |paths|)
                 && if router == Ascii("handoff") then
                      && |added| == n
                      && forall k :: 0 <= k < n ==> added[k] == OutboxRow(argument, paths[k].text, s.reverse.text, data)
                    else Accounts(site, MailWith(s.reverse, behind, data), added, paths, 0, n)
  {
    hide Reachable, Originate, Accounts, Ascii;
    SessionReady(w, dir, es, slot);
    Admission(w, dir, es, slot);
    var s := w.sessions[slot];
    n, added := OriginateConserves(t, site, MailOf(s, behind, data), Recipients(w.pool, s), s.originating);
  }
}
