/** Routing at the end of a mail: each recipient to a mailbox, to the outbox, or
    nowhere, by the router its address was resolved to. */
module Routing {
  import opened Bytes
  import opened PathParsing
  import Redirect
  import opened SmtpSessions

  const REDIRECT: Text := Ascii("redirect")
  const HANDOFF: Text := Ascii("handoff")
  const DROP: Text := Ascii("drop")

  /** The calling contract 0, 1, -1 of the storing functions. */
  datatype Status = Done | Deferred | Refused

  datatype Inbox = Master | UserDatabase(file: Text)

  datatype Row =
    | MailboxRow(inbox: Inbox, user: Text, to: Text, from: Text, data: Text)
    | OutboxRow(remote: Option<Text>, to: Text, from: Text, data: Text)

  /** The rows inserted so far, and how the database answers the inserts to come. */
  datatype Tables = Tables(rows: seq<Row>, answers: seq<Status>)

  /** The users with the databases configured for them, and the databases that open. */
  datatype Site = Site(users: map<Text, Option<Text>>, available: set<Text>)

  /** The reverse path as it stands in its structure, with what earlier paths have left
      behind its terminator. */
  datatype Reverse = Reverse(text: Text, delimiter: nat, behind: Text)

  function Structure(r: Reverse): Buffer { Buffer(r.text + [NUL] + r.behind, r.delimiter) }

  datatype Mail = Mail(reverse: Reverse, data: Text)

  /** `mail_store_inbox` and `mail_store_outbox`. The master mailbox refuses mail for
      users it does not know: the column is a foreign key. */
  function Insert(t: Tables, site: Site, row: Row): (Tables, Status) {
    var answer := if t.answers == [] then Done else t.answers[0];
    var rest := if t.answers == [] then [] else t.answers[1..];
    var status := if row.MailboxRow? && row.inbox.Master? && row.user !in site.users then Refused else answer;
    (Tables(if status.Done? then t.rows + [row] else t.rows, rest), status)
  }

  function InboxOf(site: Site, user: Text): Inbox
    requires user in site.users
  {
    if site.users[user].Some? && site.users[user].value in site.available then UserDatabase(site.users[user].value)
    else Master
  }

  /** The `store` router: the mailbox of the user, or else the master mailbox. */
  function StoreMail(t: Tables, site: Site, m: Mail, user: Text, to: Text): (Tables, Status)
  {
    var from := m.reverse.text;
    var (t', status) :=
      if user in site.users then Insert(t, site, MailboxRow(InboxOf(site, user), user, to, from, m.data))
      else (t, Refused);
    if status.Done? then (t', Done) else Insert(t', site, MailboxRow(Master, user, to, from, m.data))
  }

  /** The delimiter lies in the path or at its end. */
  predicate SplitPath(p: Path) { p.delimiter <= |p.text| }

  /** The address a redirect leads to. */
  function RedirectTarget(m: Mail, p: Path, argument: Text): Option<Text>
    requires SplitPath(p)
  {
    Redirect.Expanded(argument, v => Redirect.RouterValue(Parsed(p.text, p.delimiter), Structure(m.reverse), v))
  }

  /** `route_local_path`. */
  function RouteLocal(t: Tables, site: Site, m: Mail, p: Path): (Tables, Status)
    requires SplitPath(p) && p.route.Some?
  {
    var Route(router, argument) := p.route.value;
    if router == STORE then
      if argument.None? then (t, Refused) else StoreMail(t, site, m, argument.value, p.text)
    else if router == REDIRECT then
      if argument.None? then (t, Refused)
      else
        match RedirectTarget(m, p, argument.value)
        case None => (t, Refused)
        case Some(target) => Insert(t, site, OutboxRow(None, target, m.reverse.text, m.data))
    else if router == HANDOFF then
      if argument.None? then (t, Refused)
      else Insert(t, site, OutboxRow(argument, p.text, m.reverse.text, m.data))
    else if router == REJECT then (t, Refused)
    else (t, Done)
  }

  function RoutePath(t: Tables, site: Site, m: Mail, p: Path): (Tables, Status)
    requires SplitPath(p)
  {
    if p.route.Some? then RouteLocal(t, site, m, p)
    else Insert(t, site, OutboxRow(None, p.text, m.reverse.text, m.data))
  }

  function Code(status: Status): nat { if status.Done? then 250 else if status.Deferred? then 400 else 500 }

  ghost predicate Ready(paths: seq<Path>) {
    forall k :: 0 <= k < |paths| ==> SplitPath(paths[k])
  }

  /** `mail_route`, from recipient `i` on. */
  function RouteFrom(t: Tables, site: Site, m: Mail, paths: seq<Path>, i: nat): (Tables, nat)
    requires Ready(paths) && i <= |paths|
    decreases |paths| - i
  {
    if i == |paths| then (t, 250)
    else
      var (t', status) := RoutePath(t, site, m, paths[i]);
      if status.Done? then RouteFrom(t', site, m, paths, i + 1) else (t', Code(status))
  }

  /** The handoff of `mail_originate`, from recipient `i` on. */
  function HandoffFrom(t: Tables, site: Site, m: Mail, remote: Text, paths: seq<Path>, i: nat): (Tables, nat)
    requires Ready(paths) && i <= |paths|
    decreases |paths| - i
  {
    if i == |paths| then (t, 250)
    else
      var (t', status) := Insert(t, site, OutboxRow(Some(remote), paths[i].text, m.reverse.text, m.data));
      if status.Done? then HandoffFrom(t', site, m, remote, paths, i + 1) else (t', Code(status))
  }

  /** `mail_originate`. */
  function Originate(t: Tables, site: Site, m: Mail, route: Option<Route>, paths: seq<Path>): (Tables, nat)
    requires Ready(paths)
  {
    if route.None? then (t, 500)
    else if route.value.router == DROP then (t, 250)
    else if route.value.router == HANDOFF then
      if route.value.argument.Some? then HandoffFrom(t, site, m, route.value.argument.value, paths, 0) else (t, 250)
    else RouteFrom(t, site, m, paths, 0)
  }

  // ------------------------------------------------------------ conservation

  /** Recipients that are to get a row. */
  predicate NeedsRow(p: Path) {
    p.route.Some? ==> p.route.value.router in [STORE, REDIRECT, HANDOFF]
  }

  /** The user has a database of its own, and it opens. */
  ghost predicate HasOwn(site: Site, user: Text, inbox: Inbox) {
    && inbox.UserDatabase? && inbox.file in site.available
    && user in site.users && site.users[user] == Some(inbox.file)
  }

  /** The template with the values of recipient and sender, one after the other. */
  ghost function Redirected(m: Mail, p: Path, argument: Text): Option<Text>
    requires SplitPath(p)
  {
    var (to, from) := (Parsed(p.text, p.delimiter), Structure(m.reverse));
    Redirect.Passes(argument,
      Redirect.RouterValue(to, from, Redirect.ToLocal), Redirect.RouterValue(to, from, Redirect.ToDomain),
      Redirect.RouterValue(to, from, Redirect.FromLocal), Redirect.RouterValue(to, from, Redirect.FromDomain))
  }

  lemma RedirectedTo(m: Mail, p: Path, argument: Text)
    requires SplitPath(p)
    ensures RedirectTarget(m, p, argument) == Redirected(m, p, argument)
  {
    hide Redirect.Passes, Redirect.RouterValue;
  }

  /** The row is the one the router of the path asks for. */
  ghost predicate Fits(site: Site, m: Mail, p: Path, row: Row)
    requires SplitPath(p)
  {
    row.from == m.reverse.text && row.data == m.data
    && if p.route.None? then row.OutboxRow? && row.remote.None? && row.to == p.text
       else
         var Route(router, argument) := p.route.value;
         argument.Some?
         && if router == STORE then
              && row.MailboxRow? && row.user == argument.value && row.to == p.text && row.user in site.users
              && (row.inbox == Master || HasOwn(site, row.user, row.inbox))
            else if router == REDIRECT then
              row.OutboxRow? && row.remote.None? && Some(row.to) == Redirected(m, p, argument.value)
            else router == HANDOFF && row.OutboxRow? && row.remote == argument && row.to == p.text
  }

  /** `rows` are those of the recipients from `i` up to `n`, in order: exactly one for
      each that needs one, none for the others. */
  ghost predicate Accounts(site: Site, m: Mail, rows: seq<Row>, paths: seq<Path>, i: nat, n: nat)
    requires Ready(paths) && i <= n <= |paths|
    decreases n - i
  {
    if i == n then rows == []
    else if NeedsRow(paths[i]) then
      rows != [] && Fits(site, m, paths[i], rows[0]) && Accounts(site, m, rows[1..], paths, i + 1, n)
    else Accounts(site, m, rows, paths, i + 1, n)
  }

  /** One recipient: its row is stored, or nothing is. A row for the master mailbox after
      a failure of the user's own database is still the only one. */
  lemma PathAdds(t: Tables, site: Site, m: Mail, p: Path)
    requires SplitPath(p)
    ensures var (t', status) := RoutePath(t, site, m, p);
            if status.Done? && NeedsRow(p) then
              exists row :: t'.rows == t.rows + [row] && Fits(site, m, p, row)
            else t'.rows == t.rows
  {
    hide RedirectTarget, Redirected;
    if p.route.Some? && p.route.value.argument.Some? { RedirectedTo(m, p, p.route.value.argument.value); }
    var (t', status) := RoutePath(t, site, m, p);
    if status.Done? && NeedsRow(p) {
      var row := t'.rows[|t'.rows| - 1];
      assert t'.rows == t.rows + [row];
      assert Fits(site, m, p, row);
    }
  }

  function Answer(t: Tables, k: nat): Status { if k < |t.answers| then t.answers[k] else Done }

  /** Where mail for a user is stored: in the user's own database if one is configured, opens
      and takes it, and in the master mailbox otherwise; a user the master mailbox does not
      know gets nothing. Mail that both refuse gets the answer of the second. */
  lemma StoredWhere(t: Tables, site: Site, m: Mail, user: Text, to: Text)
    ensures var (t', status) := StoreMail(t, site, m, user, to);
            var own := user in site.users && site.users[user].Some? && site.users[user].value in site.available;
            if user !in site.users then t'.rows == t.rows && status == Refused
            else if own && Answer(t, 0).Done? then
              && status.Done?
              && t'.rows == t.rows + [MailboxRow(UserDatabase(site.users[user].value), user, to, m.reverse.text, m.data)]
            else if Answer(t, 0).Done? || Answer(t, 1).Done? then
              status.Done? && t'.rows == t.rows + [MailboxRow(Master, user, to, m.reverse.text, m.data)]
            else status == Answer(t, 1) && t'.rows == t.rows
  {
  }

  /** When a recipient gets what its router asks for, and how it fails if it does not. */
  lemma PathStatus(t: Tables, site: Site, m: Mail, p: Path)
    requires SplitPath(p)
    ensures var status := RoutePath(t, site, m, p).1;
            if p.route.None? then status == Answer(t, 0)
            else
              var Route(router, argument) := p.route.value;
              if router == Ascii("store") then
                status == if argument.None? || argument.value !in site.users then Refused
                          else if Answer(t, 0).Done? then Done else Answer(t, 1)
              else if router == Ascii("redirect") then
                status == if argument.None? || Redirected(m, p, argument.value).None? then Refused else Answer(t, 0)
              else if router == Ascii("handoff") then
                status == if argument.None? then Refused else Answer(t, 0)
              else status == if router == Ascii("reject") then Refused else Done
  {
    hide RedirectTarget, Redirected, Ascii;
    if p.route.Some? && p.route.value.argument.Some? { RedirectedTo(m, p, p.route.value.argument.value); }
  }

  /** Redirected mail goes where the administrator meant it to go, under the exact condition
      for that: a template whose variables are filled in with local part and domain of the
      recipient and of the sender as he was parsed. */
  lemma RedirectsAsMeant(t: Tables, site: Site, m: Mail, p: Path, argument: Text, b: Buffer, spec: Text)
    requires SplitPath(p) && p.route == Some(Route(Ascii("redirect"), Some(argument)))
    requires BufferOk(b) && ParseInto(b, spec).1 && ParseInto(b, spec).0 == Structure(m.reverse)
    requires Redirect.Template(argument) && LPAREN !in p.text && LPAREN !in Structure(m.reverse).bytes
    requires PathOf(spec).Parsed? && PathOf(spec).delimiter <= |PathOf(spec).text|
    requires Redirect.Right(Parsed(p.text, p.delimiter), PathOf(spec), Structure(m.reverse))
    ensures var ((t', status), to, from) := (RoutePath(t, site, m, p), Parsed(p.text, p.delimiter), PathOf(spec));
            var meant := Redirect.Substitute(Redirect.Tokenize(argument), v => Redirect.IntendedValue(to, from, v));
            status.Done? ==> t'.rows == t.rows + [OutboxRow(None, meant, m.reverse.text, m.data)]
  {
    hide Redirect.Expanded, Redirect.Tokenize, Redirect.Template, Redirect.Right, ParseInto, PathOf, Ascii;
    Redirect.RedirectMeansSubstitution(argument, Parsed(p.text, p.delimiter), b, spec);
  }

  /** In a mail that is accepted every recipient has got exactly its row; in one that is
      not, exactly the recipients before the one that failed, whose status is the code. */
  lemma {:induction false} RoutingConserves(t: Tables, site: Site, m: Mail, paths: seq<Path>, i: nat)
    returns (n: nat, added: seq<Row>)
    requires Ready(paths) && i <= |paths|
    ensures i <= n <= |paths|
    ensures var (t', code) := RouteFrom(t, site, m, paths, i);
            && t'.rows == t.rows + added && Accounts(site, m, added, paths, i, n)
            && (code == 250 <==> n == |paths|)
            && (n < |paths| ==> exists answers ::
                  var (stopped, status) := RoutePath(Tables(t.rows + added, answers), site, m, paths[n]);
                  !status.Done? && code == (if status.Deferred? then 400 else 500) && t' == stopped)
    decreases |paths| - i
  {
    hide RoutePath, NeedsRow, Fits;
    n, added := i, [];
    if i < |paths| {
      var (t', status) := RoutePath(t, site, m, paths[i]);
      PathAdds(t, site, m, paths[i]);
      if status.Done? {
        var rest;
        n, rest := RoutingConserves(t', site, m, paths, i + 1);
        added := rest;
        if NeedsRow(paths[i]) {
          var row :| t'.rows == t.rows + [row] && Fits(site, m, paths[i], row);
          added := [row] + rest;
          assert (t.rows + [row]) + rest == t.rows + added && added[1..] == rest;
        }
      }
    }
  }

  lemma InsertAdds(t: Tables, site: Site, row: Row)
    ensures var (t', status) := Insert(t, site, row);
            && t'.rows == (if status.Done? then t.rows + [row] else t.rows)
            && (row.OutboxRow? ==> status == Answer(t, 0))
            && forall k :: 0 <= k ==> Answer(t', k) == Answer(t, k + 1)
  {
  }

  /** Handed-off mail: one row for the remote and each recipient up to the one that failed. */
  lemma {:induction false} HandoffConserves(t: Tables, site: Site, m: Mail, remote: Text, paths: seq<Path>, i: nat)
    returns (n: nat, added: seq<Row>)
    requires Ready(paths) && i <= |paths|
    ensures i <= n <= |paths| && |added| == n - i
    ensures var (t', code) := HandoffFrom(t, site, m, remote, paths, i);
            && t'.rows == t.rows + added
            && (forall k :: 0 <= k < |added| ==>
                  added[k] == OutboxRow(Some(remote), paths[i + k].text, m.reverse.text, m.data))
            && (code == 250 <==> n == |paths|)
            && (n < |paths| ==> code == if Answer(t, n - i).Deferred? then 400 else 500)
            && (n < |paths| ==> !Answer(t, n - i).Done?) && forall k :: 0 <= k < n - i ==> Answer(t, k).Done?
    decreases |paths| - i
  {
    hide Insert;
    n, added := i, [];
    if i < |paths| {
      var row := OutboxRow(Some(remote), paths[i].text, m.reverse.text, m.data);
      var (t', status) := Insert(t, site, row);
      InsertAdds(t, site, row);
      if status.Done? {
        var rest;
        n, rest := HandoffConserves(t', site, m, remote, paths, i + 1);
        added := [row] + rest;
        assert (t.rows + [row]) + rest == t.rows + added;
        forall k | 0 <= k < |added|
          ensures added[k] == OutboxRow(Some(remote), paths[i + k].text, m.reverse.text, m.data)
        {
          assert k > 0 ==> added[k] == rest[k - 1] && paths[(i + 1) + (k - 1)] == paths[i + k];
        }
        forall k | 0 <= k < n - i ensures Answer(t, k).Done? {
          if k > 0 { assert Answer(t', k - 1) == Answer(t, k - 1 + 1); }
        }
        assert Answer(t', n - i - 1) == Answer(t, n - i - 1 + 1);
      }
    }
  }

  /** Originated mail by the router of its user: refused without one, dropped, handed off to
      the remote its argument names, or routed like inbound mail. */
  lemma OriginateConserves(t: Tables, site: Site, m: Mail, paths: seq<Path>, route: Option<Route>)
    returns (n: nat, added: seq<Row>)
    requires Ready(paths)
    ensures n <= |paths|
    ensures var (t', code) := Originate(t, site, m, route, paths);
            if route.None? then t' == t && code == 500
            else
              var Route(router, argument) := route.value;
              if router == Ascii("drop") || (router == Ascii("handoff") && argument.None?) then t' == t && code == 250
              else if router == Ascii("handoff") then
                && t'.rows == t.rows + added && |added| == n && (code == 250 <==> n == |paths|)
                && forall k :: 0 <= k < n ==> added[k] == OutboxRow(argument, paths[k].text, m.reverse.text, m.data)
              else
                t'.rows == t.rows + added && Accounts(site, m, added, paths, 0, n) && (code == 250 <==> n == |paths|)
  {
    hide RouteFrom, HandoffFrom, Accounts, Ascii;
    n, added := 0, [];
    if route.Some? && route.value.router != DROP {
      if route.value.router != HANDOFF {
        n, added := RoutingConserves(t, site, m, paths, 0);
      } else if route.value.argument.Some? {
        n, added := HandoffConserves(t, site, m, route.value.argument.value, paths, 0);
      }
    }
  }

  /** The router of the path takes mail and stores nothing. */
  predicate Swallows(p: Path) {
    !NeedsRow(p) && p.route.value.router != REJECT
  }

  ghost predicate AllSwallow(paths: seq<Path>, i: nat) {
    forall k :: i <= k < |paths| ==> Swallows(paths[k])
  }

  lemma SwallowsPath(t: Tables, site: Site, m: Mail, p: Path)
    requires SplitPath(p)
    ensures Swallows(p) ==> RoutePath(t, site, m, p) == (t, Done)
    ensures !NeedsRow(p) && !Swallows(p) ==> RoutePath(t, site, m, p).1 == Refused
  {
  }

  /** Inbound mail is accepted without leaving a row anywhere if and only if the router
      of every recipient swallows it. */
  lemma {:induction false} RoutedNowhere(t: Tables, site: Site, m: Mail, paths: seq<Path>, i: nat)
    requires Ready(paths) && i <= |paths|
    ensures var (t', code) := RouteFrom(t, site, m, paths, i);
            (code == 250 && t'.rows == t.rows) <==> AllSwallow(paths, i)
    decreases |paths| - i
  {
    hide RoutePath, NeedsRow, Swallows, Fits, Accounts;
    if i < |paths| {
      var p := paths[i];
      var (t', status) := RoutePath(t, site, m, p);
      SwallowsPath(t, site, m, p);
      PathAdds(t, site, m, p);
      if status.Done? {
        RoutedNowhere(t', site, m, paths, i + 1);
        if NeedsRow(p) {
          var n, added := RoutingConserves(t', site, m, paths, i + 1);
          NeedsNotSwallows(p);
        }
      }
    }
  }

  lemma NeedsNotSwallows(p: Path)
    requires NeedsRow(p)
    ensures !Swallows(p)
  {
  }

  /** Originated mail is accepted and stored nowhere if and only if the user's router is
      `drop`, or a handoff without argument (or without recipients), or leaves the mail to
      recipients that all swallow it. */
  lemma AcceptedNowhere(t: Tables, site: Site, m: Mail, paths: seq<Path>, route: Option<Route>)
    requires Ready(paths)
    ensures var (t', code) := Originate(t, site, m, route, paths);
            (code == 250 && t'.rows == t.rows) <==>
            route.Some?
            && (|| route.value.router == DROP
                || (route.value.router == HANDOFF && (route.value.argument.None? || paths == []))
                || (route.value.router != HANDOFF && AllSwallow(paths, 0)))
  {
    hide RouteFrom, HandoffFrom, Swallows;
    if route.Some? {
      RoutedNowhere(t, site, m, paths, 0);
      if route.value.argument.Some? {
        var n, added := HandoffConserves(t, site, m, route.value.argument.value, paths, 0);
      }
    }
  }

  /** A mail with an ordinary recipient that is accepted and lost: its sender's router is
      a handoff without the remote to hand off to. */
  lemma HandoffWithoutRemoteLoses(t: Tables, site: Site)
    ensures var m := Mail(Reverse(Ascii("a@b"), 1, []), Ascii("x"));
            var p := Path(true, Ascii("c@d"), 1, None);
            && NeedsRow(p) && Ready([p])
            && Originate(t, site, m, Some(Route(HANDOFF, None)), [p]) == (t, 250)
  {
    assert Ascii("handoff")[0] != Ascii("drop")[0];
  }

  // ------------------------------------------------------------ the loops

  /** The tables behind the insert statements. */
  class Storage {
    var rows: seq<Row>
    var answers: seq<Status>

    function Value(): Tables
      reads this
    {
      Tables(rows, answers)
    }

    constructor (t: Tables)
      ensures Value() == t
    {
      rows, answers := t.rows, t.answers;
    }

    /** An insert statement. */
    method InsertRow(site: Site, row: Row) returns (status: Status)
      modifies this
      ensures (Value(), status) == Insert(old(Value()), site, row)
    {
      status := Done;
      if answers != [] {
        status, answers := answers[0], answers[1..];
      }
      if row.MailboxRow? && row.inbox.Master? && row.user !in site.users {
        status := Refused;
      }
      if status.Done? {
        rows := rows + [row];
      }
    }

    method StoreLocal(site: Site, m: Mail, user: Text, to: Text) returns (status: Status)
      modifies this
      ensures (Value(), status) == StoreMail(old(Value()), site, m, user, to)
    {
      status := Refused;
      if user in site.users {
        status := InsertRow(site, MailboxRow(InboxOf(site, user), user, to, m.reverse.text, m.data));
      }
      if !status.Done? {
        status := InsertRow(site, MailboxRow(Master, user, to, m.reverse.text, m.data));
      }
    }

    /** `route_local_path`. */
    method RouteLocalPath(site: Site, m: Mail, p: Path) returns (status: Status)
      requires SplitPath(p) && p.route.Some?
      modifies this
      ensures (Value(), status) == RouteLocal(old(Value()), site, m, p)
    {
      hide Insert, StoreMail, RedirectTarget;
      var router, argument := p.route.value.router, p.route.value.argument;
      status := Done;
      if router == STORE {
        if argument.None? {
          status := Refused;
        } else {
          status := StoreLocal(site, m, argument.value, p.text);
        }
      } else if router == REDIRECT {
        if argument.None? {
          status := Refused;
        } else {
          var target := RedirectTarget(m, p, argument.value);
          if target.None? {
            status := Refused;
          } else {
            status := InsertRow(site, OutboxRow(None, target.value, m.reverse.text, m.data));
          }
        }
      } else if router == HANDOFF {
        if argument.None? {
          status := Refused;
        } else {
          status := InsertRow(site, OutboxRow(argument, p.text, m.reverse.text, m.data));
        }
      } else if router == REJECT {
        status := Refused;
      }
    }

    /** `mail_route`. */
    method MailRoute(site: Site, m: Mail, paths: seq<Path>) returns (code: nat)
      requires Ready(paths)
      modifies this
      ensures (Value(), code) == RouteFrom(old(Value()), site, m, paths, 0)
    {
      hide Insert, RouteLocal;
      var i := 0;
      while i < |paths|
        invariant 0 <= i <= |paths|
        invariant RouteFrom(old(Value()), site, m, paths, 0) == RouteFrom(Value(), site, m, paths, i)
      {
        var status;
        if paths[i].route.Some? {
          status := RouteLocalPath(site, m, paths[i]);
        } else {
          status := InsertRow(site, OutboxRow(None, paths[i].text, m.reverse.text, m.data));
        }
        match status {
          case Done =>
          case Deferred => return 400;
          case Refused => return 500;
        }
        i := i + 1;
      }
      return 250;
    }

    /** `mail_originate`. */
    method MailOriginate(site: Site, m: Mail, route: Option<Route>, paths: seq<Path>) returns (code: nat)
      requires Ready(paths)
      modifies this
      ensures (Value(), code) == Originate(old(Value()), site, m, route, paths)
    {
      hide Insert;
      if route.None? {
        return 500;
      }
      if route.value.router == DROP {
        return 250;
      }
      if route.value.router != HANDOFF {
        code := MailRoute(site, m, paths);
        return;
      }
      if route.value.argument.None? {
        return 250;
      }
      var remote, i := route.value.argument.value, 0;
      while i < |paths|
        invariant 0 <= i <= |paths|
        invariant HandoffFrom(old(Value()), site, m, remote, paths, 0) == HandoffFrom(Value(), site, m, remote, paths, i)
      {
        var status := InsertRow(site, OutboxRow(Some(remote), paths[i].text, m.reverse.text, m.data));
        match status {
          case Done =>
          case Deferred => return 400;
          case Refused => return 500;
        }
        i := i + 1;
      }
      return 250;
    }
  }
}
