/** The loops of the dispatch daemon over its structures. */
module Dispatcher {
  import opened Bytes
  import opened DotStuffing
  import opened OutboundQueue
  import opened OutboundRuns
  import opened OutboundTheorems

  /** The tables of the outbound queue. */
  class Outbox {
    var outbox: map<nat, Mail>
    var faillog: multiset<Failure>
    var nextId: nat

    function Value(): Queue
      reads this
    {
      Queue(outbox, faillog, nextId)
    }

    constructor (q: Queue)
      ensures Value() == q
    {
      outbox, faillog, nextId := q.outbox, q.faillog, q.nextId;
    }

    /** `mail_failure`. */
    method MailFailure(id: nat, fatal: bool)
      modifies this`faillog
      ensures Value() == LogFailure(old(Value()), id, fatal)
    {
      if id in outbox {
        faillog := faillog + multiset{Failure(id, fatal)};
      }
    }

    /** `mail_delete`. */
    method MailDelete(id: nat)
      modifies this
      ensures Value() == Delete(old(Value()), id)
    {
      outbox := outbox - {id};
      faillog := faillog[Failure(id, true) := 0][Failure(id, false) := 0];
    }

    /** A row is inserted, by the bounce statement or another daemon. */
    method InsertRow(m: Mail)
      modifies this
      ensures Value() == Insert(old(Value()), m)
    {
      outbox := outbox[nextId := m];
      nextId := nextId + 1;
    }
  }

  /** The connection to a peer. */
  class Smtp {
    var replies: seq<Reply>
    var code: nat
    const conn: Connection

    function Value(): Peer
      reads this, conn
    {
      Peer(replies, conn.sent)
    }

    constructor (p: Peer)
      ensures Value() == p && fresh(conn)
    {
      replies, code := p.replies, 0;
      conn := new Connection();
      new;
      conn.Send(p.sent);
      assert [] + p.sent == p.sent;
    }

    /** `protocol_read`: the code is reset, and what is read of a reply sets it. */
    method ReadReply() returns (reply: Reply)
      modifies this
      ensures reply == At(old(replies), 0) && replies == Behind(old(replies), 1)
      ensures code == reply.code
    {
      code := 0;
      if |replies| == 0 {
        return Lost(0);
      }
      reply, replies := replies[0], replies[1..];
      code := reply.code;
    }

    method Ask(line: seq<byte>) returns (reply: Reply)
      modifies this, conn
      ensures Value() == Exchange(old(Value()), line) && reply == At(old(replies), 0) && code == reply.code
    {
      conn.Send(line);
      reply := ReadReply();
    }

    /** `smtp_initiate`. */
    method MailFrom(from: Option<Text>) returns (verdict: Verdict)
      modifies this, conn
      ensures (Value(), verdict) == Initiate(old(Value()), from)
    {
      var reply := Ask(MAIL_FROM + Sender(from) + PATH_END);
      if reply == Code(250) {
        verdict := Accepted;
      } else {
        verdict := if Permanent(code) then Rejected else Deferred;
      }
    }

    /** `smtp_rcpt`. */
    method RcptTo(path: Text) returns (verdict: Verdict)
      modifies this, conn
      ensures (Value(), verdict) == Rcpt(old(Value()), path)
    {
      var reply := Ask(RCPT_TO + path + PATH_END);
      verdict := Judged(reply);
    }

    /** `smtp_data`. */
    method DataPhase(data: Text) returns (verdict: Verdict)
      modifies this, conn
      ensures (Value(), verdict) == SendData(old(Value()), data)
    {
      hide Wire;
      var reply := Ask(DATA);
      if reply != Code(354) {
        return Rejected;
      }
      SendBody(conn, data);
      reply := ReadReply();
      verdict := Judged(reply);
    }
  }

  /** `MAIL`: a transaction with the status of each recipient. */
  class Delivery {
    const tx: Transaction
    const status: array<Status>

    ghost predicate Valid()
    {
      status.Length == |tx.ids|
    }

    /** As `mail_dbread` leaves it. */
    constructor (tx: Transaction)
      ensures Valid() && this.tx == tx && fresh(status) && status[..] == AllReady(|tx.ids|)
    {
      this.tx := tx;
      status := new Status[|tx.ids|](i => Ready);
    }

    /** One recipient of the loop in `mail_dispatch`. */
    method OneRecipient(db: Outbox, smtp: Smtp, i: nat)
      requires Valid() && i < |tx.ids|
      modifies db, smtp, smtp.conn, status
      ensures (db.Value(), smtp.Value(), status[i]) == Recipient(old(db.Value()), old(smtp.Value()), tx.ids[i])
      ensures forall k :: 0 <= k < status.Length && k != i ==> status[k] == old(status[k])
    {
      var id := tx.ids[i];
      if id !in db.outbox {
        status[i] := FailPermanent;
        return;
      }
      var verdict := smtp.RcptTo(db.outbox[id].to);
      match verdict {
        case Rejected =>
          db.MailFailure(id, true);
          status[i] := FailPermanent;
        case Accepted => status[i] := Ok;
        case Deferred =>
          db.MailFailure(id, false);
          status[i] := FailTemporary;
      }
    }

    /** The recipient loop. `accepted` is `continue_data`. */
    method AllRecipients(db: Outbox, smtp: Smtp) returns (accepted: bool)
      requires Valid()
      modifies db, smtp, smtp.conn, status
      ensures Progress(db.Value(), smtp.Value(), status[..])
           == Recipients(old(db.Value()), old(smtp.Value()), tx.ids, |tx.ids|)
      ensures accepted <==> Ok in status[..]
    {
      hide Recipient;
      accepted := false;
      var i := 0;
      while i < |tx.ids|
        invariant 0 <= i <= |tx.ids|
        invariant Progress(db.Value(), smtp.Value(), status[..i])
               == Recipients(old(db.Value()), old(smtp.Value()), tx.ids, i)
        invariant accepted <==> Ok in status[..i]
      {
        ghost var before := status[..i];
        OneRecipient(db, smtp, i);
        assert status[..i + 1] == before + [status[i]];
        accepted := accepted || status[i].Ok?;
        i := i + 1;
      }
      assert status[..i] == status[..];
    }

    /** The data was not taken. */
    method FailAll(db: Outbox, fatal: bool)
      requires Valid()
      modifies db, status
      ensures (db.Value(), status[..]) == FailAccepted(old(db.Value()), old(status[..]), tx.ids, fatal, |tx.ids|)
    {
      hide LogFailure;
      ghost var was, rows := status[..], db.Value();
      var i := 0;
      while i < |tx.ids|
        invariant 0 <= i <= |tx.ids|
        invariant (db.Value(), status[..]) == FailAccepted(rows, was, tx.ids, fatal, i)
      {
        if status[i].Ok? {
          ghost var before := status[..];
          db.MailFailure(tx.ids[i], fatal);
          status[i] := if fatal then FailPermanent else FailTemporary;
          assert status[..] == before[i := status[i]];
        }
        i := i + 1;
      }
    }

    /** `mail_dispatch`. `permanent` says what is left `Ready` fails for good. */
    method MailDispatch(db: Outbox, smtp: Smtp) returns (permanent: bool)
      requires Valid() && status[..] == AllReady(|tx.ids|)
      modifies db, smtp, smtp.conn, status
      ensures (Progress(db.Value(), smtp.Value(), status[..]), permanent) ==
              Dispatch(old(db.Value()), old(smtp.Value()), tx)
    {
      hide Initiate, Recipients, SendData, FailAccepted;
      var verdict := smtp.MailFrom(tx.from);
      match verdict {
        case Rejected => return true;
        case Deferred => return false;
        case Accepted =>
      }
      var accepted := AllRecipients(db, smtp);
      if !accepted {
        return false;
      }
      var taken := smtp.DataPhase(tx.data);
      if taken.Accepted? {
        return false;
      }
      permanent := taken.Rejected?;
      FailAll(db, permanent);
    }

    method SettleRecipient(db: Outbox, i: nat, permanent: bool)
      requires Valid() && i < |tx.ids|
      modifies db
      ensures db.Value() == SettleOne(old(db.Value()), tx.ids[i], status[i], permanent)
    {
      match status[i] {
        case Ok => db.MailDelete(tx.ids[i]);
        case Ready => db.MailFailure(tx.ids[i], permanent);
        case _ =>
      }
    }

    /** `logic_handle_transaction`. */
    method HandleTransaction(db: Outbox, smtp: Smtp)
      requires Valid() && status[..] == AllReady(|tx.ids|)
      modifies db, smtp, smtp.conn, status
      ensures (db.Value(), smtp.Value()) == Handle(old(db.Value()), old(smtp.Value()), tx)
    {
      hide Dispatch, SettleOne, Exchange;
      var permanent := MailDispatch(db, smtp);
      var _ := smtp.Ask(RSET);
      ghost var rows, final := db.Value(), status[..];
      var i := 0;
      while i < |tx.ids|
        invariant 0 <= i <= |tx.ids| && status[..] == final
        invariant smtp.Value() == Exchange(Dispatch(old(db.Value()), old(smtp.Value()), tx).0.peer, RSET)
        invariant db.Value() == Settle(rows, final, tx.ids, permanent, i)
      {
        SettleRecipient(db, i, permanent);
        i := i + 1;
      }
    }
  }

  /** The delivery loop of `logic_handle_remote`. */
  method DeliverAll(db: Outbox, smtp: Smtp, txs: seq<Transaction>)
    modifies db, smtp, smtp.conn
    ensures (db.Value(), smtp.Value()) == HandleAll(old(db.Value()), old(smtp.Value()), txs, |txs|)
  {
    hide Handle;
    var c := 0;
    while c < |txs|
      invariant 0 <= c <= |txs|
      invariant (db.Value(), smtp.Value()) == HandleAll(old(db.Value()), old(smtp.Value()), txs, c)
    {
      var mail := new Delivery(txs[c]);
      mail.HandleTransaction(db, smtp);
      c := c + 1;
    }
  }

  method FailTransaction(db: Outbox, ids: seq<nat>, fatal: bool)
    modifies db
    ensures db.Value() == LogAll(old(db.Value()), ids, fatal, |ids|)
  {
    var c := 0;
    while c < |ids|
      invariant 0 <= c <= |ids| && db.Value() == LogAll(old(db.Value()), ids, fatal, c)
    {
      db.MailFailure(ids[c], fatal);
      c := c + 1;
    }
  }

  /** `logic_handle_remote`: what became of the attempts to connect is a parameter. */
  method HandleRemote(db: Outbox, txs: seq<Transaction>, reach: Reach)
    modifies db
    ensures db.Value() == Deliver(old(db.Value()), txs, reach)
  {
    hide HandleAll, LogAll;
    match reach {
      case Skipped =>
      case Reached(peer) =>
        var smtp := new Smtp(peer);
        DeliverAll(db, smtp, txs);
      case Unreachable(fatal) =>
        var i := 0;
        while i < |txs|
          invariant 0 <= i <= |txs| && db.Value() == LogTransactions(old(db.Value()), txs, fatal, i)
        {
          FailTransaction(db, txs[i].ids, fatal);
          i := i + 1;
        }
    }
  }

  /** The loop that inserts one bounce to the sender and one to each further address:
      the address to use next is bound at the end of each round. */
  method InsertBounces(db: Outbox, m: Mail, bounceTo: seq<Text>, notice: Text)
    requires m.from.Some?
    modifies db
    ensures var mails := BouncesFor(m, bounceTo, notice);
            db.Value() == InsertAll(old(db.Value()), mails, |mails|)
  {
    ghost var mails := BouncesFor(m, bounceTo, notice);
    var i := 0;
    var to := m.from.value;
    db.InsertRow(Mail(None, None, to, notice + m.data));
    assert InsertAll(old(db.Value()), mails, 1) == Insert(InsertAll(old(db.Value()), mails, 0), mails[0]);
    while i < |bounceTo|
      invariant 0 <= i <= |bounceTo|
      invariant db.Value() == InsertAll(old(db.Value()), mails, i + 1)
    {
      to := bounceTo[i];
      db.InsertRow(Mail(None, None, to, notice + m.data));
      assert mails[i + 1] == Mail(None, None, to, notice + m.data);
      i := i + 1;
    }
  }

  /** `logic_generate_bounces`. */
  method GenerateBounces(db: Outbox, cands: seq<nat>, bounceTo: seq<Text>, notices: nat -> Text)
    modifies db
    ensures db.Value() == Bounce(old(db.Value()), cands, bounceTo, notices, |cands|)
  {
    hide InsertAll, Delete;
    var i := 0;
    while i < |cands|
      invariant 0 <= i <= |cands| && db.Value() == Bounce(old(db.Value()), cands, bounceTo, notices, i)
    {
      if cands[i] in db.outbox {
        BounceMail(db, cands[i], bounceTo, notices(cands[i]));
      }
      i := i + 1;
    }
  }

  /** One candidate: a bounce is not bounced. */
  method BounceMail(db: Outbox, id: nat, bounceTo: seq<Text>, notice: Text)
    requires id in db.outbox
    modifies db
    ensures db.Value() == BounceOne(old(db.Value()), id, bounceTo, notice)
  {
    hide Delete;
    var m := db.outbox[id];
    if m.from.None? {
      db.MailDelete(id);
    } else {
      InsertBounces(db, m, bounceTo, notice);
      db.MailDelete(id);
    }
  }

  /** One interval of `logic_loop_hosts`. */
  method LoopHosts(db: Outbox, iv: Interval, cfg: Settings)
    modifies db
    ensures db.Value() == Play(old(db.Value()), iv, cfg)
  {
    hide Deliver, Insert, Bounce;
    var u := 0;
    while u < |iv.items|
      invariant 0 <= u <= |iv.items| && db.Value() == Items(old(db.Value()), iv.items, u)
    {
      match iv.items[u] {
        case Visit(_, txs, reach) => HandleRemote(db, txs, reach);
        case Submit(mail) => db.InsertRow(mail);
      }
      u := u + 1;
    }
    GenerateBounces(db, iv.cands, cfg.bounceTo, iv.notices);
  }
}
