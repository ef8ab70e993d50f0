/** The outbound queue: the `outbox` and `faillog` tables, one SMTP transaction of
    the dispatch daemon, and what becomes of every recipient of it. */
module OutboundQueue {
  import opened Bytes
  import opened DotStuffing

  type Text = seq<byte>

  datatype Mail = Mail(remote: Option<Text>, from: Option<Text>, to: Text, data: Text)

  datatype Failure = Failure(mail: nat, fatal: bool)

  /** A recipient is an outbox row of its own. Rows of the failure log go with it. */
  datatype Queue = Queue(outbox: map<nat, Mail>, faillog: multiset<Failure>, nextId: nat)

  /** The columns `mail_failcount` and `mail_fatality` of the `outbound` view. */
  function Failcount(q: Queue, id: nat): nat { q.faillog[Failure(id, true)] + q.faillog[Failure(id, false)] }
  function Fatality(q: Queue, id: nat): nat { q.faillog[Failure(id, true)] }

  /** `mail_failure`: the foreign key refuses rows for mail that is gone. */
  function LogFailure(q: Queue, id: nat, fatal: bool): Queue {
    if id in q.outbox then q.(faillog := q.faillog + multiset{Failure(id, fatal)}) else q
  }

  /** `mail_delete`, with the cascade. */
  function Delete(q: Queue, id: nat): Queue {
    q.(outbox := q.outbox - {id}, faillog := q.faillog[Failure(id, true) := 0][Failure(id, false) := 0])
  }

  // ------------------------------------------------------------ the peer

  /** A whole reply, or one that is lost: reading begins with code 0, and the lines of a
      reply read before it was lost set the code. */
  datatype Reply = Lost(code: nat) | Code(code: nat)

  /** A peer: the replies to come, and what it was sent. */
  datatype Peer = Peer(replies: seq<Reply>, sent: seq<byte>)

  datatype Verdict = Accepted | Deferred | Rejected

  /** Reply `i`, where a peer that has no more to say is lost. */
  function At(replies: seq<Reply>, i: nat): Reply { if i < |replies| then replies[i] else Lost(0) }

  function Behind(replies: seq<Reply>, i: nat): seq<Reply> { if i < |replies| then replies[i..] else [] }

  /** A line is sent and the reply read. */
  function Exchange(p: Peer, line: seq<byte>): Peer { Peer(Behind(p.replies, 1), p.sent + line) }

  const MAIL_FROM: seq<byte> := Ascii("MAIL FROM:<")
  const RCPT_TO: seq<byte> := Ascii("RCPT TO:<")
  const PATH_END: seq<byte> := Ascii(">\r\n")
  const DATA: seq<byte> := Ascii("DATA\r\n")
  const RSET: seq<byte> := Ascii("RSET\r\n")

  predicate Permanent(code: nat) { 500 <= code <= 599 }
  predicate Temporary(code: nat) { 400 <= code <= 499 }

  function Sender(from: Option<Text>): Text { if from.Some? then from.value else [] }

  /** `smtp_initiate`. */
  function Initiate(p: Peer, from: Option<Text>): (Peer, Verdict) {
    var p' := Exchange(p, MAIL_FROM + Sender(from) + PATH_END);
    (p', if At(p.replies, 0) == Code(250) then Accepted
         else if Permanent(At(p.replies, 0).code) then Rejected
         else Deferred)
  }

  /** How `smtp_rcpt` and the end of `smtp_data` judge a reply. */
  function Judged(r: Reply): Verdict {
    if r.Lost? then Deferred
    else if r.code == 250 then Accepted
    else if Temporary(r.code) then Deferred
    else Rejected
  }

  function Rcpt(p: Peer, path: Text): (Peer, Verdict) {
    (Exchange(p, RCPT_TO + path + PATH_END), Judged(At(p.replies, 0)))
  }

  function SendData(p: Peer, data: Text): (Peer, Verdict) {
    var asked := Exchange(p, DATA);
    if At(p.replies, 0) != Code(354) then (asked, Rejected)
    else (Exchange(asked, Wire(data)), Judged(At(asked.replies, 0)))
  }

  // ------------------------------------------------------------ a transaction

  /** Mail with the same data and sender, for several recipients. */
  datatype Transaction = Transaction(from: Option<Text>, data: Text, ids: seq<nat>)

  datatype Status = Ready | Ok | FailTemporary | FailPermanent

  /** The state of a transaction: tables, peer, one status per recipient dealt with. */
  datatype Progress = Progress(queue: Queue, peer: Peer, status: seq<Status>)

  function Recipient(q: Queue, p: Peer, id: nat): (Queue, Peer, Status) {
    if id !in q.outbox then (q, p, FailPermanent)
    else
      var (p', verdict) := Rcpt(p, q.outbox[id].to);
      match verdict
      case Rejected => (LogFailure(q, id, true), p', FailPermanent)
      case Accepted => (q, p', Ok)
      case Deferred => (LogFailure(q, id, false), p', FailTemporary)
  }

  /** The recipient loop of `mail_dispatch`, up to recipient `i`. */
  function Recipients(q: Queue, p: Peer, ids: seq<nat>, i: nat): (r: Progress)
    requires i <= |ids|
    ensures |r.status| == i
  {
    if i == 0 then Progress(q, p, [])
    else
      var before := Recipients(q, p, ids, i - 1);
      var (q', p', status) := Recipient(before.queue, before.peer, ids[i - 1]);
      Progress(q', p', before.status + [status])
  }

  /** The last loop of `mail_dispatch`, up to recipient `i`: the data was not taken. */
  function FailAccepted(q: Queue, status: seq<Status>, ids: seq<nat>, fatal: bool, i: nat): (r: (Queue, seq<Status>))
    requires |status| == |ids| && i <= |ids|
    ensures |r.1| == |ids|
    ensures forall k :: i <= k < |ids| ==> r.1[k] == status[k]
  {
    if i == 0 then (q, status)
    else
      var (q', s') := FailAccepted(q, status, ids, fatal, i - 1);
      if status[i - 1].Ok? then
        (LogFailure(q', ids[i - 1], fatal), s'[i - 1 := if fatal then FailPermanent else FailTemporary])
      else (q', s')
  }

  function AllReady(n: nat): (r: seq<Status>)
    ensures |r| == n && forall k :: 0 <= k < n ==> r[k] == Ready
  {
    seq(n, k => Ready)
  }

  /** `mail_dispatch`: the second result says that what is left `Ready` fails for good. */
  function Dispatch(q: Queue, p: Peer, tx: Transaction): (r: (Progress, bool))
    ensures |r.0.status| == |tx.ids|
  {
    var (p', verdict) := Initiate(p, tx.from);
    if !verdict.Accepted? then (Progress(q, p', AllReady(|tx.ids|)), verdict.Rejected?)
    else
      var done := Recipients(q, p', tx.ids, |tx.ids|);
      if Ok !in done.status then (done, false)
      else
        var (p'', taken) := SendData(done.peer, tx.data);
        if taken.Accepted? then (done.(peer := p''), false)
        else
          var (q', status) := FailAccepted(done.queue, done.status, tx.ids, taken.Rejected?, |tx.ids|);
          (Progress(q', p'', status), taken.Rejected?)
  }

  function SettleOne(q: Queue, id: nat, status: Status, fatal: bool): Queue {
    match status
    case Ok => Delete(q, id)
    case Ready => LogFailure(q, id, fatal)
    case _ => q
  }

  /** The loop of `logic_handle_transaction`, up to recipient `i`. */
  function Settle(q: Queue, status: seq<Status>, ids: seq<nat>, fatal: bool, i: nat): Queue
    requires |status| == |ids| && i <= |ids|
  {
    if i == 0 then q else SettleOne(Settle(q, status, ids, fatal, i - 1), ids[i - 1], status[i - 1], fatal)
  }

  /** `logic_handle_transaction`. */
  function Handle(q: Queue, p: Peer, tx: Transaction): (Queue, Peer) {
    var (done, fatal) := Dispatch(q, p, tx);
    (Settle(done.queue, done.status, tx.ids, fatal, |tx.ids|), Exchange(done.peer, RSET))
  }

  // ------------------------------------------------------------ the reference

  ghost predicate Distinct(ids: seq<nat>) {
    forall j, k :: 0 <= j < k < |ids| ==> ids[j] != ids[k]
  }

  /** How many of the first `k` recipients exist, and so are named to the peer. */
  function Present(outbox: map<nat, Mail>, ids: seq<nat>, k: nat): (n: nat)
    requires k <= |ids|
    ensures n <= k
  {
    if k == 0 then 0 else Present(outbox, ids, k - 1) + if ids[k - 1] in outbox then 1 else 0
  }

  datatype Fate = Delivered | Failed(fatal: bool)

  /** What the replies alone say about a recipient that answers to RCPT number `k`
      of `n`: the replies are to MAIL, the RCPTs, DATA and the final dot. */
  function FateOf(replies: seq<Reply>, k: nat, n: nat): Fate {
    var (mail, rcpt, data, dot) := (At(replies, 0), At(replies, 1 + k), At(replies, 1 + n), At(replies, 2 + n));
    if mail != Code(250) then Failed(Permanent(mail.code))
    else if rcpt != Code(250) then Failed(rcpt.Code? && !Temporary(rcpt.code))
    else if data != Code(354) then Failed(true)
    else if dot != Code(250) then Failed(dot.Code? && !Temporary(dot.code))
    else Delivered
  }

  /** The rows of `id` in the failure log, `fatal` the one that is new, if any. */
  ghost predicate Logged(q: Queue, q': Queue, id: nat, fatal: Option<bool>) {
    forall b :: q'.faillog[Failure(id, b)] == q.faillog[Failure(id, b)] + if fatal == Some(b) then 1 else 0
  }

  /** The row of `id` is kept, and `fatal` is logged for it. */
  ghost predicate Kept(q: Queue, q': Queue, id: nat, fatal: Option<bool>) {
    && (id in q.outbox <==> id in q'.outbox) && (id in q.outbox ==> q'.outbox[id] == q.outbox[id])
    && Logged(q, q', id, fatal)
  }

  // ------------------------------------------------------------ the loops

  /** The status recipient `k` gets from its RCPT. */
  function RcptStatus(outbox: map<nat, Mail>, replies: seq<Reply>, ids: seq<nat>, k: nat): Status
    requires k < |ids|
  {
    if ids[k] !in outbox then FailPermanent
    else
      match Judged(At(replies, Present(outbox, ids, k)))
      case Accepted => Ok
      case Deferred => FailTemporary
      case Rejected => FailPermanent
  }

  /** The row a status from RCPT stands for. */
  function RcptRow(present: bool, status: Status): Option<bool> {
    if present && status.FailPermanent? then Some(true)
    else if present && status.FailTemporary? then Some(false)
    else None
  }

  lemma BehindNone(replies: seq<Reply>)
    ensures Behind(replies, 0) == replies
  {
  }

  lemma BehindAt(replies: seq<Reply>, i: nat, k: nat)
    ensures At(Behind(replies, i), k) == At(replies, i + k)
    ensures Behind(Behind(replies, i), k) == Behind(replies, i + k)
  {
  }

  lemma KeptThen(a: Queue, b: Queue, c: Queue, id: nat, f: Option<bool>, g: Option<bool>)
    requires Kept(a, b, id, f) && Kept(b, c, id, g) && (f.None? || g.None?)
    ensures Kept(a, c, id, if f.None? then g else f)
  {
  }

  lemma RecipientStep(q: Queue, p: Peer, id: nat)
    ensures var (q', p', status) := Recipient(q, p, id);
            && q'.outbox == q.outbox && q'.nextId == q.nextId
            && Kept(q, q', id, RcptRow(id in q.outbox, status))
            && forall other :: other != id ==> Kept(q, q', other, None)
  {
  }

  /** What the recipient loop has done to the tables by recipient `i`. */
  ghost predicate RcptRows(q: Queue, q': Queue, ids: seq<nat>, i: nat, status: seq<Status>)
    requires i <= |ids| && i <= |status|
  {
    && q'.outbox == q.outbox && q'.nextId == q.nextId
    && (forall k :: 0 <= k < i ==> Kept(q, q', ids[k], RcptRow(ids[k] in q.outbox, status[k])))
    && forall id :: id !in ids[..i] ==> Kept(q, q', id, None)
  }

  /** One more recipient. */
  lemma RcptRowsNext(q: Queue, q': Queue, p: Peer, ids: seq<nat>, i: nat, status: seq<Status>)
    requires i < |ids| && |status| == i && Distinct(ids) && RcptRows(q, q', ids, i, status)
    ensures var (q'', p'', next) := Recipient(q', p, ids[i]);
            RcptRows(q, q'', ids, i + 1, status + [next])
  {
    hide Recipient, Kept, RcptRow;
    var id := ids[i];
    assert id !in ids[..i];
    RecipientStep(q', p, id);
    var (q'', p'', next) := Recipient(q', p, id);
    KeptThen(q, q', q'', id, None, RcptRow(id in q.outbox, next));
    forall k | 0 <= k < i ensures Kept(q, q'', ids[k], RcptRow(ids[k] in q.outbox, status[k])) {
      KeptThen(q, q', q'', ids[k], RcptRow(ids[k] in q.outbox, status[k]), None);
    }
    forall other | other !in ids[..i + 1] ensures Kept(q, q'', other, None) {
      assert ids[..i + 1] == ids[..i] + [id];
      KeptThen(q, q', q'', other, None, None);
    }
  }

  lemma {:induction false} RecipientsRows(q: Queue, p: Peer, ids: seq<nat>, i: nat)
    requires i <= |ids| && Distinct(ids)
    ensures var r := Recipients(q, p, ids, i); RcptRows(q, r.queue, ids, i, r.status)
  {
    hide Recipient, RcptRows;
    if i == 0 {
      NoRows(q, ids);
    } else {
      RecipientsRows(q, p, ids, i - 1);
      var r := Recipients(q, p, ids, i - 1);
      RcptRowsNext(q, r.queue, r.peer, ids, i - 1, r.status);
    }
  }

  lemma NoRows(q: Queue, ids: seq<nat>)
    ensures RcptRows(q, q, ids, 0, [])
  {
  }

  lemma RecipientReply(q: Queue, p: Peer, id: nat)
    ensures var (q', p', status) := Recipient(q, p, id);
            if id in q.outbox then
              && p'.replies == Behind(p.replies, 1)
              && status == match Judged(At(p.replies, 0))
                           case Accepted => Ok
                           case Deferred => FailTemporary
                           case Rejected => FailPermanent
            else p' == p && status == FailPermanent
  {
  }

  /** The replies are used in order, one for each recipient that exists. */
  lemma {:induction false} RecipientsReplies(q: Queue, p: Peer, ids: seq<nat>, i: nat)
    requires i <= |ids| && Distinct(ids)
    ensures var r := Recipients(q, p, ids, i);
            && r.peer.replies == Behind(p.replies, Present(q.outbox, ids, i))
            && forall k :: 0 <= k < i ==> r.status[k] == RcptStatus(q.outbox, p.replies, ids, k)
  {
    hide RcptRows, Recipient, Judged, Behind, At;
    if i == 0 {
      BehindNone(p.replies);
    } else {
      RecipientsReplies(q, p, ids, i - 1);
      RecipientsOutbox(q, p, ids, i - 1);
      var r := Recipients(q, p, ids, i - 1);
      RecipientReply(r.queue, r.peer, ids[i - 1]);
      BehindAt(p.replies, Present(q.outbox, ids, i - 1), 0);
      BehindAt(p.replies, Present(q.outbox, ids, i - 1), 1);
    }
  }

  lemma RecipientsOutbox(q: Queue, p: Peer, ids: seq<nat>, i: nat)
    requires i <= |ids| && Distinct(ids)
    ensures Recipients(q, p, ids, i).queue.outbox == q.outbox
  {
    RecipientsRows(q, p, ids, i);
  }

  /** The row for a recipient whose mail was not taken after all. */
  function DataRow(present: bool, status: Status, fatal: bool): Option<bool> {
    if present && status.Ok? then Some(fatal) else None
  }

  ghost predicate DataRows(q: Queue, q': Queue, ids: seq<nat>, i: nat, status: seq<Status>, fatal: bool)
    requires i <= |ids| && |status| == |ids|
  {
    && q'.outbox == q.outbox && q'.nextId == q.nextId
    && (forall k :: 0 <= k < i ==> Kept(q, q', ids[k], DataRow(ids[k] in q.outbox, status[k], fatal)))
    && forall id :: id !in ids[..i] ==> Kept(q, q', id, None)
  }

  lemma LogStep(q: Queue, id: nat, fatal: bool)
    ensures var q' := LogFailure(q, id, fatal);
            && q'.outbox == q.outbox && q'.nextId == q.nextId
            && Kept(q, q', id, if id in q.outbox then Some(fatal) else None)
            && forall other :: other != id ==> Kept(q, q', other, None)
  {
  }

  lemma KeptSame(q: Queue)
    ensures forall id :: Kept(q, q, id, None)
  {
  }

  lemma DataRowsNext(q: Queue, q': Queue, ids: seq<nat>, i: nat, status: seq<Status>, fatal: bool)
    requires i < |ids| && |status| == |ids| && Distinct(ids) && DataRows(q, q', ids, i, status, fatal)
    ensures DataRows(q, if status[i].Ok? then LogFailure(q', ids[i], fatal) else q', ids, i + 1, status, fatal)
  {
    hide LogFailure, Kept;
    var id := ids[i];
    var q'' := if status[i].Ok? then LogFailure(q', id, fatal) else q';
    assert id !in ids[..i];
    LogStep(q', id, fatal);
    KeptSame(q');
    KeptThen(q, q', q'', id, None, DataRow(id in q.outbox, status[i], fatal));
    forall k | 0 <= k < i ensures Kept(q, q'', ids[k], DataRow(ids[k] in q.outbox, status[k], fatal)) {
      KeptThen(q, q', q'', ids[k], DataRow(ids[k] in q.outbox, status[k], fatal), None);
    }
    forall other | other !in ids[..i + 1] ensures Kept(q, q'', other, None) {
      assert ids[..i + 1] == ids[..i] + [id];
      KeptThen(q, q', q'', other, None, None);
    }
  }

  lemma {:induction false} FailAcceptedRows(q: Queue, status: seq<Status>, ids: seq<nat>, fatal: bool, i: nat)
    requires |status| == |ids| && i <= |ids| && Distinct(ids)
    ensures var (q', s') := FailAccepted(q, status, ids, fatal, i);
            && DataRows(q, q', ids, i, status, fatal)
            && forall k :: 0 <= k < i ==>
                 s'[k] == if status[k].Ok? then (if fatal then FailPermanent else FailTemporary) else status[k]
  {
    hide DataRows, LogFailure;
    if i == 0 {
      NoDataRows(q, ids, status, fatal);
    } else {
      FailAcceptedRows(q, status, ids, fatal, i - 1);
      DataRowsNext(q, FailAccepted(q, status, ids, fatal, i - 1).0, ids, i - 1, status, fatal);
    }
  }

  lemma NoDataRows(q: Queue, ids: seq<nat>, status: seq<Status>, fatal: bool)
    requires |status| == |ids|
    ensures DataRows(q, q, ids, 0, status, fatal)
  {
  }

  // ------------------------------------------------------------ settling

  /** The mail is gone, and the rows about it. */
  ghost predicate Removed(q: Queue, id: nat) {
    id !in q.outbox && Failcount(q, id) == 0
  }

  /** What settling does for one recipient. */
  ghost predicate Settled(q: Queue, q': Queue, id: nat, status: Status, fatal: bool) {
    match status
    case Ok => Removed(q', id)
    case Ready => Kept(q, q', id, if id in q.outbox then Some(fatal) else None)
    case _ => Kept(q, q', id, None)
  }

  lemma SettleStep(q: Queue, id: nat, status: Status, fatal: bool)
    ensures Settled(q, SettleOne(q, id, status, fatal), id, status, fatal)
    ensures SettleOne(q, id, status, fatal).nextId == q.nextId
    ensures forall other :: other != id ==> Kept(q, SettleOne(q, id, status, fatal), other, None)
  {
  }

  lemma SettledThen(q: Queue, a: Queue, b: Queue, id: nat, status: Status, fatal: bool)
    requires Settled(q, a, id, status, fatal) && Kept(a, b, id, None)
    ensures Settled(q, b, id, status, fatal)
  {
  }

  lemma KeptSettled(q: Queue, a: Queue, b: Queue, id: nat, status: Status, fatal: bool)
    requires Kept(q, a, id, None) && Settled(a, b, id, status, fatal)
    ensures Settled(q, b, id, status, fatal)
  {
  }

  lemma {:induction false} SettleRows(q: Queue, status: seq<Status>, ids: seq<nat>, fatal: bool, i: nat)
    requires |status| == |ids| && i <= |ids| && Distinct(ids)
    ensures var q' := Settle(q, status, ids, fatal, i);
            && q'.nextId == q.nextId
            && (forall k :: 0 <= k < i ==> Settled(q, q', ids[k], status[k], fatal))
            && forall id :: id !in ids[..i] ==> Kept(q, q', id, None)
  {
    hide Kept, Settled, SettleOne;
    if i == 0 {
      KeptSame(q);
    } else {
      SettleRows(q, status, ids, fatal, i - 1);
      var q', q'' := Settle(q, status, ids, fatal, i - 1), Settle(q, status, ids, fatal, i);
      var id := ids[i - 1];
      assert id !in ids[..i - 1];
      SettleStep(q', id, status[i - 1], fatal);
      KeptSettled(q, q', q'', id, status[i - 1], fatal);
      forall k | 0 <= k < i - 1 ensures Settled(q, q'', ids[k], status[k], fatal) {
        SettledThen(q, q', q'', ids[k], status[k], fatal);
      }
      forall other | other !in ids[..i] ensures Kept(q, q'', other, None) {
        assert ids[..i] == ids[..i - 1] + [id];
        KeptThen(q, q', q'', other, None, None);
      }
    }
  }

  // ------------------------------------------------------------ accounting

  /** What the dispatch of a transaction leaves for settling, recipient by recipient:
      a status and at most one new row. */
  ghost predicate Dispatched(q: Queue, q': Queue, id: nat, status: Status, fatal: bool, fate: Fate) {
    match fate
    case Delivered => status.Ok? && Kept(q, q', id, None)
    case Failed(f) =>
      || (status.Ready? && f == fatal && Kept(q, q', id, None))
      || ((status.FailPermanent? || status.FailTemporary?) && Kept(q, q', id, Some(f)))
  }

  /** The fate of recipient `k`, when MAIL is the next command. */
  function Fates(q: Queue, p: Peer, ids: seq<nat>, k: nat): Fate
    requires k < |ids|
  {
    FateOf(p.replies, Present(q.outbox, ids, k), Present(q.outbox, ids, |ids|))
  }

  /** For every sequence of replies and any distinct recipients: each that exists is
      deleted, with its log, if MAIL, its RCPT, DATA and the final dot were all
      answered as they should; otherwise it stays and exactly one row is logged. */
  lemma Accounting(q: Queue, p: Peer, tx: Transaction, k: nat)
    requires Distinct(tx.ids) && k < |tx.ids| && tx.ids[k] in q.outbox
    ensures var q' := Handle(q, p, tx).0;
            match Fates(q, p, tx.ids, k)
            case Delivered => Removed(q', tx.ids[k])
            case Failed(fatal) => Kept(q, q', tx.ids[k], Some(fatal))
  {
    hide FateOf, Dispatch, Settle;
    var (done, fatal) := Dispatch(q, p, tx);
    var id := tx.ids[k];
    DispatchRows(q, p, tx, k);
    SettleRows(done.queue, done.status, tx.ids, fatal, |tx.ids|);
    assert Settled(done.queue, Handle(q, p, tx).0, id, done.status[k], fatal);
  }

  /** Reply `i` of a peer that falls silent after its last one. */
  function Heard(p: Peer, i: nat): Reply { if i < |p.replies| then p.replies[i] else Lost(0) }

  /** The same by the codes alone. MAIL: 250 goes on, 500 to 599 fails for good, anything
      else, or nothing, for now. RCPT and the final dot: 250 is success, 400 to 499 or
      nothing fails for now, anything else for good. DATA: what is not 354 fails for good. */
  lemma RepliesDecide(q: Queue, p: Peer, tx: Transaction, k: nat)
    requires Distinct(tx.ids) && k < |tx.ids| && tx.ids[k] in q.outbox
    ensures var (id, q') := (tx.ids[k], Handle(q, p, tx).0);
            var (r, n) := (Present(q.outbox, tx.ids, k), Present(q.outbox, tx.ids, |tx.ids|));
            var (mail, rcpt, data, dot) := (Heard(p, 0), Heard(p, 1 + r), Heard(p, 1 + n), Heard(p, 2 + n));
            if mail != Code(250) then Kept(q, q', id, Some(500 <= mail.code <= 599))
            else if rcpt != Code(250) then Kept(q, q', id, Some(rcpt.Code? && !(400 <= rcpt.code <= 499)))
            else if data != Code(354) then Kept(q, q', id, Some(true))
            else if dot != Code(250) then Kept(q, q', id, Some(dot.Code? && !(400 <= dot.code <= 499)))
            else Removed(q', id)
  {
    hide Handle, Kept, Removed, Present;
    Accounting(q, p, tx, k);
  }

  lemma DispatchRows(q: Queue, p: Peer, tx: Transaction, k: nat)
    requires Distinct(tx.ids) && k < |tx.ids| && tx.ids[k] in q.outbox
    ensures var (done, fatal) := Dispatch(q, p, tx);
            Dispatched(q, done.queue, tx.ids[k], done.status[k], fatal, Fates(q, p, tx.ids, k))
  {
    hide Recipients, RcptRows, FailAccepted, DataRows, Present, Kept, At, Behind, SendData;
    var ids, n := tx.ids, Present(q.outbox, tx.ids, |tx.ids|);
    var (p', verdict) := Initiate(p, tx.from);
    KeptSame(q);
    if verdict.Accepted? {
      var r := Recipients(q, p', ids, |ids|);
      RecipientsReplies(q, p', ids, |ids|);
      RecipientsRows(q, p', ids, |ids|);
      RowOf(q, r.queue, ids, k, r.status);
      BehindAt(p.replies, 1, Present(q.outbox, ids, k));
      BehindAt(p.replies, 1, n);
      assert r.status[k] == RcptStatus(q.outbox, p'.replies, ids, k);
      if Ok in r.status {
        var (p'', taken) := SendData(r.peer, tx.data);
        DataVerdict(p.replies, n, r.peer, tx.data);
        if !taken.Accepted? {
          var q' := FailAccepted(r.queue, r.status, ids, taken.Rejected?, |ids|).0;
          DataRefused(q, r.queue, ids, r.status, taken.Rejected?, k);
        }
      }
    }
  }

  /** The verdict on the data is in the two replies behind those to the recipients. */
  lemma DataVerdict(replies: seq<Reply>, n: nat, peer: Peer, data: Text)
    requires peer.replies == Behind(replies, 1 + n)
    ensures SendData(peer, data).1 ==
            if At(replies, 1 + n) != Code(354) then Rejected else Judged(At(replies, 2 + n))
  {
    BehindAt(replies, 1 + n, 0);
    BehindAt(replies, 1 + n, 1);
    BehindAt(Behind(replies, 1 + n), 1, 0);
  }

  /** The data was refused: whoever had been accepted gets a row for that. */
  lemma DataRefused(q: Queue, q': Queue, ids: seq<nat>, status: seq<Status>, fatal: bool, k: nat)
    requires Distinct(ids) && k < |ids| == |status| && ids[k] in q.outbox && q'.outbox == q.outbox
    requires Kept(q, q', ids[k], RcptRow(true, status[k]))
    ensures var (q'', s'') := FailAccepted(q', status, ids, fatal, |ids|);
            if status[k].Ok? then
              Kept(q, q'', ids[k], Some(fatal)) && s''[k] == if fatal then FailPermanent else FailTemporary
            else Kept(q, q'', ids[k], RcptRow(true, status[k])) && s''[k] == status[k]
  {
    hide FailAccepted, DataRows, Kept;
    FailAcceptedRows(q', status, ids, fatal, |ids|);
    var q'' := FailAccepted(q', status, ids, fatal, |ids|).0;
    DataRowOf(q', q'', ids, k, status, fatal);
    if status[k].Ok? {
      KeptThen(q, q', q'', ids[k], None, Some(fatal));
    } else {
      KeptThen(q, q', q'', ids[k], RcptRow(true, status[k]), None);
    }
  }

  lemma RowOf(q: Queue, q': Queue, ids: seq<nat>, k: nat, status: seq<Status>)
    requires k < |ids| == |status| && RcptRows(q, q', ids, |ids|, status)
    ensures Kept(q, q', ids[k], RcptRow(ids[k] in q.outbox, status[k])) && q'.outbox == q.outbox
  {
  }

  lemma DataRowOf(q: Queue, q': Queue, ids: seq<nat>, k: nat, status: seq<Status>, fatal: bool)
    requires k < |ids| == |status| && DataRows(q, q', ids, |ids|, status, fatal)
    ensures Kept(q, q', ids[k], DataRow(ids[k] in q.outbox, status[k], fatal))
  {
  }

  /** Mail that is not part of the transaction is left alone, and none is added. */
  lemma OthersKept(q: Queue, p: Peer, tx: Transaction, id: nat)
    requires Distinct(tx.ids) && id !in tx.ids
    ensures Kept(q, Handle(q, p, tx).0, id, None)
  {
    hide Kept, Dispatch, Settle;
    var (done, fatal) := Dispatch(q, p, tx);
    DispatchOthers(q, p, tx, id);
    SettleRows(done.queue, done.status, tx.ids, fatal, |tx.ids|);
    assert tx.ids[..|tx.ids|] == tx.ids;
    KeptThen(q, done.queue, Handle(q, p, tx).0, id, None, None);
  }

  lemma DispatchOthers(q: Queue, p: Peer, tx: Transaction, id: nat)
    requires Distinct(tx.ids) && id !in tx.ids
    ensures Kept(q, Dispatch(q, p, tx).0.queue, id, None)
  {
    hide Kept, Recipients, FailAccepted, SendData, Initiate;
    var ids := tx.ids;
    assert ids[..|ids|] == ids;
    KeptSame(q);
    var r := Recipients(q, Initiate(p, tx.from).0, ids, |ids|);
    RecipientsRows(q, Initiate(p, tx.from).0, ids, |ids|);
    forall fatal ensures Kept(q, FailAccepted(r.queue, r.status, ids, fatal, |ids|).0, id, None) {
      FailAcceptedRows(r.queue, r.status, ids, fatal, |ids|);
      KeptThen(q, r.queue, FailAccepted(r.queue, r.status, ids, fatal, |ids|).0, id, None, None);
    }
  }

  lemma HandleNextId(q: Queue, p: Peer, tx: Transaction)
    requires Distinct(tx.ids)
    ensures Handle(q, p, tx).0.nextId == q.nextId
  {
    hide Dispatch, Settle;
    var (done, fatal) := Dispatch(q, p, tx);
    DispatchNextId(q, p, tx);
    SettleRows(done.queue, done.status, tx.ids, fatal, |tx.ids|);
  }

  lemma DispatchNextId(q: Queue, p: Peer, tx: Transaction)
    requires Distinct(tx.ids)
    ensures Dispatch(q, p, tx).0.queue.nextId == q.nextId
  {
    hide Recipients, FailAccepted, SendData, Initiate, Kept;
    var ids := tx.ids;
    var r := Recipients(q, Initiate(p, tx.from).0, ids, |ids|);
    RecipientsRows(q, Initiate(p, tx.from).0, ids, |ids|);
    forall fatal ensures FailAccepted(r.queue, r.status, ids, fatal, |ids|).0.nextId == q.nextId {
      FailAcceptedRows(r.queue, r.status, ids, fatal, |ids|);
    }
  }

  /** The RCPT commands for the first `i` recipients: one for each that exists. */
  function RcptLines(outbox: map<nat, Mail>, ids: seq<nat>, i: nat): seq<byte>
    requires i <= |ids|
  {
    if i == 0 then []
    else
      RcptLines(outbox, ids, i - 1)
      + if ids[i - 1] in outbox then Ascii("RCPT TO:<") + outbox[ids[i - 1]].to + Ascii(">\r\n") else []
  }

  lemma {:induction false} RecipientsSent(q: Queue, p: Peer, ids: seq<nat>, i: nat)
    requires i <= |ids| && Distinct(ids)
    ensures Recipients(q, p, ids, i).peer.sent == p.sent + RcptLines(q.outbox, ids, i)
  {
    hide LogFailure, Judged;
    if i == 0 {
      assert p.sent + [] == p.sent;
    } else {
      RecipientsSent(q, p, ids, i - 1);
      RecipientsOutbox(q, p, ids, i - 1);
      var before := RcptLines(q.outbox, ids, i - 1);
      if ids[i - 1] in q.outbox {
        var line := RCPT_TO + q.outbox[ids[i - 1]].to + PATH_END;
        assert (p.sent + before) + line == p.sent + (before + line);
      } else {
        assert before + [] == before;
      }
    }
  }

  /** What was delivered had been offered and sent whole: MAIL with the sender, RCPT for
      every recipient that exists, DATA, and the dot-stuffed data. */
  lemma DeliveredWasSent(q: Queue, p: Peer, tx: Transaction, k: nat)
    requires Distinct(tx.ids) && k < |tx.ids| && tx.ids[k] in q.outbox && Fates(q, p, tx.ids, k).Delivered?
    ensures Dispatch(q, p, tx).0.peer.sent ==
            p.sent + (Ascii("MAIL FROM:<") + (if tx.from.Some? then tx.from.value else []) + Ascii(">\r\n"))
            + RcptLines(q.outbox, tx.ids, |tx.ids|) + Ascii("DATA\r\n") + Wire(tx.data)
  {
    hide Recipients, FailAccepted, Wire, Kept, FateOf, RcptLines;
    DispatchRows(q, p, tx, k);
    var (p', verdict) := Initiate(p, tx.from);
    if verdict.Accepted? {
      var r := Recipients(q, p', tx.ids, |tx.ids|);
      RecipientsSent(q, p', tx.ids, |tx.ids|);
      FailAcceptedRows(r.queue, r.status, tx.ids, SendData(r.peer, tx.data).1.Rejected?, |tx.ids|);
    }
  }

  /** A peer that falls silent at once fails nobody for good. */
  lemma LostMailIsTemporary(q: Queue, p: Peer, tx: Transaction, k: nat)
    requires Distinct(tx.ids) && k < |tx.ids| && tx.ids[k] in q.outbox && p.replies == []
    ensures Kept(q, Handle(q, p, tx).0, tx.ids[k], Some(false))
  {
    hide Handle, Kept;
    Accounting(q, p, tx, k);
  }

  /** Somebody's RCPT was answered 250, as reply number 1 and on. */
  ghost predicate SomeTaken(q: Queue, p: Peer, ids: seq<nat>) {
    exists k :: 0 <= k < |ids| && ids[k] in q.outbox && Heard(p, 1 + Present(q.outbox, ids, k)) == Code(250)
  }

  /** A transaction ends with RSET and leaves the peer in step: it has read one reply to MAIL,
      and if that was 250 one to every RCPT, if one of them was 250 one to DATA, if that was
      354 one to the final dot; and one to RSET. */
  lemma InStep(q: Queue, p: Peer, tx: Transaction)
    requires Distinct(tx.ids)
    ensures var (n, p') := (Present(q.outbox, tx.ids, |tx.ids|), Handle(q, p, tx).1);
            var used := if Heard(p, 0) != Code(250) then 1
                        else if !SomeTaken(q, p, tx.ids) then 1 + n
                        else if Heard(p, 1 + n) != Code(354) then 2 + n
                        else 3 + n;
            && p'.replies == Behind(p.replies, used + 1)
            && p'.sent == Dispatch(q, p, tx).0.peer.sent + Ascii("RSET\r\n")
  {
    hide Recipients, FailAccepted, Wire, Kept, Present, SomeTaken, Behind, Settle, Ascii;
    var (p', verdict) := Initiate(p, tx.from);
    var n := Present(q.outbox, tx.ids, |tx.ids|);
    BehindAt(p.replies, 1, 1);
    if verdict.Accepted? {
      var r := Recipients(q, p', tx.ids, |tx.ids|);
      RecipientsReplies(q, p', tx.ids, |tx.ids|);
      SomeOk(q, p, p', tx.ids, r.status);
      BehindAt(p.replies, 1, n);
      BehindAt(p.replies, 1 + n, 0);
      BehindAt(p.replies, 1 + n, 1);
      BehindAt(p.replies, 2 + n, 1);
      BehindAt(p.replies, 3 + n, 1);
    }
  }

  lemma SomeOk(q: Queue, p: Peer, p': Peer, ids: seq<nat>, status: seq<Status>)
    requires |status| == |ids| && p'.replies == Behind(p.replies, 1)
    requires forall k :: 0 <= k < |ids| ==> status[k] == RcptStatus(q.outbox, p'.replies, ids, k)
    ensures Ok in status <==> SomeTaken(q, p, ids)
  {
    hide Present, Behind, At;
    forall k | 0 <= k < |ids|
      ensures status[k].Ok? <==> ids[k] in q.outbox && Heard(p, 1 + Present(q.outbox, ids, k)) == Code(250)
    {
      BehindAt(p.replies, 1, Present(q.outbox, ids, k));
      HeardAt(p, 1 + Present(q.outbox, ids, k));
    }
  }

  lemma HeardAt(p: Peer, i: nat)
    ensures Heard(p, i) == At(p.replies, i)
  {
  }
}
