/** Whole runs of the dispatch daemon: intervals of deliveries to remotes, mail
    submitted meanwhile, and the bounces at the end of each. */
module OutboundRuns {
  import opened Bytes
  import opened OutboundQueue

  /** What groups mail by remote: a handoff remote, or the domain of the recipient. */
  datatype Key = ByRemote(spec: Text) | ByDomain(host: Text)

  /** `SUBSTR(to, INSTR(to, '@') + 1)`. */
  function DomainOf(to: Text): Text { to[IndexOf(to, AT) + 1..] }

  function KeyOf(m: Mail): Key { if m.remote.Some? then ByRemote(m.remote.value) else ByDomain(DomainOf(m.to)) }

  /** Mail is grouped by its remote, or else by the host of its recipient: what stands behind
      its first '@', or all of it. */
  lemma GroupedBy(from: Option<Text>, local: Text, host: Text, data: Text, remote: Text)
    requires AT !in local
    ensures KeyOf(Mail(None, from, local + [AT] + host, data)) == ByDomain(host)
    ensures KeyOf(Mail(None, from, local, data)) == ByDomain(local)
    ensures KeyOf(Mail(Some(remote), from, host, data)) == ByRemote(remote)
  {
    IndexOfPrefix(local, AT, host);
    assert (local + [AT] + host)[|local| + 1..] == host;
  }

  /** What comes of the attempts to connect: an early return, no usable connection on
      any MX and port, or a peer. */
  datatype Reach = Skipped | Unreachable(fatal: bool) | Reached(peer: Peer)

  // ------------------------------------------------------------ one remote

  function HandleAll(q: Queue, p: Peer, txs: seq<Transaction>, i: nat): (Queue, Peer)
    requires i <= |txs|
  {
    if i == 0 then (q, p)
    else
      var (q', p') := HandleAll(q, p, txs, i - 1);
      Handle(q', p', txs[i - 1])
  }

  function LogAll(q: Queue, ids: seq<nat>, fatal: bool, i: nat): Queue
    requires i <= |ids|
  {
    if i == 0 then q else LogFailure(LogAll(q, ids, fatal, i - 1), ids[i - 1], fatal)
  }

  function LogTransactions(q: Queue, txs: seq<Transaction>, fatal: bool, i: nat): Queue
    requires i <= |txs|
  {
    if i == 0 then q
    else LogAll(LogTransactions(q, txs, fatal, i - 1), txs[i - 1].ids, fatal, |txs[i - 1].ids|)
  }

  /** `logic_handle_remote`, once the transactions have been read. */
  function Deliver(q: Queue, txs: seq<Transaction>, reach: Reach): Queue {
    match reach
    case Skipped => q
    case Unreachable(fatal) => LogTransactions(q, txs, fatal, |txs|)
    case Reached(peer) => HandleAll(q, peer, txs, |txs|).0
  }

  // ------------------------------------------------------------ bounces

  function Insert(q: Queue, m: Mail): Queue {
    q.(outbox := q.outbox[q.nextId := m], nextId := q.nextId + 1)
  }

  function InsertAll(q: Queue, mails: seq<Mail>, i: nat): Queue
    requires i <= |mails|
  {
    if i == 0 then q else Insert(InsertAll(q, mails, i - 1), mails[i - 1])
  }

  /** The bounces for a mail: none for a bounce, else one to its sender and one to
      every entry of `bounce_to`, with the original data behind the notice. */
  function BouncesFor(m: Mail, bounceTo: seq<Text>, notice: Text): (r: seq<Mail>)
    ensures |r| == if m.from.None? then 0 else 1 + |bounceTo|
    ensures m.from.Some? ==> r[0] == Mail(None, None, m.from.value, notice + m.data)
    ensures forall k :: 0 <= k < |r| - 1 ==> r[k + 1] == Mail(None, None, bounceTo[k], notice + m.data)
  {
    if m.from.None? then []
    else
      [Mail(None, None, m.from.value, notice + m.data)]
      + seq(|bounceTo|, k requires 0 <= k < |bounceTo| => Mail(None, None, bounceTo[k], notice + m.data))
  }

  function BounceOne(q: Queue, id: nat, bounceTo: seq<Text>, notice: Text): Queue
    requires id in q.outbox
  {
    var mails := BouncesFor(q.outbox[id], bounceTo, notice);
    Delete(InsertAll(q, mails, |mails|), id)
  }

  predicate IsCandidate(q: Queue, retries: nat, id: nat) {
    id in q.outbox && (Fatality(q, id) > 0 || Failcount(q, id) >= retries)
  }

  /** The result of the candidate query, in any order. */
  ghost predicate CandidateList(q: Queue, retries: nat, cands: seq<nat>) {
    Distinct(cands) && forall id :: id in cands <==> IsCandidate(q, retries, id)
  }

  /** `logic_generate_bounces`, up to candidate `i`. */
  function Bounce(q: Queue, cands: seq<nat>, bounceTo: seq<Text>, notices: nat -> Text, i: nat): Queue
    requires i <= |cands|
  {
    if i == 0 then q
    else
      var before := Bounce(q, cands, bounceTo, notices, i - 1);
      if cands[i - 1] in before.outbox then BounceOne(before, cands[i - 1], bounceTo, notices(cands[i - 1])) else before
  }

  /** All bounces, in the order in which they are queued. */
  function AllBounces(q: Queue, cands: seq<nat>, bounceTo: seq<Text>, notices: nat -> Text, i: nat): seq<Mail>
    requires i <= |cands|
  {
    if i == 0 then []
    else
      AllBounces(q, cands, bounceTo, notices, i - 1)
      + if cands[i - 1] in q.outbox then BouncesFor(q.outbox[cands[i - 1]], bounceTo, notices(cands[i - 1])) else []
  }

  // ------------------------------------------------------------ an interval

  /** Within an interval remotes are visited, and other daemons queue mail. */
  datatype Item = Visit(key: Key, txs: seq<Transaction>, reach: Reach) | Submit(mail: Mail)

  function ItemStep(q: Queue, item: Item): Queue {
    match item
    case Visit(_, txs, reach) => Deliver(q, txs, reach)
    case Submit(mail) => Insert(q, mail)
  }

  function Items(q: Queue, items: seq<Item>, i: nat): Queue
    requires i <= |items|
  {
    if i == 0 then q else ItemStep(Items(q, items, i - 1), items[i - 1])
  }

  ghost predicate InSome(txs: seq<Transaction>, i: nat, id: nat)
    requires i <= |txs|
  {
    exists j :: 0 <= j < i && id in txs[j].ids
  }

  /** The transaction query for one remote: mail of that remote that has not failed
      for good, every mail in one group at most. */
  ghost predicate Selected(q: Queue, key: Key, txs: seq<Transaction>) {
    && (forall j :: 0 <= j < |txs| ==> Distinct(txs[j].ids))
    && (forall i, j, id :: 0 <= i < j < |txs| && id in txs[i].ids ==> id !in txs[j].ids)
    && forall id :: InSome(txs, |txs|, id) ==> id in q.outbox && KeyOf(q.outbox[id]) == key && Fatality(q, id) == 0
  }

  /** Every remote is visited at most once in an interval, with mail selected for it. */
  ghost predicate Scheduled(q: Queue, items: seq<Item>) {
    && (forall j :: 0 <= j < |items| && items[j].Visit? ==> Selected(Items(q, items, j), items[j].key, items[j].txs))
    && (forall i, j :: 0 <= i < j < |items| && items[i].Visit? && items[j].Visit? ==> items[i].key != items[j].key)
  }

  /** Ids are handed out once, and the failure log refers to queued mail. */
  ghost predicate QueueOk(q: Queue) {
    (forall id :: id in q.outbox ==> id < q.nextId) && forall f :: f in q.faillog ==> f.mail in q.outbox
  }

  // ------------------------------------------------------------ what an item does to a mail

  /** One attempt at delivering a mail: taken by the peer, or logged once. */
  ghost predicate Tried(q: Queue, q': Queue, id: nat, accepted: bool) {
    if accepted then Removed(q', id) else Kept(q, q', id, Some(true)) || Kept(q, q', id, Some(false))
  }

  /** A mail is attempted or left alone. */
  ghost predicate Change(q: Queue, q': Queue, id: nat, attempted: bool, accepted: bool) {
    if attempted then id in q.outbox && Tried(q, q', id, accepted) else Kept(q, q', id, None)
  }

  /** Transaction `j` took the mail. */
  ghost predicate TakenIn(q: Queue, p: Peer, txs: seq<Transaction>, j: nat, id: nat)
    requires j < |txs|
  {
    var (q', p') := HandleAll(q, p, txs, j);
    exists k :: 0 <= k < |txs[j].ids| && txs[j].ids[k] == id && Fates(q', p', txs[j].ids, k).Delivered?
  }

  /** One of the first `i` transactions took the mail. */
  ghost predicate Taken(q: Queue, p: Peer, txs: seq<Transaction>, i: nat, id: nat)
    requires i <= |txs|
  {
    exists j :: 0 <= j < i && TakenIn(q, p, txs, j, id)
  }

  lemma ChangeThen(a: Queue, b: Queue, c: Queue, id: nat, attempted: bool, accepted: bool)
    requires Change(a, b, id, attempted, accepted) && Kept(b, c, id, None)
    ensures Change(a, c, id, attempted, accepted)
  {
  }

  lemma ThenChange(a: Queue, b: Queue, c: Queue, id: nat, attempted: bool, accepted: bool)
    requires Kept(a, b, id, None) && Change(b, c, id, attempted, accepted)
    ensures Change(a, c, id, attempted, accepted)
  {
  }

  /** One transaction, from the point of view of one mail. */
  lemma HandleChange(q: Queue, p: Peer, tx: Transaction, id: nat)
    requires Distinct(tx.ids) && (id in tx.ids ==> id in q.outbox)
    ensures var accepted := exists k :: 0 <= k < |tx.ids| && tx.ids[k] == id && Fates(q, p, tx.ids, k).Delivered?;
            Change(q, Handle(q, p, tx).0, id, id in tx.ids, accepted)
  {
    hide Handle, Kept, Removed, FateOf;
    if id in tx.ids {
      var k :| 0 <= k < |tx.ids| && tx.ids[k] == id;
      Accounting(q, p, tx, k);
    } else {
      OthersKept(q, p, tx, id);
    }
  }

  lemma {:induction false} HandleAllChange(q: Queue, p: Peer, txs: seq<Transaction>, i: nat, id: nat)
    requires i <= |txs|
    requires forall j :: 0 <= j < |txs| ==> Distinct(txs[j].ids)
    requires forall j, k :: 0 <= j < k < |txs| && id in txs[j].ids ==> id !in txs[k].ids
    requires InSome(txs, i, id) ==> id in q.outbox
    ensures Change(q, HandleAll(q, p, txs, i).0, id, InSome(txs, i, id), Taken(q, p, txs, i, id))
    ensures HandleAll(q, p, txs, i).0.nextId == q.nextId
  {
    hide Handle, Change, Kept, Removed, Fates;
    if i == 0 {
      KeptSame(q);
      NothingTried(q, id, Taken(q, p, txs, 0, id));
    } else {
      assert InSome(txs, i - 1, id) ==> InSome(txs, i, id);
      HandleAllChange(q, p, txs, i - 1, id);
      var (q', p') := HandleAll(q, p, txs, i - 1);
      HandleNextId(q', p', txs[i - 1]);
      HandleAllNext(q, p, txs, i, id);
    }
  }

  lemma NothingTried(q: Queue, id: nat, accepted: bool)
    ensures Change(q, q, id, false, accepted)
  {
  }

  lemma HandleAllNext(q: Queue, p: Peer, txs: seq<Transaction>, i: nat, id: nat)
    requires 0 < i <= |txs| && Distinct(txs[i - 1].ids)
    requires forall j, k :: 0 <= j < k < |txs| && id in txs[j].ids ==> id !in txs[k].ids
    requires InSome(txs, i, id) ==> id in q.outbox
    requires Change(q, HandleAll(q, p, txs, i - 1).0, id, InSome(txs, i - 1, id), Taken(q, p, txs, i - 1, id))
    ensures Change(q, HandleAll(q, p, txs, i).0, id, InSome(txs, i, id), Taken(q, p, txs, i, id))
  {
    hide Handle, Kept, Removed, Fates, Tried;
    var (q', p') := HandleAll(q, p, txs, i - 1);
    var (q'', p'') := HandleAll(q, p, txs, i);
    var tx := txs[i - 1];
    if id in tx.ids {
      assert InSome(txs, i, id) && !InSome(txs, i - 1, id);
      assert Kept(q, q', id, None);
      KeptPresent(q, q', id);
      HandleChange(q', p', tx, id);
      assert Taken(q, p, txs, i, id) <==> TakenIn(q, p, txs, i - 1, id);
      ThenChange(q, q', q'', id, true, Taken(q, p, txs, i, id));
    } else {
      assert InSome(txs, i, id) <==> InSome(txs, i - 1, id);
      assert !TakenIn(q, p, txs, i - 1, id);
      assert Taken(q, p, txs, i, id) <==> Taken(q, p, txs, i - 1, id);
      OthersKept(q', p', tx, id);
      ChangeThen(q, q', q'', id, InSome(txs, i, id), Taken(q, p, txs, i, id));
    }
  }

  lemma KeptPresent(q: Queue, q': Queue, id: nat)
    requires Kept(q, q', id, None)
    ensures id in q.outbox <==> id in q'.outbox
  {
  }

  lemma {:induction false} LogAllKept(q: Queue, ids: seq<nat>, fatal: bool, i: nat, id: nat)
    requires i <= |ids| && Distinct(ids)
    ensures LogAll(q, ids, fatal, i).outbox == q.outbox && LogAll(q, ids, fatal, i).nextId == q.nextId
    ensures Kept(q, LogAll(q, ids, fatal, i), id, if id in ids[..i] && id in q.outbox then Some(fatal) else None)
  {
    hide Kept, LogFailure;
    if i == 0 {
      KeptSame(q);
    } else {
      LogAllKept(q, ids, fatal, i - 1, id);
      var q' := LogAll(q, ids, fatal, i - 1);
      LogStep(q', ids[i - 1], fatal);
      assert ids[..i] == ids[..i - 1] + [ids[i - 1]];
      assert id in ids[..i - 1] ==> id != ids[i - 1];
      KeptThen(q, q', LogAll(q, ids, fatal, i), id,
        if id in ids[..i - 1] && id in q.outbox then Some(fatal) else None,
        if id == ids[i - 1] && id in q.outbox then Some(fatal) else None);
    }
  }

  lemma {:induction false} LogTransactionsKept(q: Queue, txs: seq<Transaction>, fatal: bool, i: nat, id: nat)
    requires i <= |txs|
    requires forall j :: 0 <= j < |txs| ==> Distinct(txs[j].ids)
    requires forall j, k :: 0 <= j < k < |txs| && id in txs[j].ids ==> id !in txs[k].ids
    ensures var q' := LogTransactions(q, txs, fatal, i);
            && q'.outbox == q.outbox && q'.nextId == q.nextId
            && Kept(q, q', id, if InSome(txs, i, id) && id in q.outbox then Some(fatal) else None)
  {
    hide Kept, LogAll, InSome;
    if i == 0 {
      KeptSame(q);
      NoneYet(txs, id);
    } else {
      LogTransactionsKept(q, txs, fatal, i - 1, id);
      var q', ids := LogTransactions(q, txs, fatal, i - 1), txs[i - 1].ids;
      LogAllKept(q', ids, fatal, |ids|, id);
      assert ids[..|ids|] == ids;
      OneMore(txs, i, id);
      KeptThen(q, q', LogTransactions(q, txs, fatal, i), id,
        if InSome(txs, i - 1, id) && id in q.outbox then Some(fatal) else None,
        if id in ids && id in q.outbox then Some(fatal) else None);
    }
  }

  lemma NoneYet(txs: seq<Transaction>, id: nat)
    ensures !InSome(txs, 0, id)
  {
  }

  lemma OneMore(txs: seq<Transaction>, i: nat, id: nat)
    requires 0 < i <= |txs|
    requires forall j, k :: 0 <= j < k < |txs| && id in txs[j].ids ==> id !in txs[k].ids
    ensures InSome(txs, i, id) <==> InSome(txs, i - 1, id) || id in txs[i - 1].ids
    ensures !(InSome(txs, i - 1, id) && id in txs[i - 1].ids)
  {
    if id in txs[i - 1].ids {
      assert InSome(txs, i, id);
    }
  }

  // ------------------------------------------------------------ an item

  /** The visit attempts to deliver the mail, however that ends. */
  ghost predicate Attempts(item: Item, id: nat) {
    item.Visit? && !item.reach.Skipped? && InSome(item.txs, |item.txs|, id)
  }

  /** A peer accepts the mail in this visit. */
  ghost predicate Accepts(q: Queue, item: Item, id: nat) {
    item.Visit? && item.reach.Reached? && Taken(q, item.reach.peer, item.txs, |item.txs|, id)
  }

  lemma VisitChange(q: Queue, item: Item, id: nat)
    requires item.Visit? && Selected(q, item.key, item.txs)
    ensures Change(q, ItemStep(q, item), id, Attempts(item, id), Accepts(q, item, id))
    ensures ItemStep(q, item).nextId == q.nextId
  {
    hide HandleAll, LogTransactions, Taken, Kept;
    var txs := item.txs;
    assert InSome(txs, |txs|, id) ==> id in q.outbox;
    match item.reach
    case Skipped => KeptSame(q);
    case Unreachable(fatal) => LogTransactionsKept(q, txs, fatal, |txs|, id);
    case Reached(peer) => HandleAllChange(q, peer, txs, |txs|, id);
  }

  lemma VisitOk(q: Queue, item: Item)
    requires item.Visit? && Selected(q, item.key, item.txs) && QueueOk(q)
    ensures QueueOk(ItemStep(q, item))
  {
    hide ItemStep, Selected, Attempts, Accepts;
    var q' := ItemStep(q, item);
    forall id | id in q'.outbox ensures id < q'.nextId {
      VisitChange(q, item, id);
      assert id in q.outbox;
    }
    forall f | f in q'.faillog ensures f.mail in q'.outbox {
      VisitChange(q, item, f.mail);
      VisitChange(q, item, 0);
      assert Failure(f.mail, f.fatal) == f;
      assert Failcount(q', f.mail) > 0;
      assert f.mail !in q.outbox ==> q.faillog[f] == 0;
    }
  }

  lemma SubmitChange(q: Queue, m: Mail, id: nat)
    requires QueueOk(q)
    ensures QueueOk(Insert(q, m))
    ensures id != q.nextId ==> Kept(q, Insert(q, m), id, None)
    ensures id == q.nextId ==>
      Insert(q, m).outbox[id] == m && id !in q.outbox && Failcount(Insert(q, m), id) == 0 && Fatality(Insert(q, m), id) == 0
  {
    assert q.faillog[Failure(q.nextId, true)] == 0 && q.faillog[Failure(q.nextId, false)] == 0;
  }

  lemma ItemOk(q: Queue, item: Item)
    requires QueueOk(q) && (item.Visit? ==> Selected(q, item.key, item.txs))
    ensures QueueOk(ItemStep(q, item)) && q.nextId <= ItemStep(q, item).nextId
  {
    hide QueueOk, Selected, Deliver;
    if item.Visit? {
      VisitOk(q, item);
      VisitChange(q, item, 0);
    } else {
      SubmitChange(q, item.mail, 0);
    }
  }
}
