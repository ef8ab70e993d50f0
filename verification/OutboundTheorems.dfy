/** The promises of the dispatch daemon over whole runs: mail leaves the queue only
    when a peer took it or after its bounces were queued, and no mail is tried more
    often than configured. */
module OutboundTheorems {
  import opened Bytes
  import opened OutboundQueue
  import opened OutboundRuns

  datatype Settings = Settings(retries: nat, bounceTo: seq<Text>)

  /** One round of `logic_loop_hosts`: its deliveries, the candidate query, the bounces. */
  datatype Interval = Interval(items: seq<Item>, cands: seq<nat>, notices: nat -> Text)

  function Delivered(q: Queue, iv: Interval): Queue { Items(q, iv.items, |iv.items|) }

  function Play(q: Queue, iv: Interval, cfg: Settings): Queue {
    Bounce(Delivered(q, iv), iv.cands, cfg.bounceTo, iv.notices, |iv.cands|)
  }

  ghost predicate Proper(q: Queue, iv: Interval, cfg: Settings) {
    Scheduled(q, iv.items) && CandidateList(Delivered(q, iv), cfg.retries, iv.cands)
  }

  // ------------------------------------------------------------ bounces

  /** `mails` have been queued behind `q`, and nothing else has changed. */
  ghost predicate Queued(q: Queue, q': Queue, mails: seq<Mail>) {
    && QueueOk(q') && q'.nextId == q.nextId + |mails|
    && forall t :: 0 <= t < |mails| ==> NewRow(q', q.nextId + t, mails[t])
  }

  ghost predicate NewRow(q: Queue, id: nat, m: Mail) {
    id in q.outbox && q.outbox[id] == m && Failcount(q, id) == 0
  }

  /** Mail that was there before is as it was, apart from `gone`. */
  ghost predicate Undisturbed(q: Queue, q': Queue, gone: seq<nat>) {
    forall id: nat :: id < q.nextId && id !in gone ==> Kept(q, q', id, None)
  }

  lemma {:induction false} InsertAllQueued(q: Queue, mails: seq<Mail>, i: nat)
    requires QueueOk(q) && i <= |mails|
    ensures Queued(q, InsertAll(q, mails, i), mails[..i])
    ensures Undisturbed(q, InsertAll(q, mails, i), [])
  {
    hide Kept;
    if i == 0 {
      KeptSame(q);
    } else {
      InsertAllQueued(q, mails, i - 1);
      InsertNext(q, InsertAll(q, mails, i - 1), mails, i);
    }
  }

  lemma InsertNext(q: Queue, q': Queue, mails: seq<Mail>, i: nat)
    requires 0 < i <= |mails| && Queued(q, q', mails[..i - 1])
    requires Undisturbed(q, q', [])
    ensures Queued(q, Insert(q', mails[i - 1]), mails[..i])
    ensures Undisturbed(q, Insert(q', mails[i - 1]), [])
  {
    hide QueueOk, Insert, Failcount, Kept;
    var q'' := Insert(q', mails[i - 1]);
    InsertShape(q', mails[i - 1]);
    forall id: nat ensures id != q'.nextId ==> Kept(q', q'', id, None) { SubmitChange(q', mails[i - 1], id); }
    forall id: nat | id < q.nextId ensures Kept(q, q'', id, None) { KeptThen(q, q', q'', id, None, None); }
    SubmitChange(q', mails[i - 1], q'.nextId);
    forall t | 0 <= t < i ensures NewRow(q'', q.nextId + t, mails[..i][t]) {
      if t < i - 1 {
        assert mails[..i - 1][t] == mails[..i][t];
        NewRowKept(q', q'', q.nextId + t, mails[t]);
      }
    }
  }

  lemma InsertShape(q: Queue, m: Mail)
    ensures Insert(q, m).nextId == q.nextId + 1 && q.nextId in Insert(q, m).outbox
  {
  }

  lemma NewRowKept(q: Queue, q': Queue, id: nat, m: Mail)
    requires NewRow(q, id, m) && Kept(q, q', id, None)
    ensures NewRow(q', id, m)
  {
  }

  lemma KeptCount(q: Queue, q': Queue, id: nat)
    requires Kept(q, q', id, None)
    ensures Failcount(q', id) == Failcount(q, id) && Fatality(q', id) == Fatality(q, id)
    ensures id in q.outbox ==> id in q'.outbox && q'.outbox[id] == q.outbox[id]
  {
  }

  lemma DeleteQueued(q: Queue, q': Queue, mails: seq<Mail>, id: nat)
    requires Queued(q, q', mails) && id < q.nextId
    ensures Queued(q, Delete(q', id), mails) && Removed(Delete(q', id), id)
    ensures forall other :: other != id ==> Kept(q', Delete(q', id), other, None)
  {
  }

  lemma BounceOneQueued(q: Queue, id: nat, bounceTo: seq<Text>, notice: Text)
    requires QueueOk(q) && id in q.outbox
    ensures var q' := BounceOne(q, id, bounceTo, notice);
            && Queued(q, q', BouncesFor(q.outbox[id], bounceTo, notice)) && Removed(q', id)
            && Undisturbed(q, q', [id])
  {
    hide Queued, Kept, Delete, InsertAll, BouncesFor, Removed;
    var mails := BouncesFor(q.outbox[id], bounceTo, notice);
    InsertAllQueued(q, mails, |mails|);
    assert mails[..|mails|] == mails;
    var q' := InsertAll(q, mails, |mails|);
    DeleteQueued(q, q', mails, id);
    forall other: nat | other < q.nextId && other != id ensures Kept(q, Delete(q', id), other, None) {
      KeptThen(q, q', Delete(q', id), other, None, None);
    }
  }

  lemma QueuedThen(a: Queue, b: Queue, c: Queue, first: seq<Mail>, second: seq<Mail>)
    requires Queued(a, b, first) && Queued(b, c, second)
    requires forall id: nat :: a.nextId <= id < b.nextId ==> Kept(b, c, id, None)
    ensures Queued(a, c, first + second)
  {
    hide QueueOk, NewRow, Kept;
    var mails := first + second;
    forall t | 0 <= t < |mails| ensures NewRow(c, a.nextId + t, mails[t]) {
      if t < |first| {
        assert mails[t] == first[t];
        NewRowKept(b, c, a.nextId + t, first[t]);
      } else {
        assert mails[t] == second[t - |first|];
        assert a.nextId + t == b.nextId + (t - |first|);
      }
    }
  }

  /** The bounces are queued in order, one batch for each candidate; the candidates
      are gone and nothing else is touched. */
  lemma {:induction false} Bounced(q: Queue, cands: seq<nat>, bounceTo: seq<Text>, notices: nat -> Text, i: nat)
    requires QueueOk(q) && Distinct(cands) && i <= |cands|
    requires forall k :: 0 <= k < |cands| ==> cands[k] in q.outbox
    ensures Queued(q, Bounce(q, cands, bounceTo, notices, i), AllBounces(q, cands, bounceTo, notices, i))
    ensures forall k :: 0 <= k < i ==> Removed(Bounce(q, cands, bounceTo, notices, i), cands[k])
    ensures Undisturbed(q, Bounce(q, cands, bounceTo, notices, i), cands[..i])
  {
    hide Kept, Removed, Queued, BounceOne, BouncesFor;
    if i == 0 {
      KeptSame(q);
      NothingQueued(q);
    } else {
      Bounced(q, cands, bounceTo, notices, i - 1);
      BouncedNext(q, cands, bounceTo, notices, i);
    }
  }

  lemma NothingQueued(q: Queue)
    requires QueueOk(q)
    ensures Queued(q, q, [])
  {
  }

  lemma RemovedStays(q: Queue, q': Queue, id: nat)
    requires Removed(q, id) && Kept(q, q', id, None)
    ensures Removed(q', id)
  {
  }

  lemma BouncedNext(q: Queue, cands: seq<nat>, bounceTo: seq<Text>, notices: nat -> Text, i: nat)
    requires QueueOk(q) && Distinct(cands) && 0 < i <= |cands|
    requires forall k :: 0 <= k < |cands| ==> cands[k] in q.outbox
    requires Queued(q, Bounce(q, cands, bounceTo, notices, i - 1), AllBounces(q, cands, bounceTo, notices, i - 1))
    requires forall k :: 0 <= k < i - 1 ==> Removed(Bounce(q, cands, bounceTo, notices, i - 1), cands[k])
    requires Undisturbed(q, Bounce(q, cands, bounceTo, notices, i - 1), cands[..i - 1])
    ensures Queued(q, Bounce(q, cands, bounceTo, notices, i), AllBounces(q, cands, bounceTo, notices, i))
    ensures forall k :: 0 <= k < i ==> Removed(Bounce(q, cands, bounceTo, notices, i), cands[k])
    ensures Undisturbed(q, Bounce(q, cands, bounceTo, notices, i), cands[..i])
  {
    hide Kept, Removed, BounceOne, BouncesFor, Failcount, QueueOk;
    var id, q' := cands[i - 1], Bounce(q, cands, bounceTo, notices, i - 1);
    IdBelow(q, id);
    assert cands[..i] == cands[..i - 1] + [id];
    assert id !in cands[..i - 1];
    KeptCount(q, q', id);
    BounceOneQueued(q', id, bounceTo, notices(id));
    var q'' := BounceOne(q', id, bounceTo, notices(id));
    QueuedThen(q, q', q'', AllBounces(q, cands, bounceTo, notices, i - 1), BouncesFor(q.outbox[id], bounceTo, notices(id)));
    forall k | 0 <= k < i - 1 ensures Removed(q'', cands[k]) {
      IdBelow(q, cands[k]);
      RemovedStays(q', q'', cands[k]);
    }
    forall other: nat | other < q.nextId && other !in cands[..i] ensures Kept(q, q'', other, None) {
      KeptThen(q, q', q'', other, None, None);
    }
  }

  lemma IdBelow(q: Queue, id: nat)
    requires QueueOk(q) && id in q.outbox
    ensures id < q.nextId
  {
  }

  // ------------------------------------------------------------ conservation

  /** Some visit from item `s` up to item `i` ended with a peer taking the mail. */
  ghost predicate AcceptedIn(q: Queue, items: seq<Item>, s: nat, i: nat, id: nat)
    requires i <= |items|
  {
    exists j :: s <= j < i && Accepts(Items(q, items, j), items[j], id)
  }

  lemma {:induction false} ItemsOk(q: Queue, items: seq<Item>, i: nat)
    requires QueueOk(q) && Scheduled(q, items) && i <= |items|
    ensures QueueOk(Items(q, items, i)) && q.nextId <= Items(q, items, i).nextId
  {
    hide QueueOk, Selected, ItemStep;
    if i > 0 {
      ItemsOk(q, items, i - 1);
      ItemOk(Items(q, items, i - 1), items[i - 1]);
    }
  }

  lemma AcceptsAttempts(q: Queue, item: Item, id: nat)
    requires Accepts(q, item, id)
    ensures Attempts(item, id)
  {
    var j :| 0 <= j < |item.txs| && TakenIn(q, item.reach.peer, item.txs, j, id);
    assert id in item.txs[j].ids;
  }

  /** Deliveries remove a mail exactly when a peer took it, and change nothing in it. */
  lemma {:induction false} ItemsConserve(q: Queue, items: seq<Item>, s: nat, i: nat, id: nat)
    requires QueueOk(q) && Scheduled(q, items) && s <= i <= |items| && id in Items(q, items, s).outbox
    ensures id in Items(q, items, i).outbox <==> !AcceptedIn(q, items, s, i, id)
    ensures id in Items(q, items, i).outbox ==> Items(q, items, i).outbox[id] == Items(q, items, s).outbox[id]
    ensures id < Items(q, items, i).nextId
  {
    hide QueueOk, Selected, ItemStep, Accepts, Attempts;
    ItemsOk(q, items, s);
    if i == s {
      IdBelow(Items(q, items, s), id);
    } else {
      ItemsConserve(q, items, s, i - 1, id);
      ItemsOk(q, items, i - 1);
      var q', item := Items(q, items, i - 1), items[i - 1];
      ItemConserves(q', item, id);
      ItemOk(q', item);
      assert Accepts(q', item, id) ==> AcceptedIn(q, items, s, i, id);
    }
  }

  lemma ItemConserves(q: Queue, item: Item, id: nat)
    requires QueueOk(q) && (item.Visit? ==> Selected(q, item.key, item.txs)) && id < q.nextId
    ensures id in ItemStep(q, item).outbox <==> id in q.outbox && !Accepts(q, item, id)
    ensures id in ItemStep(q, item).outbox ==> ItemStep(q, item).outbox[id] == q.outbox[id]
  {
    hide QueueOk, Selected, Deliver, Accepts, Attempts;
    if item.Visit? {
      VisitChange(q, item, id);
      if Accepts(q, item, id) { AcceptsAttempts(q, item, id); }
    } else {
      SubmitChange(q, item.mail, id);
      SubmitTakesNothing(q, item, id);
    }
  }

  lemma SubmitTakesNothing(q: Queue, item: Item, id: nat)
    requires item.Submit?
    ensures !Accepts(q, item, id)
  {
  }

  /** All bounces of `m` are in the queue, next to each other. */
  ghost predicate HasBounces(q: Queue, m: Mail, cfg: Settings, notice: Text) {
    exists start :: BatchAt(q, start, BouncesFor(m, cfg.bounceTo, notice))
  }

  ghost predicate BatchAt(q: Queue, start: nat, mails: seq<Mail>) {
    forall k :: 0 <= k < |mails| ==> RowIs(q, start + k, mails[k])
  }

  ghost predicate RowIs(q: Queue, id: nat, m: Mail) {
    id in q.outbox && q.outbox[id] == m
  }

  /** The batch of candidate `k` starts where those before it end. */
  lemma {:induction false} BatchOf(q: Queue, cands: seq<nat>, bounceTo: seq<Text>, notices: nat -> Text, i: nat, k: nat)
    requires k < i <= |cands| && cands[k] in q.outbox
    ensures var (all, start) := (AllBounces(q, cands, bounceTo, notices, i), |AllBounces(q, cands, bounceTo, notices, k)|);
            var batch := BouncesFor(q.outbox[cands[k]], bounceTo, notices(cands[k]));
            start + |batch| <= |all| && forall t :: 0 <= t < |batch| ==> all[start + t] == batch[t]
  {
    hide BouncesFor;
    var before, all := AllBounces(q, cands, bounceTo, notices, i - 1), AllBounces(q, cands, bounceTo, notices, i);
    var start, batch := |AllBounces(q, cands, bounceTo, notices, k)|, BouncesFor(q.outbox[cands[k]], bounceTo, notices(cands[k]));
    if k < i - 1 {
      BatchOf(q, cands, bounceTo, notices, i - 1, k);
      assert before <= all;
      forall t | 0 <= t < |batch| ensures all[start + t] == batch[t] {
        assert before[start + t] == batch[t];
      }
    } else {
      assert all == before + batch;
    }
  }

  /** The mail has failed for good, or as often as configured. */
  ghost predicate WornOut(q: Queue, retries: nat, id: nat) {
    id in q.outbox
    && (Failure(id, true) in q.faillog || q.faillog[Failure(id, true)] + q.faillog[Failure(id, false)] >= retries)
  }

  lemma CandidatesWornOut(q: Queue, retries: nat, id: nat)
    ensures IsCandidate(q, retries, id) <==> WornOut(q, retries, id)
  {
  }

  /** What becomes of the mail `m` in an interval, from item `s` on: it stays as it is, or
      leaves for one reason. */
  ghost predicate Conserved(q: Queue, iv: Interval, cfg: Settings, s: nat, id: nat, m: Mail) {
    var (mid, q') := (Delivered(q, iv), Play(q, iv, cfg));
    var accepted, given := AcceptedIn(q, iv.items, s, |iv.items|, id), WornOut(mid, cfg.retries, id);
    && (id in q'.outbox <==> !accepted && !given)
    && (id in q'.outbox ==> q'.outbox[id] == m)
    && !(accepted && given)
    && (given && m.from.Some? ==> HasBounces(q', m, cfg, iv.notices(id)))
  }

  /** A mail that is queued at any point of an interval either stays as it is, or leaves for
      one reason: a peer took it, or it is given up for its failures. Then it had no sender,
      or its sender and everybody in `bounce_to` have a bounce queued. Without retries the
      query for candidates would meet the bounces being queued while it runs. */
  lemma Conservation(q: Queue, iv: Interval, cfg: Settings, s: nat, id: nat)
    requires QueueOk(q) && Proper(q, iv, cfg) && cfg.retries >= 1
    requires s <= |iv.items| && id in Items(q, iv.items, s).outbox
    ensures Conserved(q, iv, cfg, s, id, Items(q, iv.items, s).outbox[id])
  {
    hide QueueOk, Items, Bounce, BouncesFor, AcceptedIn, Scheduled, AllBounces, Failcount, Fatality, HasBounces, WornOut;
    var mid, q' := Delivered(q, iv), Play(q, iv, cfg);
    ItemsConserve(q, iv.items, s, |iv.items|, id);
    ItemsOk(q, iv.items, |iv.items|);
    CandidatesQueued(mid, cfg.retries, iv.cands);
    Bounced(mid, iv.cands, cfg.bounceTo, iv.notices, |iv.cands|);
    assert iv.cands[..|iv.cands|] == iv.cands;
    CandidatesWornOut(mid, cfg.retries, id);
    if id in iv.cands { CandidateBounced(q, iv, cfg, id); }
  }

  lemma CandidateBounced(q: Queue, iv: Interval, cfg: Settings, id: nat)
    requires QueueOk(q) && Proper(q, iv, cfg) && id in iv.cands && id in Delivered(q, iv).outbox
    ensures id !in Play(q, iv, cfg).outbox
    ensures HasBounces(Play(q, iv, cfg), Delivered(q, iv).outbox[id], cfg, iv.notices(id))
  {
    hide QueueOk, Items, Bounce, BouncesFor, Scheduled, AllBounces, Failcount, Fatality;
    var mid, q' := Delivered(q, iv), Play(q, iv, cfg);
    ItemsOk(q, iv.items, |iv.items|);
    CandidatesQueued(mid, cfg.retries, iv.cands);
    Bounced(mid, iv.cands, cfg.bounceTo, iv.notices, |iv.cands|);
    var k :| 0 <= k < |iv.cands| && iv.cands[k] == id;
    assert Removed(q', iv.cands[k]);
    var batch := BouncesFor(mid.outbox[id], cfg.bounceTo, iv.notices(id));
    BatchOf(mid, iv.cands, cfg.bounceTo, iv.notices, |iv.cands|, k);
    var start := mid.nextId + |AllBounces(mid, iv.cands, cfg.bounceTo, iv.notices, k)|;
    var all := AllBounces(mid, iv.cands, cfg.bounceTo, iv.notices, |iv.cands|);
    QueuedBatch(mid, q', all);
    SubBatch(q', mid.nextId, all, start - mid.nextId, batch);
    assert BatchAt(q', start, batch);
  }

  lemma QueuedBatch(q: Queue, q': Queue, mails: seq<Mail>)
    requires Queued(q, q', mails)
    ensures BatchAt(q', q.nextId, mails)
  {
    forall k | 0 <= k < |mails| ensures RowIs(q', q.nextId + k, mails[k]) {
      assert NewRow(q', q.nextId + k, mails[k]);
    }
  }

  lemma SubBatch(q: Queue, start: nat, all: seq<Mail>, offset: nat, batch: seq<Mail>)
    requires BatchAt(q, start, all) && offset + |batch| <= |all|
    requires forall t :: 0 <= t < |batch| ==> all[offset + t] == batch[t]
    ensures BatchAt(q, start + offset, batch)
  {
    forall k | 0 <= k < |batch| ensures RowIs(q, start + offset + k, batch[k]) {
      assert all[offset + k] == batch[k];
      assert RowIs(q, start + (offset + k), all[offset + k]);
    }
  }

  lemma AllGone(q: Queue, cands: seq<nat>)
    requires forall k :: 0 <= k < |cands| ==> Removed(q, cands[k])
    ensures forall id :: id in cands ==> id !in q.outbox
  {
    forall id | id in cands ensures id !in q.outbox {
      var k :| 0 <= k < |cands| && cands[k] == id;
      assert Removed(q, cands[k]);
    }
  }

  lemma CandidatesQueued(q: Queue, retries: nat, cands: seq<nat>)
    requires CandidateList(q, retries, cands)
    ensures forall k :: 0 <= k < |cands| ==> cands[k] in q.outbox
    ensures Distinct(cands)
  {
    forall k | 0 <= k < |cands| ensures cands[k] in q.outbox {
      assert cands[k] in cands;
    }
  }

  /** No mail appears from nowhere: what the interval adds behind the submitted mail
      are the bounces, as many and in the order in which they are due. */
  lemma NothingInvented(q: Queue, iv: Interval, cfg: Settings)
    requires QueueOk(q) && Proper(q, iv, cfg) && cfg.retries >= 1
    ensures var (mid, q') := (Delivered(q, iv), Play(q, iv, cfg));
            var bounces := AllBounces(mid, iv.cands, cfg.bounceTo, iv.notices, |iv.cands|);
            && q'.nextId == mid.nextId + |bounces|
            && BatchAt(q', mid.nextId, bounces)
            && (forall id :: id in q'.outbox && id < mid.nextId ==>
                  id in mid.outbox && q'.outbox[id] == mid.outbox[id])
            && forall id :: id in q'.outbox ==> id < q'.nextId
  {
    hide Items, Bounce, BouncesFor, Scheduled, AllBounces, Failcount, Fatality;
    var mid := Delivered(q, iv);
    ItemsOk(q, iv.items, |iv.items|);
    CandidatesQueued(mid, cfg.retries, iv.cands);
    Bounced(mid, iv.cands, cfg.bounceTo, iv.notices, |iv.cands|);
    assert iv.cands[..|iv.cands|] == iv.cands;
    var q', bounces := Play(q, iv, cfg), AllBounces(mid, iv.cands, cfg.bounceTo, iv.notices, |iv.cands|);
    AllGone(q', iv.cands);
    QueuedBatch(mid, q', bounces);
    forall id | id in q'.outbox && id < mid.nextId ensures id in mid.outbox && q'.outbox[id] == mid.outbox[id] {
      assert id !in iv.cands;
    }
  }

  // ------------------------------------------------------------ whole runs

  function Run(q: Queue, ivs: seq<Interval>, cfg: Settings, i: nat): Queue
    requires i <= |ivs|
  {
    if i == 0 then q else Play(Run(q, ivs, cfg, i - 1), ivs[i - 1], cfg)
  }

  ghost predicate ProperRun(q: Queue, ivs: seq<Interval>, cfg: Settings) {
    forall i :: 0 <= i < |ivs| ==> Proper(Run(q, ivs, cfg, i), ivs[i], cfg)
  }

  lemma {:induction false} RunOk(q: Queue, ivs: seq<Interval>, cfg: Settings, i: nat)
    requires QueueOk(q) && ProperRun(q, ivs, cfg) && i <= |ivs|
    ensures QueueOk(Run(q, ivs, cfg, i))
  {
    hide QueueOk, Proper, Play;
    if i > 0 {
      RunOk(q, ivs, cfg, i - 1);
      PlayOk(Run(q, ivs, cfg, i - 1), ivs[i - 1], cfg);
    }
  }

  lemma PlayOk(q: Queue, iv: Interval, cfg: Settings)
    requires QueueOk(q) && Proper(q, iv, cfg)
    ensures QueueOk(Play(q, iv, cfg)) && q.nextId <= Delivered(q, iv).nextId <= Play(q, iv, cfg).nextId
  {
    hide QueueOk, Items, Bounce, Scheduled, AllBounces;
    ItemsOk(q, iv.items, |iv.items|);
    CandidatesQueued(Delivered(q, iv), cfg.retries, iv.cands);
    Bounced(Delivered(q, iv), iv.cands, cfg.bounceTo, iv.notices, |iv.cands|);
  }

  /** Interval `n` and those up to `k`, the first of them from item `s` on: a peer took
      the mail in one of them. */
  ghost predicate AcceptedSince(q: Queue, ivs: seq<Interval>, cfg: Settings, n: nat, s: nat, k: nat, id: nat)
    requires k <= |ivs|
  {
    exists j :: n <= j < k && AcceptedDuring(q, ivs, cfg, n, s, j, id)
  }

  ghost predicate AcceptedDuring(q: Queue, ivs: seq<Interval>, cfg: Settings, n: nat, s: nat, j: nat, id: nat)
    requires j < |ivs|
  {
    AcceptedIn(Run(q, ivs, cfg, j), ivs[j].items, if j == n then s else 0, |ivs[j].items|, id)
  }

  /** It was given up at the end of one of them. */
  ghost predicate GivenUpSince(q: Queue, ivs: seq<Interval>, cfg: Settings, n: nat, k: nat, id: nat)
    requires k <= |ivs|
  {
    exists j :: n <= j < k && GivenUp(q, ivs, cfg, j, id)
  }

  ghost predicate GivenUp(q: Queue, ivs: seq<Interval>, cfg: Settings, j: nat, id: nat)
    requires j < |ivs|
  {
    WornOut(Delivered(Run(q, ivs, cfg, j), ivs[j]), cfg.retries, id)
  }

  /** The queue after the first `s` items of interval `n`. */
  function During(q: Queue, ivs: seq<Interval>, cfg: Settings, n: nat, s: nat): Queue
    requires n < |ivs| && s <= |ivs[n].items|
  {
    Items(Run(q, ivs, cfg, n), ivs[n].items, s)
  }

  /** An id that is gone stays so: nothing is delivered or given up under it again. */
  lemma {:induction false} GoneItems(q: Queue, items: seq<Item>, i: nat, id: nat)
    requires QueueOk(q) && Scheduled(q, items) && i <= |items| && id < q.nextId && id !in q.outbox
    ensures id !in Items(q, items, i).outbox && !AcceptedIn(q, items, 0, i, id)
  {
    hide QueueOk, Scheduled, ItemStep, Accepts, AcceptedIn;
    AcceptedNext(q, items, i, id);
    if i > 0 {
      GoneItems(q, items, i - 1, id);
      ItemsOk(q, items, i - 1);
      ItemScheduled(q, items, i - 1);
      NotThere(Items(q, items, i - 1), items[i - 1], id);
    }
  }

  lemma AcceptedNext(q: Queue, items: seq<Item>, i: nat, id: nat)
    requires i <= |items|
    ensures AcceptedIn(q, items, 0, i, id) <==>
            i > 0 && (AcceptedIn(q, items, 0, i - 1, id) || Accepts(Items(q, items, i - 1), items[i - 1], id))
  {
    hide Accepts, Items;
  }

  lemma ItemScheduled(q: Queue, items: seq<Item>, j: nat)
    requires Scheduled(q, items) && j < |items|
    ensures items[j].Visit? ==> Selected(Items(q, items, j), items[j].key, items[j].txs)
  {
  }

  lemma NotThere(q: Queue, item: Item, id: nat)
    requires QueueOk(q) && (item.Visit? ==> Selected(q, item.key, item.txs)) && id !in q.outbox && id < q.nextId
    ensures !Accepts(q, item, id) && id !in ItemStep(q, item).outbox
  {
    hide QueueOk, Selected, Accepts;
    ItemConserves(q, item, id);
    if Accepts(q, item, id) {
      AcceptsAttempts(q, item, id);
      AttemptedKey(q, item, id);
    }
  }

  lemma GoneStays(q: Queue, iv: Interval, cfg: Settings, id: nat)
    requires QueueOk(q) && Proper(q, iv, cfg) && id < q.nextId && id !in q.outbox
    ensures id !in Play(q, iv, cfg).outbox
    ensures !AcceptedIn(q, iv.items, 0, |iv.items|, id) && !WornOut(Delivered(q, iv), cfg.retries, id)
  {
    hide QueueOk, Items, Bounce, Scheduled, AllBounces, AcceptedIn, Failcount, Fatality;
    var mid := Delivered(q, iv);
    GoneItems(q, iv.items, |iv.items|, id);
    ItemsOk(q, iv.items, |iv.items|);
    CandidatesQueued(mid, cfg.retries, iv.cands);
    Bounced(mid, iv.cands, cfg.bounceTo, iv.notices, |iv.cands|);
    assert iv.cands[..|iv.cands|] == iv.cands;
    assert id !in iv.cands;
    StillGone(mid, Play(q, iv, cfg), id);
  }

  lemma StillGone(q: Queue, q': Queue, id: nat)
    requires Kept(q, q', id, None) && id !in q.outbox
    ensures id !in q'.outbox
  {
  }

  lemma SinceNext(q: Queue, ivs: seq<Interval>, cfg: Settings, n: nat, s: nat, k: nat, id: nat)
    requires n < k <= |ivs|
    ensures AcceptedSince(q, ivs, cfg, n, s, k, id) <==>
            AcceptedSince(q, ivs, cfg, n, s, k - 1, id)
            || AcceptedDuring(q, ivs, cfg, n, s, k - 1, id)
    ensures GivenUpSince(q, ivs, cfg, n, k, id) <==>
            GivenUpSince(q, ivs, cfg, n, k - 1, id) || GivenUp(q, ivs, cfg, k - 1, id)
  {
    hide AcceptedDuring, GivenUp;
  }

  /** The mail `m`, queued in interval `n` behind its first `s` items, after interval
      `k - 1`: still there as it was, taken by a peer, or given up. */
  ghost predicate RunConserved(q: Queue, ivs: seq<Interval>, cfg: Settings, n: nat, s: nat, k: nat, id: nat, m: Mail)
    requires k <= |ivs|
  {
    var (q', accepted, given) :=
      (Run(q, ivs, cfg, k), AcceptedSince(q, ivs, cfg, n, s, k, id), GivenUpSince(q, ivs, cfg, n, k, id));
    && (id in q'.outbox <==> !accepted && !given)
    && (id in q'.outbox ==> q'.outbox[id] == m)
    && !(accepted && given)
    && (m.from.Some? ==>
          forall j :: n <= j < k && GivenUp(q, ivs, cfg, j, id) ==>
            HasBounces(Run(q, ivs, cfg, j + 1), m, cfg, ivs[j].notices(id)))
  }

  lemma ConservedFirst(q: Queue, ivs: seq<Interval>, cfg: Settings, n: nat, s: nat, id: nat, m: Mail)
    requires n < |ivs| && s <= |ivs[n].items| && Conserved(Run(q, ivs, cfg, n), ivs[n], cfg, s, id, m)
    ensures RunConserved(q, ivs, cfg, n, s, n + 1, id, m)
  {
    hide AcceptedIn, WornOut, Play, HasBounces;
    SinceNext(q, ivs, cfg, n, s, n + 1, id);
  }

  lemma ConservedNext(q: Queue, ivs: seq<Interval>, cfg: Settings, n: nat, s: nat, k: nat, id: nat, m: Mail)
    requires n + 1 < k <= |ivs| && RunConserved(q, ivs, cfg, n, s, k - 1, id, m)
    requires var last := Run(q, ivs, cfg, k - 1);
             if id in last.outbox then Conserved(last, ivs[k - 1], cfg, 0, id, m)
             else id !in Play(last, ivs[k - 1], cfg).outbox
                  && !AcceptedDuring(q, ivs, cfg, n, s, k - 1, id) && !GivenUp(q, ivs, cfg, k - 1, id)
    ensures RunConserved(q, ivs, cfg, n, s, k, id, m)
  {
    hide AcceptedIn, WornOut, Play, HasBounces, AcceptedSince, GivenUpSince;
    SinceNext(q, ivs, cfg, n, s, k, id);
  }

  /** Over every run: a mail that is queued at any point, mail that arrived during an
      interval and bounces included, is still there later if and only if no peer has taken
      it and it was not given up since; never do both happen to a mail. Where it was given
      up its bounces were queued in that interval, unless it had no sender. */
  lemma {:induction false} RunConserves(q: Queue, ivs: seq<Interval>, cfg: Settings, n: nat, s: nat, k: nat, id: nat)
    requires QueueOk(q) && ProperRun(q, ivs, cfg) && cfg.retries >= 1
    requires n < k <= |ivs| && s <= |ivs[n].items| && id in During(q, ivs, cfg, n, s).outbox
    ensures RunConserved(q, ivs, cfg, n, s, k, id, During(q, ivs, cfg, n, s).outbox[id])
    ensures id < Run(q, ivs, cfg, k).nextId
    decreases k
  {
    hide QueueOk, Scheduled, CandidateList, Play, Items, RunConserved, Conserved, AcceptedIn, WornOut;
    var last, m := Run(q, ivs, cfg, k - 1), During(q, ivs, cfg, n, s).outbox[id];
    RunOk(q, ivs, cfg, k - 1);
    PlayOk(last, ivs[k - 1], cfg);
    if k == n + 1 {
      ItemsConserve(last, ivs[n].items, s, |ivs[n].items|, id);
      Conservation(last, ivs[n], cfg, s, id);
      ConservedFirst(q, ivs, cfg, n, s, id, m);
    } else {
      RunConserves(q, ivs, cfg, n, s, k - 1, id);
      NothingYet(last, ivs[k - 1].items);
      if id in last.outbox {
        Conservation(last, ivs[k - 1], cfg, 0, id);
        SameMail(q, ivs, cfg, n, s, k - 1, id, m);
      } else {
        GoneStays(last, ivs[k - 1], cfg, id);
      }
      ConservedNext(q, ivs, cfg, n, s, k, id, m);
    }
  }

  lemma NothingYet(q: Queue, items: seq<Item>)
    ensures Items(q, items, 0) == q
  {
  }

  lemma SameMail(q: Queue, ivs: seq<Interval>, cfg: Settings, n: nat, s: nat, k: nat, id: nat, m: Mail)
    requires k <= |ivs| && RunConserved(q, ivs, cfg, n, s, k, id, m) && id in Run(q, ivs, cfg, k).outbox
    ensures Run(q, ivs, cfg, k).outbox[id] == m
  {
  }

  // ------------------------------------------------------------ retries

  /** Between intervals: nothing queued has failed for good or too often. */
  ghost predicate Calm(q: Queue, retries: nat) {
    forall id :: id in q.outbox ==> Fatality(q, id) == 0 && Failcount(q, id) < retries
  }

  ghost predicate Visited(items: seq<Item>, i: nat, key: Key)
    requires i <= |items|
  {
    exists j :: 0 <= j < i && items[j].Visit? && items[j].key == key
  }

  /** The mail may be attempted once more, unless it has failed for good. */
  ghost predicate Spare(q: Queue, cap: nat, id: nat) {
    id in q.outbox ==> Failcount(q, id) <= cap && (Fatality(q, id) == 0 ==> Failcount(q, id) < cap)
  }

  /** Within an interval: the last attempt may have been one too many, but only for a
      remote that has been visited. */
  ghost predicate Bounded(q: Queue, cap: nat, items: seq<Item>, i: nat, id: nat)
    requires i <= |items|
  {
    id in q.outbox ==> Failcount(q, id) <= cap && (!Visited(items, i, KeyOf(q.outbox[id])) ==> Spare(q, cap, id))
  }

  /** How often the first `i` items try to deliver the mail. */
  ghost function TriesIn(items: seq<Item>, i: nat, id: nat): nat
    requires i <= |items|
  {
    if i == 0 then 0 else TriesIn(items, i - 1, id) + if Attempts(items[i - 1], id) then 1 else 0
  }

  /** `tries` attempts so far: as many as are logged for queued mail, never too many. */
  ghost predicate Tracked(q: Queue, cap: nat, id: nat, tries: nat) {
    && (id in q.outbox ==> tries == Failcount(q, id))
    && (id !in q.outbox ==> tries <= cap)
    && (id >= q.nextId ==> tries == 0)
  }

  lemma ItemTracks(q: Queue, cap: nat, items: seq<Item>, i: nat, id: nat, tries: nat)
    requires i < |items| && QueueOk(q) && cap >= 1
    requires items[i].Visit? ==> Selected(q, items[i].key, items[i].txs) && !Visited(items, i, items[i].key)
    requires Bounded(q, cap, items, i, id) && Tracked(q, cap, id, tries)
    ensures Bounded(ItemStep(q, items[i]), cap, items, i + 1, id)
    ensures Tracked(ItemStep(q, items[i]), cap, id, tries + if Attempts(items[i], id) then 1 else 0)
  {
    hide Deliver, Accepts, QueueOk, Visited, InSome, Kept, Tried, Selected, Failcount, Fatality;
    var item := items[i];
    var q' := ItemStep(q, item);
    VisitedGrows(items, i);
    if item.Visit? {
      VisitChange(q, item, id);
      if Attempts(item, id) {
        AttemptedKey(q, item, id);
        TriedCount(q, q', id, Accepts(q, item, id));
      } else {
        KeptCount(q, q', id);
        KeptOutbox(q, q', id);
      }
    } else {
      SubmitTracks(q, cap, item.mail, id, tries);
    }
  }

  lemma AttemptedKey(q: Queue, item: Item, id: nat)
    requires item.Visit? && Selected(q, item.key, item.txs) && Attempts(item, id) && QueueOk(q)
    ensures id in q.outbox && KeyOf(q.outbox[id]) == item.key && id < q.nextId && Fatality(q, id) == 0
  {
    assert InSome(item.txs, |item.txs|, id);
  }

  lemma TriedCount(q: Queue, q': Queue, id: nat, accepted: bool)
    requires Tried(q, q', id, accepted) && id in q.outbox
    ensures id in q'.outbox ==> Failcount(q', id) == Failcount(q, id) + 1 && q'.outbox[id] == q.outbox[id]
  {
  }

  lemma KeptOutbox(q: Queue, q': Queue, id: nat)
    requires Kept(q, q', id, None)
    ensures id in q.outbox <==> id in q'.outbox
  {
  }

  lemma SubmitTracks(q: Queue, cap: nat, m: Mail, id: nat, tries: nat)
    requires QueueOk(q) && cap >= 1 && Tracked(q, cap, id, tries)
    ensures Tracked(Insert(q, m), cap, id, tries)
    ensures id in q.outbox ==> id in Insert(q, m).outbox && Insert(q, m).outbox[id] == q.outbox[id]
    ensures id in q.outbox ==>
      Failcount(Insert(q, m), id) == Failcount(q, id) && Fatality(Insert(q, m), id) == Fatality(q, id)
    ensures id !in q.outbox && id in Insert(q, m).outbox ==>
      Failcount(Insert(q, m), id) == 0 && Fatality(Insert(q, m), id) == 0
  {
    hide Failcount, Fatality;
    SubmitChange(q, m, id);
    if id != q.nextId { KeptCount(q, Insert(q, m), id); }
  }

  lemma VisitedGrows(items: seq<Item>, i: nat)
    requires i < |items|
    ensures forall key :: Visited(items, i, key) ==> Visited(items, i + 1, key)
    ensures items[i].Visit? ==> Visited(items, i + 1, items[i].key)
  {
  }

  lemma {:induction false} ItemsTrack(q: Queue, cap: nat, items: seq<Item>, i: nat, id: nat, tries: nat)
    requires QueueOk(q) && Scheduled(q, items) && i <= |items| && cap >= 1
    requires Spare(q, cap, id) && Tracked(q, cap, id, tries)
    ensures Bounded(Items(q, items, i), cap, items, i, id)
    ensures Tracked(Items(q, items, i), cap, id, tries + TriesIn(items, i, id))
  {
    hide QueueOk, Selected, ItemStep, Attempts, Fatality, Failcount;
    if i > 0 {
      ItemsTrack(q, cap, items, i - 1, id, tries);
      ItemsOk(q, items, i - 1);
      ItemTracks(Items(q, items, i - 1), cap, items, i - 1, id, tries + TriesIn(items, i - 1, id));
    }
  }

  /** An interval leaves the queue calm, and the count of attempts right. */
  lemma IntervalTracks(q: Queue, iv: Interval, cfg: Settings, cap: nat, id: nat, tries: nat)
    requires QueueOk(q) && Proper(q, iv, cfg) && 1 <= cfg.retries <= cap
    requires Spare(q, cap, id) && Tracked(q, cap, id, tries)
    ensures QueueOk(Play(q, iv, cfg))
    ensures Settles(Play(q, iv, cfg), cfg.retries, cap, id, tries + TriesIn(iv.items, |iv.items|, id))
  {
    hide QueueOk, Items, Bounce, Scheduled, AllBounces, TriesIn, Tracked, Spare, Settles, CandidateList;
    hide Failcount, Fatality, KeyOf;
    var mid := Delivered(q, iv);
    ItemsTrack(q, cap, iv.items, |iv.items|, id, tries);
    ItemsOk(q, iv.items, |iv.items|);
    CandidatesQueued(mid, cfg.retries, iv.cands);
    Bounced(mid, iv.cands, cfg.bounceTo, iv.notices, |iv.cands|);
    assert iv.cands[..|iv.cands|] == iv.cands;
    var mails := AllBounces(mid, iv.cands, cfg.bounceTo, iv.notices, |iv.cands|);
    BouncesSettle(mid, Play(q, iv, cfg), iv.cands, mails, cfg.retries, cap, id, tries + TriesIn(iv.items, |iv.items|, id));
  }

  ghost predicate Settles(q: Queue, retries: nat, cap: nat, id: nat, tries: nat) {
    (id in q.outbox ==> Fatality(q, id) == 0 && Failcount(q, id) < retries) && Tracked(q, cap, id, tries)
  }

  /** Where the candidates are gone and the rest is as it was, behind bounces. */
  lemma BouncesSettle(mid: Queue, q': Queue, cands: seq<nat>, mails: seq<Mail>, retries: nat, cap: nat, id: nat, tries: nat)
    requires QueueOk(mid) && CandidateList(mid, retries, cands) && 1 <= retries <= cap
    requires Queued(mid, q', mails) && Undisturbed(mid, q', cands)
    requires forall k :: 0 <= k < |cands| ==> Removed(q', cands[k])
    requires id in mid.outbox ==> Failcount(mid, id) <= cap
    requires Tracked(mid, cap, id, tries)
    ensures QueueOk(q') && Settles(q', retries, cap, id, tries)
  {
    hide QueueOk, Kept, Failcount, Fatality;
    if id in cands {
      CandidateSettles(mid, q', cands, retries, cap, id, tries);
    } else if id < mid.nextId {
      KeptCount(mid, q', id);
      KeptOutbox(mid, q', id);
      assert id in cands <==> IsCandidate(mid, retries, id);
    } else {
      BehindIsNew(mid, q', mails, id);
      QueueBound(mid, id);
    }
  }

  lemma CandidateSettles(mid: Queue, q': Queue, cands: seq<nat>, retries: nat, cap: nat, id: nat, tries: nat)
    requires CandidateList(mid, retries, cands) && id in cands && Tracked(mid, cap, id, tries) && QueueOk(mid)
    requires forall k :: 0 <= k < |cands| ==> Removed(q', cands[k])
    requires (id in mid.outbox ==> Failcount(mid, id) <= cap) && mid.nextId <= q'.nextId
    ensures Settles(q', retries, cap, id, tries)
  {
    hide QueueOk, Failcount, Fatality;
    var k :| 0 <= k < |cands| && cands[k] == id;
    assert Removed(q', cands[k]);
    IdBelow(mid, id);
  }

  lemma QueueBound(q: Queue, id: nat)
    requires QueueOk(q) && id >= q.nextId
    ensures id !in q.outbox
  {
  }

  lemma BehindIsNew(q: Queue, q': Queue, mails: seq<Mail>, id: nat)
    requires Queued(q, q', mails) && id >= q.nextId
    ensures id in q'.outbox ==> Failcount(q', id) == 0
    ensures id >= q'.nextId ==> id !in q'.outbox
    ensures id in q'.outbox ==> Fatality(q', id) == 0
  {
    if id in q'.outbox {
      assert id < q'.nextId;
      assert NewRow(q', q.nextId + (id - q.nextId), mails[id - q.nextId]);
    }
  }

  ghost function Tries(ivs: seq<Interval>, i: nat, id: nat): nat
    requires i <= |ivs|
  {
    if i == 0 then 0 else Tries(ivs, i - 1, id) + TriesIn(ivs[i - 1].items, |ivs[i - 1].items|, id)
  }

  /** The attempts logged so far. */
  function TriesBefore(q: Queue, id: nat): (n: nat)
    requires QueueOk(q)
    ensures forall cap :: (id in q.outbox ==> Failcount(q, id) <= cap) ==> Tracked(q, cap, id, n)
  {
    if id in q.outbox then Failcount(q, id) else 0
  }

  /** How often a mail may come to be attempted in all: as configured, except that mail
      which starts with that many attempts behind it is tried once more, unless one of
      them was for good. */
  function Allowed(q: Queue, retries: nat, id: nat): nat {
    if id in q.outbox && Failcount(q, id) >= retries then Failcount(q, id) + if Fatality(q, id) > 0 then 0 else 1
    else retries
  }

  /** Whatever a run starts from, each interval leaves nothing in the queue that has
      failed for good or `retries` times. */
  lemma PlayCalm(q: Queue, iv: Interval, cfg: Settings)
    requires QueueOk(q) && Proper(q, iv, cfg) && cfg.retries >= 1
    ensures Calm(Play(q, iv, cfg), cfg.retries)
  {
    hide QueueOk, Proper, Play, Fatality, Failcount;
    forall id | id in Play(q, iv, cfg).outbox
      ensures Fatality(Play(q, iv, cfg), id) == 0 && Failcount(Play(q, iv, cfg), id) < cfg.retries
    {
      IntervalTracks(q, iv, cfg, Allowed(q, cfg.retries, id), id, TriesBefore(q, id));
    }
  }

  lemma StartTracks(q: Queue, retries: nat, id: nat)
    requires QueueOk(q) && retries >= 1
    ensures Spare(q, Allowed(q, retries, id), id) && Tracked(q, Allowed(q, retries, id), id, TriesBefore(q, id))
  {
    if id >= q.nextId { QueueBound(q, id); }
  }

  lemma {:induction false} RunTracks(q: Queue, ivs: seq<Interval>, cfg: Settings, i: nat, id: nat)
    requires QueueOk(q) && ProperRun(q, ivs, cfg) && cfg.retries >= 1 && i <= |ivs|
    ensures var (q', cap) := (Run(q, ivs, cfg, i), Allowed(q, cfg.retries, id));
            && QueueOk(q') && (i > 0 ==> Calm(q', cfg.retries))
            && Spare(q', cap, id) && Tracked(q', cap, id, TriesBefore(q, id) + Tries(ivs, i, id))
  {
    hide QueueOk, Proper, Play, Tracked, TriesIn, Fatality, Failcount;
    if i == 0 {
      StartTracks(q, cfg.retries, id);
      assert Tries(ivs, 0, id) == 0;
    } else {
      RunTracks(q, ivs, cfg, i - 1, id);
      var before, cap := Run(q, ivs, cfg, i - 1), Allowed(q, cfg.retries, id);
      IntervalTracks(before, ivs[i - 1], cfg, cap, id, TriesBefore(q, id) + Tries(ivs, i - 1, id));
      PlayCalm(before, ivs[i - 1], cfg);
    }
  }

  /** Over every run with at least one retry configured, from any queue: after each interval
      no queued mail has failed for good or `retries` times, every attempt at queued mail is
      in the log, and no mail is attempted more often than allowed. */
  lemma RetryBound(q: Queue, ivs: seq<Interval>, cfg: Settings, i: nat, id: nat)
    requires QueueOk(q) && ProperRun(q, ivs, cfg) && cfg.retries >= 1 && i <= |ivs|
    ensures TriesBefore(q, id) + Tries(ivs, i, id) <= Allowed(q, cfg.retries, id)
    ensures var q' := Run(q, ivs, cfg, i);
            id in q'.outbox ==> TriesBefore(q, id) + Tries(ivs, i, id) == Failcount(q', id)
    ensures i > 0 ==> Calm(Run(q, ivs, cfg, i), cfg.retries)
    ensures Calm(q, cfg.retries) ==> Allowed(q, cfg.retries, id) == cfg.retries
  {
    hide QueueOk, ProperRun, Run, Tries, TriesBefore, Failcount, Fatality;
    RunTracks(q, ivs, cfg, i, id);
  }

  // ------------------------------------------------------------ a restart

  const LONE := Mail(None, None, [97], [])
  const NO_HOST := Visit(KeyOf(LONE), [Transaction(None, [], [0])], Unreachable(false))

  function Failed(n: nat): Queue {
    Queue(map[0 := LONE], multiset{}[Failure(0, false) := n], 1)
  }

  lemma FailedOk(n: nat)
    ensures QueueOk(Failed(n)) && Failcount(Failed(n), 0) == n && Fatality(Failed(n), 0) == 0
    ensures forall id: nat :: id in Failed(n).outbox <==> id == 0
  {
  }

  lemma LoneSelected(n: nat)
    ensures NO_HOST.Visit? && Selected(Failed(n), NO_HOST.key, NO_HOST.txs) && Attempts(NO_HOST, 0)
  {
    hide Failcount, KeyOf;
    var txs := NO_HOST.txs;
    FailedOk(n);
    assert Distinct(txs[0].ids);
    assert 0 in txs[0].ids && InSome(txs, 1, 0);
    assert forall id :: InSome(txs, 1, id) ==> id == 0;
  }

  lemma LoneVisited(n: nat)
    ensures ItemStep(Failed(n), NO_HOST) == Failed(n + 1)
  {
    hide KeyOf;
    assert LogFailure(Failed(n), 0, false).faillog == Failed(n + 1).faillog;
    LogsOne(Failed(n), [0], false);
    var txs := NO_HOST.txs;
    assert LogTransactions(Failed(n), txs, false, 0) == Failed(n);
  }

  lemma LogsOne(q: Queue, ids: seq<nat>, fatal: bool)
    requires |ids| == 1
    ensures LogAll(q, ids, fatal, 1) == LogFailure(q, ids[0], fatal)
  {
    hide LogFailure;
    assert LogAll(q, ids, fatal, 0) == q;
  }

  lemma SingleVisit(q: Queue, item: Item, id: nat)
    requires item.Visit? && Selected(q, item.key, item.txs) && Attempts(item, id)
    ensures Scheduled(q, [item]) && Items(q, [item], 1) == ItemStep(q, item) && TriesIn([item], 1, id) == 1
  {
    hide ItemStep, Selected, Attempts;
    NothingYet(q, [item]);
    assert TriesIn([item], 0, id) == 0;
  }

  lemma OneVisit(n: nat)
    ensures Scheduled(Failed(n), [NO_HOST]) && Items(Failed(n), [NO_HOST], 1) == Failed(n + 1)
    ensures TriesIn([NO_HOST], 1, 0) == 1
  {
    hide *;
    LoneSelected(n);
    LoneVisited(n);
    SingleVisit(Failed(n), NO_HOST, 0);
  }

  lemma LoneCandidate()
    ensures CandidateList(Failed(2), 1, [0])
  {
    hide Failed, Failcount, Fatality;
    FailedOk(2);
    var cands: seq<nat> := [0];
    assert Distinct(cands);
    assert cands[0] == 0;
  }

  /** The bound of a calm queue is not that of every queue: with one retry, a daemon that
      is stopped between the deliveries of an interval and its bounces, and started again,
      attempts the same mail twice. */
  lemma StoppedBeforeBounces() returns (q: Queue, stopped: seq<Item>, iv: Interval, cfg: Settings)
    ensures QueueOk(q) && Calm(q, cfg.retries) && cfg.retries == 1 && Scheduled(q, stopped)
    ensures var q' := Items(q, stopped, |stopped|);
            && QueueOk(q') && Proper(q', iv, cfg)
            && TriesBefore(q, 0) + TriesIn(stopped, |stopped|, 0) + TriesIn(iv.items, |iv.items|, 0) == 2
  {
    hide Items, Scheduled, ItemStep, Failed, QueueOk, CandidateList, TriesIn, Failcount, Fatality;
    FailedOk(0);
    FailedOk(1);
    OneVisit(0);
    OneVisit(1);
    LoneCandidate();
    q, stopped, cfg := Failed(0), [NO_HOST], Settings(1, []);
    iv := Interval([NO_HOST], [0], _ => []);
  }
}
