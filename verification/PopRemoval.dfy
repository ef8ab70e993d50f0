/** What QUIT removes and what message numbers stand for, over every fair run: exactly
    what was deleted, nobody else's mail, and the same mail all session. */
module PopRemoval {
  import opened Bytes
  import opened DotStuffing
  import opened MailTables
  import opened Maildrops
  import opened PopSessions
  import opened PopInvariant
  import opened PopRuns
  import opened PopConsistency
  import opened PopFairness
  import opened PopTheorems

  predicate InTransaction(w: World, slot: nat) {
    Live(w, slot) && w.sessions[slot].stage.Transaction?
  }

  lemma SlotSigned(w: World, slot: nat)
    requires FairWorld(w) && InTransaction(w, slot)
    ensures w.sessions[slot].authOk && w.sessions[slot].authenticated.Some? && w.sessions[slot].authorized.Some?
    ensures OwnMaildrop(w.store, w.sessions[slot].authorized.value, w.sessions[slot].drop)
    ensures FreeBut(w, slot, w.sessions[slot].authorized.value)
  {
    SlotFair(w, slot);
    HolderIsAlone(w, slot);
  }

  // ------------------------------------------------------------ what a session picks

  /** Which DELE commands to count: all, those whose mark was stored, those whose mark
      failed. */
  datatype Kind = All | Stored | Lost

  predicate Counts(kind: Kind, mails: seq<PopMail>, n: nat, fault: bool) {
    match kind
    case All => 1 <= n <= |mails|
    case Stored => Deletable(mails, n) && !fault
    case Lost => Deletable(mails, n) && fault
  }

  /** The numbers a session has deleted: DELE adds one, RSET and the end of the session
      forget them. */
  function Picks(w: World, e: Event, slot: nat, kind: Kind, picked: set<nat>): set<nat> {
    match e
    case Accept(k, _) => if k == slot && !Live(w, slot) then {} else picked
    case Hangup(k, _) => if k == slot then {} else picked
    case Line(k, cmd, _, fault) =>
      if k != slot || !InTransaction(w, slot) then picked
      else
        (match cmd
         case Dele(n) => if Counts(kind, w.sessions[slot].drop.mails, n, fault) then picked + {n} else picked
         case Rset => {}
         case Quit => {}
         case _ => picked)
    case Arrive(_, _, _, _, _) => picked
  }

  function Picked(w: World, es: seq<Event>, slot: nat, kind: Kind): set<nat>
    decreases |es|
  {
    if es == [] then {}
    else Picks(Run(w, es[..|es| - 1]), es[|es| - 1], slot, kind, Picked(w, es[..|es| - 1], slot, kind))
  }

  // ------------------------------------------------------------ the flags

  predicate IsFlagged(mails: seq<PopMail>, n: nat) { 1 <= n <= |mails| && mails[n - 1].deleted }

  /** The numbers whose deletion flag is set. */
  function FlagsOf(w: World, slot: nat): set<nat> {
    if InTransaction(w, slot) then
      set n: nat | n <= |w.sessions[slot].drop.mails| && IsFlagged(w.sessions[slot].drop.mails, n)
    else {}
  }

  lemma OtherSlotFlags(w: World, k: nat, result: (Store, Session), slot: nat)
    requires k < |w.sessions| && k != slot
    ensures FlagsOf(Put(w, k, result), slot) == FlagsOf(w, slot)
  {
  }

  lemma AuthorizationFlags(w: World, slot: nat, cmd: Command, sasl: SaslOutcome, fault: bool)
    requires FairWorld(w) && Live(w, slot) && w.sessions[slot].stage.Authorization?
    ensures FlagsOf(Put(w, slot, AuthorizationLine(w.store, w.sessions[slot], cmd, sasl, fault)), slot) == {}
  {
    hide React, Snapshot, FairWorld, OwnMaildrop;
    var s := w.sessions[slot];
    SlotFair(w, slot);
    ReactKeeps(s, cmd, sasl);
    assert forall k :: 0 <= k < |s.drop.mails| ==> Leftover(w.store, s.drop.mails[k]);
    match React(s, cmd, sasl)
    case Stay(next) =>
    case Leave =>
    case SignIn(base, user, secret) =>
      if (user, secret) in w.store.credentials {
        SnapshotUnflagged(w.store, w.store.credentials[(user, secret)]);
      }
  }

  lemma SnapshotUnflagged(store: Store, user: Text)
    ensures forall k :: 0 <= k < |Snapshot(store, user)| ==> !Snapshot(store, user)[k].deleted
  {
  }

  lemma TransactionFlags(w: World, slot: nat, cmd: Command, fault: bool)
    requires InTransaction(w, slot) && w.sessions[slot].authorized.Some?
    ensures FlagsOf(Put(w, slot, TransactionLine(w.store, w.sessions[slot], cmd, fault)), slot)
         == Picks(w, Line(slot, cmd, Failed, fault), slot, All, FlagsOf(w, slot))
  {
    hide Update, Release;
    var s := w.sessions[slot];
    var (store', s') := TransactionLine(w.store, s, cmd, fault);
    var after := FlagsOf(Put(w, slot, (store', s')), slot);
    if cmd.Dele? && Deletable(s.drop.mails, cmd.n) {
      assert s'.drop.mails == WithFlag(s.drop.mails, cmd.n - 1);
      assert after == FlagsOf(w, slot) + {cmd.n};
    } else if cmd.Dele? && 1 <= cmd.n <= |s.drop.mails| {
      assert FlagsOf(w, slot) + {cmd.n} == FlagsOf(w, slot);
    }
  }

  lemma ClosedFlags(w: World, slot: nat, fault: bool)
    requires slot < |w.sessions|
    ensures FlagsOf(Put(w, slot, Close(w.store, w.sessions[slot], fault)), slot) == {}
  {
  }

  lemma StepFlags(w: World, e: Event, slot: nat)
    requires FairWorld(w)
    ensures FlagsOf(Step(w, e), slot) == Picks(w, e, slot, All, FlagsOf(w, slot))
  {
    hide AuthorizationLine, TransactionLine, FairWorld, SessionFair, Close, Deliver;
    if slot < |w.sessions| { SlotFair(w, slot); }
    match e
    case Accept(k, _) =>
    case Line(k, cmd, sasl, fault) =>
      if Live(w, k) {
        if k != slot {
          OtherSlotFlags(w, k, HandleLine(w.store, w.sessions[k], cmd, sasl, fault), slot);
        } else if w.sessions[slot].stage.Authorization? {
          AuthorizationFlags(w, slot, cmd, sasl, fault);
        } else {
          SlotSigned(w, slot);
          TransactionFlags(w, slot, cmd, fault);
        }
      }
    case Hangup(k, fault) =>
      if Live(w, k) {
        if k != slot {
          OtherSlotFlags(w, k, Close(w.store, w.sessions[k], fault), slot);
        } else {
          ClosedFlags(w, slot, fault);
        }
      }
    case Arrive(_, _, _, _, _) =>
  }

  /** The flags of the snapshot are the numbers the session has deleted, whether their
      marks were stored or not; and no number is both. */
  lemma {:induction false} FlagsArePicks(w: World, es: seq<Event>, slot: nat)
    requires Started(w) && FairRun(w, es)
    ensures FlagsOf(Run(w, es), slot) == Picked(w, es, slot, All)
    ensures Picked(w, es, slot, All) == Picked(w, es, slot, Stored) + Picked(w, es, slot, Lost)
    ensures Picked(w, es, slot, Stored) !! Picked(w, es, slot, Lost)
    decreases |es|
  {
    hide Step, Picks, FairWorld, WrongGrant, OverLeftovers;
    if es != [] {
      var before, e := Run(w, es[..|es| - 1]), es[|es| - 1];
      FlagsArePicks(w, es[..|es| - 1], slot);
      StartedFair(w);
      FairThroughout(w, es[..|es| - 1]);
      StepFlags(before, e, slot);
      PicksSplit(before, e, slot, Picked(w, es[..|es| - 1], slot, Stored), Picked(w, es[..|es| - 1], slot, Lost));
    }
  }

  lemma PicksSplit(w: World, e: Event, slot: nat, stored: set<nat>, lost: set<nat>)
    requires FlagsOf(w, slot) == stored + lost && stored !! lost
    ensures Picks(w, e, slot, All, stored + lost) == Picks(w, e, slot, Stored, stored) + Picks(w, e, slot, Lost, lost)
    ensures Picks(w, e, slot, Stored, stored) !! Picks(w, e, slot, Lost, lost)
  {
    if e.Line? && e.slot == slot && InTransaction(w, slot) && e.cmd.Dele? {
      var mails, n := w.sessions[slot].drop.mails, e.cmd.n;
      assert 1 <= n <= |mails| ==> (n in FlagsOf(w, slot) <==> !Deletable(mails, n));
    }
  }

  // ------------------------------------------------------------ the marks

  /** The ids the numbers in `picked` stand for, in one of the two databases. */
  function Gone(mails: seq<PopMail>, picked: set<nat>, master: bool): set<nat> {
    set n | n in picked && 1 <= n <= |mails| && mails[n - 1].master == master :: mails[n - 1].id
  }

  /** The deletion tables hold exactly these numbers of the session. */
  ghost predicate MarksMatch(w: World, slot: nat, stored: set<nat>) {
    if InTransaction(w, slot) && w.sessions[slot].authorized.Some? then
      var (user, drop) := (w.sessions[slot].authorized.value, w.sessions[slot].drop);
      && (forall id: nat :: Mark(user, id) in w.store.marks <==> id in Gone(drop.mails, stored, true))
      && (forall id: nat :: Mark(user, id) in drop.marks <==> id in Gone(drop.mails, stored, false))
    else stored == {}
  }

  /** Steps of other sessions do nothing to the marks of a user they do not hold. */
  lemma OthersMarks(store: Store, s: Session, cmd: Command, sasl: SaslOutcome, fault: bool, user: Text)
    requires SignedInOk(store, s) && s.open && (s.authOk ==> s.authorized != Some(user))
    ensures forall id: nat :: Mark(user, id) in HandleLine(store, s, cmd, sasl, fault).0.marks <==> Mark(user, id) in store.marks
    ensures forall id: nat :: Mark(user, id) in Close(store, s, fault).0.marks <==> Mark(user, id) in store.marks
  {
    hide Snapshot, React, Without;
  }

  lemma OtherSlotMarks(w: World, e: Event, slot: nat, stored: set<nat>)
    requires FairWorld(w) && MarksMatch(w, slot, stored) && (e.Line? || e.Hangup?) && Live(w, e.slot) && e.slot != slot
    ensures MarksMatch(Step(w, e), slot, stored)
  {
    hide HandleLine, Close, FairWorld, OwnMaildrop, Gone;
    if InTransaction(w, slot) {
      SlotSigned(w, slot);
      var user := w.sessions[slot].authorized.value;
      SlotFair(w, e.slot);
      assert !Holds(w.sessions[e.slot], user);
      NotThatUser(w, e.slot, user);
      var (cmd, sasl) := if e.Line? then (e.cmd, e.sasl) else (Other, Failed);
      OthersMarks(w.store, w.sessions[e.slot], cmd, sasl, e.fault, user);
    }
  }

  lemma NotThatUser(w: World, k: nat, user: Text)
    requires FairWorld(w) && Live(w, k) && !Holds(w.sessions[k], user)
    ensures w.sessions[k].authOk ==> w.sessions[k].authorized != Some(user)
  {
    SlotFair(w, k);
  }

  lemma AuthorizationMarks(w: World, slot: nat, cmd: Command, sasl: SaslOutcome, fault: bool)
    requires FairWorld(w) && Live(w, slot) && w.sessions[slot].stage.Authorization?
    requires !WrongGrant(w, Line(slot, cmd, sasl, fault))
    ensures MarksMatch(Step(w, Line(slot, cmd, sasl, fault)), slot, {})
  {
    hide React, Snapshot, OwnMaildrop, Leftovers, Own, TablesOk, Attachable, Exclusive, FreeBut;
    var s := w.sessions[slot];
    SlotFair(w, slot);
    ReactKeeps(s, cmd, sasl);
    match React(s, cmd, sasl)
    case Stay(next) =>
    case Leave =>
    case SignIn(base, user, secret) =>
      hide MarksFair;
      SignInMarks(w, slot, base, user, secret, fault);
  }

  lemma SignInMarks(w: World, slot: nat, base: Session, user: Text, secret: Text, fault: bool)
    requires FairWorld(w) && Live(w, slot) && w.sessions[slot].stage.Authorization?
    requires base.drop == w.sessions[slot].drop && base.stage.Authorization?
    requires (user, secret) in w.store.credentials && fault ==>
      var identity := w.store.credentials[(user, secret)];
      Granted(w.store, base.drop, identity, fault) ==> Locked(w.store, identity) && FreeBut(w, slot, identity)
    ensures MarksMatch(Put(w, slot, Login(w.store, base, user, secret, fault)), slot, {})
  {
    hide Snapshot, OwnMaildrop, Leftovers, Own, TablesOk, Attachable, Exclusive, FreeBut;
    SlotFair(w, slot);
    if (user, secret) in w.store.credentials {
      var identity := w.store.credentials[(user, secret)];
      if Granted(w.store, base.drop, identity, fault) {
        GrantedLogin(w.store, base, user, secret, fault);
        GrantedMails(w.store, base.drop, identity, fault);
        GrantUnheld(w, slot, base, identity, fault);
        UnheldUnmarked(w, identity);
      } else {
        RefusedStays(w.store, base, user, secret, fault);
      }
    }
  }

  /** A maildrop that is rightly granted is held by nobody. */
  lemma GrantUnheld(w: World, slot: nat, base: Session, user: Text, fault: bool)
    requires Exclusive(w) && slot < |w.sessions| && w.sessions[slot].stage.Authorization?
    requires Granted(w.store, base.drop, user, fault)
    requires fault ==> Locked(w.store, user) && FreeBut(w, slot, user)
    ensures !HasHolder(w, user)
  {
    forall i | 0 <= i < |w.sessions| ensures !Holds(w.sessions[i], user) {
      assert SignedInOk(w.store, w.sessions[i]);
    }
  }

  lemma UnheldUnmarked(w: World, user: Text)
    requires MarksFair(w) && !HasHolder(w, user)
    ensures forall id: nat :: Mark(user, id) !in w.store.marks
  {
    assert forall m :: m in w.store.marks ==> m.user != user;
  }

  lemma RefusedStays(store: Store, base: Session, user: Text, secret: Text, fault: bool)
    requires (user, secret) in store.credentials && base.stage.Authorization?
    requires !Granted(store, base.drop, store.credentials[(user, secret)], fault)
    ensures Login(store, base, user, secret, fault).1.stage.Authorization?
  {
    hide Snapshot;
  }

  /** Number `k` is among those stored, and stands for `id` of that database. */
  ghost predicate GoneAt(mails: seq<PopMail>, stored: set<nat>, master: bool, id: nat, k: nat) {
    k in stored && 1 <= k <= |mails| && mails[k - 1].master == master && mails[k - 1].id == id
  }

  lemma GoneSomewhere(mails: seq<PopMail>, stored: set<nat>, master: bool, id: nat)
    ensures id in Gone(mails, stored, master) <==> exists k: nat :: GoneAt(mails, stored, master, id, k)
  {
    if id in Gone(mails, stored, master) {
      var k :| k in stored && 1 <= k <= |mails| && mails[k - 1].master == master && mails[k - 1].id == id;
      assert GoneAt(mails, stored, master, id, k);
    }
  }

  lemma GoneMore(mails: seq<PopMail>, stored: set<nat>, n: nat, master: bool, id: nat)
    requires 1 <= n <= |mails|
    ensures id in Gone(WithFlag(mails, n - 1), stored + {n}, master)
       <==> id in Gone(mails, stored, master) || (mails[n - 1].master == master && mails[n - 1].id == id)
    ensures id in Gone(WithFlag(mails, n - 1), stored, master) <==> id in Gone(mails, stored, master)
  {
    hide Gone;
    var flagged := WithFlag(mails, n - 1);
    GoneSomewhere(mails, stored, master, id);
    GoneSomewhere(flagged, stored, master, id);
    GoneSomewhere(flagged, stored + {n}, master, id);
    forall k: nat
      ensures GoneAt(flagged, stored, master, id, k) <==> GoneAt(mails, stored, master, id, k)
      ensures GoneAt(flagged, stored + {n}, master, id, k)
         <==> GoneAt(mails, stored, master, id, k) || (k == n && mails[n - 1].master == master && mails[n - 1].id == id)
    {
    }
    assert GoneAt(flagged, stored + {n}, master, id, n) <==> (mails[n - 1].master == master && mails[n - 1].id == id);
  }

  lemma DeleMarks(w: World, slot: nat, n: nat, sasl: SaslOutcome, fault: bool, stored: set<nat>)
    requires FairWorld(w) && InTransaction(w, slot) && MarksMatch(w, slot, stored)
    ensures var e := Line(slot, Dele(n), sasl, fault);
            MarksMatch(Step(w, e), slot, Picks(w, e, slot, Stored, stored))
  {
    hide FairWorld, OwnMaildrop, Gone;
    SlotSigned(w, slot);
    var s := w.sessions[slot];
    if Deletable(s.drop.mails, n) {
      forall id: nat, master: bool
        ensures id in Gone(WithFlag(s.drop.mails, n - 1), stored + {n}, master)
          <==> id in Gone(s.drop.mails, stored, master) || (s.drop.mails[n - 1].master == master && s.drop.mails[n - 1].id == id)
        ensures id in Gone(WithFlag(s.drop.mails, n - 1), stored, master) <==> id in Gone(s.drop.mails, stored, master)
      {
        GoneMore(s.drop.mails, stored, n, master, id);
      }
    } else {
      assert w.sessions[slot := s] == w.sessions;
    }
  }

  lemma OwnMarks(w: World, slot: nat, cmd: Command, sasl: SaslOutcome, fault: bool, stored: set<nat>)
    requires FairWorld(w) && InTransaction(w, slot) && MarksMatch(w, slot, stored)
    ensures var e := Line(slot, cmd, sasl, fault);
            MarksMatch(Step(w, e), slot, Picks(w, e, slot, Stored, stored))
  {
    hide FairWorld, Update, Release;
    SlotSigned(w, slot);
    var s := w.sessions[slot];
    if cmd.Dele? {
      DeleMarks(w, slot, cmd.n, sasl, fault, stored);
    } else if !cmd.Quit? && !cmd.Rset? {
      assert w.sessions[slot := s] == w.sessions;
    }
  }

  lemma StepMarks(w: World, e: Event, slot: nat, stored: set<nat>)
    requires FairWorld(w) && !WrongGrant(w, e) && MarksMatch(w, slot, stored)
    ensures MarksMatch(Step(w, e), slot, Picks(w, e, slot, Stored, stored))
  {
    hide FairWorld, AuthorizationLine, TransactionLine, WrongGrant, Gone, Release;
    match e
    case Accept(k, _) =>
    case Line(k, cmd, sasl, fault) =>
      if Live(w, k) {
        if k != slot {
          OtherSlotMarks(w, e, slot, stored);
        } else if w.sessions[slot].stage.Authorization? {
          AuthorizationMarks(w, slot, cmd, sasl, fault);
        } else {
          OwnMarks(w, slot, cmd, sasl, fault, stored);
        }
      }
    case Hangup(k, fault) =>
      if Live(w, k) && k != slot {
        OtherSlotMarks(w, e, slot, stored);
      }
    case Arrive(_, _, _, _, _) =>
  }

  /** In every fair run the deletion tables hold for a session exactly the numbers whose
      marks were stored since its last RSET. */
  lemma {:induction false} MarksArePicks(w: World, es: seq<Event>, slot: nat)
    requires Started(w) && FairRun(w, es)
    ensures MarksMatch(Run(w, es), slot, Picked(w, es, slot, Stored))
    decreases |es|
  {
    hide Step, Picks, FairWorld, WrongGrant, OverLeftovers, MarksMatch;
    if es == [] {
      NoMarksYet(w, slot);
    } else {
      var before, e := Run(w, es[..|es| - 1]), es[|es| - 1];
      MarksArePicks(w, es[..|es| - 1], slot);
      StartedFair(w);
      FairThroughout(w, es[..|es| - 1]);
      StepMarks(before, e, slot, Picked(w, es[..|es| - 1], slot, Stored));
    }
  }

  lemma NoMarksYet(w: World, slot: nat)
    requires w.sessions == []
    ensures MarksMatch(w, slot, {})
  {
  }

  // ------------------------------------------------------------ removal

  /** All rows but those with these ids, in order. */
  function Except(rows: seq<Row>, gone: set<nat>): seq<Row> {
    if rows == [] then []
    else if rows[0].id in gone then Except(rows[1..], gone)
    else [rows[0]] + Except(rows[1..], gone)
  }

  lemma {:induction false} WithoutIsExcept(rows: seq<Row>, marks: set<Mark>, user: Text, gone: set<nat>)
    requires forall id: nat :: Mark(user, id) in marks <==> id in gone
    ensures Without(rows, marks, user) == Except(rows, gone)
  {
    if rows != [] {
      WithoutIsExcept(rows[1..], marks, user, gone);
    }
  }

  lemma QuitRemovesMarked(w: World, slot: nat, sasl: SaslOutcome, fault: bool, stored: set<nat>)
    requires FairWorld(w) && InTransaction(w, slot) && MarksMatch(w, slot, stored)
    ensures var (drop, w') := (w.sessions[slot].drop, Step(w, Line(slot, Quit, sasl, fault)));
            && w'.store.master.rows == Except(w.store.master.rows, Gone(drop.mails, stored, true))
            && w'.store.files.Keys == w.store.files.Keys
            && (forall f :: f in w.store.files ==>
                  w'.store.files[f].rows ==
                  if drop.conn == Some(f) then Except(w.store.files[f].rows, Gone(drop.mails, stored, false))
                  else w.store.files[f].rows)
  {
    hide Without, Except, Gone, FairWorld, Backed;
    SlotSigned(w, slot);
    var s := w.sessions[slot];
    var user := s.authorized.value;
    WithoutIsExcept(w.store.master.rows, w.store.marks, user, Gone(s.drop.mails, stored, true));
    if s.drop.conn.Some? {
      WithoutIsExcept(w.store.files[s.drop.conn.value].rows, s.drop.marks, user, Gone(s.drop.mails, stored, false));
    }
  }

  /** Every number of a session stands for a row of its own user. */
  lemma NumbersAreOwn(w: World, slot: nat, n: nat)
    requires FairWorld(w) && InTransaction(w, slot) && 1 <= n <= |w.sessions[slot].drop.mails|
    ensures Denoted(w.store, w.sessions[slot].drop, n).Some?
    ensures w.sessions[slot].authorized == Some(Denoted(w.store, w.sessions[slot].drop, n).value.user)
  {
    SlotSigned(w, slot);
    var s := w.sessions[slot];
    assert Backs(Denoted(w.store, s.drop, (n - 1) + 1), s.drop.mails[n - 1], s.authorized.value);
  }

  /** In every fair run, whatever fails otherwise, QUIT removes from both databases exactly
      the mails this session has deleted since its last RSET with their marks stored: all
      it has deleted if and only if no mark of it failed. Each is the user's own, and no
      other file is touched. */
  lemma QuitRemovesExactly(w: World, es: seq<Event>, slot: nat, sasl: SaslOutcome, fault: bool)
    requires Started(w) && FairRun(w, es) && InTransaction(Run(w, es), slot)
    ensures var (v, stored) := (Run(w, es), Picked(w, es, slot, Stored));
            var (drop, v') := (v.sessions[slot].drop, Step(v, Line(slot, Quit, sasl, fault)));
            && v'.store.master.rows == Except(v.store.master.rows, Gone(drop.mails, stored, true))
            && v'.store.files.Keys == v.store.files.Keys
            && (forall f :: f in v.store.files ==>
                  v'.store.files[f].rows ==
                  if drop.conn == Some(f) then Except(v.store.files[f].rows, Gone(drop.mails, stored, false))
                  else v.store.files[f].rows)
    ensures Picked(w, es, slot, Stored) == Picked(w, es, slot, All) <==> Picked(w, es, slot, Lost) == {}
    ensures var (v, drop) := (Run(w, es), Run(w, es).sessions[slot].drop);
            forall n :: n in Picked(w, es, slot, All) ==>
              && 1 <= n <= |drop.mails| && Denoted(v.store, drop, n).Some?
              && v.sessions[slot].authorized == Some(Denoted(v.store, drop, n).value.user)
  {
    hide Except, Gone, FairWorld, Step, Run, FairRun, Denoted, MarksMatch, Picked;
    var v := Run(w, es);
    StartedFair(w);
    FairThroughout(w, es);
    FlagsArePicks(w, es, slot);
    MarksArePicks(w, es, slot);
    QuitRemovesMarked(v, slot, sasl, fault, Picked(w, es, slot, Stored));
    forall n | n in Picked(w, es, slot, All)
      ensures 1 <= n <= |v.sessions[slot].drop.mails| && Denoted(v.store, v.sessions[slot].drop, n).Some?
      ensures v.sessions[slot].authorized == Some(Denoted(v.store, v.sessions[slot].drop, n).value.user)
    {
      assert n in FlagsOf(v, slot);
      NumbersAreOwn(v, slot, n);
    }
  }

  /** Nothing but QUIT from TRANSACTION and mail that arrives changes a mailbox. */
  lemma OnlyQuitRemoves(w: World, e: Event)
    requires !e.Arrive?
    requires !(e.Line? && e.cmd.Quit? && InTransaction(w, e.slot))
    ensures Step(w, e).store.master == w.store.master && Step(w, e).store.files == w.store.files
  {
    hide Query, Snapshot, React, Release;
    if (e.Line? || e.Hangup?) && Live(w, e.slot) && w.sessions[e.slot].authorized.Some? {
      ReleaseUntouched(w.store, w.sessions[e.slot].authorized.value, w.sessions[e.slot].drop, e.fault);
    }
    if e.Line? && Live(w, e.slot) && w.sessions[e.slot].stage.Authorization? {
      AuthorizationTables(w.store, w.sessions[e.slot], e.cmd, e.sasl, e.fault);
    }
  }

  lemma AuthorizationTables(store: Store, s: Session, cmd: Command, sasl: SaslOutcome, fault: bool)
    ensures var store' := AuthorizationLine(store, s, cmd, sasl, fault).0;
            store'.master == store.master && store'.files == store.files
  {
    hide Query, Snapshot, React, Release;
    if s.authorized.Some? { ReleaseUntouched(store, s.authorized.value, s.drop, fault); }
  }

  // ------------------------------------------------------------ message numbers

  /** Nobody else's step loses a row of the user `slot` is signed in as. */
  lemma OthersKeepRows(w: World, e: Event, slot: nat)
    requires FairWorld(w) && InTransaction(w, slot) && w.sessions[slot].authorized.Some?
    requires !(e.Line? && e.cmd.Quit? && e.slot == slot)
    ensures var (user, store') := (w.sessions[slot].authorized.value, Step(w, e).store);
            && KeepsRows(w.store.master.rows, store'.master.rows, user)
            && store'.files.Keys == w.store.files.Keys
            && forall f :: f in w.store.files ==> KeepsRows(w.store.files[f].rows, store'.files[f].rows, user)
  {
    hide FairWorld, OwnMaildrop, Fetch, Update, Deliver, AuthorizationLine, Release;
    var user := w.sessions[slot].authorized.value;
    if e.Arrive? {
      FairTables(w);
      DeliverUntouched(w.store, e.inbox, e.at, e.user, e.ident, e.data, user);
    } else if e.Line? && e.cmd.Quit? && InTransaction(w, e.slot) {
      SlotSigned(w, e.slot);
      SlotSigned(w, slot);
      assert !Holds(w.sessions[e.slot], user);
      var s := w.sessions[e.slot];
      UpdateFair(w, e.slot);
      assert RowsKept(w.store, Update(w.store, s.drop, s.authorized.value), user);
      ReleaseUntouched(Update(w.store, s.drop, s.authorized.value), s.authorized.value, s.drop, e.fault);
    } else {
      OnlyQuitRemoves(w, e);
    }
  }

  /** The session stays signed in through the step. */
  predicate Stays(w: World, e: Event, slot: nat) {
    InTransaction(w, slot) && !(e.Hangup? && e.slot == slot) && !(e.Line? && e.cmd.Quit? && e.slot == slot)
  }

  /** Nothing about the snapshot but its flags changes while a session lasts. */
  lemma SnapshotStays(w: World, e: Event, slot: nat)
    requires FairWorld(w) && Stays(w, e, slot)
    ensures InTransaction(Step(w, e), slot)
    ensures Step(w, e).sessions[slot].authorized == w.sessions[slot].authorized
    ensures Step(w, e).sessions[slot].drop.conn == w.sessions[slot].drop.conn
    ensures Cleared(Step(w, e).sessions[slot].drop.mails) == Cleared(w.sessions[slot].drop.mails)
  {
    hide OwnMaildrop, FairWorld, AuthorizationLine, Close, Deliver;
    SlotSigned(w, slot);
  }

  /** Message number `n` stands for the same row after any step, whoever makes it. */
  lemma NumberStaysStep(w: World, e: Event, slot: nat, n: nat)
    requires FairWorld(w) && Stays(w, e, slot) && 1 <= n <= |w.sessions[slot].drop.mails|
    ensures InTransaction(Step(w, e), slot) && n <= |Step(w, e).sessions[slot].drop.mails|
    ensures Denoted(w.store, w.sessions[slot].drop, n).Some?
    ensures Denoted(Step(w, e).store, Step(w, e).sessions[slot].drop, n) == Denoted(w.store, w.sessions[slot].drop, n)
  {
    hide FairWorld, Step, Fetch, PrivateMarksOwn;
    SlotSigned(w, slot);
    SnapshotStays(w, e, slot);
    OthersKeepRows(w, e, slot);
    NumbersAreOwn(w, slot, n);
    var before, after := w.sessions[slot].drop, Step(w, e).sessions[slot].drop;
    assert Cleared(before.mails)[n - 1] == Cleared(after.mails)[n - 1];
  }

  /** Every step of the run leaves the session signed in. */
  ghost predicate StaysThrough(w: World, es: seq<Event>, slot: nat)
    decreases |es|
  {
    es != [] ==> StaysThrough(w, es[..|es| - 1], slot) && Stays(Run(w, es[..|es| - 1]), es[|es| - 1], slot)
  }

  lemma {:induction false} NumberStays(w: World, es: seq<Event>, slot: nat, n: nat)
    requires FairWorld(w) && FairRun(w, es) && InTransaction(w, slot) && StaysThrough(w, es, slot)
    requires 1 <= n <= |w.sessions[slot].drop.mails|
    ensures FairWorld(Run(w, es)) && InTransaction(Run(w, es), slot)
    ensures n <= |Run(w, es).sessions[slot].drop.mails|
    ensures Denoted(w.store, w.sessions[slot].drop, n).Some?
    ensures Denoted(Run(w, es).store, Run(w, es).sessions[slot].drop, n) == Denoted(w.store, w.sessions[slot].drop, n)
    decreases |es|
  {
    hide FairWorld, Step, Denoted, WrongGrant, OverLeftovers;
    if es == [] {
      NumbersAreOwn(w, slot, n);
    } else {
      NumberStays(w, es[..|es| - 1], slot, n);
      var before := Run(w, es[..|es| - 1]);
      FairKept(before, es[|es| - 1]);
      NumberStaysStep(before, es[|es| - 1], slot, n);
    }
  }

  /** RETR n, any time in the session: what goes over the wire decodes to the data
      number n stood for when the session began, unless it is marked; and n stood for a
      mail of the session's user. */
  lemma RetrieveDelivers(w: World, es: seq<Event>, slot: nat, n: nat)
    requires FairWorld(w) && FairRun(w, es) && InTransaction(w, slot) && StaysThrough(w, es, slot)
    requires 1 <= n <= |w.sessions[slot].drop.mails|
    ensures var v := Run(w, es);
            && InTransaction(v, slot) && n <= |v.sessions[slot].drop.mails|
            && Denoted(w.store, w.sessions[slot].drop, n).Some?
            && w.sessions[slot].authorized == Some(Denoted(w.store, w.sessions[slot].drop, n).value.user)
            && (if v.sessions[slot].drop.mails[n - 1].deleted then Retrieved(v.store, v.sessions[slot].drop, n) == MARKED
                else exists wire ::
                  && Retrieved(v.store, v.sessions[slot].drop, n) == HERE_IT_COMES + wire
                  && Decode(wire) == Some(Denoted(w.store, w.sessions[slot].drop, n).value.data))
  {
    hide FairWorld, Run, FairRun, StaysThrough, Denoted, Decode, Wire;
    NumberStays(w, es, slot, n);
    NumbersAreOwn(w, slot, n);
    var v := Run(w, es);
    var data := Denoted(w.store, w.sessions[slot].drop, n).value.data;
    DecodeWire(data);
    if !v.sessions[slot].drop.mails[n - 1].deleted {
      assert Retrieved(v.store, v.sessions[slot].drop, n) == HERE_IT_COMES + Wire(data);
    }
  }

  // ------------------------------------------------------------ a mark that fails

  /** `NAME` has one mail, in the master mailbox. */
  const KEPT := Row(1, NAME, [], [])
  const KEPT_STORE := Store(map[NAME := false], Table([KEPT], 2), {}, map[], map[(NAME, SECRET) := NAME], map[])
  const LISTED := PopMail(1, 0, true, false, [])

  const KEPT_LOCKED := KEPT_STORE.(locks := map[NAME := true])
  const WAITING := Fresh(PLAIN).(authenticated := Some(NAME))
  const SIGNED_IN := WAITING.(stage := Transaction, authOk := true, authorized := Some(NAME), drop := Drop([LISTED], None, {}))
  const FLAGGED := SIGNED_IN.(drop := Drop([LISTED.(deleted := true)], None, {}))
  const LOST_MARK := [Accept(0, PLAIN), Line(0, User(NAME), Failed, false), Line(0, Pass(SECRET), Failed, false),
                      Line(0, Dele(1), Failed, true), Line(0, Quit, Failed, false)]

  lemma KeptLogin()
    ensures Login(KEPT_STORE, WAITING, NAME, SECRET, false) == (KEPT_LOCKED, SIGNED_IN)
  {
    var store := KEPT_STORE;
    assert store.locks[NAME := true] == map[NAME := true];
    assert Query(store.master.rows, NAME) == [KEPT] by { assert Query([], NAME) == []; assert [KEPT][1..] == []; }
    assert Entries([KEPT], true) == [LISTED];
    assert Snapshot(store, NAME) == [LISTED];
    assert [] + [LISTED] == [LISTED];
  }

  lemma KeptSignedIn(w: World)
    requires w == World(KEPT_STORE, [])
    ensures Run(w, LOST_MARK[..3]) == World(KEPT_LOCKED, [SIGNED_IN])
  {
    hide Login, Run;
    KeptLogin();
    RunNext(w, LOST_MARK, 0);
    assert Run(w, LOST_MARK[..1]) == World(KEPT_STORE, [Fresh(PLAIN)]);
    RunNext(w, LOST_MARK, 1);
    assert Run(w, LOST_MARK[..2]) == World(KEPT_STORE, [WAITING]);
    RunNext(w, LOST_MARK, 2);
  }

  lemma KeptDeleted(w: World)
    requires w == World(KEPT_STORE, [])
    ensures Run(w, LOST_MARK[..4]) == World(KEPT_LOCKED, [FLAGGED])
  {
    hide Run;
    KeptSignedIn(w);
    RunNext(w, LOST_MARK, 3);
    assert [LISTED][0 := LISTED.(deleted := true)] == [LISTED.(deleted := true)];
  }

  lemma KeptQuit(store: Store, s: Session)
    requires store.master.rows == [KEPT] && store.marks == {}
    requires s.authOk && s.authenticated.Some? && s.authorized == Some(NAME) && s.drop.conn.None?
    ensures TransactionLine(store, s, Quit, false).0.master.rows == [KEPT]
  {
    assert Without([KEPT], store.marks, NAME) == [KEPT] by {
      assert [KEPT][1..] == [];
      assert Without([], store.marks, NAME) == [];
    }
  }

  /** From the start of the daemon: a mark statement fails, DELE succeeds all the same, and
      QUIT leaves the mail where it was. */
  lemma LostMarkKept(w: World)
    requires w == World(KEPT_STORE, [])
    ensures Started(w) && w.store.master.rows == [KEPT] && KEPT.user == NAME
    ensures var v := Run(w, LOST_MARK[..4]); InTransaction(v, 0) && v.sessions[0].authorized == Some(NAME)
    ensures Picked(w, LOST_MARK[..4], 0, All) == {1} && Picked(w, LOST_MARK[..4], 0, Stored) == {}
    ensures Run(w, LOST_MARK).store.master.rows == [KEPT]
  {
    hide Run, Update, Release, Picked;
    KeptSignedIn(w);
    KeptDeleted(w);
    RunNext(w, LOST_MARK, 4);
    assert LOST_MARK[..5] == LOST_MARK;
    KeptQuit(KEPT_LOCKED, FLAGGED);
    PickedOnce(w, LOST_MARK, All);
    PickedOnce(w, LOST_MARK, Stored);
  }

  lemma PickedNext(w: World, es: seq<Event>, i: nat, slot: nat, kind: Kind)
    requires i < |es|
    ensures Picked(w, es[..i + 1], slot, kind)
         == Picks(Run(w, es[..i]), es[i], slot, kind, Picked(w, es[..i], slot, kind))
    ensures Picked(w, es[..0], slot, kind) == {}
  {
    hide Run, Picks;
    assert es[..i + 1][..i] == es[..i];
  }

  lemma PickedOnce(w: World, es: seq<Event>, kind: Kind)
    requires |es| == 5 && es[0] == Accept(0, PLAIN) && es[1] == Line(0, User(NAME), Failed, false)
    requires es[2] == Line(0, Pass(SECRET), Failed, false) && es[3] == Line(0, Dele(1), Failed, true)
    requires InTransaction(Run(w, es[..3]), 0) && Run(w, es[..3]).sessions[0].drop.mails == [LISTED]
    ensures Picked(w, es[..4], 0, kind) == if kind == Stored then {} else {1}
  {
    hide Run, Picked;
    PickedNext(w, es, 0, 0, kind);
    PickedNext(w, es, 1, 0, kind);
    PickedNext(w, es, 2, 0, kind);
    PickedNext(w, es, 3, 0, kind);
  }
}
