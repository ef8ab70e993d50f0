/** Whole runs of the POP daemon: exclusive maildrops, and what goes wrong when a
    statement fails or a user database does not open. */
module PopTheorems {
  import opened Bytes
  import opened MailTables
  import opened Maildrops
  import opened PopSessions
  import opened PopInvariant
  import opened PopRuns
  import opened PopConsistency
  import opened PopFairness

  function Run(w: World, es: seq<Event>): World
    decreases |es|
  {
    if es == [] then w else Step(Run(w, es[..|es| - 1]), es[|es| - 1])
  }

  ghost predicate SoundRun(w: World, es: seq<Event>)
    decreases |es|
  {
    es != [] ==> SoundRun(w, es[..|es| - 1]) && Sound(Run(w, es[..|es| - 1]), es[|es| - 1])
  }

  /** The daemon starts: no sessions, no locks, an empty deletion table. */
  ghost predicate Started(w: World) {
    w.sessions == [] && w.store.marks == {} && TablesOk(w.store) && forall u :: !Locked(w.store, u)
  }

  lemma {:induction false} ReachableOk(w: World, es: seq<Event>)
    requires Started(w) && SoundRun(w, es)
    ensures WorldOk(Run(w, es))
    decreases |es|
  {
    hide Step, Sound;
    if es != [] {
      ReachableOk(w, es[..|es| - 1]);
      OrderKept(Run(w, es[..|es| - 1]), es[|es| - 1]);
    }
  }

  /** No lock statement that failed was taken for a success. */
  ghost predicate NoWrongGrant(w: World, es: seq<Event>)
    decreases |es|
  {
    es != [] ==> NoWrongGrant(w, es[..|es| - 1]) && !WrongGrant(Run(w, es[..|es| - 1]), es[|es| - 1])
  }

  /** Whatever else goes wrong, nobody shares a maildrop and every holder has the lock. */
  lemma MutualExclusion(w: World, es: seq<Event>)
    requires Started(w) && NoWrongGrant(w, es)
    ensures var v := Run(w, es);
            forall i, j, u | 0 <= i < |v.sessions| && 0 <= j < |v.sessions| && Holds(v.sessions[i], u) ::
              Locked(v.store, u) && (Holds(v.sessions[j], u) ==> i == j)
  {
    RunExclusive(w, es);
    var v := Run(w, es);
    forall i, j, u | 0 <= i < |v.sessions| && 0 <= j < |v.sessions| && Holds(v.sessions[i], u)
      ensures Locked(v.store, u) && (Holds(v.sessions[j], u) ==> i == j)
    {
      assert SignedInOk(v.store, v.sessions[i]);
      HolderIsAlone(v, i);
    }
  }

  lemma {:induction false} RunExclusive(w: World, es: seq<Event>)
    requires Started(w) && NoWrongGrant(w, es)
    ensures Exclusive(Run(w, es))
    decreases |es|
  {
    hide Step, WrongGrant;
    if es != [] {
      RunExclusive(w, es[..|es| - 1]);
      ExclusionKept(Run(w, es[..|es| - 1]), es[|es| - 1]);
    }
  }

  /** A run in which no lock statement fails and user databases open: a lock is set
      exactly while one session holds it, which has shown credentials of that user or
      of an alias. */
  lemma LockIffHolder(w: World, es: seq<Event>, user: Text)
    requires Started(w) && SoundRun(w, es)
    ensures var v := Run(w, es);
            && (Locked(v.store, user) <==> HasHolder(v, user))
            && (forall i, j | 0 <= i < |v.sessions| && 0 <= j < |v.sessions| ::
                  Holds(v.sessions[i], user) && Holds(v.sessions[j], user) ==> i == j)
            && forall i | 0 <= i < |v.sessions| && Holds(v.sessions[i], user) ::
                 v.sessions[i].authenticated.Some? && Shown(v.store, v.sessions[i].authenticated.value, user)
  {
    hide WorldOk, Run, SoundRun, Holding, Shown;
    ReachableOk(w, es);
    var v := Run(w, es);
    LockedIffHeldOnce(v, user);
    forall i | 0 <= i < |v.sessions| && Holds(v.sessions[i], user)
      ensures v.sessions[i].authenticated.Some? && Shown(v.store, v.sessions[i].authenticated.value, user)
    {
      QuietSlot(v, i);
    }
  }

  // ------------------------------------------------------------ fair runs

  /** No maildrop is granted wrongly, and nobody signs in over leftovers. */
  ghost predicate FairRun(w: World, es: seq<Event>)
    decreases |es|
  {
    es != [] ==>
      && FairRun(w, es[..|es| - 1])
      && !WrongGrant(Run(w, es[..|es| - 1]), es[|es| - 1]) && !OverLeftovers(Run(w, es[..|es| - 1]), es[|es| - 1])
  }

  lemma {:induction false} FairThroughout(w: World, es: seq<Event>)
    requires FairWorld(w) && FairRun(w, es)
    ensures FairWorld(Run(w, es))
    decreases |es|
  {
    hide Step, FairWorld, WrongGrant, OverLeftovers;
    if es != [] {
      FairThroughout(w, es[..|es| - 1]);
      FairKept(Run(w, es[..|es| - 1]), es[|es| - 1]);
    }
  }

  lemma StartedFair(w: World)
    requires Started(w)
    ensures FairWorld(w)
  {
  }

  // ------------------------------------------------------------ TLS

  predicate TlsRespected(s: Session) { s.authOk ==> MaySignIn(s) }

  /** Where TLS is required nobody is ever signed in without it. */
  lemma {:induction false} TlsBeforeSignIn(w: World, es: seq<Event>, i: nat)
    requires Started(w) && i < |Run(w, es).sessions|
    ensures TlsRespected(Run(w, es).sessions[i])
    decreases |es|
  {
    hide Step;
    if es != [] {
      var before := Run(w, es[..|es| - 1]);
      forall j | 0 <= j < |before.sessions| ensures TlsRespected(before.sessions[j]) {
        TlsBeforeSignIn(w, es[..|es| - 1], j);
      }
      TlsStep(before, es[|es| - 1]);
    }
  }

  lemma TlsStep(w: World, e: Event)
    requires forall j :: 0 <= j < |w.sessions| ==> TlsRespected(w.sessions[j])
    ensures forall j :: 0 <= j < |Step(w, e).sessions| ==> TlsRespected(Step(w, e).sessions[j])
  {
    hide Acquire, Update, Release, Deliver, MarkMail, UnmarkAll;
  }

  // ------------------------------------------------------------ what goes wrong

  lemma RunNext(w: World, es: seq<Event>, i: nat)
    requires i < |es|
    ensures Run(w, es[..i + 1]) == Step(Run(w, es[..i]), es[i])
    ensures Run(w, es[..0]) == w
  {
    assert es[..i + 1][..i] == es[..i];
  }

  const NAME: Text := [97]
  const OTHER: Text := [99]
  const SECRET: Text := [98]
  const PLAIN := Listener(false, false, false)
  const LONE_STORE := Store(map[NAME := false], Table([], 1), {}, map[], map[(NAME, SECRET) := NAME], map[])

  /** `NAME` signs in through a slot that waits for the password. */
  lemma LoneLogin(locks: map<Text, bool>, fault: bool)
    requires fault || locks == map[NAME := false]
    ensures var (store, s) := (LONE_STORE.(locks := locks), Fresh(PLAIN).(authenticated := Some(NAME)));
            Login(store, s, NAME, SECRET, fault) ==
            (if fault then store else store.(locks := map[NAME := true]),
             s.(stage := Transaction, authOk := true, authorized := Some(NAME)))
  {
    assert locks == map[NAME := false] ==> locks[NAME := true] == map[NAME := true];
    var store := LONE_STORE.(locks := locks);
    assert Query(store.master.rows, NAME) == [];
    assert Snapshot(store, NAME) == [];
  }

  /** The exclusion is not unconditional: from the start of the daemon, one lock
      statement that fails signs a second session in. */
  lemma FailedLockShares() returns (w: World, es: seq<Event>)
    ensures Started(w) && |es| == 6 && forall k :: 0 <= k < 5 ==> !(es[k].Line? && es[k].fault)
    ensures |Run(w, es).sessions| == 2
    ensures Holds(Run(w, es).sessions[0], NAME) && Holds(Run(w, es).sessions[1], NAME)
  {
    hide Login, Run;
    var newcomer, waiting := Fresh(PLAIN), Fresh(PLAIN).(authenticated := Some(NAME));
    var signedIn := waiting.(stage := Transaction, authOk := true, authorized := Some(NAME));
    var locked := LONE_STORE.(locks := map[NAME := true]);
    w := World(LONE_STORE, []);
    es := [Accept(0, PLAIN), Line(0, User(NAME), Failed, false), Line(0, Pass(SECRET), Failed, false),
           Accept(1, PLAIN), Line(1, User(NAME), Failed, false), Line(1, Pass(SECRET), Failed, true)];
    LoneLogin(map[NAME := false], false);
    LoneLogin(map[NAME := true], true);
    RunNext(w, es, 0);
    assert Run(w, es[..1]) == World(LONE_STORE, [newcomer]);
    RunNext(w, es, 1);
    assert Run(w, es[..2]) == World(LONE_STORE, [waiting]);
    RunNext(w, es, 2);
    assert Run(w, es[..3]) == World(locked, [signedIn]);
    RunNext(w, es, 3);
    assert Run(w, es[..4]) == World(locked, [signedIn, newcomer]);
    RunNext(w, es, 4);
    assert Run(w, es[..5]) == World(locked, [signedIn, waiting]);
    RunNext(w, es, 5);
    assert Run(w, es[..6]) == World(locked, [signedIn, signedIn]);
    assert es[..6] == es;
  }

  /** `OTHER` has one mail and a user database that does not open. */
  const LOST := Row(1, OTHER, [], [])
  const STRANDED_STORE := Store(map[NAME := false, OTHER := false], Table([LOST], 2), {}, map[],
                                map[(NAME, SECRET) := NAME, (OTHER, SECRET) := OTHER], map[OTHER := NAME])
  const LEFT := PopMail(1, 0, true, false, [])

  lemma StrandedLoginLeaves()
    ensures var s := Fresh(PLAIN).(authenticated := Some(OTHER));
            Login(STRANDED_STORE, s, OTHER, SECRET, false) ==
            (STRANDED_STORE.(locks := map[NAME := false, OTHER := true]), Fresh(PLAIN).(drop := Drop([LEFT], None, {})))
  {
    var store := STRANDED_STORE;
    assert store.locks[OTHER := true] == map[NAME := false, OTHER := true];
    assert Query(store.master.rows, OTHER) == [LOST] by { assert Query([], OTHER) == []; assert [LOST][1..] == []; }
    assert Entry(LOST, true) == LEFT;
    assert Entries([LOST], true) == [LEFT];
    assert Snapshot(store, OTHER) == [LEFT];
    assert [] + [LEFT] == [LEFT];
  }

  lemma LoginOverLeftovers()
    ensures var store := STRANDED_STORE.(locks := map[NAME := false, OTHER := true]);
            var s := Fresh(PLAIN).(authenticated := Some(NAME), drop := Drop([LEFT], None, {}));
            Login(store, s, NAME, SECRET, false) ==
            (store.(locks := map[NAME := true, OTHER := true]),
             s.(stage := Transaction, authOk := true, authorized := Some(NAME)))
  {
    var store := STRANDED_STORE.(locks := map[NAME := false, OTHER := true]);
    assert store.locks[NAME := true] == map[NAME := true, OTHER := true];
    assert Query(store.master.rows, NAME) == [] by { assert Query([], NAME) == []; assert [LOST][1..] == []; }
    assert Snapshot(store, NAME) == [];
    assert [LEFT] + [] == [LEFT];
  }

  /** Without any failing statement: a sign-in that fails for its user database leaves
      the user's mail behind, and the next user to sign in on the connection deletes it. */
  lemma LeftoversRemoved() returns (w: World, es: seq<Event>)
    ensures Started(w) && |es| == 7 && forall k :: 0 <= k < 7 ==> es[k].Line? ==> !es[k].fault
    ensures LOST in w.store.master.rows && LOST.user == OTHER
    ensures var v := Run(w, es[..6]); v.store.master == w.store.master && |v.sessions| == 1 && Holds(v.sessions[0], NAME)
    ensures Run(w, es).store.master.rows == []
  {
    hide Login, Run, Release;
    var l1, l2 := map[NAME := false, OTHER := true], map[NAME := true, OTHER := true];
    var newcomer, drop := Fresh(PLAIN), Drop([LEFT], None, {});
    var signedIn := newcomer.(authenticated := Some(NAME), stage := Transaction, authOk := true, authorized := Some(NAME));
    w := World(STRANDED_STORE, []);
    es := [Accept(0, PLAIN), Line(0, User(OTHER), Failed, false), Line(0, Pass(SECRET), Failed, false),
           Line(0, User(NAME), Failed, false), Line(0, Pass(SECRET), Failed, false),
           Line(0, Dele(1), Failed, false), Line(0, Quit, Failed, false)];
    StrandedLoginLeaves();
    LoginOverLeftovers();
    RunNext(w, es, 0);
    assert Run(w, es[..1]) == World(STRANDED_STORE, [newcomer]);
    RunNext(w, es, 1);
    assert Run(w, es[..2]) == World(STRANDED_STORE, [newcomer.(authenticated := Some(OTHER))]);
    RunNext(w, es, 2);
    assert Run(w, es[..3]) == World(STRANDED_STORE.(locks := l1), [newcomer.(drop := drop)]);
    RunNext(w, es, 3);
    assert Run(w, es[..4]) == World(STRANDED_STORE.(locks := l1), [newcomer.(drop := drop, authenticated := Some(NAME))]);
    RunNext(w, es, 4);
    assert Run(w, es[..5]) == World(STRANDED_STORE.(locks := l2), [signedIn.(drop := drop)]);
    RunNext(w, es, 5);
    var marked := STRANDED_STORE.(locks := l2, marks := {Mark(NAME, 1)});
    assert {} + {Mark(NAME, 1)} == {Mark(NAME, 1)};
    assert [LEFT][0 := LEFT.(deleted := true)] == [LEFT.(deleted := true)];
    assert Run(w, es[..6]) == World(marked, [signedIn.(drop := Drop([LEFT.(deleted := true)], None, {}))]);
    RunNext(w, es, 6);
    QuitEmpties(marked, signedIn.(drop := Drop([LEFT.(deleted := true)], None, {})));
    assert es[..7] == es;
  }

  lemma QuitEmpties(store: Store, s: Session)
    requires store.master.rows == [LOST] && store.marks == {Mark(NAME, 1)}
    requires s.authOk && s.authenticated.Some? && s.authorized == Some(NAME) && s.drop.conn.None?
    ensures TransactionLine(store, s, Quit, false).0.master.rows == []
  {
    assert Without([LOST], store.marks, NAME) == [] by {
      assert [LOST][1..] == [];
      assert Without([], store.marks, NAME) == [];
    }
  }
}
