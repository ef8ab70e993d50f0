/** The `mailbox` tables of the master and the user databases and the queries the
    POP daemon runs on them. A table is the sequence of its rows in the order the
    listing query returns them. */
module MailTables {
  import opened Bytes

  type Text = seq<byte>

  datatype Row = Row(id: nat, user: Text, ident: Text, data: Text)

  /** `nextId` is the AUTOINCREMENT counter: it never hands an id out twice. */
  datatype Table = Table(rows: seq<Row>, nextId: nat)

  /** A row of a `temp.deletions` table. */
  datatype Mark = Mark(user: Text, id: nat)

  /** The listing query: `WHERE mail_user = ?`. */
  function Query(rows: seq<Row>, user: Text): seq<Row> {
    if rows == [] then []
    else if rows[0].user == user then [rows[0]] + Query(rows[1..], user)
    else Query(rows[1..], user)
  }

  /** The fetch query: `WHERE mail_id = ?`. */
  function Fetch(rows: seq<Row>, id: nat): (r: Option<Row>)
    ensures r.Some? ==> r.value.id == id && r.value in rows
    ensures r.None? ==> forall k :: 0 <= k < |rows| ==> rows[k].id != id
  {
    if rows == [] then None
    else if rows[0].id == id then Some(rows[0])
    else Fetch(rows[1..], id)
  }

  /** The delete statement: every row whose id `user` marked goes, whoever owns it. */
  function Without(rows: seq<Row>, marks: set<Mark>, user: Text): seq<Row> {
    if rows == [] then []
    else if Mark(user, rows[0].id) in marks then Without(rows[1..], marks, user)
    else [rows[0]] + Without(rows[1..], marks, user)
  }

  function Unmarked(marks: set<Mark>, user: Text): (r: set<Mark>)
    ensures forall m :: m in r <==> m in marks && m.user != user
  {
    set m | m in marks && m.user != user
  }

  ghost predicate Distinct(rows: seq<Row>) {
    forall j, k :: 0 <= j < k < |rows| ==> rows[j].id != rows[k].id
  }

  ghost predicate TableOk(t: Table) {
    Distinct(t.rows) && forall k :: 0 <= k < |t.rows| ==> t.rows[k].id < t.nextId
  }

  /** A mail comes in. The listing order is by submission time, so that a clock
      set back may put it anywhere. */
  function Arrival(t: Table, at: nat, user: Text, ident: Text, data: Text): Table
    requires at <= |t.rows|
  {
    Table(t.rows[..at] + [Row(t.nextId, user, ident, data)] + t.rows[at..], t.nextId + 1)
  }

  // ------------------------------------------------------------ lemmas

  lemma {:induction false} FetchIs(rows: seq<Row>, k: nat)
    requires k < |rows| && Distinct(rows)
    ensures Fetch(rows, rows[k].id) == Some(rows[k])
  {
    if k == 0 {
    } else {
      assert rows[0].id != rows[k].id;
      FetchIs(rows[1..], k - 1);
    }
  }

  lemma {:induction false} FetchAppend(a: seq<Row>, b: seq<Row>, id: nat)
    ensures Fetch(a + b, id) == if Fetch(a, id).Some? then Fetch(a, id) else Fetch(b, id)
  {
    if a == [] {
      assert a + b == b;
    } else {
      assert (a + b)[0] == a[0] && (a + b)[1..] == a[1..] + b;
      FetchAppend(a[1..], b, id);
    }
  }

  lemma {:induction false} QueryMembers(rows: seq<Row>, user: Text)
    requires Distinct(rows)
    ensures Distinct(Query(rows, user))
    ensures forall k :: 0 <= k < |Query(rows, user)| ==>
              Query(rows, user)[k].user == user
              && Fetch(rows, Query(rows, user)[k].id) == Some(Query(rows, user)[k])
  {
    if rows == [] {
    } else {
      QueryMembers(rows[1..], user);
      var rest := Query(rows[1..], user);
      forall k | 0 <= k < |rest|
        ensures rest[k].id != rows[0].id && Fetch(rows, rest[k].id) == Some(rest[k])
      {
        assert rest[k] in rows[1..];
      }
    }
  }

  /** The listing of a table with one row, and of one table behind another: this is all
      there is to say about it. */
  lemma QueryOne(row: Row, user: Text)
    ensures Query([row], user) == if row.user == user then [row] else []
    ensures Query([], user) == []
  {
    assert [row][1..] == [];
  }

  lemma {:induction false} QueryAppend(a: seq<Row>, b: seq<Row>, user: Text)
    ensures Query(a + b, user) == Query(a, user) + Query(b, user)
  {
    if a == [] {
      assert a + b == b;
    } else {
      assert (a + b)[0] == a[0] && (a + b)[1..] == a[1..] + b;
      QueryAppend(a[1..], b, user);
    }
  }

  /** A row of the user is listed behind exactly its earlier rows. */
  lemma QueryRank(rows: seq<Row>, user: Text, j: nat)
    requires j < |rows| && rows[j].user == user
    ensures var n := |Query(rows[..j], user)|;
            n < |Query(rows, user)| && Query(rows, user)[n] == rows[j]
  {
    assert rows == rows[..j] + ([rows[j]] + rows[j + 1..]);
    QueryAppend(rows[..j], [rows[j]] + rows[j + 1..], user);
    QueryAppend([rows[j]], rows[j + 1..], user);
    QueryOne(rows[j], user);
  }

  lemma QueryRankGrows(rows: seq<Row>, user: Text, j: nat, k: nat)
    requires j < k <= |rows| && rows[j].user == user
    ensures |Query(rows[..j], user)| < |Query(rows[..k], user)|
  {
    assert rows[..k][..j] == rows[..j];
    QueryRank(rows[..k], user, j);
  }

  lemma {:induction false} QueryOnly(rows: seq<Row>, user: Text, n: nat)
    requires n < |Query(rows, user)|
    ensures Query(rows, user)[n] in rows && Query(rows, user)[n].user == user
  {
    if rows[0].user != user { QueryOnly(rows[1..], user, n); }
    else if n > 0 { QueryOnly(rows[1..], user, n - 1); }
  }

  lemma {:induction false} WithoutFetch(rows: seq<Row>, marks: set<Mark>, user: Text, id: nat)
    ensures Fetch(Without(rows, marks, user), id) == if Mark(user, id) in marks then None else Fetch(rows, id)
  {
    if rows == [] {
    } else {
      WithoutFetch(rows[1..], marks, user, id);
      var rest := Without(rows[1..], marks, user);
      if Mark(user, rows[0].id) !in marks {
        assert ([rows[0]] + rest)[1..] == rest;
      }
    }
  }

  lemma {:induction false} WithoutKeeps(rows: seq<Row>, marks: set<Mark>, user: Text)
    ensures forall r :: r in Without(rows, marks, user) <==> r in rows && Mark(user, r.id) !in marks
  {
    if rows == [] {
    } else {
      WithoutKeeps(rows[1..], marks, user);
      assert forall r :: r in rows <==> r == rows[0] || r in rows[1..];
    }
  }

  lemma {:induction false} WithoutOk(rows: seq<Row>, marks: set<Mark>, user: Text)
    requires Distinct(rows)
    ensures Distinct(Without(rows, marks, user))
  {
    if rows == [] {
    } else {
      WithoutOk(rows[1..], marks, user);
      WithoutKeeps(rows[1..], marks, user);
      var rest := Without(rows[1..], marks, user);
      forall k | 0 <= k < |rest| ensures rest[k].id != rows[0].id {
        assert rest[k] in rest;
        assert rest[k] in rows[1..];
      }
    }
  }

  lemma {:induction false} WithoutNone(rows: seq<Row>, marks: set<Mark>, user: Text)
    requires forall m :: m in marks ==> m.user != user
    ensures Without(rows, marks, user) == rows
  {
    if rows != [] {
      WithoutNone(rows[1..], marks, user);
    }
  }

  /** Mail that arrives is there, and hides nothing that was. */
  lemma ArrivalFetch(t: Table, at: nat, user: Text, ident: Text, data: Text, id: nat)
    requires at <= |t.rows| && TableOk(t)
    ensures Fetch(Arrival(t, at, user, ident, data).rows, id) ==
            if id == t.nextId then Some(Row(id, user, ident, data)) else Fetch(t.rows, id)
  {
    var row := Row(t.nextId, user, ident, data);
    FetchAppend(t.rows[..at] + [row], t.rows[at..], id);
    FetchAppend(t.rows[..at], [row], id);
    FetchAppend(t.rows[..at], t.rows[at..], id);
    assert t.rows[..at] + t.rows[at..] == t.rows;
    assert [row][1..] == [];
  }

  lemma ArrivalOk(t: Table, at: nat, user: Text, ident: Text, data: Text)
    requires at <= |t.rows| && TableOk(t)
    ensures TableOk(Arrival(t, at, user, ident, data))
  {
    var rows := Arrival(t, at, user, ident, data).rows;
    assert forall k :: 0 <= k < at ==> rows[k] == t.rows[k];
    assert rows[at].id == t.nextId;
    assert forall k :: at < k < |rows| ==> rows[k] == t.rows[k - 1];
  }
}
