/** Envelope paths by their grammar: what a path that is spelled out of characters, escapes,
    quoted strings, comments, a source route and a delimiter is parsed to. */
module PathGrammar {
  import opened Bytes
  import opened PathParsing

  /** The parts of a path. `Skipped` is an opening bracket or a byte that is not printable. */
  datatype Piece =
    | Itself(b: byte) | Skipped(b: byte) | Escaped(b: byte) | Quoted(text: seq<byte>)
    | Comment(text: seq<byte>) | Route(hosts: seq<byte>) | Delimiter

  function Spelled(p: Piece): seq<byte> {
    match p
    case Itself(b) => [b]
    case Skipped(b) => [b]
    case Escaped(b) => [BACKSLASH, b]
    case Quoted(text) => [DQUOTE] + text + [DQUOTE]
    case Comment(text) => [LPAREN] + text + [RPAREN]
    case Route(hosts) => [AT] + hosts + [COLON]
    case Delimiter => [AT]
  }

  /** What has been read so far: the text, and the delimiter in it, 0 for none. */
  datatype Reading = Reading(text: seq<byte>, delimiter: nat)

  /** What a part adds. */
  function Meant(r: Reading, p: Piece): Reading {
    match p
    case Itself(b) => r.(text := r.text + [b])
    case Escaped(b) => if 32 <= b <= 126 then r.(text := r.text + [b]) else r
    case Quoted(text) => r.(text := r.text + text)
    case Delimiter => Reading(r.text + [AT], |r.text|)
    case _ => r
  }

  /** A character that stands for itself between quotes. */
  predicate Quotable(b: byte) { 32 <= b <= 126 && b != DQUOTE && b != BACKSLASH && b != LPAREN && b != RPAREN }

  predicate Blank(b: byte) { b == 32 || 9 <= b <= 13 }

  /** Where a part may stand: a route in front of the text only, for there an '@' begins one
      even in quotes; the delimiter once, in a text that does not begin with an '@'. */
  ghost predicate Allowed(r: Reading, p: Piece) {
    match p
    case Itself(b) => Quotable(b) && b != AT && b != LESS && b != GREATER
    case Skipped(b) => b == LESS || !(32 <= b <= 126)
    case Escaped(b) => true
    case Quoted(text) =>
      (forall i :: 0 <= i < |text| ==> Quotable(text[i])) && (text != [] && r.text == [] ==> text[0] != AT)
    case Comment(text) => RPAREN !in text
    case Route(hosts) => r.text == [] && COLON !in hosts
    case Delimiter => r.text != [] && r.text[0] != AT && r.delimiter == 0
  }

  function Spell(pieces: seq<Piece>): seq<byte> {
    if pieces == [] then [] else Spelled(pieces[0]) + Spell(pieces[1..])
  }

  function Meaning(r: Reading, pieces: seq<Piece>): (m: Reading)
    ensures |r.text| <= |m.text|
    decreases |pieces|
  {
    if pieces == [] then r else Meaning(Meant(r, pieces[0]), pieces[1..])
  }

  ghost predicate WellFormed(r: Reading, pieces: seq<Piece>)
    decreases |pieces|
  {
    pieces != [] ==> Allowed(r, pieces[0]) && WellFormed(Meant(r, pieces[0]), pieces[1..])
  }

  ghost predicate StandsAt(s: seq<byte>, pos: nat, w: seq<byte>) {
    pos + |w| <= |s| && forall i :: 0 <= i < |w| ==> s[pos + i] == w[i]
  }

  lemma StandsBehind(s: seq<byte>, pos: nat, w: seq<byte>, k: nat)
    requires StandsAt(s, pos, w) && k <= |w|
    ensures StandsAt(s, pos, w[..k]) && StandsAt(s, pos + k, w[k..])
  {
    forall i | 0 <= i < |w| - k ensures s[pos + k + i] == w[k..][i] { assert s[pos + (k + i)] == w[k + i]; }
  }

  // ------------------------------------------------------------ one part

  lemma {:induction false} SeekIs(s: seq<byte>, from: nat, to: nat, b: byte)
    requires from <= to < |s| && s[to] == b && forall i :: from <= i < to ==> s[i] != b
    ensures Seek(s, from, b) == to
    decreases |s| - from
  {
    if from < to { SeekIs(s, from + 1, to, b); }
  }

  lemma {:induction false} SeekNone(s: seq<byte>, from: nat, b: byte)
    requires from <= |s| && forall i :: from <= i < |s| ==> s[i] != b
    ensures Seek(s, from, b) == |s|
    decreases |s| - from
  {
    if from < |s| { SeekNone(s, from + 1, b); }
  }

  /** The scan has come to a full text: nothing behind it matters. */
  lemma ScanFull(s: seq<byte>, pos: nat, r: Reading, quotes: bool)
    requires pos <= |s| && |r.text| >= MAX_PATH_LENGTH - 1
    ensures Scan(s, pos, r.text, r.delimiter, quotes) == Parsed(r.text, r.delimiter)
  {
  }

  lemma QuotedOne(s: seq<byte>, pos: nat, r: Reading)
    requires pos < |s| && Quotable(s[pos]) && |r.text| < MAX_PATH_LENGTH - 1 && (r.text == [] ==> s[pos] != AT)
    ensures Scan(s, pos, r.text, r.delimiter, true) == Scan(s, pos + 1, r.text + [s[pos]], r.delimiter, true)
  {
  }

  lemma QuotesEnd(s: seq<byte>, pos: nat, r: Reading)
    requires pos < |s| && s[pos] == DQUOTE && |r.text| < MAX_PATH_LENGTH - 1
    ensures Scan(s, pos, r.text, r.delimiter, true) == Scan(s, pos + 1, r.text, r.delimiter, false)
  {
  }

  lemma {:induction false} ScanQuoted(s: seq<byte>, pos: nat, q: seq<byte>, r: Reading)
    requires StandsAt(s, pos, q + [DQUOTE]) && |r.text + q| <= MAX_PATH_LENGTH - 1
    requires Allowed(r, Quoted(q))
    ensures Scan(s, pos, r.text, r.delimiter, true)
         == Scan(s, pos + |q| + 1, r.text + q, r.delimiter, false)
    decreases |q|
  {
    hide Scan;
    var w := q + [DQUOTE];
    assert s[pos + |q|] == w[|q|];
    if q == [] {
      assert r.text + q == r.text;
      if |r.text| == MAX_PATH_LENGTH - 1 {
        ScanFull(s, pos, r, true);
        ScanFull(s, pos + 1, r, false);
      } else {
        QuotesEnd(s, pos, r);
      }
    } else {
      assert s[pos] == w[0] == q[0] && Quotable(q[0]);
      var next := r.(text := r.text + [q[0]]);
      QuotedOne(s, pos, r);
      assert next.text + q[1..] == r.text + q;
      StandsBehind(s, pos, w, 1);
      assert w[1..] == q[1..] + [DQUOTE];
      ScanQuoted(s, pos + 1, q[1..], next);
    }
  }

  /** The scan takes a part for what it means, unless the text was full before. */
  lemma ScanPiece(s: seq<byte>, pos: nat, p: Piece, r: Reading)
    requires StandsAt(s, pos, Spelled(p)) && Allowed(r, p)
    requires |r.text| < MAX_PATH_LENGTH - 1 && |Meant(r, p).text| <= MAX_PATH_LENGTH - 1
    ensures Scan(s, pos, r.text, r.delimiter, false)
         == Scan(s, pos + |Spelled(p)|, Meant(r, p).text, Meant(r, p).delimiter, false)
  {
    match p
    case Quoted(text) =>
      hide Scan;
      var w := Spelled(p);
      assert s[pos] == w[0];
      QuotesBegin(s, pos, r);
      StandsBehind(s, pos, w, 1);
      assert w[1..] == text + [DQUOTE];
      ScanQuoted(s, pos + 1, text, r);
    case Comment(text) =>
      hide Allowed;
      SeekSpelled(s, pos, LPAREN, text, RPAREN);
      assert s[pos] == Spelled(p)[0];
    case Route(hosts) =>
      SeekSpelled(s, pos, AT, hosts, COLON);
      assert s[pos] == Spelled(p)[0];
    case _ => ScanShort(s, pos, p, r);
  }

  lemma QuotesBegin(s: seq<byte>, pos: nat, r: Reading)
    requires pos < |s| && s[pos] == DQUOTE && |r.text| < MAX_PATH_LENGTH - 1
    ensures Scan(s, pos, r.text, r.delimiter, false) == Scan(s, pos + 1, r.text, r.delimiter, true)
  {
  }

  lemma ScanShort(s: seq<byte>, pos: nat, p: Piece, r: Reading)
    requires !p.Quoted? && !p.Comment? && !p.Route? && StandsAt(s, pos, Spelled(p)) && Allowed(r, p)
    requires |r.text| < MAX_PATH_LENGTH - 1
    ensures Scan(s, pos, r.text, r.delimiter, false)
         == Scan(s, pos + |Spelled(p)|, Meant(r, p).text, Meant(r, p).delimiter, false)
  {
    assert s[pos] == Spelled(p)[0];
    if p.Escaped? { assert s[pos + 1] == Spelled(p)[1]; }
  }

  lemma SeekSpelled(s: seq<byte>, pos: nat, open: byte, text: seq<byte>, close: byte)
    requires StandsAt(s, pos, [open] + text + [close]) && close !in text && close != open
    ensures Seek(s, pos, close) == Seek(s, pos + 1, close) == pos + |text| + 1
  {
    var w := [open] + text + [close];
    assert s[pos] == w[0] && s[pos + |text| + 1] == w[|text| + 1];
    forall i | pos + 1 <= i < pos + |text| + 1 ensures s[i] != close {
      assert s[pos + (i - pos)] == w[i - pos] == text[i - pos - 1];
    }
    SeekIs(s, pos + 1, pos + |text| + 1, close);
    SeekIs(s, pos, pos + |text| + 1, close);
  }

  lemma {:induction false} ScanPieces(s: seq<byte>, pos: nat, pieces: seq<Piece>, r: Reading)
    requires StandsAt(s, pos, Spell(pieces)) && WellFormed(r, pieces)
    requires |Meaning(r, pieces).text| <= MAX_PATH_LENGTH - 1
    ensures var m := Meaning(r, pieces);
            Scan(s, pos, r.text, r.delimiter, false) == Scan(s, pos + |Spell(pieces)|, m.text, m.delimiter, false)
    decreases |pieces|
  {
    hide Scan, Spelled, Allowed;
    if pieces != [] {
      var p, rest := pieces[0], pieces[1..];
      var w, v := Spelled(p), Spell(rest);
      var next := Meant(r, p);
      assert Spell(pieces) == w + v;
      StandsBehind(s, pos, w + v, |w|);
      assert (w + v)[..|w|] == w && (w + v)[|w|..] == v;
      if |r.text| == MAX_PATH_LENGTH - 1 {
        FullStays(r, pieces);
        ScanFull(s, pos, r, false);
        ScanFull(s, pos + |Spell(pieces)|, r, false);
      } else {
        ScanPiece(s, pos, p, r);
        ScanPieces(s, pos + |w|, rest, next);
      }
    }
  }

  /** A full text stays what it is, if the whole is to fit. */
  lemma {:induction false} FullStays(r: Reading, pieces: seq<Piece>)
    requires |r.text| == MAX_PATH_LENGTH - 1 && |Meaning(r, pieces).text| <= MAX_PATH_LENGTH - 1
    ensures Meaning(r, pieces) == r
    decreases |pieces|
  {
    if pieces != [] {
      assert Meant(r, pieces[0]) == r;
      FullStays(r, pieces[1..]);
    }
  }

  // ------------------------------------------------------------ whole paths

  const NOTHING := Reading([], 0)

  /** Spaces, a path, and what follows it: its end, or a closing bracket and anything. */
  function Command(spaces: seq<byte>, pieces: seq<Piece>, tail: seq<byte>): seq<byte> {
    spaces + Spell(pieces) + tail
  }

  /** The scan of a command reaches what follows the path with its meaning. */
  lemma CommandScanned(spaces: seq<byte>, pieces: seq<Piece>, tail: seq<byte>)
    requires forall i :: 0 <= i < |spaces| ==> Blank(spaces[i])
    requires Spell(pieces) + tail == [] || !Blank((Spell(pieces) + tail)[0])
    requires WellFormed(NOTHING, pieces) && |Meaning(NOTHING, pieces).text| < 300
    ensures var (s, m, pos) := (Command(spaces, pieces, tail), Meaning(NOTHING, pieces), |spaces| + |Spell(pieces)|);
            && pos <= |s| && s[pos..] == tail
            && PathOf(s) == Delimited(Scan(s, pos, m.text, m.delimiter, false))
  {
    hide Scan, Spell, Meaning, WellFormed;
    var s, w := Command(spaces, pieces, tail), Spell(pieces);
    assert s == spaces + (w + tail);
    SpacesSkipped(spaces, w + tail, 0);
    assert StandsAt(s, |spaces|, w);
    ScanPieces(s, |spaces|, pieces, NOTHING);
  }

  ghost predicate Ends(m: Reading, tail: seq<byte>) {
    || tail == [] || tail[0] == GREATER || tail == [BACKSLASH] || |m.text| == 299
    || (m.text == [] && tail[0] == AT && COLON !in tail)
  }

  lemma EndsScan(s: seq<byte>, pos: nat, m: Reading)
    requires pos <= |s| && |m.text| < 300 && Ends(m, s[pos..])
    ensures Scan(s, pos, m.text, m.delimiter, false) == Parsed(m.text, m.delimiter)
  {
    var tail := s[pos..];
    assert tail != [] ==> tail[0] == s[pos];
    if m.text == [] && tail != [] && tail[0] == AT {
      forall i | pos <= i < |s| ensures s[i] != COLON { assert s[i] == tail[i - pos]; }
      SeekNone(s, pos, COLON);
    }
  }

  /** The main result: a path that is spelled out of well-formed parts within the limit is
      accepted, its text is what the parts mean, and its delimiter the one among them, or its
      end. It ends with the command, at a closing bracket, when the text is full, at a last
      backslash, or at a route without a colon; nothing behind that matters. */
  lemma ParsesAsMeant(spaces: seq<byte>, pieces: seq<Piece>, tail: seq<byte>)
    requires forall i :: 0 <= i < |spaces| ==> Blank(spaces[i])
    requires Spell(pieces) + tail == [] || !Blank((Spell(pieces) + tail)[0])
    requires WellFormed(NOTHING, pieces) && |Meaning(NOTHING, pieces).text| < 300
    requires Ends(Meaning(NOTHING, pieces), tail)
    ensures var m := Meaning(NOTHING, pieces);
            PathOf(Command(spaces, pieces, tail)) == Parsed(m.text, if m.delimiter == 0 then |m.text| else m.delimiter)
  {
    hide PathOf, Command, Spell, Meaning, WellFormed, Scan, Ends;
    CommandScanned(spaces, pieces, tail);
    EndsScan(Command(spaces, pieces, tail), |spaces| + |Spell(pieces)|, Meaning(NOTHING, pieces));
  }

  /** What is refused behind such parts, while there is room: a closing parenthesis, a
      comment without end, and a delimiter where none may stand. */
  lemma Refused(spaces: seq<byte>, pieces: seq<Piece>, tail: seq<byte>)
    requires forall i :: 0 <= i < |spaces| ==> Blank(spaces[i])
    requires Spell(pieces) + tail == [] || !Blank((Spell(pieces) + tail)[0])
    requires WellFormed(NOTHING, pieces) && |Meaning(NOTHING, pieces).text| < 299
    requires tail != []
    requires var m := Meaning(NOTHING, pieces);
             || tail[0] == RPAREN
             || (tail[0] == LPAREN && RPAREN !in tail)
             || (tail[0] == AT && m.text != [] && (m.delimiter != 0 || m.text[0] == AT))
    ensures PathOf(Command(spaces, pieces, tail)).Rejected?
  {
    hide PathOf, Command, Spell, Meaning, WellFormed;
    CommandScanned(spaces, pieces, tail);
    var s, pos := Command(spaces, pieces, tail), |spaces| + |Spell(pieces)|;
    assert s[pos..][0] == s[pos];
    if tail[0] == LPAREN {
      forall i | pos + 1 <= i < |s| ensures s[i] != RPAREN { assert s[i] == s[pos..][i - pos]; }
      SeekNone(s, pos + 1, RPAREN);
    }
  }

  // ------------------------------------------------------------ in particular

  lemma {:induction false} SpellAppend(a: seq<Piece>, b: seq<Piece>)
    ensures Spell(a + b) == Spell(a) + Spell(b)
  {
    hide Spelled;
    if a == [] {
      assert a + b == b;
    } else {
      SpellAppend(a[1..], b);
      assert (a + b)[0] == a[0] && (a + b)[1..] == a[1..] + b;
      Regroup(Spelled(a[0]), Spell(a[1..]), Spell(b));
    }
  }

  lemma {:induction false} MeaningAppend(r: Reading, a: seq<Piece>, b: seq<Piece>)
    ensures Meaning(r, a + b) == Meaning(Meaning(r, a), b)
    ensures WellFormed(r, a + b) <==> WellFormed(r, a) && WellFormed(Meaning(r, a), b)
    decreases |a|
  {
    if a == [] {
      assert a + b == b;
    } else {
      MeaningAppend(Meant(r, a[0]), a[1..], b);
      assert (a + b)[1..] == a[1..] + b;
    }
  }

  /** A path character by character, escaped or not. */
  function Characters(p: Parsed, from: nat, to: nat, escaped: bool): seq<Piece>
    requires p.Parsed? && from <= to <= |p.text|
    decreases |p.text| - from
  {
    if from == to then []
    else
      [if from == p.delimiter then Delimiter else if escaped then Escaped(p.text[from]) else Itself(p.text[from])]
      + Characters(p, from + 1, to, escaped)
  }

  /** The delimiter of what has been read of a path. */
  function Upto(p: Parsed, k: nat): Reading
    requires p.Parsed? && k <= |p.text|
  {
    Reading(p.text[..k], if p.delimiter < k then p.delimiter else 0)
  }

  lemma {:induction false} CharactersMean(p: Parsed, from: nat, to: nat, escaped: bool)
    requires p.Parsed? && WellDelimited(p) && from <= to <= |p.text|
    requires if escaped then p.delimiter < |p.text| ==> p.text[0] != AT else PlainPath(p)
    ensures WellFormed(Upto(p, from), Characters(p, from, to, escaped))
    ensures Meaning(Upto(p, from), Characters(p, from, to, escaped)) == Upto(p, to)
    decreases |p.text| - from
  {
    if from < to {
      CharactersMean(p, from + 1, to, escaped);
      var cs, piece := Characters(p, from, to, escaped), Characters(p, from, to, escaped)[0];
      assert cs[1..] == Characters(p, from + 1, to, escaped);
      assert p.text[..from] + [p.text[from]] == p.text[..from + 1];
      assert Meant(Upto(p, from), piece) == Upto(p, from + 1);
      assert Allowed(Upto(p, from), piece) by {
        if from == p.delimiter { assert p.text[..from][0] == p.text[0]; }
      }
    }
  }

  lemma {:induction false} CharactersSpelled(p: Parsed, from: nat, to: nat)
    requires p.Parsed? && from <= to <= |p.text| && (p.delimiter < |p.text| ==> p.text[p.delimiter] == AT)
    ensures Spell(Characters(p, from, to, false)) == p.text[from..to]
    decreases |p.text| - from
  {
    if from < to {
      CharactersSpelled(p, from + 1, to);
      var cs := Characters(p, from, to, false);
      assert cs[1..] == Characters(p, from + 1, to, false);
      assert [p.text[from]] + p.text[from + 1..to] == p.text[from..to];
    }
  }

  lemma WholeMeant(p: Parsed, pieces: seq<Piece>)
    requires p.Parsed? && WellDelimited(p) && WellFormed(NOTHING, pieces)
    requires Meaning(NOTHING, pieces) == Upto(p, |p.text|)
    ensures PathOf([LESS] + Spell(pieces) + [GREATER]) == p
  {
    hide PathOf, Spell, Meaning, WellFormed;
    var all := [Skipped(LESS)] + pieces;
    BracketFirst(pieces);
    ParsesAsMeant([], all, [GREATER]);
    assert p.text[..|p.text|] == p.text;
    assert Command([], all, [GREATER]) == [LESS] + Spell(pieces) + [GREATER];
    assert !IsSpace(LESS);
  }

  lemma BracketFirst(pieces: seq<Piece>)
    ensures var all := [Skipped(LESS)] + pieces;
            && Spell(all) == [LESS] + Spell(pieces)
            && Meaning(NOTHING, all) == Meaning(NOTHING, pieces)
            && (WellFormed(NOTHING, all) <==> WellFormed(NOTHING, pieces))
  {
    assert ([Skipped(LESS)] + pieces)[1..] == pieces;
  }

  /** A source route in front of a path, in the brackets, is skipped. */
  lemma RouteIgnored(p: Parsed, hosts: seq<byte>)
    requires PlainPath(p) && COLON !in hosts
    ensures PathOf([LESS] + ([AT] + hosts + [COLON]) + p.text + [GREATER]) == p
  {
    hide PathOf, Spell, Meaning, WellFormed;
    var cs := Characters(p, 0, |p.text|, false);
    CharactersMean(p, 0, |p.text|, false);
    CharactersSpelled(p, 0, |p.text|);
    assert p.text[..0] == [] && p.text[0..|p.text|] == p.text;
    OnePiece(NOTHING, Route(hosts), cs);
    WholeMeant(p, [Route(hosts)] + cs);
    assert [LESS] + ([AT] + hosts + [COLON] + p.text) + [GREATER] == [LESS] + ([AT] + hosts + [COLON]) + p.text + [GREATER];
  }

  lemma OnePiece(r: Reading, p: Piece, rest: seq<Piece>)
    ensures Spell([p] + rest) == Spelled(p) + Spell(rest)
    ensures Meaning(r, [p] + rest) == Meaning(Meant(r, p), rest)
    ensures WellFormed(r, [p] + rest) <==> Allowed(r, p) && WellFormed(Meant(r, p), rest)
  {
    assert ([p] + rest)[1..] == rest;
  }

  /** A comment, wherever it stands in a path, is skipped. */
  lemma CommentIgnored(p: Parsed, at: nat, comment: seq<byte>)
    requires PlainPath(p) && at <= |p.text| && RPAREN !in comment
    ensures PathOf([LESS] + (p.text[..at] + ([LPAREN] + comment + [RPAREN]) + p.text[at..]) + [GREATER]) == p
  {
    hide PathOf, Spell, Meaning, WellFormed;
    var front, back := Characters(p, 0, at, false), Characters(p, at, |p.text|, false);
    CharactersMean(p, 0, at, false);
    CharactersMean(p, at, |p.text|, false);
    CharactersSpelled(p, 0, at);
    CharactersSpelled(p, at, |p.text|);
    assert p.text[..0] == [] && p.text[0..at] == p.text[..at] && p.text[at..|p.text|] == p.text[at..];
    OnePiece(Upto(p, at), Comment(comment), back);
    MeaningAppend(NOTHING, front, [Comment(comment)] + back);
    SpellAppend(front, [Comment(comment)] + back);
    WholeMeant(p, front + ([Comment(comment)] + back));
    Regroup(p.text[..at], [LPAREN] + comment + [RPAREN], p.text[at..]);
  }

  lemma Regroup(a: seq<byte>, b: seq<byte>, c: seq<byte>)
    ensures a + (b + c) == a + b + c
  {
  }

  /** With every character but the delimiter escaped, each printable text is a path: one that
      begins with an '@' without a delimiter, any other with or without one. */
  lemma EscapesStand(p: Parsed)
    requires p.Parsed? && WellDelimited(p) && (p.delimiter < |p.text| ==> p.text[0] != AT)
    ensures PathOf([LESS] + Spell(Characters(p, 0, |p.text|, true)) + [GREATER]) == p
  {
    hide PathOf, Spell, Meaning, WellFormed;
    CharactersMean(p, 0, |p.text|, true);
    assert p.text[..0] == [];
    WholeMeant(p, Characters(p, 0, |p.text|, true));
  }

  /** A local part that can be quoted, and a host. */
  ghost predicate QuotedParts(local: seq<byte>, host: seq<byte>) {
    && local != [] && local[0] != AT && |local| + 1 + |host| < 300
    && (forall i :: 0 <= i < |local| ==> Quotable(local[i]))
    && (forall i :: 0 <= i < |host| ==> Plain(host[i]))
  }

  function Mailbox(local: seq<byte>, host: seq<byte>): Parsed { Parsed(local + [AT] + host, |local|) }

  lemma MailboxDelimited(local: seq<byte>, host: seq<byte>)
    requires QuotedParts(local, host)
    ensures var p := Mailbox(local, host);
            && WellDelimited(p)
            && forall i :: p.delimiter < i < |p.text| ==> Plain(p.text[i])
  {
    var text := local + [AT] + host;
    forall i | |local| < i < |text| ensures Plain(text[i]) { assert text[i] == host[i - |local| - 1]; }
    forall i | 0 <= i < |text| ensures IsPrint(text[i]) {
      if i < |local| { assert text[i] == local[i] && Quotable(local[i]); }
    }
  }

  lemma MailboxMeans(local: seq<byte>, host: seq<byte>)
    requires QuotedParts(local, host)
    ensures var (p, k) := (Mailbox(local, host), |local| + 1);
            var back := Characters(p, k, |p.text|, false);
            && Spell(back) == host
            && WellFormed(Reading(local + [AT], |local|), back)
            && Meaning(Reading(local + [AT], |local|), back) == Upto(p, |p.text|)
  {
    hide Spell, Meaning, WellFormed, WellDelimited, QuotedParts;
    var p, k := Mailbox(local, host), |local| + 1;
    MailboxDelimited(local, host);
    HostMeans(p, k);
    CharactersSpelled(p, k, |p.text|);
    assert p.text[..k] == local + [AT] && p.text[k..|p.text|] == host;
  }

  /** A quoted local part stands for itself, '@' and brackets included. */
  lemma QuotesStand(local: seq<byte>, host: seq<byte>)
    requires local != [] && local[0] != AT && |local| + 1 + |host| < 300
    requires forall i :: 0 <= i < |local| ==> Quotable(local[i])
    requires forall i :: 0 <= i < |host| ==> Plain(host[i])
    ensures PathOf([LESS] + (([DQUOTE] + local + [DQUOTE]) + ([AT] + host)) + [GREATER])
         == Parsed(local + [AT] + host, |local|)
  {
    hide PathOf, Spell, Meaning, WellFormed, Characters, WellDelimited;
    var p := Mailbox(local, host);
    var back := Characters(p, |local| + 1, |p.text|, false);
    MailboxDelimited(local, host);
    MailboxMeans(local, host);
    assert Meant(NOTHING, Quoted(local)) == Reading(local, 0) by { assert [] + local == local; }
    assert Meant(Reading(local, 0), Delimiter) == Reading(local + [AT], |local|);
    OnePiece(Reading(local, 0), Delimiter, back);
    OnePiece(NOTHING, Quoted(local), [Delimiter] + back);
    WholeMeant(p, [Quoted(local)] + ([Delimiter] + back));
  }

  lemma {:induction false} HostMeans(p: Parsed, from: nat)
    requires p.Parsed? && WellDelimited(p) && p.delimiter < from <= |p.text|
    requires forall i :: p.delimiter < i < |p.text| ==> Plain(p.text[i])
    ensures var cs := Characters(p, from, |p.text|, false);
            WellFormed(Upto(p, from), cs) && Meaning(Upto(p, from), cs) == Upto(p, |p.text|)
    decreases |p.text| - from
  {
    if from < |p.text| {
      HostMeans(p, from + 1);
      var cs := Characters(p, from, |p.text|, false);
      assert cs[1..] == Characters(p, from + 1, |p.text|, false);
      assert p.text[..from] + [p.text[from]] == p.text[..from + 1];
    }
  }
}
