/** End-to-end transparency: what the outbound client sends for a body, read in
    pieces, cut into lines and fed to the DATA state, is that body again
    (section 4.5.2 of RFC 5321). */
module Transparency {
  import opened Bytes
  import opened LineSplitter
  import opened DotStuffing
  import opened MailBuffer

  const RECEIVE_BUFFER_LENGTH := 2048

  /** A session that entered DATA: the mail so far or as it ended, the lines
      handed to the command states afterwards, and the lines refused as too long. */
  datatype Session = Session(progress: Progress, after: seq<seq<byte>>, tooLong: nat)

  /** What a line handler sees of a line: the C string at the buffer's front. */
  function Visible(line: seq<byte>): (r: seq<byte>)
    ensures NUL !in r && (NUL !in line ==> r == line)
  {
    var k := IndexOf(line, NUL);
    if k < 0 then line else line[..k]
  }

  function TakeLine(s: Session, line: seq<byte>): Session {
    if |line| >= MAX_LINE_LENGTH - 2 then s.(tooLong := s.tooLong + 1)
    else if s.progress.Ended? then s.(after := s.after + [Visible(line)])
    else s.(progress := DataStep(s.progress.mail, Visible(line)))
  }

  function TakeLines(s: Session, lines: seq<seq<byte>>): Session
    decreases |lines|
  {
    if lines == [] then s else TakeLines(TakeLine(s, lines[0]), lines[1..])
  }

  /** All reads of a connection, one after the other. */
  function TakeReads(s: Session, tail: seq<byte>, chunks: seq<seq<byte>>): (Session, seq<byte>)
    decreases |chunks|
  {
    if chunks == [] then (s, tail)
    else
      var cut := Feed(tail, chunks[0]);
      TakeReads(TakeLines(s, cut.lines), cut.tail, chunks[1..])
  }

  /** The receiving side of a connection in the DATA state. */
  class Receiver {
    const recvBuffer: array<byte>
    var recvOffset: nat
    const mail: Mail
    var inData: bool
    var routed: MailState
    var verdict: Verdict
    var after: seq<seq<byte>>
    var tooLong: nat

    ghost predicate Valid()
      reads this, recvBuffer, mail, mail.data
    {
      && recvBuffer.Length == RECEIVE_BUFFER_LENGTH
      && recvOffset <= recvBuffer.Length
      && mail.data != recvBuffer
      && mail.Valid()
    }

    ghost function Tail(): seq<byte>
      reads this`recvOffset, recvBuffer
      requires recvOffset <= recvBuffer.Length
    {
      recvBuffer[..recvOffset]
    }

    /** What is still to come of a read, with `bytes` bytes of it unread. */
    ghost function Pending(bytes: nat): Cut
      reads this`recvOffset, recvBuffer
      requires recvOffset + bytes <= recvBuffer.Length
    {
      Feed(Tail(), recvBuffer[recvOffset..recvOffset + bytes])
    }

    ghost function State(): Session
      reads this`inData, this`routed, this`verdict, this`after, this`tooLong, mail, mail.data
      requires mail.Valid()
    {
      Session(if inData then Receiving(mail.State()) else Ended(routed, verdict), after, tooLong)
    }

    constructor (mail: Mail)
      requires mail.Valid()
      ensures Valid() && fresh(recvBuffer) && this.mail == mail
      ensures Tail() == [] && State() == Session(Receiving(mail.State()), [], 0)
    {
      recvBuffer := new byte[RECEIVE_BUFFER_LENGTH];
      recvOffset := 0;
      this.mail := mail;
      inData := true;
      routed, verdict := MailState([], 0, 0, 0), Route;
      after, tooLong := [], 0;
      new;
      assert recvBuffer[..0] == [];
    }

    /** `client_line` for the states at hand; the mail is reset once judged. */
    method ClientLine(line: seq<byte>)
      requires Valid() && NUL !in line
      modifies this`inData, this`routed, this`verdict, this`after, mail, mail.data
      ensures Valid() && (mail.data == old(mail.data) || fresh(mail.data))
      ensures State() == if old(State()).progress.Ended? then old(State()).(after := old(after) + [line])
                         else old(State()).(progress := DataStep(old(State()).progress.mail, line))
    {
      if !inData {
        after := after + [line];
        return;
      }
      var progress := mail.DataLine(line);
      if progress.Ended? {
        routed, verdict, inData := progress.mail, progress.verdict, false;
        mail.Reset();
      }
    }

    /** One pass of the read loop of `client_process`. The read delivers at
        least one byte and no more than the buffer has room for; with room for
        fewer than two the connection is closed unread. */
    method Process(chunk: seq<byte>) returns (closed: bool)
      requires Valid()
      requires recvBuffer.Length - recvOffset >= 2 ==> 1 <= |chunk| <= recvBuffer.Length - recvOffset
      modifies this, recvBuffer, mail, mail.data
      ensures Valid() && (mail.data == old(mail.data) || fresh(mail.data))
      ensures closed == (old(recvOffset) > recvBuffer.Length - 2)
      ensures closed ==> Tail() == old(Tail()) && State() == old(State())
      ensures !closed ==> Tail() == old(Feed(Tail(), chunk)).tail
      ensures !closed ==> State() == TakeLines(old(State()), old(Feed(Tail(), chunk)).lines)
    {
      closed := recvBuffer.Length - recvOffset < 2;
      if closed {
        return;
      }
      Read(chunk);
      ProcessLines(|chunk|);
    }

    /** The line loop over the bytes just read. */
    method ProcessLines(unread: nat)
      requires Valid() && recvOffset + unread <= recvBuffer.Length
      modifies this, recvBuffer, mail, mail.data
      ensures Valid() && (mail.data == old(mail.data) || fresh(mail.data))
      ensures Tail() == old(Pending(unread)).tail
      ensures State() == TakeLines(old(State()), old(Pending(unread)).lines)
    {
      var bytes := unread;
      var length: int := 0;
      ghost var all := Pending(unread);
      ghost var target := TakeLines(State(), all.lines);
      while length >= 0
        invariant Valid() && recvOffset + bytes <= recvBuffer.Length
        invariant mail.data == old(mail.data) || fresh(mail.data)
        invariant length >= 0 ==> Pending(bytes).tail == all.tail && TakeLines(State(), Pending(bytes).lines) == target
        invariant length < 0 ==> Tail() == all.tail && State() == target
        decreases length >= 0, bytes
      {
        length, bytes := ProcessLine(bytes);
      }
    }

    /** One round of the line loop: what the whole loop comes to stays the same. */
    method ProcessLine(bytes: nat) returns (length: int, bytes': nat)
      requires Valid() && recvOffset + bytes <= recvBuffer.Length
      modifies this, recvBuffer, mail, mail.data
      ensures Valid() && (mail.data == old(mail.data) || fresh(mail.data))
      ensures recvOffset + bytes' <= recvBuffer.Length
      ensures length >= 0 ==>
        && bytes' < bytes && Pending(bytes').tail == old(Pending(bytes)).tail
        && TakeLines(State(), Pending(bytes').lines) == TakeLines(old(State()), old(Pending(bytes)).lines)
      ensures length < 0 ==> old(Pending(bytes)) == Cut([], Tail()) && State() == old(State())
    {
      hide Feed, TakeLine, TakeLines;
      ghost var todo, before := Pending(bytes), State();
      length, bytes' := TakeNextLine(bytes);
      if length >= 0 {
        TakeFirst(before, todo.lines);
        HandleLine(length);
      }
    }

    /** Cuts the next line off the unread bytes. */
    method TakeNextLine(bytes: nat) returns (length: int, bytes': nat)
      requires recvOffset + bytes <= recvBuffer.Length
      modifies this`recvOffset, recvBuffer
      ensures Advances(old(Pending(bytes)), recvBuffer[..], length, recvOffset, bytes')
      ensures length >= 0 ==> bytes' < bytes
    {
      var offset;
      length, offset, bytes' := NextLine(recvBuffer, recvOffset, bytes);
      ghost var after := recvBuffer[..];
      recvOffset := offset;
      assert recvBuffer[..] == after;
    }

    /** Lines over the limit are refused, the others handled. */
    method HandleLine(length: nat)
      requires Valid() && length < recvBuffer.Length && recvBuffer[length] == NUL
      modifies this`inData, this`routed, this`verdict, this`after, this`tooLong, mail, mail.data
      ensures Valid() && (mail.data == old(mail.data) || fresh(mail.data))
      ensures State() == TakeLine(old(State()), recvBuffer[..length])
    {
      if length >= MAX_LINE_LENGTH - 2 {
        tooLong := tooLong + 1;
      } else {
        var text := FrontString(recvBuffer, length);
        ClientLine(text);
      }
    }

    /** `network_read` into the free part of the buffer. */
    method Read(chunk: seq<byte>)
      requires Valid() && recvOffset + |chunk| <= recvBuffer.Length
      modifies recvBuffer
      ensures Valid() && Tail() == old(Tail())
      ensures recvBuffer[recvOffset..recvOffset + |chunk|] == chunk
      ensures State() == old(State())
    {
      for i := 0 to |chunk|
        invariant forall j :: 0 <= j < recvOffset ==> recvBuffer[j] == old(recvBuffer[..])[j]
        invariant forall j :: recvOffset <= j < recvOffset + i ==> recvBuffer[j] == chunk[j - recvOffset]
      {
        recvBuffer[recvOffset + i] := chunk[i];
      }
    }
  }

  /** The C string in front of a line's terminator. */
  method FrontString(buffer: array<byte>, length: nat) returns (text: seq<byte>)
    requires length < buffer.Length && buffer[length] == NUL
    ensures text == Visible(buffer[..length])
  {
    text := Visible(buffer[..length]);
  }

  lemma TakeFirst(s: Session, lines: seq<seq<byte>>)
    requires lines != []
    ensures TakeLines(s, lines) == TakeLines(TakeLine(s, lines[0]), lines[1..])
  {
  }

  /** A handler sees what stands in front of the first NUL. */
  lemma VisibleFront(a: seq<byte>, b: seq<byte>)
    requires NUL !in a
    ensures Visible(a + [NUL] + b) == a
  {
    IndexOfPrefix(a, NUL, b);
    assert (a + [NUL] + b)[..|a|] == a;
  }

  /** What is left to the command states once a mail has ended. */
  lemma {:induction false} AfterTheEnd(s: Session, lines: seq<seq<byte>>)
    requires s.progress.Ended? && forall i :: 0 <= i < |lines| ==> |lines[i]| < 1498 && NUL !in lines[i]
    ensures TakeLines(s, lines) == s.(after := s.after + lines)
    decreases |lines|
  {
    if lines == [] {
      assert s.after + [] == s.after;
    } else {
      AfterTheEnd(TakeLine(s, lines[0]), lines[1..]);
      assert s.after + lines == s.after + [lines[0]] + lines[1..];
    }
  }

  /** The lines that are not refused for their length. */
  function Handled(lines: seq<seq<byte>>): (r: seq<seq<byte>>)
    ensures |r| <= |lines| && forall i :: 0 <= i < |r| ==> |r[i]| < 1498
  {
    if lines == [] then []
    else if |lines[0]| >= 1498 then Handled(lines[1..])
    else [lines[0]] + Handled(lines[1..])
  }

  /** Lines of 1498 bytes and more are counted and have no other effect. */
  lemma {:induction false} LongLinesRefused(s: Session, lines: seq<seq<byte>>)
    ensures var r := TakeLines(s, Handled(lines));
            TakeLines(s, lines) == r.(tooLong := s.tooLong + |lines| - |Handled(lines)|)
    ensures TakeLines(s, Handled(lines)).tooLong == s.tooLong
    decreases |lines|
  {
    if lines != [] {
      var rest := lines[1..];
      if |lines[0]| >= 1498 {
        LongLinesRefused(s, rest);
        LongLinesRefused(TakeLine(s, lines[0]), rest);
        CountApart(s, s.tooLong + 1, Handled(rest));
      } else {
        LongLinesRefused(TakeLine(s, lines[0]), rest);
        assert ([lines[0]] + Handled(rest))[1..] == Handled(rest);
      }
    }
  }

  lemma {:induction false} CountApart(s: Session, count: nat, lines: seq<seq<byte>>)
    requires forall i :: 0 <= i < |lines| ==> |lines[i]| < MAX_LINE_LENGTH - 2
    ensures TakeLines(s.(tooLong := count), lines) == TakeLines(s, lines).(tooLong := count)
    decreases |lines|
  {
    if lines != [] { CountApart(TakeLine(s, lines[0]), count, lines[1..]); }
  }

  // ------------------------------------------------- reads and lines commute

  lemma {:induction false} TakeLinesAppend(s: Session, a: seq<seq<byte>>, b: seq<seq<byte>>)
    ensures TakeLines(s, a + b) == TakeLines(TakeLines(s, a), b)
    decreases |a|
  {
    if a == [] {
      assert [] + b == b;
    } else {
      TakeLinesAppend(TakeLine(s, a[0]), a[1..], b);
      assert (a + b)[1..] == a[1..] + b;
    }
  }

  lemma {:induction false} TakeReadsIsTakeLines(s: Session, tail: seq<byte>, chunks: seq<seq<byte>>)
    ensures TakeReads(s, tail, chunks) == (TakeLines(s, FeedAll(tail, chunks).lines), FeedAll(tail, chunks).tail)
    decreases |chunks|
  {
    if chunks != [] {
      var cut := Feed(tail, chunks[0]);
      TakeReadsIsTakeLines(TakeLines(s, cut.lines), cut.tail, chunks[1..]);
      TakeLinesAppend(s, cut.lines, FeedAll(cut.tail, chunks[1..]).lines);
    }
  }

  // ------------------------------------------------------- the body comes back

  function BodyLines(body: seq<byte>): seq<seq<byte>> { Split(body).lines + [Split(body).tail] }

  /** A text with lines appended, each behind a CRLF. */
  function Grown(text: seq<byte>, lines: seq<seq<byte>>): seq<byte>
    decreases |lines|
  {
    if lines == [] then text else Grown(text + CRLF + lines[0], lines[1..])
  }

  lemma {:induction false} GrownUnsplit(text: seq<byte>, lines: seq<seq<byte>>, tail: seq<byte>)
    ensures Grown(text, lines + [tail]) == text + CRLF + Unsplit(lines, tail)
    decreases |lines|
  {
    if lines == [] {
      assert [] + [tail] == [tail];
      assert Grown(text + CRLF + tail, []) == text + CRLF + tail;
    } else {
      var more := Unsplit(lines[1..], tail);
      GrownUnsplit(text + CRLF + lines[0], lines[1..], tail);
      assert (lines + [tail])[1..] == lines[1..] + [tail];
      Associative(text + CRLF, lines[0] + CRLF, more);
      Associative(text + CRLF, lines[0], CRLF);
    }
  }

  /** A body's lines grow a text by CRLF and that body. */
  lemma GrownBody(text: seq<byte>, body: seq<byte>)
    ensures Grown(text, BodyLines(body)) == text + CRLF + body
  {
    SplitUnsplit(body);
    GrownUnsplit(text, Split(body).lines, Split(body).tail);
  }

  /** How many of the lines are stored before the size limit stops it. */
  function StoredCount(text: seq<byte>, lines: seq<seq<byte>>, dataMax: nat): (n: nat)
    ensures n <= |lines|
    decreases |lines|
  {
    if lines == [] || (dataMax > 0 && |text| >= dataMax) then 0
    else 1 + StoredCount(text + CRLF + lines[0], lines[1..], dataMax)
  }

  /** What the session keeps of stuffed lines: their contents without the
      stuffing, in order, up to the limit. Dots cost nothing and end nothing. */
  lemma {:induction false} TakeDotted(s: Session, lines: seq<seq<byte>>)
    requires s.progress.Receiving? && s.progress.mail.text != []
    requires forall i :: 0 <= i < |lines| ==> NUL !in lines[i] && |Dotted(lines[i])| < MAX_LINE_LENGTH - 2
    ensures var m, r := s.progress.mail, TakeLines(s, DottedAll(lines));
            && r.progress.Receiving? && r.after == s.after && r.tooLong == s.tooLong
            && r.progress.mail.dataMax == m.dataMax
            && r.progress.mail.text == Grown(m.text, lines[..StoredCount(m.text, lines, m.dataMax)])
    decreases |lines|
  {
    var m := s.progress.mail;
    if lines != [] {
      var line := lines[0];
      var next := TakeLine(s, Dotted(line));
      assert DottedAll(lines)[0] == Dotted(line) && DottedAll(lines)[1..] == DottedAll(lines[1..]);
      DottedStep(m, line);
      TakeDotted(next, lines[1..]);
      if Full(m) {
        StoredNothing(m.text, lines, m.dataMax);
        StoredNothing(m.text, lines[1..], m.dataMax);
      } else {
        var n := StoredCount(m.text + CRLF + line, lines[1..], m.dataMax);
        assert lines[..n + 1][1..] == lines[1..][..n];
      }
    }
  }

  lemma StoredNothing(text: seq<byte>, lines: seq<seq<byte>>, dataMax: nat)
    requires dataMax > 0 && |text| >= dataMax
    ensures Grown(text, lines[..StoredCount(text, lines, dataMax)]) == text
  {
  }

  /** One stuffed line, as the DATA state takes it. */
  lemma DottedStep(m: MailState, line: seq<byte>)
    requires m.text != [] && NUL !in line
    ensures NUL !in Dotted(line)
    ensures var p := DataStep(m, Dotted(line));
            p.Receiving? && p.mail.dataMax == m.dataMax
            && p.mail.text == if Full(m) then m.text else m.text + CRLF + line
  {
    if StartsWithDot(line) { assert Dotted(line)[1..] == line; }
  }

  /** A body in one piece: the wire lines end the mail at their last line. */
  lemma TakeWireLines(m: MailState, body: seq<byte>)
    requires m.text != [] && NUL !in body
    requires forall i :: 0 <= i < |WireLines(body)| ==> |WireLines(body)[i]| < MAX_LINE_LENGTH - 2
    ensures var r := TakeLines(Session(Receiving(m), [], 0), WireLines(body));
            var kept := BodyLines(body)[..StoredCount(m.text, BodyLines(body), m.dataMax)];
            && r.progress.Ended? && r.after == [] && r.tooLong == 0
            && r.progress.mail.text == Grown(m.text, kept)
            && r.progress.mail.dataMax == m.dataMax
            && r.progress.verdict == Judge(r.progress.mail)
  {
    var lines := BodyLines(body);
    var start := Session(Receiving(m), [], 0);
    var dotted := DottedAll(lines);
    BodyLinesNulFree(body);
    assert dotted == DottedAll(Split(body).lines) + [Dotted(Split(body).tail)];
    forall i | 0 <= i < |lines| ensures |Dotted(lines[i])| < MAX_LINE_LENGTH - 2 {
      assert WireLines(body)[i] == dotted[i];
    }
    TakeDotted(start, lines);
    TakeLinesAppend(start, dotted, [[DOT]]);
    assert Visible([DOT]) == [DOT];
  }

  lemma BodyLinesNulFree(body: seq<byte>)
    requires NUL !in body
    ensures forall i :: 0 <= i < |BodyLines(body)| ==> NUL !in BodyLines(body)[i]
  {
    SplitNulFree(body);
  }

  lemma {:induction false} SplitNulFree(s: seq<byte>)
    requires NUL !in s
    ensures NUL !in Split(s).tail
    ensures forall i :: 0 <= i < |Split(s).lines| ==> NUL !in Split(s).lines[i]
  {
    var k := NextCrlf(s);
    if k >= 0 { SplitNulFree(s[k + 2..]); }
  }

  lemma WireNulFree(body: seq<byte>)
    requires NUL !in body
    ensures NUL !in Wire(body)
  {
    StuffRestNulFree(body);
  }

  lemma {:induction false} StuffRestNulFree(s: seq<byte>)
    requires NUL !in s
    ensures NUL !in StuffRest(s)
    decreases |s|
  {
    hide StuffRest, ScanCrlfDot;
    var k := ScanCrlfDot(s, 0);
    if k >= 0 {
      StuffRestNulFree(s[k + 3..]);
      StuffUnfold(s, s[..k], s[k + 3..]);
      NulFreeJoin(s[..k], CRLF, [DOT, DOT], StuffRest(s[k + 3..]));
    } else {
      NothingStuffed(s);
    }
  }

  lemma NothingStuffed(s: seq<byte>)
    requires ScanCrlfDot(s, 0) < 0
    ensures StuffRest(s) == s
  {
  }

  lemma NulFreeJoin(a: seq<byte>, b: seq<byte>, c: seq<byte>, d: seq<byte>)
    requires NUL !in a && NUL !in b && NUL !in c && NUL !in d
    ensures NUL !in a + b + c + d
  {
  }

  /** How the sender's bytes may reach the receiver: in any number of reads,
      none empty and none ending between a CR and its LF, with no line over the
      limit. */
  ghost predicate Delivers(chunks: seq<seq<byte>>, body: seq<byte>) {
    && Concat(chunks) == Wire(body)
    && (forall i :: 0 <= i < |chunks| ==> chunks[i] != [])
    && Straddles(chunks) == 0
    && forall i :: 0 <= i < |WireLines(body)| ==> |WireLines(body)[i]| < MAX_LINE_LENGTH - 2
  }

  /** Reading the wire form of a body in pieces is taking its stuffed lines. */
  lemma DeliveredLines(s: Session, chunks: seq<seq<byte>>, body: seq<byte>)
    requires NUL !in body && Delivers(chunks, body)
    ensures TakeReads(s, [], chunks) == (TakeLines(s, WireLines(body)), [])
  {
    WireNulFree(body);
    WireCut(body);
    ChunkingIndependence(chunks);
    TakeReadsIsTakeLines(s, [], chunks);
  }

  /** The main result. A non-empty mail buffer without a size limit is extended
      by exactly CRLF and the body, the lone dot is met at the very end and
      nowhere before, and no byte is left over. */
  lemma EndToEnd(m: MailState, body: seq<byte>, chunks: seq<seq<byte>>)
    requires m.text != [] && m.dataMax == 0 && NUL !in body
    requires Delivers(chunks, body)
    ensures var (r, tail) := TakeReads(Session(Receiving(m), [], 0), [], chunks);
            && tail == [] && r.after == [] && r.tooLong == 0
            && r.progress.Ended? && r.progress.mail.text == m.text + CRLF + body
  {
    DeliveredLines(Session(Receiving(m), [], 0), chunks, body);
    TakeWireLines(m, body);
    StoredAll(m.text, BodyLines(body));
    GrownBody(m.text, body);
  }

  lemma {:induction false} StoredAll(text: seq<byte>, lines: seq<seq<byte>>)
    ensures lines[..StoredCount(text, lines, 0)] == lines
    decreases |lines|
  {
    if lines != [] {
      StoredAll(text + CRLF + lines[0], lines[1..]);
      assert lines == [lines[0]] + lines[1..];
    }
  }

  // ------------------------------------------------------------ room in the buffer

  /** What is left over of the first bytes of some lines is at most one of them and a CR. */
  lemma {:induction false} PrefixTail(lines: seq<seq<byte>>, p: seq<byte>, bound: nat)
    requires p <= Unsplit(lines, [])
    requires forall i :: 0 <= i < |lines| ==> Unbroken(lines[i]) && |lines[i]| < bound
    ensures |Split(p).tail| <= bound
    decreases |lines|
  {
    hide Unbroken, NextCrlf;
    if lines == [] {
      assert p == [];
      NextCrlfIs(p, -1);
    } else {
      var line, rest := lines[0], Unsplit(lines[1..], []);
      assert Unsplit(lines, []) == line + CRLF + rest;
      FirstCrlf(line, rest);
      if |p| < |line| + 2 {
        ShortPrefix(line + CRLF + rest, p, |line|);
      } else {
        LongPrefix(line, rest, p);
        FirstCrlf(line, p[|line| + 2..]);
        SplitStep(p, line, p[|line| + 2..]);
        PrefixTail(lines[1..], p[|line| + 2..], bound);
      }
    }
  }

  lemma ShortPrefix(s: seq<byte>, p: seq<byte>, k: nat)
    requires p <= s && NextCrlf(s) == k && |p| < k + 2
    ensures Split(p) == Cut([], p)
  {
    assert forall i {:trigger CrlfAt(p, i)} :: CrlfAt(p, i) ==> CrlfAt(s, i);
    NextCrlfIs(p, -1);
  }

  lemma LongPrefix(line: seq<byte>, rest: seq<byte>, p: seq<byte>)
    requires p <= line + CRLF + rest && |p| >= |line| + 2 && Unbroken(line)
    ensures p[|line| + 2..] <= rest && p == line + CRLF + p[|line| + 2..]
  {
    var s := line + CRLF + rest;
    assert s[|line| + 2..] == rest && p == s[..|p|];
    assert s[..|line| + 2] == line + CRLF;
  }

  lemma {:induction false} ConcatPrefix(chunks: seq<seq<byte>>, k: nat)
    requires k <= |chunks|
    ensures Concat(chunks[..k]) <= Concat(chunks)
    ensures Straddles(chunks) == 0 ==> Straddles(chunks[..k]) == 0
    decreases k
  {
    if k > 0 {
      ConcatPrefix(chunks[1..], k - 1);
      assert chunks[..k][1..] == chunks[1..][..k - 1];
    }
  }

  /** At no time during a delivery does the unfinished line fill the receive buffer. */
  lemma RoomLeft(chunks: seq<seq<byte>>, body: seq<byte>, k: nat)
    requires NUL !in body && Delivers(chunks, body) && k <= |chunks|
    ensures |FeedAll([], chunks[..k]).tail| < MAX_LINE_LENGTH - 1
  {
    hide Wire, WireLines, FeedAll, Split;
    var read := chunks[..k];
    ConcatPrefix(chunks, k);
    WireNulFree(body);
    ChunkingIndependence(read);
    WireCut(body);
    SplitUnsplit(Wire(body));
    WireLinesUnbroken(body);
    PrefixTail(WireLines(body), Concat(read), MAX_LINE_LENGTH - 2);
  }

  lemma {:induction false} FeedAllNext(tail: seq<byte>, chunks: seq<seq<byte>>, chunk: seq<byte>)
    ensures FeedAll(tail, chunks + [chunk]).tail == Feed(FeedAll(tail, chunks).tail, chunk).tail
    decreases |chunks|
  {
    hide Feed;
    if chunks == [] {
      assert ([] + [chunk])[1..] == [];
    } else {
      FeedAllNext(Feed(tail, chunks[0]).tail, chunks[1..], chunk);
      assert (chunks + [chunk])[1..] == chunks[1..] + [chunk];
    }
  }

  /** No read delivers more than the buffer has room for. */
  ghost predicate ReadsFit(tail: seq<byte>, chunks: seq<seq<byte>>)
    decreases |chunks|
  {
    chunks == [] ||
    (|tail| + |chunks[0]| <= RECEIVE_BUFFER_LENGTH && ReadsFit(Feed(tail, chunks[0]).tail, chunks[1..]))
  }

  /** The read loop as the core loop repeats it: a delivery is received to its end, and the
      connection is not closed on the way. */
  method Receive(receiver: Receiver, chunks: seq<seq<byte>>, ghost body: seq<byte>) returns (closed: bool)
    requires receiver.Valid() && receiver.Tail() == []
    requires NUL !in body && Delivers(chunks, body) && ReadsFit([], chunks)
    modifies receiver, receiver.recvBuffer, receiver.mail, receiver.mail.data
    ensures receiver.Valid() && !closed
    ensures (receiver.State(), receiver.Tail()) == TakeReads(old(receiver.State()), [], chunks)
  {
    hide TakeReads, TakeLines, Feed, FeedAll, Delivers;
    closed := false;
    var i := 0;
    ghost var target := TakeReads(receiver.State(), [], chunks);
    NoReads(chunks);
    while i < |chunks|
      invariant receiver.Valid() && 0 <= i <= |chunks| && !closed
      invariant receiver.mail.data == old(receiver.mail.data) || fresh(receiver.mail.data)
      invariant receiver.Tail() == FeedAll([], chunks[..i]).tail && ReadsFit(receiver.Tail(), chunks[i..])
      invariant TakeReads(receiver.State(), receiver.Tail(), chunks[i..]) == target
    {
      NextRead(receiver.State(), chunks, body, i);
      closed := receiver.Process(chunks[i]);
      i := i + 1;
    }
    AllReads(receiver.State(), receiver.Tail(), chunks);
  }

  lemma NoReads(chunks: seq<seq<byte>>)
    ensures FeedAll([], chunks[..0]).tail == [] && chunks[0..] == chunks
  {
  }

  lemma AllReads(s: Session, tail: seq<byte>, chunks: seq<seq<byte>>)
    ensures TakeReads(s, tail, chunks[|chunks|..]) == (s, tail)
  {
  }

  lemma NextRead(s: Session, chunks: seq<seq<byte>>, body: seq<byte>, i: nat)
    requires NUL !in body && Delivers(chunks, body) && i < |chunks|
    ensures var (tail, rest) := (FeedAll([], chunks[..i]).tail, chunks[i..]);
            && chunks[i] != [] && |tail| <= RECEIVE_BUFFER_LENGTH - 2
            && rest[0] == chunks[i] && rest[1..] == chunks[i + 1..]
            && FeedAll([], chunks[..i + 1]).tail == Feed(tail, chunks[i]).tail
            && TakeReads(s, tail, rest) ==
               TakeReads(TakeLines(s, Feed(tail, chunks[i]).lines), Feed(tail, chunks[i]).tail, chunks[i + 1..])
  {
    hide FeedAll, Feed, TakeLines;
    RoomLeft(chunks, body, i);
    FeedAllNext([], chunks[..i], chunks[i]);
    assert chunks[..i + 1] == chunks[..i] + [chunks[i]];
  }

  // ------------------------------------------------------------ the size limit

  /** Each line makes the text longer: its length before line `j` falls short of
      its length before line `k`. */
  lemma {:induction false} GrownIncreases(text: seq<byte>, lines: seq<seq<byte>>, j: nat, k: nat)
    requires j < k <= |lines|
    ensures |Grown(text, lines[..j])| < |Grown(text, lines[..k])|
    decreases |lines|
  {
    var next := text + CRLF + lines[0];
    assert lines[..k][1..] == lines[1..][..k - 1];
    if j == 0 {
      assert lines[..0] == [];
      if k == 1 { assert lines[1..][..0] == []; } else { GrownIncreases(next, lines[1..], 0, k - 1); assert lines[1..][..0] == []; }
    } else {
      assert lines[..j][1..] == lines[1..][..j - 1];
      GrownIncreases(next, lines[1..], j - 1, k - 1);
    }
  }

  /** Storing stops before the first line that finds the limit reached. */
  lemma {:induction false} StoredStops(text: seq<byte>, lines: seq<seq<byte>>, dataMax: nat)
    requires dataMax > 0
    ensures var n := StoredCount(text, lines, dataMax);
            && (n < |lines| ==> |Grown(text, lines[..n])| >= dataMax)
            && (forall j :: 0 <= j < n ==> |Grown(text, lines[..j])| < dataMax)
    decreases |lines|
  {
    if lines != [] && |text| < dataMax {
      var next, rest := text + CRLF + lines[0], lines[1..];
      var n := StoredCount(text, lines, dataMax);
      StoredStops(next, rest, dataMax);
      assert lines[..n][1..] == rest[..n - 1];
      forall j | 0 <= j < n ensures |Grown(text, lines[..j])| < dataMax {
        if j == 0 { assert lines[..0] == []; } else { assert lines[..j][1..] == rest[..j - 1]; }
      }
    } else {
      assert lines[..0] == [];
    }
  }

  /** What is stored of some lines is less than all of them but no more than the limit
      exactly when a proper prefix of them fills the limit. */
  lemma CutAtLimit(text: seq<byte>, lines: seq<seq<byte>>, dataMax: nat)
    requires dataMax > 0
    ensures var n := StoredCount(text, lines, dataMax);
            (n < |lines| && |Grown(text, lines[..n])| <= dataMax)
            <==> exists k :: 0 <= k < |lines| && |Grown(text, lines[..k])| == dataMax
  {
    hide StoredCount, Grown;
    var n := StoredCount(text, lines, dataMax);
    StoredStops(text, lines, dataMax);
    forall k | n < k < |lines| ensures |Grown(text, lines[..k])| > dataMax {
      GrownIncreases(text, lines, n, k);
    }
  }

  /** The text differs from the whole exactly if not all lines were stored. */
  lemma CutDiffers(text: seq<byte>, body: seq<byte>, n: nat)
    requires n <= |BodyLines(body)|
    ensures Grown(text, BodyLines(body)[..n]) != text + CRLF + body <==> n < |BodyLines(body)|
  {
    hide Grown, BodyLines;
    var lines := BodyLines(body);
    GrownBody(text, body);
    assert lines[..|lines|] == lines;
    if n < |lines| { GrownIncreases(text, lines, n, |lines|); }
  }

  // ------------------------------------------------------------ hops

  /** The trace lines of a mail: up to the first empty line. */
  function HeaderHops(lines: seq<seq<byte>>): nat
    decreases |lines|
  {
    if lines == [] || lines[0] == [] then 0
    else (if RECEIVED() <= lines[0] then 1 else 0) + HeaderHops(lines[1..])
  }

  lemma HopStep(m: MailState, line: seq<byte>)
    requires m.text != [] && NUL !in line
    ensures var p := DataStep(m, Dotted(line));
            && p.Receiving? && p.mail.text != []
            && p.mail.headerOffset == (if m.headerOffset == 0 && line == [] then |m.text| else m.headerOffset)
            && p.mail.hopCount == m.hopCount + if m.headerOffset == 0 && RECEIVED() <= line then 1 else 0
  {
    assert RECEIVED()[0] == 82;
    if StartsWithDot(line) { assert Dotted(line)[1..] == line; }
  }

  lemma {:induction false} HopsTaken(s: Session, lines: seq<seq<byte>>)
    requires s.progress.Receiving? && s.progress.mail.text != []
    requires forall i :: 0 <= i < |lines| ==> NUL !in lines[i] && |Dotted(lines[i])| < MAX_LINE_LENGTH - 2
    ensures var m, r := s.progress.mail, TakeLines(s, DottedAll(lines));
            && r.progress.Receiving?
            && r.progress.mail.hopCount == m.hopCount + if m.headerOffset == 0 then HeaderHops(lines) else 0
    decreases |lines|
  {
    hide DataStep, Dotted;
    if lines != [] {
      assert DottedAll(lines)[0] == Dotted(lines[0]) && DottedAll(lines)[1..] == DottedAll(lines[1..]);
      HopStep(s.progress.mail, lines[0]);
      DottedStep(s.progress.mail, lines[0]);
      HopsTaken(TakeLine(s, Dotted(lines[0])), lines[1..]);
    }
  }

  /** The hops with which a mail is judged: those counted before, and the trace lines
      that follow as long as the header has not been seen to end. */
  function Hops(m: MailState, lines: seq<seq<byte>>): nat {
    m.hopCount + if m.headerOffset == 0 then HeaderHops(lines) else 0
  }

  /** The hop count with which the lone dot is judged. */
  lemma WireHops(m: MailState, body: seq<byte>)
    requires m.text != [] && NUL !in body
    requires forall i :: 0 <= i < |WireLines(body)| ==> |WireLines(body)[i]| < MAX_LINE_LENGTH - 2
    ensures var r := TakeLines(Session(Receiving(m), [], 0), WireLines(body));
            r.progress.Ended? && r.progress.mail.hopCount == Hops(m, BodyLines(body))
  {
    hide HeaderHops;
    var lines := BodyLines(body);
    var start := Session(Receiving(m), [], 0);
    var dotted := DottedAll(lines);
    BodyLinesNulFree(body);
    assert dotted == DottedAll(Split(body).lines) + [Dotted(Split(body).tail)];
    forall i | 0 <= i < |lines| ensures |Dotted(lines[i])| < MAX_LINE_LENGTH - 2 {
      assert WireLines(body)[i] == dotted[i];
    }
    HopsTaken(start, lines);
    TakeLinesAppend(start, dotted, [[DOT]]);
    assert Visible([DOT]) == [DOT];
  }

  /** A mail is refused for its hops if and only if it is not refused for its size and
      its header, the trace lines counted before included, shows more than the limit:
      trace lines in the body do not count, and those that were not stored do. */
  lemma HopLimit(m: MailState, body: seq<byte>, chunks: seq<seq<byte>>)
    requires m.text != [] && NUL !in body
    requires Delivers(chunks, body)
    ensures var r := TakeReads(Session(Receiving(m), [], 0), [], chunks).0;
            && r.progress.Ended?
            && (r.progress.verdict == TooManyHops
                <==> r.progress.verdict != SizeExceeded && Hops(m, BodyLines(body)) > 30)
  {
    hide TakeReads, TakeLines, Grown, StoredCount, Hops;
    var start := Session(Receiving(m), [], 0);
    DeliveredLines(start, chunks, body);
    TakeWireLines(m, body);
    WireHops(m, body);
  }

  // ------------------------------------------------------------ mail cut and accepted

  /** With a size limit, a mail that was cut is still accepted if and only if some proper
      prefix of its lines fills the buffer to exactly the limit, and it has not made too
      many hops: the check at the end asks for more than the limit, the check per line for
      no less. */
  lemma SilentTruncation(m: MailState, body: seq<byte>, chunks: seq<seq<byte>>)
    requires m.text != [] && m.dataMax > 0 && NUL !in body
    requires Delivers(chunks, body)
    ensures var r := TakeReads(Session(Receiving(m), [], 0), [], chunks).0;
            && r.progress.Ended?
            && ((r.progress.verdict == Route && r.progress.mail.text != m.text + CRLF + body) <==>
                && (exists k :: 0 <= k < |BodyLines(body)| && |Grown(m.text, BodyLines(body)[..k])| == m.dataMax)
                && Hops(m, BodyLines(body)) <= 30)
  {
    hide TakeReads, TakeLines, StoredCount, Grown, BodyLines, WireLines, Hops;
    var lines := BodyLines(body);
    DeliveredLines(Session(Receiving(m), [], 0), chunks, body);
    TakeWireLines(m, body);
    CutAtLimit(m.text, lines, m.dataMax);
    CutDiffers(m.text, body, StoredCount(m.text, lines, m.dataMax));
    HopLimit(m, body, chunks);
  }

  /** What is refused for its size: exactly the mail that is longer than the limit and
      that no proper prefix of its lines fills. Mail within the limit is stored whole. */
  lemma SizeLimit(m: MailState, body: seq<byte>, chunks: seq<seq<byte>>)
    requires m.text != [] && NUL !in body
    requires Delivers(chunks, body)
    ensures var r := TakeReads(Session(Receiving(m), [], 0), [], chunks).0;
            var whole := m.text + CRLF + body;
            && r.progress.Ended?
            && (r.progress.verdict == SizeExceeded <==>
                && 0 < m.dataMax < |whole|
                && forall k :: 0 <= k < |BodyLines(body)| ==> |Grown(m.text, BodyLines(body)[..k])| != m.dataMax)
            && (m.dataMax == 0 || |whole| <= m.dataMax ==> r.progress.mail.text == whole)
  {
    hide TakeReads, TakeLines, StoredCount, Grown, BodyLines, WireLines;
    var lines := BodyLines(body);
    DeliveredLines(Session(Receiving(m), [], 0), chunks, body);
    TakeWireLines(m, body);
    GrownBody(m.text, body);
    assert lines[..|lines|] == lines;
    if m.dataMax == 0 {
      StoredAll(m.text, lines);
    } else {
      var n := StoredCount(m.text, lines, m.dataMax);
      StoredStops(m.text, lines, m.dataMax);
      CutAtLimit(m.text, lines, m.dataMax);
      if n < |lines| { GrownIncreases(m.text, lines, n, |lines|); }
    }
  }

  /** Such a mail: with a limit of 4, a mail of one byte that is followed by the lines
      "a" and "b" is accepted without the second. */
  lemma TruncatedMail()
    ensures var m, body := MailState(Ascii("x"), 4, 0, 0), Ascii("a\r\nb");
            var r := TakeReads(Session(Receiving(m), [], 0), [], [Wire(body)]).0;
            && Delivers([Wire(body)], body)
            && r.progress.Ended? && r.progress.verdict == Route && r.progress.mail.text == Ascii("x\r\na")
  {
    hide TakeReads, TakeLines, Delivers, Wire, Split, Grown, StoredCount, HeaderHops, Ascii;
    var m, body := MailState(Ascii("x"), 4, 0, 0), Ascii("a\r\nb");
    ExampleTexts();
    ExampleLines(body);
    InOneRead(body);
    DeliveredLines(Session(Receiving(m), [], 0), [Wire(body)], body);
    TakeWireLines(m, body);
    WireHops(m, body);
    ExampleStored(m.text);
  }

  lemma ExampleTexts()
    ensures Ascii("x") == [120] && Ascii("a\r\nb") == [97, CR, LF, 98] && Ascii("x\r\na") == [120, CR, LF, 97]
  {
  }

  lemma ExampleLines(body: seq<byte>)
    requires body == [97, CR, LF, 98]
    ensures Split(body) == Cut([[97]], [98]) && BodyLines(body) == [[97], [98]]
    ensures NUL !in body && HeaderHops(BodyLines(body)) == 0
    ensures forall i :: 0 <= i < |WireLines(body)| ==> |WireLines(body)[i]| < MAX_LINE_LENGTH - 2
  {
    hide HeaderHops, Split;
    assert body == Unsplit([[97]], [98]);
    UnsplitSplit([[97]], [98]);
    NoTraceLines(BodyLines(body));
  }

  lemma {:induction false} NoTraceLines(lines: seq<seq<byte>>)
    requires forall i :: 0 <= i < |lines| ==> |lines[i]| < |RECEIVED()|
    ensures HeaderHops(lines) == 0
    decreases |lines|
  {
    if lines != [] { NoTraceLines(lines[1..]); }
  }

  lemma InOneRead(body: seq<byte>)
    requires forall i :: 0 <= i < |WireLines(body)| ==> |WireLines(body)[i]| < MAX_LINE_LENGTH - 2
    ensures Delivers([Wire(body)], body)
  {
    assert Concat([Wire(body)]) == Wire(body) + Concat([]) == Wire(body);
  }

  lemma ExampleStored(text: seq<byte>)
    requires text == [120]
    ensures var lines: seq<seq<byte>> := [[97], [98]];
            StoredCount(text, lines, 4) == 1 && Grown(text, lines[..1]) == [120, CR, LF, 97]
  {
    var lines: seq<seq<byte>> := [[97], [98]];
    var next := text + CRLF + lines[0];
    assert StoredCount(next, lines[1..], 4) == 0;
    assert lines[..1][1..] == [];
    assert Grown(next, lines[..1][1..]) == next;
  }
}
