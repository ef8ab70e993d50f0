/** The sender's half of the transparency procedure (section 4.5.2 of RFC 5321,
    section 3 of RFC 1939): one searching loop shared in text by the outbound
    SMTP client and the POP3 server. */
module DotStuffing {
  import opened Bytes
  import opened LineSplitter

  const TERMINATOR: seq<byte> := CRLF + [DOT] + CRLF

  ghost predicate CrlfDotAt(s: seq<byte>, i: int) {
    CrlfAt(s, i) && i + 2 < |s| && s[i + 2] == DOT
  }

  /** The search for CRLF and a dot at or behind `from`; -1 when there is none. */
  function ScanCrlfDot(s: seq<byte>, from: nat): (k: int)
    ensures k == -1 || (from <= k && CrlfDotAt(s, k))
    ensures forall i :: from <= i && (k == -1 || i < k) ==> !CrlfDotAt(s, i)
    decreases |s| - from
  {
    if from + 2 >= |s| then -1
    else if s[from] == CR && s[from + 1] == LF && s[from + 2] == DOT then from
    else ScanCrlfDot(s, from + 1)
  }

  /** `s` with a dot added to each dot that follows a CRLF, as the loop finds them. */
  function StuffRest(s: seq<byte>): seq<byte>
    decreases |s|
  {
    var k := ScanCrlfDot(s, 0);
    if k < 0 then s else s[..k] + CRLF + [DOT, DOT] + StuffRest(s[k + 3..])
  }

  function StartsWithDot(s: seq<byte>): bool { s != [] && s[0] == DOT }

  function Stuffed(body: seq<byte>): seq<byte> {
    (if StartsWithDot(body) then [DOT] else []) + StuffRest(body)
  }

  /** Everything sent for a body. */
  function Wire(body: seq<byte>): seq<byte> { Stuffed(body) + TERMINATOR }

  /** The sending side of a connection. */
  class Connection {
    var sent: seq<byte>

    constructor ()
      ensures sent == []
    {
      sent := [];
    }

    method Send(data: seq<byte>)
      modifies this
      ensures sent == old(sent) + data
    {
      sent := sent + data;
    }
  }

  /** The loops of `smtp_data` and `pop_retr`: `rest` is the advancing pointer. */
  method SendBody(conn: Connection, body: seq<byte>)
    modifies conn
    ensures conn.sent == old(conn.sent) + Wire(body)
  {
    if StartsWithDot(body) {
      conn.Send([DOT]);
    }
    var rest := body;
    ghost var target := conn.sent + StuffRest(body);
    while true
      invariant conn.sent + StuffRest(rest) == target
      decreases |rest|
    {
      var k := ScanCrlfDot(rest, 0);
      if k < 0 {
        conn.Send(rest);
        break;
      }
      StuffStep(conn.sent, rest, k);
      conn.Send(rest[..k]);
      conn.Send(CRLF + [DOT, DOT]);
      rest := rest[k + 3..];
    }
    assert conn.sent == old(conn.sent) + Stuffed(body);
    conn.Send(TERMINATOR);
  }

  lemma StuffStep(sent: seq<byte>, rest: seq<byte>, k: nat)
    requires k == ScanCrlfDot(rest, 0)
    ensures sent + StuffRest(rest) == sent + rest[..k] + (CRLF + [DOT, DOT]) + StuffRest(rest[k + 3..])
  {
    var tail := StuffRest(rest[k + 3..]);
    assert rest[..k] + CRLF + [DOT, DOT] + tail == rest[..k] + (CRLF + [DOT, DOT]) + tail;
  }

  // ---------------------------------------- the reference: stuffing by lines

  /** Section 4.5.2 of RFC 5321: a line that begins with a period gets another. */
  function Dotted(line: seq<byte>): seq<byte> {
    if StartsWithDot(line) then [DOT] + line else line
  }

  /** The receiver's inverse. */
  function Undotted(line: seq<byte>): seq<byte> {
    if StartsWithDot(line) then line[1..] else line
  }

  function DottedAll(lines: seq<seq<byte>>): (r: seq<seq<byte>>)
    ensures |r| == |lines|
    ensures forall i :: 0 <= i < |lines| ==> r[i] == Dotted(lines[i])
  {
    seq(|lines|, i requires 0 <= i < |lines| => Dotted(lines[i]))
  }

  lemma ScanSkipsDots(p: seq<byte>, x: seq<byte>)
    requires forall i :: 0 <= i < |p| ==> !CrlfDotAt(p + x, i)
    ensures var k := ScanCrlfDot(x, 0);
            ScanCrlfDot(p + x, 0) == if k < 0 then -1 else |p| + k
  {
    var s, k := p + x, ScanCrlfDot(x, 0);
    assert forall i {:trigger CrlfDotAt(s, i)} :: |p| <= i ==> (CrlfDotAt(s, i) <==> CrlfDotAt(x, i - |p|));
    if k >= 0 { assert CrlfDotAt(s, |p| + k); }
  }

  lemma SlicesBehind(p: seq<byte>, x: seq<byte>, k: nat)
    requires k + 3 <= |x|
    ensures (p + x)[..|p| + k] == p + x[..k] && (p + x)[|p| + k + 3..] == x[k + 3..]
  {
  }

  lemma Regroup(p: seq<byte>, a: seq<byte>, b: seq<byte>, c: seq<byte>, d: seq<byte>)
    ensures (p + a) + b + c + d == p + (a + b + c + d)
  {
  }

  /** Nothing the loop looks for starts inside `p`: it is sent as it stands. */
  lemma StuffSkips(p: seq<byte>, x: seq<byte>)
    requires forall i :: 0 <= i < |p| ==> !CrlfDotAt(p + x, i)
    ensures StuffRest(p + x) == p + StuffRest(x)
  {
    var k := ScanCrlfDot(x, 0);
    ScanSkipsDots(p, x);
    if k >= 0 {
      var head, rest := x[..k], x[k + 3..];
      SlicesBehind(p, x, k);
      StuffUnfold(x, head, rest);
      StuffUnfold(p + x, p + head, rest);
      Regroup(p, head, CRLF, [DOT, DOT], StuffRest(rest));
    }
  }

  lemma StuffUnfold(s: seq<byte>, head: seq<byte>, rest: seq<byte>)
    requires ScanCrlfDot(s, 0) == |head| && s[..|head|] == head && s[|head| + 3..] == rest
    ensures StuffRest(s) == head + CRLF + [DOT, DOT] + StuffRest(rest)
  {
  }

  /** The loop's search, seen line by line. */
  lemma StuffLine(line: seq<byte>, rest: seq<byte>)
    requires Unbroken(line)
    ensures Stuffed(line + CRLF + rest) == Dotted(line) + CRLF + Stuffed(rest)
  {
    var s := line + CRLF + rest;
    FirstCrlf(line, rest);
    if StartsWithDot(rest) {
      StuffBeforeDot(line, rest);
    } else {
      assert forall i {:trigger CrlfDotAt(s, i)} :: 0 <= i < |line + CRLF| ==> !CrlfDotAt(s, i);
      StuffSkips(line + CRLF, rest);
      assert [] + StuffRest(rest) == StuffRest(rest);
    }
    assert StuffRest(s) == line + CRLF + Stuffed(rest);
    assert StartsWithDot(s) == StartsWithDot(line);
    PrefixDot(line, Stuffed(rest));
  }

  lemma StuffBeforeDot(line: seq<byte>, rest: seq<byte>)
    requires Unbroken(line) && StartsWithDot(rest)
    ensures StuffRest(line + CRLF + rest) == line + CRLF + Stuffed(rest)
  {
    var s, more := line + CRLF + rest, rest[1..];
    FirstCrlf(line, rest);
    assert CrlfDotAt(s, |line|);
    assert ScanCrlfDot(s, 0) == |line|;
    assert s[..|line|] == line && s[|line| + 3..] == more;
    assert rest == [DOT] + more;
    assert forall i {:trigger CrlfDotAt(rest, i)} :: 0 <= i < |[DOT]| ==> !CrlfDotAt(rest, i);
    StuffSkips([DOT], more);
    TwoDots(line + CRLF, StuffRest(more));
  }

  lemma TwoDots(head: seq<byte>, more: seq<byte>)
    ensures head + [DOT, DOT] + more == head + ([DOT] + ([DOT] + more))
  {
  }

  lemma PrefixDot(line: seq<byte>, x: seq<byte>)
    ensures (if StartsWithDot(line) then [DOT] else []) + (line + CRLF + x) == Dotted(line) + CRLF + x
  {
  }

  lemma DottedUnbroken(line: seq<byte>)
    requires Unbroken(line)
    ensures Unbroken(Dotted(line))
  {
    var d := Dotted(line);
    if StartsWithDot(line) {
      assert forall i {:trigger CrlfAt(d, i)} :: CrlfAt(d, i) ==> CrlfAt(line, i - 1);
    }
    NextCrlfIs(d, -1);
  }

  /** What the loop emits for a body is that body stuffed line by line. */
  lemma {:induction false} StuffedLines(lines: seq<seq<byte>>, tail: seq<byte>)
    requires forall i :: 0 <= i < |lines| ==> Unbroken(lines[i])
    requires Unbroken(tail)
    ensures Stuffed(Unsplit(lines, tail)) == Unsplit(DottedAll(lines), Dotted(tail))
  {
    if lines == [] {
      assert ScanCrlfDot(tail, 0) == -1;
      assert [] + tail == tail;
    } else {
      var rest := lines[1..];
      StuffLine(lines[0], Unsplit(rest, tail));
      StuffedLines(rest, tail);
      assert DottedAll(lines)[1..] == DottedAll(rest);
    }
  }

  /** Appending finished lines to an unfinished text. */
  lemma {:induction false} UnsplitAppend(lines: seq<seq<byte>>, tail: seq<byte>, more: seq<byte>)
    ensures Unsplit(lines, tail) + more == Unsplit(lines, tail + more)
  {
    if lines != [] {
      UnsplitAppend(lines[1..], tail, more);
      Associative(lines[0] + CRLF, Unsplit(lines[1..], tail), more);
    }
  }

  lemma {:induction false} UnsplitFinish(lines: seq<seq<byte>>, line: seq<byte>, more: seq<byte>)
    ensures Unsplit(lines, line + CRLF + more) == Unsplit(lines + [line], more)
  {
    if lines == [] {
      UnsplitCons(line, [], more);
      assert [] + [line] == [line] && [line] + [] == [line];
    } else {
      UnsplitFinish(lines[1..], line, more);
      assert (lines + [line])[1..] == lines[1..] + [line];
    }
  }

  /** The lines of a body as they travel, the lone dot last. */
  function WireLines(body: seq<byte>): seq<seq<byte>> {
    DottedAll(Split(body).lines) + [Dotted(Split(body).tail)] + [[DOT]]
  }

  lemma AppendTerminator(lines: seq<seq<byte>>, last: seq<byte>)
    ensures Unsplit(lines, last) + TERMINATOR == Unsplit(lines + [last] + [[DOT]], [])
  {
    var dot: seq<byte> := [DOT];
    UnsplitAppend(lines, last, TERMINATOR);
    Associative(last, CRLF, dot + CRLF);
    assert TERMINATOR == CRLF + (dot + CRLF);
    UnsplitFinish(lines, last, dot + CRLF);
    assert dot + CRLF == dot + CRLF + [];
    UnsplitFinish(lines + [last], dot, []);
  }

  /** Cut at CRLF, the bytes sent are the stuffed lines and the lone dot, and
      nothing is left over. */
  lemma WireCut(body: seq<byte>)
    ensures Split(Wire(body)) == Cut(WireLines(body), [])
  {
    SplitUnbroken(body);
    SplitUnsplit(body);
    StuffedLines(Split(body).lines, Split(body).tail);
    AppendTerminator(DottedAll(Split(body).lines), Dotted(Split(body).tail));
    WireLinesUnbroken(body);
    UnsplitSplit(WireLines(body), []);
  }

  lemma WireLinesUnbroken(body: seq<byte>)
    ensures forall i :: 0 <= i < |WireLines(body)| ==> Unbroken(WireLines(body)[i])
    ensures Unbroken([])
  {
    var cut := Split(body);
    SplitUnbroken(body);
    forall i | 0 <= i < |WireLines(body)| ensures Unbroken(WireLines(body)[i]) {
      if i < |cut.lines| { DottedUnbroken(cut.lines[i]); } else { DottedUnbroken(cut.tail); }
    }
  }

  // ------------------------------------------------------- a reader's decoding

  function UndottedAll(lines: seq<seq<byte>>): (r: seq<seq<byte>>)
    ensures |r| == |lines|
    ensures forall i :: 0 <= i < |lines| ==> r[i] == Undotted(lines[i])
  {
    seq(|lines|, i requires 0 <= i < |lines| => Undotted(lines[i]))
  }

  /** The number of lines before the first lone dot, or -1 without one. */
  function LinesToDot(lines: seq<seq<byte>>): (k: int)
    ensures k == -1 || (0 <= k < |lines| && lines[k] == [DOT])
    ensures forall i :: 0 <= i < |lines| && (k == -1 || i < k) ==> lines[i] != [DOT]
  {
    if lines == [] then -1
    else if lines[0] == [DOT] then 0
    else
      var k := LinesToDot(lines[1..]);
      if k < 0 then -1 else k + 1
  }

  /** Section 3 of RFC 1939: the lines up to the lone dot, each without the dot
      it begins with, are the message. */
  function Decode(wire: seq<byte>): Option<seq<byte>> {
    var lines := Split(wire).lines;
    var k := LinesToDot(lines);
    if k < 0 then None
    else if k == 0 then Some([])
    else Some(Unsplit(UndottedAll(lines[..k - 1]), Undotted(lines[k - 1])))
  }

  /** Only the last line on the wire is a lone dot. */
  lemma DotIsLast(body: seq<byte>)
    ensures LinesToDot(WireLines(body)) == |Split(body).lines| + 1
  {
    hide Dotted, Split;
    var lines, n := WireLines(body), |Split(body).lines|;
    assert lines[n + 1] == [DOT];
    forall i | 0 <= i <= n ensures lines[i] != [DOT] {
      NoLoneDot(if i < n then Split(body).lines[i] else Split(body).tail);
    }
  }

  lemma NoLoneDot(line: seq<byte>)
    ensures Dotted(line) != [DOT]
  {
  }

  lemma UndotAll(lines: seq<seq<byte>>)
    ensures UndottedAll(DottedAll(lines)) == lines
  {
    forall i | 0 <= i < |lines| ensures Undotted(Dotted(lines[i])) == lines[i] {
      UndotDotted(lines[i]);
    }
  }

  /** Whoever reads the stuffed form by the book gets the body back. */
  lemma DecodeWire(body: seq<byte>)
    ensures Decode(Wire(body)) == Some(body)
  {
    var cut := Split(body);
    WireCut(body);
    DotIsLast(body);
    assert WireLines(body)[..|cut.lines|] == DottedAll(cut.lines);
    UndotAll(cut.lines);
    UndotDotted(cut.tail);
    SplitUnsplit(body);
  }

  lemma UndotDotted(line: seq<byte>)
    ensures Undotted(Dotted(line)) == line
  {
    if StartsWithDot(line) { assert ([DOT] + line)[1..] == line; }
  }
}
