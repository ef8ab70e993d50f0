/** The trace header of a mail: `mail_recvheader` cuts it at spaces and appends
    the pieces to the mail buffer as lines of their own (section 2.2.3 of
    RFC 5322). */
module HeaderFolding {
  import opened Bytes
  import opened LineSplitter
  import opened MailBuffer

  const HEADER_LINE_MAX := 80

  /** The last space in `h(off..i]`, or `off`. */
  function LastSpace(h: seq<byte>, off: nat, i: nat): (m: nat)
    requires off <= i < |h|
    ensures off <= m <= i && (m > off ==> h[m] == SPACE)
    ensures forall j :: m < j <= i ==> h[j] != SPACE
    decreases i
  {
    if i == off then off else if h[i] == SPACE then i else LastSpace(h, off, i - 1)
  }

  /** The lines emitted once the scan has reached `i` with a line begun at `off`. */
  function FoldFrom(h: seq<byte>, off: nat, i: nat): seq<seq<byte>>
    requires off <= i <= |h|
    decreases |h| - i
  {
    if i == |h| then [h[off..]]
    else
      var mark := LastSpace(h, off, i);
      if i - off >= HEADER_LINE_MAX && off < mark then [h[off..mark]] + FoldFrom(h, mark, i + 1)
      else FoldFrom(h, off, i + 1)
  }

  function Fold(h: seq<byte>): seq<seq<byte>> { FoldFrom(h, 0, 0) }

  /** Pieces appended to a mail buffer, one `mail_line` each. */
  function StoreAll(m: MailState, lines: seq<seq<byte>>): MailState
    decreases |lines|
  {
    if lines == [] then m else StoreAll(Store(m, lines[0]), lines[1..])
  }

  /** `mail_recvheader` on a header text ready in `header`: each piece is
      terminated in place for `mail_line` and un-terminated afterwards. */
  method RecvHeader(mail: Mail, header: array<byte>)
    requires mail.Valid() && mail.data != header
    requires header.Length > 0 && header[header.Length - 1] == NUL && NUL !in header[..header.Length - 1]
    modifies mail, mail.data, header
    ensures mail.Valid() && (mail.data == old(mail.data) || fresh(mail.data))
    ensures mail.State() == StoreAll(old(mail.State()), Fold(old(header[..header.Length - 1])))
  {
    hide FoldFrom, StoreAll, Store;
    var mark, off, i := 0, 0, 0;
    ghost var text := header[..];
    ghost var h := text[..|text| - 1];
    ghost var target := StoreAll(mail.State(), Fold(h));
    while header[i] != NUL
      invariant 0 <= off <= i < header.Length
      invariant mark == if i == off then off else LastSpace(h, off, i - 1)
      invariant mail.Valid() && mail.data != header
      invariant mail.data == old(mail.data) || fresh(mail.data)
      invariant header[..] == text
      invariant StoreAll(mail.State(), FoldFrom(h, off, i)) == target
      decreases header.Length - i
    {
      assert header[i] == text[i];
      mark, off := Character(mail, header, text, off, mark, i);
      i := i + 1;
    }
    assert header[i] == text[i];
    FoldEnd(mail.State(), text, off);
    StoreLast(mail, header, off, i);
    header[mark] := SPACE;
  }

  /** One character that does not end the header: a space is remembered, and a line
      that has become too long is stored up to the last one. */
  method Character(mail: Mail, header: array<byte>, ghost text: seq<byte>, off: nat, mark: nat, i: nat)
    returns (mark': nat, off': nat)
    requires mail.Valid() && mail.data != header && header[..] == text
    requires off <= i < header.Length - 1 && header[header.Length - 1] == NUL && NUL !in text[..|text| - 1]
    requires mark == if i == off then off else LastSpace(text[..|text| - 1], off, i - 1)
    modifies mail, mail.data, header
    ensures mail.Valid() && (mail.data == old(mail.data) || fresh(mail.data)) && header[..] == text
    ensures off <= off' <= i && mark' == LastSpace(text[..|text| - 1], off', i)
    ensures StoreAll(mail.State(), FoldFrom(text[..|text| - 1], off', i + 1))
         == StoreAll(old(mail.State()), FoldFrom(text[..|text| - 1], off, i))
  {
    hide StoreAll, Store;
    ghost var h := text[..|text| - 1];
    assert header[i] == text[i] == h[i];
    mark', off' := if header[i] == SPACE then i else mark, off;
    if i - off >= HEADER_LINE_MAX && off < mark' {
      FoldCut(mail.State(), text, off, i);
      StorePiece(mail, header, off, mark');
      off' := mark';
    }
  }

  lemma FoldEnd(m: MailState, text: seq<byte>, off: nat)
    requires off < |text|
    ensures var h := text[..|text| - 1];
            StoreAll(m, FoldFrom(h, off, |h|)) == Store(m, text[off..|text| - 1])
  {
    var h := text[..|text| - 1];
    assert h[off..] == text[off..|text| - 1];
    assert StoreAll(Store(m, h[off..]), []) == Store(m, h[off..]);
  }

  lemma FoldCut(m: MailState, text: seq<byte>, off: nat, i: nat)
    requires off <= i < |text| - 1
    requires var mark := LastSpace(text[..|text| - 1], off, i);
             i - off >= HEADER_LINE_MAX && off < mark
    ensures var h := text[..|text| - 1];
            var mark := LastSpace(h, off, i);
            && StoreAll(m, FoldFrom(h, off, i)) == StoreAll(Store(m, text[off..mark]), FoldFrom(h, mark, i + 1))
            && mark == LastSpace(h, mark, i)
  {
    var h := text[..|text| - 1];
    var mark := LastSpace(h, off, i);
    assert h[off..mark] == text[off..mark];
    assert ([h[off..mark]] + FoldFrom(h, mark, i + 1))[1..] == FoldFrom(h, mark, i + 1);
  }

  /** The rest of the header, up to its own terminator. */
  method StoreLast(mail: Mail, header: array<byte>, off: nat, end: nat)
    requires mail.Valid() && mail.data != header
    requires off <= end < header.Length && header[end] == NUL && NUL !in header[off..end]
    modifies mail, mail.data
    ensures mail.Valid() && mail.data != header && (mail.data == old(mail.data) || fresh(mail.data))
    ensures mail.State() == Store(old(mail.State()), header[..][off..end])
  {
    var status := mail.Line(header[off..end]);
  }

  /** `mail_line` on the C string that begins at `off`, terminated for the
      moment at the space `mark`. */
  method StorePiece(mail: Mail, header: array<byte>, off: nat, mark: nat)
    requires mail.Valid() && mail.data != header
    requires off <= mark < header.Length && header[mark] == SPACE && NUL !in header[off..mark]
    modifies mail, mail.data, header
    ensures mail.Valid() && mail.data != header && (mail.data == old(mail.data) || fresh(mail.data))
    ensures header[..] == old(header[..])
    ensures mail.State() == Store(old(mail.State()), header[..][off..mark])
  {
    header[mark] := NUL;
    StoreLast(mail, header, off, mark);
    header[mark] := SPACE;
    assert header[..] == old(header[..]);
  }

  // ------------------------------------------------------------- what it keeps

  lemma {:induction false} FoldConcat(h: seq<byte>, off: nat, i: nat)
    requires off <= i <= |h|
    ensures Concat(FoldFrom(h, off, i)) == h[off..]
    decreases |h| - i
  {
    if i == |h| {
      assert h[off..] + [] == h[off..];
    } else {
      var mark := LastSpace(h, off, i);
      if i - off >= HEADER_LINE_MAX && off < mark {
        FoldConcat(h, mark, i + 1);
        ConcatCons(h[off..mark], FoldFrom(h, mark, i + 1));
        assert h[off..mark] + h[mark..] == h[off..];
      } else {
        FoldConcat(h, off, i + 1);
      }
    }
  }

  lemma ConcatCons(line: seq<byte>, lines: seq<seq<byte>>)
    ensures Concat([line] + lines) == line + Concat(lines)
  {
    assert ([line] + lines)[1..] == lines;
  }

  /** A line within the limit, or one without a space to fold at. */
  ghost predicate WellFolded(line: seq<byte>) {
    |line| <= 80 || forall j :: 0 < j < |line| ==> line[j] != SPACE
  }

  lemma {:induction false} FoldLimits(h: seq<byte>, off: nat, i: nat)
    requires off <= i <= |h|
    // beyond the limit, the scan has met no space since the line began
    requires i - off > HEADER_LINE_MAX ==> forall j :: off < j < i ==> h[j] != SPACE
    ensures var lines := FoldFrom(h, off, i);
            && lines != []
            && (forall k :: 0 <= k < |lines| ==> WellFolded(lines[k]))
            && (forall k :: 0 < k < |lines| ==> lines[k] != [] && lines[k][0] == SPACE)
            && (off < |h| ==> lines[0] != [] && lines[0][0] == h[off])
    decreases |h| - i
  {
    if i < |h| {
      var mark := LastSpace(h, off, i);
      if i - off >= HEADER_LINE_MAX && off < mark {
        FoldLimits(h, mark, i + 1);
        assert h[off..mark][0] == h[off];
      } else {
        FoldLimits(h, off, i + 1);
      }
    }
  }

  /** A header within the limit is one line. */
  lemma {:induction false} FoldShort(h: seq<byte>, i: nat)
    requires i <= |h| <= 80
    ensures FoldFrom(h, 0, i) == [h]
    decreases |h| - i
  {
    if i < |h| { FoldShort(h, i + 1); } else { assert h[0..] == h; }
  }

  /** How far a line goes before the space that ends its first word. */
  function WordEnd(line: seq<byte>, from: nat): (k: nat)
    requires from <= |line|
    ensures from <= k <= |line| && (k < |line| ==> line[k] == SPACE)
    ensures forall j :: from <= j < k ==> line[j] != SPACE
    decreases |line| - from
  {
    if from == |line| || line[from] == SPACE then from else WordEnd(line, from + 1)
  }

  /** What would stand in a line if the first word of the next were put there too. */
  function WithNextWord(line: seq<byte>, next: seq<byte>): nat {
    |line| + if next == [] then 0 else WordEnd(next, 1)
  }

  ghost predicate NoSpace(h: seq<byte>, off: nat, to: nat)
    requires to <= |h|
  {
    forall j :: off < j < to ==> h[j] != SPACE
  }

  /** The first word of a line that begins at `off` is whole. */
  ghost predicate FirstWordWhole(h: seq<byte>, off: nat, line: seq<byte>) {
    forall e :: off <= e <= |h| && NoSpace(h, off, e) ==> e - off <= WithNextWord([], line)
  }

  lemma CutAtSpace(h: seq<byte>, off: nat, end: nat)
    requires off <= end <= |h| && (end < |h| ==> off < end && h[end] == SPACE)
    ensures FirstWordWhole(h, off, h[off..end])
  {
    var line := h[off..end];
    if line != [] {
      var k := WordEnd(line, 1);
      assert k < |line| ==> h[off + k] == line[k];
    }
  }

  /** No line is cut sooner than it has to be: the first word of the next would not fit. */
  lemma {:induction false} FoldGreedy(h: seq<byte>, off: nat, i: nat)
    requires off <= i <= |h|
    ensures var lines := FoldFrom(h, off, i);
            && lines != [] && FirstWordWhole(h, off, lines[0])
            && forall k :: 0 <= k < |lines| - 1 ==> WithNextWord(lines[k], lines[k + 1]) > 80
    decreases |h| - i
  {
    hide WithNextWord, FirstWordWhole;
    var lines := FoldFrom(h, off, i);
    if i == |h| {
      CutAtSpace(h, off, |h|);
      assert h[off..|h|] == h[off..];
    } else {
      var mark := LastSpace(h, off, i);
      if i - off >= HEADER_LINE_MAX && off < mark {
        var rest := FoldFrom(h, mark, i + 1);
        FoldGreedy(h, mark, i + 1);
        CutAtSpace(h, off, mark);
        assert NoSpace(h, mark, i + 1);
        NextTooLong(h, off, mark, i, rest[0]);
        forall k | 0 <= k < |lines| - 1 ensures WithNextWord(lines[k], lines[k + 1]) > 80 {
          assert k > 0 ==> lines[k] == rest[k - 1] && lines[k + 1] == rest[k];
        }
      } else {
        FoldGreedy(h, off, i + 1);
      }
    }
  }

  lemma NextTooLong(h: seq<byte>, off: nat, mark: nat, i: nat, next: seq<byte>)
    requires off < mark <= i < |h| && i - off >= HEADER_LINE_MAX
    requires FirstWordWhole(h, mark, next) && NoSpace(h, mark, i + 1)
    ensures WithNextWord(h[off..mark], next) > 80
  {
    assert i + 1 - mark <= WithNextWord([], next);
  }

  /** Pieces of a header as the mail buffer holds them. */
  lemma {:induction false} StoreAllText(m: MailState, lines: seq<seq<byte>>)
    requires m.dataMax == 0 && m.text != []
    ensures StoreAll(m, lines) == m.(text := m.text + CrlfJoined(lines))
    decreases |lines|
  {
    if lines == [] {
      assert m.text + [] == m.text;
    } else {
      var next := Store(m, lines[0]);
      StoreAllText(next, lines[1..]);
      Associative(m.text, CRLF + lines[0], CrlfJoined(lines[1..]));
      Associative(m.text, CRLF, lines[0]);
    }
  }

  function CrlfJoined(lines: seq<seq<byte>>): seq<byte> {
    if lines == [] then [] else CRLF + lines[0] + CrlfJoined(lines[1..])
  }

  /** Section 2.2.3 of RFC 5322: unfolding removes every CRLF that a space or a
      tab follows. */
  function Unfold(s: seq<byte>): seq<byte> {
    if s == [] then []
    else if |s| >= 3 && s[0] == CR && s[1] == LF && (s[2] == SPACE || s[2] == TAB) then Unfold(s[2..])
    else [s[0]] + Unfold(s[1..])
  }

  lemma {:induction false} UnfoldPlain(p: seq<byte>, rest: seq<byte>)
    requires CR !in p
    ensures Unfold(p + rest) == p + Unfold(rest)
  {
    if p == [] {
      assert p + rest == rest;
    } else {
      UnfoldPlain(p[1..], rest);
      assert (p + rest)[1..] == p[1..] + rest;
      Associative([p[0]], p[1..], Unfold(rest));
      assert [p[0]] + p[1..] == p;
    }
  }

  lemma {:induction false} UnfoldJoined(lines: seq<seq<byte>>)
    requires forall k :: 0 <= k < |lines| ==> CR !in lines[k] && lines[k] != [] && lines[k][0] == SPACE
    ensures Unfold(CrlfJoined(lines)) == Concat(lines)
  {
    if lines != [] {
      var more := CrlfJoined(lines[1..]);
      UnfoldJoined(lines[1..]);
      Associative(CRLF, lines[0], more);
      assert (CRLF + (lines[0] + more))[2..] == lines[0] + more;
      UnfoldPlain(lines[0], more);
    }
  }

  lemma {:induction false} ConcatParts(lines: seq<seq<byte>>, b: byte)
    requires b !in Concat(lines)
    ensures forall k :: 0 <= k < |lines| ==> b !in lines[k]
  {
    if lines != [] {
      ConcatParts(lines[1..], b);
      forall k | 0 <= k < |lines| ensures b !in lines[k] {
        if k > 0 { assert lines[k] == lines[1..][k - 1]; }
      }
    }
  }

  /** The main result: on an empty buffer without a size limit, the trace header
      is cut into lines that fit the limit wherever there is a space to cut at,
      every line but the first begins with a space, nothing is lost, and
      unfolding the buffer gives the header back, unless it had line breaks itself. */
  lemma FoldingLosesNothing(m: MailState, h: seq<byte>)
    requires m.text == [] && m.dataMax == 0 && h != []
    ensures var lines := Fold(h);
            && Concat(lines) == h
            && (forall k :: 0 <= k < |lines| ==> WellFolded(lines[k]))
            && (forall k :: 0 < k < |lines| ==> lines[k] != [] && lines[k][0] == SPACE)
            && (CR !in h ==> Unfold(StoreAll(m, lines).text) == h)
  {
    var lines := Fold(h);
    FoldConcat(h, 0, 0);
    FoldLimits(h, 0, 0);
    if CR !in h {
      ConcatParts(lines, CR);
      var next := Store(m, lines[0]);
      StoreAllText(next, lines[1..]);
      UnfoldPlain(lines[0], CrlfJoined(lines[1..]));
      UnfoldJoined(lines[1..]);
    }
  }
}
