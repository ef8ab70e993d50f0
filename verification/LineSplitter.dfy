/** Line reassembly over reads: `common_next_line` and the loop around it.
    A stream arrives in chunks; every chunk is appended to the unfinished tail
    of the receive buffer and cut into lines in place. */
module LineSplitter {
  import opened Bytes

  ghost predicate CrlfAt(s: seq<byte>, i: int) {
    0 <= i < |s| - 1 && s[i] == CR && s[i + 1] == LF
  }

  /** The position of the first CRLF at or behind `from`, or -1. */
  function ScanCrlf(s: seq<byte>, from: nat): (k: int)
    ensures k == -1 || (from <= k && CrlfAt(s, k))
    ensures forall i :: from <= i && (k == -1 || i < k) ==> !CrlfAt(s, i)
    decreases |s| - from
  {
    if from + 1 >= |s| then -1
    else if s[from] == CR && s[from + 1] == LF then from
    else ScanCrlf(s, from + 1)
  }

  function NextCrlf(s: seq<byte>): (k: int)
    ensures k == -1 || CrlfAt(s, k)
  {
    ScanCrlf(s, 0)
  }

  lemma NextCrlfIs(s: seq<byte>, k: int)
    requires if k == -1 then forall i :: 0 <= i ==> !CrlfAt(s, i)
             else CrlfAt(s, k) && forall i :: 0 <= i < k ==> !CrlfAt(s, i)
    ensures NextCrlf(s) == k
  {
  }

  /** Complete lines, without their CRLF, and the bytes after the last of them. */
  datatype Cut = Cut(lines: seq<seq<byte>>, tail: seq<byte>)

  /** A text without any CRLF. */
  ghost predicate Unbroken(s: seq<byte>) { NextCrlf(s) == -1 }

  /** The reference: a whole text cut at each CRLF, leftmost first. */
  function Split(s: seq<byte>): Cut {
    var k := NextCrlf(s);
    if k < 0 then Cut([], s)
    else
      var rest := Split(s[k + 2..]);
      Cut([s[..k]] + rest.lines, rest.tail)
  }

  lemma {:induction false} SplitUnbroken(s: seq<byte>)
    ensures Unbroken(Split(s).tail)
    ensures forall i :: 0 <= i < |Split(s).lines| ==> Unbroken(Split(s).lines[i])
  {
    var k := NextCrlf(s);
    if k >= 0 {
      SplitUnbroken(s[k + 2..]);
      assert forall i {:trigger CrlfAt(s[..k], i)} :: CrlfAt(s[..k], i) ==> CrlfAt(s, i);
      NextCrlfIs(s[..k], -1);
    }
  }

  /** Lines put back together, each followed by CRLF, and then the tail. */
  function Unsplit(lines: seq<seq<byte>>, tail: seq<byte>): seq<byte> {
    if lines == [] then tail else lines[0] + CRLF + Unsplit(lines[1..], tail)
  }

  /** Cutting loses no byte. */
  lemma {:induction false} SplitUnsplit(s: seq<byte>)
    ensures Unsplit(Split(s).lines, Split(s).tail) == s
  {
    var k := NextCrlf(s);
    if k >= 0 {
      var rest := Split(s[k + 2..]);
      SplitUnsplit(s[k + 2..]);
      UnsplitCons(s[..k], rest.lines, rest.tail);
      RejoinAt(s, k);
    }
  }

  lemma RejoinAt(s: seq<byte>, k: nat)
    requires CrlfAt(s, k)
    ensures s[..k] + CRLF + s[k + 2..] == s
  {
    assert s[k..k + 2] == CRLF;
  }

  lemma UnsplitCons(line: seq<byte>, lines: seq<seq<byte>>, tail: seq<byte>)
    ensures Unsplit([line] + lines, tail) == line + CRLF + Unsplit(lines, tail)
  {
    assert ([line] + lines)[1..] == lines;
  }

  /** The first CRLF of a line followed by CRLF is that one, even when the line
      ends in a CR of its own. */
  lemma FirstCrlf(line: seq<byte>, rest: seq<byte>)
    requires Unbroken(line)
    ensures NextCrlf(line + CRLF + rest) == |line|
    ensures (line + CRLF + rest)[..|line|] == line && (line + CRLF + rest)[|line| + 2..] == rest
  {
    var s := line + CRLF + rest;
    assert forall i {:trigger CrlfAt(s, i)} :: 0 <= i < |line| && CrlfAt(s, i) ==> CrlfAt(line, i);
    NextCrlfIs(s, |line|);
  }

  /** Cutting is the inverse of putting together. */
  lemma {:induction false} UnsplitSplit(lines: seq<seq<byte>>, tail: seq<byte>)
    requires forall i :: 0 <= i < |lines| ==> Unbroken(lines[i])
    requires Unbroken(tail)
    ensures Split(Unsplit(lines, tail)) == Cut(lines, tail)
  {
    if lines != [] {
      FirstCrlf(lines[0], Unsplit(lines[1..], tail));
      UnsplitSplit(lines[1..], tail);
      assert lines == [lines[0]] + lines[1..];
    }
  }

  // ---------------------------------------------------------------- reading

  /** What the buffer still holds of the unfinished line when a read begins:
      a tail ending in two NULs is taken for a processed line and dropped. */
  function Kept(tail: seq<byte>): seq<byte> {
    if |tail| > 1 && tail[|tail| - 1] == NUL && tail[|tail| - 2] == NUL then [] else tail
  }

  /** One read: only the new bytes are searched for terminators. */
  function Feed(tail: seq<byte>, chunk: seq<byte>): Cut
    decreases |chunk|
  {
    var k := NextCrlf(chunk);
    if k < 0 then Cut([], Kept(tail) + chunk)
    else
      var rest := Feed([], chunk[k + 2..]);
      Cut([Kept(tail) + chunk[..k]] + rest.lines, rest.tail)
  }

  /** What a read finds behind two terminators was processed, and is dropped; nothing else is. */
  lemma ProcessedDropped(tail: seq<byte>, chunk: seq<byte>)
    requires NextCrlf(chunk) < 0
    ensures Feed(tail + [NUL, NUL], chunk) == Cut([], chunk)
    ensures |tail| < 2 || tail[|tail| - 2..] != [NUL, NUL] ==> Feed(tail, chunk) == Cut([], tail + chunk)
  {
    assert [] + chunk == chunk;
    if |tail| >= 2 { assert tail[|tail| - 2..] == [tail[|tail| - 2], tail[|tail| - 1]]; }
  }

  function FeedAll(tail: seq<byte>, chunks: seq<seq<byte>>): Cut
    decreases |chunks|
  {
    if chunks == [] then Cut([], tail)
    else
      var first := Feed(tail, chunks[0]);
      var rest := FeedAll(first.tail, chunks[1..]);
      Cut(first.lines + rest.lines, rest.tail)
  }

  function Concat(chunks: seq<seq<byte>>): seq<byte> {
    if chunks == [] then [] else chunks[0] + Concat(chunks[1..])
  }

  /** 1 when a CRLF straddles the seam between `a` and `b`. */
  function Straddle(a: seq<byte>, b: seq<byte>): nat {
    if a != [] && b != [] && a[|a| - 1] == CR && b[0] == LF then 1 else 0
  }

  /** The number of reads that end between a CR and its LF. */
  function Straddles(chunks: seq<seq<byte>>): nat {
    if |chunks| < 2 then 0 else Straddle(chunks[0], chunks[1]) + Straddles(chunks[1..])
  }

  /** Text behind the first CRLF does not change it. */
  lemma NextCrlfAppend(a: seq<byte>, b: seq<byte>)
    requires !Unbroken(a)
    ensures var k := NextCrlf(a);
            NextCrlf(a + b) == k && (a + b)[..k] == a[..k] && (a + b)[k + 2..] == a[k + 2..] + b
  {
    var s, k := a + b, NextCrlf(a);
    assert forall i {:trigger CrlfAt(s, i)} :: 0 <= i < k && CrlfAt(s, i) ==> CrlfAt(a, i);
    NextCrlfIs(s, k);
  }

  lemma Associative<T>(a: seq<T>, b: seq<T>, c: seq<T>)
    ensures a + (b + c) == (a + b) + c
  {
  }

  lemma SplitStep(s: seq<byte>, line: seq<byte>, rest: seq<byte>)
    requires NextCrlf(s) == |line| && s[..|line|] == line && s[|line| + 2..] == rest
    ensures Split(s).lines == [line] + Split(rest).lines && Split(s).tail == Split(rest).tail
  {
  }

  lemma {:induction false} SplitAppend(a: seq<byte>, b: seq<byte>)
    ensures Split(a + b).lines == Split(a).lines + Split(Split(a).tail + b).lines
    ensures Split(a + b).tail == Split(Split(a).tail + b).tail
  {
    var k := NextCrlf(a);
    if k >= 0 {
      var line, rest := a[..k], a[k + 2..];
      NextCrlfAppend(a, b);
      SplitStep(a, line, rest);
      SplitStep(a + b, line, rest + b);
      SplitAppend(rest, b);
      Associative([line], Split(rest).lines, Split(Split(rest).tail + b).lines);
    } else {
      assert Split(a) == Cut([], a);
      assert [] + Split(a + b).lines == Split(a + b).lines;
    }
  }

  /** The tail of a text ends in CR exactly when the text does. */
  lemma {:induction false} TailKeepsLast(s: seq<byte>, b: seq<byte>)
    ensures Straddle(Split(s).tail, b) == Straddle(s, b)
    ensures NUL !in s ==> NUL !in Split(s).tail
  {
    var k := NextCrlf(s);
    if k >= 0 { TailKeepsLast(s[k + 2..], b); }
  }

  lemma {:induction false} FeedFromEmpty(chunk: seq<byte>)
    ensures Feed([], chunk) == Split(chunk)
  {
    var k := NextCrlf(chunk);
    if k >= 0 {
      FeedFromEmpty(chunk[k + 2..]);
      assert Kept([]) + chunk[..k] == chunk[..k];
    } else {
      assert Kept([]) + chunk == chunk;
    }
  }

  /** No terminator straddles the seam: the first CRLF lies in the new bytes. */
  lemma SeamClean(tail: seq<byte>, chunk: seq<byte>)
    requires Unbroken(tail) && Straddle(tail, chunk) == 0
    ensures var s, n, k := tail + chunk, |tail|, NextCrlf(chunk);
            if k < 0 then Unbroken(s)
            else NextCrlf(s) == n + k && s[n + k + 2..] == chunk[k + 2..] && s[..n + k] == tail + chunk[..k]
  {
    var s, n, k := tail + chunk, |tail|, NextCrlf(chunk);
    assert forall i {:trigger CrlfAt(s, i)} :: 0 <= i < n && CrlfAt(s, i) ==> CrlfAt(tail, i);
    assert forall i {:trigger CrlfAt(s, i)} :: n <= i ==> (CrlfAt(s, i) <==> CrlfAt(chunk, i - n));
    NextCrlfIs(s, if k < 0 then -1 else n + k);
  }

  lemma FeedMatchesSplit(tail: seq<byte>, chunk: seq<byte>)
    requires Unbroken(tail) && Kept(tail) == tail
    requires Straddle(tail, chunk) == 0
    ensures Feed(tail, chunk) == Split(tail + chunk)
  {
    var k := NextCrlf(chunk);
    SeamClean(tail, chunk);
    if k >= 0 {
      FeedFromEmpty(chunk[k + 2..]);
      SplitStep(tail + chunk, tail + chunk[..k], chunk[k + 2..]);
    }
  }

  /** A leading LF takes no part in any terminator. */
  lemma DropFirst(chunk: seq<byte>)
    requires chunk != [] && chunk[0] == LF
    ensures |Split(chunk).lines| == |Split(chunk[1..]).lines|
  {
    var c, k := chunk[1..], NextCrlf(chunk);
    assert forall i {:trigger CrlfAt(c, i)} :: 0 <= i ==> (CrlfAt(c, i) <==> CrlfAt(chunk, i + 1));
    if k >= 0 {
      assert CrlfAt(c, k - 1);
      NextCrlfIs(c, k - 1);
      assert chunk[k + 2..] == c[k - 1 + 2..];
    } else {
      NextCrlfIs(c, -1);
    }
  }

  /** A text has the terminators of its two parts, and the one on the seam. */
  lemma CountAppend(a: seq<byte>, b: seq<byte>)
    ensures |Split(a + b).lines| == |Split(a).lines| + |Split(b).lines| + Straddle(a, b)
  {
    SplitAppend(a, b);
    SplitUnbroken(a);
    TailKeepsLast(a, b);
    if Straddle(a, b) == 0 {
      CountClean(Split(a).tail, b);
    } else {
      CountStraddled(Split(a).tail, b);
    }
  }

  lemma CountClean(t: seq<byte>, b: seq<byte>)
    requires Unbroken(t) && Straddle(t, b) == 0
    ensures |Split(t + b).lines| == |Split(b).lines|
  {
    SeamClean(t, b);
  }

  lemma CountStraddled(t: seq<byte>, b: seq<byte>)
    requires Unbroken(t) && Straddle(t, b) == 1
    ensures |Split(t + b).lines| == |Split(b).lines| + 1
  {
    var s, n := t + b, |t|;
    assert forall i {:trigger CrlfAt(s, i)} :: 0 <= i < n - 1 && CrlfAt(s, i) ==> CrlfAt(t, i);
    assert CrlfAt(s, n - 1);
    NextCrlfIs(s, n - 1);
    assert s[n + 1..] == b[1..];
    DropFirst(b);
  }

  /** The loop misses exactly the terminators that straddle two reads. */
  lemma {:induction false} LinesMissed(tail: seq<byte>, chunks: seq<seq<byte>>)
    requires forall i :: 0 <= i < |chunks| ==> chunks[i] != []
    ensures |FeedAll(tail, chunks).lines| + Straddles(chunks) == |Split(Concat(chunks)).lines|
    decreases |chunks|
  {
    if chunks != [] {
      var c, rest := chunks[0], chunks[1..];
      FeedCount(tail, c);
      LinesMissed(Feed(tail, c).tail, rest);
      CountAppend(c, Concat(rest));
      if rest != [] {
        assert Concat(rest)[0] == rest[0][0];
      }
    }
  }

  lemma FeedCount(tail: seq<byte>, chunk: seq<byte>)
    ensures |Feed(tail, chunk).lines| == |Split(chunk).lines|
  {
    var k := NextCrlf(chunk);
    if k >= 0 { FeedFromEmpty(chunk[k + 2..]); }
  }

  /** Without a straddled terminator, reading on from the reference tail of
      what came before stays on the reference. */
  lemma {:induction false} FeedAllMatchesSplit(before: seq<byte>, chunks: seq<seq<byte>>)
    requires NUL !in before && NUL !in Concat(chunks)
    requires forall i :: 0 <= i < |chunks| ==> chunks[i] != []
    requires Straddles(chunks) == 0 && (chunks != [] ==> Straddle(before, chunks[0]) == 0)
    ensures FeedAll(Split(before).tail, chunks) == Split(Split(before).tail + Concat(chunks))
    decreases |chunks|
  {
    var tail := Split(before).tail;
    SplitUnbroken(before);
    if chunks == [] {
      assert tail + [] == tail;
    } else {
      var c, rest := chunks[0], chunks[1..];
      TailKeepsLast(before, c);
      FeedMatchesSplit(tail, c);
      SplitAppend(before, c);
      SplitAppend(tail + c, Concat(rest));
      assert (tail + c) + Concat(rest) == tail + Concat(chunks);
      FeedAllMatchesSplit(before + c, rest);
    }
  }

  /** Chunking independence, exactly: however a NUL-free stream is divided into
      reads, the lines and the tail are those of the undivided stream if and
      only if no read ends between a CR and its LF. */
  lemma ChunkingIndependence(chunks: seq<seq<byte>>)
    requires NUL !in Concat(chunks)
    requires forall i :: 0 <= i < |chunks| ==> chunks[i] != []
    ensures FeedAll([], chunks) == Split(Concat(chunks)) <==> Straddles(chunks) == 0
    ensures |FeedAll([], chunks).lines| == |Split(Concat(chunks)).lines| - Straddles(chunks)
  {
    LinesMissed([], chunks);
    if Straddles(chunks) == 0 {
      FeedAllMatchesSplit([], chunks);
      assert [] + Concat(chunks) == Concat(chunks);
    }
  }

  // ------------------------------------------------------ the buffer in place

  /** What one call of the splitter leaves, given the unfinished line and the
      unread bytes: a NUL-terminated line in front of the bytes still unread, or
      everything joined to an unfinished line. */
  ghost predicate NextLineResult(tail: seq<byte>, chunk: seq<byte>, after: seq<byte>,
                                 length: int, appendOffset: int, newBytes: int)
  {
    var k := NextCrlf(chunk);
    if k >= 0 then
      && length == |tail| + k
      && appendOffset == length + 2
      && newBytes == |chunk| - k - 2
      && appendOffset + newBytes <= |after|
      && after[..length] == tail + chunk[..k]
      && after[length] == NUL && after[length + 1] == NUL
      && after[appendOffset..appendOffset + newBytes] == chunk[k + 2..]
    else
      && length == -1
      && newBytes == 0
      && appendOffset == |tail| + |chunk| <= |after|
      && after[..appendOffset] == tail + chunk
  }

  /** One call of the splitter is one step of the reading specification: with
      `todo` still to come, it leaves a NUL-terminated line in front of bytes
      that stand for the rest, or has joined everything to an unfinished line. */
  ghost predicate Advances(todo: Cut, after: seq<byte>, length: int, offset: int, newBytes: int) {
    && 0 <= offset && 0 <= newBytes && offset + newBytes <= |after|
    && if length < 0 then
         newBytes == 0 && todo == Cut([], after[..offset])
       else
         && offset == length + 2 && after[length] == NUL
         && todo.lines != [] && todo.lines[0] == after[..length]
         && Feed(after[..offset], after[offset..offset + newBytes]) == Cut(todo.lines[1..], todo.tail)
  }

  lemma FeedStep(tail: seq<byte>, chunk: seq<byte>, after: seq<byte>, length: int, offset: int, newBytes: int)
    requires NextLineResult(Kept(tail), chunk, after, length, offset, newBytes)
    ensures Advances(Feed(tail, chunk), after, length, offset, newBytes)
    ensures length >= 0 ==> newBytes < |chunk|
  {
    if length >= 0 { FeedProcessed(after[..offset], chunk[NextCrlf(chunk) + 2..]); }
  }

  /** A processed line left in front of the unread bytes is as good as none. */
  lemma FeedProcessed(done: seq<byte>, chunk: seq<byte>)
    requires Kept(done) == []
    ensures Feed(done, chunk) == Feed([], chunk)
  {
  }

  /** `common_next_line`. The bytes `buffer[..appendOffset]` belong to the
      unfinished line, or to a processed one when they end in two NULs, and the
      `newBytes` bytes behind them are unread. A failed read is reported as an
      empty line, and nothing moves. */
  method NextLine(buffer: array<byte>, appendOffset: nat, newBytes: int)
    returns (length: int, appendOffset': nat, newBytes': int)
    requires appendOffset + newBytes <= buffer.Length && appendOffset <= buffer.Length
    modifies buffer
    ensures newBytes < 0 ==>
      length == 0 && appendOffset' == appendOffset && newBytes' == newBytes && buffer[..] == old(buffer[..])
    ensures newBytes >= 0 ==>
      && Advances(old(Feed(buffer[..appendOffset], buffer[appendOffset..appendOffset + newBytes])),
                  buffer[..], length, appendOffset', newBytes')
      && (length >= 0 ==> newBytes' < newBytes)
  {
    if newBytes < 0 {
      return 0, appendOffset, newBytes;
    }
    ghost var unfinished := buffer[..appendOffset];
    ghost var chunk := buffer[appendOffset..appendOffset + newBytes];
    length, appendOffset', newBytes' := CutLine(buffer, appendOffset, newBytes);
    FeedStep(unfinished, chunk, buffer[..], length, appendOffset', newBytes');
  }

  method CutLine(buffer: array<byte>, appendOffset: nat, newBytes: nat)
    returns (length: int, appendOffset': nat, newBytes': int)
    requires appendOffset + newBytes <= buffer.Length
    modifies buffer
    ensures NextLineResult(old(Kept(buffer[..appendOffset])), old(buffer[appendOffset..appendOffset + newBytes]),
                           buffer[..], length, appendOffset', newBytes')
  {
    ghost var tail := Kept(buffer[..appendOffset]);
    ghost var chunk := buffer[appendOffset..appendOffset + newBytes];
    var offset := DropProcessed(buffer, appendOffset, newBytes);
    ghost var before := buffer[..];
    ScanSkips(tail, chunk);
    var i := ScanNewBytes(buffer, offset, newBytes);
    if i < newBytes - 1 {
      Terminate(buffer, offset + i);
      Terminated(before, buffer[..], tail, chunk);
      return offset + i, offset + i + 2, newBytes - i - 2;
    }
    return -1, offset + newBytes, 0;
  }

  method Terminate(buffer: array<byte>, at: nat)
    requires at + 1 < buffer.Length
    modifies buffer
    ensures buffer[..] == old(buffer[..])[at := NUL][at + 1 := NUL]
  {
    buffer[at] := NUL;
    buffer[at + 1] := NUL;
  }

  /** The copyback that clears the last line. */
  method DropProcessed(buffer: array<byte>, appendOffset: nat, newBytes: nat) returns (offset: nat)
    requires appendOffset + newBytes <= buffer.Length
    modifies buffer
    ensures offset == |old(Kept(buffer[..appendOffset]))| <= appendOffset
    ensures buffer[..offset + newBytes]
         == old(Kept(buffer[..appendOffset])) + old(buffer[appendOffset..appendOffset + newBytes])
  {
    offset := appendOffset;
    if offset > 1 && buffer[offset - 1] == NUL && buffer[offset - 2] == NUL {
      CopyBack(buffer, offset, newBytes);
      offset := 0;
    }
  }

  lemma Terminated(before: seq<byte>, after: seq<byte>, tail: seq<byte>, chunk: seq<byte>)
    requires |tail| + |chunk| <= |before| && before[..|tail| + |chunk|] == tail + chunk
    requires var k := NextCrlf(chunk); k >= 0 && after == before[|tail| + k := NUL][|tail| + k + 1 := NUL]
    ensures var k := NextCrlf(chunk);
            NextLineResult(tail, chunk, after, |tail| + k, |tail| + k + 2, |chunk| - k - 2)
  {
    var k, n := NextCrlf(chunk), |tail|;
    forall j | 0 <= j < n + |chunk| && j != n + k && j != n + k + 1
      ensures after[j] == (tail + chunk)[j]
    {
      assert before[..n + |chunk|][j] == before[j];
    }
    assert after[..n + k] == tail + chunk[..k];
    assert after[n + k + 2..n + |chunk|] == chunk[k + 2..];
  }

  /** Moves the unread bytes over the processed line. Source and target overlap:
      the copy has to run forwards. */
  method CopyBack(buffer: array<byte>, from: nat, count: nat)
    requires from + count <= buffer.Length
    modifies buffer
    ensures buffer[..count] == old(buffer[from..from + count])
  {
    ghost var unread := buffer[from..from + count];
    for i := 0 to count
      invariant forall j :: 0 <= j < i ==> buffer[j] == unread[j]
      invariant buffer[from + i..from + count] == unread[i..]
    {
      assert buffer[from + i] == unread[i..][0];
      buffer[i] := buffer[from + i];
    }
  }

  /** The terminator scan: stops at the first CRLF of the new bytes, or where no
      two bytes are left. */
  method ScanNewBytes(buffer: array<byte>, offset: nat, newBytes: nat) returns (i: nat)
    requires offset + newBytes <= buffer.Length
    ensures ScanCrlf(buffer[..offset + newBytes], offset) == if i < newBytes - 1 then offset + i else -1
  {
    ghost var text := buffer[..offset + newBytes];
    i := 0;
    while i < newBytes - 1
      invariant i <= newBytes
      invariant ScanCrlf(text, offset) == ScanCrlf(text, offset + i)
    {
      if buffer[offset + i] == CR && buffer[offset + i + 1] == LF {
        return;
      }
      i := i + 1;
    }
  }

  lemma ScanSkips(tail: seq<byte>, chunk: seq<byte>)
    ensures ScanCrlf(tail + chunk, |tail|) == if NextCrlf(chunk) < 0 then -1 else |tail| + NextCrlf(chunk)
  {
    var s := tail + chunk;
    assert forall i {:trigger CrlfAt(chunk, i)} :: 0 <= i ==> (CrlfAt(chunk, i) <==> CrlfAt(s, i + |tail|));
    assert forall i {:trigger CrlfAt(s, i)} :: |tail| <= i ==> (CrlfAt(s, i) <==> CrlfAt(chunk, i - |tail|));
  }
}
