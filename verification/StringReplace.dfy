/** In-place replace-all on a NUL-terminated buffer: `common_strrepl`. */
module StringReplace {
  import opened Bytes

  /** `strlen` of the string that begins at `from`; it ends inside `s` exactly
      when a terminator follows. */
  function StrLen(s: seq<byte>, from: nat): (n: nat)
    ensures from + n < |s| ==> s[from + n] == NUL
    ensures from + n >= |s| ==> n == Max(0, |s| - from)
    ensures forall j :: from <= j < from + n ==> s[j] != NUL
    decreases |s| - from
  {
    if from >= |s| || s[from] == NUL then 0 else 1 + StrLen(s, from + 1)
  }

  lemma StrLenIs(s: seq<byte>, from: nat, end: nat)
    requires from <= end < |s| && s[end] == NUL
    requires forall j :: from <= j < end ==> s[j] != NUL
    ensures StrLen(s, from) == end - from
  {
  }

  // ------------------------------------------------------------ specification

  /** Leftmost, non-overlapping, non-rescanning replacement. */
  function ReplaceAll(s: seq<byte>, variable: seq<byte>, replacement: seq<byte>): seq<byte>
    requires variable != []
    decreases |s|
  {
    var k := Find(s, variable);
    if k < 0 then s else s[..k] + replacement + ReplaceAll(s[k + |variable|..], variable, replacement)
  }

  datatype Outcome = Outcome(ok: bool, text: seq<byte>)

  /** The text after one replacement of `width` bytes. */
  function ReplacedOnce(text: seq<byte>, at: nat, width: nat, replacement: seq<byte>): (r: seq<byte>)
    requires at + width <= |text|
    ensures |r| == |text| - width + |replacement|
  {
    text[..at] + replacement + text[at + width..]
  }

  /** The same with the room check of the loop, which counts the bytes in front
      of an occurrence twice: `before` bytes are final, `rest` is still searched. */
  function Replace(before: nat, rest: seq<byte>, variable: seq<byte>, replacement: seq<byte>, length: nat): Outcome
    requires variable != []
    decreases |rest|
  {
    var k := Find(rest, variable);
    if k < 0 then Outcome(true, rest)
    else if !Fits(before + k, before + |rest|, |variable|, |replacement|, length) then Outcome(false, rest)
    else
      var more := Replace(before + k + |replacement|, rest[k + |variable|..], variable, replacement, length);
      Outcome(more.ok, rest[..k] + replacement + more.text)
  }

  predicate Fits(at: nat, size: nat, width: nat, room: nat, length: nat) {
    at + room + (size - width) < length
  }

  lemma ReplaceUnfold(before: nat, head: seq<byte>, rest: seq<byte>, more: seq<byte>,
                      variable: seq<byte>, replacement: seq<byte>, length: nat)
    requires variable != [] && Find(rest, variable) == |head|
    requires rest[..|head|] == head && rest[|head| + |variable|..] == more
    requires Fits(before + |head|, before + |rest|, |variable|, |replacement|, length)
    ensures var o := Replace(before + |head| + |replacement|, more, variable, replacement, length);
            Replace(before, rest, variable, replacement, length) == Outcome(o.ok, head + replacement + o.text)
  {
    hide Find;
  }

  lemma ReplaceStops(before: nat, rest: seq<byte>, variable: seq<byte>, replacement: seq<byte>, length: nat)
    requires variable != []
    ensures Find(rest, variable) < 0 ==> Replace(before, rest, variable, replacement, length) == Outcome(true, rest)
    ensures var k := Find(rest, variable);
            (k >= 0 && !Fits(before + k, before + |rest|, |variable|, |replacement|, length)) ==>
            Replace(before, rest, variable, replacement, length) == Outcome(false, rest)
  {
    hide Find, Fits;
  }

  lemma ReplaceAllUnfold(head: seq<byte>, rest: seq<byte>, more: seq<byte>, variable: seq<byte>, replacement: seq<byte>)
    requires variable != [] && Find(rest, variable) == |head|
    requires rest[..|head|] == head && rest[|head| + |variable|..] == more
    ensures ReplaceAll(rest, variable, replacement) == head + replacement + ReplaceAll(more, variable, replacement)
  {
    hide Find;
  }

  /** The promise: a zero return means the reference result. */
  lemma {:induction false} SuccessIsReplaceAll(before: nat, rest: seq<byte>, variable: seq<byte>,
                                               replacement: seq<byte>, length: nat)
    requires variable != []
    ensures var o := Replace(before, rest, variable, replacement, length);
            o.ok ==> o.text == ReplaceAll(rest, variable, replacement)
    decreases |rest|
  {
    hide Find;
    var k := Find(rest, variable);
    if k >= 0 && Fits(before + k, before + |rest|, |variable|, |replacement|, length) {
      var head, more := rest[..k], rest[k + |variable|..];
      SuccessIsReplaceAll(before + k + |replacement|, more, variable, replacement, length);
      ReplaceUnfold(before, head, rest, more, variable, replacement, length);
      ReplaceAllUnfold(head, rest, more, variable, replacement);
    }
  }

  /** The text between the occurrences. */
  function Pieces(s: seq<byte>, variable: seq<byte>): (p: seq<seq<byte>>)
    requires variable != []
    ensures p != []
    decreases |s|
  {
    var k := Find(s, variable);
    if k < 0 then [s] else [s[..k]] + Pieces(s[k + |variable|..], variable)
  }

  function Join(pieces: seq<seq<byte>>, glue: seq<byte>): seq<byte>
    requires pieces != []
  {
    if |pieces| == 1 then pieces[0] else pieces[0] + glue + Join(pieces[1..], glue)
  }

  lemma JoinCons(piece: seq<byte>, pieces: seq<seq<byte>>, glue: seq<byte>)
    requires pieces != []
    ensures Join([piece] + pieces, glue) == piece + glue + Join(pieces, glue)
  {
    assert ([piece] + pieces)[1..] == pieces;
  }

  /** Replacement keeps the pieces and exchanges what stands between them. */
  lemma {:induction false} ReplaceAllJoins(s: seq<byte>, variable: seq<byte>, replacement: seq<byte>)
    requires variable != []
    ensures Join(Pieces(s, variable), variable) == s
    ensures Join(Pieces(s, variable), replacement) == ReplaceAll(s, variable, replacement)
    decreases |s|
  {
    var k := Find(s, variable);
    if k >= 0 {
      var rest := s[k + |variable|..];
      ReplaceAllJoins(rest, variable, replacement);
      JoinCons(s[..k], Pieces(rest, variable), variable);
      JoinCons(s[..k], Pieces(rest, variable), replacement);
      CutAround(s, variable, k);
    }
  }

  lemma CutAround(s: seq<byte>, variable: seq<byte>, k: nat)
    requires OccursAt(s, variable, k)
    ensures s[..k] + variable + s[k + |variable|..] == s
  {
  }

  /** No occurrence is left inside a piece. */
  lemma {:induction false} PiecesClean(s: seq<byte>, variable: seq<byte>)
    requires variable != []
    ensures forall i :: 0 <= i < |Pieces(s, variable)| ==> Find(Pieces(s, variable)[i], variable) == -1
    decreases |s|
  {
    var k := Find(s, variable);
    if k >= 0 {
      PiecesClean(s[k + |variable|..], variable);
      NoneBefore(s, variable, k);
    }
  }

  lemma NoneBefore(s: seq<byte>, variable: seq<byte>, k: nat)
    requires variable != [] && k == Find(s, variable)
    ensures Find(s[..k], variable) == -1
  {
    forall i | 0 <= i <= k - |variable| ensures !OccursAt(s[..k], variable, i) {
      assert s[..k][i..i + |variable|] == s[i..i + |variable|];
      assert !OccursAt(s, variable, i);
    }
  }

  /** There is room for the replacement behind piece `i`: the check counts the bytes in front
      of it twice, once as its place and once as part of the string without the variable. */
  ghost predicate RoomBehind(pieces: seq<seq<byte>>, variable: seq<byte>, replacement: seq<byte>,
                             before: nat, i: nat, length: nat)
    requires i + 1 < |pieces|
  {
    var at := before + |Join(pieces[..i + 1], replacement)|;
    at + |replacement| + at + |Join(pieces[i + 1..], variable)| < length
  }

  ghost predicate RoomThroughout(pieces: seq<seq<byte>>, variable: seq<byte>, replacement: seq<byte>,
                                 before: nat, length: nat)
  {
    forall i :: 0 <= i < |pieces| - 1 ==> RoomBehind(pieces, variable, replacement, before, i, length)
  }

  lemma RoomNext(piece: seq<byte>, rest: seq<seq<byte>>, variable: seq<byte>, replacement: seq<byte>,
                 before: nat, i: nat, length: nat)
    requires rest != [] && 0 < i < |rest|
    ensures RoomBehind([piece] + rest, variable, replacement, before, i, length)
       <==> RoomBehind(rest, variable, replacement, before + |piece| + |replacement|, i - 1, length)
  {
    var all := [piece] + rest;
    assert all[..i + 1] == [piece] + rest[..i];
    assert all[i + 1..] == rest[i..];
    JoinCons(piece, rest[..i], replacement);
  }

  lemma RoomFirst(rest: seq<byte>, variable: seq<byte>, replacement: seq<byte>, before: nat, k: nat, length: nat)
    requires variable != [] && k == Find(rest, variable)
    ensures RoomBehind(Pieces(rest, variable), variable, replacement, before, 0, length)
       <==> Fits(before + k, before + |rest|, |variable|, |replacement|, length)
  {
    var pieces, more := Pieces(rest, variable), rest[k + |variable|..];
    ReplaceAllJoins(more, variable, replacement);
    assert pieces[..1] == [rest[..k]];
    assert pieces[1..] == Pieces(more, variable);
  }

  /** When it succeeds: exactly if there is room for every replacement when its turn comes. */
  lemma {:induction false} SucceedsWithRoom(before: nat, rest: seq<byte>, variable: seq<byte>,
                                            replacement: seq<byte>, length: nat)
    requires variable != []
    ensures Replace(before, rest, variable, replacement, length).ok
       <==> RoomThroughout(Pieces(rest, variable), variable, replacement, before, length)
    decreases |rest|
  {
    hide Find, Fits, Replace, Pieces, RoomBehind, RoomThroughout;
    var k := Find(rest, variable);
    ReplaceStops(before, rest, variable, replacement, length);
    CutPieces(rest, variable);
    if k < 0 {
      NoRoomNeeded(rest, variable, replacement, before, length);
    } else {
      var more := rest[k + |variable|..];
      var tail := Pieces(more, variable);
      RoomFirst(rest, variable, replacement, before, k, length);
      if Fits(before + k, before + |rest|, |variable|, |replacement|, length) {
        SucceedsWithRoom(before + k + |replacement|, more, variable, replacement, length);
        ReplaceUnfold(before, rest[..k], rest, more, variable, replacement, length);
        forall i | 0 < i < |tail|
          ensures RoomBehind(Pieces(rest, variable), variable, replacement, before, i, length)
             <==> RoomBehind(tail, variable, replacement, before + k + |replacement|, i - 1, length)
        {
          RoomNext(rest[..k], tail, variable, replacement, before, i, length);
        }
        AllOrFirst(rest[..k], tail, variable, replacement, before, length);
      } else {
        FirstFails(Pieces(rest, variable), variable, replacement, before, length);
      }
    }
  }

  /** So a replacement that would fit may be refused: "aaaab" in a buffer of 8 bytes has no room
      for "c" in the place of "b". */
  lemma FittingRefused()
    ensures var (text, b, c) := ([97, 97, 97, 97, 98], [98], [99]);
            |ReplaceAll(text, b, c)| == 5 && !Replace(0, text, b, c, 8).ok
  {
    var text: seq<byte>, b: seq<byte>, c: seq<byte> := [97, 97, 97, 97, 98], [98], [99];
    FindFour(text);
    assert text[5..] == [] && Find([], b) < 0;
    assert text[..4] + c + [] == [97, 97, 97, 97, 99];
  }

  lemma FindFour(text: seq<byte>)
    requires text == [97, 97, 97, 97, 98]
    ensures Find(text, [98]) == 4
  {
    assert text[4..5] == [98];
    forall i | 0 <= i < 4 ensures !OccursAt(text, [98], i) { assert text[i..i + 1][0] == text[i]; }
    FindIs(text, [98], 4);
  }

  lemma CutPieces(s: seq<byte>, variable: seq<byte>)
    requires variable != []
    ensures var k := Find(s, variable);
            Pieces(s, variable) == if k < 0 then [s] else [s[..k]] + Pieces(s[k + |variable|..], variable)
  {
    hide Find;
  }

  lemma NoRoomNeeded(piece: seq<byte>, variable: seq<byte>, replacement: seq<byte>, before: nat, length: nat)
    ensures RoomThroughout([piece], variable, replacement, before, length)
  {
  }

  lemma FirstFails(pieces: seq<seq<byte>>, variable: seq<byte>, replacement: seq<byte>, before: nat, length: nat)
    requires |pieces| > 1 && !RoomBehind(pieces, variable, replacement, before, 0, length)
    ensures !RoomThroughout(pieces, variable, replacement, before, length)
  {
    hide RoomBehind;
  }

  lemma AllOrFirst(piece: seq<byte>, tail: seq<seq<byte>>, variable: seq<byte>, replacement: seq<byte>, before: nat, length: nat)
    requires tail != [] && RoomBehind([piece] + tail, variable, replacement, before, 0, length)
    requires forall i :: 0 < i < |tail| ==>
      (RoomBehind([piece] + tail, variable, replacement, before, i, length)
       <==> RoomBehind(tail, variable, replacement, before + |piece| + |replacement|, i - 1, length))
    ensures RoomThroughout([piece] + tail, variable, replacement, before, length)
       <==> RoomThroughout(tail, variable, replacement, before + |piece| + |replacement|, length)
  {
    hide RoomBehind;
    var all, at := [piece] + tail, before + |piece| + |replacement|;
    if RoomThroughout(all, variable, replacement, before, length) {
      forall i | 0 <= i < |tail| - 1 ensures RoomBehind(tail, variable, replacement, at, i, length) {
        assert RoomBehind(all, variable, replacement, before, i + 1, length);
      }
    }
  }

  // ---------------------------------------------------------------- in place

  /** A string that ended at `end` on its way `shift` places to the back: the
      bytes from `low` on have arrived. */
  ghost predicate Moving(o: seq<byte>, b: seq<byte>, shift: nat, end: nat, low: int) {
    && |b| == |o| && shift <= low <= end + shift + 1 <= |o|
    && (forall q :: low <= q <= end + shift ==> b[q] == o[q - shift])
    && (forall q :: 0 <= q < low || end + shift < q < |o| ==> b[q] == o[q])
  }

  /** Moves the string at `at`, terminator included, `shift` places to the back.
      The bound of the loop is measured anew in each round on the string being
      moved: once the old terminator is overwritten the string is longer, and
      the loop runs over the bytes already moved a second time. */
  method ShiftBack(buffer: array<byte>, at: nat, shift: nat)
    requires shift > 0
    requires at + StrLen(buffer[..], at) + shift < buffer.Length
    modifies buffer
    ensures Moving(old(buffer[..]), buffer[..], shift, at + old(StrLen(buffer[..], at)), at + shift)
  {
    hide StrLen, Moving, Measured;
    ghost var o := buffer[..];
    var n := StrLen(buffer[..], at);
    ghost var end := at + n;
    ghost var low: nat := end + shift + 1;
    var i := 0;
    Unmoved(o, at, shift, end);
    while i <= n
      invariant i <= n + 1 && Measured(at, shift, end, low, n, i)
      invariant Moving(o, buffer[..], shift, end, low)
      decreases low > end, n + 1 - i
    {
      n, low := ShiftRound(buffer, at, shift, n, i, o, end, low);
      i := i + 1;
    }
    AllRounds(at, shift, end, low, n, i);
  }

  /** Round `i`: one byte moves, and the string is measured. */
  method ShiftRound(buffer: array<byte>, at: nat, shift: nat, n: nat, i: nat, ghost o: seq<byte>, ghost end: nat, ghost low: nat)
    returns (n': nat, ghost low': nat)
    requires shift > 0 && end == at + StrLen(o, at) < |o| && i <= n
    requires Measured(at, shift, end, low, n, i) && Moving(o, buffer[..], shift, end, low)
    modifies buffer
    ensures Measured(at, shift, end, low', n', i + 1) && Moving(o, buffer[..], shift, end, low')
    ensures i <= n' && (low' > end || low <= end ==> n' == n) && (low <= end ==> low' <= end)
  {
    hide StrLen, Measured, Moving;
    RoundDone(at, shift, end, low, n, i);
    ShiftByte(buffer, at + n - i, shift, o, end, low);
    low' := Min(low, at + n - i + shift);
    MovedLength(o, buffer[..], at, shift, end, low');
    n' := StrLen(buffer[..], at);
  }

  lemma Unmoved(o: seq<byte>, at: nat, shift: nat, end: nat)
    requires shift > 0 && at <= end && end + shift < |o|
    ensures Moving(o, o, shift, end, end + shift + 1)
    ensures Measured(at, shift, end, end + shift + 1, end - at, 0)
  {
  }

  lemma AllRounds(at: nat, shift: nat, end: nat, low: nat, n: nat, i: nat)
    requires Measured(at, shift, end, low, n, i) && i > n
    ensures low == at + shift
  {
  }

  method ShiftByte(buffer: array<byte>, from: nat, shift: nat, ghost o: seq<byte>, ghost end: nat, ghost low: nat)
    requires Moving(o, buffer[..], shift, end, low)
    requires from < low <= from + shift + 1 && from + shift <= end + shift
    modifies buffer
    ensures Moving(o, buffer[..], shift, end, Min(low, from + shift))
  {
    buffer[from + shift] := buffer[from];
  }

  /** Where round `i` of the loop stands, with `n` the length last measured. */
  ghost predicate Measured(at: nat, shift: nat, end: nat, low: nat, n: nat, i: nat) {
    && i <= n + 1 && 0 < shift && at <= end
    && if low > end then n == end - at && low == end + shift - i + 1
       else n == end + shift - at && shift < i && shift <= end - at && low == Min(end, end + 2 * shift - i + 1)
  }

  lemma RoundDone(at: nat, shift: nat, end: nat, low: nat, n: nat, i: nat)
    requires Measured(at, shift, end, low, n, i) && i <= n
    ensures var x := at + n - i + shift;
            var low' := Min(low, x);
            var n' := (if low' <= end then end + shift else end) - at;
            && at + shift <= x <= end + shift && x - shift < low <= x + 1
            && Measured(at, shift, end, low', n', i + 1)
            && at + shift <= low' && i <= n' && (low' > end || low <= end ==> n' == n)
  {
  }

  /** The length measured on a string half moved: the old one until the old
      terminator is overwritten, the final one from then on. */
  lemma MovedLength(o: seq<byte>, b: seq<byte>, at: nat, shift: nat, end: nat, low: nat)
    requires shift > 0 && end == at + StrLen(o, at) < |o|
    requires Moving(o, b, shift, end, low) && at + shift <= low <= end + shift
    ensures StrLen(b, at) == (if low <= end then end + shift else end) - at
  {
    if low <= end {
      assert b[end + shift] == o[end];
      StrLenIs(b, at, end + shift);
    } else {
      StrLenIs(b, at, end);
    }
  }

  /** Moves the string at `at + shift` forward to `at`, terminator included. The
      loop is bounded by the length of the string at `measured`, which lies
      within or behind the bytes being written and is measured anew each round. */
  method ShiftForward(buffer: array<byte>, at: nat, shift: nat)
    requires shift > 0
    requires at + shift + StrLen(buffer[..], at + shift) < buffer.Length
    modifies buffer
    ensures Closing(old(buffer[..]), buffer[..], at, shift, old(StrLen(buffer[..], at + shift)) + 1)
  {
    hide StrLen, Closing;
    ghost var o := buffer[..];
    var n := StrLen(buffer[..], at + shift);
    ghost var last := n;
    var i := 0;
    NotClosed(o, at, shift);
    while i <= n
      invariant i <= last + 1 && n <= last && (i <= last ==> n == last)
      invariant Closing(o, buffer[..], at, shift, i)
      decreases last + 1 - i
    {
      n := CloseRound(buffer, at, shift, i, o, last);
      i := i + 1;
    }
  }

  /** The first `i` bytes have arrived. */
  ghost predicate Closing(o: seq<byte>, b: seq<byte>, at: nat, shift: nat, i: nat) {
    && at + i + shift <= |b| == |o|
    && (forall q :: at <= q < at + i ==> b[q] == o[q + shift])
    && (forall q :: 0 <= q < at || at + i <= q < |o| ==> b[q] == o[q])
  }

  lemma NotClosed(o: seq<byte>, at: nat, shift: nat)
    requires at + shift <= |o|
    ensures Closing(o, o, at, shift, 0)
  {
  }

  method CloseRound(buffer: array<byte>, at: nat, shift: nat, i: nat, ghost o: seq<byte>, ghost last: nat) returns (n: nat)
    requires shift > 0 && at + shift + last < |o| && last == StrLen(o, at + shift) && i <= last
    requires Closing(o, buffer[..], at, shift, i)
    modifies buffer
    ensures Closing(o, buffer[..], at, shift, i + 1)
    ensures n <= last && (i < last ==> n == last)
  {
    hide StrLen;
    buffer[at + i] := buffer[at + i + shift];
    ClosingLength(o, buffer[..], at, shift, i + 1);
    n := StrLen(buffer[..], at + shift);
  }

  /** The length measured behind the gap: the old one, until the terminator arrives. */
  lemma ClosingLength(o: seq<byte>, b: seq<byte>, at: nat, shift: nat, i: nat)
    requires shift > 0 && at + shift + StrLen(o, at + shift) < |o|
    requires Closing(o, b, at, shift, i) && i <= StrLen(o, at + shift) + 1
    ensures StrLen(b, at + shift) <= StrLen(o, at + shift)
    ensures i <= StrLen(o, at + shift) ==> StrLen(b, at + shift) == StrLen(o, at + shift)
  {
    var from, end := at + shift, at + shift + StrLen(o, at + shift);
    assert b[end] == o[end];
    if i <= end - from { StrLenIs(b, from, end); }
  }

  /** `s` was written at `at`, and nothing else was. */
  ghost predicate Written(o: seq<byte>, b: seq<byte>, at: nat, s: seq<byte>) {
    && at + |s| <= |b| == |o|
    && (forall q :: at <= q < at + |s| ==> b[q] == s[q - at])
    && (forall q :: 0 <= q < at || at + |s| <= q < |o| ==> b[q] == o[q])
  }

  /** `strncpy` of exactly the bytes of a string. */
  method Overwrite(buffer: array<byte>, at: nat, s: seq<byte>)
    requires at + |s| <= buffer.Length
    modifies buffer
    ensures Written(old(buffer[..]), buffer[..], at, s)
  {
    ghost var o := buffer[..];
    for i := 0 to |s|
      invariant forall q :: at <= q < at + i ==> buffer[q] == s[q - at]
      invariant forall q :: 0 <= q < at || at + i <= q < |o| ==> buffer[q] == o[q]
    {
      buffer[at + i] := s[i];
    }
  }

  /** The string in a buffer. */
  ghost predicate Holds(buffer: seq<byte>, text: seq<byte>) {
    |text| < |buffer| && buffer[..|text|] == text && buffer[|text|] == NUL && NUL !in text
  }

  /** The string's trailing part stands where the replacement will end. */
  ghost predicate RoomMade(o: seq<byte>, b: seq<byte>, at: nat, width: nat, room: nat, size: nat) {
    && at + width <= size < |b| == |o| && size - width + room < |o|
    && (forall q :: 0 <= q < at ==> b[q] == o[q])
    && (forall q :: at + room <= q <= size - width + room ==> b[q] == o[q - room + width])
    && Alike(o, b, Max(size, size - width + room) + 1)
  }

  ghost predicate Alike(o: seq<byte>, b: seq<byte>, from: nat) {
    |b| == |o| && forall q :: from <= q < |o| ==> b[q] == o[q]
  }

  /** One replacement in place. */
  method ReplaceAt(buffer: array<byte>, at: nat, width: nat, replacement: seq<byte>, ghost text: seq<byte>)
    requires Holds(buffer[..], text) && NUL !in replacement
    requires at + width <= |text| && |text| - width + |replacement| < buffer.Length
    modifies buffer
    ensures Holds(buffer[..], ReplacedOnce(text, at, width, replacement))
    ensures Alike(old(buffer[..]), buffer[..], Max(|text|, |text| - width + |replacement|) + 1)
  {
    hide StrLen, Holds, RoomMade, Written, Alike, ReplacedOnce;
    ghost var o := buffer[..];
    MakeRoom(buffer, at, width, |replacement|, text);
    ghost var moved := buffer[..];
    Overwrite(buffer, at, replacement);
    ReplacedHolds(o, moved, buffer[..], at, width, replacement, text);
  }

  /** Moves the trailing part out of the way, or up to where the replacement will end. */
  method MakeRoom(buffer: array<byte>, at: nat, width: nat, room: nat, ghost text: seq<byte>)
    requires Holds(buffer[..], text)
    requires at + width <= |text| && |text| - width + room < buffer.Length
    modifies buffer
    ensures RoomMade(old(buffer[..]), buffer[..], at, width, room, |text|)
  {
    hide StrLen, Holds, Moving, Closing, RoomMade;
    ghost var o := buffer[..];
    HeldLength(o, text, at);
    HeldLength(o, text, at + width);
    if room > width {
      ShiftBack(buffer, at, room - width);
      MovedMakesRoom(o, buffer[..], at, width, room, |text|);
    } else if room < width {
      ShiftForward(buffer, at + room, width - room);
      ClosedMakesRoom(o, buffer[..], at, width, room, |text|);
    } else {
      RoomAlready(o, at, width, |text|);
    }
  }

  lemma MovedMakesRoom(o: seq<byte>, b: seq<byte>, at: nat, width: nat, room: nat, size: nat)
    requires at + width <= size && width < room && Moving(o, b, room - width, size, at + (room - width))
    ensures RoomMade(o, b, at, width, room, size)
  {
  }

  lemma ClosedMakesRoom(o: seq<byte>, b: seq<byte>, at: nat, width: nat, room: nat, size: nat)
    requires at + width <= size && room < width
    requires Closing(o, b, at + room, width - room, size - (at + width) + 1)
    ensures RoomMade(o, b, at, width, room, size)
  {
  }

  lemma RoomAlready(o: seq<byte>, at: nat, width: nat, size: nat)
    requires at + width <= size < |o|
    ensures RoomMade(o, o, at, width, width, size)
  {
  }

  lemma HeldLength(b: seq<byte>, text: seq<byte>, at: nat)
    requires Holds(b, text) && at <= |text|
    ensures |text| < |b| && b[|text|] == NUL && StrLen(b, at) == |text| - at
  {
    assert forall j :: 0 <= j < |text| ==> b[j] == text[j];
    StrLenIs(b, at, |text|);
  }

  lemma ReplacedHolds(o: seq<byte>, m: seq<byte>, b: seq<byte>, at: nat, width: nat, replacement: seq<byte>, text: seq<byte>)
    requires Holds(o, text) && NUL !in replacement
    requires RoomMade(o, m, at, width, |replacement|, |text|) && Written(m, b, at, replacement)
    ensures Holds(b, ReplacedOnce(text, at, width, replacement))
    ensures Alike(o, b, Max(|text|, |text| - width + |replacement|) + 1)
  {
    var t := ReplacedOnce(text, at, width, replacement);
    assert forall j :: 0 <= j < |text| ==> o[j] == text[j];
    assert b[..|t|] == t;
  }

  /** `common_strrepl` on a buffer of `length` usable bytes. */
  method StrRepl(buffer: array<byte>, length: nat, variable: seq<byte>, replacement: seq<byte>, ghost text: seq<byte>)
    returns (status: int)
    requires Holds(buffer[..], text) && |text| < length <= buffer.Length
    requires variable != [] && NUL !in variable && NUL !in replacement
    modifies buffer
    ensures var o := Replace(0, text, variable, replacement, length);
            && Holds(buffer[..], o.text) && |o.text| < length
            && status == if o.ok then 0 else -1
    ensures forall q :: length <= q < buffer.Length ==> buffer[q] == old(buffer[..])[q]
  {
    hide Find, Fits, Replace;
    ghost var start := buffer[..];
    ghost var target := Replace(0, text, variable, replacement, length);
    ghost var done: seq<byte>, rest := [], text;
    var offset: nat := 0;
    assert [] + text == text && [] + target.text == target.text;
    while true
      invariant offset == |done| && |done + rest| < length && Holds(buffer[..], done + rest)
      invariant Replace(|done|, rest, variable, replacement, length).ok == target.ok
      invariant done + Replace(|done|, rest, variable, replacement, length).text == target.text
      invariant forall q :: length <= q < |start| ==> buffer[q] == start[q]
      decreases |rest|
    {
      var round;
      ghost var done', rest';
      round, offset, done', rest' := ReplaceNext(buffer, length, variable, replacement, offset, done, rest);
      if !round.Replaced? {
        ReplaceStops(|done|, rest, variable, replacement, length);
        return if round.NoneLeft? then 0 else -1;
      }
      ReplaceStep(done, rest[..Find(rest, variable)], rest, rest', variable, replacement, length);
      done, rest := done', rest';
    }
  }

  lemma ReplaceStep(done: seq<byte>, head: seq<byte>, rest: seq<byte>, more: seq<byte>,
                    variable: seq<byte>, replacement: seq<byte>, length: nat)
    requires variable != [] && Find(rest, variable) == |head|
    requires rest[..|head|] == head && rest[|head| + |variable|..] == more
    requires Fits(|done| + |head|, |done| + |rest|, |variable|, |replacement|, length)
    ensures var o := Replace(|done|, rest, variable, replacement, length);
            var o' := Replace(|done + head + replacement|, more, variable, replacement, length);
            o.ok == o'.ok && done + o.text == done + head + replacement + o'.text
  {
    hide Find, Replace;
    ReplaceUnfold(|done|, head, rest, more, variable, replacement, length);
    Regroup(done, head, replacement, Replace(|done + head + replacement|, more, variable, replacement, length).text);
  }

  lemma Regroup(p: seq<byte>, a: seq<byte>, b: seq<byte>, c: seq<byte>)
    ensures (p + a + b) + c == p + (a + b + c)
  {
  }

  datatype Round = NoneLeft | NoRoom | Replaced

  /** One round: search behind `offset`, check the room, replace. */
  method ReplaceNext(buffer: array<byte>, length: nat, variable: seq<byte>, replacement: seq<byte>,
                     offset: nat, ghost done: seq<byte>, ghost rest: seq<byte>)
    returns (round: Round, offset': nat, ghost done': seq<byte>, ghost rest': seq<byte>)
    requires Holds(buffer[..], done + rest) && offset == |done| && |done + rest| < length <= buffer.Length
    requires variable != [] && NUL !in replacement
    modifies buffer
    ensures Holds(buffer[..], done' + rest') && offset' == |done'| && |done' + rest'| < length
    ensures forall q :: length <= q < buffer.Length ==> buffer[q] == old(buffer[..])[q]
    ensures round.NoneLeft? <==> Find(rest, variable) < 0
    ensures round.Replaced? <==>
      Find(rest, variable) >= 0
      && Fits(|done| + Find(rest, variable), |done| + |rest|, |variable|, |replacement|, length)
    ensures if round.Replaced? then
              && done' == done + rest[..Find(rest, variable)] + replacement
              && rest' == rest[Find(rest, variable) + |variable|..]
            else done' == done && rest' == rest
  {
    hide Find;
    offset', done', rest' := offset, done, rest;
    var held := StringAt(buffer, offset, done, rest);
    var k := Find(held, variable);
    if k < 0 {
      round := NoneLeft;
      return;
    }
    var fits := HasRoom(buffer, offset + k, |variable|, |replacement|, length, done + rest);
    if !fits {
      round := NoRoom;
      return;
    }
    ReplaceAt(buffer, offset + k, |variable|, replacement, done + rest);
    OneReplaced(done, rest, k, variable, replacement);
    round, offset' := Replaced, offset + k + |replacement|;
    done', rest' := done + rest[..k] + replacement, rest[k + |variable|..];
  }

  /** The room check: what stands in front of the replacement's end, and the
      whole string without the variable. */
  method HasRoom(buffer: array<byte>, at: nat, width: nat, room: nat, length: nat, ghost text: seq<byte>)
    returns (fits: bool)
    requires Holds(buffer[..], text) && width <= |text|
    ensures fits == Fits(at, |text|, width, room, length)
  {
    HeldLength(buffer[..], text, width);
    fits := at + room + StrLen(buffer[..], width) < length;
  }

  method StringAt(buffer: array<byte>, offset: nat, ghost done: seq<byte>, ghost rest: seq<byte>) returns (s: seq<byte>)
    requires Holds(buffer[..], done + rest) && offset == |done|
    ensures s == rest
  {
    HeldLength(buffer[..], done + rest, offset);
    s := buffer[offset..offset + StrLen(buffer[..], offset)];
    assert forall j :: 0 <= j < |done + rest| ==> buffer[..][j] == (done + rest)[j];
  }

  lemma OneReplaced(done: seq<byte>, rest: seq<byte>, k: nat, variable: seq<byte>, replacement: seq<byte>)
    requires k + |variable| <= |rest|
    ensures ReplacedOnce(done + rest, |done| + k, |variable|, replacement)
         == (done + rest[..k] + replacement) + rest[k + |variable|..]
  {
    assert (done + rest)[..|done| + k] == done + rest[..k];
    assert (done + rest)[|done| + k + |variable|..] == rest[k + |variable|..];
  }
}
