/** Envelope paths: `path_parse` and the buffer it writes. */
module PathParsing {
  import opened Bytes

  const MAX_PATH_LENGTH := 300

  /** `isspace` and `isprint` in the C locale. */
  predicate IsSpace(b: byte) { b == SPACE || TAB <= b <= CR }
  predicate IsPrint(b: byte) { 32 <= b <= 126 }

  /** A parsed path: its text and where the delimiter is. A path that is rejected keeps
      the delimiter it has got by then, and what was written. */
  datatype Parsed = Parsed(text: seq<byte>, delimiter: nat) | Rejected(left: nat, written: seq<byte>)

  /** The first `b` at or behind `from`, or the end. */
  function Seek(s: seq<byte>, from: nat, b: byte): (k: nat)
    requires from <= |s|
    ensures from <= k <= |s| && (k < |s| ==> s[k] == b)
    decreases |s| - from
  {
    if from == |s| || s[from] == b then from else Seek(s, from + 1, b)
  }

  function SkipSpaces(s: seq<byte>, from: nat): (k: nat)
    requires from <= |s|
    ensures from <= k <= |s|
    decreases |s| - from
  {
    if from < |s| && IsSpace(s[from]) then SkipSpaces(s, from + 1) else from
  }

  lemma {:induction false} SpacesSkipped(spaces: seq<byte>, rest: seq<byte>, from: nat)
    requires from <= |spaces| && (forall i :: 0 <= i < |spaces| ==> IsSpace(spaces[i]))
    requires rest == [] || !IsSpace(rest[0])
    ensures SkipSpaces(spaces + rest, from) == |spaces|
    decreases |spaces| - from
  {
    if from < |spaces| { SpacesSkipped(spaces, rest, from + 1); }
  }

  function Push(text: seq<byte>, b: byte): seq<byte> { if IsPrint(b) then text + [b] else text }

  /** The reference: a path read left to right from `pos`. Comments and the source
      route are skipped as wholes, an escaped or a quoted character stands for
      itself, an unquoted angle bracket opens or closes the path. */
  function Scan(s: seq<byte>, pos: nat, text: seq<byte>, delimiter: nat, quotes: bool): Parsed
    requires pos <= |s|
    decreases |s| - pos
  {
    if pos == |s| || |text| >= MAX_PATH_LENGTH - 1 then Parsed(text, delimiter)
    else if s[pos] == AT then
      if text == [] then
        var colon := Seek(s, pos, COLON);
        if colon == |s| then Parsed(text, delimiter) else Scan(s, colon + 1, text, delimiter, quotes)
      else if quotes then Scan(s, pos + 1, text + [AT], delimiter, quotes)
      else if delimiter == 0 && text[0] != AT then Scan(s, pos + 1, text + [AT], |text|, quotes)
      else Rejected(delimiter, text)
    else if s[pos] == DQUOTE then Scan(s, pos + 1, text, delimiter, !quotes)
    else if s[pos] == BACKSLASH then
      if pos + 1 == |s| then Parsed(text, delimiter)
      else Scan(s, pos + 2, Push(text, s[pos + 1]), delimiter, quotes)
    else if s[pos] == LPAREN then AfterComment(s, pos + 1, text, delimiter, quotes)
    else if s[pos] == RPAREN then Rejected(delimiter, text)
    else if s[pos] == LESS && !quotes then Scan(s, pos + 1, text, delimiter, quotes)
    else if s[pos] == GREATER && !quotes then Parsed(text, delimiter)
    else Scan(s, pos + 1, Push(text, s[pos]), delimiter, quotes)
  }

  function AfterComment(s: seq<byte>, pos: nat, text: seq<byte>, delimiter: nat, quotes: bool): Parsed
    requires pos <= |s|
    decreases |s| - pos
  {
    var close := Seek(s, pos, RPAREN);
    if close == |s| then Rejected(delimiter, text + [NUL]) else Scan(s, close + 1, text, delimiter, quotes)
  }

  /** Without a delimiter the local part extends over the whole text. */
  function Delimited(p: Parsed): Parsed {
    if p.Parsed? && p.delimiter == 0 then Parsed(p.text, |p.text|) else p
  }

  /** What a path holds after parsing that had its delimiter at `delimiter` before. */
  function PathFrom(spec: seq<byte>, delimiter: nat): Parsed {
    Delimited(Scan(spec, SkipSpaces(spec, 0), [], delimiter, false))
  }

  /** What a fresh path holds after parsing. */
  function PathOf(spec: seq<byte>): Parsed { PathFrom(spec, 0) }

  ghost predicate Printable(text: seq<byte>) {
    forall i :: 0 <= i < |text| ==> IsPrint(text[i])
  }

  ghost predicate WellDelimited(p: Parsed) {
    p.Parsed? ==>
      && |p.text| <= MAX_PATH_LENGTH - 1 && Printable(p.text)
      && (p.delimiter == |p.text| || (0 < p.delimiter < |p.text| && p.text[p.delimiter] == AT))
  }

  /** What the scan keeps about the text so far, begun with the delimiter at `before`. */
  ghost predicate Building(text: seq<byte>, delimiter: nat, before: nat) {
    && |text| <= MAX_PATH_LENGTH - 1 && Printable(text)
    && (delimiter == before || (delimiter < |text| && text[delimiter] == AT))
  }

  /** What a rejected path may leave: it fits in front of the last byte of the buffer. */
  ghost predicate Writable(written: seq<byte>) {
    && |written| < MAX_PATH_LENGTH
    && forall i :: 0 <= i < |written| ==> written[i] == NUL || IsPrint(written[i])
  }

  /** What a scan comes to. */
  ghost predicate Built(p: Parsed, before: nat) {
    match p
    case Parsed(text, delimiter) => Building(text, delimiter, before)
    case Rejected(left, written) => Writable(written) && (left == before || left < MAX_PATH_LENGTH)
  }

  lemma BuildingWritable(text: seq<byte>, delimiter: nat, before: nat)
    requires Building(text, delimiter, before)
    ensures Built(Parsed(text, delimiter), before)
    ensures |text| < MAX_PATH_LENGTH - 1 ==>
      Built(Rejected(delimiter, text), before) && Built(Rejected(delimiter, text + [NUL]), before)
  {
  }

  lemma BuildingPush(text: seq<byte>, delimiter: nat, before: nat, b: byte)
    requires Building(text, delimiter, before) && |text| < MAX_PATH_LENGTH - 1
    ensures Building(Push(text, b), delimiter, before)
    ensures b == AT ==> Building(text + [b], delimiter, before) && (text != [] ==> Building(text + [b], |text|, before))
  {
    var longer := text + [b];
    if IsPrint(b) {
      forall i | 0 <= i < |longer| ensures IsPrint(longer[i]) { assert i < |text| ==> longer[i] == text[i]; }
    }
  }

  lemma {:induction false} ScanBuilds(s: seq<byte>, pos: nat, text: seq<byte>, delimiter: nat, quotes: bool, before: nat)
    requires pos <= |s| && Building(text, delimiter, before)
    ensures Built(Scan(s, pos, text, delimiter, quotes), before)
    decreases |s| - pos
  {
    hide Building, Built, Push, IsPrint, Printable;
    BuildingWritable(text, delimiter, before);
    if pos == |s| || |text| >= MAX_PATH_LENGTH - 1 {
      return;
    }
    BuildingPush(text, delimiter, before, s[pos]);
    if s[pos] == AT {
      if text == [] {
        var colon := Seek(s, pos, COLON);
        if colon < |s| { ScanBuilds(s, colon + 1, text, delimiter, quotes, before); }
      } else if quotes {
        ScanBuilds(s, pos + 1, text + [AT], delimiter, quotes, before);
      } else if delimiter == 0 && text[0] != AT {
        ScanBuilds(s, pos + 1, text + [AT], |text|, quotes, before);
      }
    } else if s[pos] == DQUOTE {
      ScanBuilds(s, pos + 1, text, delimiter, !quotes, before);
    } else if s[pos] == BACKSLASH {
      if pos + 1 < |s| {
        BuildingPush(text, delimiter, before, s[pos + 1]);
        ScanBuilds(s, pos + 2, Push(text, s[pos + 1]), delimiter, quotes, before);
      }
    } else if s[pos] == LPAREN {
      var close := Seek(s, pos + 1, RPAREN);
      if close < |s| { ScanBuilds(s, close + 1, text, delimiter, quotes, before); }
    } else if s[pos] == LESS && !quotes {
      ScanBuilds(s, pos + 1, text, delimiter, quotes, before);
    } else if s[pos] != RPAREN && (quotes || s[pos] != GREATER) {
      ScanBuilds(s, pos + 1, Push(text, s[pos]), delimiter, quotes, before);
    }
  }

  /** Every accepted path fits its buffer with the terminator, is printable, and
      its delimiter is an '@' behind the first character or the end. */
  lemma ParseWellDelimited(spec: seq<byte>)
    ensures WellDelimited(PathOf(spec))
  {
    ScanBuilds(spec, SkipSpaces(spec, 0), [], 0, false, 0);
  }

  /** A delimiter that was there before is never replaced, and refuses any other. */
  lemma {:induction false} ScanStale(s: seq<byte>, pos: nat, text: seq<byte>, delimiter: nat, quotes: bool)
    requires pos <= |s| && delimiter > 0
    ensures var afresh := Scan(s, pos, text, 0, quotes);
            var stale := Scan(s, pos, text, delimiter, quotes);
            if afresh.Parsed? && afresh.delimiter == 0 then stale == Parsed(afresh.text, delimiter)
            else stale.Rejected? && stale.left == delimiter
    decreases |s| - pos
  {
    hide Push, IsPrint;
    if pos == |s| || |text| >= MAX_PATH_LENGTH - 1 {
    } else if s[pos] == AT {
      if text == [] {
        var colon := Seek(s, pos, COLON);
        if colon < |s| { ScanStale(s, colon + 1, text, delimiter, quotes); }
      } else if quotes {
        ScanStale(s, pos + 1, text + [AT], delimiter, quotes);
      } else {
        ScanStale(s, pos + 1, text + [AT], |text|, quotes);
      }
    } else if s[pos] == DQUOTE {
      ScanStale(s, pos + 1, text, delimiter, !quotes);
    } else if s[pos] == BACKSLASH {
      if pos + 1 < |s| { ScanStale(s, pos + 2, Push(text, s[pos + 1]), delimiter, quotes); }
    } else if s[pos] == LPAREN {
      var close := Seek(s, pos + 1, RPAREN);
      if close < |s| { ScanStale(s, close + 1, text, delimiter, quotes); }
    } else if s[pos] == LESS && !quotes {
      ScanStale(s, pos + 1, text, delimiter, quotes);
    } else if s[pos] != RPAREN && (quotes || s[pos] != GREATER) {
      ScanStale(s, pos + 1, Push(text, s[pos]), delimiter, quotes);
    }
  }

  /** A rejected reverse path is not reset. If it had a delimiter, the next one is accepted
      if and only if it would be afresh and has no domain; then its delimiter is the old one. */
  lemma RejectedPathStays(spec: seq<byte>, delimiter: nat)
    requires delimiter > 0
    ensures var afresh := PathOf(spec);
            var stale := PathFrom(spec, delimiter);
            if afresh.Parsed? && afresh.delimiter == |afresh.text| then stale == Parsed(afresh.text, delimiter)
            else stale.Rejected? && stale.left == delimiter
  {
    ScanStale(spec, SkipSpaces(spec, 0), [], delimiter, false);
    ScanBuilds(spec, SkipSpaces(spec, 0), [], 0, false, 0);
  }

  /** A character that stands for itself outside quotes. */
  predicate Plain(b: byte) {
    IsPrint(b) && b != AT && b != DQUOTE && b != BACKSLASH && b != LPAREN && b != RPAREN && b != LESS && b != GREATER
  }

  /** No special character beyond the one delimiter. */
  ghost predicate PlainPath(p: Parsed) {
    p.Parsed? && WellDelimited(p)
    && forall i :: 0 <= i < |p.text| && i != p.delimiter ==> Plain(p.text[i])
  }

  /** How `smtp_initiate` and `smtp_rcpt` print a path. */
  function Printed(text: seq<byte>): seq<byte> { [LESS] + text + [GREATER] }

  lemma {:induction false} ScanPlain(p: Parsed, n: nat)
    requires PlainPath(p) && n <= |p.text|
    ensures var delimiter := if p.delimiter < n then p.delimiter else 0;
            Delimited(Scan(Printed(p.text), n + 1, p.text[..n], delimiter, false)) == p
    decreases |p.text| - n
  {
    var s := Printed(p.text);
    if n == |p.text| {
      assert p.text[..n] == p.text;
    } else {
      assert s[n + 1] == p.text[n];
      assert p.text[..n] + [p.text[n]] == p.text[..n + 1];
      ScanPlain(p, n + 1);
    }
  }

  /** A path survives being printed into a MAIL or RCPT command and parsed again. */
  lemma Reparse(p: Parsed)
    requires PlainPath(p)
    ensures PathOf(Printed(p.text)) == p
  {
    ScanPlain(p, 0);
    assert p.text[..0] == [];
  }

  /** So one bad reverse path costs the good ones behind it: "<a@b>" is parsed afresh, but
      not after "<a@b@c>" was rejected. */
  lemma GoodPathRefused()
    ensures PathOf(Printed([97, AT, 98, AT, 99])) == Rejected(1, [97, AT, 98])
    ensures PathOf(Printed([97, AT, 98])) == Parsed([97, AT, 98], 1)
    ensures PathFrom(Printed([97, AT, 98]), 1).Rejected?
  {
    hide Scan;
    var good := Parsed([97, AT, 98], 1);
    Reparse(good);
    RejectedPathStays(Printed(good.text), 1);
    TwoDelimiters([LESS, 97, AT, 98, AT, 99, GREATER]);
    assert Printed([97, AT, 98, AT, 99]) == [LESS, 97, AT, 98, AT, 99, GREATER];
  }

  lemma TwoDelimiters(s: seq<byte>)
    requires s == [LESS, 97, AT, 98, AT, 99, GREATER]
    ensures PathOf(s) == Rejected(1, [97, AT, 98])
  {
    assert SkipSpaces(s, 0) == 0;
    assert Scan(s, 4, [97, AT, 98], 1, false) == Rejected(1, [97, AT, 98]);
    assert [97, AT] + [98] == [97, AT, 98];
    assert Scan(s, 3, [97, AT], 1, false) == Rejected(1, [97, AT, 98]);
    assert [97] + [AT] == [97, AT];
    assert Scan(s, 2, [97], 0, false) == Rejected(1, [97, AT, 98]);
    assert [] + [97] == [97];
    assert Scan(s, 1, [], 0, false) == Rejected(1, [97, AT, 98]);
  }

  // ------------------------------------------------------------ the buffer

  lemma CommentStep(s: seq<byte>, pos: nat, text: seq<byte>, delimiter: nat, quotes: bool)
    requires pos < |s|
    ensures AfterComment(s, pos, text, delimiter, quotes) ==
            if s[pos] == RPAREN then Scan(s, pos + 1, text, delimiter, quotes)
            else AfterComment(s, pos + 1, text, delimiter, quotes)
  {
    hide Scan;
  }

  lemma ScanEnd(s: seq<byte>, pos: nat, text: seq<byte>, delimiter: nat, quotes: bool)
    requires pos <= |s|
    ensures pos == |s| || |text| >= MAX_PATH_LENGTH - 1 ==>
      Scan(s, pos, text, delimiter, quotes) == Parsed(text, delimiter)
    ensures pos == |s| ==> AfterComment(s, pos, text, delimiter, quotes) == Rejected(delimiter, text + [NUL])
  {
  }

  /** A path structure: its bytes and the position of its delimiter. */
  datatype Buffer = Buffer(bytes: seq<byte>, delimiter: nat)

  /** As `path_reset` leaves it. */
  function Reset(): Buffer { Buffer(seq(MAX_PATH_LENGTH, _ => NUL), 0) }

  function Overwritten(stale: seq<byte>, written: seq<byte>): seq<byte> {
    if |written| <= |stale| then written + stale[|written|..] else written
  }

  /** `path_parse` into a path structure, and whether it succeeds: what stands behind the
      bytes written stays. */
  function ParseInto(b: Buffer, spec: seq<byte>): (Buffer, bool) {
    match PathFrom(spec, b.delimiter)
    case Parsed(text, delimiter) => (Buffer(Overwritten(b.bytes, text + [NUL]), delimiter), true)
    case Rejected(left, written) => (Buffer(Overwritten(b.bytes, written), left), false)
  }

  /** Whatever has been parsed into a reset path: the last byte is a terminator, and the
      others are printable or terminators. */
  ghost predicate BufferOk(b: Buffer) { BytesOk(b.bytes) && b.delimiter < MAX_PATH_LENGTH }

  ghost predicate BytesOk(bytes: seq<byte>) {
    && |bytes| == MAX_PATH_LENGTH && bytes[MAX_PATH_LENGTH - 1] == NUL
    && forall i :: 0 <= i < MAX_PATH_LENGTH ==> bytes[i] == NUL || IsPrint(bytes[i])
  }

  lemma ResetOk()
    ensures BufferOk(Reset())
  {
  }

  lemma OverwrittenOk(stale: seq<byte>, written: seq<byte>)
    requires BytesOk(stale) && |written| <= MAX_PATH_LENGTH
    requires forall i :: 0 <= i < |written| ==> written[i] == NUL || IsPrint(written[i])
    requires |written| == MAX_PATH_LENGTH ==> written[MAX_PATH_LENGTH - 1] == NUL
    ensures BytesOk(Overwritten(stale, written))
  {
  }

  lemma PathWritten(spec: seq<byte>, before: nat)
    requires before < MAX_PATH_LENGTH
    ensures match PathFrom(spec, before)
            case Parsed(text, delimiter) => |text| < MAX_PATH_LENGTH && Printable(text) && delimiter < MAX_PATH_LENGTH
            case Rejected(left, written) => Writable(written) && left < MAX_PATH_LENGTH
  {
    hide Scan;
    ScanBuilds(spec, SkipSpaces(spec, 0), [], before, false, before);
  }

  /** It stays so, however often paths are parsed into it. */
  lemma ParseKeeps(b: Buffer, spec: seq<byte>)
    requires BufferOk(b)
    ensures BufferOk(ParseInto(b, spec).0)
  {
    hide Overwritten, BytesOk, PathFrom;
    PathWritten(spec, b.delimiter);
    match PathFrom(spec, b.delimiter)
    case Parsed(text, delimiter) =>
      OverwrittenOk(b.bytes, text + [NUL]);
    case Rejected(left, written) =>
      OverwrittenOk(b.bytes, written);
  }

  /** The part of `MAILPATH` the parser works on. */
  class PathBuffer {
    const path: array<byte>
    var delimiterPosition: nat

    /** `text` with nothing but NUL behind it. */
    ghost predicate HoldsText(text: seq<byte>)
      reads path
    {
      && path.Length == MAX_PATH_LENGTH && |text| < MAX_PATH_LENGTH
      && path[..|text|] == text
      && forall i :: |text| <= i < MAX_PATH_LENGTH ==> path[i] == NUL
    }

    /** As `path_reset` leaves it. */
    ghost predicate Fresh()
      reads this, path
    {
      HoldsText([]) && delimiterPosition == 0
    }

    constructor ()
      ensures Fresh() && fresh(path)
    {
      path := new byte[MAX_PATH_LENGTH](i => NUL);
      delimiterPosition := 0;
    }

    /** `text` at the front, and behind it what was there before. */
    ghost predicate Over(stale: seq<byte>, text: seq<byte>)
      reads path
    {
      && path.Length == |stale| == MAX_PATH_LENGTH && |text| < MAX_PATH_LENGTH
      && path[..|text|] == text
      && forall i :: |text| <= i < MAX_PATH_LENGTH ==> path[i] == stale[i]
    }

    ghost function Value(): Buffer
      reads this, path
    {
      Buffer(path[..], delimiterPosition)
    }

    /** `path_parse` on any path: a fresh one, or one that a rejected command left as it
        was. `spec` is the C string, and its terminator is what is read at its end. */
    method Parse(spec: seq<byte>) returns (status: int)
      requires path.Length == MAX_PATH_LENGTH && NUL !in spec
      modifies this, path
      ensures (Value(), status == 0) == ParseInto(old(Value()), spec) && (status == 0 || status == -1)
      ensures old(Fresh()) && status == 0 ==> HoldsText(PathOf(spec).text) && delimiterPosition == PathOf(spec).delimiter
    {
      hide Scan, AfterComment, Over, Seek, Overwritten;
      var quotes, done, comment := false, false, false;
      var pos := SkipSpaces(spec, 0);
      var length := 0;
      ghost var text: seq<byte> := [];
      ghost var stale := path[..];
      NothingWritten();
      ghost var target := Scan(spec, pos, [], delimiterPosition, false);
      while !done && length < MAX_PATH_LENGTH - 1 && pos < |spec|
        invariant 0 <= length == |text| && Over(stale, text)
        invariant !done ==> 0 <= pos <= |spec|
        invariant done ==> target == Parsed(text, delimiterPosition) && !comment
        invariant !done && comment ==>
          length < MAX_PATH_LENGTH - 1 && target == AfterComment(spec, pos, text, delimiterPosition, quotes)
        invariant !done && !comment ==> target == Scan(spec, pos, text, delimiterPosition, quotes)
        decreases !done, |spec| - pos
      {
        if comment {
          CommentStep(spec, pos, text, delimiterPosition, quotes);
          comment := spec[pos] != RPAREN;
        } else {
          var rejected;
          rejected, done, comment, quotes, pos, length, text := Character(spec, pos, length, quotes, text, stale);
          if rejected {
            WrittenOver(stale, text);
            return -1;
          }
        }
        pos := pos + 1;
      }
      if !done { ScanEnd(spec, pos, text, delimiterPosition, quotes); }
      Terminate(length, text, stale);
      if comment {
        return -1;
      }
      if delimiterPosition == 0 {
        delimiterPosition := length;
      }
      return 0;
    }

    lemma WrittenOver(stale: seq<byte>, text: seq<byte>)
      requires Over(stale, text)
      ensures path[..] == Overwritten(stale, text)
    {
    }

    lemma NothingWritten()
      requires path.Length == MAX_PATH_LENGTH
      ensures Over(path[..], [])
    {
    }

    method Terminate(length: nat, ghost text: seq<byte>, ghost stale: seq<byte>)
      requires Over(stale, text) && length == |text|
      modifies path
      ensures path[..] == Overwritten(stale, text + [NUL])
      ensures (forall i :: 0 <= i < |stale| ==> stale[i] == NUL) ==> HoldsText(text)
    {
      path[length] := NUL;
    }

    /** What is left to do behind `pos`, by the reference. */
    ghost function Remaining(spec: seq<byte>, pos: nat, text: seq<byte>, comment: bool, quotes: bool): Parsed
      requires pos <= |spec|
      reads this
    {
      if comment then AfterComment(spec, pos, text, delimiterPosition, quotes)
      else Scan(spec, pos, text, delimiterPosition, quotes)
    }

    /** One character outside a comment. `pos'` is the last byte used. */
    method Character(spec: seq<byte>, pos: nat, length: nat, quotes: bool, ghost text: seq<byte>, ghost stale: seq<byte>)
      returns (rejected: bool, done: bool, comment: bool, quotes': bool, pos': nat, length': nat, ghost text': seq<byte>)
      requires pos < |spec|
      requires Over(stale, text) && length == |text| < MAX_PATH_LENGTH - 1
      modifies this, path
      ensures Over(stale, text') && length' == |text'| && pos <= pos'
      ensures comment ==> !done && length' < MAX_PATH_LENGTH - 1
      ensures rejected ==> old(Remaining(spec, pos, text, false, quotes)) == Rejected(delimiterPosition, text')
      ensures !rejected && done ==> old(Remaining(spec, pos, text, false, quotes)) == Parsed(text', delimiterPosition)
      ensures !rejected && !done ==>
        && pos' < |spec|
        && old(Remaining(spec, pos, text, false, quotes)) == Remaining(spec, pos' + 1, text', comment, quotes')
    {
      var c := spec[pos];
      rejected, done, comment, quotes', pos', length', text' := false, false, false, quotes, pos, length, text;
      if c == AT {
        rejected, done, pos', length', text' := AtSign(spec, pos, length, quotes, text, stale);
      } else if c == DQUOTE {
        quotes' := !quotes;
      } else if c == BACKSLASH {
        if pos + 1 < |spec| {
          pos' := pos + 1;
          if IsPrint(spec[pos']) {
            text' := Put(length, spec[pos'], text, stale);
            length' := length + 1;
          }
        } else {
          done := true;
        }
      } else if c == LPAREN {
        comment := true;
      } else if c == RPAREN {
        rejected := true;
      } else if c == LESS && !quotes {
      } else if c == GREATER && !quotes {
        done := true;
      } else if IsPrint(c) {
        text' := Put(length, c, text, stale);
        length' := length + 1;
      }
    }

    /** An '@': a source route in front of the text, a quoted character, or the
        delimiter. `pos'` is the last byte used. */
    method AtSign(spec: seq<byte>, pos: nat, length: nat, quotes: bool, ghost text: seq<byte>, ghost stale: seq<byte>)
      returns (rejected: bool, done: bool, pos': nat, length': nat, ghost text': seq<byte>)
      requires pos < |spec| && spec[pos] == AT
      requires Over(stale, text) && length == |text| < MAX_PATH_LENGTH - 1
      modifies this, path
      ensures Over(stale, text') && length' == |text'| && pos <= pos'
      ensures rejected ==> Scan(spec, pos, text, old(delimiterPosition), quotes) == Rejected(delimiterPosition, text')
      ensures !rejected && done ==>
        Scan(spec, pos, text, old(delimiterPosition), quotes) == Parsed(text', delimiterPosition)
      ensures !rejected && !done ==>
        && pos' < |spec|
        && Scan(spec, pos, text, old(delimiterPosition), quotes) == Scan(spec, pos' + 1, text', delimiterPosition, quotes)
    {
      rejected, done, pos', length', text' := false, false, pos, length, text;
      if length == 0 {
        pos' := SkipRoute(spec, pos);
        done := pos' == |spec|;
      } else if quotes {
        text' := Put(length, AT, text, stale);
        length' := length + 1;
      } else if delimiterPosition == 0 && path[delimiterPosition] != AT {
        delimiterPosition := length;
        text' := Put(length, AT, text, stale);
        length' := length + 1;
      } else {
        rejected := true;
      }
    }

    /** One byte copied to the end of the text. */
    method Put(length: nat, c: byte, ghost text: seq<byte>, ghost stale: seq<byte>) returns (ghost longer: seq<byte>)
      requires Over(stale, text) && length == |text| < MAX_PATH_LENGTH - 1
      modifies path
      ensures longer == text + [c] && Over(stale, longer)
    {
      path[length] := c;
      longer := text + [c];
    }

    /** The source route loop. */
    method SkipRoute(spec: seq<byte>, from: nat) returns (pos: nat)
      requires from <= |spec|
      ensures pos == Seek(spec, from, COLON)
    {
      pos := from;
      while pos < |spec| && spec[pos] != COLON
        invariant from <= pos <= |spec| && Seek(spec, from, COLON) == Seek(spec, pos, COLON)
      {
        pos := pos + 1;
      }
    }
  }
}
