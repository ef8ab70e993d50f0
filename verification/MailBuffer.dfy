/** The mail buffer of an SMTP session: `mail_line` appends to it, the DATA state
    decides per line what is appended and when the mail ends. */
module MailBuffer {
  import opened Bytes
  import opened DotStuffing

  /** A mail being received: the text so far, the size limit (0 for none), the
      hops counted, and where the header was seen to end. */
  datatype MailState = MailState(text: seq<byte>, dataMax: nat, hopCount: nat, headerOffset: nat)

  const MAX_HOPS := 30
  const MAX_LINE_LENGTH := 1500

  /** Lines are joined by CRLF; the first one of an empty buffer is not preceded by any. */
  function AppendLine(text: seq<byte>, line: seq<byte>): seq<byte> {
    if text == [] then line else text + CRLF + line
  }

  predicate Full(m: MailState) { m.dataMax > 0 && |m.text| >= m.dataMax }

  function Store(m: MailState, line: seq<byte>): MailState {
    if Full(m) then m else m.(text := AppendLine(m.text, line))
  }

  datatype Verdict = SizeExceeded | TooManyHops | Route

  datatype Progress = Receiving(mail: MailState) | Ended(mail: MailState, verdict: Verdict)

  function Judge(m: MailState): Verdict {
    if m.dataMax > 0 && |m.text| > m.dataMax then SizeExceeded
    else if m.hopCount > MAX_HOPS then TooManyHops
    else Route
  }

  function RECEIVED(): seq<byte> { Ascii("Received: ") }

  /** End-of-header detection and hop counting. */
  function Inspect(m: MailState, line: seq<byte>): MailState {
    if m.headerOffset != 0 then m
    else if line == [] then m.(headerOffset := |m.text|)
    else if RECEIVED() <= line then m.(hopCount := m.hopCount + 1)
    else m
  }

  /** `smtpstate_data` for one line. */
  function DataStep(m: MailState, line: seq<byte>): Progress {
    if StartsWithDot(line) then
      if |line| > 1 then Receiving(Store(m, line[1..])) else Ended(m, Judge(m))
    else Receiving(Store(Inspect(m, line), line))
  }

  /** `MAIL` and its heap buffer. */
  class Mail {
    var data: array?<byte>
    var dataOffset: nat
    var dataAllocated: nat
    var dataMax: nat
    var hopCount: nat
    var headerOffset: nat

    ghost predicate Valid()
      reads this, data
    {
      if data == null then dataOffset == 0 && dataAllocated == 0
      else data.Length == dataAllocated && dataOffset < dataAllocated && data[dataOffset] == NUL
    }

    ghost function Text(): seq<byte>
      reads this, data
      requires Valid()
    {
      if data == null then [] else data[..dataOffset]
    }

    ghost function State(): MailState
      reads this, data
      requires Valid()
    {
      MailState(Text(), dataMax, hopCount, headerOffset)
    }

    constructor (dataMax: nat)
      ensures Valid() && State() == MailState([], dataMax, 0, 0) && data == null
    {
      data, dataOffset, dataAllocated := null, 0, 0;
      this.dataMax, hopCount, headerOffset := dataMax, 0, 0;
    }

    /** `mail_reset`, for the fields above: the buffer is kept, and the size
        limit is not put back. */
    method Reset()
      requires Valid()
      modifies this, data
      ensures Valid() && State() == MailState([], 0, 0, 0) && data == old(data)
    {
      if data != null {
        data[0] := NUL;
      }
      dataOffset, dataMax, hopCount, headerOffset := 0, 0, 0, 0;
    }

    /** `mail_line`: the buffer grows when the line, its CRLF and the terminator
        do not fit. */
    method Line(line: seq<byte>) returns (status: int)
      requires Valid() && NUL !in line
      modifies this, data
      ensures Valid() && (data == old(data) || fresh(data))
      ensures State() == Store(old(State()), line)
      ensures status == if Full(old(State())) then -1 else 0
    {
      if dataMax > 0 && dataOffset >= dataMax {
        return -1;
      }
      if data == null || dataAllocated < dataOffset + |line| + 3 {
        Grow(dataAllocated + |line| + 3);
      }
      if dataOffset != 0 {
        Append(CRLF);
      }
      Append(line);
      assert [] + line == line;
      return 0;
    }

    /** Writes behind the text, where there is room, and terminates it. */
    method Append(s: seq<byte>)
      requires data != null && data.Length == dataAllocated && dataOffset + |s| < dataAllocated
      modifies this`dataOffset, data
      ensures dataOffset == old(dataOffset) + |s| && data[dataOffset] == NUL
      ensures data[..dataOffset] == old(data[..dataOffset]) + s
    {
      CopyString(data, dataOffset, s);
      dataOffset := dataOffset + |s|;
    }

    /** The `realloc` of `mail_line`: what is behind the old contents is arbitrary. */
    method Grow(size: nat)
      requires Valid() && dataAllocated < size
      modifies this
      ensures fresh(data) && data.Length == dataAllocated == size
      ensures dataOffset == old(dataOffset) && dataMax == old(dataMax)
      ensures hopCount == old(hopCount) && headerOffset == old(headerOffset)
      ensures data[..dataOffset] == old(Text())
    {
      var larger := new byte[size];
      if data != null {
        CopyBytes(data, larger, dataAllocated);
        assert larger[..dataOffset] == larger[..dataAllocated][..dataOffset];
      }
      data, dataAllocated := larger, size;
    }

    /** The line decisions of `smtpstate_data`, up to the reply to the lone dot. */
    method DataLine(line: seq<byte>) returns (progress: Progress)
      requires Valid() && NUL !in line
      modifies this, data
      ensures Valid() && (data == old(data) || fresh(data))
      ensures progress == DataStep(old(State()), line)
      ensures State() == progress.mail
    {
      var status;
      if line != [] && line[0] == DOT {
        if |line| > 1 {
          status := Line(line[1..]);
          progress := Receiving(Current());
        } else if dataMax > 0 && dataOffset > dataMax {
          progress := Ended(Current(), SizeExceeded);
        } else if hopCount > MAX_HOPS {
          progress := Ended(Current(), TooManyHops);
        } else {
          progress := Ended(Current(), Route);
        }
      } else {
        if headerOffset == 0 {
          if line == [] {
            headerOffset := dataOffset;
          } else if RECEIVED() <= line {
            hopCount := hopCount + 1;
          }
        }
        status := Line(line);
        progress := Receiving(Current());
      }
    }

    /** A copy of the buffer and counters. */
    function Current(): (m: MailState)
      reads this, data
      requires Valid()
      ensures m == State()
    {
      MailState(if data == null then [] else data[..dataOffset], dataMax, hopCount, headerOffset)
    }
  }

  method CopyBytes(source: array<byte>, target: array<byte>, count: nat)
    requires source != target && count <= source.Length && count <= target.Length
    modifies target
    ensures target[..count] == source[..count]
  {
    for i := 0 to count
      invariant target[..i] == source[..i]
    {
      target[i] := source[i];
    }
  }

  /** `strncpy` of a string with its terminator into a buffer. */
  method CopyString(target: array<byte>, at: nat, s: seq<byte>)
    requires at + |s| < target.Length
    modifies target
    ensures target[..at] == old(target[..at])
    ensures target[at..at + |s|] == s && target[at + |s|] == NUL
    ensures target[..at + |s|] == old(target[..at]) + s
  {
    for i := 0 to |s|
      invariant target[..at] == old(target[..at])
      invariant target[at..at + i] == s[..i]
    {
      target[at + i] := s[i];
      assert target[at..at + i] == s[..i];
    }
    target[at + |s|] := NUL;
  }
}
