/** Handoff remotes: `remote_parse` takes `[user:password@]host[:port[/mode]]`
    apart and prepares the PLAIN response that `sasl_continue` of the peer reads. */
module RemoteSpec {
  import opened Bytes
  import opened StringReplace
  import opened Base64
  import opened Sasl
  import opened PathParsing

  datatype TlsMode = TlsNone | TlsOnly | TlsNegotiate

  datatype Port = Port(number: nat, tls: TlsMode)

  datatype DeliveryMode = Domain | Handoff

  datatype Remote =
    | Remote(host: seq<byte>, auth: Option<seq<byte>>, port: nat, tls: TlsMode)
    | Failed

  // -------------------------------------------------------------------- numbers

  const ULONG_MAX: nat := 0xFFFF_FFFF_FFFF_FFFF

  function DigitOf(b: byte): nat {
    var n := b as int;
    if '0' as int <= n <= '9' as int then n - '0' as int
    else if 'a' as int <= n <= 'z' as int then n - 'a' as int + 10
    else if 'A' as int <= n <= 'Z' as int then n - 'A' as int + 10
    else 99
  }

  /** The digits from `pos` on, and where they end. */
  function ReadDigits(s: seq<byte>, pos: nat, radix: nat, acc: nat): (r: (nat, nat))
    requires pos <= |s|
    ensures pos <= r.1 <= |s|
    decreases |s| - pos
  {
    if pos < |s| && DigitOf(s[pos]) < radix then ReadDigits(s, pos + 1, radix, acc * radix + DigitOf(s[pos]))
    else (acc, pos)
  }

  predicate Is(s: seq<byte>, pos: nat, a: byte, b: byte) { pos < |s| && (s[pos] == a || s[pos] == b) }

  const ZERO: byte := '0' as int as byte
  const PLUS: byte := '+' as int as byte
  const MINUS: byte := '-' as int as byte

  /** The C library's `strtoul` with base 0: the value and the index behind the
      number, or the start when there is no number. */
  function StrToUl(s: seq<byte>): (r: (nat, nat))
    ensures r.0 <= ULONG_MAX && r.1 <= |s|
  {
    var sign := SkipSpaces(s, 0);
    var start := if Is(s, sign, PLUS, MINUS) then sign + 1 else sign;
    var hex := Is(s, start, ZERO, ZERO) && Is(s, start + 1, 'x' as int as byte, 'X' as int as byte)
               && start + 2 < |s| && DigitOf(s[start + 2]) < 16;
    var digits := if hex then start + 2 else start;
    var radix := if hex then 16 else if Is(s, start, ZERO, ZERO) then 8 else 10;
    var (value, end) := ReadDigits(s, digits, radix, 0);
    if end == digits then (0, 0)
    else if value > ULONG_MAX then (ULONG_MAX, end)
    else if Is(s, sign, MINUS, MINUS) && value > 0 then (ULONG_MAX + 1 - value, end)
    else (value, end)
  }

  // ------------------------------------------------------------------ the parser

  /** The credentials moved back by one byte, their first colon and the byte
      gained replaced by NUL, one terminator behind them. */
  function PlainMessage(a: seq<byte>): (r: seq<byte>)
    ensures |r| == |a| + 2
  {
    var moved := [if a == [] then NUL else a[0]] + a + [NUL];
    var colon := if a == [] then -1 else IndexOf([a[0]] + a, COLON);
    (if colon < 0 then moved else moved[colon := NUL])[0 := NUL]
  }

  function ToLower(b: byte): byte { if 65 <= b <= 90 then b + 32 else b }

  /** `strcasecmp` against a lower-case literal. */
  predicate EqualNoCase(s: seq<byte>, literal: seq<byte>) {
    |s| == |literal| && forall i :: 0 <= i < |s| ==> ToLower(s[i]) == literal[i]
  }

  function TlsSuffix(s: seq<byte>): TlsMode {
    if EqualNoCase(s, Ascii("/starttls")) then TlsNegotiate
    else if EqualNoCase(s, Ascii("/tls")) then TlsOnly
    else TlsNone
  }

  /** A port, taken modulo 16 bits, and a TLS mode; anything else may not follow. */
  function ParsePort(text: seq<byte>): Option<Port> {
    var (port, end) := StrToUl(text);
    if end == |text| then Some(Port(port % 65536, TlsNone))
    else if text[end] == SLASH then Some(Port(port % 65536, TlsSuffix(text[end..])))
    else None
  }

  function ParseHost(host: seq<byte>, auth: Option<seq<byte>>): Remote {
    var colon := IndexOf(host, COLON);
    if colon < 0 then Remote(host, auth, 0, TlsNone)
    else
      match ParsePort(host[colon + 1..])
      case Some(p) => Remote(host[..colon], auth, p.number, p.tls)
      case None => Failed
  }

  function ParseSpec(mode: DeliveryMode, spec: seq<byte>): Remote {
    if mode.Domain? then Remote(spec, None, 0, TlsNone)
    else
      var at := IndexOf(spec, AT);
      if at < 0 then ParseHost(spec, None)
      else ParseHost(spec[at + 1..], Some(Encode(PlainMessage(spec[..at]))))
  }

  /** `remote_parse`, filling the fields of a remote that was reset. */
  class RemoteEntry {
    var host: seq<byte>
    var remoteAuth: Option<seq<byte>>
    var forcedPort: nat
    var tlsMode: TlsMode

    constructor ()
      ensures host == [] && remoteAuth == None && forcedPort == 0 && tlsMode == TlsNone
    {
      host, remoteAuth, forcedPort, tlsMode := [], None, 0, TlsNone;
    }

    method Parse(mode: DeliveryMode, spec: seq<byte>) returns (status: int)
      requires NUL !in spec
      requires remoteAuth == None && forcedPort == 0 && tlsMode == TlsNone
      modifies this
      ensures status == if ParseSpec(mode, spec).Failed? then -1 else 0
      ensures status == 0 ==> ParseSpec(mode, spec) == Remote(host, remoteAuth, forcedPort, tlsMode)
    {
      hide ParseHost, IndexOf, PlainMessage, Encode;
      var rest := spec;
      if mode.Handoff? {
        var separator := IndexOf(spec, AT);
        if separator >= 0 {
          var response := PrepareResponse(spec[..separator]);
          remoteAuth := Some(response);
          rest := spec[separator + 1..];
        }
        status := TakeHost(rest);
        return;
      }
      host := spec;
      return 0;
    }

    method TakeHost(text: seq<byte>) returns (status: int)
      requires forcedPort == 0 && tlsMode == TlsNone
      modifies this`host, this`forcedPort, this`tlsMode
      ensures status == if ParseHost(text, remoteAuth).Failed? then -1 else 0
      ensures status == 0 ==> ParseHost(text, remoteAuth) == Remote(host, remoteAuth, forcedPort, tlsMode)
    {
      hide ParsePort, IndexOf;
      host := text;
      var separator := IndexOf(host, COLON);
      if separator < 0 {
        return 0;
      }
      host := text[..separator];
      status := TakePort(text[separator + 1..]);
    }

    /** The port specification behind the host. */
    method TakePort(text: seq<byte>) returns (status: int)
      requires tlsMode == TlsNone
      modifies this`forcedPort, this`tlsMode
      ensures status == if ParsePort(text).None? then -1 else 0
      ensures status == 0 ==> ParsePort(text) == Some(Port(forcedPort, tlsMode))
    {
      hide StrToUl, TlsSuffix;
      var (port, end) := StrToUl(text);
      forcedPort := port % 65536;
      if end < |text| && text[end] == SLASH {
        tlsMode := TlsSuffix(text[end..]);
      } else if end < |text| {
        return -1;
      }
      return 0;
    }
  }

  /** The SASL response, made in the buffer of the credentials. */
  method PrepareResponse(a: seq<byte>) returns (response: seq<byte>)
    requires NUL !in a
    ensures response == Encode(PlainMessage(a))
  {
    var auth := new byte[|a| + 2](i => NUL);
    Overwrite(auth, 0, a);
    MoveBack(auth, |a| + 1);
    assert auth[..] == [if a == [] then NUL else a[0]] + a + [NUL];
    var text := if a == [] then [] else [auth[0]] + a;
    var separator := IndexOf(text, COLON);
    if separator >= 0 {
      auth[separator] := NUL;
    }
    auth[0] := NUL;
    assert auth[..] == PlainMessage(a);
    var encoded := EncodeInPlace(auth[..]);
    response := encoded[..encoded.Length - 1];
  }

  /** `memmove` of the first `count` bytes one place to the back: the ranges
      overlap, so the last byte moves first. */
  method MoveBack(buffer: array<byte>, count: nat)
    requires count < buffer.Length
    modifies buffer
    ensures forall i :: 1 <= i <= count ==> buffer[i] == old(buffer[..])[i - 1]
    ensures count > 0 ==> buffer[0] == old(buffer[0])
    ensures forall i :: count < i < buffer.Length ==> buffer[i] == old(buffer[..])[i]
  {
    ghost var o := buffer[..];
    var i := count;
    while i > 0
      invariant 0 <= i <= count
      invariant forall k :: i < k <= count ==> buffer[k] == o[k - 1]
      invariant forall k :: 0 <= k <= i || count < k < |o| ==> buffer[k] == o[k]
    {
      buffer[i] := buffer[i - 1];
      i := i - 1;
    }
  }

  // ----------------------------------------------------------------- round trip

  function Decimal(n: nat): (s: seq<byte>)
    ensures s != [] && (forall i :: 0 <= i < |s| ==> DigitOf(s[i]) < 10)
    ensures n > 0 ==> s[0] != ZERO
    ensures n == 0 ==> s == [ZERO]
  {
    if n < 10 then [(48 + n) as byte] else Decimal(n / 10) + [(48 + n % 10) as byte]
  }

  /** One more digit. */
  lemma DigitRead(s: seq<byte>, pos: nat, acc: nat, digit: nat)
    requires pos < |s| && digit < 10 && s[pos] == (48 + digit) as byte
    ensures ReadDigits(s, pos, 10, acc) == ReadDigits(s, pos + 1, 10, acc * 10 + digit)
  {
  }

  lemma {:induction false} ReadDecimal(n: nat, pos: nat, s: seq<byte>)
    requires pos + |Decimal(n)| <= |s| && s[pos..pos + |Decimal(n)|] == Decimal(n)
    ensures ReadDigits(s, pos, 10, 0) == ReadDigits(s, pos + |Decimal(n)|, 10, n)
    decreases n
  {
    hide ReadDigits, DigitOf;
    var d := Decimal(n);
    assert s[pos + |d| - 1] == s[pos..pos + |d|][|d| - 1] == d[|d| - 1];
    if n < 10 {
      DigitRead(s, pos, 0, n);
    } else {
      var q := Decimal(n / 10);
      assert s[pos..pos + |q|] == s[pos..pos + |d|][..|q|] == q;
      ReadDecimal(n / 10, pos, s);
      DigitRead(s, pos + |q|, n / 10, n % 10);
    }
  }

  /** What may follow a printed port: nothing or a TLS mode. */
  function PrintedMode(tls: TlsMode): (s: seq<byte>)
    ensures s != [] ==> s[0] == SLASH
    ensures s == [] <==> tls.TlsNone?
    ensures AT !in s && COLON !in s
  {
    match tls
    case TlsNone => []
    case TlsOnly => Ascii("/tls")
    case TlsNegotiate => Ascii("/starttls")
  }

  datatype Account = Account(user: seq<byte>, password: seq<byte>)

  function PrintedPort(p: Option<Port>): seq<byte> {
    if p.None? then [] else [COLON] + Decimal(p.value.number) + PrintedMode(p.value.tls)
  }

  function PrintedAccount(a: Option<Account>): seq<byte> {
    if a.None? then [] else a.value.user + [COLON] + a.value.password + [AT]
  }

  function PrintedSpec(account: Option<Account>, host: seq<byte>, port: Option<Port>): seq<byte> {
    PrintedAccount(account) + (host + PrintedPort(port))
  }

  ghost predicate Printable(account: Option<Account>, host: seq<byte>, port: Option<Port>) {
    && COLON !in host && AT !in host
    && (account.Some? ==>
          && account.value.user != [] && COLON !in account.value.user && AT !in account.value.user
          && NUL !in account.value.user
          && AT !in account.value.password && NUL !in account.value.password)
    && (port.Some? ==> port.value.number < 65536)
  }

  lemma ModeRead(tls: TlsMode)
    ensures TlsSuffix(PrintedMode(tls)) == tls
  {
    var s := PrintedMode(tls);
    if tls.TlsNegotiate? {
      assert |s| == |Ascii("/starttls")|;
    } else if tls.TlsOnly? {
      assert |s| == |Ascii("/tls")| && |s| != |Ascii("/starttls")|;
    }
  }

  /** A printed port is read back, with its mode left over. */
  lemma PortRead(p: Port)
    requires p.number < 65536
    ensures StrToUl(Decimal(p.number) + PrintedMode(p.tls)) == (p.number, |Decimal(p.number)|)
  {
    var d, m := Decimal(p.number), PrintedMode(p.tls);
    var s := d + m;
    assert s[0] == d[0];
    assert s[0..0 + |d|] == d;
    if p.number > 0 {
      ReadDecimal(p.number, 0, s);
    } else {
      assert ReadDigits(s, 0, 8, 0) == ReadDigits(s, 1, 8, 0);
    }
  }

  lemma HostShape(host: seq<byte>, d: seq<byte>, m: seq<byte>)
    ensures var s := host + ([COLON] + d + m);
            && s == host + [COLON] + (d + m) && s[..|host|] == host && s[|host| + 1..] == d + m && (d + m)[|d|..] == m
  {
  }

  lemma HostRead(host: seq<byte>, port: Option<Port>, auth: Option<seq<byte>>)
    requires COLON !in host && (port.Some? ==> port.value.number < 65536)
    ensures ParseHost(host + PrintedPort(port), auth)
         == Remote(host, auth, if port.Some? then port.value.number else 0, if port.Some? then port.value.tls else TlsNone)
  {
    hide ParsePort, IndexOf, Decimal, PrintedMode;
    if port.None? {
      assert host + [] == host;
    } else {
      var d, m := Decimal(port.value.number), PrintedMode(port.value.tls);
      HostShape(host, d, m);
      IndexOfPrefix(host, COLON, d + m);
      PortParsed(port.value);
    }
  }

  lemma PortParsed(p: Port)
    requires p.number < 65536
    ensures ParsePort(Decimal(p.number) + PrintedMode(p.tls)) == Some(p)
  {
    hide StrToUl, TlsSuffix, Decimal, PrintedMode;
    var d, m := Decimal(p.number), PrintedMode(p.tls);
    assert (d + m)[|d|..] == m;
    PortRead(p);
    ModeRead(p.tls);
  }

  lemma MessageOf(a: Account)
    requires a.user != [] && COLON !in a.user
    ensures PlainMessage(a.user + [COLON] + a.password) == [NUL] + a.user + [NUL] + a.password + [NUL]
  {
    hide IndexOf;
    var text := a.user + [COLON] + a.password;
    assert [text[0]] + text == ([a.user[0]] + a.user) + [COLON] + a.password;
    IndexOfPrefix([a.user[0]] + a.user, COLON, a.password);
  }

  /** A domain is taken as it is. In the spec of a handoff what stands in front of the first
      '@', even if that is nothing, is credentials, and all behind it host and port. */
  lemma SpecTaken(front: seq<byte>, host: seq<byte>)
    requires AT !in front
    ensures ParseSpec(Domain, host) == Remote(host, None, 0, TlsNone)
    ensures ParseSpec(Handoff, front) == ParseHost(front, None)
    ensures ParseSpec(Handoff, front + [AT] + host) == ParseHost(host, Some(Encode(PlainMessage(front))))
  {
    hide ParseHost, Encode, PlainMessage, IndexOf;
    var s := front + [AT] + host;
    IndexOfPrefix(front, AT, host);
    assert s[..|front|] == front && s[|front| + 1..] == host;
  }

  /** Credentials without a colon, or with one in front, are not taken apart: the byte that is
      gained holds a copy of the first, and the colon found there is overwritten. */
  lemma NotTakenApart(a: seq<byte>)
    requires COLON !in a || a[0] == COLON
    ensures PlainMessage(a) == [NUL] + a + [NUL]
  {
    if a != [] && a[0] == COLON { IndexOfPrefix([], COLON, a); }
  }

  /** The peer's mechanism finds in an encoded message what was put there. */
  lemma ResponseRead(user: seq<byte>, password: seq<byte>)
    requires user != [] && NUL !in user && NUL !in password
    ensures Response(Encode([NUL] + user + [NUL] + password + [NUL])) == Credentials(user, password)
  {
    var m := [NUL] + user + [NUL] + password + [NUL];
    EncodeDecodable(m);
    EncodeDecode(m);
    EncodedBuffer(m);
    MessageShape(user, password);
    MessageAccepted(m, 0, |user|, |password|, Decoded(Encode(m)));
  }

  lemma MessageShape(user: seq<byte>, password: seq<byte>)
    requires user != [] && NUL !in user && NUL !in password
    ensures var m := [NUL] + user + [NUL] + password + [NUL];
            MessageAt(m, 0, |user|, |password|) && Parts(m, 0, |user|, |password|) == Credentials(user, password)
  {
    var m := [NUL] + user + [NUL] + password + [NUL];
    assert m[1..1 + |user|] == user;
    assert m[|user| + 2..|user| + 2 + |password|] == password;
    assert forall j :: 1 <= j < 1 + |user| ==> m[j] == user[j - 1];
    assert forall j :: |user| + 2 <= j < |user| + 2 + |password| ==> m[j] == password[j - |user| - 2];
  }

  /** The main result: a printed remote is parsed back to its host, port and mode,
      and the credentials it carries reach the peer unchanged. */
  lemma RemoteRoundTrip(account: Option<Account>, host: seq<byte>, port: Option<Port>)
    requires Printable(account, host, port)
    ensures var r := ParseSpec(Handoff, PrintedSpec(account, host, port));
            && r.Remote? && r.host == host
            && r.port == (if port.Some? then port.value.number else 0)
            && r.tls == (if port.Some? then port.value.tls else TlsNone)
            && r.auth.Some? == account.Some?
            && (account.Some? ==> Response(r.auth.value) == Credentials(account.value.user, account.value.password))
  {
    hide ParseHost, PlainMessage, Encode, Response, IndexOf, PrintedPort;
    var rest := host + PrintedPort(port);
    if account.None? {
      assert PrintedSpec(account, host, port) == rest;
      assert AT !in rest by { PortHasNoAt(port); }
      HostRead(host, port, None);
    } else {
      var a := account.value;
      var text := a.user + [COLON] + a.password;
      var spec := PrintedSpec(account, host, port);
      assert spec == text + [AT] + rest;
      IndexOfPrefix(text, AT, rest);
      assert spec[..|text|] == text && spec[|text| + 1..] == rest;
      HostRead(host, port, Some(Encode(PlainMessage(text))));
      MessageOf(a);
      ResponseRead(a.user, a.password);
    }
  }

  lemma PortHasNoAt(port: Option<Port>)
    ensures AT !in PrintedPort(port)
  {
    if port.Some? {
      var d := Decimal(port.value.number);
      forall i | 0 <= i < |d| ensures d[i] != AT { assert DigitOf(d[i]) < 10; }
    }
  }
}
