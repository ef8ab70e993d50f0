/** Ports of handoff remotes: what the C library's `strtoul` with base 0 makes of every number
    that can be written, and which TLS mode may stand behind it. */
module PortNumbers {
  import opened Bytes
  import opened PathParsing
  import opened RemoteSpec

  /** How a number may be written. In base 8 the first digit is 0, in base 10 it is not, and in
      base 16 there is a prefix. */
  datatype Written = Written(sign: seq<byte>, radix: nat, upper: bool, digits: seq<nat>)

  ghost predicate Proper(w: Written) {
    && w.sign in {[], [PLUS], [MINUS]} && w.digits != []
    && (forall i :: 0 <= i < |w.digits| ==> w.digits[i] < w.radix)
    && (w.radix == 16 || (w.radix == 10 && w.digits[0] != 0) || (w.radix == 8 && w.digits[0] == 0))
  }

  function Character(d: nat, upper: bool): byte {
    if d < 16 then (if upper then Ascii("0123456789ABCDEF") else Ascii("0123456789abcdef"))[d] else NUL
  }

  function Characters(digits: seq<nat>, upper: bool): (s: seq<byte>)
    ensures |s| == |digits| && forall i :: 0 <= i < |s| ==> s[i] == Character(digits[i], upper)
  {
    seq(|digits|, i requires 0 <= i < |digits| => Character(digits[i], upper))
  }

  function Prefix(w: Written): seq<byte> {
    if w.radix != 16 then [] else if w.upper then Ascii("0X") else Ascii("0x")
  }

  /** What follows the number cannot belong to it. */
  ghost predicate Over(w: Written, rest: seq<byte>) {
    rest != [] ==>
      && DigitOf(rest[0]) >= w.radix
      && (w.digits == [0] && Is(rest, 0, 'x' as int as byte, 'X' as int as byte) && |rest| > 1 ==> DigitOf(rest[1]) >= 16)
  }

  /** The positional value. */
  function Value(digits: seq<nat>, radix: nat): nat {
    if digits == [] then 0 else Value(digits[..|digits| - 1], radix) * radix + digits[|digits| - 1]
  }

  /** What the number is worth: too large ones are the largest, negative ones wrap around. */
  function Worth(w: Written): nat {
    var value := Value(w.digits, w.radix);
    if value > 0xFFFF_FFFF_FFFF_FFFF then 0xFFFF_FFFF_FFFF_FFFF
    else if w.sign == [MINUS] && value > 0 then 0x1_0000_0000_0000_0000 - value
    else value
  }

  lemma CharacterRead(d: nat, upper: bool)
    requires d < 16
    ensures DigitOf(Character(d, upper)) == d && !IsSpace(Character(d, upper))
    ensures Character(d, upper) == ZERO <==> d == 0
    ensures Character(d, upper) != PLUS && Character(d, upper) != MINUS
    ensures Character(d, upper) != 'x' as int as byte && Character(d, upper) != 'X' as int as byte
  {
  }

  lemma {:induction false} DigitsRead(s: seq<byte>, pos: nat, w: Written, k: nat)
    requires Proper(w) && k <= |w.digits| && pos + |w.digits| <= |s|
    requires forall i :: pos <= i < pos + |w.digits| ==> s[i] == Character(w.digits[i - pos], w.upper)
    ensures ReadDigits(s, pos, w.radix, 0) == ReadDigits(s, pos + k, w.radix, Value(w.digits[..k], w.radix))
  {
    hide Character, DigitOf, ReadDigits;
    if k > 0 {
      DigitsRead(s, pos, w, k - 1);
      var before, d := Value(w.digits[..k - 1], w.radix), w.digits[k - 1];
      assert w.digits[..k][..k - 1] == w.digits[..k - 1];
      CharacterRead(d, w.upper);
      assert s[pos + (k - 1)] == Character(d, w.upper);
      OneDigit(s, pos + (k - 1), w.radix, before);
    }
  }

  lemma OneDigit(s: seq<byte>, pos: nat, radix: nat, acc: nat)
    requires pos < |s| && DigitOf(s[pos]) < radix
    ensures ReadDigits(s, pos, radix, acc) == ReadDigits(s, pos + 1, radix, acc * radix + DigitOf(s[pos]))
  {
  }

  lemma NoDigit(s: seq<byte>, pos: nat, radix: nat, acc: nat)
    requires pos <= |s| && (pos < |s| ==> DigitOf(s[pos]) >= radix)
    ensures ReadDigits(s, pos, radix, acc) == (acc, pos)
  {
  }

  /** The base that `StrToUl` takes at `start`. */
  ghost predicate Hexadecimal(s: seq<byte>, start: nat) {
    Is(s, start, ZERO, ZERO) && Is(s, start + 1, 'x' as int as byte, 'X' as int as byte)
    && start + 2 < |s| && DigitOf(s[start + 2]) < 16
  }

  lemma Behind(s: seq<byte>, start: nat, p: seq<byte>, d: seq<byte>, rest: seq<byte>)
    requires start <= |s| && s[start..] == p + d + rest
    ensures |s| == start + |p| + |d| + |rest|
    ensures forall i :: start <= i < start + |p| ==> s[i] == p[i - start]
    ensures forall i :: start + |p| <= i < start + |p| + |d| ==> s[i] == d[i - start - |p|]
    ensures forall i :: start + |p| + |d| <= i < |s| ==> s[i] == rest[i - start - |p| - |d|]
  {
    assert forall i :: start <= i < |s| ==> s[i] == s[start..][i - start];
  }

  lemma BaseTaken(s: seq<byte>, start: nat, w: Written, rest: seq<byte>)
    requires Proper(w) && Over(w, rest)
    requires start <= |s| && s[start..] == Prefix(w) + Characters(w.digits, w.upper) + rest
    ensures w.radix == 16 <==> Hexadecimal(s, start)
    ensures w.radix == 10 <==> !Is(s, start, ZERO, ZERO)
  {
    hide Character, DigitOf;
    var p, d := Prefix(w), Characters(w.digits, w.upper);
    Behind(s, start, p, d, rest);
    CharacterRead(w.digits[0], w.upper);
    if |w.digits| > 1 { CharacterRead(w.digits[1], w.upper); }
    if w.radix == 16 {
      assert s[start] == p[0] && s[start + 1] == p[1] && s[start + 2] == d[0];
    } else {
      assert p == [] && s[start] == d[0];
      if |w.digits| > 1 { assert s[start + 1] == d[1]; }
      if |w.digits| == 1 && start + 2 < |s| {
        assert s[start + 1] == rest[0] && s[start + 2] == rest[1];
        assert w.radix == 8 ==> w.digits == [0];
      }
    }
  }

  lemma DigitsTaken(s: seq<byte>, start: nat, w: Written, rest: seq<byte>)
    requires Proper(w) && Over(w, rest)
    requires start <= |s| && s[start..] == Prefix(w) + Characters(w.digits, w.upper) + rest
    ensures var (digits, end) := (start + |Prefix(w)|, start + |Prefix(w)| + |w.digits|);
            end <= |s| && ReadDigits(s, digits, w.radix, 0) == (Value(w.digits, w.radix), end)
  {
    hide Character, DigitOf, Prefix, ReadDigits;
    var p, d, n := Prefix(w), Characters(w.digits, w.upper), |w.digits|;
    Behind(s, start, p, d, rest);
    DigitsRead(s, start + |p|, w, n);
    assert w.digits[..n] == w.digits;
    NoDigit(s, start + |p| + n, w.radix, Value(w.digits, w.radix));
  }

  function Text(w: Written): seq<byte> { w.sign + (Prefix(w) + Characters(w.digits, w.upper)) }

  lemma FirstCharacter(w: Written)
    requires Proper(w)
    ensures var s := Prefix(w) + Characters(w.digits, w.upper);
            s != [] && !IsSpace(s[0]) && s[0] != PLUS && s[0] != MINUS
  {
    hide Character;
    CharacterRead(w.digits[0], w.upper);
  }

  /** The sign is taken. */
  lemma SignTaken(spaces: seq<byte>, w: Written, rest: seq<byte>)
    requires (forall i :: 0 <= i < |spaces| ==> IsSpace(spaces[i])) && Proper(w)
    ensures var (s, n) := (spaces + (Text(w) + rest), |spaces|);
            && SkipSpaces(s, 0) == n && n + |w.sign| <= |s|
            && (Is(s, n, PLUS, MINUS) <==> w.sign != []) && (Is(s, n, MINUS, MINUS) <==> w.sign == [MINUS])
            && s[n + |w.sign|..] == Prefix(w) + Characters(w.digits, w.upper) + rest
  {
    hide Prefix;
    FirstCharacter(w);
    var d, behind := Prefix(w) + Characters(w.digits, w.upper), Text(w) + rest;
    assert w.sign in {[], [PLUS], [MINUS]};
    assert behind[0] == if w.sign == [] then d[0] else w.sign[0];
    SpacesSkipped(spaces, behind, 0);
    assert (spaces + behind)[|spaces|] == behind[0];
    assert (spaces + behind)[|spaces| + |w.sign|..] == d + rest;
  }

  /** Every number that can be written, decimal, octal or hexadecimal, behind spaces and a
      sign, is read for what it is worth, up to where its digits end. */
  lemma NumbersRead(spaces: seq<byte>, w: Written, rest: seq<byte>)
    requires (forall i :: 0 <= i < |spaces| ==> IsSpace(spaces[i])) && Proper(w) && Over(w, rest)
    ensures StrToUl(spaces + (Text(w) + rest)) == (Worth(w), |spaces| + |Text(w)|)
  {
    hide ReadDigits, SkipSpaces, Is, DigitOf, Character, Value;
    var s, start := spaces + (Text(w) + rest), |spaces| + |w.sign|;
    SignTaken(spaces, w, rest);
    BaseTaken(s, start, w, rest);
    DigitsTaken(s, start, w, rest);
    assert Prefix(w) == [] || |Prefix(w)| == 2;
  }

  /** And where there are no digits, no number is. */
  lemma NoNumber(spaces: seq<byte>, sign: seq<byte>, rest: seq<byte>)
    requires (forall i :: 0 <= i < |spaces| ==> IsSpace(spaces[i])) && sign in {[], [PLUS], [MINUS]}
    requires rest != [] ==>
      DigitOf(rest[0]) >= 10 && (sign == [] ==> !IsSpace(rest[0]) && rest[0] != PLUS && rest[0] != MINUS)
    ensures StrToUl(spaces + (sign + rest)) == (0, 0)
  {
    hide SkipSpaces, DigitOf, ReadDigits;
    var s, behind, start := spaces + (sign + rest), sign + rest, |spaces| + |sign|;
    SpacesSkipped(spaces, behind, 0);
    assert behind != [] ==> s[|spaces|] == behind[0];
    assert s[start..] == rest;
    assert start < |s| ==> s[start] == s[start..][0];
    ZeroIsDigit();
    NoDigit(s, start, 10, 0);
  }

  lemma ZeroIsDigit()
    ensures DigitOf(ZERO) == 0
  {
  }

  // ------------------------------------------------------------ ports

  /** `s` is this word, in any mixture of letters of either case. */
  ghost predicate Spells(s: seq<byte>, word: seq<byte>) {
    |s| == |word| && forall i :: 0 <= i < |s| ==> s[i] == word[i] || (97 <= word[i] <= 122 && s[i] == word[i] - 32)
  }

  lemma ModeOf(suffix: seq<byte>)
    ensures TlsSuffix(suffix) ==
            if Spells(suffix, Ascii("/starttls")) then TlsNegotiate
            else if Spells(suffix, Ascii("/tls")) then TlsOnly
            else TlsNone
  {
    SpellsNoCase(suffix, Ascii("/starttls"));
    SpellsNoCase(suffix, Ascii("/tls"));
  }

  lemma SpellsNoCase(s: seq<byte>, word: seq<byte>)
    requires forall i :: 0 <= i < |word| ==> !(65 <= word[i] <= 90)
    ensures EqualNoCase(s, word) <==> Spells(s, word)
  {
    forall i | 0 <= i < |s| && i < |word|
      ensures ToLower(s[i]) == word[i] <==> (s[i] == word[i] || (97 <= word[i] <= 122 && s[i] == word[i] - 32))
    {
    }
  }

  /** A remote with a port: the number modulo 16 bits, a TLS mode behind a slash, where an
      unknown one counts as none; what is followed by anything else is refused. */
  lemma PortsRead(host: seq<byte>, auth: Option<seq<byte>>, spaces: seq<byte>, w: Written, rest: seq<byte>)
    requires COLON !in host
    requires (forall i :: 0 <= i < |spaces| ==> IsSpace(spaces[i])) && Proper(w) && Over(w, rest)
    ensures ParseHost(host + [COLON] + (spaces + (Text(w) + rest)), auth) ==
            if rest == [] then Remote(host, auth, Worth(w) % 65536, TlsNone)
            else if rest[0] == SLASH then
              Remote(host, auth, Worth(w) % 65536,
                     if Spells(rest, Ascii("/starttls")) then TlsNegotiate
                     else if Spells(rest, Ascii("/tls")) then TlsOnly
                     else TlsNone)
            else Failed
  {
    hide StrToUl, Proper, Over, Worth, Text, TlsSuffix, Spells, IndexOf, Ascii;
    var port, end := spaces + (Text(w) + rest), |spaces| + |Text(w)|;
    var s := host + [COLON] + port;
    IndexOfPrefix(host, COLON, port);
    assert s[..|host|] == host && s[|host| + 1..] == port;
    NumbersRead(spaces, w, rest);
    assert port[end..] == rest;
    assert rest != [] ==> port[end] == rest[0];
    ModeOf(rest);
  }
}
