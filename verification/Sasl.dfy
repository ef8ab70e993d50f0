/** The PLAIN mechanism: how a response is taken apart (section 2 of RFC 4616). */
module Sasl {
  import opened Bytes
  import opened StringReplace
  import opened Base64

  datatype Plain = Credentials(user: seq<byte>, password: seq<byte>) | Malformed

  /** The decoded response lies in a buffer that ends in a terminator; `length`
      bytes of it, one more than the message has, may be read. */
  function TakeApart(buffer: seq<byte>, length: int): Plain
    requires length <= |buffer|
  {
    if length < 4 then Malformed else
    var user := StrLen(buffer, 0) + 1;
    if user >= length || StrLen(buffer, user) < 1 || user + StrLen(buffer, user) >= length then Malformed else
    var password := user + StrLen(buffer, user) + 1;
    if password >= length || password + StrLen(buffer, password) >= length then Malformed else
    Credentials(buffer[user..user + StrLen(buffer, user)], buffer[password..password + StrLen(buffer, password)])
  }

  ghost predicate NulFree(s: seq<byte>, from: nat, to: nat)
    requires from <= to <= |s|
  {
    forall j :: from <= j < to ==> s[j] != NUL
  }

  /** An authorization identity of `z` bytes, an authentication identity of `u` > 0 and
      a password of `p`, with NUL between them; the message may go on behind another NUL. */
  ghost predicate MessageAt(m: seq<byte>, z: nat, u: nat, p: nat) {
    && 0 < u && z + u + p + 2 <= |m|
    && NulFree(m, 0, z) && m[z] == NUL
    && NulFree(m, z + 1, z + 1 + u) && m[z + 1 + u] == NUL
    && NulFree(m, z + u + 2, z + u + 2 + p) && (z + u + 2 + p == |m| || m[z + u + 2 + p] == NUL)
  }

  /** A message as section 2 of RFC 4616 has it: a password of at least one byte ends it. */
  ghost predicate RfcMessageAt(m: seq<byte>, z: nat, u: nat, p: nat) {
    MessageAt(m, z, u, p) && p > 0 && z + u + p + 2 == |m|
  }

  function Parts(m: seq<byte>, z: nat, u: nat, p: nat): Plain
    requires z + u + p + 2 <= |m|
  {
    Credentials(m[z + 1..z + 1 + u], m[z + u + 2..z + u + 2 + p])
  }

  /** The buffer that is taken apart: the message, and behind it at least a terminator. */
  ghost predicate Holding(m: seq<byte>, buffer: seq<byte>) {
    |m| < |buffer| && buffer[..|m|] == m && buffer[|buffer| - 1] == NUL
  }

  /** A message whose last string ends in it or right behind it. */
  ghost predicate EndsAt(m: seq<byte>, z: nat, u: nat, p: nat, behind: byte) {
    MessageAt(m, z, u, p) && (z + u + p + 2 == |m| ==> behind == NUL)
  }

  lemma PartLength(m: seq<byte>, buffer: seq<byte>, at: nat, n: nat)
    requires Holding(m, buffer) && at + n <= |m| && NulFree(m, at, at + n)
    requires if at + n == |m| then buffer[|m|] == NUL else m[at + n] == NUL
    ensures StrLen(buffer, at) == n && buffer[at..at + n] == m[at..at + n]
  {
    assert forall j :: 0 <= j < |m| ==> buffer[j] == m[j];
    StrLenIs(buffer, at, at + n);
    SameSlice(buffer, m, at, at + n);
  }

  /** Every such message is taken apart into its identity and password. */
  lemma MessageAccepted(m: seq<byte>, z: nat, u: nat, p: nat, buffer: seq<byte>)
    requires Holding(m, buffer) && EndsAt(m, z, u, p, buffer[|m|])
    ensures TakeApart(buffer, |m| + 1) == Parts(m, z, u, p)
  {
    hide StrLen;
    PartLength(m, buffer, 0, z);
    PartLength(m, buffer, z + 1, u);
    PartLength(m, buffer, z + u + 2, p);
  }

  lemma SameSlice(s: seq<byte>, prefix: seq<byte>, a: nat, b: nat)
    requires a <= b <= |prefix| <= |s| && s[..|prefix|] == prefix
    ensures s[a..b] == prefix[a..b]
  {
    assert s[..|prefix|][a..b] == s[a..b];
  }

  /** What was taken apart was such a message. */
  lemma AcceptedMessage(m: seq<byte>, buffer: seq<byte>) returns (z: nat, u: nat, p: nat)
    requires Holding(m, buffer) && TakeApart(buffer, |m| + 1).Credentials?
    ensures EndsAt(m, z, u, p, buffer[|m|])
  {
    assert forall j :: 0 <= j < |m| ==> buffer[j] == m[j];
    z := StrLen(buffer, 0);
    u := StrLen(buffer, z + 1);
    p := StrLen(buffer, z + u + 2);
  }

  /** What the decoder leaves in front of its last terminator. */
  function Decoded(text: seq<byte>): seq<byte> { Octets(text) + [NUL] }

  /** `sasl_continue` for PLAIN: the answer to a base64 text. */
  ghost function Response(text: seq<byte>): Plain {
    if Decodable(text) then (DecodedSize(text); TakeApart(Decoded(text), DecodedLength(text) + 1)) else Malformed
  }

  lemma DecodedHolds(text: seq<byte>)
    requires Decodable(text)
    ensures Holding(Decode(text).value, Decoded(text)) && |Decode(text).value| == DecodedLength(text)
  {
    DecodedSize(text);
    assert Decoded(text)[..DecodedLength(text)] == Octets(text)[..DecodedLength(text)];
  }

  /** For every text: it is accepted if and only if it is base64 for a message, in this
      wider sense, and no stray bits follow a message that its password ends. What is
      accepted yields that identity and password. */
  lemma AcceptsExactlyMessages(text: seq<byte>)
    ensures Response(text).Credentials? <==>
            Decodable(text)
            && exists z, u, p :: EndsAt(Decode(text).value, z, u, p, Decoded(text)[DecodedLength(text)])
    ensures forall z, u, p ::
              Decodable(text) && EndsAt(Decode(text).value, z, u, p, Decoded(text)[DecodedLength(text)]) ==>
              Response(text) == Parts(Decode(text).value, z, u, p)
  {
    hide TakeApart, Decodable, Octets, NulFree;
    if Decodable(text) {
      var m, b := Decode(text).value, Decoded(text);
      DecodedHolds(text);
      DecodedSize(text);
      if TakeApart(b, |m| + 1).Credentials? { var z, u, p := AcceptedMessage(m, b); }
      forall z: nat, u: nat, p: nat | EndsAt(m, z, u, p, b[|m|]) ensures TakeApart(b, |m| + 1) == Parts(m, z, u, p) {
        MessageAccepted(m, z, u, p, b);
      }
    }
  }

  /** Every message of the standard that a peer encodes is accepted and understood. */
  lemma RfcMessagesAccepted(m: seq<byte>, z: nat, u: nat, p: nat)
    requires RfcMessageAt(m, z, u, p)
    ensures Response(Encode(m)) == Parts(m, z, u, p)
  {
    hide TakeApart, Octets, Encode;
    EncodeDecodable(m);
    EncodeDecode(m);
    EncodedBuffer(m);
    DecodedSize(Encode(m));
    MessageAccepted(m, z, u, p, Decoded(Encode(m)));
  }

  /** The decoder leaves a terminator right behind an encoded message. */
  lemma EncodedBuffer(m: seq<byte>)
    requires m != []
    ensures var b := Decoded(Encode(m)); Holding(m, b) && b[|m|] == NUL
  {
    var o := Octets(Encode(m));
    EncodeDecodable(m);
    EncodeDecode(m);
    DecodedSize(Encode(m));
    assert Decoded(Encode(m))[..|m|] == o[..|m|];
    if |m| < |o| { OctetBack(m, |m|); }
  }

  /** The standard's messages are not all: an empty password passes, as in "AHUA". */
  lemma EmptyPasswordPasses()
    ensures Response(Ascii("AHUA")) == Credentials([117], [])
  {
    hide Octets, Decodable, DecodedLength, Ascii, TakeApart;
    EmptyPasswordDecoded();
    assert Decoded(Ascii("AHUA")) == [0, 117, 0, NUL];
    EmptyPasswordTaken([0, 117, 0, NUL]);
  }

  lemma EmptyPasswordTaken(buffer: seq<byte>)
    requires buffer == [0, 117, 0, NUL]
    ensures TakeApart(buffer, 4) == Credentials([117], [])
  {
    hide StrLen;
    ThreeStrings(buffer, 2, 3);
    assert buffer[1..2] == [117] && buffer[3..3] == [];
  }

  lemma EmptyPasswordDecoded()
    ensures var text := Ascii("AHUA"); Decodable(text) && DecodedLength(text) == 3 && Octets(text) == [0, 117, 0]
  {
    hide OctetOf;
    var text := Ascii("AHUA");
    assert text == [65, 72, 85, 65];
    assert Index(65) == 0 && Index(72) == 7 && Index(85) == 20;
    assert OctetsUpTo(text, 0) == [];
    FirstOctets();
  }

  lemma FirstOctets()
    ensures OctetOf(0, 7, 20, 0, 0) == 0 && OctetOf(0, 7, 20, 0, 1) == 117 && OctetOf(0, 7, 20, 0, 2) == 0
    ensures OctetOf(28, 1, 0, 0, 0) == 112 && OctetOf(28, 1, 0, 0, 1) == 16 && OctetOf(28, 1, 0, 0, 2) == 0
  {
  }

  /** A message with a stray bit behind it is refused: "AHUAcB==" decodes to a NUL, "u",
      a NUL and "p", but its password does not end there. */
  lemma StrayBitsRefused()
    ensures var text := Ascii("AHUAcB==");
            Decodable(text) && MessageAt(Decode(text).value, 0, 1, 1) && Response(text) == Malformed
  {
    hide Octets, Decodable, DecodedLength, Ascii, TakeApart;
    StrayBitDecoded();
    assert Decoded(Ascii("AHUAcB==")) == [0, 117, 0, 112, 16, 0, NUL];
    StrayBitTaken([0, 117, 0, 112, 16, 0, NUL]);
  }

  lemma StrayBitTaken(buffer: seq<byte>)
    requires buffer == [0, 117, 0, 112, 16, 0, NUL]
    ensures TakeApart(buffer, 5) == Malformed
  {
    hide StrLen;
    ThreeStrings(buffer, 2, 5);
  }

  lemma StrayBitDecoded()
    ensures var text := Ascii("AHUAcB==");
            Decodable(text) && DecodedLength(text) == 4 && Octets(text) == [0, 117, 0, 112, 16, 0]
  {
    hide Octets, Decodable, PadStart;
    var text := Ascii("AHUAcB==");
    assert text == [65, 72, 85, 65, 99, 66, 61, 61];
    StrayBitsAccepted(text);
    StrayBitsOctets(text);
  }

  lemma StrayBitsAccepted(text: seq<byte>)
    requires text == [65, 72, 85, 65, 99, 66, 61, 61]
    ensures Decodable(text) && DecodedLength(text) == 4
  {
    hide Index;
    ExampleDigits();
    PadStartIs(text, 0, 6);
  }

  lemma StrayBitsOctets(text: seq<byte>)
    requires text == [65, 72, 85, 65, 99, 66, 61, 61]
    ensures Octets(text) == [0, 117, 0, 112, 16, 0]
  {
    hide OctetOf, Octets, OctetAt, Index;
    ExampleDigits();
    TwoGroups(text);
    GroupIs(text, 0, 0, 7, 20, 0);
    GroupIs(text, 1, 28, 1, 0, 0);
    FirstOctets();
  }

  lemma ExampleDigits()
    ensures Index(65) == 0 && Index(72) == 7 && Index(85) == 20 && Index(99) == 28 && Index(66) == 1 && Digit(61) == 0
  {
  }

  lemma TwoGroups(text: seq<byte>)
    requires |text| == 8
    ensures Octets(text) == [OctetAt(text, 0, 0), OctetAt(text, 0, 1), OctetAt(text, 0, 2),
                             OctetAt(text, 1, 0), OctetAt(text, 1, 1), OctetAt(text, 1, 2)]
  {
    hide OctetAt;
    assert OctetsUpTo(text, 0) == [];
    assert OctetsUpTo(text, 1) == [OctetAt(text, 0, 0), OctetAt(text, 0, 1), OctetAt(text, 0, 2)];
  }

  /** Lengths of the strings in a buffer that begins with NUL, whose second string ends
      at `a` and whose third ends at `b`. */
  lemma ThreeStrings(buffer: seq<byte>, a: nat, b: nat)
    requires 1 < a < b < |buffer| && buffer[0] == NUL && buffer[a] == NUL && buffer[b] == NUL
    requires NulFree(buffer, 1, a) && NulFree(buffer, a + 1, b)
    ensures StrLen(buffer, 0) == 0 && StrLen(buffer, 1) == a - 1 && StrLen(buffer, a + 1) == b - a - 1
  {
    StrLenIs(buffer, 0, 0);
    StrLenIs(buffer, 1, a);
    StrLenIs(buffer, a + 1, b);
  }

  /** The response lies at the buffer's front and is decoded there. */
  method SaslContinue(buffer: array<byte>, size: nat) returns (answer: Plain)
    requires size < buffer.Length && buffer[size] == NUL && NUL !in buffer[..size]
    modifies buffer
    ensures answer == Response(old(buffer[..size]))
  {
    ghost var text := buffer[..size];
    var length := DecodeInPlace(buffer, size);
    if length < 0 {
      return Malformed;
    }
    DecodedSize(text);
    assert buffer[..|Decoded(text)|] == Decoded(text);
    answer := TakeApartInPlace(buffer, length + 1, Decoded(text));
  }

  method TakeApartInPlace(buffer: array<byte>, length: int, ghost decoded: seq<byte>) returns (answer: Plain)
    requires length <= |decoded| <= buffer.Length && buffer[..|decoded|] == decoded
    requires decoded != [] && decoded[|decoded| - 1] == NUL
    ensures answer == TakeApart(decoded, length)
  {
    if length < 4 {
      return Malformed;
    }
    var n := Length(buffer, 0, decoded);
    var user := n + 1;
    if user >= length {
      return Malformed;
    }
    n := Length(buffer, user, decoded);
    if n < 1 || user + n >= length {
      return Malformed;
    }
    var name := Copy(buffer, user, n, decoded);
    var password := user + n + 1;
    if password >= length {
      return Malformed;
    }
    n := Length(buffer, password, decoded);
    if password + n >= length {
      return Malformed;
    }
    var word := Copy(buffer, password, n, decoded);
    return Credentials(name, word);
  }

  /** Strings that begin in a terminated prefix of the buffer end in it. */
  method Length(buffer: array<byte>, at: nat, ghost prefix: seq<byte>) returns (n: nat)
    requires at < |prefix| <= buffer.Length && buffer[..|prefix|] == prefix && prefix[|prefix| - 1] == NUL
    ensures n == StrLen(prefix, at) && at + n < |prefix|
  {
    assert forall j :: 0 <= j < |prefix| ==> buffer[..][j] == prefix[j];
    StrLenIs(buffer[..], at, at + StrLen(prefix, at));
    n := StrLen(buffer[..], at);
  }

  method Copy(buffer: array<byte>, at: nat, n: nat, ghost prefix: seq<byte>) returns (s: seq<byte>)
    requires at + n <= |prefix| <= buffer.Length && buffer[..][..|prefix|] == prefix
    ensures s == prefix[at..at + n]
  {
    s := buffer[at..at + n];
    SameSlice(buffer[..], prefix, at, at + n);
  }
}
