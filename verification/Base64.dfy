/** Base64 in one buffer: the encoder works from the back to the front, the
    decoder from the front to the back (section 4 of RFC 4648). */
module Base64 {
  import opened Bytes

  /** The alphabet string, and the search of a character in it. */
  function Letter(d: nat): (c: byte)
    requires d < 64
    ensures c != EQUALS && c != NUL
  {
    if d < 26 then ('A' as int + d) as byte
    else if d < 52 then ('a' as int + (d - 26)) as byte
    else if d < 62 then ('0' as int + (d - 52)) as byte
    else if d == 62 then '+' as int as byte
    else '/' as int as byte
  }

  function Index(c: byte): (d: int)
    ensures -1 <= d < 64 && (d >= 0 ==> Letter(d) == c)
  {
    var n := c as int;
    if 'A' as int <= n <= 'Z' as int then n - 'A' as int
    else if 'a' as int <= n <= 'z' as int then n - 'a' as int + 26
    else if '0' as int <= n <= '9' as int then n - '0' as int + 52
    else if n == '+' as int then 62
    else if n == '/' as int then 63
    else -1
  }

  /** It is that of table 1 of RFC 4648. */
  lemma AlphabetOfTheStandard(d: nat)
    ensures d < 26 ==> Letter(d) == Ascii("ABCDEFGHIJKLMNOPQRSTUVWXYZ")[d]
    ensures 26 <= d < 52 ==> Letter(d) == Ascii("abcdefghijklmnopqrstuvwxyz")[d - 26]
    ensures 52 <= d < 64 ==> Letter(d) == Ascii("0123456789+/")[d - 52]
  {
  }

  lemma IndexOfLetter(d: nat)
    requires d < 64
    ensures Index(Letter(d)) == d
  {
  }

  // ------------------------------------------------ the mapping of RFC 4648

  /** Sextet `i` of the 24 bits that three octets make up: the shifts and masks of
      the encoder, taken per field. */
  function SextetOf(a: byte, b: byte, c: byte, i: nat): (d: nat)
    requires i < 4
    ensures d < 64
  {
    var (a, b, c) := (a as nat, b as nat, c as nat);
    if i == 0 then a / 4 else if i == 1 then a % 4 * 16 + b / 16 else if i == 2 then b % 16 * 4 + c / 64 else c % 64
  }

  /** Octet `i` of the 24 bits that four sextets make up. */
  function OctetOf(p: nat, q: nat, r: nat, t: nat, i: nat): byte
    requires p < 64 && q < 64 && r < 64 && t < 64 && i < 3
  {
    (if i == 0 then p * 4 + q / 16 else if i == 1 then q % 16 * 16 + r / 4 else r % 4 * 64 + t) as byte
  }

  lemma OctetsOfSextets(a: byte, b: byte, c: byte)
    ensures var p, q, r, t := SextetOf(a, b, c, 0), SextetOf(a, b, c, 1), SextetOf(a, b, c, 2), SextetOf(a, b, c, 3);
            OctetOf(p, q, r, t, 0) == a && OctetOf(p, q, r, t, 1) == b && OctetOf(p, q, r, t, 2) == c
  {
  }

  lemma SextetsOfOctets(p: nat, q: nat, r: nat, t: nat)
    requires p < 64 && q < 64 && r < 64 && t < 64
    ensures var a, b, c := OctetOf(p, q, r, t, 0), OctetOf(p, q, r, t, 1), OctetOf(p, q, r, t, 2);
            SextetOf(a, b, c, 0) == p && SextetOf(a, b, c, 1) == q && SextetOf(a, b, c, 2) == r && SextetOf(a, b, c, 3) == t
  {
  }

  // -------------------------------------------------------------- whole texts

  /** A text continued by zeros. */
  function Padded(x: seq<byte>, k: nat): byte { if k < |x| then x[k] else 0 }

  function Groups(n: nat): nat { (n + 2) / 3 }

  /** The number of padding characters. */
  function Pads(n: nat): nat { if n % 3 == 1 then 2 else if n % 3 == 2 then 1 else 0 }

  lemma DivideByThree(g: nat, i: nat)
    requires i < 3
    ensures (3 * g + i) / 3 == g && (3 * g + i) % 3 == i
  {
  }

  lemma GroupsAndPads(n: nat)
    ensures 3 * Groups(n) - Pads(n) == n && Pads(n) <= 2
    ensures Groups(n) == n / 3 + if n % 3 != 0 then 1 else 0
  {
    var q, r := n / 3, n % 3;
    assert n == 3 * q + r;
    if r == 0 { DivideByThree(q, 2); } else { DivideByThree(q + 1, r - 1); }
  }

  /** Sextet `i` of group `g` of the input. */
  function SextetAt(x: seq<byte>, g: nat, i: nat): (d: nat)
    requires i < 4
    ensures d < 64
  {
    SextetOf(Padded(x, 3 * g), Padded(x, 3 * g + 1), Padded(x, 3 * g + 2), i)
  }

  /** The characters of group `g`. */
  function Quartet(x: seq<byte>, g: nat): (r: seq<byte>)
    ensures |r| == 4
  {
    [Letter(SextetAt(x, g, 0)), Letter(SextetAt(x, g, 1)), Letter(SextetAt(x, g, 2)), Letter(SextetAt(x, g, 3))]
  }

  /** The characters of the groups from `g` on. */
  function Letters(x: seq<byte>, g: nat): (r: seq<byte>)
    requires g <= Groups(|x|)
    ensures |r| == 4 * (Groups(|x|) - g)
    decreases Groups(|x|) - g
  {
    if g == Groups(|x|) then [] else Quartet(x, g) + Letters(x, g + 1)
  }

  function Padding(n: nat): (r: seq<byte>)
    ensures |r| == n && forall i :: 0 <= i < n ==> r[i] == EQUALS
  {
    seq(n, _ => EQUALS)
  }

  /** The last characters of the last group give way to the padding. */
  function Encode(x: seq<byte>): (r: seq<byte>)
    ensures |r| == 4 * Groups(|x|)
  {
    GroupsAndPads(|x|);
    var all := Letters(x, 0);
    all[..|all| - Pads(|x|)] + Padding(Pads(|x|))
  }

  /** The position of the first padding character, or the end. */
  function PadStart(s: seq<byte>, from: nat): (k: nat)
    requires from <= |s|
    ensures from <= k <= |s| && (k < |s| ==> s[k] == EQUALS)
    ensures forall j :: from <= j < k ==> s[j] != EQUALS
    decreases |s| - from
  {
    if from == |s| || s[from] == EQUALS then from else PadStart(s, from + 1)
  }

  /** What the decoder accepts: whole groups over the alphabet, at most two
      padding characters, and those last. */
  ghost predicate Decodable(s: seq<byte>) {
    var k := PadStart(s, 0);
    && |s| > 0 && |s| % 4 == 0 && |s| - k <= 2
    && (forall j :: 0 <= j < k ==> Index(s[j]) >= 0)
    && (forall j :: k <= j < |s| ==> s[j] == EQUALS)
  }

  function Digit(c: byte): (d: nat)
    ensures d < 64
  {
    if Index(c) < 0 then 0 else Index(c)
  }

  /** Octet `i` of group `g` of a text. */
  function OctetAt(s: seq<byte>, g: nat, i: nat): byte
    requires i < 3
  {
    OctetOf(Digit(Padded(s, 4 * g)), Digit(Padded(s, 4 * g + 1)), Digit(Padded(s, 4 * g + 2)), Digit(Padded(s, 4 * g + 3)), i)
  }

  /** The octets of the first `g` groups. */
  function OctetsUpTo(s: seq<byte>, g: nat): (r: seq<byte>)
    ensures |r| == 3 * g
  {
    if g == 0 then [] else OctetsUpTo(s, g - 1) + [OctetAt(s, g - 1, 0), OctetAt(s, g - 1, 1), OctetAt(s, g - 1, 2)]
  }

  /** All octets of the decoded groups, those behind the message included. */
  function Octets(s: seq<byte>): (r: seq<byte>)
    ensures |r| == 3 * (|s| / 4)
  {
    OctetsUpTo(s, |s| / 4)
  }

  function DecodedLength(s: seq<byte>): int { 3 * (|s| / 4) - (|s| - PadStart(s, 0)) }

  ghost function Decode(s: seq<byte>): Option<seq<byte>> {
    if Decodable(s) then (DecodedSize(s); Some(Octets(s)[..DecodedLength(s)])) else None
  }

  lemma DecodedSize(s: seq<byte>)
    requires Decodable(s)
    ensures var n := DecodedLength(s);
            n >= 0 && 4 * Groups(n) == |s| && Pads(n) == |s| - PadStart(s, 0) && |Octets(s)| == 3 * Groups(n)
  {
    var g, p := |s| / 4, |s| - PadStart(s, 0);
    if p == 0 { DivideByThree(g, 2); DivideByThree(g, 0); }
    else { DivideByThree(g, 2 - p); DivideByThree(g - 1, 3 - p); }
  }

  lemma {:induction false} LetterAt(x: seq<byte>, from: nat, g: nat, i: nat)
    requires from <= g < Groups(|x|) && i < 4
    ensures Letters(x, from)[4 * (g - from) + i] == Letter(SextetAt(x, g, i))
    decreases g - from
  {
    if from < g { LetterAt(x, from + 1, g, i); }
  }

  lemma EncodedCharacter(x: seq<byte>, g: nat, i: nat)
    requires g < Groups(|x|) && i < 4
    ensures Encode(x)[4 * g + i]
         == if 4 * g + i >= 4 * Groups(|x|) - Pads(|x|) then EQUALS else Letter(SextetAt(x, g, i))
  {
    LetterAt(x, 0, g, i);
  }

  lemma {:induction false} DecodedOctet(s: seq<byte>, groups: nat, g: nat, i: nat)
    requires g < groups && i < 3
    ensures OctetsUpTo(s, groups)[3 * g + i] == OctetAt(s, g, i)
  {
    if g < groups - 1 { DecodedOctet(s, groups - 1, g, i); }
  }

  // --------------------------------------------------------------- round trips

  lemma EncodeDecodable(x: seq<byte>)
    requires x != []
    ensures PadStart(Encode(x), 0) == |Encode(x)| - Pads(|x|)
    ensures Decodable(Encode(x)) && DecodedLength(Encode(x)) == |x|
  {
    var s, k := Encode(x), |Encode(x)| - Pads(|x|);
    GroupsAndPads(|x|);
    forall j | 0 <= j < k ensures s[j] != EQUALS && Index(s[j]) >= 0 {
      var g, i := j / 4, j % 4;
      assert j == 4 * g + i;
      EncodedCharacter(x, g, i);
      IndexOfLetter(SextetAt(x, g, i));
    }
    PadStartIs(s, 0, k);
    assert |s| / 4 == Groups(|x|);
  }

  lemma PadStartIs(s: seq<byte>, from: nat, k: nat)
    requires from <= k <= |s| && (k < |s| ==> s[k] == EQUALS)
    requires forall j :: from <= j < k ==> s[j] != EQUALS
    ensures PadStart(s, from) == k
    decreases k - from
  {
    if from < k { PadStartIs(s, from + 1, k); }
  }

  /** Where padding characters stand, the input has ended. */
  lemma PaddingPlace(n: nat, g: nat, i: nat)
    requires g < Groups(n) && i < 4 && 4 * g + i >= 4 * Groups(n) - Pads(n)
    ensures (i == 3 || i == 2) && 3 * g + 2 >= n && (i == 2 ==> 3 * g + 1 >= n)
  {
    GroupsAndPads(n);
  }

  /** A sextet shows in its character, and a padding character stands for one
      that was zero. */
  lemma DigitOfCharacter(x: seq<byte>, g: nat, i: nat)
    requires g < Groups(|x|) && i < 4
    ensures Digit(Encode(x)[4 * g + i]) == SextetAt(x, g, i)
  {
    EncodedCharacter(x, g, i);
    IndexOfLetter(SextetAt(x, g, i));
    if 4 * g + i >= 4 * Groups(|x|) - Pads(|x|) { PaddingPlace(|x|, g, i); }
  }

  lemma OctetRoundTrip(x: seq<byte>, g: nat, i: nat)
    requires g < Groups(|x|) && i < 3
    ensures OctetAt(Encode(x), g, i) == Padded(x, 3 * g + i)
  {
    hide SextetOf, OctetOf, Encode, Digit;
    DigitOfCharacter(x, g, 0);
    DigitOfCharacter(x, g, 1);
    DigitOfCharacter(x, g, 2);
    DigitOfCharacter(x, g, 3);
    OctetsOfSextets(Padded(x, 3 * g), Padded(x, 3 * g + 1), Padded(x, 3 * g + 2));
  }

  lemma OctetBack(x: seq<byte>, i: nat)
    requires i < 3 * Groups(|x|)
    ensures i < |Octets(Encode(x))| && Octets(Encode(x))[i] == Padded(x, i)
  {
    var g, r := i / 3, i % 3;
    assert i == 3 * g + r;
    OctetRoundTrip(x, g, r);
    DecodedOctet(Encode(x), Groups(|x|), g, r);
    assert |Encode(x)| / 4 == Groups(|x|);
  }

  /** Decoding an encoding gives the input back. */
  lemma EncodeDecode(x: seq<byte>)
    requires x != []
    ensures Decode(Encode(x)) == Some(x)
  {
    EncodeDecodable(x);
    GroupsAndPads(|x|);
    forall i | 0 <= i < |x| ensures Octets(Encode(x))[i] == x[i] { OctetBack(x, i); }
    assert Octets(Encode(x))[..|x|] == x;
  }

  /** No bits are set behind the message in the last group. */
  ghost predicate Canonical(s: seq<byte>)
    requires Decodable(s)
  {
    forall i :: DecodedLength(s) <= i < |Octets(s)| ==> Octets(s)[i] == 0
  }

  lemma CanonicalOctet(s: seq<byte>, g: nat, i: nat)
    requires Decodable(s) && Canonical(s) && g < |s| / 4 && i < 3
    ensures Padded(Decode(s).value, 3 * g + i) == OctetAt(s, g, i)
  {
    DecodedSize(s);
    DecodedOctet(s, |s| / 4, g, i);
  }

  /** A canonical text's sextets are read back from the octets it was decoded to. */
  lemma CanonicalSextet(s: seq<byte>, g: nat, i: nat)
    requires Decodable(s) && Canonical(s) && g < |s| / 4 && i < 4
    ensures SextetAt(Decode(s).value, g, i) == Digit(s[4 * g + i])
  {
    hide SextetOf, OctetOf, Canonical, Decode, Digit;
    var p, q, r, t := Digit(s[4 * g]), Digit(s[4 * g + 1]), Digit(s[4 * g + 2]), Digit(s[4 * g + 3]);
    CanonicalOctet(s, g, 0);
    CanonicalOctet(s, g, 1);
    CanonicalOctet(s, g, 2);
    SextetsOfOctets(p, q, r, t);
    if i == 0 {} else if i == 1 {} else if i == 2 {} else {}
  }

  lemma DecodedCharacter(s: seq<byte>, j: nat)
    requires Decodable(s) && j < |s|
    ensures s[j] == if j >= PadStart(s, 0) then EQUALS else Letter(Digit(s[j]))
  {
  }

  lemma CanonicalCharacter(s: seq<byte>, j: nat)
    requires Decodable(s) && Canonical(s)
    requires j < |Encode(Decode(s).value)| == |s|
    ensures Encode(Decode(s).value)[j] == s[j]
  {
    hide Encode, Letter, Digit, SextetAt, Canonical;
    var g, i := j / 4, j % 4;
    assert j == 4 * g + i;
    DecodedSize(s);
    EncodedCharacter(Decode(s).value, g, i);
    CanonicalSextet(s, g, i);
    DecodedCharacter(s, j);
  }

  lemma CanonicalReencodes(s: seq<byte>)
    requires Decodable(s) && Canonical(s)
    ensures Encode(Decode(s).value) == s
  {
    var m := Decode(s).value;
    DecodedSize(s);
    forall j | 0 <= j < |s| ensures Encode(m)[j] == s[j] {
      CanonicalCharacter(s, j);
    }
  }

  lemma ReencodedIsCanonical(s: seq<byte>)
    requires Decodable(s) && Encode(Decode(s).value) == s
    ensures Canonical(s)
  {
    var m := Decode(s).value;
    DecodedSize(s);
    forall i | DecodedLength(s) <= i < |Octets(s)| ensures Octets(s)[i] == 0 {
      OctetBack(m, i);
    }
  }

  /** Encoding what was decoded gives the text back exactly when it was canonical:
      the decoder also accepts texts whose last character carries bits that stand
      for nothing. */
  lemma DecodeEncode(s: seq<byte>)
    requires Decodable(s)
    ensures Encode(Decode(s).value) == s <==> Canonical(s)
  {
    if Canonical(s) { CanonicalReencodes(s); }
    if Encode(Decode(s).value) == s { ReencodedIsCanonical(s); }
  }

  /** Such a text: "QR==" decodes like "QQ==", and comes back as that. */
  lemma StrayBitsLost()
    ensures var text := Ascii("QR=="); Decodable(text) && !Canonical(text) && Encode(Decode(text).value) == Ascii("QQ==")
  {
    hide Encode, Octets;
    var text := Ascii("QR==");
    assert text == [81, 82, EQUALS, EQUALS];
    StrayBitsDecoded(text);
    assert Octets(text)[1] != 0;
    assert Octets(text)[..1] == [65];
    OneOctetEncoded();
  }

  lemma StrayBitsDecoded(text: seq<byte>)
    requires text == [81, 82, EQUALS, EQUALS]
    ensures Decodable(text) && DecodedLength(text) == 1 && Octets(text) == [65, 16, 0]
  {
    hide OctetOf;
    assert Index(81) == 16 && Index(82) == 17;
    PadStartIs(text, 0, 2);
    GroupIs(text, 0, 16, 17, 0, 0);
    assert OctetsUpTo(text, 0) == [];
    assert OctetOf(16, 17, 0, 0, 0) == 65 && OctetOf(16, 17, 0, 0, 1) == 16 && OctetOf(16, 17, 0, 0, 2) == 0 by {
      ExampleOctets();
    }
  }

  lemma ExampleOctets()
    ensures OctetOf(16, 17, 0, 0, 0) == 65 && OctetOf(16, 17, 0, 0, 1) == 16 && OctetOf(16, 17, 0, 0, 2) == 0
  {
  }

  lemma OneOctetEncoded()
    ensures Encode([65]) == Ascii("QQ==")
  {
    hide Encode, SextetAt;
    var s := Encode([65]);
    EncodedCharacter([65], 0, 0);
    EncodedCharacter([65], 0, 1);
    EncodedCharacter([65], 0, 2);
    EncodedCharacter([65], 0, 3);
    OneOctetSextets();
    assert s[0] == 81 && s[1] == 81 && s[2] == EQUALS && s[3] == EQUALS;
    assert Ascii("QQ==") == [81, 81, 61, 61];
  }

  lemma OneOctetSextets()
    ensures SextetAt([65], 0, 0) == 16 && SextetAt([65], 0, 1) == 16
  {
  }

  lemma GroupIs(text: seq<byte>, g: nat, p: nat, q: nat, r: nat, t: nat)
    requires 4 * g + 4 <= |text| && p < 64 && q < 64 && r < 64 && t < 64
    requires Digit(text[4 * g]) == p && Digit(text[4 * g + 1]) == q && Digit(text[4 * g + 2]) == r && Digit(text[4 * g + 3]) == t
    ensures forall i: nat :: i < 3 ==> OctetAt(text, g, i) == OctetOf(p, q, r, t, i)
  {
    hide Digit, OctetOf;
  }

  // ------------------------------------------------------------------ in place

  /** `auth_base64encode`: the buffer is enlarged, zeroed behind the input, and
      filled from the last group to the first. */
  method EncodeInPlace(x: seq<byte>) returns (buffer: array<byte>)
    ensures fresh(buffer) && buffer.Length == 4 * Groups(|x|) + 1
    ensures buffer[..4 * Groups(|x|)] == Encode(x) && buffer[4 * Groups(|x|)] == NUL
  {
    var groups := |x| / 3 + if |x| % 3 != 0 then 1 else 0;
    GroupsAndPads(|x|);
    buffer := new byte[4 * groups + 1](i => if 0 <= i < |x| then x[i] else NUL);
    EncodeGroups(buffer, groups, x);
    Pad(buffer, |x| % 3);
  }

  method EncodeGroups(buffer: array<byte>, groups: nat, ghost x: seq<byte>)
    requires groups == Groups(|x|) && buffer.Length == 4 * groups + 1 && buffer[4 * groups] == NUL
    requires forall k :: 0 <= k < 3 * groups ==> buffer[k] == Padded(x, k)
    modifies buffer
    ensures buffer[0..4 * groups] == Letters(x, 0) && buffer[4 * groups] == NUL
  {
    var g := groups;
    while g > 0
      invariant 0 <= g <= groups
      invariant forall k :: 0 <= k < 3 * g ==> buffer[k] == Padded(x, k)
      invariant buffer[4 * g..4 * groups] == Letters(x, g)
      invariant buffer[4 * groups] == NUL
    {
      g := g - 1;
      EncodeNext(buffer, g, groups, x);
    }
  }

  method EncodeNext(buffer: array<byte>, g: nat, groups: nat, ghost x: seq<byte>)
    requires g < groups == Groups(|x|) && buffer.Length == 4 * groups + 1
    requires forall k :: 3 * g <= k < 3 * g + 3 ==> buffer[k] == Padded(x, k)
    requires buffer[4 * (g + 1)..4 * groups] == Letters(x, g + 1)
    modifies buffer
    ensures buffer[4 * g..4 * groups] == Letters(x, g)
    ensures forall k :: 0 <= k < 4 * g || k == 4 * groups ==> buffer[k] == old(buffer[..])[k]
  {
    ghost var o := buffer[..];
    EncodeGroup(buffer, g, x);
    Prepended(o, buffer[..], 4 * g, 4 * groups);
  }

  lemma Prepended(o: seq<byte>, b: seq<byte>, at: nat, end: nat)
    requires at + 4 <= end <= |o| == |b|
    requires forall k :: at + 4 <= k < end ==> b[k] == o[k]
    ensures b[at..end] == b[at..at + 4] + o[at + 4..end]
  {
  }

  /** The padding characters, written over the last letters. */
  method Pad(buffer: array<byte>, left: nat)
    requires left < 3 && (left > 0 ==> buffer.Length > 4)
    requires buffer.Length > 0
    modifies buffer
    ensures var n := if left == 0 then 0 else 3 - left;
            var all := old(buffer[..buffer.Length - 1]);
            && buffer[..buffer.Length - 1] == all[..|all| - n] + Padding(n)
            && buffer[buffer.Length - 1] == old(buffer[buffer.Length - 1])
  {
    var end := buffer.Length - 1;
    if left == 1 {
      buffer[end - 2] := EQUALS;
      buffer[end - 1] := EQUALS;
    } else if left == 2 {
      buffer[end - 1] := EQUALS;
    }
  }

  /** Group `g` is read at `3 * g` and written at `4 * g`, never in front of it:
      the groups still to come are untouched. */
  method EncodeGroup(buffer: array<byte>, g: nat, ghost x: seq<byte>)
    requires 4 * g + 4 < buffer.Length
    requires forall k :: 3 * g <= k < 3 * g + 3 ==> buffer[k] == Padded(x, k)
    modifies buffer
    ensures buffer[4 * g..4 * g + 4] == Quartet(x, g)
    ensures forall k :: 0 <= k < 4 * g || 4 * g + 4 <= k < buffer.Length ==> buffer[k] == old(buffer[..])[k]
  {
    var a, b, c := buffer[3 * g], buffer[3 * g + 1], buffer[3 * g + 2];
    WriteFour(buffer, 4 * g, [Letter(SextetOf(a, b, c, 0)), Letter(SextetOf(a, b, c, 1)),
                              Letter(SextetOf(a, b, c, 2)), Letter(SextetOf(a, b, c, 3))]);
  }

  method WriteFour(buffer: array<byte>, at: nat, s: seq<byte>)
    requires |s| == 4 && at + 4 <= buffer.Length
    modifies buffer
    ensures buffer[at..at + 4] == s
    ensures forall k :: 0 <= k < at || at + 4 <= k < buffer.Length ==> buffer[k] == old(buffer[..])[k]
  {
    buffer[at], buffer[at + 1], buffer[at + 2], buffer[at + 3] := s[0], s[1], s[2], s[3];
  }

  /** `auth_base64decode` on the text `s` at the buffer's front. */
  method DecodeInPlace(buffer: array<byte>, size: nat) returns (length: int)
    requires size < buffer.Length && buffer[size] == NUL && NUL !in buffer[..size]
    modifies buffer
    ensures var s := old(buffer[..size]);
            if Decodable(s) then
              length == DecodedLength(s) && |Octets(s)| < size && buffer[..|Octets(s)|] == Octets(s) && buffer[|Octets(s)|] == NUL
            else length == -1
  {
    ghost var s := buffer[..size];
    if size % 4 != 0 || size == 0 {
      return -1;
    }
    var padding := ToDigits(buffer, size);
    if padding < 0 {
      return -1;
    }
    DecodeGroups(buffer, size / 4, s);
    return (size / 4 - 1) * 3 + (3 - padding);
  }

  method DecodeGroups(buffer: array<byte>, groups: nat, ghost s: seq<byte>)
    requires 0 < groups && |s| == 4 * groups < buffer.Length
    requires forall j :: 0 <= j < |s| ==> buffer[j] as nat == Digit(s[j])
    modifies buffer
    ensures buffer[..3 * groups] == OctetsUpTo(s, groups) && buffer[3 * groups] == NUL
  {
    var g := 0;
    while g < groups
      invariant 0 <= g <= groups
      invariant buffer[..3 * g] == OctetsUpTo(s, g)
      invariant g > 0 ==> buffer[3 * g] == NUL
      invariant forall j :: 4 * g <= j < |s| ==> buffer[j] as nat == Digit(s[j])
    {
      DecodeNext(buffer, g, s);
      g := g + 1;
    }
  }

  method DecodeNext(buffer: array<byte>, g: nat, ghost s: seq<byte>)
    requires 4 * g + 4 <= |s| < buffer.Length
    requires buffer[..3 * g] == OctetsUpTo(s, g)
    requires forall j :: 4 * g <= j < 4 * g + 4 ==> buffer[j] as nat == Digit(s[j])
    modifies buffer
    ensures buffer[..3 * (g + 1)] == OctetsUpTo(s, g + 1)
    ensures buffer[3 * (g + 1)] == NUL
    ensures forall k :: 4 * g + 4 <= k < buffer.Length ==> buffer[k] == old(buffer[..])[k]
  {
    hide OctetAt, OctetsUpTo;
    ghost var o := buffer[..];
    DecodeGroup(buffer, g, s);
    GroupAppended(o, buffer[..], g, s);
  }

  lemma GroupAppended(o: seq<byte>, b: seq<byte>, g: nat, s: seq<byte>)
    requires 3 * g + 3 <= |o| == |b|
    requires o[..3 * g] == OctetsUpTo(s, g) && forall k :: 0 <= k < 3 * g ==> b[k] == o[k]
    requires b[3 * g..3 * g + 3] == [OctetAt(s, g, 0), OctetAt(s, g, 1), OctetAt(s, g, 2)]
    ensures b[..3 * (g + 1)] == OctetsUpTo(s, g + 1)
  {
    hide OctetAt;
    assert b[..3 * g + 3] == o[..3 * g] + b[3 * g..3 * g + 3];
  }

  /** Group `g` is read at `4 * g` and written, with a terminator behind it, no
      further than there. */
  method DecodeGroup(buffer: array<byte>, g: nat, ghost s: seq<byte>)
    requires 4 * g + 4 <= |s| < buffer.Length
    requires forall j :: 4 * g <= j < 4 * g + 4 ==> buffer[j] as nat == Digit(s[j])
    modifies buffer
    ensures buffer[3 * g..3 * g + 3] == [OctetAt(s, g, 0), OctetAt(s, g, 1), OctetAt(s, g, 2)]
    ensures buffer[3 * g + 3] == NUL
    ensures forall k :: 0 <= k < 3 * g || 3 * g + 4 <= k < buffer.Length ==> buffer[k] == old(buffer[..])[k]
  {
    var p, q, r, t := buffer[4 * g] as nat, buffer[4 * g + 1] as nat, buffer[4 * g + 2] as nat, buffer[4 * g + 3] as nat;
    WriteFour(buffer, 3 * g, [OctetOf(p, q, r, t, 0), OctetOf(p, q, r, t, 1), OctetOf(p, q, r, t, 2), NUL]);
    assert buffer[3 * g..3 * g + 3] == buffer[3 * g..3 * g + 4][..3];
  }

  /** The first loop of the decoder: characters become their positions in the
      alphabet. Returns the number of padding characters, or -1. */
  method ToDigits(buffer: array<byte>, size: nat) returns (padding: int)
    requires 0 < size < buffer.Length && size % 4 == 0
    modifies buffer
    ensures padding == -1 <==> !Decodable(old(buffer[..size]))
    ensures padding != -1 ==>
      && padding == size - PadStart(old(buffer[..size]), 0)
      && forall j :: 0 <= j < size ==> buffer[j] as nat == Digit(old(buffer[..size])[j])
  {
    ghost var s := buffer[..size];
    var i := 0;
    while i < size
      invariant 0 <= i <= size && PadStart(s, 0) == PadStart(s, i)
      invariant forall j :: 0 <= j < i ==> Index(s[j]) >= 0 && buffer[j] as nat == Digit(s[j])
      invariant forall j :: i <= j < size ==> buffer[j] == s[j]
    {
      if buffer[i] == EQUALS {
        if size - i > 2 {
          return -1;
        }
        padding := size - i;
        while i < size
          invariant size - padding <= i <= size
          invariant forall j :: size - padding <= j < i ==> s[j] == EQUALS
          invariant forall j :: 0 <= j < i ==> buffer[j] as nat == Digit(s[j])
          invariant forall j :: i <= j < size ==> buffer[j] == s[j]
        {
          if buffer[i] != EQUALS {
            return -1;
          }
          buffer[i] := 0;
          i := i + 1;
        }
        return padding;
      }
      var d := Index(buffer[i]);
      if d < 0 {
        return -1;
      }
      buffer[i] := d as byte;
      i := i + 1;
    }
    return 0;
  }
}
