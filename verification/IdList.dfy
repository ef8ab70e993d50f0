/** The recipients of a transaction: the query hands them over as one text of ids
    separated by commas, which `mail_dbread` counts and reads. */
module IdList {
  import opened Bytes
  import opened RemoteSpec

  const COMMA: byte := ',' as int as byte

  /** `GROUP_CONCAT(mail_id)`. */
  function Joined(ids: seq<nat>): (s: seq<byte>)
    requires ids != []
  {
    if |ids| == 1 then Decimal(ids[0]) else Decimal(ids[0]) + [COMMA] + Joined(ids[1..])
  }

  function Commas(s: seq<byte>): nat {
    if s == [] then 0 else (if s[0] == COMMA then 1 else 0) + Commas(s[1..])
  }

  lemma {:induction false} CommasAppend(a: seq<byte>, b: seq<byte>)
    ensures Commas(a + b) == Commas(a) + Commas(b)
  {
    if a == [] {
      assert a + b == b;
    } else {
      assert (a + b)[1..] == a[1..] + b;
      CommasAppend(a[1..], b);
    }
  }

  lemma {:induction false} NoCommas(s: seq<byte>)
    requires forall i :: 0 <= i < |s| ==> DigitOf(s[i]) < 10
    ensures Commas(s) == 0
  {
    if s != [] {
      assert DigitOf(s[0]) < 10;
      NoCommas(s[1..]);
    }
  }

  /** There is one comma less than there are ids. */
  lemma {:induction false} JoinedCommas(ids: seq<nat>)
    requires ids != []
    ensures Commas(Joined(ids)) == |ids| - 1
  {
    var d := Decimal(ids[0]);
    NoCommas(d);
    if |ids| > 1 {
      JoinedCommas(ids[1..]);
      CommasAppend(d + [COMMA], Joined(ids[1..]));
      CommasAppend(d, [COMMA]);
    }
  }

  lemma SplitBehind(s: seq<byte>, pos: nat, d: seq<byte>, rest: seq<byte>)
    requires pos <= |s| && s[pos..] == d + rest
    ensures pos + |d| <= |s| && s[pos..pos + |d|] == d && s[pos + |d|..] == rest
  {
    assert forall i :: 0 <= i < |d| + |rest| ==> s[pos + i] == (d + rest)[i];
  }

  /** Digits end where the text does, or at a comma. */
  lemma DigitsEnd(s: seq<byte>, end: nat, value: nat)
    requires end <= |s| && (end < |s| ==> s[end] == COMMA)
    ensures ReadDigits(s, end, 10, value) == (value, end)
  {
  }

  lemma NumberRead(s: seq<byte>, pos: nat, n: nat, rest: seq<byte>)
    requires pos <= |s| && s[pos..] == Decimal(n) + rest && (rest != [] ==> rest[0] == COMMA)
    ensures var end := pos + |Decimal(n)|;
            end <= |s| && ReadDigits(s, pos, 10, 0) == (n, end) && s[end..] == rest
  {
    hide ReadDigits, Decimal;
    var end := pos + |Decimal(n)|;
    SplitBehind(s, pos, Decimal(n), rest);
    assert rest != [] ==> s[end] == s[end..][0] == COMMA;
    ReadDecimal(n, pos, s);
    DigitsEnd(s, end, n);
  }

  /** An id is read up to the comma or the end behind it. */
  lemma ReadFirst(s: seq<byte>, pos: nat, ids: seq<nat>)
    requires ids != [] && pos <= |s| && s[pos..] == Joined(ids)
    ensures var (value, end) := ReadDigits(s, pos, 10, 0);
            && value == ids[0]
            && if |ids| == 1 then end == |s| else end < |s| && s[end + 1..] == Joined(ids[1..])
  {
    hide ReadDigits, Decimal;
    var d := Decimal(ids[0]);
    if |ids| == 1 {
      assert d + [] == d;
      NumberRead(s, pos, ids[0], []);
    } else {
      var rest := Joined(ids[1..]);
      assert d + [COMMA] + rest == d + ([COMMA] + rest);
      NumberRead(s, pos, ids[0], [COMMA] + rest);
      SplitBehind(s, pos + |d|, [COMMA], rest);
    }
  }

  /** `mail_dbread`: as many entries as there are commas and one, each read with
      `strtoul` to the character behind it. Every id of the transaction is read back. */
  method ReadIds(text: seq<byte>, ghost ids: seq<nat>) returns (rcpt: seq<nat>)
    requires ids != [] && text == Joined(ids)
    ensures rcpt == ids
  {
    var entries, i := 1, 0;
    while i < |text|
      invariant 0 <= i <= |text| && entries == 1 + Commas(text) - Commas(text[i..])
    {
      assert text[i..][1..] == text[i + 1..];
      if text[i] == COMMA {
        entries := entries + 1;
      }
      i := i + 1;
    }
    JoinedCommas(ids);
    var pos := 0;
    rcpt := [];
    while |rcpt| < entries
      invariant |rcpt| <= entries == |ids| && rcpt == ids[..|rcpt|]
      invariant |rcpt| < |ids| ==> pos <= |text| && text[pos..] == Joined(ids[|rcpt|..])
    {
      ReadFirst(text, pos, ids[|rcpt|..]);
      var (value, end) := ReadDigits(text, pos, 10, 0);
      rcpt, pos := rcpt + [value], end + 1;
    }
  }
}
