/** Bytes, C strings and the string searches of the C library that the mail
    daemons build on. */
module Bytes {

  newtype byte = x: int | 0 <= x < 256

  const NUL: byte := 0
  const TAB: byte := 9
  const LF: byte := 10
  const CR: byte := 13
  const SPACE: byte := 32
  const DQUOTE: byte := 34
  const LPAREN: byte := 40
  const RPAREN: byte := 41
  const DOT: byte := 46
  const SLASH: byte := 47
  const COLON: byte := 58
  const LESS: byte := 60
  const EQUALS: byte := 61
  const GREATER: byte := 62
  const AT: byte := 64
  const BACKSLASH: byte := 92

  const CRLF: seq<byte> := [CR, LF]

  datatype Option<+T> = None | Some(value: T)

  /** The bytes of an ASCII literal. */
  function Ascii(s: string): (r: seq<byte>)
    requires forall i :: 0 <= i < |s| ==> (s[i] as int) < 256
    ensures |r| == |s|
    ensures forall i :: 0 <= i < |s| ==> r[i] == s[i] as int as byte
  {
    seq(|s|, i requires 0 <= i < |s| => s[i] as int as byte)
  }

  /** `pat` occurs in `s` at index `i`. */
  ghost predicate OccursAt(s: seq<byte>, pat: seq<byte>, i: int) {
    0 <= i <= |s| - |pat| && s[i..i + |pat|] == pat
  }

  /** The leftmost occurrence at or behind `from`, or -1. */
  function FindFrom(s: seq<byte>, pat: seq<byte>, from: nat): (r: int)
    ensures r == -1 || (from <= r && OccursAt(s, pat, r))
    ensures forall i :: from <= i && (r == -1 || i < r) ==> !OccursAt(s, pat, i)
    decreases |s| - from
  {
    if from + |pat| > |s| then -1
    else if s[from..from + |pat|] == pat then from
    else FindFrom(s, pat, from + 1)
  }

  /** The C library's `strstr`: the index of the leftmost occurrence, or -1. */
  function Find(s: seq<byte>, pat: seq<byte>): (r: int)
    ensures r == -1 || OccursAt(s, pat, r)
  {
    FindFrom(s, pat, 0)
  }

  /** An occurrence with none before it is what `Find` returns. */
  lemma FindIs(s: seq<byte>, pat: seq<byte>, k: int)
    requires OccursAt(s, pat, k)
    requires forall i :: 0 <= i < k ==> !OccursAt(s, pat, i)
    ensures Find(s, pat) == k
  {
  }

  /** One differing byte rules an occurrence out. */
  lemma NoOccurrence(s: seq<byte>, pat: seq<byte>, i: nat, j: nat)
    requires j < |pat| && (i + j < |s| ==> s[i + j] != pat[j])
    ensures !OccursAt(s, pat, i)
  {
    if i <= |s| - |pat| { assert s[i..i + |pat|][j] == s[i + j]; }
  }

  /** The C library's `index`: the position of the first `b`, or -1. */
  function IndexOf(s: seq<byte>, b: byte): (r: int)
    ensures r == -1 || 0 <= r < |s|
    ensures r == -1 <==> b !in s
    ensures r >= 0 ==> s[r] == b && forall j :: 0 <= j < r ==> s[j] != b
  {
    if s == [] then -1
    else if s[0] == b then 0
    else
      var k := IndexOf(s[1..], b);
      if k < 0 then -1 else k + 1
  }

  /** `IndexOf` looks no further than the first hit. */
  lemma IndexOfPrefix(p: seq<byte>, b: byte, rest: seq<byte>)
    requires b !in p
    ensures IndexOf(p + [b] + rest, b) == |p|
  {
    var s := p + [b] + rest;
    assert s[|p|] == b;
    assert forall j :: 0 <= j < |p| ==> s[j] == p[j];
  }

  function Max(a: int, b: int): int { if a < b then b else a }
  function Min(a: int, b: int): int { if a < b then a else b }
}
