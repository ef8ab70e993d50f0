/** The redirect router: a template's variables are replaced one after the other
    in the buffer that becomes the new envelope recipient. */
module Redirect {
  import opened Bytes
  import opened StringReplace
  import opened PathParsing

  datatype Variable = ToLocal | ToDomain | FromLocal | FromDomain

  function Name(v: Variable): (r: seq<byte>)
    ensures |r| >= 10 && r[0] == LPAREN && NUL !in r
    ensures forall i :: 1 <= i < |r| ==> r[i] != LPAREN
  {
    match v
    case ToLocal => Ascii("(to-local)")
    case ToDomain => Ascii("(to-domain)")
    case FromLocal => Ascii("(from-local)")
    case FromDomain => Ascii("(from-domain)")
  }

  /** A template as literal text and variables. */
  datatype Token = Literal(text: seq<byte>) | Ref(variable: Variable)

  ghost predicate WellFormed(tokens: seq<Token>) {
    forall i :: 0 <= i < |tokens| && tokens[i].Literal? ==> LPAREN !in tokens[i].text
  }

  type Values = Variable -> seq<byte>

  /** Each variable as its value, all at once. */
  function Substitute(tokens: seq<Token>, values: Values): seq<byte> {
    if tokens == [] then []
    else (match tokens[0] case Literal(t) => t case Ref(v) => values(v)) + Substitute(tokens[1..], values)
  }

  function Render(tokens: seq<Token>): seq<byte> { Substitute(tokens, Name) }

  /** One variable given its value, the others left alone. */
  function Fill(tokens: seq<Token>, v: Variable, value: seq<byte>): (r: seq<Token>)
    ensures |r| == |tokens|
    ensures forall i :: 0 <= i < |r| ==> r[i] == if tokens[i] == Ref(v) then Literal(value) else tokens[i]
  {
    seq(|tokens|, i requires 0 <= i < |tokens| => if tokens[i] == Ref(v) then Literal(value) else tokens[i])
  }

  // ------------------------------------------- replacement around a variable

  /** Nothing of `v` begins inside `p`: the search goes on behind it. */
  lemma FindSkips(p: seq<byte>, s: seq<byte>, pat: seq<byte>)
    requires forall i :: 0 <= i < |p| ==> !OccursAt(p + s, pat, i)
    ensures Find(p + s, pat) == if Find(s, pat) < 0 then -1 else |p| + Find(s, pat)
  {
    var t, k := p + s, Find(s, pat);
    forall i | |p| <= i <= |t| - |pat| ensures OccursAt(t, pat, i) <==> OccursAt(s, pat, i - |p|) {
      OccursShifted(p, s, pat, i - |p|);
    }
    if k >= 0 {
      assert OccursAt(t, pat, |p| + k);
      FindIs(t, pat, |p| + k);
    }
  }

  lemma OccursShifted(p: seq<byte>, s: seq<byte>, pat: seq<byte>, i: nat)
    ensures OccursAt(p + s, pat, |p| + i) <==> OccursAt(s, pat, i)
  {
    if i + |pat| <= |s| { assert (p + s)[|p| + i..|p| + i + |pat|] == s[i..i + |pat|]; }
  }

  lemma ReplaceSkips(p: seq<byte>, s: seq<byte>, pat: seq<byte>, value: seq<byte>)
    requires pat != []
    requires forall i :: 0 <= i < |p| ==> !OccursAt(p + s, pat, i)
    ensures ReplaceAll(p + s, pat, value) == p + ReplaceAll(s, pat, value)
  {
    FindSkips(p, s, pat);
    var k := Find(s, pat);
    if k >= 0 {
      var head, rest := s[..k], s[k + |pat|..];
      SlicesBehind(p, s, k, |pat|);
      ReplaceAllUnfold(head, s, rest, pat, value);
      ReplaceAllUnfold(p + head, p + s, rest, pat, value);
      Rejoin(p, head, value, ReplaceAll(rest, pat, value));
    }
  }

  lemma SlicesBehind(p: seq<byte>, s: seq<byte>, k: nat, width: nat)
    requires k + width <= |s|
    ensures (p + s)[..|p| + k] == p + s[..k] && (p + s)[|p| + k + width..] == s[k + width..]
  {
  }

  lemma Rejoin(p: seq<byte>, a: seq<byte>, b: seq<byte>, c: seq<byte>)
    ensures (p + a) + b + c == p + (a + b + c)
  {
  }

  lemma ReplaceHere(s: seq<byte>, v: Variable, value: seq<byte>)
    ensures ReplaceAll(Name(v) + s, Name(v), value) == value + ReplaceAll(s, Name(v), value)
  {
    var t, n := Name(v) + s, |Name(v)|;
    assert t[0..0 + n] == Name(v);
    FindIs(t, Name(v), 0);
    ReplaceAllUnfold([], t, s, Name(v), value);
    assert [] + value == value;
  }

  /** No variable's name begins inside a literal or inside another's name. */
  lemma NoneInside(token: Token, s: seq<byte>, v: Variable)
    requires token != Ref(v) && (token.Literal? ==> LPAREN !in token.text)
    ensures var p := if token.Literal? then token.text else Name(token.variable);
            forall i :: 0 <= i < |p| ==> !OccursAt(p + s, Name(v), i)
  {
    var p := if token.Literal? then token.text else Name(token.variable);
    forall i | 0 <= i < |p| ensures !OccursAt(p + s, Name(v), i) {
      assert (p + s)[i] == p[i];
      if token.Ref? && i == 0 {
        NamesDiffer(token.variable, v, s);
      } else {
        NoOccurrence(p + s, Name(v), i, 0);
      }
    }
  }

  lemma NamesDiffer(w: Variable, v: Variable, s: seq<byte>)
    requires w != v
    ensures !OccursAt(Name(w) + s, Name(v), 0) && !(Name(v) <= Name(w) + s)
  {
    var i := if w.ToLocal? || w.ToDomain? then (if v.ToLocal? || v.ToDomain? then 4 else 1)
             else if v.ToLocal? || v.ToDomain? then 1 else 6;
    var t := Name(w) + s;
    assert t[i] == Name(w)[i] != Name(v)[i];
    NoOccurrence(t, Name(v), 0, i);
  }

  /** One pass of the replacer over a template fills exactly its variable. */
  lemma {:induction false} PassFills(tokens: seq<Token>, v: Variable, value: seq<byte>)
    requires WellFormed(tokens)
    ensures ReplaceAll(Render(tokens), Name(v), value) == Render(Fill(tokens, v, value))
  {
    if tokens != [] {
      var token, rest := tokens[0], tokens[1..];
      var text := if token.Literal? then token.text else Name(token.variable);
      PassFills(rest, v, value);
      assert Fill(tokens, v, value)[1..] == Fill(rest, v, value);
      if token == Ref(v) {
        ReplaceHere(Render(rest), v, value);
      } else {
        NoneInside(token, Render(rest), v);
        ReplaceSkips(text, Render(rest), Name(v), value);
      }
    } else {
      assert Find([], Name(v)) == -1;
    }
  }

  lemma FillWellFormed(tokens: seq<Token>, v: Variable, value: seq<byte>)
    requires WellFormed(tokens) && LPAREN !in value
    ensures WellFormed(Fill(tokens, v, value))
  {
  }

  lemma {:induction false} AllFilled(tokens: seq<Token>, values: Values)
    ensures var filled := Fill(Fill(Fill(Fill(tokens, ToLocal, values(ToLocal)), ToDomain, values(ToDomain)),
                                    FromLocal, values(FromLocal)), FromDomain, values(FromDomain));
            Render(filled) == Substitute(tokens, values)
  {
    if tokens != [] {
      AllFilled(tokens[1..], values);
      FillTail(tokens, ToLocal, values(ToLocal));
      var a := Fill(tokens, ToLocal, values(ToLocal));
      FillTail(a, ToDomain, values(ToDomain));
      var b := Fill(a, ToDomain, values(ToDomain));
      FillTail(b, FromLocal, values(FromLocal));
      FillTail(Fill(b, FromLocal, values(FromLocal)), FromDomain, values(FromDomain));
    }
  }

  lemma FillTail(tokens: seq<Token>, v: Variable, value: seq<byte>)
    requires tokens != []
    ensures Fill(tokens, v, value)[1..] == Fill(tokens[1..], v, value)
  {
  }

  /** Four passes, one after the other. */
  function Sequential(s: seq<byte>, values: Values): seq<byte> {
    var a := ReplaceAll(s, Name(ToLocal), values(ToLocal));
    var b := ReplaceAll(a, Name(ToDomain), values(ToDomain));
    var c := ReplaceAll(b, Name(FromLocal), values(FromLocal));
    ReplaceAll(c, Name(FromDomain), values(FromDomain))
  }

  /** The main result: when no value holds a parenthesis, replacing one variable
      after the other is substituting all at once. */
  lemma SequentialIsSimultaneous(tokens: seq<Token>, values: Values)
    requires WellFormed(tokens) && forall v :: LPAREN !in values(v)
    ensures Sequential(Render(tokens), values) == Substitute(tokens, values)
  {
    var a := Fill(tokens, ToLocal, values(ToLocal));
    var b := Fill(a, ToDomain, values(ToDomain));
    var c := Fill(b, FromLocal, values(FromLocal));
    PassFills(tokens, ToLocal, values(ToLocal));
    FillWellFormed(tokens, ToLocal, values(ToLocal));
    PassFills(a, ToDomain, values(ToDomain));
    FillWellFormed(a, ToDomain, values(ToDomain));
    PassFills(b, FromLocal, values(FromLocal));
    FillWellFormed(b, FromLocal, values(FromLocal));
    PassFills(c, FromDomain, values(FromDomain));
    AllFilled(tokens, values);
  }

  // ---------------------------------------------------- reading a template

  /** Every opening parenthesis of a template starts a variable. */
  ghost predicate Template(s: seq<byte>) {
    forall i :: 0 <= i < |s| && s[i] == LPAREN ==> exists v :: OccursAt(s, Name(v), i)
  }

  ghost predicate StartsWith(s: seq<byte>, v: Variable) { Name(v) <= s }

  /** A template cut into literals and variables. */
  ghost function Tokenize(s: seq<byte>): seq<Token>
    decreases |s|
  {
    var k := IndexOf(s, LPAREN);
    if k >= 0 && exists v :: StartsWith(s[k..], v) then
      var v :| StartsWith(s[k..], v);
      [Literal(s[..k]), Ref(v)] + Tokenize(s[k..][|Name(v)|..])
    else [Literal(s)]
  }

  lemma {:induction false} TokenizeRenders(s: seq<byte>)
    requires Template(s)
    ensures WellFormed(Tokenize(s)) && Render(Tokenize(s)) == s
    decreases |s|
  {
    var k := IndexOf(s, LPAREN);
    if k < 0 {
      OneLiteral(s);
    } else {
      var v := NameAt(s, k);
      var rest := s[k..][|Name(v)|..];
      RestIsTemplate(s, k, v);
      TokenizeRenders(rest);
      TokenizeStep(s, k, v);
      TokensJoined(s[..k], v, Tokenize(rest));
      AroundName(s, k, v);
    }
  }

  lemma OneLiteral(s: seq<byte>)
    requires LPAREN !in s
    ensures WellFormed(Tokenize(s)) && Render(Tokenize(s)) == s
  {
    assert IndexOf(s, LPAREN) == -1;
    RenderCons(Literal(s), [], Name);
    assert s + [] == s;
    assert [Literal(s)] + [] == Tokenize(s);
  }

  lemma TokenizeStep(s: seq<byte>, k: nat, v: Variable)
    requires k == IndexOf(s, LPAREN) && StartsWith(s[k..], v)
    ensures Tokenize(s) == [Literal(s[..k]), Ref(v)] + Tokenize(s[k..][|Name(v)|..])
  {
    forall w | StartsWith(s[k..], w) ensures w == v { OnlyOneStarts(s[k..], v, w); }
  }

  lemma OnlyOneStarts(s: seq<byte>, v: Variable, w: Variable)
    requires StartsWith(s, v) && StartsWith(s, w)
    ensures v == w
  {
    if v != w {
      assert s == Name(v) + s[|Name(v)|..];
      NamesDiffer(v, w, s[|Name(v)|..]);
    }
  }

  lemma AroundName(s: seq<byte>, k: nat, v: Variable)
    requires k <= |s| && StartsWith(s[k..], v)
    ensures s[..k] + (Name(v) + s[k..][|Name(v)|..]) == s
  {
  }

  lemma TokensJoined(text: seq<byte>, v: Variable, tokens: seq<Token>)
    requires WellFormed(tokens) && LPAREN !in text
    ensures WellFormed([Literal(text), Ref(v)] + tokens)
    ensures Render([Literal(text), Ref(v)] + tokens) == text + (Name(v) + Render(tokens))
  {
    var all := [Literal(text), Ref(v)] + tokens;
    RenderCons(Ref(v), tokens, Name);
    RenderCons(Literal(text), [Ref(v)] + tokens, Name);
    assert all == [Literal(text)] + ([Ref(v)] + tokens);
  }

  lemma RenderCons(token: Token, tokens: seq<Token>, values: Values)
    ensures Substitute([token] + tokens, values)
         == (match token case Literal(t) => t case Ref(v) => values(v)) + Substitute(tokens, values)
  {
    assert ([token] + tokens)[1..] == tokens;
  }

  lemma NameAt(s: seq<byte>, k: nat) returns (v: Variable)
    requires Template(s) && k < |s| && s[k] == LPAREN
    ensures OccursAt(s, Name(v), k) && StartsWith(s[k..], v)
  {
    v :| OccursAt(s, Name(v), k);
    assert s[k..][..|Name(v)|] == s[k..k + |Name(v)|];
  }

  lemma RestIsTemplate(s: seq<byte>, k: nat, v: Variable)
    requires Template(s) && OccursAt(s, Name(v), k)
    ensures Template(s[k..][|Name(v)|..])
  {
    var n := k + |Name(v)|;
    var rest := s[k..][|Name(v)|..];
    assert rest == s[n..];
    forall i | 0 <= i < |rest| && rest[i] == LPAREN ensures exists w :: OccursAt(rest, Name(w), i) {
      var w :| OccursAt(s, Name(w), n + i);
      OccursBehind(s, n, Name(w), i);
    }
  }

  lemma OccursBehind(s: seq<byte>, n: nat, pat: seq<byte>, i: nat)
    requires n + i <= |s| && OccursAt(s, pat, n + i)
    ensures OccursAt(s[n..], pat, i)
  {
    assert s[n..][i..i + |pat|] == s[n + i..n + i + |pat|];
  }

  /** The same for a template text: each opening parenthesis starts a variable. */
  lemma TemplateSubstituted(template: seq<byte>, values: Values)
    requires Template(template) && forall v :: LPAREN !in values(v)
    ensures Sequential(template, values) == Substitute(Tokenize(template), values)
  {
    TokenizeRenders(template);
    SequentialIsSimultaneous(Tokenize(template), values);
  }

  // -------------------------------------------------------------- the router

  predicate HasDomain(p: Parsed) requires p.Parsed? { p.delimiter < |p.text| }

  function LocalPart(p: Parsed): seq<byte>
    requires p.Parsed? && p.delimiter <= |p.text|
  {
    p.text[..p.delimiter]
  }

  /** The part behind the '@', empty without one. */
  function DomainPart(p: Parsed): seq<byte>
    requires p.Parsed? && p.delimiter <= |p.text|
  {
    if HasDomain(p) then p.text[p.delimiter + 1..] else []
  }

  /** The string in a recipient path that begins at the delimiter, or one byte behind it:
      such a path was parsed from a reset one, with only terminators behind its text. */
  function FromDelimiter(p: Parsed, skip: bool): seq<byte>
    requires p.Parsed? && p.delimiter <= |p.text|
  {
    var at := p.delimiter + if skip then 1 else 0;
    if at <= |p.text| then p.text[at..] else []
  }

  /** The string that begins in a path structure at `at`. */
  function StringIn(b: Buffer, at: nat): (s: seq<byte>)
    ensures NUL !in s
  {
    if at < |b.bytes| then b.bytes[at..at + StrLen(b.bytes, at)] else []
  }

  /** `strncpy` of as many bytes as there are in front of the delimiter. */
  function InFront(b: Buffer): seq<byte> {
    var text := StringIn(b, 0);
    if b.delimiter < |text| then text[..b.delimiter] else text
  }

  /** What the router puts in for each variable: for the sender's domain too it is the
      recipient path that decides whether a byte is skipped, and what is read there need
      not belong to the sender's path. */
  function RouterValue(to: Parsed, from: Buffer, v: Variable): seq<byte>
    requires to.Parsed? && to.delimiter <= |to.text|
  {
    match v
    case ToLocal => LocalPart(to)
    case ToDomain => FromDelimiter(to, HasDomain(to))
    case FromLocal => InFront(from)
    case FromDomain => StringIn(from, from.delimiter + if HasDomain(to) then 1 else 0)
  }

  function IntendedValue(to: Parsed, from: Parsed, v: Variable): seq<byte>
    requires to.Parsed? && to.delimiter <= |to.text| && from.Parsed? && from.delimiter <= |from.text|
  {
    match v
    case ToLocal => LocalPart(to)
    case ToDomain => DomainPart(to)
    case FromLocal => LocalPart(from)
    case FromDomain => DomainPart(from)
  }

  /** A sender's path `spec`, accepted into a structure that was in state `b` before: its
      text is the one it has afresh, and so is its delimiter if it has a domain. */
  lemma SenderText(b: Buffer, spec: seq<byte>)
    requires BufferOk(b) && ParseInto(b, spec).1
    ensures PathOf(spec).Parsed? && WellDelimited(PathOf(spec))
    ensures var (from, sender) := (PathOf(spec), ParseInto(b, spec).0);
            && sender.bytes == Overwritten(b.bytes, from.text + [NUL]) && |sender.bytes| == MAX_PATH_LENGTH
            && (HasDomain(from) || b.delimiter == 0 ==> sender.delimiter == from.delimiter)
            && (b.delimiter > 0 ==> sender.delimiter == b.delimiter && !HasDomain(from))
  {
    hide PathFrom;
    ParseWellDelimited(spec);
    if b.delimiter > 0 { RejectedPathStays(spec, b.delimiter); }
  }

  lemma SenderStrings(b: Buffer, spec: seq<byte>, at: nat)
    requires BufferOk(b) && ParseInto(b, spec).1
    ensures PathOf(spec).Parsed?
    ensures var (text, sender) := (PathOf(spec).text, ParseInto(b, spec).0);
            && (at <= |text| ==> StringIn(sender, at) == text[at..])
            && (StringIn(sender, at) == [] <==> Ended(sender, at))
  {
    hide PathFrom, PathOf, ParseInto, RouterValue;
    SenderText(b, spec);
    StringAhead(b.bytes, PathOf(spec).text, ParseInto(b, spec).0, at);
  }

  lemma StringAhead(stale: seq<byte>, text: seq<byte>, b: Buffer, at: nat)
    requires |text| < |stale| && b.bytes == Overwritten(stale, text + [NUL]) && Printable(text)
    ensures at <= |text| ==> StringIn(b, at) == text[at..]
    ensures StringIn(b, at) == [] <==> Ended(b, at)
  {
    assert b.bytes[|text|] == NUL;
    assert forall j :: 0 <= j < |text| ==> b.bytes[j] == text[j];
    if at <= |text| { StrLenIs(b.bytes, at, |text|); }
  }

  /** No string begins there. */
  ghost predicate Ended(b: Buffer, at: nat) { at >= |b.bytes| || b.bytes[at] == NUL }

  /** When the router does what the administrator meant. */
  ghost predicate Right(to: Parsed, from: Parsed, sender: Buffer)
    requires to.Parsed? && from.Parsed?
  {
    if HasDomain(from) then HasDomain(to)
    else sender.delimiter >= |from.text| && Ended(sender, sender.delimiter + if HasDomain(to) then 1 else 0)
  }

  /** Whatever the sender's path structure held before: the values are those of the two
      paths as they were given if and only if a sender with a domain writes to a recipient
      with one, or a sender without one has its delimiter at its end or behind it, and no
      string where the router looks for a domain. */
  lemma ValuesIntended(to: Parsed, b: Buffer, spec: seq<byte>)
    requires to.Parsed? && to.delimiter <= |to.text|
    requires BufferOk(b) && ParseInto(b, spec).1
    ensures PathOf(spec).Parsed? && PathOf(spec).delimiter <= |PathOf(spec).text|
    ensures var (from, sender) := (PathOf(spec), ParseInto(b, spec).0);
            (forall v :: RouterValue(to, sender, v) == IntendedValue(to, from, v)) <==> Right(to, from, sender)
  {
    hide PathFrom, ParseInto, PathOf, StringIn, Ended, Overwritten;
    SenderText(b, spec);
    var from, sender := PathOf(spec), ParseInto(b, spec).0;
    SenderStrings(b, spec, 0);
    SenderStrings(b, spec, sender.delimiter);
    SenderStrings(b, spec, sender.delimiter + 1);
    assert Right(to, from, sender) <==>
      RouterValue(to, sender, FromLocal) == IntendedValue(to, from, FromLocal)
      && RouterValue(to, sender, FromDomain) == IntendedValue(to, from, FromDomain) by {
      SenderValues(to, from, sender);
    }
  }

  lemma SenderValues(to: Parsed, from: Parsed, sender: Buffer)
    requires to.Parsed? && to.delimiter <= |to.text| && from.Parsed? && WellDelimited(from)
    requires StringIn(sender, 0) == from.text
    requires HasDomain(from) ==> sender.delimiter == from.delimiter
    requires forall at: nat :: at <= |from.text| && sender.delimiter <= at <= sender.delimiter + 1 ==>
      StringIn(sender, at) == from.text[at..]
    requires forall at: nat :: sender.delimiter <= at <= sender.delimiter + 1 ==>
      (StringIn(sender, at) == [] <==> Ended(sender, at))
    ensures Right(to, from, sender) <==>
            RouterValue(to, sender, FromLocal) == IntendedValue(to, from, FromLocal)
            && RouterValue(to, sender, FromDomain) == IntendedValue(to, from, FromDomain)
  {
    hide StringIn, Ended;
    var skip := if HasDomain(to) then 1 else 0;
    var text, at := from.text, sender.delimiter + skip;
    if HasDomain(from) {
      assert StringIn(sender, at) == text[at..];
      assert |text[at..]| == |text| - at;
    } else if sender.delimiter < |text| {
      assert |InFront(sender)| < |text|;
    }
  }

  /** On a reset structure: exactly if the recipient has a domain or the sender has none. */
  lemma ValuesIntendedAfresh(to: Parsed, spec: seq<byte>)
    requires to.Parsed? && to.delimiter <= |to.text| && ParseInto(Reset(), spec).1
    ensures PathOf(spec).Parsed? && PathOf(spec).delimiter <= |PathOf(spec).text|
    ensures var (from, sender) := (PathOf(spec), ParseInto(Reset(), spec).0);
            (forall v :: RouterValue(to, sender, v) == IntendedValue(to, from, v))
            <==> (HasDomain(to) || !HasDomain(from))
  {
    hide PathFrom, ParseInto, PathOf, RouterValue, IntendedValue;
    ResetOk();
    SenderText(Reset(), spec);
    ValuesIntended(to, Reset(), spec);
    var from, sender := PathOf(spec), ParseInto(Reset(), spec).0;
    assert forall i :: |from.text| <= i < MAX_PATH_LENGTH ==> sender.bytes[i] == NUL;
  }

  /** One replacement with its room check. */
  function Pass(text: seq<byte>, v: Variable, value: seq<byte>): Outcome {
    Replace(0, text, Name(v), value, MAX_PATH_LENGTH)
  }

  /** All four. */
  function Expanded(argument: seq<byte>, values: Values): Option<seq<byte>> {
    Passes(argument, values(ToLocal), values(ToDomain), values(FromLocal), values(FromDomain))
  }

  function Passes(argument: seq<byte>, toLocal: seq<byte>, toDomain: seq<byte>,
                  fromLocal: seq<byte>, fromDomain: seq<byte>): Option<seq<byte>>
  {
    var a := Pass(argument, ToLocal, toLocal);
    if !a.ok then None else
    var b := Pass(a.text, ToDomain, toDomain);
    if !b.ok then None else
    var c := Pass(b.text, FromLocal, fromLocal);
    if !c.ok then None else
    var d := Pass(c.text, FromDomain, fromDomain);
    if d.ok then Some(d.text) else None
  }

  lemma ExpandedIsSequential(argument: seq<byte>, values: Values)
    ensures Expanded(argument, values).Some? ==> Expanded(argument, values).value == Sequential(argument, values)
  {
    var a := Pass(argument, ToLocal, values(ToLocal));
    SuccessIsReplaceAll(0, argument, Name(ToLocal), values(ToLocal), MAX_PATH_LENGTH);
    var b := Pass(a.text, ToDomain, values(ToDomain));
    SuccessIsReplaceAll(0, a.text, Name(ToDomain), values(ToDomain), MAX_PATH_LENGTH);
    var c := Pass(b.text, FromLocal, values(FromLocal));
    SuccessIsReplaceAll(0, b.text, Name(FromLocal), values(FromLocal), MAX_PATH_LENGTH);
    SuccessIsReplaceAll(0, c.text, Name(FromDomain), values(FromDomain), MAX_PATH_LENGTH);
  }

  /** There is room for one replacement at every place of its variable. */
  ghost predicate Roomy(text: seq<byte>, v: Variable, value: seq<byte>) {
    RoomThroughout(Pieces(text, Name(v)), Name(v), value, 0, 300)
  }

  /** When a redirect succeeds: exactly if each of the four replacements has the room it asks
      for in what the ones before it have made of the template. */
  lemma ExpandsWithRoom(argument: seq<byte>, values: Values)
    ensures var a := ReplaceAll(argument, Name(ToLocal), values(ToLocal));
            var b := ReplaceAll(a, Name(ToDomain), values(ToDomain));
            var c := ReplaceAll(b, Name(FromLocal), values(FromLocal));
            Expanded(argument, values).Some? <==>
              && Roomy(argument, ToLocal, values(ToLocal)) && Roomy(a, ToDomain, values(ToDomain))
              && Roomy(b, FromLocal, values(FromLocal)) && Roomy(c, FromDomain, values(FromDomain))
  {
    hide Name, ReplaceAll, Replace, Roomy;
    var a := Pass(argument, ToLocal, values(ToLocal));
    var b := Pass(a.text, ToDomain, values(ToDomain));
    var c := Pass(b.text, FromLocal, values(FromLocal));
    PassSucceeds(argument, ToLocal, values(ToLocal));
    PassSucceeds(a.text, ToDomain, values(ToDomain));
    PassSucceeds(b.text, FromLocal, values(FromLocal));
    PassSucceeds(c.text, FromDomain, values(FromDomain));
  }

  lemma PassSucceeds(text: seq<byte>, v: Variable, value: seq<byte>)
    ensures Pass(text, v, value).ok <==> Roomy(text, v, value)
    ensures Pass(text, v, value).ok ==> Pass(text, v, value).text == ReplaceAll(text, Name(v), value)
  {
    hide Name, ReplaceAll, Replace, RoomThroughout, Pieces;
    SucceedsWithRoom(0, text, Name(v), value, MAX_PATH_LENGTH);
    SuccessIsReplaceAll(0, text, Name(v), value, MAX_PATH_LENGTH);
  }

  /** A redirect that succeeds addresses the template with every variable substituted at
      once by the value the administrator meant, whenever that condition holds. */
  lemma RedirectMeansSubstitution(argument: seq<byte>, to: Parsed, b: Buffer, spec: seq<byte>)
    requires to.Parsed? && to.delimiter <= |to.text| && BufferOk(b) && ParseInto(b, spec).1
    requires Template(argument) && LPAREN !in to.text && LPAREN !in ParseInto(b, spec).0.bytes
    requires PathOf(spec).Parsed? && PathOf(spec).delimiter <= |PathOf(spec).text|
    requires Right(to, PathOf(spec), ParseInto(b, spec).0)
    ensures var o := Expanded(argument, v => RouterValue(to, ParseInto(b, spec).0, v));
            o.Some? ==> o.value == Substitute(Tokenize(argument), v => IntendedValue(to, PathOf(spec), v))
  {
    hide Expanded, Sequential, Template, Tokenize, RouterValue, IntendedValue, ParseInto, PathOf, Right;
    var from, sender := PathOf(spec), ParseInto(b, spec).0;
    var used: Values := v => RouterValue(to, sender, v);
    var meant: Values := v => IntendedValue(to, from, v);
    ValuesIntended(to, b, spec);
    NoParenthesis(to, sender);
    ExpandedIsSequential(argument, used);
    TemplateSubstituted(argument, used);
    SameValues(Tokenize(argument), used, meant);
  }

  lemma NoParenthesis(to: Parsed, from: Buffer)
    requires to.Parsed? && to.delimiter <= |to.text| && LPAREN !in to.text && LPAREN !in from.bytes
    ensures forall v :: LPAREN !in RouterValue(to, from, v)
  {
  }

  lemma {:induction false} SameValues(tokens: seq<Token>, a: Values, b: Values)
    requires forall v :: a(v) == b(v)
    ensures Substitute(tokens, a) == Substitute(tokens, b)
  {
    if tokens != [] { SameValues(tokens[1..], a, b); }
  }

  /** The template text `head`, then the sender's domain. */
  function ToSendersDomain(head: seq<byte>): seq<byte> { head + Name(FromDomain) }

  lemma OtherVariable(head: seq<byte>, v: Variable)
    requires LPAREN !in head && v != FromDomain
    ensures Find(ToSendersDomain(head), Name(v)) == -1
  {
    hide Name, Find;
    NoneInside(Literal(head), Name(FromDomain), v);
    FindSkips(head, Name(FromDomain), Name(v));
    NotInName(v);
  }

  lemma NotInName(v: Variable)
    requires v != FromDomain
    ensures Find(Name(FromDomain), Name(v)) == -1
  {
    hide Name;
    var name := Name(FromDomain);
    assert name + [] == name;
    NamesDiffer(FromDomain, v, []);
    forall i | 0 < i < |name| ensures !OccursAt(name, Name(v), i) {
      NoOccurrence(name, Name(v), i, 0);
    }
  }

  lemma DomainFound(head: seq<byte>)
    requires LPAREN !in head
    ensures Find(ToSendersDomain(head), Name(FromDomain)) == |head|
  {
    var t := ToSendersDomain(head);
    assert t[|head|..|head| + |Name(FromDomain)|] == Name(FromDomain);
    forall i | 0 <= i < |head| ensures !OccursAt(t, Name(FromDomain), i) {
      assert t[i] == head[i];
      NoOccurrence(t, Name(FromDomain), i, 0);
    }
    FindIs(t, Name(FromDomain), |head|);
  }

  /** What the router makes of that template, where it fits. */
  lemma SendersDomainExpanded(head: seq<byte>, values: Values)
    requires LPAREN !in head
    requires Fits(|head|, |head| + |Name(FromDomain)|, |Name(FromDomain)|, |values(FromDomain)|, MAX_PATH_LENGTH)
    ensures Expanded(ToSendersDomain(head), values) == Some(head + values(FromDomain))
  {
    hide Find, Fits, Name, Replace;
    var t, name := ToSendersDomain(head), Name(FromDomain);
    OtherVariable(head, ToLocal);
    OtherVariable(head, ToDomain);
    OtherVariable(head, FromLocal);
    DomainFound(head);
    ReplaceStops(0, t, Name(ToLocal), values(ToLocal), MAX_PATH_LENGTH);
    ReplaceStops(0, t, Name(ToDomain), values(ToDomain), MAX_PATH_LENGTH);
    ReplaceStops(0, t, Name(FromLocal), values(FromLocal), MAX_PATH_LENGTH);
    ReplaceUnfold(0, head, t, [], name, values(FromDomain), MAX_PATH_LENGTH);
    NothingLeft(|head| + |values(FromDomain)|, values(FromDomain));
    assert head + values(FromDomain) + [] == head + values(FromDomain);
  }

  lemma NothingLeft(before: nat, value: seq<byte>)
    ensures Replace(before, [], Name(FromDomain), value, MAX_PATH_LENGTH) == Outcome(true, [])
  {
    assert Find([], Name(FromDomain)) == -1;
  }

  /** What it means. */
  lemma SendersDomainMeant(head: seq<byte>, values: Values)
    requires LPAREN !in head
    ensures Substitute(Tokenize(ToSendersDomain(head)), values) == head + values(FromDomain)
  {
    hide Name, Tokenize;
    var t, name := ToSendersDomain(head), Name(FromDomain);
    assert t[|head|..] == name && name[|name|..] == [];
    IndexOfPrefix(head, LPAREN, name[1..]);
    assert head + [LPAREN] + name[1..] == t;
    TokenizeStep(t, |head|, FromDomain);
    NothingMeant(values);
    assert t[..|head|] == head;
    RenderCons(Ref(FromDomain), Tokenize([]), values);
    RenderCons(Literal(head), [Ref(FromDomain)] + Tokenize([]), values);
    assert [Literal(head), Ref(FromDomain)] + Tokenize([]) == [Literal(head)] + ([Ref(FromDomain)] + Tokenize([]));
    assert head + (values(FromDomain) + []) == head + values(FromDomain);
  }

  lemma NothingMeant(values: Values)
    ensures Substitute(Tokenize([]), values) == []
  {
    assert IndexOf([], LPAREN) == -1;
    RenderCons(Literal([]), [], values);
    assert Tokenize([]) == [Literal([])] + [];
  }

  /** Where the condition fails, on a reset structure: with the template "x@(from-domain)",
      mail from "s@d" to a recipient without a domain is sent to "x@@d", where "x@d" was
      meant. */
  lemma WrongAddress()
    ensures var to, from, t := Parsed(Ascii("u"), 1), Parsed(Ascii("s@d"), 1), ToSendersDomain(Ascii("x@"));
            var spec := Printed(Ascii("s@d"));
            && ParseInto(Reset(), spec).1 && PathOf(spec) == from && Template(t)
            && Expanded(t, v => RouterValue(to, ParseInto(Reset(), spec).0, v)) == Some(Ascii("x@@d"))
            && Substitute(Tokenize(t), v => IntendedValue(to, from, v)) == Ascii("x@d")
  {
    hide Name, Expanded, Tokenize, Substitute, ToSendersDomain, Ascii, PathFrom, StringIn;
    var head, to, spec := Ascii("x@"), Parsed(Ascii("u"), 1), Printed(Ascii("s@d"));
    ExampleTexts();
    SenderParsed();
    var from, sender := PathOf(spec), ParseInto(Reset(), spec).0;
    var used: Values := v => RouterValue(to, sender, v);
    var meant: Values := v => IntendedValue(to, from, v);
    ResetOk();
    SenderText(Reset(), spec);
    SenderStrings(Reset(), spec, 1);
    SendersDomainTemplate(head);
    assert used(FromDomain) == [AT, 100] && meant(FromDomain) == [100];
    SendersDomainExpanded(head, used);
    SendersDomainMeant(head, meant);
  }

  lemma SenderParsed()
    ensures PathOf(Printed([115, AT, 100])) == Parsed([115, AT, 100], 1)
    ensures PathOf(Printed([120])) == Parsed([120], 1)
  {
    hide Scan;
    Reparse(Parsed([115, AT, 100], 1));
    Reparse(Parsed([120], 1));
  }

  /** Where it fails on a structure that a rejected command left: "<a@b@c>" is refused, "<x>"
      is accepted over it, and mail to a recipient with a domain is sent to "x@b", though the
      sender has no domain at all. */
  lemma ResidueInserted()
    ensures var stale := ParseInto(Reset(), Printed([97, AT, 98, AT, 99])).0;
            var to, from, t := Parsed([117, AT, 104], 1), Parsed([120], 1), ToSendersDomain(Ascii("x@"));
            var spec := Printed([120]);
            && !ParseInto(Reset(), Printed([97, AT, 98, AT, 99])).1
            && ParseInto(stale, spec).1 && PathOf(spec) == from && Template(t)
            && Expanded(t, v => RouterValue(to, ParseInto(stale, spec).0, v)) == Some(Ascii("x@") + [98])
            && Substitute(Tokenize(t), v => IntendedValue(to, from, v)) == Ascii("x@")
  {
    hide Name, Expanded, Tokenize, Substitute, ToSendersDomain, Ascii, PathFrom, StringIn;
    var stale := ParseInto(Reset(), Printed([97, AT, 98, AT, 99])).0;
    var head, to, spec := Ascii("x@"), Parsed([117, AT, 104], 1), Printed([120]);
    ExampleTexts();
    SenderParsed();
    StaleSender();
    var from, sender := PathOf(spec), ParseInto(stale, spec).0;
    var used: Values := v => RouterValue(to, sender, v);
    var meant: Values := v => IntendedValue(to, from, v);
    SendersDomainTemplate(head);
    assert used(FromDomain) == [98] && meant(FromDomain) == [];
    SendersDomainExpanded(head, used);
    SendersDomainMeant(head, meant);
    assert head + [] == head;
  }

  lemma StaleSender()
    ensures var stale := ParseInto(Reset(), Printed([97, AT, 98, AT, 99]));
            && !stale.1 && ParseInto(stale.0, Printed([120])).1
            && ParseInto(stale.0, Printed([120])).0.delimiter == 1
            && StringIn(ParseInto(stale.0, Printed([120])).0, 2) == [98]
  {
    hide PathFrom, StrLen;
    GoodPathRefused();
    SenderParsed();
    var stale := ParseInto(Reset(), Printed([97, AT, 98, AT, 99])).0;
    assert PathFrom(Printed([97, AT, 98, AT, 99]), 0) == Rejected(1, [97, AT, 98]);
    RejectedPathStays(Printed([120]), 1);
    var sender := ParseInto(stale, Printed([120])).0;
    assert sender.bytes == [120, NUL] + stale.bytes[2..];
    assert sender.bytes[2] == 98 && sender.bytes[3] == NUL;
    StrLenIs(sender.bytes, 2, 3);
    assert sender.bytes[2..3] == [98];
  }

  lemma ExampleTexts()
    ensures Ascii("u") == [117] && Ascii("x@") == [120, AT] && Ascii("s@d") == [115, AT, 100]
    ensures Ascii("x@@d") == [120, AT] + [AT, 100] && Ascii("x@d") == [120, AT] + [100]
    ensures |Name(FromDomain)| == 13
  {
  }

  lemma SendersDomainTemplate(head: seq<byte>)
    requires LPAREN !in head
    ensures Template(ToSendersDomain(head))
  {
    hide Name, Find;
    var t := ToSendersDomain(head);
    DomainFound(head);
    assert forall i :: 0 <= i < |head| ==> t[i] == head[i];
    assert forall i :: |head| <= i < |t| ==> t[i] == Name(FromDomain)[i - |head|];
    forall i | 0 <= i < |t| && t[i] == LPAREN ensures OccursAt(t, Name(FromDomain), i) {
      assert i == |head|;
    }
  }

  /** The redirect branch of `route_local_path` up to the insertion: the template
      is copied into a buffer and its variables are replaced there. */
  method Expand(argument: seq<byte>, to: PathBuffer, from: PathBuffer, ghost t: Parsed, ghost f: Buffer)
    returns (status: int, forward: seq<byte>)
    requires NUL !in argument && |argument| < MAX_PATH_LENGTH - 1
    requires t.Parsed? && WellDelimited(t) && to.HoldsText(t.text) && to.delimiterPosition == t.delimiter
    requires from.Value() == f && BufferOk(f)
    // the byte behind the sender's delimiter lies in the buffer
    requires HasDomain(t) ==> f.delimiter + 1 < MAX_PATH_LENGTH
    ensures var o := Expanded(argument, v => RouterValue(t, f, v));
            status == (if o.Some? then 0 else -1) && (o.Some? ==> forward == o.value)
  {
    hide Passes, StringIn, InFront, BytesOk;
    var buffer := new byte[MAX_PATH_LENGTH];
    Store(buffer, argument);
    var skip := to.path[to.delimiterPosition] != NUL;
    assert skip == HasDomain(t);
    var toLocal := Before(to, t);
    var toDomain := Behind(to, skip, t);
    var fromLocal := SenderBefore(from, f);
    var fromDomain := SenderBehind(from, skip, f);
    status, forward := ReplaceVariables(buffer, toLocal, toDomain, fromLocal, fromDomain, argument);
  }

  method SenderBefore(path: PathBuffer, ghost f: Buffer) returns (s: seq<byte>)
    requires path.Value() == f && BufferOk(f)
    ensures s == InFront(f) && NUL !in s
  {
    var n := StrLen(path.path[..], 0);
    s := path.path[..if path.delimiterPosition < n then path.delimiterPosition else n];
  }

  method SenderBehind(path: PathBuffer, skip: bool, ghost f: Buffer) returns (s: seq<byte>)
    requires path.Value() == f && BufferOk(f) && (skip ==> f.delimiter + 1 < MAX_PATH_LENGTH)
    ensures s == StringIn(f, f.delimiter + if skip then 1 else 0) && NUL !in s
  {
    var at := path.delimiterPosition + if skip then 1 else 0;
    s := path.path[at..at + StrLen(path.path[..], at)];
  }

  method ReplaceVariables(buffer: array<byte>, toLocal: seq<byte>, toDomain: seq<byte>,
                          fromLocal: seq<byte>, fromDomain: seq<byte>, ghost argument: seq<byte>)
    returns (status: int, forward: seq<byte>)
    requires buffer.Length == MAX_PATH_LENGTH && StringReplace.Holds(buffer[..], argument)
    requires NUL !in toLocal && NUL !in toDomain && NUL !in fromLocal && NUL !in fromDomain
    modifies buffer
    ensures var o := Passes(argument, toLocal, toDomain, fromLocal, fromDomain);
            status == (if o.Some? then 0 else -1) && (o.Some? ==> forward == o.value)
  {
    forward := [];
    ghost var text;
    status, text := ReplaceVariable(buffer, ToLocal, toLocal, argument);
    if status < 0 { return; }
    status, text := ReplaceVariable(buffer, ToDomain, toDomain, text);
    if status < 0 { return; }
    status, text := ReplaceVariable(buffer, FromLocal, fromLocal, text);
    if status < 0 { return; }
    status, text := ReplaceVariable(buffer, FromDomain, fromDomain, text);
    if status < 0 { return; }
    assert [] + text == text;
    forward := StringAt(buffer, 0, [], text);
  }

  method ReplaceVariable(buffer: array<byte>, v: Variable, value: seq<byte>, ghost text: seq<byte>)
    returns (status: int, ghost next: seq<byte>)
    requires buffer.Length == MAX_PATH_LENGTH && StringReplace.Holds(buffer[..], text) && NUL !in value
    modifies buffer
    ensures next == Pass(text, v, value).text && StringReplace.Holds(buffer[..], next)
    ensures status == if Pass(text, v, value).ok then 0 else -1
  {
    status := StrRepl(buffer, MAX_PATH_LENGTH, Name(v), value, text);
    next := Pass(text, v, value).text;
  }

  /** `strncpy` into the buffer. */
  method Store(buffer: array<byte>, s: seq<byte>)
    requires |s| < buffer.Length && NUL !in s
    modifies buffer
    ensures StringReplace.Holds(buffer[..], s)
  {
    Overwrite(buffer, 0, s);
    buffer[|s|] := NUL;
    assert buffer[..][..|s|] == s;
  }

  method Before(path: PathBuffer, ghost p: Parsed) returns (s: seq<byte>)
    requires p.Parsed? && WellDelimited(p) && path.HoldsText(p.text) && path.delimiterPosition == p.delimiter
    ensures s == LocalPart(p) && NUL !in s
  {
    s := path.path[..path.delimiterPosition];
    assert s == path.path[..|p.text|][..p.delimiter];
  }

  method Behind(path: PathBuffer, skip: bool, ghost p: Parsed) returns (s: seq<byte>)
    requires p.Parsed? && WellDelimited(p) && path.HoldsText(p.text) && path.delimiterPosition == p.delimiter
    requires skip ==> p.delimiter + 1 < MAX_PATH_LENGTH
    ensures s == FromDelimiter(p, skip) && NUL !in s
  {
    var at := path.delimiterPosition + if skip then 1 else 0;
    ghost var bytes := path.path[..];
    if at <= |p.text| {
      assert forall j :: 0 <= j < |p.text| ==> bytes[j] == path.path[..|p.text|][j];
      StrLenIs(bytes, at, |p.text|);
    }
    s := path.path[at..at + StrLen(path.path[..], at)];
    if at <= |p.text| { assert s == path.path[..|p.text|][at..]; }
  }
}
