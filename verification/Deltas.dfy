/**
 `diff_toDelta` and `diff_fromDelta`: a diff crushed into tab-separated operations, and
 rebuilt from them and the source text.
 */
module Deltas {
  import opened Texts
  import opened Diffs
  import opened Encoding

  const TAB: CodePoint := 9
  const PLUS: CodePoint := 43
  const MINUS: CodePoint := 45
  const EQUALS: CodePoint := 61
  const UNDERSCORE: CodePoint := 95

  // ------------------------------------------------------------ decimal numbers

  /** "%d" of a length. */
  function Decimal(n: nat): (t: Text)
    ensures t != []
  {
    if n < 10 then [48 + n] else Decimal(n / 10) + [48 + n % 10]
  }

  predicate IsDigit(c: CodePoint) {
    48 <= c <= 57
  }

  /** Digits, with single underscores allowed between them, read from the right. */
  function ParseDigits(t: Text): Option<nat> {
    if t == [] || !IsDigit(t[|t| - 1]) then None else
    var low: nat, front := t[|t| - 1] - 48, t[..|t| - 1];
    if front == [] then Some(low) else
    var rest := if front[|front| - 1] == UNDERSCORE then ParseDigits(front[..|front| - 1]) else ParseDigits(front);
    if rest.None? then None else Some(10 * rest.value + low)
  }

  /** Python's `int(s)` on ASCII digits: spaces around, an optional sign. None is its ValueError. */
  function ParseInt(s: Text): Option<int> {
    var t := Strip(s);
    var signed := t != [] && (t[0] == PLUS || t[0] == MINUS);
    var digits := ParseDigits(if signed then t[1..] else t);
    if digits.None? then None
    else
      var value: int := digits.value;
      Some(if signed && t[0] == MINUS then -value else value)
  }

  lemma {:induction false} DecimalDigits(n: nat)
    ensures forall i | 0 <= i < |Decimal(n)| :: IsDigit(Decimal(n)[i])
    ensures ParseDigits(Decimal(n)) == Some(n)
  {
    if n >= 10 {
      DecimalDigits(n / 10);
      var t := Decimal(n);
      assert t[..|t| - 1] == Decimal(n / 10);
      assert IsDigit(t[..|t| - 1][|t| - 2]);
    }
  }

  lemma DecimalRoundTrip(n: nat)
    ensures ParseInt(Decimal(n)) == Some(n)
    ensures NoTab(Decimal(n))
  {
    DecimalDigits(n);
    DigitsOnly(Decimal(n));
  }

  /** A sign counts, white space around a number does not. */
  lemma SignedNumber(n: nat)
    ensures ParseInt([PLUS] + Decimal(n)) == Some(n) && ParseInt([MINUS] + Decimal(n)) == Some(0 - n as int)
    ensures ParseInt([32] + Decimal(n) + [32]) == Some(n)
  {
    DecimalDigits(n);
    var d := Decimal(n);
    assert IsDigit(d[0]) && IsDigit(d[|d| - 1]);
    hide Decimal, ParseDigits;
    assert TrimRight([PLUS] + d) == [PLUS] + d && ([PLUS] + d)[1..] == d;
    assert TrimRight([MINUS] + d) == [MINUS] + d && ([MINUS] + d)[1..] == d;
    assert ([32] + d + [32])[1..] == d + [32] && (d + [32])[..|d|] == d && TrimLeft(d + [32]) == d + [32];
    assert TrimRight(d) == d;
    assert Strip([32] + d + [32]) == d;
  }

  lemma DigitsOnly(t: Text)
    requires t != [] && forall i | 0 <= i < |t| :: IsDigit(t[i])
    ensures ParseInt(t) == ParseDigits(t) && NoTab(t)
  {
    hide ParseDigits;
    assert IsDigit(t[0]) && IsDigit(t[|t| - 1]);
    assert Strip(t) == t;
  }

  // ------------------------------------------------------------ tokens

  /** `"\t".join(tokens)` */
  function Join(tokens: seq<Text>): Text {
    if tokens == [] then [] else if |tokens| == 1 then tokens[0] else tokens[0] + [TAB] + Join(tokens[1..])
  }

  /** `delta.split("\t")` */
  function SplitTabs(t: Text): (tokens: seq<Text>)
    ensures tokens != []
  {
    if t == [] then [[]]
    else
      var rest := SplitTabs(t[1..]);
      if t[0] == TAB then [[]] + rest else [[t[0]] + rest[0]] + rest[1..]
  }

  predicate NoTab(t: Text) {
    forall i | 0 <= i < |t| :: t[i] != TAB
  }

  lemma {:induction false} SplitPlain(t: Text)
    requires NoTab(t)
    ensures SplitTabs(t) == [t]
  {
    if t != [] {
      SplitPlain(t[1..]);
      assert [t[0]] + t[1..] == t;
    }
  }

  lemma {:induction false} SplitFirst(t: Text, rest: Text)
    requires NoTab(t)
    ensures SplitTabs(t + [TAB] + rest) == [t] + SplitTabs(rest)
  {
    var whole := t + [TAB] + rest;
    if t == [] {
      assert whole[1..] == rest;
    } else {
      assert whole[1..] == t[1..] + [TAB] + rest;
      SplitFirst(t[1..], rest);
      assert [t[0]] + t[1..] == t;
    }
  }

  /** Splitting undoes joining tokens that hold no tab; no token at all reads as one blank one. */
  lemma {:induction false} SplitJoin(tokens: seq<Text>)
    requires forall i | 0 <= i < |tokens| :: NoTab(tokens[i])
    ensures SplitTabs(Join(tokens)) == if tokens == [] then [[]] else tokens
  {
    if |tokens| == 1 {
      SplitPlain(tokens[0]);
    } else if tokens != [] {
      SplitJoin(tokens[1..]);
      SplitFirst(tokens[0], Join(tokens[1..]));
      assert [tokens[0]] + tokens[1..] == tokens;
    }
  }

  // ------------------------------------------------------------ writing

  /** Inserted text must be encodable; kept and deleted text is only counted. */
  predicate Writable(d: Diff) {
    d.op == Insert ==> AllEncodable(d.text)
  }

  function Token(d: Diff): Text
    requires Writable(d)
  {
    match d.op
    case Insert => [PLUS] + Quote(Encode(d.text))
    case Delete => [MINUS] + Decimal(|d.text|)
    case Equal => [EQUALS] + Decimal(|d.text|)
  }

  ghost predicate AllWritable(ds: Script) {
    forall i | 0 <= i < |ds| :: Writable(ds[i])
  }

  ghost function Tokens(ds: Script): seq<Text>
    requires AllWritable(ds)
  {
    seq(|ds|, i requires 0 <= i < |ds| => Token(ds[i]))
  }

  lemma JoinThree(x: Text, y: Text, z: Text)
    ensures Join([x, y, z]) == x + [TAB] + (y + [TAB] + z)
  {
    assert [x, y, z][1..] == [y, z] && [y, z][1..] == [z];
    assert Join([z]) == z;
    assert Join([y, z]) == y + [TAB] + z;
  }

  lemma PlainToken(t: Text)
    requires t == Ascii("ing")
    ensures AllEncodable(t) && Token(Diff(Insert, t)) == Ascii("+ing")
  {
    assert t == [105] + [110] + [103];
    assert t[1..] == [110, 103] && t[2..] == [103] && t[3..] == [] && Encode(t[3..]) == [] && Quote(t[3..]) == [];
    LetterFirst(103, t[3..]);
    LetterFirst(110, t[2..]);
    LetterFirst(105, t[1..]);
    hide Encode, Quote;
    assert [103] + t[3..] == t[2..] && [110] + t[2..] == t[1..] && [105] + t[1..] == t;
  }

  lemma LetterFirst(c: CodePoint, rest: Text)
    requires 97 <= c <= 122 && AllEncodable(rest) && Encode(rest) == rest && Quote(rest) == rest
    ensures AllEncodable([c] + rest) && Encode([c] + rest) == [c] + rest && Quote([c] + rest) == [c] + rest
  {
    assert ([c] + rest)[1..] == rest;
  }

  /** Keep three characters, delete two, insert "ing". */
  lemma DeltaExample(kept: Text, deleted: Text)
    requires |kept| == 3 && |deleted| == 2
    ensures var ds := [Diff(Equal, kept), Diff(Delete, deleted), Diff(Insert, Ascii("ing"))];
      AllWritable(ds) && Join(Tokens(ds)) == Ascii("=3\t-2\t+ing")
  {
    var ds := [Diff(Equal, kept), Diff(Delete, deleted), Diff(Insert, Ascii("ing"))];
    PlainToken(Ascii("ing"));
    assert Decimal(3) == [51] && Decimal(2) == [50];
    assert Token(ds[0]) == Ascii("=3") && Token(ds[1]) == Ascii("-2");
    assert Ascii("=3") + [TAB] + (Ascii("-2") + [TAB] + Ascii("+ing")) == Ascii("=3\t-2\t+ing");
    JoinThree(Ascii("=3"), Ascii("-2"), Ascii("+ing"));
    hide Join, Token, Ascii, Decimal;
    assert Tokens(ds) == [Ascii("=3"), Ascii("-2"), Ascii("+ing")];
  }

  /** `diff_toDelta`; None is the UnicodeEncodeError of a lone surrogate. */
  method ToDelta(diffs: Script) returns (delta: Option<Text>)
    ensures delta.Some? <==> AllWritable(diffs)
    ensures delta.Some? ==> delta.value == Join(Tokens(diffs))
  {
    var text := [];
    for i := 0 to |diffs|
      invariant AllWritable(diffs[..i]) && text == Tokens(diffs[..i])
    {
      assert diffs[..i + 1] == diffs[..i] + [diffs[i]];
      var d := diffs[i];
      match d.op {
        case Insert =>
          if !AllEncodable(d.text) {
            return None;
          }
          text := text + [[PLUS] + Quote(Encode(d.text))];
        case Delete => text := text + [[MINUS] + Decimal(|d.text|)];
        case Equal => text := text + [[EQUALS] + Decimal(|d.text|)];
      }
    }
    assert diffs[..|diffs|] == diffs;
    delta := Some(Join(text));
  }

  lemma TokenPlain(d: Diff)
    requires Writable(d)
    ensures NoTab(Token(d)) && Token(d) != []
  {
    if d.op == Insert {
      QuotePlain(Encode(d.text));
    } else {
      DecimalRoundTrip(|d.text|);
    }
  }

  // ------------------------------------------------------------ reading

  datatype Parsed = Ok(diffs: Script) | InvalidNumber | NegativeNumber | InvalidOperation | LengthMismatch

  /** The entry a non-blank token stands for, at a position of the source text. */
  function ReadToken(text1: Text, token: Text, pointer: nat): (r: Parsed)
    requires token != []
    ensures r.Ok? ==> |r.diffs| == 1
  {
    if token[0] == PLUS then Ok([Diff(Insert, Unquote(token[1..]))])
    else if token[0] == MINUS || token[0] == EQUALS then
      var n := ParseInt(token[1..]);
      if n.None? then InvalidNumber
      else if n.value < 0 then NegativeNumber
      else Ok([Diff(if token[0] == EQUALS then Equal else Delete, Clamped(text1, pointer, pointer + n.value))])
    else InvalidOperation
  }

  /** An operation that is none and a length that is no number are told apart, and a length below zero from both. */
  lemma BadTokens(text1: Text, pointer: nat, t: Text, c: CodePoint)
    requires |t| >= 1
    ensures t[0] !in {43, 45, 61} ==> ReadToken(text1, t, pointer) == InvalidOperation
    ensures t == [c] && c in {45, 61} ==> ReadToken(text1, t, pointer) == InvalidNumber
  {
    hide ParseDigits;
    if t == [c] {
      assert t[1..] == [];
      NoNumber();
    }
  }

  lemma NegativeLength(text1: Text, pointer: nat, op: CodePoint, n: nat)
    requires op in {45, 61} && n > 0
    ensures ReadToken(text1, [op, MINUS] + Decimal(n), pointer) == NegativeNumber
  {
    SignedNumber(n);
    var t := [op, MINUS] + Decimal(n);
    assert t[1..] == [MINUS] + Decimal(n);
    hide Decimal, ParseInt;
  }

  lemma NoNumber()
    ensures ParseInt([]) == None
  {
  }

  /** `text1[i:j]`, which Python cuts to what there is. */
  function Clamped(t: Text, i: nat, j: nat): Text
    requires i <= j
  {
    t[Min(i, |t|)..Min(j, |t|)]
  }

  /** How far a token moves the cursor in the source text. */
  function Advance(token: Text): nat {
    if token == [] || token[0] == PLUS then 0 else
    var n := ParseInt(token[1..]);
    if n.Some? && n.value >= 0 then n.value else 0
  }

  /** What a list of tokens stands for, from a position of the source text on. */
  function ReadAll(text1: Text, tokens: seq<Text>, pointer: nat): Parsed {
    if tokens == [] then
      if pointer == |text1| then Ok([]) else LengthMismatch
    else if tokens[0] == [] then ReadAll(text1, tokens[1..], pointer)
    else
      var first := ReadToken(text1, tokens[0], pointer);
      if !first.Ok? then first else
      var rest := ReadAll(text1, tokens[1..], pointer + Advance(tokens[0]));
      if rest.Ok? then Ok(first.diffs + rest.diffs) else rest
  }

  /** `diff_fromDelta` */
  method FromDelta(text1: Text, delta: Text) returns (r: Parsed)
    ensures r == ReadAll(text1, SplitTabs(delta), 0)
    ensures r.Ok? ==> Source(r.diffs) == text1
  {
    hide ReadToken, Advance, SplitTabs, Source;
    ghost var whole := ReadAll(text1, SplitTabs(delta), 0);
    ReadIsDiffOfSource(text1, SplitTabs(delta), 0);
    var diffs: Script := [];
    var pointer: nat := 0;
    var tokens := SplitTabs(delta);
    for i := 0 to |tokens|
      invariant whole == After(diffs, ReadAll(text1, tokens[i..], pointer))
    {
      var token := tokens[i];
      assert tokens[i..][0] == token && tokens[i..][1..] == tokens[i + 1..];
      if token != [] {
        var entry := ReadToken(text1, token, pointer);
        if !entry.Ok? {
          return entry;
        }
        AfterConcat(diffs, entry.diffs, ReadAll(text1, tokens[i + 1..], pointer + Advance(token)));
        diffs := diffs + entry.diffs;
        pointer := pointer + Advance(token);
      }
    }
    r := if pointer != |text1| then LengthMismatch else Ok(diffs);
    assert diffs + [] == diffs;
  }

  ghost function After(diffs: Script, r: Parsed): Parsed {
    if r.Ok? then Ok(diffs + r.diffs) else r
  }

  lemma AfterConcat(a: Script, b: Script, r: Parsed)
    ensures After(a, After(b, r)) == After(a + b, r)
  {
    if r.Ok? {
      assert a + (b + r.diffs) == a + b + r.diffs;
    }
  }

  // ------------------------------------------------------------ what reading gives

  /** Whatever is read successfully is a diff of the rest of the source text. */
  lemma {:induction false} ReadIsDiffOfSource(text1: Text, tokens: seq<Text>, pointer: nat)
    ensures var r := ReadAll(text1, tokens, pointer);
      r.Ok? ==> pointer <= |text1| && Source(r.diffs) == text1[pointer..]
  {
    if tokens != [] {
      var token, next := tokens[0], pointer + Advance(tokens[0]);
      ReadIsDiffOfSource(text1, tokens[1..], if token == [] then pointer else next);
      var r := ReadAll(text1, tokens, pointer);
      if r.Ok? && token != [] {
        var d, rest := ReadToken(text1, token, pointer).diffs[0], ReadAll(text1, tokens[1..], next).diffs;
        assert r.diffs == [d] + rest;
        TextsConcat([d], rest);
        EntrySource(text1, token, pointer);
        hide ReadToken, Advance, Source, Target, ReadAll;
        assert text1[pointer..] == text1[pointer..next] + text1[next..];
      }
    }
  }

  /** An entry uses up as much of the source text as its token moves the cursor. */
  lemma EntrySource(text1: Text, token: Text, pointer: nat)
    requires token != [] && ReadToken(text1, token, pointer).Ok?
    ensures Source(ReadToken(text1, token, pointer).diffs) == Clamped(text1, pointer, pointer + Advance(token))
  {
    var r := ReadToken(text1, token, pointer);
    assert r.diffs == [r.diffs[0]];
    TextsOne(r.diffs[0]);
    hide ParseInt;
  }

  lemma TokenRoundTrip(d: Diff, text1: Text, pointer: nat)
    requires Writable(d)
    requires d.op != Insert ==> pointer + |d.text| <= |text1| && text1[pointer..pointer + |d.text|] == d.text
    ensures ReadToken(text1, Token(d), pointer) == Ok([d])
    ensures Advance(Token(d)) == (if d.op == Insert then 0 else |d.text|)
  {
    if d.op == Insert {
      QuoteRoundTrip(d.text);
      assert Token(d)[1..] == Quote(Encode(d.text));
    } else {
      DecimalRoundTrip(|d.text|);
      assert Token(d)[1..] == Decimal(|d.text|);
    }
  }

  lemma {:induction false} TokensRoundTrip(ds: Script, text1: Text, pointer: nat)
    requires AllWritable(ds) && pointer <= |text1| && Source(ds) == text1[pointer..]
    ensures ReadAll(text1, Tokens(ds), pointer) == Ok(ds)
  {
    hide Token, Advance, ReadToken, Source, ReadAll, Tokens;
    if ds == [] {
      ReadNone(ds, text1, pointer);
    } else {
      var d, rest := ds[0], ds[1..];
      var used: nat := if d.op == Insert then 0 else |d.text|;
      SourceUsed(ds, text1, pointer, used);
      TokenPlain(d);
      TokenRoundTrip(d, text1, pointer);
      TokensRoundTrip(rest, text1, pointer + used);
      ReadCons(text1, Token(d), Tokens(rest), pointer, d, rest);
      TokensCons(d, rest);
      assert [d] + rest == ds;
    }
  }

  lemma ReadNone(ds: Script, text1: Text, pointer: nat)
    requires ds == [] && pointer <= |text1| && Source(ds) == text1[pointer..]
    ensures AllWritable(ds) && ReadAll(text1, Tokens(ds), pointer) == Ok(ds)
  {
    assert |text1[pointer..]| == 0;
  }

  lemma ReadCons(text1: Text, token: Text, tokens: seq<Text>, pointer: nat, d: Diff, rest: Script)
    requires token != [] && ReadToken(text1, token, pointer) == Ok([d])
    requires ReadAll(text1, tokens, pointer + Advance(token)) == Ok(rest)
    ensures ReadAll(text1, [token] + tokens, pointer) == Ok([d] + rest)
  {
    assert ([token] + tokens)[1..] == tokens;
  }

  lemma TokensCons(d: Diff, rest: Script)
    requires AllWritable([d] + rest)
    ensures Writable(d) && AllWritable(rest) && Tokens([d] + rest) == [Token(d)] + Tokens(rest)
  {
    var ds := [d] + rest;
    assert ds[0] == d;
    forall i | 0 <= i < |rest| ensures Writable(rest[i]) {
      assert ds[i + 1] == rest[i];
    }
    TokensAre(ds);
    TokensAre(rest);
    hide Tokens, Token, Writable;
    var ts := [Token(d)] + Tokens(rest);
    forall i | 0 <= i < |ds| ensures Tokens(ds)[i] == ts[i] {
      assert i > 0 ==> ds[i] == rest[i - 1];
    }
  }

  lemma TokensAre(ds: Script)
    requires AllWritable(ds)
    ensures |Tokens(ds)| == |ds| && forall i | 0 <= i < |ds| :: Tokens(ds)[i] == Token(ds[i])
  {
  }

  lemma SourceUsed(ds: Script, text1: Text, pointer: nat, used: nat)
    requires ds != [] && pointer <= |text1| && Source(ds) == text1[pointer..]
    requires used == if ds[0].op == Insert then 0 else |ds[0].text|
    ensures pointer + used <= |text1| && Source(ds[1..]) == text1[pointer + used..]
    ensures ds[0].op != Insert ==> text1[pointer..pointer + used] == ds[0].text
  {
    var d, rest := ds[0], ds[1..];
    assert ds == [d] + rest;
    hide Source, Target;
    TextsConcat([d], rest);
    TextsOne(d);
    SliceShift(text1, pointer, Source([d]), Source(rest));
  }

  lemma SliceShift(text: Text, pointer: nat, x: Text, y: Text)
    requires pointer <= |text| && text[pointer..] == x + y
    ensures pointer + |x| <= |text| && text[pointer..pointer + |x|] == x && text[pointer + |x|..] == y
  {
    assert |text| - pointer == |x| + |y|;
    assert text[pointer..][..|x|] == x && text[pointer..][|x|..] == y;
  }

  /** A delta, read back against the diff's own source text, is the diff itself. */
  lemma DeltaRoundTrip(ds: Script)
    requires AllWritable(ds)
    ensures ReadAll(Source(ds), SplitTabs(Join(Tokens(ds))), 0) == Ok(ds)
  {
    forall i | 0 <= i < |Tokens(ds)| ensures NoTab(Tokens(ds)[i]) {
      TokenPlain(ds[i]);
    }
    SplitJoin(Tokens(ds));
    assert Source(ds)[0..] == Source(ds);
    if ds != [] {
      TokensRoundTrip(ds, Source(ds), 0);
    } else {
      assert ReadAll([], [[]], 0) == ReadAll([], [[]][1..], 0);
    }
  }

  /** `diff_toDelta` followed by `diff_fromDelta` */
  method ThereAndBack(diffs: Script) returns (back: Parsed)
    requires AllWritable(diffs)
    ensures back == Ok(diffs)
  {
    var source := Text1(diffs);
    var delta := ToDelta(diffs);
    DeltaRoundTrip(diffs);
    back := FromDelta(source, delta.value);
  }
}
