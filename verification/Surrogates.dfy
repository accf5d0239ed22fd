/** The JSON normaliser: surrogate pairs become UTF-8 in place, so that a decoder of single escapes reads the same
    text. */
module Surrogates {
  import opened Wrappers
  import opened Frames
  import opened Utf8

  type Text = seq<Byte>

  const BACKSLASH: Byte := 0x5C
  const U: Byte := 0x75
  const LIMIT: int := 1024

  // ---- Escapes ----

  function HexDigit(b: Byte): Option<nat> {
    if 0x30 <= b <= 0x39 then Some(b - 0x30)
    else if 0x61 <= b <= 0x66 then Some(b - 0x57)
    else if 0x41 <= b <= 0x46 then Some(b - 0x37)
    else None
  }

  function Span(digits: nat): nat {
    match digits
    case 0 => 1 case 1 => 0x10 case 2 => 0x100 case 3 => 0x1000 case _ => 0x1_0000
  }

  /** The value of a run of hexadecimal digits. */
  function Hex(s: Text): (r: Option<nat>)
    ensures r.Some? && |s| <= 4 ==> r.value < Span(|s|)
    ensures r.Some? ==> forall i :: 0 <= i < |s| ==> s[i] != BACKSLASH
  {
    if s == [] then Some(0)
    else
      var last := |s| - 1;
      match Hex(s[..last])
      case None => None
      case Some(n) => match HexDigit(s[last]) case None => None case Some(d) => Some(n * 16 + d)
  }

  predicate OpensUnit(s: Text) {
    |s| >= 2 && s[0] == BACKSLASH && s[1] == U
  }

  /** The code unit of a leading `\uXXXX`. */
  function UnitOf(s: Text): (r: Option<nat>)
    ensures r.Some? ==> |s| >= 6 && OpensUnit(s) && r.value < 0x1_0000 && forall i :: 2 <= i < 6 ==> s[i] != BACKSLASH
  {
    if OpensUnit(s) && |s| >= 6 then Hex(s[2..6]) else None
  }

  predicate IsHigh(n: nat) {
    0xD800 <= n <= 0xDBFF
  }

  predicate IsLow(n: nat) {
    0xDC00 <= n <= 0xDFFF
  }

  /** The scalar value two surrogates stand for. */
  function Paired(high: nat, low: nat): (n: Scalar)
    requires IsHigh(high) && IsLow(low)
    ensures 0x1_0000 <= n < 0x11_0000
  {
    0x1_0000 + (high - 0xD800) * 0x400 + low - 0xDC00
  }

  // ---- What the normaliser computes ----

  predicate OpensPair(s: Text) {
    UnitOf(s).Some? && IsHigh(UnitOf(s).value)
  }

  /** Longest prefix the normaliser handles at once, and what it writes for it. */
  function Chunk(s: Text): (r: Result<(nat, Text), ()>)
    requires s != []
    ensures r.Success? ==> 1 <= r.value.0 <= |s| && |r.value.1| <= r.value.0
  {
    if OpensUnit(s) && UnitOf(s).None? then Failure(())
    else if OpensPair(s) then
      var low := UnitOf(s[6..]);
      if low.None? || !IsLow(low.value) then Failure(())
      else Success((12, EncodeScalar(Paired(UnitOf(s).value, low.value))))
    else if s[0] == BACKSLASH && |s| > 1 then Success((2, s[..2]))
    else Success((1, s[..1]))
  }

  function Normal(s: Text): Result<Text, ()> {
    if s == [] then Success([])
    else
      var c :- Chunk(s);
      var rest :- Normal(s[c.0..]);
      Success(c.1 + rest)
  }

  /** The UTF-8 of a leading surrogate pair, nothing for any other text, or a refusal. */
  method TakePair(rest: Text) returns (r: Result<Option<Text>, ()>)
    requires rest != []
    ensures match r
            case Failure(_) => Chunk(rest).Failure?
            case Success(Some(bytes)) => Chunk(rest) == Success((12, bytes))
            case Success(None) =>
              Chunk(rest) ==
                if rest[0] == BACKSLASH && |rest| > 1 then Success((2, rest[..2])) else Success((1, rest[..1]))
  {
    if !OpensUnit(rest) {
      return Success(None);
    }
    if |rest| < 6 {
      return Failure(());
    }
    var high := Hex(rest[2..6]);
    if high.None? {
      return Failure(());
    }
    if !IsHigh(high.value) {
      return Success(None);
    }
    if |rest| < 8 || rest[6..8] != [BACKSLASH, U] || |rest| < 12 {
      NoLow(rest);
      return Failure(());
    }
    var low := Hex(rest[8..12]);
    assert rest[6..][2..6] == rest[8..12];
    if low.None? || !IsLow(low.value) {
      return Failure(());
    }
    return Success(Some(EncodeScalar(Paired(high.value, low.value))));
  }

  /** `decode`'s loop: fills a fixed buffer, never writing past what has been read. */
  method Normalise(input: Text) returns (r: Result<Text, ()>)
    ensures r == if |input| > 1024 then Failure(()) else Normal(input)
  {
    hide Normal, Chunk;
    if |input| > LIMIT {
      return Failure(());
    }
    var normalized := new Byte[LIMIT](_ => 0);
    var read, written: nat := 0, 0;
    assert input[0..] == input;
    PrefixedByNothing(Normal(input));
    while read < |input|
      invariant written <= read <= |input|
      invariant Normal(input) == Prefixed(normalized[..written], Normal(input[read..]))
    {
      ghost var before := normalized[..written];
      var pair := TakePair(input[read..]);
      if pair.Failure? {
        Stops(input[read..], before);
        return Failure(());
      }
      if pair.value.Some? {
        var bytes := pair.value.value;
        ChunkFits(input[read..]);
        CopyInto(normalized, written, bytes);
        written := written + |bytes|;
        Advance(input, read, before, 12, bytes);
        assert normalized[..written] == before + bytes;
        read := read + 12;
      } else {
        ghost var start := read;
        normalized[written] := input[read];
        written := written + 1;
        if input[read] == BACKSLASH && read + 1 < |input| {
          read := read + 1;
          normalized[written] := input[read];
          written := written + 1;
        }
        read := read + 1;
        Advance(input, start, before, read - start, input[start..][..read - start]);
        assert normalized[..written] == before + input[start..][..read - start];
      }
    }
    NothingLeft(normalized[..written], input[read..]);
    return Success(normalized[..written]);
  }

  lemma PrefixedByNothing(r: Result<Text, ()>)
    ensures Prefixed([], r) == r
  {
    if r.Success? {
      assert [] + r.value == r.value;
    }
  }

  lemma NothingLeft(front: Text, rest: Text)
    requires rest == []
    ensures Prefixed(front, Normal(rest)) == Success(front)
  {
    assert front + [] == front;
  }

  lemma Stops(rest: Text, front: Text)
    requires rest != [] && Chunk(rest).Failure?
    ensures Prefixed(front, Normal(rest)) == Failure(())
  {
  }

  lemma ChunkFits(rest: Text)
    requires rest != [] && Chunk(rest).Success?
    ensures |Chunk(rest).value.1| <= Chunk(rest).value.0 <= |rest|
  {
  }

  function Prefixed(front: Text, r: Result<Text, ()>): Result<Text, ()> {
    if r.Success? then Success(front + r.value) else r
  }

  lemma NoLow(s: Text)
    requires OpensPair(s) && (|s| < 8 || s[6..8] != [BACKSLASH, U] || |s| < 12)
    ensures UnitOf(s[6..]).None?
  {
    if |s| >= 8 {
      assert s[6..][0] == s[6] && s[6..][1] == s[7];
      assert s[6..8] == [s[6], s[7]];
    }
  }

  lemma Advance(input: Text, read: nat, front: Text, n: nat, out: Text)
    requires read < |input| && Chunk(input[read..]) == Success((n, out))
    ensures Prefixed(front, Normal(input[read..])) == Prefixed(front + out, Normal(input[read + n..]))
  {
    assert input[read..][n..] == input[read + n..];
    if Normal(input[read + n..]).Success? {
      var rest := Normal(input[read + n..]).value;
      assert front + (out + rest) == front + out + rest;
    }
  }

  // ---- What a text means ----

  /** A byte as a lexer sees it: written out, or spelled by an escape (which never ends a string). */
  datatype Lexeme = Plain(b: Byte) | Escaped(b: Byte)

  function PlainAll(s: Text): seq<Lexeme> {
    if s == [] then [] else [Plain(s[0])] + PlainAll(s[1..])
  }

  function Spelled(n: Scalar): seq<Lexeme> {
    if n < 0x80 then [Escaped(n)] else PlainAll(EncodeScalar(n))
  }

  /** The two-byte escapes of section 7 of RFC 8259. */
  function EscapeByte(b: Byte): Option<Byte> {
    match b
    case 0x22 => Some(0x22)
    case 0x5C => Some(0x5C)
    case 0x2F => Some(0x2F)
    case 0x62 => Some(0x08)
    case 0x66 => Some(0x0C)
    case 0x6E => Some(0x0A)
    case 0x72 => Some(0x0D)
    case 0x74 => Some(0x09)
    case _ => None
  }

  function Then(front: seq<Lexeme>, rest: Option<seq<Lexeme>>): Option<seq<Lexeme>> {
    if rest.Some? then Some(front + rest.value) else None
  }

  /** The meaning of a text under the full rule: a high and a low surrogate escape together are one scalar. */
  function PairRead(s: Text): Option<seq<Lexeme>>
    decreases |s|
  {
    if s == [] then Some([])
    else if s[0] != BACKSLASH then Then([Plain(s[0])], PairRead(s[1..]))
    else if |s| == 1 then None
    else if s[1] != U then
      var e := EscapeByte(s[1]);
      if e.None? then None else Then([Escaped(e.value)], PairRead(s[2..]))
    else
      match UnitOf(s)
      case None => None
      case Some(n) =>
        if IsHigh(n) then
          var low := UnitOf(s[6..]);
          if low.None? || !IsLow(low.value) then None
          else Then(Spelled(Paired(n, low.value)), PairRead(s[12..]))
        else if IsLow(n) then None
        else Then(Spelled(n), PairRead(s[6..]))
  }

  /** The meaning of a text to a decoder that knows each escape on its own and no surrogate. */
  function SingleRead(s: Text): Option<seq<Lexeme>> {
    if s == [] then Some([])
    else if s[0] != BACKSLASH then Then([Plain(s[0])], SingleRead(s[1..]))
    else if |s| == 1 then None
    else if s[1] != U then
      var e := EscapeByte(s[1]);
      if e.None? then None else Then([Escaped(e.value)], SingleRead(s[2..]))
    else
      match UnitOf(s)
      case None => None
      case Some(n) => if IsHigh(n) || IsLow(n) then None else Then(Spelled(n), SingleRead(s[6..]))
  }

  lemma {:induction false} PlainRead(front: Text, s: Text)
    requires forall i :: 0 <= i < |front| ==> front[i] != BACKSLASH
    ensures SingleRead(front + s) == Then(PlainAll(front), SingleRead(s))
  {
    if front == [] {
      assert front + s == s;
      if SingleRead(s).Some? {
        assert [] + SingleRead(s).value == SingleRead(s).value;
      }
    } else {
      PlainRead(front[1..], s);
      assert (front + s)[1..] == front[1..] + s;
      if SingleRead(s).Some? {
        assert [Plain(front[0])] + (PlainAll(front[1..]) + SingleRead(s).value)
            == [Plain(front[0])] + PlainAll(front[1..]) + SingleRead(s).value;
      }
    }
  }

  lemma UnitReads(s: Text, t: Text)
    requires UnitOf(s).Some?
    ensures UnitOf(s[..6] + t) == UnitOf(s)
  {
    assert (s[..6] + t)[2..6] == s[2..6];
  }

  lemma PrefixedTwice(a: Text, b: Text, r: Result<Text, ()>)
    ensures Prefixed(a, Prefixed(b, r)) == Prefixed(a + b, r)
  {
    if r.Success? {
      assert a + (b + r.value) == a + b + r.value;
    }
  }

  lemma OnePasses(s: Text)
    requires s != [] && s[0] != BACKSLASH
    ensures Normal(s) == Prefixed(s[..1], Normal(s[1..]))
    ensures HasFault(s) == HasFault(s[1..])
  {
  }

  /** Bytes that start no escape pass through one by one. */
  lemma {:induction false} PlainPasses(s: Text, n: nat)
    requires n <= |s| && forall i :: 0 <= i < n ==> s[i] != BACKSLASH
    ensures Normal(s) == Prefixed(s[..n], Normal(s[n..]))
    ensures HasFault(s) == HasFault(s[n..])
  {
    hide Normal, HasFault;
    if n == 0 {
      assert s[0..] == s;
      PrefixedByNothing(Normal(s));
    } else {
      OnePasses(s);
      PlainPasses(s[1..], n - 1);
      assert s[1..][n - 1..] == s[n..];
      assert s[..1] + s[1..][..n - 1] == s[..n];
      PrefixedTwice(s[..1], s[1..][..n - 1], Normal(s[n..]));
    }
  }

  lemma EscapePasses(s: Text)
    requires |s| >= 2 && s[0] == BACKSLASH && !OpensPair(s) && (OpensUnit(s) ==> UnitOf(s).Some?)
    ensures Normal(s) == Prefixed(s[..2], Normal(s[2..]))
    ensures HasFault(s) == HasFault(s[2..])
  {
  }

  /** An ordinary unit escape passes through whole. */
  lemma UnitPasses(s: Text)
    requires UnitOf(s).Some? && !IsHigh(UnitOf(s).value)
    ensures Normal(s) == Prefixed(s[..6], Normal(s[6..]))
    ensures HasFault(s) == HasFault(s[6..])
  {
    EscapePasses(s);
    hide Normal, HasFault;
    PlainPasses(s[2..], 4);
    assert s[2..][4..] == s[6..] && s[..2] + s[2..][..4] == s[..6];
    PrefixedTwice(s[..2], s[2..][..4], Normal(s[6..]));
  }

  // ---- Preservation ----

  /** Reading the normalised text escape by escape gives what the pair rule gives on the original; a refused
      text has no meaning under the pair rule. */
  lemma {:induction false} MeaningIsPreserved(s: Text)
    ensures Normal(s).Success? ==> SingleRead(Normal(s).value) == PairRead(s)
    ensures Normal(s).Failure? ==> PairRead(s).None?
    decreases |s|
  {
    if s == [] {
    } else if s[0] != BACKSLASH {
      MeaningIsPreserved(s[1..]);
      PlainPasses(s, 1);
      if Normal(s).Success? {
        PlainRead(s[..1], Normal(s[1..]).value);
      }
    } else if |s| == 1 {
    } else if s[1] != U {
      MeaningIsPreserved(s[2..]);
      EscapeMeans(s);
    } else if UnitOf(s).None? {
    } else if !IsHigh(UnitOf(s).value) {
      MeaningIsPreserved(s[6..]);
      UnitPasses(s);
      UnitMeans(s);
    } else if UnitOf(s[6..]).None? || !IsLow(UnitOf(s[6..]).value) {
    } else {
      MeaningIsPreserved(s[12..]);
      PairMeans(s);
    }
  }

  lemma EscapeMeans(s: Text)
    requires |s| >= 2 && s[0] == BACKSLASH && s[1] != U
    ensures Normal(s) == Prefixed(s[..2], Normal(s[2..]))
    ensures Normal(s).Success? && SingleRead(Normal(s[2..]).value) == PairRead(s[2..]) ==>
              SingleRead(Normal(s).value) == PairRead(s)
    ensures PairRead(s[2..]).None? ==> PairRead(s).None?
  {
    if Normal(s).Success? {
      var t := Normal(s[2..]).value;
      assert (s[..2] + t)[2..] == t;
    }
  }

  lemma UnitMeans(s: Text)
    requires UnitOf(s).Some? && !IsHigh(UnitOf(s).value)
    requires Normal(s) == Prefixed(s[..6], Normal(s[6..]))
    ensures Normal(s).Success? && SingleRead(Normal(s[6..]).value) == PairRead(s[6..]) ==>
              SingleRead(Normal(s).value) == PairRead(s)
    ensures PairRead(s[6..]).None? ==> PairRead(s).None?
  {
    if Normal(s).Success? {
      var t := Normal(s[6..]).value;
      UnitReads(s, t);
      assert (s[..6] + t)[6..] == t;
    }
  }

  lemma PairMeans(s: Text)
    requires OpensPair(s) && UnitOf(s[6..]).Some? && IsLow(UnitOf(s[6..]).value)
    ensures Normal(s).Success? && SingleRead(Normal(s[12..]).value) == PairRead(s[12..]) ==>
              SingleRead(Normal(s).value) == PairRead(s)
    ensures PairRead(s[12..]).None? ==> PairRead(s).None?
    ensures Normal(s).Success? <==> Normal(s[12..]).Success?
  {
    var bytes := EncodeScalar(Paired(UnitOf(s).value, UnitOf(s[6..]).value));
    if Normal(s).Success? {
      PlainRead(bytes, Normal(s[12..]).value);
    }
  }

  // ---- Refusals ----

  /** A unit escape with bad digits, or a high surrogate with no low surrogate escape right after it. */
  predicate Faulty(s: Text) {
    && OpensUnit(s)
    && (UnitOf(s).None?
        || (IsHigh(UnitOf(s).value) && (UnitOf(s[6..]).None? || !IsLow(UnitOf(s[6..]).value))))
  }

  /** An escape takes two bytes, anything else one. */
  function Token(s: Text): (n: nat)
    requires s != []
    ensures 1 <= n <= |s|
  {
    if s[0] == BACKSLASH && |s| > 1 then 2 else 1
  }

  predicate HasFault(s: Text) {
    s != [] && (Faulty(s) || HasFault(s[Token(s)..]))
  }

  lemma PairHasNoFault(s: Text)
    requires OpensPair(s) && UnitOf(s[6..]).Some? && IsLow(UnitOf(s[6..]).value)
    ensures HasFault(s) == HasFault(s[12..])
  {
    PlainPasses(s[2..], 4);
    assert s[2..][4..] == s[6..];
    UnitPasses(s[6..]);
    assert s[6..][6..] == s[12..];
  }

  /** The normaliser refuses exactly the texts with a faulty escape somewhere. */
  lemma {:induction false} RefusesExactlyFaults(s: Text)
    ensures Normal(s).Failure? <==> HasFault(s)
    decreases |s|
  {
    if s != [] && !Faulty(s) {
      if OpensPair(s) {
        RefusesExactlyFaults(s[12..]);
        PairHasNoFault(s);
      } else {
        RefusesExactlyFaults(s[Token(s)..]);
      }
    }
  }

  /** The normalised text is never longer. */
  lemma {:induction false} NeverLonger(s: Text)
    requires Normal(s).Success?
    ensures |Normal(s).value| <= |s|
    decreases |s|
  {
    if s != [] {
      NeverLonger(s[Chunk(s).value.0..]);
    }
  }

  // ---- What a writer produces ----

  const LOWER := "0123456789abcdef"
  const UPPER := "0123456789ABCDEF"

  /** The byte is the hexadecimal digit of value `d`, in either case. */
  predicate IsDigit(b: Byte, d: nat) {
    d < 16 && (b == LOWER[d] as int || b == UPPER[d] as int)
  }

  lemma DigitIsRead(b: Byte, d: nat)
    requires IsDigit(b, d)
    ensures HexDigit(b) == Some(d)
  {
  }

  lemma ReadIsDigit(b: Byte)
    requires HexDigit(b).Some?
    ensures IsDigit(b, HexDigit(b).value)
  {
  }

  /** The number a run of digit values stands for. */
  function Base16(ds: seq<nat>): nat {
    if ds == [] then 0 else Base16(ds[..|ds| - 1]) * 16 + ds[|ds| - 1]
  }

  /** Digits spelled in either case are read as the number they stand for. */
  lemma {:induction false} DigitsAreRead(s: Text, ds: seq<nat>)
    requires |s| == |ds| && forall i :: 0 <= i < |s| ==> IsDigit(s[i], ds[i])
    ensures Hex(s) == Some(Base16(ds))
  {
    hide HexDigit;
    if s != [] {
      var last := |s| - 1;
      DigitsAreRead(s[..last], ds[..last]);
      DigitIsRead(s[last], ds[last]);
    }
  }

  /** One of the 22 hexadecimal digits. */
  predicate Legible(b: Byte) {
    exists d :: 0 <= d < 16 && IsDigit(b, d)
  }

  lemma DigitsAreDigits(b: Byte)
    ensures HexDigit(b).Some? <==> Legible(b)
  {
    if HexDigit(b).Some? {
      ReadIsDigit(b);
    }
    if Legible(b) {
      var d: nat :| 0 <= d < 16 && IsDigit(b, d);
      DigitIsRead(b, d);
    }
  }

  /** Nothing else is read at all. */
  lemma {:induction false} OnlyDigitsAreRead(s: Text)
    ensures Hex(s).Some? <==> forall i :: 0 <= i < |s| ==> Legible(s[i])
  {
    hide HexDigit, Legible;
    if s != [] {
      var last := |s| - 1;
      OnlyDigitsAreRead(s[..last]);
      DigitsAreDigits(s[last]);
      assert forall i :: 0 <= i < last ==> s[..last][i] == s[i];
    }
  }

  function Digit(d: nat, letters: string): Byte
    requires d < 16 && (letters == LOWER || letters == UPPER)
  {
    letters[d] as int
  }

  /** A unit escape, in the digits of `letters`. */
  function Escape(unit: nat, letters: string): (s: Text)
    requires unit < 0x1_0000 && (letters == LOWER || letters == UPPER)
    ensures |s| == 6
  {
    [BACKSLASH, U, Digit(unit / 0x1000, letters), Digit(unit / 0x100 % 0x10, letters),
     Digit(unit / 0x10 % 0x10, letters), Digit(unit % 0x10, letters)]
  }

  lemma EscapeIsRead(unit: nat, letters: string, rest: Text)
    requires unit < 0x1_0000 && (letters == LOWER || letters == UPPER)
    ensures UnitOf(Escape(unit, letters) + rest) == Some(unit)
  {
    var s := Escape(unit, letters) + rest;
    var ds := [unit / 0x1000, unit / 0x100 % 0x10, unit / 0x10 % 0x10, unit % 0x10];
    assert s[2..6] == [s[2], s[3], s[4], s[5]];
    hide Hex;
    DigitsAreRead(s[2..6], ds);
    FourDigits(unit);
  }

  lemma FourDigits(unit: nat)
    ensures Base16([unit / 0x1000, unit / 0x100 % 0x10, unit / 0x10 % 0x10, unit % 0x10]) == unit
  {
    hide Base16;
    var a, b, c, d := unit / 0x1000, unit / 0x100 % 0x10, unit / 0x10 % 0x10, unit % 0x10;
    OneMoreDigit([], a);
    OneMoreDigit([a], b);
    OneMoreDigit([a, b], c);
    OneMoreDigit([a, b, c], d);
    NoDigits();
    assert [] + [a] == [a] && [a] + [b] == [a, b] && [a, b] + [c] == [a, b, c] && [a, b, c] + [d] == [a, b, c, d];
    SplitDigits(unit);
  }

  lemma SplitDigits(unit: nat)
    ensures unit / 0x100 == unit / 0x1000 * 0x10 + unit / 0x100 % 0x10
    ensures unit / 0x10 == unit / 0x100 * 0x10 + unit / 0x10 % 0x10
    ensures unit == unit / 0x10 * 0x10 + unit % 0x10
  {
  }

  lemma OneMoreDigit(ds: seq<nat>, d: nat)
    ensures Base16(ds + [d]) == Base16(ds) * 16 + d
  {
    assert (ds + [d])[..|ds|] == ds;
  }

  lemma NoDigits()
    ensures Base16([]) == 0
  {
  }

  lemma PairIsOnto(n: Scalar)
    requires n >= 0x1_0000
    ensures var high, low := 0xD800 + (n - 0x1_0000) / 0x400, 0xDC00 + (n - 0x1_0000) % 0x400;
            IsHigh(high) && IsLow(low) && Paired(high, low) == n
  {
  }

  /** A text that opens with two surrogate escapes is normalised to their scalar's UTF-8 and the rest. */
  lemma PairNormalises(s: Text, high: nat, low: nat)
    requires |s| >= 12 && UnitOf(s) == Some(high) && UnitOf(s[6..]) == Some(low) && IsHigh(high) && IsLow(low)
    ensures Normal(s) == Prefixed(EncodeScalar(Paired(high, low)), Normal(s[12..]))
  {
    hide UnitOf, EncodeScalar, Paired;
  }

  /** Any scalar past the first plane, written as its two surrogate escapes in either case, is normalised to its
      UTF-8, whatever follows. */
  lemma PairIsWritten(n: Scalar, upper: string, lower: string, rest: Text)
    requires n >= 0x1_0000 && (upper == LOWER || upper == UPPER) && (lower == LOWER || lower == UPPER)
    ensures var high, low := 0xD800 + (n - 0x1_0000) / 0x400, 0xDC00 + (n - 0x1_0000) % 0x400;
            Normal(Escape(high, upper) + Escape(low, lower) + rest) == Prefixed(EncodeScalar(n), Normal(rest))
  {
    hide UnitOf, Escape, EncodeScalar, Normal, IsHigh, IsLow, Paired;
    var high, low := 0xD800 + (n - 0x1_0000) / 0x400, 0xDC00 + (n - 0x1_0000) % 0x400;
    var first, second := Escape(high, upper), Escape(low, lower);
    var s := first + second + rest;
    EscapeIsRead(high, upper, second + rest);
    EscapeIsRead(low, lower, rest);
    assert s == first + (second + rest);
    assert s[6..] == second + rest && s[12..] == rest;
    PairIsOnto(n);
    PairNormalises(s, high, low);
  }

  /** A grinning face: two escapes become four bytes. */
  lemma GrinningFace()
    ensures Normal(Escape(0xD83D, LOWER) + Escape(0xDE00, LOWER)) == Success([0xF0, 0x9F, 0x98, 0x80])
  {
    hide Escape, Normal;
    var s := Escape(0xD83D, LOWER) + Escape(0xDE00, LOWER);
    assert s + [] == s;
    PairIsWritten(0x1F600, LOWER, LOWER, []);
    NothingLeft(EncodeScalar(0x1F600), []);
  }
}
