/** UTF-8 (section 3 of RFC 3629): one to four bytes per scalar value. */
module Utf8 {
  import opened Wrappers
  import opened Frames

  type Scalar = n: nat | n < 0xD800 || 0xE000 <= n < 0x11_0000 witness 0

  predicate IsScalar(n: int) {
    0 <= n < 0xD800 || 0xE000 <= n < 0x11_0000
  }

  function EncodeScalar(n: Scalar): (r: seq<Byte>)
    ensures 1 <= |r| <= 4
    ensures n >= 0x80 ==> forall i :: 0 <= i < |r| ==> r[i] >= 0x80
  {
    if n < 0x80 then [n]
    else if n < 0x800 then [0xC0 + n / 0x40, 0x80 + n % 0x40]
    else if n < 0x1_0000 then [0xE0 + n / 0x1000, 0x80 + n / 0x40 % 0x40, 0x80 + n % 0x40]
    else [0xF0 + n / 0x4_0000, 0x80 + n / 0x1000 % 0x40, 0x80 + n / 0x40 % 0x40, 0x80 + n % 0x40]
  }

  function EncodeAll(text: seq<Scalar>): seq<Byte> {
    if text == [] then [] else EncodeScalar(text[0]) + EncodeAll(text[1..])
  }

  predicate IsTail(b: Byte) {
    0x80 <= b < 0xC0
  }

  /** How many bytes the first scalar takes, by its first byte; 0 when no scalar starts so. */
  function Width(b: Byte): nat {
    if b < 0x80 then 1
    else if 0xC0 <= b < 0xE0 then 2
    else if 0xE0 <= b < 0xF0 then 3
    else if 0xF0 <= b < 0xF8 then 4
    else 0
  }

  function Join(high: int, low: int): int {
    high * 0x40 + (low - 0x80)
  }

  /** The payload bits of a whole sequence. */
  function Assemble(s: seq<Byte>): int
    requires 1 <= |s| <= 4 && Width(s[0]) == |s|
  {
    var lead: int := s[0];
    match |s|
    case 1 => lead
    case 2 => Join(lead - 0xC0, s[1])
    case 3 => Join(Join(lead - 0xE0, s[1]), s[2])
    case _ => Join(Join(Join(lead - 0xF0, s[1]), s[2]), s[3])
  }

  /** The least scalar that needs `width` bytes: anything smaller would be overlong. */
  function Least(width: nat): nat {
    match width
    case 2 => 0x80
    case 3 => 0x800
    case 4 => 0x1_0000
    case _ => 0
  }

  /** The first scalar and its width, refusing stray, truncated, overlong and surrogate forms. */
  function DecodeFirst(s: seq<Byte>): (r: Option<(Scalar, nat)>)
    requires s != []
    ensures r.Some? ==> 1 <= r.value.1 <= |s|
  {
    var w := Width(s[0]);
    if w == 0 || w > |s| || !(forall i :: 1 <= i < w ==> IsTail(s[i])) then None
    else
      var n := Assemble(s[..w]);
      if n < Least(w) || !IsScalar(n) then None else Some((n, w))
  }

  function DecodeAll(s: seq<Byte>): Option<seq<Scalar>> {
    if s == [] then Some([])
    else
      match DecodeFirst(s)
      case None => None
      case Some((n, w)) =>
        match DecodeAll(s[w..])
        case None => None
        case Some(rest) => Some([n] + rest)
  }

  lemma FirstDecodes(n: Scalar, rest: seq<Byte>)
    ensures DecodeFirst(EncodeScalar(n) + rest) == Some((n, |EncodeScalar(n)|))
  {
    var e := EncodeScalar(n);
    var s := e + rest;
    assert s[..|e|] == e;
    assert forall i :: 0 <= i < |e| ==> s[i] == e[i];
    Digits(n);
    AssemblesBack(n);
  }

  lemma AssemblesBack(n: Scalar)
    ensures var e := EncodeScalar(n);
            Width(e[0]) == |e| && (forall i :: 1 <= i < |e| ==> IsTail(e[i])) && Assemble(e) == n && n >= Least(|e|)
  {
    Digits(n);
  }

  /** What a byte adds to its marker. */
  function Beyond(b: int, marker: int): int {
    b - marker
  }

  /** The bit patterns of the encoding: 0xxxxxxx, 110xxxxx 10xxxxxx, 1110xxxx and two tails, 11110xxx and three tails,
      the bits of the scalar in the x positions from the first byte to the last, in the shortest form. */
  lemma EncodingHasBits(n: Scalar)
    ensures var e := EncodeScalar(n);
            && (forall i :: 1 <= i < |e| ==> 0x80 <= e[i] <= 0xBF)
            && match |e|
               case 1 => n == e[0] && n <= 0x7F
               case 2 => n >= 0x80 && e[0] <= 0xDF && n == Beyond(e[0], 0xC0) * 64 + Beyond(e[1], 0x80)
               case 3 =>
                 && n >= 0x800 && 0xE0 <= e[0] <= 0xEF
                 && n == Beyond(e[0], 0xE0) * 4096 + Beyond(e[1], 0x80) * 64 + Beyond(e[2], 0x80)
               case _ =>
                 && n >= 0x1_0000 && 0xF0 <= e[0] <= 0xF7
                 && n == Beyond(e[0], 0xF0) * 262_144 + Beyond(e[1], 0x80) * 4096 + Beyond(e[2], 0x80) * 64
                         + Beyond(e[3], 0x80)
  {
    Digits(n);
  }

  lemma Digits(n: nat)
    ensures n == n / 0x40 * 0x40 + n % 0x40
    ensures n / 0x40 == n / 0x1000 * 0x40 + n / 0x40 % 0x40
    ensures n / 0x1000 == n / 0x4_0000 * 0x40 + n / 0x1000 % 0x40
  {
  }

  /** Every text is read back from its encoding. */
  lemma {:induction false} EncodedIsRead(text: seq<Scalar>)
    ensures DecodeAll(EncodeAll(text)) == Some(text)
  {
    if text != [] {
      EncodedIsRead(text[1..]);
      var e, rest := EncodeScalar(text[0]), EncodeAll(text[1..]);
      FirstDecodes(text[0], rest);
      assert (e + rest)[|e|..] == rest;
      assert [text[0]] + text[1..] == text;
    }
  }

  lemma FirstIsCanonical(s: seq<Byte>)
    requires s != [] && DecodeFirst(s).Some?
    ensures EncodeScalar(DecodeFirst(s).value.0) == s[..DecodeFirst(s).value.1]
  {
    var (n, w) := DecodeFirst(s).value;
    var d := s[..w];
    hide DecodeFirst;
    var lead: int := d[0];
    if w == 2 {
      Split(lead - 0xC0, d[1]);
    } else if w == 3 {
      Split(lead - 0xE0, d[1]);
      Split(Join(lead - 0xE0, d[1]), d[2]);
      DivTwice(n);
    } else if w == 4 {
      Split(lead - 0xF0, d[1]);
      Split(Join(lead - 0xF0, d[1]), d[2]);
      Split(Join(Join(lead - 0xF0, d[1]), d[2]), d[3]);
      DivTwice(n);
    }
  }

  lemma Split(high: int, low: int)
    requires 0x80 <= low < 0xC0
    ensures Join(high, low) / 0x40 == high && Join(high, low) % 0x40 == low - 0x80
  {
  }

  lemma DivTwice(n: int)
    ensures n / 0x1000 == n / 0x40 / 0x40 && n / 0x4_0000 == n / 0x1000 / 0x40
  {
  }

  /** Whatever is read at all is the one encoding of its text. */
  lemma {:induction false} ReadIsCanonical(s: seq<Byte>)
    requires DecodeAll(s).Some?
    ensures EncodeAll(DecodeAll(s).value) == s
    decreases |s|
  {
    hide DecodeFirst, EncodeScalar;
    if s != [] {
      var (n, w) := DecodeFirst(s).value;
      FirstIsCanonical(s);
      ReadIsCanonical(s[w..]);
      var rest := DecodeAll(s[w..]).value;
      assert DecodeAll(s).value == [n] + rest && ([n] + rest)[1..] == rest;
      assert s[..w] + s[w..] == s;
    }
  }
}
