/** The journal's fixed-size frames: magic, little-endian length, checksum, payload, zero padding. */
module Frames {
  import opened Wrappers
  import opened Types

  type Byte = b: int | 0 <= b < 256 witness 0

  const FRAME_SIZE: int := 1024
  const HEADER: int := 12
  const U32: int := 0x1_0000_0000
  const MAGIC: seq<Byte> := [0x4E, 0x43, 0x52, 0x31]

  type Frame = f: seq<Byte> | |f| == FRAME_SIZE witness seq(FRAME_SIZE, _ => 0 as Byte)

  /** `u32::to_le_bytes`. */
  function LittleEndian(n: nat): (r: seq<Byte>)
    requires n < U32
    ensures |r| == 4
  {
    [n % 0x100, n / 0x100 % 0x100, n / 0x1_0000 % 0x100, n / 0x100_0000]
  }

  /** `u32::from_le_bytes`. */
  function FromLittleEndian(s: seq<Byte>): (r: nat)
    requires |s| == 4
    ensures r < U32
  {
    var a: int, b: int, c: int, d: int := s[0], s[1], s[2], s[3];
    a + b * 0x100 + c * 0x1_0000 + d * 0x100_0000
  }

  lemma LittleEndianRoundTrip(n: nat)
    requires n < U32
    ensures FromLittleEndian(LittleEndian(n)) == n
  {
    var a, b, c := n / 0x100, n / 0x1_0000, n / 0x100_0000;
    assert n == n % 0x100 + a * 0x100 && a == a % 0x100 + b * 0x100 && b == b % 0x100 + c * 0x100;
  }

  lemma LittleEndianIsOnto(s: seq<Byte>)
    requires |s| == 4
    ensures LittleEndian(FromLittleEndian(s)) == s
  {
    var n := FromLittleEndian(s);
    var b: int, c: int, d: int := s[1], s[2], s[3];
    assert n / 0x100 == b + c * 0x100 + d * 0x1_0000;
    assert n / 0x1_0000 == c + d * 0x100;
    assert n / 0x100_0000 == d;
  }

  /** The number bytes stand for, least significant first. */
  function Value(s: seq<Byte>): nat {
    if s == [] then 0 else s[0] as int + 256 * Value(s[1..])
  }

  lemma LeastFirst(s: seq<Byte>)
    requires |s| == 4
    ensures FromLittleEndian(s) == Value(s)
  {
    assert s[1..][1..] == s[2..] && s[2..][1..] == s[3..] && s[3..][1..] == [];
    assert Value(s[3..]) == s[3] as int && Value(s[2..]) == s[2] as int + 256 * Value(s[3..]);
    assert Value(s[1..]) == s[1] as int + 256 * Value(s[2..]);
  }

  function Zeros(n: nat): (r: seq<Byte>)
    ensures |r| == n
  {
    seq(n, _ => 0)
  }

  /** A checksum is any function into 32 bits. */
  ghost predicate IsChecksum(crc: seq<Byte> -> nat) {
    forall s :: crc(s) < U32
  }

  function FrameOf(payload: seq<Byte>, checksum: nat): Frame
    requires |payload| <= FRAME_SIZE - HEADER && checksum < U32
  {
    MAGIC + LittleEndian(|payload|) + LittleEndian(checksum) + payload + Zeros(FRAME_SIZE - HEADER - |payload|)
  }

  function Payload(frame: Frame, crc: seq<Byte> -> nat): Result<seq<Byte>, Error> {
    var len := FromLittleEndian(frame[4..8]);
    var checksum := FromLittleEndian(frame[8..12]);
    :- Need(frame[..4] == MAGIC && len <= FRAME_SIZE - HEADER, CorruptJournal);
    :- Need(crc(frame[HEADER..HEADER + len]) == checksum, CorruptJournal);
    :- Need(forall i :: HEADER + len <= i < FRAME_SIZE ==> frame[i] == 0, CorruptJournal);
    Success(frame[HEADER..HEADER + len])
  }

  /** What lies where in a frame. */
  lemma FrameParts(payload: seq<Byte>, checksum: nat)
    requires |payload| <= FRAME_SIZE - HEADER && checksum < U32
    ensures var f := FrameOf(payload, checksum);
            && f[..4] == [0x4E, 0x43, 0x52, 0x31] && f[4..8] == LittleEndian(|payload|)
            && f[8..12] == LittleEndian(checksum) && f[12..12 + |payload|] == payload
            && forall i :: 12 + |payload| <= i < 1024 ==> f[i] == 0
  {
  }

  /** What was framed is read back. */
  lemma FramedIsRead(payload: seq<Byte>, crc: seq<Byte> -> nat)
    requires IsChecksum(crc) && |payload| <= FRAME_SIZE - HEADER
    ensures Payload(FrameOf(payload, crc(payload)), crc) == Success(payload)
  {
    FrameParts(payload, crc(payload));
    LittleEndianRoundTrip(|payload|);
    LittleEndianRoundTrip(crc(payload));
  }

  /** Whatever is read at all is the one canonical frame of its payload. */
  lemma ReadIsCanonical(frame: Frame, crc: seq<Byte> -> nat)
    requires IsChecksum(crc) && Payload(frame, crc).Success?
    ensures var payload := Payload(frame, crc).value;
            |payload| <= FRAME_SIZE - HEADER && frame == FrameOf(payload, crc(payload))
  {
    var payload := Payload(frame, crc).value;
    var len := FromLittleEndian(frame[4..8]);
    LittleEndianIsOnto(frame[4..8]);
    LittleEndianIsOnto(frame[8..12]);
    assert payload == frame[HEADER..HEADER + len];
    assert frame[HEADER + len..] == Zeros(FRAME_SIZE - HEADER - len);
    assert frame == frame[..4] + frame[4..8] + frame[8..12] + frame[HEADER..HEADER + len] + frame[HEADER + len..];
  }

  /** `encode`: fills a zeroed buffer piece by piece. */
  method FillFrame(payload: seq<Byte>, checksum: nat) returns (buffer: array<Byte>)
    requires |payload| <= FRAME_SIZE - HEADER && checksum < U32
    ensures fresh(buffer) && buffer[..] == FrameOf(payload, checksum)
  {
    buffer := new Byte[FRAME_SIZE](_ => 0);
    CopyInto(buffer, 0, MAGIC);
    CopyInto(buffer, HEADER, payload);
    CopyInto(buffer, 4, LittleEndian(|payload|));
    CopyInto(buffer, 8, LittleEndian(checksum));
    FrameParts(payload, checksum);
    var f := FrameOf(payload, checksum);
    forall i | 0 <= i < FRAME_SIZE ensures buffer[i] == f[i] {
      if i < 4 {
        assert f[i] == f[..4][i];
      } else if i < 8 {
        assert f[i] == f[4..8][i - 4];
      } else if i < 12 {
        assert f[i] == f[8..12][i - 8];
      } else if i < HEADER + |payload| {
        assert f[i] == f[HEADER..HEADER + |payload|][i - HEADER];
      }
    }
  }

  /** `copy_from_slice` at an offset. */
  method CopyInto(buffer: array<Byte>, offset: nat, piece: seq<Byte>)
    requires offset + |piece| <= buffer.Length
    modifies buffer
    ensures forall i :: 0 <= i < buffer.Length ==>
              buffer[i] == if offset <= i < offset + |piece| then piece[i - offset] else old(buffer[i])
  {
    for k := 0 to |piece|
      invariant forall i :: 0 <= i < buffer.Length ==>
                  buffer[i] == if offset <= i < offset + k then piece[i - offset] else old(buffer[i])
    {
      buffer[offset + k] := piece[k];
    }
  }
}
