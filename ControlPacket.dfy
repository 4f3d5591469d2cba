/** The binary control packet sent to the physics simulator: a packed record of
    magic, frame_rate, frame_count and sixteen pwm words, every field in
    network byte order (big-endian), 2 + 2 + 4 + 32 = 40 bytes. */
module ControlPacket {

  type Byte = x: int | 0 <= x < 256

  const MAGIC: int := 18458
  const PWM_CHANNELS: nat := 16
  const PACKET_SIZE: nat := 40
  /** Offset of pwm[0]; pwm[i] occupies bytes PWM_OFFSET + 2i and PWM_OFFSET + 2i + 1. */
  const PWM_OFFSET: nat := 8

  predicate IsU16(x: int) { 0 <= x < 0x1_0000 }
  predicate IsU32(x: int) { 0 <= x < 0x1_0000_0000 }

  /** The packet's fields as host integers. */
  datatype Frame = Frame(magic: int, frameRate: int, frameCount: int, pwm: seq<int>)

  predicate WellFormed(f: Frame)
  {
    && IsU16(f.magic)
    && IsU16(f.frameRate)
    && IsU32(f.frameCount)
    && |f.pwm| == PWM_CHANNELS
    && forall i :: 0 <= i < |f.pwm| ==> IsU16(f.pwm[i])
  }

  /** A 16-bit value in network byte order. */
  function Be16(x: int): seq<Byte>
    requires IsU16(x)
  {
    [x / 0x100, x % 0x100]
  }

  /** A 32-bit value in network byte order. */
  function Be32(x: int): seq<Byte>
    requires IsU32(x)
  {
    [x / 0x100_0000, (x / 0x1_0000) % 0x100, (x / 0x100) % 0x100, x % 0x100]
  }

  function PwmBytes(ws: seq<int>): (b: seq<Byte>)
    requires forall i :: 0 <= i < |ws| ==> IsU16(ws[i])
    ensures |b| == 2 * |ws|
  {
    if ws == [] then [] else Be16(ws[0]) + PwmBytes(ws[1..])
  }

  /** The 40 bytes handed to the transport for frame `f`. */
  function Encode(f: Frame): (b: seq<Byte>)
    requires WellFormed(f)
    ensures |b| == PACKET_SIZE
  {
    Be16(f.magic) + Be16(f.frameRate) + Be32(f.frameCount) + PwmBytes(f.pwm)
  }

  /** An independent big-endian reader of a 16-bit field at `off`. */
  function U16At(b: seq<Byte>, off: nat): (x: int)
    requires off + 2 <= |b|
    ensures IsU16(x)
  {
    (b[off] as int) * 0x100 + b[off + 1]
  }

  /** An independent big-endian reader of a 32-bit field at `off`. */
  function U32At(b: seq<Byte>, off: nat): (x: int)
    requires off + 4 <= |b|
    ensures IsU32(x)
  {
    (b[off] as int) * 0x100_0000 + (b[off + 1] as int) * 0x1_0000 + (b[off + 2] as int) * 0x100 + b[off + 3]
  }

  /** Reads a received packet back into its fields, as the simulator does. */
  function Decode(b: seq<Byte>): (f: Frame)
    requires |b| == PACKET_SIZE
    ensures WellFormed(f)
  {
    Frame(U16At(b, 0), U16At(b, 2), U32At(b, 4),
          seq(PWM_CHANNELS, i requires 0 <= i < PWM_CHANNELS => U16At(b, PWM_OFFSET + 2 * i)))
  }

  /** pwm[i] of a control frame is the rounded actuator value shifted by 1500. */
  function PwmWord(r: int): (w: int)
    ensures -500 <= r <= 500 ==> 1000 <= w <= 2000
    ensures r == -500 ==> w == 1000
    ensures r == 0 ==> w == 1500
    ensures r == 500 ==> w == 2000
  {
    r + 1500
  }

  lemma {:induction false} PwmBytesAt(ws: seq<int>, i: nat)
    requires forall k :: 0 <= k < |ws| ==> IsU16(ws[k])
    requires i < |ws|
    ensures PwmBytes(ws)[2 * i] == ws[i] / 0x100
    ensures PwmBytes(ws)[2 * i + 1] == ws[i] % 0x100
  {
    if i > 0 {
      PwmBytesAt(ws[1..], i - 1);
      assert PwmBytes(ws) == Be16(ws[0]) + PwmBytes(ws[1..]);
    }
  }

  /** The layout table: where each field of a frame lands in the 40 bytes. */
  lemma EncodeLayout(f: Frame)
    requires WellFormed(f)
    ensures Encode(f)[0] == f.magic / 0x100 && Encode(f)[1] == f.magic % 0x100
    ensures Encode(f)[2] == f.frameRate / 0x100 && Encode(f)[3] == f.frameRate % 0x100
    ensures Encode(f)[4..8] == Be32(f.frameCount)
    ensures forall i :: 0 <= i < PWM_CHANNELS ==>
              Encode(f)[PWM_OFFSET + 2 * i] == f.pwm[i] / 0x100 &&
              Encode(f)[PWM_OFFSET + 2 * i + 1] == f.pwm[i] % 0x100
  {
    var e := Encode(f);
    assert e[PWM_OFFSET..] == PwmBytes(f.pwm);
    forall i | 0 <= i < PWM_CHANNELS
      ensures e[PWM_OFFSET + 2 * i] == f.pwm[i] / 0x100
      ensures e[PWM_OFFSET + 2 * i + 1] == f.pwm[i] % 0x100
    {
      PwmBytesAt(f.pwm, i);
      assert e[PWM_OFFSET + 2 * i] == e[PWM_OFFSET..][2 * i];
      assert e[PWM_OFFSET + 2 * i + 1] == e[PWM_OFFSET..][2 * i + 1];
    }
  }

  /** Conversely, a 40-byte packet with that layout is the encoding of `f`. */
  lemma LayoutDeterminesEncoding(b: seq<Byte>, f: Frame)
    requires WellFormed(f) && |b| == PACKET_SIZE
    requires b[0] == f.magic / 0x100 && b[1] == f.magic % 0x100
    requires b[2] == f.frameRate / 0x100 && b[3] == f.frameRate % 0x100
    requires b[4..8] == Be32(f.frameCount)
    requires forall i :: 0 <= i < PWM_CHANNELS ==>
               b[PWM_OFFSET + 2 * i] == f.pwm[i] / 0x100 &&
               b[PWM_OFFSET + 2 * i + 1] == f.pwm[i] % 0x100
    ensures b == Encode(f)
  {
    EncodeLayout(f);
    var e := Encode(f);
    forall k | 0 <= k < PACKET_SIZE ensures b[k] == e[k] {
      if k >= PWM_OFFSET {
        var i := (k - PWM_OFFSET) / 2;
        assert 0 <= i < PWM_CHANNELS;
        if k == PWM_OFFSET + 2 * i {
          assert b[k] == f.pwm[i] / 0x100 == e[k];
        } else {
          assert k == PWM_OFFSET + 2 * i + 1;
          assert b[k] == f.pwm[i] % 0x100 == e[k];
        }
      } else if 4 <= k < 8 {
        assert b[k] == b[4..8][k - 4] && e[k] == e[4..8][k - 4];
      }
    }
  }

  /** A 16-bit field written in network byte order reads back as its value. */
  lemma Be16RoundTrip(x: int)
    requires IsU16(x)
    ensures U16At(Be16(x), 0) == x
  {
    assert x == (x / 0x100) * 0x100 + x % 0x100;
  }

  /** A 32-bit field written in network byte order reads back as its value. */
  lemma Be32RoundTrip(x: int)
    requires IsU32(x)
    ensures U32At(Be32(x), 0) == x
  {
    var q1 := x / 0x100;
    var q2 := q1 / 0x100;
    var q3 := q2 / 0x100;
    assert x == q1 * 0x100 + x % 0x100;
    assert q1 == q2 * 0x100 + q1 % 0x100;
    assert q2 == q3 * 0x100 + q2 % 0x100;
    assert x / 0x1_0000 == q2;
    assert x / 0x100_0000 == q3;
  }

  /** An independent decoder recovers every field of an encoded frame. */
  lemma DecodeEncode(f: Frame)
    requires WellFormed(f)
    ensures Decode(Encode(f)) == f
  {
    var e := Encode(f);
    EncodeLayout(f);
    Be16RoundTrip(f.magic);
    Be16RoundTrip(f.frameRate);
    Be32RoundTrip(f.frameCount);
    assert e[4..8][0] == e[4] && e[4..8][1] == e[5] && e[4..8][2] == e[6] && e[4..8][3] == e[7];
    var d := Decode(e);
    forall i | 0 <= i < PWM_CHANNELS
      ensures d.pwm[i] == f.pwm[i]
    {
      Be16RoundTrip(f.pwm[i]);
    }
  }

  lemma DivMod8(hi: int, lo: int)
    requires 0 <= lo < 0x100
    ensures (hi * 0x100 + lo) / 0x100 == hi && (hi * 0x100 + lo) % 0x100 == lo
  {
  }

  lemma DivMod16(hi: int, lo: int)
    requires 0 <= lo < 0x1_0000
    ensures (hi * 0x1_0000 + lo) / 0x1_0000 == hi
  {
  }

  lemma DivMod24(hi: int, lo: int)
    requires 0 <= lo < 0x100_0000
    ensures (hi * 0x100_0000 + lo) / 0x100_0000 == hi
  {
  }

  /** Every 40-byte string is the encoding of the frame it decodes to, so the
      encoding is a bijection between well-formed frames and packets. */
  lemma EncodeDecode(b: seq<Byte>)
    requires |b| == PACKET_SIZE
    ensures Encode(Decode(b)) == b
  {
    var f := Decode(b);
    var e := Encode(f);
    EncodeLayout(f);
    DivMod8(b[0], b[1]);
    DivMod8(b[2], b[3]);
    forall i | 0 <= i < PWM_CHANNELS
      ensures e[PWM_OFFSET + 2 * i] == b[PWM_OFFSET + 2 * i]
      ensures e[PWM_OFFSET + 2 * i + 1] == b[PWM_OFFSET + 2 * i + 1]
    {
      assert f.pwm[i] == (b[PWM_OFFSET + 2 * i] as int) * 0x100 + b[PWM_OFFSET + 2 * i + 1];
      DivMod8(b[PWM_OFFSET + 2 * i], b[PWM_OFFSET + 2 * i + 1]);
    }
    var c := f.frameCount;
    var b4, b5, b6, b7: int := b[4], b[5], b[6], b[7];
    var t := b5 * 0x1_0000 + b6 * 0x100 + b7;
    DivMod24(b4, t);
    var u := b4 * 0x100 + b5;
    assert c == u * 0x1_0000 + (b6 * 0x100 + b7);
    DivMod16(u, b6 * 0x100 + b7);
    DivMod8(b4, b5);
    var v := u * 0x100 + b6;
    assert c == v * 0x100 + b7;
    DivMod8(v, b7);
    DivMod8(u, b6);
    assert e[4..8] == Be32(c);
    forall k | 0 <= k < PACKET_SIZE ensures e[k] == b[k] {
      if k >= PWM_OFFSET {
        var i := (k - PWM_OFFSET) / 2;
        assert k == PWM_OFFSET + 2 * i || k == PWM_OFFSET + 2 * i + 1;
      } else if 4 <= k < 8 {
        assert e[k] == e[4..8][k - 4];
      }
    }
  }
}
