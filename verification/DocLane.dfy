/** The document lane frame codec: kind (u8), lane id (u64, big-endian), payload. */
module DocLane {
  import opened Text

  const LANE_HEADER_BYTES: nat := 9
  const MAX_SAFE_INTEGER: nat := 0x1F_FFFF_FFFF_FFFF

  datatype LaneFrame = LaneFrame(kind: nat, laneId: nat, payload: Bytes)

  /** The bytes of a number, most significant first. */
  function BigEndian(n: nat, width: nat): (b: Bytes)
    ensures |b| == width
  {
    if width == 0 then [] else BigEndian(n / 256, width - 1) + [n % 256]
  }

  function FromBigEndian(b: Bytes): nat {
    if b == [] then 0 else FromBigEndian(b[..|b| - 1]) * 256 + b[|b| - 1]
  }

  function Pow256(k: nat): (p: nat)
    ensures p > 0
  {
    if k == 0 then 1 else 256 * Pow256(k - 1)
  }

  lemma {:induction false} BigEndianValue(n: nat, width: nat)
    requires n < Pow256(width)
    ensures FromBigEndian(BigEndian(n, width)) == n
  {
    if width > 0 {
      BigEndianValue(n / 256, width - 1);
      assert BigEndian(n, width)[..width - 1] == BigEndian(n / 256, width - 1);
    }
  }

  lemma {:induction false} ValueBigEndian(b: Bytes)
    ensures FromBigEndian(b) < Pow256(|b|) && BigEndian(FromBigEndian(b), |b|) == b
  {
    if b != [] {
      ValueBigEndian(b[..|b| - 1]);
      assert b == b[..|b| - 1] + [b[|b| - 1]];
    }
  }

  lemma EightBytes()
    ensures Pow256(8) == 0x1_0000_0000_0000_0000
  {
    assert Pow256(4) == 0x1_0000_0000;
  }

  lemma TimesGrows(d: nat, m: nat, n: nat)
    requires m <= n
    ensures d * m <= d * n
  {
  }

  lemma Quotient(d: nat, q: nat, r: nat)
    requires r < d
    ensures (d * q + r) / d == q
  {
    var n := d * q + r;
    var t := n / d;
    assert n == d * t + n % d && 0 <= n % d < d;
    if t < q {
      TimesGrows(d, t + 1, q);
    } else if q < t {
      TimesGrows(d, q + 1, t);
    }
  }

  lemma DivideTwice(n: nat, d: nat)
    requires d > 0
    ensures 256 * d > 0 && n / 256 / d == n / (256 * d)
  {
    var q := n / 256 / d;
    assert n == 256 * (n / 256) + n % 256 && n / 256 == d * q + n / 256 % d;
    var rest := 256 * (n / 256 % d) + n % 256;
    assert n == 256 * d * q + rest && 0 <= rest < 256 * d;
    Quotient(256 * d, q, rest);
  }

  lemma {:induction false} BigEndianAt(n: nat, width: nat, k: nat)
    requires k < width
    ensures BigEndian(n, width)[k] == n / Pow256(width - 1 - k) % 256
  {
    if k < width - 1 {
      BigEndianAt(n / 256, width - 1, k);
      DivideTwice(n, Pow256(width - 2 - k));
    }
  }

  /** The frame of a kind, a lane id and a payload; None where the encoder throws. */
  function Encoded(kind: int, laneId: int, payload: Bytes): Option<Bytes> {
    if !(0 <= kind <= 0xFF) || !(0 <= laneId <= MAX_SAFE_INTEGER) then None
    else Some([kind] + BigEndian(laneId, 8) + payload)
  }

  /** `decodeLaneFrame`; None where it throws. */
  function Decoded(data: Bytes): Option<LaneFrame> {
    if |data| < LANE_HEADER_BYTES then None
    else if FromBigEndian(data[1..9]) > MAX_SAFE_INTEGER then None
    else Some(LaneFrame(data[0], FromBigEndian(data[1..9]), data[9..]))
  }

  /** `view.setBigUint64(offset, value)`. */
  method SetBigUint64(frame: array<byte>, offset: nat, value: nat)
    requires offset + 8 <= frame.Length
    modifies frame
    ensures frame[..] == old(frame[..offset]) + BigEndian(value, 8) + old(frame[offset + 8..])
  {
    var rest := value;
    var i := 8;
    while i > 0
      invariant 0 <= i <= 8 && BigEndian(value, 8) == BigEndian(rest, i) + frame[offset + i..offset + 8]
      invariant frame[..offset] == old(frame[..offset]) && frame[offset + 8..] == old(frame[offset + 8..])
    {
      i := i - 1;
      frame[offset + i] := rest % 256;
      rest := rest / 256;
      assert frame[offset + i..offset + 8] == [frame[offset + i]] + frame[offset + i + 1..offset + 8];
    }
    assert frame[..] == frame[..offset] + frame[offset..offset + 8] + frame[offset + 8..];
  }

  /** `encodeLaneFrame`: fills a new buffer in place. */
  method EncodeLaneFrame(kind: int, laneId: int, payload: Bytes) returns (frame: array?<byte>)
    ensures frame == null <==> Encoded(kind, laneId, payload).None?
    ensures frame != null ==> fresh(frame) && Some(frame[..]) == Encoded(kind, laneId, payload)
  {
    if !(0 <= kind <= 0xFF) || !(0 <= laneId <= MAX_SAFE_INTEGER) {
      return null;
    }
    var buffer := new byte[LANE_HEADER_BYTES + |payload|];
    buffer[0] := kind;
    SetBigUint64(buffer, 1, laneId);
    for i := 0 to |payload|
      invariant buffer[..9] == [kind] + BigEndian(laneId, 8)
      invariant buffer[9..9 + i] == payload[..i]
    {
      buffer[9 + i] := payload[i];
    }
    assert payload[..|payload|] == payload;
    assert buffer[..] == ([kind] + BigEndian(laneId, 8)) + payload;
    return buffer;
  }

  /** Where the parts of a frame stand: the kind, the lane id's eight bytes, the most significant first, and the payload. */
  lemma FrameLayout(kind: int, laneId: int, payload: Bytes)
    requires Encoded(kind, laneId, payload).Some?
    ensures var data := Encoded(kind, laneId, payload).value;
      && |data| == LANE_HEADER_BYTES + |payload| && data[0] == kind && data[9..] == payload
      && forall k | 1 <= k < 9 :: data[k] == laneId / Pow256(8 - k) % 256
  {
    var data := Encoded(kind, laneId, payload).value;
    forall k | 1 <= k < 9 ensures data[k] == laneId / Pow256(8 - k) % 256 {
      BigEndianAt(laneId, 8, k - 1);
    }
  }

  /** Decoding a frame gives back its kind, lane id and payload. */
  lemma DecodeEncode(kind: int, laneId: int, payload: Bytes)
    requires Encoded(kind, laneId, payload).Some?
    ensures Decoded(Encoded(kind, laneId, payload).value) == Some(LaneFrame(kind, laneId, payload))
  {
    var data := [kind] + BigEndian(laneId, 8) + payload;
    EightBytes();
    BigEndianValue(laneId, 8);
    assert data[1..9] == BigEndian(laneId, 8) && data[9..] == payload;
  }

  /** Every buffer the decoder accepts is the encoding of what it reads; it accepts exactly the encodings. */
  lemma EncodeDecode(data: Bytes)
    ensures Decoded(data).Some? <==> exists kind: int, laneId: int, payload :: Encoded(kind, laneId, payload) == Some(data)
    ensures Decoded(data).Some? ==>
      var f := Decoded(data).value; Encoded(f.kind, f.laneId, f.payload) == Some(data)
  {
    if Decoded(data).Some? {
      var f := Decoded(data).value;
      ValueBigEndian(data[1..9]);
      assert data == [data[0]] + data[1..9] + data[9..];
      assert Encoded(f.kind, f.laneId, f.payload) == Some(data);
    }
    if exists kind: int, laneId: int, payload :: Encoded(kind, laneId, payload) == Some(data) {
      var kind: int, laneId: int, payload :| Encoded(kind, laneId, payload) == Some(data);
      DecodeEncode(kind, laneId, payload);
    }
  }
}
