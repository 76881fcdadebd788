/**
 * The base framing protocol of `WebSocketUtils` (section 5.2 of RFC 6455): the frame
 * serialiser `create_frame`, the frame parser `parse_frame` with the unmasking rule of
 * section 5.3, and the masked client frame that `WebSocketClient::sendMessage` builds.
 *
 * Bytes are numbers in 0..255, and the bit operations of the C++ code are written as
 * arithmetic on them: for a byte `b`, `(b & 0x80) != 0` is `b >= 0x80`, `(b & 0x40) != 0`
 * is `b % 0x80 >= 0x40`, `(b & 0x20) != 0` is `b % 0x40 >= 0x20`, `(b & 0x10) != 0` is
 * `b % 0x20 >= 0x10`, `b & 0x0F` is `b % 0x10`, `b & 0x7F` is `b % 0x80`, and
 * `(n >> (8 * i)) & 0xFF` is `ByteOf(n, i)`.
 */
module WebSocketFrames {
  import opened Wrappers
  import opened Bytes

  /** `WebSocketOpcode`: `parse_frame` keeps any value of the low nibble of the first byte. */
  type Opcode = x: int | 0 <= x < 16

  /** `WebSocketOpcode::TEXT`, the opcode `sendMessage` uses. */
  const TEXT: Opcode := 0x1

  /** One more than the largest `uint64_t`. */
  const TWO_POW_64: nat := 0x1_0000_0000_0000_0000

  /** An `uint32_t`. */
  type Word32 = x: int | 0 <= x < 0x1_0000_0000

  /** The masking key `WebSocketClient::sendMessage` uses for every frame. */
  const CLIENT_MASKING_KEY: Word32 := 0x12345678

  /**
   * `WebSocketFrame`. When the mask bit is clear the C++ code leaves `masking_key`
   * uninitialised; the model sets it to 0.
   */
  datatype Frame = Frame(
    fin: bool,
    rsv1: bool,
    rsv2: bool,
    rsv3: bool,
    opcode: Opcode,
    mask: bool,
    payloadLength: nat,
    maskingKey: Word32,
    payload: seq<Byte>)

  /** The four `std::runtime_error`s `parse_frame` throws. */
  datatype ParseError =
    | FrameTooShort
    | TooShortForExtendedLength
    | TooShortForMaskingKey
    | TooShortForPayload

  // ----- Big-endian numbers -----

  function Pow256(n: nat): (r: nat)
    ensures r >= 1
  {
    if n == 0 then 1 else 256 * Pow256(n - 1)
  }

  /** The unsigned number whose big-endian representation is `s`. */
  function BigEndian(s: seq<Byte>): (v: nat)
    ensures v < Pow256(|s|)
  {
    if s == [] then 0 else BigEndian(s[..|s| - 1]) * 256 + s[|s| - 1]
  }

  /** `(n >> (8 * i)) & 0xFF`: byte `i` of `n`, counting from the least significant one. */
  function ByteOf(n: nat, i: nat): Byte
  {
    if i == 0 then n % 256 else ByteOf(n / 256, i - 1)
  }

  /** The last `width` bytes of the big-endian representation of `n`. */
  function BigEndianBytes(n: nat, width: nat): (s: seq<Byte>)
    ensures |s| == width
  {
    if width == 0 then [] else BigEndianBytes(n / 256, width - 1) + [n % 256]
  }

  /** Byte `k` of `BigEndianBytes(n, width)` is what the shift expression `(n >> (8 * (width - 1 - k))) & 0xFF` gives. */
  lemma {:induction false} BigEndianBytesAt(n: nat, width: nat, k: nat)
    requires k < width
    ensures BigEndianBytes(n, width)[k] == ByteOf(n, width - 1 - k)
  {
    if k < width - 1 {
      BigEndianBytesAt(n / 256, width - 1, k);
    }
  }

  /** All the bytes of `BigEndianBytes(n, width)`, as the shift expressions give them. */
  lemma BigEndianBytesShifts(n: nat, width: nat)
    ensures forall k :: 0 <= k < width ==> BigEndianBytes(n, width)[k] == ByteOf(n, width - 1 - k)
  {
    forall k | 0 <= k < width
      ensures BigEndianBytes(n, width)[k] == ByteOf(n, width - 1 - k)
    {
      BigEndianBytesAt(n, width, k);
    }
  }

  /** Reading back `width` big-endian bytes gives the number, when it fits. */
  lemma {:induction false} BigEndianRoundTrip(n: nat, width: nat)
    requires n < Pow256(width)
    ensures BigEndian(BigEndianBytes(n, width)) == n
  {
    if width > 0 {
      var s := BigEndianBytes(n, width);
      assert s[..|s| - 1] == BigEndianBytes(n / 256, width - 1);
      BigEndianRoundTrip(n / 256, width - 1);
    }
  }

  /** `(s[0] << 8) | s[1]` */
  lemma BigEndianTwo(s: seq<Byte>)
    requires |s| == 2
    ensures BigEndian(s) == s[0] as int * 256 + s[1]
  {
    assert s[..1][..0] == [];
  }

  /** `(s[0] << 24) | (s[1] << 16) | (s[2] << 8) | s[3]` */
  lemma BigEndianFour(s: seq<Byte>)
    requires |s| == 4
    ensures BigEndian(s) == s[0] as int * 0x100_0000 + s[1] as int * 0x1_0000 + s[2] as int * 0x100 + s[3]
  {
    assert s[..3][..2] == s[..2];
    BigEndianTwo(s[..2]);
  }

  /** A run of 0xFF bytes reads as the largest number of its width. */
  lemma {:induction false} BigEndianAllOnes(s: seq<Byte>)
    requires forall i :: 0 <= i < |s| ==> s[i] == 0xFF
    ensures BigEndian(s) == Pow256(|s|) - 1
  {
    if s != [] {
      BigEndianAllOnes(s[..|s| - 1]);
    }
  }

  // ----- Masking (section 5.3 of RFC 6455) -----

  /** `(key >> (8 * (3 - j))) & 0xFF`: byte `j` of the key, most significant first. */
  function KeyByte(key: Word32, j: nat): Byte
    requires j < 4
  {
    ByteOf(key, 3 - j)
  }

  /** The four bytes `sendMessage` inserts for a key. */
  function KeyBytes(key: Word32): (s: seq<Byte>)
    ensures |s| == 4
    ensures forall j :: 0 <= j < 4 ==> s[j] == KeyByte(key, j)
  {
    [KeyByte(key, 0), KeyByte(key, 1), KeyByte(key, 2), KeyByte(key, 3)]
  }

  /** `(d[0] << 24) | (d[1] << 16) | (d[2] << 8) | d[3]`: the bytes do not overlap, so the ORs are sums. */
  function KeyOf(s: seq<Byte>): Word32
    requires |s| == 4
  {
    s[0] as int * 0x100_0000 + s[1] as int * 0x1_0000 + s[2] as int * 0x100 + s[3]
  }

  /** The key bytes written by the client are read back as the same key. */
  lemma KeyRoundTrip(key: Word32)
    ensures KeyOf(KeyBytes(key)) == key
  {
    var s := KeyBytes(key);
    BigEndianBytesShifts(key, 4);
    assert s == BigEndianBytes(key, 4);
    assert Pow256(4) == 0x1_0000_0000;
    BigEndianRoundTrip(key, 4);
    BigEndianFour(s);
  }

  /** Payload byte `i` is XORed with byte `i mod 4` of the key, most significant first. */
  function Mask(p: seq<Byte>, key: Word32): (r: seq<Byte>)
    ensures |r| == |p|
    ensures forall i :: 0 <= i < |p| ==> r[i] == Xor(p[i], KeyByte(key, i % 4))
  {
    seq(|p|, i requires 0 <= i < |p| => Xor(p[i], KeyByte(key, i % 4)))
  }

  /** Masking twice with the same key gives back the payload: unmasking undoes masking. */
  lemma MaskInvolution(p: seq<Byte>, key: Word32)
    ensures Mask(Mask(p, key), key) == p
  {
    var r := Mask(Mask(p, key), key);
    forall i | 0 <= i < |p|
      ensures r[i] == p[i]
    {
      XorTwice(p[i], KeyByte(key, i % 4));
    }
  }

  // ----- create_frame -----

  /** `b | 0x80`: sets the high bit and keeps the other seven. */
  function OrHighBit(b: Byte): (r: Byte)
    ensures r >= 0x80 && r % 0x80 == b % 0x80
  {
    if b >= 0x80 then b else b + 0x80
  }

  /** The first byte: FIN in bit 7, RSV1-3 clear, the opcode in the low nibble. */
  function FirstByte(opcode: Opcode, fin: bool): Byte
  {
    if fin then OrHighBit(opcode) else opcode
  }

  /** The number of header bytes before the payload of an unmasked frame. */
  function HeaderLength(n: nat): nat
  {
    if n < 126 then 2 else if n <= 0xFFFF then 4 else 10
  }

  /** The second byte (mask bit clear) and the extended payload length, if any. */
  function LengthField(n: nat): (s: seq<Byte>)
    requires n < TWO_POW_64
    ensures |s| == HeaderLength(n) - 1
    ensures n < 126 ==> s[0] == n
    ensures 126 <= n <= 0xFFFF ==> s[0] == 126 && BigEndian(s[1..]) == n
    ensures 0xFFFF < n ==> s[0] == 127 && BigEndian(s[1..]) == n
  {
    if n < 126 then
      [n]
    else if n <= 0xFFFF then
      BigEndianRoundTrip(n, 2);
      [126] + BigEndianBytes(n, 2)
    else
      assert Pow256(8) == TWO_POW_64;
      BigEndianRoundTrip(n, 8);
      [127] + BigEndianBytes(n, 8)
  }

  /** What `create_frame(opcode, payload, fin)` returns. */
  function EncodeFrame(opcode: Opcode, payload: CString, fin: bool): (frame: seq<Byte>)
    requires |payload| < TWO_POW_64
    ensures |frame| == HeaderLength(|payload|) + |payload|
    ensures frame[HeaderLength(|payload|)..] == ToBytes(payload)
  {
    [FirstByte(opcode, fin)] + LengthField(|payload|) + ToBytes(payload)
  }

  /**
   * The header `create_frame` writes: the opcode in the low nibble, RSV1-3 clear, bit 7
   * set exactly when `fin`, the mask bit clear, then the 7-bit, 16-bit or 64-bit length.
   */
  lemma EncodeFrameHeader(opcode: Opcode, payload: CString, fin: bool)
    requires |payload| < TWO_POW_64
    ensures var frame := EncodeFrame(opcode, payload, fin);
      && frame[0] % 0x10 == opcode && frame[0] % 0x80 < 0x10
      && (frame[0] >= 0x80) == fin
      && frame[1] < 0x80
      && (|payload| < 126 ==> frame[1] == |payload|)
      && (126 <= |payload| <= 0xFFFF ==> frame[1] == 126 && BigEndian(frame[2..4]) == |payload|)
      && (0xFFFF < |payload| ==> frame[1] == 127 && BigEndian(frame[2..10]) == |payload|)
  {
    var frame := EncodeFrame(opcode, payload, fin);
    var lf := LengthField(|payload|);
    assert frame[1] == lf[0];
    if 126 <= |payload| <= 0xFFFF {
      assert frame[2..4] == lf[1..];
    } else if 0xFFFF < |payload| {
      assert frame[2..10] == lf[1..];
    }
  }

  /** `WebSocketUtils::create_frame`: pushes the header bytes, then the payload, onto a growing vector. */
  method CreateFrame(opcode: Opcode, payload: CString, fin: bool) returns (frame: seq<Byte>)
    requires |payload| < TWO_POW_64
    ensures frame == EncodeFrame(opcode, payload, fin)
  {
    var firstByte: Byte := opcode;
    if fin {
      firstByte := OrHighBit(firstByte);
    }
    frame := PushLengthField([firstByte], |payload|);
    ghost var header := frame;
    for i := 0 to |payload|
      invariant frame == header + ToBytes(payload[..i])
    {
      assert payload[..i + 1] == payload[..i] + [payload[i]];
      ToBytesAppend(payload[..i], [payload[i]]);
      frame := frame + [ToByte(payload[i])];
    }
    assert payload[..|payload|] == payload;
  }

  /** The length part of `create_frame`: the 7-bit length, or 126 or 127 and the length byte by byte, most significant first. */
  method PushLengthField(prefix: seq<Byte>, payloadLen: nat) returns (frame: seq<Byte>)
    requires payloadLen < TWO_POW_64
    ensures frame == prefix + LengthField(payloadLen)
  {
    frame := prefix;
    if payloadLen < 126 {
      frame := frame + [payloadLen];
    } else if payloadLen <= 0xFFFF {
      frame := frame + [126];
      frame := frame + [ByteOf(payloadLen, 1)];
      frame := frame + [ByteOf(payloadLen, 0)];
      BigEndianBytesShifts(payloadLen, 2);
      assert frame[|prefix| + 1..] == BigEndianBytes(payloadLen, 2);
    } else {
      frame := PushBigEndian(frame + [127], payloadLen, 8);
    }
  }

  /** The loop of `create_frame` that pushes `width` bytes of `n`, most significant first. */
  method PushBigEndian(prefix: seq<Byte>, n: nat, width: nat) returns (frame: seq<Byte>)
    ensures frame == prefix + BigEndianBytes(n, width)
  {
    frame := prefix;
    var p := |prefix|;
    for i := width downto 0
      invariant |frame| == p + width - i
      invariant frame[..p] == prefix
      invariant forall k :: p <= k < p + width - i ==> frame[k] == ByteOf(n, p + width - 1 - k)
    {
      frame := frame + [ByteOf(n, i)];
    }
    BigEndianBytesShifts(n, width);
    assert frame[p..] == BigEndianBytes(n, width);
  }

  // ----- parse_frame -----

  /** `(data[1] & 0x80) != 0`: whether the mask bit of the second byte is set. */
  predicate MaskBit(data: seq<Byte>)
    requires |data| >= 2
  {
    data[1] >= 0x80
  }

  /** The number of extended-length bytes announced by the 7-bit length `data[1] & 0x7F`. */
  function ExtendedLengthSize(data: seq<Byte>): nat
    requires |data| >= 2
  {
    var len7 := data[1] % 0x80;
    if len7 == 126 then 2 else if len7 == 127 then 8 else 0
  }

  /** The payload length: the 7-bit length, or the 16-bit or 64-bit big-endian length after it. */
  function PayloadLengthOf(data: seq<Byte>): nat
    requires |data| >= 2 && |data| >= 2 + ExtendedLengthSize(data)
  {
    var ext := ExtendedLengthSize(data);
    if ext == 0 then data[1] % 0x80 else BigEndian(data[2..2 + ext])
  }

  /** Where the payload starts: after the length fields and the masking key, if any. */
  function PayloadStart(data: seq<Byte>): nat
    requires |data| >= 2
  {
    2 + ExtendedLengthSize(data) + if MaskBit(data) then 4 else 0
  }

  /** The masking key, or 0 when the mask bit is clear. */
  function MaskingKeyOf(data: seq<Byte>): Word32
    requires |data| >= 2 && |data| >= PayloadStart(data)
  {
    var at := 2 + ExtendedLengthSize(data);
    if MaskBit(data) then KeyOf(data[at..at + 4]) else 0
  }

  /**
   * What `parse_frame(data)` returns or throws. The payload bound is checked on
   * unbounded numbers; `PayloadCheckAsWritten` is the 64-bit check of the C++ code.
   */
  function DecodeFrame(data: seq<Byte>): (r: Result<Frame, ParseError>)
    ensures r.Success? ==> |data| >= 2 && r.value.mask == MaskBit(data)
    ensures r.Success? ==> |r.value.payload| == r.value.payloadLength <= |data|
  {
    if |data| < 2 then Failure(FrameTooShort)
    else if |data| < 2 + ExtendedLengthSize(data) then Failure(TooShortForExtendedLength)
    else if |data| < PayloadStart(data) then Failure(TooShortForMaskingKey)
    else
      var len := PayloadLengthOf(data);
      var start := PayloadStart(data);
      if |data| < start + len then Failure(TooShortForPayload)
      else
        var key := MaskingKeyOf(data);
        var body := data[start..start + len];
        Success(Frame(
          data[0] >= 0x80, data[0] % 0x80 >= 0x40, data[0] % 0x40 >= 0x20, data[0] % 0x20 >= 0x10,
          data[0] % 0x10, MaskBit(data), len, key,
          if MaskBit(data) then Mask(body, key) else body))
  }

  /** `parse_frame` throws exactly when the input stops before the end of a part it needs. */
  lemma DecodeFrameFails(data: seq<Byte>)
    ensures DecodeFrame(data) == Failure(FrameTooShort) <==> |data| < 2
    ensures DecodeFrame(data) == Failure(TooShortForExtendedLength)
      <==> |data| >= 2 && |data| < 2 + ExtendedLengthSize(data)
    ensures DecodeFrame(data) == Failure(TooShortForMaskingKey)
      <==> |data| >= 2 && |data| >= 2 + ExtendedLengthSize(data) && MaskBit(data)
           && |data| < 6 + ExtendedLengthSize(data)
    ensures DecodeFrame(data) == Failure(TooShortForPayload)
      <==> |data| >= 2 && |data| >= PayloadStart(data)
           && |data| < PayloadStart(data) + PayloadLengthOf(data)
  {
  }

  /**
   * `WebSocketUtils::parse_frame`: advances `offset` through the header, accumulates the
   * 64-bit length byte by byte and copies (and unmasks) the payload into a vector of the
   * announced size.
   */
  method ParseFrame(data: seq<Byte>) returns (r: Result<Frame, ParseError>)
    ensures r == DecodeFrame(data)
  {
    if |data| < 2 {
      return Failure(FrameTooShort);
    }
    var offset: nat := 0;
    var firstByte := data[offset];
    offset := offset + 1;
    var fin := firstByte >= 0x80;
    var rsv1 := firstByte % 0x80 >= 0x40;
    var rsv2 := firstByte % 0x40 >= 0x20;
    var rsv3 := firstByte % 0x20 >= 0x10;
    var opcode: Opcode := firstByte % 0x10;

    var secondByte := data[offset];
    offset := offset + 1;
    var mask := secondByte >= 0x80;

    var length := ReadPayloadLength(data);
    if length.Failure? {
      assert DecodeFrame(data) == Failure(TooShortForExtendedLength) by {
        DecodeFrameFails(data);
      }
      return Failure(length.error);
    }
    var payloadLength := length.value;
    offset := offset + ExtendedLengthSize(data);

    var maskingKey: Word32 := 0;
    if mask {
      if |data| < offset + 4 {
        assert DecodeFrame(data) == Failure(TooShortForMaskingKey) by {
          DecodeFrameFails(data);
        }
        return Failure(TooShortForMaskingKey);
      }
      maskingKey := KeyOf(data[offset..offset + 4]);
      offset := offset + 4;
    }
    assert offset == PayloadStart(data) && maskingKey == MaskingKeyOf(data);

    if |data| < offset + payloadLength {
      assert DecodeFrame(data) == Failure(TooShortForPayload) by {
        DecodeFrameFails(data);
      }
      return Failure(TooShortForPayload);
    }

    var payload := CopyPayload(data, offset, payloadLength, mask, maskingKey);
    assert mask == MaskBit(data) && payloadLength == PayloadLengthOf(data);
    ghost var body := data[PayloadStart(data)..PayloadStart(data) + PayloadLengthOf(data)];
    assert payload == if MaskBit(data) then Mask(body, MaskingKeyOf(data)) else body;
    assert firstByte == data[0];
    r := Success(Frame(fin, rsv1, rsv2, rsv3, opcode, mask, payloadLength, maskingKey, payload));
    DecodeFrameSuccess(data);
  }

  /**
   * The part of `parse_frame` that reads the payload length: the 7-bit length, or the
   * 16-bit or 64-bit big-endian length after it, if the input holds it.
   */
  method ReadPayloadLength(data: seq<Byte>) returns (r: Result<nat, ParseError>)
    requires |data| >= 2
    ensures r.Failure? <==> |data| < 2 + ExtendedLengthSize(data)
    ensures r.Failure? ==> r.error == TooShortForExtendedLength
    ensures r.Success? ==> r.value == PayloadLengthOf(data)
  {
    var offset := 2;
    var payloadLen := data[1] % 0x80;
    if payloadLen == 126 {
      if |data| < offset + 2 {
        return Failure(TooShortForExtendedLength);
      }
      BigEndianTwo(data[offset..offset + 2]);
      return Success(data[offset] as int * 256 + data[offset + 1]);
    } else if payloadLen == 127 {
      if |data| < offset + 8 {
        return Failure(TooShortForExtendedLength);
      }
      var v := ReadBigEndian(data, offset, 8);
      return Success(v);
    } else {
      return Success(payloadLen);
    }
  }

  /** The loop of `parse_frame` that reads a 64-bit length: `(payload_length << 8) | byte`, eight times. */
  method ReadBigEndian(data: seq<Byte>, offset: nat, width: nat) returns (v: nat)
    requires offset + width <= |data|
    ensures v == BigEndian(data[offset..offset + width])
  {
    v := 0;
    for i := 0 to width
      invariant v == BigEndian(data[offset..offset + i])
    {
      assert data[offset..offset + i + 1][..i] == data[offset..offset + i];
      v := v * 256 + data[offset + i];
    }
  }

  /**
   * The loop of `parse_frame` that fills the resized payload vector, XORing byte `i` with
   * key byte `i mod 4` when the mask bit is set.
   */
  method CopyPayload(data: seq<Byte>, offset: nat, length: nat, mask: bool, key: Word32)
    returns (payload: seq<Byte>)
    requires offset + length <= |data|
    ensures payload == if mask then Mask(data[offset..offset + length], key) else data[offset..offset + length]
  {
    var buffer := new Byte[length];
    for i := 0 to length
      invariant forall k :: 0 <= k < i ==>
        buffer[k] == if mask then Xor(data[offset + k], KeyByte(key, k % 4)) else data[offset + k]
    {
      buffer[i] := data[offset + i];
      if mask {
        buffer[i] := Xor(buffer[i], KeyByte(key, i % 4));
      }
    }
    payload := buffer[..];
  }

  /**
   * Parsing what `create_frame` built gives back FIN, the opcode, a clear mask bit, the
   * payload length and the payload bytes.
   */
  lemma {:induction false} FrameRoundTrip(opcode: Opcode, payload: CString, fin: bool)
    requires |payload| < TWO_POW_64
    ensures DecodeFrame(EncodeFrame(opcode, payload, fin))
         == Success(Frame(fin, false, false, false, opcode, false, |payload|, 0, ToBytes(payload)))
  {
    var n := |payload|;
    var lf := LengthField(n);
    var b0, b1, ext := FirstByte(opcode, fin), lf[0], lf[1..];
    var body := ToBytes(payload);
    var frame := EncodeFrame(opcode, payload, fin);
    assert frame == [b0, b1] + ext + body;
    assert DecodeFrame(frame) == Success(Frame(b0 >= 0x80, b0 % 0x80 >= 0x40, b0 % 0x40 >= 0x20, b0 % 0x20 >= 0x10,
                                               b0 % 0x10, false, |body|, 0, body)) by {
      DecodeUnmaskedLayout(b0, b1, ext, body);
    }
    FirstByteBits(opcode, fin);
  }

  /** Decoding a frame laid out as first byte, second byte without the mask bit, extended length, payload. */
  lemma DecodeUnmaskedLayout(b0: Byte, b1: Byte, ext: seq<Byte>, body: seq<Byte>)
    requires b1 < 0x80
    requires |ext| == (if b1 == 126 then 2 else if b1 == 127 then 8 else 0)
    requires |body| == if ext == [] then b1 as int else BigEndian(ext)
    ensures DecodeFrame([b0, b1] + ext + body)
         == Success(Frame(b0 >= 0x80, b0 % 0x80 >= 0x40, b0 % 0x40 >= 0x20, b0 % 0x20 >= 0x10,
                          b0 % 0x10, false, |body|, 0, body))
  {
    var data := [b0, b1] + ext + body;
    var h := 2 + |ext|;
    assert !MaskBit(data) && ExtendedLengthSize(data) == |ext| && PayloadStart(data) == h;
    assert PayloadLengthOf(data) == |body| by {
      assert data[2..h] == ext;
    }
    assert data[h..h + |body|] == body;
    assert data[PayloadStart(data)..PayloadStart(data) + PayloadLengthOf(data)] == body;
    assert data[0] == b0;
    DecodeFrameSuccess(data);
  }

  /** The bits of the first byte: FIN, clear RSV bits, and the opcode. */
  lemma FirstByteBits(opcode: Opcode, fin: bool)
    ensures var b := FirstByte(opcode, fin);
      (b >= 0x80) == fin && b % 0x80 < 0x10 && b % 0x40 < 0x20 && b % 0x20 < 0x10 && b % 0x10 == opcode
  {
  }

  /** When the input holds the whole frame, `DecodeFrame` returns its fields. */
  lemma DecodeFrameSuccess(data: seq<Byte>)
    requires |data| >= 2 && |data| >= 2 + ExtendedLengthSize(data)
    requires |data| >= PayloadStart(data) + PayloadLengthOf(data)
    ensures var start, len := PayloadStart(data), PayloadLengthOf(data);
      var body := data[start..start + len];
      DecodeFrame(data) == Success(Frame(
        data[0] >= 0x80, data[0] % 0x80 >= 0x40, data[0] % 0x40 >= 0x20, data[0] % 0x20 >= 0x10,
        data[0] % 0x10, MaskBit(data), len, MaskingKeyOf(data),
        if MaskBit(data) then Mask(body, MaskingKeyOf(data)) else body))
  {
  }

  // ----- The client frame of WebSocketClient::sendMessage -----

  /**
   * The frame `sendMessage` sends, as written: the mask bit is set in byte 1 and the key is
   * inserted at index 2, which precedes the extended payload length when there is one.
   */
  function ClientFrameAsWritten(message: CString): (frame: seq<Byte>)
    requires |message| < TWO_POW_64
    ensures |frame| == HeaderLength(|message|) + 4 + |message|
  {
    var lf := LengthField(|message|);
    [FirstByte(TEXT, true), OrHighBit(lf[0])] + KeyBytes(CLIENT_MASKING_KEY) + lf[1..]
      + Mask(ToBytes(message), CLIENT_MASKING_KEY)
  }

  /**
   * The masked frame of section 5.2 of RFC 6455: the masking key follows the extended
   * payload length.
   */
  function MaskedFrame(opcode: Opcode, payload: CString, fin: bool, key: Word32): (frame: seq<Byte>)
    requires |payload| < TWO_POW_64
    ensures |frame| == HeaderLength(|payload|) + 4 + |payload|
  {
    var lf := LengthField(|payload|);
    [FirstByte(opcode, fin), OrHighBit(lf[0])] + lf[1..] + KeyBytes(key) + Mask(ToBytes(payload), key)
  }

  /**
   * The frame-building part of `WebSocketClient::sendMessage`: sets the mask bit, inserts
   * the key bytes at index 2 and XORs the last `|message|` bytes in place.
   */
  method SendMessageFrame(message: CString) returns (frame: seq<Byte>)
    requires |message| < TWO_POW_64
    ensures frame == ClientFrameAsWritten(message)
  {
    frame := CreateFrame(TEXT, message, true);
    frame := frame[1 := OrHighBit(frame[1])];
    var mask := CLIENT_MASKING_KEY;
    frame := frame[..2] + [KeyByte(mask, 0), KeyByte(mask, 1), KeyByte(mask, 2), KeyByte(mask, 3)] + frame[2..];
    ClientFrameLayout(message);
    frame := MaskTail(frame, |frame| - |message|, mask);
  }

  /** The frame of `sendMessage` before the XOR loop: the encoded frame with the mask bit set and the key inserted at index 2. */
  lemma ClientFrameLayout(message: CString)
    requires |message| < TWO_POW_64
    ensures var f := EncodeFrame(TEXT, message, true);
      var g := f[1 := OrHighBit(f[1])];
      var h := g[..2] + KeyBytes(CLIENT_MASKING_KEY) + g[2..];
      var start := |h| - |message|;
      h[..start] + Mask(h[start..], CLIENT_MASKING_KEY) == ClientFrameAsWritten(message)
  {
    var lf := LengthField(|message|);
    var f := EncodeFrame(TEXT, message, true);
    var g := f[1 := OrHighBit(f[1])];
    var h := g[..2] + KeyBytes(CLIENT_MASKING_KEY) + g[2..];
    var head := [FirstByte(TEXT, true), OrHighBit(lf[0])] + KeyBytes(CLIENT_MASKING_KEY) + lf[1..];
    ClientFrameInserted(message);
    var start := |h| - |message|;
    assert |head| == start;
    assert h[..start] == head;
    assert h[start..] == ToBytes(message);
  }

  /** Setting the mask bit and inserting the key at index 2 of the encoded frame. */
  lemma ClientFrameInserted(message: CString)
    requires |message| < TWO_POW_64
    ensures var lf := LengthField(|message|);
      var f := EncodeFrame(TEXT, message, true);
      var g := f[1 := OrHighBit(f[1])];
      g[..2] + KeyBytes(CLIENT_MASKING_KEY) + g[2..]
        == [FirstByte(TEXT, true), OrHighBit(lf[0])] + KeyBytes(CLIENT_MASKING_KEY) + lf[1..] + ToBytes(message)
  {
    var lf := LengthField(|message|);
    assert lf == [lf[0]] + lf[1..];
    InsertAfterSecond(FirstByte(TEXT, true), lf[0], OrHighBit(lf[0]), KeyBytes(CLIENT_MASKING_KEY), lf[1..] + ToBytes(message));
  }

  /** Replacing the second element of `[a, b] + rest` by `c` and inserting `k` after it. */
  lemma InsertAfterSecond<X>(a: X, b: X, c: X, k: seq<X>, rest: seq<X>)
    ensures var g := ([a, b] + rest)[1 := c];
      g[..2] + k + g[2..] == [a, c] + k + rest
  {
    var g := ([a, b] + rest)[1 := c];
    assert g[..2] == [a, c];
    assert g[2..] == rest;
  }

  /** The XOR loop of `sendMessage`: masks every byte from `start` on with the key bytes in turn. */
  method MaskTail(data: seq<Byte>, start: nat, key: Word32) returns (r: seq<Byte>)
    requires start <= |data|
    ensures r == data[..start] + Mask(data[start..], key)
  {
    r := data;
    var n := |data| - start;
    for i := 0 to n
      invariant |r| == |data|
      invariant r[..start] == data[..start]
      invariant forall k :: start <= k < start + i ==> r[k] == Xor(data[k], KeyByte(key, (k - start) % 4))
      invariant forall k :: start + i <= k < |data| ==> r[k] == data[k]
    {
      r := r[start + i := Xor(r[start + i], KeyByte(key, i % 4))];
    }
    assert r[start..] == Mask(data[start..], key);
    assert r == r[..start] + r[start..];
  }

  /** A masked frame of any length parses back with its key and its payload. */
  lemma {:induction false} MaskedFrameRoundTrip(opcode: Opcode, payload: CString, fin: bool, key: Word32)
    requires |payload| < TWO_POW_64
    ensures DecodeFrame(MaskedFrame(opcode, payload, fin, key))
         == Success(Frame(fin, false, false, false, opcode, true, |payload|, key, ToBytes(payload)))
  {
    var n := |payload|;
    var lf := LengthField(n);
    var b0, b1, ext := FirstByte(opcode, fin), OrHighBit(lf[0]), lf[1..];
    var body := Mask(ToBytes(payload), key);
    var frame := MaskedFrame(opcode, payload, fin, key);
    assert frame == [b0, b1] + ext + KeyBytes(key) + body;
    assert DecodeFrame(frame) == Success(Frame(b0 >= 0x80, b0 % 0x80 >= 0x40, b0 % 0x40 >= 0x20, b0 % 0x20 >= 0x10,
                                               b0 % 0x10, true, |body|, key, Mask(body, key))) by {
      MaskedLengthLayout(n);
      DecodeMaskedLayout(b0, b1, ext, key, body);
    }
    assert Mask(body, key) == ToBytes(payload) by {
      MaskInvolution(ToBytes(payload), key);
    }
    FirstByteBits(opcode, fin);
  }

  /** `LengthField(n)` with the mask bit set announces the extended length that follows it and the length `n`. */
  lemma MaskedLengthLayout(n: nat)
    requires n < TWO_POW_64
    ensures var lf := LengthField(n);
      var b1, ext := OrHighBit(lf[0]), lf[1..];
      && b1 >= 0x80
      && |ext| == (if b1 % 0x80 == 126 then 2 else if b1 % 0x80 == 127 then 8 else 0)
      && n == if ext == [] then b1 % 0x80 else BigEndian(ext)
  {
  }

  /** Decoding a frame laid out as first byte, second byte with the mask bit, extended length, key, payload. */
  lemma DecodeMaskedLayout(b0: Byte, b1: Byte, ext: seq<Byte>, key: Word32, body: seq<Byte>)
    requires b1 >= 0x80
    requires |ext| == (if b1 % 0x80 == 126 then 2 else if b1 % 0x80 == 127 then 8 else 0)
    requires |body| == if ext == [] then b1 % 0x80 else BigEndian(ext)
    ensures DecodeFrame([b0, b1] + ext + KeyBytes(key) + body)
         == Success(Frame(b0 >= 0x80, b0 % 0x80 >= 0x40, b0 % 0x40 >= 0x20, b0 % 0x20 >= 0x10,
                          b0 % 0x10, true, |body|, key, Mask(body, key)))
  {
    var data := [b0, b1] + ext + KeyBytes(key) + body;
    var h := 2 + |ext|;
    assert MaskBit(data) && ExtendedLengthSize(data) == |ext| && PayloadStart(data) == h + 4;
    assert PayloadLengthOf(data) == |body| by {
      assert data[2..h] == ext;
    }
    assert MaskingKeyOf(data) == key by {
      assert data[h..h + 4] == KeyBytes(key);
      KeyRoundTrip(key);
    }
    assert data[h + 4..h + 4 + |body|] == body;
    assert data[PayloadStart(data)..PayloadStart(data) + PayloadLengthOf(data)] == body;
    assert data[0] == b0;
    DecodeFrameSuccess(data);
  }

  /**
   * A message shorter than 126 bytes sent by `sendMessage` parses back with the mask bit,
   * the key 0x12345678 and the message as payload.
   */
  lemma ShortClientFrameRoundTrip(message: CString)
    requires |message| < 126
    ensures DecodeFrame(ClientFrameAsWritten(message))
         == Success(Frame(true, false, false, false, TEXT, true, |message|, CLIENT_MASKING_KEY, ToBytes(message)))
  {
    assert ClientFrameAsWritten(message) == MaskedFrame(TEXT, message, true, CLIENT_MASKING_KEY);
    MaskedFrameRoundTrip(TEXT, message, true, CLIENT_MASKING_KEY);
  }

  /**
   * For a message of 126 to 65535 bytes, `sendMessage`'s frame is misread: the key bytes
   * 0x12 0x34 are taken as the 16-bit length 0x1234, and a frame that still parses has a
   * key that starts with 0x56, never 0x12345678.
   */
  lemma LongClientFrameMisparsed(message: CString)
    requires 126 <= |message| <= 0xFFFF
    ensures var r := DecodeFrame(ClientFrameAsWritten(message));
      if |message| < 0x1234 then r == Failure(TooShortForPayload)
      else r.Success? && r.value.payloadLength == 0x1234 && r.value.maskingKey != CLIENT_MASKING_KEY
  {
    var frame := ClientFrameAsWritten(message);
    var lf := LengthField(|message|);
    assert frame[1] == OrHighBit(lf[0]);
    assert frame[2..4] == KeyBytes(CLIENT_MASKING_KEY)[..2] == [0x12, 0x34];
    BigEndianTwo(frame[2..4]);
    assert frame[4] == 0x56;
  }

  /**
   * For a message of 65536 bytes or more, the key bytes 0x12 0x34 0x56 0x78 become the high half
   * of the 64-bit length, so the frame announces at least 0x1234_5678 * 2^32 bytes and every
   * message shorter than that is rejected as too short for its payload.
   */
  lemma HugeClientFrameMisparsed(message: CString)
    requires 0x1_0000 <= |message| < 0x1234_5678_0000_0000
    ensures DecodeFrame(ClientFrameAsWritten(message)) == Failure(TooShortForPayload)
  {
    var frame := ClientFrameAsWritten(message);
    HugeClientFrameLayout(message);
    var announced := frame[2..10];
    BigEndianFour(announced[..4]);
    KeyRoundTrip(CLIENT_MASKING_KEY);
    BigEndianAtLeastPrefix(announced, 4);
    assert Pow256(4) == 0x1_0000_0000;
    assert ExtendedLengthSize(frame) == 8 && PayloadStart(frame) == 14;
    assert PayloadLengthOf(frame) == BigEndian(announced) >= 0x1234_5678_0000_0000;
  }

  /** The head of `sendMessage`'s frame for a message of 65536 bytes or more: the mask bit, 127, then the key bytes. */
  lemma HugeClientFrameLayout(message: CString)
    requires 0x1_0000 <= |message| < TWO_POW_64
    ensures var frame := ClientFrameAsWritten(message);
      && |frame| == 14 + |message|
      && frame[1] >= 0x80 && frame[1] % 0x80 == 127
      && frame[2..10][..4] == KeyBytes(CLIENT_MASKING_KEY)
  {
    var frame := ClientFrameAsWritten(message);
    var lf := LengthField(|message|);
    assert frame[1] == OrHighBit(lf[0]);
    assert frame[2..10][..4] == KeyBytes(CLIENT_MASKING_KEY);
  }

  /** A big-endian number is at least its leading `k` bytes shifted past the rest. */
  lemma {:induction false} BigEndianAtLeastPrefix(s: seq<Byte>, k: nat)
    requires k <= |s|
    ensures BigEndian(s) >= BigEndian(s[..k]) * Pow256(|s| - k)
    decreases |s|
  {
    if k < |s| {
      var init := s[..|s| - 1];
      BigEndianAtLeastPrefix(init, k);
      assert init[..k] == s[..k];
      var p, q := BigEndian(s[..k]), Pow256(|init| - k);
      var m := p * q;
      assert BigEndian(init) >= m;
      assert BigEndian(s) >= m * 256;
      ShiftByOneByte(p, q);
    } else {
      assert s[..k] == s;
    }
  }

  lemma ShiftByOneByte(p: nat, q: nat)
    ensures p * q * 256 == p * (256 * q)
  {
  }

  // ----- The 64-bit payload bound of parse_frame -----

  /**
   * `data.size() < offset + frame.payload_length`, with the sum wrapping at 2^64 as in the C++
   * code. It agrees with the unbounded check whenever the sum fits in 64 bits, which every
   * frame announcing fewer than 2^64 - 14 payload bytes meets.
   */
  predicate PayloadCheckAsWritten(size: nat, offset: nat, payloadLength: nat): (tooShort: bool)
    ensures offset + payloadLength < TWO_POW_64 ==> (tooShort <==> PayloadCheck(size, offset, payloadLength))
  {
    size < (offset + payloadLength) % TWO_POW_64
  }

  /** The payload check `DecodeFrame` uses, on unbounded numbers. */
  predicate PayloadCheck(size: nat, offset: nat, payloadLength: nat)
  {
    size < offset + payloadLength
  }

  /**
   * A 10-byte frame announcing 2^64 - 1 payload bytes passes the 64-bit check, although
   * the payload would end far past the input; the unbounded check rejects it.
   */
  lemma WrappedPayloadCheckPasses()
    ensures var data: seq<Byte> := [0x82, 127, 0xFF, 0xFF, 0xFF, 0xFF, 0xFF, 0xFF, 0xFF, 0xFF];
      && BigEndian(data[2..10]) == TWO_POW_64 - 1
      && !PayloadCheckAsWritten(|data|, 10, TWO_POW_64 - 1)
      && PayloadCheck(|data|, 10, TWO_POW_64 - 1)
      && DecodeFrame(data) == Failure(TooShortForPayload)
  {
    var data: seq<Byte> := [0x82, 127, 0xFF, 0xFF, 0xFF, 0xFF, 0xFF, 0xFF, 0xFF, 0xFF];
    BigEndianAllOnes(data[2..10]);
    assert Pow256(8) == TWO_POW_64;
    assert !MaskBit(data) && ExtendedLengthSize(data) == 8 && PayloadStart(data) == 10;
    assert PayloadLengthOf(data) == TWO_POW_64 - 1;
  }
}
