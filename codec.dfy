/**
  Encoding a frame to bytes and decoding it back (src/Message/Message.cpp).

  Each loop of the source (the byte vector, the padded wire vector, the
  parity fold and the decoder's cursor) is a method proved equal to a
  function; the lemmas about the codec are stated on the functions.
  The delimiter is the fixed BEGIN_DELIMITER: the inverted delimiter used
  for the loopback device is not modelled.
*/
module Codec {
  import opened Frame

  /** `toByteVector`: delimiter, two header bytes, payload, parity byte. */
  function ByteVector(m: Message): (v: seq<bv8>)
    ensures |v| == MIN_SIZE + |m.data|
    ensures v[0] == BEGIN_DELIMITER
    ensures v[1] == HeaderByte1(m.size, m.sequenceId)
    ensures v[2] == HeaderByte2(m.sequenceId, m.msgType)
    ensures v[3..|v| - 1] == m.data
    ensures v[|v| - 1] == m.parity
  {
    [BEGIN_DELIMITER, HeaderByte1(m.size, m.sequenceId), HeaderByte2(m.sequenceId, m.msgType)] + m.data + [m.parity]
  }

  method ToByteVector(m: Message) returns (v: seq<bv8>)
    ensures v == ByteVector(m)
  {
    v := [BEGIN_DELIMITER];
    var byte1 := HeaderByte1(m.size, m.sequenceId);
    var byte2 := HeaderByte2(m.sequenceId, m.msgType);
    v := v + [byte1, byte2];
    var i := 0;
    while i < |m.data|
      invariant 0 <= i <= |m.data|
      invariant v == [BEGIN_DELIMITER, byte1, byte2] + m.data[..i]
    {
      v := v + [m.data[i]];
      i := i + 1;
    }
    assert m.data[..i] == m.data;
    v := v + [m.parity];
  }

  /** The fold `calculateParity` runs (over the frame with a zero parity byte) is `Parity`. */
  lemma ParityFoldsFrame(m: Message)
    ensures BEGIN_DELIMITER ^ XorAll(ByteVector(m.(parity := 0))) == Parity(m)
  {
    var b1 := HeaderByte1(m.size, m.sequenceId);
    var b2 := HeaderByte2(m.sequenceId, m.msgType);
    assert ByteVector(m.(parity := 0)) == [BEGIN_DELIMITER] + [b1] + [b2] + m.data + [0];
    XorAllAppend([BEGIN_DELIMITER] + [b1] + [b2] + m.data, [0]);
    XorAllAppend([BEGIN_DELIMITER] + [b1] + [b2], m.data);
    XorAllAppend([BEGIN_DELIMITER] + [b1], [b2]);
    XorAllAppend([BEGIN_DELIMITER], [b1]);
    XorAllSingleton(BEGIN_DELIMITER);
    XorAllSingleton(b1);
    XorAllSingleton(b2);
    XorAllSingleton(0);
  }

  /** `calculateParity`: the fold from the delimiter over the byte vector. */
  method CalculateParity(m: Message) returns (parity: bv8)
    ensures parity == Parity(m)
  {
    var unsealed := m.(parity := 0);
    parity := BEGIN_DELIMITER;
    var vectorMessage := ToByteVector(unsealed);
    var i := 0;
    while i < |vectorMessage|
      invariant 0 <= i <= |vectorMessage|
      invariant parity == BEGIN_DELIMITER ^ XorAll(vectorMessage[..i])
    {
      assert vectorMessage[..i + 1][..i] == vectorMessage[..i];
      parity := parity ^ vectorMessage[i];
      i := i + 1;
    }
    assert vectorMessage[..i] == vectorMessage;
    ParityFoldsFrame(m);
  }

  function Padding(n: nat): (z: seq<bv8>)
    ensures |z| == n && forall i :: 0 <= i < n ==> z[i] == 0
  {
    seq(n, _ => 0)
  }

  /** `toCharVector`: the byte vector, zero-filled to the wire size. */
  function CharVector(m: Message): (w: seq<bv8>)
    ensures |w| == if |ByteVector(m)| < WIRE_SIZE then WIRE_SIZE else |ByteVector(m)|
    ensures w[..|ByteVector(m)|] == ByteVector(m)
    ensures forall i :: |ByteVector(m)| <= i < |w| ==> w[i] == 0
  {
    var v := ByteVector(m);
    if |v| < WIRE_SIZE then v + Padding(WIRE_SIZE - |v|) else v
  }

  method ToCharVector(m: Message) returns (w: seq<bv8>)
    ensures w == CharVector(m)
  {
    w := [];
    var byteMessage := ToByteVector(m);
    var i := 0;
    while i < |byteMessage|
      invariant 0 <= i <= |byteMessage|
      invariant w == byteMessage[..i]
    {
      w := w + [byteMessage[i]];
      i := i + 1;
    }
    assert byteMessage[..i] == byteMessage;
    if |w| < WIRE_SIZE {
      w := w + Padding(WIRE_SIZE - |w|);
    }
  }

  /** The wire vector agrees with the byte vector on the byte vector's positions. */
  lemma CharVectorAt(m: Message, i: nat)
    requires i < |ByteVector(m)|
    ensures i < |CharVector(m)| && CharVector(m)[i] == ByteVector(m)[i]
  {
    var v := ByteVector(m);
    assert CharVector(m)[..|v|][i] == v[i];
  }

  /** A frame built for sending always takes exactly the wire size. */
  lemma WireFrameLength(m: Message)
    requires ValidFrame(m)
    ensures |CharVector(m)| == WIRE_SIZE
    ensures CharVector(m)[MIN_SIZE + |m.data|..] == Padding(WIRE_SIZE - MIN_SIZE - |m.data|)
  {
  }

  /** Unsigned 64-bit (`size_t`) reading of an integer. */
  function SizeT(x: int): nat {
    x % 0x1_0000_0000_0000_0000
  }

  /** The payload length the decoder computes: `getSize() - MIN_SIZE` in `size_t`. */
  function DataSize(size: bv6): nat {
    SizeT(size as int - MIN_SIZE)
  }

  /** The oversize test fires exactly when the size field is below 4, by wrap-around. */
  lemma OversizeOnlyFromSmallSize(size: bv6)
    ensures DataSize(size) > MAX_DATA_SIZE <==> size as int < MIN_SIZE
    ensures size as int >= MIN_SIZE ==> DataSize(size) == size as int - MIN_SIZE
  {
  }

  /** A decoded frame together with the flag the decoding constructor raises. */
  datatype Decoded = Decoded(msg: Message, constructionError: bool)

  /**
    The decoding constructor.  It reads the frame from index 1 (the
    delimiter is checked by the caller), keeps the raw 6 type bits, reads
    no payload when the size is rejected, and stores the parity it
    recomputes, raising the error flag when the byte after the payload
    differs.  It reads at most MAX_SIZE bytes.
  */
  function Decode(bytes: seq<bv8>): (r: Decoded)
    requires |bytes| >= MAX_SIZE
    ensures r.msg.size == SizeField(bytes[1])
    ensures r.msg.sequenceId == SequenceField(bytes[1], bytes[2])
    ensures r.msg.msgType == TypeField(bytes[2])
  {
    var size := SizeField(bytes[1]);
    OversizeOnlyFromSmallSize(size);
    var dataSize := DataSize(size);
    var oversized := dataSize > MAX_DATA_SIZE;
    var data := if oversized then [] else bytes[3..3 + dataSize];
    var m := Seal(Message(size, SequenceField(bytes[1], bytes[2]), TypeField(bytes[2]), data, 0));
    Decoded(m, oversized || m.parity != bytes[3 + |data|])
  }

  /**
    A size field below 4 is always rejected and reads no payload; a frame
    accepted is well formed and its parity byte follows its payload.
  */
  lemma DecodeChecks(bytes: seq<bv8>)
    requires |bytes| >= MAX_SIZE
    ensures var r := Decode(bytes);
      && (SizeField(bytes[1]) as int < MIN_SIZE ==> r.constructionError && r.msg.data == [])
      && (!r.constructionError ==> ValidFrame(r.msg) && bytes[3 + |r.msg.data|] == r.msg.parity)
  {
    OversizeOnlyFromSmallSize(SizeField(bytes[1]));
  }

  /** The decoder reads nothing past the first MAX_SIZE bytes. */
  lemma DecodeReadsMaxSize(bytes: seq<bv8>)
    requires |bytes| >= MAX_SIZE
    ensures Decode(bytes[..MAX_SIZE]) == Decode(bytes)
  {
    var size := SizeField(bytes[1]);
    OversizeOnlyFromSmallSize(size);
    PrefixAgrees(bytes, if DataSize(size) <= MAX_DATA_SIZE then DataSize(size) else 0);
  }

  lemma PrefixAgrees(bytes: seq<bv8>, n: nat)
    requires |bytes| >= MAX_SIZE && n <= MAX_DATA_SIZE
    ensures var b := bytes[..MAX_SIZE];
      b[1] == bytes[1] && b[2] == bytes[2] && b[3..3 + n] == bytes[3..3 + n] && b[3 + n] == bytes[3 + n]
  {
    var b := bytes[..MAX_SIZE];
    assert b[3..3 + n] == bytes[3..3 + n] by {
      forall i | 3 <= i < 3 + n ensures b[i] == bytes[i] {
      }
    }
  }

  /** The decoding constructor with its `messageIdx` cursor. */
  method DecodeFrame(bytesMessage: seq<bv8>) returns (r: Decoded)
    requires |bytesMessage| >= MAX_SIZE
    ensures r == Decode(bytesMessage)
  {
    var messageIdx := 1;
    var sizeSequence := bytesMessage[messageIdx];
    messageIdx := messageIdx + 1;
    var size := SizeField(sizeSequence);
    var sequenceType := bytesMessage[messageIdx];
    messageIdx := messageIdx + 1;
    var sequenceId := SequenceField(sizeSequence, sequenceType);
    var msgType := TypeField(sequenceType);

    var constructionError := false;
    var data: seq<bv8> := [];
    var dataSize := DataSize(size);
    OversizeOnlyFromSmallSize(size);
    if dataSize > MAX_DATA_SIZE {
      constructionError := true;
    } else {
      var k := 0;
      while k < dataSize
        invariant 0 <= k <= dataSize
        invariant messageIdx == 3 + k
        invariant data == bytesMessage[3..messageIdx]
      {
        data := data + [bytesMessage[messageIdx]];
        messageIdx := messageIdx + 1;
        k := k + 1;
      }
    }

    var m := Message(size, sequenceId, msgType, data, 0);
    var parity := CalculateParity(m);
    m := m.(parity := parity);
    if parity != bytesMessage[messageIdx] {
      constructionError := true;
    }
    r := Decoded(m, constructionError);
  }

  /** Decoding bytes whose size field passes reads the fields and the payload it names. */
  lemma DecodeAccepted(w: seq<bv8>, size: bv6, sequenceId: bv4, t: TypeCode, data: seq<bv8>)
    requires |w| >= MAX_SIZE && |data| <= MAX_DATA_SIZE
    requires SizeField(w[1]) == size && SequenceField(w[1], w[2]) == sequenceId && TypeField(w[2]) == t
    requires DataSize(size) == |data| && w[3..3 + |data|] == data
    ensures var m := Seal(Message(size, sequenceId, t, data, 0));
      Decode(w) == Decoded(m, m.parity != w[3 + |data|])
  {
  }

  /** Any bytes whose header unpacks to a valid frame's fields and that carry its payload and parity decode to that frame. */
  lemma DecodeFrameBytes(w: seq<bv8>, m: Message)
    requires ValidFrame(m) && |w| >= MAX_SIZE
    requires SizeField(w[1]) == m.size && SequenceField(w[1], w[2]) == m.sequenceId && TypeField(w[2]) == m.msgType
    requires w[3..3 + |m.data|] == m.data && w[3 + |m.data|] == m.parity
    ensures Decode(w) == Decoded(m, false)
  {
    OversizeOnlyFromSmallSize(m.size);
    DecodeAccepted(w, m.size, m.sequenceId, m.msgType, m.data);
    assert Seal(Message(m.size, m.sequenceId, m.msgType, m.data, 0)) == m;
  }

  /** Where the header, the payload and the parity byte sit in the wire vector. */
  lemma CharVectorLayout(m: Message)
    requires |m.data| <= MAX_DATA_SIZE
    ensures var w := CharVector(m);
      && |w| == WIRE_SIZE
      && w[1] == HeaderByte1(m.size, m.sequenceId)
      && w[2] == HeaderByte2(m.sequenceId, m.msgType)
      && w[3..3 + |m.data|] == m.data
      && w[3 + |m.data|] == m.parity
  {
    var w := CharVector(m);
    var v := ByteVector(m);
    var n := |m.data|;
    CharVectorAt(m, 1);
    CharVectorAt(m, 2);
    CharVectorAt(m, 3 + n);
    forall k | 0 <= k < n
      ensures w[3 + k] == m.data[k]
    {
      CharVectorAt(m, 3 + k);
      assert v[3..|v| - 1][k] == v[3 + k];
    }
  }

  /** Decoding the wire bytes of a frame gives back an equal frame, without error. */
  lemma RoundTrip(m: Message)
    requires ValidFrame(m)
    ensures |CharVector(m)| == WIRE_SIZE
    ensures Decode(CharVector(m)) == Decoded(m, false)
  {
    CharVectorLayout(m);
    HeaderUnpacks(m.size, m.sequenceId, m.msgType);
    DecodeFrameBytes(CharVector(m), m);
  }

  /** Round trip for every frame the building constructor can make. */
  lemma BuildRoundTrip(t: TypeCode, sequenceId: int, data: seq<bv8>)
    ensures var d := Decode(CharVector(Build(t, sequenceId, data)));
      && !d.constructionError
      && d.msg.msgType == t && d.msg.data == Truncated(data)
      && d.msg.sequenceId as int == sequenceId % MAX_SEQ_COUNT
  {
    RoundTrip(Build(t, sequenceId, data));
  }

  /**
    With the truncation as written, a payload of 64 bytes or more does not
    survive the wire: the receiver reads the size field's 4 and finds no
    payload at all.
  */
  lemma TruncationLosesPayload(t: TypeCode, sequenceId: int, data: seq<bv8>)
    requires |data| >= 64
    ensures var m := BuildAsWritten(t, sequenceId, data);
      && |CharVector(m)| >= MAX_SIZE
      && Decode(CharVector(m)).msg.data == []
      && Decode(CharVector(m)).msg != m
  {
    var m := BuildAsWritten(t, sequenceId, data);
    TruncationBreaksFrame(t, sequenceId, data);
    CharVectorAt(m, 1);
    HeaderUnpacks(m.size, m.sequenceId, m.msgType);
    OversizeOnlyFromSmallSize(m.size);
  }

  /** The decoder keeps any 6-bit type: a code outside the enumeration is not rejected. */
  lemma NonEnumeratedTypeAccepted()
    ensures !IsEnumerated(0x04)
    ensures !Decode(CharVector(BuildEmpty(0x04, 0))).constructionError
  {
    RoundTrip(BuildEmpty(0x04, 0));
  }

  /** The byte sequence with bit `bit` of byte `p` inverted. */
  function FlipBit(bytes: seq<bv8>, p: nat, bit: nat): seq<bv8>
    requires p < |bytes| && bit < 8
  {
    bytes[p := bytes[p] ^ BitMask(bit)]
  }

  /** The byte with only bit `bit` set. */
  function BitMask(bit: nat): (mask: bv8)
    requires bit < 8
    ensures mask != 0
  {
    [0x01, 0x02, 0x04, 0x08, 0x10, 0x20, 0x40, 0x80][bit]
  }

  /**
    What the decoder's parity test amounts to for a frame of `n` payload
    bytes: the XOR of both header bytes, the payload and the parity byte,
    which is zero exactly when the parity byte matches.
  */
  function WireCheck(w: seq<bv8>, n: nat): bv8
    requires 3 + n < |w|
  {
    w[1] ^ w[2] ^ XorAll(w[3..3 + n]) ^ w[3 + n]
  }

  /** The wire bytes of a sealed frame pass the check. */
  lemma WireCheckZero(m: Message)
    requires ValidFrame(m)
    ensures WireCheck(CharVector(m), |m.data|) == 0
  {
    CharVectorLayout(m);
  }

  /** Flipping bits of the first header byte of a passing frame makes it fail. */
  lemma FlipFirstHeaderByte(w: seq<bv8>, n: nat, mask: bv8)
    requires 3 + n < |w| && WireCheck(w, n) == 0 && mask != 0
    ensures WireCheck(w[1 := w[1] ^ mask], n) != 0
  {
    assert w[1 := w[1] ^ mask][3..3 + n] == w[3..3 + n];
  }

  /** Flipping bits of the second header byte of a passing frame makes it fail. */
  lemma FlipSecondHeaderByte(w: seq<bv8>, n: nat, mask: bv8)
    requires 3 + n < |w| && WireCheck(w, n) == 0 && mask != 0
    ensures WireCheck(w[2 := w[2] ^ mask], n) != 0
  {
    assert w[2 := w[2] ^ mask][3..3 + n] == w[3..3 + n];
  }

  /** Flipping bits of the parity byte of a passing frame makes it fail. */
  lemma FlipParityByte(w: seq<bv8>, n: nat, mask: bv8)
    requires 3 + n < |w| && WireCheck(w, n) == 0 && mask != 0
    ensures WireCheck(w[3 + n := w[3 + n] ^ mask], n) != 0
  {
    assert w[3 + n := w[3 + n] ^ mask][3..3 + n] == w[3..3 + n];
  }

  /** Flipping bits of a payload byte of a passing frame makes it fail. */
  lemma FlipPayloadByte(w: seq<bv8>, n: nat, p: nat, mask: bv8)
    requires 3 <= p < 3 + n < |w|
    requires WireCheck(w, n) == 0 && mask != 0
    ensures WireCheck(w[p := w[p] ^ mask], n) != 0
  {
    var f := w[p := w[p] ^ mask];
    XorAllSliceSet(w, 3, 3 + n, p, w[p] ^ mask);
    assert f[1] == w[1] && f[2] == w[2] && f[3 + n] == w[3 + n];
  }

  /** Flipping any one bit of the checked range of a passing frame makes it fail. */
  lemma FlipBreaksCheck(w: seq<bv8>, n: nat, p: nat, bit: nat)
    requires 3 + n < |w| && 1 <= p <= 3 + n && bit < 8
    requires WireCheck(w, n) == 0
    ensures WireCheck(FlipBit(w, p, bit), n) != 0
  {
    if p == 1 {
      FlipFirstHeaderByte(w, n, BitMask(bit));
    } else if p == 2 {
      FlipSecondHeaderByte(w, n, BitMask(bit));
    } else if p == 3 + n {
      FlipParityByte(w, n, BitMask(bit));
    } else {
      FlipPayloadByte(w, n, p, BitMask(bit));
    }
  }

  /** The parity the decoder recomputes from any two header bytes and a payload. */
  lemma RecomputedParity(f: seq<bv8>, n: nat)
    requires 3 + n < |f|
    ensures Seal(Message(SizeField(f[1]), SequenceField(f[1], f[2]), TypeField(f[2]), f[3..3 + n], 0)).parity
      == f[1] ^ f[2] ^ XorAll(f[3..3 + n])
  {
    HeaderRepacks(f[1], f[2]);
  }

  lemma CheckMismatch(f: seq<bv8>, n: nat)
    requires 3 + n < |f| && WireCheck(f, n) != 0
    ensures f[1] ^ f[2] ^ XorAll(f[3..3 + n]) != f[3 + n]
  {
  }

  /** Bytes whose size field names `n` payload bytes and that fail the check are rejected. */
  lemma FailedCheckRejected(f: seq<bv8>, n: nat)
    requires |f| >= MAX_SIZE && n <= MAX_DATA_SIZE
    requires SizeField(f[1]) as nat == MIN_SIZE + n
    requires WireCheck(f, n) != 0
    ensures Decode(f).constructionError
  {
    var size := SizeField(f[1]);
    OversizeOnlyFromSmallSize(size);
    DecodeAccepted(f, size, SequenceField(f[1], f[2]), TypeField(f[2]), f[3..3 + n]);
    RecomputedParity(f, n);
    CheckMismatch(f, n);
  }

  /** Flipping a sequence bit, or any bit after the first header byte, keeps the size field. */
  lemma FlipKeepsSize(m: Message, p: nat, bit: nat)
    requires ValidFrame(m) && bit < 8
    requires (p == 1 && bit < 2) || 2 <= p <= 3 + |m.data|
    ensures SizeField(FlipBit(CharVector(m), p, bit)[1]) == m.size
  {
    CharVectorLayout(m);
    HeaderUnpacks(m.size, m.sequenceId, m.msgType);
  }

  /**
    Inverting one bit of the second header byte, of the payload, of the
    parity byte, or one of the two sequence bits of the first header byte
    (every bit but the size bits) makes the decoder reject the frame.
  */
  lemma SingleBitFlipDetected(m: Message, p: nat, bit: nat)
    requires ValidFrame(m)
    requires bit < 8
    requires (p == 1 && bit < 2) || 2 <= p <= 3 + |m.data|
    ensures Decode(FlipBit(CharVector(m), p, bit)).constructionError
  {
    WireCheckZero(m);
    FlipBreaksCheck(CharVector(m), |m.data|, p, bit);
    FlipKeepsSize(m, p, bit);
    FailedCheckRejected(FlipBit(CharVector(m), p, bit), |m.data|);
  }

}
