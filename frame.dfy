/**
  A protocol frame: its constants, its type codes, its bit-packed header,
  its parity byte and the three constructors that build a frame for sending
  (src/Message/Message.h).

  The fields keep the widths of the source: the size is 6 bits, the
  sequence id 4 bits and the type 6 bits, so every truncation the source
  gets from its bitsets is a bit-vector conversion here.  Dafny's `==` on
  `Message` compares exactly the five fields the source's `operator==`
  compares; the decoder's error flag lives outside the datatype (see
  `Codec.Decoded`).
*/
module Frame {

  /** Fixed overhead of a frame: delimiter, two header bytes, parity. */
  const MIN_SIZE: nat := 4
  /** Largest logical frame length that the 6-bit size field can carry. */
  const MAX_SIZE: nat := 63
  const MAX_DATA_SIZE: nat := MAX_SIZE - MIN_SIZE
  /** The byte that opens every frame (0b01111110). */
  const BEGIN_DELIMITER: bv8 := 0x7E
  const MAX_SEQ: nat := 15
  const MAX_SEQ_COUNT: nat := MAX_SEQ + 1
  /** Length of a frame on the wire, padding included. */
  const WIRE_SIZE: nat := 64

  /** A 6-bit type code.  Decoding keeps whatever 6 bits arrive. */
  type TypeCode = bv6

  const OK: TypeCode := 0x01
  const ACK: TypeCode := 0x03
  const NACK: TypeCode := 0x02
  const ERROR: TypeCode := 0x11
  const CD: TypeCode := 0x06
  const LS: TypeCode := 0x07
  const LS_SHOW: TypeCode := 0x3F
  const MKDIR: TypeCode := 0x08
  const GET: TypeCode := 0x09
  const FILE_DESCRIPTOR: TypeCode := 0x18
  const FILE_DATA: TypeCode := 0x20
  const PUT: TypeCode := 0x0A
  const END: TypeCode := 0x2E
  /** The enumerator after END, so one more than its code. */
  const INVALID: TypeCode := 0x2F

  /** The codes the `MessageType` enumeration names. */
  predicate IsEnumerated(t: TypeCode) {
    t in {OK, ACK, NACK, ERROR, CD, LS, LS_SHOW, MKDIR, GET, FILE_DESCRIPTOR, FILE_DATA, PUT, END, INVALID}
  }

  datatype Message = Message(size: bv6, sequenceId: bv4, msgType: TypeCode, data: seq<bv8>, parity: bv8)

  /** XOR of all bytes, folded from the left as the parity loop does. */
  function XorAll(s: seq<bv8>): bv8 {
    if s == [] then 0 else XorAll(s[..|s| - 1]) ^ s[|s| - 1]
  }

  lemma {:induction false} XorAllAppend(a: seq<bv8>, b: seq<bv8>)
    ensures XorAll(a + b) == XorAll(a) ^ XorAll(b)
  {
    if b == [] {
      assert a + b == a;
    } else {
      assert (a + b)[..|a + b| - 1] == a + b[..|b| - 1];
      XorAllAppend(a, b[..|b| - 1]);
    }
  }

  lemma XorAllSingleton(x: bv8)
    ensures XorAll([x]) == x
  {
    assert [x][..0] == [];
  }

  /** Replacing one byte replaces it in the fold as well. */
  lemma XorAllSet(s: seq<bv8>, p: nat, x: bv8)
    requires p < |s|
    ensures XorAll(s[p := x]) == XorAll(s) ^ s[p] ^ x
  {
    var t := s[p := x];
    assert s == s[..p] + [s[p]] + s[p + 1..];
    assert t == s[..p] + [x] + s[p + 1..];
    XorAllAppend(s[..p] + [s[p]], s[p + 1..]);
    XorAllAppend(s[..p], [s[p]]);
    XorAllAppend(s[..p] + [x], s[p + 1..]);
    XorAllAppend(s[..p], [x]);
    XorAllSingleton(s[p]);
    XorAllSingleton(x);
  }

  lemma SliceOfUpdate<T>(s: seq<T>, lo: nat, hi: nat, p: nat, x: T)
    requires lo <= p < hi <= |s|
    ensures s[p := x][lo..hi] == s[lo..hi][p - lo := x]
    ensures s[lo..hi][p - lo] == s[p]
  {
  }

  /** Replacing one byte inside a range replaces it in the fold of that range. */
  lemma XorAllSliceSet(s: seq<bv8>, lo: nat, hi: nat, p: nat, x: bv8)
    requires lo <= p < hi <= |s|
    ensures XorAll(s[p := x][lo..hi]) == XorAll(s[lo..hi]) ^ s[p] ^ x
  {
    SliceOfUpdate(s, lo, hi, p, x);
    XorAllSet(s[lo..hi], p - lo, x);
  }

  /** First header byte: size(6) followed by the two high sequence bits. */
  function HeaderByte1(size: bv6, sequenceId: bv4): bv8 {
    ((size as bv8) << 2) | ((sequenceId as bv8) >> 2)
  }

  /** Second header byte: the two low sequence bits followed by type(6). */
  function HeaderByte2(sequenceId: bv4, t: TypeCode): bv8 {
    (((sequenceId as bv8) & 3) << 6) | (t as bv8)
  }

  function SizeField(b1: bv8): bv6 {
    (b1 >> 2) as bv6
  }

  function SequenceField(b1: bv8, b2: bv8): bv4 {
    (((b1 & 3) << 2) | (b2 >> 6)) as bv4
  }

  function TypeField(b2: bv8): TypeCode {
    (b2 & 0x3F) as bv6
  }

  /** Unpacking the two header bytes gives back the three fields. */
  lemma HeaderUnpacks(size: bv6, sequenceId: bv4, t: TypeCode)
    ensures SizeField(HeaderByte1(size, sequenceId)) == size
    ensures SequenceField(HeaderByte1(size, sequenceId), HeaderByte2(sequenceId, t)) == sequenceId
    ensures TypeField(HeaderByte2(sequenceId, t)) == t
  {
  }

  /** Every pair of header bytes is the packing of the fields it unpacks to. */
  lemma HeaderRepacks(b1: bv8, b2: bv8)
    ensures HeaderByte1(SizeField(b1), SequenceField(b1, b2)) == b1
    ensures HeaderByte2(SequenceField(b1, b2), TypeField(b2)) == b2
  {
  }

  /**
    The check byte `calculateParity` stores.  It folds the delimiter into
    a fold that starts at the delimiter, so the delimiter cancels and what
    is left is the XOR of the two header bytes and the payload
    (`Codec.ParityFoldsFrame` proves this against the fold).
  */
  function Parity(m: Message): (p: bv8)
    ensures XorAll([HeaderByte1(m.size, m.sequenceId), HeaderByte2(m.sequenceId, m.msgType)] + m.data + [p]) == 0
  {
    var b1 := HeaderByte1(m.size, m.sequenceId);
    var b2 := HeaderByte2(m.sequenceId, m.msgType);
    XorAllPair(b1, b2);
    ParityCancels([b1, b2], m.data, b1 ^ b2 ^ XorAll(m.data));
    b1 ^ b2 ^ XorAll(m.data)
  }

  /** A check byte equal to the fold of the bytes before it makes the fold of all of them zero. */
  lemma ParityCancels(head: seq<bv8>, data: seq<bv8>, p: bv8)
    requires p == XorAll(head) ^ XorAll(data)
    ensures XorAll(head + data + [p]) == 0
  {
    XorAllAppend(head, data);
    XorAllAppend(head + data, [p]);
    XorAllSingleton(p);
  }

  lemma XorAllPair(b1: bv8, b2: bv8)
    ensures XorAll([b1, b2]) == b1 ^ b2
  {
    assert [b1, b2][..1] == [b1];
    XorAllSingleton(b1);
  }

  /** The frame with its parity byte recomputed, as `calculateParity` leaves it. */
  function Seal(m: Message): (r: Message)
    ensures r.size == m.size && r.sequenceId == m.sequenceId && r.msgType == m.msgType && r.data == m.data
    ensures r.parity == Parity(m)
  {
    m.(parity := Parity(m))
  }

  /** A frame as the building constructors leave it. */
  predicate ValidFrame(m: Message) {
    && |m.data| <= MAX_DATA_SIZE
    && m.size as nat == MIN_SIZE + |m.data|
    && m.parity == Parity(m)
  }

  /**
    A length below 64 as the 6-bit field that holds it.  It counts up
    rather than converting, which keeps integer-to-bit-vector reasoning out
    of every proof that builds a frame.
  */
  function SizeCode(n: nat): (r: bv6)
    requires n < 64
    ensures r as nat == n
  {
    if n == 0 then 0 else SizeCode(n - 1) + 1
  }

  /** A number below 256 as the byte that holds it, counted up like `SizeCode`. */
  function ByteOf(n: nat): (b: bv8)
    requires n < 256
    ensures b as nat == n
  {
    if n == 0 then 0 else ByteOf(n - 1) + 1
  }

  /** The sequence id a `bitset<4>` keeps of an `int`: its low four bits. */
  function StoredSequenceId(sequenceId: int): (r: bv4)
    ensures r as int == sequenceId % MAX_SEQ_COUNT
  {
    (sequenceId % MAX_SEQ_COUNT) as bv4
  }

  /**
    The payload the building constructor keeps: at most MAX_DATA_SIZE
    bytes, the leading ones.  (What the source's truncation actually does
    is `BuildAsWritten`.)
  */
  function Truncated(data: seq<bv8>): (kept: seq<bv8>)
    ensures |kept| == if |data| <= MAX_DATA_SIZE then |data| else MAX_DATA_SIZE
    ensures kept == data[..|kept|]
  {
    if |data| > MAX_DATA_SIZE then data[..MAX_DATA_SIZE] else data
  }

  /** The constructor from a type, a sequence id and a payload, truncating a long payload. */
  function Build(t: TypeCode, sequenceId: int, data: seq<bv8>): (m: Message)
    ensures ValidFrame(m)
    ensures m.msgType == t && m.data == Truncated(data)
    ensures m.size as nat == MIN_SIZE + |m.data|
    ensures m.sequenceId as int == sequenceId % MAX_SEQ_COUNT
  {
    var kept := Truncated(data);
    Seal(Message(SizeCode(MIN_SIZE + |kept|), StoredSequenceId(sequenceId), t, kept, 0))
  }

  /**
    The constructor from a payload as the source writes it: a payload over
    MAX_DATA_SIZE bytes is cut at index 64, not at MAX_DATA_SIZE, and the
    size `MIN_SIZE + 64` is then stored in the 6-bit size field, which
    keeps it mod 64.  For payloads of 60 to 63 bytes the cut position lies
    past the end, which is undefined behaviour, so they are excluded.
  */
  function BuildAsWritten(t: TypeCode, sequenceId: int, data: seq<bv8>): (m: Message)
    requires |data| <= MAX_DATA_SIZE || |data| >= 64
    ensures m.msgType == t && m.parity == Parity(m)
    ensures m.data == if |data| <= MAX_DATA_SIZE then data else data[..64]
    ensures m.size as nat == (MIN_SIZE + |m.data|) % 64
    ensures m.sequenceId as int == sequenceId % MAX_SEQ_COUNT
  {
    var kept := if |data| <= MAX_DATA_SIZE then data else data[..64];
    Seal(Message(SizeCode((MIN_SIZE + |kept|) % 64), StoredSequenceId(sequenceId), t, kept, 0))
  }

  /** The two agree wherever the source does not truncate. */
  lemma BuildAsWrittenAgrees(t: TypeCode, sequenceId: int, data: seq<bv8>)
    requires |data| <= MAX_DATA_SIZE
    ensures BuildAsWritten(t, sequenceId, data) == Build(t, sequenceId, data)
  {
    assert Truncated(data) == data;
    assert (MIN_SIZE + |data|) % 64 == MIN_SIZE + |data|;
  }

  /** A 64-byte or longer payload yields a frame whose size field contradicts its payload. */
  lemma TruncationBreaksFrame(t: TypeCode, sequenceId: int, data: seq<bv8>)
    requires |data| >= 64
    ensures var m := BuildAsWritten(t, sequenceId, data);
      |m.data| == 64 && m.size as nat == MIN_SIZE && !ValidFrame(m)
  {
  }

  /** The constructor from a number: it keeps one byte, the number mod 256. */
  function BuildNumeric(t: TypeCode, sequenceId: int, value: nat): (m: Message)
    ensures ValidFrame(m) && m.msgType == t
    ensures m.size as nat == MIN_SIZE + 1
    ensures m.data == [ByteOf(value % 256)]
    ensures m.sequenceId as int == sequenceId % MAX_SEQ_COUNT
  {
    Build(t, sequenceId, [ByteOf(value % 256)])
  }

  /** The constructor from a type and a sequence id only. */
  function BuildEmpty(t: TypeCode, sequenceId: int): (m: Message)
    ensures ValidFrame(m) && m.msgType == t
    ensures m.size as nat == MIN_SIZE && m.data == []
    ensures m.sequenceId as int == sequenceId % MAX_SEQ_COUNT
  {
    Build(t, sequenceId, [])
  }

  /** The logical length of a frame, read from its 6-bit size field. */
  function GetSize(m: Message): (r: nat)
    ensures r < 64
    ensures ValidFrame(m) ==> r == MIN_SIZE + |m.data|
  {
    m.size as nat
  }

  function GetSequenceId(m: Message): (r: nat)
    ensures r < MAX_SEQ_COUNT
  {
    m.sequenceId as nat
  }

  /** The first payload byte as a number, or 0 for an empty payload. */
  function GetDataAsUl(m: Message): (r: nat)
    ensures r < 256
  {
    if |m.data| == 0 then 0 else m.data[0] as nat
  }

  /** The number a numeric frame carries is read back mod 256. */
  lemma NumericRoundTrip(t: TypeCode, sequenceId: int, value: nat)
    ensures GetDataAsUl(BuildNumeric(t, sequenceId, value)) == value % 256
    ensures GetDataAsUl(BuildEmpty(t, sequenceId)) == 0
  {
  }

  /** `operator==`: the five fields compared one by one. */
  function Equals(a: Message, b: Message): (r: bool)
    ensures r <==> a == b
  {
    && a.sequenceId == b.sequenceId
    && a.msgType == b.msgType
    && a.parity == b.parity
    && a.size == b.size
    && a.data == b.data
  }

  function NotEquals(a: Message, b: Message): (r: bool)
    ensures r <==> a != b
  {
    !Equals(a, b)
  }

}
