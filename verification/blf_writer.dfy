/** Writers of BLF files, byte by byte: file headers, log containers with and without compression, CAN
    messages and other objects; and what the reader makes of what they write. */
module BlfWriter {
  import opened Bits
  import opened BlfFormat
  import opened Powers
  import opened Wrappers

  /** The n little-endian bytes of a number. */
  function Bytes(v: nat, n: nat): (r: seq<Byte>)
    ensures |r| == n
  {
    if n == 0 then [] else [v % 256] + Bytes(v / 256, n - 1)
  }

  lemma {:induction false} WordOfBytes(v: nat, n: nat)
    requires v < Pow2(8 * n)
    ensures Word(Bytes(v, n)) == v
  {
    if n > 0 {
      EightBits();
      Pow2Add(8, 8 * (n - 1));
      assert 8 * n == 8 + 8 * (n - 1);
      WordOfBytes(v / 256, n - 1);
    }
  }

  lemma SmallPowers()
    ensures Pow2(8) == 0x100 && Pow2(16) == 0x1_0000 && Pow2(32) == 0x1_0000_0000
  {
    EightBits();
    Pow2Add(8, 8);
    Pow2Add(16, 16);
  }

  lemma FieldIs(s: seq<Byte>, at: nat, n: nat, v: nat)
    requires at + n <= |s| && s[at..at + n] == Bytes(v, n) && v < Pow2(8 * n)
    ensures Field(s, at, n) == v
  {
    WordOfBytes(v, n);
  }

  // ----- headers -----

  /** VBLObjectHeaderBase: "LOBJ", the header's size and version, the object's size and type. */
  function Header(headerSize: nat, objectSize: nat, objectType: nat): (h: seq<Byte>)
    ensures |h| == 16
  {
    [0x4C, 0x4F, 0x42, 0x4A] + (Bytes(headerSize, 2) + (Bytes(1, 2) + (Bytes(objectSize, 4) + Bytes(objectType, 4))))
  }

  lemma SignatureWord()
    ensures Word([0x4C, 0x4F, 0x42, 0x4A]) == OBJ_SIGNATURE
    ensures Word([0x4C, 0x4F, 0x47, 0x47]) == LOGG_SIGNATURE
  {
    FourBytes(0x4C, 0x4F, 0x42, 0x4A);
    FourBytes(0x4C, 0x4F, 0x47, 0x47);
  }

  lemma FourBytes(a: Byte, b: Byte, c: Byte, d: Byte)
    ensures Word([a, b, c, d]) == a + 256 * (b + 256 * (c + 256 * d))
  {
    assert [a, b, c, d][1..] == [b, c, d] && [b, c, d][1..] == [c, d] && [c, d][1..] == [d] && [d][1..] == [];
    assert Word([d]) == d + 256 * Word([]);
    assert Word([c, d]) == c + 256 * Word([d]);
    assert Word([b, c, d]) == b + 256 * Word([c, d]);
  }

  lemma HeaderAlone(headerSize: nat, objectSize: nat, objectType: nat)
    requires headerSize < 0x1_0000 && objectSize < 0x1_0000_0000 && objectType < 0x1_0000_0000
    ensures var h := Header(headerSize, objectSize, objectType);
      IsHeader(h) && HeaderSize(h) == headerSize && ObjectSize(h) == objectSize && ObjectType(h) == objectType
  {
    hide Word, Bytes, Pow2;
    var h := Header(headerSize, objectSize, objectType);
    var a: seq<Byte>, b, c, d, e := [0x4C, 0x4F, 0x42, 0x4A], Bytes(headerSize, 2), Bytes(1, 2), Bytes(objectSize, 4), Bytes(objectType, 4);
    assert h == a + (b + (c + (d + e)));
    FiveSlices(a, b, c, d, e, h);
    SmallPowers();
    SignatureWord();
    FieldIs(h, 4, 2, headerSize);
    FieldIs(h, 8, 4, objectSize);
    FieldIs(h, 12, 4, objectType);
  }

  lemma FiveSlices(a: seq<Byte>, b: seq<Byte>, c: seq<Byte>, d: seq<Byte>, e: seq<Byte>, s: seq<Byte>)
    requires |a| == 4 && |b| == 2 && |c| == 2 && |d| == 4 && |e| == 4 && s == a + (b + (c + (d + e)))
    ensures s[0..4] == a && s[4..6] == b && s[8..12] == d && s[12..16] == e
  {
  }

  lemma HeaderFields(headerSize: nat, objectSize: nat, objectType: nat, tail: seq<Byte>)
    requires headerSize < 0x1_0000 && objectSize < 0x1_0000_0000 && objectType < 0x1_0000_0000
    ensures var s := Header(headerSize, objectSize, objectType) + tail;
      IsHeader(s) && HeaderSize(s) == headerSize && ObjectSize(s) == objectSize && ObjectType(s) == objectType
  {
    hide Field, Header;
    var h := Header(headerSize, objectSize, objectType);
    HeaderAlone(headerSize, objectSize, objectType);
    FieldOfAppended(h, tail, 0, 4);
    FieldOfAppended(h, tail, 4, 2);
    FieldOfAppended(h, tail, 8, 4);
    FieldOfAppended(h, tail, 12, 4);
  }

  // ----- containers -----

  /** What goes into one container: data as it is, or a compressed form of it. */
  datatype Part = Plain(data: seq<Byte>) | Deflated(packed: seq<Byte>, data: seq<Byte>)

  /** A log container: flag 2 and the size of the data mark a compressed payload. */
  function Framed(flag: nat, rawSize: nat, payload: seq<Byte>): seq<Byte> {
    Header(16, 32 + |payload|, 10) +
    (Bytes(flag, 4) + (Zeros(4) + (Bytes(rawSize, 4) + (Zeros(4) + (payload + Zeros(|payload| % 4))))))
  }

  function Stored(p: Part): seq<Byte> {
    match p
    case Plain(data) => Framed(0, |data|, data)
    case Deflated(packed, data) => Framed(2, |data|, packed)
  }

  function StoredAll(parts: seq<Part>): seq<Byte> {
    if parts == [] then [] else Stored(parts[0]) + StoredAll(parts[1..])
  }

  /** The data of all parts. */
  function Carried(parts: seq<Part>): seq<Byte> {
    if parts == [] then [] else parts[0].data + Carried(parts[1..])
  }

  /** Nothing is empty, all sizes are uint32_t, and inflating what was compressed gives the data back. */
  predicate Storable(inflate: Inflate, p: Part) {
    && 0 < |p.data| < 0x1_0000_0000
    && match p
       case Plain(data) => 32 + |data| < 0x1_0000_0000
       case Deflated(packed, data) => 0 < |packed| && 32 + |packed| < 0x1_0000_0000 && inflate(packed, |data|) == Some(data)
  }

  predicate AllStorable(inflate: Inflate, parts: seq<Part>) {
    forall i | 0 <= i < |parts| :: Storable(inflate, parts[i])
  }

  /** The fields behind the base header of a container, its payload, and what follows it. */
  lemma FramedTail(flag: nat, rawSize: nat, payload: seq<Byte>, tail: seq<Byte>) returns (s: seq<Byte>)
    requires flag < 0x1_0000_0000 && rawSize < 0x1_0000_0000
    ensures s == Bytes(flag, 4) + (Zeros(4) + (Bytes(rawSize, 4) + (Zeros(4) + (payload + Zeros(|payload| % 4))))) + tail
    ensures |s| >= 16 && Field(s, 0, 4) == flag && Field(s, 8, 4) == rawSize
    ensures 16 + |payload| + |payload| % 4 <= |s|
    ensures s[16..16 + |payload|] == payload && s[16 + |payload| + |payload| % 4..] == tail
  {
    hide Bytes, Zeros, Field, Pow2;
    s := Bytes(flag, 4) + (Zeros(4) + (Bytes(rawSize, 4) + (Zeros(4) + (payload + Zeros(|payload| % 4))))) + tail;
    SixSlices(Bytes(flag, 4), Zeros(4), Bytes(rawSize, 4), Zeros(4), payload, Zeros(|payload| % 4), tail, s);
    SmallPowers();
    FieldIs(s, 0, 4, flag);
    FieldIs(s, 8, 4, rawSize);
  }

  lemma SixSlices(a: seq<Byte>, b: seq<Byte>, c: seq<Byte>, d: seq<Byte>, e: seq<Byte>, f: seq<Byte>, g: seq<Byte>, s: seq<Byte>)
    requires |a| == 4 && |b| == 4 && |c| == 4 && |d| == 4
    requires s == a + (b + (c + (d + (e + f)))) + g
    ensures |s| == 16 + |e| + |f| + |g|
    ensures s[0..4] == a && s[8..12] == c && s[16..16 + |e|] == e && s[16 + |e| + |f|..] == g
  {
  }

  lemma Shifted(h: seq<Byte>, s: seq<Byte>, at: nat, n: nat)
    requires at + n <= |s|
    ensures (h + s)[|h| + at..|h| + at + n] == s[at..at + n] && (h + s)[|h| + at + n..] == s[at + n..]
  {
  }

  /** Whatever follows it, a container shows its fields and its payload. */
  lemma FramedFields(flag: nat, rawSize: nat, payload: seq<Byte>, tail: seq<Byte>) returns (s: seq<Byte>)
    requires flag < 0x1_0000_0000 && rawSize < 0x1_0000_0000 && 32 + |payload| < 0x1_0000_0000
    ensures s == Framed(flag, rawSize, payload) + tail && IsHeader(s) && HeaderSize(s) == 16 && ObjectType(s) == 10
    ensures ObjectSize(s) == 32 + |payload| && 32 + |payload| + |payload| % 4 <= |s|
    ensures Field(s, 16, 4) == flag && Field(s, 24, 4) == rawSize
    ensures s[32..32 + |payload|] == payload && s[32 + |payload| + |payload| % 4..] == tail
  {
    hide Header, Bytes, Zeros, Word;
    var h := Header(16, 32 + |payload|, 10);
    var rest := FramedTail(flag, rawSize, payload, tail);
    s := Framed(flag, rawSize, payload) + tail;
    assert s == h + rest;
    HeaderFields(16, 32 + |payload|, 10, rest);
    Shifted(h, rest, 0, 4);
    Shifted(h, rest, 8, 4);
    Shifted(h, rest, 16, |payload|);
    Shifted(h, rest, 16 + |payload|, |payload| % 4);
  }

  /** A storable part in front of anything is a container whose data are the part's, inflated or not. */
  lemma StoredIsContainer(inflate: Inflate, p: Part, tail: seq<Byte>) returns (s: seq<Byte>)
    requires Storable(inflate, p)
    ensures s == Stored(p) + tail && Container(inflate, s) && Data(inflate, s) == p.data
    ensures s[ContainerSize(s)..] == tail
  {
    hide Framed, Field, IsHeader, HeaderSize, ObjectType;
    match p
    case Plain(data) =>
      s := FramedFields(0, |data|, data, tail);
      IsContainer(inflate, s, data, data);
    case Deflated(packed, data) =>
      s := FramedFields(2, |data|, packed, tail);
      IsContainer(inflate, s, packed, data);
  }

  lemma IsContainer(inflate: Inflate, s: seq<Byte>, payload: seq<Byte>, data: seq<Byte>)
    requires IsHeader(s) && HeaderSize(s) == 16 && ObjectType(s) == 10 && ObjectSize(s) == 32 + |payload|
    requires 32 + |payload| + |payload| % 4 <= |s| && s[32..32 + |payload|] == payload && 0 < |payload| && 0 < |data|
    requires Field(s, 24, 4) == |data|
    requires if Field(s, 16, 4) == 2 then inflate(payload, |data|) == Some(data) else data == payload
    ensures Container(inflate, s) && Data(inflate, s) == data
  {
    hide Field, IsHeader, HeaderSize, ObjectType;
  }

  /** What is written as containers, compressed or not in any mixture, is a body, and its flat byte string is
      the uncompressed data. */
  lemma {:induction false} StoredCarries(inflate: Inflate, parts: seq<Part>)
    requires AllStorable(inflate, parts)
    ensures Body(inflate, StoredAll(parts)) && Flat(inflate, StoredAll(parts)) == Carried(parts)
  {
    hide Container, Data, ContainerSize, Stored, Storable;
    if parts != [] {
      StoredCarries(inflate, parts[1..]);
      var s := StoredIsContainer(inflate, parts[0], StoredAll(parts[1..]));
      assert s != [] by { NotEmpty(inflate, s); }
    }
  }

  lemma NotEmpty(inflate: Inflate, s: seq<Byte>)
    requires Container(inflate, s)
    ensures s != []
  {
  }

  // ----- files -----

  /** A file header: "LOGG", its own size, and whatever else; what exceeds 144 bytes is padded. */
  predicate IsFileHeader(h: seq<Byte>, size: nat) {
    && 8 <= size < 0x1_0000_0000
    && |h| == (if size > 144 then size + (size - 144) % 4 else size)
    && h[0..4] == [0x4C, 0x4F, 0x47, 0x47] && h[4..8] == Bytes(size, 4)
  }

  lemma HeaderOpens(h: seq<Byte>, size: nat)
    requires IsFileHeader(h, size)
    ensures Field(h, 0, 4) == LOGG_SIGNATURE && Field(h, 4, 4) == size && BodyOffset(h) == |h|
  {
    hide Word, Bytes;
    SignatureWord();
    SmallPowers();
    FieldIs(h, 4, 4, size);
  }

  /** Behind such a header the body starts where the containers do, and carries the data of all parts. */
  lemma WrittenFile(inflate: Inflate, header: seq<Byte>, size: nat, parts: seq<Part>) returns (file: seq<Byte>)
    requires AllStorable(inflate, parts) && IsFileHeader(header, size)
    ensures file == header + StoredAll(parts) && HeaderReadable(file) && Opens(file) && BodyOffset(file) == |header|
    ensures Body(inflate, file[|header|..]) && Flat(inflate, file[|header|..]) == Carried(parts)
  {
    hide StoredAll, Field, Body, Flat, Carried;
    var tail := StoredAll(parts);
    file := header + tail;
    HeaderOpens(header, size);
    FieldOfAppended(header, tail, 0, 4);
    FieldOfAppended(header, tail, 4, 4);
    StoredCarries(inflate, parts);
    assert file[|header|..] == tail;
  }

  // ----- objects -----

  /** A CAN message of one of the four types, or any other object but a container. */
  datatype Item =
    | Message(objectType: nat, bus: nat, id: nat, dlc: Byte, data: seq<Byte>)
    | Other(objectType: nat, headerSize: nat, body: seq<Byte>)

  /** The greatest length a message type allows. */
  function Longest(objectType: nat): nat {
    if objectType == 1 || objectType == 86 then 8 else 64
  }

  /** The fields of a message have their widths; its data are as long as it says, unless that is too long. */
  predicate Writable(x: Item) {
    match x
    case Message(objectType, bus, id, dlc, data) =>
      && objectType in {1, 86, 100, 101}
      && bus < (if objectType == 101 then 0x100 else 0x1_0000) && id < 0x1_0000_0000
      && (if dlc <= Longest(objectType) then |data| == dlc else |data| <= Longest(objectType))
    case Other(objectType, headerSize, body) =>
      && objectType < 0x1_0000_0000 && objectType !in {1, 86, 100, 101, 10}
      && headerSize < 0x1_0000 && headerSize <= 16 + |body| < 0x1_0000_0000
  }

  /** An object of the given size: base header, time stamp, channel and length code, identifier, data. */
  function Laid(objectType: nat, size: nat, middle: seq<Byte>, id: nat, gap: nat, data: seq<Byte>): seq<Byte>
    requires |middle| == 4 && 40 + gap + |data| <= size
  {
    Header(32, size, objectType) +
    (Zeros(16) + (middle + (Bytes(id, 4) + (Zeros(gap) + (data + Zeros(size - 40 - gap - |data|))))))
  }

  /** The bytes of an object. */
  function Spelled(x: Item): seq<Byte>
    requires Writable(x)
  {
    match x
    case Message(objectType, bus, id, dlc, data) =>
      if objectType == 1 then Laid(1, 48, Bytes(bus, 2) + [0, dlc], id, 0, data)
      else if objectType == 86 then Laid(86, 56, Bytes(bus, 2) + [0, dlc], id, 0, data)
      else if objectType == 100 then Laid(100, 116, Bytes(bus, 2) + [0, dlc], id, 12, data)
      else Laid(101, 136, Bytes(bus, 1) + [dlc, 0, 0], id, 32, data)
    case Other(objectType, headerSize, body) =>
      Header(headerSize, 16 + |body|, objectType) + (body + Zeros(|body| % 4))
  }

  function SpelledAll(items: seq<Item>): (r: seq<seq<Byte>>)
    requires forall i | 0 <= i < |items| :: Writable(items[i])
    ensures |r| == |items|
  {
    seq(|items|, i requires 0 <= i < |items| => Spelled(items[i]))
  }

  predicate TooLong(x: Item) {
    x.Message? && x.dlc > Longest(x.objectType)
  }

  /** What a reader should report of a list of objects: its messages before the first that is too long. */
  function Told(items: seq<Item>): seq<CanMessage> {
    if items == [] || TooLong(items[0]) then []
    else
      match items[0]
      case Message(_, bus, id, dlc, data) => [CanMessage(bus := bus, id := id, dlc := dlc, data := data)] + Told(items[1..])
      case Other(_, _, _) => Told(items[1..])
  }

  lemma LaidSlices(a: seq<Byte>, middle: seq<Byte>, id: seq<Byte>, gap: seq<Byte>, data: seq<Byte>, rest: seq<Byte>, s: seq<Byte>)
    requires |a| == 16 && |middle| == 4 && |id| == 4 && s == a + (middle + (id + (gap + (data + rest))))
    ensures |s| == 24 + |gap| + |data| + |rest|
    ensures s[16..20] == middle && s[20..24] == id && s[24 + |gap|..24 + |gap| + |data|] == data
  {
  }

  lemma LaidFields(objectType: nat, size: nat, middle: seq<Byte>, id: nat, gap: nat, data: seq<Byte>) returns (o: seq<Byte>)
    requires |middle| == 4 && 40 + gap + |data| <= size < 0x1_0000_0000 && objectType < 0x1_0000_0000 && id < 0x1_0000_0000
    ensures o == Laid(objectType, size, middle, id, gap, data) && |o| == size
    ensures IsHeader(o) && ObjectType(o) == objectType && ObjectSize(o) == size
    ensures o[32..36] == middle && Field(o, 36, 4) == id && o[40 + gap..40 + gap + |data|] == data
  {
    hide Header, Bytes, Zeros, Word, Pow2;
    o := Laid(objectType, size, middle, id, gap, data);
    var rest := Zeros(16) + (middle + (Bytes(id, 4) + (Zeros(gap) + (data + Zeros(size - 40 - gap - |data|)))));
    HeaderFields(32, size, objectType, rest);
    LaidSlices(Zeros(16), middle, Bytes(id, 4), Zeros(gap), data, Zeros(size - 40 - gap - |data|), rest);
    Shifted(Header(32, size, objectType), rest, 16, 4);
    Shifted(Header(32, size, objectType), rest, 20, 4);
    Shifted(Header(32, size, objectType), rest, 24 + gap, |data|);
    SmallPowers();
    FieldIs(o, 36, 4, id);
  }

  lemma MiddleOfTwo(o: seq<Byte>, bus: nat, dlc: Byte)
    requires |o| >= 36 && bus < 0x1_0000 && o[32..36] == Bytes(bus, 2) + [0, dlc]
    ensures Field(o, 32, 2) == bus && o[35] == dlc
  {
    hide Bytes, Word, Pow2;
    assert o[32..36][..2] == o[32..34] && o[32..36][3] == o[35];
    SmallPowers();
    FieldIs(o, 32, 2, bus);
  }

  lemma MiddleOfOne(o: seq<Byte>, bus: nat, dlc: Byte)
    requires |o| >= 36 && bus < 0x100 && o[32..36] == Bytes(bus, 1) + [dlc, 0, 0]
    ensures Field(o, 32, 1) == bus && o[33] == dlc
  {
    hide Bytes, Word, Pow2;
    assert o[32..36][..1] == o[32..33] && o[32..36][1] == o[33];
    SmallPowers();
    FieldIs(o, 32, 1, bus);
  }

  /** Each message type is read back field by field. */
  lemma MessageReads(x: Item) returns (o: seq<Byte>)
    requires Writable(x) && x.Message?
    ensures o == Spelled(x) && Object(o) && IsMessageObject(o) && (Overlong(o) <==> x.dlc > Longest(x.objectType))
    ensures x.dlc <= Longest(x.objectType) ==>
      var m := Reported(o); m.bus == x.bus && m.id == x.id && m.dlc == x.dlc && m.data == x.data
  {
    hide Field, IsHeader, ObjectType, ObjectSize, Laid, Bytes;
    if x.objectType == 1 {
      o := LaidFields(1, 48, Bytes(x.bus, 2) + [0, x.dlc], x.id, 0, x.data);
      MiddleOfTwo(o, x.bus, x.dlc);
    } else if x.objectType == 86 {
      o := LaidFields(86, 56, Bytes(x.bus, 2) + [0, x.dlc], x.id, 0, x.data);
      MiddleOfTwo(o, x.bus, x.dlc);
    } else if x.objectType == 100 {
      o := LaidFields(100, 116, Bytes(x.bus, 2) + [0, x.dlc], x.id, 12, x.data);
      MiddleOfTwo(o, x.bus, x.dlc);
    } else {
      o := LaidFields(101, 136, Bytes(x.bus, 1) + [x.dlc, 0, 0], x.id, 32, x.data);
      MiddleOfOne(o, x.bus, x.dlc);
    }
    assert o[..|o|] == o;
  }

  lemma OtherReads(x: Item) returns (o: seq<Byte>)
    requires Writable(x) && x.Other?
    ensures o == Spelled(x) && Object(o) && !IsMessageObject(o)
  {
    hide Header, IsHeader, HeaderSize, ObjectType, ObjectSize;
    var rest := x.body + Zeros(|x.body| % 4);
    o := Header(x.headerSize, 16 + |x.body|, x.objectType) + rest;
    HeaderFields(x.headerSize, 16 + |x.body|, x.objectType, rest);
  }

  // ----- any message object, byte by byte -----

  /** Byte j of an object, which reads as 0 behind its end. */
  function ByteAt(o: seq<Byte>, j: nat): Byte {
    if j < |o| then o[j] else 0
  }

  lemma StructureByte(o: seq<Byte>, size: nat, j: nat)
    requires j < size
    ensures Structure(o, size)[j] == ByteAt(o, j)
  {
  }

  lemma FieldBytes(s: seq<Byte>, at: nat)
    requires at + 4 <= |s|
    ensures Field(s, at, 1) == s[at] && Field(s, at, 2) == s[at] as nat + 256 * s[at + 1] as nat
    ensures Field(s, at, 4) == s[at] as nat + 256 * (s[at + 1] as nat + 256 * (s[at + 2] as nat + 256 * s[at + 3] as nat))
  {
    assert s[at..at + 1] == [s[at]] && s[at..at + 2] == [s[at], s[at + 1]];
    assert s[at..at + 4] == [s[at], s[at + 1], s[at + 2], s[at + 3]];
    FourBytes(s[at], s[at + 1], s[at + 2], s[at + 3]);
    FewBytes(s[at], s[at + 1]);
  }

  lemma FewBytes(a: Byte, b: Byte)
    ensures Word([a]) == a && Word([a, b]) == a + 256 * b
  {
    assert [a, b][1..] == [b] && [a][1..] == [] && [b][1..] == [];
    assert Word([b]) == b + 256 * Word([]);
    assert Word([a]) == a + 256 * Word([]);
  }

  /** What is reported of any message object, shorter or longer than its type's structure: where its bus, its
      identifier, its length code and its data stand. */
  lemma ReportFields(o: seq<Byte>)
    requires IsMessageObject(o)
    ensures var t := ObjectType(o);
      Overlong(o) <==> ByteAt(o, if t == 101 then 33 else 35) > if t == 1 || t == 86 then 8 else 64
    ensures !Overlong(o) ==>
      var t, m := ObjectType(o), Reported(o);
      && m.bus == (if t == 101 then ByteAt(o, 32) else ByteAt(o, 32) + 256 * ByteAt(o, 33))
      && m.id == ByteAt(o, 36) + 256 * (ByteAt(o, 37) + 256 * (ByteAt(o, 38) + 256 * ByteAt(o, 39)))
      && m.dlc == |m.data| == ByteAt(o, if t == 101 then 33 else 35)
      && forall i | 0 <= i < |m.data| :: m.data[i] == ByteAt(o, i + if t == 100 then 52 else if t == 101 then 72 else 40)
  {
    hide Field, ObjectType, ByteAt, Structure;
    var t := ObjectType(o);
    var l := LayoutOf(t);
    var s := Structure(o, l.size);
    forall j | 0 <= j < l.size ensures s[j] == ByteAt(o, j) {
      StructureByte(o, l.size, j);
    }
    FieldBytes(s, 32);
    FieldBytes(s, 36);
  }

  // ----- lists of objects -----

  lemma {:induction false} StopShifts(o: seq<Byte>, rest: seq<seq<Byte>>, i: nat)
    requires i <= |rest|
    ensures StopFrom([o] + rest, i + 1) == StopFrom(rest, i) + 1
    decreases |rest| - i
  {
    hide Overlong;
    if i < |rest| && !Overlong(rest[i]) {
      StopShifts(o, rest, i + 1);
    }
  }

  lemma {:induction false} MessagesCons(o: seq<Byte>, rest: seq<seq<Byte>>)
    ensures Messages([o] + rest) == (if IsMessageObject(o) && !Overlong(o) then [Reported(o)] else []) + Messages(rest)
  {
    hide IsMessageObject, Dlc, LayoutOf, Reported;
    var all := [o] + rest;
    if rest == [] {
      assert all[..|all| - 1] == [];
      assert Messages([]) == [];
    } else {
      assert all[..|all| - 1] == [o] + rest[..|rest| - 1];
      MessagesCons(o, rest[..|rest| - 1]);
    }
  }

  lemma DeliveredCons(o: seq<Byte>, rest: seq<seq<Byte>>)
    ensures Delivered([o] + rest) ==
      if Overlong(o) then [] else (if IsMessageObject(o) then [Reported(o)] else []) + Delivered(rest)
  {
    hide Messages, IsMessageObject, Dlc, LayoutOf, Reported;
    var all := [o] + rest;
    NoReports(all);
    if !Overlong(o) {
      StopShifts(o, rest, 0);
      var j := StopFrom(rest, 0);
      assert StopFrom(all, 0) == StopFrom(all, 1);
      assert all[..j + 1] == [o] + rest[..j];
      MessagesCons(o, rest[..j]);
    }
  }

  lemma SpelledCons(items: seq<Item>)
    requires items != [] && forall i | 0 <= i < |items| :: Writable(items[i])
    ensures SpelledAll(items) == [Spelled(items[0])] + SpelledAll(items[1..])
  {
  }

  /** One written object in front of a list: what it adds to the reports. */
  lemma ItemDelivers(x: Item, rest: seq<seq<Byte>>) returns (o: seq<Byte>)
    requires Writable(x)
    ensures o == Spelled(x) && Object(o) && (Overlong(o) <==> TooLong(x))
    ensures Delivered([o] + rest) ==
      if TooLong(x) then []
      else if x.Message? then [CanMessage(bus := x.bus, id := x.id, dlc := x.dlc, data := x.data)] + Delivered(rest)
      else Delivered(rest)
  {
    hide Writable, Spelled, Object, Delivered, Dlc, LayoutOf, Reported, IsMessageObject;
    if x.Message? {
      o := MessageReads(x);
    } else {
      o := OtherReads(x);
    }
    DeliveredCons(o, rest);
  }

  /** Objects written one after another are objects, and what is reported of them are the fields of the
      messages written, up to the first that is too long. */
  lemma {:induction false} ToldIsDelivered(items: seq<Item>) returns (objects: seq<seq<Byte>>)
    requires forall i | 0 <= i < |items| :: Writable(items[i])
    ensures objects == SpelledAll(items) && Objects(objects) && Delivered(objects) == Told(items)
    ensures forall i | 0 <= i < |items| :: Overlong(objects[i]) <==> TooLong(items[i])
  {
    hide Writable, Spelled, Object, Overlong, TooLong, Delivered;
    objects := SpelledAll(items);
    if items == [] {
      NothingDelivered();
    } else {
      SpelledCons(items);
      var rest := ToldIsDelivered(items[1..]);
      var o := ItemDelivers(items[0], rest);
      assert objects == [o] + rest;
      forall i | 0 <= i < |items| ensures Overlong(objects[i]) <==> TooLong(items[i]) {
        if i > 0 {
          assert items[i] == items[1..][i - 1] && objects[i] == rest[i - 1];
        }
      }
    }
  }

  /** Behind one well-formed message whose length code is too great nothing is reported, itself included. */
  lemma OverlongLosesAll(x: Item, objects: seq<seq<Byte>>)
    requires Writable(x) && TooLong(x) && Objects(objects)
    ensures var all := [Spelled(x)] + objects; Objects(all) && Delivered(all) == [] && MessageCount(all) >= 1
  {
    hide Writable, Spelled, Object, Overlong, Delivered, MessageCount;
    var o := ItemDelivers(x, objects);
    var all := [o] + objects;
    assert forall i | 1 <= i < |all| :: all[i] == objects[i - 1];
    NoReports(all);
    OverlongIsMessage(o);
    CountGrows(all, 0, |all|);
    assert all[..|all|] == all;
  }

  lemma OverlongIsMessage(o: seq<Byte>)
    requires Overlong(o)
    ensures IsMessageObject(o)
  {
  }

  /** A classic CAN message with a length code of 9, say. */
  lemma NineLosesAll(objects: seq<seq<Byte>>)
    requires Objects(objects)
    ensures Writable(Message(1, 0, 0, 9, [])) && Delivered([Spelled(Message(1, 0, 0, 9, []))] + objects) == []
  {
    hide Delivered, Spelled;
    OverlongLosesAll(Message(1, 0, 0, 9, []), objects);
  }

  lemma NothingDelivered()
    ensures Delivered([]) == []
  {
  }
}
