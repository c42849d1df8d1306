/** The body of a BLF file: log containers one after another, and the flat byte string they carry. */
module BlfFormat {
  import opened Bits
  import opened Powers
  import opened Wrappers

  const OBJ_SIGNATURE: nat := 0x4A424F4C
  const TYPE_LOG_CONTAINER: nat := 10

  const LOGG_SIGNATURE: nat := 0x47474F4C
  const FILE_HEADER_SIZE: nat := 144   // sizeof(LOGG_t)

  const BASE_SIZE: nat := 16       // sizeof(VBLObjectHeaderBase)
  const LOGG_SIZE: nat := 32       // sizeof(VBLObjectHeaderBaseLOGG)

  /** inflate a buffer into one of the given size; None when zlib reports an error. */
  type Inflate = (seq<Byte>, nat) -> Option<seq<Byte>>

  /** The little-endian number in n bytes from at on. */
  function Field(s: seq<Byte>, at: nat, n: nat): nat
    requires at + n <= |s|
  {
    Word(s[at..at + n])
  }

  /** Where the body starts: behind the file header and, if that is longer than the reader's structure for
      it, behind the padding of the excess. */
  function BodyOffset(file: seq<Byte>): nat
    requires |file| >= 8
  {
    var size := Field(file, 4, 4);
    if size > FILE_HEADER_SIZE then size + Padding(size - FILE_HEADER_SIZE) else size
  }

  /** What the reader needs of a file header: its size counts its first two fields, and a part beyond the
      reader's structure, which is skipped without looking, is there. */
  predicate HeaderReadable(file: seq<Byte>) {
    |file| >= 8 && Field(file, 0, 4) == LOGG_SIGNATURE ==>
      && 8 <= Field(file, 4, 4)
      && (Field(file, 4, 4) > FILE_HEADER_SIZE && FILE_HEADER_SIZE <= |file| ==> BodyOffset(file) <= |file|)
  }

  /** The file begins with a whole file header. */
  predicate Opens(file: seq<Byte>) {
    && |file| >= 8 && Field(file, 0, 4) == LOGG_SIGNATURE
    && (if Field(file, 4, 4) < FILE_HEADER_SIZE then Field(file, 4, 4) else FILE_HEADER_SIZE) <= |file|
  }

  function Signature(h: seq<Byte>): nat
    requires |h| >= BASE_SIZE
  {
    Field(h, 0, 4)
  }

  function HeaderSize(h: seq<Byte>): nat
    requires |h| >= BASE_SIZE
  {
    Field(h, 4, 2)
  }

  function ObjectSize(h: seq<Byte>): nat
    requires |h| >= BASE_SIZE
  {
    Field(h, 8, 4)
  }

  function ObjectType(h: seq<Byte>): nat
    requires |h| >= BASE_SIZE
  {
    Field(h, 12, 4)
  }

  predicate IsHeader(s: seq<Byte>) {
    |s| >= BASE_SIZE && Signature(s) == OBJ_SIGNATURE
  }

  /** The data of a container: its payload, inflated if it is marked as compressed. */
  function Unpacked(inflate: Inflate, h: seq<Byte>, payload: seq<Byte>): Option<seq<Byte>>
    requires |h| >= LOGG_SIZE
  {
    if Field(h, 16, 4) == 2 then inflate(payload, Field(h, 24, 4)) else Some(payload)
  }

  function Padding(n: nat): nat {
    n % 4
  }

  /** The skip is described as reaching 4-byte alignment; it does so exactly for even sizes. */
  lemma PaddingAlignsIff(n: nat)
    ensures (n + Padding(n)) % 4 == 0 <==> n % 2 == 0
  {
  }

  /** A whole container stands at the start of s: 16-byte base header, non-empty payload that unpacks to the
      promised, non-zero size, and the padding the reader skips. */
  predicate Container(inflate: Inflate, s: seq<Byte>) {
    && |s| >= LOGG_SIZE && IsHeader(s)
    && HeaderSize(s) == BASE_SIZE && ObjectType(s) == TYPE_LOG_CONTAINER
    && ObjectSize(s) > LOGG_SIZE
    && ObjectSize(s) + Padding(ObjectSize(s) - LOGG_SIZE) <= |s|
    && var data := Unpacked(inflate, s, s[LOGG_SIZE..ObjectSize(s)]);
       data.Some? && |data.value| > 0 && (Field(s, 16, 4) == 2 ==> |data.value| == Field(s, 24, 4))
  }

  function ContainerSize(s: seq<Byte>): nat
    requires |s| >= LOGG_SIZE && ObjectSize(s) > LOGG_SIZE
  {
    ObjectSize(s) + Padding(ObjectSize(s) - LOGG_SIZE)
  }

  function Data(inflate: Inflate, s: seq<Byte>): seq<Byte>
    requires Container(inflate, s)
  {
    Unpacked(inflate, s, s[LOGG_SIZE..ObjectSize(s)]).value
  }

  /** s consists of containers only. */
  predicate Body(inflate: Inflate, s: seq<Byte>) {
    s == [] || (Container(inflate, s) && Body(inflate, s[ContainerSize(s)..]))
  }

  /** The concatenated data of all containers. */
  function Flat(inflate: Inflate, s: seq<Byte>): seq<Byte>
    requires Body(inflate, s)
  {
    if s == [] then [] else Data(inflate, s) + Flat(inflate, s[ContainerSize(s)..])
  }

  lemma ContainerFields(inflate: Inflate, s: seq<Byte>)
    requires Container(inflate, s)
    ensures |s| >= LOGG_SIZE && HeaderSize(s) == BASE_SIZE && ObjectSize(s) > LOGG_SIZE && ContainerSize(s) <= |s|
  {
  }

  // ----- reading the format piece by piece -----

  lemma FieldOfPrefix(s: seq<Byte>, k: nat, at: nat, n: nat)
    requires at + n <= k <= |s|
    ensures Field(s[..k], at, n) == Field(s, at, n)
  {
    assert s[..k][at..at + n] == s[at..at + n];
  }

  /** The base header alone says everything about a header that the fields of the base say. */
  lemma BaseFields(s: seq<Byte>)
    requires |s| >= BASE_SIZE
    ensures var h := s[..BASE_SIZE];
      && Signature(h) == Signature(s) && HeaderSize(h) == HeaderSize(s)
      && ObjectSize(h) == ObjectSize(s) && ObjectType(h) == ObjectType(s)
  {
    FieldOfPrefix(s, BASE_SIZE, 0, 4);
    FieldOfPrefix(s, BASE_SIZE, 4, 2);
    FieldOfPrefix(s, BASE_SIZE, 8, 4);
    FieldOfPrefix(s, BASE_SIZE, 12, 4);
  }

  lemma UnpackedOfPrefix(inflate: Inflate, s: seq<Byte>, payload: seq<Byte>)
    requires |s| >= LOGG_SIZE
    ensures Unpacked(inflate, s[..LOGG_SIZE], payload) == Unpacked(inflate, s, payload)
  {
    FieldOfPrefix(s, LOGG_SIZE, 16, 4);
    FieldOfPrefix(s, LOGG_SIZE, 24, 4);
  }

  /** Taking n bytes behind the first k. */
  lemma NextPiece(s: seq<Byte>, k: nat, n: nat)
    requires k + n <= |s|
    ensures s[k..][..n] == s[k..k + n] && s[k..][n..] == s[k + n..] && s[..k] + s[k..k + n] == s[..k + n]
  {
  }

  /** The two halves of the base header, read one after the other. */
  lemma HalfHeaders(s: seq<Byte>, first: seq<Byte>, second: seq<Byte>)
    requires |s| >= BASE_SIZE && first == s[..8] && second == s[8..][..8]
    ensures first + second == s[..BASE_SIZE] && s[8..][8..] == s[BASE_SIZE..]
    ensures Field(first, 0, 4) == Signature(s)
    ensures ObjectType(first + second) == ObjectType(s)
  {
    assert first + second == s[..BASE_SIZE];
    FieldOfPrefix(s, 8, 0, 4);
    BaseFields(s);
  }

  /** What is left of a body starts with a container, or there is nothing left. */
  lemma BodyStart(inflate: Inflate, s: seq<Byte>)
    requires Body(inflate, s)
    ensures s != [] ==> IsHeader(s) && |s| >= LOGG_SIZE && ObjectType(s) == TYPE_LOG_CONTAINER
    ensures s == [] ==> Flat(inflate, s) == []
  {
  }

  /** Taking from the front of a sum no more than its first part. */
  lemma TakeOfSum(a: seq<Byte>, b: seq<Byte>, n: nat)
    requires n <= |a|
    ensures (a + b)[..n] == a[..n] && (a + b)[n..] == a[n..] + b
  {
  }

  function Concat(parts: seq<seq<Byte>>): seq<Byte> {
    if parts == [] then [] else parts[0] + Concat(parts[1..])
  }

  // ----- objects -----

  /** The CAN message types, which the reading loop reads; it skips all others. */
  predicate IsMessage(objectType: nat) {
    objectType == 1 || objectType == 86 || objectType == 100 || objectType == 101
  }

  /** The types blfReadObject knows. */
  predicate IsReadable(objectType: nat) {
    IsMessage(objectType) || objectType == TYPE_LOG_CONTAINER || objectType == 31 || objectType == 73
  }

  /** One object of the flat byte string as the reading loop takes it: messages are read without padding,
      other objects are skipped together with theirs. */
  predicate Object(o: seq<Byte>) {
    && IsHeader(o) && ObjectType(o) != TYPE_LOG_CONTAINER
    && if IsMessage(ObjectType(o)) then |o| == ObjectSize(o)
       else BASE_SIZE <= ObjectSize(o) && HeaderSize(o) <= ObjectSize(o) && |o| == ObjectSize(o) + Padding(ObjectSize(o) - BASE_SIZE)
  }

  /** The structure a message type is copied into: its size, where its data length code and its data stand,
      how wide its channel is, and the greatest data length code the reading loop accepts. */
  datatype Layout = Layout(size: nat, dlcAt: nat, dataAt: nat, channelBytes: nat, maxDlc: nat)

  function LayoutOf(objectType: nat): (l: Layout)
    ensures 40 <= l.dataAt && l.dlcAt < 40 && l.dataAt + l.maxDlc <= l.size
  {
    if objectType == 1 then Layout(48, 35, 40, 2, 8)
    else if objectType == 86 then Layout(56, 35, 40, 2, 8)
    else if objectType == 100 then Layout(116, 35, 52, 2, 64)
    else Layout(136, 33, 72, 1, 64)
  }

  /** What blfReadObjectSecure leaves in a structure of the given size: the object cut off, or zeros behind it. */
  function Structure(o: seq<Byte>, size: nat): (r: seq<Byte>)
    ensures |r| == size
  {
    if |o| >= size then o[..size] else o + Zeros(size - |o|)
  }

  predicate IsMessageObject(o: seq<Byte>) {
    |o| >= BASE_SIZE && IsMessage(ObjectType(o))
  }

  function Dlc(o: seq<Byte>): nat
    requires IsMessageObject(o)
  {
    var l := LayoutOf(ObjectType(o));
    Structure(o, l.size)[l.dlcAt]
  }

  /** A message at which the reading loop gives up. */
  predicate Overlong(o: seq<Byte>) {
    IsMessageObject(o) && Dlc(o) > LayoutOf(ObjectType(o)).maxDlc
  }

  /** canMessage_t without its time. */
  datatype CanMessage = CanMessage(bus: nat, id: nat, dlc: nat, data: seq<Byte>)

  /** What the reading loop reports of a message object. */
  function Reported(o: seq<Byte>): CanMessage
    requires IsMessageObject(o) && !Overlong(o)
  {
    var l := LayoutOf(ObjectType(o));
    var s := Structure(o, l.size);
    CanMessage(Field(s, 32, l.channelBytes), Field(s, 36, 4), Dlc(o), s[l.dataAt..l.dataAt + Dlc(o)])
  }

  /** The reports of the message objects of a list, in order. */
  function Messages(objects: seq<seq<Byte>>): seq<CanMessage> {
    if objects == [] then []
    else
      var o := objects[|objects| - 1];
      Messages(objects[..|objects| - 1]) + if IsMessageObject(o) && !Overlong(o) then [Reported(o)] else []
  }

  /** How many message objects a list holds. */
  function MessageCount(objects: seq<seq<Byte>>): nat {
    if objects == [] then 0
    else MessageCount(objects[..|objects| - 1]) + if IsMessageObject(objects[|objects| - 1]) then 1 else 0
  }

  /** The first overlong message from object i on, or the end of the list. */
  function StopFrom(objects: seq<seq<Byte>>, i: nat): (j: nat)
    requires i <= |objects|
    ensures i <= j <= |objects|
    ensures forall k | i <= k < j :: !Overlong(objects[k])
    ensures j < |objects| ==> Overlong(objects[j])
    decreases |objects| - i
  {
    if i == |objects| || Overlong(objects[i]) then i else StopFrom(objects, i + 1)
  }

  /** What the reading loop reports of a list of objects: the messages before the first overlong one. */
  function Delivered(objects: seq<seq<Byte>>): seq<CanMessage> {
    Messages(objects[..StopFrom(objects, 0)])
  }

  lemma FieldOfAppended(s: seq<Byte>, tail: seq<Byte>, at: nat, n: nat)
    requires at + n <= |s|
    ensures Field(s + tail, at, n) == Field(s, at, n)
  {
    assert (s + tail)[..|s|] == s;
    FieldOfPrefix(s + tail, |s|, at, n);
  }

  /** A header can be read off the front of whatever the object is followed by. */
  lemma ObjectInFront(o: seq<Byte>, tail: seq<Byte>)
    requires Object(o)
    ensures IsHeader(o + tail) && ObjectType(o + tail) == ObjectType(o)
    ensures ObjectSize(o + tail) == ObjectSize(o) && HeaderSize(o + tail) == HeaderSize(o)
    ensures (o + tail)[..BASE_SIZE] + (o + tail)[BASE_SIZE..][..|o| - BASE_SIZE] == o
    ensures (o + tail)[BASE_SIZE..][|o| - BASE_SIZE..] == tail
  {
    FieldOfAppended(o, tail, 0, 4);
    FieldOfAppended(o, tail, 4, 2);
    FieldOfAppended(o, tail, 8, 4);
    FieldOfAppended(o, tail, 12, 4);
  }

  predicate Objects(objects: seq<seq<Byte>>) {
    forall i | 0 <= i < |objects| :: Object(objects[i])
  }

  /** The first object of a container is not itself a container. */
  predicate NoContainer(flat: seq<Byte>) {
    IsHeader(flat) ==> ObjectType(flat) != TYPE_LOG_CONTAINER
  }

  lemma ConcatFront(objects: seq<seq<Byte>>, i: nat)
    requires i < |objects|
    ensures Concat(objects[i..]) == objects[i] + Concat(objects[i + 1..])
  {
    assert objects[i..][1..] == objects[i + 1..];
  }

  lemma ConcatStarts(objects: seq<seq<Byte>>, i: nat)
    requires Objects(objects) && i <= |objects|
    ensures NoContainer(Concat(objects[i..]))
    ensures IsHeader(Concat(objects[i..])) <==> i < |objects|
    ensures i == |objects| ==> Concat(objects[i..]) == []
  {
    if i < |objects| {
      ConcatFront(objects, i);
      ObjectInFront(objects[i], Concat(objects[i + 1..]));
    }
  }

  /** From a peeked header on: how much to read, and what that makes. */
  lemma PeekedObject(objects: seq<seq<Byte>>, i: nat, base: seq<Byte>, rest: seq<Byte>)
    requires Objects(objects) && i < |objects| && |base| == BASE_SIZE && base + rest == Concat(objects[i..])
    ensures BASE_SIZE <= |objects[i]| && ObjectType(base) == ObjectType(objects[i])
    ensures BASE_SIZE <= ObjectSize(base)
    ensures if IsMessage(ObjectType(base)) then |objects[i]| == ObjectSize(base)
            else HeaderSize(base) <= ObjectSize(base) && |objects[i]| == ObjectSize(base) + Padding(ObjectSize(base) - BASE_SIZE)
    ensures var n := |objects[i]| - BASE_SIZE;
      n <= |rest| && base + rest[..n] == objects[i] && rest[n..] == Concat(objects[i + 1..])
  {
    var flat := base + rest;
    ConcatFront(objects, i);
    ObjectInFront(objects[i], Concat(objects[i + 1..]));
    BaseFields(flat);
    assert flat[..BASE_SIZE] == base && flat[BASE_SIZE..] == rest;
  }

  lemma MessagesGrow(objects: seq<seq<Byte>>, i: nat)
    requires i < |objects|
    ensures Messages(objects[..i + 1]) ==
      Messages(objects[..i]) +
      if IsMessageObject(objects[i]) && !Overlong(objects[i]) then [Reported(objects[i])] else []
    ensures MessageCount(objects[..i + 1]) ==
      MessageCount(objects[..i]) + if IsMessageObject(objects[i]) then 1 else 0
  {
    assert objects[..i + 1][..i] == objects[..i];
  }

  lemma NoReports(objects: seq<seq<Byte>>)
    ensures Messages(objects[..0]) == [] && MessageCount(objects[..0]) == 0
  {
  }

  /** Reports never outnumber messages, and all messages are reported exactly where none is overlong. */
  lemma {:induction false} ReportsCount(objects: seq<seq<Byte>>, i: nat)
    requires i <= |objects|
    ensures |Messages(objects[..i])| <= MessageCount(objects[..i])
    ensures |Messages(objects[..i])| == MessageCount(objects[..i]) <==> forall k | 0 <= k < i :: !Overlong(objects[k])
  {
    hide Messages, MessageCount, IsMessageObject, Dlc, LayoutOf, Reported;
    if i == 0 {
      NoReports(objects);
    } else {
      ReportsCount(objects, i - 1);
      MessagesGrow(objects, i - 1);
    }
  }

  lemma {:induction false} CountGrows(objects: seq<seq<Byte>>, i: nat, j: nat)
    requires i <= j <= |objects|
    ensures MessageCount(objects[..i]) <= MessageCount(objects[..j])
    ensures i < j && IsMessageObject(objects[i]) ==> MessageCount(objects[..i]) < MessageCount(objects[..j])
  {
    if i + 1 < j {
      CountGrows(objects, i, j - 1);
    }
    if i < j {
      MessagesGrow(objects, j - 1);
    }
  }

  /** Every message of a list is reported exactly if none of them is overlong. */
  lemma AllDeliveredIff(objects: seq<seq<Byte>>)
    ensures |Delivered(objects)| == MessageCount(objects) <==> forall k | 0 <= k < |objects| :: !Overlong(objects[k])
    ensures (forall k | 0 <= k < |objects| :: !Overlong(objects[k])) ==> Delivered(objects) == Messages(objects)
  {
    var j := StopFrom(objects, 0);
    ReportsCount(objects, j);
    CountGrows(objects, j, |objects|);
    assert objects[..|objects|] == objects;
  }

  /** After a peek, object i is next if there is one: its base header was read and the rest is still to come. */
  predicate AtObject(objects: seq<seq<Byte>>, i: nat, ok: bool, base: seq<Byte>, rest: seq<Byte>) {
    && i <= |objects| && (ok <==> i < |objects|)
    && (ok ==> |base| == BASE_SIZE && base + rest == Concat(objects[i..]))
    && (!ok ==> rest == [])
  }

  lemma AfterPeek(objects: seq<seq<Byte>>, i: nat, flat: seq<Byte>, ok: bool, base: seq<Byte>, rest: seq<Byte>)
    requires Objects(objects) && i <= |objects| && flat == Concat(objects[i..])
    requires ok <==> IsHeader(flat)
    requires ok ==> base == flat[..BASE_SIZE] && rest == flat[BASE_SIZE..]
    requires flat == [] ==> rest == []
    ensures AtObject(objects, i, ok, base, rest)
  {
    ConcatStarts(objects, i);
  }
}
