/** blfparser.c and blfPeekObject: reading through the dual stream, where draining the container in memory
    makes the reader peek the next one from the file. */
module BlfHandle {
  import opened Bits
  import opened BlfFormat
  import opened BlfStream
  import opened BlfWriter

  class Handle {
    const fileStream: SizedStream
    const memStream: SizedStream
    const inflate: Inflate
    var peekFlag: bool

    /** The file stream is open and its counter exceeds what is really left of the file; the memory stream
        is open exactly while it has bytes left. */
    ghost predicate Valid()
      reads this, fileStream, memStream
    {
      && fileStream != memStream
      && fileStream.open && fileStream.pos <= |fileStream.data|
      && fileStream.left > |fileStream.data| - fileStream.pos
      && (memStream.open <==> memStream.left > 0)
      && (memStream.left > 0 ==> memStream.pos <= |memStream.data| && memStream.left == |memStream.data| - memStream.pos)
    }

    /** The bytes of the file not read yet. */
    ghost function Ahead(): seq<Byte>
      requires Valid()
      reads this, fileStream, memStream
    {
      fileStream.data[fileStream.pos..]
    }

    /** The bytes of the open container not read yet. */
    ghost function InMemory(): seq<Byte>
      requires Valid()
      reads this, fileStream, memStream
    {
      if memStream.left > 0 then memStream.data[memStream.pos..] else []
    }

    /** Only whole containers remain in the file. */
    ghost predicate Boundary()
      reads this, fileStream, memStream
    {
      Valid() && Body(inflate, Ahead())
    }

    /** Moreover the next one is already open, if there is one. */
    ghost predicate Streaming()
      reads this, fileStream, memStream
    {
      Boundary() && (memStream.left > 0 || Ahead() == [])
    }

    /** Everything still to be read, as one byte string. */
    ghost function Rest(): seq<Byte>
      requires Boundary()
      reads this, fileStream, memStream
    {
      InMemory() + Flat(inflate, Ahead())
    }

    /** No step gives the file counter back; with the same one, none gives the memory counter back. */
    twostate predicate Shrinks()
      reads fileStream, memStream
    {
      fileStream.left < old(fileStream.left) ||
      (fileStream.left == old(fileStream.left) && memStream.left <= old(memStream.left))
    }

    /** What a read would deliver: the flat byte string if a container is open, else the file as it is. */
    ghost function Stream(): seq<Byte>
      requires Valid() && (memStream.left > 0 ==> Boundary())
      reads this, fileStream, memStream
    {
      if memStream.left > 0 then Rest() else Ahead()
    }

    /** While the next container is open or none is left, a read would deliver everything still to be read. */
    lemma StreamIsRest()
      requires Streaming()
      ensures Valid() && Boundary() && Stream() == Rest()
    {
    }

    lemma Drained()
      requires Valid() && memStream.left == 0 && Ahead() == []
      ensures Streaming()
    {
    }

    /** Reading, or skipping, and counting on the memory stream. */
    method FromMemory(most: nat, skip: bool) returns (got: nat, chunk: seq<Byte>)
      requires Valid() && 0 < most && memStream.left > 0
      modifies memStream
      ensures Valid() && 0 < got <= most && got <= |old(InMemory())| && memStream.left < old(memStream.left)
      ensures InMemory() == old(InMemory())[got..] && (!skip ==> chunk == old(InMemory())[..got])
    {
      hide Body, Flat;
      got := if most < memStream.left then most else memStream.left;
      var ok;
      NextPiece(memStream.data, memStream.pos, got);
      ok, chunk := memStream.ReadOrSkip(got, skip);
      ok := memStream.UpdateBytesLeft(got);
    }

    /** Reading and counting on the file stream, which never closes. */
    method FromFile(most: nat, skip: bool) returns (ok: bool, got: nat, chunk: seq<Byte>)
      requires Valid() && 0 < most && (skip ==> most <= |Ahead()|)
      modifies fileStream
      ensures Valid() && fileStream.data == old(fileStream.data)
      ensures ok <==> most <= |old(Ahead())|
      ensures ok ==> got == most && Ahead() == old(Ahead())[most..] && fileStream.left == old(fileStream.left) - most
      ensures ok && !skip ==> chunk == old(Ahead())[..most]
      ensures !ok ==> Ahead() == [] && fileStream.left == old(fileStream.left)
    {
      hide Body, Flat;
      got := if most < fileStream.left then most else fileStream.left;
      ok, chunk := fileStream.ReadOrSkip(got, skip);
      if ok {
        ok := fileStream.UpdateBytesLeft(got);
      }
    }

    /** The loop body of blfHandleReadOrSkip: as much as is wanted and the current stream has, from the open
        container or else from the file; a drained container is replaced by the next one. */
    method ReadChunk(most: nat, skip: bool) returns (ok: bool, got: nat, chunk: seq<Byte>)
      requires Valid() && 0 < most && (memStream.left > 0 ==> Boundary() && !peekFlag)
      requires skip ==> most <= |Stream()|
      modifies this`peekFlag, fileStream, memStream
      ensures Valid() && Shrinks() && fileStream.data == old(fileStream.data) && peekFlag == old(peekFlag)
      ensures old(memStream.left) > 0 ==> ok && Streaming()
      ensures old(memStream.left) == 0 ==> memStream.left == 0 && (ok <==> most <= |old(Ahead())|)
      ensures ok ==> 0 < got <= most && (old(memStream.left) == 0 ==> got == most)
      ensures ok ==> got <= |old(Stream())| && Stream() == old(Stream())[got..]
      ensures ok && !skip ==> chunk == old(Stream())[..got]
      ensures old(memStream.left) == 0 && ok ==> fileStream.left == old(fileStream.left) - most
      ensures !ok ==> Stream() == []
      decreases fileStream.left, memStream.left, 0
    {
      if memStream.left == 0 {
        ok, got, chunk := FromFile(most, skip);
        return;
      }
      ghost var flat := Flat(inflate, Ahead());
      ghost var inMemory := InMemory();
      got, chunk := FromMemory(most, skip);
      TakeOfSum(inMemory, flat, got);
      ok := true;
      if memStream.left == 0 {
        peekFlag := true;
        var _, _ := PeekObject();
        peekFlag := false;
      }
    }

    /** blfHandleReadOrSkip: all n bytes or failure, straddling containers as needed. The file counter is
        never found at zero, so it is never determined anew. */
    method ReadOrSkip(n: nat, skip: bool) returns (ok: bool, bytes: seq<Byte>)
      requires Valid() && (memStream.left > 0 ==> Boundary() && !peekFlag)
      requires skip ==> n <= |Stream()|
      modifies this`peekFlag, fileStream, memStream
      ensures Valid() && Shrinks() && fileStream.data == old(fileStream.data) && peekFlag == old(peekFlag)
      ensures old(memStream.left) > 0 ==> Streaming()
      ensures old(memStream.left) == 0 ==> memStream.left == 0 && (ok ==> fileStream.left == old(fileStream.left) - n)
      ensures ok <==> n <= |old(Stream())|
      ensures ok ==> Stream() == old(Stream())[n..] && (!skip ==> bytes == old(Stream())[..n])
      ensures !ok ==> Stream() == []
      decreases fileStream.left, memStream.left, 1
    {
      hide Body, Flat, Rest, InMemory;
      bytes := [];
      var alreadyRead := 0;
      ghost var raw, whole := memStream.left == 0, Stream();
      while alreadyRead < n
        invariant Valid() && Shrinks() && fileStream.data == old(fileStream.data) && peekFlag == old(peekFlag)
        invariant raw ==> memStream.left == 0 && (alreadyRead == 0 || alreadyRead == n)
        invariant raw ==> fileStream.left == old(fileStream.left) - alreadyRead
        invariant !raw ==> Streaming()
        invariant alreadyRead <= n && alreadyRead <= |whole| && Stream() == whole[alreadyRead..]
        invariant !skip ==> bytes == whole[..alreadyRead]
        decreases n - alreadyRead
      {
        var got, chunk;
        ok, got, chunk := ReadChunk(n - alreadyRead, skip);
        if !ok {
          return;
        }
        NextPiece(whole, alreadyRead, got);
        bytes := bytes + chunk;
        alreadyRead := alreadyRead + got;
      }
      ok := true;
    }

    /** blfHandleRead without the file-only bit. */
    method Read(n: nat, skip: bool) returns (ok: bool, bytes: seq<Byte>)
      requires Valid() && (memStream.left > 0 ==> Boundary() && !peekFlag)
      requires skip ==> n <= |Stream()|
      modifies this`peekFlag, fileStream, memStream
      ensures Valid() && Shrinks() && fileStream.data == old(fileStream.data) && peekFlag == old(peekFlag)
      ensures old(memStream.left) > 0 ==> Streaming()
      ensures old(memStream.left) == 0 ==> memStream.left == 0 && (ok ==> fileStream.left == old(fileStream.left) - n)
      ensures ok <==> n <= |old(Stream())|
      ensures ok ==> Stream() == old(Stream())[n..] && (!skip ==> bytes == old(Stream())[..n])
      ensures !ok ==> Stream() == []
      decreases fileStream.left, memStream.left, 2
    {
      hide Body, Flat, Rest, InMemory;
      ok, bytes := ReadOrSkip(n, skip);
    }

    /** blfHandleSkipPadding, where the padding is there. */
    method SkipPadding(n: nat) returns (ok: bool)
      requires Valid() && (memStream.left > 0 ==> Boundary() && !peekFlag)
      requires n % 4 <= |Stream()|
      modifies this`peekFlag, fileStream, memStream
      ensures Valid() && Shrinks() && fileStream.data == old(fileStream.data) && peekFlag == old(peekFlag)
      ensures old(Streaming()) ==> Streaming()
      ensures old(memStream.left) == 0 ==> memStream.left == 0
      ensures ok && Stream() == old(Stream())[n % 4..]
      decreases fileStream.left, memStream.left, 3
    {
      hide Body, Flat, Rest, InMemory;
      if n % 4 == 0 {
        return true;
      }
      var skipped;
      ok, skipped := Read(n % 4, true);
    }

    /** blfLOGGUncompress. */
    method Uncompress(header: seq<Byte>, payload: seq<Byte>) returns (ok: bool, data: seq<Byte>)
      requires |header| >= LOGG_SIZE
      ensures Field(header, 16, 4) != 2 ==> ok && data == payload
      ensures Field(header, 16, 4) == 2 ==>
        var inflated := inflate(payload, Field(header, 24, 4)); (ok <==> inflated.Some?) && (ok ==> data == inflated.value)
    {
      if Field(header, 16, 4) == 2 {
        var inflated := inflate(payload, Field(header, 24, 4));
        if inflated.None? {
          return false, [];
        }
        return true, inflated.value;
      }
      return true, payload;
    }

    /** What a peek amounts to, given the flat byte string before it: between two containers it opens the
        next one and reads nothing of it, otherwise it reads one object header. */
    twostate predicate Peeked(flat: seq<Byte>, ok: bool, base: seq<Byte>)
      reads this, fileStream, memStream
    {
      && Streaming() && fileStream.data == old(fileStream.data) && peekFlag == old(peekFlag)
      && (peekFlag || flat == [] ==> Rest() == flat)
      && (!peekFlag ==> (ok <==> IsHeader(flat)))
      && (!peekFlag && ok ==> base == flat[..BASE_SIZE] && Rest() == flat[BASE_SIZE..])
    }

    /** The reads of blfHandleReadLOGG: the rest of the container header, the payload and its padding. */
    method ReadContainer(base: seq<Byte>, ghost c: seq<Byte>) returns (header: seq<Byte>, objectData: seq<Byte>)
      requires Valid() && memStream.left == 0 && Container(inflate, c)
      requires base == c[..BASE_SIZE] && Ahead() == c[BASE_SIZE..]
      modifies this`peekFlag, fileStream, memStream
      ensures Valid() && memStream.left == 0 && fileStream.data == old(fileStream.data) && peekFlag == old(peekFlag)
      ensures header == c[..LOGG_SIZE] && objectData == c[LOGG_SIZE..ObjectSize(c)]
      ensures Ahead() == c[ContainerSize(c)..] && fileStream.left < old(fileStream.left)
      decreases fileStream.left, memStream.left, 4
    {
      hide Body, Flat, Rest, InMemory, Container, Field;
      ContainerFields(inflate, c);
      BaseFields(c);
      var ok, more;
      NextPiece(c, BASE_SIZE, LOGG_SIZE - BASE_SIZE);
      ok, more := Read(LOGG_SIZE - HeaderSize(base), false);
      header := base + more;
      var nObjectData := ObjectSize(base) - LOGG_SIZE;
      NextPiece(c, LOGG_SIZE, nObjectData);
      ok, objectData := Read(nObjectData, false);
      NextPiece(c, ObjectSize(c), Padding(nObjectData));
      ok := SkipPadding(nObjectData);
    }

    /** The part of blfHandleReadLOGG that takes a container, whose base header has been read, from the file
        and opens its data as the memory stream. */
    method OpenContainer(base: seq<Byte>, ghost c: seq<Byte>) returns (ok: bool)
      requires Valid() && memStream.left == 0 && Container(inflate, c) && Body(inflate, c)
      requires base == c[..BASE_SIZE] && Ahead() == c[BASE_SIZE..]
      modifies this`peekFlag, fileStream, memStream
      ensures ok && Streaming() && fileStream.data == old(fileStream.data) && peekFlag == old(peekFlag)
      ensures Rest() == Flat(inflate, c) && fileStream.left < old(fileStream.left)
      decreases fileStream.left, memStream.left, 5
    {
      var header, objectData := ReadContainer(base, c);
      UnpackedOfPrefix(inflate, c, objectData);
      var data;
      ok, data := Uncompress(header, objectData);
      assert data == Data(inflate, c);
      ok := memStream.InitFromMem(data);
      assert InMemory() == data;
    }

    /** blfHandleReadLOGG, after the 16 bytes of the base header of container c were read from the file. */
    method ReadLogg(base: seq<Byte>, ghost c: seq<Byte>) returns (ok: bool, next: seq<Byte>)
      requires Valid() && |base| == BASE_SIZE
      requires ObjectType(base) == TYPE_LOG_CONTAINER && memStream.left == 0 ==>
        && |c| >= BASE_SIZE && Body(inflate, c) && base == c[..BASE_SIZE] && Ahead() == c[BASE_SIZE..]
        && (!peekFlag ==> NoContainer(Flat(inflate, c)))
      modifies this`peekFlag, fileStream, memStream
      ensures ObjectType(base) != TYPE_LOG_CONTAINER ==>
        ok && next == base && unchanged(this) && unchanged(fileStream) && unchanged(memStream)
      ensures ObjectType(base) == TYPE_LOG_CONTAINER && old(memStream.left) > 0 ==>
        !ok && unchanged(this) && unchanged(fileStream) && unchanged(memStream)
      ensures ObjectType(base) == TYPE_LOG_CONTAINER && old(memStream.left) == 0 ==>
        Peeked(Flat(inflate, c), ok, next) && (peekFlag ==> ok) && fileStream.left < old(fileStream.left)
      decreases fileStream.left, memStream.left, 6
    {
      next := base;
      if ObjectType(base) != TYPE_LOG_CONTAINER {
        return true, next;
      }
      if memStream.open {
        return false, next;
      }
      ok := OpenContainer(base, c);
      if !peekFlag {
        ok, next := PeekObject();
      }
    }

    /** blfPeekObjectInternal. */
    method PeekObjectInternal() returns (ok: bool, base: seq<Byte>)
      requires Boundary() && (peekFlag ==> memStream.left == 0) && (!peekFlag ==> NoContainer(Rest()))
      modifies this`peekFlag, fileStream, memStream
      ensures Peeked(old(Rest()), ok, base) && Shrinks()
      decreases fileStream.left, memStream.left, 7
    {
      base := [];
      var first, second;
      ghost var c, source := Ahead(), Stream();
      assert memStream.left == 0 ==> Rest() == Flat(inflate, c);
      BodyStart(inflate, c);
      ok, first := Read(8, false);
      if !ok {
        return;
      }
      if |source| >= BASE_SIZE {
        HalfHeaders(source, first, source[8..][..8]);
      }
      if Field(first, 0, 4) != OBJ_SIGNATURE {
        return false, base;
      }
      ok, second := Read(8, false);
      if !ok {
        return;
      }
      ok, base := ReadLogg(first + second, c);
    }

    /** blfPeekObject. */
    method PeekObject() returns (ok: bool, base: seq<Byte>)
      requires Boundary() && (peekFlag ==> memStream.left == 0) && (!peekFlag ==> NoContainer(Rest()))
      modifies this`peekFlag, fileStream, memStream
      ensures Peeked(old(Rest()), ok, base) && Shrinks()
      decreases fileStream.left, memStream.left, 8
    {
      ok, base := PeekObjectInternal();
    }

    /** blfHandleInit. */
    constructor (inflate: Inflate)
      ensures fresh(fileStream) && fresh(memStream) && fileStream != memStream && this.inflate == inflate
      ensures !peekFlag && !memStream.open && memStream.left == 0
    {
      fileStream := new SizedStream();
      memStream := new SizedStream();
      this.inflate := inflate;
      peekFlag := false;
    }

    /** blfHandleSkip: some bytes and their padding, where they are there. The file counter never being zero,
        it always goes through the counted read. */
    method Skip(n: nat) returns (ok: bool)
      requires Valid() && (memStream.left > 0 ==> Boundary() && !peekFlag)
      requires n + n % 4 <= |Stream()|
      modifies this`peekFlag, fileStream, memStream
      ensures Valid() && Shrinks() && fileStream.data == old(fileStream.data) && peekFlag == old(peekFlag)
      ensures old(Streaming()) ==> Streaming()
      ensures old(memStream.left) == 0 ==> memStream.left == 0
      ensures ok && Stream() == old(Stream())[n + n % 4..]
    {
      hide Rest, InMemory, Body, Flat;
      ghost var whole := Stream();
      var skipped;
      ok, skipped := ReadOrSkip(n, true);
      NextPiece(whole, n, n % 4);
      ok := SkipPadding(n);
    }

    /** blfHandleOpen: the file header is read past the counter, which from then on exceeds the truth by the
        part of it that was kept. */
    method Open(file: seq<Byte>) returns (ok: bool)
      requires fileStream != memStream && !peekFlag && !memStream.open && memStream.left == 0
      requires HeaderReadable(file)
      modifies this, fileStream, memStream
      ensures ok <==> Opens(file)
      ensures ok ==> Valid() && memStream.left == 0 && !peekFlag && Ahead() == file[BodyOffset(file)..]
    {
      hide Body, Flat, Rest;
      fileStream.data, fileStream.pos, fileStream.open := file, 0, true;
      ok := fileStream.DetermineBytesLeft();
      if !ok {
        return;
      }
      var start, rest;
      ok, start := fileStream.ReadOrSkip(8, false);
      if !ok {
        return;
      }
      FieldOfPrefix(file, 8, 0, 4);
      FieldOfPrefix(file, 8, 4, 4);
      if Field(start, 0, 4) != LOGG_SIGNATURE {
        return false;
      }
      var headerSize := Field(start, 4, 4);
      var nLoggFile := headerSize - 8;
      var nRead := (if headerSize < FILE_HEADER_SIZE then headerSize else FILE_HEADER_SIZE) - 8;
      var nSkip := nLoggFile - nRead;
      if nLoggFile > 0 {
        ok, rest := fileStream.ReadOrSkip(nRead, false);
        if !ok {
          return;
        }
      }
      if nSkip > 0 {
        NextPiece(file, FILE_HEADER_SIZE, nSkip + Padding(nSkip));
        ok := Skip(nSkip);
      }
    }

    /** blfReadObject: the rest of an object whose base header was peeked, for the types it knows. */
    method ReadObject(base: seq<Byte>) returns (ok: bool, obj: seq<Byte>)
      requires Streaming() && !peekFlag && |base| == BASE_SIZE && BASE_SIZE <= ObjectSize(base)
      modifies this`peekFlag, fileStream, memStream
      ensures Streaming() && !peekFlag && fileStream.data == old(fileStream.data)
      ensures !IsReadable(ObjectType(base)) ==> !ok && Rest() == old(Rest())
      ensures IsReadable(ObjectType(base)) ==>
        var n := ObjectSize(base) - BASE_SIZE;
        && (ok <==> n <= |old(Rest())|)
        && (ok ==> obj == base + old(Rest())[..n] && Rest() == old(Rest())[n..])
    {
      hide Valid, Boundary, Rest, InMemory, Body, Flat;
      if !IsReadable(ObjectType(base)) {
        return false, base;
      }
      StreamIsRest();
      ghost var fromMemory := memStream.left > 0;
      var rest;
      ok, rest := Read(ObjectSize(base) - BASE_SIZE, false);
      if !fromMemory {
        Drained();
      }
      StreamIsRest();
      obj := base + rest;
    }

    /** blfSkipObject, where the rest of the object and its padding are there. */
    method SkipObject(base: seq<Byte>) returns (ok: bool)
      requires Streaming() && !peekFlag && |base| == BASE_SIZE && BASE_SIZE <= ObjectSize(base)
      requires var n := ObjectSize(base) - BASE_SIZE; n + n % 4 <= |Rest()|
      modifies this`peekFlag, fileStream, memStream
      ensures Streaming() && !peekFlag && fileStream.data == old(fileStream.data)
      ensures ok <==> HeaderSize(base) <= ObjectSize(base)
      ensures ok ==> var n := ObjectSize(base) - BASE_SIZE; Rest() == old(Rest())[n + n % 4..]
      ensures !ok ==> Rest() == old(Rest())
    {
      hide Valid, Boundary, Rest, InMemory, Body, Flat;
      if ObjectSize(base) < HeaderSize(base) {
        return false;
      }
      StreamIsRest();
      ok := Skip(ObjectSize(base) - BASE_SIZE);
      StreamIsRest();
    }

    /** blfPeekObject where the next object of a known list is due. */
    method PeekListed(ghost objects: seq<seq<Byte>>, ghost i: nat) returns (ok: bool, base: seq<Byte>)
      requires Boundary() && !peekFlag && Objects(objects) && i <= |objects| && Rest() == Concat(objects[i..])
      modifies this`peekFlag, fileStream, memStream
      ensures Streaming() && !peekFlag && AtObject(objects, i, ok, base, Rest())
    {
      ConcatStarts(objects, i);
      ok, base := PeekObject();
      AfterPeek(objects, i, old(Rest()), ok, base, Rest());
    }

    /** One round of the reading loop: read the peeked object if it is a message, else skip it. */
    method TakeListed(ghost objects: seq<seq<Byte>>, ghost i: nat, base: seq<Byte>)
      returns (success: bool, obj: seq<Byte>)
      requires Streaming() && !peekFlag && Objects(objects) && AtObject(objects, i, true, base, Rest())
      modifies this`peekFlag, fileStream, memStream
      ensures Streaming() && !peekFlag && success && Rest() == Concat(objects[i + 1..])
      ensures IsMessage(ObjectType(base)) <==> IsMessageObject(objects[i])
      ensures IsMessage(ObjectType(base)) ==> obj == objects[i]
    {
      hide Valid, Boundary, Rest, Concat, Object;
      PeekedObject(objects, i, base, Rest());
      obj := base;
      if IsMessage(ObjectType(base)) {
        success, obj := ReadObject(base);
      } else {
        success := SkipObject(base);
      }
    }

    /** The reading loop of blfreader.c: it reports exactly the messages that were written, in order, however
        the containers cut them and whatever other objects stand between them, up to the first whose data
        length code is too great; there it gives up, and ended says that it did not. */
    method ReadObjects(ghost objects: seq<seq<Byte>>) returns (result: seq<CanMessage>, ended: bool)
      requires Boundary() && !peekFlag && Objects(objects) && Rest() == Concat(objects)
      modifies this`peekFlag, fileStream, memStream
      ensures result == Delivered(objects) && Streaming()
      ensures ended <==> forall k | 0 <= k < |objects| :: !Overlong(objects[k])
      ensures ended ==> Rest() == []
    {
      hide Valid, Boundary, Rest, Objects, Object, Concat, Messages, Field, Structure, Reported, StopFrom;
      result := [];
      NoReports(objects);
      ghost var i := 0;
      ghost var stop := StopFrom(objects, 0);
      assert objects[0..] == objects;
      var success := true;
      var ok, base := PeekListed(objects, 0);
      while success && ok
        invariant success && Streaming() && !peekFlag && AtObject(objects, i, ok, base, Rest())
        invariant i <= stop && result == Messages(objects[..i])
        decreases |objects| - i
      {
        MessagesGrow(objects, i);
        var obj;
        success, obj := TakeListed(objects, i, base);
        if IsMessage(ObjectType(base)) {
          if Dlc(obj) > LayoutOf(ObjectType(obj)).maxDlc {
            return result, false;
          }
          result := result + [Reported(obj)];
        }
        i := i + 1;
        ok, base := PeekListed(objects, i);
      }
      ended := true;
    }
  }

  /** blfReader_processFile on a file whose body carries the given objects. */
  method ProcessFile(inflate: Inflate, file: seq<Byte>, ghost objects: seq<seq<Byte>>)
    returns (ok: bool, messages: seq<CanMessage>, ended: bool)
    requires HeaderReadable(file) && Objects(objects)
    requires Opens(file) ==>
      var body := file[BodyOffset(file)..]; Body(inflate, body) && Flat(inflate, body) == Concat(objects)
    ensures ok <==> Opens(file)
    ensures messages == if ok then Delivered(objects) else []
    ensures ended <==> ok && forall k | 0 <= k < |objects| :: !Overlong(objects[k])
  {
    messages, ended := [], false;
    var h := new Handle(inflate);
    ok := h.Open(file);
    if ok {
      assert h.Rest() == Flat(inflate, h.Ahead());
      messages, ended := h.ReadObjects(objects);
    }
  }

  /** Writing and reading back: a file header, then the objects' bytes cut into containers at any places,
      some of them compressed. */
  method ReadBack(inflate: Inflate, header: seq<Byte>, ghost size: nat, parts: seq<Part>, ghost objects: seq<seq<Byte>>)
    returns (messages: seq<CanMessage>, ended: bool)
    requires IsFileHeader(header, size) && AllStorable(inflate, parts) && Objects(objects)
    requires Carried(parts) == Concat(objects)
    ensures messages == Delivered(objects)
    ensures ended <==> forall k | 0 <= k < |objects| :: !Overlong(objects[k])
    ensures ended ==> messages == Messages(objects) && |messages| == MessageCount(objects)
  {
    var file := header + StoredAll(parts);
    ghost var written := WrittenFile(inflate, header, size, parts);
    var ok;
    ok, messages, ended := ProcessFile(inflate, file, objects);
    AllDeliveredIff(objects);
  }

  /** A file of written messages and other objects reports bus, identifier, length and data of the messages. */
  method ReadWritten(inflate: Inflate, header: seq<Byte>, ghost size: nat, parts: seq<Part>, ghost items: seq<Item>)
    returns (messages: seq<CanMessage>, ended: bool)
    requires IsFileHeader(header, size) && AllStorable(inflate, parts)
    requires (forall i | 0 <= i < |items| :: Writable(items[i])) && Carried(parts) == Concat(SpelledAll(items))
    ensures messages == Told(items)
    ensures ended <==> forall i | 0 <= i < |items| :: !TooLong(items[i])
  {
    ghost var objects := ToldIsDelivered(items);
    messages, ended := ReadBack(inflate, header, size, parts, objects);
  }
}
