/** blfstream.c: a FILE over bytes together with the counter of what is believed to be left of it. */
module BlfStream {
  import opened Bits

  class SizedStream {
    var data: seq<Byte>      // what mFile reads from
    var pos: nat             // where it stands
    var open: bool           // mFile != NULL
    var left: nat            // mBytesLeft

    /** blfSizedStreamInit. */
    constructor ()
      ensures !open && left == 0 && data == [] && pos == 0
    {
      data, pos, open, left := [], 0, false, 0;
    }

    /** blfFileReadOrSkip: fread delivers what there is, fseek always succeeds, even past the end. */
    method ReadOrSkip(n: nat, skip: bool) returns (ok: bool, bytes: seq<Byte>)
      requires open
      modifies this`pos
      ensures skip ==> ok && bytes == [] && pos == old(pos) + n
      ensures !skip ==> (ok <==> n == 0 || old(pos) + n <= |data|)
      ensures !skip && ok ==> pos == old(pos) + n && (n > 0 ==> bytes == data[old(pos)..pos]) && |bytes| == n
      ensures !skip && !ok ==> pos == if old(pos) <= |data| then |data| else old(pos)
    {
      bytes := [];
      if skip {
        pos := pos + n;
        return true, bytes;
      }
      var there := if pos <= |data| then |data| - pos else 0;
      var got := if n <= there then n else there;
      if got > 0 {
        bytes := data[pos..pos + got];
      }
      pos := pos + got;
      ok := got == n;
    }

    /** blfSizedStreamUpdateBytesLeft: the stream closes when its counter reaches zero. */
    method UpdateBytesLeft(offset: nat) returns (ok: bool)
      modifies this`left, this`open
      ensures ok <==> offset <= old(left)
      ensures left == if ok then old(left) - offset else old(left)
      ensures open == if ok && left == 0 then false else old(open)
    {
      if offset > left {
        return false;
      }
      left := left - offset;
      if left == 0 {
        open := false;
      }
      return true;
    }

    /** blfSizedStreamInitFromMem: fmemopen refuses an empty buffer. */
    method InitFromMem(buffer: seq<Byte>) returns (ok: bool)
      modifies this
      ensures ok <==> buffer != []
      ensures ok ==> open && data == buffer && pos == 0 && left == |buffer|
      ensures !ok ==> !open && left == 0
    {
      if buffer != [] {
        data, pos, open, left := buffer, 0, true, |buffer|;
        return true;
      }
      open, left := false, 0;
      return false;
    }

    /** blfSizedStreamDetermineBytesLeft. */
    method DetermineBytesLeft() returns (ok: bool)
      requires open
      modifies this`left
      ensures ok <==> pos < |data|
      ensures left == if ok then |data| - pos else old(left)
    {
      if |data| <= pos {
        return false;
      }
      left := |data| - pos;
      return true;
    }
  }
}
