/** Signals inside CAN frames: which frame bits a signal occupies in either byte order, what value it
    reads there, and what a frame looks like after a value has been put there. */
module CanSignal {
  import opened Powers
  import opened Bits

  datatype Order = Motorola | Intel

  /** start is the bit number of the least significant bit for Intel, of the most significant for Motorola. */
  datatype Signal = Signal(start: nat, length: nat, order: Order)

  /** The numbering that runs from the top bit of byte 0 down, then through byte 1, and so on. */
  function Zig(b: nat): nat {
    8 * (b / 8) + 7 - b % 8
  }

  function Place(order: Order, b: nat): nat {
    if order == Motorola then Zig(b) else b
  }

  /** The frame bit holding bit i of the signal, bit 0 being the least significant. */
  function SigBit(s: Signal, i: nat): nat
    requires i < s.length
  {
    if s.order == Intel then s.start + i else Zig(Zig(s.start) + s.length - 1 - i)
  }

  /** Which bit of the signal frame bit b would be, counting on beyond both of its ends. */
  function BitIndex(s: Signal, b: nat): int {
    if s.order == Intel then b - s.start else Zig(s.start) + s.length - 1 - Zig(b)
  }

  predicate Covers(s: Signal, b: nat) {
    0 <= BitIndex(s, b) < s.length
  }

  /** What the code needs of a signal: it lies inside the frame, its bit numbers are uint8_t values, no
      shift reaches 64, and together with the bits below it in its last byte it fills at most a uint64_t. */
  predicate Fits(s: Signal, bytes: nat) {
    && 1 <= s.length <= 63
    && Place(s.order, s.start) + s.length <= 8 * bytes
    && Place(s.order, s.start) + s.length <= 256
    && SigBit(s, 0) % 8 + s.length <= WORD_BITS
  }

  predicate FrameBit(f: seq<Byte>, b: nat) {
    b / 8 < |f| && Bit(f[b / 8], b % 8)
  }

  /** The unsigned value of a signal: the number its frame bits spell. */
  function Raw(f: seq<Byte>, s: Signal): nat {
    Pack((i: nat) => i < s.length && FrameBit(f, SigBit(s, i)), s.length)
  }

  /** Frame bit b after v was inserted. A value with bits beyond the signal's length spills them into the
      byte that holds the signal's top bit. */
  predicate NewBit(f: seq<Byte>, s: Signal, v: nat, b: nat)
    requires 0 < s.length
  {
    var i := BitIndex(s, b);
    if 0 <= i < s.length then Bit(v, i)
    else if s.length <= i && b / 8 == SigBit(s, s.length - 1) / 8 then FrameBit(f, b) || Bit(v, i)
    else FrameBit(f, b)
  }

  function PutByte(f: seq<Byte>, s: Signal, v: nat, k: nat): Byte
    requires 0 < s.length
  {
    PackBit((j: nat) => NewBit(f, s, v, 8 * k + j), 8, 0);
    EightBits();
    Pack((j: nat) => NewBit(f, s, v, 8 * k + j), 8)
  }

  /** The frame after v was inserted. */
  function Put(f: seq<Byte>, s: Signal, v: nat): seq<Byte>
    requires 0 < s.length
  {
    seq(|f|, k requires 0 <= k < |f| => PutByte(f, s, v, k))
  }

  // ----- geometry -----

  lemma ZigZig(b: nat)
    ensures Zig(Zig(b)) == b && Zig(b) / 8 == b / 8 && Zig(b) % 8 == 7 - b % 8
  {
  }

  lemma ZigBound(b: nat, n: nat)
    requires b < 8 * n
    ensures Zig(b) < 8 * n
  {
    assert b / 8 <= n - 1;
  }

  lemma SigBitIndex(s: Signal, i: nat)
    requires i < s.length
    ensures BitIndex(s, SigBit(s, i)) == i
  {
    if s.order == Motorola {
      ZigZig(Zig(s.start) + s.length - 1 - i);
    }
  }

  lemma IndexSigBit(s: Signal, b: nat)
    requires Covers(s, b)
    ensures SigBit(s, BitIndex(s, b)) == b
  {
    if s.order == Motorola {
      ZigZig(b);
    }
  }

  /** A signal covers exactly the bits it names. */
  lemma CoversIff(s: Signal, b: nat)
    ensures Covers(s, b) <==> exists i: nat | i < s.length :: SigBit(s, i) == b
  {
    if Covers(s, b) {
      IndexSigBit(s, b);
    }
    forall i: nat | i < s.length && SigBit(s, i) == b ensures Covers(s, b) {
      SigBitIndex(s, i);
    }
  }

  function LsbByte(s: Signal): nat
    requires 0 < s.length
  {
    SigBit(s, 0) / 8
  }

  function MsbByte(s: Signal): nat
    requires 0 < s.length
  {
    SigBit(s, s.length - 1) / 8
  }

  function Offset(s: Signal): nat
    requires 0 < s.length
  {
    SigBit(s, 0) % 8
  }

  /** How far byte k lies from the least significant byte, towards the most significant one. */
  function Toward(s: Signal, k: nat): int
    requires 0 < s.length
  {
    if s.order == Intel then k - LsbByte(s) else LsbByte(s) - k
  }

  /** In the little-endian copy of the signal's bytes, frame bit b stands at its signal index plus the offset. */
  lemma LocalIndex(s: Signal, b: nat)
    requires 0 < s.length
    ensures BitIndex(s, b) + Offset(s) == 8 * Toward(s, b / 8) + b % 8
  {
    if s.order == Motorola {
      ZigZig(Zig(s.start) + s.length - 1);
      ZigZig(b);
    }
  }

  /** The signal's bytes are those from its least to its most significant one, at most eight. */
  lemma Span(s: Signal, bytes: nat)
    requires Fits(s, bytes)
    ensures LsbByte(s) < bytes && MsbByte(s) < bytes
    ensures Toward(s, MsbByte(s)) == (Offset(s) + s.length - 1) / 8 < 8
  {
    SigBitIndex(s, s.length - 1);
    LocalIndex(s, SigBit(s, s.length - 1));
    if s.order == Motorola {
      ZigZig(Zig(s.start) + s.length - 1);
      ZigZig(Zig(s.start));
    }
  }

  /** Within those bytes only the top one has bits above the signal; outside them there are no signal bits. */
  lemma SpanBits(s: Signal, bytes: nat, b: nat)
    requires Fits(s, bytes)
    ensures Covers(s, b) ==> 0 <= Toward(s, b / 8) <= Toward(s, MsbByte(s))
    ensures 0 <= Toward(s, b / 8) <= Toward(s, MsbByte(s)) && s.length <= BitIndex(s, b) ==> b / 8 == MsbByte(s)
  {
    Span(s, bytes);
    LocalIndex(s, b);
  }

  lemma SigBitInFrame(s: Signal, bytes: nat, i: nat)
    requires Fits(s, bytes) && i < s.length
    ensures SigBit(s, i) < 8 * bytes && SigBit(s, i) < 256
  {
    if s.order == Motorola {
      ZigBound(Zig(s.start) + s.length - 1 - i, bytes);
      ZigBound(Zig(s.start) + s.length - 1 - i, 32);
    }
  }

  // ----- frames bit by bit -----

  lemma SameFrame(f: seq<Byte>, g: seq<Byte>)
    requires |f| == |g| && forall b: nat | b < 8 * |f| :: FrameBit(f, b) == FrameBit(g, b)
    ensures f == g
  {
    forall k | 0 <= k < |f| ensures f[k] == g[k] {
      forall i | 0 <= i < 8 ensures Bit(f[k], i) == Bit(g[k], i) {
        assert FrameBit(f, 8 * k + i) == FrameBit(g, 8 * k + i);
      }
      SameByte(f[k], g[k]);
    }
  }

  lemma SameByte(a: Byte, b: Byte)
    requires forall i | 0 <= i < 8 :: Bit(a, i) == Bit(b, i)
    ensures a == b
  {
    EightBits();
    SameBits(a, b, 8);
  }

  lemma PutByteBit(f: seq<Byte>, s: Signal, v: nat, k: nat, e: nat)
    requires 0 < s.length && e < 8
    ensures Bit(PutByte(f, s, v, k), e) == NewBit(f, s, v, 8 * k + e)
  {
    hide NewBit, Bit, Pow2;
    PackBit((j: nat) => NewBit(f, s, v, 8 * k + j), 8, e);
  }

  lemma PutBit(f: seq<Byte>, s: Signal, v: nat, b: nat)
    requires 0 < s.length && b < 8 * |f|
    ensures FrameBit(Put(f, s, v), b) == NewBit(f, s, v, b)
  {
    PutByteBit(f, s, v, b / 8, b % 8);
    assert 8 * (b / 8) + b % 8 == b;
  }

  lemma RawBit(f: seq<Byte>, s: Signal, i: nat)
    ensures Raw(f, s) < Pow2(s.length)
    ensures Bit(Raw(f, s), i) == (i < s.length && FrameBit(f, SigBit(s, i)))
  {
    PackBit((i: nat) => i < s.length && FrameBit(f, SigBit(s, i)), s.length, i);
  }

  /** Two signals on two frames that agree bit by bit read the same value. */
  lemma SameRaw(f: seq<Byte>, s: Signal, g: seq<Byte>, t: Signal)
    requires s.length == t.length
    requires forall i: nat | i < s.length :: FrameBit(f, SigBit(s, i)) == FrameBit(g, SigBit(t, i))
    ensures Raw(f, s) == Raw(g, t)
  {
    PackEqual((i: nat) => i < s.length && FrameBit(f, SigBit(s, i)),
              (i: nat) => i < t.length && FrameBit(g, SigBit(t, i)), s.length);
  }
}
