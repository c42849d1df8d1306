/** What insert and extract promise together: round trips, locality, independence of disjoint signals, and
    the symmetry between the two byte orders. */
module SignalLaws {
  import opened Powers
  import opened Bits
  import opened CanSignal
  import opened LibWecan

  // ----- round trips -----

  lemma ReadBack(f: seq<Byte>, s: Signal, v: nat, i: nat)
    requires Fits(s, |f|) && i < s.length
    ensures Bit(Raw(Put(f, s, v), s), i) == Bit(v, i)
  {
    RawBit(Put(f, s, v), s, i);
    SigBitInFrame(s, |f|, i);
    PutBit(f, s, v, SigBit(s, i));
    SigBitIndex(s, i);
  }

  lemma {:induction false} LowBits(n: nat, v: nat, len: nat)
    requires n < Pow2(len) && forall i | 0 <= i < len :: Bit(n, i) == Bit(v, i)
    ensures n == v % Pow2(len)
  {
    forall i | 0 <= i < len ensures Bit(n, i) == Bit(v % Pow2(len), i) {
      ModBit(v, len, i);
    }
    SameBits(n, v % Pow2(len), len);
  }

  /** Extracting after inserting gives the value back, reduced to the signal's length. */
  lemma RoundTrip(f: seq<Byte>, s: Signal, v: nat)
    requires Fits(s, |f|)
    ensures Raw(Put(f, s, v), s) == v % Pow2(s.length)
    ensures v < Pow2(s.length) ==> Raw(Put(f, s, v), s) == v
  {
    hide Fits, Raw, Put, Bit, FrameBit, Pow2;
    FitsWord(s, |f|);
    var raw := Raw(Put(f, s, v), s);
    RawBit(Put(f, s, v), s, 0);
    forall i | 0 <= i < s.length ensures Bit(raw, i) == Bit(v, i) {
      ReadBack(f, s, v, i);
    }
    LowBits(raw, v, s.length);
    if v < Pow2(s.length) {
      ModUnique(Pow2(s.length), 0, v);
    }
  }

  /** The uint64_t an int64_t is cast to, and back. */
  function ToUint64(x: int): int {
    if x < 0 then x + Pow2(WORD_BITS) else x
  }

  function ToInt64(n: nat): int {
    if n >= Pow2(WORD_BITS - 1) then n - Pow2(WORD_BITS) else n
  }

  /** x has a two's-complement representation of the given length. */
  predicate InSigned(x: int, length: nat)
    requires 0 < length
  {
    0 <= x + Pow2(length - 1) && x < Pow2(length - 1)
  }

  lemma DivBelow(p: nat, q: nat, x: int)
    requires 1 <= q && 0 <= x + p && x < 0
    ensures p * q + x >= 0 && (p * q + x) % p == x + p && (p * q + x) / p == q - 1
  {
    assert p * q == p * (q - 1) + p;
    ModUnique(p, q - 1, x + p);
    DivUnique(p, q - 1, x + p);
    assert p * (q - 1) >= 0;
  }

  lemma LowBitsOfNegative(x: int, length: nat, w: nat)
    requires length <= w && 0 <= x + Pow2(length) && x < 0
    ensures 0 <= x + Pow2(w) < Pow2(w)
    ensures (x + Pow2(w)) % Pow2(length) == x + Pow2(length)
    ensures (x + Pow2(w)) / Pow2(length) == Pow2(w - length) - 1
  {
    Pow2Add(length, w - length);
    DivBelow(Pow2(length), Pow2(w - length), x);
  }

  lemma LowBitsOfSigned(x: int, length: nat)
    requires 0 < length < WORD_BITS && InSigned(x, length)
    ensures 0 <= ToUint64(x) < Pow2(WORD_BITS)
    ensures ToUint64(x) % Pow2(length) == if x < 0 then x + Pow2(length) else x
    ensures x < 0 ==> ToUint64(x) / Pow2(length) == Pow2(WORD_BITS - length) - 1
  {
    if x < 0 {
      LowBitsOfNegative(x, length, WORD_BITS);
    } else {
      Pow2Monotone(length, WORD_BITS);
      ModUnique(Pow2(length), 0, x);
    }
  }

  lemma ExtendBack(x: int, length: nat, raw: nat)
    requires 0 < length < WORD_BITS && InSigned(x, length)
    requires raw == if x < 0 then x + Pow2(length) else x
    ensures 0 <= Extended(raw, length) && ToInt64(Extended(raw, length)) == x
  {
    Pow2Monotone(length, WORD_BITS - 1);
    assert Pow2(WORD_BITS) == 2 * Pow2(WORD_BITS - 1);
  }

  /** A signed value that fits in the signal's length survives insert and signed extract. */
  lemma SignedRoundTrip(f: seq<Byte>, s: Signal, x: int)
    requires Fits(s, |f|) && InSigned(x, s.length)
    ensures 0 <= ToUint64(x) < Pow2(WORD_BITS)
    ensures var word := Extended(Raw(Put(f, s, ToUint64(x)), s), s.length);
      0 <= word && ToInt64(word) == x
  {
    LowBitsOfSigned(x, s.length);
    RoundTrip(f, s, ToUint64(x));
    ExtendBack(x, s.length, Raw(Put(f, s, ToUint64(x)), s));
  }

  // ----- locality -----

  /** How many bits of the byte with the signal's top bit lie above the signal. */
  function Room(s: Signal): nat
    requires 0 < s.length
  {
    7 - SigBit(s, s.length - 1) % 8
  }

  /** Bits of the value beyond the signal's length that the write-back would copy into the frame. */
  predicate Spills(s: Signal, v: nat)
    requires 0 < s.length
  {
    ShiftRight(v, s.length) % Pow2(Room(s)) != 0
  }

  lemma SmallNeverSpills(s: Signal, v: nat)
    requires 0 < s.length && v < Pow2(s.length)
    ensures !Spills(s, v)
  {
    ShiftRightDivides(v, s.length);
    DivUnique(Pow2(s.length), 0, v);
    ModUnique(Pow2(Room(s)), 0, 0);
  }

  /** Above the signal, inside its top byte, signal indexes run on from its length for Room bits. */
  lemma RoomIndex(s: Signal, bytes: nat, b: nat)
    requires Fits(s, bytes) && b / 8 == MsbByte(s)
    ensures BitIndex(s, b) == s.length - 1 + b % 8 - SigBit(s, s.length - 1) % 8
  {
    SigBitIndex(s, s.length - 1);
    LocalIndex(s, b);
    LocalIndex(s, SigBit(s, s.length - 1));
  }

  lemma SpillBit(s: Signal, v: nat, j: nat)
    requires 0 < s.length && !Spills(s, v) && j < Room(s)
    ensures !Bit(v, s.length + j)
  {
    ModBit(ShiftRight(v, s.length), Room(s), j);
    ZeroHasNoBit(j);
    ShiftRightBit(v, s.length, j);
  }

  /** Without spill, insert writes the signal's bits and nothing else. */
  lemma PutIsLocal(f: seq<Byte>, s: Signal, v: nat, b: nat)
    requires Fits(s, |f|) && !Spills(s, v) && b < 8 * |f|
    ensures FrameBit(Put(f, s, v), b) == if Covers(s, b) then Bit(v, BitIndex(s, b)) else FrameBit(f, b)
  {
    PutBit(f, s, v, b);
    var i := BitIndex(s, b);
    if s.length <= i && b / 8 == MsbByte(s) {
      RoomIndex(s, |f|, b);
      SpillBit(s, v, i - s.length);
    }
  }

  predicate KeepsOthers(f: seq<Byte>, s: Signal, v: nat)
    requires 0 < s.length
  {
    forall b | 0 <= b < 8 * |f| && !Covers(s, b) :: FrameBit(Put(f, s, v), b) == FrameBit(f, b)
  }

  lemma SpillingBit(s: Signal, v: nat) returns (j: nat)
    requires 0 < s.length && Spills(s, v)
    ensures j < Room(s) && Bit(v, s.length + j)
  {
    var high, room := ShiftRight(v, s.length), Room(s);
    if forall j | 0 <= j < room :: !Bit(high, j) {
      forall j | 0 <= j < room ensures Bit(0, j) == Bit(high, j) {
        ZeroHasNoBit(j);
      }
      LowBits(0, high, room);
    }
    j :| 0 <= j < room && Bit(high, j);
    ShiftRightBit(v, s.length, j);
  }

  lemma SpillPlace(s: Signal, bytes: nat, j: nat) returns (b: nat)
    requires Fits(s, bytes) && j < Room(s)
    ensures b < 8 * bytes && b / 8 == MsbByte(s) && BitIndex(s, b) == s.length + j
  {
    hide Fits, SigBit, BitIndex;
    FitsWord(s, bytes);
    b := SigBit(s, s.length - 1) + 1 + j;
    Span(s, bytes);
    RoomIndex(s, bytes, b);
  }

  lemma SpillShows(f: seq<Byte>, s: Signal, v: nat)
    requires Fits(s, |f|) && Spills(s, v) && forall k | 0 <= k < |f| :: f[k] == 0
    ensures !KeepsOthers(f, s, v)
  {
    hide Fits, Spills, Bit, BitIndex, SigBit, Put;
    FitsWord(s, |f|);
    var j := SpillingBit(s, v);
    var b := SpillPlace(s, |f|, j);
    ZeroHasNoBit(b % 8);
    PutBit(f, s, v, b);
    assert !Covers(s, b) && FrameBit(Put(f, s, v), b) && !FrameBit(f, b);
  }

  /** insert leaves every frame's other bits alone exactly when no value bit beyond the length falls into
      the signal's top byte. */
  lemma LocalIff(s: Signal, bytes: nat, v: nat)
    requires Fits(s, bytes)
    ensures (forall f: seq<Byte> | |f| == bytes :: KeepsOthers(f, s, v)) <==> !Spills(s, v)
  {
    if Spills(s, v) {
      var f: seq<Byte> := seq(bytes, _ => 0);
      SpillShows(f, s, v);
    } else {
      forall f: seq<Byte> | |f| == bytes ensures KeepsOthers(f, s, v) {
        forall b | 0 <= b < 8 * |f| && !Covers(s, b) ensures FrameBit(Put(f, s, v), b) == FrameBit(f, b) {
          PutIsLocal(f, s, v, b);
        }
      }
    }
  }

  /** A negative integer in 64-bit two's complement spills unless the signal's top bit is the top bit of its
      byte. */
  lemma NegativeSpills(s: Signal, x: int)
    requires 0 < s.length && s.length + Room(s) <= WORD_BITS && s.length < WORD_BITS
    requires InSigned(x, s.length) && x < 0
    ensures 0 <= ToUint64(x) && (Spills(s, ToUint64(x)) <==> Room(s) > 0)
  {
    LowBitsOfSigned(x, s.length);
    ShiftRightDivides(ToUint64(x), s.length);
    OnesRemain(WORD_BITS - s.length, Room(s));
  }

  lemma OnesRemain(ones: nat, room: nat)
    requires 0 < ones
    ensures (Pow2(ones) - 1) % Pow2(room) != 0 <==> room > 0
  {
    if room > 0 {
      OnesBit(ones, 0);
      ModBit(Pow2(ones) - 1, room, 0);
      ZeroHasNoBit(0);
    }
  }

  // ----- disjoint signals -----

  predicate Disjoint(s: Signal, t: Signal, bytes: nat) {
    forall b | 0 <= b < 8 * bytes :: !(Covers(s, b) && Covers(t, b))
  }

  /** Inserting one signal does not disturb the reading of another that shares no bit with it. */
  lemma DisjointRead(f: seq<Byte>, s: Signal, v: nat, t: Signal)
    requires Fits(s, |f|) && Fits(t, |f|) && Disjoint(s, t, |f|) && !Spills(s, v)
    ensures Raw(Put(f, s, v), t) == Raw(f, t)
  {
    forall i: nat | i < t.length ensures FrameBit(Put(f, s, v), SigBit(t, i)) == FrameBit(f, SigBit(t, i)) {
      SigBitInFrame(t, |f|, i);
      SigBitIndex(t, i);
      PutIsLocal(f, s, v, SigBit(t, i));
    }
    SameRaw(Put(f, s, v), t, f, t);
  }

  /** Insertions of disjoint signals commute. */
  lemma DisjointCommute(f: seq<Byte>, s: Signal, v: nat, t: Signal, w: nat)
    requires Fits(s, |f|) && Fits(t, |f|) && Disjoint(s, t, |f|) && !Spills(s, v) && !Spills(t, w)
    ensures Put(Put(f, s, v), t, w) == Put(Put(f, t, w), s, v)
  {
    var a, b := Put(Put(f, s, v), t, w), Put(Put(f, t, w), s, v);
    forall i: nat | i < 8 * |f| ensures FrameBit(a, i) == FrameBit(b, i) {
      PutIsLocal(f, s, v, i);
      PutIsLocal(f, t, w, i);
      PutIsLocal(Put(f, s, v), t, w, i);
      PutIsLocal(Put(f, t, w), s, v, i);
    }
    SameFrame(a, b);
  }

  // ----- Motorola is Intel on the byte-reversed frame -----

  function Reversed(f: seq<Byte>): (r: seq<Byte>)
    ensures |r| == |f|
  {
    seq(|f|, k requires 0 <= k < |f| => f[|f| - 1 - k])
  }

  /** Where a bit moves when the bytes of the frame are reversed. */
  function Mirror(b: nat, bytes: nat): int {
    8 * (bytes - 1 - b / 8) + b % 8
  }

  lemma MirrorZig(b: nat, bytes: nat)
    ensures Mirror(b, bytes) == 8 * bytes - 1 - Zig(b)
    ensures b < 8 * bytes ==> Mirror(b, bytes) >= 0
  {
  }

  /** The Intel signal with the same bits on the byte-reversed frame. */
  function Mirrored(s: Signal, bytes: nat): Signal
    requires Fits(s, bytes) && s.order == Motorola
  {
    SigBitInFrame(s, bytes, 0);
    MirrorZig(SigBit(s, 0), bytes);
    Signal(Mirror(SigBit(s, 0), bytes), s.length, Intel)
  }

  lemma MirrorBit(f: seq<Byte>, b: nat)
    requires b < 8 * |f|
    ensures 0 <= Mirror(b, |f|) < 8 * |f| && Mirror(Mirror(b, |f|), |f|) == b
    ensures FrameBit(Reversed(f), Mirror(b, |f|)) == FrameBit(f, b)
  {
    var m := Mirror(b, |f|);
    assert m / 8 == |f| - 1 - b / 8 && m % 8 == b % 8;
  }

  lemma MirrorIndex(s: Signal, bytes: nat, b: nat)
    requires Fits(s, bytes) && s.order == Motorola && b < 8 * bytes
    ensures Mirror(b, bytes) >= 0
    ensures BitIndex(Mirrored(s, bytes), Mirror(b, bytes)) == BitIndex(s, b)
  {
    SigBitInFrame(s, bytes, 0);
    SigBitIndex(s, 0);
    MirrorZig(b, bytes);
    MirrorZig(SigBit(s, 0), bytes);
  }

  lemma MirrorSigBit(s: Signal, bytes: nat, i: nat)
    requires Fits(s, bytes) && s.order == Motorola && i < s.length
    ensures SigBit(s, i) < 8 * bytes && SigBit(Mirrored(s, bytes), i) == Mirror(SigBit(s, i), bytes)
  {
    SigBitInFrame(s, bytes, i);
    SigBitIndex(s, i);
    MirrorIndex(s, bytes, SigBit(s, i));
    IndexSigBit(Mirrored(s, bytes), Mirror(SigBit(s, i), bytes));
  }

  /** A Motorola signal reads as its mirror image in Intel order does on the byte-reversed frame. */
  lemma MotorolaReadsAsIntel(f: seq<Byte>, s: Signal)
    requires Fits(s, |f|) && s.order == Motorola
    ensures Raw(f, s) == Raw(Reversed(f), Mirrored(s, |f|))
  {
    forall i: nat | i < s.length
      ensures FrameBit(f, SigBit(s, i)) == FrameBit(Reversed(f), SigBit(Mirrored(s, |f|), i))
    {
      MirrorSigBit(s, |f|, i);
      MirrorBit(f, SigBit(s, i));
    }
    SameRaw(f, s, Reversed(f), Mirrored(s, |f|));
  }

  lemma MirrorByte(b: nat, bytes: nat)
    requires b < 8 * bytes
    ensures Mirror(b, bytes) >= 0 && Mirror(b, bytes) / 8 == bytes - 1 - b / 8
  {
  }

  /** The top byte of a signal moves with its bits. */
  lemma MirrorTopByte(s: Signal, bytes: nat, b: nat)
    requires Fits(s, bytes) && s.order == Motorola && b < 8 * bytes
    ensures (Mirror(b, bytes) / 8 == MsbByte(Mirrored(s, bytes))) == (b / 8 == MsbByte(s))
  {
    MirrorSigBit(s, bytes, s.length - 1);
    MirrorByte(b, bytes);
    MirrorByte(SigBit(s, s.length - 1), bytes);
  }

  lemma MirrorNewBit(f: seq<Byte>, s: Signal, v: nat, b: nat)
    requires Fits(s, |f|) && s.order == Motorola && b < 8 * |f|
    ensures Mirror(b, |f|) >= 0
    ensures NewBit(Reversed(f), Mirrored(s, |f|), v, Mirror(b, |f|)) == NewBit(f, s, v, b)
  {
    MirrorBit(f, b);
    MirrorIndex(s, |f|, b);
    MirrorTopByte(s, |f|, b);
  }

  /** And inserting it, then reversing, is reversing, then inserting the mirror image; even when it spills. */
  lemma MotorolaWritesAsIntel(f: seq<Byte>, s: Signal, v: nat)
    requires Fits(s, |f|) && s.order == Motorola
    ensures Reversed(Put(f, s, v)) == Put(Reversed(f), Mirrored(s, |f|), v)
  {
    var a, b := Reversed(Put(f, s, v)), Put(Reversed(f), Mirrored(s, |f|), v);
    forall m: nat | m < 8 * |f| ensures FrameBit(a, m) == FrameBit(b, m) {
      MirrorBit(f, m);
      var k := Mirror(m, |f|);
      MirrorBit(f, k);
      MirrorBit(Put(f, s, v), k);
      PutBit(f, s, v, k);
      PutBit(Reversed(f), Mirrored(s, |f|), v, m);
      MirrorNewBit(f, s, v, k);
    }
    SameFrame(a, b);
  }

  // ----- whole bytes -----

  lemma IntelPlace(k: nat, m: nat, i: nat)
    requires i < 8 * m
    ensures SigBit(Signal(8 * k, 8 * m, Intel), i) / 8 == k + i / 8 && SigBit(Signal(8 * k, 8 * m, Intel), i) % 8 == i % 8
  {
  }

  lemma MotorolaPlace(k: nat, m: nat, i: nat)
    requires i < 8 * m
    ensures var b := SigBit(Signal(8 * k + 7, 8 * m, Motorola), i); b / 8 == k + m - 1 - i / 8 && b % 8 == i % 8
  {
    var q, e := i / 8, i % 8;
    assert i == 8 * q + e;
    ZigAt(k, 7);
    ZigAt(k + m - 1 - q, 7 - e);
  }

  /** A little-endian signal of whole bytes reads as those bytes, least significant first. */
  lemma IntelIsLittleEndian(f: seq<Byte>, k: nat, m: nat)
    requires k + m <= |f|
    ensures Raw(f, Signal(8 * k, 8 * m, Intel)) == Word(f[k..k + m])
  {
    hide Raw, SigBit, Bit, Word, Pow2;
    var s, bytes := Signal(8 * k, 8 * m, Intel), f[k..k + m];
    RawBit(f, s, 0);
    WordBound(bytes);
    forall i | 0 <= i < 8 * m ensures Bit(Raw(f, s), i) == Bit(Word(bytes), i) {
      RawBit(f, s, i);
      WordBit(bytes, i);
      IntelPlace(k, m, i);
    }
    SameBits(Raw(f, s), Word(bytes), 8 * m);
  }

  /** A Motorola signal of whole bytes, named by the top bit of the first one, reads as those bytes, most
      significant first. */
  lemma MotorolaIsBigEndian(f: seq<Byte>, k: nat, m: nat)
    requires k + m <= |f|
    ensures Raw(f, Signal(8 * k + 7, 8 * m, Motorola)) == Word(Reversed(f[k..k + m]))
  {
    hide Raw, SigBit, Bit, Word, Pow2;
    var s, bytes := Signal(8 * k + 7, 8 * m, Motorola), Reversed(f[k..k + m]);
    RawBit(f, s, 0);
    WordBound(bytes);
    forall i | 0 <= i < 8 * m ensures Bit(Raw(f, s), i) == Bit(Word(bytes), i) {
      RawBit(f, s, i);
      WordBit(bytes, i);
      MotorolaPlace(k, m, i);
      assert bytes[i / 8] == f[k + m - 1 - i / 8];
    }
    SameBits(Raw(f, s), Word(bytes), 8 * m);
  }
}
