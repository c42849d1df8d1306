/** libwecan.c: locating a signal's bytes, copying them to a local word, extracting and inserting. */
module LibWecan {
  import opened Powers
  import opened Bits
  import opened CanSignal

  /** One step of the Motorola walk on a uint8_t bit number. */
  function Walk(b: nat): nat {
    if b % 8 == 0 then (b + 15) % 256 else b - 1
  }

  lemma ZigAt(q: nat, r: nat)
    requires r < 8
    ensures Zig(8 * q + r) == 8 * q + 7 - r
  {
    assert (8 * q + r) / 8 == q && (8 * q + r) % 8 == r;
  }

  /** Each step of the walk is +1 in the zig-zag numbering, wrapping with uint8_t. */
  lemma WalkStep(b: nat)
    requires b < 256
    ensures Walk(b) < 256 && Zig(Walk(b)) == (Zig(b) + 1) % 256
  {
    hide Zig;
    var q, r := b / 8, b % 8;
    assert b == 8 * q + r;
    ZigAt(q, r);
    if r > 0 {
      ZigAt(q, r - 1);
      assert Walk(b) == 8 * q + (r - 1);
    } else if q < 31 {
      ZigAt(q + 1, 7);
      assert Walk(b) == 8 * (q + 1) + 7;
    } else {
      ZigAt(0, 7);
      assert Walk(b) == 8 * 0 + 7;
    }
  }

  lemma WalkOn(b: nat)
    requires b < 256 && Zig(b) < 255
    ensures Walk(b) < 256 && Zig(Walk(b)) == Zig(b) + 1
  {
    WalkStep(b);
  }

  lemma WalkEnds(s: Signal, b: nat)
    requires s.order == Motorola && 0 < s.length && Zig(b) == Zig(s.start) + s.length - 1
    ensures b == SigBit(s, 0) && s.start == SigBit(s, s.length - 1)
  {
    ZigZig(b);
    ZigZig(s.start);
  }

  lemma MotorolaStart(s: Signal, bytes: nat)
    requires Fits(s, bytes) && s.order == Motorola
    ensures s.start < 256 && 0 < s.length && Zig(s.start) + s.length <= 256
  {
    ZigZig(s.start);
    ZigBound(Zig(s.start), 32);
  }

  lemma IntelEnds(s: Signal, bytes: nat)
    requires Fits(s, bytes) && s.order == Intel
    ensures 0 < s.length && s.start == SigBit(s, 0) && (s.start + s.length - 1) % 256 == SigBit(s, s.length - 1)
  {
  }

  /** compute_indexes: the bytes of a signal's ends, and how far up its last byte it starts. */
  method ComputeIndexes(s: Signal, ghost bytes: nat) returns (offsetLsb: nat, byteIndexLsb: nat, byteIndexMsb: nat)
    requires Fits(s, bytes)
    ensures offsetLsb == Offset(s) && byteIndexLsb == LsbByte(s) && byteIndexMsb == MsbByte(s)
  {
    hide Fits, Zig, SigBit;
    if s.order == Motorola {
      var msb := s.start;
      var current := s.start;
      MotorolaStart(s, bytes);
      for i := 0 to s.length - 1
        invariant 0 <= current < 256 && Zig(current) == Zig(s.start) + i
      {
        WalkOn(current);
        if current % 8 == 0 {
          current := (current + 15) % 256;
        } else {
          current := current - 1;
        }
      }
      WalkEnds(s, current);
      var lsb := current;
      byteIndexLsb := lsb / 8;
      byteIndexMsb := msb / 8;
      offsetLsb := lsb % 8;
    } else {
      IntelEnds(s, bytes);
      var lsb := s.start;
      var msb := (lsb + s.length - 1) % 256;
      byteIndexMsb := msb / 8;
      byteIndexLsb := lsb / 8;
      offsetLsb := lsb % 8;
    }
  }

  /** The frame byte copied to byte d of the local word. */
  function SourceByte(order: Order, lsb: nat, d: nat): int {
    if order == Motorola then lsb - d else lsb + d
  }

  /** The local word holds the frame bytes from lsb to msb, least significant first. */
  ghost predicate IsLocal(f: seq<Byte>, order: Order, lsb: nat, span: nat, target: nat)
    requires forall d | 0 <= d <= span :: 0 <= SourceByte(order, lsb, d) < |f|
  {
    target < Pow2(WORD_BITS) &&
    forall j: nat :: Bit(target, j) == (j / 8 <= span && Bit(f[SourceByte(order, lsb, j / 8)], j % 8))
  }

  lemma LocalWord(f: seq<Byte>, order: Order, lsb: nat, span: nat, local: seq<Byte>)
    requires |local| == 8 && span < 8
    requires forall d | 0 <= d <= span :: 0 <= SourceByte(order, lsb, d) < |f| && local[d] == f[SourceByte(order, lsb, d)]
    requires forall d | span < d < 8 :: local[d] == 0
    ensures IsLocal(f, order, lsb, span, Word(local))
  {
    WordBound(local);
    forall j: nat ensures Bit(Word(local), j) == (j / 8 <= span && Bit(f[SourceByte(order, lsb, j / 8)], j % 8)) {
      WordBit(local, j);
      ZeroHasNoBit(j % 8);
    }
  }

  /** frame_to_local: the cross copy of the signal's bytes into a uint64_t, byte by byte. */
  method FrameToLocal(frame: array<Byte>, byteIndexLsb: nat, byteIndexMsb: nat, order: Order) returns (target: nat)
    requires byteIndexLsb < frame.Length && byteIndexMsb < frame.Length
    requires if order == Motorola then byteIndexMsb <= byteIndexLsb else byteIndexLsb <= byteIndexMsb
    requires if order == Motorola then byteIndexLsb - byteIndexMsb < 8 else byteIndexMsb - byteIndexLsb < 8
    ensures IsLocal(frame[..], order, byteIndexLsb,
                    if order == Motorola then byteIndexLsb - byteIndexMsb else byteIndexMsb - byteIndexLsb, target)
  {
    var local := new Byte[8](_ => 0);
    var dest := 0;
    local[dest] := frame[byteIndexLsb];
    var i;
    if order == Motorola {
      i := byteIndexLsb - 1;
      while i >= byteIndexMsb
        invariant byteIndexMsb - 1 <= i && i == byteIndexLsb - 1 - dest && 0 <= dest < 8
        invariant forall d | 0 <= d <= dest :: local[d] == frame[byteIndexLsb - d]
        invariant forall d | dest < d < 8 :: local[d] == 0
        decreases i
      {
        dest := dest + 1;
        local[dest] := frame[i];
        i := i - 1;
      }
    } else {
      i := byteIndexLsb + 1;
      while i <= byteIndexMsb
        invariant i <= byteIndexMsb + 1 && i == byteIndexLsb + 1 + dest && 0 <= dest < 8
        invariant forall d | 0 <= d <= dest :: local[d] == frame[byteIndexLsb + d]
        invariant forall d | dest < d < 8 :: local[d] == 0
      {
        dest := dest + 1;
        local[dest] := frame[i];
        i := i + 1;
      }
    }
    LocalWord(frame[..], order, byteIndexLsb, dest, local[..]);
    target := Word(local[..]);
  }

  // ----- extract -----

  /** SIGNED reads copy the top bit of the signal into every higher bit of the word. */
  function Extended(raw: nat, length: nat): int
    requires 0 < length
  {
    if raw >= Pow2(length - 1) then raw + Pow2(WORD_BITS) - Pow2(length) else raw
  }

  /** The local word is the copy of the signal's bytes, all of them bytes of the frame. */
  ghost predicate Copied(f: seq<Byte>, s: Signal, target: nat)
    requires 0 < s.length
  {
    var span := Toward(s, MsbByte(s));
    && 0 <= span < 8
    && (forall d | 0 <= d <= span :: 0 <= SourceByte(s.order, LsbByte(s), d) < |f|)
    && IsLocal(f, s.order, LsbByte(s), span, target)
  }

  lemma FitsWord(s: Signal, bytes: nat)
    requires Fits(s, bytes)
    ensures 0 < s.length < WORD_BITS
  {
  }

  lemma CoveredByte(s: Signal, i: nat)
    requires i < s.length
    ensures Covers(s, SigBit(s, i))
  {
    SigBitIndex(s, i);
  }

  /** The local word shows every bit of the signal, moved up by the offset. */
  lemma LocalShowsSignal(f: seq<Byte>, s: Signal, target: nat, i: nat)
    requires Fits(s, |f|) && i < s.length && Copied(f, s, target)
    ensures Bit(target, Offset(s) + i) == FrameBit(f, SigBit(s, i))
  {
    hide Bit, BitIndex, SigBit, Offset, MsbByte, LsbByte;
    var b, j := SigBit(s, i), Offset(s) + i;
    CoveredByte(s, i);
    SigBitIndex(s, i);
    LocalIndex(s, b);
    Span(s, |f|);
    SpanBits(s, |f|, b);
    SigBitInFrame(s, |f|, i);
    assert j / 8 == Toward(s, b / 8) && j % 8 == b % 8;
    assert SourceByte(s.order, LsbByte(s), j / 8) == b / 8;
  }

  /** The end bytes of a signal that fits are less than eight bytes of the frame apart. */
  lemma Ends(s: Signal, bytes: nat)
    requires Fits(s, bytes)
    ensures 0 < s.length < WORD_BITS && LsbByte(s) < bytes && MsbByte(s) < bytes
    ensures 0 <= (if s.order == Motorola then LsbByte(s) - MsbByte(s) else MsbByte(s) - LsbByte(s)) < 8
  {
    Span(s, bytes);
  }

  /** A masked word has the masked-out bits clear. */
  lemma MaskBits(target: nat, off: nat, length: nat, i: nat)
    requires length < WORD_BITS
    ensures 1 <= ShiftLeft(1, length)
    ensures Bit(And(ShiftRight(target, off), ShiftLeft(1, length) - 1), i) == (i < length && Bit(target, off + i))
  {
    MaskBit(length, i);
    AndBit(ShiftRight(target, off), ShiftLeft(1, length) - 1, i);
    ShiftRightBit(target, off, i);
  }

  lemma {:induction false} ShiftRightLess(a: nat, k: nat)
    ensures ShiftRight(a, k) <= a
  {
    if k > 0 {
      ShiftRightLess(a / 2, k - 1);
    }
  }

  lemma MaskedBit(f: seq<Byte>, s: Signal, target: nat, i: nat)
    requires Fits(s, |f|) && Copied(f, s, target)
    ensures 1 <= ShiftLeft(1, s.length)
    ensures Bit(And(ShiftRight(target, Offset(s)), ShiftLeft(1, s.length) - 1), i) == Bit(Raw(f, s), i)
  {
    hide Fits, Copied, Raw, Bit, And, ShiftRight, ShiftLeft, Offset, FrameBit, SigBit;
    FitsWord(s, |f|);
    MaskBits(target, Offset(s), s.length, i);
    RawBit(f, s, i);
    if i < s.length {
      LocalShowsSignal(f, s, target, i);
    }
  }

  lemma RawIsWord(f: seq<Byte>, s: Signal)
    requires 0 < s.length < WORD_BITS
    ensures Raw(f, s) < Pow2(WORD_BITS)
  {
    RawBit(f, s, 0);
    Pow2Monotone(s.length, WORD_BITS);
  }

  lemma MaskedIsWord(target: nat, off: nat, mask: nat)
    requires target < Pow2(WORD_BITS)
    ensures And(ShiftRight(target, off), mask) < Pow2(WORD_BITS)
  {
    AndBit(ShiftRight(target, off), mask, 0);
    ShiftRightLess(target, off);
  }

  lemma CopiedIsWord(f: seq<Byte>, s: Signal, target: nat)
    requires 0 < s.length && Copied(f, s, target)
    ensures target < Pow2(WORD_BITS)
  {
  }

  /** Shifting the offset away and masking leaves the signal's value. */
  lemma MaskedIsRaw(f: seq<Byte>, s: Signal, target: nat, masked: nat)
    requires Fits(s, |f|) && Copied(f, s, target)
    requires 1 <= ShiftLeft(1, s.length) && masked == And(ShiftRight(target, Offset(s)), ShiftLeft(1, s.length) - 1)
    ensures masked == Raw(f, s)
  {
    hide Fits, Copied, Raw, Bit, Pow2, And, ShiftRight, ShiftLeft, Offset;
    FitsWord(s, |f|);
    CopiedIsWord(f, s, target);
    RawIsWord(f, s);
    MaskedIsWord(target, Offset(s), ShiftLeft(1, s.length) - 1);
    forall i | 0 <= i < WORD_BITS ensures Bit(masked, i) == Bit(Raw(f, s), i) {
      MaskedBit(f, s, target, i);
    }
    SameBits(masked, Raw(f, s), WORD_BITS);
  }

  lemma TopBitIff(raw: nat, length: nat)
    requires 0 < length && raw < Pow2(length)
    ensures Bit(raw, length - 1) <==> raw >= Pow2(length - 1)
  {
    var h, low := TopBit(raw, Pow2(length - 1));
    SplitBit(h, low, length - 1, length - 1);
    OneBit(h, 0);
  }

  lemma OneShifted(k: nat, i: nat)
    requires k < WORD_BITS
    ensures Bit(ShiftLeft(1, k), i) == (i == k)
  {
    ShiftLeftBit(1, k, i);
    if k <= i {
      OneBit(1, i - k);
    }
    if WORD_BITS <= i {
      MaskBit(k, 0);
      BeyondHasNoBit(ShiftLeft(1, k), WORD_BITS, i);
    }
  }

  /** (1 << k) & raw is nonzero exactly when bit k of raw is set. */
  lemma TestBit(raw: nat, k: nat)
    requires k < WORD_BITS
    ensures And(ShiftLeft(1, k), raw) != 0 <==> Bit(raw, k)
  {
    var one := ShiftLeft(1, k);
    if Bit(raw, k) {
      AndBit(one, raw, k);
      OneShifted(k, k);
      ZeroHasNoBit(k);
    } else {
      MaskBit(k, 0);
      AndBit(one, raw, 0);
      forall i | 0 <= i < WORD_BITS ensures Bit(And(one, raw), i) == Bit(0, i) {
        AndBit(one, raw, i);
        OneShifted(k, i);
        ZeroHasNoBit(i);
      }
      SameBits(And(one, raw), 0, WORD_BITS);
    }
  }

  lemma TimesPredecessor(p: nat, q: nat)
    ensures p * (q - 1) == p * q - p
  {
  }

  lemma OnesAbove(length: nat, w: nat)
    requires length <= w
    ensures Pow2(length) * (Pow2(w - length) - 1) == Pow2(w) - Pow2(length)
    ensures Pow2(length) <= Pow2(w)
  {
    Pow2Monotone(length, w);
    Pow2Add(length, w - length);
    TimesPredecessor(Pow2(length), Pow2(w - length));
  }

  lemma HighOnes(raw: nat, length: nat, i: nat)
    requires length < WORD_BITS && raw < Pow2(length)
    ensures raw + Pow2(WORD_BITS) - Pow2(length) >= 0
    ensures Bit(raw + Pow2(WORD_BITS) - Pow2(length), i) ==
      if i < length then Bit(raw, i) else i < WORD_BITS
  {
    hide Pow2, Bit;
    var ones := Pow2(WORD_BITS - length) - 1;
    OnesAbove(length, WORD_BITS);
    SplitBit(ones, raw, length, i);
    if length <= i {
      OnesBit(WORD_BITS - length, i - length);
    }
  }

  lemma SignBit(raw: nat, length: nat, mask: nat, i: nat)
    requires length < WORD_BITS && raw < Pow2(length) && mask == ShiftLeft(1, length) - 1 < Pow2(WORD_BITS)
    requires i < WORD_BITS
    ensures raw + Pow2(WORD_BITS) - Pow2(length) >= 0
    ensures Bit(Or(raw, Not(mask)), i) == Bit(raw + Pow2(WORD_BITS) - Pow2(length), i)
  {
    hide Pow2, Bit, Or, ShiftLeft;
    OrBit(raw, Not(mask), i);
    NotBit(mask, i);
    MaskBit(length, i);
    HighOnes(raw, length, i);
    if length <= i {
      BeyondHasNoBit(raw, length, i);
    }
  }

  /** Setting every bit outside the mask adds 2^64 - 2^length. */
  lemma SignExtends(raw: nat, length: nat, mask: nat)
    requires length < WORD_BITS && raw < Pow2(length) && mask == ShiftLeft(1, length) - 1 < Pow2(WORD_BITS)
    ensures Or(raw, Not(mask)) == raw + Pow2(WORD_BITS) - Pow2(length)
  {
    Pow2Monotone(length, WORD_BITS);
    OrBound(raw, Not(mask), WORD_BITS);
    forall i | 0 <= i < WORD_BITS
      ensures Bit(Or(raw, Not(mask)), i) == Bit(raw + Pow2(WORD_BITS) - Pow2(length), i)
    {
      SignBit(raw, length, mask, i);
    }
    SameBits(Or(raw, Not(mask)), raw + Pow2(WORD_BITS) - Pow2(length), WORD_BITS);
  }

  /** The test of the sign bit and the extension mask together compute Extended. */
  lemma ExtendedIf(raw: nat, length: nat, mask: nat)
    requires 0 < length < WORD_BITS && raw < Pow2(length) && mask == ShiftLeft(1, length) - 1 < Pow2(WORD_BITS)
    ensures Extended(raw, length) == if And(ShiftLeft(1, length - 1), raw) != 0 then Or(raw, Not(mask)) else raw
  {
    TestBit(raw, length - 1);
    TopBitIff(raw, length);
    SignExtends(raw, length, mask);
  }

  lemma IsCopied(f: seq<Byte>, s: Signal, target: nat)
    requires Fits(s, |f|)
    requires var span := if s.order == Motorola then LsbByte(s) - MsbByte(s) else MsbByte(s) - LsbByte(s);
      && 0 <= span && (forall d | 0 <= d <= span :: 0 <= SourceByte(s.order, LsbByte(s), d) < |f|)
      && IsLocal(f, s.order, LsbByte(s), span, target)
    ensures Copied(f, s, target)
  {
    Span(s, |f|);
  }

  /** extract: the signal's bits as an unsigned number, sign-extended to 64 bits on request. */
  method Extract(frame: array<Byte>, s: Signal, signed: bool) returns (target: nat)
    requires Fits(s, frame.Length)
    ensures target == if signed then Extended(Raw(frame[..], s), s.length) else Raw(frame[..], s)
  {
    hide Fits, LsbByte, MsbByte, Offset, IsLocal, Copied, Raw, Bit, Pow2, And, Or, Not, ShiftLeft, ShiftRight, Extended;
    var offsetLsb, byteIndexLsb, byteIndexMsb := ComputeIndexes(s, frame.Length);
    Ends(s, frame.Length);
    target := FrameToLocal(frame, byteIndexLsb, byteIndexMsb, s.order);
    ghost var local := target;
    IsCopied(frame[..], s, local);
    MaskBit(s.length, 0);
    var mask := ShiftLeft(1, s.length) - 1;
    target := ShiftRight(target, offsetLsb);
    target := And(target, mask);
    MaskedIsRaw(frame[..], s, local, target);
    if signed {
      RawBit(frame[..], s, 0);
      ExtendedIf(target, s.length, mask);
      if And(ShiftLeft(1, s.length - 1), target) != 0 {
        var signExtMask := Not(mask);
        target := Or(target, signExtMask);
      }
    }
  }

  // ----- insert -----

  /** The local word with the signal's field replaced by the value. */
  function Merged(target: nat, mask: nat, off: nat, value: nat): nat {
    assert ShiftLeft(mask, off) < Pow2(WORD_BITS);
    Or(And(target, Not(ShiftLeft(mask, off))), ShiftLeft(value, off))
  }

  lemma EraseBit(length: nat, off: nat, j: nat)
    requires length < WORD_BITS && j < WORD_BITS
    ensures 1 <= ShiftLeft(1, length) && ShiftLeft(ShiftLeft(1, length) - 1, off) < Pow2(WORD_BITS)
    ensures Bit(Not(ShiftLeft(ShiftLeft(1, length) - 1, off)), j) == !(off <= j < off + length)
  {
    hide Pow2, Bit;
    MaskBit(length, 0);
    var mask := ShiftLeft(1, length) - 1;
    NotBit(ShiftLeft(mask, off), j);
    ShiftLeftBit(mask, off, j);
    if off <= j {
      MaskBit(length, j - off);
    }
  }

  lemma MergedBit(target: nat, length: nat, off: nat, value: nat, j: nat)
    requires length < WORD_BITS && j < WORD_BITS && 1 <= ShiftLeft(1, length)
    ensures Bit(Merged(target, ShiftLeft(1, length) - 1, off, value), j) ==
      if j < off then Bit(target, j)
      else if j < off + length then Bit(value, j - off)
      else Bit(target, j) || Bit(value, j - off)
  {
    EraseBit(length, off, j);
    var erase := Not(ShiftLeft(ShiftLeft(1, length) - 1, off));
    OrBit(And(target, erase), ShiftLeft(value, off), j);
    AndBit(target, erase, j);
    ShiftLeftBit(value, off, j);
  }

  /** Local byte d and frame byte k correspond. */
  lemma Correspond(f: seq<Byte>, s: Signal, target: nat, d: nat, k: nat, e: nat)
    requires Fits(s, |f|) && Copied(f, s, target)
    requires d <= Toward(s, MsbByte(s)) && e < 8 && k == SourceByte(s.order, LsbByte(s), d)
    ensures Bit(target, 8 * d + e) == FrameBit(f, 8 * k + e)
    ensures BitIndex(s, 8 * k + e) == 8 * d + e - Offset(s)
    ensures s.length <= BitIndex(s, 8 * k + e) ==> k == MsbByte(s)
  {
    var b := 8 * k + e;
    assert b / 8 == k && b % 8 == e && (8 * d + e) / 8 == d && (8 * d + e) % 8 == e;
    LocalIndex(s, b);
    SpanBits(s, |f|, b);
  }

  /** Bit e of local byte d, after the merge, is the bit the frame should have there. */
  lemma MergedFrameBit(f: seq<Byte>, s: Signal, value: nat, target: nat, mask: nat, d: nat, k: nat, e: nat)
    requires Fits(s, |f|) && Copied(f, s, target) && mask == ShiftLeft(1, s.length) - 1
    requires d <= Toward(s, MsbByte(s)) && e < 8 && k == SourceByte(s.order, LsbByte(s), d)
    ensures Bit(Merged(target, mask, Offset(s), value), 8 * d + e) == NewBit(f, s, value, 8 * k + e)
  {
    hide Bit, Pow2, Merged, ShiftLeft, Copied, Fits, FrameBit, NewBit, BitIndex, Offset, LsbByte, MsbByte;
    FitsWord(s, |f|);
    Span(s, |f|);
    MaskBit(s.length, 0);
    MergedBit(target, s.length, Offset(s), value, 8 * d + e);
    Correspond(f, s, target, d, k, e);
    NewBitCases(f, s, value, k, e);
  }

  lemma NewBitCases(f: seq<Byte>, s: Signal, value: nat, k: nat, e: nat)
    requires 0 < s.length && e < 8 && (s.length <= BitIndex(s, 8 * k + e) ==> k == MsbByte(s))
    ensures var i := BitIndex(s, 8 * k + e);
      NewBit(f, s, value, 8 * k + e) ==
        if i < 0 then FrameBit(f, 8 * k + e)
        else if i < s.length then Bit(value, i)
        else FrameBit(f, 8 * k + e) || Bit(value, i)
  {
    assert (8 * k + e) / 8 == k;
  }

  /** A written byte of the merged word is the byte the frame should have there. */
  lemma MergedByte(f: seq<Byte>, s: Signal, value: nat, target: nat, mask: nat, d: nat)
    requires Fits(s, |f|) && Copied(f, s, target) && mask == ShiftLeft(1, s.length) - 1
    requires d <= Toward(s, MsbByte(s)) && 0 <= SourceByte(s.order, LsbByte(s), d)
    ensures ByteOf(Merged(target, mask, Offset(s), value), d) == PutByte(f, s, value, SourceByte(s.order, LsbByte(s), d))
  {
    var k := SourceByte(s.order, LsbByte(s), d);
    var m := Merged(target, mask, Offset(s), value);
    forall e | 0 <= e < 8 ensures Bit(ByteOf(m, d), e) == Bit(PutByte(f, s, value, k), e) {
      ByteOfBit(m, d, e);
      MergedFrameBit(f, s, value, target, mask, d, k, e);
      PutByteBit(f, s, value, k, e);
    }
    SameByte(ByteOf(m, d), PutByte(f, s, value, k));
  }

  /** A byte away from the signal stays as it is. */
  lemma OtherByte(f: seq<Byte>, s: Signal, value: nat, k: nat)
    requires Fits(s, |f|) && k < |f| && !(0 <= Toward(s, k) <= Toward(s, MsbByte(s)))
    ensures PutByte(f, s, value, k) == f[k]
  {
    hide Bit, PutByte;
    Span(s, |f|);
    forall e | 0 <= e < 8 ensures Bit(PutByte(f, s, value, k), e) == Bit(f[k], e) {
      PutByteBit(f, s, value, k, e);
      SpanBits(s, |f|, 8 * k + e);
      assert (8 * k + e) / 8 == k && (8 * k + e) % 8 == e;
    }
    SameByte(PutByte(f, s, value, k), f[k]);
  }

  /** Byte k of the frame with the merged word's bytes written back over the signal's bytes. */
  function WrittenByte(f: seq<Byte>, s: Signal, merged: nat, k: nat): Byte
    requires 0 < s.length && k < |f|
  {
    if 0 <= Toward(s, k) <= Toward(s, MsbByte(s)) then ByteOf(merged, Toward(s, k)) else f[k]
  }

  lemma WrittenIsPut(f: seq<Byte>, s: Signal, value: nat, target: nat, mask: nat, k: nat)
    requires Fits(s, |f|) && Copied(f, s, target) && mask == ShiftLeft(1, s.length) - 1 && k < |f|
    ensures WrittenByte(f, s, Merged(target, mask, Offset(s), value), k) == PutByte(f, s, value, k)
  {
    hide Fits, Copied, Merged, PutByte, Offset, ByteOf, LsbByte, MsbByte, ShiftLeft;
    FitsWord(s, |f|);
    if 0 <= Toward(s, k) <= Toward(s, MsbByte(s)) {
      assert SourceByte(s.order, LsbByte(s), Toward(s, k)) == k;
      MergedByte(f, s, value, target, mask, Toward(s, k));
    } else {
      OtherByte(f, s, value, k);
    }
  }

  /** Writing them all gives the frame Put describes. */
  lemma MergedFrame(f: seq<Byte>, s: Signal, value: nat, target: nat, mask: nat, merged: nat, g: seq<Byte>)
    requires Fits(s, |f|) && Copied(f, s, target) && mask == ShiftLeft(1, s.length) - 1 && |g| == |f|
    requires merged == Merged(target, mask, Offset(s), value)
    requires forall k | 0 <= k < |g| :: g[k] == WrittenByte(f, s, merged, k)
    ensures g == Put(f, s, value)
  {
    hide Fits, Copied, Merged, PutByte, Offset, WrittenByte, ShiftLeft;
    FitsWord(s, |f|);
    forall k | 0 <= k < |g| ensures g[k] == PutByte(f, s, value, k) {
      WrittenIsPut(f, s, value, target, mask, k);
    }
  }

  lemma AllWritten(f: seq<Byte>, s: Signal, merged: nat, g: seq<Byte>)
    requires 0 < s.length && |g| == |f|
    requires forall k | 0 <= k < |g| ::
      g[k] ==
        if s.order == Motorola then
          (if MsbByte(s) <= k <= LsbByte(s) then ByteOf(merged, LsbByte(s) - k) else f[k])
        else if LsbByte(s) <= k <= MsbByte(s) then ByteOf(merged, k - LsbByte(s)) else f[k]
    ensures forall k | 0 <= k < |g| :: g[k] == WrittenByte(f, s, merged, k)
  {
    hide ByteOf, MsbByte, LsbByte;
  }

  /** insert: the frame afterwards is the one Put describes, for every uint64_t value. */
  method Insert(frame: array<Byte>, s: Signal, value: nat)
    requires Fits(s, frame.Length) && value < Pow2(WORD_BITS)
    modifies frame
    ensures frame[..] == Put(old(frame[..]), s, value)
  {
    hide Fits, LsbByte, MsbByte, Offset, IsLocal, Copied, Raw, Pow2, And, Or, Not, ShiftLeft, ByteOf, Put;
    var offsetLsb, byteIndexLsb, byteIndexMsb := ComputeIndexes(s, frame.Length);
    Ends(s, frame.Length);
    var target := FrameToLocal(frame, byteIndexLsb, byteIndexMsb, s.order);
    ghost var f, local := frame[..], target;
    IsCopied(f, s, local);
    MaskBit(s.length, 0);
    var mask := ShiftLeft(1, s.length) - 1;
    EraseBit(s.length, offsetLsb, 0);
    var eraseMask := Not(ShiftLeft(mask, offsetLsb));
    target := Or(And(target, eraseMask), ShiftLeft(value, offsetLsb));
    assert target == Merged(local, mask, offsetLsb, value);

    var src := 0;
    var i := byteIndexLsb as int;
    if s.order == Motorola {
      while i >= byteIndexMsb
        invariant byteIndexMsb - 1 <= i && i == byteIndexLsb - src && 0 <= src
        invariant forall k | 0 <= k < frame.Length ::
          frame[k] == if i < k <= byteIndexLsb then ByteOf(target, byteIndexLsb - k) else f[k]
        decreases i
      {
        frame[i] := ByteOf(target, src);
        src := src + 1;
        i := i - 1;
      }
    } else {
      while i <= byteIndexMsb
        invariant i <= byteIndexMsb + 1 && i == byteIndexLsb + src && 0 <= src
        invariant forall k | 0 <= k < frame.Length ::
          frame[k] == if byteIndexLsb <= k < i then ByteOf(target, k - byteIndexLsb) else f[k]
      {
        frame[i] := ByteOf(target, src);
        src := src + 1;
        i := i + 1;
      }
    }
    AllWritten(f, s, target, frame[..]);
    MergedFrame(f, s, value, local, mask, target, frame[..]);
  }
}
