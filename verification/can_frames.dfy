/** Filling a frame with assembled signal values (can_operator.c) and decoding frames back into values
    (frame_to_flvalue.c). Both always use Motorola order and unsigned values, whatever the description says. */
module CanFrames {
  import opened Powers
  import opened Bits
  import opened CanSignal
  import opened LibWecan
  import opened SignalLaws

  const FRAME_BYTES: nat := 8

  /** struct signal_meta, as far as bits and reports are concerned. */
  datatype SignalMeta = SignalMeta(startBit: nat, length: nat, order: Order, scaling: real, mid: nat)

  /** One reported signal: its name, its scaled value, and the message it belongs to. */
  datatype Reading = Reading(name: string, value: real, mid: nat)

  /** struct can_frame_s: a 16-bit identifier, a length code and eight data bytes. */
  datatype Frame = Frame(id: nat, dlc: nat, data: seq<Byte>)

  type Signals = map<string, SignalMeta>
  type Values = map<string, real>

  function Placed(m: SignalMeta): Signal {
    Signal(m.startBit, m.length, Motorola)
  }

  /** A non-negative double passed as a uint64_t loses its fraction. */
  function Truncated(x: real): nat {
    if x < 0.0 then 0 else x.Floor
  }

  lemma TruncatedIs(x: real, bound: nat)
    requires 0.0 <= x < bound as real
    ensures Truncated(x) as real <= x < Truncated(x) as real + 1.0 && Truncated(x) == x.Floor < bound
  {
  }

  lemma WholePart(k: nat, x: real)
    requires k as real <= x < k as real + 1.0
    ensures x.Floor == k
  {
  }

  /** Every name with an assembled value has a description that fits the frame. */
  predicate Sendable(ids: seq<string>, values: Values, signals: Signals, bytes: nat) {
    forall n | n in ids && n in values ::
      n in signals && Fits(Placed(signals[n]), bytes) && 0.0 <= values[n] < Pow2(WORD_BITS) as real
  }

  /** The frame after every assembled signal of the list, in order, was inserted. */
  function Filled(f: seq<Byte>, ids: seq<string>, values: Values, signals: Signals): (r: seq<Byte>)
    requires Sendable(ids, values, signals, |f|)
    ensures |r| == |f|
  {
    if ids == [] then f
    else
      var g := Filled(f, ids[..|ids| - 1], values, signals);
      var n := ids[|ids| - 1];
      if n in values then Put(g, Placed(signals[n]), Truncated(values[n])) else g
  }

  // ----- decoding -----

  predicate Readable(ids: seq<string>, signals: Signals, bytes: nat) {
    forall n | n in ids && n in signals :: Fits(Placed(signals[n]), bytes)
  }

  /** The value a raw number stands for. */
  function Scaled(raw: nat, m: SignalMeta): real {
    raw as real * m.scaling
  }

  function Report(n: string, raw: nat, m: SignalMeta): Reading {
    Reading(n, Scaled(raw, m), m.mid)
  }

  /** The reading of every described signal of the list, in order. */
  function Readings(f: seq<Byte>, ids: seq<string>, signals: Signals): seq<Reading> {
    if ids == [] then []
    else
      var n := ids[|ids| - 1];
      Readings(f, ids[..|ids| - 1], signals) + if n in signals then [Report(n, Raw(f, Placed(signals[n])), signals[n])] else []
  }

  /** The readings of every frame whose identifier is known, in order. */
  function Decoded(frames: seq<Frame>, messages: map<nat, seq<string>>, signals: Signals): seq<Reading> {
    if frames == [] then []
    else
      var f := frames[|frames| - 1];
      Decoded(frames[..|frames| - 1], messages, signals) +
      if f.id in messages then Readings(f.data, messages[f.id], signals) else []
  }

  lemma ReadingsStep(f: seq<Byte>, ids: seq<string>, signals: Signals, t: nat)
    requires t < |ids|
    ensures Readings(f, ids[..t + 1], signals) ==
      Readings(f, ids[..t], signals) + if ids[t] in signals then [Report(ids[t], Raw(f, Placed(signals[ids[t]])), signals[ids[t]])] else []
  {
    assert ids[..t + 1][..t] == ids[..t];
  }

  /** The inner loop of can_frame_to_flvalue: the readings of one frame, appended to the result. */
  method AppendReadings(result: seq<Reading>, data: array<Byte>, ids: seq<string>, signals: Signals)
    returns (r: seq<Reading>)
    requires Readable(ids, signals, data.Length)
    ensures r == result + Readings(data[..], ids, signals)
  {
    hide Scaled, Fits, Raw, Placed;
    r := result;
    var t := 0;
    while t < |ids|
      invariant 0 <= t <= |ids| && r == result + Readings(data[..], ids[..t], signals)
    {
      ReadingsStep(data[..], ids, signals, t);
      var n := ids[t];
      if n in signals {
        var origvalue := Extract(data, Placed(signals[n]), false);
        var signalValue := Scaled(origvalue, signals[n]);
        r := r + [Reading(n, signalValue, signals[n].mid)];
      }
      t := t + 1;
    }
    assert ids[..|ids|] == ids;
  }

  /** can_frame_to_flvalue. */
  method CanFrameToFlvalue(frames: seq<Frame>, messages: map<nat, seq<string>>, signals: Signals)
    returns (result: seq<Reading>, ghost parts: seq<seq<Reading>>)
    requires forall f | f in frames :: f.id in messages ==> Readable(messages[f.id], signals, |f.data|)
    ensures result == Decoded(frames, messages, signals)
    ensures |parts| == |frames| && result == Joined(parts)
    ensures forall j | 0 <= j < |frames| ::
      if frames[j].id in messages then Reports(parts[j], frames[j].data, Known(messages[frames[j].id], signals), signals)
      else parts[j] == []
  {
    hide Reports;
    parts := DecodedReports(frames, messages, signals);
    result := [];
    var i := 0;
    while i < |frames|
      invariant 0 <= i <= |frames| && result == Decoded(frames[..i], messages, signals)
    {
      var f := frames[i];
      assert frames[..i + 1][..i] == frames[..i];
      if f.id in messages {
        var data := new Byte[|f.data|](k requires 0 <= k < |f.data| => f.data[k]);
        assert data[..] == f.data;
        result := AppendReadings(result, data, messages[f.id], signals);
      }
      i := i + 1;
    }
    assert frames[..|frames|] == frames;
  }

  // ----- what the decoder reports, field by field -----

  /** The names of a list that are described. */
  function Known(ids: seq<string>, signals: Signals): (r: seq<string>)
    ensures forall i | 0 <= i < |r| :: r[i] in signals
  {
    if ids == [] then []
    else Known(ids[..|ids| - 1], signals) + if ids[|ids| - 1] in signals then [ids[|ids| - 1]] else []
  }

  /** Reading i carries name i, the message the signal belongs to, and the unsigned number in the frame's
      Motorola bits, scaled. */
  predicate Reports(r: seq<Reading>, f: seq<Byte>, names: seq<string>, signals: Signals) {
    && |r| == |names|
    && forall i | 0 <= i < |names| ::
      && names[i] in signals
      && var m := signals[names[i]];
        && r[i].name == names[i] && r[i].mid == m.mid
        && r[i].value == Raw(f, Signal(m.startBit, m.length, Motorola)) as real * m.scaling
  }

  lemma ReportsOne(f: seq<Byte>, n: string, signals: Signals) returns (r: seq<Reading>)
    requires n in signals
    ensures r == [Report(n, Raw(f, Placed(signals[n])), signals[n])] && Reports(r, f, [n], signals)
  {
    hide Raw;
    r := [Report(n, Raw(f, Placed(signals[n])), signals[n])];
  }

  lemma ReportsJoin(r: seq<Reading>, q: seq<Reading>, f: seq<Byte>, names: seq<string>, more: seq<string>, signals: Signals)
    requires Reports(r, f, names, signals) && Reports(q, f, more, signals)
    ensures Reports(r + q, f, names + more, signals)
  {
    hide Raw;
  }

  /** The readings of a frame are reports of the described names, in order. */
  lemma {:induction false} ReadingsReport(f: seq<Byte>, ids: seq<string>, signals: Signals)
    ensures Reports(Readings(f, ids, signals), f, Known(ids, signals), signals)
  {
    hide Raw, Reports, Report, Placed;
    if ids == [] {
      NothingReported(f, signals);
    } else {
      var rest, n := ids[..|ids| - 1], ids[|ids| - 1];
      ReadingsReport(f, rest, signals);
      if n in signals {
        var q := ReportsOne(f, n, signals);
        ReportsJoin(Readings(f, rest, signals), q, f, Known(rest, signals), [n], signals);
      } else {
        assert Readings(f, ids, signals) == Readings(f, rest, signals);
        assert Known(ids, signals) == Known(rest, signals);
      }
    }
  }

  lemma NothingReported(f: seq<Byte>, signals: Signals)
    ensures Reports([], f, [], signals)
  {
  }

  function Joined<T>(parts: seq<seq<T>>): seq<T> {
    if parts == [] then [] else Joined(parts[..|parts| - 1]) + parts[|parts| - 1]
  }

  lemma JoinedGrows<T>(parts: seq<seq<T>>, part: seq<T>)
    ensures Joined(parts + [part]) == Joined(parts) + part
  {
    assert (parts + [part])[..|parts|] == parts;
  }

  /** The decoder reports the signals of every frame whose identifier is known, in order, and nothing for others. */
  lemma {:induction false} DecodedReports(frames: seq<Frame>, messages: map<nat, seq<string>>, signals: Signals)
    returns (parts: seq<seq<Reading>>)
    ensures |parts| == |frames| && Decoded(frames, messages, signals) == Joined(parts)
    ensures forall j | 0 <= j < |frames| ::
      if frames[j].id in messages then Reports(parts[j], frames[j].data, Known(messages[frames[j].id], signals), signals)
      else parts[j] == []
  {
    hide Reports, Readings;
    if frames == [] {
      parts := [];
    } else {
      var rest, f := frames[..|frames| - 1], frames[|frames| - 1];
      var init := DecodedReports(rest, messages, signals);
      var last := [];
      if f.id in messages {
        ReadingsReport(f.data, messages[f.id], signals);
        last := Readings(f.data, messages[f.id], signals);
      }
      JoinedGrows(init, last);
      parts := init + [last];
    }
  }

  // ----- end to end -----

  /** The listed signals are described, fit, and no two different ones share a bit. */
  predicate WellLaidOut(ids: seq<string>, signals: Signals, bytes: nat) {
    && (forall n | n in ids :: n in signals && Fits(Placed(signals[n]), bytes))
    && forall n, m | n in ids && m in ids && n != m :: Disjoint(Placed(signals[n]), Placed(signals[m]), bytes)
  }

  predicate InRange(ids: seq<string>, values: Values, signals: Signals)
    requires forall n | n in ids :: n in signals
  {
    forall n | n in ids && n in values :: 0.0 <= values[n] < Pow2(signals[n].length) as real
  }

  lemma LaidOutIsSendable(ids: seq<string>, values: Values, signals: Signals, bytes: nat)
    requires WellLaidOut(ids, signals, bytes) && InRange(ids, values, signals)
    ensures Sendable(ids, values, signals, bytes)
  {
    hide Disjoint, Pow2;
    forall n | n in ids && n in values ensures values[n] < Pow2(WORD_BITS) as real {
      Pow2Monotone(signals[n].length, WORD_BITS);
    }
  }

  /** Filling in one more signal of the layout changes its own reading and no other. */
  lemma OneRead(g: seq<Byte>, all: seq<string>, values: Values, signals: Signals, m: string, n: string)
    requires WellLaidOut(all, signals, |g|) && InRange(all, values, signals) && m in all && n in all && m in values
    ensures Fits(Placed(signals[m]), |g|)
    ensures Raw(Put(g, Placed(signals[m]), Truncated(values[m])), Placed(signals[n])) ==
      if m == n then Truncated(values[n]) else Raw(g, Placed(signals[n]))
  {
    hide Raw, Truncated, Put, Disjoint, Spills, Pow2;
    TruncatedIs(values[m], Pow2(signals[m].length));
    if m == n {
      RoundTrip(g, Placed(signals[n]), Truncated(values[n]));
    } else {
      SmallNeverSpills(Placed(signals[m]), Truncated(values[m]));
      DisjointRead(g, Placed(signals[m]), Truncated(values[m]), Placed(signals[n]));
    }
  }

  /** Reading any signal of the layout after filling: its value if the list assembled one, else what was there. */
  lemma {:induction false} FilledReads(f: seq<Byte>, all: seq<string>, ids: seq<string>, values: Values, signals: Signals, n: string)
    requires WellLaidOut(all, signals, |f|) && InRange(all, values, signals)
    requires n in all && forall m | m in ids :: m in all
    ensures Sendable(ids, values, signals, |f|)
    ensures Raw(Filled(f, ids, values, signals), Placed(signals[n])) ==
      if n in ids && n in values then Truncated(values[n]) else Raw(f, Placed(signals[n]))
  {
    hide Fits, Placed, Raw, Truncated, Put, Disjoint, InRange;
    LaidOutIsSendable(all, values, signals, |f|);
    if ids != [] {
      var rest, m := ids[..|ids| - 1], ids[|ids| - 1];
      FilledReads(f, all, rest, values, signals, n);
      assert ids == rest + [m];
      if m in values {
        OneRead(Filled(f, rest, values, signals), all, values, signals, m, n);
      }
    }
  }

  lemma ZerosReadZero(bytes: nat, s: Signal)
    ensures Raw(Zeros(bytes), s) == 0
  {
    RawBit(Zeros(bytes), s, 0);
    forall i | 0 <= i < s.length ensures Bit(Raw(Zeros(bytes), s), i) == Bit(0, i) {
      RawBit(Zeros(bytes), s, i);
      ZeroHasNoBit(i);
      ZeroHasNoBit(SigBit(s, i) % 8);
    }
    SameBits(Raw(Zeros(bytes), s), 0, s.length);
  }

  /** After filling, the Motorola bits of an assembled signal spell the whole part of its value, and those of
      the others what they spelled before. */
  lemma FilledSends(f: seq<Byte>, ids: seq<string>, values: Values, signals: Signals, n: string, k: nat)
    requires WellLaidOut(ids, signals, |f|) && InRange(ids, values, signals) && n in ids
    requires n in values ==> k as real <= values[n] < k as real + 1.0
    ensures Sendable(ids, values, signals, |f|)
    ensures var s := Signal(signals[n].startBit, signals[n].length, Motorola);
      Raw(Filled(f, ids, values, signals), s) == if n in values then k else Raw(f, s)
  {
    hide Raw, Filled, Fits, Disjoint, Pow2;
    FilledReads(f, ids, ids, values, signals, n);
    if n in values {
      TruncatedIs(values[n], Pow2(signals[n].length));
      WholePart(k, values[n]);
    }
  }

  lemma AllSent(f: seq<Byte>, ids: seq<string>, values: Values, signals: Signals)
    requires Sendable(ids, values, signals, |f|)
    ensures WellLaidOut(ids, signals, |f|) && InRange(ids, values, signals) ==>
      forall n | n in ids && n in values ::
        var raw := Raw(Filled(f, ids, values, signals), Signal(signals[n].startBit, signals[n].length, Motorola));
        raw as real <= values[n] < raw as real + 1.0
  {
    hide Raw, Filled, Fits, Disjoint, Pow2;
    if WellLaidOut(ids, signals, |f|) && InRange(ids, values, signals) {
      forall n | n in ids && n in values
        ensures var raw := Raw(Filled(f, ids, values, signals), Signal(signals[n].startBit, signals[n].length, Motorola));
          raw as real <= values[n] < raw as real + 1.0
      {
        TruncatedIs(values[n], Pow2(signals[n].length));
        FilledSends(f, ids, values, signals, n, values[n].Floor);
      }
    }
  }

  /** fill_sending_data. */
  method FillSendingData(data: array<Byte>, signalIds: seq<string>, values: Values, signals: Signals)
    requires Sendable(signalIds, values, signals, data.Length)
    modifies data
    ensures data[..] == Filled(old(data[..]), signalIds, values, signals)
    ensures WellLaidOut(signalIds, signals, data.Length) && InRange(signalIds, values, signals) ==>
      forall n | n in signalIds && n in values ::
        var raw := Raw(data[..], Signal(signals[n].startBit, signals[n].length, Motorola));
        raw as real <= values[n] < raw as real + 1.0
  {
    hide Fits, Truncated, Put, Pow2;
    var t := 0;
    assert signalIds[..|signalIds|] == signalIds;
    while t < |signalIds|
      invariant 0 <= t <= |signalIds|
      invariant data[..] == Filled(old(data[..]), signalIds[..t], values, signals)
    {
      var sname := signalIds[t];
      assert signalIds[..t + 1][..t] == signalIds[..t];
      if sname in values {
        TruncatedIs(values[sname], Pow2(WORD_BITS));
        Insert(data, Placed(signals[sname]), Truncated(values[sname]));
      }
      t := t + 1;
    }
    AllSent(old(data[..]), signalIds, values, signals);
  }

  /** One reading of a message: the name, its message, and the whole part of its value, or 0 without one, scaled. */
  predicate TellsOne(r: Reading, n: string, values: Values, signals: Signals) {
    && n in signals && r.name == n && r.mid == signals[n].mid
    && r.value == (if n in values then values[n].Floor else 0) as real * signals[n].scaling
  }

  /** What a decoder should report of a message: each listed name once per listing. */
  predicate Tells(r: seq<Reading>, ids: seq<string>, values: Values, signals: Signals) {
    |r| == |ids| && forall i | 0 <= i < |ids| :: TellsOne(r[i], ids[i], values, signals)
  }

  lemma ReportTells(r: seq<Reading>, f: seq<Byte>, ids: seq<string>, values: Values, signals: Signals, i: nat, whole: int)
    requires Reports(r, f, ids, signals) && i < |ids| && ids[i] in signals
    requires Raw(f, Signal(signals[ids[i]].startBit, signals[ids[i]].length, Motorola)) == whole
    requires whole == if ids[i] in values then values[ids[i]].Floor else 0
    ensures i < |r| && TellsOne(r[i], ids[i], values, signals)
  {
    hide Raw;
  }

  lemma ReportLength(r: seq<Reading>, f: seq<Byte>, ids: seq<string>, signals: Signals)
    requires Reports(r, f, ids, signals)
    ensures |r| == |ids|
  {
    hide Raw;
  }

  lemma {:induction false} AllKnown(ids: seq<string>, signals: Signals)
    requires forall n | n in ids :: n in signals
    ensures Known(ids, signals) == ids
  {
    if ids != [] {
      AllKnown(ids[..|ids| - 1], signals);
    }
  }

  lemma ReadsWhole(ids: seq<string>, values: Values, signals: Signals, bytes: nat, n: string)
    requires WellLaidOut(ids, signals, bytes) && InRange(ids, values, signals) && n in ids
    ensures Sendable(ids, values, signals, bytes)
    ensures Raw(Filled(Zeros(bytes), ids, values, signals), Signal(signals[n].startBit, signals[n].length, Motorola)) ==
      if n in values then values[n].Floor else 0
  {
    hide Raw, Filled, Fits, Disjoint, Zeros;
    var k := if n in values then values[n].Floor else 0;
    FilledSends(Zeros(bytes), ids, values, signals, n, k);
    ZerosReadZero(bytes, Signal(signals[n].startBit, signals[n].length, Motorola));
  }

  /** The decoder gets back every value the sender put into a zeroed frame, and 0 for signals without one. */
  lemma EndToEnd(ids: seq<string>, values: Values, signals: Signals, bytes: nat) returns (r: seq<Reading>)
    requires WellLaidOut(ids, signals, bytes) && InRange(ids, values, signals)
    ensures Sendable(ids, values, signals, bytes)
    ensures r == Readings(Filled(Zeros(bytes), ids, values, signals), ids, signals) && Tells(r, ids, values, signals)
  {
    hide Raw, Filled, Readings, Sendable, InRange, Disjoint, Fits, Zeros, Reports, TellsOne, Pow2;
    LaidOutIsSendable(ids, values, signals, bytes);
    var f := Filled(Zeros(bytes), ids, values, signals);
    r := Readings(f, ids, signals);
    ReadingsReport(f, ids, signals);
    AllKnown(ids, signals);
    ReportLength(r, f, ids, signals);
    forall i | 0 <= i < |ids| ensures TellsOne(r[i], ids[i], values, signals) {
      ReadsWhole(ids, values, signals, bytes, ids[i]);
      ReportTells(r, f, ids, values, signals, i, if ids[i] in values then values[ids[i]].Floor else 0);
    }
  }

  lemma NotBoth(all: seq<string>, signals: Signals, bytes: nat, n: string, m: string, b: nat)
    requires WellLaidOut(all, signals, bytes) && n in all && m in all && n != m && b < 8 * bytes
    ensures n in signals && m in signals && !(Covers(Placed(signals[n]), b) && Covers(Placed(signals[m]), b))
  {
    assert Disjoint(Placed(signals[n]), Placed(signals[m]), bytes);
  }

  /** Filling in one more signal of the layout sets the bits it covers and no others. */
  lemma OneFilled(g: seq<Byte>, all: seq<string>, values: Values, signals: Signals, m: string, b: nat)
    requires WellLaidOut(all, signals, |g|) && InRange(all, values, signals) && m in all && m in values && b < 8 * |g|
    ensures var s, v := Placed(signals[m]), Truncated(values[m]);
      && Fits(s, |g|)
      && FrameBit(Put(g, s, v), b) == if Covers(s, b) then Bit(v, BitIndex(s, b)) else FrameBit(g, b)
  {
    hide Spills, BitIndex, Covers, FrameBit, Bit, Truncated, Put, Disjoint, Pow2;
    TruncatedIs(values[m], Pow2(signals[m].length));
    SmallNeverSpills(Placed(signals[m]), Truncated(values[m]));
    PutIsLocal(g, Placed(signals[m]), Truncated(values[m]), b);
  }

  /** A frame bit after filling: the bit of the one assembled signal that covers it, if there is one. */
  lemma {:induction false} FilledBit(f: seq<Byte>, all: seq<string>, ids: seq<string>, values: Values, signals: Signals, b: nat)
    requires WellLaidOut(all, signals, |f|) && InRange(all, values, signals)
    requires b < 8 * |f| && forall m | m in ids :: m in all
    ensures Sendable(ids, values, signals, |f|)
    ensures forall n | n in ids && n in values && Covers(Placed(signals[n]), b) ::
      FrameBit(Filled(f, ids, values, signals), b) == Bit(Truncated(values[n]), BitIndex(Placed(signals[n]), b))
    ensures (forall n | n in ids && n in values :: !Covers(Placed(signals[n]), b)) ==>
      FrameBit(Filled(f, ids, values, signals), b) == FrameBit(f, b)
  {
    hide Fits, Placed, BitIndex, Covers, FrameBit, Bit, Truncated, Put, Disjoint, InRange;
    LaidOutIsSendable(all, values, signals, |f|);
    if ids != [] {
      var rest, m := ids[..|ids| - 1], ids[|ids| - 1];
      FilledBit(f, all, rest, values, signals, b);
      assert ids == rest + [m];
      if m in values {
        OneFilled(Filled(f, rest, values, signals), all, values, signals, m, b);
        forall n | n in rest && n != m ensures !(Covers(Placed(signals[n]), b) && Covers(Placed(signals[m]), b)) {
          NotBoth(all, signals, |f|, n, m, b);
        }
      }
    }
  }

  /** The order of the signal list does not matter, nor do repetitions: only which signals it names. */
  lemma OrderIndependent(f: seq<Byte>, ids: seq<string>, other: seq<string>, values: Values, signals: Signals)
    requires WellLaidOut(ids, signals, |f|) && InRange(ids, values, signals)
    requires forall n :: n in ids <==> n in other
    ensures Sendable(ids, values, signals, |f|) && Sendable(other, values, signals, |f|)
    ensures Filled(f, ids, values, signals) == Filled(f, other, values, signals)
  {
    LaidOutIsSendable(ids, values, signals, |f|);
    var g, h := Filled(f, ids, values, signals), Filled(f, other, values, signals);
    forall b: nat | b < 8 * |f| ensures FrameBit(g, b) == FrameBit(h, b) {
      FilledBit(f, ids, ids, values, signals, b);
      FilledBit(f, ids, other, values, signals, b);
    }
    SameFrame(g, h);
  }
}
