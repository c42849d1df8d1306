/** The frame-building part of can_send_func: one frame per message of the sender's map, and what the
    decoder gets back from them. */
module CanSender {
  import opened Wrappers
  import opened Bits
  import opened CanFrames
  import opened ProbeTable
  import HashMap
  import M = HashModel
  import R = HashRuns

  datatype MessageMeta = MessageMeta(length: nat, signalIds: seq<string>)

  datatype MessageAssembler = MessageAssembler(id: nat, meta: MessageMeta)

  type MessageSlot = Slot<nat, MessageAssembler>

  /** The frame of one message: its identifier cut to 16 bits, and its signals in a zeroed data field. */
  function FrameOf(m: MessageAssembler, values: Values, signals: Signals): Frame
    requires Sendable(m.meta.signalIds, values, signals, FRAME_BYTES)
  {
    Frame(m.id % 0x1_0000, m.meta.length, Filled(Zeros(FRAME_BYTES), m.meta.signalIds, values, signals))
  }

  predicate AllSendable(table: seq<MessageSlot>, values: Values, signals: Signals) {
    forall x | x in table && x.Full? :: Sendable(x.data.meta.signalIds, values, signals, FRAME_BYTES)
  }

  predicate FramesOf(frames: seq<Frame>, visited: seq<MessageSlot>, values: Values, signals: Signals) {
    && |frames| == |visited|
    && (forall x | x in visited :: x.Full? && Sendable(x.data.meta.signalIds, values, signals, FRAME_BYTES))
    && forall j | 0 <= j < |frames| :: frames[j] == FrameOf(visited[j].data, values, signals)
  }

  /** What the loop has still to visit from a cursor on. */
  ghost function Ahead<K, D>(ops: KeyOps<K>, s: M.State<K, D>, cursor: Option<nat>, visit: nat): seq<Slot<K, D>>
    requires R.OnEntry(s, cursor)
  {
    R.Sweep(ops, s, cursor, R.Never, visit).0
  }

  lemma AheadStep<K, D>(ops: KeyOps<K>, s: M.State<K, D>, i: nat, visited: seq<Slot<K, D>>, rest: seq<Slot<K, D>>)
    returns (rest': seq<Slot<K, D>>)
    requires R.OnEntry(s, Some(i)) && rest == Ahead(ops, s, Some(i), |visited|)
    ensures R.OnEntry(s, R.Populated(s, i + 1))
    ensures rest' == Ahead(ops, s, R.Populated(s, i + 1), |visited| + 1)
    ensures rest != [] && visited + rest == (visited + [s.table[i]]) + rest'
  {
    var _, _ := R.SweepStep(ops, s, i, R.Never, |visited|);
    rest' := Ahead(ops, s, R.Populated(s, i + 1), |visited| + 1);
    assert rest == [s.table[i]] + rest';
  }

  lemma AheadDone<K, D>(ops: KeyOps<K>, s: M.State<K, D>, visit: nat)
    ensures R.OnEntry(s, None) && Ahead(ops, s, None, visit) == []
  {
  }

  /** One visit of the sending loop. */
  method BuildFrame(m: MessageAssembler, values: Values, signals: Signals) returns (frame: Frame)
    requires Sendable(m.meta.signalIds, values, signals, FRAME_BYTES)
    ensures frame == FrameOf(m, values, signals)
  {
    var data := new Byte[FRAME_BYTES](_ => 0);
    assert data[..] == Zeros(FRAME_BYTES);
    FillSendingData(data, m.meta.signalIds, values, signals);
    frame := Frame(m.id % 0x1_0000, m.meta.length, data[..]);
  }

  lemma NoFrames(values: Values, signals: Signals)
    ensures FramesOf([], [], values, signals)
  {
  }

  lemma FramesGrow(frames: seq<Frame>, visited: seq<MessageSlot>, values: Values, signals: Signals, x: MessageSlot, f: Frame)
    requires FramesOf(frames, visited, values, signals) && x.Full?
    requires Sendable(x.data.meta.signalIds, values, signals, FRAME_BYTES) && f == FrameOf(x.data, values, signals)
    ensures FramesOf(frames + [f], visited + [x], values, signals)
  {
  }

  lemma FrameFields(frames: seq<Frame>, visited: seq<MessageSlot>, values: Values, signals: Signals)
    requires FramesOf(frames, visited, values, signals)
    ensures |frames| == |visited|
    ensures forall j | 0 <= j < |frames| ::
      && visited[j].Full? && frames[j].id == visited[j].data.id % 0x1_0000
      && frames[j].dlc == visited[j].data.meta.length && |frames[j].data| == 8
  {
    hide Filled, Sendable;
    forall j | 0 <= j < |frames| ensures visited[j].Full? {
      assert visited[j] in visited;
    }
  }

  lemma ForeachAhead<K(!new), D>(ops: KeyOps<K>, s: M.State<K, D>) returns (all: seq<Slot<K, D>>)
    requires Lawful(ops) && M.Valid(ops, s)
    ensures R.OnEntry(s, R.Populated(s, 0)) && all == Ahead(ops, s, R.Populated(s, 0), 0)
    ensures |all| == s.size && multiset(all) == Bag(s.table)
  {
    R.ForeachVisitsOnce(ops, s);
    all := Ahead(ops, s, R.Populated(s, 0), 0);
  }

  /** The hashmap_foreach loop of can_send_func: every write falls inside the frame array, which ends full. */
  method FillFrames(assemblers: HashMap.HashMap<nat, MessageAssembler>, frames: array<Frame>,
                    values: Values, signals: Signals, ghost all: seq<MessageSlot>)
    requires AllSendable(assemblers.table[..], values, signals)
    requires var s := assemblers.State(); R.OnEntry(s, R.Populated(s, 0)) && all == Ahead(assemblers.ops, s, R.Populated(s, 0), 0)
    requires |all| == frames.Length
    modifies frames
    ensures FramesOf(frames[..], all, values, signals)
  {
    hide Ahead, Sendable, Filled, FrameOf, FramesOf;
    NoFrames(values, signals);
    assert frames[..0] == [];
    ghost var ops, s := assemblers.ops, assemblers.State();
    var frame := 0;
    var iter := assemblers.GetPopulated(0);
    ghost var visited, rest := [], all;
    while iter.Some?
      invariant assemblers.table[..] == s.table && assemblers.size == s.size && R.OnEntry(s, iter)
      invariant rest == Ahead(ops, s, iter, |visited|) && visited + rest == all
      invariant frame == |visited|
      invariant FramesOf(frames[..frame], visited, values, signals)
      decreases |rest|
    {
      var entry := assemblers.table[iter.value];
      assert entry == s.table[iter.value];
      rest := AheadStep(ops, s, iter.value, visited, rest);
      var f := BuildFrame(entry.data, values, signals);
      FramesGrow(frames[..frame], visited, values, signals, entry, f);
      frames[frame] := f;
      assert frames[..frame + 1] == frames[..frame] + [f];
      visited := visited + [entry];
      frame := frame + 1;
      iter := assemblers.GetPopulated(iter.value + 1);
    }
    AheadDone(ops, s, |visited|);
    assert visited == all;
    assert frames[..frame] == frames[..];
  }

  /** The body of the sending loop up to send_can_frame: the frame array, sized before the loop, gets one
      frame for every message of the map. */
  method BuildFrames(assemblers: HashMap.HashMap<nat, MessageAssembler>, values: Values, signals: Signals)
    returns (frames: array<Frame>, ghost visited: seq<MessageSlot>)
    requires assemblers.Valid() && AllSendable(assemblers.table[..], values, signals)
    ensures fresh(frames) && frames.Length == assemblers.size
    ensures multiset(visited) == Bag(assemblers.table[..])
    ensures FramesOf(frames[..], visited, values, signals)
    ensures |visited| == frames.Length
    ensures forall j | 0 <= j < frames.Length ::
      && visited[j].Full? && frames[j].id == visited[j].data.id % 0x1_0000
      && frames[j].dlc == visited[j].data.meta.length && |frames[j].data| == 8
  {
    hide FramesOf, Ahead;
    visited := ForeachAhead(assemblers.ops, assemblers.State());
    var len := assemblers.size;
    frames := new Frame[len](_ => Frame(0, 0, Zeros(FRAME_BYTES)));
    FillFrames(assemblers, frames, values, signals, visited);
    FrameFields(frames[..], visited, values, signals);
  }

  /** The receiver knows the message under the identifier it was sent with, which 16 bits can carry, and its
      signals are laid out without overlap. */
  predicate Agreed(m: MessageAssembler, messages: map<nat, seq<string>>, values: Values, signals: Signals) {
    && m.id < 0x1_0000 && m.id in messages && messages[m.id] == m.meta.signalIds
    && WellLaidOut(m.meta.signalIds, signals, FRAME_BYTES) && InRange(m.meta.signalIds, values, signals)
  }

  lemma FrameReports(f: Frame, m: MessageAssembler, messages: map<nat, seq<string>>, values: Values, signals: Signals)
    returns (r: seq<Reading>)
    requires Agreed(m, messages, values, signals)
    requires Sendable(m.meta.signalIds, values, signals, FRAME_BYTES) && f == FrameOf(m, values, signals)
    ensures f.id in messages && r == Readings(f.data, messages[f.id], signals) && Tells(r, m.meta.signalIds, values, signals)
  {
    r := EndToEnd(m.meta.signalIds, values, signals, FRAME_BYTES);
  }

  /** One whole round: decoding the frames built from the map reports every message's values, in the order
      the map was iterated. */
  lemma {:induction false} RoundReports(frames: seq<Frame>, visited: seq<MessageSlot>, messages: map<nat, seq<string>>,
                                        values: Values, signals: Signals)
    returns (parts: seq<seq<Reading>>)
    requires FramesOf(frames, visited, values, signals)
    requires forall x | x in visited && x.Full? :: Agreed(x.data, messages, values, signals)
    ensures |parts| == |visited| && Decoded(frames, messages, signals) == Joined(parts)
    ensures forall j | 0 <= j < |visited| :: visited[j].Full? && Tells(parts[j], visited[j].data.meta.signalIds, values, signals)
  {
    hide Tells, Agreed, Readings, FrameOf, Sendable;
    if frames == [] {
      parts := [];
    } else {
      var k := |frames| - 1;
      var init := RoundReports(frames[..k], visited[..k], messages, values, signals);
      assert visited[k] in visited;
      var last := FrameReports(frames[k], visited[k].data, messages, values, signals);
      JoinedGrows(init, last);
      parts := init + [last];
    }
  }
}
