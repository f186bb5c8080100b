/**
  The peer-to-peer frame transport over a stream. Sending has a one-frame and a batch form, each with a
  gathering write and a copying one; all of them put the same bytes on the wire. Receiving goes through a
  loop that sorts frames into a control and a data queue, from which any number of receivers take.
 */
module Transport {
  import opened Bytes
  import opened Frames
  import opened FramedConn

  // ---------------------------------------------------------------- sending

  function SerializeFrame(kind: byte, payload: seq<byte>): (b: seq<byte>)
    ensures |b| == HEADER_SIZE + |payload|
  {
    var header := [kind, |payload| / 256 % 256, |payload| % 256];
    if |payload| == 0 then header else header + payload
  }

  lemma SerializeIsEncode(kind: byte, payload: seq<byte>)
    ensures SerializeFrame(kind, payload) == Encode(Frame(kind, payload))
  {
  }

  /** One frame. A TCP connection gets header and payload in one gathering write. */
  method Send(w: Wire, tcp: bool, kind: byte, payload: seq<byte>) returns (ok: bool)
    modifies w`output
    ensures ok == Fits(Frame(kind, payload))
    ensures w.output == if ok then old(w.output) + Encode(Frame(kind, payload)) else old(w.output)
  {
    if |payload| > MAX_PAYLOAD { return false; }
    var header := [kind, |payload| / 256, |payload| % 256];
    if tcp && |payload| > 0 {
      assert header + payload == Encode(Frame(kind, payload));
      w.output := w.output + (header + payload);
      return true;
    }
    ok := WriteFrame(w, kind, payload);
  }

  function Flatten(bufs: seq<seq<byte>>): seq<byte> {
    if bufs == [] then [] else Flatten(bufs[..|bufs| - 1]) + bufs[|bufs| - 1]
  }

  lemma FlattenSnoc(bufs: seq<seq<byte>>, b: seq<byte>)
    ensures Flatten(bufs + [b]) == Flatten(bufs) + b
  {
    assert (bufs + [b])[..|bufs|] == bufs;
  }

  lemma FlattenPair(bufs: seq<seq<byte>>, header: seq<byte>, payload: seq<byte>)
    ensures Flatten(bufs + [header] + [payload]) == Flatten(bufs) + (header + payload)
    ensures payload == [] ==> Flatten(bufs + [header]) == Flatten(bufs) + (header + payload)
  {
    FlattenSnoc(bufs, header);
    FlattenSnoc(bufs + [header], payload);
    Associative(Flatten(bufs), header, payload);
  }

  lemma EncodeAllSnoc(frames: seq<Frame>, i: nat)
    requires i < |frames|
    ensures EncodeAll(frames[..i + 1]) == EncodeAll(frames[..i]) + Encode(frames[i])
  {
    assert frames[..i + 1] == frames[..i] + [frames[i]];
    EncodeAllAppend(frames[..i], [frames[i]]);
    assert EncodeAll([frames[i]]) == Encode(frames[i]) + EncodeAll([]);
  }

  /** A batch is one write of the same bytes, or nothing when one payload is too large. */
  method SendBatch(w: Wire, tcp: bool, frames: seq<Frame>) returns (ok: bool)
    modifies w`output
    ensures ok == forall i :: 0 <= i < |frames| ==> Fits(frames[i])
    ensures w.output == if ok then old(w.output) + EncodeAll(frames) else old(w.output)
  {
    if |frames| == 0 { return true; }
    if |frames| == 1 {
      ok := Send(w, tcp, frames[0].kind, frames[0].payload);
      assert EncodeAll(frames) == Encode(frames[0]) + EncodeAll([]) == Encode(frames[0]);
      return;
    }
    var total := 0;
    for i := 0 to |frames|
      invariant w.output == old(w.output) && forall j :: 0 <= j < i ==> Fits(frames[j])
      invariant total == |EncodeAll(frames[..i])|
    {
      if |frames[i].payload| > MAX_PAYLOAD { return false; }
      EncodeAllSnoc(frames, i);
      total := total + HEADER_SIZE + |frames[i].payload|;
    }
    assert frames[..|frames|] == frames;
    var bytes;
    if tcp { bytes := Gather(frames); } else { bytes := Copy(frames, total); }
    w.output := w.output + bytes;
    return true;
  }

  /** The gathering path: a list of headers and non-empty payloads. */
  method Gather(frames: seq<Frame>) returns (bytes: seq<byte>)
    requires AllFit(frames)
    ensures bytes == EncodeAll(frames)
  {
    var bufs: seq<seq<byte>> := [];
    for i := 0 to |frames|
      invariant Flatten(bufs) == EncodeAll(frames[..i])
    {
      var f := frames[i];
      EncodeAllSnoc(frames, i);
      var header := [f.kind, |f.payload| / 256, |f.payload| % 256];
      assert Encode(f) == header + f.payload;
      FlattenPair(bufs, header, f.payload);
      bufs := bufs + [header];
      if |f.payload| > 0 {
        bufs := bufs + [f.payload];
      }
    }
    assert frames[..|frames|] == frames;
    bytes := Flatten(bufs);
  }

  /** The copying path: one buffer of the right size, filled by offset. */
  method Copy(frames: seq<Frame>, total: nat) returns (bytes: seq<byte>)
    requires AllFit(frames) && total == |EncodeAll(frames)|
    ensures bytes == EncodeAll(frames)
  {
    var buf := new byte[total];
    var offset := 0;
    for i := 0 to |frames|
      invariant 0 <= offset <= total && offset == |EncodeAll(frames[..i])|
      invariant buf[..offset] == EncodeAll(frames[..i])
    {
      EncodeAllSnoc(frames, i);
      assert frames == frames[..i + 1] + frames[i + 1..];
      EncodeAllAppend(frames[..i + 1], frames[i + 1..]);
      CopyOne(buf, offset, frames[i]);
      offset := offset + HEADER_SIZE + |frames[i].payload|;
    }
    assert frames[..|frames|] == frames;
    assert buf[..] == buf[..offset];
    bytes := buf[..];
  }

  method CopyOne(buf: array<byte>, offset: nat, f: Frame)
    requires Fits(f) && offset + HEADER_SIZE + |f.payload| <= buf.Length
    modifies buf
    ensures buf[..offset + HEADER_SIZE + |f.payload|] == old(buf[..offset]) + Encode(f)
  {
    buf[offset] := f.kind;
    buf[offset + 1] := |f.payload| / 256;
    buf[offset + 2] := |f.payload| % 256;
    var at := offset + HEADER_SIZE;
    assert buf[..offset] == old(buf[..offset]);
    assert buf[..at] == buf[..offset] + ([f.kind] + Be16Bytes(|f.payload|));
    CopyPayload(buf, at, f.payload);
  }

  method CopyPayload(buf: array<byte>, at: nat, payload: seq<byte>)
    requires at + |payload| <= buf.Length
    modifies buf
    ensures buf[..at + |payload|] == old(buf[..at]) + payload
  {
    forall i | 0 <= i < |payload| { buf[at + i] := payload[i]; }
    assert buf[..at] == old(buf[..at]);
    assert buf[at..at + |payload|] == payload;
    assert buf[..at + |payload|] == buf[..at] + buf[at..at + |payload|];
  }

  // ---------------------------------------------------------------- receiving

  const CONTROL_CAPACITY := 16
  const DATA_CAPACITY := 64

  predicate IsData(f: Frame) {
    f.kind == MESH_PACKET
  }

  /** The frames of one class, in order. */
  function OfClass(frames: seq<Frame>, data: bool): seq<Frame> {
    if frames == [] then []
    else
      var front, last := frames[..|frames| - 1], frames[|frames| - 1];
      OfClass(front, data) + if IsData(last) == data then [last] else []
  }

  /** What waits in the control queue: a frame, or the error that ended the loop. */
  datatype Item = Msg(frame: Frame) | Err

  function Messages(items: seq<Item>): seq<Frame> {
    if items == [] then []
    else (if items[0].Msg? then [items[0].frame] else []) + Messages(items[1..])
  }

  /** The loop is reading, holds a frame it has to enqueue, holds an error it has to report, or is over. */
  datatype Loop = Reading | Holding(frame: Frame) | Failing | Over

  datatype State = State(
    wire: seq<byte>,          // bytes still to be read
    arrived: seq<Frame>,      // frames read off the wire so far
    loop: Loop,
    control: seq<Item>,
    data: seq<Frame>,
    closed: bool,
    gotControl: seq<Frame>,   // delivered to receivers
    gotData: seq<Frame>,
    gotError: bool,
    lost: seq<Frame>)         // the frame in hand when the loop gave up because of a close

  /** The start of a connection on which the bytes of `stream` arrive. */
  function Start(stream: seq<byte>): State {
    State(stream, [], Reading, [], [], false, [], [], false, [])
  }

  datatype Event = ReadFrame(frame: Frame) | ReadError | Enqueue | LoopExit | TakeControl | TakeData | Close

  /** The atomic steps. A read can fail at any time, and must when no whole frame is left. A receiver first
      tries the control queue alone and then waits on both, so both takes are possible whenever the queue
      has something. */
  ghost predicate Next(s: State, e: Event, t: State) {
    match e
    case ReadFrame(f) =>
      s.loop.Reading? && Decode(s.wire).Decoded? && f == Decode(s.wire).frame &&
      t == s.(wire := Decode(s.wire).rest, arrived := s.arrived + [f], loop := Holding(f))
    case ReadError => s.loop.Reading? && t == s.(loop := Failing)
    case Enqueue =>
      (match s.loop
       case Holding(f) =>
         if IsData(f) then |s.data| < DATA_CAPACITY && t == s.(loop := Reading, data := s.data + [f])
         else |s.control| < CONTROL_CAPACITY && t == s.(loop := Reading, control := s.control + [Msg(f)])
       case Failing => |s.control| < CONTROL_CAPACITY && t == s.(loop := Over, control := s.control + [Err])
       case _ => false)
    case LoopExit =>
      s.closed && (match s.loop
        case Holding(f) => t == s.(loop := Over, lost := [f])
        case Failing => t == s.(loop := Over)
        case _ => false)
    case TakeControl =>
      s.control != [] && t == (
        var rest := s.(control := s.control[1..]);
        match s.control[0]
        case Msg(f) => rest.(gotControl := s.gotControl + [f])
        case Err => rest.(gotError := true))
    case TakeData => s.data != [] && t == s.(data := s.data[1..], gotData := s.gotData + [s.data[0]])
    case Close => t == s.(closed := true)
  }

  /** The frame between the wire and the queues. */
  function InHand(s: State): seq<Frame> {
    if s.loop.Holding? then [s.loop.frame] else s.lost
  }

  ghost predicate ErrOnlyLast(items: seq<Item>) {
    forall i :: 0 <= i < |items| - 1 ==> items[i].Msg?
  }

  /** Nothing is lost, duplicated or reordered between the wire and the receivers. */
  ghost predicate Sound(s: State) {
    && OfClass(s.arrived, false) == s.gotControl + Messages(s.control) + OfClass(InHand(s), false)
    && OfClass(s.arrived, true) == s.gotData + s.data + OfClass(InHand(s), true)
    && |s.control| <= CONTROL_CAPACITY && |s.data| <= DATA_CAPACITY
    && (s.lost != [] ==> s.closed && s.loop.Over?)
    && ErrOnlyLast(s.control)
    && ((exists i :: 0 <= i < |s.control| && s.control[i].Err?) || s.gotError ==> s.loop.Over? && s.lost == [])
    && (s.gotError ==> s.control == [])
  }

  lemma OfClassSnoc(frames: seq<Frame>, f: Frame, data: bool)
    ensures OfClass(frames + [f], data) == OfClass(frames, data) + OfClass([f], data)
  {
    assert (frames + [f])[..|frames|] == frames;
    assert [f][..0] == [];
  }

  lemma {:induction false} MessagesSnoc(items: seq<Item>, i: Item)
    ensures Messages(items + [i]) == Messages(items) + Messages([i])
    decreases |items|
  {
    if items == [] {
      assert items + [i] == [i];
    } else {
      var head := if items[0].Msg? then [items[0].frame] else [];
      MessagesSnoc(items[1..], i);
      assert (items + [i])[1..] == items[1..] + [i];
      assert Messages(items + [i]) == head + Messages(items[1..] + [i]);
      assert head + (Messages(items[1..]) + Messages([i])) == (head + Messages(items[1..])) + Messages([i]);
    }
  }

  lemma ReadKeeps(s: State, f: Frame, t: State)
    requires Sound(s) && Next(s, ReadFrame(f), t)
    ensures Sound(t)
  {
    OfClassSnoc(s.arrived, f, false);
    OfClassSnoc(s.arrived, f, true);
    assert OfClass([], false) == [] && OfClass([], true) == [];
  }

  lemma OfOne(f: Frame)
    ensures OfClass([], false) == [] && OfClass([], true) == []
    ensures OfClass([f], IsData(f)) == [f] && OfClass([f], !IsData(f)) == []
  {
    assert [f][..0] == [];
  }

  lemma EnqueueDataKeeps(s: State, f: Frame, t: State)
    requires Sound(s) && s.loop == Holding(f) && IsData(f) && |s.data| < DATA_CAPACITY
    requires t == s.(loop := Reading, data := s.data + [f])
    ensures Sound(t)
  {
    OfOne(f);
    assert t.gotData + t.data + [] == s.gotData + s.data + [f];
  }

  lemma EnqueueControlKeeps(s: State, f: Frame, t: State)
    requires Sound(s) && s.loop == Holding(f) && !IsData(f) && |s.control| < CONTROL_CAPACITY
    requires t == s.(loop := Reading, control := s.control + [Msg(f)])
    ensures Sound(t)
  {
    OfOne(f);
    MessagesSnoc(s.control, Msg(f));
    assert Messages([Msg(f)]) == [f];
    assert t.gotControl + Messages(t.control) + [] == s.gotControl + Messages(s.control) + [f];
  }

  lemma EnqueueErrorKeeps(s: State, t: State)
    requires Sound(s) && s.loop == Failing && |s.control| < CONTROL_CAPACITY
    requires t == s.(loop := Over, control := s.control + [Err])
    ensures Sound(t)
  {
    MessagesSnoc(s.control, Err);
    assert Messages([Err]) == [];
    assert Messages(t.control) == Messages(s.control);
  }

  lemma EnqueueKeeps(s: State, t: State)
    requires Sound(s) && Next(s, Enqueue, t)
    ensures Sound(t)
  {
    match s.loop
    case Holding(f) => if IsData(f) { EnqueueDataKeeps(s, f, t); } else { EnqueueControlKeeps(s, f, t); }
    case Failing => EnqueueErrorKeeps(s, t);
    case _ =>
  }

  lemma TakeControlKeeps(s: State, t: State)
    requires Sound(s) && Next(s, TakeControl, t)
    ensures Sound(t)
  {
    assert s.control[0].Err? ==> |s.control| == 1;
    assert forall i :: 0 <= i < |t.control| ==> t.control[i] == s.control[i + 1];
    assert t.gotControl + Messages(t.control) == s.gotControl + Messages(s.control);
  }

  lemma NextKeeps(s: State, e: Event, t: State)
    requires Sound(s) && Next(s, e, t)
    ensures Sound(t)
  {
    match e
    case ReadFrame(f) => ReadKeeps(s, f, t);
    case Enqueue => EnqueueKeeps(s, t);
    case TakeControl => TakeControlKeeps(s, t);
    case TakeData => assert s.gotData + s.data == s.gotData + [s.data[0]] + s.data[1..];
    case _ =>
  }

  /** What has arrived and what the rest of the wire holds are the frames of the stream. */
  ghost predicate OnWire(stream: seq<byte>, s: State) {
    DecodeAll(stream) == s.arrived + DecodeAll(s.wire)
  }

  lemma NextKeepsWire(stream: seq<byte>, s: State, e: Event, t: State)
    requires OnWire(stream, s) && Next(s, e, t)
    ensures OnWire(stream, t)
  {
    if e.ReadFrame? {
      assert s.arrived + DecodeAll(s.wire) == s.arrived + [e.frame] + DecodeAll(t.wire);
    }
  }

  ghost predicate StepAt(states: seq<State>, events: seq<Event>, i: nat)
    requires i < |events| && i + 1 < |states|
  {
    Next(states[i], events[i], states[i + 1])
  }

  ghost predicate IsRun(stream: seq<byte>, states: seq<State>, events: seq<Event>) {
    && |states| == |events| + 1
    && states[0] == Start(stream)
    && forall i :: 0 <= i < |events| ==> StepAt(states, events, i)
  }

  lemma {:induction false} RunsAreSound(stream: seq<byte>, states: seq<State>, events: seq<Event>, n: nat)
    requires IsRun(stream, states, events) && n < |states|
    ensures Sound(states[n]) && OnWire(stream, states[n])
    decreases n
  {
    if n == 0 {
      assert [] + DecodeAll(stream) == DecodeAll(stream);
    } else {
      RunsAreSound(stream, states, events, n - 1);
      assert StepAt(states, events, n - 1);
      NextKeeps(states[n - 1], events[n - 1], states[n]);
      NextKeepsWire(stream, states[n - 1], events[n - 1], states[n]);
    }
  }

  lemma {:induction false} OfClassAppend(xs: seq<Frame>, ys: seq<Frame>, data: bool)
    ensures OfClass(xs + ys, data) == OfClass(xs, data) + OfClass(ys, data)
    decreases |ys|
  {
    if ys == [] {
      assert xs + ys == xs;
    } else {
      assert (xs + ys)[..|xs + ys| - 1] == xs + ys[..|ys| - 1];
      OfClassAppend(xs, ys[..|ys| - 1], data);
    }
  }

  lemma OfClassPrefix(xs: seq<Frame>, ys: seq<Frame>, data: bool)
    requires xs <= ys
    ensures OfClass(xs, data) <= OfClass(ys, data)
  {
    assert ys == xs + ys[|xs|..];
    OfClassAppend(xs, ys[|xs|..], data);
  }

  lemma {:induction false} ClassesSplit(frames: seq<Frame>)
    ensures |frames| == |OfClass(frames, false)| + |OfClass(frames, true)|
    decreases |frames|
  {
    if frames != [] { ClassesSplit(frames[..|frames| - 1]); }
  }

  /** In every state of every run, what receivers got of each class is a prefix of that class in the frames
      of the stream. A frame that was read and has neither been delivered nor queued is the one in the
      loop's hand, and it is dropped only after a close. A reported error comes after every control frame. */
  lemma DeliveredInOrder(stream: seq<byte>, states: seq<State>, events: seq<Event>, n: nat)
    requires IsRun(stream, states, events) && n < |states|
    ensures var s := states[n];
            && s.gotControl <= OfClass(DecodeAll(stream), false)
            && s.gotData <= OfClass(DecodeAll(stream), true)
            && s.arrived <= DecodeAll(stream)
            && |s.arrived| == |s.gotControl| + |Messages(s.control)| + |s.gotData| + |s.data| + |InHand(s)|
            && (!s.closed ==> s.lost == [])
            && (s.gotError ==> s.gotControl == OfClass(s.arrived, false))
  {
    RunsAreSound(stream, states, events, n);
    var s := states[n];
    OfClassPrefix(s.arrived, DecodeAll(stream), false);
    OfClassPrefix(s.arrived, DecodeAll(stream), true);
    ClassesSplit(s.arrived);
    ClassesSplit(InHand(s));
    if s.gotError {
      assert InHand(s) == [] && Messages(s.control) == [] && OfClass([], false) == [];
    }
  }

  /** From sender to receiver: when the stream is what was sent, cut anywhere, each class is delivered as a
      prefix of what was sent of it. */
  lemma DeliveredIsSent(sent: seq<Frame>, cut: nat, states: seq<State>, events: seq<Event>, n: nat)
    requires AllFit(sent) && cut <= |EncodeAll(sent)|
    requires IsRun(EncodeAll(sent)[..cut], states, events) && n < |states|
    ensures states[n].gotControl <= OfClass(sent, false) && states[n].gotData <= OfClass(sent, true)
  {
    var stream := EncodeAll(sent)[..cut];
    CutGivesPrefix(sent, cut);
    DeliveredInOrder(stream, states, events, n);
    OfClassPrefix(DecodeAll(stream), sent, false);
    OfClassPrefix(DecodeAll(stream), sent, true);
  }

  /** The order between the classes is not kept: the error is taken after all data if and only if the data
      queue is empty when it is taken. */
  lemma ErrorComesLastExactly(stream: seq<byte>, states: seq<State>, events: seq<Event>, n: nat)
    requires IsRun(stream, states, events) && n < |events|
    requires events[n] == TakeControl && states[n].control != [] && states[n].control[0] == Err
    ensures states[n + 1].gotError
    ensures states[n + 1].gotData == OfClass(states[n + 1].arrived, true) <==> states[n].data == []
  {
    RunsAreSound(stream, states, events, n);
    assert StepAt(states, events, n);
    var s := states[n];
    assert exists i :: 0 <= i < |s.control| && s.control[i].Err?;
    assert InHand(s) == [] && OfClass([], true) == [];
    assert OfClass(s.arrived, true) == s.gotData + s.data;
  }

  /** A stream on which it does not come last: the error overtakes data that is still queued. */
  lemma ErrorCanOvertakeData(payload: seq<byte>) returns (states: seq<State>, events: seq<Event>)
    requires |payload| <= MAX_PAYLOAD
    ensures IsRun(Encode(Frame(MESH_PACKET, payload)), states, events)
    ensures var s := states[|events|]; s.gotError && s.gotData == [] && s.data == [Frame(MESH_PACKET, payload)]
  {
    var f := Frame(MESH_PACKET, payload);
    var s0 := Start(Encode(f));
    DecodeInverts(f, []);
    assert Encode(f) + [] == Encode(f);
    var s1 := s0.(wire := [], arrived := [f], loop := Holding(f));
    var s2 := s1.(loop := Reading, data := [f]);
    var s3 := s2.(loop := Failing);
    var s4 := s3.(loop := Over, control := [Err]);
    var s5 := s4.(control := [], gotError := true);
    states, events := [s0, s1, s2, s3, s4, s5], [ReadFrame(f), Enqueue, ReadError, Enqueue, TakeControl];
    assert [] + [f] == [f] && [] + [Err] == [Err];
    assert StepAt(states, events, 0) && StepAt(states, events, 1) && StepAt(states, events, 2);
    assert StepAt(states, events, 3) && StepAt(states, events, 4);
  }
}
