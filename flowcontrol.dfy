/** The ARQ flow-control simulator: a queue of timed events with a fixed
    tie-break, a validated protocol configuration, the frame numbering and
    the sender window, and the event loop of the send path. */
module FlowControl {
  import opened Base
  import opened Arith

  // ---------------------------------------------------------------------
  // Events

  /** The nine event kinds, in the order of their enumeration values. */
  datatype EventKind =
    | ReceiveAck | ReceiveNack | Timeout | SendFrame | TransFrameEnd
    | TransAckEnd | ReceiveFrame | ProcAckTime | TransNackEnd

  /** The enumeration value of a kind, used to break ties between events
      of the same time. */
  function Ordinal(k: EventKind): (v: nat)
  {
    match k
    case ReceiveAck => 1
    case ReceiveNack => 2
    case Timeout => 3
    case SendFrame => 4
    case TransFrameEnd => 5
    case TransAckEnd => 6
    case ReceiveFrame => 7
    case ProcAckTime => 8
    case TransNackEnd => 9
  }

  /** The value order is a strict total order on the kinds. */
  lemma OrdinalInjective(a: EventKind, b: EventKind)
    ensures 1 <= Ordinal(a) <= 9
    ensures Ordinal(a) == Ordinal(b) ==> a == b
  {
  }

  /** One queued event; virtual times are kept exact. */
  datatype Event = Event(kind: EventKind, time: real, seqNumber: int)

  /** `a` is taken out of the queue before `b`: it is earlier, or it has the
      same time and a smaller kind value. */
  predicate Precedes(a: Event, b: Event)
  {
    a.time < b.time || (a.time == b.time && Ordinal(a.kind) < Ordinal(b.kind))
  }

  /** Position `p` holds the event `next_event` extracts: no event precedes
      it, and it precedes every event queued before it, so of several events
      with the same time and kind the earliest added is taken. */
  predicate IsNext(q: seq<Event>, p: nat)
  {
    && p < |q|
    && (forall j :: 0 <= j < |q| ==> !Precedes(q[j], q[p]))
    && (forall j :: 0 <= j < p ==> Precedes(q[p], q[j]))
  }

  /** The position the scan of `next_event` settles on, one event at a time. */
  function NextIndex(q: seq<Event>): (p: nat)
    requires |q| > 0
    ensures IsNext(q, p)
  {
    if |q| == 1 then 0
    else
      var p := NextIndex(q[..|q| - 1]);
      if Precedes(q[|q| - 1], q[p]) then |q| - 1 else p
  }

  /** The extracted position is determined by the queue's contents. */
  lemma NextUnique(q: seq<Event>, p: nat, p': nat)
    requires IsNext(q, p) && IsNext(q, p')
    ensures p == p'
  {
    assert !Precedes(q[p'], q[p]) && !Precedes(q[p], q[p']);
  }

  /** Whether `remove_timeout(s)` targets `e`: a TIMEOUT for `s`, or any
      TIMEOUT when `s` is -1. */
  predicate Purged(e: Event, s: int)
  {
    e.kind == Timeout && (s == -1 || e.seqNumber == s)
  }

  /** What `remove_timeout(s)` leaves. The loop deletes from the list it is
      enumerating, so the event right after each deleted one is skipped and
      stays, whatever it is. */
  function Sweep(q: seq<Event>, s: int): seq<Event>
  {
    if q == [] then []
    else if Purged(q[0], s) then (if |q| == 1 then [] else [q[1]] + Sweep(q[2..], s))
    else [q[0]] + Sweep(q[1..], s)
  }

  /** `a` is `b` with some events left out, the others in their order. */
  predicate IsSubsequence(a: seq<Event>, b: seq<Event>)
  {
    a == [] || (b != [] && ((a[0] == b[0] && IsSubsequence(a[1..], b[1..])) || IsSubsequence(a, b[1..])))
  }

  /** The queue with every targeted TIMEOUT removed and nothing else. */
  function Remaining(q: seq<Event>, s: int): (r: seq<Event>)
    ensures forall e :: e in r <==> e in q && !Purged(e, s)
    ensures IsSubsequence(r, q)
  {
    if q == [] then []
    else if Purged(q[0], s) then Remaining(q[1..], s)
    else
      assert q[1..] == q[1..];
      [q[0]] + Remaining(q[1..], s)
  }

  /** The sweep as written removes only targeted TIMEOUT events and keeps
      the order of what stays. */
  lemma {:induction false} SweepKeepsOthers(q: seq<Event>, s: int)
    ensures IsSubsequence(Sweep(q, s), q)
    ensures Remaining(Sweep(q, s), s) == Remaining(q, s)
  {
    if q != [] {
      if Purged(q[0], s) {
        if |q| > 1 {
          var rest := Sweep(q[2..], s);
          SweepKeepsOthers(q[2..], s);
          var w := [q[1]] + rest;
          assert w[0] == q[1] && w[1..] == rest;
          assert q[1..][0] == q[1] && q[1..][1..] == q[2..];
          assert IsSubsequence(w, q[1..]);
          assert Remaining(q, s) == Remaining(q[1..], s);
        }
      } else {
        var rest := Sweep(q[1..], s);
        SweepKeepsOthers(q[1..], s);
        var w := [q[0]] + rest;
        assert w[0] == q[0] && w[1..] == rest;
      }
    }
  }

  /** One step of the sweep over a targeted event: it is deleted and the
      next one is passed over. */
  lemma SweepStepPurged(q: seq<Event>, i: nat, s: int)
    requires i < |q| && Purged(q[i], s)
    ensures var d := q[..i] + q[i + 1..];
              if i + 1 < |q| then q[..i] + Sweep(q[i..], s) == d[..i + 1] + Sweep(d[i + 1..], s)
              else q[..i] + Sweep(q[i..], s) == d
  {
    var d := q[..i] + q[i + 1..];
    var rest := q[i..];
    if i + 1 < |q| {
      assert rest[2..] == q[i + 2..] == d[i + 1..];
      assert d[..i + 1] == q[..i] + [q[i + 1]];
    } else {
      assert d == q[..i];
    }
  }

  /** One step of the sweep over an event it keeps. */
  lemma SweepStepKept(q: seq<Event>, i: nat, s: int)
    requires i < |q| && !Purged(q[i], s)
    ensures q[..i] + Sweep(q[i..], s) == q[..i + 1] + Sweep(q[i + 1..], s)
  {
    assert q[i..][1..] == q[i + 1..];
    assert q[..i + 1] == q[..i] + [q[i]];
  }

  /** Two TIMEOUT events for the same number: the sweep deletes the first
      and skips the second, which is still queued afterwards. */
  lemma SweepSkipsAdjacentTimeout(t: real, u: real, s: int)
    requires s != -1
    ensures Sweep([Event(Timeout, t, s), Event(Timeout, u, s)], s) == [Event(Timeout, u, s)]
    ensures Remaining([Event(Timeout, t, s), Event(Timeout, u, s)], s) == []
  {
    var q := [Event(Timeout, t, s), Event(Timeout, u, s)];
    assert q[2..] == [];
    assert q[1..][1..] == [];
  }

  /** The position of the last event of a kind, in list order. */
  function LastIndexOf(q: seq<Event>, kind: EventKind): (r: Option<nat>)
    ensures r.None? <==> forall j :: 0 <= j < |q| ==> q[j].kind != kind
    ensures r.Some? ==> r.value < |q| && q[r.value].kind == kind
    ensures r.Some? ==> forall j :: r.value < j < |q| ==> q[j].kind != kind
  {
    if q == [] then None
    else if q[|q| - 1].kind == kind then Some(|q| - 1)
    else LastIndexOf(q[..|q| - 1], kind)
  }

  /** The time `move_send_next_event` gives the pending sends: that of the
      last TRANS_FRAME_END in the queue, or -1 when there is none. */
  function NextSendTime(q: seq<Event>): real
  {
    match LastIndexOf(q, TransFrameEnd)
    case None => -1.0
    case Some(k) => q[k].time
  }

  /** The queue after `move_send_next_event`. */
  function Retime(q: seq<Event>): seq<Event>
  {
    seq(|q|, i requires 0 <= i < |q| => if q[i].kind == SendFrame then q[i].(time := NextSendTime(q)) else q[i])
  }

  /** Retiming moves only SEND_FRAME events, all to the time of the last
      TRANS_FRAME_END; nothing is added, dropped or reordered. */
  lemma RetimeSpec(q: seq<Event>)
    ensures |Retime(q)| == |q|
    ensures forall i :: 0 <= i < |q| && q[i].kind != SendFrame ==> Retime(q)[i] == q[i]
    ensures forall i :: 0 <= i < |q| && q[i].kind == SendFrame ==>
              Retime(q)[i].kind == SendFrame && Retime(q)[i].seqNumber == q[i].seqNumber
              && Retime(q)[i].time == NextSendTime(q)
  {
  }

  /** The scan of `next_event`: keeps the position of the first event in
      time and kind order seen so far. */
  method ScanNext(q: seq<Event>) returns (pos: nat)
    requires |q| > 0
    ensures pos == NextIndex(q) && IsNext(q, pos)
  {
    pos := 0;
    var x := 1;
    while x < |q|
      invariant 1 <= x <= |q|
      invariant pos == NextIndex(q[..x])
    {
      assert q[..x + 1][..x] == q[..x];
      if q[pos].time > q[x].time {
        pos := x;
      } else if q[pos].time == q[x].time {
        if Ordinal(q[pos].kind) > Ordinal(q[x].kind) {
          pos := x;
        }
      }
      x := x + 1;
    }
    assert q[..x] == q;
  }

  /** The loop of `remove_timeout(s)`: deleting the event at the cursor and
      then advancing it passes over the event that moved into its place. */
  method SweepQueue(q: seq<Event>, s: int) returns (r: seq<Event>)
    ensures r == Sweep(q, s)
  {
    r := q;
    var i := 0;
    while i < |r|
      invariant i <= |r| + 1
      invariant i <= |r| ==> r[..i] + Sweep(r[i..], s) == Sweep(q, s)
      invariant i == |r| + 1 ==> r == Sweep(q, s)
      decreases |r| + 1 - i
    {
      if Purged(r[i], s) {
        SweepStepPurged(r, i, s);
        r := r[..i] + r[i + 1..];
      } else {
        SweepStepKept(r, i, s);
      }
      i := i + 1;
    }
    if i == |r| {
      assert r[i..] == [] && r[..i] == r;
    }
  }

  // ---------------------------------------------------------------------
  // The event queue

  class EventQueue {
    var events: seq<Event>

    constructor ()
      ensures events == []
    {
      events := [];
    }

    /** `add_event`: one event at the end, the others untouched. */
    method AddEvent(kind: EventKind, time: real, seqNumber: int)
      modifies this
      ensures events == old(events) + [Event(kind, time, seqNumber)]
    {
      events := events + [Event(kind, time, seqNumber)];
    }

    /** `next_event`: removes and returns the first event in time and kind
        order; the others keep their order. An empty queue gives nothing. */
    method NextEvent() returns (ev: Option<Event>)
      modifies this
      ensures old(events) == [] ==> ev.None? && events == []
      ensures old(events) != [] ==>
                var p := NextIndex(old(events));
                ev == Some(old(events)[p]) && events == old(events)[..p] + old(events)[p + 1..]
    {
      if |events| == 0 {
        return None;
      }
      var pos := ScanNext(events);
      ev := Some(events[pos]);
      events := events[..pos] + events[pos + 1..];
    }

    /** `remove_timeout(s)`, deleting while enumerating as the source does. */
    method RemoveTimeout(s: int)
      modifies this
      ensures events == Sweep(old(events), s)
    {
      events := SweepQueue(events, s);
    }

    /** `move_send_next_event`: finds the time of the last TRANS_FRAME_END,
        then gives it to every SEND_FRAME. */
    method MoveSendNextEvent()
      modifies this
      ensures events == Retime(old(events))
    {
      var nextTime := -1.0;
      for i := 0 to |events|
        invariant nextTime == NextSendTime(events[..i])
      {
        assert events[..i + 1][..i] == events[..i];
        if events[i].kind == TransFrameEnd {
          nextTime := events[i].time;
        }
      }
      assert events[..|events|] == events;
      ghost var before := events;
      for i := 0 to |events|
        invariant |events| == |before|
        invariant forall j :: 0 <= j < i ==> events[j] == Retime(before)[j]
        invariant forall j :: i <= j < |events| ==> events[j] == before[j]
      {
        if events[i].kind == SendFrame {
          events := events[i := events[i].(time := nextTime)];
        }
      }
    }
  }

  // ---------------------------------------------------------------------
  // Configuration

  datatype Variant = StopAndWait | GoBackN | SelectiveRepeat

  function ParseVariant(name: string): (r: Option<Variant>)
    ensures r.Some? <==> name in {"Stop & Wait", "Go-Back-N", "Selective Repeat"}
  {
    if name == "Stop & Wait" then Some(StopAndWait)
    else if name == "Go-Back-N" then Some(GoBackN)
    else if name == "Selective Repeat" then Some(SelectiveRepeat)
    else None
  }

  /** The timing values: frame transmission, frame propagation, processing,
      ack transmission, ack propagation, and the timeout. */
  datatype Timing = Timing(frameTransmission: real, framePropagation: real, processing: real,
                           ackTransmission: real, ackPropagation: real, timeout: real)

  /** A parsed protocol description. A missing `protocol` reads as the empty
      name and a missing bit count or frame count as 0, as the lookups with
      defaults do; a missing list reads as empty; a missing timing value is
      `None`. `ackLost` is the list under the key `ack lost`, the one whose
      entries the validation reads; `acksLost` (key `acks lost`) is never
      read by it. */
  datatype Config = Config(
    protocol: string, bits: int, frames: int, senderWindow: Option<int>,
    framesLost: seq<int>, acksLost: seq<int>, ackLost: seq<int>,
    frameTransmission: Option<real>, framePropagation: Option<real>, processing: Option<real>,
    ackTransmission: Option<real>, ackPropagation: Option<real>, timeout: Option<real>)

  datatype ProtocolError =
    | UnknownProtocol | TooFewBits | TooFewFrames | BadLostFrame | BadLostAck
    | NegativeTime | InvalidSenderWindow

  function OrDefault(v: Option<real>, d: real): real
  {
    if v.Some? then v.value else d
  }

  /** The configured timing values over the defaults 1, 1, 0.5, 0.5, 1, 12. */
  function TimingOf(c: Config): (t: Timing)
    ensures c.frameTransmission.None? ==> t.frameTransmission == 1.0
    ensures c.framePropagation.None? ==> t.framePropagation == 1.0
    ensures c.processing.None? ==> t.processing == 0.5
    ensures c.ackTransmission.None? ==> t.ackTransmission == 0.5
    ensures c.ackPropagation.None? ==> t.ackPropagation == 1.0
    ensures c.timeout.None? ==> t.timeout == 12.0
    ensures c.frameTransmission.Some? ==> t.frameTransmission == c.frameTransmission.value
    ensures c.framePropagation.Some? ==> t.framePropagation == c.framePropagation.value
    ensures c.processing.Some? ==> t.processing == c.processing.value
    ensures c.ackTransmission.Some? ==> t.ackTransmission == c.ackTransmission.value
    ensures c.ackPropagation.Some? ==> t.ackPropagation == c.ackPropagation.value
    ensures c.timeout.Some? ==> t.timeout == c.timeout.value
  {
    Timing(OrDefault(c.frameTransmission, 1.0), OrDefault(c.framePropagation, 1.0),
           OrDefault(c.processing, 0.5), OrDefault(c.ackTransmission, 0.5),
           OrDefault(c.ackPropagation, 1.0), OrDefault(c.timeout, 12.0))
  }

  predicate NonNegative(t: Timing)
  {
    && t.frameTransmission >= 0.0 && t.framePropagation >= 0.0 && t.processing >= 0.0
    && t.ackTransmission >= 0.0 && t.ackPropagation >= 0.0 && t.timeout >= 0.0
  }

  predicate AllPositive(xs: seq<int>)
  {
    forall i :: 0 <= i < |xs| ==> xs[i] >= 1
  }

  /** The window rule of each variant over a sequence space of `n` numbers:
      Go-Back-N needs a sender window below `n`, Selective Repeat one of at
      most half of `n`; Stop & Wait ignores the configured window. */
  predicate WindowAllowed(v: Variant, w: Option<int>, n: nat)
  {
    match v
    case StopAndWait => true
    case GoBackN => w.Some? && w.value < n
    case SelectiveRepeat => w.Some? && 2 * w.value <= n
  }

  /** A validated configuration. `bits` is the stored bit count (Stop & Wait
      overwrites it with 1), `maxNumber` the size of the sequence space,
      computed before that overwrite. */
  datatype Settings = Settings(
    variant: Variant, bits: int, maxNumber: nat, frames: nat,
    senderWindowSize: int, receiveWindowSize: int,
    framesLost: seq<int>, timing: Timing)

  /** How many SEND_FRAME events `run` seeds: one per sender-window slot,
      and no more than there are frames. */
  function Seeded(s: Settings): (k: nat)
    ensures k <= s.frames
  {
    if s.senderWindowSize <= 0 then 0
    else if s.senderWindowSize < s.frames then s.senderWindowSize
    else s.frames
  }

  /** What every validated configuration satisfies. */
  predicate Consistent(s: Settings)
  {
    && s.maxNumber >= 2 && s.frames >= 1
    && Seeded(s) <= s.maxNumber
    && NonNegative(s.timing)
  }

  /** The checks of the constructor, in its order, and the window sizes it
      settles on. */
  function Validate(c: Config): (r: Result<Settings, ProtocolError>)
    ensures ParseVariant(c.protocol).None? ==> r == Err(UnknownProtocol)
    ensures r.Ok? <==>
              && ParseVariant(c.protocol).Some? && c.bits >= 1 && c.frames >= 1
              && AllPositive(c.framesLost) && AllPositive(c.ackLost)
              && NonNegative(TimingOf(c))
              && WindowAllowed(ParseVariant(c.protocol).value, c.senderWindow, Pow2(c.bits))
    ensures r.Ok? ==>
              var s := r.value;
              && Consistent(s)
              && s.variant == ParseVariant(c.protocol).value
              && s.maxNumber == Pow2(c.bits) && s.frames == c.frames
              && s.framesLost == c.framesLost && s.timing == TimingOf(c)
              && (s.variant == StopAndWait ==> s.bits == 1 && s.senderWindowSize == 1 && s.receiveWindowSize == 1)
              && (s.variant == GoBackN ==>
                    s.bits == c.bits && s.senderWindowSize == c.senderWindow.value && s.receiveWindowSize == 1)
              && (s.variant == SelectiveRepeat ==>
                    s.bits == c.bits && s.senderWindowSize == c.senderWindow.value == s.receiveWindowSize)
  {
    var v := ParseVariant(c.protocol);
    if v.None? then Err(UnknownProtocol)
    else if c.bits < 1 then Err(TooFewBits)
    else if c.frames < 1 then Err(TooFewFrames)
    else if exists i :: 0 <= i < |c.framesLost| && c.framesLost[i] < 1 then Err(BadLostFrame)
    else if exists i :: 0 <= i < |c.ackLost| && c.ackLost[i] < 1 then Err(BadLostAck)
    else if !NonNegative(TimingOf(c)) then Err(NegativeTime)
    else
      var n := Pow2(c.bits);
      Pow2Mono(1, c.bits);
      assert Pow2(1) == 2;
      match v.value
      case StopAndWait =>
        Ok(Settings(StopAndWait, 1, n, c.frames, 1, 1, c.framesLost, TimingOf(c)))
      case GoBackN =>
        if c.senderWindow.None? || c.senderWindow.value >= n then Err(InvalidSenderWindow)
        else Ok(Settings(GoBackN, c.bits, n, c.frames, c.senderWindow.value, 1, c.framesLost, TimingOf(c)))
      case SelectiveRepeat =>
        if c.senderWindow.None? || 2 * c.senderWindow.value > n then Err(InvalidSenderWindow)
        else Ok(Settings(SelectiveRepeat, c.bits, n, c.frames, c.senderWindow.value,
                         c.senderWindow.value, c.framesLost, TimingOf(c)))
  }

  /** Stop & Wait sizes its sequence space by the configured bit count,
      before the count is overwritten with 1: with 3 bits and 3 frames the
      frames are numbered 0, 1, 2. */
  lemma StopAndWaitKeepsConfiguredSpace(c: Config)
    requires c.protocol == "Stop & Wait" && c.bits == 3 && c.frames == 3
    requires c.framesLost == [] && c.ackLost == [] && c.frameTransmission.None? && c.framePropagation.None?
    requires c.processing.None? && c.ackTransmission.None? && c.ackPropagation.None? && c.timeout.None?
    ensures Validate(c).Ok? && Validate(c).value.bits == 1
    ensures Numbering(Validate(c).value) == [0, 1, 2]
  {
    assert Pow2(3) == 8 by { assert Pow2(1) == 2; assert Pow2(2) == 4; }
    assert NonNegative(TimingOf(c));
    var nb := Numbering(Validate(c).value);
    assert nb[0] == 0 && nb[1] == 1 && nb[2] == 2;
  }

  /** Frame `i` carries the number `i mod maxNumber`. */
  function Numbering(s: Settings): (r: seq<int>)
    requires s.maxNumber > 0
    ensures |r| == s.frames
  {
    seq(s.frames, i requires 0 <= i < s.frames => i % s.maxNumber)
  }

  /** The frames `run` seeds carry pairwise different numbers: frame `i`
      carries `i` itself. */
  lemma SeedsDistinct(s: Settings, i: nat)
    requires Consistent(s) && i < Seeded(s)
    ensures Numbering(s)[i] == i
  {
    DivModUnique(i, s.maxNumber, 0, i);
  }

  /** A protocol name outside the three is refused before anything else. */
  lemma SlidingWindowRejected(c: Config)
    requires c.protocol == "Sliding Window"
    ensures Validate(c) == Err(UnknownProtocol)
  {
  }

  // ---------------------------------------------------------------------
  // The sender window

  /** The slot `__update_sender_window(n)` sets, searching from `from`: the
      first one numbered `n` that is still unset. */
  function FirstFree(numbering: seq<int>, window: seq<bool>, n: int, from: nat): (r: Option<nat>)
    requires |window| == |numbering| && from <= |numbering|
    decreases |numbering| - from
    ensures r.Some? ==> from <= r.value < |numbering| && numbering[r.value] == n && !window[r.value]
    ensures forall j :: from <= j < |numbering| && (r.None? || j < r.value) ==> numbering[j] != n || window[j]
  {
    if from == |numbering| then None
    else if numbering[from] == n && !window[from] then Some(from)
    else FirstFree(numbering, window, n, from + 1)
  }

  /** The window after `__update_sender_window(n)`. */
  function Marked(numbering: seq<int>, window: seq<bool>, n: int): (w: seq<bool>)
    requires |window| == |numbering|
    ensures |w| == |window|
  {
    match FirstFree(numbering, window, n, 0)
    case None => window
    case Some(i) => window[i := true]
  }

  /** Marking sets exactly one slot, the first unset one numbered `n`, or
      none when there is no such slot. */
  lemma MarkedSpec(numbering: seq<int>, window: seq<bool>, n: int)
    requires |window| == |numbering|
    ensures (exists i :: 0 <= i < |window| && numbering[i] == n && !window[i]) <==>
              exists i :: 0 <= i < |window| && !window[i] && Marked(numbering, window, n)[i]
    ensures forall i :: 0 <= i < |window| && window[i] ==> Marked(numbering, window, n)[i]
    ensures forall i, j :: 0 <= i < |window| && 0 <= j < |window| && j != i && !window[i] && Marked(numbering, window, n)[i]
              ==> Marked(numbering, window, n)[j] == window[j]
    ensures forall i :: 0 <= i < |window| && !window[i] && Marked(numbering, window, n)[i] ==>
              numbering[i] == n && forall j :: 0 <= j < i ==> numbering[j] != n || window[j]
  {
  }

  // ---------------------------------------------------------------------
  // One step of the event loop

  datatype Entity = Sender | Receiver

  datatype Action = StartToSend | CompletelySent | FrameLost | FrameReceived

  /** One entry of the log `run` builds. */
  datatype LogRecord = LogRecord(time: real, entity: Entity, action: Action, number: int)

  /** The events the loop queues when it handles `ev`: SEND_FRAME leads to
      TRANS_FRAME_END, TRANS_FRAME_END to TIMEOUT and, unless the frame's
      number is listed as lost, RECEIVE_FRAME, and RECEIVE_FRAME to
      PROC_ACK_TIME. Every other kind is handled by doing nothing. */
  function Followers(ev: Event, t: Timing, lost: seq<int>): seq<Event>
  {
    match ev.kind
    case SendFrame => [Event(TransFrameEnd, ev.time + t.frameTransmission, ev.seqNumber)]
    case TransFrameEnd =>
      [Event(Timeout, ev.time + t.timeout, ev.seqNumber)]
      + (if ev.seqNumber in lost then [] else [Event(ReceiveFrame, ev.time + t.framePropagation, ev.seqNumber)])
    case ReceiveFrame => [Event(ProcAckTime, ev.time + t.processing, ev.seqNumber)]
    case _ => []
  }

  /** The log entries for handling `ev`. */
  function Trace(ev: Event, lost: seq<int>): seq<LogRecord>
  {
    match ev.kind
    case SendFrame => [LogRecord(ev.time, Sender, StartToSend, ev.seqNumber)]
    case TransFrameEnd =>
      [LogRecord(ev.time, Sender, CompletelySent, ev.seqNumber)]
      + (if ev.seqNumber in lost then [LogRecord(ev.time, Sender, FrameLost, ev.seqNumber)] else [])
    case ReceiveFrame => [LogRecord(ev.time, Receiver, FrameReceived, ev.seqNumber)]
    case _ => []
  }

  /** The queue after `ev` has been taken out of it and handled. */
  function AfterStep(q: seq<Event>, ev: Event, t: Timing, lost: seq<int>): seq<Event>
  {
    if ev.kind == SendFrame then Retime(q + Followers(ev, t, lost)) else q + Followers(ev, t, lost)
  }

  /** The numbers of the queued frames not yet completely sent: one per
      SEND_FRAME or TRANS_FRAME_END event. */
  function InFlight(q: seq<Event>): multiset<int>
  {
    if q == [] then multiset{}
    else if q[0].kind == SendFrame || q[0].kind == TransFrameEnd then multiset{q[0].seqNumber} + InFlight(q[1..])
    else InFlight(q[1..])
  }

  /** How many steps each kind may still cause: a SEND_FRAME causes a
      TRANS_FRAME_END, which causes a TIMEOUT and a RECEIVE_FRAME, which
      causes a PROC_ACK_TIME. */
  function Weight(k: EventKind): nat
  {
    match k
    case SendFrame => 5
    case TransFrameEnd => 4
    case ReceiveFrame => 2
    case _ => 1
  }

  function Load(q: seq<Event>): nat
  {
    if q == [] then 0 else Weight(q[0].kind) + Load(q[1..])
  }

  lemma {:induction false} InFlightAppend(a: seq<Event>, b: seq<Event>)
    ensures InFlight(a + b) == InFlight(a) + InFlight(b)
  {
    if a == [] {
      assert a + b == b;
    } else {
      InFlightAppend(a[1..], b);
      assert (a + b)[0] == a[0] && (a + b)[1..] == a[1..] + b;
    }
  }

  lemma {:induction false} LoadAppend(a: seq<Event>, b: seq<Event>)
    ensures Load(a + b) == Load(a) + Load(b)
  {
    if a == [] {
      assert a + b == b;
    } else {
      LoadAppend(a[1..], b);
      assert (a + b)[0] == a[0] && (a + b)[1..] == a[1..] + b;
    }
  }

  lemma TalliesAppend(a: seq<Event>, b: seq<Event>)
    ensures InFlight(a + b) == InFlight(a) + InFlight(b)
    ensures Load(a + b) == Load(a) + Load(b)
  {
    InFlightAppend(a, b);
    LoadAppend(a, b);
  }

  /** Same kinds and numbers, position by position. */
  predicate SameShape(a: seq<Event>, b: seq<Event>)
  {
    |a| == |b| && forall i :: 0 <= i < |a| ==> a[i].kind == b[i].kind && a[i].seqNumber == b[i].seqNumber
  }

  lemma {:induction false} SameShapeTallies(a: seq<Event>, b: seq<Event>)
    requires SameShape(a, b)
    ensures InFlight(a) == InFlight(b) && Load(a) == Load(b)
  {
    if a != [] {
      assert SameShape(a[1..], b[1..]) by {
        forall i | 0 <= i < |a| - 1
          ensures a[1..][i].kind == b[1..][i].kind && a[1..][i].seqNumber == b[1..][i].seqNumber
        {
          assert a[1..][i] == a[i + 1] && b[1..][i] == b[i + 1];
        }
      }
      SameShapeTallies(a[1..], b[1..]);
    }
  }

  /** Moving the middle part `e` of `a + e + b` to the front keeps both tallies. */
  lemma MoveFront(a: seq<Event>, e: seq<Event>, b: seq<Event>)
    ensures InFlight((a + e) + b) == InFlight(e + (a + b))
    ensures Load((a + e) + b) == Load(e + (a + b))
  {
    TalliesAppend(a + e, b);
    TalliesAppend(a, e);
    TalliesAppend(e, a + b);
    TalliesAppend(a, b);
  }

  /** Taking the event at `p` out of the queue and putting it in front. */
  lemma Extract(q: seq<Event>, p: nat)
    requires p < |q|
    ensures InFlight(q) == InFlight([q[p]] + (q[..p] + q[p + 1..]))
    ensures Load(q) == Load([q[p]] + (q[..p] + q[p + 1..]))
    ensures multiset(q) == multiset([q[p]] + (q[..p] + q[p + 1..]))
  {
    SplitAt(q, p);
    MoveFront(q[..p], [q[p]], q[p + 1..]);
  }

  lemma SplitAt(q: seq<Event>, p: nat)
    requires p < |q|
    ensures q == (q[..p] + [q[p]]) + q[p + 1..]
  {
    assert q[..p + 1] == q[..p] + [q[p]];
    assert q[..p + 1] + q[p + 1..] == q;
  }

  /** Every queued event belongs to a seeded frame and is not earlier than
      `now`; no RECEIVE_FRAME or PROC_ACK_TIME is queued for a number listed
      as lost. */
  predicate Bounded(s: Settings, q: seq<Event>, now: real)
  {
    forall i :: 0 <= i < |q| ==>
      && 0 <= q[i].seqNumber < Seeded(s) && q[i].time >= now
      && (q[i].kind in {ReceiveFrame, ProcAckTime} ==> q[i].seqNumber !in s.framesLost)
  }

  /** The events one step queues keep the queue bounded by the time of the
      step. */
  lemma FollowersBounded(s: Settings, q: seq<Event>, ev: Event, w: seq<bool>, sent: nat, now: real)
    requires Sound(s, [ev] + q, w, sent, now) && NonNegative(s.timing)
    requires forall i :: 0 <= i < |q| ==> q[i].time >= ev.time
    ensures Bounded(s, q + Followers(ev, s.timing, s.framesLost), ev.time)
  {
    StepStart(s, q, ev, w, sent, now);
    FollowersSpec(ev, s.timing, s.framesLost);
    var f := Followers(ev, s.timing, s.framesLost);
    var q2 := q + f;
    forall i | 0 <= i < |q2|
      ensures 0 <= q2[i].seqNumber < Seeded(s) && q2[i].time >= ev.time
      ensures q2[i].kind in {ReceiveFrame, ProcAckTime} ==> q2[i].seqNumber !in s.framesLost
    {
      if i >= |q| {
        assert q2[i] == f[i - |q|];
      } else {
        assert q2[i] == ([ev] + q)[i + 1];
      }
    }
  }

  /** Retiming to a time not earlier than `now` keeps a queue bounded. */
  lemma RetimeBounded(s: Settings, q: seq<Event>, now: real)
    requires Bounded(s, q, now) && NextSendTime(q) >= now
    ensures Bounded(s, Retime(q), now)
  {
    RetimeSpec(q);
  }

  /** What holds of the loop's state at every turn, over the seeded count
      `k`: the queue is bounded by `now` (see `Bounded`); each seeded frame is either still in flight (one
      SEND_FRAME or TRANS_FRAME_END queued) or marked in the sender window,
      never both; no other slot is marked; and `sent` counts the frames
      already completely sent. */
  ghost predicate Sound(s: Settings, q: seq<Event>, w: seq<bool>, sent: nat, now: real)
  {
    var k := Seeded(s);
    && |w| == s.frames
    && Bounded(s, q, now)
    && (forall n :: 0 <= n < k ==> InFlight(q)[n] + (if w[n] then 1 else 0) == 1)
    && (forall n :: k <= n < s.frames ==> !w[n])
    && sent + |InFlight(q)| == k
  }

  /** The sender window after handling `ev`. */
  function WindowAfter(s: Settings, w: seq<bool>, ev: Event): (r: seq<bool>)
    requires s.maxNumber > 0 && |w| == s.frames
  {
    if ev.kind == TransFrameEnd then Marked(Numbering(s), w, ev.seqNumber) else w
  }

  /** Completing the transmission of seeded frame `n` marks slot `n` itself. */
  lemma MarkSeeded(s: Settings, w: seq<bool>, n: nat)
    requires Consistent(s) && |w| == s.frames && n < Seeded(s) && !w[n]
    ensures Marked(Numbering(s), w, n) == w[n := true]
  {
    var nb := Numbering(s);
    SeedsDistinct(s, n);
    var r := FirstFree(nb, w, n, 0);
    assert r.Some?;
    SeedsDistinct(s, r.value);
  }

  /** Handling an event queues only events later in its chain, for the
      same frame and not earlier than it: the load drops, only a
      SEND_FRAME leaves its frame in flight (as a TRANS_FRAME_END), and a
      RECEIVE_FRAME is queued only for a frame not listed as lost. */
  lemma FollowersSpec(ev: Event, t: Timing, lost: seq<int>)
    requires NonNegative(t)
    ensures var f := Followers(ev, t, lost);
      && Load(f) < Weight(ev.kind)
      && InFlight(f) == (if ev.kind == SendFrame then multiset{ev.seqNumber} else multiset{})
      && (forall i :: 0 <= i < |f| ==> f[i].seqNumber == ev.seqNumber && f[i].time >= ev.time)
      && (forall i :: 0 <= i < |f| && f[i].kind in {ReceiveFrame, ProcAckTime} ==>
            ev.kind == ReceiveFrame || (ev.kind == TransFrameEnd && ev.seqNumber !in lost))
  {
    var f := Followers(ev, t, lost);
    if f != [] {
      assert Load(f) == Weight(f[0].kind) + Load(f[1..]);
      assert InFlight(f) == (if f[0].kind in {SendFrame, TransFrameEnd} then multiset{f[0].seqNumber} else multiset{}) + InFlight(f[1..]);
      if |f| == 2 {
        assert f[1..][1..] == [];
      } else {
        assert f[1..] == [];
      }
    }
  }

  /** The facts every case of a step starts from. */
  lemma StepStart(s: Settings, q: seq<Event>, ev: Event, w: seq<bool>, sent: nat, now: real)
    requires Sound(s, [ev] + q, w, sent, now) && NonNegative(s.timing)
    ensures ev.time >= now && 0 <= ev.seqNumber < Seeded(s)
    ensures ev.kind in {ReceiveFrame, ProcAckTime} ==> ev.seqNumber !in s.framesLost
    ensures forall i :: 0 <= i < |q| ==> q[i] == ([ev] + q)[i + 1]
    ensures InFlight([ev] + q) == InFlight([ev]) + InFlight(q) && Load([ev] + q) == Weight(ev.kind) + Load(q)
    ensures InFlight([ev]) == if ev.kind in {SendFrame, TransFrameEnd} then multiset{ev.seqNumber} else multiset{}
    ensures var f := Followers(ev, s.timing, s.framesLost);
      InFlight(q + f) == InFlight(q) + InFlight(f) && Load(q + f) == Load(q) + Load(f)
  {
    assert ([ev] + q)[0] == ev;
    TalliesAppend([ev], q);
    assert [ev][1..] == [];
    TalliesAppend(q, Followers(ev, s.timing, s.framesLost));
    FollowersSpec(ev, s.timing, s.framesLost);
  }

  /** Handling a SEND_FRAME: one TRANS_FRAME_END queued, then the pending
      sends retimed to the last TRANS_FRAME_END, which is not earlier than
      the event. */
  lemma StepSend(s: Settings, q: seq<Event>, ev: Event, w: seq<bool>, sent: nat, now: real)
    requires Sound(s, [ev] + q, w, sent, now) && NonNegative(s.timing) && ev.kind == SendFrame
    requires forall i :: 0 <= i < |q| ==> q[i].time >= ev.time
    ensures Sound(s, AfterStep(q, ev, s.timing, s.framesLost), w, sent, ev.time)
    ensures Load(AfterStep(q, ev, s.timing, s.framesLost)) < Load([ev] + q)
  {
    StepStart(s, q, ev, w, sent, now);
    var f := Followers(ev, s.timing, s.framesLost);
    FollowersSpec(ev, s.timing, s.framesLost);
    var q1 := q + f;
    var q2 := Retime(q1);
    RetimeSpec(q1);
    assert SameShape(q2, q1);
    SameShapeTallies(q2, q1);
    assert InFlight(q2) == InFlight([ev] + q);
    assert q1[|q1| - 1].kind == TransFrameEnd;
    var last := LastIndexOf(q1, TransFrameEnd);
    assert NextSendTime(q1) == q1[last.value].time;
    FollowersBounded(s, q, ev, w, sent, now);
    assert q1[last.value].time >= ev.time;
    RetimeBounded(s, q1, ev.time);
  }

  /** Handling a TRANS_FRAME_END: a TIMEOUT and, unless the frame is lost,
      a RECEIVE_FRAME queued; the frame's slot marked, one frame more sent. */
  lemma StepTransEnd(s: Settings, q: seq<Event>, ev: Event, w: seq<bool>, sent: nat, now: real)
    requires Sound(s, [ev] + q, w, sent, now) && Consistent(s) && ev.kind == TransFrameEnd
    requires forall i :: 0 <= i < |q| ==> q[i].time >= ev.time
    ensures Sound(s, AfterStep(q, ev, s.timing, s.framesLost), WindowAfter(s, w, ev), sent + 1, ev.time)
    ensures Load(AfterStep(q, ev, s.timing, s.framesLost)) < Load([ev] + q)
  {
    StepStart(s, q, ev, w, sent, now);
    FollowersSpec(ev, s.timing, s.framesLost);
    var k := Seeded(s);
    var f := Followers(ev, s.timing, s.framesLost);
    var n := ev.seqNumber;
    var q2 := q + f;
    assert InFlight(q)[n] + 1 + (if w[n] then 1 else 0) == 1;
    MarkSeeded(s, w, n);
    var w2 := w[n := true];
    forall m | 0 <= m < k
      ensures InFlight(q2)[m] + (if w2[m] then 1 else 0) == 1
    {
      if m != n {
        assert InFlight([ev] + q)[m] == InFlight(q)[m];
      }
    }
    FollowersBounded(s, q, ev, w, sent, now);
  }

  /** Handling any other kind: at most one PROC_ACK_TIME queued, nothing
      else changes. */
  lemma StepOther(s: Settings, q: seq<Event>, ev: Event, w: seq<bool>, sent: nat, now: real)
    requires Sound(s, [ev] + q, w, sent, now) && NonNegative(s.timing)
    requires ev.kind != SendFrame && ev.kind != TransFrameEnd
    requires forall i :: 0 <= i < |q| ==> q[i].time >= ev.time
    ensures Sound(s, AfterStep(q, ev, s.timing, s.framesLost), w, sent, ev.time)
    ensures Load(AfterStep(q, ev, s.timing, s.framesLost)) < Load([ev] + q)
  {
    StepStart(s, q, ev, w, sent, now);
    FollowersSpec(ev, s.timing, s.framesLost);
    FollowersBounded(s, q, ev, w, sent, now);
  }

  /** Handling the next event keeps the loop's invariant, moves the clock
      to the event's time, and lowers the load, so the loop ends. */
  lemma StepPreserves(s: Settings, q: seq<Event>, ev: Event, w: seq<bool>, sent: nat, now: real)
    requires Consistent(s) && Sound(s, [ev] + q, w, sent, now)
    requires forall i :: 0 <= i < |q| ==> q[i].time >= ev.time
    ensures Sound(s, AfterStep(q, ev, s.timing, s.framesLost), WindowAfter(s, w, ev),
                  if ev.kind == TransFrameEnd then sent + 1 else sent, ev.time)
    ensures Load(AfterStep(q, ev, s.timing, s.framesLost)) < Load([ev] + q)
    ensures ev.time >= now
  {
    StepStart(s, q, ev, w, sent, now);
    if ev.kind == SendFrame {
      StepSend(s, q, ev, w, sent, now);
    } else if ev.kind == TransFrameEnd {
      StepTransEnd(s, q, ev, w, sent, now);
    } else {
      StepOther(s, q, ev, w, sent, now);
    }
  }

  /** Nothing a lost frame causes reaches the receiver. */
  lemma LostFrameNotReceived(ev: Event, t: Timing, lost: seq<int>)
    requires ev.kind == TransFrameEnd && ev.seqNumber in lost
    ensures forall e :: e in Followers(ev, t, lost) ==> e.kind == Timeout
    ensures forall r :: r in Trace(ev, lost) ==> r.action != FrameReceived
  {
  }

  /** The log lists its entries in order of time. */
  predicate Chronological(log: seq<LogRecord>)
  {
    forall i, j :: 0 <= i < j < |log| ==> log[i].time <= log[j].time
  }

  /** The sender window once every seeded frame has been completely sent. */
  function AllSeededSent(s: Settings): (w: seq<bool>)
    ensures |w| == s.frames
    ensures forall i :: 0 <= i < s.frames ==> (w[i] <==> i < Seeded(s))
  {
    seq(s.frames, i requires 0 <= i < s.frames => i < Seeded(s))
  }

  /** The seeded queue: a SEND_FRAME at time 0 for each of the first `i` frames. */
  function Seeds(i: nat): (q: seq<Event>)
    ensures |q| == i
  {
    seq(i, j => Event(SendFrame, 0.0, j))
  }

  /** The first `i` seeded frames are in flight, once each, and no other. */
  predicate SeedTallies(s: Settings, i: nat)
  {
    && (forall n :: 0 <= n < Seeded(s) ==> InFlight(Seeds(i))[n] == (if n < i then 1 else 0))
    && |InFlight(Seeds(i))| == i
  }

  /** Seeding one more frame: its number is its position, and it is then in
      flight once. */
  lemma SeedStep(s: Settings, i: nat)
    requires Consistent(s) && i < Seeded(s) && SeedTallies(s, i)
    ensures Seeds(i) + [Event(SendFrame, 0.0, Numbering(s)[i])] == Seeds(i + 1)
    ensures SeedTallies(s, i + 1)
  {
    SeedsDistinct(s, i);
    var e := Event(SendFrame, 0.0, i);
    assert Seeds(i) + [e] == Seeds(i + 1);
    TalliesAppend(Seeds(i), [e]);
    assert InFlight([e]) == multiset{i} by { assert [e][1..] == []; }
  }

  /** Once every slot is seeded, the loop's invariant holds at time 0 with
      nothing sent and an empty sender window. */
  lemma SeedDone(s: Settings)
    requires Consistent(s) && SeedTallies(s, Seeded(s))
    ensures Sound(s, Seeds(Seeded(s)), seq(s.frames, _ => false), 0, 0.0)
  {
    var q := Seeds(Seeded(s));
    assert forall j :: 0 <= j < |q| ==> q[j] == Event(SendFrame, 0.0, j);
  }

  /** Taking the next event out of a queue that satisfies the invariant:
      the invariant holds of the event put back in front of the rest, and
      no remaining event is earlier than it. */
  lemma SoundExtract(s: Settings, q: seq<Event>, p: nat, w: seq<bool>, sent: nat, now: real)
    requires Sound(s, q, w, sent, now) && IsNext(q, p)
    ensures var rest := q[..p] + q[p + 1..];
      && Sound(s, [q[p]] + rest, w, sent, now) && Load(q) == Load([q[p]] + rest)
      && forall j :: 0 <= j < |rest| ==> rest[j].time >= q[p].time
  {
    var rest := q[..p] + q[p + 1..];
    var r := [q[p]] + rest;
    Extract(q, p);
    forall j | 0 <= j < |r|
      ensures 0 <= r[j].seqNumber < Seeded(s) && r[j].time >= now
      ensures r[j].kind in {ReceiveFrame, ProcAckTime} ==> r[j].seqNumber !in s.framesLost
    {
      assert r[j] in multiset(q);
    }
    forall j | 0 <= j < |rest| ensures rest[j].time >= q[p].time {
      if j < p { assert rest[j] == q[j]; } else { assert rest[j] == q[j + 1]; }
    }
  }

  /** With the queue empty, every seeded frame has been sent and marked. */
  lemma SoundDone(s: Settings, w: seq<bool>, sent: nat, now: real)
    requires Sound(s, [], w, sent, now)
    ensures w == AllSeededSent(s) && sent == Seeded(s)
  {
    assert InFlight([]) == multiset{};
  }

  /** The log so far: in order of time, nothing later than `now`, and no
      frame listed as lost shown as received. */
  predicate LogSound(log: seq<LogRecord>, lost: seq<int>, now: real)
  {
    && Chronological(log)
    && (forall j :: 0 <= j < |log| ==> log[j].time <= now)
    && (forall j :: 0 <= j < |log| && log[j].action == FrameReceived ==> log[j].number !in lost)
  }

  /** Appending the entries of one step keeps the log in order of time and
      free of received lost frames. */
  lemma LogStep(log: seq<LogRecord>, ev: Event, lost: seq<int>, now: real)
    requires LogSound(log, lost, now) && now <= ev.time
    requires ev.kind == ReceiveFrame ==> ev.seqNumber !in lost
    ensures LogSound(log + Trace(ev, lost), lost, ev.time)
  {
    var tr := Trace(ev, lost);
    assert forall j :: 0 <= j < |tr| ==> tr[j].time == ev.time;
    assert forall j :: 0 <= j < |tr| && tr[j].action == FrameReceived ==> ev.kind == ReceiveFrame && tr[j].number == ev.seqNumber;
  }

  /** One turn of the loop of `run`: taking out the next event and handling
      it keeps the invariant and the log sound, and lowers the load. */
  lemma TurnPreserves(s: Settings, q: seq<Event>, p: nat, w: seq<bool>, sent: nat, now: real, log: seq<LogRecord>)
    requires Consistent(s) && Sound(s, q, w, sent, now) && IsNext(q, p) && LogSound(log, s.framesLost, now)
    ensures var ev, rest := q[p], q[..p] + q[p + 1..];
      var after := AfterStep(rest, ev, s.timing, s.framesLost);
      && Sound(s, after, WindowAfter(s, w, ev), if ev.kind == TransFrameEnd then sent + 1 else sent, ev.time)
      && Load(after) < Load(q)
      && LogSound(log + Trace(ev, s.framesLost), s.framesLost, ev.time)
  {
    var ev, rest := q[p], q[..p] + q[p + 1..];
    SoundExtract(s, q, p, w, sent, now);
    StepPreserves(s, rest, ev, w, sent, now);
    StepStart(s, rest, ev, w, sent, now);
    LogStep(log, ev, s.framesLost, now);
  }

  // ---------------------------------------------------------------------
  // The protocol object

  class Protocol {
    const settings: Settings
    const queue: EventQueue
    var numbering: seq<int>
    var senderWindow: seq<bool>
    var receiverWindow: seq<bool>
    var senderWindowStart: int
    var framesSent: nat
    var acksSent: nat

    ghost predicate Valid()
      reads this
    {
      && Consistent(settings)
      && numbering == Numbering(settings)
      && |senderWindow| == |receiverWindow| == settings.frames
    }

    /** The state construction leaves: nothing sent, nothing queued. */
    ghost predicate Initial()
      reads this, queue
    {
      && queue.events == []
      && senderWindow == seq(settings.frames, _ => false)
      && receiverWindow == seq(settings.frames, _ => false)
      && senderWindowStart == 0 && framesSent == 0 && acksSent == 0
    }

    /** The numbering and the two windows, built one frame at a time. */
    constructor (s: Settings)
      requires Consistent(s)
      ensures settings == s && fresh(queue) && Valid() && Initial()
    {
      var nb: seq<int> := [];
      var sw: seq<bool> := [];
      var rw: seq<bool> := [];
      var i := 0;
      while i < s.frames
        invariant i <= s.frames
        invariant nb == seq(i, j => j % s.maxNumber)
        invariant sw == rw == seq(i, _ => false)
      {
        nb := nb + [i % s.maxNumber];
        sw := sw + [false];
        rw := rw + [false];
        i := i + 1;
      }
      settings := s;
      queue := new EventQueue();
      numbering := nb;
      senderWindow := sw;
      receiverWindow := rw;
      senderWindowStart := 0;
      framesSent := 0;
      acksSent := 0;
    }

    /** `Protocol(...)` over a parsed description: refused with the first
        failing check, otherwise a fresh protocol in its initial state. */
    static method New(c: Config) returns (r: Result<Protocol, ProtocolError>)
      ensures r.Err? <==> Validate(c).Err?
      ensures r.Err? ==> r.error == Validate(c).error
      ensures r.Ok? ==> fresh(r.value) && fresh(r.value.queue) && r.value.settings == Validate(c).value
                        && r.value.Valid() && r.value.Initial()
    {
      var v := Validate(c);
      if v.Err? {
        return Err(v.error);
      }
      var p := new Protocol(v.value);
      return Ok(p);
    }

    /** `__update_sender_window(n)`: sets the first unset slot numbered `n`. */
    method UpdateSenderWindow(n: int)
      requires Valid()
      modifies this
      ensures Valid()
      ensures senderWindow == Marked(numbering, old(senderWindow), n)
      ensures numbering == old(numbering) && receiverWindow == old(receiverWindow)
      ensures senderWindowStart == old(senderWindowStart) && framesSent == old(framesSent) && acksSent == old(acksSent)
    {
      for i := 0 to |numbering|
        invariant senderWindow == old(senderWindow)
        invariant FirstFree(numbering, senderWindow, n, 0) == FirstFree(numbering, senderWindow, n, i)
      {
        if numbering[i] == n && !senderWindow[i] {
          senderWindow := senderWindow[i := true];
          return;
        }
      }
    }

    /** One turn of the loop in `run`, for an event just taken out of the
        queue. */
    method Handle(ev: Event) returns (records: seq<LogRecord>)
      requires Valid()
      modifies this, queue
      ensures Valid()
      ensures queue.events == AfterStep(old(queue.events), ev, settings.timing, settings.framesLost)
      ensures senderWindow == WindowAfter(settings, old(senderWindow), ev)
      ensures framesSent == old(framesSent) + (if ev.kind == TransFrameEnd then 1 else 0)
      ensures records == Trace(ev, settings.framesLost)
      ensures numbering == old(numbering) && receiverWindow == old(receiverWindow)
      ensures senderWindowStart == old(senderWindowStart) && acksSent == old(acksSent)
    {
      var t := settings.timing;
      records := [];
      if ev.kind == SendFrame {
        queue.AddEvent(TransFrameEnd, ev.time + t.frameTransmission, ev.seqNumber);
        records := [LogRecord(ev.time, Sender, StartToSend, ev.seqNumber)];
        queue.MoveSendNextEvent();
      } else if ev.kind == TransFrameEnd {
        records := CompleteSend(ev);
      } else if ev.kind == ReceiveFrame {
        queue.AddEvent(ProcAckTime, ev.time + t.processing, ev.seqNumber);
        records := [LogRecord(ev.time, Receiver, FrameReceived, ev.seqNumber)];
      }
    }

    /** The TRANS_FRAME_END case of a turn: a TIMEOUT queued, one frame more
        sent, its slot marked, and a RECEIVE_FRAME queued unless the frame
        is listed as lost. */
    method CompleteSend(ev: Event) returns (records: seq<LogRecord>)
      requires Valid() && ev.kind == TransFrameEnd
      modifies this, queue
      ensures Valid()
      ensures queue.events == old(queue.events) + Followers(ev, settings.timing, settings.framesLost)
      ensures senderWindow == Marked(numbering, old(senderWindow), ev.seqNumber)
      ensures framesSent == old(framesSent) + 1
      ensures records == Trace(ev, settings.framesLost)
      ensures numbering == old(numbering) && receiverWindow == old(receiverWindow)
      ensures senderWindowStart == old(senderWindowStart) && acksSent == old(acksSent)
    {
      var t := settings.timing;
      queue.AddEvent(Timeout, ev.time + t.timeout, ev.seqNumber);
      records := [LogRecord(ev.time, Sender, CompletelySent, ev.seqNumber)];
      framesSent := framesSent + 1;
      UpdateSenderWindow(ev.seqNumber);
      if ev.seqNumber in settings.framesLost {
        records := records + [LogRecord(ev.time, Sender, FrameLost, ev.seqNumber)];
      } else {
        queue.AddEvent(ReceiveFrame, ev.time + t.framePropagation, ev.seqNumber);
      }
    }

    /** The first loop of `run`: a SEND_FRAME at time 0 for the number of
        each sender-window slot, stopping at the last frame. */
    method SeedSends()
      requires Valid() && Initial()
      modifies queue
      ensures queue.events == Seeds(Seeded(settings))
      ensures Sound(settings, queue.events, senderWindow, framesSent, 0.0)
    {
      var i := 0;
      assert InFlight([]) == multiset{};
      while i < settings.senderWindowSize && i < |numbering|
        invariant i <= Seeded(settings)
        invariant queue.events == Seeds(i)
        invariant SeedTallies(settings, i)
      {
        SeedStep(settings, i);
        queue.AddEvent(SendFrame, 0.0, numbering[i]);
        i := i + 1;
      }
      SeedDone(settings);
    }

    /** `run`: seeds one SEND_FRAME per sender-window slot, then handles
        events in time and kind order until the queue is empty. Every
        seeded frame ends up completely sent exactly once and marked in the
        sender window; the log is in order of time and never shows a frame
        listed as lost being received. */
    method Run() returns (log: seq<LogRecord>)
      requires Valid() && Initial()
      modifies this, queue
      ensures Valid()
      ensures queue.events == []
      ensures framesSent == Seeded(settings)
      ensures senderWindow == AllSeededSent(settings)
      ensures Chronological(log)
      ensures forall i :: 0 <= i < |log| && log[i].action == FrameReceived ==> log[i].number !in settings.framesLost
      ensures numbering == old(numbering) && receiverWindow == old(receiverWindow)
      ensures senderWindowStart == old(senderWindowStart) && acksSent == old(acksSent)
    {
      SeedSends();
      log := [];
      ghost var now := 0.0;
      while true
        invariant Valid()
        invariant numbering == old(numbering) && receiverWindow == old(receiverWindow)
        invariant senderWindowStart == old(senderWindowStart) && acksSent == old(acksSent)
        invariant Sound(settings, queue.events, senderWindow, framesSent, now)
        invariant LogSound(log, settings.framesLost, now)
        decreases Load(queue.events)
      {
        ghost var before := queue.events;
        var next := queue.NextEvent();
        if next.None? {
          SoundDone(settings, senderWindow, framesSent, now);
          break;
        }
        var ev := next.value;
        TurnPreserves(settings, before, NextIndex(before), senderWindow, framesSent, now, log);
        var records := Handle(ev);
        log := log + records;
        now := ev.time;
      }
    }
  }
}
