/** Replay streams: what a frozen script commits, and the framing its result digest covers. */
module Replay {
  import opened Commons
  import opened Cbor
  import opened Sums
  import MetricInputs

  // ----- Scripts -----

  /** The drafts a driver emits at each tick, and the tick at which it fails, if any. */
  datatype Script = Script(drafts: seq<seq<bytes>>, failureTick: Option<nat>)

  datatype Outcome = Outcome(payloads: seq<bytes>, failure: Option<bytes>)

  /** The closed host-failure code and its sub-code, each two bytes. */
  const FAILURE: bytes := BigEndian(1, 2) + BigEndian(17, 2)

  predicate FailsBy(s: Script, ticks: nat) { s.failureTick.Some? && 1 <= s.failureTick.value <= ticks }

  /** The ticks whose drafts are committed within `ticks` boundaries. */
  function CommittedTicks(s: Script, ticks: nat): (n: nat)
    ensures n <= |s.drafts| && n <= ticks
  {
    var ran := if FailsBy(s, ticks) then s.failureTick.value - 1 else ticks;
    if ran < |s.drafts| then ran else |s.drafts|
  }

  /** What the host commits: all drafts before the failure, in order, and the failure itself. */
  function Run(s: Script, ticks: nat): Outcome {
    Outcome(Concat(s.drafts[..CommittedTicks(s, ticks)]), if FailsBy(s, ticks) then Some(FAILURE) else None)
  }

  method RunScript(s: Script, ticks: nat) returns (o: Outcome)
    ensures o == Run(s, ticks)
  {
    var payloads: seq<bytes> := [];
    assert s.drafts[..0] == [];
    for done := 0 to ticks
      invariant !FailsBy(s, done) && payloads == Concat(s.drafts[..CommittedTicks(s, done)])
    {
      var tick := done + 1;
      if s.failureTick == Some(tick) {
        return Outcome(payloads, Some(FAILURE));
      }
      if tick <= |s.drafts| {
        assert s.drafts[..tick][..done] == s.drafts[..done];
        payloads := payloads + s.drafts[tick - 1];
      }
    }
    return Outcome(payloads, None);
  }

  lemma {:induction false} ConcatPrefix(xs: seq<seq<bytes>>, m: nat, n: nat)
    requires m <= n <= |xs|
    ensures Concat(xs[..m]) <= Concat(xs[..n])
    decreases n
  {
    if m < n {
      ConcatPrefix(xs, m, n - 1);
      assert xs[..n][..n - 1] == xs[..n - 1];
    }
  }

  /** A longer run extends a shorter one, and nothing moves once the driver has failed. */
  lemma RunsExtend(s: Script, ticks: nat, more: nat)
    ensures Run(s, ticks).payloads <= Run(s, ticks + more).payloads
    ensures Run(s, ticks).failure.Some? ==> Run(s, ticks + more) == Run(s, ticks)
  {
    ConcatPrefix(s.drafts, CommittedTicks(s, ticks), CommittedTicks(s, ticks + more));
  }

  /** The run, tick by tick: a tick commits its drafts unless it is the failing one, which commits
      nothing and ends the run. */
  lemma RunSteps(s: Script, ticks: nat)
    ensures Run(s, 0) == Outcome([], None)
    ensures var before := Run(s, ticks);
      Run(s, ticks + 1)
      == if before.failure.Some? then before
         else if s.failureTick == Some(ticks + 1) then Outcome(before.payloads, Some([0, 1, 0, 17]))
         else Outcome(before.payloads + (if ticks < |s.drafts| then s.drafts[ticks] else []), None)
  {
    assert s.drafts[..0] == [];
    assert BigEndian(0, 1) == [0] && FAILURE == [0, 1, 0, 17];
    if ticks < |s.drafts| {
      assert s.drafts[..ticks + 1][..ticks] == s.drafts[..ticks];
    }
    assert Run(s, ticks).payloads + [] == Run(s, ticks).payloads;
  }

  // ----- The framing of a result -----

  datatype Event = Event(seqNo: nat, identity: bytes, schema: bytes, payload: bytes)

  datatype Stream = Stream(
    timeline: bytes, events: seq<Event>, checkpoint: bytes, checkpointSize: nat, failure: Option<bytes>)

  predicate Fits64(n: nat) { n < ARGUMENT_LIMIT }

  predicate WellFormedEvent(e: Event) { |e.identity| == 32 && |e.schema| == 32 && Fits64(e.seqNo) }

  /** Digests are 32 bytes, timelines 16, and every number fits its 8-byte field. */
  predicate WellFormed(s: Stream) {
    && |s.timeline| == 16 && |s.checkpoint| == 32 && Fits64(s.checkpointSize) && Fits64(|s.events|)
    && (forall i | 0 <= i < |s.events| :: WellFormedEvent(s.events[i]))
    && (s.failure.Some? ==> Fits64(|s.failure.value|))
  }

  function U64(n: nat): (r: bytes)
    ensures |r| == 8
  {
    BigEndian(n, 8)
  }

  function U32(n: nat): (r: bytes)
    ensures |r| == 4
  {
    BigEndian(n, 4)
  }

  const DRIVER: bytes := MetricInputs.Ascii("experiment-host")

  function FoldCursor(s: Stream): nat { if s.events == [] then 0 else s.events[|s.events| - 1].seqNo }

  function EventTail(hash: Hash, e: Event): bytes { e.identity + (e.schema + hash(e.payload)) }

  function EventBytes(hash: Hash, timeline: bytes, e: Event): bytes {
    timeline + (U64(e.seqNo) + EventTail(hash, e))
  }

  function EventsBytes(hash: Hash, timeline: bytes, events: seq<Event>): bytes {
    if events == [] then [] else EventBytes(hash, timeline, events[0]) + EventsBytes(hash, timeline, events[1..])
  }

  function CheckpointBytes(s: Stream): bytes {
    U64(1) + (s.timeline + (U64(FoldCursor(s)) + (U64(0) + (s.checkpoint + U64(s.checkpointSize)))))
  }

  function FailureBytes(s: Stream): bytes {
    if s.failure.None? then U64(0)
    else
      U64(1) + (s.timeline + (U64(FoldCursor(s)) + (U64(0) + (U32(0) + (U64(|DRIVER|) + (DRIVER + (U32(0) + ([1]
      + (U64(|s.failure.value|) + s.failure.value)))))))))
  }

  /** What the result digest hashes: the count and the events, the checkpoint, the failures. */
  function Preimage(hash: Hash, s: Stream): bytes {
    U64(|s.events|) + (EventsBytes(hash, s.timeline, s.events) + (CheckpointBytes(s) + FailureBytes(s)))
  }

  method FrameResult(hash: Hash, s: Stream) returns (parts: bytes)
    ensures parts == Preimage(hash, s)
  {
    hide U64, EventBytes, CheckpointBytes, FailureBytes;
    parts := U64(|s.events|);
    assert s.events[0..] == s.events;
    for i := 0 to |s.events|
      invariant parts + EventsBytes(hash, s.timeline, s.events[i..])
             == U64(|s.events|) + EventsBytes(hash, s.timeline, s.events)
    {
      assert s.events[i..][1..] == s.events[i + 1..];
      var event := EventBytes(hash, s.timeline, s.events[i]);
      assert parts + (event + EventsBytes(hash, s.timeline, s.events[i + 1..]))
          == parts + event + EventsBytes(hash, s.timeline, s.events[i + 1..]);
      parts := parts + event;
    }
    assert s.events[|s.events|..] == [] && parts + [] == parts;
    var tail := CheckpointBytes(s) + FailureBytes(s);
    assert U64(|s.events|) + EventsBytes(hash, s.timeline, s.events) + tail
        == U64(|s.events|) + (EventsBytes(hash, s.timeline, s.events) + tail);
    parts := parts + tail;
  }

  lemma U64Injective(m: nat, n: nat)
    requires Fits64(m) && Fits64(n) && U64(m) == U64(n)
    ensures m == n
  {
    Pow256Values();
    FromToBigEndian(m, 8);
    FromToBigEndian(n, 8);
  }

  /** Two events frame alike exactly when they agree up to the hash of their payloads. */
  predicate SameEvent(hash: Hash, a: Event, b: Event) {
    a.seqNo == b.seqNo && a.identity == b.identity && a.schema == b.schema && hash(a.payload) == hash(b.payload)
  }

  lemma EventInjective(hash: Hash, timeline: bytes, a: Event, b: Event)
    requires Digests(hash) && WellFormedEvent(a) && WellFormedEvent(b)
    requires EventBytes(hash, timeline, a) == EventBytes(hash, timeline, b)
    ensures SameEvent(hash, a, b)
  {
    hide U64;
    var x, y := EventTail(hash, a), EventTail(hash, b);
    SameSplit(timeline, timeline, U64(a.seqNo) + x, U64(b.seqNo) + y);
    SameSplit(U64(a.seqNo), U64(b.seqNo), x, y);
    U64Injective(a.seqNo, b.seqNo);
    SameSplit(a.identity, b.identity, a.schema + hash(a.payload), b.schema + hash(b.payload));
    SameSplit(a.schema, b.schema, hash(a.payload), hash(b.payload));
  }

  lemma EventLength(hash: Hash, timeline: bytes, e: Event)
    requires Digests(hash) && WellFormedEvent(e) && |timeline| == 16
    ensures |EventBytes(hash, timeline, e)| == 120
  {
  }

  lemma {:induction false} EventsInjective(hash: Hash, timeline: bytes, a: seq<Event>, b: seq<Event>)
    requires Digests(hash) && |a| == |b| && |timeline| == 16
    requires forall i | 0 <= i < |a| :: WellFormedEvent(a[i]) && WellFormedEvent(b[i])
    requires EventsBytes(hash, timeline, a) == EventsBytes(hash, timeline, b)
    ensures forall i | 0 <= i < |a| :: SameEvent(hash, a[i], b[i])
    decreases |a|
  {
    hide EventBytes, SameEvent, WellFormedEvent;
    if a != [] {
      EventLength(hash, timeline, a[0]);
      EventLength(hash, timeline, b[0]);
      SameSplit(EventBytes(hash, timeline, a[0]), EventBytes(hash, timeline, b[0]),
                 EventsBytes(hash, timeline, a[1..]), EventsBytes(hash, timeline, b[1..]));
      EventInjective(hash, timeline, a[0], b[0]);
      EventsInjective(hash, timeline, a[1..], b[1..]);
    }
  }

  lemma {:induction false} EventsLength(hash: Hash, timeline: bytes, events: seq<Event>)
    requires Digests(hash) && |timeline| == 16 && forall i | 0 <= i < |events| :: WellFormedEvent(events[i])
    ensures |EventsBytes(hash, timeline, events)| == 120 * |events|
  {
    hide EventBytes, WellFormedEvent;
    if events != [] {
      EventLength(hash, timeline, events[0]);
      EventsLength(hash, timeline, events[1..]);
    }
  }

  lemma CheckpointLength(s: Stream)
    requires WellFormed(s)
    ensures |CheckpointBytes(s)| == 80
  {
  }

  lemma CheckpointInjective(a: Stream, b: Stream)
    requires WellFormed(a) && WellFormed(b) && CheckpointBytes(a) == CheckpointBytes(b)
    ensures a.timeline == b.timeline && a.checkpoint == b.checkpoint && a.checkpointSize == b.checkpointSize
  {
    hide U64, FoldCursor;
    var (m, n) := (FoldCursor(a), FoldCursor(b));
    var p, q := a.checkpoint + U64(a.checkpointSize), b.checkpoint + U64(b.checkpointSize);
    SameSplit(U64(1), U64(1), a.timeline + (U64(m) + (U64(0) + p)), b.timeline + (U64(n) + (U64(0) + q)));
    SameSplit(a.timeline, b.timeline, U64(m) + (U64(0) + p), U64(n) + (U64(0) + q));
    SameSplit(U64(m), U64(n), U64(0) + p, U64(0) + q);
    SameSplit(U64(0), U64(0), p, q);
    SameSplit(a.checkpoint, b.checkpoint, U64(a.checkpointSize), U64(b.checkpointSize));
    U64Injective(a.checkpointSize, b.checkpointSize);
  }

  function FailureHead(s: Stream): (r: bytes)
    requires WellFormed(s)
    ensures |r| == 72
  {
    U64(1) + s.timeline + U64(FoldCursor(s)) + U64(0) + U32(0) + U64(|DRIVER|) + DRIVER + U32(0) + [1]
  }

  lemma FailureSplits(s: Stream)
    requires WellFormed(s) && s.failure.Some?
    ensures FailureBytes(s) == FailureHead(s) + (U64(|s.failure.value|) + s.failure.value)
    ensures |FailureBytes(s)| > 8
  {
    hide U64, U32, FoldCursor;
  }

  lemma FailureInjective(a: Stream, b: Stream)
    requires WellFormed(a) && WellFormed(b) && FailureBytes(a) == FailureBytes(b)
    ensures a.failure == b.failure
  {
    hide U64, U32, FailureHead;
    if a.failure.Some? { FailureSplits(a); }
    if b.failure.Some? { FailureSplits(b); }
    if a.failure.Some? && b.failure.Some? {
      hide FailureBytes;
      var f, g := a.failure.value, b.failure.value;
      SameSplit(FailureHead(a), FailureHead(b), U64(|f|) + f, U64(|g|) + g);
      SameSplit(U64(|f|), U64(|g|), f, g);
    }
  }

  /** Streams that agree in everything but payloads that hash alike. */
  predicate SameStream(hash: Hash, a: Stream, b: Stream) {
    && a.timeline == b.timeline && a.checkpoint == b.checkpoint && a.checkpointSize == b.checkpointSize
    && a.failure == b.failure && |a.events| == |b.events|
    && forall i | 0 <= i < |a.events| :: SameEvent(hash, a.events[i], b.events[i])
  }

  lemma {:induction false} SameEventsFrameAlike(hash: Hash, timeline: bytes, a: seq<Event>, b: seq<Event>)
    requires |a| == |b| && forall i | 0 <= i < |a| :: SameEvent(hash, a[i], b[i])
    ensures EventsBytes(hash, timeline, a) == EventsBytes(hash, timeline, b)
  {
    hide U64;
    if a != [] {
      assert SameEvent(hash, a[0], b[0]);
      SameEventsFrameAlike(hash, timeline, a[1..], b[1..]);
    }
  }

  lemma SameStreamsFrameAlike(hash: Hash, a: Stream, b: Stream)
    requires SameStream(hash, a, b)
    ensures Preimage(hash, a) == Preimage(hash, b)
  {
    hide U64, U32, EventsBytes;
    SameEventsFrameAlike(hash, a.timeline, a.events, b.events);
    assert FoldCursor(a) == FoldCursor(b) by {
      assert a.events != [] ==> SameEvent(hash, a.events[|a.events| - 1], b.events[|b.events| - 1]);
    }
  }

  lemma OnePreimageOneStream(hash: Hash, a: Stream, b: Stream)
    requires Digests(hash) && WellFormed(a) && WellFormed(b) && Preimage(hash, a) == Preimage(hash, b)
    ensures SameStream(hash, a, b)
  {
    hide U64, EventsBytes, CheckpointBytes, FailureBytes, SameEvent, WellFormedEvent;
    var x, y := EventsBytes(hash, a.timeline, a.events), EventsBytes(hash, b.timeline, b.events);
    var p, q := CheckpointBytes(a) + FailureBytes(a), CheckpointBytes(b) + FailureBytes(b);
    SameSplit(U64(|a.events|), U64(|b.events|), x + p, y + q);
    U64Injective(|a.events|, |b.events|);
    EventsLength(hash, a.timeline, a.events);
    EventsLength(hash, b.timeline, b.events);
    SameSplit(x, y, p, q);
    CheckpointLength(a);
    CheckpointLength(b);
    SameSplit(CheckpointBytes(a), CheckpointBytes(b), FailureBytes(a), FailureBytes(b));
    CheckpointInjective(a, b);
    FailureInjective(a, b);
    EventsInjective(hash, a.timeline, a.events, b.events);
  }

  /** The framing is injective up to payload hashes: no two different results share a preimage. */
  lemma PreimageInjective(hash: Hash, a: Stream, b: Stream)
    requires Digests(hash) && WellFormed(a) && WellFormed(b)
    ensures Preimage(hash, a) == Preimage(hash, b) <==> SameStream(hash, a, b)
  {
    hide *;
    if Preimage(hash, a) == Preimage(hash, b) {
      OnePreimageOneStream(hash, a, b);
    }
    if SameStream(hash, a, b) {
      SameStreamsFrameAlike(hash, a, b);
    }
  }

  /** A recomputed stream: events numbered from 1 on the all-zero timeline. */
  function Recomputed(o: Outcome, identity: bytes, schema: bytes, checkpoint: bytes, size: nat): Stream {
    Stream(seq(16, i => 0),
           seq(|o.payloads|, i requires 0 <= i < |o.payloads| => Event(i + 1, identity, schema, o.payloads[i])),
           checkpoint, size, o.failure)
  }

  /** One result digest means one run: as many events, payloads that hash alike, the same failure. */
  lemma RunsWithOnePreimage(
    hash: Hash, s: Script, t: Script, m: nat, n: nat, identity: bytes, schema: bytes,
    check: bytes, size: nat, check': bytes, size': nat)
    requires Digests(hash) && |identity| == 32 && |schema| == 32
    requires |check| == 32 && Fits64(size) && |check'| == 32 && Fits64(size')
    requires Fits64(|Run(s, m).payloads|) && Fits64(|Run(t, n).payloads|)
    requires Preimage(hash, Recomputed(Run(s, m), identity, schema, check, size))
          == Preimage(hash, Recomputed(Run(t, n), identity, schema, check', size'))
    ensures var (p, q) := (Run(s, m).payloads, Run(t, n).payloads);
      |p| == |q| && forall i | 0 <= i < |p| :: hash(p[i]) == hash(q[i])
    ensures FailsBy(s, m) <==> FailsBy(t, n)
  {
    hide Preimage;
    var a := Recomputed(Run(s, m), identity, schema, check, size);
    var b := Recomputed(Run(t, n), identity, schema, check', size');
    PreimageInjective(hash, a, b);
    var p, q := Run(s, m).payloads, Run(t, n).payloads;
    assert |a.events| == |p| && |b.events| == |q|;
    forall i | 0 <= i < |p| ensures hash(p[i]) == hash(q[i]) {
      assert SameEvent(hash, a.events[i], b.events[i]);
    }
  }

  // ----- Where the framed fields stand -----

  predicate Field(data: bytes, at: nat, piece: bytes) { at + |piece| <= |data| && data[at..at + |piece|] == piece }

  lemma FieldSplits(data: bytes, at: nat, a: bytes, b: bytes)
    ensures Field(data, at, a + b) <==> Field(data, at, a) && Field(data, at + |a|, b)
  {
    if Field(data, at, a + b) {
      assert data[at..at + |a|] == data[at..at + |a + b|][..|a|];
      assert data[at + |a|..at + |a + b|] == data[at..at + |a + b|][|a|..];
    }
    if Field(data, at, a) && Field(data, at + |a|, b) {
      assert data[at..at + |a + b|] == data[at..at + |a|] + data[at + |a|..at + |a + b|];
    }
  }

  /** An event takes 120 bytes: its timeline, number, identity, schema and the hash of its payload. */
  predicate EventAt(hash: Hash, data: bytes, at: nat, timeline: bytes, e: Event) {
    && Field(data, at, timeline) && Field(data, at + 16, BigEndian(e.seqNo, 8)) && Field(data, at + 24, e.identity)
    && Field(data, at + 56, e.schema) && Field(data, at + 88, hash(e.payload))
  }

  lemma EventStands(hash: Hash, data: bytes, at: nat, timeline: bytes, e: Event)
    requires Digests(hash) && WellFormedEvent(e) && |timeline| == 16
    requires Field(data, at, EventBytes(hash, timeline, e))
    ensures EventAt(hash, data, at, timeline, e)
  {
    hide Field, BigEndian;
    FieldSplits(data, at, timeline, U64(e.seqNo) + EventTail(hash, e));
    FieldSplits(data, at + 16, U64(e.seqNo), EventTail(hash, e));
    FieldSplits(data, at + 24, e.identity, e.schema + hash(e.payload));
    FieldSplits(data, at + 56, e.schema, hash(e.payload));
  }

  lemma {:induction false} EventsStand(hash: Hash, data: bytes, at: nat, timeline: bytes, events: seq<Event>, i: nat)
    requires Digests(hash) && |timeline| == 16 && i < |events|
    requires forall k | 0 <= k < |events| :: WellFormedEvent(events[k])
    requires Field(data, at, EventsBytes(hash, timeline, events))
    ensures EventAt(hash, data, at + 120 * i, timeline, events[i])
    decreases |events|
  {
    hide Field, EventBytes, EventAt, WellFormedEvent;
    EventLength(hash, timeline, events[0]);
    FieldSplits(data, at, EventBytes(hash, timeline, events[0]), EventsBytes(hash, timeline, events[1..]));
    if i == 0 {
      EventStands(hash, data, at, timeline, events[0]);
    } else {
      EventsStand(hash, data, at + 120, timeline, events[1..], i - 1);
    }
  }

  /** One checkpoint of 80 bytes: its timeline, the number of the last event, tick 0, its hash and
      its size. */
  predicate CheckpointAt(data: bytes, at: nat, s: Stream) {
    && Field(data, at, BigEndian(1, 8)) && Field(data, at + 8, s.timeline)
    && Field(data, at + 24, BigEndian(FoldCursor(s), 8)) && Field(data, at + 32, BigEndian(0, 8))
    && Field(data, at + 40, s.checkpoint) && Field(data, at + 72, BigEndian(s.checkpointSize, 8))
  }

  lemma CheckpointStands(data: bytes, at: nat, s: Stream)
    requires WellFormed(s) && Field(data, at, CheckpointBytes(s))
    ensures CheckpointAt(data, at, s)
  {
    hide Field, BigEndian, FoldCursor;
    var tail := s.checkpoint + U64(s.checkpointSize);
    var cursor := U64(FoldCursor(s));
    FieldSplits(data, at, U64(1), s.timeline + (cursor + (U64(0) + tail)));
    FieldSplits(data, at + 8, s.timeline, cursor + (U64(0) + tail));
    FieldSplits(data, at + 24, cursor, U64(0) + tail);
    FieldSplits(data, at + 32, U64(0), tail);
    FieldSplits(data, at + 40, s.checkpoint, U64(s.checkpointSize));
  }

  /** No failure, or one: its timeline, the number of the last event, tick 0, position 0, its driver,
      ordinal 0, tag 1 and its code; driver and code stand behind their lengths. */
  predicate FailureAt(data: bytes, at: nat, s: Stream) {
    if s.failure.None? then Field(data, at, BigEndian(0, 8)) && |data| == at + 8
    else
      && Field(data, at, BigEndian(1, 8)) && Field(data, at + 8, s.timeline)
      && Field(data, at + 24, BigEndian(FoldCursor(s), 8)) && Field(data, at + 32, BigEndian(0, 8))
      && Field(data, at + 40, BigEndian(0, 4)) && Field(data, at + 44, BigEndian(15, 8))
      && Field(data, at + 52, DRIVER) && Field(data, at + 67, BigEndian(0, 4)) && Field(data, at + 71, [1])
      && Field(data, at + 72, BigEndian(|s.failure.value|, 8)) && Field(data, at + 80, s.failure.value)
      && |data| == at + 80 + |s.failure.value|
  }

  lemma FailureStands(data: bytes, at: nat, s: Stream)
    requires WellFormed(s) && Field(data, at, FailureBytes(s)) && |data| == at + |FailureBytes(s)|
    ensures FailureAt(data, at, s)
  {
    assert |DRIVER| == 15;
    hide Field, BigEndian, FoldCursor, DRIVER;
    if s.failure.Some? {
      FailureSplits(s);
      var rest := U64(|s.failure.value|) + s.failure.value;
      FieldSplits(data, at, FailureHead(s), rest);
      FieldSplits(data, at + 72, U64(|s.failure.value|), s.failure.value);
      FailureHeadStands(data, at, s);
    }
  }

  lemma FailureHeadStands(data: bytes, at: nat, s: Stream)
    requires WellFormed(s) && Field(data, at, FailureHead(s))
    ensures Field(data, at, U64(1)) && Field(data, at + 8, s.timeline) && Field(data, at + 24, U64(FoldCursor(s)))
    ensures Field(data, at + 32, U64(0)) && Field(data, at + 40, U32(0)) && Field(data, at + 44, U64(15))
    ensures Field(data, at + 52, DRIVER) && Field(data, at + 67, U32(0)) && Field(data, at + 71, [1])
  {
    assert |DRIVER| == 15;
    hide Field, U64, U32, FoldCursor, DRIVER;
    var (a, b, c, d, e) := (U64(1), s.timeline, U64(FoldCursor(s)), U64(0), U32(0));
    var (f, g, h) := (U64(15), DRIVER, U32(0));
    FieldSplits(data, at, a + b + c + d + e + f + g + h, [1]);
    FieldSplits(data, at, a + b + c + d + e + f + g, h);
    FieldSplits(data, at, a + b + c + d + e + f, g);
    FieldSplits(data, at, a + b + c + d + e, f);
    FieldSplits(data, at, a + b + c + d, e);
    FieldSplits(data, at, a + b + c, d);
    FieldSplits(data, at, a + b, c);
    FieldSplits(data, at, a, b);
  }

  /** Where everything stands: the count of events, the events, the checkpoint, the failures. */
  lemma PreimageLayout(hash: Hash, s: Stream)
    requires Digests(hash) && WellFormed(s)
    ensures var (data, end) := (Preimage(hash, s), 8 + 120 * |s.events|);
      && Field(data, 0, BigEndian(|s.events|, 8))
      && (forall i | 0 <= i < |s.events| :: EventAt(hash, data, 8 + 120 * i, s.timeline, s.events[i]))
      && CheckpointAt(data, end, s) && FailureAt(data, end + 80, s)
  {
    hide EventsBytes, CheckpointBytes, FailureBytes, BigEndian;
    hide EventAt, CheckpointAt, FailureAt, Field, WellFormedEvent;
    var data, events := Preimage(hash, s), EventsBytes(hash, s.timeline, s.events);
    var end := 8 + 120 * |s.events|;
    WholeField(data);
    EventsLength(hash, s.timeline, s.events);
    CheckpointLength(s);
    FieldSplits(data, 0, U64(|s.events|), events + (CheckpointBytes(s) + FailureBytes(s)));
    FieldSplits(data, 8, events, CheckpointBytes(s) + FailureBytes(s));
    FieldSplits(data, end, CheckpointBytes(s), FailureBytes(s));
    forall i | 0 <= i < |s.events| ensures EventAt(hash, data, 8 + 120 * i, s.timeline, s.events[i]) {
      EventsStand(hash, data, 8, s.timeline, s.events, i);
    }
    CheckpointStands(data, end, s);
    FailureStands(data, end + 80, s);
  }

  lemma WholeField(data: bytes)
    ensures Field(data, 0, data)
  {
    assert data[0..|data|] == data;
  }
}
