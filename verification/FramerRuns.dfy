/** Every run of the framer: arrivals, decode calls and limit changes in any order. */
module FramerRuns {
  import opened Bytes
  import opened LengthCodec
  import opened Framing

  datatype Event = Arrive(chunk: seq<byte>) | Decode | SetMax(max: nat)

  /** A frame handed out: its start in the received stream, and how many events preceded the reading of its head. */
  datatype Emission = Emission(start: nat, headAt: nat, payload: seq<byte>)

  /** The codec and its buffer, with the history needed to state what a run keeps. */
  datatype Trace = Trace(
    cfg: Config, state: DecodeState, buf: seq<byte>,
    emitted: seq<Emission>, start: nat, headAt: nat)

  function Step(t: Trace, ev: Event, clock: nat): Trace {
    match ev
    case Arrive(chunk) => t.(buf := t.buf + chunk)
    case SetMax(m) => t.(cfg := t.cfg.(maxFrameLen := m))
    case Decode =>
      var d := DecodeStep(t.cfg, t.state, t.buf);
      var took := d.result.Ok? && d.result.value.Some?;
      var headAt := if t.state.Head? && (took || d.state.Data?) then clock else t.headAt;
      var u := t.(state := d.state, buf := d.buf, headAt := headAt);
      if took then
        var frame := d.result.value.value;
        u.(emitted := t.emitted + [Emission(t.start, headAt, frame)],
           start := t.start + t.cfg.NumSkip() + |frame|)
      else u
  }

  function Exec(c: Config, evs: seq<Event>): Trace {
    if evs == [] then Trace(c, Head, [], [], 0, 0)
    else Step(Exec(c, evs[..|evs| - 1]), evs[|evs| - 1], |evs| - 1)
  }

  // ---------------------------------------------------------------- what the events alone determine

  function Received(evs: seq<Event>): seq<byte> {
    if evs == [] then []
    else
      var last := evs[|evs| - 1];
      Received(evs[..|evs| - 1]) + if last.Arrive? then last.chunk else []
  }

  /** The maximum in force after the events. */
  function MaxAfter(c: Config, evs: seq<Event>): nat {
    if evs == [] then c.maxFrameLen
    else
      var last := evs[|evs| - 1];
      if last.SetMax? then last.max else MaxAfter(c, evs[..|evs| - 1])
  }

  /** The decode call after `headAt` events read a head that had arrived at `start`, for a payload of `n` bytes. */
  predicate HeadReadAt(c: Config, evs: seq<Event>, start: nat, headAt: nat, n: nat) {
    var stream := Received(evs);
    && start + c.NumHeadBytes() <= |stream|
    && headAt < |evs| && evs[headAt].Decode?
    && start + c.NumHeadBytes() <= |Received(evs[..headAt])|
    && LengthField(c, stream[start..]) + c.adjustment == n
    && LengthField(c, stream[start..]) <= MaxAfter(c, evs[..headAt])
  }

  function End(c: Config, e: Emission): nat {
    e.start + c.NumSkip() + |e.payload|
  }

  /** The frame lies `NumSkip` bytes after its start, as long as its head says, under the limit then in force. */
  predicate Accounted(c: Config, evs: seq<Event>, e: Emission) {
    && HeadReadAt(c, evs, e.start, e.headAt, |e.payload|)
    && End(c, e) <= |Received(evs)|
    && e.payload == Received(evs)[e.start + c.NumSkip()..End(c, e)]
  }

  /** Frames follow one another without gap or overlap, from the first byte of the stream up to `upTo`. */
  predicate Contiguous(c: Config, emitted: seq<Emission>, upTo: nat) {
    if emitted == [] then upTo == 0
    else
      var last := emitted[|emitted| - 1];
      End(c, last) == upTo && Contiguous(c, emitted[..|emitted| - 1], last.start)
  }

  /** The buffer holds exactly the bytes not yet skipped or handed out. */
  predicate BufferIsRest(c: Config, evs: seq<Event>, t: Trace) {
    var stream := Received(evs);
    match t.state
    case Head => t.start <= |stream| && t.buf == stream[t.start..]
    case Data(n) =>
      && HeadReadAt(c, evs, t.start, t.headAt, n)
      && t.buf == stream[t.start + c.NumSkip()..]
  }

  predicate RunInvariant(c: Config, evs: seq<Event>, t: Trace) {
    && t.cfg == c.(maxFrameLen := MaxAfter(c, evs))
    && (forall e <- t.emitted :: Accounted(c, evs, e))
    && Contiguous(c, t.emitted, t.start)
    && BufferIsRest(c, evs, t)
  }

  // ---------------------------------------------------------------- every step keeps the invariant

  /** What was read of the stream does not change when events are added. */
  lemma HeadStaysRead(c: Config, evs: seq<Event>, ev: Event, start: nat, headAt: nat, n: nat)
    requires c.Valid() && HeadReadAt(c, evs, start, headAt, n)
    ensures HeadReadAt(c, evs + [ev], start, headAt, n)
  {
    var all := evs + [ev];
    assert all[..|all| - 1] == evs;
    assert all[..headAt] == evs[..headAt];
    var more := if ev.Arrive? then ev.chunk else [];
    assert Received(all)[start..] == Received(evs)[start..] + more;
    HeadIsStable(c, Received(evs)[start..], more);
  }

  lemma AccountedStays(c: Config, evs: seq<Event>, ev: Event, e: Emission)
    requires c.Valid() && Accounted(c, evs, e)
    ensures Accounted(c, evs + [ev], e)
  {
    var all := evs + [ev];
    assert all[..|all| - 1] == evs;
    HeadStaysRead(c, evs, ev, e.start, e.headAt, |e.payload|);
    assert Received(all)[e.start + c.NumSkip()..End(c, e)] == Received(evs)[e.start + c.NumSkip()..End(c, e)];
  }

  /** What a decode call does once the payload length is known. */
  function TakeBody(t: Trace, n: nat, headAt: nat, body: seq<byte>): Trace {
    if |body| < n then t.(state := Data(n), buf := body, headAt := headAt)
    else t.(state := Head, buf := body[n..], headAt := headAt,
            emitted := t.emitted + [Emission(t.start, headAt, body[..n])],
            start := t.start + t.cfg.NumSkip() + n)
  }

  lemma DecodeTakesBody(t: Trace, clock: nat)
    ensures t.state.Data? ==> Step(t, Decode, clock) == TakeBody(t, t.state.n, t.headAt, t.buf)
    ensures t.state.Head? ==>
              if |t.buf| >= t.cfg.NumHeadBytes() && ReadHead(t.cfg, t.buf).Accept? then
                Step(t, Decode, clock) == TakeBody(t, ReadHead(t.cfg, t.buf).n, clock, t.buf[t.cfg.NumSkip()..])
              else Step(t, Decode, clock) == t
  {
  }

  lemma HeadHasArrived(c: Config, evs: seq<Event>, start: nat, headAt: nat, n: nat)
    requires HeadReadAt(c, evs, start, headAt, n)
    ensures start + c.NumSkip() <= |Received(evs)|
  {
  }

  lemma ContiguousExtends(c: Config, emitted: seq<Emission>, e: Emission)
    requires Contiguous(c, emitted, e.start)
    ensures Contiguous(c, emitted + [e], End(c, e))
  {
    assert (emitted + [e])[..|emitted|] == emitted;
  }

  /** A body that is complete makes a frame that is accounted for. */
  lemma FrameIsAccounted(c: Config, evs: seq<Event>, start: nat, headAt: nat, n: nat)
    requires HeadReadAt(c, evs, start, headAt, n) && start + c.NumSkip() + n <= |Received(evs)|
    ensures var body := Received(evs)[start + c.NumSkip()..];
            Accounted(c, evs, Emission(start, headAt, body[..n]))
  {
    hide HeadReadAt, Received;
    SliceOfRest(Received(evs), start + c.NumSkip(), n);
  }

  lemma TakeBodyLeavesRest(c: Config, evs: seq<Event>, t: Trace, n: nat, headAt: nat, body: seq<byte>)
    requires t.cfg.NumSkip() == c.NumSkip()
    requires HeadReadAt(c, evs, t.start, headAt, n)
    requires body == Received(evs)[t.start + c.NumSkip()..]
    ensures BufferIsRest(c, evs, TakeBody(t, n, headAt, body))
  {
    HeadHasArrived(c, evs, t.start, headAt, n);
    hide HeadReadAt, Received;
    if |body| >= n {
      SliceOfRest(Received(evs), t.start + c.NumSkip(), n);
    }
  }

  lemma TakeBodyAccounts(c: Config, evs: seq<Event>, t: Trace, n: nat, headAt: nat, body: seq<byte>)
    requires t.cfg.NumSkip() == c.NumSkip()
    requires (forall e <- t.emitted :: Accounted(c, evs, e)) && Contiguous(c, t.emitted, t.start)
    requires HeadReadAt(c, evs, t.start, headAt, n)
    requires body == Received(evs)[t.start + c.NumSkip()..]
    ensures var u := TakeBody(t, n, headAt, body);
            (forall e <- u.emitted :: Accounted(c, evs, e)) && Contiguous(c, u.emitted, u.start)
  {
    HeadHasArrived(c, evs, t.start, headAt, n);
    hide HeadReadAt, Received, Accounted, Contiguous;
    if |body| >= n {
      FrameIsAccounted(c, evs, t.start, headAt, n);
      ContiguousExtends(c, t.emitted, Emission(t.start, headAt, body[..n]));
    }
  }

  /** Once the head is read, the invariant holds whether the body is complete or not. */
  lemma TakeBodyKeeps(c: Config, evs: seq<Event>, t: Trace, n: nat, headAt: nat, body: seq<byte>)
    requires c.Valid() && RunInvariant(c, evs, t)
    requires HeadReadAt(c, evs, t.start, headAt, n)
    requires body == Received(evs)[t.start + c.NumSkip()..]
    ensures RunInvariant(c, evs, TakeBody(t, n, headAt, body))
  {
    hide HeadReadAt, Received, MaxAfter, Accounted, Contiguous, BufferIsRest;
    TakeBodyLeavesRest(c, evs, t, n, headAt, body);
    TakeBodyAccounts(c, evs, t, n, headAt, body);
  }

  /** A decode call that has not acted yet changes nothing. */
  lemma ClockKeeps(c: Config, evs: seq<Event>, t: Trace)
    requires c.Valid() && RunInvariant(c, evs, t)
    ensures RunInvariant(c, evs + [Decode], t)
  {
    DecodeReceivesNothing(c, evs);
    forall e <- t.emitted ensures Accounted(c, evs + [Decode], e) {
      AccountedStays(c, evs, Decode, e);
    }
    if t.state.Data? {
      HeadStaysRead(c, evs, Decode, t.start, t.headAt, t.state.n);
    }
  }

  lemma DecodeKeeps(c: Config, evs: seq<Event>, t: Trace)
    requires c.Valid() && RunInvariant(c, evs, t)
    ensures RunInvariant(c, evs + [Decode], Step(t, Decode, |evs|))
  {
    var all := evs + [Decode];
    ClockKeeps(c, evs, t);
    DecodeTakesBody(t, |evs|);
    if t.state.Data? {
      TakeBodyKeeps(c, all, t, t.state.n, t.headAt, t.buf);
    } else if |t.buf| >= t.cfg.NumHeadBytes() && ReadHead(t.cfg, t.buf).Accept? {
      AcceptedHeadIsRead(c, evs, t);
      TakeBodyKeeps(c, all, t, ReadHead(t.cfg, t.buf).n, |evs|, t.buf[t.cfg.NumSkip()..]);
    }
  }

  lemma AcceptedHeadIsRead(c: Config, evs: seq<Event>, t: Trace)
    requires c.Valid() && t.cfg == c.(maxFrameLen := MaxAfter(c, evs)) && BufferIsRest(c, evs, t)
    requires t.state.Head? && |t.buf| >= t.cfg.NumHeadBytes() && ReadHead(t.cfg, t.buf).Accept?
    ensures HeadReadAt(c, evs + [Decode], t.start, |evs|, ReadHead(t.cfg, t.buf).n)
    ensures t.buf[t.cfg.NumSkip()..] == Received(evs + [Decode])[t.start + c.NumSkip()..]
  {
    DecodeReceivesNothing(c, evs);
    LimitLeavesField(c, MaxAfter(c, evs), t.buf);
  }

  lemma DecodeReceivesNothing(c: Config, evs: seq<Event>)
    ensures Received(evs + [Decode]) == Received(evs)
    ensures (evs + [Decode])[..|evs|] == evs
  {
    assert (evs + [Decode])[..|evs|] == evs;
    assert Received(evs) + [] == Received(evs);
  }

  lemma LimitLeavesField(c: Config, max: nat, b: seq<byte>)
    requires |b| >= c.NumHeadBytes()
    ensures var d := c.(maxFrameLen := max);
            d.NumHeadBytes() == c.NumHeadBytes() && d.NumSkip() == c.NumSkip() && LengthField(d, b) == LengthField(c, b)
  {
  }

  lemma ArrivalOrLimitKeeps(c: Config, evs: seq<Event>, t: Trace, ev: Event)
    requires c.Valid() && RunInvariant(c, evs, t) && !ev.Decode?
    ensures RunInvariant(c, evs + [ev], Step(t, ev, |evs|))
  {
    hide Accounted, HeadReadAt, DecodeStep;
    var all := evs + [ev];
    assert all[..|all| - 1] == evs;
    forall e <- t.emitted ensures Accounted(c, all, e) {
      AccountedStays(c, evs, ev, e);
    }
    var more := if ev.Arrive? then ev.chunk else [];
    assert Received(all) == Received(evs) + more;
    assert t.buf + [] == t.buf;
    match t.state {
      case Head =>
        RestOfAppended(Received(evs), more, t.start);
      case Data(n) =>
        HeadStaysRead(c, evs, ev, t.start, t.headAt, n);
        HeadHasArrived(c, evs, t.start, t.headAt, n);
        RestOfAppended(Received(evs), more, t.start + c.NumSkip());
    }
  }

  /**
    * Conservation and the limit in force, over every run: whatever the order of arrivals, decode calls and limit
    * changes, the received bytes are, in order, the frames handed out (each after its skipped head bytes), the
    * skipped bytes of a head already read, and the buffer; and each frame's raw length was within the maximum in
    * force when its head was read, whatever the maximum became afterwards.
    */
  lemma {:induction false} EveryRunKeeps(c: Config, evs: seq<Event>)
    requires c.Valid()
    ensures RunInvariant(c, evs, Exec(c, evs))
  {
    if evs != [] {
      var before, ev := evs[..|evs| - 1], evs[|evs| - 1];
      EveryRunKeeps(c, before);
      assert before + [ev] == evs;
      if ev.Decode? {
        DecodeKeeps(c, before, Exec(c, before));
      } else {
        ArrivalOrLimitKeeps(c, before, Exec(c, before), ev);
      }
    }
  }

  // ---------------------------------------------------------------- a frame already begun

  /** Events after a state, counted on from `clock`. */
  function ExecFrom(t: Trace, evs: seq<Event>, clock: nat): Trace {
    if evs == [] then t
    else Step(ExecFrom(t, evs[..|evs| - 1], clock), evs[|evs| - 1], clock + |evs| - 1)
  }

  lemma {:induction false} WaitingOnlyBuffers(t: Trace, evs: seq<Event>, clock: nat)
    requires forall e <- evs :: !e.Decode?
    ensures var u := ExecFrom(t, evs, clock);
            && u == t.(cfg := u.cfg, buf := t.buf + Received(evs))
            && u.cfg == t.cfg.(maxFrameLen := u.cfg.maxFrameLen)
  {
    if evs == [] {
      assert t.buf + [] == t.buf;
    } else {
      var before, ev := evs[..|evs| - 1], evs[|evs| - 1];
      WaitingOnlyBuffers(t, before, clock);
      Regroup(t.buf, Received(before), if ev.Arrive? then ev.chunk else []);
      assert ev in evs;
    }
  }

  /**
    * A frame whose head was read is unaffected by later changes of the maximum: after any arrivals and changes the
    * next decode call does what it would have done had the same bytes arrived under the old maximum.
    */
  lemma PendingFrameUnaffected(t: Trace, evs: seq<Event>, clock: nat)
    requires t.state.Data? && forall e <- evs :: !e.Decode?
    ensures var u := ExecFrom(t, evs, clock);
            var v := t.(buf := t.buf + Received(evs));
            Step(u, Decode, clock + |evs|) == Step(v, Decode, clock + |evs|).(cfg := u.cfg)
  {
    WaitingOnlyBuffers(t, evs, clock);
  }
}
