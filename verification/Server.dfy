/** The forwarding loops of one connection, over every way the bytes may arrive and the tasks may interleave. */
module Server {
  import opened Outcomes
  import opened Bytes
  import opened Requests
  import opened Responses
  import opened LengthCodec
  import opened Framing
  import opened Codec
  import opened PacketCodecs

  // ---------------------------------------------------------------- frames and what is sent for them

  predicate Accepted(frame: seq<byte>) {
    DecodeInner(frame).Ok?
  }

  function PacketOf(frame: seq<byte>): RequestPacket
    requires Accepted(frame)
  {
    DecodeInner(frame).value.0
  }

  /** The frames the client side re-encodes, one after the other. */
  function Reencoded(frames: seq<seq<byte>>): seq<byte>
    requires forall f <- frames :: Accepted(f)
  {
    if frames == [] then [] else ClientFrame(PacketOf(frames[0])) + Reencoded(frames[1..])
  }

  /** The opcode table after encoding the packets of the frames in order. */
  function RecordedAll(table: Opcodes, frames: seq<seq<byte>>): Opcodes
    requires forall f <- frames :: Accepted(f)
  {
    if frames == [] then table
    else Recorded(RecordedAll(table, frames[..|frames| - 1]), PacketOf(frames[|frames| - 1]))
  }

  /** The longest prefix whose elements all pass the test. */
  function FrontWhile<T>(ok: T -> bool, s: seq<T>): (p: seq<T>)
    ensures forall x <- p :: ok(x)
    ensures p <= s
    ensures |p| < |s| ==> !ok(s[|p|])
  {
    if s == [] || !ok(s[0]) then [] else [s[0]] + FrontWhile(ok, s[1..])
  }

  /** The frames up to the first that is not accepted. */
  function AcceptedPrefix(frames: seq<seq<byte>>): (p: seq<seq<byte>>)
    ensures forall f <- p :: Accepted(f)
    ensures p <= frames
    ensures |p| < |frames| ==> !Accepted(frames[|p|])
  {
    FrontWhile(Accepted, frames)
  }

  lemma {:induction false} ReencodedAppends(frames: seq<seq<byte>>, last: seq<byte>)
    requires forall f <- frames :: Accepted(f)
    requires Accepted(last)
    ensures forall f <- frames + [last] :: Accepted(f)
    ensures Reencoded(frames + [last]) == Reencoded(frames) + ClientFrame(PacketOf(last))
  {
    hide Accepted, PacketOf, ClientFrame;
    if frames == [] {
      var single: seq<seq<byte>> := [last];
      assert frames + [last] == single && single[1..] == [];
      assert Reencoded(single) == ClientFrame(PacketOf(last)) + [];
    } else {
      assert (frames + [last])[1..] == frames[1..] + [last];
      ReencodedAppends(frames[1..], last);
      Regroup(ClientFrame(PacketOf(frames[0])), Reencoded(frames[1..]), ClientFrame(PacketOf(last)));
    }
  }

  lemma {:induction false} FrameAllAppends(frames: seq<seq<byte>>, last: seq<byte>)
    ensures FrameAll(REPO, frames + [last]) == FrameAll(REPO, frames) + (HeadFor(REPO, |last|) + last)
  {
    hide HeadFor;
    if frames == [] {
      var single: seq<seq<byte>> := [last];
      assert frames + [last] == single && single[1..] == [];
      assert FrameAll(REPO, single) == HeadFor(REPO, |last|) + last + [];
    } else {
      assert (frames + [last])[1..] == frames[1..] + [last];
      FrameAllAppends(frames[1..], last);
      Regroup(HeadFor(REPO, |frames[0]|) + frames[0], FrameAll(REPO, frames[1..]), HeadFor(REPO, |last|) + last);
    }
  }

  lemma RecordedAllAppends(table: Opcodes, frames: seq<seq<byte>>, last: seq<byte>)
    requires forall f <- frames :: Accepted(f)
    requires Accepted(last)
    ensures forall f <- frames + [last] :: Accepted(f)
    ensures RecordedAll(table, frames + [last]) == Recorded(RecordedAll(table, frames), PacketOf(last))
  {
    hide Accepted, PacketOf, Recorded;
    assert (frames + [last])[..|frames|] == frames;
  }

  // ---------------------------------------------------------------- the upstream loop, step by step

  datatype End = Running | BadHead | Refused(frame: seq<byte>)

  /**
    * The framer state and unread bytes; what was encoded but not yet written and what was written; the opcode table;
    * the frames taken; and whether, and why, the loop ended.
    */
  datatype Up = Up(
    state: DecodeState, inbuf: seq<byte>, out: seq<byte>, sent: seq<byte>,
    table: Opcodes, taken: seq<seq<byte>>, end: End)

  function Fresh(table: Opcodes): Up {
    Up(Head, [], [], [], table, [], Running)
  }

  /** Bytes arrive, the loop makes one decode call, or the socket takes up to `k` bytes of what is being sent. */
  datatype UpEvent = Arrive(chunk: seq<byte>) | Poll | Write(k: nat)

  /** One decode call and, if it gives a packet, its encoding. The loop does not get here while a send is unfinished. */
  function PollOnce(u: Up): Up {
    if u.end != Running || u.out != [] then u
    else
      var d := DecodeStep(REPO, u.state, u.inbuf);
      var v := u.(state := d.state, inbuf := d.buf);
      if d.result.Err? then v.(end := BadHead)
      else
        match d.result.value
        case None => v
        case Some(frame) =>
          if !Accepted(frame) then v.(end := Refused(frame))
          else
            v.(out := ClientFrame(PacketOf(frame)), table := Recorded(u.table, PacketOf(frame)),
               taken := u.taken + [frame])
  }

  function WriteSome(u: Up, k: nat): Up {
    var n := if k < |u.out| then k else |u.out|;
    u.(sent := u.sent + u.out[..n], out := u.out[n..])
  }

  function UpStep(u: Up, ev: UpEvent): Up {
    match ev
    case Arrive(chunk) => u.(inbuf := u.inbuf + chunk)
    case Poll => PollOnce(u)
    case Write(k) => WriteSome(u, k)
  }

  function UpExec(table: Opcodes, evs: seq<UpEvent>): Up {
    if evs == [] then Fresh(table) else UpStep(UpExec(table, evs[..|evs| - 1]), evs[|evs| - 1])
  }

  function Arrived(evs: seq<UpEvent>): seq<byte> {
    if evs == [] then []
    else
      var last := evs[|evs| - 1];
      Arrived(evs[..|evs| - 1]) + if last.Arrive? then last.chunk else []
  }

  // ---------------------------------------------------------------- what every step keeps

  /** Received, and no frame taken for it yet: the head of a frame begun, or a refused frame, and the unread bytes. */
  function Remainder(u: Up): seq<byte> {
    match u.end
    case Running => HeadTaken(REPO, u.state) + u.inbuf
    case BadHead => u.inbuf
    case Refused(frame) => HeadFor(REPO, |frame|) + frame + u.inbuf
  }

  predicate EndAccounted(u: Up) {
    match u.end
    case Running => u.state.Data? ==> u.state.n <= MAX_FRAME
    case BadHead => u.out == [] && |u.inbuf| >= 4 && ReadHead(REPO, u.inbuf).Reject?
    case Refused(frame) => u.out == [] && |frame| <= MAX_FRAME && !Accepted(frame)
  }

  /**
    * The frames taken, as they came, then the remainder, are what was received; re-encoded, they are what was written
    * and what is being written; and the table is what encoding them records.
    */
  predicate UpInvariant(table: Opcodes, received: seq<byte>, u: Up) {
    && (forall f <- u.taken :: Accepted(f) && |f| <= MAX_FRAME)
    && FrameAll(REPO, u.taken) + Remainder(u) == received
    && u.sent + u.out == Reencoded(u.taken)
    && u.table == RecordedAll(table, u.taken)
    && EndAccounted(u)
  }

  /** Having read an acceptable head is no different from being about to read it. */
  lemma HeadThenBody(u: Up)
    requires u.end == Running && u.out == [] && u.state == Head
    requires |u.inbuf| >= 4 && ReadHead(REPO, u.inbuf).Accept?
    ensures var n := ReadHead(REPO, u.inbuf).n;
            var v := u.(state := Data(n), inbuf := u.inbuf[4..]);
            && n <= MAX_FRAME
            && PollOnce(u) == PollOnce(v)
            && Remainder(v) == Remainder(u)
  {
    hide Accepted, PacketOf, ClientFrame, Recorded;
    HeadForWhatWasRead(REPO, u.inbuf);
    CutTwice(u.inbuf, 0, 4);
  }

  /** Moving a frame from the remainder to the frames taken. */
  lemma TakingKeeps(table: Opcodes, received: seq<byte>, u: Up, v: Up, frame: seq<byte>)
    requires UpInvariant(table, received, u) && u.out == []
    requires Accepted(frame) && |frame| <= MAX_FRAME
    requires Remainder(u) == HeadFor(REPO, |frame|) + frame + v.inbuf
    requires v.state == Head && v.end == Running && v.sent == u.sent && v.out == ClientFrame(PacketOf(frame))
    requires v.taken == u.taken + [frame] && v.table == Recorded(u.table, PacketOf(frame))
    ensures UpInvariant(table, received, v)
  {
    hide Accepted, PacketOf, ClientFrame, Recorded, HeadFor;
    FrameAllAppends(u.taken, frame);
    Regroup(FrameAll(REPO, u.taken), HeadFor(REPO, |frame|) + frame, v.inbuf);
    ReencodedAppends(u.taken, frame);
    RecordedAllAppends(table, u.taken, frame);
    assert u.sent + [] == u.sent;
    assert [] + v.inbuf == v.inbuf;
  }

  lemma BodyPollKeeps(table: Opcodes, received: seq<byte>, u: Up, n: nat)
    requires UpInvariant(table, received, u)
    requires u.end == Running && u.out == [] && u.state == Data(n)
    ensures UpInvariant(table, received, PollOnce(u))
  {
    hide Accepted, PacketOf, ClientFrame, Recorded, HeadFor, Reencoded, RecordedAll, FrameAll;
    if |u.inbuf| >= n {
      var frame, left := u.inbuf[..n], u.inbuf[n..];
      assert u.inbuf == frame + left;
      Regroup(HeadFor(REPO, n), frame, left);
      assert Remainder(u) == HeadFor(REPO, n) + frame + left;
      if Accepted(frame) {
        TakingKeeps(table, received, u, PollOnce(u), frame);
      }
    }
  }

  lemma PollKeeps(table: Opcodes, received: seq<byte>, u: Up)
    requires UpInvariant(table, received, u)
    ensures UpInvariant(table, received, PollOnce(u))
  {
    hide Accepted, PacketOf, ClientFrame, Recorded, HeadFor;
    if u.end == Running && u.out == [] {
      match u.state {
        case Data(n) => BodyPollKeeps(table, received, u, n);
        case Head =>
          if |u.inbuf| >= 4 {
            match ReadHead(REPO, u.inbuf) {
              case Accept(n) =>
                HeadThenBody(u);
                BodyPollKeeps(table, received, u.(state := Data(n), inbuf := u.inbuf[4..]), n);
              case Reject(_) =>
                assert [] + u.inbuf == u.inbuf;
            }
          }
      }
    }
  }

  lemma StepKeeps(table: Opcodes, received: seq<byte>, u: Up, ev: UpEvent)
    requires UpInvariant(table, received, u)
    ensures UpInvariant(table, received + if ev.Arrive? then ev.chunk else [], UpStep(u, ev))
  {
    hide Accepted, PacketOf, ClientFrame, Recorded, HeadFor;
    match ev {
      case Arrive(chunk) =>
        Regroup(FrameAll(REPO, u.taken), Remainder(u), chunk);
        match u.end {
          case Running => Regroup(HeadTaken(REPO, u.state), u.inbuf, chunk);
          case BadHead => HeadIsStable(REPO, u.inbuf, chunk);
          case Refused(frame) => Regroup(HeadFor(REPO, |frame|) + frame, u.inbuf, chunk);
        }
      case Poll =>
        assert received + [] == received;
        PollKeeps(table, received, u);
      case Write(k) =>
        assert received + [] == received;
        var n := if k < |u.out| then k else |u.out|;
        assert u.out[..n] + u.out[n..] == u.out;
        Regroup(u.sent, u.out[..n], u.out[n..]);
    }
  }

  /** Every run: arrivals, decode calls and partial writes in any order, ended or not. */
  lemma {:induction false} EveryUpstreamRunKeeps(table: Opcodes, evs: seq<UpEvent>)
    ensures UpInvariant(table, Arrived(evs), UpExec(table, evs))
  {
    hide UpStep, UpInvariant;
    if evs == [] {
      FreshKeeps(table);
    } else {
      var before := evs[..|evs| - 1];
      EveryUpstreamRunKeeps(table, before);
      StepKeeps(table, Arrived(before), UpExec(table, before), evs[|evs| - 1]);
    }
  }

  lemma FreshKeeps(table: Opcodes)
    ensures UpInvariant(table, [], Fresh(table))
  {
    assert FrameAll(REPO, []) + ([] + []) == [];
  }

  // ---------------------------------------------------------------- transparency

  lemma SameFront(x: seq<byte>, y: seq<byte>, rest: seq<byte>)
    ensures x + rest == y + rest <==> x == y
  {
    if x + rest == y + rest {
      assert |x| == |y|;
      assert x == (x + rest)[..|x|] && y == (y + rest)[..|y|];
    }
  }

  /** Two frames with the same bytes up front have the same body. */
  lemma ReencodedFrameSplits(frame: seq<byte>, x: seq<byte>, y: seq<byte>)
    requires Accepted(frame) && |frame| <= MAX_FRAME
    ensures var p := PacketOf(frame);
            ClientFrame(p) + x == HeadFor(REPO, |frame|) + frame + y <==> PacketBytes(p) == frame && x == y
  {
    hide DecodeInner, PacketBytes, PacketSize;
    var p := DecodeInner(frame).value.0;
    ForwardedSize(frame);
    ClientFrameIsFramed(p);
    var n, m := |PacketBytes(p)|, |frame|;
    assert HeadFor(REPO, n) == I32Bytes(n) && HeadFor(REPO, m) == I32Bytes(m);
    var l, r := ClientFrame(p) + x, HeadFor(REPO, m) + frame + y;
    if l == r {
      assert l[..4] == I32Bytes(n) && r[..4] == I32Bytes(m);
      I32RoundTrip(n);
      I32RoundTrip(m);
      assert l[4..4 + n] == PacketBytes(p) && r[4..4 + m] == frame;
      assert l[4 + n..] == x && r[4 + m..] == y;
    }
  }

  /** Forwarding a list of accepted frames reproduces their bytes exactly when every one of them is canonical. */
  lemma {:induction false} ReencodedUnchangedIff(frames: seq<seq<byte>>)
    requires forall f <- frames :: Accepted(f) && |f| <= MAX_FRAME
    ensures Reencoded(frames) == FrameAll(REPO, frames) <==> forall f <- frames :: Canonical(f)
  {
    hide DecodeInner, Canonical, PacketBytes, ClientFrame;
    if frames != [] {
      var f, others := frames[0], frames[1..];
      ReencodedUnchangedIff(others);
      ReencodedFrameSplits(f, Reencoded(others), FrameAll(REPO, others));
      UnchangedIff(f);
      assert forall x <- frames :: x == f || x in others;
    }
  }

  /** Written, still being written, and not yet taken: all the bytes there are. */
  function Delivered(u: Up): seq<byte> {
    u.sent + u.out + Remainder(u)
  }

  /**
    * Transparency, exactly, after every event of every run, ended or not: what was written and is being written,
    * followed by the remainder, is what was received if and only if every frame taken so far is canonical.
    */
  lemma TransparentIff(table: Opcodes, evs: seq<UpEvent>)
    ensures var u := UpExec(table, evs);
            Delivered(u) == Arrived(evs) <==> forall f <- u.taken :: Canonical(f)
  {
    hide Canonical, Accepted, UpExec, Remainder, Reencoded, RecordedAll, FrameAll;
    var u := UpExec(table, evs);
    EveryUpstreamRunKeeps(table, evs);
    ReencodedUnchangedIff(u.taken);
    SameFront(u.sent + u.out, FrameAll(REPO, u.taken), Remainder(u));
  }

  // ---------------------------------------------------------------- the frames taken are those of the simple parser

  lemma PlainFrames(frames: seq<seq<byte>>, tail: seq<byte>)
    requires forall f <- frames :: |f| <= MAX_FRAME
    ensures var rest := Parse(REPO, tail);
            Parse(REPO, FrameAll(REPO, frames) + tail) == rest.(frames := frames + rest.frames)
  {
    Pow256Values();
    FramingRoundTrip(REPO, frames, tail);
  }

  /** What the simple parser makes of the remainder. */
  lemma RemainderParses(u: Up)
    requires EndAccounted(u)
    ensures var r := Parse(REPO, Remainder(u));
            match u.end
            case Running =>
              DecodeStep(REPO, u.state, u.inbuf).result == Ok(None) ==> r.frames == [] && r.error.None?
            case BadHead => r.frames == [] && r.error.Some?
            case Refused(frame) => r.frames != [] && r.frames[0] == frame
  {
    hide Accepted;
    match u.end {
      case Running =>
        match u.state {
          case Head => assert [] + u.inbuf == u.inbuf;
          case Data(n) => BegunFrameParses(n, u.inbuf);
        }
      case BadHead =>
      case Refused(frame) =>
        Pow256Values();
        ParseOneFrame(REPO, frame, u.inbuf);
    }
  }

  lemma BegunFrameParses(n: nat, body: seq<byte>)
    requires n <= MAX_FRAME
    ensures |body| < n ==> Parse(REPO, HeadFor(REPO, n) + body) == Run([], Data(n), body, None)
  {
    hide ReadHead, HeadFor;
    Pow256Values();
    HeadForIsAccepted(REPO, n, body);
    assert (HeadFor(REPO, n) + body)[4..] == body;
  }

  lemma {:induction false} FrontWhileStops<T>(ok: T -> bool, front: seq<T>, more: seq<T>)
    requires forall x <- front :: ok(x)
    requires more == [] || !ok(more[0])
    ensures FrontWhile(ok, front + more) == front
  {
    if front == [] {
      assert front + more == more;
    } else {
      assert (front + more)[1..] == front[1..] + more;
      FrontWhileStops(ok, front[1..], more);
    }
  }

  lemma PrefixOfAccepted(taken: seq<seq<byte>>, more: seq<seq<byte>>)
    requires forall f <- taken :: Accepted(f)
    requires more == [] || !Accepted(more[0])
    ensures AcceptedPrefix(taken + more) == taken
  {
    hide Accepted;
    FrontWhileStops(Accepted, taken, more);
  }

  /** Ended, or written out and waiting for more bytes. */
  predicate Quiet(u: Up) {
    u.out == [] && (u.end == Running ==> DecodeStep(REPO, u.state, u.inbuf).result == Ok(None))
  }

  /** At every point the frames taken are the first the simple parser finds; when quiet, all up to the first refused. */
  lemma TakenAreParsed(table: Opcodes, received: seq<byte>, u: Up)
    requires UpInvariant(table, received, u)
    ensures var r := Parse(REPO, received);
            && u.taken <= r.frames
            && (Quiet(u) ==> u.taken == AcceptedPrefix(r.frames))
            && (Quiet(u) ==> (u.end == Running <==> r.error.None? && u.taken == r.frames))
  {
    hide Accepted, HeadFor, AcceptedPrefix, Reencoded, RecordedAll, Remainder, FrameAll;
    var tail := Parse(REPO, Remainder(u));
    PlainFrames(u.taken, Remainder(u));
    RemainderParses(u);
    if Quiet(u) {
      PrefixOfAccepted(u.taken, tail.frames);
      if u.end == Running {
        assert u.taken + [] == u.taken;
      }
    }
  }

  // ---------------------------------------------------------------- streams of canonical frames

  /** A loop that ended did so for a reason the simple parser sees in the bytes received. */
  lemma EndedForCause(table: Opcodes, received: seq<byte>, u: Up)
    requires UpInvariant(table, received, u)
    ensures u.end == BadHead ==> Parse(REPO, received).error.Some?
    ensures u.end.Refused? ==> u.end.frame in Parse(REPO, received).frames && !Accepted(u.end.frame)
  {
    hide Accepted, HeadFor, Reencoded, RecordedAll, Remainder, FrameAll;
    PlainFrames(u.taken, Remainder(u));
    RemainderParses(u);
    var rest := Parse(REPO, Remainder(u)).frames;
    if u.end.Refused? {
      assert (u.taken + rest)[|u.taken|] == rest[0];
    }
  }

  /** What has arrived of a stream of frames parses to the first of them, without error; to all when it is whole. */
  lemma ArrivedFrames(frames: seq<seq<byte>>, arrived: seq<byte>, later: seq<byte>)
    requires forall f <- frames :: |f| <= MAX_FRAME
    requires arrived + later == FrameAll(REPO, frames)
    ensures Parse(REPO, arrived).error.None?
    ensures Parse(REPO, arrived).frames <= frames
    ensures later == [] ==> Parse(REPO, arrived) == Run(frames, Head, [], None)
  {
    hide Parse, FrameAll, Drain;
    WholeStream(frames);
    FeedExtendsParse(REPO, arrived, later);
    if later == [] {
      assert arrived + [] == arrived;
    }
  }

  lemma WholeStream(frames: seq<seq<byte>>)
    requires forall f <- frames :: |f| <= MAX_FRAME
    ensures Parse(REPO, FrameAll(REPO, frames)) == Run(frames, Head, [], None)
  {
    hide FrameAll;
    PlainFrames(frames, []);
    assert FrameAll(REPO, frames) + [] == FrameAll(REPO, frames);
    assert frames + [] == frames;
  }

  /**
    * A client that sends canonical frames only: after every event the loop is running and nothing is lost, duplicated
    * or reordered; once all has arrived and the loop is quiet, all has been written.
    */
  lemma CanonicalStreamIsTransparent(table: Opcodes, frames: seq<seq<byte>>, evs: seq<UpEvent>, later: seq<byte>)
    requires forall f <- frames :: Canonical(f) && |f| <= 0x10_0000
    requires Arrived(evs) + later == FrameAll(REPO, frames)
    ensures var u := UpExec(table, evs);
            && u.end == Running
            && u.taken <= frames
            && Delivered(u) == Arrived(evs)
            && (later == [] && Quiet(u) ==> u.sent == FrameAll(REPO, frames))
  {
    hide Canonical, Accepted, UpExec, FrameAll, Parse, Reencoded, RecordedAll, Remainder, AcceptedPrefix;
    var u := UpExec(table, evs);
    EveryUpstreamRunKeeps(table, evs);
    ArrivedFrames(frames, Arrived(evs), later);
    EndedForCause(table, Arrived(evs), u);
    if u.end.Refused? {
      CanonicalIsAccepted(u.end.frame);
      StillAccepted(u.end.frame);
    }
    TakenAreParsed(table, Arrived(evs), u);
    TransparentIff(table, evs);
    if later == [] && Quiet(u) {
      assert u.taken == frames;
      ReencodedUnchangedIff(frames);
      assert u.sent + [] == u.sent;
    }
  }

  lemma StillAccepted(f: seq<byte>)
    requires DecodeInner(f).Ok?
    ensures Accepted(f)
  {
    hide DecodeInner;
  }

  // ---------------------------------------------------------------- what the backend receives

  /** What is sent for a frame has a length that fits the `i32` prefix and is at most one over the proxy's own limit. */
  lemma ForwardedBound(frame: seq<byte>)
    requires Accepted(frame) && |frame| <= 0x10_0000
    ensures PacketSize(PacketOf(frame)) <= 0x10_0001
    ensures PacketSize(PacketOf(frame)) == 0x10_0001 ==> PacketOf(frame).request.Connect?
    ensures AsI32(PacketSize(PacketOf(frame))) == PacketSize(PacketOf(frame))
  {
    hide DecodeInner, PacketSize;
    ForwardedSize(frame);
    RequestPrintAfterParse(frame, PacketOf(frame), DecodeInner(frame).value.1);
  }

  function Bodies(frames: seq<seq<byte>>): seq<seq<byte>>
    requires forall f <- frames :: Accepted(f)
  {
    if frames == [] then [] else [PacketBytes(PacketOf(frames[0]))] + Bodies(frames[1..])
  }

  lemma {:induction false} ReencodedIsFramed(frames: seq<seq<byte>>)
    requires forall f <- frames :: Accepted(f) && |f| <= MAX_FRAME
    ensures Reencoded(frames) == FrameAll(REPO, Bodies(frames))
    ensures forall x <- Bodies(frames) :: |x| <= MAX_FRAME + 1
  {
    hide Accepted, PacketBytes, ClientFrame, PacketSize, PacketOf;
    if frames != [] {
      ReencodedIsFramed(frames[1..]);
      ForwardedBound(frames[0]);
      ClientFrameIsFramed(PacketOf(frames[0]));
      assert Bodies(frames)[1..] == Bodies(frames[1..]);
    }
  }

  /**
    * In every run, ended or not, a framer whose limit is one higher reads back, from all that was sent, the packets of
    * the frames taken; once the loop is quiet these are the longest accepted prefix of the frames received.
    */
  lemma BackendReadsPackets(table: Opcodes, evs: seq<UpEvent>)
    ensures var u := UpExec(table, evs);
            && (forall f <- u.taken :: Accepted(f))
            && Parse(REPO.(maxFrameLen := MAX_FRAME + 1), u.sent + u.out) == Run(Bodies(u.taken), Head, [], None)
            && (Quiet(u) ==> u.out == [] && u.taken == AcceptedPrefix(Parse(REPO, Arrived(evs)).frames))
  {
    hide Accepted, UpExec, AcceptedPrefix, Parse, FrameAll, Remainder, RecordedAll, Bodies;
    var u := UpExec(table, evs);
    EveryUpstreamRunKeeps(table, evs);
    ReencodedIsFramed(u.taken);
    OneHigher(Bodies(u.taken));
    TakenAreParsed(table, Arrived(evs), u);
  }

  lemma OneHigher(bodies: seq<seq<byte>>)
    requires forall x <- bodies :: |x| <= MAX_FRAME + 1
    ensures Parse(REPO.(maxFrameLen := MAX_FRAME + 1), FrameAll(REPO, bodies)) == Run(bodies, Head, [], None)
  {
    var c := REPO.(maxFrameLen := MAX_FRAME + 1);
    Pow256Values();
    SameFrames(bodies);
    FramingRoundTrip(c, bodies, []);
    assert FrameAll(c, bodies) + [] == FrameAll(c, bodies);
    assert bodies + [] == bodies;
  }

  lemma {:induction false} SameFrames(bodies: seq<seq<byte>>)
    ensures FrameAll(REPO.(maxFrameLen := MAX_FRAME + 1), bodies) == FrameAll(REPO, bodies)
  {
    if bodies != [] {
      SameFrames(bodies[1..]);
    }
  }

  // ---------------------------------------------------------------- what the shared table holds

  function Sends(frames: seq<seq<byte>>): seq<Exchange>
    requires forall f <- frames :: Accepted(f)
  {
    if frames == [] then [] else Sends(frames[..|frames| - 1]) + [Exchange.Send(PacketOf(frames[|frames| - 1]))]
  }

  lemma {:induction false} RecordedAllIsTableAfter(frames: seq<seq<byte>>)
    requires forall f <- frames :: Accepted(f)
    ensures RecordedAll(map[], frames) == TableAfter(Sends(frames))
  {
    hide Accepted, PacketOf, Recorded;
    if frames != [] {
      var front := frames[..|frames| - 1];
      RecordedAllIsTableAfter(front);
      assert Sends(frames)[..|Sends(frames)| - 1] == Sends(front);
    }
  }

  /**
    * In every run, ended or not, the table of a fresh connection is what the requests forwarded record: for each xid
    * the opcode of the latest one that named it, and nothing else.
    */
  lemma TableFollowsForwardedRequests(evs: seq<UpEvent>, xid: i32)
    ensures var u := UpExec(map[], evs);
            && (forall f <- u.taken :: Accepted(f))
            && u.table == TableAfter(Sends(u.taken))
            && (xid in u.table <==> exists j: nat :: Latest(Sends(u.taken), xid, j))
            && (forall j: nat :: Latest(Sends(u.taken), xid, j) ==>
                  xid in u.table && u.table[xid] == OpcodeOfSend(Sends(u.taken)[j]))
  {
    hide Accepted, Recorded, RecordedAll, UpExec, Remainder, FrameAll, Reencoded, TableAfter, Latest, Sends;
    var u := UpExec(map[], evs);
    EveryUpstreamRunKeeps(map[], evs);
    RecordedAllIsTableAfter(u.taken);
    TableHoldsLatest(Sends(u.taken), xid);
  }

  // ---------------------------------------------------------------- the loop run until it waits

  lemma PollProgresses(u: Up)
    requires u.out == [] && PollOnce(u).out != []
    ensures Framing.Pending(PollOnce(u).state, PollOnce(u).inbuf) < Framing.Pending(u.state, u.inbuf)
  {
    hide Accepted, PacketOf, ClientFrame, Recorded;
    StepProgresses(REPO, u.state, u.inbuf);
  }

  /** Decode, encode and write out until more bytes are needed or the loop ends. */
  function UpDrain(u: Up): (v: Up)
    requires u.out == []
    ensures v.out == []
    decreases Framing.Pending(u.state, u.inbuf)
  {
    var v := PollOnce(u);
    if v.out == [] then v
    else
      PollProgresses(u);
      UpDrain(WriteSome(v, |v.out|))
  }

  /** Each chunk is dealt with before the next arrives. */
  function UpRun(start: Up, chunks: seq<seq<byte>>): (u: Up)
    requires start.out == []
    ensures u.out == []
  {
    if chunks == [] then start
    else UpDrain(UpStep(UpRun(start, chunks[..|chunks| - 1]), Arrive(chunks[|chunks| - 1])))
  }

  lemma QuietOnceWaiting(u: Up)
    requires u.out == [] && PollOnce(u).out == []
    ensures Quiet(PollOnce(u))
  {
    hide Accepted, PacketOf, Recorded;
  }

  lemma {:induction false} UpDrainKeeps(table: Opcodes, received: seq<byte>, u: Up)
    requires UpInvariant(table, received, u) && u.out == []
    ensures UpInvariant(table, received, UpDrain(u)) && Quiet(UpDrain(u))
    decreases Framing.Pending(u.state, u.inbuf)
  {
    hide UpInvariant, PollOnce, Quiet;
    PollKeeps(table, received, u);
    var v := PollOnce(u);
    if v.out == [] {
      QuietOnceWaiting(u);
    } else {
      PollProgresses(u);
      StepKeeps(table, received, v, Write(|v.out|));
      assert received + [] == received;
      UpDrainKeeps(table, received, WriteSome(v, |v.out|));
    }
  }

  lemma {:induction false} UpRunKeeps(table: Opcodes, chunks: seq<seq<byte>>)
    ensures UpInvariant(table, Concat(chunks), UpRun(Fresh(table), chunks))
    ensures Quiet(UpRun(Fresh(table), chunks))
  {
    hide UpInvariant, UpDrain;
    if chunks == [] {
      FreshKeeps(table);
    } else {
      var before, last := chunks[..|chunks| - 1], chunks[|chunks| - 1];
      UpRunKeeps(table, before);
      var u := UpRun(Fresh(table), before);
      StepKeeps(table, Concat(before), u, Arrive(last));
      UpDrainKeeps(table, Concat(before) + last, UpStep(u, Arrive(last)));
    }
  }

  /** The frames of the whole stream, however it was cut up. */
  function FramesOf(chunks: seq<seq<byte>>): seq<seq<byte>> {
    Parse(REPO, Concat(chunks)).frames
  }

  /**
    * The upstream loop, under any chunking, forwards the longest accepted prefix of the frames the simple parser finds
    * in the bytes received, records their opcodes, and ends exactly when a head is rejected or a frame refused.
    */
  lemma UpstreamForwardsFrames(table: Opcodes, chunks: seq<seq<byte>>)
    ensures var u := UpRun(Fresh(table), chunks);
            && u.taken == AcceptedPrefix(FramesOf(chunks))
            && u.sent == Reencoded(u.taken)
            && u.table == RecordedAll(table, u.taken)
            && (u.end == Running <==> Parse(REPO, Concat(chunks)).error.None? && u.taken == FramesOf(chunks))
  {
    hide Accepted, AcceptedPrefix, UpRun, Remainder, Reencoded, RecordedAll, FrameAll, Parse;
    var u := UpRun(Fresh(table), chunks);
    UpRunKeeps(table, chunks);
    TakenAreParsed(table, Concat(chunks), u);
    assert u.sent + [] == u.sent;
  }

  /**
    * Schedule independence: any run of events, however arrivals, decode calls and partial writes fell, has once quiet
    * taken, sent and recorded the same, and ended or not, as dealing with the same bytes chunk by chunk.
    */
  lemma QuietRunsAgree(table: Opcodes, evs: seq<UpEvent>, chunks: seq<seq<byte>>)
    requires Arrived(evs) == Concat(chunks) && Quiet(UpExec(table, evs))
    ensures var u, v := UpExec(table, evs), UpRun(Fresh(table), chunks);
            && u.taken == v.taken && u.sent == v.sent && u.table == v.table
            && (u.end == Running <==> v.end == Running)
  {
    hide Accepted, AcceptedPrefix, UpExec, UpRun, Remainder, Reencoded, RecordedAll, FrameAll, Parse;
    var u := UpExec(table, evs);
    EveryUpstreamRunKeeps(table, evs);
    TakenAreParsed(table, Arrived(evs), u);
    UpstreamForwardsFrames(table, chunks);
    assert u.sent + [] == u.sent;
  }

  // ---------------------------------------------------------------- every run can be brought to rest

  /** The events carried on from a state. */
  function UpExecFrom(u: Up, evs: seq<UpEvent>): Up
    decreases evs
  {
    if evs == [] then u else UpExecFrom(UpStep(u, evs[0]), evs[1..])
  }

  /** Writes and decode calls alone, until nothing is being written and a decode call has nothing to give. */
  function Settling(u: Up): seq<UpEvent>
    requires u.out == []
    decreases Framing.Pending(u.state, u.inbuf)
  {
    var v := PollOnce(u);
    if v.out == [] then [Poll]
    else
      PollProgresses(u);
      [Poll, Write(|v.out|)] + Settling(WriteSome(v, |v.out|))
  }

  lemma {:induction false} SettlingDrains(u: Up)
    requires u.out == []
    ensures UpExecFrom(u, Settling(u)) == UpDrain(u)
    decreases Framing.Pending(u.state, u.inbuf)
  {
    hide PollOnce;
    var v := PollOnce(u);
    if v.out == [] {
      assert UpExecFrom(v, []) == v;
    } else {
      PollProgresses(u);
      var w := WriteSome(v, |v.out|);
      var evs := Settling(u);
      assert evs[1..] == [Write(|v.out|)] + Settling(w) && evs[1..][1..] == Settling(w);
      hide WriteSome;
      SettlingDrains(w);
    }
  }

  lemma {:induction false} UpExecThen(table: Opcodes, evs: seq<UpEvent>, more: seq<UpEvent>)
    ensures UpExec(table, evs + more) == UpExecFrom(UpExec(table, evs), more)
    decreases |more|
  {
    hide UpStep;
    if more == [] {
      assert evs + more == evs;
    } else {
      var all := evs + [more[0]];
      assert all[..|evs|] == evs && all + more[1..] == evs + more;
      UpExecThen(table, all, more[1..]);
    }
  }

  /** What `UpExec` needs to come to rest: first what is being written, then decode calls and writes in turn. */
  function Finishing(u: Up): seq<UpEvent> {
    [Write(|u.out|)] + Settling(WriteSome(u, |u.out|))
  }

  lemma {:induction false} NothingArrives(u: Up)
    requires u.out == []
    ensures forall ev <- Settling(u) :: !ev.Arrive?
    decreases Framing.Pending(u.state, u.inbuf)
  {
    hide PollOnce;
    var v := PollOnce(u);
    if v.out != [] {
      PollProgresses(u);
      NothingArrives(WriteSome(v, |v.out|));
    }
  }

  lemma {:induction false} ArrivedBefore(evs: seq<UpEvent>, more: seq<UpEvent>)
    requires forall ev <- more :: !ev.Arrive?
    ensures Arrived(evs + more) == Arrived(evs)
    decreases |more|
  {
    if more == [] {
      assert evs + more == evs;
    } else {
      var front := more[..|more| - 1];
      ArrivedBefore(evs, front);
      assert (evs + more)[..|evs + more| - 1] == evs + front;
      assert more[|more| - 1] in more;
      assert Arrived(evs) + [] == Arrived(evs);
    }
  }

  /**
    * Progress: after any events, finitely many decode calls and writes forward all that has arrived, whatever it is.
    * What was sent is then the re-encoding of every frame received up to the first refused.
    */
  lemma EveryRunSettles(table: Opcodes, evs: seq<UpEvent>)
    ensures var all := evs + Finishing(UpExec(table, evs));
            var u := UpExec(table, all);
            && Arrived(all) == Arrived(evs)
            && Quiet(u)
            && u.taken == AcceptedPrefix(Parse(REPO, Arrived(evs)).frames)
            && u.sent == Reencoded(u.taken)
  {
    hide Accepted, UpStep, PollOnce, Quiet, Parse, AcceptedPrefix, UpInvariant;
    var u := UpExec(table, evs);
    var w := UpStep(u, Write(|u.out|));
    SettlesFrom(table, evs, u);
    var all := evs + Finishing(u);
    EveryUpstreamRunKeeps(table, all);
    TakenAreParsed(table, Arrived(all), UpExec(table, all));
    QuietHasSent(table, Arrived(all), UpExec(table, all));
  }

  lemma QuietHasSent(table: Opcodes, received: seq<byte>, u: Up)
    requires UpInvariant(table, received, u) && Quiet(u)
    ensures u.sent == Reencoded(u.taken)
  {
    hide Accepted, Reencoded, RecordedAll, FrameAll, Remainder;
    assert u.sent + [] == u.sent;
  }

  lemma SettlesFrom(table: Opcodes, evs: seq<UpEvent>, u: Up)
    requires u == UpExec(table, evs)
    ensures Quiet(UpExec(table, evs + Finishing(u)))
    ensures Arrived(evs + Finishing(u)) == Arrived(evs)
  {
    hide Accepted, PollOnce, Quiet, UpInvariant;
    var w := WriteSome(u, |u.out|);
    assert Finishing(u)[0] == Write(|u.out|) && Finishing(u)[1..] == Settling(w);
    EveryUpstreamRunKeeps(table, evs);
    StepKeeps(table, Arrived(evs), u, Write(|u.out|));
    UpDrainKeeps(table, Arrived(evs) + [], w);
    SettlingDrains(w);
    UpExecThen(table, evs, Finishing(u));
    NothingArrives(w);
    ArrivedBefore(evs, Finishing(u));
  }

  // ---------------------------------------------------------------- the three tasks together

  /**
    * A step of the upstream loop; a read of the backend, put into the channel; the client writer takes an item off
    * the channel, once the last is written out; the client's socket takes up to `k` bytes of the item being written.
    */
  datatype Event = Upstream(step: UpEvent) | BackendBytes(chunk: seq<byte>) | ClientTake | ClientWrite(k: nat)

  /** One connection: the upstream loop, the channel, the item being written, what the client got, and what was read. */
  datatype Connection = Connection(
    up: Up, channel: seq<seq<byte>>, item: seq<byte>, written: seq<byte>, read: seq<byte>)

  /** When the upstream loop ends, `select!` drops the other two. */
  function Next(c: Connection, ev: Event): Connection {
    if ev.Upstream? then c.(up := UpStep(c.up, ev.step))
    else if c.up.end != Running then c
    else
      match ev
      case BackendBytes(chunk) =>
        if chunk == [] then c else c.(channel := c.channel + [chunk], read := c.read + chunk)
      case ClientTake =>
        if c.item != [] || c.channel == [] then c else c.(channel := c.channel[1..], item := c.channel[0])
      case ClientWrite(k) =>
        var n := if k < |c.item| then k else |c.item|;
        c.(written := c.written + c.item[..n], item := c.item[n..])
  }

  function Connected(evs: seq<Event>): Connection {
    if evs == [] then Connection(Fresh(map[]), [], [], [], [])
    else Next(Connected(evs[..|evs| - 1]), evs[|evs| - 1])
  }

  /** The steps of the upstream loop among the events. */
  function UpSteps(evs: seq<Event>): seq<UpEvent> {
    if evs == [] then []
    else
      var last := evs[|evs| - 1];
      UpSteps(evs[..|evs| - 1]) + if last.Upstream? then [last.step] else []
  }

  function BackendStream(evs: seq<Event>): seq<byte> {
    if evs == [] then []
    else
      var last := evs[|evs| - 1];
      BackendStream(evs[..|evs| - 1]) + if last.BackendBytes? then last.chunk else []
  }

  lemma {:induction false} ConcatTail(chunks: seq<seq<byte>>)
    requires chunks != []
    ensures Concat(chunks) == chunks[0] + Concat(chunks[1..])
  {
    if |chunks| == 1 {
      assert chunks[..0] == [];
      assert Concat(chunks[1..]) == [];
      assert Concat(chunks) == [] + chunks[0];
      assert [] + chunks[0] == chunks[0] + [];
    } else {
      var front, last := chunks[..|chunks| - 1], chunks[|chunks| - 1];
      ConcatTail(front);
      assert chunks[1..][..|chunks| - 2] == front[1..];
      Regroup(chunks[0], Concat(front[1..]), last);
    }
  }

  /** Written, being written, queued: all that was read. */
  predicate ClientInOrder(c: Connection) {
    c.written + c.item + Concat(c.channel) == c.read
  }

  lemma NextKeepsOrder(c: Connection, ev: Event)
    requires ClientInOrder(c)
    ensures ClientInOrder(Next(c, ev))
  {
    hide UpStep;
    match ev {
      case Upstream(_) =>
      case BackendBytes(chunk) =>
        assert (c.channel + [chunk])[..|c.channel|] == c.channel;
        Regroup(c.written + c.item, Concat(c.channel), chunk);
      case ClientTake =>
        if c.item == [] && c.channel != [] {
          ConcatTail(c.channel);
          assert c.written + [] == c.written;
          Regroup(c.written, c.channel[0], Concat(c.channel[1..]));
        }
      case ClientWrite(k) =>
        var n := if k < |c.item| then k else |c.item|;
        assert c.item[..n] + c.item[n..] == c.item;
        Regroup(c.written, c.item[..n], c.item[n..]);
    }
  }

  lemma StillEnded(u: Up, ev: UpEvent)
    requires u.end != Running
    ensures UpStep(u, ev).end != Running
  {
  }

  lemma {:induction false} UpstreamOnItsOwn(evs: seq<Event>)
    ensures Connected(evs).up == UpExec(map[], UpSteps(evs))
  {
    hide UpStep;
    if evs != [] {
      var before, ev := evs[..|evs| - 1], evs[|evs| - 1];
      UpstreamOnItsOwn(before);
      var steps := UpSteps(before);
      if ev.Upstream? {
        assert (steps + [ev.step])[..|steps|] == steps;
      } else {
        assert steps + [] == steps;
      }
    }
  }

  lemma {:induction false} ClientGetsWhatWasRead(evs: seq<Event>)
    ensures var c := Connected(evs);
            && ClientInOrder(c)
            && c.read <= BackendStream(evs)
            && (c.up.end == Running ==> c.read == BackendStream(evs))
  {
    hide UpStep;
    if evs == [] {
      assert ClientInOrder(Connected(evs));
    } else {
      var before, ev := evs[..|evs| - 1], evs[|evs| - 1];
      ClientGetsWhatWasRead(before);
      NextKeepsOrder(Connected(before), ev);
      hide ClientInOrder;
      if ev.Upstream? && Connected(before).up.end != Running {
        StillEnded(Connected(before).up, ev.step);
      }
    }
  }

  /**
    * Every interleaving, event by event: the upstream side depends on its own steps alone and keeps its accounting, so
    * transparency holds exactly as for a run of its own; and what was written to the client, what is being written, and
    * what is queued are the bytes read from the backend, in order, all of them while the connection lasts.
    */
  lemma EveryInterleavingKeeps(evs: seq<Event>)
    ensures var c := Connected(evs);
            var steps := UpSteps(evs);
            && c.up == UpExec(map[], steps)
            && UpInvariant(map[], Arrived(steps), c.up)
            && (Delivered(c.up) == Arrived(steps) <==> forall f <- c.up.taken :: Canonical(f))
            && ClientInOrder(c)
            && c.read <= BackendStream(evs)
            && (c.up.end == Running ==> c.read == BackendStream(evs))
  {
    hide Connected, UpSteps, UpInvariant, Canonical, Delivered, ClientInOrder;
    UpstreamOnItsOwn(evs);
    ClientGetsWhatWasRead(evs);
    EveryUpstreamRunKeeps(map[], UpSteps(evs));
    TransparentIff(map[], UpSteps(evs));
  }

  // ---------------------------------------------------------------- delivery to the client

  /** The events carried on from a connection. */
  function NextAll(c: Connection, evs: seq<Event>): Connection
    decreases evs
  {
    if evs == [] then c else NextAll(Next(c, evs[0]), evs[1..])
  }

  lemma {:induction false} ConnectedThen(evs: seq<Event>, more: seq<Event>)
    ensures Connected(evs + more) == NextAll(Connected(evs), more)
    decreases |more|
  {
    hide Next;
    if more == [] {
      assert evs + more == evs;
    } else {
      var all := evs + [more[0]];
      assert all[..|evs|] == evs && all + more[1..] == evs + more;
      ConnectedThen(all, more[1..]);
    }
  }

  /** The client writer serves the front of the channel in two steps, and leaves the rest in place. */
  lemma FrontIsServed(c: Connection)
    requires c.up.end == Running && c.item == [] && c.channel != []
    ensures Next(Next(c, ClientTake), ClientWrite(|c.channel[0]|))
         == c.(written := c.written + c.channel[0], channel := c.channel[1..])
  {
    var x := c.channel[0];
    assert x[..|x|] == x && x[|x|..] == [];
  }

  /** Taking and writing out every item of the channel. */
  function Serving(channel: seq<seq<byte>>): seq<Event> {
    if channel == [] then [] else [ClientTake, ClientWrite(|channel[0]|)] + Serving(channel[1..])
  }

  lemma TwoSteps(c: Connection, first: Event, second: Event, more: seq<Event>)
    ensures NextAll(c, [first, second] + more) == NextAll(Next(Next(c, first), second), more)
  {
    hide Next;
    var evs := [first, second] + more;
    assert evs[1..] == [second] + more && evs[1..][1..] == more;
  }

  /** One turn of the client writer: take an item and write it. */
  lemma ServingTurn(c: Connection)
    requires c.up.end == Running && c.item == []
    ensures c.channel == [] ==> NextAll(c, Serving(c.channel)) == c
    ensures c.channel != [] ==>
              var d := c.(written := c.written + c.channel[0], channel := c.channel[1..]);
              NextAll(c, Serving(c.channel)) == NextAll(d, Serving(d.channel))
  {
    if c.channel != [] {
      FrontIsServed(c);
      TwoSteps(c, ClientTake, ClientWrite(|c.channel[0]|), Serving(c.channel[1..]));
      hide Next, NextAll;
    } else {
      assert NextAll(c, []) == c;
    }
  }

  lemma {:induction false} ChannelIsServed(c: Connection)
    requires c.up.end == Running && c.item == []
    ensures NextAll(c, Serving(c.channel)) == c.(written := c.written + Concat(c.channel), channel := [])
    decreases |c.channel|
  {
    if c.channel == [] {
      assert c.written + [] == c.written;
    } else {
      ServingTurn(c);
      hide Next;
      var x, others := c.channel[0], c.channel[1..];
      var d := c.(written := c.written + x, channel := others);
      ChannelIsServed(d);
      ConcatTail(c.channel);
      Regroup(c.written, x, Concat(others));
    }
  }

  /** Writing out the item at hand, then serving the channel. */
  function Delivering(c: Connection): seq<Event> {
    [ClientWrite(|c.item|)] + Serving(c.channel)
  }

  lemma AllIsDelivered(c: Connection)
    requires c.up.end == Running && ClientInOrder(c)
    ensures NextAll(c, Delivering(c)) == c.(written := c.read, item := [], channel := [])
  {
    var d := Next(c, ClientWrite(|c.item|));
    assert c.item[..|c.item|] == c.item && c.item[|c.item|..] == [];
    assert d == c.(written := c.written + c.item, item := []);
    assert Delivering(c)[1..] == Serving(c.channel);
    hide Next;
    ChannelIsServed(d);
  }

  /**
    * Delivery: after any events, while the connection lasts, finitely many takes and writes hand the client every byte
    * read from the backend, in order, and disturb nothing else.
    */
  lemma ClientReceivesEverything(evs: seq<Event>)
    requires Connected(evs).up.end == Running
    ensures var c := Connected(evs);
            var d := Connected(evs + Delivering(c));
            && d.written == BackendStream(evs)
            && d == c.(written := d.written, item := [], channel := [])
  {
    hide Connected, ClientInOrder, Delivering, NextAll, Next;
    ClientGetsWhatWasRead(evs);
    AllIsDelivered(Connected(evs));
    ConnectedThen(evs, Delivering(Connected(evs)));
  }

  /** The reads of the backend reader, as events. */
  function Reads(arrivals: seq<seq<byte>>): seq<Event> {
    if arrivals == [] then [] else Reads(arrivals[..|arrivals| - 1]) + [BackendBytes(arrivals[|arrivals| - 1])]
  }

  lemma {:induction false} NextAllThen(c: Connection, evs: seq<Event>, more: seq<Event>)
    ensures NextAll(c, evs + more) == NextAll(NextAll(c, evs), more)
    decreases evs
  {
    hide Next;
    if evs == [] {
      assert evs + more == more;
    } else {
      assert (evs + more)[1..] == evs[1..] + more;
      NextAllThen(Next(c, evs[0]), evs[1..], more);
    }
  }

  /** The channel after reads: one more item for each that is not empty. */
  function Queued(items: seq<seq<byte>>, arrivals: seq<seq<byte>>): seq<seq<byte>> {
    if arrivals == [] then items
    else
      var chunk := arrivals[|arrivals| - 1];
      Queued(items, arrivals[..|arrivals| - 1]) + if chunk == [] then [] else [chunk]
  }

  lemma {:induction false} QueuedBytes(items: seq<seq<byte>>, arrivals: seq<seq<byte>>)
    ensures items <= Queued(items, arrivals)
    ensures Concat(Queued(items, arrivals)) == Concat(items) + Concat(arrivals)
  {
    if arrivals == [] {
      assert Concat(items) + [] == Concat(items);
    } else {
      var before, chunk := arrivals[..|arrivals| - 1], arrivals[|arrivals| - 1];
      QueuedBytes(items, before);
      var q := Queued(items, before);
      assert (q + [chunk])[..|q|] == q;
      Regroup(Concat(items), Concat(before), chunk);
      assert q + [] == q && Concat(q) + [] == Concat(q);
    }
  }

  /** Reads queue their bytes behind what the channel holds, and change nothing else. */
  lemma {:induction false} ReadsAreQueued(c: Connection, arrivals: seq<seq<byte>>)
    requires c.up.end == Running
    ensures NextAll(c, Reads(arrivals))
         == c.(channel := Queued(c.channel, arrivals), read := c.read + Concat(arrivals))
  {
    if arrivals == [] {
      assert c.read + [] == c.read;
    } else {
      var before, chunk := arrivals[..|arrivals| - 1], arrivals[|arrivals| - 1];
      ReadsAreQueued(c, before);
      var d := NextAll(c, Reads(before));
      NextAllThen(c, Reads(before), [BackendBytes(chunk)]);
      assert NextAll(d, [BackendBytes(chunk)]) == NextAll(Next(d, BackendBytes(chunk)), []);
      Regroup(c.read, Concat(before), chunk);
      assert d.channel + [] == d.channel && d.read + [] == d.read;
    }
  }

  // ---------------------------------------------------------------- after the end

  lemma EndedStepStays(table: Opcodes, received: seq<byte>, c: Connection, ev: Event)
    requires UpInvariant(table, received, c.up) && c.up.end != Running
    ensures var d := Next(c, ev);
            && d == c.(up := d.up)
            && d.up == c.up.(inbuf := d.up.inbuf)
  {
    hide Accepted, Reencoded, RecordedAll, FrameAll, Remainder, Recorded, PacketOf, ClientFrame;
    if ev.Upstream? && ev.step.Write? {
      assert c.up.sent + [] == c.up.sent;
    }
  }

  /**
    * Once the upstream loop has ended, whatever happens later takes, sends, records, reads and writes nothing more;
    * bytes of the client may still arrive, unread.
    */
  lemma {:induction false} NothingAfterTheEnd(evs: seq<Event>, more: seq<Event>)
    requires Connected(evs).up.end != Running
    ensures var c, d := Connected(evs), Connected(evs + more);
            && d == c.(up := d.up)
            && d.up == c.up.(inbuf := d.up.inbuf)
    decreases |more|
  {
    hide Next, UpInvariant;
    if more == [] {
      assert evs + more == evs;
    } else {
      var front := more[..|more| - 1];
      NothingAfterTheEnd(evs, front);
      assert (evs + more)[..|evs + more| - 1] == evs + front;
      var steps := UpSteps(evs + front);
      UpstreamOnItsOwn(evs + front);
      EveryUpstreamRunKeeps(map[], steps);
      EndedStepStays(map[], Arrived(steps), Connected(evs + front), more[|more| - 1]);
    }
  }

  // ---------------------------------------------------------------- the loops themselves

  /** A run that ended takes, sends and records nothing more. */
  lemma {:induction false} EndedRunStays(start: Up, chunks: seq<seq<byte>>, i: nat)
    requires start.out == [] && i <= |chunks| && UpRun(start, chunks[..i]).end != Running
    ensures var u, v := UpRun(start, chunks[..i]), UpRun(start, chunks);
            v == u.(inbuf := v.inbuf)
    decreases |chunks|
  {
    if i == |chunks| {
      assert chunks[..i] == chunks;
    } else {
      var before := chunks[..|chunks| - 1];
      assert before[..i] == chunks[..i];
      EndedRunStays(start, before, i);
    }
  }

  lemma PollIgnoresSent(before: seq<byte>, u: Up)
    ensures PollOnce(u.(sent := before + u.sent)) == PollOnce(u).(sent := before + u.sent)
    ensures PollOnce(u).sent == u.sent
  {
    hide Accepted, PacketOf, ClientFrame, Recorded, DecodeStep;
  }

  lemma WriteAppendsToSent(before: seq<byte>, u: Up)
    ensures var v := WriteSome(u, |u.out|);
            v.out == [] && WriteSome(u.(sent := before + u.sent), |u.out|) == v.(sent := before + v.sent)
  {
    Regroup(before, u.sent, u.out[..|u.out|]);
  }

  /** What was sent before plays no part in what is sent next. */
  lemma {:induction false} SentSoFar(before: seq<byte>, u: Up)
    requires u.out == []
    ensures UpDrain(u.(sent := before + u.sent)) == UpDrain(u).(sent := before + UpDrain(u).sent)
    decreases Framing.Pending(u.state, u.inbuf)
  {
    PollIgnoresSent(before, u);
    var v := PollOnce(u);
    WriteAppendsToSent(before, v);
    if v.out != [] {
      PollProgresses(u);
      hide PollOnce;
      assert WriteSome(v, |v.out|).state == v.state && WriteSome(v, |v.out|).inbuf == v.inbuf;
      hide WriteSome;
      SentSoFar(before, WriteSome(v, |v.out|));
    }
  }

  /** One turn of the loop: another packet sent, or the last decode call. */
  lemma DrainTurn(u: Up)
    requires u.out == [] && u.end == Running
    ensures var d := DecodeStep(REPO, u.state, u.inbuf);
            if d.result.Ok? && d.result.value.Some? && Accepted(d.result.value.value) then
              var frame := d.result.value.value;
              && Framing.Pending(d.state, d.buf) < Framing.Pending(u.state, u.inbuf)
              && UpDrain(u) == UpDrain(Up(d.state, d.buf, [], u.sent + ClientFrame(PacketOf(frame)),
                                          Recorded(u.table, PacketOf(frame)), u.taken + [frame], Running))
            else
              var v := UpDrain(u);
              && v == Up(d.state, d.buf, [], u.sent, u.table, u.taken, v.end)
              && (v.end == Running <==> d.result == Ok(None))
  {
    hide Accepted, PacketOf, Recorded, DecodeStep;
    var v := PollOnce(u);
    if v.out != [] {
      hide ClientFrame;
      PollProgresses(u);
      assert v.out[..|v.out|] == v.out && v.out[|v.out|..] == [];
    }
  }

  class UpStreamConnection {
    /** The bytes handed to the backend's socket. */
    var sent: seq<byte>
    /** The frames taken so far. */
    ghost var taken: seq<seq<byte>>

    constructor ()
      ensures sent == [] && taken == []
    {
      sent := [];
      taken := [];
    }

    /** Sends one packet: encode it, then hand all its bytes over. */
    method Send(codec: ClientPacketCodec, packet: RequestPacket)
      modifies this`sent, codec.requestsByXid
      ensures sent == old(sent) + ClientFrame(packet)
      ensures codec.requestsByXid.entries == Recorded(old(codec.requestsByXid.entries), packet)
    {
      var dst := new BytesMut([]);
      codec.Encode(packet, dst);
      assert dst.data == [] + ClientFrame(packet) == ClientFrame(packet);
      sent := sent + dst.data;
    }

    /** Forwards what the buffer holds; `ended` tells that a head was rejected or a frame refused. */
    method ForwardBuffered(c2p: ServerPacketCodec, inbuf: BytesMut, p2b: ClientPacketCodec) returns (ended: bool)
      requires c2p.inner.builder == REPO
      modifies this, c2p.inner`state, inbuf, p2b.requestsByXid
      ensures var v := UpDrain(Up(old(c2p.inner.state), old(inbuf.data), [], old(sent), old(p2b.requestsByXid.entries),
                                  old(taken), Running));
              && v == Up(c2p.inner.state, inbuf.data, [], sent, p2b.requestsByXid.entries, taken, v.end)
              && (ended <==> v.end != Running)
    {
      hide DecodeInner, ClientFrame, Recorded, UpDrain, DecodeStep;
      ghost var start := Up(c2p.inner.state, inbuf.data, [], sent, p2b.requestsByXid.entries, taken, Running);
      while true
        invariant UpDrain(Up(c2p.inner.state, inbuf.data, [], sent, p2b.requestsByXid.entries, taken, Running))
               == UpDrain(start)
        decreases Framing.Pending(c2p.inner.state, inbuf.data)
      {
        ghost var d := DecodeStep(REPO, c2p.inner.state, inbuf.data);
        DrainTurn(Up(c2p.inner.state, inbuf.data, [], sent, p2b.requestsByXid.entries, taken, Running));
        var polled := c2p.Decode(inbuf);
        match polled {
          case Ok(Some(packet)) =>
            Send(p2b, packet);
            taken := taken + [d.result.value.value];
          case Ok(None) =>
            return false;
          case Err(_) =>
            return true;
          case Panic =>
            return true;
        }
      }
    }

    /** `pipe`: decode, re-encode and send until a head is rejected, a frame refused, or nothing more arrives. */
    method Pipe(arrivals: seq<seq<byte>>, table: OpTable)
      modifies this, table
      ensures var u := UpRun(Fresh(old(table.entries)), arrivals);
              sent == old(sent) + u.sent && table.entries == u.table && taken == u.taken
    {
      var c2p := new ServerPacketCodec();
      var inbuf := new BytesMut([]);
      var p2b := new ClientPacketCodec(table);
      ghost var before, start := sent, Fresh(table.entries);
      taken := [];
      var i := 0;
      assert before + [] == before;
      while i < |arrivals|
        invariant i <= |arrivals|
        invariant fresh(c2p) && fresh(c2p.inner) && fresh(inbuf) && fresh(p2b) && p2b.requestsByXid == table
        invariant c2p.inner.builder == REPO
        invariant var u := UpRun(start, arrivals[..i]);
                  && u == Up(c2p.inner.state, inbuf.data, [], u.sent, table.entries, taken, Running)
                  && sent == before + u.sent
      {
        ghost var u := UpRun(start, arrivals[..i]);
        inbuf.PutSlice(arrivals[i]);
        ghost var v := UpStep(u, Arrive(arrivals[i]));
        assert arrivals[..i + 1][..i] == arrivals[..i];
        assert UpRun(start, arrivals[..i + 1]) == UpDrain(v);
        SentSoFar(before, v);
        var ended := ForwardBuffered(c2p, inbuf, p2b);
        if ended {
          EndedRunStays(start, arrivals, i + 1);
          return;
        }
        i := i + 1;
      }
      assert arrivals[..i] == arrivals;
    }
  }

  /** The unbounded channel from the backend reader to the client writer. */
  class Channel {
    var items: seq<seq<byte>>

    constructor ()
      ensures items == []
    {
      items := [];
    }

    method Send(item: seq<byte>)
      modifies this
      ensures items == old(items) + [item]
    {
      items := items + [item];
    }

    method Recv() returns (item: Option<seq<byte>>)
      modifies this
      ensures old(items) == [] ==> item == None && items == []
      ensures old(items) != [] ==> item == Some(old(items)[0]) && items == old(items)[1..]
    {
      if items == [] {
        return None;
      }
      item := Some(items[0]);
      items := items[1..];
    }
  }

  class B2PDownStreamConnection {
    /** `pipe`: every non-empty read of the backend becomes one item of the channel. */
    method Pipe(arrivals: seq<seq<byte>>, tx: Channel)
      modifies tx
      ensures old(tx.items) <= tx.items
      ensures Concat(tx.items) == Concat(old(tx.items)) + Concat(arrivals)
      ensures var c := Connection(Fresh(map[]), old(tx.items), [], [], []);
              NextAll(c, Reads(arrivals)) == c.(channel := tx.items, read := [] + Concat(arrivals))
    {
      var i := 0;
      while i < |arrivals|
        invariant i <= |arrivals|
        invariant tx.items == Queued(old(tx.items), arrivals[..i])
      {
        assert arrivals[..i + 1][..i] == arrivals[..i];
        if arrivals[i] != [] {
          tx.Send(arrivals[i]);
        }
        i := i + 1;
      }
      assert arrivals[..i] == arrivals;
      QueuedBytes(old(tx.items), arrivals);
      ReadsAreQueued(Connection(Fresh(map[]), old(tx.items), [], [], []), arrivals);
    }
  }

  class P2CDownStreamConnection {
    /** The bytes handed to the client's socket. */
    var written: seq<byte>

    constructor ()
      ensures written == []
    {
      written := [];
    }

    /** `pipe`, up to the point where the channel is empty: the items are written in order, and whole. */
    method Pipe(rx: Channel)
      modifies this, rx
      ensures rx.items == []
      ensures written == old(written) + Concat(old(rx.items))
      ensures var c := Connection(Fresh(map[]), old(rx.items), [], old(written), []);
              NextAll(c, Serving(c.channel)) == c.(channel := rx.items, written := written)
    {
      ghost var c := Connection(Fresh(map[]), rx.items, [], written, []);
      ghost var end := NextAll(c, Serving(c.channel));
      assert written + Concat(rx.items) == old(written) + Concat(old(rx.items));
      while true
        invariant written + Concat(rx.items) == old(written) + Concat(old(rx.items))
        invariant NextAll(c.(channel := rx.items, written := written), Serving(rx.items)) == end
        decreases |rx.items|
      {
        ghost var items := rx.items;
        ServingTurn(c.(channel := items, written := written));
        var item := rx.Recv();
        match item {
          case None =>
            assert written + [] == written;
            return;
          case Some(chunk) =>
            ConcatTail(items);
            Regroup(written, chunk, Concat(rx.items));
            written := written + chunk;
        }
      }
    }
  }
}
