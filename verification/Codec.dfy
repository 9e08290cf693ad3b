/** The two packet codecs over the framer, and the opcode table they share. */
module Codec {
  import opened Outcomes
  import opened Bytes
  import opened Proto
  import opened Constants
  import opened Requests
  import opened Responses
  import ReplyVerdicts
  import opened LengthCodec
  import opened Framing

  const MAX_FRAME: nat := 1024 * 1024

  /** The framer both codecs are built on. */
  const REPO := Config(MAX_FRAME, 4, 0, 0, None, true)

  // ---------------------------------------------------------------- one request, re-encoded

  /** `ClientPacketCodec::encode`: a length taken from `size()`, then the packet. */
  function ClientFrame(p: RequestPacket): seq<byte> {
    I32Bytes(AsI32(PacketSize(p))) + PacketBytes(p)
  }

  /** The hand-written frame is the framer's own, and the framer accepts it exactly up to its maximum. */
  lemma ClientFrameIsFramed(p: RequestPacket)
    requires PacketSize(p) < I32_LIMIT
    ensures ClientFrame(p) == HeadFor(REPO, |PacketBytes(p)|) + PacketBytes(p)
    ensures EncodeFrame(REPO, PacketBytes(p))
         == if PacketSize(p) <= 0x10_0000 then Ok(ClientFrame(p)) else Err(FrameTooBig)
  {
    hide PacketBytes, PacketSize;
  }

  /** Accepted, and nothing of it is ignored or replaced: a connect has one byte after its password, a zero. */
  predicate Canonical(b: seq<byte>) {
    && DecodeInner(b).Ok?
    && var (p, rest) := DecodeInner(b).value;
       if p.header.None? then p.request.Connect? && AfterPasswd(b, p.request.connect) == 1 && |b| > 0 && b[|b| - 1] == 0
       else rest == []
  }

  /** The proxy forwards an accepted body unchanged exactly when it is canonical. */
  lemma UnchangedIff(b: seq<byte>)
    requires DecodeInner(b).Ok?
    ensures PacketBytes(DecodeInner(b).value.0) == b <==> Canonical(b)
  {
    hide DecodeInner, PacketBytes, ConnectRequestStem;
    var (p, rest) := DecodeInner(b).value;
    RequestPrintAfterParse(b, p, rest);
    if p.header.None? && AfterPasswd(b, p.request.connect) == 1 {
      assert b == b[..|b| - 1] + [b[|b| - 1]];
      assert (b[..|b| - 1] + [0])[|b| - 1] == 0;
    }
  }

  /** `b` is the encoding of a well-formed packet that is no read-only connect. */
  ghost predicate Encodes(b: seq<byte>, p: RequestPacket) {
    WellFormed(p) && (p.header.None? ==> p.request.connect.readOnly == 0) && PacketBytes(p) == b
  }

  /** The canonical bodies are exactly the encodings of well-formed packets, read-only connects apart. */
  lemma CanonicalExactlyEncodings(b: seq<byte>)
    requires |b| < I32_LIMIT
    ensures Canonical(b) <==> exists p :: Encodes(b, p)
  {
    hide DecodeInner, PacketBytes, Canonical;
    if Canonical(b) {
      CanonicalIsAccepted(b);
      var (p, rest) := DecodeInner(b).value;
      UnchangedIff(b);
      ReadBackUnchangedIff(p);
      assert Encodes(b, p);
    }
    if p :| Encodes(b, p) {
      ReadBackUnchangedIff(p);
      UnchangedIff(b);
    }
  }

  lemma CanonicalIsAccepted(b: seq<byte>)
    requires Canonical(b)
    ensures DecodeInner(b).Ok?
  {
    hide DecodeInner;
  }

  /** Not every accepted body is forwarded unchanged: a read-only connect reaches the backend as read-write. */
  lemma ReadOnlyConnectIsChanged()
    ensures var x := ConnectRequest(0, 0, 0, 0, [], 1);
            var b := ConnectRequestBytes(x);
            && DecodeInner(b).Ok?
            && PacketBytes(DecodeInner(b).value.0) == ConnectRequestBytes(x.(readOnly := 0)) != b
  {
    hide ConnectRequestStem, DecodeInner;
    var x := ConnectRequest(0, 0, 0, 0, [], 1);
    var p := RequestPacket(None, Request.Connect(x));
    assert PacketBytes(p) == ConnectRequestBytes(x);
    RequestParseAfterPrint(p);
    var y := x.(readOnly := 0);
    assert PacketBytes(RequestPacket(None, Request.Connect(y))) == ConnectRequestBytes(y);
    assert ConnectRequestBytes(x)[|ConnectRequestStem(x)|] == 1;
    assert ConnectRequestBytes(y)[|ConnectRequestStem(y)|] == 0;
    assert |ConnectRequestStem(x)| == |ConnectRequestStem(y)|;
  }

  /** A connect is forwarded with one byte after its password: the first of two or more, and otherwise a zero. */
  lemma ConnectForwardedAs(x: ConnectRequest, tail: seq<byte>)
    requires x.protocolVersion == 0 && |ConnectRequestStem(x)| + |tail| < I32_LIMIT
    ensures var b := ConnectRequestStem(x) + tail;
            && DecodeInner(b).Ok?
            && PacketBytes(DecodeInner(b).value.0)
            == ConnectRequestStem(x) + [if |tail| > 1 then tail[0] else 0]
  {
    var readOnly := if |tail| > 1 then tail[0] else 0;
    var y := x.(readOnly := readOnly);
    assert ConnectRequestStem(y) == ConnectRequestStem(x);
    hide DecodeInner, ConnectRequestStem;
    ConnectRead(x, tail);
    var p := RequestPacket(None, Request.Connect(y));
    assert PacketBytes(p) == [] + ConnectRequestBytes(y) == ConnectRequestStem(y) + [readOnly];
  }

  /** A forwarded body grows by at most one byte, and only for a connect that ends at its password. */
  lemma ForwardedSize(b: seq<byte>)
    requires DecodeInner(b).Ok?
    ensures var (p, rest) := DecodeInner(b).value;
            PacketSize(p) <= |b| + if p.header.None? && AfterPasswd(b, p.request.connect) == 0 then 1 else 0
  {
    hide DecodeInner, PacketSize, PacketBytes, ConnectRequestStem;
    var (p, rest) := DecodeInner(b).value;
    RequestPrintAfterParse(b, p, rest);
    assert |PacketBytes(p)| == PacketSize(p);
  }

  // ---------------------------------------------------------------- the opcode table over a run

  /** What encoding a request records: its opcode, if known, under its xid. */
  function Recorded(table: Opcodes, p: RequestPacket): Opcodes {
    if p.header.Some? && OpCodeOf(p.header.value.opcode).Some? then
      table[p.header.value.xid := OpCodeOf(p.header.value.opcode).value]
    else table
  }

  /** The two uses of the shared table, in whatever order they interleave. */
  datatype Exchange = Send(packet: RequestPacket) | Receive(body: seq<byte>)

  function TableAfter(evs: seq<Exchange>): Opcodes {
    if evs == [] then map[]
    else
      var last := evs[|evs| - 1];
      var before := TableAfter(evs[..|evs| - 1]);
      if last.Send? then Recorded(before, last.packet) else before
  }

  /** What the `i`-th exchange of a run yields when it is a reply. */
  function ReplyAt(evs: seq<Exchange>, i: nat): Parsed<ResponsePacket>
    requires i < |evs| && evs[i].Receive?
  {
    DecodeReply(TableAfter(evs[..i]), evs[i].body)
  }

  /** A request that carries the xid and an opcode that exists. */
  predicate Names(ev: Exchange, xid: i32) {
    ev.Send? && ev.packet.header.Some? && ev.packet.header.value.xid == xid
    && OpCodeOf(ev.packet.header.value.opcode).Some?
  }

  function OpcodeOfSend(ev: Exchange): OpCodes
    requires ev.Send? && ev.packet.header.Some? && OpCodeOf(ev.packet.header.value.opcode).Some?
  {
    OpCodeOf(ev.packet.header.value.opcode).value
  }

  /** `j` is the latest request that names the xid. */
  predicate Latest(evs: seq<Exchange>, xid: i32, j: nat) {
    j < |evs| && Names(evs[j], xid) && forall k :: j < k < |evs| ==> !Names(evs[k], xid)
  }

  /** The table holds, for every xid, the opcode of the latest request that named it, and nothing else. */
  lemma {:induction false} TableHoldsLatest(evs: seq<Exchange>, xid: i32)
    ensures xid in TableAfter(evs) <==> exists j: nat :: Latest(evs, xid, j)
    ensures forall j: nat :: Latest(evs, xid, j) ==>
              xid in TableAfter(evs) && TableAfter(evs)[xid] == OpcodeOfSend(evs[j])
  {
    hide OpCodeOf;
    if evs != [] {
      var before, n := evs[..|evs| - 1], |evs| - 1;
      TableHoldsLatest(before, xid);
      if Names(evs[n], xid) {
        assert Latest(evs, xid, n);
      } else {
        assert forall j: nat :: Latest(evs, xid, j) <==> Latest(before, xid, j) by {
          assert forall k :: 0 <= k < n ==> evs[k] == before[k];
        }
      }
    }
  }

  /** A successful reply is read under the opcode of the latest earlier request with its xid; with none, an error. */
  lemma ReplyReadUnderLatest(evs: seq<Exchange>, i: nat)
    requires i < |evs| && evs[i].Receive? && AsI32(|evs[i].body|) >= 4
    requires ParseReplyHeader(evs[i].body).Ok? && Successful(ParseReplyHeader(evs[i].body).value.0)
    ensures var (header, body) := ParseReplyHeader(evs[i].body).value;
            && ((forall j: nat :: !Latest(evs[..i], header.xid, j)) ==> ReplyAt(evs, i) == Err(DecodeError))
            && (forall j: nat :: Latest(evs[..i], header.xid, j) ==>
                  match ParseResponse(OpcodeOfSend(evs[j]), body)
                  case Ok(v) => ReplyAt(evs, i) == Ok((ResponsePacket(Some(header), v.0), v.1))
                  case Err(e) => ReplyAt(evs, i) == Err(e)
                  case Panic => ReplyAt(evs, i) == Panic)
  {
    hide ParseReplyHeader, ParseResponse, OpCodeOf;
    var (header, body) := ParseReplyHeader(evs[i].body).value;
    ReplyXid(evs[i].body);
    TableHoldsLatest(evs[..i], header.xid);
  }

  /** No two requests carry the same ordinary xid; pings, auths and set-watches may recur under their special ones. */
  predicate DistinctOrdinaryXids(evs: seq<Exchange>) {
    forall j, k :: 0 <= j < k < |evs| && evs[j].Send? && evs[k].Send?
                   && evs[j].packet.header.Some? && evs[k].packet.header.Some?
                   && Ordinary(evs[j].packet.header.value.xid)
                   ==> evs[j].packet.header.value.xid != evs[k].packet.header.value.xid
  }

  /**
    * With distinct ordinary xids up to then, a successful reply is read under its own request's opcode, however late or
    * out of order it arrives.
    */
  lemma ReplyReadUnderOwnRequest(evs: seq<Exchange>, j: nat, i: nat)
    requires j < i < |evs| && DistinctOrdinaryXids(evs[..i])
    requires evs[i].Receive? && AsI32(|evs[i].body|) >= 4
    requires ParseReplyHeader(evs[i].body).Ok? && Successful(ParseReplyHeader(evs[i].body).value.0)
    requires Names(evs[j], ParseReplyHeader(evs[i].body).value.0.xid)
    ensures var (header, body) := ParseReplyHeader(evs[i].body).value;
            match ParseResponse(OpcodeOfSend(evs[j]), body)
            case Ok(v) => ReplyAt(evs, i) == Ok((ResponsePacket(Some(header), v.0), v.1))
            case Err(e) => ReplyAt(evs, i) == Err(e)
            case Panic => ReplyAt(evs, i) == Panic
  {
    hide ParseReplyHeader, ParseResponse, OpCodeOf, ReplyAt;
    var xid := ParseReplyHeader(evs[i].body).value.0.xid;
    assert evs[..i][j] == evs[j];
    assert Latest(evs[..i], xid, j);
    ReplyReadUnderLatest(evs, i);
  }

  /**
    * Whatever the table held, once a request is sent the successful reply with its xid is read as the response that
    * answers its number, and nothing may follow it.
    */
  lemma AnswerIsRead(table: Opcodes, q: RequestPacket, h: ReplyHeader, r: ZkResponse, rest: seq<byte>)
    requires q.header.Some? && q.header.value.xid == h.xid && Successful(h)
    requires ReplyVerdicts.Answers(q.header.value.opcode, r)
    requires !r.Multi? ==> |ResponseBytes(r)| + |rest| + 16 < I32_LIMIT
    ensures !r.Multi?
    ensures DecodeReply(Recorded(table, q), ReplyHeaderBytes(h) + (ResponseBytes(r) + rest))
         == ReadBefore(ResponsePacket(Some(h), r), rest, true)
  {
    hide DecodeReply, OpCodeOf, ReplyVariant, ResponseBytes, ReplyHeaderBytes, Ordinary;
    ReplyVerdicts.AnswerIsVariant(q.header.value.opcode, r);
    ReplyVerdicts.SuccessfulReplyRead(Recorded(table, q), h, r, rest);
  }

  // ---------------------------------------------------------------- replies, re-encoded

  /** `ServerPacketCodec::encode`: the size of a multi is a `todo!()`. */
  function ServerFrame(p: ResponsePacket): Outcome<seq<byte>, ZkError> {
    if p.response.Multi? then Panic
    else
      match EncodeFrame(REPO, ReplyBytes(p))
      case Ok(frame) => Ok(frame)
      case Err(_) => Err(EncodeError)
      case Panic => Panic
  }

  /**
    * Every reply that is no multi, a connect reply included, is sent as a four-byte length and its bytes when these are
    * at most 2^20, and refused when they are more. A multi panics.
    */
  lemma RepliesAreFramed(p: ResponsePacket)
    ensures ServerFrame(p)
         == if p.response.Multi? then Panic
            else if |ReplyBytes(p)| <= 0x10_0000 then Ok(I32Bytes(|ReplyBytes(p)|) + ReplyBytes(p))
            else Err(EncodeError)
  {
    hide ReplyBytes;
  }

  lemma ConnectReplyIsFramed(x: ConnectResponse)
    requires |ConnectResponseBytes(x)| <= 0x10_0000
    ensures ServerFrame(ResponsePacket(None, ZkResponse.Connect(x)))
         == Ok(I32Bytes(|ConnectResponseBytes(x)|) + ConnectResponseBytes(x))
  {
    var p := ResponsePacket(None, ZkResponse.Connect(x));
    hide ConnectResponseBytes, ServerFrame;
    assert ReplyBytes(p) == [] + ConnectResponseBytes(x) == ConnectResponseBytes(x);
    RepliesAreFramed(p);
  }

  /** A successful reply that is no multi is re-encoded to the very frame it came in. */
  lemma ReplyTransparency(table: Opcodes, b: seq<byte>, p: ResponsePacket, rest: seq<byte>)
    requires DecodeReply(table, b) == Ok((p, rest)) && |b| <= 0x10_0000
    requires p.header.Some? && Successful(p.header.value) && !p.response.Multi?
    ensures ServerFrame(p) == Ok(I32Bytes(|b|) + b)
  {
    hide DecodeReply, ReplyBytes;
    ReplyPrintAfterParse(table, b, p, rest);
    assert b == ReplyBytes(p) + [] == ReplyBytes(p);
  }

  // ---------------------------------------------------------------- one decode call of either codec

  /** What a packet decoder returns, and the framer state and buffer it leaves. */
  datatype Polled<T> = Polled(result: Outcome<Option<T>, ZkError>, state: DecodeState, buf: seq<byte>)

  function PollFrame<T>(state: DecodeState, buf: seq<byte>, read: seq<byte> -> Parsed<T>): Polled<T> {
    var d := DecodeStep(REPO, state, buf);
    if d.result.Err? then Polled(Err(DecodeError), d.state, d.buf)
    else
      match d.result.value
      case None => Polled(Ok(None), d.state, d.buf)
      case Some(frame) =>
        match read(frame)
        case Ok(v) => Polled(Ok(Some(v.0)), d.state, d.buf)
        case Err(e) => Polled(Err(e), d.state, d.buf)
        case Panic => Polled(Panic, d.state, d.buf)
  }

  /** The framer of both codecs admits exactly the lengths from 0 to 2^20, and refuses the others as too big. */
  lemma RepoAdmits(n: i32, rest: seq<byte>)
    ensures ReadHead(REPO, I32Bytes(n) + rest) == if 0 <= n <= 0x10_0000 then Accept(n) else Reject(FrameTooBig)
  {
    var m: nat := if n < 0 then n + 0x1_0000_0000 else n;
    assert (I32Bytes(n) + rest)[0..4] == I32Bytes(n);
    Pow256Values();
    ReadsBack(true, m, 4);
    hide BigEndian, FromBigEndian, Pow256;
  }

  lemma FrameIsPolled(body: seq<byte>, tail: seq<byte>)
    requires |body| <= MAX_FRAME
    ensures DecodeStep(REPO, Head, HeadFor(REPO, |body|) + body + tail) == Decoded(Ok(Some(body)), Head, tail)
  {
    Pow256Values();
    CarriedHead(REPO, body, tail);
    var b := HeadFor(REPO, |body|) + body + tail;
    assert b[4..][..|body|] == body && b[4..][|body|..] == tail;
  }

  /** A complete frame is handed to the reader whole, its verdict is passed on, and what follows is left. */
  lemma FrameIsRead<T>(body: seq<byte>, tail: seq<byte>, read: seq<byte> -> Parsed<T>)
    requires |body| <= 0x10_0000
    ensures var polled := PollFrame(Head, I32Bytes(|body|) + body + tail, read);
            match read(body)
            case Ok(v) => polled == Polled(Ok(Some(v.0)), Head, tail)
            case Err(e) => polled == Polled(Err(e), Head, tail)
            case Panic => polled == Polled(Panic, Head, tail)
  {
    FrameIsPolled(body, tail);
    assert HeadFor(REPO, |body|) == I32Bytes(|body|);
    hide DecodeStep, HeadFor, I32Bytes;
  }

  /** A length outside the admitted ones is a decode error, and nothing is consumed. */
  lemma RejectedHeadIsAnError<T>(n: i32, rest: seq<byte>, read: seq<byte> -> Parsed<T>)
    requires !(0 <= n <= 0x10_0000)
    ensures var b := I32Bytes(n) + rest; PollFrame(Head, b, read) == Polled(Err(DecodeError), Head, b)
  {
    RepoAdmits(n, rest);
    hide I32Bytes, ReadHead;
  }

  /** A frame that has arrived in part gives nothing yet. */
  lemma PartOfFrameWaits<T>(body: seq<byte>, b: seq<byte>, read: seq<byte> -> Parsed<T>)
    requires |body| <= 0x10_0000 && b < I32Bytes(|body|) + body
    ensures PollFrame(Head, b, read)
         == if |b| < 4 then Polled(Ok(None), Head, b) else Polled(Ok(None), Data(|body|), b[4..])
  {
    if |b| >= 4 {
      assert b[..4] == (I32Bytes(|body|) + body)[..4] == I32Bytes(|body|);
      assert b == I32Bytes(|body|) + b[4..];
      RepoAdmits(|body|, b[4..]);
    }
    hide I32Bytes, ReadHead;
  }

  /** Through the framer: a well-formed packet is read back from its frame, and what follows is left. */
  lemma FramedRequestRoundTrip(p: RequestPacket, tail: seq<byte>)
    requires WellFormed(p) && PacketSize(p) <= 0x10_0000
    ensures PollFrame(Head, ClientFrame(p) + tail, DecodeInner) == Polled(Ok(Some(ReadBack(p).0)), Head, tail)
  {
    hide DecodeInner, WellFormed, PacketBytes, PacketSize, DecodeStep, HeadFor, ReadBack;
    assert |PacketBytes(p)| == PacketSize(p);
    ClientFrameIsFramed(p);
    FrameIsPolled(PacketBytes(p), tail);
    RequestParseAfterPrint(p);
  }

  /** Through the framer: a well-formed reply is read back from its frame under a table that holds its opcode. */
  lemma FramedReplyRoundTrip(table: Opcodes, p: ResponsePacket, tail: seq<byte>)
    requires WellFormedReply(table, p) && |ReplyBytes(p)| <= 0x10_0000
    ensures ServerFrame(p).Ok?
    ensures PollFrame(Head, ServerFrame(p).value + tail, b => DecodeReply(table, b)) == Polled(Ok(Some(p)), Head, tail)
  {
    assert !p.response.Multi?;
    hide DecodeReply, WellFormedReply, ReplyBytes, PollFrame, ServerFrame;
    RepliesAreFramed(p);
    ReplyParseAfterPrint(table, p);
    FrameIsRead(ReplyBytes(p), tail, b => DecodeReply(table, b));
  }

  /** Through the framer: a connect reply is read back with a zero `read_only` under every table. */
  lemma FramedConnectReplyRoundTrip(table: Opcodes, x: ConnectResponse, tail: seq<byte>)
    requires x.protocolVersion == 0 && |ConnectResponseBytes(x)| <= 0x10_0000
    ensures var p := ResponsePacket(None, ZkResponse.Connect(x));
            && ServerFrame(p).Ok?
            && PollFrame(Head, ServerFrame(p).value + tail, b => DecodeReply(table, b))
            == Polled(Ok(Some(ResponsePacket(None, ZkResponse.Connect(x.(readOnly := 0))))), Head, tail)
  {
    var p := ResponsePacket(None, ZkResponse.Connect(x));
    hide DecodeReply, ConnectResponseBytes, PollFrame, ServerFrame;
    assert ReplyBytes(p) == [] + ConnectResponseBytes(x) == ConnectResponseBytes(x);
    ConnectReplyIsFramed(x);
    ConnectReplyParseAfterPrint(table, x);
    FrameIsRead(ConnectResponseBytes(x), tail, b => DecodeReply(table, b));
  }
}
