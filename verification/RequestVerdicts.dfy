/** Which client frames are accepted, which are errors, and which panic. */
module RequestVerdicts {
  import opened Outcomes
  import opened Bytes
  import opened Proto
  import opened Constants
  import opened Requests

  // ---------------------------------------------------------------- acceptance, exactly

  /** `b` is a connect record up to its password, and any bytes after that. */
  ghost predicate IsConnect(b: seq<byte>, x: ConnectRequest, tail: seq<byte>) {
    x.protocolVersion == 0 && b == ConnectRequestStem(x) + tail
  }

  /** `b` is the encoding of a well-formed packet with a header, and bytes after it where some may follow. */
  ghost predicate IsHeaded(b: seq<byte>, p: RequestPacket, rest: seq<byte>) {
    && p.header.Some? && WellFormed(p)
    && b == PacketBytes(p) + rest
    && (UsesUpBody(p.header.value) ==> rest == [])
  }

  lemma ConnectBodyIsConnect(b: seq<byte>)
    requires DecodeInner(b).Ok? && DecodeInner(b).value.0.header.None?
    ensures exists x, tail :: IsConnect(b, x, tail)
  {
    hide DecodeInner, PacketBytes, ConnectRequestStem;
    var (p, rest) := DecodeInner(b).value;
    RequestPrintAfterParse(b, p, rest);
    var x := p.request.connect;
    var stem := ConnectRequestStem(x);
    ConnectPacketBytes(p, x);
    var k := AfterPasswd(b, x);
    if k >= 2 {
      Regroup(stem, [x.readOnly], rest);
      assert IsConnect(b, x, [x.readOnly] + rest);
    } else {
      assert PacketBytes(p)[..|stem|] == stem;
      assert b[..|stem|] == stem;
      assert IsConnect(b, x, b[|stem|..]);
    }
  }

  lemma ConnectPacketBytes(p: RequestPacket, x: ConnectRequest)
    requires p == RequestPacket(None, Request.Connect(x))
    ensures PacketBytes(p) == ConnectRequestStem(x) + [x.readOnly]
  {
    hide ConnectRequestStem;
  }

  lemma HeadedBodyIsHeaded(b: seq<byte>)
    requires DecodeInner(b).Ok? && DecodeInner(b).value.0.header.Some? && |b| < I32_LIMIT
    ensures IsHeaded(b, DecodeInner(b).value.0, DecodeInner(b).value.1)
  {
    hide DecodeInner, PacketBytes, WellFormed, UsesUpBody;
    var (p, rest) := DecodeInner(b).value;
    RequestPrintAfterParse(b, p, rest);
    HeadedRequestRead(p, rest);
  }

  /**
    * A body is accepted exactly when it is a connect of version 0 followed by anything, or the encoding of a
    * well-formed packet, followed by anything where the decoder does not insist on the end.
    */
  lemma AcceptedExactly(b: seq<byte>)
    requires |b| < I32_LIMIT
    ensures DecodeInner(b).Ok?
       <==> (exists x, tail :: IsConnect(b, x, tail)) || (exists p, rest :: IsHeaded(b, p, rest))
  {
    hide DecodeInner, PacketBytes, ConnectRequestStem, UsesUpBody, WellFormed, IsHeaded, IsConnect;
    if DecodeInner(b).Ok? {
      if DecodeInner(b).value.0.header.None? {
        ConnectBodyIsConnect(b);
      } else {
        HeadedBodyIsHeaded(b);
      }
    }
    if x, tail :| IsConnect(b, x, tail) {
      ConnectIsAccepted(b, x, tail);
    }
    if p, rest :| IsHeaded(b, p, rest) {
      HeadedIsAccepted(b, p, rest);
    }
  }

  lemma ConnectIsAccepted(b: seq<byte>, x: ConnectRequest, tail: seq<byte>)
    requires IsConnect(b, x, tail) && |b| < I32_LIMIT
    ensures DecodeInner(b).Ok?
  {
    hide DecodeInner, ConnectRequestStem;
    ConnectRead(x, tail);
  }

  lemma HeadedIsAccepted(b: seq<byte>, p: RequestPacket, rest: seq<byte>)
    requires IsHeaded(b, p, rest) && |b| < I32_LIMIT
    ensures DecodeInner(b) == Ok((p, rest))
  {
    hide DecodeInner, PacketBytes, UsesUpBody, WellFormed;
    HeadedRequestRead(p, rest);
  }

  // ---------------------------------------------------------------- the numbers on the wire

  /** The frame of a data request: no xid of its own class, whose opcode decides. */
  predicate DataHeader(h: RequestHeader) {
    XidCodeOf(h.xid).None? || XidCodeOf(h.xid) == Some(WatchXid)
  }

  /** The request each number in a data request's header announces, in the protocol's own numbers. */
  predicate AnnouncedBy(n: i32, r: Request) {
    match n
    case 1 => r.Create?
    case 2 => r.Delete?
    case 3 => r.Exists?
    case 4 => r.GetData?
    case 5 => r.SetData?
    case 6 => r.GetAcl?
    case 7 => r.SetAcl?
    case 8 => r.GetChildren?
    case 9 => r.Sync?
    case 12 => r.GetChildren2?
    case 14 => r.Multi? && MultiWellFormed(r.multi)
    case 15 => r.Create?
    case 17 => r.CheckWatches?
    case 19 => r.Create?
    case 21 => r.CreateTTL?
    case 100 => r.Auth?
    case 101 => r.SetWatches?
    case 107 => r.Whoami?
    case -11 => r.Close?
    case _ => false
  }

  lemma AnnouncedIsVariant(n: i32, r: Request)
    ensures AnnouncedBy(n, r) <==> OpCodeOf(n).Some? && DataVariant(OpCodeOf(n).value, r)
  {
    AnnouncedExists(n, r);
    hide AnnouncedBy, DataVariant, OpCodeOf;
    if OpCodeOf(n).Some? {
      OpCodeOfNumber(n, OpCodeOf(n).value);
      AnnouncedByOpcode(OpCodeOf(n).value, r);
    }
  }

  lemma AnnouncedExists(n: i32, r: Request)
    ensures AnnouncedBy(n, r) ==> OpCodeOf(n).Some?
  {
    hide MultiWellFormed;
  }

  lemma AnnouncedByOpcode(op: OpCodes, r: Request)
    ensures AnnouncedBy(OpCodeNumber(op), r) <==> DataVariant(op, r)
  {
    hide AnnouncedBy, DataVariant, OpCodeNumber;
    if PathReading(op) || SessionReading(op) {
      AnnouncedByOwnReading(op, r);
    } else {
      AnnouncedAsOperation(op, r);
    }
  }

  lemma AnnouncedByOwnReading(op: OpCodes, r: Request)
    requires PathReading(op) || SessionReading(op)
    ensures AnnouncedBy(OpCodeNumber(op), r) <==> DataVariant(op, r)
  {
    hide MultiWellFormed, SubVariant;
  }

  lemma AnnouncedAsOperation(op: OpCodes, r: Request)
    requires !PathReading(op) && !SessionReading(op)
    ensures AnnouncedBy(OpCodeNumber(op), r) <==> DataVariant(op, r)
  {
    hide MultiWellFormed;
  }

  /** A data request is read under a number exactly when that number announces it; what follows is ignored or refused. */
  lemma ReadUnderNumber(h: RequestHeader, r: Request, rest: seq<byte>)
    requires DataHeader(h) && 8 + |RequestBytes(r)| + |rest| < I32_LIMIT
    ensures AnnouncedBy(h.opcode, r) ==>
              DecodeInner(RequestHeaderBytes(h) + (RequestBytes(r) + rest))
              == ReadBefore(RequestPacket(Some(h), r), rest, h.opcode == 9 || h.opcode == 14 || h.opcode == 107)
    ensures !AnnouncedBy(h.opcode, r) ==>
              var d := DecodeInner(RequestHeaderBytes(h) + (RequestBytes(r) + rest));
              d.Ok? ==> d.value.0.request != r
  {
    hide RequestHeaderBytes, RequestBytes, OpCodeOf, ParseData, DataVariant, AnnouncedBy, DecodeInner;
    DataBodyRead(h, RequestBytes(r) + rest);
    AnnouncedIsVariant(h.opcode, r);
    if OpCodeOf(h.opcode).Some? {
      var op := OpCodeOf(h.opcode).value;
      UsedUpNumbers(h.opcode, op);
      if DataVariant(op, r) {
        DataRoundTrip(op, r, rest);
      } else if ParseData(op, RequestBytes(r) + rest).Ok? {
        ParseDataVariant(op, RequestBytes(r) + rest);
      }
    }
  }

  lemma UsedUpNumbers(n: i32, op: OpCodes)
    requires OpCodeOf(n) == Some(op)
    ensures UsesUpData(op) <==> n == 9 || n == 14 || n == 107
  {
  }

  // ---------------------------------------------------------------- errors and panics

  /** Fewer bytes than a header are a panic, and so are as many as turn negative as an `i32`. */
  lemma ShortBodyPanics(b: seq<byte>)
    ensures |b| < 8 || 0x8000_0000 <= |b| < 0x1_0000_0000 ==> DecodeInner(b) == Panic
  {
  }

  lemma DataBodyRead(h: RequestHeader, body: seq<byte>)
    requires DataHeader(h) && |body| + 8 < I32_LIMIT
    ensures var r := DecodeInner(RequestHeaderBytes(h) + body);
            match OpCodeOf(h.opcode)
            case None => r == Err(InvalidOpCode(h.opcode))
            case Some(op) =>
              match ParseData(op, body)
              case Ok(v) => r == Ok((RequestPacket(Some(h), v.0), v.1))
              case Err(e) => r == Err(e)
              case Panic => r == Panic
  {
    hide RequestHeaderBytes, OpCodeOf, ParseRequestHeader, ParseData;
    RequestHeaderRoundTrip(h, body);
  }

  /** An opcode that does not exist is an error that names it, whatever the body. */
  lemma UnknownOpcodeIsAnError(h: RequestHeader, body: seq<byte>)
    requires DataHeader(h) && OpCodeOf(h.opcode).None? && |body| + 8 < I32_LIMIT
    ensures DecodeInner(RequestHeaderBytes(h) + body) == Err(InvalidOpCode(h.opcode))
  {
    hide DecodeInner, RequestHeaderBytes, OpCodeOf, ParseData;
    DataBodyRead(h, body);
  }

  /** The opcodes that exist but that the proxy reads no request for. */
  predicate Unread(op: OpCodes) {
    || op.Connect? || op.Ping? || op.Check? || op.Reconfig? || op.RemoveWatches? || op.MultiRead? || op.Sasl?
    || op.GetEphemerals? || op.GetAllChildrenNumber? || op.SetWatches2? || op.AddWatch? || op.CreateSession?
    || op.Error?
  }

  /** An opcode that exists panics on every body exactly when the proxy reads no request for it. */
  lemma UnreadOpcodePanics(h: RequestHeader, op: OpCodes)
    requires DataHeader(h) && OpCodeOf(h.opcode) == Some(op)
    ensures Unread(op)
       <==> forall body :: |body| + 8 < I32_LIMIT ==> DecodeInner(RequestHeaderBytes(h) + body) == Panic
  {
    hide DecodeInner, RequestHeaderBytes, OpCodeOf, ParseData, RequestBytes;
    hide SomeRequest, DataVariant, DataHeader, Unread;
    if Unread(op) {
      forall body | |body| + 8 < I32_LIMIT
        ensures DecodeInner(RequestHeaderBytes(h) + body) == Panic
      {
        DataBodyRead(h, body);
        UnreadDataPanics(op, body);
      }
    } else {
      var r := SomeRequest(op);
      var body := RequestBytes(r);
      SomeRequestIsShort(op);
      DataBodyRead(h, body);
      DataRoundTrip(op, r, []);
      assert body + [] == body;
    }
  }

  lemma UnreadDataPanics(op: OpCodes, body: seq<byte>)
    requires Unread(op)
    ensures ParseData(op, body) == Panic
  {
  }

  /** A request of the variant each opcode is read as. */
  function SomeRequest(op: OpCodes): Request
    requires !Unread(op)
  {
    var create := CreateRequest([], [], [], 0);
    var lookup := WatchedPath([], 0);
    match op
    case Create => Request.Create(create)
    case Create2 => Request.Create(create)
    case CreateContainer => Request.Create(create)
    case CreateTtl => Request.CreateTTL(CreateTTLRequest(create, 0))
    case Delete => Request.Delete(NumberedPath([], 0))
    case Exists => Request.Exists(lookup)
    case GetData => Request.GetData(lookup)
    case SetData => Request.SetData(SetDataRequest([], [], 0))
    case GetAcl => Request.GetAcl([])
    case SetAcl => Request.SetAcl(SetACLRequest([], [], 0))
    case GetChildren => Request.GetChildren(lookup)
    case GetChildren2 => Request.GetChildren2(lookup)
    case SetAuth => Request.Auth(AuthPacket(0, [], []))
    case SetWatches => Request.SetWatches(Proto.SetWatches(0, [], [], []))
    case CheckWatches => Request.CheckWatches(NumberedPath([], 0))
    case WhoAmI => Request.Whoami
    case Multi => Request.Multi(MultiRequest([], MultiHeader(-1, 1, -1)))
    case Sync => Request.Sync([])
    case Close => Request.Close
  }

  lemma SomeRequestIsShort(op: OpCodes)
    requires !Unread(op)
    ensures DataVariant(op, SomeRequest(op)) && |RequestBytes(SomeRequest(op))| < 64
  {
    RequestSizeExact(SomeRequest(op));
  }

  /** The opcodes whose request begins with a path. */
  predicate BeginsWithPath(op: OpCodes) {
    || op.Create? || op.Create2? || op.CreateContainer? || op.CreateTtl? || op.Delete? || op.Exists? || op.GetData?
    || op.SetData? || op.GetAcl? || op.SetAcl? || op.GetChildren? || op.GetChildren2? || op.CheckWatches? || op.Sync?
  }

  /** A path that is no UTF-8 is an error, and no panic, under every opcode whose request begins with one. */
  lemma BadPathIsAnError(h: RequestHeader, s: seq<byte>, rest: seq<byte>)
    requires DataHeader(h) && OpCodeOf(h.opcode).Some? && BeginsWithPath(OpCodeOf(h.opcode).value)
    requires !ValidUtf8(s) && BufSize(s) + |rest| + 8 < I32_LIMIT
    ensures DecodeInner(RequestHeaderBytes(h) + (BufBytes(s) + rest)) == Err(InvalidString)
  {
    hide DecodeInner, RequestHeaderBytes, OpCodeOf, ParseData, ParseStr, ValidUtf8, BufBytes;
    DataBodyRead(h, BufBytes(s) + rest);
    StrRefused(s, rest);
    BadPathData(OpCodeOf(h.opcode).value, BufBytes(s) + rest);
  }

  lemma BadPathData(op: OpCodes, b: seq<byte>)
    requires BeginsWithPath(op) && ParseStr(b) == Err(InvalidString)
    ensures ParseData(op, b) == Err(InvalidString)
  {
    hide ParseStr, ParseBuf, ParseAcls, ParseI32, ParseI64, ParseU8, ParseAuthPacket, ParseSetWatches, ParseMulti;
  }

  /** The opcodes an operation inside a multi may have. */
  predicate IsOperation(op: OpCodes) {
    || op.Create? || op.Create2? || op.CreateContainer? || op.CreateTtl? || op.Delete? || op.SetData? || op.Check?
    || op.GetChildren? || op.Exists? || op.GetData?
  }

  /**
    * After any operations, one whose opcode does not exist is an error that names it, and one whose opcode is not an
    * operation's is a panic. Here the last header stands for that operation's.
    */
  lemma {:induction false} BadOperationRead(m: MultiRequest, rest: seq<byte>)
    requires (forall op <- m.ops :: OpAgrees(op)) && m.doneHeader.done != 1 && |MultiBytes(m)| < I32_LIMIT
    ensures var r := ParseMulti(MultiBytes(m) + rest);
            match OpCodeOf(m.doneHeader.opcode)
            case None => r == Err(InvalidOpCode(m.doneHeader.opcode))
            case Some(op) => !IsOperation(op) ==> r == Panic
    decreases |m.ops|
  {
    hide OpCodeOf;
    if m.ops == [] {
      assert [] + MultiHeaderBytes(m.doneHeader) == MultiHeaderBytes(m.doneHeader);
      MultiHeaderRoundTrip(m.doneHeader, rest);
      hide MultiHeaderBytes, ParseMultiHeader;
    } else {
      var op, others := m.ops[0], MultiRequest(m.ops[1..], m.doneHeader);
      assert [op] + m.ops[1..] == m.ops;
      WithOpBytes(op, others, []);
      WithOpBytes(op, others, rest);
      BadOperationRead(others, rest);
      MultiHeaderRoundTrip(op.header, RequestBytes(op.request) + (MultiBytes(others) + rest));
      OpRoundTrip(op, MultiBytes(others) + rest);
      hide MultiHeaderBytes, ParseMultiHeader, ParseOp, IsOperation, MultiBytes, RequestBytes, MultiWellFormed;
    }
  }
}
