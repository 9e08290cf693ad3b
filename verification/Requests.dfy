/** Requests: the packet a client frame decodes to, its bytes, and the server-side decoder. */
module Requests {
  import opened Outcomes
  import opened Bytes
  import opened Proto
  import opened Constants

  datatype Request =
    | Connect(connect: ConnectRequest)
    | Auth(auth: AuthPacket)
    | Create(create: CreateRequest)
    | CreateTTL(createTTL: CreateTTLRequest)
    | Delete(delete: NumberedPath)
    | Exists(lookup: WatchedPath)
    | GetData(getData: WatchedPath)
    | SetData(setData: SetDataRequest)
    | GetAcl(path: Utf8)
    | SetAcl(setAcl: SetACLRequest)
    | GetChildren(getChildren: WatchedPath)
    | GetChildren2(getChildren2: WatchedPath)
    | Ping
    | Whoami
    | GetChildren3(getChildren3: WatchedPath)
    | Multi(multi: MultiRequest)
    | Close
    | SetWatches(setWatches: Proto.SetWatches)
    | CheckWatches(checkWatches: NumberedPath)
    | Sync(syncPath: Utf8)

  datatype Op = Op(header: MultiHeader, request: Request)

  datatype MultiRequest = MultiRequest(ops: seq<Op>, doneHeader: MultiHeader)

  datatype RequestPacket = RequestPacket(header: Option<RequestHeader>, request: Request)

  // ---------------------------------------------------------------- sizes and bytes

  function RequestSize(r: Request): nat {
    match r
    case Connect(x) => ConnectRequestSize(x)
    case Auth(x) => AuthPacketSize(x)
    case Create(x) => CreateSize(x)
    case CreateTTL(x) => CreateTTLSize(x)
    case Delete(x) => NumberedPathSize(x)
    case Exists(x) => WatchedPathSize(x)
    case GetData(x) => WatchedPathSize(x)
    case SetData(x) => SetDataSize(x)
    case GetAcl(x) => StrSize(x)
    case SetAcl(x) => SetAclSize(x)
    case GetChildren(x) => WatchedPathSize(x)
    case GetChildren2(x) => WatchedPathSize(x)
    case Ping => 0
    case Whoami => 0
    case GetChildren3(x) => WatchedPathSize(x)
    case Multi(x) => MultiSize(x)
    case Close => 0
    case SetWatches(x) => SetWatchesSize(x)
    case CheckWatches(x) => NumberedPathSize(x)
    case Sync(x) => StrSize(x)
  }

  function MultiSize(m: MultiRequest): nat { OpsSize(m.ops) + MultiHeaderSize(m.doneHeader) }

  function OpsSize(ops: seq<Op>): nat {
    if ops == [] then 0
    else OpSize(ops[0]) + OpsSize(ops[1..])
  }

  function OpSize(op: Op): nat { MultiHeaderSize(op.header) + RequestSize(op.request) }

  function RequestBytes(r: Request): seq<byte> {
    match r
    case Connect(x) => ConnectRequestBytes(x)
    case Auth(x) => AuthPacketBytes(x)
    case Create(x) => CreateBytes(x)
    case CreateTTL(x) => CreateTTLBytes(x)
    case Delete(x) => NumberedPathBytes(x)
    case Exists(x) => WatchedPathBytes(x)
    case GetData(x) => WatchedPathBytes(x)
    case SetData(x) => SetDataBytes(x)
    case GetAcl(x) => StrBytes(x)
    case SetAcl(x) => SetAclBytes(x)
    case GetChildren(x) => WatchedPathBytes(x)
    case GetChildren2(x) => WatchedPathBytes(x)
    case Ping => []
    case Whoami => []
    case GetChildren3(x) => WatchedPathBytes(x)
    case Multi(x) => MultiBytes(x)
    case Close => []
    case SetWatches(x) => SetWatchesBytes(x)
    case CheckWatches(x) => NumberedPathBytes(x)
    case Sync(x) => StrBytes(x)
  }

  function MultiBytes(m: MultiRequest): seq<byte> { OpsBytes(m.ops) + MultiHeaderBytes(m.doneHeader) }

  function OpsBytes(ops: seq<Op>): seq<byte> {
    if ops == [] then []
    else OpBytes(ops[0]) + OpsBytes(ops[1..])
  }

  function OpBytes(op: Op): seq<byte> { MultiHeaderBytes(op.header) + RequestBytes(op.request) }

  /** `serialize_into` appends exactly `size()` bytes, for a multi of any length. */
  lemma {:induction false} RequestSizeExact(r: Request)
    ensures |RequestBytes(r)| == RequestSize(r)
  {
    match r {
      case Multi(x) => OpsSizeExact(x.ops);
      case _ =>
    }
  }

  lemma {:induction false} OpsSizeExact(ops: seq<Op>)
    ensures |OpsBytes(ops)| == OpsSize(ops)
  {
    if ops != [] {
      OpSizeExact(ops[0]);
      OpsSizeExact(ops[1..]);
    }
  }

  lemma {:induction false} OpSizeExact(op: Op)
    ensures |OpBytes(op)| == OpSize(op)
  {
    RequestSizeExact(op.request);
  }

  function PacketSize(p: RequestPacket): nat {
    (if p.header.Some? then RequestHeaderSize(p.header.value) else 0) + RequestSize(p.request)
  }

  function PacketBytes(p: RequestPacket): (e: seq<byte>)
    ensures |e| == PacketSize(p)
  {
    RequestSizeExact(p.request);
    (if p.header.Some? then RequestHeaderBytes(p.header.value) else []) + RequestBytes(p.request)
  }

  // ---------------------------------------------------------------- operations inside a multi

  /** The variant `Request::deserialize` builds for an opcode. */
  predicate SubVariant(op: OpCodes, r: Request) {
    match op
    case Create => r.Create?
    case Create2 => r.Create?
    case CreateContainer => r.Create?
    case CreateTtl => r.CreateTTL?
    case Delete => r.Delete?
    case SetData => r.SetData?
    case Check => r.CheckWatches?
    case GetChildren => r.GetChildren?
    case Exists => r.Exists?
    case GetData => r.GetData?
    case _ => false
  }

  /** `Request::deserialize`, on the bytes after the header of one operation. */
  function ParseSub(op: OpCodes, b: seq<byte>): Parsed<Request> {
    match op
    case Create => var (x, b) :- ParseCreate(b); Ok((Request.Create(x), b))
    case Create2 => var (x, b) :- ParseCreate(b); Ok((Request.Create(x), b))
    case CreateContainer => var (x, b) :- ParseCreate(b); Ok((Request.Create(x), b))
    case CreateTtl => var (x, b) :- ParseCreateTTL(b); Ok((Request.CreateTTL(x), b))
    case Delete => var (x, b) :- ParseNumberedPath(b); Ok((Request.Delete(x), b))
    case SetData => var (x, b) :- ParseSetData(b); Ok((Request.SetData(x), b))
    case Check => var (x, b) :- ParseNumberedPath(b); Ok((Request.CheckWatches(x), b))
    case GetChildren => var (x, b) :- ParseWatchedPath(b); Ok((Request.GetChildren(x), b))
    case Exists => var (x, b) :- ParseWatchedPath(b); Ok((Request.Exists(x), b))
    case GetData => var (x, b) :- ParseWatchedPath(b); Ok((Request.GetData(x), b))
    case _ => Panic
  }

  lemma ParseSubExact(op: OpCodes, b: seq<byte>)
    requires ParseSub(op, b).Ok?
    ensures var (r, rest) := ParseSub(op, b).value; SubVariant(op, r) && b == RequestBytes(r) + rest
  {
    hide CreateBytes, CreateTTLBytes, NumberedPathBytes, SetDataBytes, WatchedPathBytes;
    hide ParseCreate, ParseCreateTTL, ParseNumberedPath, ParseSetData, ParseWatchedPath;
  }

  lemma SubRoundTrip(op: OpCodes, r: Request, rest: seq<byte>)
    requires SubVariant(op, r) && |RequestBytes(r)| < I32_LIMIT
    ensures ParseSub(op, RequestBytes(r) + rest) == Ok((r, rest))
  {
    hide CreateBytes, CreateTTLBytes, NumberedPathBytes, SetDataBytes, WatchedPathBytes;
    hide ParseCreate, ParseCreateTTL, ParseNumberedPath, ParseSetData, ParseWatchedPath;
    match r {
      case Create(x) => CreateRoundTrip(x, rest);
      case CreateTTL(x) => CreateTTLRoundTrip(x, rest);
      case Delete(x) => NumberedPathRoundTrip(x, rest);
      case SetData(x) => SetDataRoundTrip(x, rest);
      case CheckWatches(x) => NumberedPathRoundTrip(x, rest);
      case GetChildren(x) => WatchedPathRoundTrip(x, rest);
      case Exists(x) => WatchedPathRoundTrip(x, rest);
      case GetData(x) => WatchedPathRoundTrip(x, rest);
    }
  }

  /** Every header but the last is not a terminator and agrees with the request after it. */
  predicate OpAgrees(op: Op) {
    && op.header.done != 1
    && OpCodeOf(op.header.opcode).Some?
    && SubVariant(OpCodeOf(op.header.opcode).value, op.request)
  }

  predicate MultiWellFormed(m: MultiRequest) {
    && (forall op <- m.ops :: OpAgrees(op))
    && m.doneHeader.done == 1
  }

  function WithOp(op: Op, m: MultiRequest): MultiRequest {
    MultiRequest([op] + m.ops, m.doneHeader)
  }

  lemma WithOpBytes(op: Op, m: MultiRequest, rest: seq<byte>)
    ensures MultiBytes(WithOp(op, m)) + rest
         == MultiHeaderBytes(op.header) + (RequestBytes(op.request) + (MultiBytes(m) + rest))
  {
    var h, q := MultiHeaderBytes(op.header), RequestBytes(op.request);
    assert ([op] + m.ops)[1..] == m.ops;
    assert OpsBytes([op] + m.ops) == (h + q) + OpsBytes(m.ops);
    Regroup(h + q, OpsBytes(m.ops), MultiHeaderBytes(m.doneHeader));
    Regroup3(h, q, MultiBytes(m), rest);
  }

  function ParseOp(header: MultiHeader, b: seq<byte>): Parsed<Op> {
    match OpCodeOf(header.opcode)
    case None => Err(InvalidOpCode(header.opcode))
    case Some(op) =>
      var (req, b) :- ParseSub(op, b);
      Ok((Op(header, req), b))
  }

  lemma ParseOpExact(header: MultiHeader, b: seq<byte>)
    requires ParseOp(header, b).Ok?
    ensures var (op, rest) := ParseOp(header, b).value;
            && op.header == header
            && (header.done != 1 ==> OpAgrees(op))
            && b == RequestBytes(op.request) + rest
  {
    ParseSubExact(OpCodeOf(header.opcode).value, b);
  }

  lemma OpRoundTrip(op: Op, rest: seq<byte>)
    requires OpAgrees(op) && |RequestBytes(op.request)| < I32_LIMIT
    ensures ParseOp(op.header, RequestBytes(op.request) + rest) == Ok((op, rest))
  {
    SubRoundTrip(OpCodeOf(op.header.opcode).value, op.request, rest);
  }

  /** `MultiRequest::deserialize`: each turn consumes a header of nine bytes, so the loop ends. */
  function ParseMulti(b: seq<byte>): (r: Parsed<MultiRequest>)
    ensures r.Ok? ==> MultiWellFormed(r.value.0) && b == MultiBytes(r.value.0) + r.value.1
    decreases |b|
  {
    var (header, b1) :- ParseMultiHeader(b);
    if header.done == 1 then
      assert [] + MultiHeaderBytes(header) == MultiHeaderBytes(header);
      Ok((MultiRequest([], header), b1))
    else
      var (op, b2) :- ParseOp(header, b1);
      ParseOpExact(header, b1);
      var (m, b3) :- ParseMulti(b2);
      WithOpBytes(op, m, b3);
      Ok((WithOp(op, m), b3))
  }

  /** Parse-after-print for a multi of any length, with the remainder preserved. */
  lemma {:induction false} MultiRoundTrip(m: MultiRequest, rest: seq<byte>)
    requires MultiWellFormed(m) && |MultiBytes(m)| < I32_LIMIT
    ensures ParseMulti(MultiBytes(m) + rest) == Ok((m, rest))
    decreases |m.ops|
  {
    if m.ops == [] {
      assert [] + MultiHeaderBytes(m.doneHeader) == MultiHeaderBytes(m.doneHeader);
      MultiHeaderRoundTrip(m.doneHeader, rest);
    } else {
      var op, others := m.ops[0], MultiRequest(m.ops[1..], m.doneHeader);
      assert [op] + m.ops[1..] == m.ops;
      WithOpBytes(op, others, []);
      WithOpBytes(op, others, rest);
      MultiRoundTrip(others, rest);
      MultiHeaderRoundTrip(op.header, RequestBytes(op.request) + (MultiBytes(others) + rest));
      OpRoundTrip(op, MultiBytes(others) + rest);
    }
  }

  // ---------------------------------------------------------------- the server-side decoder

  /** The variant `decode_inner` builds for the opcode of a data request. */
  predicate DataVariant(op: OpCodes, r: Request) {
    match op
    case GetChildren2 => r.GetChildren2?
    case GetAcl => r.GetAcl?
    case SetAcl => r.SetAcl?
    case Close => r.Close?
    case SetAuth => r.Auth?
    case SetWatches => r.SetWatches?
    case CheckWatches => r.CheckWatches?
    case WhoAmI => r.Whoami?
    case Multi => r.Multi? && MultiWellFormed(r.multi)
    case Sync => r.Sync?
    case Check => false
    case _ => SubVariant(op, r)
  }

  /** `assert!(src.is_empty())` after a read. */
  function Whole<T>(r: Parsed<T>): Parsed<T> {
    if r.Ok? && r.value.1 != [] then Panic else r
  }

  function ParseData(op: OpCodes, b: seq<byte>): Parsed<Request> {
    match op
    case GetChildren2 => var (x, b) :- ParseWatchedPath(b); Ok((Request.GetChildren2(x), b))
    case GetAcl => var (x, b) :- ParseStr(b); Ok((Request.GetAcl(x), b))
    case SetAcl => var (x, b) :- ParseSetAcl(b); Ok((Request.SetAcl(x), b))
    case Close => Ok((Request.Close, b))
    case SetAuth => var (x, b) :- ParseAuthPacket(b); Ok((Request.Auth(x), b))
    case SetWatches => var (x, b) :- ParseSetWatches(b); Ok((Request.SetWatches(x), b))
    case CheckWatches => var (x, b) :- ParseNumberedPath(b); Ok((Request.CheckWatches(x), b))
    case WhoAmI => Whole(Ok((Request.Whoami, b)))
    case Multi => var (x, b) :- Whole(ParseMulti(b)); Ok((Request.Multi(x), b))
    case Sync => var (x, b) :- Whole(ParseStr(b)); Ok((Request.Sync(x), b))
    case Check => Panic
    case _ => ParseSub(op, b)
  }

  // `decode_inner` reads some opcodes in ways of its own, not as an operation of a multi: those about one path,
  // and those about the session.

  predicate PathReading(op: OpCodes) {
    op.GetChildren2? || op.GetAcl? || op.SetAcl? || op.CheckWatches? || op.Sync?
  }

  predicate SessionReading(op: OpCodes) {
    op.Close? || op.SetAuth? || op.SetWatches? || op.WhoAmI? || op.Multi? || op.Check?
  }

  lemma ParseDataVariant(op: OpCodes, b: seq<byte>)
    requires ParseData(op, b).Ok?
    ensures DataVariant(op, ParseData(op, b).value.0)
  {
    hide ParseWatchedPath, ParseSetAcl, ParseAuthPacket, ParseSetWatches, ParseNumberedPath, ParseStr, ParseMulti;
    hide SubVariant, ParseSub, MultiWellFormed;
    if ParseSub(op, b).Ok? {
      ParseSubExact(op, b);
    }
  }

  lemma PathDataExact(op: OpCodes, b: seq<byte>)
    requires ParseData(op, b).Ok? && PathReading(op)
    ensures var (r, rest) := ParseData(op, b).value; b == RequestBytes(r) + rest
  {
    hide WatchedPathBytes, SetAclBytes, NumberedPathBytes, StrBytes;
    hide ParseWatchedPath, ParseSetAcl, ParseNumberedPath, ParseStr;
    hide ParseAuthPacket, ParseSetWatches, ParseMulti, ParseSub, SubVariant, MultiWellFormed;
  }

  lemma SessionRequestBytes(r: Request)
    ensures r.Close? || r.Whoami? ==> RequestBytes(r) == []
    ensures r.Auth? ==> RequestBytes(r) == AuthPacketBytes(r.auth)
    ensures r.SetWatches? ==> RequestBytes(r) == SetWatchesBytes(r.setWatches)
    ensures r.Multi? ==> RequestBytes(r) == MultiBytes(r.multi)
  {
    hide ConnectRequestBytes, CreateBytes, CreateTTLBytes, NumberedPathBytes, WatchedPathBytes, SetDataBytes;
    hide StrBytes, SetAclBytes, AuthPacketBytes, SetWatchesBytes, MultiBytes;
  }

  lemma SessionDataExact(op: OpCodes, b: seq<byte>)
    requires ParseData(op, b).Ok? && SessionReading(op)
    ensures var (r, rest) := ParseData(op, b).value; b == RequestBytes(r) + rest
  {
    hide AuthPacketBytes, SetWatchesBytes, MultiBytes, ParseAuthPacket, ParseSetWatches, ParseMulti;
    hide ParseWatchedPath, ParseSetAcl, ParseNumberedPath, ParseStr, ParseSub, RequestBytes, MultiWellFormed;
    SessionRequestBytes(ParseData(op, b).value.0);
    assert b == [] + b;
  }

  lemma ParseDataExact(op: OpCodes, b: seq<byte>)
    requires ParseData(op, b).Ok?
    ensures var (r, rest) := ParseData(op, b).value; b == RequestBytes(r) + rest
  {
    hide RequestBytes, ParseSub;
    if PathReading(op) {
      PathDataExact(op, b);
    } else if SessionReading(op) {
      SessionDataExact(op, b);
    } else {
      ParseSubExact(op, b);
    }
  }

  lemma ParseDataAccepts(op: OpCodes, b: seq<byte>)
    requires ParseData(op, b).Ok?
    ensures var (r, rest) := ParseData(op, b).value; DataVariant(op, r) && b == RequestBytes(r) + rest
  {
    hide ParseData, DataVariant, RequestBytes;
    ParseDataVariant(op, b);
    ParseDataExact(op, b);
  }

  /** Decodes the body of one frame: the packet, and the trailing bytes that are dropped with the frame. */
  function DecodeInner(b: seq<byte>): Parsed<RequestPacket> {
    if AsI32(|b|) < 8 then Panic
    else
      var (header, body) :- ParseRequestHeader(b);
      match XidCodeOf(header.xid)
      case Some(ConnectXid) =>
        var (x, rest) :- ParseConnectRequest(b);
        Ok((RequestPacket(None, Request.Connect(x)), rest))
      case Some(PingXid) =>
        Whole(Ok((RequestPacket(Some(header), Request.Ping), body)))
      case Some(AuthXid) =>
        var (x, rest) :- Whole(ParseAuthPacket(body));
        Ok((RequestPacket(Some(header), Request.Auth(x)), rest))
      case Some(SetWatchesXid) =>
        var (x, rest) :- Whole(ParseSetWatches(body));
        Ok((RequestPacket(Some(header), Request.SetWatches(x)), rest))
      case _ =>
        match OpCodeOf(header.opcode)
        case None => Err(InvalidOpCode(header.opcode))
        case Some(op) =>
          var (x, rest) :- ParseData(op, body);
          Ok((RequestPacket(Some(header), x), rest))
  }

  /** What `decode_inner` can produce: the header class and the opcode agree with the variant. */
  predicate WellFormed(p: RequestPacket) {
    match p.header
    case None => p.request.Connect? && p.request.connect.protocolVersion == 0
    case Some(h) =>
      match XidCodeOf(h.xid)
      case Some(ConnectXid) => false
      case Some(PingXid) => p.request.Ping?
      case Some(AuthXid) => p.request.Auth?
      case Some(SetWatchesXid) => p.request.SetWatches?
      case _ => OpCodeOf(h.opcode).Some? && DataVariant(OpCodeOf(h.opcode).value, p.request)
  }

  /** The request no reader of the proxy produces is written as the record it holds. */
  lemma WrittenOnlyRequest(x: WatchedPath, rest: seq<byte>)
    requires |WatchedPathBytes(x)| < I32_LIMIT
    ensures ParseWatchedPath(RequestBytes(Request.GetChildren3(x)) + rest) == Ok((x, rest))
  {
    hide WatchedPathBytes, ParseWatchedPath;
    WatchedPathRoundTrip(x, rest);
  }

  // ---------------------------------------------------------------- print after parse

  /** The bytes of a connect frame after its password. */
  function AfterPasswd(b: seq<byte>, x: ConnectRequest): int {
    |b| - |ConnectRequestStem(x)|
  }

  /**
    * What re-encoding an accepted body gives. Outside a connect it is the body without the bytes the decoder
    * ignored. A connect with no byte after the password gains a zero; with one, that byte becomes zero; with more,
    * the first is kept and the rest dropped.
    */
  lemma RequestPrintAfterParse(b: seq<byte>, p: RequestPacket, rest: seq<byte>)
    requires DecodeInner(b) == Ok((p, rest))
    ensures WellFormed(p)
    ensures p.header.Some? ==> b == PacketBytes(p) + rest
    ensures p.header.None? ==>
              var k := AfterPasswd(b, p.request.connect);
              && k >= 0
              && (k == 0 ==> PacketBytes(p) == b + [0])
              && (k == 1 ==> PacketBytes(p) == b[..|b| - 1] + [0])
              && (k >= 2 ==> b == PacketBytes(p) + rest && |rest| == k - 1)
  {
    hide DecodeInner, PacketBytes, ConnectRequestStem;
    if p.header.Some? {
      HeadedPrintAfterParse(b, p, rest);
    } else {
      ConnectPrintAfterParse(b, p, rest);
    }
  }

  lemma HeadedPrintAfterParse(b: seq<byte>, p: RequestPacket, rest: seq<byte>)
    requires DecodeInner(b) == Ok((p, rest)) && p.header.Some?
    ensures WellFormed(p) && b == PacketBytes(p) + rest
  {
    hide AuthPacketBytes, SetWatchesBytes, RequestHeaderBytes, OpCodeOf;
    hide ParseAuthPacket, ParseSetWatches, ParseRequestHeader, ParseData, DataVariant;
    var (header, body) := ParseRequestHeader(b).value;
    match XidCodeOf(header.xid) {
      case Some(PingXid) => assert body == [] + rest;
      case Some(AuthXid) =>
      case Some(SetWatchesXid) =>
      case Some(WatchXid) => ParseDataAccepts(OpCodeOf(header.opcode).value, body);
      case None => ParseDataAccepts(OpCodeOf(header.opcode).value, body);
    }
    assert body == RequestBytes(p.request) + rest;
    Join(b, RequestHeaderBytes(header), body, RequestBytes(p.request), rest);
  }

  lemma ConnectPrintAfterParse(b: seq<byte>, p: RequestPacket, rest: seq<byte>)
    requires DecodeInner(b) == Ok((p, rest)) && p.header.None?
    ensures p.request.Connect? && p.request.connect.protocolVersion == 0
    ensures var x := p.request.connect;
            var k := AfterPasswd(b, x);
            && k >= 0
            && (k == 0 ==> PacketBytes(p) == b + [0])
            && (k == 1 ==> PacketBytes(p) == b[..|b| - 1] + [0])
            && (k >= 2 ==> b == PacketBytes(p) + rest && |rest| == k - 1)
  {
    hide RequestHeaderBytes, OpCodeOf, ParseData, ParseAuthPacket, ParseSetWatches;
    hide ConnectRequestBytes, ConnectRequestStem, ParseConnectRequest, ParseRequestHeader;
    ConnectVersionIsXid(b);
    ConnectReencoded(b);
    assert PacketBytes(p) == [] + ConnectRequestBytes(p.request.connect);
  }

  lemma ConnectReencoded(b: seq<byte>)
    requires ParseConnectRequest(b).Ok?
    ensures var (x, rest) := ParseConnectRequest(b).value;
            var k := AfterPasswd(b, x);
            && k >= 0
            && (k == 0 ==> ConnectRequestBytes(x) == b + [0])
            && (k == 1 ==> ConnectRequestBytes(x) == b[..|b| - 1] + [0])
            && (k >= 2 ==> b == ConnectRequestBytes(x) + rest && |rest| == k - 1)
  {
    hide ConnectRequestStem, ParseConnectRequest;
    var (x, rest) := ParseConnectRequest(b).value;
    var k := AfterPasswd(b, x);
    if k <= 1 {
      assert b == ConnectRequestStem(x) + rest;
      assert k == |rest|;
      assert b[..|b| - k] == ConnectRequestStem(x);
    }
  }

  /** The first four bytes are the xid of a header and the protocol version of a connect. */
  lemma ConnectVersionIsXid(b: seq<byte>)
    requires ParseConnectRequest(b).Ok?
    ensures ParseRequestHeader(b).Ok?
    ensures ParseConnectRequest(b).value.0.protocolVersion == ParseRequestHeader(b).value.0.xid
  {
  }

  // ---------------------------------------------------------------- parse after print

  /** A packet as it is read back: a connect loses its `read_only`, which is left as the last byte. */
  function ReadBack(p: RequestPacket): (RequestPacket, seq<byte>) {
    if p.request.Connect? && p.header.None? then
      var x := p.request.connect;
      (RequestPacket(None, Request.Connect(x.(readOnly := 0))), [x.readOnly])
    else (p, [])
  }

  /** The data requests after which nothing may follow. */
  predicate UsesUpData(op: OpCodes) {
    op.WhoAmI? || op.Multi? || op.Sync?
  }

  /** The requests after which nothing may follow; after the others the decoder ignores what does. */
  predicate UsesUpBody(h: RequestHeader) {
    match XidCodeOf(h.xid)
    case Some(PingXid) => true
    case Some(AuthXid) => true
    case Some(SetWatchesXid) => true
    case _ => OpCodeOf(h.opcode).Some? && UsesUpData(OpCodeOf(h.opcode).value)
  }

  /** A value read back with what follows it, where something may follow. */
  function ReadBefore<T>(x: T, rest: seq<byte>, usesUp: bool): Parsed<T> {
    if usesUp && rest != [] then Panic else Ok((x, rest))
  }

  lemma PathDataRoundTrip(op: OpCodes, r: Request, rest: seq<byte>)
    requires PathReading(op) && DataVariant(op, r) && |RequestBytes(r)| < I32_LIMIT
    ensures ParseData(op, RequestBytes(r) + rest) == ReadBefore(r, rest, UsesUpData(op))
  {
    hide RequestBytes, WatchedPathBytes, SetAclBytes, NumberedPathBytes, StrBytes;
    hide ParseWatchedPath, ParseSetAcl, ParseNumberedPath, ParseStr;
    hide ParseAuthPacket, ParseSetWatches, ParseMulti, ParseSub, SubVariant, MultiWellFormed;
    PathRequestBytes(r);
    match op {
      case GetChildren2 => WatchedPathRoundTrip(r.getChildren2, rest);
      case GetAcl => StrRoundTrip(r.path, rest);
      case SetAcl => SetAclRoundTrip(r.setAcl, rest);
      case CheckWatches => NumberedPathRoundTrip(r.checkWatches, rest);
      case Sync => StrRoundTrip(r.syncPath, rest);
    }
  }

  lemma PathRequestBytes(r: Request)
    ensures r.GetChildren2? ==> RequestBytes(r) == WatchedPathBytes(r.getChildren2)
    ensures r.GetAcl? ==> RequestBytes(r) == StrBytes(r.path)
    ensures r.SetAcl? ==> RequestBytes(r) == SetAclBytes(r.setAcl)
    ensures r.CheckWatches? ==> RequestBytes(r) == NumberedPathBytes(r.checkWatches)
    ensures r.Sync? ==> RequestBytes(r) == StrBytes(r.syncPath)
  {
    hide ConnectRequestBytes, CreateBytes, CreateTTLBytes, NumberedPathBytes, WatchedPathBytes, SetDataBytes;
    hide StrBytes, SetAclBytes, AuthPacketBytes, SetWatchesBytes, MultiBytes;
  }

  lemma SessionDataRoundTrip(op: OpCodes, r: Request, rest: seq<byte>)
    requires SessionReading(op) && DataVariant(op, r) && |RequestBytes(r)| < I32_LIMIT
    ensures ParseData(op, RequestBytes(r) + rest) == ReadBefore(r, rest, UsesUpData(op))
  {
    hide RequestBytes, ParseAuthPacket, ParseSetWatches, ParseMulti, MultiWellFormed, MultiBytes;
    hide ParseWatchedPath, ParseSetAcl, ParseNumberedPath, ParseStr, ParseSub, SubVariant;
    SessionRequestBytes(r);
    assert [] + rest == rest;
    match op {
      case Close =>
      case SetAuth => AuthPacketRoundTrip(r.auth, rest);
      case SetWatches => SetWatchesRoundTrip(r.setWatches, rest);
      case WhoAmI =>
      case Multi => MultiRoundTrip(r.multi, rest);
    }
  }

  lemma DataRoundTrip(op: OpCodes, r: Request, rest: seq<byte>)
    requires DataVariant(op, r) && |RequestBytes(r)| < I32_LIMIT
    ensures ParseData(op, RequestBytes(r) + rest) == ReadBefore(r, rest, UsesUpData(op))
  {
    hide RequestBytes, ParseSub, SubVariant;
    if PathReading(op) {
      PathDataRoundTrip(op, r, rest);
    } else if SessionReading(op) {
      SessionDataRoundTrip(op, r, rest);
    } else {
      SubRoundTrip(op, r, rest);
    }
  }

  /**
    * The encoding of a well-formed packet with a header, followed by anything, gives the packet and leaves what
    * follows; where the decoder asserts that the body is used up, anything more is a panic.
    */
  lemma HeadedRequestRead(p: RequestPacket, rest: seq<byte>)
    requires WellFormed(p) && p.header.Some? && |PacketBytes(p)| + |rest| < I32_LIMIT
    ensures DecodeInner(PacketBytes(p) + rest) == ReadBefore(p, rest, UsesUpBody(p.header.value))
  {
    hide AuthPacketBytes, SetWatchesBytes, RequestHeaderBytes, OpCodeOf, RequestBytes;
    hide ParseAuthPacket, ParseSetWatches, ParseRequestHeader, ParseData, DataVariant, UsesUpData;
    var h, body := p.header.value, RequestBytes(p.request);
    Regroup(RequestHeaderBytes(h), body, rest);
    RequestHeaderRoundTrip(h, body + rest);
    SpecialRequestBytes(p.request);
    assert [] + rest == rest;
    match XidCodeOf(h.xid) {
      case Some(PingXid) =>
      case Some(AuthXid) => AuthPacketRoundTrip(p.request.auth, rest);
      case Some(SetWatchesXid) => SetWatchesRoundTrip(p.request.setWatches, rest);
      case Some(WatchXid) => DataRoundTrip(OpCodeOf(h.opcode).value, p.request, rest);
      case None => DataRoundTrip(OpCodeOf(h.opcode).value, p.request, rest);
    }
  }

  lemma SpecialRequestBytes(r: Request)
    ensures r.Ping? ==> RequestBytes(r) == []
    ensures r.Auth? ==> RequestBytes(r) == AuthPacketBytes(r.auth)
    ensures r.SetWatches? ==> RequestBytes(r) == SetWatchesBytes(r.setWatches)
  {
    hide ConnectRequestBytes, CreateBytes, CreateTTLBytes, NumberedPathBytes, WatchedPathBytes, SetDataBytes;
    hide StrBytes, SetAclBytes, AuthPacketBytes, SetWatchesBytes, MultiBytes;
  }

  /**
    * A connect is accepted whatever follows its password, also when nothing does: its `read_only` is the first of two
    * or more bytes, and zero otherwise.
    */
  lemma ConnectRead(x: ConnectRequest, tail: seq<byte>)
    requires x.protocolVersion == 0 && |ConnectRequestStem(x)| + |tail| < I32_LIMIT
    ensures DecodeInner(ConnectRequestStem(x) + tail)
         == if |tail| > 1 then Ok((RequestPacket(None, Request.Connect(x.(readOnly := tail[0]))), tail[1..]))
            else Ok((RequestPacket(None, Request.Connect(x.(readOnly := 0))), tail))
  {
    hide RequestHeaderBytes, OpCodeOf, ParseData, ParseAuthPacket, ParseSetWatches;
    hide ConnectRequestStem, ParseRequestHeader, ParseConnectRequest;
    ConnectStemRead(x, tail);
    ConnectVersionIsXid(ConnectRequestStem(x) + tail);
  }

  /** Decoding the encoding of any well-formed packet, of any variant and xid class, gives the packet back. */
  lemma RequestParseAfterPrint(p: RequestPacket)
    requires WellFormed(p) && |PacketBytes(p)| < I32_LIMIT
    ensures DecodeInner(PacketBytes(p)) == Ok(ReadBack(p))
  {
    if p.header.None? {
      hide DecodeInner, ConnectRequestStem;
      var x := p.request.connect;
      assert PacketBytes(p) == [] + ConnectRequestBytes(x) == ConnectRequestStem(x) + [x.readOnly];
      ConnectRead(x, [x.readOnly]);
    } else {
      hide DecodeInner, PacketBytes;
      HeadedRequestRead(p, []);
      assert PacketBytes(p) + [] == PacketBytes(p);
    }
  }

  /** The decoder inverts the encoder on exactly the well-formed packets whose connect, if any, is not read-only. */
  lemma ReadBackUnchangedIff(p: RequestPacket)
    requires |PacketBytes(p)| < I32_LIMIT
    ensures (DecodeInner(PacketBytes(p)).Ok? && DecodeInner(PacketBytes(p)).value.0 == p)
       <==> WellFormed(p) && (p.header.None? ==> p.request.connect.readOnly == 0)
  {
    hide DecodeInner, ConnectRequestStem;
    var b := PacketBytes(p);
    if WellFormed(p) {
      RequestParseAfterPrint(p);
    }
    if DecodeInner(b).Ok? && DecodeInner(b).value.0 == p {
      RequestPrintAfterParse(b, p, DecodeInner(b).value.1);
    }
  }

  /** Encodings tell well-formed packets apart, up to the `read_only` byte of a connect. */
  lemma EncodingIsInjective(p: RequestPacket, q: RequestPacket)
    requires WellFormed(p) && WellFormed(q) && PacketBytes(p) == PacketBytes(q)
    requires |PacketBytes(p)| < I32_LIMIT
    ensures ReadBack(p) == ReadBack(q)
  {
    hide DecodeInner, PacketBytes, WellFormed, ReadBack;
    RequestParseAfterPrint(p);
    RequestParseAfterPrint(q);
  }
}
