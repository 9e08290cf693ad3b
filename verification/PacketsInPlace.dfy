/** Requests and replies written to and read off a buffer in place, proved against `Requests` and `Responses`. */
module PacketsInPlace {
  import opened Outcomes
  import opened Bytes
  import opened Proto
  import opened ProtoInPlace
  import opened Constants
  import opened Requests
  import opened Responses

  // ---------------------------------------------------------------- requests

  /** `Request::serialize_into`; a record of fixed fields is put in one piece. */
  method SerializeRequest(r: Request, buffer: BytesMut)
    modifies buffer
    ensures buffer.data == old(buffer.data) + RequestBytes(r)
    decreases r
  {
    hide ConnectRequestBytes, CreateBytes, CreateTTLBytes, SetAclBytes, SetWatchesBytes, MultiBytes;
    match r {
      case Connect(x) => WriteConnectRequest(x, buffer);
      case Create(x) => WriteCreate(x, buffer);
      case CreateTTL(x) => WriteCreateTTL(x, buffer);
      case SetAcl(x) => WriteSetAcl(x, buffer);
      case SetWatches(x) => WriteSetWatches(x, buffer);
      case Multi(x) => SerializeMulti(x, buffer);
      case _ => buffer.PutSlice(RequestBytes(r));
    }
  }

  /** `Request::size`: a multi adds up its operations. */
  method SizeOfRequest(r: Request) returns (size: nat)
    ensures size == RequestSize(r)
    decreases r
  {
    if r.Multi? {
      size := SizeOfMulti(r.multi);
    } else {
      size := RequestSize(r);
    }
  }

  /** `RequestPacket::serialize_into`. */
  method SerializePacket(p: RequestPacket, buffer: BytesMut)
    modifies buffer
    ensures buffer.data == old(buffer.data) + PacketBytes(p)
  {
    hide RequestHeaderBytes, RequestBytes;
    ghost var before := buffer.data;
    assert before + [] == before && [] + RequestBytes(p.request) == RequestBytes(p.request);
    if p.header.Some? {
      buffer.PutSlice(RequestHeaderBytes(p.header.value));
      Regroup(before, RequestHeaderBytes(p.header.value), RequestBytes(p.request));
    }
    SerializeRequest(p.request, buffer);
  }

  /** `RequestPacket::size`. */
  method SizeOfPacket(p: RequestPacket) returns (size: nat)
    ensures size == PacketSize(p)
  {
    size := SizeOfRequest(p.request);
    if p.header.Some? {
      size := RequestHeaderSize(p.header.value) + size;
    }
  }

  // ---------------------------------------------------------------- multis

  method SerializeMulti(m: MultiRequest, buffer: BytesMut)
    modifies buffer
    ensures buffer.data == old(buffer.data) + MultiBytes(m)
    decreases m
  {
    var i := 0;
    while i < |m.ops|
      invariant i <= |m.ops|
      invariant buffer.data + OpsBytes(m.ops[i..]) == old(buffer.data) + OpsBytes(m.ops)
    {
      ghost var sent, op, others := buffer.data, m.ops[i], m.ops[i + 1..];
      buffer.PutSlice(MultiHeaderBytes(m.ops[i].header));
      SerializeRequest(m.ops[i].request, buffer);
      assert m.ops[i..][1..] == others && m.ops[i..][0] == op;
      Regroup(sent, MultiHeaderBytes(op.header), RequestBytes(op.request));
      Regroup(sent, OpBytes(op), OpsBytes(others));
      i := i + 1;
    }
    assert buffer.data + [] == buffer.data;
    Regroup(old(buffer.data), OpsBytes(m.ops), MultiHeaderBytes(m.doneHeader));
    buffer.PutSlice(MultiHeaderBytes(m.doneHeader));
  }

  method SizeOfMulti(m: MultiRequest) returns (size: nat)
    ensures size == MultiSize(m)
    decreases m
  {
    size := 0;
    var i := 0;
    while i < |m.ops|
      invariant i <= |m.ops|
      invariant size + OpsSize(m.ops[i..]) == OpsSize(m.ops)
    {
      assert m.ops[i..][1..] == m.ops[i + 1..];
      var n := SizeOfRequest(m.ops[i].request);
      size := size + MultiHeaderSize(m.ops[i].header) + n;
      i := i + 1;
    }
    size := size + MultiHeaderSize(m.doneHeader);
  }

  /** `ParseMulti` with the operations read so far at hand. */
  function ParseMultiOnto(ops: seq<Op>, b: seq<byte>): Parsed<MultiRequest> {
    var (m, rest) :- ParseMulti(b);
    Ok((MultiRequest(ops + m.ops, m.doneHeader), rest))
  }

  lemma ParseMultiFromStart(b: seq<byte>)
    ensures ParseMultiOnto([], b) == ParseMulti(b)
  {
    if ParseMulti(b).Ok? {
      var m := ParseMulti(b).value.0;
      assert [] + m.ops == m.ops;
    }
  }

  lemma ParseMultiTurn(ops: seq<Op>, b: seq<byte>)
    ensures !ParseMultiHeader(b).Ok? ==> ParseMultiHeader(b).Panic? && ParseMultiOnto(ops, b) == Panic
    ensures ParseMultiHeader(b).Ok? ==>
            var (header, b1) := ParseMultiHeader(b).value;
            if header.done == 1 then ParseMultiOnto(ops, b) == Ok((MultiRequest(ops, header), b1))
            else match ParseOp(header, b1)
              case Ok(v) => |v.1| < |b| && ParseMultiOnto(ops, b) == ParseMultiOnto(ops + [v.0], v.1)
              case Err(e) => ParseMultiOnto(ops, b) == Err(e)
              case Panic => ParseMultiOnto(ops, b) == Panic
  {
    hide MultiHeaderBytes, ParseOp, RequestBytes, MultiWellFormed;
    if !ParseMultiHeader(b).Ok? {
      return;
    }
    hide ParseMultiHeader;
    var (header, b1) := ParseMultiHeader(b).value;
    assert ops + [] == ops;
    if header.done != 1 && ParseOp(header, b1).Ok? {
      ParseOpExact(header, b1);
      var (op, b2) := ParseOp(header, b1).value;
      if ParseMulti(b2).Ok? {
        Regroup(ops, [op], ParseMulti(b2).value.0.ops);
      }
    }
  }

  method DeserializeMulti(buffer: BytesMut) returns (r: Outcome<MultiRequest, ZkError>)
    modifies buffer
    ensures ReadInPlace(ParseMulti(old(buffer.data)), r, buffer.data)
  {
    hide ParseMultiHeader, ParseSub, OpCodeOf, ParseMulti, ParseMultiOnto, MultiBytes, MultiWellFormed;
    var ops: seq<Op> := [];
    ParseMultiFromStart(buffer.data);
    while true
      invariant ParseMultiOnto(ops, buffer.data) == ParseMulti(old(buffer.data))
      decreases |buffer.data|
    {
      ghost var b := buffer.data;
      ParseMultiTurn(ops, b);
      var header :- buffer.Take(ParseMultiHeader);
      if header.done == 1 {
        return Ok(MultiRequest(ops, header));
      }
      match OpCodeOf(header.opcode) {
        case None =>
          return Err(InvalidOpCode(header.opcode));
        case Some(op) =>
          var req :- DeserializeRequest(op, buffer);
          ops := ops + [Op(header, req)];
      }
    }
  }

  /** `Request::deserialize`. */
  method DeserializeRequest(op: OpCodes, bytes: BytesMut) returns (r: Outcome<Request, ZkError>)
    modifies bytes
    ensures ReadInPlace(ParseSub(op, old(bytes.data)), r, bytes.data)
  {
    hide ParseCreate, ParseCreateTTL, ParseNumberedPath, ParseSetData, ParseWatchedPath;
    match op {
      case Create =>
        var x :- ReadCreate(bytes);
        return Ok(Request.Create(x));
      case Create2 =>
        var x :- ReadCreate(bytes);
        return Ok(Request.Create(x));
      case CreateTtl =>
        var x :- ReadCreateTTL(bytes);
        return Ok(Request.CreateTTL(x));
      case CreateContainer =>
        var x :- ReadCreate(bytes);
        return Ok(Request.Create(x));
      case Delete =>
        var x :- bytes.Take(ParseNumberedPath);
        return Ok(Request.Delete(x));
      case SetData =>
        var x :- bytes.Take(ParseSetData);
        return Ok(Request.SetData(x));
      case Check =>
        var x :- bytes.Take(ParseNumberedPath);
        return Ok(Request.CheckWatches(x));
      case GetChildren =>
        var x :- bytes.Take(ParseWatchedPath);
        return Ok(Request.GetChildren(x));
      case Exists =>
        var x :- bytes.Take(ParseWatchedPath);
        return Ok(Request.Exists(x));
      case GetData =>
        var x :- bytes.Take(ParseWatchedPath);
        return Ok(Request.GetData(x));
      case _ =>
        return Panic;
    }
  }

  // ---------------------------------------------------------------- replies

  /** `ZkResponse::serialize_into`; its vectors are written in loops. */
  method SerializeResponse(r: ZkResponse, buffer: BytesMut)
    requires !r.Multi?
    modifies buffer
    ensures buffer.data == old(buffer.data) + ResponseBytes(r)
  {
    hide ConnectResponseBytes, BufBytes, StatBytes, StrBytes, WatcherEventBytes, ClientsBytes, StrsBytes, AclsBytes;
    ghost var b := buffer.data;
    match r {
      case Connect(x) => buffer.PutSlice(ConnectResponseBytes(x));
      case GetData(data, stat) =>
        WriteBuf(data, buffer);
        buffer.PutSlice(StatBytes(stat));
        Regroup(b, BufBytes(data), StatBytes(stat));
      case SetData(stat) => buffer.PutSlice(StatBytes(stat));
      case Create(path) => buffer.PutSlice(StrBytes(path));
      case Create2(path, stat) =>
        buffer.PutSlice(StrBytes(path));
        buffer.PutSlice(StatBytes(stat));
        Regroup(b, StrBytes(path), StatBytes(stat));
      case WatchEvent(x) => buffer.PutSlice(WatcherEventBytes(x));
      case WhoAmI(x) => WriteClients(x, buffer);
      case GetChildren2(children, stat) =>
        WriteStrs(children, buffer);
        buffer.PutSlice(StatBytes(stat));
        Regroup(b, StrsBytes(children), StatBytes(stat));
      case GetAcl(acl, stat) =>
        WriteAcls(acl, buffer);
        buffer.PutSlice(StatBytes(stat));
        Regroup(b, AclsBytes(acl), StatBytes(stat));
      case Ping => buffer.PutSlice([]);
      case Stat(stat) => buffer.PutSlice(StatBytes(stat));
      case Empty => buffer.PutSlice([]);
      case Strings(x) => WriteStrs(x, buffer);
      case String(x) => buffer.PutSlice(StrBytes(x));
      case ErrCode(x) => buffer.PutI32(x);
    }
  }

  /** `ResponsePacket::serialize_into`. */
  method SerializeReply(p: ResponsePacket, buffer: BytesMut)
    requires !p.response.Multi?
    modifies buffer
    ensures buffer.data == old(buffer.data) + ReplyBytes(p)
  {
    hide ReplyHeaderBytes, ResponseBytes;
    ghost var before := buffer.data;
    assert before + [] == before && [] + ResponseBytes(p.response) == ResponseBytes(p.response);
    if p.header.Some? {
      buffer.PutSlice(ReplyHeaderBytes(p.header.value));
      Regroup(before, ReplyHeaderBytes(p.header.value), ResponseBytes(p.response));
    }
    SerializeResponse(p.response, buffer);
  }

  /** `ZkResponse::deserialize`: whatever is read must use the buffer up. */
  method DeserializeResponse(op: OpCodes, src: BytesMut) returns (r: Outcome<ZkResponse, ZkError>)
    modifies src
    ensures ReadInPlace(ParseResponse(op, old(src.data)), r, src.data)
    decreases |src.data|, 1
  {
    hide ParseMultiResponse, ParseSingle;
    if op.Multi? {
      var x :- DeserializeMultiResponse(src);
      if src.data != [] {
        return Panic;
      }
      return Ok(ZkResponse.Multi(x));
    }
    var x :- DeserializeSingle(op, src);
    if src.data != [] {
      return Panic;
    }
    return Ok(x);
  }

  /** The opcodes whose reply is some record and then a stat. */
  predicate HoldsRecordAndStat(op: OpCodes) {
    op.GetData? || op.GetChildren2? || op.GetAcl? || op.Create2?
  }

  method DeserializeWithStat(op: OpCodes, src: BytesMut) returns (r: Outcome<ZkResponse, ZkError>)
    requires HoldsRecordAndStat(op)
    modifies src
    ensures ReadInPlace(ParseSingle(op, old(src.data)), r, src.data)
  {
    hide ParseBuf, ParseStat, ParseStrs, ParseStr, ParseAcls, ParseClients, ParseStatReply;
    match op {
      case GetData =>
        var data :- ReadBuf(src);
        var stat :- src.Take(ParseStat);
        return Ok(ZkResponse.GetData(data, stat));
      case GetChildren2 =>
        var children :- ReadStrs(src);
        var stat :- src.Take(ParseStat);
        return Ok(ZkResponse.GetChildren2(children, stat));
      case GetAcl =>
        var acl :- ReadAcls(src);
        var stat :- src.Take(ParseStat);
        return Ok(ZkResponse.GetAcl(acl, stat));
      case Create2 =>
        var path :- ReadString(src);
        var stat :- src.Take(ParseStat);
        return Ok(ZkResponse.Create2(path, stat));
    }
  }

  /** The responses that hold no other response. */
  method DeserializeSingle(op: OpCodes, src: BytesMut) returns (r: Outcome<ZkResponse, ZkError>)
    modifies src
    ensures ReadInPlace(ParseSingle(op, old(src.data)), r, src.data)
  {
    hide ParseBuf, ParseStat, ParseStrs, ParseStr, ParseAcls, ParseClients, ParseStatReply, ParsePair;
    if HoldsRecordAndStat(op) {
      r := DeserializeWithStat(op, src);
      return;
    }
    match op {
      case Exists =>
        r := src.Take(ParseStatReply);
      case SetData =>
        r := src.Take(ParseStatReply);
      case SetAcl =>
        r := src.Take(ParseStatReply);
      case Delete =>
        return Ok(Empty);
      case Close =>
        return Ok(Empty);
      case Check =>
        return Ok(Empty);
      case SetAuth =>
        return Ok(Empty);
      case SetWatches =>
        return Ok(Empty);
      case CheckWatches =>
        return Ok(Empty);
      case Error =>
        return Ok(Empty);
      case GetChildren =>
        var children :- ReadStrs(src);
        return Ok(Strings(children));
      case Create =>
        var path :- ReadString(src);
        return Ok(ZkResponse.Create(path));
      case CreateTtl =>
        var path :- ReadString(src);
        return Ok(String(path));
      case CreateContainer =>
        var path :- ReadString(src);
        return Ok(String(path));
      case WhoAmI =>
        var clients :- ReadClients(src);
        return Ok(ZkResponse.WhoAmI(clients));
      case _ =>
        return Panic;
    }
  }

  /** `ParseMultiResponse` with the results read so far at hand. */
  function ParseResultsOnto(results: seq<SubResult>, b: seq<byte>): Parsed<MultiResponse> {
    var (m, rest) :- ParseMultiResponse(b);
    Ok((MultiResponse(results + m.results, m.doneHeader), rest))
  }

  lemma ParseResultsFromStart(b: seq<byte>)
    ensures ParseResultsOnto([], b) == ParseMultiResponse(b)
  {
    hide ParseMultiResponse;
    if ParseMultiResponse(b).Ok? {
      var m := ParseMultiResponse(b).value.0;
      assert [] + m.results == m.results;
    }
  }

  /** A result put in front of those still to be read. */
  lemma OneMoreResult(results: seq<SubResult>, x: SubResult, b: seq<byte>)
    ensures match ParseMultiResponse(b)
            case Ok(v) => ParseResultsOnto(results + [x], b)
                          == Ok((MultiResponse(results + ([x] + v.0.results), v.0.doneHeader), v.1))
            case Err(e) => ParseResultsOnto(results + [x], b) == Err(e)
            case Panic => ParseResultsOnto(results + [x], b) == Panic
  {
    hide ParseMultiResponse;
    if ParseMultiResponse(b).Ok? {
      Regroup(results, [x], ParseMultiResponse(b).value.0.results);
    }
  }

  lemma ParseResultsTurn(results: seq<SubResult>, b: seq<byte>)
    ensures !ParseMultiHeader(b).Ok? ==> ParseMultiHeader(b).Panic? && ParseResultsOnto(results, b) == Panic
    ensures ParseMultiHeader(b).Ok? ==>
            var (header, b1) := ParseMultiHeader(b).value;
            |b1| < |b| &&
            if header.done == 1 then ParseResultsOnto(results, b) == Ok((MultiResponse(results, header), b1))
            else if header.opcode == -1 then
              ParseResultsOnto(results, b) == ParseResultsOnto(results + [SubResult(ErrCode(header.err), header)], b1)
            else if OpCodeOf(header.opcode).None? then ParseResultsOnto(results, b) == Err(InvalidOpCode(-1))
            else match ParseResponse(OpCodeOf(header.opcode).value, b1)
              case Ok(v) =>
                ParseResultsOnto(results, b) == ParseResultsOnto(results + [SubResult(v.0, header)], v.1)
              case Err(e) => ParseResultsOnto(results, b) == Err(e)
              case Panic => ParseResultsOnto(results, b) == Panic
  {
    hide MultiHeaderBytes, ParseResponse, OpCodeOf;
    if ParseMultiHeader(b).Ok? {
      hide ParseMultiHeader;
      var (header, b1) := ParseMultiHeader(b).value;
      assert results + [] == results;
      if header.opcode == -1 {
        OneMoreResult(results, SubResult(ErrCode(header.err), header), b1);
      } else if OpCodeOf(header.opcode).Some? && ParseResponse(OpCodeOf(header.opcode).value, b1).Ok? {
        var (x, b2) := ParseResponse(OpCodeOf(header.opcode).value, b1).value;
        OneMoreResult(results, SubResult(x, header), b2);
      }
    }
  }

  /** `MultiResponse::deserialize`. */
  method DeserializeMultiResponse(bytes: BytesMut) returns (r: Outcome<MultiResponse, ZkError>)
    modifies bytes
    ensures ReadInPlace(ParseMultiResponse(old(bytes.data)), r, bytes.data)
    decreases |bytes.data|, 0
  {
    hide ParseMultiHeader, ParseResponse, OpCodeOf, ParseMultiResponse, ParseResultsOnto;
    var results: seq<SubResult> := [];
    ParseResultsFromStart(bytes.data);
    while true
      invariant |bytes.data| <= |old(bytes.data)|
      invariant ParseResultsOnto(results, bytes.data) == ParseMultiResponse(old(bytes.data))
      decreases |bytes.data|
    {
      ParseResultsTurn(results, bytes.data);
      var header :- bytes.Take(ParseMultiHeader);
      if header.done == 1 {
        return Ok(MultiResponse(results, header));
      }
      if header.opcode == -1 {
        results := results + [SubResult(ErrCode(header.err), header)];
        continue;
      }
      match OpCodeOf(header.opcode) {
        case None =>
          return Err(InvalidOpCode(-1));
        case Some(op) =>
          var response :- DeserializeResponse(op, bytes);
          results := results + [SubResult(response, header)];
      }
    }
  }
}
