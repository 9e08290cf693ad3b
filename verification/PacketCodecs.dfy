/** The codec objects of src/codec.rs, working on buffers in place. */
module PacketCodecs {
  import opened Outcomes
  import opened Bytes
  import opened Proto
  import opened ProtoInPlace
  import opened Constants
  import opened Requests
  import opened Responses
  import opened LengthCodec
  import opened PacketsInPlace
  import opened Codec

  // ---------------------------------------------------------------- the table

  /** The map from xid to opcode that the two directions share. */
  class OpTable {
    var entries: Opcodes

    constructor ()
      ensures entries == map[]
    {
      entries := map[];
    }

    method Insert(xid: i32, op: OpCodes)
      modifies this
      ensures entries == old(entries)[xid := op]
    {
      entries := entries[xid := op];
    }
  }

  // ---------------------------------------------------------------- server side: requests in, replies out

  class ServerPacketCodec {
    const inner: LengthDelimitedCodec

    constructor ()
      ensures fresh(inner) && inner.builder == REPO && inner.state == Head
    {
      inner := new LengthDelimitedCodec(REPO);
    }

    /** The data requests of `decode_inner`, after the header. */
    method DecodeData(op: OpCodes, src: BytesMut) returns (r: Outcome<Request, ZkError>)
      modifies src
      ensures ReadInPlace(ParseData(op, old(src.data)), r, src.data)
    {
      hide ParseWatchedPath, ParseSetAcl, ParseAuthPacket, ParseSetWatches, ParseNumberedPath, ParseStr, ParseMulti;
      hide ParseSub;
      match op {
        case GetChildren2 =>
          var x :- src.Take(ParseWatchedPath);
          return Ok(Request.GetChildren2(x));
        case GetAcl =>
          var x :- ReadString(src);
          return Ok(Request.GetAcl(x));
        case SetAcl =>
          var x :- ReadSetAcl(src);
          return Ok(Request.SetAcl(x));
        case Close =>
          return Ok(Request.Close);
        case SetAuth =>
          var x :- src.Take(ParseAuthPacket);
          return Ok(Request.Auth(x));
        case SetWatches =>
          var x :- ReadSetWatches(src);
          return Ok(Request.SetWatches(x));
        case CheckWatches =>
          var x :- src.Take(ParseNumberedPath);
          return Ok(Request.CheckWatches(x));
        case WhoAmI =>
          if src.data != [] {
            return Panic;
          }
          return Ok(Request.Whoami);
        case Multi =>
          var x :- DeserializeMulti(src);
          if src.data != [] {
            return Panic;
          }
          return Ok(Request.Multi(x));
        case Sync =>
          var x :- ReadString(src);
          if src.data != [] {
            return Panic;
          }
          return Ok(Request.Sync(x));
        case Check =>
          return Panic;
        case _ =>
          r := DeserializeRequest(op, src);
      }
    }

    method DecodeInner(src: BytesMut) returns (r: Outcome<RequestPacket, ZkError>)
      modifies src
      ensures ReadInPlace(Requests.DecodeInner(old(src.data)), r, src.data)
    {
      hide ParseRequestHeader, ParseConnectRequest, ParseAuthPacket, ParseSetWatches, ParseData, OpCodeOf;
      if AsI32(|src.data|) < 8 {
        return Panic;
      }
      HeaderInPlace(src.data);
      var xid := I32Of(src.data[..4]);
      if XidCodeOf(xid) == Some(ConnectXid) {
        var x :- ReadConnectRequest(src);
        return Ok(RequestPacket(None, Request.Connect(x)));
      }
      var opcode := I32Of(src.data[4..8]);
      src.Advance(8);
      var header := RequestHeader(xid, opcode);
      if XidCodeOf(xid) == Some(PingXid) {
        if src.data != [] {
          return Panic;
        }
        return Ok(RequestPacket(Some(header), Request.Ping));
      }
      if XidCodeOf(xid) == Some(AuthXid) {
        var x :- src.Take(ParseAuthPacket);
        if src.data != [] {
          return Panic;
        }
        return Ok(RequestPacket(Some(header), Request.Auth(x)));
      }
      if XidCodeOf(xid) == Some(SetWatchesXid) {
        var x :- ReadSetWatches(src);
        if src.data != [] {
          return Panic;
        }
        return Ok(RequestPacket(Some(header), Request.SetWatches(x)));
      }
      match OpCodeOf(opcode) {
        case None =>
          return Err(InvalidOpCode(opcode));
        case Some(op) =>
          var x :- DecodeData(op, src);
          return Ok(RequestPacket(Some(header), x));
      }
    }

    method Decode(src: BytesMut) returns (r: Outcome<Option<RequestPacket>, ZkError>)
      requires inner.builder == REPO
      modifies inner`state, src
      ensures Polled(r, inner.state, src.data)
           == PollFrame(old(inner.state), old(src.data), Requests.DecodeInner)
    {
      hide Requests.DecodeInner;
      var polled := inner.Decode(src);
      match polled {
        case Err(_) =>
          return Err(DecodeError);
        case Ok(None) =>
          return Ok(None);
        case Ok(Some(data)) =>
          var frame := new BytesMut(data);
          var packet :- DecodeInner(frame);
          return Ok(Some(packet));
      }
    }

    method Encode(item: ResponsePacket, dst: BytesMut) returns (r: Outcome<(), ZkError>)
      requires inner.builder == REPO
      requires !item.response.Multi? ==> |ReplyBytes(item)| < U64_LIMIT
      modifies dst
      ensures match ServerFrame(item)
              case Ok(frame) => r == Ok(()) && dst.data == old(dst.data) + frame
              case Err(e) => r == Err(e) && dst.data == old(dst.data)
              case Panic => r == Panic && dst.data == old(dst.data)
    {
      hide ReplyBytes;
      if item.response.Multi? {
        return Panic;
      }
      var buf := new BytesMut([]);
      SerializeReply(item, buf);
      assert buf.data == [] + ReplyBytes(item) == ReplyBytes(item);
      var sent := inner.Encode(buf.data, dst);
      match sent {
        case Ok(_) =>
          return Ok(());
        case Err(_) =>
          return Err(EncodeError);
      }
    }
  }

  /** Eight bytes hold the header: the xid that was peeked at, then the opcode. */
  lemma HeaderInPlace(b: seq<byte>)
    requires |b| >= 8
    ensures ParseRequestHeader(b) == Ok((RequestHeader(I32Of(b[..4]), I32Of(b[4..8])), b[8..]))
  {
    SliceOfRest(b, 4, 4);
  }

  // ---------------------------------------------------------------- client side: requests out, replies in

  class ClientPacketCodec {
    const inner: LengthDelimitedCodec
    const requestsByXid: OpTable

    constructor (table: OpTable)
      ensures fresh(inner) && inner.builder == REPO && inner.state == Head
      ensures requestsByXid == table
    {
      inner := new LengthDelimitedCodec(REPO);
      requestsByXid := table;
    }

    method Encode(item: RequestPacket, dst: BytesMut)
      modifies requestsByXid, dst
      ensures dst.data == old(dst.data) + ClientFrame(item)
      ensures requestsByXid.entries == Recorded(old(requestsByXid.entries), item)
    {
      hide OpCodeOf;
      match item.header {
        case Some(header) =>
          match OpCodeOf(header.opcode) {
            case Some(opcode) =>
              requestsByXid.Insert(header.xid, opcode);
            case None =>
          }
        case None =>
      }
      ghost var before := dst.data;
      var n := SizeOfPacket(item);
      dst.PutI32(AsI32(n));
      SerializePacket(item, dst);
      Regroup(before, I32Bytes(AsI32(n)), PacketBytes(item));
    }

    method Decode(src: BytesMut) returns (r: Outcome<Option<ResponsePacket>, ZkError>)
      requires inner.builder == REPO
      modifies inner`state, src
      ensures var table := old(requestsByXid.entries);
              Polled(r, inner.state, src.data)
              == PollFrame(old(inner.state), old(src.data), b => DecodeReply(table, b))
    {
      hide DecodeReply;
      ghost var table := requestsByXid.entries;
      var polled := inner.Decode(src);
      match polled {
        case Err(_) =>
          return Err(DecodeError);
        case Ok(None) =>
          return Ok(None);
        case Ok(Some(data)) =>
          var frame := new BytesMut(data);
          var packet :- DecodeBody(frame);
          return Ok(Some(packet));
      }
    }

    /** The part of `decode` after the frame is complete. */
    method DecodeBody(src: BytesMut) returns (r: Outcome<ResponsePacket, ZkError>)
      modifies src
      ensures ReadInPlace(DecodeReply(requestsByXid.entries, old(src.data)), r, src.data)
    {
      hide ParseConnectResponse, ParseReplyHeader, ParseWatcherEvent, ParseResponse;
      if AsI32(|src.data|) < 4 {
        return Panic;
      }
      var xid := I32Of(src.data[..4]);
      if XidCodeOf(xid) == Some(ConnectXid) {
        var x :- src.Take(ParseConnectResponse);
        return Ok(ResponsePacket(None, ZkResponse.Connect(x)));
      }
      var header :- src.Take(ParseReplyHeader);
      match XidCodeOf(xid) {
        case Some(WatchXid) =>
          var x :- src.Take(ParseWatcherEvent);
          return Ok(ResponsePacket(Some(header), WatchEvent(x)));
        case Some(PingXid) =>
          return Ok(ResponsePacket(Some(header), Empty));
        case Some(AuthXid) =>
          if src.data != [] {
            return Panic;
          }
          return Ok(ResponsePacket(Some(header), Empty));
        case Some(_) =>
          return Panic;
        case None =>
      }
      if header.err != 0 {
        return Ok(ResponsePacket(Some(header), Empty));
      }
      if xid !in requestsByXid.entries {
        return Err(DecodeError);
      }
      var opcode := requestsByXid.entries[xid];
      var resp :- DeserializeResponse(opcode, src);
      return Ok(ResponsePacket(Some(header), resp));
    }
  }
}
