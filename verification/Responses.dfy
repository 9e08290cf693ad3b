/** Replies: the packet a backend frame decodes to, its bytes, and the client-side decoder. */
module Responses {
  import opened Outcomes
  import opened Bytes
  import opened Proto
  import opened Constants
  import opened Requests

  datatype ZkResponse =
    | Connect(connect: ConnectResponse)
    | GetData(data: seq<byte>, stat: Proto.Stat)
    | SetData(stat: Proto.Stat)
    | Create(path: Utf8)
    | Create2(path: Utf8, stat: Proto.Stat)
    | WatchEvent(event: WatcherEvent)
    | WhoAmI(clients: seq<ClientInfo>)
    | GetChildren2(children: seq<Utf8>, stat: Proto.Stat)
    | GetAcl(acl: seq<ACL>, stat: Proto.Stat)
    | Ping
    | Stat(stat: Proto.Stat)
    | Empty
    | Strings(strings: seq<Utf8>)
    | String(path: Utf8)
    | Multi(multi: MultiResponse)
    | ErrCode(code: i32)

  datatype SubResult = SubResult(response: ZkResponse, header: MultiHeader)

  datatype MultiResponse = MultiResponse(results: seq<SubResult>, doneHeader: MultiHeader)

  datatype ResponsePacket = ResponsePacket(header: Option<ReplyHeader>, response: ZkResponse)

  // ---------------------------------------------------------------- bytes

  /** `serialize_into`; for a multi the source has only a `todo!()`. */
  function ResponseBytes(r: ZkResponse): seq<byte>
    requires !r.Multi?
  {
    match r
    case Connect(x) => ConnectResponseBytes(x)
    case GetData(data, stat) => BufBytes(data) + StatBytes(stat)
    case SetData(stat) => StatBytes(stat)
    case Create(path) => StrBytes(path)
    case Create2(path, stat) => StrBytes(path) + StatBytes(stat)
    case WatchEvent(x) => WatcherEventBytes(x)
    case WhoAmI(x) => ClientsBytes(x)
    case GetChildren2(children, stat) => StrsBytes(children) + StatBytes(stat)
    case GetAcl(acl, stat) => AclsBytes(acl) + StatBytes(stat)
    case Ping => []
    case Stat(stat) => StatBytes(stat)
    case Empty => []
    case Strings(x) => StrsBytes(x)
    case String(x) => StrBytes(x)
    case ErrCode(x) => I32Bytes(x)
  }

  function ReplyBytes(p: ResponsePacket): seq<byte>
    requires !p.response.Multi?
  {
    (if p.header.Some? then ReplyHeaderBytes(p.header.value) else []) + ResponseBytes(p.response)
  }

  // ---------------------------------------------------------------- reading a response under an opcode

  /** Two records in a row. */
  function ParsePair<A, B>(x: Parsed<A>, read: seq<byte> -> Parsed<B>): Parsed<(A, B)> {
    var (a, b) :- x;
    var (y, rest) :- read(b);
    Ok(((a, y), rest))
  }

  /** The responses that hold no other response. */
  function ParseSingle(op: OpCodes, b: seq<byte>): Parsed<ZkResponse> {
    match op
    case Exists => ParseStatReply(b)
    case SetData => ParseStatReply(b)
    case SetAcl => ParseStatReply(b)
    case GetData => var (x, rest) :- ParsePair(ParseBuf(b), ParseStat); Ok((ZkResponse.GetData(x.0, x.1), rest))
    case Delete => Ok((Empty, b))
    case Close => Ok((Empty, b))
    case Check => Ok((Empty, b))
    case SetAuth => Ok((Empty, b))
    case SetWatches => Ok((Empty, b))
    case CheckWatches => Ok((Empty, b))
    case Error => Ok((Empty, b))
    case GetChildren => var (x, rest) :- ParseStrs(b); Ok((Strings(x), rest))
    case GetChildren2 =>
      var (x, rest) :- ParsePair(ParseStrs(b), ParseStat); Ok((ZkResponse.GetChildren2(x.0, x.1), rest))
    case Create => var (x, rest) :- ParseStr(b); Ok((ZkResponse.Create(x), rest))
    case CreateTtl => var (x, rest) :- ParseStr(b); Ok((String(x), rest))
    case CreateContainer => var (x, rest) :- ParseStr(b); Ok((String(x), rest))
    case GetAcl => var (x, rest) :- ParsePair(ParseAcls(b), ParseStat); Ok((ZkResponse.GetAcl(x.0, x.1), rest))
    case Create2 => var (x, rest) :- ParsePair(ParseStr(b), ParseStat); Ok((ZkResponse.Create2(x.0, x.1), rest))
    case WhoAmI => var (x, rest) :- ParseClients(b); Ok((ZkResponse.WhoAmI(x), rest))
    case _ => Panic
  }

  function ParseStatReply(b: seq<byte>): Parsed<ZkResponse> {
    var (x, rest) :- ParseStat(b);
    Ok((ZkResponse.Stat(x), rest))
  }

  /** Every branch of `ZkResponse::deserialize` asserts that the buffer is used up. */
  function ParseResponse(op: OpCodes, b: seq<byte>): (r: Parsed<ZkResponse>)
    ensures r.Ok? ==> r.value.1 == []
    decreases |b|, 1
  {
    if op.Multi? then
      var (x, rest) :- Whole(ParseMultiResponse(b));
      Ok((ZkResponse.Multi(x), rest))
    else Whole(ParseSingle(op, b))
  }

  /** `MultiResponse::deserialize`. */
  function ParseMultiResponse(b: seq<byte>): Parsed<MultiResponse>
    decreases |b|, 0
  {
    var (header, b1) :- ParseMultiHeader(b);
    if header.done == 1 then Ok((MultiResponse([], header), b1))
    else if header.opcode == -1 then
      var (m, rest) :- ParseMultiResponse(b1);
      Ok((MultiResponse([SubResult(ErrCode(header.err), header)] + m.results, m.doneHeader), rest))
    else
      match OpCodeOf(header.opcode)
      case None => Err(InvalidOpCode(-1))
      case Some(op) =>
        var (x, b2) :- ParseResponse(op, b1);
        var (m, rest) :- ParseMultiResponse(b2);
        Ok((MultiResponse([SubResult(x, header)] + m.results, m.doneHeader), rest))
  }

  /** The variant read under an opcode, multi apart. */
  predicate ReplyVariant(op: OpCodes, r: ZkResponse) {
    match op
    case Exists => r.Stat?
    case SetData => r.Stat?
    case SetAcl => r.Stat?
    case GetData => r.GetData?
    case Delete => r.Empty?
    case Close => r.Empty?
    case Check => r.Empty?
    case SetAuth => r.Empty?
    case SetWatches => r.Empty?
    case CheckWatches => r.Empty?
    case Error => r.Empty?
    case GetChildren => r.Strings?
    case GetChildren2 => r.GetChildren2?
    case Create => r.Create?
    case CreateTtl => r.String?
    case CreateContainer => r.String?
    case GetAcl => r.GetAcl?
    case Create2 => r.Create2?
    case WhoAmI => r.WhoAmI?
    case _ => false
  }

  lemma ParseSingleVariant(op: OpCodes, b: seq<byte>)
    requires ParseSingle(op, b).Ok?
    ensures ReplyVariant(op, ParseSingle(op, b).value.0)
  {
    hide ParseBuf, ParseStat, ParseStrs, ParseStr, ParseAcls, ParseClients, ParsePair;
  }

  lemma ParseSingleExact(op: OpCodes, b: seq<byte>)
    requires ParseSingle(op, b).Ok?
    ensures var (r, rest) := ParseSingle(op, b).value; !r.Multi? && b == ResponseBytes(r) + rest
  {
    hide BufBytes, StatBytes, StrsBytes, StrBytes, AclsBytes, ClientsBytes;
    hide ParseBuf, ParseStat, ParseStrs, ParseStr, ParseAcls, ParseClients;
    var (r, rest) := ParseSingle(op, b).value;
    if op.GetData? {
      PairExact(BufBytes, ParseBuf(b), b);
    } else if op.GetChildren2? {
      PairExact(StrsBytes, ParseStrs(b), b);
    } else if op.GetAcl? {
      PairExact(AclsBytes, ParseAcls(b), b);
    } else if op.Create2? {
      PairExact(StrBytes, ParseStr(b), b);
    } else {
      assert b == [] + b;
    }
  }

  /** A record read exactly and the stat after it are their encodings, one after the other. */
  lemma PairExact<A>(write: A -> seq<byte>, x: Parsed<A>, b: seq<byte>)
    requires x.Ok? && b == write(x.value.0) + x.value.1
    ensures ParsePair(x, ParseStat).Ok? ==>
              var (y, rest) := ParsePair(x, ParseStat).value; b == write(y.0) + StatBytes(y.1) + rest
  {
    hide StatBytes, ParseStat;
    if ParseStat(x.value.1).Ok? {
      var (stat, rest) := ParseStat(x.value.1).value;
      Join(b, write(x.value.0), x.value.1, StatBytes(stat), rest);
    }
  }

  lemma ParseResponseExact(op: OpCodes, b: seq<byte>)
    requires ParseResponse(op, b).Ok? && !op.Multi?
    ensures var r := ParseResponse(op, b).value.0; ReplyVariant(op, r) && !r.Multi? && b == ResponseBytes(r)
  {
    hide ParseSingle, ResponseBytes, ReplyVariant;
    ParseSingleVariant(op, b);
    ParseSingleExact(op, b);
    var r := ParseResponse(op, b).value.0;
    assert ResponseBytes(r) + [] == ResponseBytes(r);
  }

  /** The responses that end in a stat after another record. */
  predicate EndsInStat(r: ZkResponse) {
    r.GetData? || r.Create2? || r.GetChildren2? || r.GetAcl?
  }

  lemma StatEndedInverts(op: OpCodes, r: ZkResponse, rest: seq<byte>)
    requires ReplyVariant(op, r) && EndsInStat(r) && |ResponseBytes(r)| < I32_LIMIT
    ensures ParseSingle(op, ResponseBytes(r) + rest) == Ok((r, rest))
  {
    hide BufBytes, StatBytes, StrsBytes, StrBytes, AclsBytes;
    hide ParseBuf, ParseStat, ParseStrs, ParseStr, ParseAcls, ParseClients;
    var tail := StatBytes(r.stat) + rest;
    StatRoundTrip(r.stat, rest);
    match r {
      case GetData(data, stat) =>
        Regroup(BufBytes(data), StatBytes(stat), rest);
        BufRoundTrip(data, tail);
      case Create2(path, stat) =>
        Regroup(StrBytes(path), StatBytes(stat), rest);
        StrRoundTrip(path, tail);
      case GetChildren2(children, stat) =>
        Regroup(StrsBytes(children), StatBytes(stat), rest);
        StrsRoundTrip(children, tail);
      case GetAcl(acl, stat) =>
        Regroup(AclsBytes(acl), StatBytes(stat), rest);
        AclsRoundTrip(acl, tail);
    }
  }

  lemma SingleInverts(op: OpCodes, r: ZkResponse, rest: seq<byte>)
    requires ReplyVariant(op, r) && !EndsInStat(r) && |ResponseBytes(r)| < I32_LIMIT
    ensures ParseSingle(op, ResponseBytes(r) + rest) == Ok((r, rest))
  {
    hide BufBytes, StatBytes, StrsBytes, StrBytes, AclsBytes, ClientsBytes, ParsePair;
    hide ParseBuf, ParseStat, ParseStrs, ParseStr, ParseAcls, ParseClients;
    match r {
      case Create(path) => StrRoundTrip(path, rest);
      case WhoAmI(x) => ClientsRoundTrip(x, rest);
      case Stat(stat) => StatRoundTrip(stat, rest);
      case Empty => assert [] + rest == rest;
      case Strings(x) => StrsRoundTrip(x, rest);
      case String(x) => StrRoundTrip(x, rest);
    }
  }

  lemma ParseSingleInverts(op: OpCodes, r: ZkResponse, rest: seq<byte>)
    requires ReplyVariant(op, r) && |ResponseBytes(r)| < I32_LIMIT
    ensures ParseSingle(op, ResponseBytes(r) + rest) == Ok((r, rest))
  {
    hide ParseSingle, ReplyVariant, ResponseBytes;
    if EndsInStat(r) {
      StatEndedInverts(op, r, rest);
    } else {
      SingleInverts(op, r, rest);
    }
  }

  lemma ParseResponseInverts(op: OpCodes, r: ZkResponse)
    requires ReplyVariant(op, r) && |ResponseBytes(r)| < I32_LIMIT
    ensures ParseResponse(op, ResponseBytes(r)) == Ok((r, []))
  {
    assert !op.Multi?;
    hide ParseSingle, ReplyVariant, ResponseBytes;
    ParseSingleInverts(op, r, []);
    assert ResponseBytes(r) + [] == ResponseBytes(r);
  }

  /** The responses no reader of the proxy produces are written as the records they hold. */
  lemma WrittenOnly(stat: Proto.Stat, code: i32, rest: seq<byte>)
    ensures ParseStat(ResponseBytes(ZkResponse.SetData(stat)) + rest) == Ok((stat, rest))
    ensures ParseI32(ResponseBytes(ErrCode(code)) + rest) == Ok((code, rest))
    ensures ResponseBytes(ZkResponse.Ping) == []
  {
    StatRoundTrip(stat, rest);
    ParseI32Inverts(code, rest);
  }

  // ---------------------------------------------------------------- multi replies

  /** The headers of failed operations, then the terminator. */
  function ErrorHeaders(m: MultiResponse): seq<byte>
    decreases |m.results|
  {
    if m.results == [] then MultiHeaderBytes(m.doneHeader)
    else MultiHeaderBytes(m.results[0].header) + ErrorHeaders(MultiResponse(m.results[1..], m.doneHeader))
  }

  /** A result that only reports the error its header carries. */
  predicate OnlyError(x: SubResult) {
    x.header.done != 1 && x.header.opcode == -1 && x.response == ErrCode(x.header.err)
  }

  predicate OnlyErrors(m: MultiResponse) {
    m.doneHeader.done == 1 && forall x <- m.results :: OnlyError(x)
  }

  /**
    * A multi reply is accepted only when every operation failed: the reader of a successful operation's response
    * asserts that nothing follows it, although the terminator always does.
    */
  lemma {:induction false} MultiReplyHoldsErrorsOnly(b: seq<byte>)
    requires ParseMultiResponse(b).Ok?
    ensures var (m, rest) := ParseMultiResponse(b).value; OnlyErrors(m) && b == ErrorHeaders(m) + rest
    decreases |b|
  {
    hide MultiHeaderBytes, ParseMultiHeader, ParseResponse;
    var (header, b1) := ParseMultiHeader(b).value;
    var (m, rest) := ParseMultiResponse(b).value;
    if header.done != 1 {
      if header.opcode == -1 {
        MultiReplyHoldsErrorsOnly(b1);
        var others := MultiResponse(m.results[1..], m.doneHeader);
        assert ParseMultiResponse(b1) == Ok((others, rest));
        Join(b, MultiHeaderBytes(header), b1, ErrorHeaders(others), rest);
      } else {
        NothingAfterWhole();
        assert false;
      }
    }
  }

  lemma NothingAfterWhole()
    ensures ParseMultiResponse([]) == Panic
  {
  }

  lemma {:induction false} ErrorsOnlyAccepted(m: MultiResponse, rest: seq<byte>)
    requires OnlyErrors(m)
    ensures ParseMultiResponse(ErrorHeaders(m) + rest) == Ok((m, rest))
    decreases |m.results|
  {
    hide MultiHeaderBytes, ParseMultiHeader, ParseResponse;
    if m.results == [] {
      MultiHeaderRoundTrip(m.doneHeader, rest);
    } else {
      var others := MultiResponse(m.results[1..], m.doneHeader);
      var header := m.results[0].header;
      Regroup(MultiHeaderBytes(header), ErrorHeaders(others), rest);
      MultiHeaderRoundTrip(header, ErrorHeaders(others) + rest);
      ErrorsOnlyAccepted(others, rest);
      assert OnlyError(m.results[0]);
      assert [SubResult(ErrCode(header.err), header)] + others.results == m.results;
    }
  }

  // ---------------------------------------------------------------- the client-side decoder

  type Opcodes = map<i32, OpCodes>

  /** Decodes the body of one reply frame under the opcodes recorded for the xids. */
  function DecodeReply(table: Opcodes, b: seq<byte>): Parsed<ResponsePacket> {
    if AsI32(|b|) < 4 then Panic
    else
      var (xid, _) :- ParseI32(b);
      if XidCodeOf(xid) == Some(ConnectXid) then
        var (x, rest) :- ParseConnectResponse(b);
        Ok((ResponsePacket(None, ZkResponse.Connect(x)), rest))
      else
        var (header, body) :- ParseReplyHeader(b);
        match XidCodeOf(xid)
        case Some(WatchXid) =>
          var (x, rest) :- ParseWatcherEvent(body);
          Ok((ResponsePacket(Some(header), WatchEvent(x)), rest))
        case Some(PingXid) => Ok((ResponsePacket(Some(header), Empty), body))
        case Some(AuthXid) => Whole(Ok((ResponsePacket(Some(header), Empty), body)))
        case Some(_) => Panic
        case None =>
          if header.err != 0 then Ok((ResponsePacket(Some(header), Empty), body))
          else if xid !in table then Err(DecodeError)
          else
            var (x, rest) :- ParseResponse(table[xid], body);
            Ok((ResponsePacket(Some(header), x), rest))
  }

  lemma ReplyXid(b: seq<byte>)
    requires ParseReplyHeader(b).Ok?
    ensures ParseI32(b).Ok? && ParseI32(b).value.0 == ParseReplyHeader(b).value.0.xid
  {
  }

  /** A successful reply to a request of the client's own. */
  predicate Successful(h: ReplyHeader) {
    Ordinary(h.xid) && h.err == 0
  }

  /** The replies `decode` can produce, connect and multi apart. */
  predicate WellFormedReply(table: Opcodes, p: ResponsePacket) {
    match p.header
    case None => false
    case Some(h) =>
      match XidCodeOf(h.xid)
      case Some(WatchXid) => p.response.WatchEvent?
      case Some(PingXid) => p.response.Empty?
      case Some(AuthXid) => p.response.Empty?
      case Some(_) => false
      case None =>
        if h.err != 0 then p.response.Empty?
        else h.xid in table && ReplyVariant(table[h.xid], p.response)
  }

  /** Re-encoding an accepted reply gives its body, up to bytes the decoder ignored; a successful one leaves none. */
  lemma ReplyPrintAfterParse(table: Opcodes, b: seq<byte>, p: ResponsePacket, rest: seq<byte>)
    requires DecodeReply(table, b) == Ok((p, rest))
    requires p.header.Some? && !p.response.Multi?
    ensures WellFormedReply(table, p)
    ensures b == ReplyBytes(p) + rest
    ensures Successful(p.header.value) ==> rest == []
  {
    hide ReplyHeaderBytes, ParseReplyHeader, ParseResponse, ParseWatcherEvent, WatcherEventBytes;
    hide ReplyVariant, OpCodeOf;
    ReplyXid(b);
    var (header, body) := ParseReplyHeader(b).value;
    assert body == [] + body;
    if XidCodeOf(header.xid).None? && header.err == 0 {
      SuccessfulVariant(table[header.xid], body);
      assert body == body + [];
    }
    Join(b, ReplyHeaderBytes(header), body, ResponseBytes(p.response), rest);
  }

  lemma SuccessfulVariant(op: OpCodes, b: seq<byte>)
    requires ParseResponse(op, b).Ok? && !ParseResponse(op, b).value.0.Multi?
    ensures ReplyVariant(op, ParseResponse(op, b).value.0) && b == ResponseBytes(ParseResponse(op, b).value.0)
  {
    ParseResponseExact(op, b);
  }

  /** The bytes of a connect reply after its password. */
  function AfterReplyPasswd(b: seq<byte>, x: ConnectResponse): int {
    |b| - |ConnectResponseStem(x)|
  }

  /**
    * Re-encoding a connect reply: with no byte after the password it gains a zero; with one, that byte becomes zero;
    * with more, the first is kept and the rest dropped.
    */
  lemma ConnectReplyReencoded(table: Opcodes, b: seq<byte>, p: ResponsePacket, rest: seq<byte>)
    requires DecodeReply(table, b) == Ok((p, rest)) && p.header.None?
    ensures p.response.Connect? && p.response.connect.protocolVersion == 0
    ensures var k := AfterReplyPasswd(b, p.response.connect);
            && k >= 0
            && (k == 0 ==> ReplyBytes(p) == b + [0])
            && (k == 1 ==> ReplyBytes(p) == b[..|b| - 1] + [0])
            && (k >= 2 ==> b == ReplyBytes(p) + rest && |rest| == k - 1)
  {
    hide ConnectResponseStem, ParseConnectResponse, ParseReplyHeader, ParseResponse, ParseWatcherEvent, ParseI32;
    var x := p.response.connect;
    var k := AfterReplyPasswd(b, x);
    ConnectReplyVersionIsXid(b);
    assert ReplyBytes(p) == [] + ConnectResponseBytes(x) == ConnectResponseStem(x) + [x.readOnly];
    if k <= 1 {
      assert b == ConnectResponseStem(x) + rest;
      assert k == |rest|;
      assert b[..|b| - k] == ConnectResponseStem(x);
    }
  }

  /** The first four bytes are the xid the decoder looks at and the protocol version of a connect reply. */
  lemma ConnectReplyVersionIsXid(b: seq<byte>)
    requires ParseConnectResponse(b).Ok?
    ensures ParseI32(b).Ok? && ParseI32(b).value.0 == ParseConnectResponse(b).value.0.protocolVersion
  {
  }

  /** A connect reply is re-encoded unchanged exactly when one byte follows its password and that byte is zero. */
  lemma ConnectReplyUnchangedIff(table: Opcodes, b: seq<byte>, p: ResponsePacket, rest: seq<byte>)
    requires DecodeReply(table, b) == Ok((p, rest)) && p.header.None?
    ensures p.response.Connect?
    ensures ReplyBytes(p) == b <==> AfterReplyPasswd(b, p.response.connect) == 1 && b[|b| - 1] == 0
  {
    hide DecodeReply, ReplyBytes, ConnectResponseStem;
    ConnectReplyReencoded(table, b, p, rest);
    if AfterReplyPasswd(b, p.response.connect) == 1 {
      assert b == b[..|b| - 1] + [b[|b| - 1]];
      assert (b[..|b| - 1] + [0])[|b| - 1] == 0;
    }
  }

  /** Decoding the encoding of a connect reply gives it back without its `read_only`, which is left as the last byte. */
  lemma ConnectReplyParseAfterPrint(table: Opcodes, x: ConnectResponse)
    requires x.protocolVersion == 0 && |ConnectResponseBytes(x)| < I32_LIMIT
    ensures DecodeReply(table, ReplyBytes(ResponsePacket(None, ZkResponse.Connect(x))))
         == Ok((ResponsePacket(None, ZkResponse.Connect(x.(readOnly := 0))), [x.readOnly]))
  {
    hide ConnectResponseStem, ParseConnectResponse, ParseReplyHeader, ParseResponse, ParseWatcherEvent, ParseI32;
    var b := ConnectResponseBytes(x);
    assert ReplyBytes(ResponsePacket(None, ZkResponse.Connect(x))) == [] + b == b;
    ConnectResponseRoundTrip(x, []);
    ConnectReplyVersionIsXid(b);
  }

  /** Decoding the encoding of any well-formed reply, under a table that holds its opcode, gives it back. */
  lemma ReplyParseAfterPrint(table: Opcodes, p: ResponsePacket)
    requires WellFormedReply(table, p) && |ReplyBytes(p)| < I32_LIMIT
    ensures DecodeReply(table, ReplyBytes(p)) == Ok((p, []))
  {
    assert !p.response.Multi?;
    hide ReplyHeaderBytes, ReplyVariant, OpCodeOf;
    if XidCodeOf(p.header.value.xid).Some? {
      SpecialReplyParseAfterPrint(table, p);
    } else {
      OrdinaryReplyParseAfterPrint(table, p);
    }
  }

  lemma SpecialReplyParseAfterPrint(table: Opcodes, p: ResponsePacket)
    requires WellFormedReply(table, p) && |ReplyBytes(p)| < I32_LIMIT
    requires XidCodeOf(p.header.value.xid).Some?
    ensures DecodeReply(table, ReplyBytes(p)) == Ok((p, []))
  {
    hide ReplyHeaderBytes, ParseReplyHeader, ParseResponse, ParseWatcherEvent, WatcherEventBytes;
    hide ReplyVariant, OpCodeOf;
    hide ParseI32;
    var body := ResponseBytes(p.response);
    ReplyHeaderRoundTrip(p.header.value, body);
    ReplyXid(ReplyBytes(p));
    assert body + [] == body;
    if p.response.WatchEvent? {
      WatcherEventRoundTrip(p.response.event, []);
    }
  }

  lemma OrdinaryReplyParseAfterPrint(table: Opcodes, p: ResponsePacket)
    requires WellFormedReply(table, p) && |ReplyBytes(p)| < I32_LIMIT
    requires XidCodeOf(p.header.value.xid).None?
    ensures DecodeReply(table, ReplyBytes(p)) == Ok((p, []))
  {
    assert p.response.Empty? ==> ResponseBytes(p.response) == [];
    assert !p.response.Multi?;
    hide ReplyHeaderBytes, ParseReplyHeader, ParseResponse, ParseWatcherEvent, ReplyVariant, OpCodeOf;
    hide ParseI32, ResponseBytes, XidCodeOf;
    var h, body := p.header.value, ResponseBytes(p.response);
    ReplyHeaderRoundTrip(h, body);
    ReplyXid(ReplyBytes(p));
    if h.err == 0 {
      ParseResponseInverts(table[h.xid], p.response);
    }
  }
}
