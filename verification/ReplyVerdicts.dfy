/** Which server frames are accepted, which are errors, and which panic, by class of reply. */
module ReplyVerdicts {
  import opened Outcomes
  import opened Bytes
  import opened Proto
  import opened Constants
  import opened Requests
  import opened Responses

  /** Fewer bytes than an xid are a panic, and so are as many as turn negative as an `i32`. */
  lemma ShortReplyPanics(table: Opcodes, b: seq<byte>)
    ensures |b| < 4 || 0x8000_0000 <= |b| < 0x1_0000_0000 ==> DecodeReply(table, b) == Panic
  {
  }

  // ---------------------------------------------------------------- connect replies

  /**
    * A connect reply is accepted under every table and whatever follows its password, also when nothing does: its
    * `read_only` is the first of two or more bytes, and zero otherwise.
    */
  lemma ConnectReplyRead(table: Opcodes, x: ConnectResponse, tail: seq<byte>)
    requires x.protocolVersion == 0 && |ConnectResponseStem(x)| + |tail| < I32_LIMIT
    ensures DecodeReply(table, ConnectResponseStem(x) + tail)
         == if |tail| > 1 then Ok((ResponsePacket(None, ZkResponse.Connect(x.(readOnly := tail[0]))), tail[1..]))
            else Ok((ResponsePacket(None, ZkResponse.Connect(x.(readOnly := 0))), tail))
  {
    hide ConnectResponseStem, ParseConnectResponse, ParseReplyHeader, ParseResponse, ParseWatcherEvent, ParseI32;
    ConnectReplyStemRead(x, tail);
    ConnectReplyVersionIsXid(ConnectResponseStem(x) + tail);
  }

  // ---------------------------------------------------------------- replies with a header, class by class

  /** Pings ignore what follows their header, auths panic on it, and set-watches replies always panic. */
  lemma ControlReplyRead(table: Opcodes, h: ReplyHeader, body: seq<byte>)
    requires |body| + 16 < I32_LIMIT
    ensures var r := DecodeReply(table, ReplyHeaderBytes(h) + body);
            var p := ResponsePacket(Some(h), Empty);
            && (h.xid == -2 ==> r == Ok((p, body)))
            && (h.xid == -4 ==> r == if body == [] then Ok((p, body)) else Panic)
            && (h.xid == -8 ==> r == Panic)
  {
    HeaderThenBody(h, body);
    hide ReplyHeaderBytes, ParseReplyHeader, ParseResponse, ParseWatcherEvent, ParseConnectResponse, ParseI32;
  }

  lemma HeaderThenBody(h: ReplyHeader, body: seq<byte>)
    ensures ParseReplyHeader(ReplyHeaderBytes(h) + body) == Ok((h, body))
    ensures ParseI32(ReplyHeaderBytes(h) + body).Ok? && ParseI32(ReplyHeaderBytes(h) + body).value.0 == h.xid
  {
    hide ParseReplyHeader, ReplyHeaderBytes;
    ReplyHeaderRoundTrip(h, body);
    ReplyXid(ReplyHeaderBytes(h) + body);
  }

  /** A watch event is read, and what follows it is ignored. */
  lemma WatchReplyRead(table: Opcodes, h: ReplyHeader, x: WatcherEvent, rest: seq<byte>)
    requires h.xid == -1 && |WatcherEventBytes(x)| + |rest| + 16 < I32_LIMIT
    ensures DecodeReply(table, ReplyHeaderBytes(h) + (WatcherEventBytes(x) + rest))
         == Ok((ResponsePacket(Some(h), WatchEvent(x)), rest))
  {
    HeaderThenBody(h, WatcherEventBytes(x) + rest);
    WatcherEventRoundTrip(x, rest);
    hide ReplyHeaderBytes, ParseReplyHeader, ParseResponse, ParseWatcherEvent, ParseConnectResponse, ParseI32;
    hide WatcherEventBytes;
  }

  /** A watched path that is no UTF-8 is an error, and no panic. */
  lemma BadWatchPathIsAnError(table: Opcodes, h: ReplyHeader, kind: i32, state: i32, s: seq<byte>, rest: seq<byte>)
    requires h.xid == -1 && !ValidUtf8(s) && BufSize(s) + |rest| + 24 < I32_LIMIT
    ensures DecodeReply(table, ReplyHeaderBytes(h) + (I32Bytes(kind) + (I32Bytes(state) + (BufBytes(s) + rest))))
         == Err(InvalidString)
  {
    var tail := BufBytes(s) + rest;
    ParseI32Inverts(kind, I32Bytes(state) + tail);
    ParseI32Inverts(state, tail);
    StrRefused(s, rest);
    var body := I32Bytes(kind) + (I32Bytes(state) + tail);
    hide ParseStr, ParseI32, BufBytes, ValidUtf8;
    assert ParseWatcherEvent(body) == Err(InvalidString);
    HeaderThenBody(h, body);
    hide ReplyHeaderBytes, ParseReplyHeader, ParseResponse, ParseWatcherEvent, ParseConnectResponse, I32Bytes;
  }

  /** The reply to a request of the client's own, by its error and the table; the body is read when both allow it. */
  lemma OrdinaryReplyRead(table: Opcodes, h: ReplyHeader, body: seq<byte>)
    requires Ordinary(h.xid) && |body| + 16 < I32_LIMIT
    ensures var r := DecodeReply(table, ReplyHeaderBytes(h) + body);
            if h.err != 0 then r == Ok((ResponsePacket(Some(h), Empty), body))
            else if h.xid !in table then r == Err(DecodeError)
            else
              match ParseResponse(table[h.xid], body)
              case Ok(v) => r == Ok((ResponsePacket(Some(h), v.0), v.1))
              case Err(e) => r == Err(e)
              case Panic => r == Panic
  {
    HeaderThenBody(h, body);
    hide ReplyHeaderBytes, ParseReplyHeader, ParseResponse, ParseWatcherEvent, ParseConnectResponse, ParseI32;
    hide XidCodeOf;
  }

  /** A reply that reports an error is accepted under every table, and whatever follows its header is ignored. */
  lemma FailedReplyRead(table: Opcodes, h: ReplyHeader, body: seq<byte>)
    requires Ordinary(h.xid) && h.err != 0 && |body| + 16 < I32_LIMIT
    ensures DecodeReply(table, ReplyHeaderBytes(h) + body) == Ok((ResponsePacket(Some(h), Empty), body))
  {
    hide DecodeReply, ReplyHeaderBytes, Ordinary, ParseResponse;
    OrdinaryReplyRead(table, h, body);
  }

  /** A successful reply to no request is an error, whatever its body. */
  lemma UnknownReplyIsAnError(table: Opcodes, h: ReplyHeader, body: seq<byte>)
    requires Ordinary(h.xid) && h.err == 0 && h.xid !in table && |body| + 16 < I32_LIMIT
    ensures DecodeReply(table, ReplyHeaderBytes(h) + body) == Err(DecodeError)
  {
    hide DecodeReply, ReplyHeaderBytes, Ordinary, ParseResponse;
    OrdinaryReplyRead(table, h, body);
  }

  /** A successful reply is accepted when its response ends the frame, and panics when anything follows. */
  lemma SuccessfulReplyRead(table: Opcodes, h: ReplyHeader, r: ZkResponse, rest: seq<byte>)
    requires Successful(h) && h.xid in table && ReplyVariant(table[h.xid], r)
    requires |ResponseBytes(r)| + |rest| + 16 < I32_LIMIT
    ensures DecodeReply(table, ReplyHeaderBytes(h) + (ResponseBytes(r) + rest))
         == ReadBefore(ResponsePacket(Some(h), r), rest, true)
  {
    assert !r.Multi?;
    hide DecodeReply, ReplyHeaderBytes, ResponseBytes, ReplyVariant, ParseResponse, Ordinary;
    OrdinaryReplyRead(table, h, ResponseBytes(r) + rest);
    ResponseThenRest(table[h.xid], r, rest);
  }

  lemma ResponseThenRest(op: OpCodes, r: ZkResponse, rest: seq<byte>)
    requires ReplyVariant(op, r) && |ResponseBytes(r)| < I32_LIMIT
    ensures ParseResponse(op, ResponseBytes(r) + rest) == ReadBefore(r, rest, true)
  {
    assert !op.Multi?;
    hide ParseSingle, ResponseBytes, ReplyVariant;
    ParseSingleInverts(op, r, rest);
  }

  /** A multi reply that holds errors only is accepted when its terminator ends the frame. */
  lemma MultiReplyRead(table: Opcodes, h: ReplyHeader, m: MultiResponse, rest: seq<byte>)
    requires Successful(h) && h.xid in table && table[h.xid].Multi? && OnlyErrors(m)
    requires |ErrorHeaders(m)| + |rest| + 16 < I32_LIMIT
    ensures DecodeReply(table, ReplyHeaderBytes(h) + (ErrorHeaders(m) + rest))
         == ReadBefore(ResponsePacket(Some(h), ZkResponse.Multi(m)), rest, true)
  {
    hide DecodeReply, ReplyHeaderBytes, ErrorHeaders, OnlyErrors, ParseMultiResponse, Ordinary;
    OrdinaryReplyRead(table, h, ErrorHeaders(m) + rest);
    ErrorsOnlyAccepted(m, rest);
  }

  /**
    * After any errors, the result of an operation that succeeded is never read: an opcode that does not exist is an
    * error, an error inside the response is passed on, and all else is a panic. The last header stands for that
    * operation's.
    */
  lemma {:induction false} SuccessfulResultRead(m: MultiResponse, rest: seq<byte>)
    requires (forall x <- m.results :: OnlyError(x)) && m.doneHeader.done != 1 && m.doneHeader.opcode != -1
    ensures var r := ParseMultiResponse(ErrorHeaders(m) + rest);
            match OpCodeOf(m.doneHeader.opcode)
            case None => r == Err(InvalidOpCode(-1))
            case Some(op) =>
              match ParseResponse(op, rest)
              case Ok(_) => r == Panic
              case Err(e) => r == Err(e)
              case Panic => r == Panic
    decreases |m.results|
  {
    hide OpCodeOf, ParseResponse;
    if m.results == [] {
      FirstResultRead(m.doneHeader, rest);
    } else {
      var others := MultiResponse(m.results[1..], m.doneHeader);
      SuccessfulResultRead(others, rest);
      assert OnlyError(m.results[0]);
      ErrorThenRest(m, rest);
    }
  }

  lemma FirstResultRead(h: MultiHeader, rest: seq<byte>)
    requires h.done != 1 && h.opcode != -1
    ensures var r := ParseMultiResponse(MultiHeaderBytes(h) + rest);
            match OpCodeOf(h.opcode)
            case None => r == Err(InvalidOpCode(-1))
            case Some(op) =>
              match ParseResponse(op, rest)
              case Ok(_) => r == Panic
              case Err(e) => r == Err(e)
              case Panic => r == Panic
  {
    hide OpCodeOf, ParseResponse, MultiHeaderBytes, ParseMultiHeader;
    MultiHeaderRoundTrip(h, rest);
    NothingAfterWhole();
  }

  /** An error in front changes nothing in how the results after it fail. */
  lemma ErrorThenRest(m: MultiResponse, rest: seq<byte>)
    requires m.results != [] && OnlyError(m.results[0])
    ensures var others := ParseMultiResponse(ErrorHeaders(MultiResponse(m.results[1..], m.doneHeader)) + rest);
            match others
            case Ok(_) => ParseMultiResponse(ErrorHeaders(m) + rest).Ok?
            case Err(e) => ParseMultiResponse(ErrorHeaders(m) + rest) == Err(e)
            case Panic => ParseMultiResponse(ErrorHeaders(m) + rest) == Panic
  {
    hide OpCodeOf, ParseResponse, MultiHeaderBytes, ParseMultiHeader;
    var others := MultiResponse(m.results[1..], m.doneHeader);
    var header := m.results[0].header;
    Regroup(MultiHeaderBytes(header), ErrorHeaders(others), rest);
    MultiHeaderRoundTrip(header, ErrorHeaders(others) + rest);
  }

  /** A created path that is no UTF-8 is an error, and no panic. */
  lemma BadCreatedPathIsAnError(table: Opcodes, h: ReplyHeader, s: seq<byte>, rest: seq<byte>)
    requires Successful(h) && h.xid in table && !ValidUtf8(s) && BufSize(s) + |rest| + 16 < I32_LIMIT
    requires var op := table[h.xid]; op.Create? || op.CreateTtl? || op.CreateContainer? || op.Create2?
    ensures DecodeReply(table, ReplyHeaderBytes(h) + (BufBytes(s) + rest)) == Err(InvalidString)
  {
    hide DecodeReply, ReplyHeaderBytes, BufBytes, ValidUtf8, ParseStr, Ordinary;
    hide ParseStat, ParseBuf, ParseStrs, ParseAcls, ParseClients, ParseMultiResponse;
    OrdinaryReplyRead(table, h, BufBytes(s) + rest);
    StrRefused(s, rest);
  }

  /** The opcodes whose successful reply the proxy does not read. */
  predicate Unanswered(op: OpCodes) {
    || op.Connect? || op.Ping? || op.Sync? || op.Reconfig? || op.RemoveWatches? || op.MultiRead? || op.Sasl?
    || op.GetEphemerals? || op.GetAllChildrenNumber? || op.SetWatches2? || op.AddWatch? || op.CreateSession?
  }

  lemma UnansweredReplyPanics(table: Opcodes, h: ReplyHeader, body: seq<byte>)
    requires Successful(h) && h.xid in table && Unanswered(table[h.xid]) && |body| + 16 < I32_LIMIT
    ensures DecodeReply(table, ReplyHeaderBytes(h) + body) == Panic
  {
    hide DecodeReply, ReplyHeaderBytes, Ordinary;
    OrdinaryReplyRead(table, h, body);
  }

  /** The response each request number is answered by, in the protocol's own numbers; multis apart. */
  predicate Answers(n: i32, r: ZkResponse) {
    match n
    case 1 => r.Create?
    case 2 => r.Empty?
    case 3 => r.Stat?
    case 4 => r.GetData?
    case 5 => r.Stat?
    case 6 => r.GetAcl?
    case 7 => r.Stat?
    case 8 => r.Strings?
    case 12 => r.GetChildren2?
    case 13 => r.Empty?
    case 15 => r.Create2?
    case 17 => r.Empty?
    case 19 => r.String?
    case 21 => r.String?
    case 100 => r.Empty?
    case 101 => r.Empty?
    case 107 => r.WhoAmI?
    case -1 => r.Empty?
    case -11 => r.Empty?
    case _ => false
  }

  lemma AnswerIsVariant(n: i32, r: ZkResponse)
    ensures Answers(n, r) <==> OpCodeOf(n).Some? && ReplyVariant(OpCodeOf(n).value, r)
  {
    AnswerExists(n, r);
    hide Answers, ReplyVariant, OpCodeOf;
    if OpCodeOf(n).Some? {
      OpCodeOfNumber(n, OpCodeOf(n).value);
      AnswerToOpcode(OpCodeOf(n).value, r);
    }
  }

  lemma AnswerExists(n: i32, r: ZkResponse)
    ensures Answers(n, r) ==> OpCodeOf(n).Some?
  {
  }

  lemma AnswerToOpcode(op: OpCodes, r: ZkResponse)
    ensures Answers(OpCodeNumber(op), r) <==> ReplyVariant(op, r)
  {
    hide OpCodeOf;
  }

  // ---------------------------------------------------------------- acceptance, exactly

  /** `b` is a connect reply up to its password, and any bytes after that. */
  ghost predicate IsConnectReply(b: seq<byte>, x: ConnectResponse, tail: seq<byte>) {
    x.protocolVersion == 0 && b == ConnectResponseStem(x) + tail
  }

  /** `b` is the encoding of a well-formed reply, and bytes after it unless it is successful or an auth. */
  ghost predicate IsHeadedReply(table: Opcodes, b: seq<byte>, p: ResponsePacket, rest: seq<byte>) {
    && WellFormedReply(table, p) && !p.response.Multi?
    && b == ReplyBytes(p) + rest
    && (Successful(p.header.value) || p.header.value.xid == -4 ==> rest == [])
  }

  /** `b` is a successful reply to a multi whose operations all failed. */
  ghost predicate IsMultiReply(table: Opcodes, b: seq<byte>, h: ReplyHeader, m: MultiResponse) {
    && Successful(h) && h.xid in table && table[h.xid].Multi? && OnlyErrors(m)
    && b == ReplyHeaderBytes(h) + ErrorHeaders(m)
  }

  lemma ConnectReplyIsAccepted(table: Opcodes, b: seq<byte>, x: ConnectResponse, tail: seq<byte>)
    requires IsConnectReply(b, x, tail) && |b| < I32_LIMIT
    ensures DecodeReply(table, b).Ok?
  {
    hide DecodeReply, ConnectResponseStem;
    ConnectReplyRead(table, x, tail);
  }

  lemma HeadedReplyIsAccepted(table: Opcodes, b: seq<byte>, p: ResponsePacket, rest: seq<byte>)
    requires IsHeadedReply(table, b, p, rest) && |b| < I32_LIMIT
    ensures DecodeReply(table, b) == Ok((p, rest))
  {
    assert p.response.Empty? ==> ResponseBytes(p.response) == [];
    assert p.response.WatchEvent? ==> ResponseBytes(p.response) == WatcherEventBytes(p.response.event);
    hide DecodeReply, ReplyHeaderBytes, ResponseBytes, ReplyVariant, OpCodeOf, WatcherEventBytes;
    var h, body := p.header.value, ResponseBytes(p.response);
    Regroup(ReplyHeaderBytes(h), body, rest);
    assert [] + rest == rest;
    match XidCodeOf(h.xid) {
      case Some(WatchXid) => WatchReplyRead(table, h, p.response.event, rest);
      case Some(_) => ControlReplyRead(table, h, body + rest);
      case None =>
        if h.err != 0 {
          FailedReplyRead(table, h, body + rest);
        } else {
          SuccessfulReplyRead(table, h, p.response, rest);
        }
    }
  }

  lemma MultiReplyIsAccepted(table: Opcodes, b: seq<byte>, h: ReplyHeader, m: MultiResponse)
    requires IsMultiReply(table, b, h, m) && |b| < I32_LIMIT
    ensures DecodeReply(table, b).Ok?
  {
    hide DecodeReply, ReplyHeaderBytes, ErrorHeaders, OnlyErrors;
    assert ErrorHeaders(m) + [] == ErrorHeaders(m);
    MultiReplyRead(table, h, m, []);
  }

  lemma AcceptedConnectReply(table: Opcodes, b: seq<byte>)
    requires DecodeReply(table, b).Ok? && DecodeReply(table, b).value.0.header.None?
    ensures exists x, tail :: IsConnectReply(b, x, tail)
  {
    hide DecodeReply, ReplyBytes, ConnectResponseStem;
    var (p, rest) := DecodeReply(table, b).value;
    ConnectReplyReencoded(table, b, p, rest);
    var x := p.response.connect;
    var stem := ConnectResponseStem(x);
    ConnectReplyBytes(p, x);
    if AfterReplyPasswd(b, x) >= 2 {
      Regroup(stem, [x.readOnly], rest);
      assert IsConnectReply(b, x, [x.readOnly] + rest);
    } else {
      assert ReplyBytes(p)[..|stem|] == stem;
      assert b[..|stem|] == stem;
      assert IsConnectReply(b, x, b[|stem|..]);
    }
  }

  lemma ConnectReplyBytes(p: ResponsePacket, x: ConnectResponse)
    requires p == ResponsePacket(None, ZkResponse.Connect(x))
    ensures ReplyBytes(p) == ConnectResponseStem(x) + [x.readOnly]
  {
    hide ConnectResponseStem;
  }

  lemma AcceptedHeadedReply(table: Opcodes, b: seq<byte>)
    requires |b| < I32_LIMIT && DecodeReply(table, b).Ok?
    requires DecodeReply(table, b).value.0.header.Some? && !DecodeReply(table, b).value.0.response.Multi?
    ensures IsHeadedReply(table, b, DecodeReply(table, b).value.0, DecodeReply(table, b).value.1)
  {
    hide DecodeReply, ReplyHeaderBytes, ResponseBytes, ReplyVariant, OpCodeOf;
    var (p, rest) := DecodeReply(table, b).value;
    ReplyPrintAfterParse(table, b, p, rest);
    var h, body := p.header.value, ResponseBytes(p.response);
    if h.xid == -4 {
      Regroup(ReplyHeaderBytes(h), body, rest);
      ControlReplyRead(table, h, body + rest);
    }
  }

  lemma AcceptedMultiReply(table: Opcodes, b: seq<byte>)
    requires |b| < I32_LIMIT && DecodeReply(table, b).Ok? && DecodeReply(table, b).value.0.response.Multi?
    ensures exists h, m :: IsMultiReply(table, b, h, m)
  {
    var (h, body) := MultiReplyParts(table, b);
    hide DecodeReply, ReplyHeaderBytes, ErrorHeaders, OnlyErrors, ParseMultiResponse;
    MultiReplyHoldsErrorsOnly(body);
    var (m, rest) := ParseMultiResponse(body).value;
    assert ErrorHeaders(m) + [] == ErrorHeaders(m);
    assert IsMultiReply(table, b, h, m);
  }

  /** The header and body of an accepted multi reply. */
  function MultiReplyParts(table: Opcodes, b: seq<byte>): (r: (ReplyHeader, seq<byte>))
    requires DecodeReply(table, b).Ok? && DecodeReply(table, b).value.0.response.Multi?
    ensures var (h, body) := r;
            && b == ReplyHeaderBytes(h) + body
            && Successful(h) && h.xid in table && table[h.xid].Multi?
            && ParseMultiResponse(body).Ok? && ParseMultiResponse(body).value.1 == []
  {
    MultiReplyIsSuccessful(table, b);
    ParseReplyHeader(b).value
  }

  lemma MultiReplyIsSuccessful(table: Opcodes, b: seq<byte>)
    requires DecodeReply(table, b).Ok? && DecodeReply(table, b).value.0.response.Multi?
    ensures ParseReplyHeader(b).Ok?
    ensures var (h, body) := ParseReplyHeader(b).value;
            && Successful(h) && h.xid in table && table[h.xid].Multi?
            && ParseMultiResponse(body).Ok? && ParseMultiResponse(body).value.1 == []
  {
    hide ParseReplyHeader, ReplyHeaderBytes, ParseConnectResponse, ParseWatcherEvent, ParseI32;
    hide ParseMultiResponse, ParseSingle;
    var (h, body) := ParseReplyHeader(b).value;
    ReplyXid(b);
    if ParseResponse(table[h.xid], body).Ok? && !table[h.xid].Multi? {
      ParseResponseExact(table[h.xid], body);
    }
  }

  /**
    * Under a table, a body is accepted exactly when it is a connect reply of version 0 followed by anything, the
    * encoding of a well-formed reply followed by what its class allows, or a multi reply of errors only.
    */
  lemma AcceptedExactly(table: Opcodes, b: seq<byte>)
    requires |b| < I32_LIMIT
    ensures DecodeReply(table, b).Ok?
       <==> || (exists x, tail :: IsConnectReply(b, x, tail))
            || (exists p, rest :: IsHeadedReply(table, b, p, rest))
            || (exists h, m :: IsMultiReply(table, b, h, m))
  {
    hide DecodeReply, IsConnectReply, IsHeadedReply, IsMultiReply;
    if DecodeReply(table, b).Ok? {
      var p := DecodeReply(table, b).value.0;
      if p.response.Multi? {
        AcceptedMultiReply(table, b);
      } else if p.header.None? {
        AcceptedConnectReply(table, b);
      } else {
        AcceptedHeadedReply(table, b);
      }
    }
    if x, tail :| IsConnectReply(b, x, tail) {
      ConnectReplyIsAccepted(table, b, x, tail);
    }
    if p, rest :| IsHeadedReply(table, b, p, rest) {
      HeadedReplyIsAccepted(table, b, p, rest);
    }
    if h, m :| IsMultiReply(table, b, h, m) {
      MultiReplyIsAccepted(table, b, h, m);
    }
  }
}
