/** Records that loop or branch, read and written on the buffer step by step, proved against `Proto`. */
module ProtoInPlace {
  import opened Outcomes
  import opened Bytes
  import opened Proto

  // ---------------------------------------------------------------- strings and byte vectors

  method WriteBuf(s: seq<byte>, buffer: BytesMut)
    modifies buffer
    ensures buffer.data == old(buffer.data) + BufBytes(s)
  {
    buffer.PutI32(AsI32(|s|));
    buffer.PutSlice(s);
    Regroup(old(buffer.data), I32Bytes(AsI32(|s|)), s);
  }

  method ReadBuf(bytes: BytesMut) returns (r: Outcome<seq<byte>, ZkError>)
    modifies bytes
    ensures ReadInPlace(ParseBuf(old(bytes.data)), r, bytes.data)
  {
    var len :- bytes.Take(ParseI32);
    if len < 0 {
      return Panic;
    }
    r := bytes.Take(b => ParseSlice(len, b));
  }

  method ReadString(bytes: BytesMut) returns (r: Outcome<Utf8, ZkError>)
    modifies bytes
    ensures ReadInPlace(ParseStr(old(bytes.data)), r, bytes.data)
  {
    var buf :- ReadBuf(bytes);
    if !ValidUtf8(buf) {
      return Err(InvalidString);
    }
    return Ok(buf);
  }

  // ---------------------------------------------------------------- vectors

  method WriteStrs(v: seq<Utf8>, buffer: BytesMut)
    modifies buffer
    ensures buffer.data == old(buffer.data) + StrsBytes(v)
  {
    WriteVec(StrBytes, v, buffer);
  }

  method ReadStrs(bytes: BytesMut) returns (r: Outcome<seq<Utf8>, ZkError>)
    modifies bytes
    ensures ReadInPlace(ParseStrs(old(bytes.data)), r, bytes.data)
  {
    r := ReadVec(ParseStr, bytes);
  }

  method WriteAcls(v: seq<ACL>, buffer: BytesMut)
    modifies buffer
    ensures buffer.data == old(buffer.data) + AclsBytes(v)
  {
    WriteVec(AclBytes, v, buffer);
  }

  method ReadAcls(bytes: BytesMut) returns (r: Outcome<seq<ACL>, ZkError>)
    modifies bytes
    ensures ReadInPlace(ParseAcls(old(bytes.data)), r, bytes.data)
  {
    r := ReadVec(ParseAcl, bytes);
  }

  method WriteClients(v: seq<ClientInfo>, buffer: BytesMut)
    modifies buffer
    ensures buffer.data == old(buffer.data) + ClientsBytes(v)
  {
    WriteVec(ClientInfoBytes, v, buffer);
  }

  method ReadClients(bytes: BytesMut) returns (r: Outcome<seq<ClientInfo>, ZkError>)
    modifies bytes
    ensures ReadInPlace(ParseClients(old(bytes.data)), r, bytes.data)
  {
    r := ReadVec(ParseClientInfo, bytes);
  }

  // ---------------------------------------------------------------- session records

  method WriteConnectRequest(x: ConnectRequest, buffer: BytesMut)
    modifies buffer
    ensures buffer.data == old(buffer.data) + ConnectRequestBytes(x)
  {
    ghost var b := buffer.data;
    buffer.PutI32(x.protocolVersion);
    buffer.PutI64(x.lastZxidSeen);
    buffer.PutI32(x.timeOut);
    buffer.PutI64(x.sessionId);
    WriteBuf(x.passwd, buffer);
    buffer.PutU8(x.readOnly);
    AppendFive(b, I32Bytes(x.protocolVersion), I64Bytes(x.lastZxidSeen), I32Bytes(x.timeOut), I64Bytes(x.sessionId),
               BufBytes(x.passwd));
    Regroup(b, ConnectRequestStem(x), [x.readOnly]);
  }

  method ReadConnectRequest(bytes: BytesMut) returns (r: Outcome<ConnectRequest, ZkError>)
    modifies bytes
    ensures ReadInPlace(ParseConnectRequest(old(bytes.data)), r, bytes.data)
  {
    hide ParseI32, ParseI64, ParseBuf;
    var protocolVersion :- bytes.Take(ParseI32);
    var lastZxidSeen :- bytes.Take(ParseI64);
    var timeOut :- bytes.Take(ParseI32);
    var sessionId :- bytes.Take(ParseI64);
    var passwd :- ReadBuf(bytes);
    var readOnly := 0;
    if |bytes.data| > 1 {
      readOnly := bytes.data[0];
      bytes.Advance(1);
    }
    return Ok(ConnectRequest(protocolVersion, lastZxidSeen, timeOut, sessionId, passwd, readOnly));
  }

  method WriteSetWatches(x: SetWatches, buffer: BytesMut)
    modifies buffer
    ensures buffer.data == old(buffer.data) + SetWatchesBytes(x)
  {
    hide StrsBytes;
    ghost var b := buffer.data;
    buffer.PutI64(x.relativeZxid);
    WriteStrs(x.dataWatches, buffer);
    WriteStrs(x.existWatches, buffer);
    WriteStrs(x.childWatches, buffer);
    AppendFour(b, I64Bytes(x.relativeZxid), StrsBytes(x.dataWatches), StrsBytes(x.existWatches),
               StrsBytes(x.childWatches));
  }

  method ReadSetWatches(bytes: BytesMut) returns (r: Outcome<SetWatches, ZkError>)
    modifies bytes
    ensures ReadInPlace(ParseSetWatches(old(bytes.data)), r, bytes.data)
  {
    hide ParseI64, ParseStrs;
    var relativeZxid :- bytes.Take(ParseI64);
    var dataWatches :- ReadStrs(bytes);
    var existWatches :- ReadStrs(bytes);
    var childWatches :- ReadStrs(bytes);
    return Ok(SetWatches(relativeZxid, dataWatches, existWatches, childWatches));
  }

  // ---------------------------------------------------------------- node records that hold a vector

  method WriteSetAcl(x: SetACLRequest, buffer: BytesMut)
    modifies buffer
    ensures buffer.data == old(buffer.data) + SetAclBytes(x)
  {
    hide AclsBytes;
    ghost var b := buffer.data;
    WriteBuf(x.path, buffer);
    WriteAcls(x.acl, buffer);
    buffer.PutI32(x.version);
    AppendThree(b, StrBytes(x.path), AclsBytes(x.acl), I32Bytes(x.version));
  }

  method ReadSetAcl(bytes: BytesMut) returns (r: Outcome<SetACLRequest, ZkError>)
    modifies bytes
    ensures ReadInPlace(ParseSetAcl(old(bytes.data)), r, bytes.data)
  {
    hide ParseI32, ParseStr, ParseAcls;
    var path :- ReadString(bytes);
    var acl :- ReadAcls(bytes);
    var version :- bytes.Take(ParseI32);
    return Ok(SetACLRequest(path, acl, version));
  }

  method WriteCreate(x: CreateRequest, buffer: BytesMut)
    modifies buffer
    ensures buffer.data == old(buffer.data) + CreateBytes(x)
  {
    hide AclsBytes;
    ghost var b := buffer.data;
    WriteBuf(x.path, buffer);
    WriteBuf(x.data, buffer);
    WriteAcls(x.acl, buffer);
    buffer.PutI32(x.flags);
    AppendFour(b, StrBytes(x.path), BufBytes(x.data), AclsBytes(x.acl), I32Bytes(x.flags));
  }

  method ReadCreate(bytes: BytesMut) returns (r: Outcome<CreateRequest, ZkError>)
    modifies bytes
    ensures ReadInPlace(ParseCreate(old(bytes.data)), r, bytes.data)
  {
    hide ParseI32, ParseStr, ParseBuf, ParseAcls;
    var path :- ReadString(bytes);
    var data :- ReadBuf(bytes);
    var acl :- ReadAcls(bytes);
    var flags :- bytes.Take(ParseI32);
    return Ok(CreateRequest(path, data, acl, flags));
  }

  method WriteCreateTTL(x: CreateTTLRequest, buffer: BytesMut)
    modifies buffer
    ensures buffer.data == old(buffer.data) + CreateTTLBytes(x)
  {
    hide CreateBytes;
    ghost var b := buffer.data;
    WriteCreate(x.create, buffer);
    buffer.PutI64(x.ttl);
    Regroup(b, CreateBytes(x.create), I64Bytes(x.ttl));
  }

  method ReadCreateTTL(bytes: BytesMut) returns (r: Outcome<CreateTTLRequest, ZkError>)
    modifies bytes
    ensures ReadInPlace(ParseCreateTTL(old(bytes.data)), r, bytes.data)
  {
    hide ParseI64, ParseCreate;
    var create :- ReadCreate(bytes);
    var ttl :- bytes.Take(ParseI64);
    return Ok(CreateTTLRequest(create, ttl));
  }

  // ---------------------------------------------------------------- appending field by field

  lemma AppendThree(b: seq<byte>, x: seq<byte>, y: seq<byte>, z: seq<byte>)
    ensures b + x + y + z == b + (x + y + z)
  {
    Regroup(b, x + y, z);
    Regroup(b, x, y);
  }

  lemma AppendFour(b: seq<byte>, w: seq<byte>, x: seq<byte>, y: seq<byte>, z: seq<byte>)
    ensures b + w + x + y + z == b + (w + x + y + z)
  {
    Regroup(b, w + x + y, z);
    AppendThree(b, w, x, y);
  }

  lemma AppendFive(b: seq<byte>, v: seq<byte>, w: seq<byte>, x: seq<byte>, y: seq<byte>, z: seq<byte>)
    ensures b + v + w + x + y + z == b + (v + w + x + y + z)
  {
    Regroup(b, v + w + x + y, z);
    AppendFour(b, v, w, x, y);
  }
}
