/** Every record is self-delimiting: its reader is exact and undoes its writer, and no encoding begins another. */
module RecordLaws {
  import opened Outcomes
  import opened Bytes
  import opened Proto
  import opened Constants
  import opened Requests

  /** Equal encodings, whatever follows them, come from equal values and are followed by the same. */
  ghost predicate PrefixFree<T(!new)>(write: T -> seq<byte>) {
    forall x, s, y, t ::
      |write(x)| < I32_LIMIT && |write(y)| < I32_LIMIT && write(x) + s == write(y) + t ==> x == y && s == t
  }

  /** What is left of an encoding whose end is missing is never read as a value. */
  ghost predicate RefusesTruncated<T(!new)>(write: T -> seq<byte>, read: seq<byte> -> Parsed<T>) {
    forall x, b :: |write(x)| < I32_LIMIT && b < write(x) ==> !read(b).Ok?
  }

  ghost predicate SelfDelimiting<T(!new)>(write: T -> seq<byte>, read: seq<byte> -> Parsed<T>) {
    Exact(write, read) && Inverts(write, read) && PrefixFree(write) && RefusesTruncated(write, read)
  }

  lemma InvertsIsPrefixFree<T(!new)>(write: T -> seq<byte>, read: seq<byte> -> Parsed<T>)
    requires Inverts(write, read)
    ensures PrefixFree(write)
  {
    forall x, s, y, t |
      |write(x)| < I32_LIMIT && |write(y)| < I32_LIMIT && write(x) + s == write(y) + t
      ensures x == y && s == t
    {
      assert read(write(x) + s) == Ok((x, s));
      assert read(write(y) + t) == Ok((y, t));
    }
  }

  lemma ExactInverseIsSelfDelimiting<T(!new)>(write: T -> seq<byte>, read: seq<byte> -> Parsed<T>)
    requires Exact(write, read) && Inverts(write, read)
    ensures SelfDelimiting(write, read)
  {
    InvertsIsPrefixFree(write, read);
    forall x, b | |write(x)| < I32_LIMIT && b < write(x)
      ensures !read(b).Ok?
    {
      if read(b).Ok? {
        NothingIsMissing(write, read, x, b, write(x)[|b|..]);
      }
    }
  }

  lemma NothingIsMissing<T(!new)>(
    write: T -> seq<byte>, read: seq<byte> -> Parsed<T>, x: T, b: seq<byte>, missing: seq<byte>)
    requires Exact(write, read) && PrefixFree(write)
    requires |write(x)| < I32_LIMIT && write(x) == b + missing && read(b).Ok?
    ensures missing == []
  {
    var (y, t) := read(b).value;
    Regroup(write(y), t, missing);
    assert write(x) + [] == write(y) + (t + missing);
    assert |missing| <= |t + missing|;
  }

  lemma StrSelfDelimiting()
    ensures SelfDelimiting(StrBytes, ParseStr)
  {
    hide ParseStr;
    forall x: Utf8, rest: seq<byte> | |StrBytes(x)| < I32_LIMIT
      ensures ParseStr(StrBytes(x) + rest) == Ok((x, rest))
    {
      StrRoundTrip(x, rest);
    }
    ExactInverseIsSelfDelimiting(StrBytes, ParseStr);
  }

  lemma StrsSelfDelimiting()
    ensures SelfDelimiting(StrsBytes, ParseStrs)
  {
    hide ParseStrs;
    forall x: seq<Utf8>, rest: seq<byte> | |StrsBytes(x)| < I32_LIMIT
      ensures ParseStrs(StrsBytes(x) + rest) == Ok((x, rest))
    {
      StrsRoundTrip(x, rest);
    }
    ExactInverseIsSelfDelimiting(StrsBytes, ParseStrs);
  }

  lemma IdSelfDelimiting()
    ensures SelfDelimiting(IdBytes, ParseId)
  {
    hide ParseId;
    forall x: Id, rest: seq<byte> | |IdBytes(x)| < I32_LIMIT
      ensures ParseId(IdBytes(x) + rest) == Ok((x, rest))
    {
      IdRoundTrip(x, rest);
    }
    ExactInverseIsSelfDelimiting(IdBytes, ParseId);
  }

  lemma AclSelfDelimiting()
    ensures SelfDelimiting(AclBytes, ParseAcl)
  {
    hide ParseAcl;
    forall x: ACL, rest: seq<byte> | |AclBytes(x)| < I32_LIMIT
      ensures ParseAcl(AclBytes(x) + rest) == Ok((x, rest))
    {
      AclRoundTrip(x, rest);
    }
    ExactInverseIsSelfDelimiting(AclBytes, ParseAcl);
  }

  lemma AclsSelfDelimiting()
    ensures SelfDelimiting(AclsBytes, ParseAcls)
  {
    hide ParseAcls;
    forall x: seq<ACL>, rest: seq<byte> | |AclsBytes(x)| < I32_LIMIT
      ensures ParseAcls(AclsBytes(x) + rest) == Ok((x, rest))
    {
      AclsRoundTrip(x, rest);
    }
    ExactInverseIsSelfDelimiting(AclsBytes, ParseAcls);
  }

  lemma StatSelfDelimiting()
    ensures SelfDelimiting(StatBytes, ParseStat)
  {
    hide ParseStat;
    forall x: Stat, rest: seq<byte>
      ensures ParseStat(StatBytes(x) + rest) == Ok((x, rest))
    {
      StatRoundTrip(x, rest);
    }
    ExactInverseIsSelfDelimiting(StatBytes, ParseStat);
  }

  lemma ClientInfoSelfDelimiting()
    ensures SelfDelimiting(ClientInfoBytes, ParseClientInfo)
  {
    hide ParseClientInfo;
    forall x: ClientInfo, rest: seq<byte> | |ClientInfoBytes(x)| < I32_LIMIT
      ensures ParseClientInfo(ClientInfoBytes(x) + rest) == Ok((x, rest))
    {
      ClientInfoRoundTrip(x, rest);
    }
    ExactInverseIsSelfDelimiting(ClientInfoBytes, ParseClientInfo);
  }

  lemma ClientsSelfDelimiting()
    ensures SelfDelimiting(ClientsBytes, ParseClients)
  {
    hide ParseClients;
    forall x: seq<ClientInfo>, rest: seq<byte> | |ClientsBytes(x)| < I32_LIMIT
      ensures ParseClients(ClientsBytes(x) + rest) == Ok((x, rest))
    {
      ClientsRoundTrip(x, rest);
    }
    ExactInverseIsSelfDelimiting(ClientsBytes, ParseClients);
  }

  lemma RequestHeaderSelfDelimiting()
    ensures SelfDelimiting(RequestHeaderBytes, ParseRequestHeader)
  {
    hide ParseRequestHeader;
    forall x: RequestHeader, rest: seq<byte>
      ensures ParseRequestHeader(RequestHeaderBytes(x) + rest) == Ok((x, rest))
    {
      RequestHeaderRoundTrip(x, rest);
    }
    ExactInverseIsSelfDelimiting(RequestHeaderBytes, ParseRequestHeader);
  }

  lemma ReplyHeaderSelfDelimiting()
    ensures SelfDelimiting(ReplyHeaderBytes, ParseReplyHeader)
  {
    hide ParseReplyHeader;
    forall x: ReplyHeader, rest: seq<byte>
      ensures ParseReplyHeader(ReplyHeaderBytes(x) + rest) == Ok((x, rest))
    {
      ReplyHeaderRoundTrip(x, rest);
    }
    ExactInverseIsSelfDelimiting(ReplyHeaderBytes, ParseReplyHeader);
  }

  lemma MultiHeaderSelfDelimiting()
    ensures SelfDelimiting(MultiHeaderBytes, ParseMultiHeader)
  {
    hide ParseMultiHeader;
    forall x: MultiHeader, rest: seq<byte>
      ensures ParseMultiHeader(MultiHeaderBytes(x) + rest) == Ok((x, rest))
    {
      MultiHeaderRoundTrip(x, rest);
    }
    ExactInverseIsSelfDelimiting(MultiHeaderBytes, ParseMultiHeader);
  }

  lemma AuthPacketSelfDelimiting()
    ensures SelfDelimiting(AuthPacketBytes, ParseAuthPacket)
  {
    hide ParseAuthPacket;
    forall x: AuthPacket, rest: seq<byte> | |AuthPacketBytes(x)| < I32_LIMIT
      ensures ParseAuthPacket(AuthPacketBytes(x) + rest) == Ok((x, rest))
    {
      AuthPacketRoundTrip(x, rest);
    }
    ExactInverseIsSelfDelimiting(AuthPacketBytes, ParseAuthPacket);
  }

  lemma SetWatchesSelfDelimiting()
    ensures SelfDelimiting(SetWatchesBytes, ParseSetWatches)
  {
    hide ParseSetWatches;
    forall x: SetWatches, rest: seq<byte> | |SetWatchesBytes(x)| < I32_LIMIT
      ensures ParseSetWatches(SetWatchesBytes(x) + rest) == Ok((x, rest))
    {
      SetWatchesRoundTrip(x, rest);
    }
    ExactInverseIsSelfDelimiting(SetWatchesBytes, ParseSetWatches);
  }

  lemma WatchedPathSelfDelimiting()
    ensures SelfDelimiting(WatchedPathBytes, ParseWatchedPath)
  {
    hide ParseWatchedPath;
    forall x: WatchedPath, rest: seq<byte> | |WatchedPathBytes(x)| < I32_LIMIT
      ensures ParseWatchedPath(WatchedPathBytes(x) + rest) == Ok((x, rest))
    {
      WatchedPathRoundTrip(x, rest);
    }
    ExactInverseIsSelfDelimiting(WatchedPathBytes, ParseWatchedPath);
  }

  lemma NumberedPathSelfDelimiting()
    ensures SelfDelimiting(NumberedPathBytes, ParseNumberedPath)
  {
    hide ParseNumberedPath;
    forall x: NumberedPath, rest: seq<byte> | |NumberedPathBytes(x)| < I32_LIMIT
      ensures ParseNumberedPath(NumberedPathBytes(x) + rest) == Ok((x, rest))
    {
      NumberedPathRoundTrip(x, rest);
    }
    ExactInverseIsSelfDelimiting(NumberedPathBytes, ParseNumberedPath);
  }

  lemma SetDataSelfDelimiting()
    ensures SelfDelimiting(SetDataBytes, ParseSetData)
  {
    hide ParseSetData;
    forall x: SetDataRequest, rest: seq<byte> | |SetDataBytes(x)| < I32_LIMIT
      ensures ParseSetData(SetDataBytes(x) + rest) == Ok((x, rest))
    {
      SetDataRoundTrip(x, rest);
    }
    ExactInverseIsSelfDelimiting(SetDataBytes, ParseSetData);
  }

  lemma SetAclSelfDelimiting()
    ensures SelfDelimiting(SetAclBytes, ParseSetAcl)
  {
    hide ParseSetAcl;
    forall x: SetACLRequest, rest: seq<byte> | |SetAclBytes(x)| < I32_LIMIT
      ensures ParseSetAcl(SetAclBytes(x) + rest) == Ok((x, rest))
    {
      SetAclRoundTrip(x, rest);
    }
    ExactInverseIsSelfDelimiting(SetAclBytes, ParseSetAcl);
  }

  lemma CreateSelfDelimiting()
    ensures SelfDelimiting(CreateBytes, ParseCreate)
  {
    hide ParseCreate;
    forall x: CreateRequest, rest: seq<byte> | |CreateBytes(x)| < I32_LIMIT
      ensures ParseCreate(CreateBytes(x) + rest) == Ok((x, rest))
    {
      CreateRoundTrip(x, rest);
    }
    ExactInverseIsSelfDelimiting(CreateBytes, ParseCreate);
  }

  lemma CreateTTLSelfDelimiting()
    ensures SelfDelimiting(CreateTTLBytes, ParseCreateTTL)
  {
    hide ParseCreateTTL;
    forall x: CreateTTLRequest, rest: seq<byte> | |CreateTTLBytes(x)| < I32_LIMIT
      ensures ParseCreateTTL(CreateTTLBytes(x) + rest) == Ok((x, rest))
    {
      CreateTTLRoundTrip(x, rest);
    }
    ExactInverseIsSelfDelimiting(CreateTTLBytes, ParseCreateTTL);
  }

  lemma WatcherEventSelfDelimiting()
    ensures SelfDelimiting(WatcherEventBytes, ParseWatcherEvent)
  {
    hide ParseWatcherEvent;
    forall x: WatcherEvent, rest: seq<byte> | |WatcherEventBytes(x)| < I32_LIMIT
      ensures ParseWatcherEvent(WatcherEventBytes(x) + rest) == Ok((x, rest))
    {
      WatcherEventRoundTrip(x, rest);
    }
    ExactInverseIsSelfDelimiting(WatcherEventBytes, ParseWatcherEvent);
  }

  /** Multis are read back only when well-formed, so prefix-freeness is theirs among the well-formed ones. */
  lemma MultiPrefixFree(m: MultiRequest, s: seq<byte>, n: MultiRequest, t: seq<byte>)
    requires MultiWellFormed(m) && MultiWellFormed(n)
    requires |MultiBytes(m)| < I32_LIMIT && |MultiBytes(n)| < I32_LIMIT
    requires MultiBytes(m) + s == MultiBytes(n) + t
    ensures m == n && s == t
  {
    hide MultiBytes, MultiWellFormed, ParseMulti;
    MultiRoundTrip(m, s);
    MultiRoundTrip(n, t);
  }

  /** Likewise the operations of a multi, under the opcode their header names. */
  lemma OperationPrefixFree(op: OpCodes, q: Request, s: seq<byte>, r: Request, t: seq<byte>)
    requires SubVariant(op, q) && SubVariant(op, r)
    requires |RequestBytes(q)| < I32_LIMIT && |RequestBytes(r)| < I32_LIMIT
    requires RequestBytes(q) + s == RequestBytes(r) + t
    ensures q == r && s == t
  {
    hide RequestBytes, SubVariant, ParseSub;
    SubRoundTrip(op, q, s);
    SubRoundTrip(op, r, t);
  }
}
