/** The record layer: every record reachable from a request or a reply, its size, its bytes, and its reader. */
module Proto {
  import opened Outcomes
  import opened Bytes

  // ---------------------------------------------------------------- strings and byte vectors

  predicate Continues(x: byte) {
    0x80 <= x <= 0xBF
  }

  /** Well-formed UTF-8, section 4 of RFC 3629: what `String::from_utf8` accepts. */
  predicate ValidUtf8(s: seq<byte>)
    decreases |s|
  {
    if s == [] then true
    else if s[0] <= 0x7F then ValidUtf8(s[1..])
    else if 0xC2 <= s[0] <= 0xDF then |s| >= 2 && Continues(s[1]) && ValidUtf8(s[2..])
    else if 0xE0 <= s[0] <= 0xEF then
      && |s| >= 3 && Continues(s[1]) && Continues(s[2])
      && (s[0] == 0xE0 ==> s[1] >= 0xA0)
      && (s[0] == 0xED ==> s[1] <= 0x9F)
      && ValidUtf8(s[3..])
    else if 0xF0 <= s[0] <= 0xF4 then
      && |s| >= 4 && Continues(s[1]) && Continues(s[2]) && Continues(s[3])
      && (s[0] == 0xF0 ==> s[1] >= 0x90)
      && (s[0] == 0xF4 ==> s[1] <= 0x8F)
      && ValidUtf8(s[4..])
    else false
  }

  type Utf8 = s: seq<byte> | ValidUtf8(s)

  function BufSize(s: seq<byte>): nat { 4 + |s| }

  function BufBytes(s: seq<byte>): (e: seq<byte>)
    ensures |e| == BufSize(s)
  {
    I32Bytes(AsI32(|s|)) + s
  }

  /** A negative length turns into a huge `usize`, whose allocation panics. */
  function ParseBuf(b: seq<byte>): (r: Parsed<seq<byte>>)
    ensures r.Ok? ==> b == BufBytes(r.value.0) + r.value.1
  {
    var (n, b) :- ParseI32(b);
    if n < 0 then Panic else ParseSlice(n, b)
  }

  /** The `as i32` cast of the length loses nothing exactly below 2^31. */
  lemma BufRoundTrip(s: seq<byte>, rest: seq<byte>)
    ensures ParseBuf(BufBytes(s) + rest) == Ok((s, rest)) <==> |s| < I32_LIMIT
  {
    assert BufBytes(s) + rest == I32Bytes(AsI32(|s|)) + (s + rest);
    ParseI32Inverts(AsI32(|s|), s + rest);
    if |s| < I32_LIMIT {
      assert (s + rest)[..|s|] == s && (s + rest)[|s|..] == rest;
    }
  }

  function StrSize(s: Utf8): nat { BufSize(s) }

  function StrBytes(s: Utf8): (e: seq<byte>)
    ensures |e| == StrSize(s)
  {
    BufBytes(s)
  }

  function ParseStr(b: seq<byte>): (r: Parsed<Utf8>)
    ensures r.Ok? ==> b == StrBytes(r.value.0) + r.value.1
  {
    var (s, b) :- ParseBuf(b);
    if ValidUtf8(s) then Ok((s, b)) else Err(InvalidString)
  }

  lemma StrRoundTrip(s: Utf8, rest: seq<byte>)
    requires |StrBytes(s)| < I32_LIMIT
    ensures ParseStr(StrBytes(s) + rest) == Ok((s, rest))
  {
    BufRoundTrip(s, rest);
  }

  /** A string is refused, with an error and no panic, exactly when its bytes are no UTF-8. */
  lemma StrRefused(s: seq<byte>, rest: seq<byte>)
    requires |s| < I32_LIMIT
    ensures ParseStr(BufBytes(s) + rest) == if ValidUtf8(s) then Ok((s, rest)) else Err(InvalidString)
  {
    hide ValidUtf8, BufBytes, ParseBuf;
    BufRoundTrip(s, rest);
  }

  // ---------------------------------------------------------------- vectors of any element

  function ManySize<T>(size: T -> nat, v: seq<T>): nat {
    if v == [] then 0 else size(v[0]) + ManySize(size, v[1..])
  }

  function VecSize<T>(size: T -> nat, v: seq<T>): nat { 4 + ManySize(size, v) }

  function ManyBytes<T>(write: T -> seq<byte>, v: seq<T>): seq<byte> {
    if v == [] then [] else write(v[0]) + ManyBytes(write, v[1..])
  }

  function VecBytes<T>(write: T -> seq<byte>, v: seq<T>): seq<byte> {
    I32Bytes(AsI32(|v|)) + ManyBytes(write, v)
  }

  function ParseMany<T>(read: seq<byte> -> Parsed<T>, n: nat, b: seq<byte>): Parsed<seq<T>> {
    if n == 0 then Ok(([], b))
    else
      var (x, b) :- read(b);
      var (xs, b) :- ParseMany(read, n - 1, b);
      Ok(([x] + xs, b))
  }

  function ParseVec<T>(read: seq<byte> -> Parsed<T>, b: seq<byte>): Parsed<seq<T>> {
    var (n, b) :- ParseI32(b);
    if n < 0 then Panic else ParseMany(read, n, b)
  }

  /** What a reader accepts is the encoding of its result, followed by what it left. */
  ghost predicate Exact<T>(write: T -> seq<byte>, read: seq<byte> -> Parsed<T>) {
    forall b :: read(b).Ok? ==> b == write(read(b).value.0) + read(b).value.1
  }

  /** A reader undoes the writer and stops where the encoding ends. */
  ghost predicate Inverts<T(!new)>(write: T -> seq<byte>, read: seq<byte> -> Parsed<T>) {
    && (forall x :: |write(x)| > 0)
    && forall x, rest :: |write(x)| < I32_LIMIT ==> read(write(x) + rest) == Ok((x, rest))
  }

  lemma {:induction false} ManySizeExact<T(!new)>(size: T -> nat, write: T -> seq<byte>, v: seq<T>)
    requires forall x :: |write(x)| == size(x)
    ensures |ManyBytes(write, v)| == ManySize(size, v)
  {
    if v != [] {
      ManySizeExact(size, write, v[1..]);
    }
  }

  lemma {:induction false} ParseManyExact<T>(write: T -> seq<byte>, read: seq<byte> -> Parsed<T>, n: nat, b: seq<byte>)
    requires Exact(write, read)
    requires ParseMany(read, n, b).Ok?
    ensures var (v, rest) := ParseMany(read, n, b).value; |v| == n && b == ManyBytes(write, v) + rest
  {
    if n > 0 {
      var (x, b') := read(b).value;
      ParseManyExact(write, read, n - 1, b');
      var (xs, rest) := ParseMany(read, n - 1, b').value;
      assert ([x] + xs)[1..] == xs;
      assert b == write(x) + (ManyBytes(write, xs) + rest);
    }
  }

  lemma ParseVecExact<T>(write: T -> seq<byte>, read: seq<byte> -> Parsed<T>, b: seq<byte>)
    requires Exact(write, read)
    ensures ParseVec(read, b).Ok? ==> b == VecBytes(write, ParseVec(read, b).value.0) + ParseVec(read, b).value.1
  {
    if ParseVec(read, b).Ok? {
      var (n, b') := ParseI32(b).value;
      ParseManyExact(write, read, n, b');
    }
  }

  lemma {:induction false} ParseManyInverts<T(!new)>(
    write: T -> seq<byte>, read: seq<byte> -> Parsed<T>, v: seq<T>, rest: seq<byte>)
    requires Inverts(write, read)
    requires |ManyBytes(write, v)| < I32_LIMIT
    ensures |v| <= |ManyBytes(write, v)|
    ensures ParseMany(read, |v|, ManyBytes(write, v) + rest) == Ok((v, rest))
  {
    if v == [] {
      assert ManyBytes(write, v) + rest == rest;
    } else {
      ParseManyInverts(write, read, v[1..], rest);
      var tail := ManyBytes(write, v[1..]) + rest;
      assert ManyBytes(write, v) + rest == write(v[0]) + tail;
      assert read(write(v[0]) + tail) == Ok((v[0], tail));
      assert [v[0]] + v[1..] == v;
    }
  }

  lemma ParseVecInverts<T(!new)>(write: T -> seq<byte>, read: seq<byte> -> Parsed<T>, v: seq<T>, rest: seq<byte>)
    requires Inverts(write, read)
    requires |VecBytes(write, v)| < I32_LIMIT
    ensures ParseVec(read, VecBytes(write, v) + rest) == Ok((v, rest))
  {
    ParseManyInverts(write, read, v, rest);
    assert VecBytes(write, v) + rest == I32Bytes(|v|) + (ManyBytes(write, v) + rest);
    ParseI32Inverts(|v|, ManyBytes(write, v) + rest);
  }

  /** A vector fails as its first element that cannot be read, whatever follows. */
  lemma {:induction false} VecFailsAtElement<T(!new)>(
    write: T -> seq<byte>, read: seq<byte> -> Parsed<T>, v: seq<T>, n: nat, bad: seq<byte>)
    requires Inverts(write, read)
    requires |v| < n < I32_LIMIT && |ManyBytes(write, v)| < I32_LIMIT && !read(bad).Ok?
    ensures var r := ParseVec(read, I32Bytes(n) + (ManyBytes(write, v) + bad));
            match read(bad)
            case Err(e) => r == Err(e)
            case Panic => r == Panic
            case Ok(_) => false
  {
    ParseI32Inverts(n, ManyBytes(write, v) + bad);
    ManyFailsAtElement(write, read, v, n, bad);
  }

  lemma {:induction false} ManyFailsAtElement<T(!new)>(
    write: T -> seq<byte>, read: seq<byte> -> Parsed<T>, v: seq<T>, n: nat, bad: seq<byte>)
    requires Inverts(write, read)
    requires |v| < n && |ManyBytes(write, v)| < I32_LIMIT && !read(bad).Ok?
    ensures var r := ParseMany(read, n, ManyBytes(write, v) + bad);
            match read(bad)
            case Err(e) => r == Err(e)
            case Panic => r == Panic
            case Ok(_) => false
  {
    if v == [] {
      assert [] + bad == bad;
    } else {
      ManyFailsAtElement(write, read, v[1..], n - 1, bad);
      var tail := ManyBytes(write, v[1..]) + bad;
      Regroup(write(v[0]), ManyBytes(write, v[1..]), bad);
      assert read(write(v[0]) + tail) == Ok((v[0], tail));
    }
  }

  /** A negative count or length panics. */
  lemma NegativeLengthPanics<T>(read: seq<byte> -> Parsed<T>, n: i32, rest: seq<byte>)
    requires n < 0
    ensures ParseVec(read, I32Bytes(n) + rest) == Panic
    ensures ParseBuf(I32Bytes(n) + rest) == Panic
    ensures ParseStr(I32Bytes(n) + rest) == Panic
  {
    ParseI32Inverts(n, rest);
  }

  /** `ParseMany` with the elements read so far at hand, as a loop holds them. */
  function ParseOnto<T>(read: seq<byte> -> Parsed<T>, acc: seq<T>, n: nat, b: seq<byte>): Parsed<seq<T>>
    decreases n
  {
    if n == 0 then Ok((acc, b))
    else
      var (x, b) :- read(b);
      ParseOnto(read, acc + [x], n - 1, b)
  }

  lemma {:induction false} ParseOntoIsParseMany<T>(read: seq<byte> -> Parsed<T>, acc: seq<T>, n: nat, b: seq<byte>)
    ensures match ParseMany(read, n, b)
            case Ok(v) => ParseOnto(read, acc, n, b).Ok? && ParseOnto(read, acc, n, b).value == (acc + v.0, v.1)
            case Err(e) => ParseOnto(read, acc, n, b) == Err(e)
            case Panic => ParseOnto(read, acc, n, b) == Panic
    decreases n
  {
    if n == 0 {
      assert acc + [] == acc;
    } else if read(b).Ok? {
      var (x, b') := read(b).value;
      ParseOntoIsParseMany(read, acc + [x], n - 1, b');
      if ParseMany(read, n - 1, b').Ok? {
        var xs := ParseMany(read, n - 1, b').value.0;
        assert acc + ([x] + xs) == acc + [x] + xs;
      }
    }
  }

  lemma ParseOntoNothing<T>(read: seq<byte> -> Parsed<T>, n: nat, b: seq<byte>)
    ensures ParseOnto(read, [], n, b) == ParseMany(read, n, b)
  {
    ParseOntoIsParseMany(read, [], n, b);
    if ParseMany(read, n, b).Ok? {
      var (v, rest) := ParseMany(read, n, b).value;
      assert [] + v == v;
    }
  }

  /** `Vec<T>::serialize_into`. */
  method WriteVec<T>(write: T -> seq<byte>, v: seq<T>, buffer: BytesMut)
    modifies buffer
    ensures buffer.data == old(buffer.data) + VecBytes(write, v)
  {
    buffer.PutI32(AsI32(|v|));
    var i := 0;
    while i < |v|
      invariant i <= |v|
      invariant buffer.data + ManyBytes(write, v[i..]) == old(buffer.data) + VecBytes(write, v)
    {
      buffer.PutSlice(write(v[i]));
      assert v[i..][1..] == v[i + 1..];
      i := i + 1;
    }
  }

  /** `Vec<T>::deserialize`. */
  method ReadVec<T>(read: seq<byte> -> Parsed<T>, buffer: BytesMut) returns (r: Outcome<seq<T>, ZkError>)
    modifies buffer
    ensures ReadInPlace(ParseVec(read, old(buffer.data)), r, buffer.data)
  {
    var n :- buffer.Take(ParseI32);
    if n < 0 {
      return Panic;
    }
    ghost var body := buffer.data;
    ParseOntoNothing(read, n, body);
    var res: seq<T> := [];
    var i := 0;
    while i < n
      invariant 0 <= i <= n
      invariant ParseOnto(read, res, n - i, buffer.data) == ParseOnto(read, [], n, body)
    {
      var x :- buffer.Take(read);
      res := res + [x];
      i := i + 1;
    }
    return Ok(res);
  }

  // ---------------------------------------------------------------- vectors of strings, ACLs and clients

  function StrsSize(v: seq<Utf8>): nat { VecSize(StrSize, v) }

  function StrsBytes(v: seq<Utf8>): (e: seq<byte>)
    ensures |e| == StrsSize(v)
  {
    ManySizeExact(StrSize, StrBytes, v);
    VecBytes(StrBytes, v)
  }

  function ParseStrs(b: seq<byte>): (r: Parsed<seq<Utf8>>)
    ensures r.Ok? ==> b == StrsBytes(r.value.0) + r.value.1
  {
    ParseVecExact(StrBytes, ParseStr, b);
    ParseVec(ParseStr, b)
  }

  lemma StrsRoundTrip(v: seq<Utf8>, rest: seq<byte>)
    requires |StrsBytes(v)| < I32_LIMIT
    ensures ParseStrs(StrsBytes(v) + rest) == Ok((v, rest))
  {
    forall x: Utf8, t: seq<byte> | |StrBytes(x)| < I32_LIMIT
      ensures ParseStr(StrBytes(x) + t) == Ok((x, t))
    {
      StrRoundTrip(x, t);
    }
    ParseVecInverts(StrBytes, ParseStr, v, rest);
  }

  datatype Id = Id(scheme: Utf8, id: Utf8)

  function IdSize(x: Id): nat { StrSize(x.scheme) + StrSize(x.id) }

  function IdBytes(x: Id): (e: seq<byte>)
    ensures |e| == IdSize(x)
  {
    StrBytes(x.scheme) + StrBytes(x.id)
  }

  function ParseId(b: seq<byte>): (r: Parsed<Id>)
    ensures r.Ok? ==> b == IdBytes(r.value.0) + r.value.1
  {
    var (scheme, b1) :- ParseStr(b);
    var (id, b2) :- ParseStr(b1);
    Join(b, StrBytes(scheme), b1, StrBytes(id), b2);
    Ok((Id(scheme, id), b2))
  }

  lemma IdRoundTrip(x: Id, rest: seq<byte>)
    requires |IdBytes(x)| < I32_LIMIT
    ensures ParseId(IdBytes(x) + rest) == Ok((x, rest))
  {
    Regroup(StrBytes(x.scheme), StrBytes(x.id), rest);
    StrRoundTrip(x.scheme, StrBytes(x.id) + rest);
    StrRoundTrip(x.id, rest);
  }

  datatype ACL = ACL(perms: i32, id: Id)

  function AclSize(x: ACL): nat { 4 + IdSize(x.id) }

  function AclBytes(x: ACL): (e: seq<byte>)
    ensures |e| == AclSize(x)
  {
    I32Bytes(x.perms) + IdBytes(x.id)
  }

  function ParseAcl(b: seq<byte>): (r: Parsed<ACL>)
    ensures r.Ok? ==> b == AclBytes(r.value.0) + r.value.1
  {
    var (perms, b1) :- ParseI32(b);
    var (id, b2) :- ParseId(b1);
    Join(b, I32Bytes(perms), b1, IdBytes(id), b2);
    Ok((ACL(perms, id), b2))
  }

  lemma AclRoundTrip(x: ACL, rest: seq<byte>)
    requires |AclBytes(x)| < I32_LIMIT
    ensures ParseAcl(AclBytes(x) + rest) == Ok((x, rest))
  {
    Regroup(I32Bytes(x.perms), IdBytes(x.id), rest);
    ParseI32Inverts(x.perms, IdBytes(x.id) + rest);
    IdRoundTrip(x.id, rest);
  }

  function AclsSize(v: seq<ACL>): nat { VecSize(AclSize, v) }

  function AclsBytes(v: seq<ACL>): (e: seq<byte>)
    ensures |e| == AclsSize(v)
  {
    ManySizeExact(AclSize, AclBytes, v);
    VecBytes(AclBytes, v)
  }

  function ParseAcls(b: seq<byte>): (r: Parsed<seq<ACL>>)
    ensures r.Ok? ==> b == AclsBytes(r.value.0) + r.value.1
  {
    ParseVecExact(AclBytes, ParseAcl, b);
    ParseVec(ParseAcl, b)
  }

  lemma AclsRoundTrip(v: seq<ACL>, rest: seq<byte>)
    requires |AclsBytes(v)| < I32_LIMIT
    ensures ParseAcls(AclsBytes(v) + rest) == Ok((v, rest))
  {
    forall x: ACL, t: seq<byte> | |AclBytes(x)| < I32_LIMIT
      ensures ParseAcl(AclBytes(x) + t) == Ok((x, t))
    {
      AclRoundTrip(x, t);
    }
    ParseVecInverts(AclBytes, ParseAcl, v, rest);
  }

  datatype Stat = Stat(
    czxid: i64, mzxid: i64, ctime: i64, mtime: i64,
    version: i32, cversion: i32, aversion: i32,
    ephemeralOwner: i64, dataLength: i32, numChildren: i32, pzxid: i64)

  function StatSize(x: Stat): nat { 8 + 8 + 8 + 8 + 4 + 4 + 4 + 8 + 4 + 4 + 8 }

  // The eleven fields are written in three groups, so that each group is proved on its own.

  function TimesBytes(x: (i64, i64, i64, i64)): (e: seq<byte>)
    ensures |e| == 32
  {
    I64Bytes(x.0) + I64Bytes(x.1) + I64Bytes(x.2) + I64Bytes(x.3)
  }

  function ParseTimes(b: seq<byte>): (r: Parsed<(i64, i64, i64, i64)>)
    ensures r.Ok? ==> b == TimesBytes(r.value.0) + r.value.1
  {
    var (czxid, b1) :- ParseI64(b);
    var (mzxid, b2) :- ParseI64(b1);
    var (ctime, b3) :- ParseI64(b2);
    var (mtime, b4) :- ParseI64(b3);
    Glue(b, I64Bytes(czxid), b1, I64Bytes(mzxid), b2, I64Bytes(ctime), b3);
    Join(b, I64Bytes(czxid) + I64Bytes(mzxid) + I64Bytes(ctime), b3, I64Bytes(mtime), b4);
    Ok(((czxid, mzxid, ctime, mtime), b4))
  }

  lemma TimesRoundTrip(x: (i64, i64, i64, i64), rest: seq<byte>)
    ensures ParseTimes(TimesBytes(x) + rest) == Ok((x, rest))
  {
    var t3 := I64Bytes(x.3) + rest;
    var t2 := I64Bytes(x.2) + t3;
    var t1 := I64Bytes(x.1) + t2;
    Regroup4(I64Bytes(x.0), I64Bytes(x.1), I64Bytes(x.2), I64Bytes(x.3), rest);
    ParseI64Inverts(x.0, t1);
    ParseI64Inverts(x.1, t2);
    ParseI64Inverts(x.2, t3);
    ParseI64Inverts(x.3, rest);
  }

  function VersionsBytes(x: (i32, i32, i32)): (e: seq<byte>)
    ensures |e| == 12
  {
    I32Bytes(x.0) + I32Bytes(x.1) + I32Bytes(x.2)
  }

  function ParseVersions(b: seq<byte>): (r: Parsed<(i32, i32, i32)>)
    ensures r.Ok? ==> b == VersionsBytes(r.value.0) + r.value.1
  {
    var (version, b1) :- ParseI32(b);
    var (cversion, b2) :- ParseI32(b1);
    var (aversion, b3) :- ParseI32(b2);
    Glue(b, I32Bytes(version), b1, I32Bytes(cversion), b2, I32Bytes(aversion), b3);
    Ok(((version, cversion, aversion), b3))
  }

  lemma VersionsRoundTrip(x: (i32, i32, i32), rest: seq<byte>)
    ensures ParseVersions(VersionsBytes(x) + rest) == Ok((x, rest))
  {
    var t2 := I32Bytes(x.2) + rest;
    var t1 := I32Bytes(x.1) + t2;
    Regroup3(I32Bytes(x.0), I32Bytes(x.1), I32Bytes(x.2), rest);
    ParseI32Inverts(x.0, t1);
    ParseI32Inverts(x.1, t2);
    ParseI32Inverts(x.2, rest);
  }

  function NodeBytes(x: (i64, i32, i32, i64)): (e: seq<byte>)
    ensures |e| == 24
  {
    I64Bytes(x.0) + I32Bytes(x.1) + I32Bytes(x.2) + I64Bytes(x.3)
  }

  function ParseNode(b: seq<byte>): (r: Parsed<(i64, i32, i32, i64)>)
    ensures r.Ok? ==> b == NodeBytes(r.value.0) + r.value.1
  {
    var (ephemeralOwner, b1) :- ParseI64(b);
    var (dataLength, b2) :- ParseI32(b1);
    var (numChildren, b3) :- ParseI32(b2);
    var (pzxid, b4) :- ParseI64(b3);
    Glue(b, I64Bytes(ephemeralOwner), b1, I32Bytes(dataLength), b2, I32Bytes(numChildren), b3);
    Join(b, I64Bytes(ephemeralOwner) + I32Bytes(dataLength) + I32Bytes(numChildren), b3, I64Bytes(pzxid), b4);
    Ok(((ephemeralOwner, dataLength, numChildren, pzxid), b4))
  }

  lemma NodeRoundTrip(x: (i64, i32, i32, i64), rest: seq<byte>)
    ensures ParseNode(NodeBytes(x) + rest) == Ok((x, rest))
  {
    var t3 := I64Bytes(x.3) + rest;
    var t2 := I32Bytes(x.2) + t3;
    var t1 := I32Bytes(x.1) + t2;
    Regroup4(I64Bytes(x.0), I32Bytes(x.1), I32Bytes(x.2), I64Bytes(x.3), rest);
    ParseI64Inverts(x.0, t1);
    ParseI32Inverts(x.1, t2);
    ParseI32Inverts(x.2, t3);
    ParseI64Inverts(x.3, rest);
  }

  function StatBytes(x: Stat): (e: seq<byte>)
    ensures |e| == StatSize(x)
  {
    TimesBytes((x.czxid, x.mzxid, x.ctime, x.mtime))
    + VersionsBytes((x.version, x.cversion, x.aversion))
    + NodeBytes((x.ephemeralOwner, x.dataLength, x.numChildren, x.pzxid))
  }

  function ParseStat(b: seq<byte>): (r: Parsed<Stat>)
    ensures r.Ok? ==> b == StatBytes(r.value.0) + r.value.1
  {
    var (t, b1) :- ParseTimes(b);
    var (v, b2) :- ParseVersions(b1);
    var (n, b3) :- ParseNode(b2);
    Glue(b, TimesBytes(t), b1, VersionsBytes(v), b2, NodeBytes(n), b3);
    Ok((Stat(t.0, t.1, t.2, t.3, v.0, v.1, v.2, n.0, n.1, n.2, n.3), b3))
  }

  lemma StatRoundTrip(x: Stat, rest: seq<byte>)
    ensures ParseStat(StatBytes(x) + rest) == Ok((x, rest))
  {
    var t := (x.czxid, x.mzxid, x.ctime, x.mtime);
    var v := (x.version, x.cversion, x.aversion);
    var n := (x.ephemeralOwner, x.dataLength, x.numChildren, x.pzxid);
    Regroup3(TimesBytes(t), VersionsBytes(v), NodeBytes(n), rest);
    TimesRoundTrip(t, VersionsBytes(v) + (NodeBytes(n) + rest));
    VersionsRoundTrip(v, NodeBytes(n) + rest);
    NodeRoundTrip(n, rest);
  }

  datatype ClientInfo = ClientInfo(authScheme: Utf8, user: Utf8)

  function ClientInfoSize(x: ClientInfo): nat { StrSize(x.authScheme) + StrSize(x.user) }

  function ClientInfoBytes(x: ClientInfo): (e: seq<byte>)
    ensures |e| == ClientInfoSize(x)
  {
    StrBytes(x.authScheme) + StrBytes(x.user)
  }

  function ParseClientInfo(b: seq<byte>): (r: Parsed<ClientInfo>)
    ensures r.Ok? ==> b == ClientInfoBytes(r.value.0) + r.value.1
  {
    var (authScheme, b1) :- ParseStr(b);
    var (user, b2) :- ParseStr(b1);
    Join(b, StrBytes(authScheme), b1, StrBytes(user), b2);
    Ok((ClientInfo(authScheme, user), b2))
  }

  lemma ClientInfoRoundTrip(x: ClientInfo, rest: seq<byte>)
    requires |ClientInfoBytes(x)| < I32_LIMIT
    ensures ParseClientInfo(ClientInfoBytes(x) + rest) == Ok((x, rest))
  {
    Regroup(StrBytes(x.authScheme), StrBytes(x.user), rest);
    StrRoundTrip(x.authScheme, StrBytes(x.user) + rest);
    StrRoundTrip(x.user, rest);
  }

  /** `WhoAmIResponse` is a vector of clients. */
  function ClientsSize(v: seq<ClientInfo>): nat { VecSize(ClientInfoSize, v) }

  function ClientsBytes(v: seq<ClientInfo>): (e: seq<byte>)
    ensures |e| == ClientsSize(v)
  {
    ManySizeExact(ClientInfoSize, ClientInfoBytes, v);
    VecBytes(ClientInfoBytes, v)
  }

  function ParseClients(b: seq<byte>): (r: Parsed<seq<ClientInfo>>)
    ensures r.Ok? ==> b == ClientsBytes(r.value.0) + r.value.1
  {
    ParseVecExact(ClientInfoBytes, ParseClientInfo, b);
    ParseVec(ParseClientInfo, b)
  }

  lemma ClientsRoundTrip(v: seq<ClientInfo>, rest: seq<byte>)
    requires |ClientsBytes(v)| < I32_LIMIT
    ensures ParseClients(ClientsBytes(v) + rest) == Ok((v, rest))
  {
    forall x: ClientInfo, t: seq<byte> | |ClientInfoBytes(x)| < I32_LIMIT
      ensures ParseClientInfo(ClientInfoBytes(x) + t) == Ok((x, t))
    {
      ClientInfoRoundTrip(x, t);
    }
    ParseVecInverts(ClientInfoBytes, ParseClientInfo, v, rest);
  }

  // ---------------------------------------------------------------- headers

  datatype RequestHeader = RequestHeader(xid: i32, opcode: i32)

  function RequestHeaderSize(x: RequestHeader): nat { 4 + 4 }

  function RequestHeaderBytes(x: RequestHeader): (e: seq<byte>)
    ensures |e| == RequestHeaderSize(x)
  {
    I32Bytes(x.xid) + I32Bytes(x.opcode)
  }

  function ParseRequestHeader(b: seq<byte>): (r: Parsed<RequestHeader>)
    ensures r.Ok? ==> b == RequestHeaderBytes(r.value.0) + r.value.1
    ensures |b| >= 8 <==> r.Ok?
    ensures r.Ok? ==> |r.value.1| == |b| - 8
  {
    var (xid, b1) :- ParseI32(b);
    var (opcode, b2) :- ParseI32(b1);
    Join(b, I32Bytes(xid), b1, I32Bytes(opcode), b2);
    Ok((RequestHeader(xid, opcode), b2))
  }

  lemma RequestHeaderRoundTrip(x: RequestHeader, rest: seq<byte>)
    ensures ParseRequestHeader(RequestHeaderBytes(x) + rest) == Ok((x, rest))
  {
    Regroup(I32Bytes(x.xid), I32Bytes(x.opcode), rest);
    ParseI32Inverts(x.xid, I32Bytes(x.opcode) + rest);
    ParseI32Inverts(x.opcode, rest);
  }

  datatype ReplyHeader = ReplyHeader(xid: i32, zxid: i64, err: i32)

  function ReplyHeaderSize(x: ReplyHeader): nat { 4 + 8 + 4 }

  function ReplyHeaderBytes(x: ReplyHeader): (e: seq<byte>)
    ensures |e| == ReplyHeaderSize(x)
  {
    I32Bytes(x.xid) + I64Bytes(x.zxid) + I32Bytes(x.err)
  }

  function ParseReplyHeader(b: seq<byte>): (r: Parsed<ReplyHeader>)
    ensures r.Ok? ==> b == ReplyHeaderBytes(r.value.0) + r.value.1
  {
    var (xid, b1) :- ParseI32(b);
    var (zxid, b2) :- ParseI64(b1);
    var (err, b3) :- ParseI32(b2);
    Glue(b, I32Bytes(xid), b1, I64Bytes(zxid), b2, I32Bytes(err), b3);
    Ok((ReplyHeader(xid, zxid, err), b3))
  }

  lemma ReplyHeaderRoundTrip(x: ReplyHeader, rest: seq<byte>)
    ensures ParseReplyHeader(ReplyHeaderBytes(x) + rest) == Ok((x, rest))
  {
    var t2 := I32Bytes(x.err) + rest;
    var t1 := I64Bytes(x.zxid) + t2;
    Regroup3(I32Bytes(x.xid), I64Bytes(x.zxid), I32Bytes(x.err), rest);
    ParseI32Inverts(x.xid, t1);
    ParseI64Inverts(x.zxid, t2);
    ParseI32Inverts(x.err, rest);
  }

  datatype MultiHeader = MultiHeader(opcode: i32, done: byte, err: i32)

  function MultiHeaderSize(x: MultiHeader): nat { 4 + 1 + 4 }

  function MultiHeaderBytes(x: MultiHeader): (e: seq<byte>)
    ensures |e| == MultiHeaderSize(x)
  {
    I32Bytes(x.opcode) + [x.done] + I32Bytes(x.err)
  }

  function ParseMultiHeader(b: seq<byte>): (r: Parsed<MultiHeader>)
    ensures r.Ok? ==> b == MultiHeaderBytes(r.value.0) + r.value.1
  {
    var (opcode, b1) :- ParseI32(b);
    var (done, b2) :- ParseU8(b1);
    var (err, b3) :- ParseI32(b2);
    Glue(b, I32Bytes(opcode), b1, [done], b2, I32Bytes(err), b3);
    Ok((MultiHeader(opcode, done, err), b3))
  }

  lemma MultiHeaderRoundTrip(x: MultiHeader, rest: seq<byte>)
    ensures ParseMultiHeader(MultiHeaderBytes(x) + rest) == Ok((x, rest))
  {
    var t2 := I32Bytes(x.err) + rest;
    Regroup3(I32Bytes(x.opcode), [x.done], I32Bytes(x.err), rest);
    ParseI32Inverts(x.opcode, [x.done] + t2);
    assert ([x.done] + t2)[1..] == t2;
    ParseI32Inverts(x.err, rest);
  }

  // ---------------------------------------------------------------- session records

  datatype ConnectRequest = ConnectRequest(
    protocolVersion: i32, lastZxidSeen: i64, timeOut: i32, sessionId: i64, passwd: seq<byte>, readOnly: byte)

  /** Everything before the `read_only` byte. */
  function ConnectRequestStem(x: ConnectRequest): (e: seq<byte>)
    ensures |e| == 4 + 8 + 4 + 8 + BufSize(x.passwd)
  {
    I32Bytes(x.protocolVersion) + I64Bytes(x.lastZxidSeen) + I32Bytes(x.timeOut) + I64Bytes(x.sessionId)
    + BufBytes(x.passwd)
  }

  function ConnectRequestSize(x: ConnectRequest): nat { 4 + 8 + 4 + 8 + BufSize(x.passwd) + 1 }

  function ConnectRequestBytes(x: ConnectRequest): (e: seq<byte>)
    ensures |e| == ConnectRequestSize(x)
  {
    ConnectRequestStem(x) + [x.readOnly]
  }

  function ParseConnectRequestStem(b: seq<byte>): (r: Parsed<ConnectRequest>)
    ensures r.Ok? ==> b == ConnectRequestStem(r.value.0) + r.value.1 && r.value.0.readOnly == 0
  {
    var (protocolVersion, b1) :- ParseI32(b);
    var (lastZxidSeen, b2) :- ParseI64(b1);
    var (timeOut, b3) :- ParseI32(b2);
    var (sessionId, b4) :- ParseI64(b3);
    var (passwd, b5) :- ParseBuf(b4);
    Glue(b, I32Bytes(protocolVersion), b1, I64Bytes(lastZxidSeen), b2, I32Bytes(timeOut), b3);
    Glue(b, I32Bytes(protocolVersion) + I64Bytes(lastZxidSeen) + I32Bytes(timeOut), b3,
         I64Bytes(sessionId), b4, BufBytes(passwd), b5);
    Ok((ConnectRequest(protocolVersion, lastZxidSeen, timeOut, sessionId, passwd, 0), b5))
  }

  /** `read_only` is read only when more than one byte is left; otherwise it is 0 and nothing is consumed. */
  function ParseConnectRequest(b: seq<byte>): (r: Parsed<ConnectRequest>)
    ensures r.Ok? ==>
              var (x, rest) := r.value;
              var more := |b| - |ConnectRequestStem(x)|;
              if more > 1 then b == ConnectRequestBytes(x) + rest
              else x.readOnly == 0 && b == ConnectRequestStem(x) + rest
  {
    var (x, tail) :- ParseConnectRequestStem(b);
    if |tail| > 1 then
      var y := x.(readOnly := tail[0]);
      assert ConnectRequestStem(y) == ConnectRequestStem(x);
      Regroup(ConnectRequestStem(x), [tail[0]], tail[1..]);
      assert tail == [tail[0]] + tail[1..];
      Ok((y, tail[1..]))
    else Ok((x, tail))
  }

  /** A connect record is read back whole when something follows it, and up to a zero `read_only` when nothing does. */
  lemma ConnectRequestRoundTrip(x: ConnectRequest, rest: seq<byte>)
    requires |ConnectRequestBytes(x)| < I32_LIMIT
    ensures rest != [] ==> ParseConnectRequest(ConnectRequestBytes(x) + rest) == Ok((x, rest))
    ensures ParseConnectRequest(ConnectRequestBytes(x)) == Ok((x.(readOnly := 0), [x.readOnly]))
  {
    ConnectStemRead(x, [x.readOnly] + rest);
    Regroup(ConnectRequestStem(x), [x.readOnly], rest);
    assert ([x.readOnly] + rest)[1..] == rest;
    ConnectStemRead(x, [x.readOnly]);
  }

  lemma ConnectStemRead(x: ConnectRequest, tail: seq<byte>)
    requires |x.passwd| < I32_LIMIT
    ensures ParseConnectRequest(ConnectRequestStem(x) + tail)
         == if |tail| > 1 then Ok((x.(readOnly := tail[0]), tail[1..])) else Ok((x.(readOnly := 0), tail))
  {
    var t4 := BufBytes(x.passwd) + tail;
    var t3 := I64Bytes(x.sessionId) + t4;
    var t2 := I32Bytes(x.timeOut) + t3;
    var t1 := I64Bytes(x.lastZxidSeen) + t2;
    var v, z := I32Bytes(x.protocolVersion), I64Bytes(x.lastZxidSeen);
    var w := I32Bytes(x.timeOut);
    Regroup(v + z + w + I64Bytes(x.sessionId), BufBytes(x.passwd), tail);
    Regroup4(v, z, w, I64Bytes(x.sessionId), t4);
    ParseI32Inverts(x.protocolVersion, t1);
    ParseI64Inverts(x.lastZxidSeen, t2);
    ParseI32Inverts(x.timeOut, t3);
    ParseI64Inverts(x.sessionId, t4);
    BufRoundTrip(x.passwd, tail);
  }

  datatype ConnectResponse = ConnectResponse(
    protocolVersion: i32, timeOut: i32, sessionId: i64, passwd: seq<byte>, readOnly: byte)

  function ConnectResponseStem(x: ConnectResponse): (e: seq<byte>)
    ensures |e| == 4 + 4 + 8 + BufSize(x.passwd)
  {
    I32Bytes(x.protocolVersion) + I32Bytes(x.timeOut) + I64Bytes(x.sessionId) + BufBytes(x.passwd)
  }

  function ConnectResponseSize(x: ConnectResponse): nat { 4 + 4 + 8 + BufSize(x.passwd) + 1 }

  function ConnectResponseBytes(x: ConnectResponse): (e: seq<byte>)
    ensures |e| == ConnectResponseSize(x)
  {
    ConnectResponseStem(x) + [x.readOnly]
  }

  function ParseConnectResponseStem(b: seq<byte>): (r: Parsed<ConnectResponse>)
    ensures r.Ok? ==> b == ConnectResponseStem(r.value.0) + r.value.1 && r.value.0.readOnly == 0
  {
    var (protocolVersion, b1) :- ParseI32(b);
    var (timeOut, b2) :- ParseI32(b1);
    var (sessionId, b3) :- ParseI64(b2);
    var (passwd, b4) :- ParseBuf(b3);
    Glue(b, I32Bytes(protocolVersion), b1, I32Bytes(timeOut), b2, I64Bytes(sessionId), b3);
    Join(b, I32Bytes(protocolVersion) + I32Bytes(timeOut) + I64Bytes(sessionId), b3, BufBytes(passwd), b4);
    Ok((ConnectResponse(protocolVersion, timeOut, sessionId, passwd, 0), b4))
  }

  function ParseConnectResponse(b: seq<byte>): (r: Parsed<ConnectResponse>)
    ensures r.Ok? ==>
              var (x, rest) := r.value;
              var more := |b| - |ConnectResponseStem(x)|;
              if more > 1 then b == ConnectResponseBytes(x) + rest
              else x.readOnly == 0 && b == ConnectResponseStem(x) + rest
  {
    var (x, tail) :- ParseConnectResponseStem(b);
    if |tail| > 1 then
      var y := x.(readOnly := tail[0]);
      assert ConnectResponseStem(y) == ConnectResponseStem(x);
      Regroup(ConnectResponseStem(x), [tail[0]], tail[1..]);
      assert tail == [tail[0]] + tail[1..];
      Ok((y, tail[1..]))
    else Ok((x, tail))
  }

  /** The connect reply is read back the same way. */
  lemma ConnectResponseRoundTrip(x: ConnectResponse, rest: seq<byte>)
    requires |ConnectResponseBytes(x)| < I32_LIMIT
    ensures rest != [] ==> ParseConnectResponse(ConnectResponseBytes(x) + rest) == Ok((x, rest))
    ensures ParseConnectResponse(ConnectResponseBytes(x)) == Ok((x.(readOnly := 0), [x.readOnly]))
  {
    ConnectReplyStemRead(x, [x.readOnly] + rest);
    Regroup(ConnectResponseStem(x), [x.readOnly], rest);
    assert ([x.readOnly] + rest)[1..] == rest;
    ConnectReplyStemRead(x, [x.readOnly]);
  }

  lemma ConnectReplyStemRead(x: ConnectResponse, tail: seq<byte>)
    requires |x.passwd| < I32_LIMIT
    ensures ParseConnectResponse(ConnectResponseStem(x) + tail)
         == if |tail| > 1 then Ok((x.(readOnly := tail[0]), tail[1..])) else Ok((x.(readOnly := 0), tail))
  {
    var v, w, y, z := I32Bytes(x.protocolVersion), I32Bytes(x.timeOut), I64Bytes(x.sessionId), BufBytes(x.passwd);
    Regroup4(v, w, y, z, tail);
    ParseI32Inverts(x.protocolVersion, w + (y + (z + tail)));
    ParseI32Inverts(x.timeOut, y + (z + tail));
    ParseI64Inverts(x.sessionId, z + tail);
    BufRoundTrip(x.passwd, tail);
  }

  datatype AuthPacket = AuthPacket(kind: i32, scheme: Utf8, auth: seq<byte>)

  function AuthPacketSize(x: AuthPacket): nat { 4 + StrSize(x.scheme) + BufSize(x.auth) }

  function AuthPacketBytes(x: AuthPacket): (e: seq<byte>)
    ensures |e| == AuthPacketSize(x)
  {
    I32Bytes(x.kind) + StrBytes(x.scheme) + BufBytes(x.auth)
  }

  function ParseAuthPacket(b: seq<byte>): (r: Parsed<AuthPacket>)
    ensures r.Ok? ==> b == AuthPacketBytes(r.value.0) + r.value.1
  {
    var (kind, b1) :- ParseI32(b);
    var (scheme, b2) :- ParseStr(b1);
    var (auth, b3) :- ParseBuf(b2);
    Glue(b, I32Bytes(kind), b1, StrBytes(scheme), b2, BufBytes(auth), b3);
    Ok((AuthPacket(kind, scheme, auth), b3))
  }

  lemma AuthPacketRoundTrip(x: AuthPacket, rest: seq<byte>)
    requires |AuthPacketBytes(x)| < I32_LIMIT
    ensures ParseAuthPacket(AuthPacketBytes(x) + rest) == Ok((x, rest))
  {
    var t2 := BufBytes(x.auth) + rest;
    var t1 := StrBytes(x.scheme) + t2;
    Regroup3(I32Bytes(x.kind), StrBytes(x.scheme), BufBytes(x.auth), rest);
    ParseI32Inverts(x.kind, t1);
    StrRoundTrip(x.scheme, t2);
    BufRoundTrip(x.auth, rest);
  }

  datatype SetWatches = SetWatches(
    relativeZxid: i64, dataWatches: seq<Utf8>, existWatches: seq<Utf8>, childWatches: seq<Utf8>)

  function SetWatchesSize(x: SetWatches): nat {
    8 + StrsSize(x.dataWatches) + StrsSize(x.existWatches) + StrsSize(x.childWatches)
  }

  function SetWatchesBytes(x: SetWatches): (e: seq<byte>)
    ensures |e| == SetWatchesSize(x)
  {
    I64Bytes(x.relativeZxid) + StrsBytes(x.dataWatches) + StrsBytes(x.existWatches) + StrsBytes(x.childWatches)
  }

  function ParseSetWatches(b: seq<byte>): (r: Parsed<SetWatches>)
    ensures r.Ok? ==> b == SetWatchesBytes(r.value.0) + r.value.1
  {
    var (relativeZxid, b1) :- ParseI64(b);
    var (dataWatches, b2) :- ParseStrs(b1);
    var (existWatches, b3) :- ParseStrs(b2);
    var (childWatches, b4) :- ParseStrs(b3);
    Glue(b, I64Bytes(relativeZxid), b1, StrsBytes(dataWatches), b2, StrsBytes(existWatches), b3);
    Join(b, I64Bytes(relativeZxid) + StrsBytes(dataWatches) + StrsBytes(existWatches), b3,
         StrsBytes(childWatches), b4);
    Ok((SetWatches(relativeZxid, dataWatches, existWatches, childWatches), b4))
  }

  lemma SetWatchesRoundTrip(x: SetWatches, rest: seq<byte>)
    requires |SetWatchesBytes(x)| < I32_LIMIT
    ensures ParseSetWatches(SetWatchesBytes(x) + rest) == Ok((x, rest))
  {
    var t3 := StrsBytes(x.childWatches) + rest;
    var t2 := StrsBytes(x.existWatches) + t3;
    var t1 := StrsBytes(x.dataWatches) + t2;
    Regroup4(I64Bytes(x.relativeZxid), StrsBytes(x.dataWatches), StrsBytes(x.existWatches), StrsBytes(x.childWatches),
             rest);
    ParseI64Inverts(x.relativeZxid, t1);
    StrsRoundTrip(x.dataWatches, t2);
    StrsRoundTrip(x.existWatches, t3);
    StrsRoundTrip(x.childWatches, rest);
  }

  // ---------------------------------------------------------------- node records

  /** The common layout of `GetDataRequest`, `ExistsRequest`, `GetChildrenRequest` and `GetChildren2Request`. */
  datatype WatchedPath = WatchedPath(path: Utf8, watch: byte)

  function WatchedPathSize(x: WatchedPath): nat { StrSize(x.path) + 1 }

  function WatchedPathBytes(x: WatchedPath): (e: seq<byte>)
    ensures |e| == WatchedPathSize(x)
  {
    StrBytes(x.path) + [x.watch]
  }

  function ParseWatchedPath(b: seq<byte>): (r: Parsed<WatchedPath>)
    ensures r.Ok? ==> b == WatchedPathBytes(r.value.0) + r.value.1
  {
    var (path, b1) :- ParseStr(b);
    var (watch, b2) :- ParseU8(b1);
    Join(b, StrBytes(path), b1, [watch], b2);
    Ok((WatchedPath(path, watch), b2))
  }

  lemma WatchedPathRoundTrip(x: WatchedPath, rest: seq<byte>)
    requires |WatchedPathBytes(x)| < I32_LIMIT
    ensures ParseWatchedPath(WatchedPathBytes(x) + rest) == Ok((x, rest))
  {
    Regroup(StrBytes(x.path), [x.watch], rest);
    StrRoundTrip(x.path, [x.watch] + rest);
    assert ([x.watch] + rest)[1..] == rest;
  }

  /** The common layout of `DeleteRequest` (a version) and `CheckWatchesRequest` (a type). */
  datatype NumberedPath = NumberedPath(path: Utf8, number: i32)

  function NumberedPathSize(x: NumberedPath): nat { StrSize(x.path) + 4 }

  function NumberedPathBytes(x: NumberedPath): (e: seq<byte>)
    ensures |e| == NumberedPathSize(x)
  {
    StrBytes(x.path) + I32Bytes(x.number)
  }

  function ParseNumberedPath(b: seq<byte>): (r: Parsed<NumberedPath>)
    ensures r.Ok? ==> b == NumberedPathBytes(r.value.0) + r.value.1
  {
    var (path, b1) :- ParseStr(b);
    var (number, b2) :- ParseI32(b1);
    Join(b, StrBytes(path), b1, I32Bytes(number), b2);
    Ok((NumberedPath(path, number), b2))
  }

  lemma NumberedPathRoundTrip(x: NumberedPath, rest: seq<byte>)
    requires |NumberedPathBytes(x)| < I32_LIMIT
    ensures ParseNumberedPath(NumberedPathBytes(x) + rest) == Ok((x, rest))
  {
    Regroup(StrBytes(x.path), I32Bytes(x.number), rest);
    StrRoundTrip(x.path, I32Bytes(x.number) + rest);
    ParseI32Inverts(x.number, rest);
  }

  datatype SetDataRequest = SetDataRequest(path: Utf8, data: seq<byte>, version: i32)

  function SetDataSize(x: SetDataRequest): nat { StrSize(x.path) + BufSize(x.data) + 4 }

  function SetDataBytes(x: SetDataRequest): (e: seq<byte>)
    ensures |e| == SetDataSize(x)
  {
    StrBytes(x.path) + BufBytes(x.data) + I32Bytes(x.version)
  }

  function ParseSetData(b: seq<byte>): (r: Parsed<SetDataRequest>)
    ensures r.Ok? ==> b == SetDataBytes(r.value.0) + r.value.1
  {
    var (path, b1) :- ParseStr(b);
    var (data, b2) :- ParseBuf(b1);
    var (version, b3) :- ParseI32(b2);
    Glue(b, StrBytes(path), b1, BufBytes(data), b2, I32Bytes(version), b3);
    Ok((SetDataRequest(path, data, version), b3))
  }

  lemma SetDataRoundTrip(x: SetDataRequest, rest: seq<byte>)
    requires |SetDataBytes(x)| < I32_LIMIT
    ensures ParseSetData(SetDataBytes(x) + rest) == Ok((x, rest))
  {
    var t2 := I32Bytes(x.version) + rest;
    var t1 := BufBytes(x.data) + t2;
    Regroup3(StrBytes(x.path), BufBytes(x.data), I32Bytes(x.version), rest);
    StrRoundTrip(x.path, t1);
    BufRoundTrip(x.data, t2);
    ParseI32Inverts(x.version, rest);
  }

  datatype SetACLRequest = SetACLRequest(path: Utf8, acl: seq<ACL>, version: i32)

  function SetAclSize(x: SetACLRequest): nat { StrSize(x.path) + AclsSize(x.acl) + 4 }

  function SetAclBytes(x: SetACLRequest): (e: seq<byte>)
    ensures |e| == SetAclSize(x)
  {
    StrBytes(x.path) + AclsBytes(x.acl) + I32Bytes(x.version)
  }

  function ParseSetAcl(b: seq<byte>): (r: Parsed<SetACLRequest>)
    ensures r.Ok? ==> b == SetAclBytes(r.value.0) + r.value.1
  {
    var (path, b1) :- ParseStr(b);
    var (acl, b2) :- ParseAcls(b1);
    var (version, b3) :- ParseI32(b2);
    Glue(b, StrBytes(path), b1, AclsBytes(acl), b2, I32Bytes(version), b3);
    Ok((SetACLRequest(path, acl, version), b3))
  }

  lemma SetAclRoundTrip(x: SetACLRequest, rest: seq<byte>)
    requires |SetAclBytes(x)| < I32_LIMIT
    ensures ParseSetAcl(SetAclBytes(x) + rest) == Ok((x, rest))
  {
    var t2 := I32Bytes(x.version) + rest;
    var t1 := AclsBytes(x.acl) + t2;
    Regroup3(StrBytes(x.path), AclsBytes(x.acl), I32Bytes(x.version), rest);
    StrRoundTrip(x.path, t1);
    AclsRoundTrip(x.acl, t2);
    ParseI32Inverts(x.version, rest);
  }

  datatype CreateRequest = CreateRequest(path: Utf8, data: seq<byte>, acl: seq<ACL>, flags: i32)

  function CreateSize(x: CreateRequest): nat { StrSize(x.path) + BufSize(x.data) + AclsSize(x.acl) + 4 }

  function CreateBytes(x: CreateRequest): (e: seq<byte>)
    ensures |e| == CreateSize(x)
  {
    StrBytes(x.path) + BufBytes(x.data) + AclsBytes(x.acl) + I32Bytes(x.flags)
  }

  function ParseCreate(b: seq<byte>): (r: Parsed<CreateRequest>)
    ensures r.Ok? ==> b == CreateBytes(r.value.0) + r.value.1
  {
    var (path, b1) :- ParseStr(b);
    var (data, b2) :- ParseBuf(b1);
    var (acl, b3) :- ParseAcls(b2);
    var (flags, b4) :- ParseI32(b3);
    Glue(b, StrBytes(path), b1, BufBytes(data), b2, AclsBytes(acl), b3);
    Join(b, StrBytes(path) + BufBytes(data) + AclsBytes(acl), b3, I32Bytes(flags), b4);
    Ok((CreateRequest(path, data, acl, flags), b4))
  }

  lemma CreateRoundTrip(x: CreateRequest, rest: seq<byte>)
    requires |CreateBytes(x)| < I32_LIMIT
    ensures ParseCreate(CreateBytes(x) + rest) == Ok((x, rest))
  {
    var t3 := I32Bytes(x.flags) + rest;
    var t2 := AclsBytes(x.acl) + t3;
    var t1 := BufBytes(x.data) + t2;
    Regroup4(StrBytes(x.path), BufBytes(x.data), AclsBytes(x.acl), I32Bytes(x.flags), rest);
    StrRoundTrip(x.path, t1);
    BufRoundTrip(x.data, t2);
    AclsRoundTrip(x.acl, t3);
    ParseI32Inverts(x.flags, rest);
  }

  /** `CreateTTLRequest`: the fields of a create, then the time to live. */
  datatype CreateTTLRequest = CreateTTLRequest(create: CreateRequest, ttl: i64)

  function CreateTTLSize(x: CreateTTLRequest): nat { CreateSize(x.create) + 8 }

  function CreateTTLBytes(x: CreateTTLRequest): (e: seq<byte>)
    ensures |e| == CreateTTLSize(x)
  {
    CreateBytes(x.create) + I64Bytes(x.ttl)
  }

  function ParseCreateTTL(b: seq<byte>): (r: Parsed<CreateTTLRequest>)
    ensures r.Ok? ==> b == CreateTTLBytes(r.value.0) + r.value.1
  {
    var (create, b1) :- ParseCreate(b);
    var (ttl, b2) :- ParseI64(b1);
    Join(b, CreateBytes(create), b1, I64Bytes(ttl), b2);
    Ok((CreateTTLRequest(create, ttl), b2))
  }

  lemma CreateTTLRoundTrip(x: CreateTTLRequest, rest: seq<byte>)
    requires |CreateTTLBytes(x)| < I32_LIMIT
    ensures ParseCreateTTL(CreateTTLBytes(x) + rest) == Ok((x, rest))
  {
    Regroup(CreateBytes(x.create), I64Bytes(x.ttl), rest);
    CreateRoundTrip(x.create, I64Bytes(x.ttl) + rest);
    ParseI64Inverts(x.ttl, rest);
  }

  // ---------------------------------------------------------------- reply records

  datatype WatcherEvent = WatcherEvent(kind: i32, state: i32, path: Utf8)

  function WatcherEventSize(x: WatcherEvent): nat { 4 + 4 + StrSize(x.path) }

  function WatcherEventBytes(x: WatcherEvent): (e: seq<byte>)
    ensures |e| == WatcherEventSize(x)
  {
    I32Bytes(x.kind) + I32Bytes(x.state) + StrBytes(x.path)
  }

  function ParseWatcherEvent(b: seq<byte>): (r: Parsed<WatcherEvent>)
    ensures r.Ok? ==> b == WatcherEventBytes(r.value.0) + r.value.1
  {
    var (kind, b1) :- ParseI32(b);
    var (state, b2) :- ParseI32(b1);
    var (path, b3) :- ParseStr(b2);
    Glue(b, I32Bytes(kind), b1, I32Bytes(state), b2, StrBytes(path), b3);
    Ok((WatcherEvent(kind, state, path), b3))
  }

  lemma WatcherEventRoundTrip(x: WatcherEvent, rest: seq<byte>)
    requires |WatcherEventBytes(x)| < I32_LIMIT
    ensures ParseWatcherEvent(WatcherEventBytes(x) + rest) == Ok((x, rest))
  {
    var t2 := StrBytes(x.path) + rest;
    var t1 := I32Bytes(x.state) + t2;
    Regroup3(I32Bytes(x.kind), I32Bytes(x.state), StrBytes(x.path), rest);
    ParseI32Inverts(x.kind, t1);
    ParseI32Inverts(x.state, t2);
    StrRoundTrip(x.path, rest);
  }
}
