/** The incremental length-delimited framer: its configuration, its two-state decoder, and its encoder. */
module LengthCodec {
  import opened Outcomes
  import opened Bytes

  const U64_LIMIT: nat := 0x1_0000_0000_0000_0000

  datatype FrameError = FrameTooBig | LengthOverflow

  /** The builder's settings; `usize` is 64 bits wide. */
  datatype Config = Config(
    maxFrameLen: nat, fieldLen: nat, offset: nat, adjustment: int, numSkip: Option<nat>, bigEndian: bool)
  {
    /** What the setters and the machine types admit. */
    predicate Valid() {
      && 1 <= fieldLen <= 8
      && maxFrameLen < U64_LIMIT
      && offset + fieldLen < U64_LIMIT
      && -0x8000_0000_0000_0000 <= adjustment < 0x8000_0000_0000_0000
      && (numSkip.Some? ==> numSkip.value < U64_LIMIT)
    }

    function NumHeadBytes(): nat {
      var num := offset + fieldLen;
      if numSkip.Some? && numSkip.value > num then numSkip.value else num
    }

    function NumSkip(): nat {
      if numSkip.Some? then numSkip.value else offset + fieldLen
    }
  }

  datatype DecodeState = Head | Data(n: nat)

  // ---------------------------------------------------------------- one decode call, as a function

  /** The raw length field of a head. */
  function LengthField(c: Config, b: seq<byte>): nat
    requires |b| >= c.NumHeadBytes()
  {
    UintOf(c.bigEndian, b[c.offset..c.offset + c.fieldLen])
  }

  datatype HeadVerdict = Accept(n: nat) | Reject(error: FrameError)

  /** Reads a complete head: the payload length, or the reason the head is rejected. */
  function ReadHead(c: Config, b: seq<byte>): HeadVerdict
    requires |b| >= c.NumHeadBytes()
  {
    var n := LengthField(c, b);
    if n > c.maxFrameLen then Reject(FrameTooBig)
    else if 0 <= n + c.adjustment < U64_LIMIT then Accept(n + c.adjustment)
    else Reject(LengthOverflow)
  }

  /** The effect of one `decode` call: what it returns, and the state and buffer it leaves. */
  datatype Decoded = Decoded(result: Outcome<Option<seq<byte>>, FrameError>, state: DecodeState, buf: seq<byte>)

  function DecodeBody(n: nat, b: seq<byte>): Decoded {
    if |b| < n then Decoded(Ok(None), Data(n), b)
    else Decoded(Ok(Some(b[..n])), Head, b[n..])
  }

  function DecodeStep(c: Config, state: DecodeState, b: seq<byte>): (d: Decoded)
    ensures !d.result.Panic?
  {
    match state
    case Data(n) => DecodeBody(n, b)
    case Head =>
      if |b| < c.NumHeadBytes() then Decoded(Ok(None), Head, b)
      else
        match ReadHead(c, b)
        case Accept(n) => DecodeBody(n, b[c.NumSkip()..])
        case Reject(e) => Decoded(Err(e), Head, b)
  }

  /** The bytes `encode` appends for one payload, or the reason it refuses. `put_uint` keeps the low bytes only. */
  function EncodeFrame(c: Config, payload: seq<byte>): Outcome<seq<byte>, FrameError> {
    var n := |payload| - c.adjustment;
    if |payload| > c.maxFrameLen then Err(FrameTooBig)
    else if 0 <= n < U64_LIMIT then Ok(UintBytes(c.bigEndian, n, c.fieldLen) + payload)
    else Err(LengthOverflow)
  }

  // ---------------------------------------------------------------- the codec object

  /** `checked_add` and `checked_sub` on `usize`. */
  function CheckedAdd(x: nat, y: nat): Option<nat> {
    if x + y < U64_LIMIT then Some(x + y) else None
  }

  function CheckedSub(x: nat, y: nat): Option<nat> {
    if y <= x then Some(x - y) else None
  }

  class LengthDelimitedCodec {
    var builder: Config
    var state: DecodeState

    constructor (builder: Config)
      ensures this.builder == builder && state == Head
    {
      this.builder := builder;
      state := Head;
    }

    method SetMaxFrameLength(val: nat)
      modifies this`builder
      ensures builder == old(builder).(maxFrameLen := val)
    {
      builder := builder.(maxFrameLen := val);
    }

    /** A rejected or incomplete head leaves the buffer as it was; no read or advance passes its end. */
    method DecodeHead(src: BytesMut) returns (r: Outcome<Option<nat>, FrameError>)
      requires builder.Valid()
      modifies src
      ensures r == if |old(src.data)| < builder.NumHeadBytes() then Ok(None)
                   else match ReadHead(builder, old(src.data))
                     case Accept(n) => Ok(Some(n))
                     case Reject(e) => Err(e)
      ensures src.data == if r.Ok? && r.value.Some? then old(src.data)[builder.NumSkip()..] else old(src.data)
    {
      var headLen := builder.NumHeadBytes();
      var fieldLen := builder.fieldLen;
      if |src.data| < headLen {
        return Ok(None);
      }
      var cursor := new BytesMut(src.data);
      cursor.Advance(builder.offset);
      var field := cursor.SplitTo(fieldLen);
      assert field == src.data[builder.offset..builder.offset + fieldLen];
      var raw := UintOf(builder.bigEndian, field);
      if raw > builder.maxFrameLen {
        return Err(FrameTooBig);
      }
      var n := if builder.adjustment < 0 then CheckedSub(raw, -builder.adjustment)
               else CheckedAdd(raw, builder.adjustment);
      match n {
        case None =>
          return Err(LengthOverflow);
        case Some(len) =>
          src.Advance(builder.NumSkip());
          return Ok(Some(len));
      }
    }

    method DecodeData(n: nat, src: BytesMut) returns (r: Option<seq<byte>>)
      modifies src
      ensures |old(src.data)| < n ==> r == None && src.data == old(src.data)
      ensures |old(src.data)| >= n ==> r == Some(old(src.data)[..n]) && src.data == old(src.data)[n..]
    {
      if |src.data| < n {
        return None;
      }
      var front := src.SplitTo(n);
      return Some(front);
    }

    method Decode(src: BytesMut) returns (r: Outcome<Option<seq<byte>>, FrameError>)
      requires builder.Valid()
      modifies this`state, src
      ensures Decoded(r, state, src.data) == DecodeStep(builder, old(state), old(src.data))
      ensures !r.Panic?
      ensures r.Err? ==> state == old(state) && src.data == old(src.data)
    {
      var n: nat;
      match state {
        case Head =>
          var head :- DecodeHead(src);
          match head {
            case None =>
              return Ok(None);
            case Some(len) =>
              state := Data(len);
              n := len;
          }
        case Data(len) =>
          n := len;
      }
      var data := DecodeData(n, src);
      match data {
        case None =>
          return Ok(None);
        case Some(frame) =>
          state := Head;
          return Ok(Some(frame));
      }
    }

    method Encode(data: seq<byte>, dst: BytesMut) returns (r: Outcome<(), FrameError>)
      requires builder.Valid() && |data| < U64_LIMIT
      modifies dst
      ensures match EncodeFrame(builder, data)
              case Ok(frame) => r == Ok(()) && dst.data == old(dst.data) + frame
              case Err(e) => r == Err(e) && dst.data == old(dst.data)
              case Panic => false
    {
      if |data| > builder.maxFrameLen {
        return Err(FrameTooBig);
      }
      var n := if builder.adjustment < 0 then CheckedAdd(|data|, -builder.adjustment)
               else CheckedSub(|data|, builder.adjustment);
      match n {
        case None =>
          return Err(LengthOverflow);
        case Some(field) =>
          dst.PutUint(builder.bigEndian, field, builder.fieldLen);
          dst.PutSlice(data);
          return Ok(());
      }
    }
  }
}
