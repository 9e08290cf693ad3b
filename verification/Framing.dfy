/** What the framer does over whole streams and whole runs. */
module Framing {
  import opened Outcomes
  import opened Bytes
  import opened LengthCodec

  function Concat(chunks: seq<seq<byte>>): seq<byte> {
    if chunks == [] then [] else Concat(chunks[..|chunks| - 1]) + chunks[|chunks| - 1]
  }

  // ---------------------------------------------------------------- when draining terminates

  /** No head can announce a frame that takes no bytes at all. */
  predicate Drains(c: Config) {
    || c.NumSkip() > 0
    || c.adjustment > 0
    || -c.adjustment > c.maxFrameLen
    || -c.adjustment >= Pow256(c.fieldLen)
  }

  /** A head that announces an empty frame and skips nothing. */
  function EmptyFrameHead(c: Config): (b: seq<byte>)
    requires c.Valid() && !Drains(c)
    ensures |b| == c.NumHeadBytes()
  {
    seq(c.offset, i => 0) + UintBytes(c.bigEndian, -c.adjustment, c.fieldLen)
  }

  lemma HeadConsumes(c: Config, b: seq<byte>)
    requires c.Valid() && Drains(c)
    requires |b| >= c.NumHeadBytes() && ReadHead(c, b).Accept?
    ensures c.NumSkip() + ReadHead(c, b).n > 0
  {
    hide UintOf, UintBytes, Pow256;
    WritesWhatWasRead(c.bigEndian, b[c.offset..c.offset + c.fieldLen]);
  }

  /** What a decode call that yields a frame always lowers. */
  function Pending(state: DecodeState, b: seq<byte>): nat {
    2 * |b| + if state.Data? then 1 else 0
  }

  lemma StepProgresses(c: Config, state: DecodeState, b: seq<byte>)
    requires c.Valid() && Drains(c)
    ensures var d := DecodeStep(c, state, b);
            d.result.Ok? && d.result.value.Some? ==> Pending(d.state, d.buf) < Pending(state, b)
  {
    hide ReadHead, Drains;
    if state.Head? && |b| >= c.NumHeadBytes() && ReadHead(c, b).Accept? {
      HeadConsumes(c, b);
    }
  }

  lemma EmptyFrameHeadSticks(c: Config)
    requires c.Valid() && !Drains(c)
    ensures DecodeStep(c, Head, EmptyFrameHead(c)) == Decoded(Ok(Some([])), Head, EmptyFrameHead(c))
  {
    hide UintOf, UintBytes, Pow256;
    var b := EmptyFrameHead(c);
    assert b[c.offset..c.offset + c.fieldLen] == UintBytes(c.bigEndian, -c.adjustment, c.fieldLen);
    ReadsBack(c.bigEndian, -c.adjustment, c.fieldLen);
  }

  /** Every frame taken at a head shortens the buffer exactly when the configuration satisfies `Drains`. */
  lemma DrainsExactly(c: Config)
    requires c.Valid()
    ensures Drains(c) <==> forall b ::
                             var d := DecodeStep(c, Head, b);
                             d.result.Ok? && d.result.value.Some? ==> |d.buf| < |b|
  {
    if Drains(c) {
      forall b
        ensures var d := DecodeStep(c, Head, b); d.result.Ok? && d.result.value.Some? ==> |d.buf| < |b|
      {
        if |b| >= c.NumHeadBytes() && ReadHead(c, b).Accept? {
          HeadConsumes(c, b);
        }
      }
    } else {
      EmptyFrameHeadSticks(c);
    }
  }

  // ---------------------------------------------------------------- what becomes of a head

  /**
    * A head that holds the number `f` in its field is rejected for the maximum, then for what the adjustment makes of
    * it, and accepted otherwise; rejected, it stays where it was.
    */
  lemma WrittenHeadIsJudged(c: Config, before: seq<byte>, f: nat, rest: seq<byte>)
    requires c.Valid() && |before| == c.offset && f < Pow256(c.fieldLen)
    requires c.offset + c.fieldLen + |rest| >= c.NumHeadBytes()
    ensures var b := before + UintBytes(c.bigEndian, f, c.fieldLen) + rest;
            if f > c.maxFrameLen then DecodeStep(c, Head, b) == Decoded(Err(FrameTooBig), Head, b)
            else if f + c.adjustment < 0 || f + c.adjustment >= 0x1_0000_0000_0000_0000 then
              DecodeStep(c, Head, b) == Decoded(Err(LengthOverflow), Head, b)
            else DecodeStep(c, Head, b) == DecodeBody(f + c.adjustment, b[c.NumSkip()..])
  {
    var field := UintBytes(c.bigEndian, f, c.fieldLen);
    var b := before + field + rest;
    assert b[c.offset..c.offset + c.fieldLen] == field;
    ReadsBack(c.bigEndian, f, c.fieldLen);
    hide UintBytes, UintOf, Pow256;
  }

  /** Nothing is read while the field, or bytes to be skipped after it, are missing. */
  lemma IncompleteHeadWaits(c: Config, b: seq<byte>)
    requires c.Valid()
    requires |b| < c.offset + c.fieldLen || (c.numSkip.Some? && |b| < c.numSkip.value)
    ensures DecodeStep(c, Head, b) == Decoded(Ok(None), Head, b)
  {
  }

  /** What `encode` accepts, with the reason for each refusal. */
  lemma EncodesExactly(c: Config, payload: seq<byte>)
    requires c.Valid()
    ensures var n := |payload| - c.adjustment;
            if |payload| > c.maxFrameLen then EncodeFrame(c, payload) == Err(FrameTooBig)
            else if n < 0 || n >= 0x1_0000_0000_0000_0000 then EncodeFrame(c, payload) == Err(LengthOverflow)
            else EncodeFrame(c, payload) == Ok(HeadFor(c, |payload|) + payload)
  {
  }

  // ---------------------------------------------------------------- what is handed out, and what the comments draw

  /**
    * The frame as the comments' diagrams draw it: from where skipping stops to the end of what the adjusted length
    * counts, which is counted from the end of the head.
    */
  function Drawn(c: Config, b: seq<byte>, n: nat): seq<byte>
    requires |b| >= c.NumHeadBytes() + n
  {
    b[c.NumSkip()..c.NumHeadBytes() + n]
  }

  /**
    * The code counts from where skipping stops instead. It hands out the drawn frame exactly when it skips the whole
    * head; otherwise as many bytes are missing at the end as head bytes were kept, and they stay in the buffer.
    */
  lemma DrawnExactlyWhenHeadSkipped(c: Config, b: seq<byte>, n: nat)
    requires c.Valid() && |b| >= c.NumHeadBytes() + n && ReadHead(c, b) == Accept(n)
    ensures var d := DecodeStep(c, Head, b);
            && d.result.Ok? && d.result.value.Some? && d.state == Head
            && (d.result.value.value == Drawn(c, b, n) <==> c.NumSkip() >= c.offset + c.fieldLen)
            && d.result.value.value + d.buf[..c.NumHeadBytes() - c.NumSkip()] == Drawn(c, b, n)
            && d.buf[c.NumHeadBytes() - c.NumSkip()..] == b[c.NumHeadBytes() + n..]
  {
    var skip, kept := c.NumSkip(), c.NumHeadBytes() - c.NumSkip();
    SliceOfRest(b, skip, n);
    SliceOfRest(b, skip + n, kept);
    CutTwice(b[skip..], n, n + kept);
  }

  /** Counted from the end of the length field, the same holds exactly when skipping stops there. */
  lemma DrawnFromFieldExactlyWhenFieldSkipped(c: Config, b: seq<byte>, n: nat)
    requires c.Valid() && |b| >= c.NumHeadBytes() + n && ReadHead(c, b) == Accept(n)
    requires c.NumSkip() <= c.offset + c.fieldLen + n
    ensures DecodeStep(c, Head, b).result == Ok(Some(b[c.NumSkip()..c.offset + c.fieldLen + n]))
       <==> c.NumSkip() == c.offset + c.fieldLen
  {
    SliceOfRest(b, c.NumSkip(), n);
  }

  /** The configurations of examples 1, 3 and 4, whose diagrams keep the head. */
  function KeepsHead(fieldLen: nat, adjustment: int): Config {
    Config(8 * 1024 * 1024, fieldLen, 0, adjustment, Some(0), true)
  }

  /** Example 1: 11 bytes come out where 13 are drawn, and the payload's last two are read as the next head. */
  lemma FirstExampleLosesTwo(payload: seq<byte>)
    requires |payload| == 11
    ensures var c, b := KeepsHead(2, 0), [0, 11] + payload;
            && ReadHead(c, b) == Accept(11) && Drawn(c, b, 11) == b
            && DecodeStep(c, Head, b) == Decoded(Ok(Some([0, 11] + payload[..9])), Head, payload[9..])
  {
    var b: seq<byte> := [0, 11] + payload;
    assert b[0..2] == [0, 11];
    FromBigEndianPair(0, 11);
    assert b[..11] == [0, 11] + payload[..9] && b[11..] == payload[9..];
  }

  /** Example 3: the field counts the head as well, and the adjustment takes it off again. */
  lemma ThirdExampleLosesTwo(payload: seq<byte>)
    requires |payload| == 11
    ensures var c, b := KeepsHead(2, -2), [0, 13] + payload;
            && ReadHead(c, b) == Accept(11) && Drawn(c, b, 11) == b
            && DecodeStep(c, Head, b) == Decoded(Ok(Some([0, 13] + payload[..9])), Head, payload[9..])
  {
    var b: seq<byte> := [0, 13] + payload;
    assert b[0..2] == [0, 13];
    FromBigEndianPair(0, 13);
    assert b[..11] == [0, 13] + payload[..9] && b[11..] == payload[9..];
  }

  /** Example 4: of a head of five bytes the three of the field are missing at the end. */
  lemma FourthExampleLosesThree(x: byte, y: byte, payload: seq<byte>)
    requires |payload| == 11
    ensures var c, b := KeepsHead(3, 2), [0, 0, 11, x, y] + payload;
            && ReadHead(c, b) == Accept(13) && Drawn(c, b, 13) == b
            && DecodeStep(c, Head, b) == Decoded(Ok(Some([0, 0, 11, x, y] + payload[..8])), Head, payload[8..])
  {
    var b: seq<byte> := [0, 0, 11, x, y] + payload;
    assert b[0..3] == [0, 0, 11] && ([0, 0, 11])[..2] == [0, 0];
    FromBigEndianPair(0, 0);
    assert b[..13] == [0, 0, 11, x, y] + payload[..8] && b[13..] == payload[8..];
  }

  /** Example 2, with the default skip: the payload comes out. */
  lemma SecondExampleAsDrawn(payload: seq<byte>)
    requires |payload| == 11
    ensures var c, b := Config(8 * 1024 * 1024, 2, 0, 0, None, true), [0, 11] + payload;
            Drawn(c, b, 11) == payload && DecodeStep(c, Head, b) == Decoded(Ok(Some(payload)), Head, [])
  {
    var b: seq<byte> := [0, 11] + payload;
    assert b[0..2] == [0, 11];
    FromBigEndianPair(0, 11);
    assert b[2..] == payload && payload[..11] == payload && payload[11..] == [];
  }

  /** The configuration of examples 5 and 6: one byte before the field, skipped with it. */
  function SkipsThree(adjustment: int): Config {
    Config(8 * 1024 * 1024, 2, 1, adjustment, Some(3), true)
  }

  /** Example 5: the last byte of the head is kept, and the adjustment counts it. */
  lemma FifthExampleAsDrawn(x: byte, y: byte, payload: seq<byte>)
    requires |payload| == 11
    ensures var c, b := SkipsThree(1), [x, 0, 11, y] + payload;
            Drawn(c, b, 12) == [y] + payload && DecodeStep(c, Head, b) == Decoded(Ok(Some([y] + payload)), Head, [])
  {
    var b: seq<byte> := [x, 0, 11, y] + payload;
    assert b[1..3] == [0, 11];
    FromBigEndianPair(0, 11);
    assert b[3..] == [y] + payload && ([y] + payload)[..12] == [y] + payload && ([y] + payload)[12..] == [];
  }

  /** Example 6: the field counts the whole frame, and the adjustment takes off what is skipped. */
  lemma SixthExampleAsDrawn(x: byte, y: byte, payload: seq<byte>)
    requires |payload| == 11
    ensures var c, b := SkipsThree(-3), [x, 0, 15, y] + payload;
            Drawn(c, b, 12) == [y] + payload && DecodeStep(c, Head, b) == Decoded(Ok(Some([y] + payload)), Head, [])
  {
    var b: seq<byte> := [x, 0, 15, y] + payload;
    assert b[1..3] == [0, 15];
    FromBigEndianPair(0, 15);
    assert b[3..] == [y] + payload && ([y] + payload)[..12] == [y] + payload && ([y] + payload)[12..] == [];
  }

  /** Example 7: a byte after the field is skipped with it. */
  lemma SeventhExampleAsDrawn(z: byte, payload: seq<byte>)
    requires |payload| == 11
    ensures var c, b := Config(8 * 1024 * 1024, 3, 0, 0, Some(4), true), [0, 0, 11, z] + payload;
            Drawn(c, b, 11) == payload && DecodeStep(c, Head, b) == Decoded(Ok(Some(payload)), Head, [])
  {
    var b: seq<byte> := [0, 0, 11, z] + payload;
    assert b[0..3] == [0, 0, 11] && ([0, 0, 11])[..2] == [0, 0];
    FromBigEndianPair(0, 0);
    assert b[4..] == payload && payload[..11] == payload && payload[11..] == [];
  }

  lemma FromBigEndianPair(x: byte, y: byte)
    ensures FromBigEndian([x, y]) == 256 * x + y
  {
    assert [x, y][..1] == [x] && [x][..0] == [];
    assert FromBigEndian([x]) == 256 * FromBigEndian([]) + x;
  }

  // ---------------------------------------------------------------- the whole stream at once

  /** The frames taken so far, the decoder state and buffer left, and the error that ended the run. */
  datatype Run = Run(frames: seq<seq<byte>>, state: DecodeState, buf: seq<byte>, error: Option<FrameError>)

  /** The simple parser: cut frames off the front of the stream until it runs out or a head is rejected. */
  function Parse(c: Config, b: seq<byte>): Run
    requires c.Valid() && Drains(c)
    decreases |b|
  {
    if |b| < c.NumHeadBytes() then Run([], Head, b, None)
    else
      match ReadHead(c, b)
      case Reject(e) => Run([], Head, b, Some(e))
      case Accept(n) =>
        var end := c.NumSkip() + n;
        if |b| < end then Run([], Data(n), b[c.NumSkip()..], None)
        else
          HeadConsumes(c, b);
          var rest := Parse(c, b[end..]);
          rest.(frames := [b[c.NumSkip()..end]] + rest.frames)
  }

  /** What a reader does after each arrival: call `decode` until it has nothing to give. */
  function Drain(c: Config, state: DecodeState, b: seq<byte>): Run
    requires c.Valid() && Drains(c)
    decreases Pending(state, b)
  {
    var d := DecodeStep(c, state, b);
    if d.result.Err? then Run([], d.state, d.buf, Some(d.result.error))
    else if d.result.value.None? then Run([], d.state, d.buf, None)
    else
      StepProgresses(c, state, b);
      var rest := Drain(c, d.state, d.buf);
      rest.(frames := [d.result.value.value] + rest.frames)
  }

  /** A chunk arrives; once a head was rejected the reader has stopped and bytes stay where they are. */
  function Feed(c: Config, r: Run, chunk: seq<byte>): Run
    requires c.Valid() && Drains(c)
  {
    if r.error.Some? then r.(buf := r.buf + chunk)
    else
      var d := Drain(c, r.state, r.buf + chunk);
      d.(frames := r.frames + d.frames)
  }

  function FeedAll(c: Config, chunks: seq<seq<byte>>): Run
    requires c.Valid() && Drains(c)
  {
    if chunks == [] then Run([], Head, [], None)
    else Feed(c, FeedAll(c, chunks[..|chunks| - 1]), chunks[|chunks| - 1])
  }

  /** One decode call of a drain, and the rest of it. */
  lemma DrainUnfolds(c: Config, state: DecodeState, b: seq<byte>)
    requires c.Valid() && Drains(c)
    ensures var d := DecodeStep(c, state, b);
            match d.result
            case Err(e) => Drain(c, state, b) == Run([], d.state, d.buf, Some(e))
            case Ok(None) => Drain(c, state, b) == Run([], d.state, d.buf, None)
            case Ok(Some(frame)) =>
              var rest := Drain(c, d.state, d.buf);
              && Pending(d.state, d.buf) < Pending(state, b)
              && Drain(c, state, b) == rest.(frames := [frame] + rest.frames)
            case Panic => false
  {
    StepProgresses(c, state, b);
    hide DecodeStep, Drains;
  }

  lemma DrainTakesBody(c: Config, n: nat, body: seq<byte>)
    requires c.Valid() && Drains(c)
    ensures |body| < n ==> Drain(c, Data(n), body) == Run([], Data(n), body, None)
    ensures |body| >= n ==>
              var rest := Drain(c, Head, body[n..]);
              Drain(c, Data(n), body) == rest.(frames := [body[..n]] + rest.frames)
  {
    DrainUnfolds(c, Data(n), body);
    hide Drain, Drains;
  }

  /** Nothing is taken before a head is complete, nor from a head that is rejected. */
  lemma DrainStopsAtHead(c: Config, b: seq<byte>)
    requires c.Valid() && Drains(c)
    requires |b| < c.NumHeadBytes() || ReadHead(c, b).Reject?
    ensures Drain(c, Head, b) == Parse(c, b)
  {
    DrainUnfolds(c, Head, b);
    hide Drain, Drains, ReadHead;
  }

  lemma DrainPastHead(c: Config, b: seq<byte>)
    requires c.Valid() && Drains(c) && |b| >= c.NumHeadBytes() && ReadHead(c, b).Accept?
    ensures Drain(c, Head, b) == Drain(c, Data(ReadHead(c, b).n), b[c.NumSkip()..])
  {
    DrainUnfolds(c, Head, b);
    DrainUnfolds(c, Data(ReadHead(c, b).n), b[c.NumSkip()..]);
    hide Drain, Drains, ReadHead;
  }

  lemma ParseTakesFrame(c: Config, b: seq<byte>)
    requires c.Valid() && Drains(c)
    requires |b| >= c.NumHeadBytes() && ReadHead(c, b).Accept? && |b| >= c.NumSkip() + ReadHead(c, b).n
    ensures var end := c.NumSkip() + ReadHead(c, b).n;
            var rest := Parse(c, b[end..]);
            Parse(c, b) == rest.(frames := [b[c.NumSkip()..end]] + rest.frames)
  {
    HeadConsumes(c, b);
    hide Drains, ReadHead;
  }

  lemma ParseBeginsFrame(c: Config, b: seq<byte>)
    requires c.Valid() && Drains(c)
    requires |b| >= c.NumHeadBytes() && ReadHead(c, b).Accept? && |b| < c.NumSkip() + ReadHead(c, b).n
    ensures Parse(c, b) == Run([], Data(ReadHead(c, b).n), b[c.NumSkip()..], None)
  {
    hide Drains, ReadHead;
  }

  lemma {:induction false} DrainIsParse(c: Config, b: seq<byte>)
    requires c.Valid() && Drains(c)
    ensures Drain(c, Head, b) == Parse(c, b)
    decreases |b|
  {
    hide Drain, Drains, Parse, ReadHead;
    if |b| < c.NumHeadBytes() || ReadHead(c, b).Reject? {
      DrainStopsAtHead(c, b);
    } else {
      var n := ReadHead(c, b).n;
      var end := c.NumSkip() + n;
      DrainPastHead(c, b);
      DrainTakesBody(c, n, b[c.NumSkip()..]);
      if |b| < end {
        ParseBeginsFrame(c, b);
      } else {
        HeadConsumes(c, b);
        SliceOfRest(b, c.NumSkip(), n);
        DrainIsParse(c, b[end..]);
        ParseTakesFrame(c, b);
      }
    }
  }

  lemma HeadIsStable(c: Config, b: seq<byte>, more: seq<byte>)
    requires c.Valid() && |b| >= c.NumHeadBytes()
    ensures LengthField(c, b + more) == LengthField(c, b)
    ensures ReadHead(c, b + more) == ReadHead(c, b)
  {
    assert (b + more)[c.offset..c.offset + c.fieldLen] == b[c.offset..c.offset + c.fieldLen];
  }

  lemma FeedKeepsEarlierFrames(c: Config, f: seq<seq<byte>>, r: Run, chunk: seq<byte>)
    requires c.Valid() && Drains(c)
    ensures var fed := Feed(c, r, chunk);
            Feed(c, r.(frames := f + r.frames), chunk) == fed.(frames := f + fed.frames)
  {
    if r.error.None? {
      var more := Drain(c, r.state, r.buf + chunk).frames;
      assert f + r.frames + more == f + (r.frames + more);
    }
  }

  /** Taking up a frame whose head was already read is parsing from that head. */
  lemma DrainResumesParse(c: Config, b: seq<byte>)
    requires c.Valid() && Drains(c) && |b| >= c.NumHeadBytes() && ReadHead(c, b).Accept?
    ensures Drain(c, Data(ReadHead(c, b).n), b[c.NumSkip()..]) == Parse(c, b)
  {
    DrainPastHead(c, b);
    DrainIsParse(c, b);
  }

  /** A frame begun in `b` and completed, or not, by the chunk. */
  lemma FeedContinuesFrame(c: Config, b: seq<byte>, chunk: seq<byte>)
    requires c.Valid() && Drains(c)
    requires |b| >= c.NumHeadBytes() && ReadHead(c, b).Accept? && |b| < c.NumSkip() + ReadHead(c, b).n
    ensures Feed(c, Parse(c, b), chunk) == Parse(c, b + chunk)
  {
    hide Drain, Drains, ReadHead;
    HeadIsStable(c, b, chunk);
    DrainResumesParse(c, b + chunk);
    ParseBeginsFrame(c, b);
    hide Parse;
    RestOfAppended(b, chunk, c.NumSkip());
    assert [] + Parse(c, b + chunk).frames == Parse(c, b + chunk).frames;
  }

  /** A complete frame at the front is cut off first, whatever follows. */
  lemma ParseCutsFrame(c: Config, b: seq<byte>, more: seq<byte>)
    requires c.Valid() && Drains(c)
    requires |b| >= c.NumHeadBytes() && ReadHead(c, b).Accept? && |b| >= c.NumSkip() + ReadHead(c, b).n
    ensures var end := c.NumSkip() + ReadHead(c, b).n;
            var rest := Parse(c, b[end..] + more);
            Parse(c, b + more) == rest.(frames := [b[c.NumSkip()..end]] + rest.frames)
  {
    hide Drains, Parse, ReadHead;
    HeadIsStable(c, b, more);
    ParseTakesFrame(c, b + more);
    var end := c.NumSkip() + ReadHead(c, b).n;
    assert (b + more)[c.NumSkip()..end] == b[c.NumSkip()..end];
    RestOfAppended(b, more, end);
  }

  /** Parsing what came before and then feeding a chunk is parsing both together. */
  lemma {:induction false} FeedExtendsParse(c: Config, b: seq<byte>, chunk: seq<byte>)
    requires c.Valid() && Drains(c)
    ensures Feed(c, Parse(c, b), chunk) == Parse(c, b + chunk)
    decreases |b|
  {
    if |b| < c.NumHeadBytes() {
      DrainIsParse(c, b + chunk);
      assert [] + Parse(c, b + chunk).frames == Parse(c, b + chunk).frames;
    } else {
      HeadIsStable(c, b, chunk);
      if ReadHead(c, b).Accept? {
        var end := c.NumSkip() + ReadHead(c, b).n;
        if |b| < end {
          FeedContinuesFrame(c, b, chunk);
        } else {
          HeadConsumes(c, b);
          FeedExtendsParse(c, b[end..], chunk);
          FeedKeepsEarlierFrames(c, [b[c.NumSkip()..end]], Parse(c, b[end..]), chunk);
          ParseCutsFrame(c, b, chunk);
        }
      }
    }
  }

  /** Chunking independence: frames, final state, leftover bytes and first error depend on the bytes alone. */
  lemma {:induction false} ChunkingIndependence(c: Config, chunks: seq<seq<byte>>)
    requires c.Valid() && Drains(c)
    ensures FeedAll(c, chunks) == Parse(c, Concat(chunks))
  {
    if chunks != [] {
      var before := chunks[..|chunks| - 1];
      ChunkingIndependence(c, before);
      FeedExtendsParse(c, Concat(before), chunks[|chunks| - 1]);
    }
  }

  /** The loop a framed reader runs on the codec after each arrival. */
  method DrainCodec(codec: LengthDelimitedCodec, src: BytesMut)
    returns (frames: seq<seq<byte>>, error: Option<FrameError>)
    requires codec.builder.Valid() && Drains(codec.builder)
    modifies codec`state, src
    ensures Run(frames, codec.state, src.data, error) == Drain(codec.builder, old(codec.state), old(src.data))
  {
    hide Drain, Drains, DecodeStep;
    frames := [];
    var c := codec.builder;
    while true
      invariant codec.builder == c
      invariant var d := Drain(c, codec.state, src.data);
                d.(frames := frames + d.frames) == Drain(c, old(codec.state), old(src.data))
      decreases Pending(codec.state, src.data)
    {
      DrainUnfolds(c, codec.state, src.data);
      var r := codec.Decode(src);
      match r {
        case Err(e) =>
          return frames, Some(e);
        case Ok(None) =>
          return frames, None;
        case Ok(Some(frame)) =>
          Regroup(frames, [frame], Drain(c, codec.state, src.data).frames);
          frames := frames + [frame];
      }
    }
  }

  // ---------------------------------------------------------------- encoding and decoding back

  /** The head is the length field alone, and it is skipped. */
  predicate Plain(c: Config) {
    c.Valid() && c.offset == 0 && c.NumSkip() == c.fieldLen
  }

  /** The adjusted length fits the field, and the decoder's limit, which applies to the field. */
  predicate Carries(c: Config, payload: seq<byte>) {
    0 <= |payload| - c.adjustment < Pow256(c.fieldLen) && |payload| - c.adjustment <= c.maxFrameLen
  }

  function HeadFor(c: Config, n: nat): (h: seq<byte>)
    ensures |h| == c.fieldLen
  {
    UintBytes(c.bigEndian, if n >= c.adjustment then n - c.adjustment else 0, c.fieldLen)
  }

  /** The frames for a list of payloads, one after the other. */
  function FrameAll(c: Config, payloads: seq<seq<byte>>): seq<byte> {
    if payloads == [] then [] else HeadFor(c, |payloads[0]|) + payloads[0] + FrameAll(c, payloads[1..])
  }

  /** The head written for a length is accepted as that length, whatever follows it. */
  lemma HeadForIsAccepted(c: Config, n: nat, rest: seq<byte>)
    requires Plain(c) && n < U64_LIMIT
    requires 0 <= n - c.adjustment < Pow256(c.fieldLen) && n - c.adjustment <= c.maxFrameLen
    ensures ReadHead(c, HeadFor(c, n) + rest) == Accept(n)
  {
    var b := HeadFor(c, n) + rest;
    assert b[0..c.fieldLen] == HeadFor(c, n);
    ReadsBack(c.bigEndian, n - c.adjustment, c.fieldLen);
  }

  lemma CarriedHead(c: Config, payload: seq<byte>, tail: seq<byte>)
    requires Plain(c) && Carries(c, payload) && |payload| < U64_LIMIT
    ensures ReadHead(c, HeadFor(c, |payload|) + payload + tail) == Accept(|payload|)
  {
    hide ReadHead, HeadFor;
    Regroup(HeadFor(c, |payload|), payload, tail);
    HeadForIsAccepted(c, |payload|, payload + tail);
  }

  lemma ParseOneFrame(c: Config, payload: seq<byte>, tail: seq<byte>)
    requires Plain(c) && Carries(c, payload) && |payload| < U64_LIMIT
    ensures var rest := Parse(c, tail);
            Parse(c, HeadFor(c, |payload|) + payload + tail) == rest.(frames := [payload] + rest.frames)
  {
    CarriedHead(c, payload, tail);
    var b := HeadFor(c, |payload|) + payload + tail;
    var end := c.fieldLen + |payload|;
    assert b[c.fieldLen..end] == payload && b[end..] == tail;
  }

  /** Decoding the frames of any list of payloads yields the list and goes on with what follows. */
  lemma {:induction false} FramingRoundTrip(c: Config, payloads: seq<seq<byte>>, tail: seq<byte>)
    requires Plain(c)
    requires forall p <- payloads :: Carries(c, p) && |p| < U64_LIMIT
    ensures var rest := Parse(c, tail);
            Parse(c, FrameAll(c, payloads) + tail) == rest.(frames := payloads + rest.frames)
  {
    if payloads == [] {
      assert FrameAll(c, payloads) + tail == tail;
      assert [] + Parse(c, tail).frames == Parse(c, tail).frames;
    } else {
      var p, others := payloads[0], payloads[1..];
      FramingRoundTrip(c, others, tail);
      Regroup(HeadFor(c, |p|) + p, FrameAll(c, others), tail);
      ParseOneFrame(c, p, FrameAll(c, others) + tail);
      Regroup([p], others, Parse(c, tail).frames);
      assert [p] + others == payloads;
    }
  }

  /** An encoded frame decodes to its payload exactly when the field can carry it and the decoder admits it. */
  lemma EncodedFrameDecodesBack(c: Config, payload: seq<byte>)
    requires Plain(c) && EncodeFrame(c, payload).Ok?
    ensures EncodeFrame(c, payload).value == HeadFor(c, |payload|) + payload
    ensures Parse(c, EncodeFrame(c, payload).value) == Run([payload], Head, [], None) <==> Carries(c, payload)
  {
    var field := |payload| - c.adjustment;
    var b := EncodeFrame(c, payload).value;
    assert b == HeadFor(c, |payload|) + payload + [];
    if Carries(c, payload) {
      FramingRoundTrip(c, [payload], []);
      assert FrameAll(c, [payload]) + [] == b;
      assert [payload] + [] == [payload];
    } else {
      assert b[0..c.fieldLen] == HeadFor(c, |payload|);
      ReadsWhatWasWritten(c.bigEndian, field, c.fieldLen);
      assert LengthField(c, b) == field % Pow256(c.fieldLen) < Pow256(c.fieldLen);
    }
  }

  /** The head bytes of a frame begun but not completed. */
  function HeadTaken(c: Config, state: DecodeState): seq<byte> {
    match state
    case Head => []
    case Data(n) => HeadFor(c, n)
  }

  lemma HeadForWhatWasRead(c: Config, b: seq<byte>)
    requires Plain(c) && |b| >= c.fieldLen && ReadHead(c, b).Accept?
    ensures HeadFor(c, ReadHead(c, b).n) == b[..c.fieldLen]
  {
    assert b[0..c.fieldLen] == b[..c.fieldLen];
    WritesWhatWasRead(c.bigEndian, b[..c.fieldLen]);
  }

  /** The payloads framed again, then the head taken, then the bytes left. */
  function Restored(c: Config, r: Run): seq<byte> {
    FrameAll(c, r.frames) + HeadTaken(c, r.state) + r.buf
  }

  lemma RestoredPrepends(c: Config, payload: seq<byte>, r: Run)
    ensures Restored(c, r.(frames := [payload] + r.frames)) == HeadFor(c, |payload|) + payload + Restored(c, r)
  {
    var h := HeadFor(c, |payload|) + payload;
    assert ([payload] + r.frames)[1..] == r.frames;
    Regroup(h, FrameAll(c, r.frames), HeadTaken(c, r.state));
    Regroup(h, FrameAll(c, r.frames) + HeadTaken(c, r.state), r.buf);
  }

  /** Conservation: the frames, the head taken and the bytes left restore the stream that was read. */
  lemma {:induction false} ParseLosesNothing(c: Config, b: seq<byte>)
    requires Plain(c)
    ensures Restored(c, Parse(c, b)) == b
    decreases |b|
  {
    var r := Parse(c, b);
    if |b| >= c.fieldLen && ReadHead(c, b).Accept? {
      HeadForWhatWasRead(c, b);
      var n := ReadHead(c, b).n;
      var end := c.fieldLen + n;
      if |b| >= end {
        var p, rest := b[c.fieldLen..end], Parse(c, b[end..]);
        ParseLosesNothing(c, b[end..]);
        ParseTakesFrame(c, b);
        RestoredPrepends(c, p, rest);
        CutTwice(b, c.fieldLen, end);
      } else {
        assert r == Run([], Data(n), b[c.fieldLen..], None);
        CutTwice(b, 0, c.fieldLen);
      }
    } else {
      assert r.buf == b;
      assert Restored(c, r) == [] + [] + b == b;
    }
  }
}
