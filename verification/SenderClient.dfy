/** The client object of tools/rtu8002_upgrade.py and the frames it sends. */
module SenderClient {
  import opened Bits
  import opened CText
  import opened Sender8002
  import opened Options

  // ----- frames -----

  /** `struct.pack` with "<H" and "<I". */
  function Le16(v: nat): (r: Text)
    requires v < 0x10000
    ensures |r| == 2
  {
    [v % 256, v / 256]
  }

  function Le32(v: nat): (r: Text)
    requires v < 0x1_0000_0000
    ensures |r| == 4
  {
    Le16(v % 0x10000) + Le16(v / 0x10000)
  }

  /** The bytes of a 32-bit number, low byte first. */
  predicate Holds(b: Text, v: nat) {
    |b| == 4 && b[0] == v % 256 && b[1] == v / 0x100 % 256 && b[2] == v / 0x10000 % 256 && b[3] == v / 0x1000000
  }

  lemma Le32Holds(v: nat)
    requires v < 0x1_0000_0000
    ensures Holds(Le32(v), v)
  {
    assert v % 0x10000 % 256 == v % 256 && v % 0x10000 / 256 == v / 0x100 % 256;
    assert v / 0x10000 / 256 == v / 0x1000000;
  }

  /** The addressing fields of the request that is answered, or of the client on a timeout. */
  datatype Device = Device(id: nat, devType: Byte, subType: Byte)

  predicate Sendable(p: Packet, dev: Device) {
    p.flowNo < FLOW_LIMIT && p.imageLen < 0x1_0000_0000 && p.currentLen < 0x1_0000_0000
    && |p.payload| == BLOCK && dev.id < 0x10000
  }

  lemma {:induction false} ByteSumBound(s: Text)
    ensures ByteSum(s) <= 255 * |s|
    decreases |s|
  {
    if s != [] { ByteSumBound(s[..|s| - 1]); }
  }

  /** Everything after the checksum byte. */
  function Body(p: Packet, dev: Device): (r: Text)
    requires Sendable(p, dev)
    ensures |r| == 534
  {
    ByteSumBound(p.payload);
    [p.flowNo] + Le16(dev.id) + [dev.devType, dev.subType, 0x18] + [0xFF, 0xFF, 0xFF, 0xFF]
    + Le32(p.imageLen) + Le32(p.currentLen) + p.payload + Le32(ByteSum(p.payload))
  }

  /** The byte that makes the sum of a frame's checked part 0x55 modulo 256. */
  function CheckByte(body: Text): Byte {
    (0x55 - ByteSum(body) % 256) % 256
  }

  function Frame(p: Packet, dev: Device): (r: Text)
    requires Sendable(p, dev)
    ensures |r| == 538
  {
    [0x7E] + Le16(535) + [CheckByte(Body(p, dev))] + Body(p, dev)
  }

  /** The length field counts the bytes after it, and those bytes sum to 0x55 modulo 256. */
  lemma FrameChecks(p: Packet, dev: Device)
    requires Sendable(p, dev)
    ensures var f := Frame(p, dev);
      f[1] == |f[3..]| % 256 && f[2] == |f[3..]| / 256 && ByteSum(f[3..]) % 256 == 0x55
  {
    hide Body, ByteSum;
    var b := Body(p, dev);
    var f := Frame(p, dev);
    assert f[3..] == [CheckByte(b)] + b;
    SumJoin([CheckByte(b)], b);
    OneByte(CheckByte(b));
  }

  lemma OneByte(c: Byte)
    ensures ByteSum([c]) == c
  {
    assert ByteSum([c][..0]) == 0;
  }

  /** The receiver finds every field where the frame layout puts it, numbers with their low byte
      first. */
  lemma FrameFields(p: Packet, dev: Device)
    requires Sendable(p, dev)
    ensures var f := Frame(p, dev);
      && |f| == 538 && f[..3] == [0x7E, 535 % 256, 535 / 256]
      && f[4] == p.flowNo && f[5] == dev.id % 256 && f[6] == dev.id / 256
      && f[7..14] == [dev.devType, dev.subType, 0x18, 0xFF, 0xFF, 0xFF, 0xFF]
      && Holds(f[14..18], p.imageLen) && Holds(f[18..22], p.currentLen)
      && f[22..534] == p.payload && Holds(f[534..538], ByteSum(p.payload))
  {
    hide ByteSum, Le32, Holds;
    ByteSumBound(p.payload);
    var f := Frame(p, dev);
    Le32Holds(p.imageLen);
    Le32Holds(p.currentLen);
    Le32Holds(ByteSum(p.payload));
    assert f[14..18] == Le32(p.imageLen);
    assert f[18..22] == Le32(p.currentLen);
    assert f[22..534] == p.payload;
    assert f[534..538] == Le32(ByteSum(p.payload));
  }

  // ----- the client -----

  class Client {
    const image: Text
    var flowNo: nat
    var imageLen: nat
    var currentLen: nat
    var sum0: nat
    var sum1: nat
    var upgrade: bool
    ghost var history: seq<Event>

    ghost function Now(): State
      reads this
    {
      State(flowNo, imageLen, currentLen, sum0, sum1, upgrade)
    }

    /** The client is where its history of events has brought it. */
    ghost predicate Valid()
      reads this
    {
      Now() == Run(image, history) && PaddedLength(|image|) < 0x1_0000_0000
    }

    /** A new client whose upgrade starts at once. */
    constructor (image: Text)
      requires PaddedLength(|image|) < 0x1_0000_0000
      ensures Valid() && history == [] && this.image == image
    {
      this.image := image;
      flowNo, currentLen, sum0, sum1, upgrade := 1, 0, 0, 0, true;
      var size := |image|;
      if size % BLOCK != 0 {
        size := size - size % BLOCK;
        size := size + BLOCK;
      }
      imageLen := size;
      history := [];
    }

    /** The two loops over a block read for the first time. */
    method CountBlock(data: Text)
      requires |data| == BLOCK
      modifies this`sum0, this`sum1
      ensures sum0 == old(sum0) + ByteSum(data) && sum1 == XorAll(old(sum1), data)
    {
      hide Xor;
      var x := 0;
      assert data[..x] == [];
      while x < |data|
        invariant 0 <= x <= |data| && sum0 == old(sum0) + ByteSum(data[..x])
        invariant sum1 == old(sum1)
      {
        assert data[..x + 1][..x] == data[..x];
        sum0 := sum0 + data[x];
        x := x + 1;
      }
      assert data[..x] == data;
      var i := 0;
      assert data[..i] == [];
      while i < |data|
        invariant 0 <= i <= |data| && i % 2 == 0 && sum1 == XorAll(old(sum1), data[..i])
        invariant sum0 == old(sum0) + ByteSum(data)
      {
        assert data[..i + 2][..i] == data[..i];
        sum1 := Xor(sum1, WordOf(data[i], data[i + 1]));
        i := i + 2;
      }
      assert data[..i] == data;
    }

    /** The first half of `sndImageData`: what the acknowledgement does to the client's fields. */
    method Advance(flow0: Byte, flag0: Byte) returns (counts: bool, finished: bool)
      requires upgrade
      modifies this`flowNo, this`imageLen, this`currentLen, this`upgrade
      ensures var st := old(Now());
        var ev := Ack(flow0, flag0);
        && finished == (Finishes(st, ev) && !Advances(st, ev))
        && counts == (Advances(st, ev) && st.currentLen < st.imageLen)
        && (counts ==> Now() == st.(currentLen := st.currentLen + BLOCK, flowNo := NextFlow(st.flowNo)))
        && (!counts ==> Now() == Step(image, st, ev))
    {
      counts, finished := false, false;
      if flow0 == flowNo && imageLen != 0 && (1 == flag0 || 2 == flag0 || 0 == flag0) {
        if currentLen >= imageLen {
          currentLen := imageLen;
          imageLen := 0;
        } else {
          currentLen := currentLen + BLOCK;
          counts := true;
        }
        flowNo := flowNo + 1;
        if flowNo >= FLOW_LIMIT { flowNo := 1; }
      } else if flow0 == flowNo && flag0 == 0x03 {
        upgrade := false;
        finished := true;
      }
    }

    /** The second half: the data to send, counted if it is sent for the first time. */
    method ImageData(counts: bool) returns (data: Text)
      requires currentLen != 0 && imageLen != 0 ==> BLOCK <= currentLen <= |image| + BLOCK
      requires counts ==> currentLen != 0 && imageLen != 0
      modifies this`sum0, this`sum1
      ensures Now() == if counts then Counted(image, old(Now())) else old(Now())
      ensures data == Payload(image, Now())
    {
      hide ReadBlock, Encoded, XorAll, ByteSum;
      if 0 == currentLen {
        data := Zeros(BLOCK);
      } else if 0 == imageLen {
        data := [sum0 % 256, sum0 / 256 % 256, sum1 % 256, sum1 / 256 % 256] + Zeros(BLOCK - 4);
      } else {
        data := ReadBlock(image, currentLen - BLOCK);
        if counts { CountBlock(data); }
        data := Encoded(data);
      }
    }

    /** `sndImageData`, behind the `upgrade` check of its callers: the frame sent, if any. */
    method SndImageData(ev: Event, dev: Device) returns (frame: Option<Text>)
      requires Valid() && dev.id < 0x10000
      modifies this
      ensures Valid() && history == old(history) + [ev]
      ensures var a := AnswerAfter(image, old(history), ev);
        if a.None? then frame == None
        else Sendable(a.value, dev) && frame == Some(Frame(a.value, dev))
    {
      hide Run, Matched, Payload, Frame, Sound, Counted, Advances, Finishes, PaddedLength, Step;
      ghost var st := Now();
      RunMore(image, history, ev);
      RunInvariant(image, history);
      RunInvariant(image, history + [ev]);
      history := history + [ev];
      StepOutline(image, st, ev);
      if !upgrade { return None; }
      AsAck(image, st, ev);
      var counts, finished := Advance(FlowOf(ev), FlagOf(ev));
      if finished { return None; }
      SoundBlock(image, Run(image, history));
      var data := ImageData(counts);
      frame := Some(Frame(Packet(flowNo, imageLen, currentLen, data), dev));
    }
  }

  /** A timeout acts as the acknowledgement it is passed on as. */
  lemma AsAck(image: Text, st: State, ev: Event)
    ensures var ack := Ack(FlowOf(ev), FlagOf(ev));
      Advances(st, ack) == Advances(st, ev) && Finishes(st, ack) == Finishes(st, ev)
      && Step(image, st, ack) == Step(image, st, ev)
  {
  }

  /** A finished client stays as it is, and counting a block changes only the sums. */
  lemma StepOutline(image: Text, st: State, ev: Event)
    ensures !st.upgrade ==> Step(image, st, ev) == st
    ensures Advances(st, ev) && st.currentLen < st.imageLen ==>
      (var m := st.(currentLen := st.currentLen + BLOCK, flowNo := NextFlow(st.flowNo));
       Step(image, st, ev) == Counted(image, m) && Counted(image, m).currentLen == m.currentLen
       && Counted(image, m).imageLen == m.imageLen)
  {
    hide ReadBlock, ByteSum, XorAll, NextFlow;
  }

  lemma SoundBlock(image: Text, st: State)
    requires Sound(image, st)
    ensures st.flowNo < FLOW_LIMIT && st.imageLen <= PaddedLength(|image|) && st.currentLen <= PaddedLength(|image|)
    ensures st.currentLen != 0 ==> BLOCK <= st.currentLen <= |image| + BLOCK
  {
    hide SumsCover;
  }
}
