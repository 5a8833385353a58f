/** The firmware sender of tools/rtu8002_upgrade.py: what one acknowledgement or timeout does to a
    client, and what every run of them amounts to. */
module Sender8002 {
  import opened Bits
  import opened CText
  import opened Options

  const BLOCK: nat := 512
  const FLOW_LIMIT: nat := 0xF0

  // ----- sums -----

  function ByteXor(a: Byte, b: Byte): (r: Byte)
    ensures Xor(r, b) == a
  {
    XorCancels(a, b);
    EightBits();
    XorBounded(a, b, 8);
    Xor(a, b)
  }

  function ByteSum(s: Text): nat {
    if s == [] then 0 else ByteSum(s[..|s| - 1]) + s[|s| - 1]
  }

  /** A 16-bit word from its low and its high byte. */
  function WordOf(lo: Byte, hi: Byte): nat {
    lo + 256 * hi
  }

  /** The exclusive or of the little-endian 16-bit words. */
  function XorSum(s: Text): nat
    requires |s| % 2 == 0
  {
    if s == [] then 0 else Xor(XorSum(s[..|s| - 2]), WordOf(s[|s| - 2], s[|s| - 1]))
  }

  // ----- the image -----

  /** The image size rounded up to whole blocks. */
  function PaddedLength(n: nat): (r: nat)
    ensures r % BLOCK == 0 && n <= r < n + BLOCK
  {
    if n % BLOCK != 0 then n - n % BLOCK + BLOCK else n
  }

  function Zeros(n: nat): (r: Text)
    ensures |r| == n && forall i :: 0 <= i < n ==> r[i] == 0
  {
    seq(n, _ => 0)
  }

  function Padded(image: Text): (r: Text)
    ensures |r| == PaddedLength(|image|)
  {
    image + Zeros(PaddedLength(|image|) - |image|)
  }

  function Blocks(image: Text): nat {
    PaddedLength(|image|) / BLOCK
  }

  /** `seek(at)`, `read(512)` and the zeros appended to a short read. */
  function ReadBlock(image: Text, at: nat): (r: Text)
    requires at <= |image|
    ensures |r| == BLOCK
  {
    var data := image[at..Min(at + BLOCK, |image|)];
    data + Zeros(BLOCK - |data|)
  }

  lemma ReadIsPadded(image: Text, at: nat)
    requires at % BLOCK == 0 && at < PaddedLength(|image|)
    ensures at <= |image| && at + BLOCK <= PaddedLength(|image|)
    ensures ReadBlock(image, at) == Padded(image)[at..at + BLOCK]
  {
  }

  // ----- the payload -----

  /** The first byte as it is, the others with the first byte and 0x55 mixed in. */
  function Encoded(data: Text): (r: Text)
    requires data != []
    ensures |r| == |data|
  {
    var encrypt := ByteXor(data[0], 0x55);
    [data[0]] + Mixed(data[1..], encrypt)
  }

  function Mixed(data: Text, key: Byte): (r: Text)
    ensures |r| == |data| && forall i :: 0 <= i < |r| ==> r[i] == ByteXor(data[i], key)
  {
    seq(|data|, i requires 0 <= i < |data| => ByteXor(data[i], key))
  }

  lemma EncodedBytes(data: Text)
    requires data != []
    ensures Encoded(data)[0] == data[0]
    ensures forall k :: 0 < k < |data| ==> Encoded(data)[k] == Xor(data[k], Xor(data[0], 0x55))
  {
  }

  /** Encoding twice gives the data back, so the receiver decodes by the same rule. */
  lemma EncodedTwice(data: Text)
    requires data != []
    ensures Encoded(Encoded(data)) == data
  {
    hide Xor;
    var key := ByteXor(data[0], 0x55);
    var once := Encoded(data);
    assert once[1..] == Mixed(data[1..], key);
    assert data == [data[0]] + data[1..];
    forall i | 0 <= i < |data| - 1 ensures ByteXor(ByteXor(data[1..][i], key), key) == data[1..][i] {
      MixedTwice(data[1..][i], key);
    }
    assert Mixed(Mixed(data[1..], key), key) == data[1..];
  }

  lemma MixedTwice(x: Byte, key: Byte)
    ensures ByteXor(ByteXor(x, key), key) == x
  {
    hide Xor;
    assert Xor(ByteXor(x, key), key) == x;
  }

  // ----- one event -----

  /** A received acknowledgement with its flow number and flag, or a client that has been silent. */
  datatype Event = Ack(flow: Byte, flag: Byte) | Timeout

  datatype State = State(flowNo: nat, imageLen: nat, currentLen: nat, sum0: nat, sum1: nat, upgrade: bool)

  function Start(image: Text): State {
    State(1, PaddedLength(|image|), 0, 0, 0, true)
  }

  /** `sndImageData` passes a timeout on as flow number 0 and flag 6. */
  function FlowOf(ev: Event): Byte {
    if ev.Ack? then ev.flow else 0
  }

  function FlagOf(ev: Event): Byte {
    if ev.Ack? then ev.flag else 6
  }

  predicate Advances(st: State, ev: Event) {
    st.upgrade && FlowOf(ev) == st.flowNo && st.imageLen != 0 && FlagOf(ev) <= 2
  }

  predicate Finishes(st: State, ev: Event) {
    st.upgrade && FlowOf(ev) == st.flowNo && FlagOf(ev) == 3
  }

  /** What moves a client on, and what ends its upgrade: an acknowledgement with the expected flow
      number and one of the flags 0, 1 and 2, or with the flag 3. */
  lemma AcksExactly(st: State, ev: Event)
    ensures Advances(st, ev)
        <==> st.upgrade && st.imageLen != 0 && ev.Ack? && ev.flow == st.flowNo && ev.flag in [0, 1, 2]
    ensures Finishes(st, ev) <==> st.upgrade && ev.Ack? && ev.flow == st.flowNo && ev.flag == 3
  {
  }

  function NextFlow(flow: nat): nat {
    if flow + 1 >= FLOW_LIMIT then 1 else flow + 1
  }

  /** What one event does to the client; nothing, unless it carries the expected flow number. */
  function Step(image: Text, st: State, ev: Event): State {
    if Advances(st, ev) then
      if st.currentLen >= st.imageLen then
        st.(currentLen := st.imageLen, imageLen := 0, flowNo := NextFlow(st.flowNo))
      else
        Counted(image, st.(currentLen := st.currentLen + BLOCK, flowNo := NextFlow(st.flowNo)))
    else if Finishes(st, ev) then st.(upgrade := false)
    else st
  }

  /** The block just moved to, added to both sums. */
  function Counted(image: Text, st: State): State {
    if BLOCK <= st.currentLen <= |image| + BLOCK then
      var data := ReadBlock(image, st.currentLen - BLOCK);
      st.(sum0 := st.sum0 + ByteSum(data), sum1 := XorAll(st.sum1, data))
    else st
  }

  /** `^=` with each word of the data in turn. */
  function XorAll(acc: nat, s: Text): nat
    requires |s| % 2 == 0
  {
    if s == [] then acc else Xor(XorAll(acc, s[..|s| - 2]), WordOf(s[|s| - 2], s[|s| - 1]))
  }

  /** The client after a sequence of events. */
  function Run(image: Text, es: seq<Event>): State {
    if es == [] then Start(image)
    else Step(image, Run(image, es[..|es| - 1]), es[|es| - 1])
  }

  /** How many of the events were acknowledgements that moved the client on. */
  function Matched(image: Text, es: seq<Event>): nat {
    if es == [] then 0
    else
      var before := es[..|es| - 1];
      Matched(image, before) + if Advances(Run(image, before), es[|es| - 1]) then 1 else 0
  }

  // ----- what a run amounts to -----

  /** The bytes covered after n matching acknowledgements. */
  function Covered(image: Text, n: nat): (r: Text)
    ensures |r| == BLOCK * Min(n, Blocks(image)) && |r| % 2 == 0
  {
    Padded(image)[..BLOCK * Min(n, Blocks(image))]
  }

  /** The client after n matching acknowledgements, whatever else arrived. */
  function After(image: Text, n: nat, upgrade: bool): State {
    State(
      1 + n % (FLOW_LIMIT - 1),
      if n <= Blocks(image) then PaddedLength(|image|) else 0,
      |Covered(image, n)|,
      ByteSum(Covered(image, n)),
      XorSum(Covered(image, n)),
      upgrade)
  }

  lemma {:induction false} SumJoin(a: Text, b: Text)
    ensures ByteSum(a + b) == ByteSum(a) + ByteSum(b)
    decreases |b|
  {
    if b == [] {
      assert a + b == a;
    } else {
      SumJoin(a, b[..|b| - 1]);
      assert (a + b)[..|a + b| - 1] == a + b[..|b| - 1];
    }
  }

  lemma {:induction false} XorJoin(a: Text, b: Text)
    requires |a| % 2 == 0 && |b| % 2 == 0
    ensures XorSum(a + b) == XorAll(XorSum(a), b)
    decreases |b|
  {
    hide Xor;
    if b == [] {
      assert a + b == a;
    } else {
      XorJoin(a, b[..|b| - 2]);
      assert (a + b)[..|a + b| - 2] == a + b[..|b| - 2];
    }
  }

  /** Moving on by one block covers exactly the block that was read. */
  lemma CoveredMore(image: Text, n: nat)
    requires n < Blocks(image)
    ensures |Covered(image, n)| == BLOCK * n < PaddedLength(|image|) && BLOCK * n <= |image|
    ensures Covered(image, n + 1) == Covered(image, n) + ReadBlock(image, BLOCK * n)
  {
    ReadIsPadded(image, BLOCK * n);
    assert Padded(image)[..BLOCK * (n + 1)] == Padded(image)[..BLOCK * n] + Padded(image)[BLOCK * n..BLOCK * n + BLOCK];
  }

  lemma CoveredAll(image: Text, n: nat)
    requires n >= Blocks(image)
    ensures Covered(image, n) == Padded(image)
  {
  }

  lemma FlowAfter(n: nat)
    ensures NextFlow(1 + n % (FLOW_LIMIT - 1)) == 1 + (n + 1) % (FLOW_LIMIT - 1)
  {
  }

  /** One event, seen from the closed form. */
  lemma StepAfter(image: Text, n: nat, upgrade: bool, ev: Event)
    requires n <= Blocks(image) + 1
    ensures var st := After(image, n, upgrade);
      if Advances(st, ev) then n <= Blocks(image) && Step(image, st, ev) == After(image, n + 1, upgrade)
      else Step(image, st, ev) == After(image, n, upgrade && !Finishes(st, ev))
  {
    hide ByteSum, XorSum, XorAll, Padded, Covered, ReadBlock;
    var st := After(image, n, upgrade);
    FlowAfter(n);
    if Advances(st, ev) {
      if n < Blocks(image) {
        CoveredMore(image, n);
        SumJoin(Covered(image, n), ReadBlock(image, BLOCK * n));
        XorJoin(Covered(image, n), ReadBlock(image, BLOCK * n));
      } else {
        CoveredAll(image, n);
        CoveredAll(image, n + 1);
      }
    }
  }

  /** Over every run of acknowledgements, stale acknowledgements and timeouts, the client is where
      the number of matching acknowledgements puts it: each block is counted once. */
  lemma {:induction false} RunReaches(image: Text, es: seq<Event>)
    ensures var n := Matched(image, es);
      n <= Blocks(image) + 1 && Run(image, es) == After(image, n, Run(image, es).upgrade)
    decreases |es|
  {
    hide After, Step, Advances;
    if es == [] {
      AtStart(image);
    } else {
      var before := es[..|es| - 1];
      RunReaches(image, before);
      StepAfter(image, Matched(image, before), Run(image, before).upgrade, es[|es| - 1]);
      AfterUpgrade(image, Matched(image, es), Run(image, es));
    }
  }

  lemma AtStart(image: Text)
    ensures Start(image) == After(image, 0, true)
  {
  }

  lemma AfterUpgrade(image: Text, n: nat, st: State)
    requires exists u :: st == After(image, n, u)
    ensures st == After(image, n, st.upgrade)
  {
  }

  /** Flow numbers stay in 1..0xEF, the position is a whole block of the image, and the sums cover
      exactly what lies before it. */
  predicate Sound(image: Text, st: State) {
    && 1 <= st.flowNo < FLOW_LIMIT
    && (st.imageLen == PaddedLength(|image|) || (st.imageLen == 0 && st.currentLen == PaddedLength(|image|)))
    && st.currentLen % BLOCK == 0 && st.currentLen <= PaddedLength(|image|)
    && SumsCover(st, Padded(image)[..st.currentLen])
  }

  predicate SumsCover(st: State, s: Text) {
    |s| % 2 == 0 && st.sum0 == ByteSum(s) && st.sum1 == XorSum(s)
  }

  /** The invariants of a client over every run. */
  lemma RunInvariant(image: Text, es: seq<Event>)
    ensures Sound(image, Run(image, es))
  {
    hide After, Sound;
    RunReaches(image, es);
    AfterSound(image, Matched(image, es), Run(image, es).upgrade);
  }

  lemma AfterSound(image: Text, n: nat, upgrade: bool)
    requires n <= Blocks(image) + 1
    ensures Sound(image, After(image, n, upgrade))
  {
    hide ByteSum, XorSum, Padded;
    assert Padded(image)[..|Covered(image, n)|] == Covered(image, n);
  }

  /** The two byte sums fit what the packet says of them: the second needs no mask. */
  lemma {:induction false} XorSumFits(s: Text)
    requires |s| % 2 == 0
    ensures XorSum(s) < 0x10000
    decreases |s|
  {
    hide Xor, Power2;
    SixteenBits();
    if s != [] {
      XorSumFits(s[..|s| - 2]);
      XorBounded(XorSum(s[..|s| - 2]), WordOf(s[|s| - 2], s[|s| - 1]), 16);
    }
  }

  /** The exclusive or of the bytes at the even (0) or the odd (1) positions. */
  function XorLane(s: Text, lane: nat): nat
    requires |s| % 2 == 0 && lane < 2
  {
    if s == [] then 0 else Xor(XorLane(s[..|s| - 2], lane), s[|s| - 2 + lane])
  }

  /** The bytes at even positions give the low byte of the second sum, the others its high byte. */
  lemma {:induction false} XorSumLanes(s: Text)
    requires |s| % 2 == 0
    ensures XorLane(s, 0) < 256 && XorSum(s) == XorLane(s, 0) + 256 * XorLane(s, 1)
    decreases |s|
  {
    hide Xor, Power2;
    if s != [] {
      var (t, lo, hi) := (s[..|s| - 2], s[|s| - 2], s[|s| - 1]);
      XorSumLanes(t);
      EightBits();
      XorBounded(XorLane(t, 0), lo, 8);
      XorSplit(XorLane(t, 0), XorLane(t, 1), lo, hi, 8);
    }
  }

  lemma SixteenBits()
    ensures Power2(16) == 0x10000
  {
    EightBits();
    assert Power2(10) == 0x400;
    assert Power2(12) == 0x1000;
    assert Power2(14) == 0x4000;
  }

  // ----- packets -----

  datatype Packet = Packet(flowNo: nat, imageLen: nat, currentLen: nat, payload: Text)

  /** Both sums, 16 bits each, low byte first. */
  function SumBytes(st: State): (r: Text)
    ensures |r| == 4
  {
    [st.sum0 % 256, st.sum0 / 256 % 256, st.sum1 % 256, st.sum1 / 256 % 256]
  }

  function Payload(image: Text, st: State): (r: Text)
    ensures |r| == BLOCK
  {
    if st.currentLen == 0 then Zeros(BLOCK)
    else if st.imageLen == 0 then SumBytes(st) + Zeros(BLOCK - 4)
    else if BLOCK <= st.currentLen <= |image| + BLOCK then Encoded(ReadBlock(image, st.currentLen - BLOCK))
    else Encoded(Zeros(BLOCK))
  }

  function PacketOf(image: Text, st: State): Packet {
    Packet(st.flowNo, st.imageLen, st.currentLen, Payload(image, st))
  }

  /** The packet sent in answer to an event. */
  function Answer(image: Text, st: State, ev: Event): Option<Packet> {
    if !st.upgrade || (Finishes(st, ev) && !Advances(st, ev)) then None
    else Some(PacketOf(image, Step(image, st, ev)))
  }

  /** The answer to an event after a run. */
  function AnswerAfter(image: Text, es: seq<Event>, ev: Event): Option<Packet> {
    Answer(image, Run(image, es), ev)
  }

  predicate IsChecksum(p: Packet) {
    p.imageLen == 0 && p.currentLen != 0
  }

  lemma RunMore(image: Text, es: seq<Event>, ev: Event)
    ensures Run(image, es + [ev]) == Step(image, Run(image, es), ev)
    ensures Matched(image, es + [ev]) == Matched(image, es) + if Advances(Run(image, es), ev) then 1 else 0
  {
    assert (es + [ev])[..|es|] == es;
  }

  /** The first four bytes are the byte sum and the exclusive or of s, 16 bits each. */
  predicate CarriesSums(payload: Text, s: Text) {
    && |payload| == BLOCK && |s| % 2 == 0
    && payload[0] == ByteSum(s) % 256 && payload[1] == ByteSum(s) / 256 % 256
    && payload[2] == XorSum(s) % 256 && payload[3] == XorSum(s) / 256
  }

  /** No packet answers an event exactly if the upgrade is over after it. */
  lemma Silent(image: Text, es: seq<Event>, ev: Event)
    ensures AnswerAfter(image, es, ev).None? <==> !Run(image, es + [ev]).upgrade
  {
    hide Run, PacketOf, ReadBlock, ByteSum, XorAll;
    RunMore(image, es, ev);
  }

  /** The checksum packet is sent exactly from the matching acknowledgement that follows the last
      block, the (blocks+1)-th, and it carries the sums of the whole zero-padded image. */
  lemma ChecksumExactly(image: Text, es: seq<Event>, ev: Event)
    requires AnswerAfter(image, es, ev).Some?
    ensures var p := AnswerAfter(image, es, ev).value;
      && (IsChecksum(p) <==> Matched(image, es + [ev]) == Blocks(image) + 1)
      && (IsChecksum(p) ==> p.currentLen == PaddedLength(|image|) && CarriesSums(p.payload, Padded(image)))
  {
    hide ByteSum, XorSum, Padded, Covered, Step, Run, Matched, Encoded, ReadBlock;
    RunMore(image, es, ev);
    RunReaches(image, es + [ev]);
    var n := Matched(image, es + [ev]);
    if image == [] { EmptyImage(es + [ev], ev); }
    if n == Blocks(image) + 1 {
      CoveredAll(image, n);
      XorSumFits(Padded(image));
    }
  }

  /** An empty image is never moved on: the sender keeps offering the empty start packet. */
  lemma {:induction false} EmptyImage(es: seq<Event>, ev: Event)
    ensures Matched([], es) == 0
    ensures var a := AnswerAfter([], es, ev);
      a.Some? ==> a.value == Packet(1, 0, 0, Zeros(BLOCK))
    decreases |es|
  {
    if es != [] {
      EmptyImage(es[..|es| - 1], es[|es| - 1]);
    }
    RunReaches([], es);
    hide Zeros;
  }

  /** Acknowledgements that follow the sender, as a device that receives every packet sends them. */
  function Acknowledgements(n: nat): (es: seq<Event>)
    ensures |es| == n
  {
    if n == 0 then [] else Acknowledgements(n - 1) + [Ack(1 + (n - 1) % (FLOW_LIMIT - 1), 0)]
  }

  /** Each of them moves a client with a non-empty image on, up to the checksum packet. */
  lemma {:induction false} EveryBlockReached(image: Text, n: nat)
    requires image != [] && n <= Blocks(image) + 1
    ensures Matched(image, Acknowledgements(n)) == n
    ensures Run(image, Acknowledgements(n)) == After(image, n, true)
    decreases n
  {
    hide ByteSum, XorSum, Padded, Covered, Step, Run, Matched;
    if n == 0 {
      AtStart(image);
      assert Run(image, []) == Start(image) && Matched(image, []) == 0 by { Nothing(image); }
    } else {
      var ev := Ack(1 + (n - 1) % (FLOW_LIMIT - 1), 0);
      EveryBlockReached(image, n - 1);
      RunMore(image, Acknowledgements(n - 1), ev);
      StepAfter(image, n - 1, true, ev);
    }
  }

  lemma Nothing(image: Text)
    ensures Run(image, []) == Start(image) && Matched(image, []) == 0
  {
  }

  /** Every packet sent, by the number of matching acknowledgements: the start packet, then the block
      last reached, then the checksum packet with nothing but zeros behind the sums. */
  lemma PacketSent(image: Text, es: seq<Event>, ev: Event)
    requires AnswerAfter(image, es, ev).Some?
    ensures var (p, n) := (AnswerAfter(image, es, ev).value, Matched(image, es + [ev]));
      && n <= Blocks(image) + 1 && p.flowNo == 1 + n % 239
      && (n == 0 ==> p == Packet(1, PaddedLength(|image|), 0, Zeros(512)))
      && (0 < n <= Blocks(image) ==> CarriesBlock(image, p, n))
      && (n == Blocks(image) + 1 ==> IsChecksum(p) && p.payload[4..] == Zeros(508))
  {
    hide ByteSum, XorSum, Padded, Covered, Step, Run, Matched, Encoded, ReadBlock, CarriesBlock;
    RunMore(image, es, ev);
    RunReaches(image, es + [ev]);
    ChecksumExactly(image, es, ev);
    var n := Matched(image, es + [ev]);
    if 0 < n <= Blocks(image) {
      BlockAfter(image, n, Run(image, es + [ev]).upgrade);
    }
  }

  /** Some run brings the sender to its checksum packet exactly if the image is not empty. */
  lemma Completes(image: Text)
    ensures (exists es :: Matched(image, es) == Blocks(image) + 1) <==> image != []
  {
    hide Matched;
    if image != [] {
      EveryBlockReached(image, Blocks(image) + 1);
    } else {
      forall es ensures Matched(image, es) == 0 {
        EmptyImage(es, Timeout);
      }
    }
  }

  /** An event that neither moves the client on nor ends the upgrade changes nothing, and is answered
      with the packet that was sent last. */
  lemma StaleRepeats(image: Text, es: seq<Event>, last: Event, ev: Event)
    requires Run(image, es + [last]).upgrade
    requires !Advances(Run(image, es + [last]), ev) && !Finishes(Run(image, es + [last]), ev)
    ensures Run(image, es + [last] + [ev]) == Run(image, es + [last])
    ensures AnswerAfter(image, es + [last], ev) == AnswerAfter(image, es, last)
  {
    hide PacketOf;
    RunMore(image, es, last);
    RunMore(image, es + [last], ev);
  }

  lemma MatchedMonotone(image: Text, es: seq<Event>, k: nat)
    requires es != [] && Matched(image, es[..|es| - 1]) < k <= Matched(image, es)
    ensures Advances(Run(image, es[..|es| - 1]), es[|es| - 1]) && k == Matched(image, es)
  {
  }

  /** The k-th block, as the receiver decodes it. */
  predicate CarriesBlock(image: Text, p: Packet, k: nat) {
    0 < k <= Blocks(image) && p.currentLen == BLOCK * k && p.imageLen == PaddedLength(|image|)
    && p.payload != [] && Encoded(p.payload) == Padded(image)[BLOCK * (k - 1)..BLOCK * k]
  }

  /** Every block up to the one reached has been sent, with the bytes of the padded image. */
  lemma {:induction false} BlocksSent(image: Text, es: seq<Event>, k: nat)
    requires 0 < k <= Blocks(image) && k <= Matched(image, es)
    ensures exists j :: 0 <= j < |es| && SentAt(image, es, j, k)
    decreases |es|
  {
    hide Run, Advances;
    var before := es[..|es| - 1];
    if k <= Matched(image, before) {
      BlocksSent(image, before, k);
      var j :| 0 <= j < |before| && SentAt(image, before, j, k);
      assert before[..j] == es[..j];
      assert SentAt(image, es, j, k);
    } else {
      MatchedMonotone(image, es, k);
      BlockAnswered(image, before, es[|es| - 1], k);
      assert SentAt(image, es, |es| - 1, k);
    }
  }

  /** The answer to the j-th event carried the k-th block. */
  predicate SentAt(image: Text, es: seq<Event>, j: nat, k: nat)
    requires j < |es|
  {
    var a := AnswerAfter(image, es[..j], es[j]);
    a.Some? && CarriesBlock(image, a.value, k)
  }

  lemma BlockAnswered(image: Text, es: seq<Event>, ev: Event, k: nat)
    requires 0 < k <= Blocks(image) && Advances(Run(image, es), ev) && k == Matched(image, es) + 1
    ensures var a := AnswerAfter(image, es, ev);
      a.Some? && CarriesBlock(image, a.value, k)
  {
    hide Run, Matched, After, CarriesBlock, Step, PacketOf;
    RunMore(image, es, ev);
    RunReaches(image, es + [ev]);
    BlockAfter(image, k, Run(image, es + [ev]).upgrade);
  }

  lemma BlockAfter(image: Text, k: nat, upgrade: bool)
    requires 0 < k <= Blocks(image)
    ensures CarriesBlock(image, PacketOf(image, After(image, k, upgrade)), k)
  {
    hide ByteSum, XorSum, Padded, Covered, Encoded, ReadBlock;
    CoveredMore(image, k - 1);
    ReadIsPadded(image, BLOCK * (k - 1));
    EncodedTwice(ReadBlock(image, BLOCK * (k - 1)));
  }
}
