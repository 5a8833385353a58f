/** The CRC-16 of Modbus RTU: the bitwise form of tools/demo_modbus_rtu.py, and what the
    checksum detects. */
module Crc16 {

  /** One shift of the register to the right; the bit shifted out turns over the bits of the generator. */
  function BitStep(a: bv16): bv16 {
    if a & 1 == 1 then (a >> 1) ^ 0xA001 else a >> 1
  }

  function Xor(a: bv16, b: bv16): bv16 { a ^ b }

  function Steps(a: bv16, n: nat): bv16
    decreases n
  {
    if n == 0 then a else Steps(BitStep(a), n - 1)
  }

  function ByteStep(a: bv16, v: bv8): bv16 {
    Steps(Xor(a, v as bv16), 8)
  }

  /** The register after a message, started from a. */
  function Run(a: bv16, msg: seq<bv8>): bv16
    decreases |msg|
  {
    if msg == [] then a else Run(ByteStep(a, msg[0]), msg[1..])
  }

  const INIT: bv16 := 0xFFFF

  /** The checksum of a message, as a register value. */
  function Crc(msg: seq<bv8>): bv16 {
    Run(INIT, msg)
  }

  /** The published check value of this CRC: the checksum of the nine digits "123456789". */
  lemma CheckValue()
    ensures Crc([]) == 0xFFFF
    ensures Crc([0x31, 0x32, 0x33, 0x34, 0x35, 0x36, 0x37, 0x38, 0x39]) == 0x4B37
  {
    hide Run, ByteStep;
    var s: seq<bv8> := [0x31, 0x32, 0x33, 0x34, 0x35, 0x36, 0x37, 0x38, 0x39];
    var registers: seq<bv16> := [0xFFFF, 0x947E, 0xF595, 0x7A75, 0x30BA, 0xA471, 0x32E4, 0x9D73, 0x37DD, 0x4B37];
    DigitSteps();
    RunsAlong(s, registers, 0);
    RunsOut(0xFFFF);
    assert s[0..] == s;
  }

  lemma DigitSteps()
    ensures ByteStep(0xFFFF, 0x31) == 0x947E
    ensures ByteStep(0x947E, 0x32) == 0xF595
    ensures ByteStep(0xF595, 0x33) == 0x7A75
    ensures ByteStep(0x7A75, 0x34) == 0x30BA
    ensures ByteStep(0x30BA, 0x35) == 0xA471
    ensures ByteStep(0xA471, 0x36) == 0x32E4
    ensures ByteStep(0x32E4, 0x37) == 0x9D73
    ensures ByteStep(0x9D73, 0x38) == 0x37DD
    ensures ByteStep(0x37DD, 0x39) == 0x4B37
  {
  }

  lemma RunsOut(a: bv16)
    ensures Run(a, []) == a
  {
  }

  /** A message leads along the registers its bytes step through. */
  lemma {:induction false} RunsAlong(s: seq<bv8>, registers: seq<bv16>, i: nat)
    requires i <= |s| && |registers| == |s| + 1
    requires forall k :: 0 <= k < |s| ==> ByteStep(registers[k], s[k]) == registers[k + 1]
    ensures Run(registers[i], s[i..]) == registers[|s|]
    decreases |s| - i
  {
    hide ByteStep;
    if i < |s| {
      RunsAlong(s, registers, i + 1);
      assert s[i..][1..] == s[i + 1..];
    }
  }

  function LowByte(a: bv16): bv8 { (a & 0xFF) as bv8 }

  function HighByte(a: bv16): bv8 { (a >> 8) as bv8 }

  /** `crc16` of tools/demo_modbus_rtu.py: eight shifts per byte, low byte first in the result. */
  method BitwiseCrc16(x: seq<bv8>) returns (r: seq<bv8>)
    ensures r == [LowByte(Crc(x)), HighByte(Crc(x))]
  {
    var a: bv16 := INIT;
    for i := 0 to |x|
      invariant Run(a, x[i..]) == Crc(x)
    {
      ghost var a0 := a;
      a := a ^ x[i] as bv16;
      for j := 0 to 8
        invariant Steps(a, 8 - j) == ByteStep(a0, x[i])
      {
        var last := a & 1;
        a := a >> 1;
        if last == 1 { a := a ^ 0xA001; }
      }
      assert x[i..][1..] == x[i + 1..];
    }
    return [(a & 0xFF) as bv8, ((a >> 8) & 0xFF) as bv8];
  }

  // ----- the register is linear and loses nothing -----

  lemma BitStepXor(x: bv16, y: bv16)
    ensures BitStep(Xor(x, y)) == Xor(BitStep(x), BitStep(y))
  {
    hide BitStep;
    BitStepLinear(x, y);
  }

  lemma BitStepLinear(x: bv16, y: bv16)
    ensures BitStep(x ^ y) == BitStep(x) ^ BitStep(y)
  {
    XorParts(x, y);
    if x & 1 == 1 {
      if y & 1 == 1 {
        XorTwice(x >> 1, y >> 1, 0xA001);
      } else {
        XorMiddle(x >> 1, 0xA001, y >> 1);
      }
    } else if y & 1 == 1 {
      XorRight(x >> 1, y >> 1, 0xA001);
    }
  }

  lemma XorParts(x: bv16, y: bv16)
    ensures (x ^ y) & 1 == 1 <==> (x & 1 == 1) != (y & 1 == 1)
    ensures (x ^ y) >> 1 == (x >> 1) ^ (y >> 1)
  {
  }

  lemma XorTwice(a: bv16, b: bv16, c: bv16)
    ensures (a ^ c) ^ (b ^ c) == a ^ b
  {
  }

  lemma XorMiddle(a: bv16, b: bv16, c: bv16)
    ensures (a ^ b) ^ c == (a ^ c) ^ b
  {
  }

  lemma XorRight(a: bv16, b: bv16, c: bv16)
    ensures a ^ (b ^ c) == (a ^ b) ^ c
  {
  }

  lemma {:induction false} StepsXor(x: bv16, y: bv16, n: nat)
    ensures Steps(Xor(x, y), n) == Xor(Steps(x, n), Steps(y, n))
    decreases n
  {
    hide BitStep, Xor;
    if n > 0 {
      BitStepXor(x, y);
      StepsXor(BitStep(x), BitStep(y), n - 1);
    }
  }

  /** The shift can be undone: its top bit tells whether the constant was applied. */
  function BitStepBack(a: bv16): bv16 {
    if a & 0x8000 == 0 then a << 1 else ((a ^ 0xA001) << 1) | 1
  }

  lemma BitStepBackInverse(x: bv16)
    ensures BitStepBack(BitStep(x)) == x
  {
    if x & 1 == 1 {
      assert ((x >> 1) ^ 0xA001) & 0x8000 != 0;
    } else {
      assert (x >> 1) & 0x8000 == 0;
    }
  }

  // ----- the same register fed one bit at a time -----

  function BitOf(b: bool): bv16 { if b then 1 else 0 }

  function Feed(a: bv16, bits: seq<bool>): bv16
    decreases |bits|
  {
    if bits == [] then a else Feed(BitStep(Xor(a, BitOf(bits[0]))), bits[1..])
  }

  function Odd(x: bv16): bool { x & 1 == 1 }

  function Half(x: bv16): bv16 { x >> 1 }

  /** The n low bits of x, least significant first: the order in which a UART sends them. */
  function BitsOf(x: bv16, n: nat): (r: seq<bool>)
    ensures |r| == n
    decreases n
  {
    if n == 0 then [] else [Odd(x)] + BitsOf(Half(x), n - 1)
  }

  function Shift(x: bv16, n: nat): bv16
    decreases n
  {
    if n == 0 then x else Shift(Half(x), n - 1)
  }

  function MsgBits(msg: seq<bv8>): (r: seq<bool>)
    ensures |r| == 8 * |msg|
  {
    if msg == [] then [] else BitsOf(msg[0] as bv16, 8) + MsgBits(msg[1..])
  }

  lemma {:induction false} FeedAppend(a: bv16, p: seq<bool>, q: seq<bool>)
    ensures Feed(a, p + q) == Feed(Feed(a, p), q)
    decreases |p|
  {
    if p == [] {
      assert p + q == q;
    } else {
      assert (p + q)[1..] == p[1..] + q;
      FeedAppend(BitStep(Xor(a, BitOf(p[0]))), p[1..], q);
    }
  }

  lemma LowBit(x: bv16)
    ensures BitOf(Odd(x)) == x & 1 && Half(x) == x >> 1
  {
  }

  /** Feeding a bit now or having its word combined in advance makes no difference. */
  lemma StepAhead(s: bv16, x: bv16)
    ensures Xor(BitStep(Xor(s, BitOf(Odd(x)))), Half(x)) == BitStep(Xor(s, x))
  {
    hide BitStep, Odd, Half, BitOf;
    LowBit(x);
    StepAheadBits(s, x);
  }

  lemma StepAheadBits(s: bv16, x: bv16)
    ensures BitStep(s ^ (x & 1)) ^ (x >> 1) == BitStep(s ^ x)
  {
    SameLowBit(s, x);
    ShiftedXor(s, x);
    if (s ^ x) & 1 == 1 {
      XorMiddle(s >> 1, 0xA001, x >> 1);
    }
  }

  lemma SameLowBit(s: bv16, x: bv16)
    ensures (s ^ (x & 1)) & 1 == (s ^ x) & 1
  {
  }

  lemma ShiftedXor(s: bv16, x: bv16)
    ensures (s ^ (x & 1)) >> 1 == s >> 1
    ensures (s ^ x) >> 1 == (s >> 1) ^ (x >> 1)
  {
  }

  lemma {:induction false} FeedWord(s: bv16, x: bv16, n: nat)
    ensures Xor(Feed(s, BitsOf(x, n)), Shift(x, n)) == Steps(Xor(s, x), n)
    decreases n
  {
    hide BitStep, Xor, Odd, Half, BitOf;
    if n > 0 {
      assert BitsOf(x, n)[1..] == BitsOf(Half(x), n - 1);
      StepAhead(s, x);
      FeedWord(BitStep(Xor(s, BitOf(Odd(x)))), Half(x), n - 1);
    }
  }

  lemma XorZero(x: bv16)
    ensures Xor(x, 0) == x
  {
  }

  lemma ByteShiftedOut(v: bv8)
    ensures Shift(v as bv16, 8) == 0
  {
  }

  lemma {:induction false} RunIsFeed(a: bv16, msg: seq<bv8>)
    ensures Run(a, msg) == Feed(a, MsgBits(msg))
    decreases |msg|
  {
    hide Steps, Xor, BitStep;
    if msg != [] {
      var x := msg[0] as bv16;
      ByteShiftedOut(msg[0]);
      FeedWord(a, x, 8);
      XorZero(Feed(a, BitsOf(x, 8)));
      FeedAppend(a, BitsOf(x, 8), MsgBits(msg[1..]));
      RunIsFeed(ByteStep(a, msg[0]), msg[1..]);
    }
  }

  lemma {:induction false} FeedInjective(a: bv16, b: bv16, bits: seq<bool>)
    requires Feed(a, bits) == Feed(b, bits)
    ensures a == b
    decreases |bits|
  {
    hide BitStep, BitStepBack, Xor;
    if bits != [] {
      var d := BitOf(bits[0]);
      FeedInjective(BitStep(Xor(a, d)), BitStep(Xor(b, d)), bits[1..]);
      BitStepBackInverse(Xor(a, d));
      BitStepBackInverse(Xor(b, d));
      XorCancel(a, b, d);
    }
  }

  lemma XorCancel(a: bv16, b: bv16, d: bv16)
    requires Xor(a, d) == Xor(b, d)
    ensures a == b
  {
    assert (a ^ d) ^ d == a && (b ^ d) ^ d == b;
  }

  // ----- burst errors -----

  /** 2^k as a register value. */
  function Bound(k: nat): bv16
    requires k <= 15
  {
    [1, 2, 4, 8, 0x10, 0x20, 0x40, 0x80, 0x100, 0x200, 0x400, 0x800, 0x1000, 0x2000, 0x4000, 0x8000][k]
  }

  predicate SmallBound(x: bv16) { x <= 0x4000 }

  function Double(x: bv16): bv16 { x << 1 }

  lemma BoundDoubles(k: nat)
    requires k <= 14
    ensures SmallBound(Bound(k)) && Bound(k + 1) == Double(Bound(k))
  {
  }

  lemma BoundTop(k: nat)
    requires k <= 15
    ensures Bound(k) <= 0x8000
  {
  }

  predicate Less(x: bv16, y: bv16) { x < y }

  predicate Below(x: bv16, k: nat) {
    k <= 15 ==> Less(x, Bound(k))
  }

  /** Two equally long windows of at most 16 bits that leave the register equal: before the
      last k bits the registers differ by less than 2^k, and if they were equal at the start
      of the window then the windows are the same. */
  lemma {:induction false} WindowDetermined(a: bv16, b: bv16, v: seq<bool>, w: seq<bool>)
    requires |v| == |w| <= 16 && Feed(a, v) == Feed(b, w)
    ensures Below(Xor(a, b), |v|)
    ensures a == b ==> v == w
    decreases |v|
  {
    hide BitStep, Below, Xor;
    if v == [] {
      WindowEmpty(a);
    } else {
      var (x, y) := (Xor(a, BitOf(v[0])), Xor(b, BitOf(w[0])));
      WindowDetermined(BitStep(x), BitStep(y), v[1..], w[1..]);
      WindowStep(a, b, v[0], w[0], |v| - 1);
      if a == b {
        assert v == [v[0]] + v[1..] && w == [w[0]] + w[1..];
      }
    }
  }

  lemma WindowEmpty(a: bv16)
    ensures Below(Xor(a, a), 0)
  {
  }

  /** One bit further back: if the registers after bits c and d differ by less than 2^k, then
      their difference before them is that difference shifted up, plus that of the bits. */
  lemma WindowStep(a: bv16, b: bv16, c: bool, d: bool, k: nat)
    requires k <= 15
    requires Below(Xor(BitStep(Xor(a, BitOf(c))), BitStep(Xor(b, BitOf(d)))), k)
    ensures Below(Xor(a, b), k + 1)
    ensures a == b ==> c == d
  {
    hide Below, BitStep, Xor, BitOf, BitStepBack;
    var (x, y) := (Xor(a, BitOf(c)), Xor(b, BitOf(d)));
    BitStepXor(x, y);
    BitStepBackInverse(Xor(x, y));
    XorRegroup(a, b, BitOf(c), BitOf(d));
    SmallBack(Xor(BitStep(x), BitStep(y)), Xor(a, b), c, d, k);
    XorSelf(a);
  }

  lemma XorSelf(a: bv16)
    ensures Xor(a, a) == 0
  {
  }

  lemma XorComm(a: bv16, b: bv16)
    ensures Xor(a, b) == Xor(b, a)
  {
  }

  lemma XorAssoc(a: bv16, b: bv16, c: bv16)
    ensures Xor(a, Xor(b, c)) == Xor(Xor(a, b), c)
  {
  }

  lemma XorRegroup(a: bv16, b: bv16, c: bv16, d: bv16)
    ensures Xor(Xor(a, c), Xor(b, d)) == Xor(Xor(a, b), Xor(c, d))
  {
    hide Xor;
    XorAssoc(Xor(a, c), b, d);
    XorAssoc(a, c, b);
    XorComm(c, b);
    XorAssoc(a, b, c);
    XorAssoc(Xor(a, b), c, d);
  }

  lemma SmallBack(f: bv16, t: bv16, c: bool, d: bool, k: nat)
    requires k <= 15
    requires Below(f, k) && BitStepBack(f) == Xor(t, Xor(BitOf(c), BitOf(d)))
    ensures Below(t, k + 1)
    ensures t == 0 ==> c == d
  {
    hide Below, BitStepBack, Xor, BitOf, Double;
    NoFeedback(f, k);
    XorBits(c, d);
    XorMove(t, Xor(BitOf(c), BitOf(d)));
    DoubleBelow(f, k);
    if c != d {
      OddShift(f);
    }
  }

  lemma NoFeedback(f: bv16, k: nat)
    requires k <= 15 && Below(f, k)
    ensures BitStepBack(f) == Double(f)
  {
    hide Bound;
    BoundTop(k);
  }

  lemma DoubleBelow(f: bv16, k: nat)
    requires k <= 15 && Below(f, k)
    ensures Below(Xor(Double(f), 0), k + 1) && Below(Xor(Double(f), 1), k + 1)
  {
    hide Bound, Xor, Double, Less;
    if k <= 14 {
      BoundDoubles(k);
      DoubleLess(f, Bound(k));
    }
  }

  lemma DoubleLess(f: bv16, bound: bv16)
    requires Less(f, bound) && SmallBound(bound)
    ensures Less(Xor(Double(f), 0), Double(bound)) && Less(Xor(Double(f), 1), Double(bound))
  {
  }

  lemma XorBits(c: bool, d: bool)
    ensures Xor(BitOf(c), BitOf(d)) == if c == d then 0 else 1
  {
  }

  lemma XorMove(t: bv16, g: bv16)
    ensures Xor(Xor(t, g), g) == t
  {
  }

  lemma OddShift(f: bv16)
    ensures Xor(Double(f), 1) != 0
  {
  }

  // ----- what the checksum detects -----

  lemma {:induction false} MsgBitsAppend(p: seq<bv8>, q: seq<bv8>)
    ensures MsgBits(p + q) == MsgBits(p) + MsgBits(q)
    decreases |p|
  {
    hide BitsOf;
    if p == [] {
      assert p + q == q;
    } else {
      assert (p + q)[1..] == p[1..] + q;
      MsgBitsAppend(p[1..], q);
    }
  }

  lemma {:induction false} BitsOfInjective(x: bv16, y: bv16, n: nat)
    requires BitsOf(x, n) == BitsOf(y, n) && Shift(x, n) == Shift(y, n)
    ensures x == y
    decreases n
  {
    hide Odd, Half;
    if n > 0 {
      assert BitsOf(x, n)[1..] == BitsOf(Half(x), n - 1);
      assert BitsOf(y, n)[1..] == BitsOf(Half(y), n - 1);
      assert BitsOf(x, n)[0] == BitsOf(y, n)[0];
      BitsOfInjective(Half(x), Half(y), n - 1);
      SplitInjective(x, y);
    }
  }

  lemma SplitInjective(x: bv16, y: bv16)
    requires Half(x) == Half(y) && Odd(x) == Odd(y)
    ensures x == y
  {
  }

  lemma {:induction false} MsgBitsInjective(m: seq<bv8>, n: seq<bv8>)
    requires MsgBits(m) == MsgBits(n)
    ensures m == n
    decreases |m|
  {
    hide BitsOf, Shift;
    if m != [] {
      var (b, c) := (BitsOf(m[0] as bv16, 8), BitsOf(n[0] as bv16, 8));
      assert MsgBits(m)[..8] == b && MsgBits(n)[..8] == c;
      assert MsgBits(m)[8..] == MsgBits(m[1..]) && MsgBits(n)[8..] == MsgBits(n[1..]);
      ByteShiftedOut(m[0]);
      ByteShiftedOut(n[0]);
      BitsOfInjective(m[0] as bv16, n[0] as bv16, 8);
      SameByte(m[0], n[0]);
      MsgBitsInjective(m[1..], n[1..]);
      assert m == [m[0]] + m[1..] && n == [n[0]] + n[1..];
    }
  }

  lemma SameByte(v: bv8, w: bv8)
    requires v as bv16 == w as bv16
    ensures v == w
  {
  }

  /** Any burst of at most 16 transmitted bits, at any bit position, changes the checksum. */
  lemma BurstDetected(m: seq<bv8>, n: seq<bv8>, p: seq<bool>, v: seq<bool>, w: seq<bool>, s: seq<bool>)
    requires m != n && |v| == |w| <= 16
    requires MsgBits(m) == p + v + s && MsgBits(n) == p + w + s
    ensures Crc(m) != Crc(n)
  {
    hide *;
    if Crc(m) == Crc(n) {
      CrcIsFeed(m);
      CrcIsFeed(n);
      FeedAppend(INIT, p + v, s);
      FeedAppend(INIT, p + w, s);
      FeedInjective(Feed(INIT, p + v), Feed(INIT, p + w), s);
      FeedAppend(INIT, p, v);
      FeedAppend(INIT, p, w);
      WindowDetermined(Feed(INIT, p), Feed(INIT, p), v, w);
      MsgBitsInjective(m, n);
    }
  }

  /** The positions at which two windows differ. */
  function Differ(v: seq<bool>, w: seq<bool>): (r: seq<bool>)
    requires |v| == |w|
    ensures |r| == |v| && forall i :: 0 <= i < |r| ==> r[i] == (v[i] != w[i])
  {
    if v == [] then [] else [v[0] != w[0]] + Differ(v[1..], w[1..])
  }

  /** The generator polynomial, in transmission order: its leading bit and the constant of the shift. */
  function Generator(): (r: seq<bool>)
    ensures |r| == 17
  {
    [true] + BitsOf(0xA001, 16)
  }

  /** The register difference is what the differing bits alone leave in a cleared register. */
  lemma {:induction false} FeedDiffer(a: bv16, b: bv16, v: seq<bool>, w: seq<bool>)
    requires |v| == |w|
    ensures Xor(Feed(a, v), Feed(b, w)) == Feed(Xor(a, b), Differ(v, w))
    decreases |v|
  {
    hide BitStep, Xor, BitOf;
    if v != [] {
      var (x, y) := (Xor(a, BitOf(v[0])), Xor(b, BitOf(w[0])));
      FeedDiffer(BitStep(x), BitStep(y), v[1..], w[1..]);
      BitStepXor(x, y);
      XorRegroup(a, b, BitOf(v[0]), BitOf(w[0]));
      BitOfDiffer(v[0], w[0]);
      assert Differ(v, w)[1..] == Differ(v[1..], w[1..]);
    }
  }

  lemma BitOfDiffer(c: bool, d: bool)
    ensures Xor(BitOf(c), BitOf(d)) == BitOf(c != d)
  {
  }

  lemma OneStep(c: bool)
    ensures BitStep(Xor(0, BitOf(c))) == if c then 0xA001 else 0
  {
  }

  lemma {:induction false} ZeroSteps(n: nat)
    ensures Steps(0, n) == 0
  {
    if n > 0 { ZeroSteps(n - 1); }
  }

  lemma {:induction false} ZeroFeed(bits: seq<bool>)
    requires forall i :: 0 <= i < |bits| ==> !bits[i]
    ensures Feed(0, bits) == 0
    decreases |bits|
  {
    hide BitStep, Xor, BitOf;
    if bits != [] {
      OneStep(false);
      ZeroFeed(bits[1..]);
    }
  }

  /** The constant of the shift, fed into a register that holds it, clears the register. */
  lemma GeneratorCancels()
    ensures Feed(0xA001, BitsOf(0xA001, 16)) == 0
  {
    hide BitStep, Feed, BitsOf, Steps;
    FeedWord(0xA001, 0xA001, 16);
    ShiftedOut();
    XorSelf(0xA001);
    ZeroSteps(16);
    XorZero(Feed(0xA001, BitsOf(0xA001, 16)));
  }

  lemma ShiftedOut()
    ensures Shift(0xA001, 16) == 0
  {
    assert Shift(0xA001, 16) == Shift(0xA0, 8);
  }

  lemma FeedFront(e: seq<bool>)
    requires e != []
    ensures Feed(0, e) == Feed(if e[0] then 0xA001 else 0, e[1..])
  {
    OneStep(e[0]);
  }

  lemma ClearedFromConstant(rest: seq<bool>)
    requires |rest| == 16
    ensures Feed(0xA001, rest) == 0 <==> rest == BitsOf(0xA001, 16)
  {
    hide Feed, BitsOf;
    GeneratorCancels();
    if Feed(0xA001, rest) == 0 { WindowDetermined(0xA001, 0xA001, rest, BitsOf(0xA001, 16)); }
  }

  lemma ClearedFromZero(rest: seq<bool>)
    requires |rest| == 16
    ensures Feed(0, rest) == 0 <==> (forall i :: 0 <= i < 16 ==> !rest[i])
  {
    hide Feed;
    var none := seq(16, _ => false);
    ZeroFeed(none);
    if Feed(0, rest) == 0 { WindowDetermined(0, 0, rest, none); } else if rest == none { ZeroFeed(rest); }
  }

  /** A difference of 17 bits leaves a cleared register cleared exactly if it is the generator or
      nothing. */
  lemma ClearedByGenerator(e: seq<bool>)
    requires |e| == 17
    ensures Feed(0, e) == 0 <==> e == Generator() || (forall i :: 0 <= i < 17 ==> !e[i])
  {
    hide Feed, BitsOf;
    var rest := e[1..];
    assert e == [e[0]] + rest;
    FeedFront(e);
    if e[0] { ClearedFromConstant(rest); } else { ClearedFromZero(rest); }
  }

  /** A burst of 17 bits, at any bit position, goes undetected exactly if it is the generator. */
  lemma LongBurst(m: seq<bv8>, n: seq<bv8>, p: seq<bool>, v: seq<bool>, w: seq<bool>, s: seq<bool>)
    requires m != n && |v| == |w| == 17
    requires MsgBits(m) == p + v + s && MsgBits(n) == p + w + s
    ensures Crc(m) == Crc(n) <==> Differ(v, w) == Generator()
  {
    hide *;
    CrcIsFeed(m);
    CrcIsFeed(n);
    FeedAppend(INIT, p + v, s);
    FeedAppend(INIT, p + w, s);
    if Crc(m) == Crc(n) { FeedInjective(Feed(INIT, p + v), Feed(INIT, p + w), s); }
    FeedAppend(INIT, p, v);
    FeedAppend(INIT, p, w);
    var a := Feed(INIT, p);
    FeedDiffer(a, a, v, w);
    XorSelf(a);
    ClearedByGenerator(Differ(v, w));
    XorEqual(Feed(a, v), Feed(a, w));
    if forall i :: 0 <= i < 17 ==> !Differ(v, w)[i] {
      assert v == w;
      MsgBitsInjective(m, n);
    }
  }

  lemma XorBack(a: bv16, b: bv16)
    ensures Xor(Xor(a, b), b) == a && Xor(0, b) == b
  {
  }

  lemma XorEqual(a: bv16, b: bv16)
    ensures Xor(a, b) == 0 <==> a == b
  {
    hide Xor;
    XorBack(a, b);
    XorSelf(b);
  }

  const MISSED_0: seq<bv8> := [0x00, 0x00, 0x00]
  const MISSED_1: seq<bv8> := [0x03, 0x40, 0x01]

  /** So the bound of 16 bits is tight: these messages differ in such a burst and check the same. */
  lemma LongBurstMissed()
    ensures Crc(MISSED_0) == Crc(MISSED_1)
    ensures Differ(MsgBits(MISSED_0)[..17], MsgBits(MISSED_1)[..17]) == Generator()
    ensures MsgBits(MISSED_0)[17..] == MsgBits(MISSED_1)[17..]
  {
    hide Crc, Differ, Generator, Feed, BitsOf, MsgBits;
    SameCheck();
    SameTail();
    var (x, y) := (MsgBits(MISSED_0), MsgBits(MISSED_1));
    assert x == [] + x[..17] + x[17..] && y == [] + y[..17] + y[17..];
    LongBurst(MISSED_0, MISSED_1, [], x[..17], y[..17], x[17..]);
  }

  lemma SameCheck()
    ensures Crc(MISSED_0) == Crc(MISSED_1) && MISSED_0 != MISSED_1
  {
    assert Crc(MISSED_0) == Run(ByteStep(ByteStep(INIT, 0), 0), [0]);
    assert Crc(MISSED_1) == Run(ByteStep(ByteStep(INIT, 3), 0x40), [1]);
    assert MISSED_0[0] != MISSED_1[0];
  }

  lemma SameTail()
    ensures MsgBits(MISSED_0)[17..] == MsgBits(MISSED_1)[17..]
  {
    hide MsgBits, BitsOf, Half;
    LastSeven([0x00, 0x00], 0x00);
    LastSeven([0x03, 0x40], 0x01);
    NothingAbove();
    assert [0x00, 0x00] + [0x00] == MISSED_0 && [0x03, 0x40] + [0x01] == MISSED_1;
  }

  lemma NothingAbove()
    ensures Half(0x00 as bv8 as bv16) == Half(0x01 as bv8 as bv16)
  {
  }

  lemma LastSeven(p: seq<bv8>, v: bv8)
    requires |p| == 2
    ensures MsgBits(p + [v])[17..] == BitsOf(Half(v as bv16), 7)
  {
    hide Half, BitsOf, MsgBits;
    MsgBitsAppend(p, [v]);
    OneByte(v);
    FirstBit(v as bv16, 8);
    assert MsgBits(p + [v])[17..] == MsgBits([v])[1..];
  }

  lemma OneByte(v: bv8)
    ensures MsgBits([v]) == BitsOf(v as bv16, 8)
  {
    hide BitsOf;
  }

  lemma FirstBit(x: bv16, n: nat)
    requires n > 0
    ensures BitsOf(x, n)[1..] == BitsOf(Half(x), n - 1)
  {
    hide Odd, Half;
  }

  lemma CrcIsFeed(m: seq<bv8>)
    ensures Crc(m) == Feed(INIT, MsgBits(m))
  {
    RunIsFeed(INIT, m);
  }

  lemma MiddleSame<T>(p: seq<T>, v: seq<T>, w: seq<T>, s: seq<T>)
    requires |v| == |w| && p + v + s == p + w + s
    ensures v == w
  {
    assert v == (p + v + s)[|p|..|p| + |v|];
    assert w == (p + w + s)[|p|..|p| + |w|];
  }

  // ----- odd numbers of errors -----

  /** The number of set bits among the n low ones is odd. */
  function OddOnes(x: bv16, n: nat): bool
    decreases n
  {
    n > 0 && Odd(x) != OddOnes(Half(x), n - 1)
  }

  function Ones(bits: seq<bool>): nat {
    if bits == [] then 0 else (if bits[0] then 1 else 0) + Ones(bits[1..])
  }

  lemma {:induction false} XorParity(x: bv16, y: bv16, n: nat)
    ensures OddOnes(Xor(x, y), n) == (OddOnes(x, n) != OddOnes(y, n))
    decreases n
  {
    hide Xor, Odd, Half;
    if n > 0 {
      XorHalves(x, y);
      XorParity(Half(x), Half(y), n - 1);
    }
  }

  lemma XorHalves(x: bv16, y: bv16)
    ensures Odd(Xor(x, y)) == (Odd(x) != Odd(y)) && Half(Xor(x, y)) == Xor(Half(x), Half(y))
  {
    XorParts(x, y);
  }

  /** Bits beyond the last one set do not count. */
  lemma {:induction false} ShiftedParity(x: bv16, n: nat)
    requires Shift(x, n) == 0
    ensures OddOnes(x, n + 1) == OddOnes(x, n)
    decreases n
  {
    if n > 0 {
      hide Odd, Half;
      ShiftedParity(Half(x), n - 1);
    }
  }

  lemma {:induction false} ShiftTwice(x: bv16, i: nat, j: nat)
    ensures Shift(x, i + j) == Shift(Shift(x, i), j)
    decreases i
  {
    if i > 0 { ShiftTwice(Half(x), i - 1, j); }
  }

  lemma ShiftSome(x: bv16)
    ensures Shift(x, 8) == x >> 8 && Shift(x, 7) == x >> 7
  {
  }

  lemma HalfShifted(x: bv16)
    ensures Shift(Half(x), 15) == 0
  {
    hide Shift;
    ShiftTwice(Half(x), 8, 7);
    ShiftSome(Half(x));
    ShiftSome(Half(x) >> 8);
  }

  lemma GeneratorParity()
    ensures OddOnes(0xA001, 16)
  {
    assert !OddOnes(0x5, 3);
    assert !OddOnes(0x50, 7);
    assert !OddOnes(0x500, 11);
    assert !OddOnes(0x5000, 15);
    assert Half(0xA001) == 0x5000;
  }

  lemma BitStepParts(x: bv16)
    ensures BitStep(x) == if Odd(x) then Xor(Half(x), 0xA001) else Half(x)
  {
  }

  /** A shift that feeds back takes one bit out and turns over three. */
  lemma StepParity(x: bv16)
    ensures OddOnes(BitStep(x), 16) == OddOnes(x, 16)
  {
    hide BitStep, Odd, Half, Xor;
    BitStepParts(x);
    HalfShifted(x);
    ShiftedParity(Half(x), 15);
    GeneratorParity();
    XorParity(Half(x), 0xA001, 16);
  }

  lemma BitParity(a: bv16, b: bool)
    ensures OddOnes(Xor(a, BitOf(b)), 16) == (OddOnes(a, 16) != b)
  {
    hide Xor;
    XorParity(a, BitOf(b), 16);
    OneBitParity(b);
  }

  lemma OneBitParity(b: bool)
    ensures OddOnes(BitOf(b), 16) == b
  {
    NoParity(15);
  }

  lemma {:induction false} NoParity(n: nat)
    ensures !OddOnes(0, n)
    decreases n
  {
    if n > 0 { NoParity(n - 1); }
  }

  predicate OddCount(bits: seq<bool>) {
    Ones(bits) % 2 == 1
  }

  lemma OddCountFront(bits: seq<bool>)
    requires bits != []
    ensures OddCount(bits) == (bits[0] != OddCount(bits[1..]))
  {
  }

  /** The register keeps the parity of what was fed to it. */
  lemma {:induction false} FeedParity(a: bv16, bits: seq<bool>)
    ensures OddOnes(Feed(a, bits), 16) == (OddOnes(a, 16) != OddCount(bits))
    decreases |bits|
  {
    hide OddOnes, BitStep, Xor, BitOf;
    if bits != [] {
      var x := Xor(a, BitOf(bits[0]));
      FeedParity(BitStep(x), bits[1..]);
      StepParity(x);
      BitParity(a, bits[0]);
      OddCountFront(bits);
    }
  }

  lemma {:induction false} DifferParity(v: seq<bool>, w: seq<bool>)
    requires |v| == |w|
    ensures OddCount(Differ(v, w)) == (OddCount(v) != OddCount(w))
    decreases |v|
  {
    if v != [] {
      DifferParity(v[1..], w[1..]);
      OddCountFront(v);
      OddCountFront(w);
      OddCountFront(Differ(v, w));
      assert Differ(v, w)[1..] == Differ(v[1..], w[1..]);
    }
  }

  lemma CrcParity(m: seq<bv8>)
    ensures OddOnes(Crc(m), 16) == (OddOnes(INIT, 16) != OddCount(MsgBits(m)))
  {
    hide *;
    CrcIsFeed(m);
    FeedParity(INIT, MsgBits(m));
  }

  /** An odd number of wrong bits, wherever they are, changes the checksum. */
  lemma OddErrorsDetected(m: seq<bv8>, n: seq<bv8>)
    requires |m| == |n| && Ones(Differ(MsgBits(m), MsgBits(n))) % 2 == 1
    ensures Crc(m) != Crc(n)
  {
    assert OddCount(Differ(MsgBits(m), MsgBits(n)));
    hide *;
    DifferParity(MsgBits(m), MsgBits(n));
    CrcParity(m);
    CrcParity(n);
  }

  /** Two messages that differ only inside one byte or two adjacent bytes have different checksums. */
  lemma AdjacentBytesDetected(p: seq<bv8>, v: seq<bv8>, w: seq<bv8>, s: seq<bv8>)
    requires |v| == |w| <= 2 && v != w
    ensures Crc(p + v + s) != Crc(p + w + s)
  {
    hide Crc;
    MsgBitsAppend(p + v, s);
    MsgBitsAppend(p, v);
    MsgBitsAppend(p + w, s);
    MsgBitsAppend(p, w);
    if p + v + s == p + w + s {
      MiddleSame(p, v, w, s);
    }
    BurstDetected(p + v + s, p + w + s, MsgBits(p), MsgBits(v), MsgBits(w), MsgBits(s));
  }

  lemma {:induction false} RunAppend(a: bv16, p: seq<bv8>, q: seq<bv8>)
    ensures Run(a, p + q) == Run(Run(a, p), q)
    decreases |p|
  {
    hide ByteStep;
    if p == [] {
      assert p + q == q;
    } else {
      assert (p + q)[1..] == p[1..] + q;
      RunAppend(ByteStep(a, p[0]), p[1..], q);
    }
  }

  /** A frame checks to zero exactly when the two bytes after the message are its own
      checksum, low byte first. */
  lemma FrameCheck(msg: seq<bv8>, l: bv8, h: bv8)
    ensures Crc(msg + [l, h]) == 0 <==> l == LowByte(Crc(msg)) && h == HighByte(Crc(msg))
  {
    hide Crc, LowByte, HighByte;
    var (l0, h0) := (LowByte(Crc(msg)), HighByte(Crc(msg)));
    OwnChecksum(msg);
    if [l, h] != [l0, h0] {
      AdjacentBytesDetected(msg, [l, h], [l0, h0], []);
      assert msg + [l, h] + [] == msg + [l, h] && msg + [l0, h0] + [] == msg + [l0, h0];
    }
    assert [l, h] == [l0, h0] <==> l == l0 && h == h0 by {
      assert [l, h][0] == l && [l, h][1] == h && [l0, h0][0] == l0 && [l0, h0][1] == h0;
    }
  }

  lemma OwnChecksum(msg: seq<bv8>)
    ensures Crc(msg + [LowByte(Crc(msg)), HighByte(Crc(msg))]) == 0
  {
    hide ByteStep, LowByte, HighByte;
    var c := Crc(msg);
    RunAppend(INIT, msg, [LowByte(c), HighByte(c)]);
    assert [LowByte(c), HighByte(c)][1..] == [HighByte(c)];
    assert Run(c, [LowByte(c), HighByte(c)]) == Run(ByteStep(c, LowByte(c)), [HighByte(c)]);
    LowByteStep(c);
    HighByteStep(HighByte(c));
  }

  lemma LowByteStep(c: bv16)
    ensures ByteStep(c, LowByte(c)) == HighByte(c) as bv16
  {
    hide Steps;
    HighPart(c);
    StepsShift(HighByte(c));
  }

  lemma HighPart(c: bv16)
    ensures Xor(c, LowByte(c) as bv16) == (HighByte(c) as bv16) << 8
  {
  }

  /** Eight shifts move a high byte down unchanged. */
  lemma StepsShift(h: bv8)
    ensures Steps((h as bv16) << 8, 8) == h as bv16
  {
    var x := h as bv16;
    assert x < 0x100;
    EvenStep(x << 7); EvenStep(x << 6); EvenStep(x << 5); EvenStep(x << 4);
    EvenStep(x << 3); EvenStep(x << 2); EvenStep(x << 1); EvenStep(x);
    assert Steps(x << 8, 8) == Steps(x << 7, 7) == Steps(x << 6, 6) == Steps(x << 5, 5) == Steps(x << 4, 4);
  }

  lemma EvenStep(y: bv16)
    requires y < 0x8000
    ensures BitStep(y << 1) == y
  {
  }

  lemma HighByteStep(h: bv8)
    ensures ByteStep(h as bv16, h) == 0
  {
    XorSelf(h as bv16);
  }
}
