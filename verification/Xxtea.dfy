/** The XXTEA block cipher of tools/xxtea.py.

    The loops compute the mixing term as the source does, on unbounded integers, and mask the sum.  The
    cipher itself is given on 32-bit words, where every step of the mixing term is masked; that both are
    the same is `MixMasked`.
 */
module Xxtea {
  import opened Bits

  const DELTA := 0x9e3779b9
  const TWO_32 := 0x1_0000_0000

  type Word = s: int | 0 <= s < TWO_32

  type Key = k: seq<Word> | |k| == 4 witness [0, 0, 0, 0]

  /** The number of rounds for n words, `6 + 52 / n`. */
  function Rounds(n: int): (q: nat)
    requires n > 1
    ensures 6 <= q <= 32
  {
    6 + 52 / n
  }

  /** The round constant after r additions of DELTA, masked to 32 bits. */
  function RoundSum(r: nat): Word {
    if r == 0 then 0 else (RoundSum(r - 1) + DELTA) % TWO_32
  }

  /** The exclusive or of two-bit numbers. */
  const TWO_BITS: seq<seq<nat>> := [[0, 1, 2, 3], [1, 0, 3, 2], [2, 3, 0, 1], [3, 2, 1, 0]]

  /** The key word used at position p with the given round sum. */
  function KeyWord(k: Key, p: nat, sum: Word): Word {
    k[TWO_BITS[p % 4][sum / 4 % 4]]
  }

  function Xor32(a: Word, b: Word): Word {
    WordBounded(a, b);
    Xor(a, b)
  }

  lemma WordBounded(a: Word, b: Word)
    ensures Xor(a, b) < TWO_32
  {
    hide Xor, Power2;
    ThirtyTwoBits();
    XorBounded(a, b, 32);
  }

  /** The mixing term on 32-bit words. */
  function Mx(z: Word, y: Word, sum: Word, k: Key, p: nat): Word {
    Xor32(Plus(Xor32(z / 32, y * 4 % TWO_32), Xor32(y / 8, z * 16 % TWO_32)),
          Plus(Xor32(sum, y), Xor32(KeyWord(k, p, sum), z)))
  }

  /** The lambda `MX` of the source, on unbounded integers; `e` is `(sum >> 2) & 3`. */
  function MX(z: nat, y: nat, sum: nat, k: Key, p: nat, e: nat): nat
    requires e < 4
  {
    SmallXor(p % 4, e);
    Xor(Xor(z / 32, y * 4) + Xor(y / 8, z * 16), Xor(sum, y) + Xor(k[Xor(p % 4, e)], z))
  }

  lemma SmallXor(a: nat, b: nat)
    requires a < 4 && b < 4
    ensures Xor(a, b) < 4
  {
    assert Power2(2) == 4;
    hide Xor, Power2;
    XorBounded(a, b, 2);
  }

  lemma TwoBits(a: nat, b: nat)
    requires a < 4 && b < 4
    ensures Xor(a, b) == TWO_BITS[a][b]
  {
    hide Xor;
    XorFront(a, b);
    XorFront(a / 2, b / 2);
    XorZero();
  }

  lemma SameKeyWord(k: Key, p: nat, sum: Word)
    ensures Xor(p % 4, sum / 4 % 4) < 4 && k[Xor(p % 4, sum / 4 % 4)] == KeyWord(k, p, sum)
  {
    hide Xor;
    TwoBits(p % 4, sum / 4 % 4);
  }

  lemma XorMasked(a: nat, b: nat)
    ensures Xor(a, b) % TWO_32 == Xor32(a % TWO_32, b % TWO_32)
  {
    hide Xor, Low;
    LowWord(a);
    LowWord(b);
    LowWord(Xor(a, b));
    XorLow(a, b, 32);
  }

  lemma SumMasked(a: nat, b: nat)
    ensures (a + b) % TWO_32 == Plus(a % TWO_32, b % TWO_32)
  {
  }

  lemma SumOfXors(a: nat, b: nat, c: nat, d: nat)
    ensures (Xor(a, b) + Xor(c, d)) % TWO_32
         == Plus(Xor32(a % TWO_32, b % TWO_32), Xor32(c % TWO_32, d % TWO_32))
  {
    hide Xor, Xor32, Plus;
    XorMasked(a, b);
    XorMasked(c, d);
    SumMasked(Xor(a, b), Xor(c, d));
  }

  /** Masking the sum in the end is masking at every step. */
  lemma MixMasked(z: Word, y: Word, sum: Word, k: Key, p: nat)
    ensures MX(z, y, sum, k, p, sum / 4 % 4) % TWO_32 == Mx(z, y, sum, k, p)
  {
    hide Xor, Xor32, Plus, KeyWord;
    SameKeyWord(k, p, sum);
    TermMasked(z, y, sum, KeyWord(k, p, sum));
  }

  lemma TermMasked(z: Word, y: Word, sum: Word, key: Word)
    ensures Xor(Xor(z / 32, y * 4) + Xor(y / 8, z * 16), Xor(sum, y) + Xor(key, z)) % TWO_32
         == Xor32(Plus(Xor32(z / 32, y * 4 % TWO_32), Xor32(y / 8, z * 16 % TWO_32)),
                  Plus(Xor32(sum, y), Xor32(key, z)))
  {
    hide Xor, Xor32, Plus;
    Small(z / 32);
    Small(y / 8);
    SumOfXors(z / 32, y * 4, y / 8, z * 16);
    Small(sum);
    Small(y);
    Small(key);
    Small(z);
    SumOfXors(sum, y, key, z);
    XorMasked(Xor(z / 32, y * 4) + Xor(y / 8, z * 16), Xor(sum, y) + Xor(key, z));
  }

  lemma Small(a: Word)
    ensures a % TWO_32 == a
  {
  }

  /** A mixing function of the two neighbours, the round constant and the position.
      Nothing about the cipher's invertibility depends on which one it is. */
  type Mixer = (Word, Word, Word, nat) -> Word

  function KeyMixer(k: Key): Mixer {
    (z, y, sum, p) => Mx(z, y, sum, k, p)
  }

  /** The mixing term of position p: it reads the two neighbours of p on the ring. */
  function Mix(v: seq<Word>, p: nat, sum: Word, mix: Mixer): Word
    requires |v| > 1 && p < |v|
  {
    var z := if p == 0 then v[|v| - 1] else v[p - 1];
    var y := if p == |v| - 1 then v[0] else v[p + 1];
    mix(z, y, sum, p)
  }

  function Plus(a: Word, m: Word): Word { (a + m) % TWO_32 }

  function Minus(a: Word, m: Word): Word { (a - m) % TWO_32 }

  /** The two in-place updates of position p, each by the mixing term of its neighbours. */
  function AddMix(v: seq<Word>, p: nat, sum: Word, mix: Mixer): (w: seq<Word>)
    requires |v| > 1 && p < |v|
    ensures |w| == |v|
  {
    v[p := Plus(v[p], Mix(v, p, sum, mix))]
  }

  function SubMix(v: seq<Word>, p: nat, sum: Word, mix: Mixer): (w: seq<Word>)
    requires |v| > 1 && p < |v|
    ensures |w| == |v|
  {
    v[p := Minus(v[p], Mix(v, p, sum, mix))]
  }

  /** One encryption round restricted to positions 0..p, in increasing order. */
  function EncryptUpTo(v: seq<Word>, p: nat, sum: Word, mix: Mixer): (w: seq<Word>)
    requires |v| > 1 && p <= |v|
    ensures |w| == |v|
    ensures w[p..] == v[p..]
  {
    if p == 0 then v else
    AddMix(EncryptUpTo(v, p - 1, sum, mix), p - 1, sum, mix)
  }

  /** One decryption round restricted to positions p-1, ..., 0, in decreasing order. */
  function DecryptDown(v: seq<Word>, p: nat, sum: Word, mix: Mixer): (w: seq<Word>)
    requires |v| > 1 && p <= |v|
    ensures |w| == |v|
    ensures w[p..] == v[p..]
    decreases p
  {
    if p == 0 then v else
    DecryptDown(SubMix(v, p - 1, sum, mix), p - 1, sum, mix)
  }

  function Encrypt(v: seq<Word>, rounds: nat, mix: Mixer): (w: seq<Word>)
    requires |v| > 1
    ensures |w| == |v|
    decreases rounds
  {
    if rounds == 0 then v else
    EncryptUpTo(Encrypt(v, rounds - 1, mix), |v|, RoundSum(rounds), mix)
  }

  function Decrypt(v: seq<Word>, rounds: nat, mix: Mixer): (w: seq<Word>)
    requires |v| > 1
    ensures |w| == |v|
    decreases rounds
  {
    if rounds == 0 then v else
    Decrypt(DecryptDown(v, |v|, RoundSum(rounds), mix), rounds - 1, mix)
  }

  // ----- the two directions undo each other -----

  lemma PlusMinus(a: Word, m: Word)
    ensures Minus(Plus(a, m), m) == a && Plus(Minus(a, m), m) == a
  {
    assert Plus(a, m) == if a + m < TWO_32 then a + m else a + m - TWO_32;
    assert Minus(a, m) == if a < m then a - m + TWO_32 else a - m;
  }

  /** The mixing term does not read the word it changes, so each update is undone by the other. */
  lemma MixInverse(v: seq<Word>, p: nat, sum: Word, mix: Mixer)
    requires |v| > 1 && p < |v|
    ensures SubMix(AddMix(v, p, sum, mix), p, sum, mix) == v
    ensures AddMix(SubMix(v, p, sum, mix), p, sum, mix) == v
  {
    hide Plus, Minus;
    var m := Mix(v, p, sum, mix);
    PlusMinus(v[p], m);
    assert Mix(v[p := Plus(v[p], m)], p, sum, mix) == m;
    assert Mix(v[p := Minus(v[p], m)], p, sum, mix) == m;
  }

  lemma {:induction false} RoundInverse(v: seq<Word>, p: nat, sum: Word, mix: Mixer)
    requires |v| > 1 && p <= |v|
    ensures DecryptDown(EncryptUpTo(v, p, sum, mix), p, sum, mix) == v
    ensures EncryptUpTo(DecryptDown(v, p, sum, mix), p, sum, mix) == v
    decreases p
  {
    hide AddMix, SubMix;
    if p > 0 {
      RoundInverse(v, p - 1, sum, mix);
      MixInverse(EncryptUpTo(v, p - 1, sum, mix), p - 1, sum, mix);
      RoundInverse(SubMix(v, p - 1, sum, mix), p - 1, sum, mix);
      MixInverse(v, p - 1, sum, mix);
    }
  }

  /** For any number of rounds, decryption undoes encryption and encryption undoes decryption. */
  lemma {:induction false} CipherInverse(v: seq<Word>, rounds: nat, mix: Mixer)
    requires |v| > 1
    ensures Decrypt(Encrypt(v, rounds, mix), rounds, mix) == v
    ensures Encrypt(Decrypt(v, rounds, mix), rounds, mix) == v
    decreases rounds
  {
    hide EncryptUpTo, DecryptDown;
    if rounds > 0 {
      var sum := RoundSum(rounds);
      CipherInverse(v, rounds - 1, mix);
      RoundInverse(Encrypt(v, rounds - 1, mix), |v|, sum, mix);
      var w := DecryptDown(v, |v|, sum, mix);
      CipherInverse(w, rounds - 1, mix);
      RoundInverse(v, |v|, sum, mix);
    }
  }

  // ----- the decryption loop stops exactly when its rounds are used up -----

  /** The countdown of the decryption loop retraces the sums of the encryption loop. */
  lemma RoundSumBack(r: nat)
    requires r > 0
    ensures RoundSum(r - 1) == (RoundSum(r) - DELTA) % TWO_32
  {
  }

  /** Masking `q * DELTA` once gives the sum that the encryption loop ends with. */
  lemma {:induction false} RoundSumIsProduct(r: nat)
    ensures RoundSum(r) == (r * 0x9e3779b9) % 0x1_0000_0000
  {
    if r > 0 {
      RoundSumIsProduct(r - 1);
      ModAdd((r - 1) * DELTA, DELTA);
    }
  }

  lemma ModAdd(a: int, d: int)
    ensures (a % TWO_32 + d) % TWO_32 == (a + d) % TWO_32
  {
    var t := a / TWO_32;
    assert a + d == TWO_32 * t + (a % TWO_32 + d);
  }

  /** No partial sum of the countdown is zero, so `while sum != 0` runs every round:
      DELTA is odd, so a multiple of it by less than 2^32 is not a multiple of 2^32. */
  lemma RoundSumNonzero(r: nat)
    requires 0 < r <= 32
    ensures RoundSum(r) != 0
  {
    RoundSumIsProduct(r);
  }

  lemma AddTerm(v: seq<Word>, p: nat, z: Word, y: Word, sum: Word, k: Key)
    requires |v| > 1 && p < |v|
    requires z == (if p == 0 then v[|v| - 1] else v[p - 1]) && y == if p == |v| - 1 then v[0] else v[p + 1]
    ensures AddMix(v, p, sum, KeyMixer(k)) == v[p := (v[p] + MX(z, y, sum, k, p, sum / 4 % 4)) % TWO_32]
  {
    hide Mx, MX;
    MixMasked(z, y, sum, k, p);
    SumMasked(v[p], MX(z, y, sum, k, p, sum / 4 % 4));
  }

  lemma SubTerm(v: seq<Word>, p: nat, z: Word, y: Word, sum: Word, k: Key)
    requires |v| > 1 && p < |v|
    requires z == (if p == 0 then v[|v| - 1] else v[p - 1]) && y == if p == |v| - 1 then v[0] else v[p + 1]
    ensures SubMix(v, p, sum, KeyMixer(k)) == v[p := (v[p] - MX(z, y, sum, k, p, sum / 4 % 4)) % TWO_32]
  {
    hide Mx, MX;
    MixMasked(z, y, sum, k, p);
    DifferenceMasked(v[p], MX(z, y, sum, k, p, sum / 4 % 4));
  }

  lemma DifferenceMasked(a: Word, b: nat)
    ensures (a - b) % TWO_32 == Minus(a, b % TWO_32)
  {
  }

  /** Each word is updated as the source says, from its neighbours on the ring: added to when encrypting,
      subtracted from when decrypting. */
  lemma UpdatedWord(v: seq<Word>, p: nat, sum: Word, k: Key)
    requires |v| > 1 && p < |v|
    ensures var (n, e) := (|v|, sum / 4 % 4);
      var z: nat := v[(p + n - 1) % n];
      var y: nat := v[(p + 1) % n];
      var key: nat := (SmallXor(p % 4, e); k[Xor(p % 4, e)]);
      var term := Xor(Xor(z / 32, y * 4) + Xor(y / 8, z * 16), Xor(sum, y) + Xor(key, z));
      && AddMix(v, p, sum, KeyMixer(k)) == v[p := (v[p] + term) % 0x1_0000_0000]
      && SubMix(v, p, sum, KeyMixer(k)) == v[p := (v[p] - term) % 0x1_0000_0000]
  {
    hide Xor, AddMix, SubMix, KeyMixer;
    var n := |v|;
    Neighbours(p, n);
    AddTerm(v, p, v[(p + n - 1) % n], v[(p + 1) % n], sum, k);
    SubTerm(v, p, v[(p + n - 1) % n], v[(p + 1) % n], sum, k);
  }

  lemma {:induction false} EncryptKept(v: seq<Word>, i: nat, j: nat, sum: Word, mix: Mixer)
    requires |v| > 1 && i <= j <= |v|
    ensures EncryptUpTo(v, j, sum, mix)[..i] == EncryptUpTo(v, i, sum, mix)[..i]
    decreases j
  {
    if i < j { EncryptKept(v, i, j - 1, sum, mix); }
  }

  /** What a round has done before it comes to position p. */
  lemma RoundSoFar(v: seq<Word>, p: nat, sum: Word, mix: Mixer)
    requires |v| > 1 && p <= |v|
    ensures var (t, b) := (EncryptUpTo(v, p, sum, mix), EncryptUpTo(v, |v|, sum, mix));
      forall i :: 0 <= i < |v| ==> t[i] == if i < p then b[i] else v[i]
  {
    EncryptKept(v, p, |v|, sum, mix);
    hide EncryptUpTo;
    var (t, b) := (EncryptUpTo(v, p, sum, mix), EncryptUpTo(v, |v|, sum, mix));
    forall i | 0 <= i < |v| ensures t[i] == if i < p then b[i] else v[i] {
      if i < p {
        assert t[i] == t[..p][i] == b[..p][i];
      } else {
        assert t[i] == t[p..][i - p] == v[p..][i - p];
      }
    }
  }

  /** The words that the update of position p reads and writes. */
  lemma RoundAt(a: seq<Word>, sum: Word, mix: Mixer, p: nat)
    requires |a| > 1 && p < |a|
    ensures var (t, b) := (EncryptUpTo(a, p, sum, mix), EncryptUpTo(a, |a|, sum, mix));
      && t[p] == a[p] && b[p] == AddMix(t, p, sum, mix)[p]
      && (if p == 0 then t[|a| - 1] else t[p - 1]) == (if p == 0 then a[|a| - 1] else b[p - 1])
      && (if p == |a| - 1 then t[0] else t[p + 1]) == (if p == |a| - 1 then b[0] else a[p + 1])
  {
    assert EncryptUpTo(a, p + 1, sum, mix) == AddMix(EncryptUpTo(a, p, sum, mix), p, sum, mix);
    hide EncryptUpTo, AddMix;
    RoundSoFar(a, p, sum, mix);
    RoundSoFar(a, p + 1, sum, mix);
  }

  lemma RoundWord(a: seq<Word>, sum: Word, k: Key, p: nat)
    requires |a| > 1 && p < |a|
    ensures var b := EncryptUpTo(a, |a|, sum, KeyMixer(k));
      var z := if p == 0 then a[|a| - 1] else b[p - 1];
      var y := if p == |a| - 1 then b[0] else a[p + 1];
      b[p] == (a[p] + MX(z, y, sum, k, p, sum / 4 % 4)) % TWO_32
  {
    hide *;
    var (t, b) := (EncryptUpTo(a, p, sum, KeyMixer(k)), EncryptUpTo(a, |a|, sum, KeyMixer(k)));
    RoundAt(a, sum, KeyMixer(k), p);
    var z := if p == 0 then a[|a| - 1] else b[p - 1];
    var y := if p == |a| - 1 then b[0] else a[p + 1];
    AddTerm(t, p, z, y, sum, k);
  }

  /** The words after a round of encryption, from those before it: each word takes the next one as it
      was and the one before as it has become, and the ring closes at both ends.  The sums are the
      multiples of the constant.  As decryption undoes encryption, this fixes both. */
  lemma CipherWord(v: seq<Word>, r: nat, k: Key, p: nat)
    requires |v| > 1 && p < |v|
    ensures Encrypt(v, 0, KeyMixer(k)) == v
    ensures var (a, b) := (Encrypt(v, r, KeyMixer(k)), Encrypt(v, r + 1, KeyMixer(k)));
      var sum := (r + 1) * 0x9e3779b9 % 0x1_0000_0000;
      var z: nat := if p == 0 then a[|v| - 1] else b[p - 1];
      var y: nat := if p == |v| - 1 then b[0] else a[p + 1];
      var e := sum / 4 % 4;
      var key: nat := (SmallXor(p % 4, e); k[Xor(p % 4, e)]);
      var term := Xor(Xor(z / 32, y * 4) + Xor(y / 8, z * 16), Xor(sum, y) + Xor(key, z));
      b[p] == (a[p] + term) % 0x1_0000_0000
  {
    hide Xor, EncryptUpTo, KeyMixer, RoundSum;
    RoundSumIsProduct(r + 1);
    RoundWord(Encrypt(v, r, KeyMixer(k)), RoundSum(r + 1), k, p);
  }

  lemma WrapOnce(a: nat, n: nat)
    requires a < n
    ensures (a + n) % n == a
  {
  }

  lemma Neighbours(p: nat, n: nat)
    requires p < n && n > 1
    ensures (p + n - 1) % n == if p == 0 then n - 1 else p - 1
    ensures (p + 1) % n == if p == n - 1 then 0 else p + 1
  {
    if p > 0 { assert (p + n - 1) % n == p - 1 by { WrapOnce(p - 1, n); } }
  }

  /** The body of one encryption round of `btea`; z is the last word on entry and on exit. */
  method EncryptRound(v: array<Word>, n: nat, z0: Word, sum: Word, k: Key) returns (z: Word)
    requires 1 < n <= v.Length && z0 == v[n - 1]
    modifies v
    ensures v[..n] == EncryptUpTo(old(v[..n]), n, sum, KeyMixer(k)) && v[n..] == old(v[n..])
    ensures z == v[n - 1]
  {
    hide MX, AddMix, KeyMixer;
    z := z0;
    var e := sum / 4 % 4;
    var p := 0;
    var y;
    while p < n - 1
      invariant 0 <= p <= n - 1
      invariant z == if p == 0 then v[n - 1] else v[p - 1]
      invariant v[..n] == EncryptUpTo(old(v[..n]), p, sum, KeyMixer(k)) && v[n..] == old(v[n..])
    {
      ghost var w := v[..n];
      y := v[p + 1];
      AddTerm(w, p, z, y, sum, k);
      v[p] := (v[p] + MX(z, y, sum, k, p, e)) % TWO_32;
      z := v[p];
      assert v[..n] == w[p := z];
      p := p + 1;
    }
    ghost var w := v[..n];
    y := v[0];
    AddTerm(w, p, z, y, sum, k);
    v[n - 1] := (v[n - 1] + MX(z, y, sum, k, p, e)) % TWO_32;
    z := v[n - 1];
    assert v[..n] == w[p := z];
  }

  /** The body of one decryption round of `btea`; y is the first word on entry and on exit. */
  method DecryptRound(v: array<Word>, n: nat, y0: Word, sum: Word, k: Key) returns (y: Word)
    requires 1 < n <= v.Length && y0 == v[0]
    modifies v
    ensures v[..n] == DecryptDown(old(v[..n]), n, sum, KeyMixer(k)) && v[n..] == old(v[n..])
    ensures y == v[0]
  {
    hide MX, SubMix, KeyMixer;
    y := y0;
    var e := sum / 4 % 4;
    var p := n - 1;
    var z;
    while p > 0
      invariant 0 <= p <= n - 1
      invariant y == if p == n - 1 then v[0] else v[p + 1]
      invariant DecryptDown(v[..n], p + 1, sum, KeyMixer(k)) == DecryptDown(old(v[..n]), n, sum, KeyMixer(k))
      invariant v[n..] == old(v[n..])
    {
      ghost var w := v[..n];
      z := v[p - 1];
      SubTerm(w, p, z, y, sum, k);
      v[p] := (v[p] - MX(z, y, sum, k, p, e)) % TWO_32;
      y := v[p];
      assert v[..n] == w[p := y];
      p := p - 1;
    }
    ghost var w := v[..n];
    z := v[n - 1];
    SubTerm(w, 0, z, y, sum, k);
    v[0] := (v[0] - MX(z, y, sum, k, p, e)) % TWO_32;
    y := v[0];
    assert v[..n] == w[0 := y];
  }

  /** The branch n > 1 of `btea`. */
  method EncryptWords(v: array<Word>, n: nat, k: Key)
    requires 1 < n <= v.Length
    modifies v
    ensures v[..n] == Encrypt(old(v[..n]), 6 + 52 / n, KeyMixer(k)) && v[n..] == old(v[n..])
  {
    hide EncryptUpTo;
    var z := v[n - 1];
    var q := 6 + 52 / n;
    var sum: Word := 0;
    ghost var r := 0;
    while q > 0
      invariant 0 <= q && q + r == Rounds(n)
      invariant sum == RoundSum(r) && z == v[n - 1]
      invariant v[..n] == Encrypt(old(v[..n]), r, KeyMixer(k)) && v[n..] == old(v[n..])
    {
      q := q - 1;
      sum := (sum + DELTA) % TWO_32;
      z := EncryptRound(v, n, z, sum, k);
      r := r + 1;
    }
  }

  /** The branch n < -1 of `btea`.  The loop tests only the sum; r counts the rounds left,
      so the loop runs exactly `Rounds(n)` times. */
  method DecryptWords(v: array<Word>, n: nat, k: Key)
    requires 1 < n <= v.Length
    modifies v
    ensures v[..n] == Decrypt(old(v[..n]), 6 + 52 / n, KeyMixer(k)) && v[n..] == old(v[n..])
  {
    hide DecryptDown;
    var y := v[0];
    var q := 6 + 52 / n;
    var sum: Word := (q * DELTA) % TWO_32;
    ghost var r := q;
    RoundSumIsProduct(q);
    while sum != 0
      invariant 0 <= r <= q && sum == RoundSum(r)
      invariant y == v[0]
      invariant Decrypt(v[..n], r, KeyMixer(k)) == Decrypt(old(v[..n]), q, KeyMixer(k)) && v[n..] == old(v[n..])
      decreases r
    {
      y := DecryptRound(v, n, y, sum, k);
      RoundSumBack(r);
      sum := (sum - DELTA) % TWO_32;
      r := r - 1;
    }
    if r > 0 { RoundSumNonzero(r); }
  }

  /** `btea`: encrypts the first n words for n > 1, decrypts the first -n for n < -1,
      and otherwise answers False and leaves the array alone. */
  method Btea(v: array<Word>, n: int, k: Key) returns (done: bool)
    requires 1 <= v.Length && -v.Length <= n <= v.Length
    modifies v
    ensures done <==> n > 1 || n < -1
    ensures n > 1 ==> v[..n] == Encrypt(old(v[..n]), 6 + 52 / n, KeyMixer(k)) && v[n..] == old(v[n..])
    ensures n < -1 ==> v[..-n] == Decrypt(old(v[..-n]), 6 + 52 / -n, KeyMixer(k)) && v[-n..] == old(v[-n..])
    ensures !done ==> v[..] == old(v[..])
  {
    hide *;
    if n > 1 {
      EncryptWords(v, n, k);
      return true;
    } else if n < -1 {
      DecryptWords(v, -n, k);
      return true;
    }
    return false;
  }

  /** The two calls in a row, in either order, restore the array. */
  method BteaTwice(v: array<Word>, n: int, k: Key)
    requires 1 <= v.Length && -v.Length <= n <= v.Length
    requires n > 1 || n < -1
    modifies v
    ensures v[..] == old(v[..])
  {
    hide *;
    var m := if n > 1 then n else -n;
    CipherInverse(v[..m], 6 + 52 / m, KeyMixer(k));
    var _ := Btea(v, n, k);
    var _ := Btea(v, -n, k);
    assert v[..] == v[..m] + v[m..];
    assert old(v[..]) == old(v[..m]) + old(v[m..]);
  }
}
