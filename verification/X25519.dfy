/** The function X25519 of section 5 of RFC 7748 on integers, and the public key
    it gives for the base point 9. */
module X25519 {
  import opened Radix
  import opened Field25519

  datatype Points = Points(x2: int, z2: int, x3: int, z3: int)

  function Swap(p: Points, yes: bool): Points {
    if yes then Points(p.x3, p.z3, p.x2, p.z2) else p
  }

  /** One doubling and one differential addition: the loop body of section 5. */
  function LadderStep(u: int, p: Points): Points {
    var a := Add(p.x2, p.z2);
    var aa := Mul(a, a);
    var b := Sub(p.x2, p.z2);
    var bb := Mul(b, b);
    var e := Sub(aa, bb);
    var c := Add(p.x3, p.z3);
    var d := Sub(p.x3, p.z3);
    var da := Mul(d, a);
    var cb := Mul(c, b);
    var s := Add(da, cb);
    var t := Sub(da, cb);
    Points(Mul(aa, bb), Mul(Add(Mul(121665, e), aa), e), Mul(s, s), Mul(Mul(t, t), u))
  }

  function Bit(k: nat, t: nat): bool { k / Pow(2, t) % 2 == 1 }

  const BITS: nat := 255

  datatype Deferred = Deferred(points: Points, swap: bool)

  /** The ladder of section 5, after the bits BITS - 1 .. t of the scalar: the
      swap back is deferred to the next iteration. */
  function Ladder(u: int, k: nat, t: nat): Deferred
    requires t <= BITS
    decreases BITS - t, k
  {
    if t == BITS then Deferred(Points(1, 0, u, 1), false)
    else
      var before := Ladder(u, k, t + 1);
      var bit := Bit(k, t);
      Deferred(LadderStep(u, Swap(before.points, before.swap != bit)), bit)
  }

  /** The same bits with each swap undone at once. */
  function DirectLadder(u: int, k: nat, t: nat): Points
    requires t <= BITS
    decreases BITS - t, k
  {
    if t == BITS then Points(1, 0, u, 1)
    else
      var bit := Bit(k, t);
      Swap(LadderStep(u, Swap(DirectLadder(u, k, t + 1), bit)), bit)
  }

  /** Deferring the swaps changes no result. */
  lemma {:induction false} DeferredSwapIsDirect(u: int, k: nat, t: nat)
    requires t <= BITS
    ensures DirectLadder(u, k, t) == Swap(Ladder(u, k, t).points, Ladder(u, k, t).swap)
    decreases BITS - t
  {
    if t < BITS {
      DeferredSwapIsDirect(u, k, t + 1);
    }
  }

  /** X25519 of a decoded scalar and a u-coordinate. */
  function ScalarMult(k: nat, u: int): int {
    var last := Ladder(u, k, 0);
    var p := Swap(last.points, last.swap);
    Mul(p.x2, Exp(p.z2, P - 2))
  }

  type Bytes = s: seq<int> | forall i :: 0 <= i < |s| ==> 0 <= s[i] < 256

  /** decodeScalar25519: clamp, then read little-endian. */
  function Clamp(key: Bytes): (r: Bytes)
    requires |key| == 32
    ensures |r| == 32
  {
    key[0 := key[0] - key[0] % 8][31 := key[31] % 64 + 64]
  }

  ghost function DecodeScalar(key: Bytes): (k: nat)
    requires |key| == 32
  {
    ValBound(256, Clamp(key));
    Val(256, Clamp(key))
  }

  /** encodeUCoordinate: 32 bytes, little-endian. */
  ghost function Encode(n: nat): (r: Bytes)
    ensures |r| == 32
  {
    seq(32, i requires 0 <= i < 32 => n / Pow(256, i) % 256)
  }

  ghost function PublicKey(key: Bytes): Bytes
    requires |key| == 32
  {
    Encode(ScalarMult(DecodeScalar(key), 9))
  }

  const E250: nat := 0x3ffffffffffffffffffffffffffffffffffffffffffffffffffffffffffffff

  /** e doubled n times: the exponent after n squarings. */
  ghost function Doubled(e: nat, n: nat): nat
    decreases n
  {
    if n == 0 then e else 2 * Doubled(e, n - 1)
  }

  lemma DoubledTen(e: nat)
    ensures Doubled(e, 9) == 512 * e && Doubled(e, 10) == 1024 * e
  {
  }

  lemma TwoTo250(n: nat)
    requires n == 250
    ensures Pow(2, n) == E250 + 1
  {
    assert Pow(2, 10) == 1024 && Pow(2, 5) == 32;
    hide Pow;
    PowAdd(2, 10, 5);
    assert Pow(2, 15) == 0x8000;
    PowAdd(2, 15, 15);
    assert Pow(2, 30) == 0x40000000;
    PowAdd(2, 30, 30);
    assert Pow(2, 60) == 0x1000000000000000;
    PowAdd(2, 60, 60);
    assert Pow(2, 120) == 0x1000000000000000000000000000000;
    PowAdd(2, 120, 120);
    assert Pow(2, 240) == 0x1000000000000000000000000000000000000000000000000000000000000;
    PowAdd(2, 240, 10);
  }

  lemma PatternExponent(n: nat, e: nat, rounds: nat)
    requires rounds == 24 && n == Pow(1024, rounds) && 1023 * e == 1024 * n - 1
    ensures 1023 * e == E250
  {
    assert Pow(2, 10) == 1024;
    hide Pow;
    PowPow(2, 10, 24);
    PowAdd(2, 240, 10);
    TwoTo250(250);
  }
}
