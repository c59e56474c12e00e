/** The scene's deterministic piece generator: a linear congruential step
    computed with wrapping 64-bit arithmetic and masked to 31 bits. */
module Random {
  import opened Tiles

  const Multiplier: int := 1103515245
  const Increment: int := 12345
  /** Seed of a new scene. */
  const InitialSeed: int := 0xC0FFEE

  const TwoTo31: int := 0x8000_0000
  const TwoTo63: int := 0x8000_0000_0000_0000
  const TwoTo64: int := 0x1_0000_0000_0000_0000

  /** The values of Swift's 64-bit `Int`. */
  predicate IsInt64(v: int)
  {
    -TwoTo63 <= v < TwoTo63
  }

  /** The result of a wrapping operator (`&*`, `&+`) on 64-bit `Int`: the
      two's-complement value congruent to v modulo 2^64. */
  function Wrap64(v: int): (r: int)
    ensures IsInt64(r)
    ensures (v - r) % TwoTo64 == 0
    ensures IsInt64(v) ==> r == v
  {
    (v + TwoTo63) % TwoTo64 - TwoTo63
  }

  /** `v & 0x7fffffff` on a two's-complement word: the low 31 bits, which
      read as a non-negative number are v modulo 2^31. */
  function Low31(v: int): (r: int)
    ensures 0 <= r < TwoTo31
    ensures (v - r) % TwoTo31 == 0
  {
    v % TwoTo31
  }

  /** One generator step; the scene stores the result as its new seed. */
  function NextRandom(seed: int): (r: int)
    requires IsInt64(seed)
    ensures 0 <= r < TwoTo31
  {
    Low31(Wrap64(Wrap64(Multiplier * seed) + Increment))
  }

  /** Adding a multiple of 2^64 does not change a value modulo 2^31. */
  lemma ModDropsMultiple(a: int, m: int)
    ensures (a + TwoTo64 * m) % TwoTo31 == a % TwoTo31
  {
    var q := a / TwoTo31;
    var rem := a % TwoTo31;
    assert a == TwoTo31 * q + rem;
    assert TwoTo64 * m == TwoTo31 * (0x2_0000_0000 * m);
    assert a + TwoTo64 * m == TwoTo31 * (q + 0x2_0000_0000 * m) + rem;
  }

  /** Since 2^31 divides 2^64, the wrapping and the mask together compute
      the textbook generator `(1103515245 * seed + 12345) mod 2^31`. */
  lemma NextRandomIsLcg(seed: int)
    requires IsInt64(seed)
    ensures NextRandom(seed) == (Multiplier * seed + Increment) % TwoTo31
  {
    var a := Multiplier * seed;
    var w1 := Wrap64(a);
    var w2 := Wrap64(w1 + Increment);
    var m1 := (a - w1) / TwoTo64;
    var m2 := (w1 + Increment - w2) / TwoTo64;
    assert a - w1 == TwoTo64 * m1;
    assert w1 + Increment - w2 == TwoTo64 * m2;
    assert a + Increment == w2 + TwoTo64 * (m1 + m2);
    ModDropsMultiple(w2, m1 + m2);
  }

  /** Piece order of the generator: a value maps to `KindOrder[value mod 7]`. */
  const KindOrder: seq<TileColor> := [I, J, L, O, S, T, Z]

  /** The switch on a remainder: 0 .. 5 name I, J, L, O, S, T, anything else Z. */
  function KindFor(n: int): (r: TileColor)
    ensures 0 <= n < |KindOrder| ==> r == KindOrder[n]
    ensures !(0 <= n < |KindOrder|) ==> r == Z
    ensures r != None
  {
    if n == 0 then I
    else if n == 1 then J
    else if n == 2 then L
    else if n == 3 then O
    else if n == 4 then S
    else if n == 5 then T
    else Z
  }

  /** Draws the next kind: one generator step, then its remainder by 7.
      Returns the kind and the new seed. */
  function PickKind(seed: int): (r: (TileColor, int))
    requires IsInt64(seed)
    ensures r.1 == NextRandom(seed) && 0 <= r.1 < TwoTo31
    ensures r.0 == KindOrder[r.1 % 7] && r.0 != None
  {
    var next := NextRandom(seed);
    (KindFor(Rem(next, 7)), next)
  }

  /** The first three draws of a new scene: S, O, then I. */
  lemma FirstDraws()
    ensures PickKind(InitialSeed) == (S, 3910799)
    ensures PickKind(3910799) == (O, 227949340)
    ensures PickKind(227949340) == (I, 1654776613)
  {
    NextRandomIsLcg(InitialSeed);
    NextRandomIsLcg(3910799);
    NextRandomIsLcg(227949340);
  }
}
