/** Positions in memory made of equal blocks. */
module BlockMath {
  lemma DivModOf(q: nat, e: nat, r: nat)
    requires r < e
    ensures (q * e + r) / e == q && (q * e + r) % e == r
  {
    var x := q * e + r;
    var d := x / e;
    assert x == d * e + x % e;
    if d < q {
      MulMono(d + 1, q, e);
    } else if q < d {
      MulMono(q + 1, d, e);
    }
  }

  /** `n * e`. */
  function Span(n: nat, e: nat): (m: nat) {
    if n == 0 then 0 else e + Span(n - 1, e)
  }

  lemma {:induction false} SpanIsProduct(n: nat, e: nat)
    ensures Span(n, e) == n * e
  {
    if n > 0 {
      SpanIsProduct(n - 1, e);
      assert n * e == (n - 1) * e + e;
    }
  }

  lemma SpanOne(e: nat)
    ensures Span(1, e) == e
  {
  }

  lemma {:induction false} SpanAdds(m: nat, n: nat, e: nat)
    ensures Span(m + n, e) == Span(m, e) + Span(n, e)
    decreases m
  {
    if m > 0 {
      SpanAdds(m - 1, n, e);
    }
  }

  lemma MulMono(a: nat, b: nat, e: nat)
    requires a <= b
    ensures a * e <= b * e
  {
  }

  lemma DivModParts(x: nat, e: nat)
    requires e > 0
    ensures x == (x / e) * e + x % e && x % e < e
  {
  }

  lemma OneBlockFurther(x: nat, e: nat)
    requires e > 0
    ensures (x + e) / e == x / e + 1 && (x + e) % e == x % e
  {
    DivModParts(x, e);
    assert x + e == (x / e + 1) * e + x % e;
    DivModOf(x / e + 1, e, x % e);
  }

  lemma InFirstBlock(x: nat, e: nat)
    requires x < e
    ensures x / e == 0 && x % e == x
  {
    DivModOf(0, e, x);
  }

  /** The block and the place in it that a position addresses. */
  function BlockOf(pos: nat, e: nat): nat
    requires e > 0
  {
    pos / e
  }

  function InBlock(pos: nat, e: nat): (r: nat)
    requires e > 0
    ensures r < e
  {
    pos % e
  }

  lemma PositionParts(pos: nat, e: nat)
    requires e > 0
    ensures pos == Span(BlockOf(pos, e), e) + InBlock(pos, e)
  {
    DivModParts(pos, e);
    SpanIsProduct(BlockOf(pos, e), e);
  }

  lemma PositionOf(q: nat, e: nat, r: nat)
    requires r < e
    ensures BlockOf(Span(q, e) + r, e) == q && InBlock(Span(q, e) + r, e) == r
  {
    DivModOf(q, e, r);
    SpanIsProduct(q, e);
  }

  lemma OneFurther(pos: nat, e: nat)
    requires e > 0
    ensures BlockOf(pos + e, e) == BlockOf(pos, e) + 1 && InBlock(pos + e, e) == InBlock(pos, e)
  {
    OneBlockFurther(pos, e);
  }

  lemma SameInBlock(offset: nat, n: nat, e: nat)
    requires e > 0
    ensures InBlock(offset + n * e, e) == InBlock(offset, e)
  {
    PositionParts(offset, e);
    var q, r := BlockOf(offset, e), InBlock(offset, e);
    SpanIsProduct(n, e);
    SpanAdds(q, n, e);
    PositionOf(q + n, e, r);
  }

  lemma NextBoundary(pos: nat, e: nat, n: nat)
    requires e > 0 && n <= e - InBlock(pos, e)
    ensures n == e - InBlock(pos, e) ==> InBlock(pos + n, e) == 0 && BlockOf(pos + n, e) == BlockOf(pos, e) + 1
  {
    PositionParts(pos, e);
    var q := BlockOf(pos, e);
    SpanAdds(1, q, e);
    SpanOne(e);
    if n == e - InBlock(pos, e) {
      PositionOf(q + 1, e, 0);
    }
  }

  lemma TailSize(x: nat, e: nat, n: nat)
    requires n < e && InBlock(x, e) == 0
    ensures InBlock(x + n, e) == n
  {
    PositionParts(x, e);
    PositionOf(BlockOf(x, e), e, n);
  }
}
