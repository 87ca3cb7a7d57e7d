/** What the functions of module Nand mean, in bytes: the logical view, reads at any position, and when a call fails. */
module NandLaws {
  import opened BlockMath
  import opened Bytes
  import opened Nand

  function GoodIn(bad: seq<bool>): nat {
    if |bad| == 0 then 0 else (if bad[0] then 0 else 1) + GoodIn(bad[1..])
  }

  /** The view byte for byte: as many whole blocks as there are good ones, and each good block in its turn. */
  lemma {:induction false} ViewAt(blocks: seq<seq<Byte>>, bad: seq<bool>, e: nat, q: nat, r: nat)
    requires |bad| == |blocks| && Uniform(blocks, e)
    ensures |View(blocks, bad)| == Span(GoodIn(bad), e)
    ensures q < |blocks| && !bad[q] && r < e ==>
              var at := Span(GoodIn(bad[..q]), e) + r;
              at < |View(blocks, bad)| && View(blocks, bad)[at] == blocks[q][r]
    decreases |blocks|
  {
    if |blocks| > 0 {
      ViewAt(blocks[1..], bad[1..], e, if q > 0 then q - 1 else 0, r);
      if 0 < q < |blocks| {
        assert bad[..q][1..] == bad[1..][..q - 1];
      }
    }
  }

  /** Reading from a position that agrees with a logical offset returns the slice of the logical view there. */
  lemma ReadIsLogicalSlice(p: Partition, len: nat, offset: nat, pos: nat)
    requires p.Valid() && Tracks(p, offset, pos) && offset + len <= |Logical(p)|
    ensures Read(p, len, pos) == Got(Logical(p)[offset..offset + len])
  {
    hide BlockOf, InBlock, View, Get, BadRun;
    var e := p.eraseSize;
    var q, r := BlockOf(pos, e), InBlock(pos, e);
    ViewSplit(p.blocks, p.bad, q);
    if len == 0 {
      assert Logical(p)[offset..offset] == [];
    } else {
      NoView(p.blocks, p.bad);
      var tail := View(p.blocks[q..], p.bad[q..]);
      assert tail[r..r + len] == Logical(p)[offset..offset + len];
      if r == 0 {
        GetReadsView(p.blocks[q..], p.bad[q..], e, len, Zeros(e));
      } else {
        ReadInside(p, len, q, r);
      }
    }
  }

  lemma NoView(blocks: seq<seq<Byte>>, bad: seq<bool>)
    requires |bad| == |blocks|
    ensures View(blocks[|blocks|..], bad[|bad|..]) == []
  {
  }

  lemma ReadInside(p: Partition, len: nat, q: nat, r: nat)
    requires p.Valid() && q < |p.blocks| && !p.bad[q] && 0 < r < p.eraseSize
    requires r + len <= |View(p.blocks[q..], p.bad[q..])|
    ensures BadRun(p.bad[q..]) == 0
    ensures var head := if len < p.eraseSize - r then len else p.eraseSize - r;
            var buffer := p.blocks[q][r..] + Zeros(p.eraseSize)[p.eraseSize - r..];
            buffer[..head] + ReadAligned(p, q + 1, len - head, buffer) == View(p.blocks[q..], p.bad[q..])[r..r + len]
  {
    var e := p.eraseSize;
    var buffer := p.blocks[q][r..] + Zeros(e)[e - r..];
    var tail := View(p.blocks[q + 1..], p.bad[q + 1..]);
    assert p.blocks[q..][1..] == p.blocks[q + 1..] && p.bad[q..][1..] == p.bad[q + 1..];
    assert View(p.blocks[q..], p.bad[q..]) == p.blocks[q] + tail;
    if len < e - r {
      assert buffer[..len] == p.blocks[q][r..r + len] == (p.blocks[q] + tail)[r..r + len];
      assert ReadAligned(p, q + 1, 0, buffer) == [];
    } else {
      ReadRest(p, q + 1, len - (e - r), buffer);
      assert buffer[..e - r] == p.blocks[q][r..];
      assert p.blocks[q][r..] + tail[..len - (e - r)] == (p.blocks[q] + tail)[r..r + len];
    }
  }

  lemma ReadRest(p: Partition, q: nat, len: nat, buffer: seq<Byte>)
    requires p.Valid() && q <= |p.blocks| && |buffer| == p.eraseSize && len <= |View(p.blocks[q..], p.bad[q..])|
    ensures ReadAligned(p, q, len, buffer) == View(p.blocks[q..], p.bad[q..])[..len]
  {
    if q < |p.blocks| {
      GetReadsView(p.blocks[q..], p.bad[q..], p.eraseSize, len, buffer);
    }
  }

  /** A read fails exactly when it begins inside a block and every block from there to the end is bad. */
  lemma ReadFailsIff(p: Partition, len: nat, pos: nat)
    requires p.Valid()
    ensures var q := BlockOf(pos, p.eraseSize);
            Read(p, len, pos) == ReadFailed <==>
            len > 0 && InBlock(pos, p.eraseSize) > 0 && q < |p.blocks| && false !in p.bad[q..]
  {
    hide BlockOf, InBlock, Get;
    var q := BlockOf(pos, p.eraseSize);
    if q < |p.blocks| {
      var bad := p.bad[q..];
      if BadRun(bad) < |bad| {
        assert bad[BadRun(bad)] == false;
      }
    }
  }

  /** A write gives up exactly when it begins inside a block and every block from there to the end is bad, and then it
      has written nothing; a write that is answered for is answered for whole. */
  lemma WriteFailsIff(p: Partition, data: seq<Byte>, pos: nat)
    requires p.Valid()
    ensures var q, w := BlockOf(pos, p.eraseSize), Write(p, data, pos);
            (w.result == Failed <==>
              |data| > 0 && InBlock(pos, p.eraseSize) > 0 && q < |p.blocks| && false !in p.bad[q..]) &&
            (w.result == Failed ==> w.p == p) && (w.result.Written? ==> w.result == Written(|data|)) &&
            (|data| > 0 && q >= |p.blocks| ==>
              w.p == p && (w.result == Written(|data|) <==> 0 < InBlock(pos, p.eraseSize) <= p.eraseSize - |data|))
  {
    hide BlockOf, InBlock, Put, PatchBlock;
    var q := BlockOf(pos, p.eraseSize);
    if q < |p.blocks| {
      var bad := p.bad[q..];
      if BadRun(bad) < |bad| {
        assert bad[BadRun(bad)] == false;
      }
    }
  }
}
