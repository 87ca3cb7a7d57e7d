/** A NAND partition with bad blocks, and what the driver's read and write loops do to it.
    The loops are specified block by block; the lemmas relate them to the logical view of
    the partition, the good blocks in order. */
module Nand {
  import opened Bytes
  import opened BlockMath

  ghost predicate Uniform(blocks: seq<seq<Byte>>, e: nat) {
    forall k :: 0 <= k < |blocks| ==> |blocks[k]| == e
  }

  /** One entry of /proc/mtd together with the flash behind it. */
  datatype Partition = Partition(name: seq<Byte>, eraseSize: nat, blocks: seq<seq<Byte>>, bad: seq<bool>) {
    ghost predicate Valid() {
      eraseSize > 0 && |bad| == |blocks| && Uniform(blocks, eraseSize)
    }

    function Size(): nat {
      |blocks| * eraseSize
    }
  }

  // ----- the logical view

  /** The good blocks in order. */
  function View(blocks: seq<seq<Byte>>, bad: seq<bool>): (v: seq<Byte>)
    requires |bad| == |blocks|
    decreases |blocks|
  {
    if |blocks| == 0 then []
    else (if bad[0] then [] else blocks[0]) + View(blocks[1..], bad[1..])
  }

  function Logical(p: Partition): (v: seq<Byte>)
    requires |p.bad| == |p.blocks|
  {
    View(p.blocks, p.bad)
  }

  lemma {:induction false} ViewAppend(a: seq<seq<Byte>>, ab: seq<bool>, c: seq<seq<Byte>>, cb: seq<bool>)
    requires |a| == |ab| && |c| == |cb|
    ensures View(a + c, ab + cb) == View(a, ab) + View(c, cb)
    decreases |a|
  {
    if |a| == 0 {
      assert a + c == c && ab + cb == cb;
    } else {
      assert (a + c)[1..] == a[1..] + c && (ab + cb)[1..] == ab[1..] + cb;
      ViewAppend(a[1..], ab[1..], c, cb);
    }
  }

  lemma ViewSplit(blocks: seq<seq<Byte>>, bad: seq<bool>, q: nat)
    requires |bad| == |blocks| && q <= |blocks|
    ensures View(blocks, bad) == View(blocks[..q], bad[..q]) + View(blocks[q..], bad[q..])
  {
    hide View;
    ViewAppend(blocks[..q], bad[..q], blocks[q..], bad[q..]);
    assert blocks[..q] + blocks[q..] == blocks && bad[..q] + bad[q..] == bad;
  }

  // ----- writing from a block boundary

  /** What a run of block writes leaves: the blocks, how many bad ones were skipped, how many bytes
      found no block. */
  datatype PutEnd = PutEnd(blocks: seq<seq<Byte>>, skipped: nat, left: nat)

  /** Write `rest` block by block: skip bad blocks, replace whole blocks, patch the start of the last. */
  function Put(blocks: seq<seq<Byte>>, bad: seq<bool>, e: nat, rest: seq<Byte>): (r: PutEnd)
    requires e > 0 && |bad| == |blocks| && Uniform(blocks, e)
    ensures |r.blocks| == |blocks| && Uniform(r.blocks, e)
    decreases |blocks|
  {
    if |rest| == 0 then PutEnd(blocks, 0, 0)
    else if |blocks| == 0 then PutEnd([], 0, |rest|)
    else if bad[0] then
      var t := Put(blocks[1..], bad[1..], e, rest);
      PutEnd([blocks[0]] + t.blocks, t.skipped + 1, t.left)
    else if |rest| < e then
      PutEnd([Splice(blocks[0], 0, rest)] + blocks[1..], 0, 0)
    else
      var t := Put(blocks[1..], bad[1..], e, rest[e..]);
      PutEnd([rest[..e]] + t.blocks, t.skipped, t.left)
  }

  /** Number of leading bad blocks. */
  function BadRun(bad: seq<bool>): (n: nat)
    ensures n <= |bad|
    ensures forall k :: 0 <= k < n ==> bad[k]
    ensures n < |bad| ==> !bad[n]
    decreases |bad|
  {
    if |bad| > 0 && bad[0] then 1 + BadRun(bad[1..]) else 0
  }

  lemma {:induction false} PutSkips(blocks: seq<seq<Byte>>, bad: seq<bool>, e: nat, rest: seq<Byte>)
    requires e > 0 && |bad| == |blocks| && Uniform(blocks, e)
    requires |rest| > 0
    ensures var s := BadRun(bad);
            var t := Put(blocks[s..], bad[s..], e, rest);
            Put(blocks, bad, e, rest) == PutEnd(blocks[..s] + t.blocks, t.skipped + s, t.left)
    decreases |blocks|
  {
    var s := BadRun(bad);
    if s == 0 {
      assert blocks[s..] == blocks && bad[s..] == bad && blocks[..s] == [];
    } else {
      PutSkips(blocks[1..], bad[1..], e, rest);
      assert blocks[1..][s - 1..] == blocks[s..] && bad[1..][s - 1..] == bad[s..];
      var t := Put(blocks[s..], bad[s..], e, rest);
      assert [blocks[0]] + (blocks[1..][..s - 1] + t.blocks) == blocks[..s] + t.blocks;
    }
  }

  /** Block writes refine overwriting a prefix of the logical view; they run out of blocks exactly when
      the data is longer than that view. */
  lemma {:induction false} PutRefinesOverwrite(blocks: seq<seq<Byte>>, bad: seq<bool>, e: nat, rest: seq<Byte>)
    requires e > 0 && |bad| == |blocks| && Uniform(blocks, e)
    ensures var t := Put(blocks, bad, e, rest);
            var v := View(blocks, bad);
            if |rest| <= |v| then t.left == 0 && View(t.blocks, bad) == Splice(v, 0, rest)
            else t.left == |rest| - |v| && View(t.blocks, bad) == rest[..|v|]
    decreases |blocks|
  {
    var v := View(blocks, bad);
    if |rest| == 0 {
      assert Splice(v, 0, rest) == v;
    } else if |blocks| == 0 {
    } else {
      var t := Put(blocks, bad, e, rest);
      var bt := blocks[1..];
      var tail := View(bt, bad[1..]);
      if bad[0] {
        PutRefinesOverwrite(bt, bad[1..], e, rest);
        assert t.blocks[1..] == Put(bt, bad[1..], e, rest).blocks;
      } else if |rest| < e {
        assert t.blocks[1..] == bt;
        assert Splice(blocks[0], 0, rest) + tail == Splice(v, 0, rest);
      } else {
        PutRefinesOverwrite(bt, bad[1..], e, rest[e..]);
        assert t.blocks[1..] == Put(bt, bad[1..], e, rest[e..]).blocks;
        if |rest| <= |v| {
          SpliceAcross(blocks[0], tail, rest);
        } else {
          assert rest[..e] + rest[e..][..|tail|] == rest[..|v|];
        }
      }
    }
  }

  // ----- physical positions

  /** A physical position agrees with a logical offset: the good blocks before it hold exactly the bytes
      before the offset, and a position inside a block lies in a good one. */
  ghost predicate At(blocks: seq<seq<Byte>>, bad: seq<bool>, e: nat, offset: nat, pos: nat)
    requires e > 0 && |bad| == |blocks|
  {
    var q, r := BlockOf(pos, e), InBlock(pos, e);
    q <= |blocks| && |View(blocks[..q], bad[..q])| + r == offset && (r != 0 ==> q < |blocks| && !bad[q])
  }

  ghost predicate Tracks(p: Partition, offset: nat, pos: nat)
    requires p.Valid()
  {
    At(p.blocks, p.bad, p.eraseSize, offset, pos)
  }

  lemma ConsAt(blocks: seq<seq<Byte>>, bad: seq<bool>, e: nat, offset: nat, pos: nat)
    requires e > 0 && |bad| == |blocks| > 0 && Uniform(blocks, e)
    requires At(blocks[1..], bad[1..], e, offset, pos)
    ensures At(blocks, bad, e, offset + (if bad[0] then 0 else e), pos + e)
  {
    OneBlockFurther(pos, e);
    var q := pos / e;
    assert blocks[..q + 1][1..] == blocks[1..][..q] && bad[..q + 1][1..] == bad[1..][..q];
  }

  lemma FirstBlockAt(blocks: seq<seq<Byte>>, bad: seq<bool>, e: nat, offset: nat)
    requires |bad| == |blocks| && offset < e && (offset > 0 ==> |bad| > 0 && !bad[0])
    ensures At(blocks, bad, e, offset, offset)
  {
    InFirstBlock(offset, e);
  }

  /** The position after a run of block writes agrees with the number of bytes written. */
  lemma {:induction false} PutAt(blocks: seq<seq<Byte>>, bad: seq<bool>, e: nat, rest: seq<Byte>)
    requires e > 0 && |bad| == |blocks| && Uniform(blocks, e)
    requires Put(blocks, bad, e, rest).left == 0
    ensures var t := Put(blocks, bad, e, rest);
            At(t.blocks, bad, e, |rest|, |rest| + Span(t.skipped, e))
    decreases |blocks|
  {
    hide At;
    var t := Put(blocks, bad, e, rest);
    if |rest| < e && (|rest| == 0 || !bad[0]) {
      FirstBlockAt(t.blocks, bad, e, |rest|);
    } else {
      var rest' := if bad[0] then rest else rest[e..];
      var u := Put(blocks[1..], bad[1..], e, rest');
      PutAt(blocks[1..], bad[1..], e, rest');
      assert t.blocks[1..] == u.blocks;
      ConsAt(t.blocks, bad, e, |rest'|, |rest'| + Span(u.skipped, e));
    }
  }

  lemma {:induction false} AppendAt(a: seq<seq<Byte>>, ab: seq<bool>, c: seq<seq<Byte>>, cb: seq<bool>, e: nat,
                                    offset: nat, pos: nat)
    requires e > 0 && |a| == |ab| && |c| == |cb| && Uniform(a, e) && Uniform(c, e)
    requires At(c, cb, e, offset, pos)
    ensures At(a + c, ab + cb, e, |View(a, ab)| + offset, pos + Span(|a|, e))
    decreases |a|
  {
    hide At;
    if |a| == 0 {
      assert a + c == c && ab + cb == cb;
    } else {
      AppendAt(a[1..], ab[1..], c, cb, e, offset, pos);
      assert (a + c)[1..] == a[1..] + c && (ab + cb)[1..] == ab[1..] + cb;
      ConsAt(a + c, ab + cb, e, |View(a[1..], ab[1..])| + offset, pos + Span(|a[1..]|, e));
    }
  }

  // ----- the whole write call

  datatype WriteResult =
    | Written(count: nat)  // the value returned
    | Failed               // -1
    | Stuck                // the loop repeats without progress: the device refuses the position for ever

  datatype WriteEnd = WriteEnd(result: WriteResult, p: Partition, skipped: nat)

  /** `mtd_write_data` on one partition from physical position `pos`. */
  function Write(p: Partition, data: seq<Byte>, pos: nat): (w: WriteEnd)
    requires p.Valid()
    ensures w.p.Valid() && w.p == p.(blocks := w.p.blocks) && |w.p.blocks| == |p.blocks|
  {
    var e := p.eraseSize;
    var q, r := BlockOf(pos, e), InBlock(pos, e);
    if |data| == 0 then WriteEnd(Written(0), p, 0)
    else if q >= |p.blocks| then
      // The device refuses the position. A short head still counts as written: its length is set first.
      WriteEnd(if r > 0 && |data| <= e - r then Written(|data|) else Stuck, p, 0)
    else if r == 0 then WriteAligned(p, q, data, |data|, 0)
    else
      var s := BadRun(p.bad[q..]);
      if q + s == |p.blocks| then WriteEnd(Failed, p, s)
      else
        var head := if |data| < e - r then |data| else e - r;
        WriteAligned(PatchBlock(p, q + s, r, data[..head]), q + s + 1, data[head..], |data|, s)
  }

  function PatchBlock(p: Partition, q: nat, r: nat, d: seq<Byte>): (p': Partition)
    requires p.Valid() && q < |p.blocks| && r + |d| <= p.eraseSize
    ensures p'.Valid() && p' == p.(blocks := p'.blocks) && |p'.blocks| == |p.blocks|
  {
    p.(blocks := p.blocks[q := Splice(p.blocks[q], r, d)])
  }

  function WriteAligned(p: Partition, q: nat, rest: seq<Byte>, total: nat, skipped: nat): (w: WriteEnd)
    requires p.Valid() && q <= |p.blocks|
    ensures w.p.Valid() && w.p == p.(blocks := w.p.blocks) && |w.p.blocks| == |p.blocks|
  {
    var t := Put(p.blocks[q..], p.bad[q..], p.eraseSize, rest);
    WriteEnd(if t.left == 0 then Written(total) else Stuck,
             p.(blocks := p.blocks[..q] + t.blocks), skipped + t.skipped)
  }

  /** A bad block is never erased or written, whatever the position. */
  lemma WriteSparesBadBlocks(p: Partition, data: seq<Byte>, pos: nat, k: nat)
    requires p.Valid() && k < |p.blocks| && p.bad[k]
    ensures Write(p, data, pos).p.blocks[k] == p.blocks[k]
  {
    hide WriteAligned, PatchBlock, BadRun, BlockOf, InBlock;
    var e := p.eraseSize;
    var q, r := BlockOf(pos, e), InBlock(pos, e);
    if |data| > 0 && q < |p.blocks| {
      if r == 0 {
        AlignedWriteSparesBadBlocks(p, q, data, |data|, 0, k);
      } else {
        var s := BadRun(p.bad[q..]);
        if q + s < |p.blocks| {
          var head := if |data| < e - r then |data| else e - r;
          GoodRunNext(p.bad[q..]);
          PatchSparesOthers(p, q + s, r, data[..head], k);
          AlignedWriteSparesBadBlocks(PatchBlock(p, q + s, r, data[..head]), q + s + 1, data[head..], |data|, s, k);
        }
      }
    }
  }

  lemma PatchSparesOthers(p: Partition, q: nat, r: nat, d: seq<Byte>, k: nat)
    requires p.Valid() && q < |p.blocks| && r + |d| <= p.eraseSize && k < |p.blocks| && k != q
    ensures PatchBlock(p, q, r, d).blocks[k] == p.blocks[k]
  {
  }

  lemma AlignedWriteSparesBadBlocks(p: Partition, q: nat, rest: seq<Byte>, total: nat, skipped: nat, k: nat)
    requires p.Valid() && q <= |p.blocks| && k < |p.blocks| && p.bad[k]
    ensures WriteAligned(p, q, rest, total, skipped).p.blocks[k] == p.blocks[k]
  {
    if k >= q {
      PutSparesBadBlocks(p.blocks[q..], p.bad[q..], p.eraseSize, rest, k - q);
    }
  }

  lemma {:induction false} PutSparesBadBlocks(blocks: seq<seq<Byte>>, bad: seq<bool>, e: nat, rest: seq<Byte>, k: nat)
    requires e > 0 && |bad| == |blocks| && Uniform(blocks, e)
    requires k < |bad| && bad[k]
    ensures Put(blocks, bad, e, rest).blocks[k] == blocks[k]
    decreases |blocks|
  {
    if |rest| > 0 && k > 0 {
      if bad[0] {
        PutSparesBadBlocks(blocks[1..], bad[1..], e, rest, k - 1);
      } else if |rest| >= e {
        PutSparesBadBlocks(blocks[1..], bad[1..], e, rest[e..], k - 1);
      }
    }
  }

  /** Up to where a tracked offset is inside the view. */
  lemma TracksIsInside(p: Partition, offset: nat, pos: nat)
    requires p.Valid() && Tracks(p, offset, pos)
    ensures offset <= |Logical(p)|
  {
    var q := BlockOf(pos, p.eraseSize);
    ViewSplit(p.blocks, p.bad, q);
  }

  lemma AlignedWriteRefinesOverwrite(p: Partition, q: nat, base: nat, rest: seq<Byte>, total: nat, skipped: nat)
    requires p.Valid() && q <= |p.blocks| && base == |View(p.blocks[..q], p.bad[..q])|
    ensures base <= |Logical(p)|
    ensures var w := WriteAligned(p, q, rest, total, skipped);
            if base + |rest| <= |Logical(p)|
            then w.result == Written(total) && Logical(w.p) == Splice(Logical(p), base, rest)
            else w.result == Stuck && Logical(w.p) == Splice(Logical(p), base, rest[..|Logical(p)| - base])
  {
    hide View, Put;
    var lo, lb, hi, hb := p.blocks[..q], p.bad[..q], p.blocks[q..], p.bad[q..];
    var t := Put(hi, hb, p.eraseSize, rest);
    ViewSplit(p.blocks, p.bad, q);
    ViewAppend(lo, lb, t.blocks, hb);
    assert lb + hb == p.bad;
    PutRefinesOverwrite(hi, hb, p.eraseSize, rest);
    var v, tail := View(lo, lb), View(hi, hb);
    if |rest| <= |tail| {
      SpliceAfter(v, tail, 0, rest);
    } else {
      SpliceAfter(v, tail, 0, rest[..|tail|]);
    }
  }

  lemma AlignedWriteTracks(p: Partition, q: nat, base: nat, rest: seq<Byte>, total: nat, skipped: nat)
    requires p.Valid() && q <= |p.blocks| && base == |View(p.blocks[..q], p.bad[..q])|
    requires WriteAligned(p, q, rest, total, skipped).result.Written?
    ensures var w := WriteAligned(p, q, rest, total, skipped);
            w.skipped >= skipped &&
            Tracks(w.p, base + |rest|, |rest| + Span(w.skipped - skipped, p.eraseSize) + Span(q, p.eraseSize))
  {
    hide At;
    var e := p.eraseSize;
    var lo, lb, hi, hb := p.blocks[..q], p.bad[..q], p.blocks[q..], p.bad[q..];
    var t := Put(hi, hb, e, rest);
    assert lb + hb == p.bad;
    PutAt(hi, hb, e, rest);
    AppendAt(lo, lb, t.blocks, hb, e, |rest|, |rest| + Span(t.skipped, e));
  }

  /** Outcome `w` of writing `data` at a tracked offset: with room, exactly that slice of the logical view is
      replaced and the end position tracks the next offset; without, the view is filled and the call hangs. */
  ghost predicate Appends(p: Partition, data: seq<Byte>, offset: nat, pos: nat, w: WriteEnd)
    requires p.Valid() && w.p.Valid()
  {
    offset <= |Logical(p)| && w.p == p.(blocks := w.p.blocks) &&
    if offset + |data| <= |Logical(p)|
    then w.result == Written(|data|) && Logical(w.p) == Splice(Logical(p), offset, data) &&
         Tracks(w.p, offset + |data|, pos + |data| + Span(w.skipped, p.eraseSize))
    else w.result == Stuck && Logical(w.p) == Splice(Logical(p), offset, data[..|Logical(p)| - offset])
  }

  /** Consecutive writes refine a linear append. On a tracked offset the call succeeds exactly when the data
      fits in the good blocks; it then overwrites exactly that slice of the logical view, keeps every other
      byte, and ends at a position that tracks the next offset. Without room it fills the view and hangs. */
  lemma WriteRefinesAppend(p: Partition, data: seq<Byte>, offset: nat, pos: nat)
    requires p.Valid() && Tracks(p, offset, pos)
    ensures Appends(p, data, offset, pos, Write(p, data, pos))
  {
    var e := p.eraseSize;
    var q, r := BlockOf(pos, e), InBlock(pos, e);
    TracksIsInside(p, offset, pos);
    PositionParts(pos, e);
    hide At, BlockOf, InBlock;
    if |data| == 0 {
      assert Splice(Logical(p), offset, data) == Logical(p);
    } else if q == |p.blocks| {
      assert p.blocks[..q] == p.blocks && p.bad[..q] == p.bad;
      assert Splice(Logical(p), offset, data[..0]) == Logical(p);
    } else if r == 0 {
      AlignedWriteRefinesOverwrite(p, q, offset, data, |data|, 0);
      if offset + |data| <= |Logical(p)| {
        AlignedWriteTracks(p, q, offset, data, |data|, 0);
      }
    } else {
      HeadWriteRefinesAppend(p, data, offset, pos);
    }
  }

  lemma PatchInView(p: Partition, q: nat, r: nat, d: seq<Byte>)
    requires p.Valid() && q < |p.blocks| && !p.bad[q] && r + |d| <= p.eraseSize
    ensures var base := |View(p.blocks[..q], p.bad[..q])|;
            var p' := PatchBlock(p, q, r, d);
            base + p.eraseSize <= |Logical(p)| &&
            Logical(p') == Splice(Logical(p), base + r, d) &&
            |View(p'.blocks[..q + 1], p'.bad[..q + 1])| == base + p.eraseSize
  {
    var p' := PatchBlock(p, q, r, d);
    var lo, lb := p.blocks[..q], p.bad[..q];
    var hi, hb := p.blocks[q + 1..], p.bad[q + 1..];
    GoodBlockView(p.blocks, p.bad, q);
    GoodBlockView(p'.blocks, p'.bad, q);
    assert p'.blocks[..q] == lo && p'.blocks[q + 1..] == hi;
    SpliceInside(View(lo, lb), p.blocks[q], View(hi, hb), r, d);
  }

  lemma GoodBlockView(blocks: seq<seq<Byte>>, bad: seq<bool>, q: nat)
    requires |bad| == |blocks| && q < |blocks| && !bad[q]
    ensures View(blocks[..q + 1], bad[..q + 1]) == View(blocks[..q], bad[..q]) + blocks[q]
    ensures View(blocks, bad) == View(blocks[..q], bad[..q]) + blocks[q] + View(blocks[q + 1..], bad[q + 1..])
  {
    ViewSplit(blocks, bad, q + 1);
    ViewSplit(blocks[..q + 1], bad[..q + 1], q);
    assert blocks[..q + 1][..q] == blocks[..q] && bad[..q + 1][..q] == bad[..q];
    var last, lastBad := blocks[..q + 1][q..], bad[..q + 1][q..];
    assert |last[1..]| == 0 && last[0] == blocks[q] && !lastBad[0];
  }

  lemma WriteNothing(p: Partition, q: nat, total: nat, skipped: nat)
    requires p.Valid() && q <= |p.blocks|
    ensures WriteAligned(p, q, [], total, skipped) == WriteEnd(Written(total), p, skipped)
  {
    assert p.blocks[..q] + p.blocks[q..] == p.blocks;
  }

  lemma InsideBlockAt(blocks: seq<seq<Byte>>, bad: seq<bool>, e: nat, q: nat, r: nat)
    requires |bad| == |blocks| && q < |blocks| && !bad[q] && r < e
    ensures At(blocks, bad, e, |View(blocks[..q], bad[..q])| + r, Span(q, e) + r)
  {
    PositionOf(q, e, r);
  }

  /** A write that starts inside good block `q` and stays short of its end. */
  lemma ShortHeadWrite(p: Partition, q: nat, r: nat, data: seq<Byte>, offset: nat)
    requires p.Valid() && q < |p.blocks| && !p.bad[q] && 0 < r && r + |data| < p.eraseSize
    requires offset == |View(p.blocks[..q], p.bad[..q])| + r
    ensures Appends(p, data, offset, Span(q, p.eraseSize) + r,
                    WriteEnd(Written(|data|), PatchBlock(p, q, r, data), 0))
  {
    hide Splice, View, BlockOf, InBlock;
    var p' := PatchBlock(p, q, r, data);
    assert p'.blocks[..q] == p.blocks[..q];
    PatchInView(p, q, r, data);
    InsideBlockAt(p'.blocks, p'.bad, p.eraseSize, q, r + |data|);
  }

  /** A write that starts inside good block `q` and fills it. */
  lemma LongHeadWrite(p: Partition, q: nat, r: nat, head: seq<Byte>, rest: seq<Byte>, offset: nat)
    requires p.Valid() && q < |p.blocks| && !p.bad[q] && 0 < r && r + |head| == p.eraseSize
    requires offset == |View(p.blocks[..q], p.bad[..q])| + r
    ensures Appends(p, head + rest, offset, Span(q, p.eraseSize) + r,
                    WriteAligned(PatchBlock(p, q, r, head), q + 1, rest, |head + rest|, 0))
  {
    hide At, Splice, PatchBlock, WriteAligned, View;
    var p' := PatchBlock(p, q, r, head);
    var v := Logical(p);
    PatchInView(p, q, r, head);
    AlignedWriteRefinesOverwrite(p', q + 1, offset + |head|, rest, |head + rest|, 0);
    if offset + |head| + |rest| <= |v| {
      AlignedWriteTracks(p', q + 1, offset + |head|, rest, |head + rest|, 0);
      SpliceTwice(v, offset, head, rest);
    } else {
      var fit := rest[..|v| - offset - |head|];
      SpliceTwice(v, offset, head, fit);
      assert head + fit == (head + rest)[..|v| - offset];
    }
  }

  /** From inside a good block. */
  lemma WriteInside(p: Partition, data: seq<Byte>, pos: nat)
    requires p.Valid() && |data| > 0 && InBlock(pos, p.eraseSize) != 0
    requires BlockOf(pos, p.eraseSize) < |p.blocks| && !p.bad[BlockOf(pos, p.eraseSize)]
    ensures var e := p.eraseSize;
            var q, r := BlockOf(pos, e), InBlock(pos, e);
            var head := if |data| < e - r then |data| else e - r;
            Write(p, data, pos) == WriteAligned(PatchBlock(p, q, r, data[..head]), q + 1, data[head..], |data|, 0)
  {
    hide BlockOf, InBlock, PatchBlock, WriteAligned;
    assert BadRun(p.bad[BlockOf(pos, p.eraseSize)..]) == 0;
  }

  lemma HeadWriteRefinesAppend(p: Partition, data: seq<Byte>, offset: nat, pos: nat)
    requires p.Valid() && Tracks(p, offset, pos)
    requires |data| > 0 && InBlock(pos, p.eraseSize) != 0
    ensures Appends(p, data, offset, pos, Write(p, data, pos))
  {
    hide BlockOf, InBlock, PatchBlock, Write, WriteAligned, Appends, View, Span;
    var e := p.eraseSize;
    var q, r := BlockOf(pos, e), InBlock(pos, e);
    PositionParts(pos, e);
    WriteInside(p, data, pos);
    if |data| < e - r {
      assert data[..|data|] == data && data[|data|..] == [];
      ShortHeadWrite(p, q, r, data, offset);
      WriteNothing(PatchBlock(p, q, r, data), q + 1, |data|, 0);
    } else {
      assert data[..e - r] + data[e - r..] == data;
      LongHeadWrite(p, q, r, data[..e - r], data[e - r..], offset);
    }
  }

  // ----- resetting the counter

  lemma {:induction false} ViewIsFull(blocks: seq<seq<Byte>>, bad: seq<bool>, e: nat)
    requires e > 0 && |bad| == |blocks| && Uniform(blocks, e)
    ensures |View(blocks, bad)| <= Span(|blocks|, e)
    ensures |View(blocks, bad)| == Span(|blocks|, e) <==> true !in bad
    decreases |blocks|
  {
    if |blocks| > 0 {
      ViewIsFull(blocks[1..], bad[1..], e);
      assert bad == [bad[0]] + bad[1..];
    }
  }

  /** With the bad-block counter at zero the position is the offset itself. It tracks the offset exactly
      when no block before or at the position is bad. */
  lemma ResetTracksIff(p: Partition, offset: nat)
    requires p.Valid()
    ensures Tracks(p, offset, offset) <==>
            var q, r := BlockOf(offset, p.eraseSize), InBlock(offset, p.eraseSize);
            (if r == 0 then q else q + 1) <= |p.blocks| &&
            true !in p.bad[..if r == 0 then q else q + 1]
  {
    var q, r := BlockOf(offset, p.eraseSize), InBlock(offset, p.eraseSize);
    PositionParts(offset, p.eraseSize);
    hide BlockOf, InBlock, Span, View;
    if q <= |p.blocks| {
      ViewIsFull(p.blocks[..q], p.bad[..q], p.eraseSize);
      if q < |p.blocks| {
        assert p.bad[..q + 1] == p.bad[..q] + [p.bad[q]];
      }
    }
  }

  // ----- reading

  /** Read `len` bytes block by block; past the last block the buffer keeps what it held. */
  function Get(blocks: seq<seq<Byte>>, bad: seq<bool>, e: nat, len: nat, buffer: seq<Byte>): (r: seq<Byte>)
    requires e > 0 && |bad| == |blocks| && |buffer| == e && Uniform(blocks, e)
    ensures |r| == len
    decreases |blocks|, len
  {
    if len == 0 then []
    else if |blocks| == 0 then
      if len < e then buffer[..len] else buffer + Get(blocks, bad, e, len - e, buffer)
    else if bad[0] then Get(blocks[1..], bad[1..], e, len, buffer)
    else
      if len < e then blocks[0][..len] else blocks[0] + Get(blocks[1..], bad[1..], e, len - e, blocks[0])
  }

  /** `mtd_read_data`: -1, or the bytes delivered. */
  datatype ReadResult = ReadFailed | Got(data: seq<Byte>)

  function Read(p: Partition, len: nat, pos: nat): (r: ReadResult)
    requires p.Valid()
    ensures r.Got? ==> |r.data| == len
  {
    var e := p.eraseSize;
    var q, r := BlockOf(pos, e), InBlock(pos, e);
    var zeros := Zeros(e);
    if len == 0 then Got([])
    else if r == 0 then Got(ReadAligned(p, q, len, zeros))
    else
      var s := if q < |p.blocks| then BadRun(p.bad[q..]) else 0;
      if q < |p.blocks| && q + s == |p.blocks| then ReadFailed
      else
        var buffer := if q < |p.blocks| then p.blocks[q + s][r..] + zeros[e - r..] else zeros;
        var head := if len < e - r then len else e - r;
        Got(buffer[..head] + ReadAligned(p, q + s + 1, len - head, buffer))
  }

  function ReadAligned(p: Partition, q: nat, len: nat, buffer: seq<Byte>): (r: seq<Byte>)
    requires p.Valid() && |buffer| == p.eraseSize
    ensures |r| == len
  {
    if q < |p.blocks| then Get(p.blocks[q..], p.bad[q..], p.eraseSize, len, buffer)
    else Get([], [], p.eraseSize, len, buffer)
  }

  /** Reading returns a prefix of the logical view. */
  lemma {:induction false} GetReadsView(blocks: seq<seq<Byte>>, bad: seq<bool>, e: nat, len: nat, buffer: seq<Byte>)
    requires e > 0 && |bad| == |blocks| && |buffer| == e && Uniform(blocks, e)
    requires len <= |View(blocks, bad)|
    ensures Get(blocks, bad, e, len, buffer) == View(blocks, bad)[..len]
    decreases |blocks|
  {
    if len == 0 || |blocks| == 0 {
    } else if bad[0] {
      GetReadsView(blocks[1..], bad[1..], e, len, buffer);
    } else if len >= e {
      GetReadsView(blocks[1..], bad[1..], e, len - e, blocks[0]);
    }
  }

  /** Reading from offset zero returns the beginning of the logical view. */
  lemma ReadIsLogicalPrefix(p: Partition, len: nat)
    requires p.Valid() && len <= |Logical(p)|
    ensures Read(p, len, 0) == Got(Logical(p)[..len])
  {
    InFirstBlock(0, p.eraseSize);
    if len > 0 && |p.blocks| > 0 {
      assert p.blocks[0..] == p.blocks && p.bad[0..] == p.bad;
      GetReadsView(p.blocks, p.bad, p.eraseSize, len, Zeros(p.eraseSize));
    }
  }

  /** What was written from offset zero is read back, whatever the bad blocks. */
  lemma WriteThenRead(p: Partition, data: seq<Byte>)
    requires p.Valid() && |data| <= |Logical(p)|
    ensures Write(p, data, 0).result == Written(|data|)
    ensures Read(Write(p, data, 0).p, |data|, 0) == Got(data)
  {
    FirstBlockAt(p.blocks, p.bad, p.eraseSize, 0);
    WriteRefinesAppend(p, data, 0, 0);
    ReadIsLogicalPrefix(Write(p, data, 0).p, |data|);
  }

  // ----- one round of each loop

  /** What is left to happen at a block boundary with `rest` still to be written. */
  function Remaining(p: Partition, q: nat, rest: seq<Byte>, total: nat, skipped: nat): (w: WriteEnd)
    requires p.Valid()
  {
    if |rest| == 0 then WriteEnd(Written(total), p, skipped)
    else if q >= |p.blocks| then WriteEnd(Stuck, p, skipped)
    else WriteAligned(p, q, rest, total, skipped)
  }

  lemma RemainingStep(p: Partition, q: nat, rest: seq<Byte>, total: nat, skipped: nat)
    requires p.Valid() && |rest| > 0
    ensures var e := p.eraseSize;
            var s := if q < |p.blocks| then BadRun(p.bad[q..]) else 0;
            Remaining(p, q, rest, total, skipped) ==
              if q + s >= |p.blocks| then WriteEnd(Stuck, p, skipped + s)
              else if |rest| < e then WriteEnd(Written(total), PatchBlock(p, q + s, 0, rest), skipped + s)
              else Remaining(PatchBlock(p, q + s, 0, rest[..e]), q + s + 1, rest[e..], total, skipped + s)
  {
    hide Put, PatchBlock, WriteAligned, BadRun;
    if q < |p.blocks| {
      var e := p.eraseSize;
      var s := BadRun(p.bad[q..]);
      WriteAlignedSkips(p, q, rest, total, skipped);
      if q + s == |p.blocks| {
        WriteAlignedRunsOut(p, rest, total, skipped + s);
      } else if |rest| < e {
        WriteAlignedLast(p, q + s, rest, total, skipped + s);
      } else {
        WriteAlignedBlock(p, q + s, rest, total, skipped + s);
        RemainingIsAligned(PatchBlock(p, q + s, 0, rest[..e]), q + s + 1, rest[e..], total, skipped + s);
      }
    }
  }

  lemma RemainingIsAligned(p: Partition, q: nat, rest: seq<Byte>, total: nat, skipped: nat)
    requires p.Valid() && q <= |p.blocks|
    ensures Remaining(p, q, rest, total, skipped) == WriteAligned(p, q, rest, total, skipped)
  {
    hide Put, WriteAligned;
    if |rest| == 0 {
      WriteNothing(p, q, total, skipped);
    } else if q == |p.blocks| {
      WriteAlignedRunsOut(p, rest, total, skipped);
    }
  }

  lemma WriteAlignedSkips(p: Partition, q: nat, rest: seq<Byte>, total: nat, skipped: nat)
    requires p.Valid() && q <= |p.blocks| && |rest| > 0
    ensures var s := BadRun(p.bad[q..]);
            WriteAligned(p, q, rest, total, skipped) == WriteAligned(p, q + s, rest, total, skipped + s)
  {
    hide Put, BadRun;
    var s := BadRun(p.bad[q..]);
    var hi, hb := p.blocks[q..], p.bad[q..];
    PutSkips(hi, hb, p.eraseSize, rest);
    assert hi[s..] == p.blocks[q + s..] && hb[s..] == p.bad[q + s..];
    assert p.blocks[..q] + hi[..s] == p.blocks[..q + s];
    var t := Put(hi[s..], hb[s..], p.eraseSize, rest);
    assert p.blocks[..q] + (hi[..s] + t.blocks) == p.blocks[..q + s] + t.blocks;
  }

  lemma WriteAlignedRunsOut(p: Partition, rest: seq<Byte>, total: nat, skipped: nat)
    requires p.Valid() && |rest| > 0
    ensures WriteAligned(p, |p.blocks|, rest, total, skipped) == WriteEnd(Stuck, p, skipped)
  {
    assert p.blocks[..|p.blocks|] + [] == p.blocks;
  }

  lemma WriteAlignedLast(p: Partition, q: nat, rest: seq<Byte>, total: nat, skipped: nat)
    requires p.Valid() && q < |p.blocks| && !p.bad[q] && 0 < |rest| < p.eraseSize
    ensures WriteAligned(p, q, rest, total, skipped) == WriteEnd(Written(total), PatchBlock(p, q, 0, rest), skipped)
  {
    var hi := p.blocks[q..];
    assert hi[1..] == p.blocks[q + 1..];
    var patched := Splice(p.blocks[q], 0, rest);
    assert p.blocks[..q] + ([patched] + hi[1..]) == p.blocks[q := patched];
  }

  lemma WriteAlignedBlock(p: Partition, q: nat, rest: seq<Byte>, total: nat, skipped: nat)
    requires p.Valid() && q < |p.blocks| && !p.bad[q] && |rest| >= p.eraseSize
    ensures var e := p.eraseSize;
            WriteAligned(p, q, rest, total, skipped) ==
              WriteAligned(PatchBlock(p, q, 0, rest[..e]), q + 1, rest[e..], total, skipped)
  {
    var e := p.eraseSize;
    var p' := PatchBlock(p, q, 0, rest[..e]);
    assert p.blocks[q..][1..] == p.blocks[q + 1..] && p.bad[q..][1..] == p.bad[q + 1..];
    assert Splice(p.blocks[q], 0, rest[..e]) == rest[..e];
    assert p'.blocks[q + 1..] == p.blocks[q + 1..];
    var t := Put(p.blocks[q + 1..], p.bad[q + 1..], e, rest[e..]);
    assert p.blocks[..q] + ([rest[..e]] + t.blocks) == p'.blocks[..q + 1] + t.blocks;
  }

  lemma ReadAlignedStep(p: Partition, q: nat, len: nat, buffer: seq<Byte>)
    requires p.Valid() && |buffer| == p.eraseSize && len > 0
    ensures var e := p.eraseSize;
            var q' := if q < |p.blocks| then q + BadRun(p.bad[q..]) else q;
            var buffer' := if q' < |p.blocks| then p.blocks[q'] else buffer;
            ReadAligned(p, q, len, buffer) ==
              if len < e then buffer'[..len] else buffer' + ReadAligned(p, q' + 1, len - e, buffer')
  {
    hide Get, BadRun;
    if q < |p.blocks| {
      GetSkips(p.blocks[q..], p.bad[q..], p.eraseSize, len, buffer);
      var q' := q + BadRun(p.bad[q..]);
      assert p.blocks[q..][q' - q..] == p.blocks[q'..] && p.bad[q..][q' - q..] == p.bad[q'..];
      GoodRunNext(p.bad[q..]);
      ReadAlignedHere(p, q', len, buffer);
    } else {
      ReadAlignedHere(p, q, len, buffer);
    }
  }

  lemma GoodRunNext(bad: seq<bool>)
    ensures BadRun(bad) < |bad| ==> !bad[BadRun(bad)]
  {
  }

  lemma ReadAlignedHere(p: Partition, q: nat, len: nat, buffer: seq<Byte>)
    requires p.Valid() && |buffer| == p.eraseSize && len > 0 && (q < |p.blocks| ==> !p.bad[q])
    ensures var e := p.eraseSize;
            var buffer' := if q < |p.blocks| then p.blocks[q] else buffer;
            ReadAligned(p, q, len, buffer) ==
              if len < e then buffer'[..len] else buffer' + ReadAligned(p, q + 1, len - e, buffer')
  {
    if q < |p.blocks| {
      assert p.blocks[q..][1..] == p.blocks[q + 1..] && p.bad[q..][1..] == p.bad[q + 1..];
    } else if q == |p.blocks| {
      assert p.blocks[q..] == [] && p.bad[q..] == [];
    }
  }

  lemma {:induction false} GetSkips(blocks: seq<seq<Byte>>, bad: seq<bool>, e: nat, len: nat, buffer: seq<Byte>)
    requires e > 0 && |bad| == |blocks| && |buffer| == e && Uniform(blocks, e)
    ensures var s := BadRun(bad);
            Get(blocks, bad, e, len, buffer) == Get(blocks[s..], bad[s..], e, len, buffer)
    decreases |blocks|
  {
    var s := BadRun(bad);
    if s == 0 {
      assert blocks[s..] == blocks && bad[s..] == bad;
    } else if len > 0 {
      GetSkips(blocks[1..], bad[1..], e, len, buffer);
      assert blocks[1..][s - 1..] == blocks[s..] && bad[1..][s - 1..] == bad[s..];
    }
  }
}
