/** Byte writes to a UBI volume, which is rewritten one logical erase block (LEB) at a time. */
module UbiVolume {
  import opened BlockMath
  import opened Bytes

  /** What one LEB rewrite does: refused at any of its steps, or a `write` call that reported `count` bytes. */
  datatype LebOutcome = Refused | Stored(count: nat)

  /** The flash behind an open volume, and what its next LEB rewrites will do. */
  datatype Volume = Volume(lebSize: nat, lebCount: nat, bytes: seq<Byte>, oracle: nat -> LebOutcome) {
    ghost predicate Valid() {
      lebSize > 0 && |bytes| == Span(lebCount, lebSize) &&
      forall k: nat :: oracle(k).Stored? ==> oracle(k).count <= lebSize
    }
  }

  // ----- one LEB

  /** What `_MI_UBI_WriteVolumeLeb` answers for `len` bytes at `off` of LEB `leb`: -1, or the bytes accounted for. */
  function LebAnswer(v: Volume, call: nat, leb: nat, off: nat, len: nat): (n: int)
    requires v.Valid() && off + len <= v.lebSize
    ensures -1 <= n <= len
  {
    if leb >= v.lebCount || v.oracle(call).Refused? then -1
    else
      var w := v.oracle(call).count;
      if w >= off + len then len
      else if w >= off then w - off
      else 0
  }

  lemma LebInside(v: Volume, leb: nat)
    requires v.Valid() && leb < v.lebCount
    ensures Span(leb, v.lebSize) + v.lebSize <= |v.bytes|
  {
    SpanOne(v.lebSize);
    SpanAdds(leb, 1, v.lebSize);
    SpanAdds(leb + 1, v.lebCount - leb - 1, v.lebSize);
  }

  /** A LEB is read, patched, and its first `count` bytes written back. */
  function AfterLeb(v: Volume, call: nat, leb: nat, off: nat, d: seq<Byte>): (v': Volume)
    requires v.Valid() && off + |d| <= v.lebSize
    ensures v'.Valid() && v' == v.(bytes := v'.bytes)
  {
    if leb >= v.lebCount || v.oracle(call).Refused? then v
    else
      LebInside(v, leb);
      var base := Span(leb, v.lebSize);
      var merged := Splice(v.bytes[base..base + v.lebSize], off, d);
      v.(bytes := Splice(v.bytes, base, merged[..v.oracle(call).count]))
  }

  /** Whatever happens to a LEB, exactly the bytes accounted for have changed. */
  lemma LebPrefix(v: Volume, call: nat, leb: nat, off: nat, d: seq<Byte>)
    requires v.Valid() && off + |d| <= v.lebSize
    ensures var n := LebAnswer(v, call, leb, off, |d|);
            var at := Span(leb, v.lebSize) + off;
            if n <= 0 then AfterLeb(v, call, leb, off, d) == v
            else at + n <= |v.bytes| && AfterLeb(v, call, leb, off, d).bytes == Splice(v.bytes, at, d[..n])
  {
    hide Splice, Span;
    if leb < v.lebCount && v.oracle(call).Stored? {
      LebInside(v, leb);
      MergedPrefix(v.bytes, Span(leb, v.lebSize), v.lebSize, off, d, v.oracle(call).count);
    }
  }

  lemma MergedPrefix(b: seq<Byte>, base: nat, size: nat, off: nat, d: seq<Byte>, w: nat)
    requires base + size <= |b| && off + |d| <= size && w <= size
    ensures var merged := Splice(b[base..base + size], off, d);
            var n := if w >= off + |d| then |d| else if w >= off then w - off else 0;
            Splice(b, base, merged[..w]) == if n == 0 then b else Splice(b, base + off, d[..n])
  {
    hide Splice;
    if w <= off || |d| == 0 {
      PrefixUntouched(b, base, size, off, d, w);
    } else {
      PrefixLands(b, base, size, off, d, w, if w >= off + |d| then |d| else w - off);
    }
  }

  lemma PrefixUntouched(b: seq<Byte>, base: nat, size: nat, off: nat, d: seq<Byte>, w: nat)
    requires base + size <= |b| && off + |d| <= size && w <= size && (w <= off || |d| == 0)
    ensures Splice(b, base, Splice(b[base..base + size], off, d)[..w]) == b
  {
    var leb := b[base..base + size];
    assert Splice(leb, off, d)[..w] == leb[..w];
    assert b[..base] + leb[..w] + b[base + w..] == b;
  }

  lemma PrefixLands(b: seq<Byte>, base: nat, size: nat, off: nat, d: seq<Byte>, w: nat, n: nat)
    requires base + size <= |b| && off + |d| <= size && w <= size
    requires n <= |d| && off + n <= w && (n == |d| || off + n == w)
    ensures Splice(b, base, Splice(b[base..base + size], off, d)[..w]) == Splice(b, base + off, d[..n])
  {
    var leb := b[base..base + size];
    TakeOfSplice(leb, off, d, w, n);
    SubSlice(b, base, size, 0, off);
    SubSlice(b, base, size, off + n, w);
    FivePieces(b, base, off, n, w, d[..n]);
  }

  lemma SubSlice(b: seq<Byte>, base: nat, size: nat, x: nat, y: nat)
    requires base + size <= |b| && x <= y <= size
    ensures b[base..base + size][x..y] == b[base + x..base + y]
  {
    var leb := b[base..base + size];
    var l, r := leb[x..y], b[base + x..base + y];
    assert forall i :: 0 <= i < |l| ==> l[i] == leb[x + i];
    assert l == r;
  }

  lemma FivePieces(b: seq<Byte>, base: nat, off: nat, n: nat, w: nat, d: seq<Byte>)
    requires off + n <= w && base + w <= |b| && |d| == n
    ensures b[..base] + (b[base..base + off] + d + b[base + off + n..base + w]) + b[base + w..] ==
            Splice(b, base + off, d)
  {
    var x, y, z, t := b[..base], b[base..base + off], b[base + off + n..base + w], b[base + w..];
    assert x + y == b[..base + off] && z + t == b[base + off + n..];
    assert x + (y + d + z) + t == (x + y) + d + (z + t);
  }

  lemma TakeOfSplice(leb: seq<Byte>, off: nat, d: seq<Byte>, w: nat, n: nat)
    requires off + |d| <= |leb| && n <= |d| && off + n <= w <= |leb| && (n == |d| || off + n == w)
    ensures Splice(leb, off, d)[..w] == leb[..off] + d[..n] + leb[off + n..w]
  {
  }

  // ----- the whole write, piece by piece

  /** How many bytes of a write land: pieces up to LEB boundaries, in order, until one falls short. */
  function Landed(v: Volume, call: nat, offset: nat, len: nat): (n: nat)
    requires v.Valid()
    ensures n <= len
    decreases len
  {
    if len == 0 then 0
    else
      var r := InBlock(offset, v.lebSize);
      var piece := if v.lebSize - r <= len then v.lebSize - r else len;
      var got := LebAnswer(v, call, BlockOf(offset, v.lebSize), r, piece);
      if got < piece then (if got < 0 then 0 else got)
      else piece + Landed(v, call + 1, offset + piece, len - piece)
  }

  /** Every piece lies inside the volume and its LEB rewrite reached the end of the piece. */
  predicate AllStored(v: Volume, call: nat, offset: nat, len: nat)
    requires v.Valid()
    decreases len
  {
    len == 0 ||
    var r := InBlock(offset, v.lebSize);
    var piece := if v.lebSize - r <= len then v.lebSize - r else len;
    BlockOf(offset, v.lebSize) < v.lebCount &&
    v.oracle(call).Stored? && v.oracle(call).count >= r + piece &&
    AllStored(v, call + 1, offset + piece, len - piece)
  }

  /** The whole buffer lands exactly when no LEB rewrite fails, falls short of its piece, or lies past the end. */
  lemma {:induction false} AllLandIff(v: Volume, call: nat, offset: nat, len: nat)
    requires v.Valid()
    ensures Landed(v, call, offset, len) == len <==> AllStored(v, call, offset, len)
    decreases len
  {
    if len > 0 {
      var r := InBlock(offset, v.lebSize);
      var piece := if v.lebSize - r <= len then v.lebSize - r else len;
      AllLandIff(v, call + 1, offset + piece, len - piece);
    }
  }

  /** On flawless flash a write lands whole exactly when it stays inside the volume. */
  lemma {:induction false} FlawlessLandsIff(v: Volume, call: nat, offset: nat, len: nat)
    requires v.Valid() && len > 0
    requires forall k: nat :: v.oracle(k) == Stored(v.lebSize)
    ensures Landed(v, call, offset, len) == len <==> offset + len <= |v.bytes|
    decreases len
  {
    hide Span, BlockOf, InBlock;
    var e := v.lebSize;
    var q, r := BlockOf(offset, e), InBlock(offset, e);
    var piece := if e - r <= len then e - r else len;
    PositionParts(offset, e);
    NextSpan(q, e);
    if q < v.lebCount {
      LebInside(v, q);
      if len - piece > 0 {
        FlawlessLandsIff(v, call + 1, offset + piece, len - piece);
      }
    } else {
      SpanAdds(v.lebCount, q - v.lebCount, e);
    }
  }

  lemma NextSpan(q: nat, e: nat)
    ensures Span(q + 1, e) == Span(q, e) + e
  {
  }

  // ----- the code

  class UbiDevice {
    var ready: bool            // module initialised, the handle resolves, the block size is known
    var names: seq<seq<Byte>>
    var volumes: seq<Volume>
    var calls: nat             // LEB rewrites so far

    ghost predicate Valid()
      reads this
    {
      |names| == |volumes| && forall k :: 0 <= k < |volumes| ==> volumes[k].Valid()
    }

    constructor (isReady: bool, volumeNames: seq<seq<Byte>>, open: seq<Volume>)
      requires |volumeNames| == |open| && forall k :: 0 <= k < |open| ==> open[k].Valid()
      ensures Valid() && ready == isReady && names == volumeNames && volumes == open && calls == 0
    {
      ready, names, volumes, calls := isReady, volumeNames, open, 0;
    }

    /** `_MI_UBI_WriteVolumeLeb` past its argument checks. */
    method WriteLeb(id: nat, leb: nat, off: nat, d: seq<Byte>) returns (n: int)
      requires Valid() && id < |volumes| && off + |d| <= volumes[id].lebSize
      modifies this`volumes, this`calls
      ensures Valid() && calls == old(calls) + 1
      ensures n == LebAnswer(old(volumes)[id], old(calls), leb, off, |d|)
      ensures volumes == old(volumes)[id := AfterLeb(old(volumes)[id], old(calls), leb, off, d)]
    {
      var v := volumes[id];
      var outcome := v.oracle(calls);
      calls := calls + 1;
      if leb >= v.lebCount {
        return -1;
      }
      if outcome.Refused? {
        return -1;
      }
      LebInside(v, leb);
      SpanIsProduct(leb, v.lebSize);
      var base := leb * v.lebSize;
      var lebBuf := v.bytes[base..base + v.lebSize];
      lebBuf := Splice(lebBuf, off, d);
      var written := outcome.count;
      volumes := volumes[id := v.(bytes := Splice(v.bytes, base, lebBuf[..written]))];
      if written == v.lebSize {
        n := |d|;
      } else if written >= off + |d| {
        n := |d|;
      } else if written >= off {
        n := written - off;
      } else {
        n := 0;
      }
    }

    /** Where the write stands: `done` bytes are in place and the rest of the answer is still to come. */
    ghost predicate Writing(was: seq<Volume>, id: nat, call0: nat, offset: nat, buf: seq<Byte>, done: nat)
      requires id < |was| && was[id].Valid()
      reads this
    {
      OnlyBytes(was, id) && calls >= call0 &&
      InPlace(was[id].bytes, volumes[id].bytes, offset, buf, done) &&
      Landed(was[id], call0, offset, |buf|) == done + Landed(was[id], calls, offset + done, |buf| - done)
    }

    /** Nothing but the bytes of volume `id` differs from `was`. */
    ghost predicate OnlyBytes(was: seq<Volume>, id: nat)
      requires id < |was|
      reads this
    {
      Valid() && |volumes| == |was| && volumes == was[id := was[id].(bytes := volumes[id].bytes)]
    }

    /** One piece: rewrite its LEB, count what landed, and stop unless all of it did. */
    method WritePiece(ghost was: seq<Volume>, id: nat, ghost call0: nat, offset: nat, buf: seq<Byte>, done: nat,
                      leb: nat, off: nat, len: nat)
      returns (goOn: bool, done': nat)
      requires id < |was| && was[id].Valid() && Writing(was, id, call0, offset, buf, done)
      requires leb == BlockOf(offset + done, was[id].lebSize) && off == InBlock(offset + done, was[id].lebSize)
      requires done <= |buf|
      requires len == if was[id].lebSize - off <= |buf| - done then was[id].lebSize - off else |buf| - done
      modifies this`volumes, this`calls
      ensures OnlyBytes(was, id) && calls >= call0
      ensures goOn ==> done' == done + len && Writing(was, id, call0, offset, buf, done')
      ensures !goOn ==> done' == Landed(was[id], call0, offset, |buf|) &&
                        InPlace(was[id].bytes, volumes[id].bytes, offset, buf, done')
    {
      hide Landed, InPlace, AfterLeb, LebAnswer, BlockOf, InBlock;
      PieceResult(was[id], volumes[id], calls, offset, buf, done, leb, off, len);
      var n := WriteLeb(id, leb, off, buf[done..done + len]);
      if n < 0 {
        return false, done;
      } else if n != len {
        return false, done + n;
      }
      goOn, done' := true, done + len;
    }

    /** `MI_UBI_WriteVolumeBytes`. */
    method WriteVolumeBytes(id: nat, offset: nat, buf: seq<Byte>) returns (n: int)
      requires Valid() && id < |volumes|
      modifies this`volumes, this`calls
      ensures OnlyBytes(old(volumes), id)
      ensures !ready ==> n == -1 && volumes == old(volumes)
      ensures ready ==> n == Landed(old(volumes)[id], old(calls), offset, |buf|) &&
                        InPlace(old(volumes)[id].bytes, volumes[id].bytes, offset, buf, n)
    {
      hide Landed, InPlace, BlockOf, InBlock;
      ghost var was, call0 := volumes, calls;
      if !ready {
        return -1;
      }
      var size := volumes[id].lebSize;
      var leb, remainder := BlockOf(offset, size), InBlock(offset, size);
      var writeLength := |buf|;
      var written: nat := 0;
      NothingInPlace(was[id].bytes, offset, buf);
      assert offset + written == offset;
      var goOn := true;
      if remainder > 0 {
        var bytes2Write := size - remainder;
        if bytes2Write > writeLength {
          bytes2Write := writeLength;
        }
        goOn, written := WritePiece(was, id, call0, offset, buf, written, leb, remainder, bytes2Write);
        if !goOn {
          return written;
        }
        NextBoundary(offset, size, bytes2Write);
        remainder := 0;
        writeLength := writeLength - bytes2Write;
        leb := leb + 1;
      }
      while writeLength >= size
        invariant Writing(was, id, call0, offset, buf, written) && writeLength == |buf| - written && remainder == 0
        invariant writeLength > 0 ==> leb == BlockOf(offset + written, size) && InBlock(offset + written, size) == 0
        decreases writeLength
      {
        goOn, written := WritePiece(was, id, call0, offset, buf, written, leb, 0, size);
        if !goOn {
          return written;
        }
        NextBoundary(offset + written - size, size, size);
        writeLength := writeLength - size;
        leb := leb + 1;
      }
      if writeLength > 0 {
        goOn, written := WritePiece(was, id, call0, offset, buf, written, leb, remainder, writeLength);
        if !goOn {
          return written;
        }
      }
      n := written;
    }
  }

  lemma PieceResult(v0: Volume, v: Volume, call: nat, offset: nat, buf: seq<Byte>, done: nat,
                    leb: nat, off: nat, len: nat)
    requires v0.Valid() && v.Valid() && v == v0.(bytes := v.bytes)
    requires InPlace(v0.bytes, v.bytes, offset, buf, done)
    requires leb == BlockOf(offset + done, v.lebSize) && off == InBlock(offset + done, v.lebSize)
    requires done <= |buf|
    requires len == if v.lebSize - off <= |buf| - done then v.lebSize - off else |buf| - done
    ensures var n := LebAnswer(v, call, leb, off, len);
            var got := if n < 0 then 0 else n;
            InPlace(v0.bytes, AfterLeb(v, call, leb, off, buf[done..done + len]).bytes, offset, buf, done + got) &&
            Landed(v0, call, offset + done, |buf| - done) ==
              if n < len then got else len + Landed(v0, call + 1, offset + (done + len), |buf| - (done + len))
  {
    hide InPlace, Splice, Span, BlockOf, InBlock, AfterLeb;
    PositionParts(offset + done, v.lebSize);
    LebPrefix(v, call, leb, off, buf[done..done + len]);
    SameAnswer(v0, v, call, leb, off, len);
    InPlaceBound(v0.bytes, v.bytes, offset, buf, done);
    var n := LebAnswer(v, call, leb, off, len);
    assert n > 0 ==> buf[done..done + len][..n] == buf[done..done + n];
    GrowInPlace(v0.bytes, v.bytes, AfterLeb(v, call, leb, off, buf[done..done + len]).bytes, offset, buf, done,
                if n < 0 then 0 else n);
  }

  lemma SameAnswer(v0: Volume, v: Volume, call: nat, leb: nat, off: nat, len: nat)
    requires v0.Valid() && v.Valid() && v == v0.(bytes := v.bytes) && off + len <= v.lebSize
    ensures LebAnswer(v0, call, leb, off, len) == LebAnswer(v, call, leb, off, len)
  {
  }

  lemma InPlaceBound(was: seq<Byte>, now: seq<Byte>, offset: nat, buf: seq<Byte>, done: nat)
    requires InPlace(was, now, offset, buf, done)
    ensures done <= |buf| && |now| == |was|
  {
  }

  lemma NothingInPlace(was: seq<Byte>, offset: nat, buf: seq<Byte>)
    ensures InPlace(was, was, offset, buf, 0)
  {
  }

  lemma GrowInPlace(was: seq<Byte>, mid: seq<Byte>, now: seq<Byte>, offset: nat, buf: seq<Byte>, done: nat, got: nat)
    requires InPlace(was, mid, offset, buf, done) && done + got <= |buf|
    requires if got == 0 then now == mid
             else offset + done + got <= |mid| && now == Splice(mid, offset + done, buf[done..done + got])
    ensures InPlace(was, now, offset, buf, done + got)
  {
    if got > 0 {
      assert buf[..done] + buf[done..done + got] == buf[..done + got];
      if done > 0 {
        SpliceTwice(was, offset, buf[..done], buf[done..done + got]);
      } else {
        assert buf[done..done + got] == buf[..got];
      }
    }
  }

  ghost predicate InPlace(was: seq<Byte>, now: seq<Byte>, offset: nat, buf: seq<Byte>, done: nat) {
    done <= |buf| &&
    if done == 0 then now == was
    else offset + done <= |was| && now == Splice(was, offset, buf[..done])
  }
}
