/** The distributor of mi_loader.c as far as the partition table decides its course: which entry each round finds, how
    much it takes, and whether the loop ends. Whether the bytes can be written is left to module OtaPlan. */
module OtaWalk {
  import opened Bytes
  import opened OtaTable

  // ----- one round

  datatype Located = AllDone | Missing | Hit(index: nat)

  /** The test of the search loop. */
  predicate Holds(e: Entry, x: nat) {
    e.hasData && (x == e.offset || e.offset < x < e.offset + e.len)
  }

  function FirstHit(table: seq<Entry>, x: nat): (r: Located)
    ensures r.Hit? ==> r.index < |table| && Holds(table[r.index], x)
    ensures r.Hit? ==> forall k :: 0 <= k < r.index ==> !Holds(table[k], x)
    ensures !r.Hit? ==> r == Missing && forall k :: 0 <= k < |table| ==> !Holds(table[k], x)
  {
    FirstHitFrom(table, x, 0)
  }

  function FirstHitFrom(table: seq<Entry>, x: nat, from: nat): (r: Located)
    requires from <= |table|
    ensures r.Hit? ==> from <= r.index < |table| && Holds(table[r.index], x)
    ensures r.Hit? ==> forall k :: from <= k < r.index ==> !Holds(table[k], x)
    ensures !r.Hit? ==> r == Missing && forall k :: from <= k < |table| ==> !Holds(table[k], x)
    decreases |table| - from
  {
    if from == |table| then Missing
    else if Holds(table[from], x) then Hit(from)
    else FirstHitFrom(table, x, from + 1)
  }

  /** `get_date_write_info`: which entry the body byte `x` belongs to. */
  function Locate(table: seq<Entry>, total: nat, x: nat): (r: Located)
    ensures r.Hit? ==> r.index < |table|
  {
    if x >= total then AllDone else FirstHit(table, x)
  }

  /** How many of the remaining bytes go to that entry. */
  function WriteLen(e: Entry, unwritten: nat): (n: nat)
    ensures n <= unwritten && n <= e.len
  {
    var room := if e.len >= e.written then e.len - e.written else 0;
    if unwritten > room then room else unwritten
  }

  /** How much of an entry lies before stream position `c`. */
  function Clamp(c: nat, offset: nat, len: nat): (n: nat)
    ensures n <= len
  {
    if c <= offset then 0 else if c - offset <= len then c - offset else len
  }

  function Counted(table: seq<Entry>, k: nat, n: nat): (t: seq<Entry>)
    requires k < |table|
    ensures |t| == |table|
  {
    table[k := table[k].(written := table[k].written + n)]
  }

  // ----- whole runs

  /** How feeding a chunk ends: all its bytes taken or behind the table, a position nobody holds, or a round that
      takes nothing, which then comes round for ever. */
  datatype WalkEnd = Done(table: seq<Entry>) | Lost | Halted

  /** The loop of `ms_ota_update_start`. */
  function Walk(table: seq<Entry>, total: nat, need: nat, x: nat, unwritten: nat): WalkEnd
    decreases unwritten
  {
    if unwritten == 0 then Done(table)
    else
      match Locate(table, total, x)
      case AllDone => Done(table)
      case Missing => Lost
      case Hit(k) =>
        if k == need then Done(table)
        else
          var n := WriteLen(table[k], unwritten);
          if n == 0 then Halted else Walk(Counted(table, k, n), total, need, x + n, unwritten - n)
  }

  /** Chunks fed in order. */
  function Feed(table: seq<Entry>, total: nat, need: nat, x: nat, sizes: seq<nat>): WalkEnd
    decreases |sizes|
  {
    if |sizes| == 0 then Done(table)
    else
      match Walk(table, total, need, x, sizes[0])
      case Done(t) => Feed(t, total, need, x + sizes[0], sizes[1..])
      case end => end
  }

  function Sum(sizes: seq<nat>): nat {
    if |sizes| == 0 then 0 else sizes[0] + Sum(sizes[1..])
  }

  /** A chunk begins `d` bytes into the stream. */
  predicate CutAt(sizes: seq<nat>, d: nat)
    decreases |sizes|
  {
    d == 0 || (|sizes| > 0 && d >= sizes[0] && CutAt(sizes[1..], d - sizes[0]))
  }

  /** A round takes nothing exactly when the entry it finds is full already; an entry of length zero always is, and
      so is one whose bytes are sent again. */
  lemma RoundHaltsIff(table: seq<Entry>, total: nat, need: nat, x: nat, unwritten: nat)
    requires unwritten > 0 && Locate(table, total, x).Hit? && Locate(table, total, x).index != need
    ensures var e := table[Locate(table, total, x).index];
            (WriteLen(e, unwritten) == 0 <==> e.written >= e.len) &&
            (e.written >= e.len ==> Walk(table, total, need, x, unwritten) == Halted)
  {
  }

  // ----- when a run in order halts

  predicate Positive(e: Entry) {
    e.hasData && e.len > 0
  }

  predicate Apart(a: Entry, b: Entry) {
    a.offset + a.len <= b.offset || b.offset + b.len <= a.offset
  }

  /** A table nothing has been written from, whose entries of positive length tile the body; there may be entries of
      length zero anywhere. */
  ghost predicate Laid(table: seq<Entry>, total: nat, need: nat) {
    (forall k :: 0 <= k < |table| && table[k].hasData ==> k < need && table[k].written == 0) &&
    (forall k :: 0 <= k < |table| && Positive(table[k]) ==> table[k].offset + table[k].len <= total) &&
    (forall j, k :: 0 <= j < |table| && 0 <= k < |table| && j != k && Positive(table[j]) && Positive(table[k]) ==>
       Apart(table[j], table[k])) &&
    forall x: nat :: x < total ==> InsideSome(table, x)
  }

  ghost predicate InsideSome(table: seq<Entry>, x: nat) {
    exists k :: 0 <= k < |table| && Inside(table[k], x)
  }

  predicate Inside(e: Entry, x: nat) {
    Positive(e) && e.offset <= x < e.offset + e.len
  }

  /** The entry found at `x` is one of length zero. */
  predicate EmptyAt(table: seq<Entry>, x: nat) {
    FirstHit(table, x).Hit? && table[FirstHit(table, x).index].len == 0
  }

  /** An entry of positive length begins at `x`. */
  ghost predicate Begins(table: seq<Entry>, x: nat) {
    exists k :: 0 <= k < |table| && Positive(table[k]) && table[k].offset == x
  }

  /** The table after `c` bytes taken in order. */
  ghost predicate Counts(t0: seq<Entry>, t: seq<Entry>, c: nat) {
    |t| == |t0| &&
    forall k :: 0 <= k < |t| ==>
      t[k] == if t0[k].hasData then t0[k].(written := Clamp(c, t0[k].offset, t0[k].len)) else t0[k]
  }

  /** Some round that starts at `c`, or where an entry begins before `hi`, finds an entry of length zero. */
  ghost predicate EmptyAhead(t0: seq<Entry>, total: nat, c: nat, hi: nat) {
    exists x: nat :: c <= x < hi && x < total && EmptyAt(t0, x) && (x == c || Begins(t0, x))
  }

  lemma SameSearch(t0: seq<Entry>, t: seq<Entry>, c: nat, x: nat, from: nat)
    requires Counts(t0, t, c) && from <= |t|
    ensures FirstHitFrom(t, x, from) == FirstHitFrom(t0, x, from)
    decreases |t| - from
  {
    if from < |t| {
      SameSearch(t0, t, c, x, from + 1);
    }
  }

  /** A round in order that finds an entry of positive length takes bytes, and ends at the end of the chunk or of the
      entry. */
  lemma RoundInOrder(t0: seq<Entry>, t: seq<Entry>, total: nat, need: nat, c: nat, u: nat)
    requires Laid(t0, total, need) && Counts(t0, t, c) && c < total && u > 0
    ensures FirstHit(t, c).Hit? && FirstHit(t, c) == FirstHit(t0, c) && FirstHit(t, c).index < need
    ensures var k := FirstHit(t, c).index;
            var n := WriteLen(t[k], u);
            (n == 0 <==> EmptyAt(t0, c)) &&
            (n > 0 ==>
              n <= u && Inside(t0[k], c) && c + n <= t0[k].offset + t0[k].len && Counts(t0, Counted(t, k, n), c + n) &&
              (n < u ==> c + n == t0[k].offset + t0[k].len))
  {
    hide Clamp, FirstHitFrom, Apart;
    SameSearch(t0, t, c, c, 0);
    assert InsideSome(t0, c);
    var j :| 0 <= j < |t0| && Inside(t0[j], c);
    assert Holds(t0[j], c);
    var k := FirstHit(t, c).index;
    ClampInside(c, t0[k].offset, t0[k].len);
    var n := WriteLen(t[k], u);
    if n > 0 {
      ClampInside(c + n, t0[k].offset, t0[k].len);
      OthersKeepTheirShare(t0, total, need, k, c, n);
    }
  }

  lemma ClampInside(c: nat, offset: nat, len: nat)
    requires offset <= c
    ensures c <= offset + len ==> Clamp(c, offset, len) == c - offset
    ensures len == 0 ==> Clamp(c, offset, len) == 0
  {
  }

  lemma OthersKeepTheirShare(t0: seq<Entry>, total: nat, need: nat, k: nat, c: nat, n: nat)
    requires Laid(t0, total, need) && k < |t0| && Inside(t0[k], c) && c + n <= t0[k].offset + t0[k].len
    ensures forall i :: 0 <= i < |t0| && i != k && t0[i].hasData ==>
              Clamp(c + n, t0[i].offset, t0[i].len) == Clamp(c, t0[i].offset, t0[i].len)
  {
    forall i | 0 <= i < |t0| && i != k && t0[i].hasData
      ensures Clamp(c + n, t0[i].offset, t0[i].len) == Clamp(c, t0[i].offset, t0[i].len)
    {
      if t0[i].len > 0 {
        assert Apart(t0[i], t0[k]);
      }
    }
  }

  /** Between two rounds no entry begins, and a round that does not end its chunk ends where the next entry begins. */
  lemma NothingBegins(t0: seq<Entry>, total: nat, need: nat, k: nat, c: nat, c': nat)
    requires Laid(t0, total, need) && k < |t0| && Inside(t0[k], c) && c < c' <= t0[k].offset + t0[k].len
    ensures forall x: nat :: c < x < c' ==> !Begins(t0, x)
    ensures c' == t0[k].offset + t0[k].len && c' < total ==> Begins(t0, c')
  {
    forall j | 0 <= j < |t0| && Positive(t0[j])
      ensures !(c < t0[j].offset < c')
    {
      assert j != k ==> Apart(t0[j], t0[k]);
    }
    if c' == t0[k].offset + t0[k].len && c' < total {
      assert InsideSome(t0, c');
      var j :| 0 <= j < |t0| && Inside(t0[j], c');
      assert j != k ==> Apart(t0[j], t0[k]);
      assert Positive(t0[j]) && t0[j].offset == c';
    }
  }

  /** A chunk fed in order halts exactly when a round finds an entry of length zero where the chunk or an entry of
      positive length begins; otherwise every counter moves on by its share. It is never lost. */
  lemma {:induction false} WalkHaltsIff(t0: seq<Entry>, t: seq<Entry>, total: nat, need: nat, c: nat, u: nat)
    requires Laid(t0, total, need) && Counts(t0, t, c)
    ensures var end := Walk(t, total, need, c, u);
            (end.Halted? <==> EmptyAhead(t0, total, c, c + u)) && !end.Lost? &&
            (end.Done? ==> Counts(t0, end.table, c + u))
    decreases u
  {
    hide FirstHit, Laid, WriteLen, Counts, Begins, EmptyAt;
    if u > 0 && c < total {
      RoundInOrder(t0, t, total, need, c, u);
      var k := FirstHit(t, c).index;
      var n := WriteLen(t[k], u);
      if n > 0 {
        NothingBegins(t0, total, need, k, c, c + n);
        WalkHaltsIff(t0, Counted(t, k, n), total, need, c + n, u - n);
        AheadSplits(t0, total, need, k, c, n, u);
      }
    } else {
      PastTheTable(t0, t, total, need, c, c + u);
    }
  }

  lemma AheadSplits(t0: seq<Entry>, total: nat, need: nat, k: nat, c: nat, n: nat, u: nat)
    requires 0 < n <= u && !EmptyAt(t0, c)
    requires forall x: nat :: c < x < c + n ==> !Begins(t0, x)
    requires n < u && c + n < total ==> Begins(t0, c + n)
    ensures EmptyAhead(t0, total, c, c + u) <==> EmptyAhead(t0, total, c + n, c + n + (u - n))
  {
    hide EmptyAt, Begins;
    if EmptyAhead(t0, total, c, c + u) {
      var x: nat :| c <= x < c + u && x < total && EmptyAt(t0, x) && (x == c || Begins(t0, x));
      assert x >= c + n;
    }
    if EmptyAhead(t0, total, c + n, c + n + (u - n)) {
      var x: nat :| c + n <= x < c + u && x < total && EmptyAt(t0, x) && (x == c + n || Begins(t0, x));
      assert Begins(t0, x);
    }
  }

  lemma PastTheTable(t0: seq<Entry>, t: seq<Entry>, total: nat, need: nat, c: nat, c': nat)
    requires Laid(t0, total, need) && Counts(t0, t, c) && (c >= total || c' == c) && c <= c'
    ensures Counts(t0, t, c')
  {
    forall k | 0 <= k < |t| && t0[k].hasData
      ensures Clamp(c', t0[k].offset, t0[k].len) == Clamp(c, t0[k].offset, t0[k].len)
    {
    }
  }

  /** Some round of the run that starts at `c` finds an entry of length zero: where a chunk or an entry begins. */
  ghost predicate EmptyOnTheWay(t0: seq<Entry>, total: nat, c: nat, sizes: seq<nat>) {
    exists x: nat :: c <= x < total && x < c + Sum(sizes) && EmptyAt(t0, x) && (CutAt(sizes, x - c) || Begins(t0, x))
  }

  lemma WaySplits(t0: seq<Entry>, total: nat, c: nat, sizes: seq<nat>)
    requires |sizes| > 0
    ensures EmptyOnTheWay(t0, total, c, sizes) <==>
            EmptyAhead(t0, total, c, c + sizes[0]) || EmptyOnTheWay(t0, total, c + sizes[0], sizes[1..])
  {
    hide EmptyAt, Begins;
    var s, rest := sizes[0], sizes[1..];
    if EmptyOnTheWay(t0, total, c, sizes) {
      var x: nat :| c <= x < total && x < c + Sum(sizes) && EmptyAt(t0, x) && (CutAt(sizes, x - c) || Begins(t0, x));
      if x >= c + s {
        assert CutAt(sizes, x - c) ==> CutAt(rest, x - (c + s));
      }
    }
    if EmptyAhead(t0, total, c, c + s) {
      var x: nat :| c <= x < c + s && x < total && EmptyAt(t0, x) && (x == c || Begins(t0, x));
      assert x == c ==> CutAt(sizes, x - c);
    }
    if EmptyOnTheWay(t0, total, c + s, rest) {
      var x: nat :| c + s <= x < total && x < c + s + Sum(rest) && EmptyAt(t0, x) &&
                    (CutAt(rest, x - (c + s)) || Begins(t0, x));
      assert CutAt(rest, x - (c + s)) ==> CutAt(sizes, x - c);
    }
  }

  lemma {:induction false} FeedFromHaltsIff(t0: seq<Entry>, t: seq<Entry>, total: nat, need: nat, c: nat,
                                            sizes: seq<nat>)
    requires Laid(t0, total, need) && Counts(t0, t, c)
    ensures var end := Feed(t, total, need, c, sizes);
            (end.Halted? <==> EmptyOnTheWay(t0, total, c, sizes)) && !end.Lost?
    decreases |sizes|
  {
    hide Laid, Counts, Walk, EmptyAhead, EmptyOnTheWay;
    if |sizes| == 0 {
      NothingOnTheWay(t0, total, c, sizes);
    } else {
      WalkHaltsIff(t0, t, total, need, c, sizes[0]);
      WaySplits(t0, total, c, sizes);
      var end := Walk(t, total, need, c, sizes[0]);
      if end.Done? {
        FeedFromHaltsIff(t0, end.table, total, need, c + sizes[0], sizes[1..]);
      }
    }
  }

  lemma NothingOnTheWay(t0: seq<Entry>, total: nat, c: nat, sizes: seq<nat>)
    requires |sizes| == 0
    ensures !EmptyOnTheWay(t0, total, c, sizes)
  {
  }

  lemma CountsAtStart(table: seq<Entry>, total: nat, need: nat)
    requires Laid(table, total, need)
    ensures Counts(table, table, 0)
  {
  }

  /** A run in order gets stuck exactly when at some position below the total, where one of its chunks or an entry of
      positive length begins, the entry found is one of length zero. */
  lemma FeedHaltsIff(table: seq<Entry>, total: nat, need: nat, sizes: seq<nat>)
    requires Laid(table, total, need)
    ensures Feed(table, total, need, 0, sizes).Halted? <==> EmptyOnTheWay(table, total, 0, sizes)
    ensures !Feed(table, total, need, 0, sizes).Lost?
  {
    hide Laid, Counts, Feed, EmptyOnTheWay;
    CountsAtStart(table, total, need);
    FeedFromHaltsIff(table, table, total, need, 0, sizes);
  }

  /** Some way of cutting the body gets stuck exactly when some position below the total is first held by an entry of
      length zero. */
  lemma SomeRunHaltsIff(table: seq<Entry>, total: nat, need: nat)
    requires Laid(table, total, need)
    ensures (exists sizes: seq<nat> :: Feed(table, total, need, 0, sizes).Halted?) <==>
            exists x: nat :: x < total && EmptyAt(table, x)
  {
    hide Laid, Feed, EmptyAt, Begins;
    if exists sizes: seq<nat> :: Feed(table, total, need, 0, sizes).Halted? {
      var sizes: seq<nat> :| Feed(table, total, need, 0, sizes).Halted?;
      FeedHaltsIff(table, total, need, sizes);
    }
    if exists x: nat :: x < total && EmptyAt(table, x) {
      var x: nat :| x < total && EmptyAt(table, x);
      CutHere(x);
      FeedHaltsIff(table, total, need, [x, 1]);
    }
  }

  lemma CutHere(x: nat)
    ensures CutAt([x, 1], x) && Sum([x, 1]) == x + 1
  {
    assert [x, 1][1..] == [1] && [1][1..] == [];
    assert CutAt([1], 0);
  }

  /** Every way of cutting the whole body gets stuck exactly when that happens where an entry of positive length
      begins. */
  lemma EveryRunHaltsIff(table: seq<Entry>, total: nat, need: nat)
    requires Laid(table, total, need)
    ensures (forall sizes :: Halts(table, total, need, sizes)) <==> EmptyWhereOneBegins(table, total)
  {
    hide Feed, EmptyAt, Sum, CutAt;
    if forall sizes :: Halts(table, total, need, sizes) {
      assert Halts(table, total, need, [total]);
      OneChunk(total);
      FeedHaltsIff(table, total, need, [total]);
      var x: nat :| x < total && EmptyAt(table, x) && (CutAt([total], x - 0) || Begins(table, x));
      BodyBegins(table, total, need);
      assert Begins(table, x);
    }
    if EmptyWhereOneBegins(table, total) {
      var x: nat :| x < total && Begins(table, x) && EmptyAt(table, x);
      forall sizes
        ensures Halts(table, total, need, sizes)
      {
        FeedHaltsIff(table, total, need, sizes);
      }
    }
  }

  /** The whole body, cut like this, is not fed to its end. */
  ghost predicate Halts(table: seq<Entry>, total: nat, need: nat, sizes: seq<nat>) {
    Sum(sizes) >= total ==> Feed(table, total, need, 0, sizes).Halted?
  }

  ghost predicate EmptyWhereOneBegins(table: seq<Entry>, total: nat) {
    exists x: nat :: x < total && Begins(table, x) && EmptyAt(table, x)
  }

  lemma BodyBegins(table: seq<Entry>, total: nat, need: nat)
    requires Laid(table, total, need) && total > 0
    ensures Begins(table, 0)
  {
    assert InsideSome(table, 0);
    var k :| 0 <= k < |table| && Inside(table[k], 0);
  }

  lemma OneChunk(total: nat)
    ensures Sum([total]) == total && forall x: nat :: CutAt([total], x) ==> x == 0 || x == total
  {
    assert [total][1..] == [];
  }

  // ----- tables that differ in the kinds of entries

  /** Equal up to the kinds, which the course of the distributor does not depend on. */
  ghost predicate Alike(t: seq<Entry>, t': seq<Entry>) {
    |t'| == |t| && forall k :: 0 <= k < |t| ==> t'[k] == t[k].(kind := t'[k].kind)
  }

  ghost predicate SameEnd(end: WalkEnd, end': WalkEnd) {
    (end.Halted? <==> end'.Halted?) && (end.Done? <==> end'.Done?) && (end.Done? ==> Alike(end.table, end'.table))
  }

  lemma AlikeSearch(t: seq<Entry>, t': seq<Entry>, x: nat, from: nat)
    requires Alike(t, t') && from <= |t|
    ensures FirstHitFrom(t', x, from) == FirstHitFrom(t, x, from)
    decreases |t| - from
  {
    if from < |t| {
      AlikeSearch(t, t', x, from + 1);
    }
  }

  lemma {:induction false} AlikeWalks(t: seq<Entry>, t': seq<Entry>, total: nat, need: nat, x: nat, unwritten: nat)
    requires Alike(t, t')
    ensures SameEnd(Walk(t, total, need, x, unwritten), Walk(t', total, need, x, unwritten))
    decreases unwritten
  {
    hide FirstHit, Alike, WriteLen, Counted;
    AlikeHit(t, t', x, unwritten);
    var found := Locate(t, total, x);
    if unwritten > 0 && found.Hit? && found.index != need {
      var k := found.index;
      var n := WriteLen(t[k], unwritten);
      if n > 0 {
        AlikeWalks(Counted(t, k, n), Counted(t', k, n), total, need, x + n, unwritten - n);
      }
    }
  }

  lemma AlikeHit(t: seq<Entry>, t': seq<Entry>, x: nat, unwritten: nat)
    requires Alike(t, t')
    ensures FirstHit(t', x) == FirstHit(t, x) && |t'| == |t|
    ensures FirstHit(t, x).Hit? ==>
              var k := FirstHit(t, x).index;
              var n := WriteLen(t[k], unwritten);
              WriteLen(t'[k], unwritten) == n && Alike(Counted(t, k, n), Counted(t', k, n))
  {
    hide FirstHitFrom;
    AlikeSearch(t, t', x, 0);
  }

  lemma {:induction false} AlikeFeeds(t: seq<Entry>, t': seq<Entry>, total: nat, need: nat, x: nat, sizes: seq<nat>)
    requires Alike(t, t')
    ensures SameEnd(Feed(t, total, need, x, sizes), Feed(t', total, need, x, sizes))
    decreases |sizes|
  {
    hide Walk, Alike;
    if |sizes| > 0 {
      AlikeWalks(t, t', total, need, x, sizes[0]);
      var end, end' := Walk(t, total, need, x, sizes[0]), Walk(t', total, need, x, sizes[0]);
      if end.Done? {
        AlikeFeeds(end.table, end'.table, total, need, x + sizes[0], sizes[1..]);
      }
    }
  }

  lemma AlikeChain(a: seq<Entry>, b: seq<Entry>, c: seq<Entry>)
    requires Alike(a, b) && Alike(b, c)
    ensures Alike(a, c)
  {
  }

  // ----- examples

  function Piece(offset: nat, len: nat): Entry {
    Entry(true, [], KindMtd, UpUpdate, 0, offset, len, 0)
  }

  /** An empty entry listed before the one that begins at the same place stops every run. */
  lemma EmptyEntryHalts(t: seq<Entry>, sizes: seq<nat>)
    requires t == [Piece(0, 10), Piece(10, 0), Piece(10, 10)] && Sum(sizes) >= 20
    ensures Feed(t, 20, 4, 0, sizes).Halted?
  {
    hide Feed, Sum, CutAt;
    ThreePiecesAreLaid(t, 1, 2);
    assert Holds(t[1], 10) && !Holds(t[0], 10);
    assert EmptyAt(t, 10) && Begins(t, 10) by {
      assert t[2].offset == 10;
    }
    assert EmptyWhereOneBegins(t, 20);
    EveryRunHaltsIff(t, 20, 4);
    assert Halts(t, 20, 4, sizes);
  }

  /** Listed behind it, it is never found. */
  lemma EmptyEntryBehind(t: seq<Entry>, sizes: seq<nat>)
    requires t == [Piece(0, 10), Piece(10, 10), Piece(10, 0)]
    ensures Feed(t, 20, 4, 0, sizes).Done?
  {
    hide Feed, Sum, CutAt, FirstHit;
    ThreePiecesAreLaid(t, 2, 1);
    forall x: nat | x < 20
      ensures !EmptyAt(t, x)
    {
      assert Holds(t[0], x) || Holds(t[1], x);
    }
    FeedHaltsIff(t, 20, 4, sizes);
  }

  /** Nor is it at the end of the body, or at the start behind an entry that begins there too. */
  lemma EmptyEntryAside(t: seq<Entry>, sizes: seq<nat>)
    requires t == [Piece(0, 10), Piece(10, 0)] || t == [Piece(0, 10), Piece(0, 0)]
    ensures Feed(t, 10, 3, 0, sizes).Done?
  {
    hide Feed, Sum, CutAt, FirstHit;
    forall x: nat | x < 10
      ensures InsideSome(t, x) && !EmptyAt(t, x)
    {
      assert Inside(t[0], x) && Holds(t[0], x);
    }
    FeedHaltsIff(t, 10, 3, sizes);
  }

  lemma ThreePiecesAreLaid(t: seq<Entry>, empty: nat, full: nat)
    requires |t| == 3 && (empty, full) in {(1, 2), (2, 1)}
    requires t[0] == Piece(0, 10) && t[empty] == Piece(10, 0) && t[full] == Piece(10, 10)
    ensures Laid(t, 20, 4)
  {
    forall x: nat | x < 20
      ensures InsideSome(t, x)
    {
      assert Inside(t[if x < 10 then 0 else full], x);
    }
  }
}
