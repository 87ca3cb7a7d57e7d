/** What an OTA run has to achieve, as values: the layout of the image over the partitions, the state of the
    media, and the invariant that ties them to the number of body bytes consumed. */
module OtaPlan {
  import opened BlockMath
  import opened Bytes
  import opened Numbers
  import opened Nand
  import opened MtdFlash
  import opened UbiVolume
  import opened OtaTable
  import opened OtaWalk
  import EnvText
  import EnvStore
  import opened BootCmd

  const RECOVERY_NAME: Text := "RECOVERY"

  // ----- the plan

  datatype Dest = ToMtd(i: nat) | ToUbi(j: nat) | Nowhere

  /** The state of everything an update touches. */
  datatype World = World(table: seq<Entry>, total: nat, need: nat, runMode: int,
                         parts: seq<Partition>, nameBuf: Text, curBad: nat,
                         volumes: seq<Volume>, volNames: seq<Text>, env: Text) {
    ghost predicate Valid() {
      |table| == OTA_PARTITION_MAX && |volNames| == |volumes| &&
      |nameBuf| == NAME_BUFFER && ZeroTailed(nameBuf) &&
      (forall k :: 0 <= k < |parts| ==> parts[k].Valid() && PartitionName(parts[k].name)) &&
      forall k :: 0 <= k < |volumes| ==> volumes[k].Valid()
    }

    function WriterOf(i: nat): Writer
      requires i < |parts|
    {
      Writer(parts[i], nameBuf, curBad)
    }

    function DestOf(e: Entry): (d: Dest)
      ensures d.ToMtd? ==> d.i < |parts|
      ensures d.ToUbi? && |volNames| == |volumes| ==> d.j < |volumes|
    {
      if e.kind.KindMtd? then
        match FindPartition(parts, e.name)
        case Some(i) => ToMtd(i)
        case None => Nowhere
      else
        match FindName(volNames, e.name)
        case Some(j) => ToUbi(j)
        case None => Nowhere
    }

    /** The logical contents behind a destination. */
    ghost function View(d: Dest): Text
      requires Valid()
    {
      match d
      case ToMtd(i) => if i < |parts| then Logical(parts[i]) else []
      case ToUbi(j) => if j < |volumes| then volumes[j].bytes else []
      case Nowhere => []
    }
  }

  /** Which entries a run mode writes: 0 only the recovery images, anything else only the others. */
  predicate Selected(e: Entry, runMode: int) {
    (runMode == 0) == Find(e.name, RECOVERY_NAME).Some?
  }

  /** The layout of an image body over the table, and what the destinations held before. */
  datatype Plan = Plan(entries: seq<Entry>, image: Text, before: seq<Text>, dests: seq<Dest>, runMode: int,
                       parts0: seq<Partition>, bytes0: seq<Text>) {
    /** "Update" entries of positive length whose slices tile the body. */
    ghost predicate Valid() {
      |entries| <= OTA_PARTITION_MAX && |before| == |dests| == |entries| &&
      (forall k :: 0 <= k < |entries| ==>
         Proper(entries[k]) && entries[k].offset + entries[k].len <= TotalLen(entries)) &&
      (forall j, k :: 0 <= j < |entries| && 0 <= k < |entries| && j != k ==> Disjoint(entries[j], entries[k])) &&
      (forall x: nat :: x < TotalLen(entries) ==> Covered(entries, x)) &&
      forall j, k :: 0 <= j < |entries| && 0 <= k < |entries| && j != k && Writes(j) && Writes(k) ==>
        dests[j] != dests[k]
    }

    predicate Writes(k: nat)
      requires k < |entries|
    {
      Selected(entries[k], runMode)
    }

    /** The slice of the image that entry `k` has received at stream position `c`. */
    function Slice(c: nat, k: nat): Text
      requires k < |entries| && entries[k].offset + Clamp(c, entries[k].offset, entries[k].len) <= |image|
    {
      image[entries[k].offset..entries[k].offset + Clamp(c, entries[k].offset, entries[k].len)]
    }
  }

  ghost predicate Covered(entries: seq<Entry>, x: nat) {
    exists k :: 0 <= k < |entries| && Holds(entries[k], x)
  }

  predicate Proper(e: Entry) {
    e.hasData && e.upgrade.UpUpdate? && e.len > 0 && e.written == 0 && e.len < WORD
  }

  predicate Disjoint(a: Entry, b: Entry) {
    a.offset + a.len <= b.offset || b.offset + b.len <= a.offset
  }

  // ----- the invariant

  /** Entry `k` with `n` bytes counted. An entry of unknown kind has become a UBI one with its first written piece. */
  function EntryAt(p: Plan, k: nat, n: nat): (e: Entry)
    requires k < |p.entries|
  {
    var kind := p.entries[k].kind;
    p.entries[k].(written := n, kind := if n > 0 && p.Writes(k) && kind.KindUnknown? then KindUbi else kind)
  }

  /** Entry `k` after `c` bytes: its counter is the clamped position; if it is written at all, its destination
      holds exactly the image slice received so far, over what it held before; and if the stream stands inside
      it, the flash driver is in step. */
  ghost predicate EntryOk(p: Plan, w: World, c: nat, k: nat)
    requires p.Valid() && w.Valid() && k < |p.entries|
  {
    var e := p.entries[k];
    var n := Clamp(c, e.offset, e.len);
    w.table[k] == EntryAt(p, k, n) &&
    (p.Writes(k) ==>
      w.DestOf(e) == p.dests[k] &&
      (n > 0 ==> e.offset + n <= |p.image| && n <= |p.before[k]|) &&
      w.View(p.dests[k]) == (if n > 0 then Splice(p.before[k], 0, p.Slice(c, k)) else p.before[k]) &&
      (p.dests[k].ToMtd? ==>
        (n < e.len ==> CLen(w.nameBuf) <= |w.parts[p.dests[k].i].name|) &&
        (0 < n < e.len ==> InStep(w.WriterOf(p.dests[k].i), n))))
  }

  /** Partitions written later in the stream do not have shorter names: a shorter name would not be remembered. */
  ghost predicate NamesGrow(p: Plan, w: World)
    requires p.Valid() && w.Valid()
  {
    forall j, k :: 0 <= j < |p.entries| && 0 <= k < |p.entries| && IsMtd(p, w, j) && IsMtd(p, w, k) &&
                   p.entries[j].offset < p.entries[k].offset ==>
      |w.parts[p.dests[j].i].name| <= |w.parts[p.dests[k].i].name|
  }

  predicate IsMtd(p: Plan, w: World, k: nat)
    requires k < |p.entries| == |p.dests|
  {
    p.Writes(k) && p.dests[k].ToMtd? && p.dests[k].i < |w.parts|
  }

  /** Some written entry goes to `d`. */
  ghost predicate Destined(p: Plan, d: Dest)
    requires |p.dests| == |p.entries|
  {
    exists k :: 0 <= k < |p.entries| && p.Writes(k) && p.dests[k] == d
  }

  /** Some written entry raises a boot command. */
  ghost predicate Raises(p: Plan) {
    exists b :: 0 <= b < |p.entries| && Boots(p, b)
  }

  /** The env partition, if boot commands are stored in it. */
  ghost predicate HoldsCommands(p: Plan, parts: seq<Partition>, i: nat) {
    Raises(p) && FindPartition(parts, EnvStore.ENV_NAME) == Some(i)
  }

  /** Nothing else has been written: every other partition and volume is as it was. */
  ghost predicate Elsewhere(p: Plan, w: World)
    requires p.Valid()
  {
    NamesOf(w.parts) == NamesOf(p.parts0) && |w.parts| == |p.parts0| && |w.volumes| == |p.bytes0| &&
    (forall i :: 0 <= i < |w.parts| && !Destined(p, ToMtd(i)) && !HoldsCommands(p, w.parts, i) ==>
       w.parts[i] == p.parts0[i]) &&
    forall j :: 0 <= j < |w.volumes| && !Destined(p, ToUbi(j)) ==> w.volumes[j].bytes == p.bytes0[j]
  }

  ghost predicate Inv(p: Plan, w: World, c: nat)
    requires p.Valid() && w.Valid()
  {
    NamesGrow(p, w) && Elsewhere(p, w) &&
    w.total == TotalLen(p.entries) && w.need == |p.entries| + 1 && w.runMode == p.runMode &&
    (forall k :: |p.entries| <= k < OTA_PARTITION_MAX ==> !w.table[k].hasData) &&
    forall k :: 0 <= k < |p.entries| ==> EntryOk(p, w, c, k)
  }

  /** Inside the body exactly one entry is found, and it is the one whose slice holds the position. */
  lemma LocateFinds(p: Plan, w: World, c: nat)
    requires p.Valid() && w.Valid() && Inv(p, w, c) && c < w.total
    ensures Locate(w.table, w.total, c).Hit?
    ensures var k := Locate(w.table, w.total, c).index;
            k < |p.entries| && p.entries[k].offset <= c < p.entries[k].offset + p.entries[k].len
  {
    assert Covered(p.entries, c);
    var k :| 0 <= k < |p.entries| && Holds(p.entries[k], c);
    assert EntryOk(p, w, c, k);
    assert Holds(w.table[k], c);
    var r := FirstHit(w.table, c);
    if r.index < |p.entries| {
      assert EntryOk(p, w, c, r.index);
      assert Proper(p.entries[r.index]);
    }
  }

  /** A step inside entry `k` leaves the share of every other entry alone. */
  lemma OthersStandStill(p: Plan, c: nat, n: nat, k: nat, j: nat)
    requires p.Valid() && k < |p.entries| && j < |p.entries| && j != k
    requires p.entries[k].offset <= c && c + n <= p.entries[k].offset + p.entries[k].len
    ensures var e := p.entries[j];
            Clamp(c + n, e.offset, e.len) == Clamp(c, e.offset, e.len) &&
            (n > 0 ==> Clamp(c + n, e.offset, e.len) == 0 || Clamp(c + n, e.offset, e.len) == e.len)
  {
    assert Disjoint(p.entries[j], p.entries[k]);
  }

  /** Splitting a slice: what entry `k` has after `n` more bytes. */
  lemma SliceGrows(p: Plan, c: nat, n: nat, k: nat)
    requires p.Valid() && k < |p.entries| && c + n <= |p.image|
    requires p.entries[k].offset <= c && c + n <= p.entries[k].offset + p.entries[k].len
    ensures var e := p.entries[k];
            Clamp(c, e.offset, e.len) == c - e.offset && Clamp(c + n, e.offset, e.len) == c + n - e.offset &&
            p.Slice(c + n, k) == p.Slice(c, k) + p.image[c..c + n]
  {
  }

  // ----- one round of the distributor

  /** `haswrite` of entry `k` grows by `n`. */
  function Advance(w: World, k: nat, n: nat): (w': World)
    requires k < |w.table|
    ensures w.Valid() ==> w'.Valid()
  {
    w.(table := w.table[k := w.table[k].(written := w.table[k].written + n)])
  }

  /** The test for UBI, which assigns. */
  function Marked(w: World, k: nat): (w': World)
    requires k < |w.table|
  {
    w.(table := w.table[k := w.table[k].(kind := KindUbi)])
  }

  function MtdWritten(w: World, i: nat, data: Text, offset: nat): (w': World)
    requires w.Valid() && i < |w.parts|
    ensures w'.Valid()
  {
    var x := AfterWrite(w.WriterOf(i), data, offset);
    w.(parts := w.parts[i := x.p], nameBuf := x.nameBuf, curBad := x.bad)
  }

  function UbiWritten(w: World, j: nat, bytes: Text): (w': World)
    requires j < |w.volumes|
  {
    w.(volumes := w.volumes[j := w.volumes[j].(bytes := bytes)])
  }

  /** Nothing that entry `j` depends on has changed. */
  ghost predicate Undisturbed(p: Plan, w: World, w': World, c: nat, j: nat)
    requires p.Valid() && w.Valid() && w'.Valid() && j < |p.entries|
  {
    w'.table[j] == w.table[j] && NamesOf(w'.parts) == NamesOf(w.parts) && w'.volNames == w.volNames &&
    (p.Writes(j) ==>
      w'.View(p.dests[j]) == w.View(p.dests[j]) &&
      (p.dests[j].ToMtd? && Clamp(c, p.entries[j].offset, p.entries[j].len) < p.entries[j].len &&
       p.dests[j].i < |w'.parts| ==>
        CLen(w'.nameBuf) <= |w'.parts[p.dests[j].i].name|))
  }

  lemma EntryCarriesOver(p: Plan, w: World, w': World, c: nat, n: nat, k: nat, j: nat)
    requires p.Valid() && w.Valid() && w'.Valid() && k < |p.entries| && j < |p.entries| && j != k && n > 0
    requires p.entries[k].offset <= c && c + n <= p.entries[k].offset + p.entries[k].len
    requires EntryOk(p, w, c, j) && Undisturbed(p, w, w', c, j)
    ensures EntryOk(p, w', c + n, j)
  {
    hide CLen, InStep, Logical, Splice;
    OthersStandStill(p, c, n, k, j);
  }

  lemma SameNames(w: World, i: nat, q: Partition)
    requires i < |w.parts| && q.name == w.parts[i].name
    ensures NamesOf(w.parts[i := q]) == NamesOf(w.parts)
  {
  }

  /** A round is right when its own entry is, and every other one has been left alone. */
  lemma RoundCloses(p: Plan, w: World, w': World, c: nat, n: nat, k: nat)
    requires p.Valid() && w.Valid() && w'.Valid() && Inv(p, w, c) && k < |p.entries| && n > 0
    requires p.entries[k].offset <= c && c + n <= p.entries[k].offset + p.entries[k].len
    requires EntryOk(p, w', c + n, k)
    requires forall j :: 0 <= j < |p.entries| && j != k ==> Undisturbed(p, w, w', c, j)
    requires w'.total == w.total && w'.need == w.need && w'.runMode == w.runMode
    requires |w'.parts| == |w.parts| && NamesOf(w'.parts) == NamesOf(w.parts)
    requires forall m :: |p.entries| <= m < OTA_PARTITION_MAX ==> w'.table[m] == w.table[m]
    requires Elsewhere(p, w')
    ensures Inv(p, w', c + n)
  {
    hide EntryOk, Undisturbed, NamesGrow, Elsewhere;
    var c' := c + n;
    forall j | 0 <= j < |p.entries| && j != k
      ensures EntryOk(p, w', c', j)
    {
      assert EntryOk(p, w, c, j);
      EntryCarriesOver(p, w, w', c, n, k, j);
    }
    NamesStillGrow(p, w, w');
  }

  /** A round that only counts: the entry is not written in this run mode. */
  lemma SkippedRound(p: Plan, w: World, c: nat, n: nat, k: nat)
    requires p.Valid() && w.Valid() && Inv(p, w, c) && k < |p.entries| && !p.Writes(k)
    requires n > 0 && p.entries[k].offset <= c && c + n <= p.entries[k].offset + p.entries[k].len
    ensures Inv(p, Advance(w, k, n), c + n)
  {
    hide CLen, InStep, Logical, Splice;
    var w' := Advance(w, k, n);
    assert EntryOk(p, w, c, k);
    forall j | 0 <= j < |p.entries| && j != k
      ensures Undisturbed(p, w, w', c, j)
    {
      assert EntryOk(p, w, c, j);
    }
    RoundCloses(p, w, w', c, n, k);
  }

  /** What entry `k` needs for the next `n` bytes of its slice. */
  ghost predicate Turn(p: Plan, w: World, c: nat, n: nat, k: nat)
    requires p.Valid() && w.Valid()
  {
    Inv(p, w, c) && k < |p.entries| && p.Writes(k) && n > 0 && c + n <= |p.image| &&
    p.entries[k].offset <= c && c + n <= p.entries[k].offset + p.entries[k].len
  }

  lemma TurnMeans(p: Plan, w: World, c: nat, n: nat, k: nat)
    requires p.Valid() && w.Valid() && Turn(p, w, c, n, k)
    ensures Inv(p, w, c) && k < |p.entries| && p.Writes(k) && n > 0 && c + n <= |p.image|
    ensures p.entries[k].offset <= c && c + n <= p.entries[k].offset + p.entries[k].len
  {
  }

  lemma NextContents(p: Plan, w: World, c: nat, n: nat, k: nat)
    requires p.Valid() && w.Valid() && Turn(p, w, c, n, k)
    requires c - p.entries[k].offset + n <= |p.before[k]|
    ensures var at, v := c - p.entries[k].offset, w.View(p.dests[k]);
            at + n <= |v| && |v| == |p.before[k]| &&
            Splice(v, at, p.image[c..c + n]) == Splice(p.before[k], 0, p.Slice(c + n, k))
  {
    hide View, Logical, Elsewhere, TotalLen;
    assert EntryOk(p, w, c, k);
    SliceGrows(p, c, n, k);
    var at := c - p.entries[k].offset;
    if at > 0 {
      SpliceTwice(p.before[k], 0, p.Slice(c, k), p.image[c..c + n]);
    } else {
      assert p.Slice(c, k) == [] && [] + p.image[c..c + n] == p.image[c..c + n];
    }
  }

  /** A round that writes a UBI volume. */
  lemma UbiRound(p: Plan, w: World, c: nat, n: nat, k: nat, bytes: Text)
    requires p.Valid() && w.Valid() && Turn(p, w, c, n, k) && p.dests[k].ToUbi?
    requires p.dests[k].j < |w.volumes|
    requires c - p.entries[k].offset + n <= |w.volumes[p.dests[k].j].bytes|
    requires bytes == Splice(w.volumes[p.dests[k].j].bytes, c - p.entries[k].offset, p.image[c..c + n])
    ensures UbiWritten(Advance(Marked(w, k), k, n), p.dests[k].j, bytes).Valid()
    ensures Inv(p, UbiWritten(Advance(Marked(w, k), k, n), p.dests[k].j, bytes), c + n)
  {
    hide CLen, InStep, Logical, Splice, Span, TotalLen, Covered, Find, FindName, NamesGrow, Turn, EntryOk, Undisturbed;
    TurnMeans(p, w, c, n, k);
    var w' := UbiWritten(Advance(Marked(w, k), k, n), p.dests[k].j, bytes);
    UbiRoundAtEntry(p, w, c, n, k, bytes);
    forall j | 0 <= j < |p.entries| && j != k
      ensures Undisturbed(p, w, w', c, j)
    {
      assert EntryOk(p, w, c, j);
      UbiRoundElsewhere(p, w, w', c, n, k, j);
    }
    RoundCloses(p, w, w', c, n, k);
  }

  lemma UbiRoundElsewhere(p: Plan, w: World, w': World, c: nat, n: nat, k: nat, j: nat)
    requires p.Valid() && w.Valid() && w'.Valid() && Turn(p, w, c, n, k) && p.dests[k].ToUbi?
    requires p.dests[k].j < |w.volumes| && j < |p.entries| && j != k && EntryOk(p, w, c, j)
    requires |w'.volumes| == |w.volumes|
    requires w' == UbiWritten(Advance(Marked(w, k), k, n), p.dests[k].j, w'.volumes[p.dests[k].j].bytes)
    ensures Undisturbed(p, w, w', c, j)
  {
    hide CLen, InStep, Logical, Splice, Span, TotalLen, Covered, Find, FindName, NamesGrow, Elsewhere, EntryOk;
    assert EntryOk(p, w, c, j);
    if p.Writes(j) {
      DestIsInRange(p, w, c, j);
      ShortNameStays(p, w, c, j);
    }
  }

  lemma ShortNameStays(p: Plan, w: World, c: nat, j: nat)
    requires p.Valid() && w.Valid() && j < |p.entries| && p.Writes(j) && EntryOk(p, w, c, j)
    ensures p.dests[j].ToMtd? && p.dests[j].i < |w.parts| &&
            Clamp(c, p.entries[j].offset, p.entries[j].len) < p.entries[j].len ==>
              CLen(w.nameBuf) <= |w.parts[p.dests[j].i].name|
  {
    hide CLen, InStep, Logical, Splice;
  }

  lemma UbiRoundAtEntry(p: Plan, w: World, c: nat, n: nat, k: nat, bytes: Text)
    requires p.Valid() && w.Valid() && Turn(p, w, c, n, k) && p.dests[k].ToUbi?
    requires p.dests[k].j < |w.volumes|
    requires c - p.entries[k].offset + n <= |w.volumes[p.dests[k].j].bytes|
    requires bytes == Splice(w.volumes[p.dests[k].j].bytes, c - p.entries[k].offset, p.image[c..c + n])
    ensures UbiWritten(Advance(Marked(w, k), k, n), p.dests[k].j, bytes).Valid()
    ensures EntryOk(p, UbiWritten(Advance(Marked(w, k), k, n), p.dests[k].j, bytes), c + n, k)
  {
    hide CLen, InStep, Logical, Splice, Span, Elsewhere, TotalLen;
    assert EntryOk(p, w, c, k);
    ContentsLength(p, w, c, k);
    NextContents(p, w, c, n, k);
  }

  lemma ContentsLength(p: Plan, w: World, c: nat, k: nat)
    requires p.Valid() && w.Valid() && k < |p.entries| && p.Writes(k) && EntryOk(p, w, c, k)
    ensures |w.View(p.dests[k])| == |p.before[k]|
  {
    hide View, InStep, CLen;
  }

  /** A round that writes an MTD partition, when the call succeeds. */
  lemma MtdRound(p: Plan, w: World, c: nat, n: nat, k: nat)
    requires p.Valid() && w.Valid() && Turn(p, w, c, n, k) && p.dests[k].ToMtd?
    requires p.dests[k].i < |w.parts|
    requires WriteAnswer(w.WriterOf(p.dests[k].i), p.image[c..c + n], c - p.entries[k].offset) == Written(n)
    ensures var w' := MtdWritten(Advance(w, k, n), p.dests[k].i, p.image[c..c + n], c - p.entries[k].offset);
            w'.Valid() && Inv(p, w', c + n)
  {
    hide CLen, InStep, Logical, Splice, CStr, Write, AfterWrite, WriteAnswer, EntryOk, Undisturbed;
    var i, at, data := p.dests[k].i, c - p.entries[k].offset, p.image[c..c + n];
    var w' := MtdWritten(Advance(w, k, n), i, data, at);
    assert EntryOk(p, w, c, k);
    MtdRoundAtEntry(p, w, c, n, k);
    SameNames(w, i, w'.parts[i]);
    MtdEntryOk(p, w, w', c, n, k);
    forall j | 0 <= j < |p.entries| && j != k
      ensures Undisturbed(p, w, w', c, j)
    {
      assert EntryOk(p, w, c, j);
      MtdRoundElsewhere(p, w, w', c, n, k, j);
    }
    RoundCloses(p, w, w', c, n, k);
  }

  lemma MtdEntryOk(p: Plan, w: World, w': World, c: nat, n: nat, k: nat)
    requires p.Valid() && w.Valid() && w'.Valid() && Turn(p, w, c, n, k) && p.dests[k].ToMtd?
    requires p.dests[k].i < |w.parts| && |w'.parts| == |w.parts|
    requires NamesOf(w'.parts) == NamesOf(w.parts)
    requires var i, at := p.dests[k].i, c - p.entries[k].offset;
             at + n <= |p.before[k]| &&
             Logical(w'.parts[i]) == Splice(p.before[k], 0, p.Slice(c + n, k)) &&
             CLen(w'.nameBuf) <= |w'.parts[i].name| && InStep(w'.WriterOf(i), at + n)
    requires w'.table == Advance(w, k, n).table
    ensures EntryOk(p, w', c + n, k)
  {
    hide CLen, InStep, Logical, Splice, Elsewhere, TotalLen;
    assert EntryOk(p, w, c, k);
  }

  /** The entry written: the call went where the slice goes on, and the next call will. */
  lemma MtdRoundAtEntry(p: Plan, w: World, c: nat, n: nat, k: nat)
    requires p.Valid() && w.Valid() && Turn(p, w, c, n, k) && p.dests[k].ToMtd?
    requires p.dests[k].i < |w.parts|
    requires WriteAnswer(w.WriterOf(p.dests[k].i), p.image[c..c + n], c - p.entries[k].offset) == Written(n)
    ensures var i, at := p.dests[k].i, c - p.entries[k].offset;
            var w' := MtdWritten(w, i, p.image[c..c + n], at);
            w'.Valid() && at + n <= |p.before[k]| &&
            Logical(w'.parts[i]) == Splice(p.before[k], 0, p.Slice(c + n, k)) &&
            w'.parts[i].name == w.parts[i].name && CLen(w'.nameBuf) <= |w.parts[i].name| &&
            InStep(w'.WriterOf(i), at + n)
  {
    hide CLen, InStep, Splice, CStr, Write, AfterWrite, WriteAnswer, Logical, View, Elsewhere, TotalLen;
    var i, at, data := p.dests[k].i, c - p.entries[k].offset, p.image[c..c + n];
    assert EntryOk(p, w, c, k);
    var x := w.WriterOf(i);
    if at == 0 {
      StartsInStep(x);
    }
    ContentsLength(p, w, c, k);
    CallRefinesAppend(x, data, at);
    NextContents(p, w, c, n, k);
    RememberedNoLonger(x, data, at);
    NextCallInStepIff(x, data, at);
    AfterIsWriter(w, i, data, at);
  }

  lemma AfterIsWriter(w: World, i: nat, data: Text, at: nat)
    requires w.Valid() && i < |w.parts|
    ensures var w' := MtdWritten(w, i, data, at);
            w'.Valid() && w'.WriterOf(i) == AfterWrite(w.WriterOf(i), data, at) &&
            w'.parts[i].name == w.parts[i].name
  {
    hide Write, CLen;
  }

  lemma MtdRoundElsewhere(p: Plan, w: World, w': World, c: nat, n: nat, k: nat, j: nat)
    requires p.Valid() && w.Valid() && w'.Valid() && Turn(p, w, c, n, k) && p.dests[k].ToMtd?
    requires j < |p.entries| && j != k && EntryOk(p, w, c, j)
    requires var i := p.dests[k].i;
             i < |w.parts| && |w'.parts| == |w.parts| &&
             w' == w.(table := w'.table, parts := w.parts[i := w'.parts[i]], nameBuf := w'.nameBuf,
                      curBad := w'.curBad) &&
             w'.parts[i].name == w.parts[i].name && CLen(w'.nameBuf) <= |w.parts[i].name| &&
             w'.table[j] == w.table[j]
    ensures Undisturbed(p, w, w', c, j)
  {
    hide CLen, InStep, Logical, Splice, EntryOk;
    var i := p.dests[k].i;
    SameNames(w, i, w'.parts[i]);
    if p.Writes(j) {
      DestIsInRange(p, w, c, j);
      assert p.dests[j] != p.dests[k];
      if p.dests[j].ToMtd? && Clamp(c, p.entries[j].offset, p.entries[j].len) < p.entries[j].len {
        assert Disjoint(p.entries[j], p.entries[k]);
        assert IsMtd(p, w, j) && IsMtd(p, w, k);
      }
    }
  }

  lemma DestIsInRange(p: Plan, w: World, c: nat, k: nat)
    requires p.Valid() && w.Valid() && k < |p.entries| && p.Writes(k) && EntryOk(p, w, c, k)
    ensures w.DestOf(p.entries[k]) == p.dests[k]
    ensures p.dests[k].ToMtd? ==> p.dests[k].i < |w.parts|
    ensures p.dests[k].ToUbi? ==> p.dests[k].j < |w.volumes|
  {
    hide InStep, CLen, Logical;
  }

  lemma NamesStillGrow(p: Plan, w: World, w': World)
    requires p.Valid() && w.Valid() && w'.Valid() && NamesGrow(p, w)
    requires |w'.parts| == |w.parts| && NamesOf(w'.parts) == NamesOf(w.parts)
    ensures NamesGrow(p, w')
  {
    forall j, k | 0 <= j < |p.entries| && 0 <= k < |p.entries| && IsMtd(p, w', j) && IsMtd(p, w', k) &&
                  p.entries[j].offset < p.entries[k].offset
      ensures |w'.parts[p.dests[j].i].name| <= |w'.parts[p.dests[k].i].name|
    {
      assert IsMtd(p, w, j) && IsMtd(p, w, k);
      assert NamesOf(w'.parts)[p.dests[j].i] == NamesOf(w.parts)[p.dests[j].i];
      assert NamesOf(w'.parts)[p.dests[k].i] == NamesOf(w.parts)[p.dests[k].i];
    }
  }

  // ----- boot commands on the way

  const KERNEL_NAME: Text := "kernel"

  /** The boot command an MTD entry raises before it is written. */
  function CommandOf(name: Text): Option<Command> {
    if SameIgnoringCase(name, KERNEL_NAME) then Some(KERNEL_CMD)
    else if SameIgnoringCase(name, RECOVERY_NAME) then Some(RECOVERY_CMD)
    else None
  }

  /** Entry `k` is written and raises a boot command. */
  predicate Boots(p: Plan, k: nat)
    requires k < |p.entries|
  {
    p.Writes(k) && p.entries[k].kind.KindMtd? && CommandOf(p.entries[k].name).Some?
  }

  predicate RaisedTo(env: Text, name: Text, len: nat)
    requires CommandOf(name).Some?
  {
    var s := SizeInEnv(env, CommandOf(name).value);
    s.Size? && s.n >= len
  }

  /** The environment is usable, and an entry that is begun has its boot size in place, so that the boot command is not
      written again in the middle of it. */
  ghost predicate BootOk(p: Plan, env: Text, c: nat)
  {
    BootSafe(env) &&
    forall k :: 0 <= k < |p.entries| && Boots(p, k) && Clamp(c, p.entries[k].offset, p.entries[k].len) > 0 ==>
      RaisedTo(env, p.entries[k].name, p.entries[k].len)
  }

  /** If boot commands are raised at all, the env partition is no destination and its name is not longer than
      theirs. */
  ghost predicate EnvApart(p: Plan, w: World)
    requires p.Valid() && w.Valid()
  {
    Raises(p) && FindPartition(w.parts, EnvStore.ENV_NAME).Some? ==>
      var x := FindPartition(w.parts, EnvStore.ENV_NAME).value;
      forall k :: 0 <= k < |p.entries| && IsMtd(p, w, k) ==>
        p.dests[k].i != x && |w.parts[x].name| <= |w.parts[p.dests[k].i].name|
  }

  /** Raising a boot command between two entries disturbs none of them. */
  lemma BootRound(p: Plan, w: World, w': World, c: nat, k: nat)
    requires p.Valid() && w.Valid() && w'.Valid() && Inv(p, w, c) && EnvApart(p, w)
    requires k < |p.entries| && Boots(p, k) && p.entries[k].offset == c
    requires w' == w.(parts := w'.parts, nameBuf := w'.nameBuf, curBad := w'.curBad, env := w'.env)
    requires EnvStore.EnvStepped(w.parts, w.nameBuf, w'.parts, w'.nameBuf)
    ensures Inv(p, w', c) && EnvApart(p, w')
  {
    hide CLen, InStep, Logical, Splice, EntryOk;
    SteppedNames(w, w');
    NamesStillGrow(p, w, w');
    forall j | 0 <= j < |p.entries|
      ensures EntryOk(p, w', c, j)
    {
      assert EntryOk(p, w, c, j);
      if j != k {
        assert Disjoint(p.entries[j], p.entries[k]);
      }
      if p.Writes(j) {
        DestIsInRange(p, w, c, j);
      }
      BootRoundElsewhere(p, w, w', c, k, j);
    }
    forall j | 0 <= j < |p.entries| && IsMtd(p, w', j)
      ensures IsMtd(p, w, j) && w'.parts[p.dests[j].i].name == w.parts[p.dests[j].i].name
    {
      assert NamesOf(w'.parts)[p.dests[j].i] == NamesOf(w.parts)[p.dests[j].i];
    }
  }

  lemma SteppedNames(w: World, w': World)
    requires w.Valid() && w'.Valid()
    requires EnvStore.EnvStepped(w.parts, w.nameBuf, w'.parts, w'.nameBuf)
    ensures |w'.parts| == |w.parts| && NamesOf(w'.parts) == NamesOf(w.parts)
  {
    hide CLen;
    if w'.parts != w.parts {
      var x := FindPartition(w.parts, EnvStore.ENV_NAME).value;
      SameNames(w, x, w'.parts[x]);
    }
  }

  lemma BootRoundElsewhere(p: Plan, w: World, w': World, c: nat, k: nat, j: nat)
    requires p.Valid() && w.Valid() && w'.Valid() && EnvApart(p, w)
    requires k < |p.entries| && Boots(p, k) && j < |p.entries| && EntryOk(p, w, c, j)
    requires w' == w.(parts := w'.parts, nameBuf := w'.nameBuf, curBad := w'.curBad, env := w'.env)
    requires EnvStore.EnvStepped(w.parts, w.nameBuf, w'.parts, w'.nameBuf)
    requires |w'.parts| == |w.parts| && NamesOf(w'.parts) == NamesOf(w.parts)
    requires var n := Clamp(c, p.entries[j].offset, p.entries[j].len); n == 0 || n == p.entries[j].len
    requires p.Writes(j) ==> w.DestOf(p.entries[j]) == p.dests[j]
    requires p.Writes(j) && p.dests[j].ToMtd? ==> p.dests[j].i < |w.parts|
    ensures EntryOk(p, w', c, j)
  {
    hide CLen, InStep, Logical, Splice, FindName;
    if IsMtd(p, w, j) {
      assert NamesOf(w'.parts)[p.dests[j].i] == NamesOf(w.parts)[p.dests[j].i];
      assert Boots(p, k);
    }
  }

  // ----- when nothing can go wrong

  /** Room everywhere, flawless LEB rewrites, and no boot command left to raise. */
  ghost predicate Roomy(p: Plan, w: World, ready: bool, inited: bool)
    requires p.Valid() && w.Valid()
  {
    forall k :: 0 <= k < |p.entries| && p.Writes(k) ==>
      p.entries[k].len <= |p.before[k]| && |p.before[k]| < WORD &&
      (p.dests[k].ToUbi? ==>
        ready && p.dests[k].j < |w.volumes| &&
        forall m: nat :: w.volumes[p.dests[k].j].oracle(m) == Stored(w.volumes[p.dests[k].j].lebSize)) &&
      (Boots(p, k) ==> inited && RaisedTo(w.env, p.entries[k].name, p.entries[k].len))
  }

  lemma RoomyMtdSucceeds(p: Plan, w: World, c: nat, n: nat, k: nat)
    requires p.Valid() && w.Valid() && Turn(p, w, c, n, k) && p.dests[k].ToMtd?
    requires p.dests[k].i < |w.parts| && p.entries[k].len <= |p.before[k]|
    ensures WriteAnswer(w.WriterOf(p.dests[k].i), p.image[c..c + n], c - p.entries[k].offset) == Written(n)
  {
    hide CLen, InStep, Splice, CStr, Write, AfterWrite, WriteAnswer, Logical, View, Elsewhere, TotalLen;
    var x := w.WriterOf(p.dests[k].i);
    assert EntryOk(p, w, c, k);
    if c == p.entries[k].offset {
      StartsInStep(x);
    }
    ContentsLength(p, w, c, k);
    CallRefinesAppend(x, p.image[c..c + n], c - p.entries[k].offset);
  }

  // ----- one piece of an entry, from before the boot command to after the write

  /** The invariant together with what the boot commands need. */
  ghost predicate Steady(p: Plan, w: World, c: nat) {
    p.Valid() && w.Valid() && Inv(p, w, c) && BootOk(p, w.env, c) && EnvApart(p, w)
  }

  /** The step a raised boot command takes, or none. */
  ghost predicate BootStep(w: World, w1: World, name: Text, len: nat)
    requires w.Valid()
  {
    w1.Valid() && w1 == w.(parts := w1.parts, nameBuf := w1.nameBuf, curBad := w1.curBad, env := w1.env) &&
    EnvStore.EnvStepped(w.parts, w.nameBuf, w1.parts, w1.nameBuf) && BootSafe(w1.env) &&
    (CommandOf(name).Some? ==> RaisedTo(w1.env, name, len)) &&
    (CommandOf(name).None? || RaisedTo(w.env, name, len) ==> w1 == w) &&
    NoSizeFalls(w.env, w1.env)
  }

  /** No boot command has a smaller size than before. */
  ghost predicate NoSizeFalls(env: Text, env': Text) {
    forall cmd :: IsBootCommand(cmd) && SizeInEnv(env, cmd).Size? ==>
      SizeInEnv(env', cmd).Size? && SizeInEnv(env', cmd).n >= SizeInEnv(env, cmd).n
  }

  /** What writing the kernel or the recovery image does to the boot commands: its own is raised to the length if it
      was below, the other one keeps its size, and no other name changes anything. */
  ghost predicate BootRaised(env: Text, env': Text, name: Text, len: nat) {
    (SameIgnoringCase(name, "kernel") ==>
      RaisedSize(SizeInEnv(env, KERNEL_CMD), SizeInEnv(env', KERNEL_CMD), len) &&
      SizeInEnv(env', RECOVERY_CMD) == SizeInEnv(env, RECOVERY_CMD)) &&
    (SameIgnoringCase(name, "RECOVERY") ==>
      RaisedSize(SizeInEnv(env, RECOVERY_CMD), SizeInEnv(env', RECOVERY_CMD), len) &&
      SizeInEnv(env', KERNEL_CMD) == SizeInEnv(env, KERNEL_CMD)) &&
    (!SameIgnoringCase(name, "kernel") && !SameIgnoringCase(name, "RECOVERY") ==> env' == env)
  }

  predicate RaisedSize(was: SizeIn, now: SizeIn, len: nat) {
    was.Size? && now == Size(if was.n < len then len else was.n)
  }

  lemma StaysRaised(env: Text, env': Text, name: Text, len: nat)
    requires NoSizeFalls(env, env') && CommandOf(name).Some? && RaisedTo(env, name, len)
    ensures RaisedTo(env', name, len)
  {
    hide SizeInEnv;
  }

  lemma AfterBootStep(p: Plan, w: World, w1: World, c: nat, n: nat, k: nat)
    requires Steady(p, w, c) && Turn(p, w, c, n, k) && p.entries[k].kind.KindMtd?
    requires BootStep(w, w1, p.entries[k].name, p.entries[k].len)
    ensures Inv(p, w1, c) && EnvApart(p, w1) && Turn(p, w1, c, n, k) && BootOk(p, w1.env, c + n)
    ensures p.dests[k] == match FindPartition(w1.parts, p.entries[k].name)
                          case Some(i) => ToMtd(i)
                          case None => Nowhere
  {
    hide CLen, InStep, Logical, Splice, BootSafe, RaisedTo, FindName, EnvStore.EnvStepped, NamesGrow,
         Elsewhere, TotalLen;
    assert EntryOk(p, w, c, k);
    if w1 != w {
      BootRound(p, w, w1, c, k);
    }
    assert EntryOk(p, w1, c, k);
    KindDecides(p, w1, c, k);
    forall j | 0 <= j < |p.entries| && Boots(p, j) && Clamp(c + n, p.entries[j].offset, p.entries[j].len) > 0
      ensures RaisedTo(w1.env, p.entries[j].name, p.entries[j].len)
    {
      if j != k {
        OthersStandStill(p, c, n, k, j);
        StaysRaised(w.env, w1.env, p.entries[j].name, p.entries[j].len);
      }
    }
  }

  /** A destination is of the entry's kind. */
  lemma KindDecides(p: Plan, w: World, c: nat, k: nat)
    requires p.Valid() && w.Valid() && k < |p.entries| && p.Writes(k) && EntryOk(p, w, c, k)
    requires p.entries[k].kind.KindMtd?
    ensures p.dests[k] == match FindPartition(w.parts, p.entries[k].name)
                          case Some(i) => ToMtd(i)
                          case None => Nowhere
  {
    hide InStep, CLen, Logical, FindName;
  }

  /** A whole MTD piece: boot command, write, count. */
  lemma MtdPiece(p: Plan, w: World, w1: World, c: nat, n: nat, k: nat)
    requires Steady(p, w, c) && Turn(p, w, c, n, k) && p.entries[k].kind.KindMtd?
    requires BootStep(w, w1, p.entries[k].name, p.entries[k].len)
    ensures var f := FindPartition(w1.parts, p.entries[k].name);
            var data, at := p.image[c..c + n], c - p.entries[k].offset;
            f.Some? && WriteAnswer(w1.WriterOf(f.value), data, at) == Written(n) ==>
              Steady(p, MtdWritten(Advance(w1, k, n), f.value, data, at), c + n)
  {
    hide CLen, InStep, Logical, Splice, Write, WriteAnswer, FindName, FindPartition, Inv, BootSafe, RaisedTo, TotalLen,
         NoSizeFalls, CommandOf, EnvStore.EnvStepped;
    AfterBootStep(p, w, w1, c, n, k);
    var f := FindPartition(w1.parts, p.entries[k].name);
    var data, at := p.image[c..c + n], c - p.entries[k].offset;
    if f.Some? && WriteAnswer(w1.WriterOf(f.value), data, at) == Written(n) {
      MtdRound(p, w1, c, n, k);
      AfterIsWriter(w1, f.value, data, at);
      SameNames(w1, f.value, AfterWrite(w1.WriterOf(f.value), data, at).p);
      var w2 := MtdWritten(Advance(w1, k, n), f.value, data, at);
      StillApart(p, w1, w2);
    }
  }

  lemma StillApart(p: Plan, w: World, w': World)
    requires p.Valid() && w.Valid() && w'.Valid() && EnvApart(p, w)
    requires |w'.parts| == |w.parts| && NamesOf(w'.parts) == NamesOf(w.parts)
    ensures EnvApart(p, w')
  {
    hide FindName;
    forall i | 0 <= i < |w.parts|
      ensures w'.parts[i].name == w.parts[i].name
    {
      assert NamesOf(w'.parts)[i] == NamesOf(w.parts)[i];
    }
    assert forall k :: 0 <= k < |p.entries| && IsMtd(p, w', k) ==> IsMtd(p, w, k);
  }

  /** With room and nothing to raise the piece succeeds. */
  lemma RoomyMtdPiece(p: Plan, w: World, c: nat, n: nat, k: nat, ready: bool, inited: bool)
    requires Steady(p, w, c) && Turn(p, w, c, n, k) && p.entries[k].kind.KindMtd?
    requires Roomy(p, w, ready, inited)
    ensures CommandOf(p.entries[k].name).None? || (inited && RaisedTo(w.env, p.entries[k].name, p.entries[k].len))
    ensures var f := FindPartition(w.parts, p.entries[k].name);
            var data, at := p.image[c..c + n], c - p.entries[k].offset;
            f.Some? && WriteAnswer(w.WriterOf(f.value), data, at) == Written(n) &&
            Roomy(p, MtdWritten(Advance(w, k, n), f.value, data, at), ready, inited)
  {
    hide CLen, InStep, Splice, Write, WriteAnswer, FindName, BootSafe, RaisedTo, Elsewhere, TotalLen;
    assert EntryOk(p, w, c, k);
    KindDecides(p, w, c, k);
    RoomyMtdSucceeds(p, w, c, n, k);
  }

  /** The entry a piece belongs to, as the table has it. */
  lemma PieceEntry(p: Plan, w: World, c: nat, n: nat, k: nat)
    requires Steady(p, w, c) && Turn(p, w, c, n, k)
    ensures w.table[k] == EntryAt(p, k, c - p.entries[k].offset) && n > 0
    ensures w.table[k].name == p.entries[k].name && w.table[k].len == p.entries[k].len > 0
    ensures w.table[k].upgrade.UpUpdate? && (w.table[k].kind.KindMtd? <==> p.entries[k].kind.KindMtd?)
  {
    hide CLen, InStep, Logical, Splice, BootSafe, RaisedTo, EnvApart, Elsewhere, TotalLen;
    assert EntryOk(p, w, c, k);
  }

  /** `haswrite` is counted after the write. */
  lemma CountedLast(w: World, k: nat, n: nat, i: nat, data: Text, at: nat)
    requires w.Valid() && k < |w.table| && i < |w.parts|
    ensures Advance(w, k, n).Valid()
    ensures Advance(MtdWritten(w, i, data, at), k, n) == MtdWritten(Advance(w, k, n), i, data, at)
  {
    hide AfterWrite;
  }

  /** The last statement of a successful MTD piece, `haswrite += len`, completes the round. */
  lemma MtdEnds(p: Plan, w: World, w1: World, w2: World, c: nat, data: Text, k: nat, at: nat, ready: bool, inited: bool)
    requires Steady(p, w, c) && Turn(p, w, c, |data|, k) && p.entries[k].kind.KindMtd?
    requires data == p.image[c..c + |data|] && at == c - p.entries[k].offset
    requires BootStep(w, w1, p.entries[k].name, p.entries[k].len)
    requires var f := FindPartition(w1.parts, p.entries[k].name);
             f.Some? && WriteAnswer(w1.WriterOf(f.value), data, at) == Written(|data|) &&
             w2 == MtdWritten(w1, f.value, data, at)
    ensures w2.Valid() && Advance(w2, k, |data|).Valid() && Steady(p, Advance(w2, k, |data|), c + |data|)
    ensures Roomy(p, w, ready, inited) ==> Roomy(p, Advance(w2, k, |data|), ready, inited)
  {
    hide Inv, Roomy, BootOk, EnvApart, RaisedTo, MtdWritten, FindName, CommandOf, BootSafe,
         EnvStore.EnvStepped, WriteAnswer;
    MtdPiece(p, w, w1, c, |data|, k);
    var i := FindPartition(w1.parts, p.entries[k].name).value;
    CountedLast(w1, k, |data|, i, data, at);
    AfterIsWriter(w1, i, data, at);
    if Roomy(p, w, ready, inited) {
      RoomyMtdPiece(p, w, c, |data|, k, ready, inited);
      assert w1 == w;
    }
  }

  /** A whole UBI piece that reported all its bytes. */
  lemma UbiPiece(p: Plan, w: World, w': World, c: nat, n: nat, k: nat)
    requires Steady(p, w, c) && Turn(p, w, c, n, k) && !p.entries[k].kind.KindMtd?
    requires FindName(w.volNames, p.entries[k].name).Some?
    requires var j := FindName(w.volNames, p.entries[k].name).value;
             |w'.volumes| == |w.volumes| && w' == UbiWritten(Advance(Marked(w, k), k, n), j, w'.volumes[j].bytes) &&
             InPlace(w.volumes[j].bytes, w'.volumes[j].bytes, c - p.entries[k].offset, p.image[c..c + n], n)
    ensures w'.Valid() && Steady(p, w', c + n)
  {
    hide CLen, InStep, Logical, Splice, FindName, BootSafe, RaisedTo, Span, Elsewhere, TotalLen;
    assert EntryOk(p, w, c, k);
    var j := FindName(w.volNames, p.entries[k].name).value;
    assert p.image[c..c + n][..n] == p.image[c..c + n];
    UbiRound(p, w, c, n, k, w'.volumes[j].bytes);
    StillApart(p, w, w');
    forall j | 0 <= j < |p.entries| && j != k
      ensures Clamp(c + n, p.entries[j].offset, p.entries[j].len) == Clamp(c, p.entries[j].offset, p.entries[j].len)
    {
      OthersStandStill(p, c, n, k, j);
    }
  }

  /** With room and flawless LEB rewrites a UBI piece lands whole. */
  lemma RoomyUbiPiece(p: Plan, w: World, c: nat, n: nat, k: nat, ready: bool, inited: bool, call: nat)
    requires Steady(p, w, c) && Turn(p, w, c, n, k) && !p.entries[k].kind.KindMtd?
    requires Roomy(p, w, ready, inited)
    ensures ready && FindName(w.volNames, p.entries[k].name).Some?
    ensures var j := FindName(w.volNames, p.entries[k].name).value;
            p.entries[k].len <= |w.volumes[j].bytes| < WORD &&
            Landed(w.volumes[j], call, c - p.entries[k].offset, n) == n
  {
    hide CLen, InStep, Logical, Splice, FindName, BootSafe, RaisedTo, Span, Landed, Elsewhere, TotalLen;
    UbiKindDecides(p, w, c, k);
    ContentsLength(p, w, c, k);
    FlawlessLandsIff(w.volumes[p.dests[k].j], call, c - p.entries[k].offset, n);
  }

  lemma UbiKindDecides(p: Plan, w: World, c: nat, k: nat)
    requires p.Valid() && w.Valid() && k < |p.entries| && p.Writes(k) && Inv(p, w, c)
    requires !p.entries[k].kind.KindMtd?
    requires p.entries[k].len <= |p.before[k]|
    ensures EntryOk(p, w, c, k)
    ensures p.dests[k].ToUbi? && p.dests[k].j < |w.volumes|
    ensures FindName(w.volNames, p.entries[k].name) == Some(p.dests[k].j)
  {
    hide InStep, CLen, Logical, FindName, Splice, Span, Elsewhere, TotalLen;
    assert EntryOk(p, w, c, k);
  }

  /** The last statement of a successful UBI piece. */
  lemma UbiEnds(p: Plan, w: World, w1: World, c: nat, data: Text, k: nat, at: nat, ready: bool, inited: bool)
    requires Steady(p, w, c) && Turn(p, w, c, |data|, k) && !p.entries[k].kind.KindMtd?
    requires data == p.image[c..c + |data|] && at == c - p.entries[k].offset
    requires FindName(w.volNames, p.entries[k].name).Some?
    requires var j := FindName(w.volNames, p.entries[k].name).value;
             |w1.volumes| == |w.volumes| && w1 == UbiWritten(Marked(w, k), j, w1.volumes[j].bytes) &&
             InPlace(w.volumes[j].bytes, w1.volumes[j].bytes, at, data, |data|)
    ensures Advance(w1, k, |data|).Valid() && Steady(p, Advance(w1, k, |data|), c + |data|)
    ensures Roomy(p, w, ready, inited) ==> Roomy(p, Advance(w1, k, |data|), ready, inited)
  {
    hide Inv, BootOk, EnvApart, RaisedTo, FindName, CommandOf, BootSafe, InPlace;
    UbiPiece(p, w, Advance(w1, k, |data|), c, |data|, k);
  }

  // ----- one round of the distributor, and the end of the stream

  /** The entry found at `c`, and how much of the next `unwritten` bytes it takes. */
  lemma NextTurn(p: Plan, w: World, c: nat, unwritten: nat)
    requires Steady(p, w, c) && c < w.total && unwritten > 0 && c + unwritten <= |p.image|
    ensures var r := Locate(w.table, w.total, c);
            r.Hit? && r.index < |p.entries| && w.need == |p.entries| + 1 && w.runMode == p.runMode &&
            var e, n := w.table[r.index], WriteLen(w.table[r.index], unwritten);
            e.name == p.entries[r.index].name && e.upgrade.UpUpdate? && e.written == c - p.entries[r.index].offset &&
            0 < n && p.entries[r.index].offset <= c && c + n <= p.entries[r.index].offset + p.entries[r.index].len &&
            (p.Writes(r.index) == Selected(e, w.runMode)) &&
            (p.Writes(r.index) ==> Turn(p, w, c, n, r.index))
  {
    hide CLen, InStep, Logical, Splice, BootSafe, RaisedTo, EnvApart, Locate, Find, Elsewhere, TotalLen;
    LocateFinds(p, w, c);
    assert EntryOk(p, w, c, Locate(w.table, w.total, c).index);
  }

  /** An entry that is not written in this run mode only counts. */
  lemma SkippedPiece(p: Plan, w: World, c: nat, n: nat, k: nat, ready: bool, inited: bool)
    requires Steady(p, w, c) && k < |p.entries| && !p.Writes(k)
    requires n > 0 && p.entries[k].offset <= c && c + n <= p.entries[k].offset + p.entries[k].len
    ensures Advance(w, k, n).Valid() && Steady(p, Advance(w, k, n), c + n)
    ensures Roomy(p, w, ready, inited) ==> Roomy(p, Advance(w, k, n), ready, inited)
  {
    hide Inv, BootSafe, RaisedTo, FindName, Find, TotalLen;
    SkippedRound(p, w, c, n, k);
    forall j | 0 <= j < |p.entries| && Boots(p, j)
      ensures Clamp(c + n, p.entries[j].offset, p.entries[j].len) == Clamp(c, p.entries[j].offset, p.entries[j].len)
    {
      OthersStandStill(p, c, n, k, j);
    }
  }

  /** Behind the end of the table further bytes change nothing. */
  lemma PastTheEnd(p: Plan, w: World, c: nat, c': nat)
    requires Steady(p, w, c) && w.total <= c <= c'
    ensures Steady(p, w, c')
  {
    hide CLen, InStep, Logical, Splice, BootSafe, RaisedTo, EnvApart, Find, Elsewhere, TotalLen;
    forall k | 0 <= k < |p.entries|
      ensures EntryOk(p, w, c', k) &&
              Clamp(c', p.entries[k].offset, p.entries[k].len) == Clamp(c, p.entries[k].offset, p.entries[k].len)
    {
      assert EntryOk(p, w, c, k);
    }
  }

  /** After the whole body every selected destination holds exactly its image slice over what it held before,
      every counter is full, selected entries of unknown kind have become UBI ones, boot commands cover the images they
      load, and nothing else has been written. */
  ghost predicate Delivered(p: Plan, w: World)
    requires p.Valid() && w.Valid()
  {
    Elsewhere(p, w) &&
    (forall k :: 0 <= k < |p.entries| && Boots(p, k) ==> RaisedTo(w.env, p.entries[k].name, p.entries[k].len)) &&
    forall k :: 0 <= k < |p.entries| ==>
      w.table[k] == EntryAt(p, k, p.entries[k].len) &&
      (p.Writes(k) ==>
        p.entries[k].offset + p.entries[k].len <= |p.image| && p.entries[k].len <= |p.before[k]| &&
        w.View(p.dests[k]) ==
          Splice(p.before[k], 0, p.image[p.entries[k].offset..p.entries[k].offset + p.entries[k].len]))
  }

  lemma AllDelivered(p: Plan, w: World, c: nat)
    requires Steady(p, w, c) && c >= TotalLen(p.entries)
    ensures Delivered(p, w)
  {
    hide CLen, InStep, Logical, Splice, BootSafe, RaisedTo, EnvApart, Find, Elsewhere, TotalLen;
    forall k | 0 <= k < |p.entries|
      ensures Clamp(c, p.entries[k].offset, p.entries[k].len) == p.entries[k].len > 0 && EntryOk(p, w, c, k)
    {
      assert Proper(p.entries[k]);
    }
  }

  /** How the bytes were cut into chunks does not show: two runs over the same plan that have consumed the same
      number of bytes agree on every counter, on every destination, and on everything that is not written. */
  lemma ChunkingDoesNotShow(p: Plan, w: World, w': World, c: nat)
    requires Steady(p, w, c) && Steady(p, w', c)
    ensures forall k :: 0 <= k < |p.entries| ==>
              w.table[k] == w'.table[k] && (p.Writes(k) ==> w.View(p.dests[k]) == w'.View(p.dests[k]))
    ensures forall j :: 0 <= j < |w.volumes| && !Destined(p, ToUbi(j)) ==> w.volumes[j].bytes == w'.volumes[j].bytes
  {
    hide CLen, InStep, Logical, Splice, BootSafe, RaisedTo, EnvApart, Find, TotalLen;
    forall k | 0 <= k < |p.entries|
      ensures w.table[k] == w'.table[k] && (p.Writes(k) ==> w.View(p.dests[k]) == w'.View(p.dests[k]))
    {
      assert EntryOk(p, w, c, k) && EntryOk(p, w', c, k);
    }
  }

  // ----- the same, read off names and bytes

  /** Run mode 0 writes what has RECOVERY in its name, every other mode what has not. */
  ghost predicate ForThisRun(e: Entry, runMode: int) {
    runMode == 0 <==> exists i: nat :: OccursAt(e.name, "RECOVERY", i)
  }

  lemma SelectedIff(e: Entry, runMode: int)
    ensures Selected(e, runMode) <==> ForThisRun(e, runMode)
  {
  }

  /** The partition, or the volume, that goes by this name: the first one, in letters of either case. */
  ghost predicate PartitionIs(parts: seq<Partition>, name: Text, i: nat) {
    i < |parts| && SameIgnoringCase(parts[i].name, name) &&
    forall k :: 0 <= k < i ==> !SameIgnoringCase(parts[k].name, name)
  }

  ghost predicate VolumeIs(names: seq<Text>, name: Text, j: nat) {
    j < |names| && SameIgnoringCase(names[j], name) && forall k :: 0 <= k < j ==> !SameIgnoringCase(names[k], name)
  }

  /** The place named by the entry held `was` and now begins with the entry's slice of the image. */
  ghost predicate ReceivedMtd(w: World, w': World, e: Entry, image: Text)
    requires w.Valid() && w'.Valid() && |w'.parts| == |w.parts|
  {
    exists i: nat ::
      PartitionIs(w.parts, e.name, i) && e.offset + e.len <= |image| && e.len <= |Logical(w.parts[i])| &&
      Logical(w'.parts[i]) == Splice(Logical(w.parts[i]), 0, image[e.offset..e.offset + e.len])
  }

  ghost predicate ReceivedUbi(w: World, w': World, e: Entry, image: Text)
    requires w.Valid() && |w'.volumes| == |w.volumes|
  {
    exists j: nat ::
      VolumeIs(w.volNames, e.name, j) && e.offset + e.len <= |image| && e.len <= |w.volumes[j].bytes| &&
      w'.volumes[j].bytes == Splice(w.volumes[j].bytes, 0, image[e.offset..e.offset + e.len])
  }

  /** A partition that is neither the environment's nor named by an MTD entry of this run is as it was. */
  ghost predicate OtherPartsKept(w: World, w': World, entries: seq<Entry>)
    requires |w'.parts| == |w.parts|
  {
    forall i :: 0 <= i < |w.parts| && !SameIgnoringCase(w.parts[i].name, "env") &&
                (forall k :: 0 <= k < |entries| && entries[k].kind == KindMtd && ForThisRun(entries[k], w.runMode) ==>
                   !SameIgnoringCase(w.parts[i].name, entries[k].name)) ==>
      w'.parts[i] == w.parts[i]
  }

  /** And so is a volume that no other entry of this run names. */
  ghost predicate OtherVolumesKept(w: World, w': World, entries: seq<Entry>)
    requires w.Valid() && |w'.volumes| == |w.volumes|
  {
    forall j :: 0 <= j < |w.volumes| &&
                (forall k :: 0 <= k < |entries| && entries[k].kind != KindMtd && ForThisRun(entries[k], w.runMode) ==>
                   !SameIgnoringCase(w.volNames[j], entries[k].name)) ==>
      w'.volumes[j].bytes == w.volumes[j].bytes
  }

  /** The boot command that loads the image of this name covers it. */
  ghost predicate BootCovers(env: Text, e: Entry) {
    (SameIgnoringCase(e.name, "kernel") ==>
      var s := SizeInEnv(env, KERNEL_CMD);
      s.Size? && s.n >= e.len) &&
    (SameIgnoringCase(e.name, "RECOVERY") ==>
      var s := SizeInEnv(env, RECOVERY_CMD);
      s.Size? && s.n >= e.len)
  }

  /** A completed update, without the words of a plan. */
  ghost predicate Scattered(w: World, w': World, entries: seq<Entry>, image: Text)
    requires w.Valid() && w'.Valid()
  {
    |w'.parts| == |w.parts| && |w'.volumes| == |w.volumes| &&
    OtherPartsKept(w, w', entries) && OtherVolumesKept(w, w', entries) &&
    forall k :: 0 <= k < |entries| && ForThisRun(entries[k], w.runMode) ==>
      if entries[k].kind == KindMtd
      then ReceivedMtd(w, w', entries[k], image) && BootCovers(w'.env, entries[k])
      else ReceivedUbi(w, w', entries[k], image)
  }

  /** What a plan that is laid over the state before and delivered afterwards means. */
  lemma DeliveredMeans(p: Plan, w: World, w': World)
    requires LaidOver(p, w) && w'.Valid() && p.Valid() && w.Valid() && Delivered(p, w')
    ensures Scattered(w, w', p.entries, p.image)
  {
    hide Selected, ForThisRun, Elsewhere, PartitionIs, VolumeIs, ReceivedMtd, ReceivedUbi, Logical, Splice, EntryAt,
         BootSafe, EnvApart, NamesGrow, FindPartition, FindName, BootCovers, RaisedTo, OtherPartsKept, OtherVolumesKept;
    SameCounts(p, w, w');
    PartsKept(p, w, w');
    VolumesKept(p, w, w');
    forall k | 0 <= k < |p.entries| && ForThisRun(p.entries[k], w.runMode)
      ensures if p.entries[k].kind == KindMtd
              then ReceivedMtd(w, w', p.entries[k], p.image) && BootCovers(w'.env, p.entries[k])
              else ReceivedUbi(w, w', p.entries[k], p.image)
    {
      SelectedIff(p.entries[k], w.runMode);
      EntryReceived(p, w, w', k);
    }
  }

  lemma SameCounts(p: Plan, w: World, w': World)
    requires LaidOver(p, w) && w'.Valid() && p.Valid() && Delivered(p, w')
    ensures |w'.parts| == |w.parts| && |w'.volumes| == |w.volumes|
  {
    hide Logical, Splice, EntryAt, BootSafe, EnvApart, NamesGrow, Selected, RaisedTo;
  }

  lemma EntryReceived(p: Plan, w: World, w': World, k: nat)
    requires LaidOver(p, w) && w'.Valid() && p.Valid() && w.Valid() && Delivered(p, w')
    requires |w'.parts| == |w.parts| && |w'.volumes| == |w.volumes|
    requires k < |p.entries| && p.Writes(k)
    ensures if p.entries[k].kind == KindMtd
            then ReceivedMtd(w, w', p.entries[k], p.image) && BootCovers(w'.env, p.entries[k])
            else ReceivedUbi(w, w', p.entries[k], p.image)
  {
    hide Selected, Elsewhere, Logical, Splice, EntryAt, BootSafe, EnvApart, NamesGrow, SameIgnoringCase, RaisedTo,
         BootCovers, PartitionIs;
    var e := p.entries[k];
    assert Proper(e);
    if e.kind.KindMtd? {
      var f := FindPartition(w.parts, e.name);
      assert PartitionIs(w.parts, e.name, f.value) by { FoundIsFirst(w.parts, e.name); }
      RaisedCovers(w'.env, e);
      assert CommandOf(e.name).Some? ==> Boots(p, k);
    } else {
      var f := FindName(w.volNames, e.name);
      assert VolumeIs(w.volNames, e.name, f.value);
    }
  }

  lemma FoundIsFirst(parts: seq<Partition>, name: Text)
    ensures FindPartition(parts, name).Some? ==> PartitionIs(parts, name, FindPartition(parts, name).value)
  {
    hide SameIgnoringCase;
  }

  lemma RaisedCovers(env: Text, e: Entry)
    ensures (CommandOf(e.name).Some? ==> RaisedTo(env, e.name, e.len)) ==> BootCovers(env, e)
  {
    hide SizeInEnv;
    assert |LowerAll(KERNEL_NAME)| == 6 && |LowerAll(RECOVERY_NAME)| == 8;
  }

  lemma LaidOverMeans(p: Plan, w: World)
    requires LaidOver(p, w)
    ensures p.Valid() && w.Valid() && p.runMode == w.runMode && p.parts0 == w.parts && |p.bytes0| == |w.volumes|
    ensures |p.dests| == |p.entries|
    ensures forall j :: 0 <= j < |w.volumes| ==> p.bytes0[j] == w.volumes[j].bytes
    ensures forall k :: 0 <= k < |p.entries| && p.Writes(k) ==> p.dests[k] == w.DestOf(p.entries[k])
  {
    hide Logical, BootSafe, EnvApart, NamesGrow, Selected, SameIgnoringCase, FindPartition, FindName, Parsed, CLen;
  }

  lemma PartsKept(p: Plan, w: World, w': World)
    requires LaidOver(p, w) && w'.Valid() && p.Valid() && w.Valid() && Delivered(p, w')
    requires |w'.parts| == |w.parts|
    ensures OtherPartsKept(w, w', p.entries)
  {
    hide LaidOver, Logical, Splice, EntryAt, Selected, ForThisRun, RaisedTo, SameIgnoringCase, FindPartition, FindName,
         Plan.Valid;
    LaidOverMeans(p, w);
    forall i | 0 <= i < |w.parts| && w'.parts[i] != w.parts[i] && !SameIgnoringCase(w.parts[i].name, "env")
      ensures exists k :: 0 <= k < |p.entries| && p.entries[k].kind == KindMtd &&
                          ForThisRun(p.entries[k], w.runMode) && SameIgnoringCase(w.parts[i].name, p.entries[k].name)
    {
      assert NamesOf(w'.parts)[i] == NamesOf(w.parts)[i];
      assert !HoldsCommands(p, w'.parts, i);
      var k :| 0 <= k < |p.entries| && p.Writes(k) && p.dests[k] == ToMtd(i);
      SelectedIff(p.entries[k], w.runMode);
    }
  }

  lemma VolumesKept(p: Plan, w: World, w': World)
    requires LaidOver(p, w) && w'.Valid() && p.Valid() && w.Valid() && Delivered(p, w')
    requires |w'.volumes| == |w.volumes|
    ensures OtherVolumesKept(w, w', p.entries)
  {
    hide LaidOver, Logical, Splice, EntryAt, Selected, ForThisRun, RaisedTo, SameIgnoringCase, FindPartition, FindName,
         Plan.Valid;
    LaidOverMeans(p, w);
    forall j | 0 <= j < |w.volumes| && w'.volumes[j].bytes != w.volumes[j].bytes
      ensures exists k :: 0 <= k < |p.entries| && p.entries[k].kind != KindMtd &&
                          ForThisRun(p.entries[k], w.runMode) && SameIgnoringCase(w.volNames[j], p.entries[k].name)
    {
      var k :| 0 <= k < |p.entries| && p.Writes(k) && p.dests[k] == ToUbi(j);
      SelectedIff(p.entries[k], w.runMode);
    }
  }

  // ----- laying a plan over the present state

  function Empties(from: nat): (r: seq<Entry>)
    requires from <= OtaTable.OTA_PARTITION_MAX
    ensures |r| == OtaTable.OTA_PARTITION_MAX - from
  {
    seq(OtaTable.OTA_PARTITION_MAX - from, _ => OtaTable.EMPTY)
  }

  /** The state after the table has been parsed. */
  function Parsed(w: World, entries: seq<Entry>): (w': World)
    requires |entries| <= OTA_PARTITION_MAX
  {
    w.(table := entries + Empties(|entries|), total := TotalLen(entries), need := |entries| + 1)
  }

  /** The plan describes what the destinations hold now, and the run may begin: entries tile the body, names of
      MTD destinations do not get shorter along the stream or below the name remembered last, and if boot
      commands will be raised their variables can be read and their partition is no destination. */
  ghost predicate LaidOver(p: Plan, w: World) {
    p.Valid() && w.Valid() && p.runMode == w.runMode && w == Parsed(w, p.entries) &&
    p.parts0 == w.parts && |p.bytes0| == |w.volumes| &&
    (forall j :: 0 <= j < |w.volumes| ==> p.bytes0[j] == w.volumes[j].bytes) &&
    (forall k :: 0 <= k < |p.entries| && p.Writes(k) ==>
       p.dests[k] == w.DestOf(p.entries[k]) && p.before[k] == w.View(p.dests[k]) &&
       (p.dests[k].ToMtd? ==> CLen(w.nameBuf) <= |w.parts[p.dests[k].i].name|)) &&
    NamesGrow(p, w) && EnvApart(p, w) && BootSafe(w.env)
  }

  lemma LaidOverIsSteady(p: Plan, w: World)
    requires LaidOver(p, w)
    ensures Steady(p, w, 0)
  {
    hide CLen, InStep, Logical, Splice, BootSafe, RaisedTo, Find, FindName, TotalLen, SameIgnoringCase;
    forall k | 0 <= k < |p.entries|
      ensures EntryOk(p, w, 0, k)
    {
      assert w.table[k] == p.entries[k];
    }
  }

  /** Such plans exist: for any state whose environment can be read, an image for one MTD partition that raises no
      boot command is a plan, and it will be taken whole if the good blocks suffice. */
  lemma OneEntryIsLaidOver(w: World, e: Entry, i: nat, image: Text, p: Plan)
    requires w.Valid() && BootSafe(w.env) && Proper(e) && e.kind.KindMtd? && e.offset == 0
    requires FindPartition(w.parts, e.name) == Some(i) && CLen(w.nameBuf) <= |w.parts[i].name|
    requires CommandOf(e.name).None?
    requires p == Plan([e], image, [Logical(w.parts[i])], [ToMtd(i)], w.runMode, w.parts,
                       seq(|w.volumes|, j requires 0 <= j < |w.volumes| => w.volumes[j].bytes))
    ensures LaidOver(p, Parsed(w, [e]))
    ensures e.len <= |Logical(w.parts[i])| < 0x1_0000_0000 ==>
              forall ready, inited :: Roomy(p, Parsed(w, [e]), ready, inited)
  {
    hide CLen, Logical, BootSafe, Find, FindName, Span, SameIgnoringCase;
    assert TotalLen([e]) == e.len by {
      assert [e][..0] == [];
    }
    forall x: nat | x < e.len
      ensures Covered([e], x)
    {
      assert Holds([e][0], x);
    }
    assert !Raises(p);
  }

  /** And for any volume found under the name of an entry that is not an MTD one, be its kind known or not. */
  lemma OneVolumeIsLaidOver(w: World, e: Entry, i: nat, image: Text, p: Plan)
    requires w.Valid() && BootSafe(w.env) && Proper(e) && !e.kind.KindMtd? && e.offset == 0
    requires FindName(w.volNames, e.name) == Some(i)
    requires p == Plan([e], image, [w.volumes[i].bytes], [ToUbi(i)], w.runMode, w.parts,
                       seq(|w.volumes|, j requires 0 <= j < |w.volumes| => w.volumes[j].bytes))
    ensures LaidOver(p, Parsed(w, [e]))
    ensures e.len <= |w.volumes[i].bytes| < 0x1_0000_0000 &&
            (forall m: nat :: w.volumes[i].oracle(m) == Stored(w.volumes[i].lebSize)) ==>
              forall inited :: Roomy(p, Parsed(w, [e]), true, inited)
  {
    hide CLen, Logical, BootSafe, Find, FindName, Span, SameIgnoringCase;
    assert TotalLen([e]) == e.len by {
      assert [e][..0] == [];
    }
    forall x: nat | x < e.len
      ensures Covered([e], x)
    {
      assert Holds([e][0], x);
    }
    assert !Raises(p);
  }

  lemma SteadyIsValid(p: Plan, w: World, c: nat)
    requires Steady(p, w, c)
    ensures p.Valid() && w.Valid()
  {
  }
}
