/** The partition table at the head of an OTA image: printing it, and the parser of mi_loader.c. */
module OtaTable {
  import opened Bytes
  import opened Numbers

  const OTA_PARTITION_MAX: nat := 24
  const OTA_INFO_SIZE: nat := 0x1000

  datatype PartKind = KindMtd | KindUbi | KindUnknown

  datatype Upgrade = UpUpdate | UpAdd | UpRemove | UpResize | UpUnknown

  /** `OTA_PARTITION_Info_t`. */
  datatype Entry = Entry(hasData: bool, name: Text, kind: PartKind, upgrade: Upgrade, size: nat,
                         offset: nat, len: nat, written: nat)

  const EMPTY: Entry := Entry(false, [], KindMtd, UpUpdate, 0, 0, 0, 0)

  const MTD: Text := "MTD"
  const UBI: Text := "UBI"
  const UPDATE: Text := "update"
  const ADD: Text := "add"
  const REMOVE: Text := "remove"
  const RESIZE: Text := "resize"
  const RECORD_MARK: Text := "partition_name"
  const EQUALS: Text := "="
  const COMMA: Text := ","
  const SEMICOLON: Text := ";"

  function KindOf(s: Text): PartKind {
    if SameIgnoringCase(s, MTD) then KindMtd
    else if SameIgnoringCase(s, UBI) then KindUbi
    else KindUnknown
  }

  function UpgradeOf(s: Text): Upgrade {
    if SameIgnoringCase(s, UPDATE) then UpUpdate
    else if SameIgnoringCase(s, ADD) then UpAdd
    else if SameIgnoringCase(s, REMOVE) then UpRemove
    else if SameIgnoringCase(s, RESIZE) then UpResize
    else UpUnknown
  }

  // ----- what the parser computes; None where the C code would follow a null pointer or a negative length

  /** The text between the first '=' and the first closing character, and what follows that character. */
  function Field(s: Text, closer: Text): (r: Option<(Text, Text)>)
    requires |closer| == 1
    ensures r.Some? ==> |r.value.1| < |s|
  {
    var start, end := Find(s, EQUALS), Find(s, closer);
    if start.Some? && end.Some? && start.value < end.value
    then Some((s[start.value + 1..end.value], s[end.value + 1..]))
    else None
  }

  /** A field that fits the 128-byte scratch buffer. */
  predicate Short(f: Text) {
    |f| < 128
  }

  /** `string_to_ota_partitioninfo`. */
  function ParseRecord(s: Text): (r: Option<Entry>) {
    var name := Field(s, COMMA);
    if name.None? then None else
    var kind := Field(name.value.1, COMMA);
    if kind.None? || !Short(kind.value.0) then None else
    var size := Field(kind.value.1, COMMA);
    if size.None? || !Short(size.value.0) then None else
    var upgrade := Field(size.value.1, COMMA);
    if upgrade.None? || !Short(upgrade.value.0) then None else
    var offset := Field(upgrade.value.1, COMMA);
    if offset.None? || !Short(offset.value.0) then None else
    var len := Field(offset.value.1, SEMICOLON);
    if len.None? || !Short(len.value.0) then None else
    Some(Entry(true, name.value.0, KindOf(kind.value.0), UpgradeOf(upgrade.value.0),
               NumberOf(size.value.0), NumberOf(offset.value.0), NumberOf(len.value.0), 0))
  }

  /** The parse loop from position `parse` with `room` entries left in the array. */
  function ParseFrom(buf: Text, parse: nat, room: nat): (r: Option<seq<Entry>>)
    requires parse <= |buf|
    ensures r.Some? ==> |r.value| <= room
    decreases |buf| - parse
  {
    if parse >= OTA_INFO_SIZE then Some([])
    else
      var s := CStr(buf[parse..]);
      var mark, end := Find(s, RECORD_MARK), Find(s, SEMICOLON);
      if mark.None? || end.None? then Some([])
      else if end.value < mark.value || room == 0 || parse + (end.value - mark.value) + 2 > |buf| then None
      else
        var next := parse + (end.value - mark.value) + 2;
        var e := ParseRecord(CStr(buf[parse..next]));
        var rest := ParseFrom(buf, next, room - 1);
        if e.None? || rest.None? then None else Some([e.value] + rest.value)
  }

  /** One round of the parse loop. */
  lemma ParseStep(buf: Text, parse: nat, room: nat)
    requires parse <= |buf| && parse < OTA_INFO_SIZE && ParseFrom(buf, parse, room).Some?
    ensures var s := CStr(buf[parse..]);
            var mark, end := Find(s, RECORD_MARK), Find(s, SEMICOLON);
            if mark.None? || end.None? then ParseFrom(buf, parse, room).value == []
            else
              mark.value <= end.value && room > 0 && parse + (end.value - mark.value) + 2 <= |buf| &&
              var next := parse + (end.value - mark.value) + 2;
              var e := ParseRecord(CStr(buf[parse..next]));
              e.Some? && ParseFrom(buf, next, room - 1).Some? &&
              ParseFrom(buf, parse, room).value == [e.value] + ParseFrom(buf, next, room - 1).value
  {
    hide ParseRecord, Find, CStr;
  }

  function TotalLen(entries: seq<Entry>): nat {
    if |entries| == 0 then 0 else TotalLen(entries[..|entries| - 1]) + entries[|entries| - 1].len
  }

  // ----- printing

  datatype Base = InHex | InDecimal

  /** The base of each number of a record. */
  datatype Bases = Bases(size: Base, offset: Base, len: Base)

  function Print(n: nat, base: Base): Text {
    if base.InHex? then Hex(n) else Decimal(n)
  }

  function KindText(k: PartKind): Text {
    if k.KindUbi? then UBI else MTD
  }

  function UpgradeText(u: Upgrade): Text {
    match u
    case UpAdd => ADD
    case UpRemove => REMOVE
    case UpResize => RESIZE
    case _ => UPDATE
  }

  const NAME_KEY: Text := "partition_name="
  const TYPE_KEY: Text := "partition_type="
  const SIZE_KEY: Text := "partition_size="
  const UPGRADE_KEY: Text := "upgrade_type="
  const OFFSET_KEY: Text := "image_offset="
  const LEN_KEY: Text := "image_size="

  /** One record, each of its numbers in either base. */
  function RenderEntry(e: Entry, b: Bases): Text {
    NAME_KEY + e.name + COMMA + (TYPE_KEY + KindText(e.kind) + COMMA + (SIZE_KEY + Print(e.size, b.size) + COMMA +
    (UPGRADE_KEY + UpgradeText(e.upgrade) + COMMA + (OFFSET_KEY + Print(e.offset, b.offset) + COMMA +
    (LEN_KEY + Print(e.len, b.len) + SEMICOLON)))))
  }

  /** Records, each with one separator byte behind it. */
  function Render(entries: seq<Entry>, bases: seq<Bases>, sep: Byte): Text
    requires |bases| == |entries|
  {
    if |entries| == 0 then [] else RenderEntry(entries[0], bases[0]) + [sep] + Render(entries[1..], bases[1..], sep)
  }

  /** An entry the table can carry. The name may even contain '='. */
  predicate Printable(e: Entry) {
    e.hasData && e.written == 0 && !e.kind.KindUnknown? && !e.upgrade.UpUnknown? &&
    e.size < WORD && e.offset < WORD && e.len < WORD &&
    NUL !in e.name && ',' !in e.name && ';' !in e.name
  }

  lemma KeyTexts()
    ensures NAME_KEY == "partition_name=" && COMMA + TYPE_KEY == ",partition_type="
    ensures COMMA + SIZE_KEY == ",partition_size=" && COMMA + UPGRADE_KEY == ",upgrade_type="
    ensures COMMA + OFFSET_KEY == ",image_offset=" && COMMA + LEN_KEY == ",image_size=" && SEMICOLON == ";"
  {
  }

  lemma FlatRecord(k: seq<Text>, v: seq<Text>, c: Text, e: Text)
    requires |k| == |v| == 6
    ensures k[0] + v[0] + c + (k[1] + v[1] + c + (k[2] + v[2] + c + (k[3] + v[3] + c + (k[4] + v[4] + c +
            (k[5] + v[5] + e))))) ==
            k[0] + v[0] + (c + k[1]) + v[1] + (c + k[2]) + v[2] + (c + k[3]) + v[3] + (c + k[4]) + v[4] +
            (c + k[5]) + v[5] + e
  {
  }

  /** The text of a record in full. */
  lemma RecordText(e: Entry, b: Bases)
    requires e.kind != KindUnknown && e.upgrade != UpUnknown
    ensures RenderEntry(e, b) ==
            "partition_name=" + e.name + ",partition_type=" + (if e.kind == KindUbi then "UBI" else "MTD") +
            ",partition_size=" + (if b.size == InHex then Hex(e.size) else Decimal(e.size)) +
            ",upgrade_type=" + WordOf(e.upgrade) +
            ",image_offset=" + (if b.offset == InHex then Hex(e.offset) else Decimal(e.offset)) +
            ",image_size=" + (if b.len == InHex then Hex(e.len) else Decimal(e.len)) + ";"
  {
    hide Hex, Decimal;
    KeyTexts();
    FlatRecord([NAME_KEY, TYPE_KEY, SIZE_KEY, UPGRADE_KEY, OFFSET_KEY, LEN_KEY],
               [e.name, KindText(e.kind), Print(e.size, b.size), UpgradeText(e.upgrade), Print(e.offset, b.offset),
                Print(e.len, b.len)], COMMA, SEMICOLON);
  }

  function WordOf(u: Upgrade): Text {
    match u
    case UpUpdate => "update"
    case UpAdd => "add"
    case UpRemove => "remove"
    case UpResize => "resize"
    case UpUnknown => ""
  }

  /** The words the parser knows, in letters of either case; anything else is unknown. */
  lemma KindOfIff(s: Text)
    ensures KindOf(s) == KindMtd <==> SameIgnoringCase(s, "MTD")
    ensures KindOf(s) == KindUbi <==> SameIgnoringCase(s, "UBI")
  {
    assert LowerAll(MTD)[0] == 'm' && LowerAll(UBI)[0] == 'u';
  }

  lemma UpgradeOfIff(s: Text)
    ensures UpgradeOf(s) == UpUpdate <==> SameIgnoringCase(s, "update")
    ensures UpgradeOf(s) == UpAdd <==> SameIgnoringCase(s, "add")
    ensures UpgradeOf(s) == UpRemove <==> SameIgnoringCase(s, "remove")
    ensures UpgradeOf(s) == UpResize <==> SameIgnoringCase(s, "resize")
  {
    assert LowerAll(UPDATE)[0] == 'u' && LowerAll(ADD)[0] == 'a';
    assert LowerAll(REMOVE)[0] == 'r' && LowerAll(RESIZE)[0] == 'r';
    assert LowerAll(REMOVE)[2] == 'm' && LowerAll(RESIZE)[2] == 's';
  }

  // ----- the round trip

  /** Free of the characters that close a field or the string. */
  predicate Clean(s: Text) {
    NUL !in s && ',' !in s && ';' !in s
  }

  lemma FieldOf(k: Text, v: Text, closer: Text, rest: Text)
    requires |k| > 0 && k[|k| - 1] == '=' && '=' !in k[..|k| - 1]
    requires |closer| == 1 && closer[0] !in k && closer[0] !in v
    ensures Field(k + v + closer + rest, closer) == Some((v, rest))
  {
    var s := k + v + closer + rest;
    FindSingle(k + v, closer, rest);
    var k' := k[..|k| - 1];
    assert s == k' + EQUALS + (v + closer + rest);
    FindSingle(k', EQUALS, v + closer + rest);
    assert s[|k|..|k| + |v|] == v && s[|k| + |v| + 1..] == rest;
  }

  predicate IsKey(k: Text) {
    |k| > 0 && k[|k| - 1] == '=' && '=' !in k[..|k| - 1] && Clean(k)
  }

  lemma PartitionKeys()
    ensures IsKey(NAME_KEY) && IsKey(TYPE_KEY) && IsKey(SIZE_KEY)
  {
  }

  lemma ImageKeys()
    ensures IsKey(UPGRADE_KEY) && IsKey(OFFSET_KEY) && IsKey(LEN_KEY)
  {
  }

  lemma PrintRoundTrip(n: nat, b: Base)
    requires n < WORD
    ensures NumberOf(Print(n, b)) == n && Clean(Print(n, b)) && Short(Print(n, b))
  {
    hide Digits, NumberOf;
    var base := if b.InHex? then 16 else 10;
    WordHasFewDigits(n, base);
    HexRoundTrip(n);
    DecimalRoundTrip(n);
    DigitsClean(n, base);
  }

  lemma DigitsClean(n: nat, base: nat)
    requires base == 10 || base == 16
    ensures Clean(Digits(n, base))
  {
    var d := Digits(n, base);
    forall k | 0 <= k < |d|
      ensures d[k] != NUL && d[k] != ',' && d[k] != ';'
    {
      DigitsAreClean(n, base, k);
    }
  }

  lemma KindRoundTrip(k: PartKind)
    requires !k.KindUnknown?
    ensures KindOf(KindText(k)) == k && Clean(KindText(k)) && Short(KindText(k))
  {
    assert LowerAll(MTD)[0] == 'm' && LowerAll(UBI)[0] == 'u';
  }

  lemma UpgradeRoundTrip(u: Upgrade)
    requires !u.UpUnknown?
    ensures UpgradeOf(UpgradeText(u)) == u && Clean(UpgradeText(u)) && Short(UpgradeText(u))
  {
    assert LowerAll(UPDATE)[0] == 'u' && LowerAll(ADD)[0] == 'a';
    assert LowerAll(REMOVE)[0] == 'r' && LowerAll(RESIZE)[0] == 'r';
    assert LowerAll(REMOVE)[2] == 'm' && LowerAll(RESIZE)[2] == 's';
  }

  /** Parsing a printed record gives the entry back, whatever follows its semicolon. */
  lemma RecordRoundTrip(e: Entry, b: Bases, tail: Text)
    requires Printable(e)
    ensures ParseRecord(RenderEntry(e, b) + tail) == Some(e)
  {
    hide Find, KindOf, UpgradeOf, NumberOf, Print, KindText, UpgradeText, Field;
    PrintRoundTrip(e.size, b.size);
    PrintRoundTrip(e.offset, b.offset);
    PrintRoundTrip(e.len, b.len);
    KindRoundTrip(e.kind);
    UpgradeRoundTrip(e.upgrade);
    PartitionKeys();
    ImageKeys();
    var s5 := LEN_KEY + Print(e.len, b.len) + SEMICOLON + tail;
    var s4 := OFFSET_KEY + Print(e.offset, b.offset) + COMMA + s5;
    var s3 := UPGRADE_KEY + UpgradeText(e.upgrade) + COMMA + s4;
    var s2 := SIZE_KEY + Print(e.size, b.size) + COMMA + s3;
    var s1 := TYPE_KEY + KindText(e.kind) + COMMA + s2;
    var s0 := NAME_KEY + e.name + COMMA + s1;
    assert RenderEntry(e, b) + tail == s0;
    FieldOf(NAME_KEY, e.name, COMMA, s1);
    FieldOf(TYPE_KEY, KindText(e.kind), COMMA, s2);
    FieldOf(SIZE_KEY, Print(e.size, b.size), COMMA, s3);
    FieldOf(UPGRADE_KEY, UpgradeText(e.upgrade), COMMA, s4);
    FieldOf(OFFSET_KEY, Print(e.offset, b.offset), COMMA, s5);
    FieldOf(LEN_KEY, Print(e.len, b.len), SEMICOLON, tail);
  }

  predicate Unmarked(s: Text) {
    NUL !in s && ';' !in s
  }

  lemma UnmarkedField(k: Text, v: Text)
    requires Clean(k) && Clean(v)
    ensures Unmarked(k + v) && Unmarked(k + v + COMMA)
  {
  }

  lemma JoinFields(a: Text, b: Text, c: Text, d: Text, e: Text, f: Text, g: Text) returns (all: Text)
    ensures all == a + b + c + d + e + f && a <= all
    ensures a + (b + (c + (d + (e + (f + g))))) == all + g
    ensures Unmarked(a) && Unmarked(b) && Unmarked(c) && Unmarked(d) && Unmarked(e) && Unmarked(f) ==> Unmarked(all)
  {
    all := a + b + c + d + e + f;
  }

  /** A printed record begins with its mark, holds no NUL, and its only semicolon is its last character. */
  lemma RecordShape(e: Entry, b: Bases) returns (body: Text)
    requires Printable(e)
    ensures RenderEntry(e, b) == body + SEMICOLON && Unmarked(body)
    ensures RECORD_MARK <= body
  {
    hide Print, KindText, UpgradeText, Unmarked, Clean, Short;
    PrintRoundTrip(e.size, b.size);
    PrintRoundTrip(e.offset, b.offset);
    PrintRoundTrip(e.len, b.len);
    KindRoundTrip(e.kind);
    UpgradeRoundTrip(e.upgrade);
    CleanKeys();
    CleanName(e);
    UnmarkedField(NAME_KEY, e.name);
    UnmarkedField(TYPE_KEY, KindText(e.kind));
    UnmarkedField(SIZE_KEY, Print(e.size, b.size));
    UnmarkedField(UPGRADE_KEY, UpgradeText(e.upgrade));
    UnmarkedField(OFFSET_KEY, Print(e.offset, b.offset));
    UnmarkedField(LEN_KEY, Print(e.len, b.len));
    body := JoinFields(NAME_KEY + e.name + COMMA, TYPE_KEY + KindText(e.kind) + COMMA,
                       SIZE_KEY + Print(e.size, b.size) + COMMA, UPGRADE_KEY + UpgradeText(e.upgrade) + COMMA,
                       OFFSET_KEY + Print(e.offset, b.offset) + COMMA, LEN_KEY + Print(e.len, b.len), SEMICOLON);
    MarkFirst(e.name + COMMA, body);
  }

  lemma CleanName(e: Entry)
    requires Printable(e)
    ensures Clean(e.name)
  {
  }

  lemma CleanKeys()
    ensures Clean(NAME_KEY) && Clean(TYPE_KEY) && Clean(SIZE_KEY)
    ensures Clean(UPGRADE_KEY) && Clean(OFFSET_KEY) && Clean(LEN_KEY)
  {
    PartitionKeys();
    ImageKeys();
  }

  lemma MarkFirst(t: Text, body: Text)
    requires NAME_KEY + t <= body
    ensures RECORD_MARK <= body
  {
    assert NAME_KEY == RECORD_MARK + EQUALS;
  }

  /** One round of the parse loop on a printed record. */
  lemma ParseOneRecord(e: Entry, b: Bases, sep: Byte, buf: Text, parse: nat, tail: Text, room: nat)
    requires Printable(e) && room > 0 && parse < OTA_INFO_SIZE
    requires parse <= |buf| && buf[parse..] == RenderEntry(e, b) + ([sep] + tail)
    ensures var next := parse + |RenderEntry(e, b)| + 1;
            next <= |buf| && buf[next..] == tail &&
            ParseFrom(buf, parse, room) ==
              var rest := ParseFrom(buf, next, room - 1);
              if rest.None? then None else Some([e] + rest.value)
  {
    hide RenderEntry, ParseRecord, Find, CLen, CStr;
    var r := RenderEntry(e, b);
    var body := RecordShape(e, b);
    CStrAfter(r, [sep] + tail);
    FindSingle(body, SEMICOLON, CStr([sep] + tail));
    FindMark(body, SEMICOLON + CStr([sep] + tail));
    assert r + CStr([sep] + tail) == body + (SEMICOLON + CStr([sep] + tail));
    var next := parse + |body| + 2;
    assert buf[parse..next] == r + [sep];
    CStrAfter(r, [sep]);
    RecordRoundTrip(e, b, CStr([sep]));
    assert buf[next..] == buf[parse..][|body| + 2..];
  }

  /** Printing a table and parsing it gives the table back: any entries, either base for each number, any separator
      byte. */
  lemma {:induction false} TableRoundTrip(entries: seq<Entry>, bases: seq<Bases>, sep: Byte, buf: Text, parse: nat,
                                          rest: Text, room: nat)
    requires forall k :: 0 <= k < |entries| ==> Printable(entries[k])
    requires |bases| == |entries| <= room
    requires parse <= |buf| && buf[parse..] == Render(entries, bases, sep) + rest
    requires |rest| == 0 || rest[0] == NUL
    requires parse + |Render(entries, bases, sep)| <= 0x1000
    ensures ParseFrom(buf, parse, room) == Some(entries)
    decreases |entries|
  {
    hide RenderEntry, ParseFrom, Printable;
    if |entries| == 0 {
      ParseStops(buf, parse, room, rest);
    } else {
      var r := RenderEntry(entries[0], bases[0]);
      var others := Render(entries[1..], bases[1..], sep);
      assert r + [sep] + others + rest == r + ([sep] + (others + rest));
      ParseOneRecord(entries[0], bases[0], sep, buf, parse, others + rest, room);
      TableRoundTrip(entries[1..], bases[1..], sep, buf, parse + |r| + 1, rest, room - 1);
      assert [entries[0]] + entries[1..] == entries;
    }
  }

  lemma ParseStops(buf: Text, parse: nat, room: nat, rest: Text)
    requires parse <= |buf| && buf[parse..] == rest && (|rest| == 0 || rest[0] == NUL)
    ensures ParseFrom(buf, parse, room) == Some([])
  {
    NothingToFind(rest);
  }

  lemma NothingToFind(rest: Text)
    requires |rest| == 0 || rest[0] == NUL
    ensures Find(CStr(rest), RECORD_MARK).None?
  {
    assert CStr(rest) == [];
  }

  lemma FindMark(body: Text, t: Text)
    requires RECORD_MARK <= body
    ensures Find(body + t, RECORD_MARK) == Some(0)
  {
    assert OccursAt(body + t, RECORD_MARK, 0);
  }
}
