/** The packed text of the boot environment: NUL-terminated `name=value` records closed by an empty one,
    and the ordered map it stands for. */
module EnvText {
  import opened Bytes

  // ----- records

  /** `_MI_FLASH_Name`: the index of the first '=', or 0 when there is none. */
  function NameLen(r: Text): (n: nat)
    ensures n <= |r|
    ensures '=' !in r[..n]
    ensures n == 0 || (n < |r| && r[n] == '=')
    ensures n == 0 ==> '=' !in r || r[0] == '='
  {
    var k := EqualsAt(r);
    if k < |r| then k else 0
  }

  function EqualsAt(r: Text): (k: nat)
    ensures k <= |r|
    ensures '=' !in r[..k]
    ensures k < |r| ==> r[k] == '='
  {
    if |r| == 0 || r[0] == '=' then 0
    else
      var k := 1 + EqualsAt(r[1..]);
      assert r[..k] == [r[0]] + r[1..][..k - 1];
      k
  }

  function NameOf(r: Text): Text {
    r[..NameLen(r)]
  }

  /** What follows the name and one more byte. */
  function ValueOf(r: Text): Text
    requires |r| > 0
  {
    if NameLen(r) + 1 <= |r| then r[NameLen(r) + 1..] else []
  }

  predicate IsRecord(r: Text) {
    |r| > 0 && NUL !in r
  }

  /** A record that fits the 512-byte line buffer and the 256-byte name buffer. */
  predicate Readable(r: Text) {
    |r| <= 511 && NameLen(r) <= 255
  }

  function Record(name: Text, value: Text): Text {
    name + ['='] + value
  }

  lemma RecordParts(name: Text, value: Text)
    requires '=' !in name
    ensures NameOf(Record(name, value)) == name && ValueOf(Record(name, value)) == value
  {
    var r := Record(name, value);
    assert r[..|name|] == name && r[|name|] == '=' && r[|name| + 1..] == value;
    EqualsAtIs(r, |name|);
  }

  lemma {:induction false} EqualsAtIs(r: Text, n: nat)
    requires n < |r| && r[n] == '=' && '=' !in r[..n]
    ensures EqualsAt(r) == n
  {
    if n > 0 {
      assert r[..n][0] == r[0];
      assert r[1..][..n - 1] == r[..n][1..];
      EqualsAtIs(r[1..], n - 1);
    }
  }

  // ----- packing

  function Pack(recs: seq<Text>): Text {
    if |recs| == 0 then [] else recs[0] + [NUL] + Pack(recs[1..])
  }

  /** The records before the first empty one. */
  function Records(data: Text): (recs: seq<Text>)
    ensures forall k :: 0 <= k < |recs| ==> IsRecord(recs[k])
    decreases |data|
  {
    if |data| == 0 || data[0] == NUL then []
    else
      var n := CLen(data);
      if n == |data| then [data[..n]] else [data[..n]] + Records(data[n + 1..])
  }

  /** The records end in an empty one before the array does. */
  predicate Terminated(data: Text)
    decreases |data|
  {
    |data| > 0 &&
    (data[0] == NUL || (CLen(data) < |data| && Terminated(data[CLen(data) + 1..])))
  }

  /** What the readers of an environment rely on. */
  ghost predicate WellFormed(data: Text) {
    Terminated(data) && forall r :: r in Records(data) ==> Readable(r)
  }

  lemma {:induction false} PackAppend(a: seq<Text>, b: seq<Text>)
    ensures Pack(a + b) == Pack(a) + Pack(b)
  {
    if |a| == 0 {
      assert a + b == b;
    } else {
      assert (a + b)[1..] == a[1..] + b;
      PackAppend(a[1..], b);
    }
  }

  lemma PackOne(r: Text)
    ensures Pack([r]) == r + [NUL]
  {
  }

  /** The layout byte for byte: each record is followed by one zero byte and by the next record. */
  lemma PackLayout(recs: seq<Text>, r: Text)
    ensures Pack([]) == [] && Pack(recs + [r]) == Pack(recs) + r + ['\0']
  {
    PackAppend(recs, [r]);
    PackOne(r);
  }

  /** Parsing recovers the records that were packed, whatever follows the closing NUL. */
  lemma {:induction false} ParsePacked(recs: seq<Text>, rest: Text)
    requires forall k :: 0 <= k < |recs| ==> IsRecord(recs[k])
    ensures Records(Pack(recs) + [NUL] + rest) == recs
    ensures Terminated(Pack(recs) + [NUL] + rest)
  {
    hide CLen, Terminated, Records;
    var data := Pack(recs) + [NUL] + rest;
    if |recs| == 0 {
      ParseNone(rest);
      assert data == [NUL] + rest;
    } else {
      var r := recs[0];
      var data' := Pack(recs[1..]) + [NUL] + rest;
      ParsePacked(recs[1..], rest);
      assert data == r + [NUL] + data';
      ParseOne(r, data');
      assert recs == [r] + recs[1..];
    }
  }

  lemma ParseNone(rest: Text)
    ensures Records([NUL] + rest) == [] && Terminated([NUL] + rest)
  {
  }

  lemma ParseOne(r: Text, tail: Text)
    requires IsRecord(r)
    ensures Records(r + [NUL] + tail) == [r] + Records(tail)
    ensures Terminated(tail) ==> Terminated(r + [NUL] + tail)
  {
    var data := r + [NUL] + tail;
    assert data[..|r|] == r && data[|r|] == NUL && data[|r| + 1..] == tail;
    assert r[0] in r && data[0] == r[0];
    CLenIs(data, |r|);
  }

  lemma FirstRecord(data: Text) returns (r: Text, tail: Text)
    requires Terminated(data) && data[0] != NUL
    ensures data == r + [NUL] + tail && Terminated(tail)
    ensures Records(data) == [r] + Records(tail)
  {
    var n := CLen(data);
    r, tail := data[..n], data[n + 1..];
  }

  /** A terminated array is its records, packed, a closing NUL, and a rest nobody reads. */
  lemma {:induction false} PackParsed(data: Text) returns (rest: Text)
    requires Terminated(data)
    ensures data == Pack(Records(data)) + [NUL] + rest
    decreases |data|
  {
    if data[0] == NUL {
      rest := data[1..];
    } else {
      var r, tail := FirstRecord(data);
      rest := PackParsed(tail);
      assert Records(data)[1..] == Records(tail);
      var t := Pack(Records(tail));
      assert r + [NUL] + (t + [NUL] + rest) == (r + [NUL] + t) + [NUL] + rest;
    }
  }

  /** The parse of a terminated array, one record at a time. */
  lemma {:induction false} SplitAtRecord(data: Text, k: nat) returns (from: Text)
    requires Terminated(data) && k <= |Records(data)|
    ensures data == Pack(Records(data)[..k]) + from
    ensures Terminated(from) && Records(from) == Records(data)[k..]
    decreases k
  {
    hide Records, Terminated, Pack;
    var recs := Records(data);
    if k == 0 {
      from := data;
      assert recs[..0] == [] && recs[0..] == recs;
      PackNone();
      assert [] + from == data;
    } else {
      StillRecords(data);
      var r, tail := FirstRecord(data);
      from := SplitAtRecord(tail, k - 1);
      var rs := Records(tail);
      assert recs[..k] == [r] + rs[..k - 1] && recs[k..] == rs[k - 1..];
      var t := Pack(rs[..k - 1]);
      PackAppend([r], rs[..k - 1]);
      PackOne(r);
      assert r + [NUL] + (t + from) == (r + [NUL] + t) + from;
    }
  }

  lemma PackNone()
    ensures Pack([]) == []
  {
  }

  lemma StillRecords(data: Text)
    requires Terminated(data) && |Records(data)| > 0
    ensures data[0] != NUL
  {
  }

  /** Two NULs in a row occur in packed records nowhere but at their end. */
  lemma {:induction false} NoDoubleNul(recs: seq<Text>, i: nat)
    requires forall k :: 0 <= k < |recs| ==> IsRecord(recs[k])
    requires i < |Pack(recs)|
    ensures Pack(recs)[|Pack(recs)| - 1] == NUL
    ensures i + 1 < |Pack(recs)| ==> Pack(recs)[i] != NUL || Pack(recs)[i + 1] != NUL
    decreases |recs|
  {
    var r := recs[0];
    var tail := Pack(recs[1..]);
    var d := Pack(recs);
    assert d == r + [NUL] + tail;
    if i < |r| {
      assert d[i] == r[i] && r[i] in r;
    } else if i == |r| && |tail| > 0 {
      assert recs[1] == recs[1..][0];
      assert tail[0] == recs[1][0] && recs[1][0] in recs[1];
      assert d[i + 1] == tail[0];
    } else if |tail| > 0 {
      NoDoubleNul(recs[1..], i - |r| - 1);
      assert d[i] == tail[i - |r| - 1];
      assert i + 1 < |d| ==> d[i + 1] == tail[i - |r|];
    }
    if |tail| > 0 {
      NoDoubleNul(recs[1..], 0);
      assert d[|d| - 1] == tail[|tail| - 1];
    }
  }

  // ----- the ordered map

  /** The value of the first record of that name. */
  function Lookup(recs: seq<Text>, name: Text): (v: Option<Text>) {
    if |recs| == 0 then None
    else if |recs[0]| > 0 && NameOf(recs[0]) == name then Some(ValueOf(recs[0]))
    else Lookup(recs[1..], name)
  }

  /** The records of other names, in order. */
  function Without(recs: seq<Text>, name: Text): (r: seq<Text>)
    ensures |r| <= |recs|
    ensures forall x :: x in r ==> x in recs && NameOf(x) != name
  {
    if |recs| == 0 then []
    else if NameOf(recs[0]) == name then Without(recs[1..], name)
    else [recs[0]] + Without(recs[1..], name)
  }

  function Assign(recs: seq<Text>, name: Text, value: Text): (r: seq<Text>) {
    Without(recs, name) + [Record(name, value)]
  }

  lemma {:induction false} WithoutAppend(a: seq<Text>, r: Text, name: Text)
    ensures Without(a + [r], name) == Without(a, name) + if NameOf(r) == name then [] else [r]
  {
    if |a| == 0 {
      assert a + [r] == [r];
    } else {
      assert (a + [r])[1..] == a[1..] + [r];
      WithoutAppend(a[1..], r, name);
    }
  }

  lemma {:induction false} LookupAppend(a: seq<Text>, r: Text, name: Text)
    requires |r| > 0
    ensures Lookup(a + [r], name) ==
              if Lookup(a, name).Some? then Lookup(a, name)
              else if NameOf(r) == name then Some(ValueOf(r)) else None
  {
    if |a| == 0 {
      assert a + [r] == [r];
    } else {
      assert (a + [r])[1..] == a[1..] + [r];
      LookupAppend(a[1..], r, name);
    }
  }

  lemma {:induction false} LookupWithout(recs: seq<Text>, name: Text, other: Text)
    ensures Lookup(Without(recs, name), other) == if other == name then None else Lookup(recs, other)
  {
    if |recs| > 0 {
      LookupWithout(recs[1..], name, other);
      if NameOf(recs[0]) != name {
        assert Without(recs, name)[1..] == Without(recs[1..], name);
      }
    }
  }

  /** The name assigned is found again exactly when it contains no '='. */
  lemma AssignedIsFoundIff(recs: seq<Text>, name: Text, value: Text)
    ensures Lookup(Assign(recs, name, value), name) == Some(value) <==> '=' !in name
    ensures '=' in name ==> Lookup(Assign(recs, name, value), name) == None
  {
    LookupWithout(recs, name, name);
    LookupAppend(Without(recs, name), Record(name, value), name);
    if '=' !in name {
      RecordParts(name, value);
    } else {
      assert NameOf(Record(name, value)) != name;
    }
  }

  /** Every other variable keeps its value. */
  lemma OthersAreKept(recs: seq<Text>, name: Text, value: Text, other: Text)
    requires '=' !in name && other != name
    ensures Lookup(Assign(recs, name, value), other) == Lookup(recs, other)
  {
    LookupWithout(recs, name, other);
    LookupAppend(Without(recs, name), Record(name, value), other);
    RecordParts(name, value);
  }

  /** A second assignment of a name replaces the first. */
  lemma LastAssignmentWins(recs: seq<Text>, name: Text, v1: Text, v2: Text)
    requires '=' !in name
    ensures Assign(Assign(recs, name, v1), name, v2) == Assign(recs, name, v2)
  {
    RecordParts(name, v1);
    WithoutAppend(Without(recs, name), Record(name, v1), name);
    WithoutTwice(recs, name);
  }

  lemma {:induction false} WithoutTwice(recs: seq<Text>, name: Text)
    ensures Without(Without(recs, name), name) == Without(recs, name)
  {
    if |recs| > 0 {
      WithoutTwice(recs[1..], name);
      if NameOf(recs[0]) != name {
        assert Without(recs, name)[1..] == Without(recs[1..], name);
      }
    }
  }

  // ----- the map, read off the text

  /** A record says something about `name`: it begins with the name and '='. */
  predicate Names(r: Text, name: Text) {
    |r| > |name| && r[..|name|] == name && r[|name|] == '='
  }

  lemma NamesIff(r: Text, name: Text)
    requires |name| > 0 && '=' !in name
    ensures NameOf(r) == name <==> Names(r, name)
    ensures Names(r, name) ==> ValueOf(r) == r[|name| + 1..]
  {
    if Names(r, name) {
      EqualsAtIs(r, |name|);
    }
  }

  /** A variable is found exactly when a record begins with its name and '='; its value is the rest of the first such
      record. */
  lemma {:induction false} LookupIsFirstIff(recs: seq<Text>, name: Text, value: Text)
    requires |name| > 0 && '=' !in name
    ensures Lookup(recs, name) == Some(value) <==>
            exists k :: 0 <= k < |recs| && recs[k] == name + ['='] + value &&
                        forall j :: 0 <= j < k ==> !Names(recs[j], name)
    ensures Lookup(recs, name) == None <==> forall k :: 0 <= k < |recs| ==> !Names(recs[k], name)
  {
    if |recs| > 0 {
      LookupIsFirstIff(recs[1..], name, value);
      NamesIff(recs[0], name);
    }
  }
}
