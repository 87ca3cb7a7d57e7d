/** The environment buffer `MI_FLASH_EnvInfo_t` and the functions that read and edit it in place. */
module EnvBuffer {
  import opened Bytes
  import opened Crc32
  import opened EnvText

  const ENV_SIZE: nat := 0x20000
  const ENV_DATA_SIZE: nat := ENV_SIZE - 4

  const EQUALS: Text := ['=']

  // ----- walking the records

  lemma RecordAt(data: Text, k: nat)
    requires Terminated(data) && k <= |Records(data)|
    ensures var recs := Records(data);
            var i := |Pack(recs[..k])|;
            i < |data| && CLen(data[i..]) < |data[i..]| &&
            (k < |recs| ==> CStr(data[i..]) == recs[k] && |Pack(recs[..k + 1])| == i + |recs[k]| + 1) &&
            (k == |recs| ==> CStr(data[i..]) == [])
  {
    var recs := Records(data);
    var from := SplitAtRecord(data, k);
    var i := |Pack(recs[..k])|;
    assert data[i..] == from;
    if k < |recs| {
      PackAppend(recs[..k], [recs[k]]);
      assert recs[..k + 1] == recs[..k] + [recs[k]];
      PackOne(recs[k]);
      assert Records(from)[0] == recs[k];
    }
  }

  /** Where a new record goes: right after the packed ones, but after one stray NUL when there are none. */
  function AppendAt(kept: seq<Text>): nat {
    if |kept| == 0 then 1 else |Pack(kept)|
  }

  /** Whether a record fits behind the kept ones. */
  predicate Fits(kept: seq<Text>, name: Text, value: Text) {
    AppendAt(kept) + |name| + |value| + 3 <= ENV_DATA_SIZE
  }

  /** The records found after a successful set: behind a stray NUL the new record is not seen. */
  function AfterSet(recs: seq<Text>, name: Text, value: Text): seq<Text> {
    if |Without(recs, name)| == 0 then [] else Assign(recs, name, value)
  }

  /** A successful set can be read back exactly when another record survives and the name has no '='. */
  lemma SetIsReadBackIff(recs: seq<Text>, name: Text, value: Text)
    ensures Lookup(AfterSet(recs, name, value), name) == Some(value) <==>
            |Without(recs, name)| > 0 && '=' !in name
  {
    AssignedIsFoundIff(recs, name, value);
  }

  /** A successful set keeps every other variable. */
  lemma SetKeepsOthers(recs: seq<Text>, name: Text, value: Text, other: Text)
    requires '=' !in name && other != name
    ensures Lookup(AfterSet(recs, name, value), other) == Lookup(recs, other)
  {
    OthersAreKept(recs, name, value, other);
    LookupWithout(recs, name, other);
  }

  // ----- the text an edit leaves

  lemma RecordSpliced(d0: Text, d1: Text, d2: Text, d3: Text, d4: Text, at: nat, name: Text, value: Text)
    requires at + |name| + |value| + 3 <= |d0|
    requires d1 == Splice(d0, at, name) && d2 == Splice(d1, at + |name|, EQUALS)
    requires d3 == Splice(d2, at + |name| + 1, value)
    requires d4 == Splice(d3, at + |name| + 1 + |value|, [NUL])
    ensures Splice(d4, at + |name| + |value| + 2, [NUL]) == Splice(d0, at, Record(name, value) + [NUL, NUL])
  {
    hide Splice;
    SpliceTwice(d0, at, name, EQUALS);
    SpliceTwice(d0, at, name + EQUALS, value);
    SpliceTwice(d0, at, name + EQUALS + value, [NUL]);
    SpliceTwice(d0, at, name + EQUALS + value + [NUL], [NUL]);
    assert name + EQUALS + value + [NUL] + [NUL] == Record(name, value) + [NUL, NUL];
  }

  lemma KeptSpliced(kept: Text, str: Text)
    requires |kept| + |str| + 1 <= ENV_DATA_SIZE
    ensures Splice(Splice(kept + Zeros(ENV_DATA_SIZE - |kept|), |kept|, str), |kept| + |str|, [NUL]) ==
            kept + (str + [NUL]) + Zeros(ENV_DATA_SIZE - |kept| - |str| - 1)
  {
    SpliceTwice(kept + Zeros(ENV_DATA_SIZE - |kept|), |kept|, str, [NUL]);
  }

  lemma ZeroAgain(kept: Text)
    requires |kept| < ENV_DATA_SIZE
    ensures Splice(kept + Zeros(ENV_DATA_SIZE - |kept|), |kept|, [NUL]) == kept + Zeros(ENV_DATA_SIZE - |kept|)
  {
  }

  lemma AppendAtPositive(kept: seq<Text>)
    ensures 0 < AppendAt(kept)
  {
    assert |kept| > 0 ==> Pack(kept) == kept[0] + [NUL] + Pack(kept[1..]);
  }

  /** In packed records followed by zeros, the first two NULs in a row stand right before the append place. */
  lemma AppendPlace(kept: seq<Text>, d: Text, i: nat)
    requires forall k :: 0 <= k < |kept| ==> IsRecord(kept[k])
    requires |Pack(kept)| < ENV_DATA_SIZE && d == Pack(kept) + Zeros(ENV_DATA_SIZE - |Pack(kept)|)
    requires i < AppendAt(kept)
    ensures 0 < AppendAt(kept) < ENV_DATA_SIZE
    ensures (d[i] == NUL && d[i + 1] == NUL) <==> i + 1 == AppendAt(kept)
  {
    var u := |Pack(kept)|;
    if |kept| > 0 {
      assert |Pack(kept)| >= 1;
      NoDoubleNul(kept, i);
      assert d[i] == Pack(kept)[i];
      if i + 1 < u {
        assert d[i + 1] == Pack(kept)[i + 1];
      } else {
        assert d[i + 1] == NUL;
      }
    }
  }

  function Edited(kept: seq<Text>, name: Text, value: Text): (d: Text)
    requires |Pack(kept)| < ENV_DATA_SIZE && Fits(kept, name, value)
    ensures |d| == ENV_DATA_SIZE
  {
    var was := Pack(kept) + Zeros(ENV_DATA_SIZE - |Pack(kept)|);
    Splice(was, AppendAt(kept), Record(name, value) + [NUL, NUL])
  }

  lemma EditedText(kept: seq<Text>, name: Text, value: Text)
    requires |Pack(kept)| < ENV_DATA_SIZE && Fits(kept, name, value)
    requires NUL !in name && NUL !in value
    requires forall k :: 0 <= k < |kept| ==> IsRecord(kept[k])
    ensures var d := Edited(kept, name, value);
            Terminated(d) && Records(d) == if |kept| == 0 then [] else kept + [Record(name, value)]
  {
    var d := Edited(kept, name, value);
    var r := Record(name, value);
    var u := |Pack(kept)|;
    if |kept| == 0 {
      assert d[0] == NUL;
    } else {
      NoDoubleNul(kept, 0);
      var rest := Zeros(ENV_DATA_SIZE - u - |r| - 2);
      PackAppend(kept, [r]);
      PackOne(r);
      assert d == Pack(kept) + (r + [NUL]) + [NUL] + rest;
      assert r[|name|] == '=';
      ParsePacked(kept + [r], rest);
    }
  }

  lemma StartOf(recs: seq<Text>)
    ensures recs[0..] == recs && |Pack(recs[..0])| == 0
  {
  }

  lemma LookupAt(recs: seq<Text>, k: nat, name: Text)
    requires k <= |recs|
    ensures k == |recs| ==> Lookup(recs[k..], name) == None
    ensures k < |recs| && IsRecord(recs[k]) ==>
              Lookup(recs[k..], name) ==
                if NameOf(recs[k]) == name then Some(ValueOf(recs[k])) else Lookup(recs[k + 1..], name)
  {
    if k < |recs| {
      assert recs[k..][1..] == recs[k + 1..];
    }
  }

  /** The bytes after the name, copied up to and with the NUL, are the value. */
  lemma ValueCopied(from: Text, m: nat)
    requires CLen(from) < |from| && m <= CLen(from)
    ensures CStr(from[m..CLen(from) + 1]) == CStr(from)[m..]
  {
    hide CLen, CStr;
    SliceEnds(from, m, CLen(from));
    SliceOfString(from, m);
  }

  lemma SliceOfString(from: Text, m: nat)
    requires m <= CLen(from)
    ensures |CStr(from)| == CLen(from) && CStr(from)[m..] == from[m..CLen(from)]
  {
    hide CLen;
    var n := CLen(from);
    assert from[..n][m..] == from[m..n];
  }

  lemma SliceEnds(from: Text, m: nat, n: nat)
    requires m <= n < |from| && from[n] == NUL && NUL !in from[..n]
    ensures CStr(from[m..n + 1]) == from[m..n]
  {
    hide CLen;
    var t := from[m..n + 1];
    assert forall k :: m <= k < n ==> from[k] == from[..n][k];
    assert t[..n - m] == from[m..n];
    CLenIs(t, n - m);
  }

  // ----- the object

  /** `_MI_FLASH_Name`. */
  method NameSize(str: Text) returns (n: nat)
    ensures n == NameLen(str)
  {
    var i := 0;
    while i < |str|
      invariant i <= |str| && '=' !in str[..i]
    {
      if str[i] == '=' {
        EqualsAtIs(str, i);
        return i;
      }
      i := i + 1;
    }
    assert str[..i] == str;
    n := 0;
  }

  method MemCpy(dst: array<Byte>, at: nat, src: Text)
    requires at + |src| <= dst.Length
    modifies dst
    ensures dst[..] == Splice(old(dst[..]), at, src)
  {
    ghost var was := dst[..];
    for k := 0 to |src|
      invariant dst[..] == Splice(was, at, src[..k])
    {
      dst[at + k] := src[k];
    }
    assert src[..|src|] == src;
  }

  class EnvInfo {
    var crc: bv32
    const data: array<Byte>

    ghost predicate Valid()
      reads this
    {
      data.Length == ENV_DATA_SIZE
    }

    constructor ()
      ensures Valid() && fresh(data)
    {
      data := new Byte[ENV_DATA_SIZE](_ => NUL);
      crc := 0;
    }

    /** `memcpy` of the whole structure. */
    constructor Copy(from: EnvInfo)
      requires from.Valid()
      ensures Valid() && fresh(data) && crc == from.crc && data[..] == from.data[..]
    {
      data := new Byte[ENV_DATA_SIZE](_ => NUL);
      crc := from.crc;
      new;
      MemCpy(data, 0, from.data[..]);
    }

    /** `_MI_FLASH_GetEnvStr`: the C string at `index`, and whether it is non-empty. */
    method GetEnvStr(index: nat) returns (found: bool, str: Text)
      requires Valid() && index < ENV_DATA_SIZE && CLen(data[index..]) < |data[index..]|
      ensures str == CStr(data[index..]) && found == (|str| > 0)
    {
      ghost var end := index + CLen(data[index..]);
      assert data[end] == NUL;
      assert forall k :: index <= k < end ==> data[k] == data[index..][..end - index][k - index];
      str := [];
      var i := index;
      while data[i] != NUL
        invariant index <= i <= end
        invariant str == data[index..i]
        decreases end - i
      {
        str := str + [data[i]];
        i := i + 1;
      }
      assert i == end;
      found := |str| > 0;
    }

    /** `MI_FLASH_GetEnvVar`, past its checks. The length check of the source cannot fail on readable records. */
    method GetVar(name: Text) returns (v: Option<Text>)
      requires Valid() && WellFormed(data[..])
      ensures v == Lookup(Records(data[..]), name)
    {
      hide Pack, Records, Terminated, CLen, Lookup, NameLen;
      ghost var d := data[..];
      ghost var recs := Records(d);
      ghost var k := 0;
      var index := 0;
      RecordAt(d, 0);
      assert d[0..] == d && data[0..] == d[0..];
      var found, str := GetEnvStr(0);
      StartOf(recs);
      while found
        invariant k <= |recs| && index == |Pack(recs[..k])| < ENV_DATA_SIZE
        invariant found == (k < |recs|) && (found ==> str == recs[k])
        invariant Lookup(recs, name) == Lookup(recs[k..], name)
        decreases |recs| - k
      {
        var nameSize := NameSize(str);
        LookupAt(recs, k, name);
        RecordAt(d, k);
        assert data[index..] == d[index..];
        if str[..nameSize] == name {
          ValueCopied(d[index..], nameSize + 1);
          v := Some(CStr(data[index..][nameSize + 1..|str| + 1]));
          return;
        }
        index := index + |str| + 1;
        k := k + 1;
        RecordAt(d, k);
        assert data[index..] == d[index..];
        found, str := GetEnvStr(index);
      }
      LookupAt(recs, k, name);
      v := None;
    }

    /** The copy loop of the name and of the value: it fails when it reaches the end of the array. */
    method CopyText(at: nat, text: Text) returns (ok: bool, i: nat)
      requires Valid() && at <= ENV_DATA_SIZE
      modifies data
      ensures ok <==> |text| == 0 || at + |text| < ENV_DATA_SIZE
      ensures ok ==> i == at + |text| && data[..] == Splice(old(data[..]), at, text)
    {
      hide Splice;
      ghost var was := data[..];
      i := at;
      var cnt := 0;
      SpliceNothing(was, at);
      assert text[..0] == [];
      while cnt < |text|
        invariant cnt <= |text| && i == at + cnt <= ENV_DATA_SIZE && (cnt > 0 ==> i < ENV_DATA_SIZE)
        invariant data[..] == Splice(was, at, text[..cnt])
      {
        if i >= ENV_DATA_SIZE {
          return false, i;
        }
        SpliceOneMore(was, at, text, cnt);
        data[i] := text[cnt];
        i := i + 1;
        cnt := cnt + 1;
        if i >= ENV_DATA_SIZE {
          return false, i;
        }
      }
      assert text[..cnt] == text;
      ok := true;
    }

    /** The search for two NULs in a row. */
    method FindTail(ghost kept: seq<Text>) returns (i: nat)
      requires Valid() && |Pack(kept)| < ENV_DATA_SIZE
      requires forall k :: 0 <= k < |kept| ==> IsRecord(kept[k])
      requires data[..] == Pack(kept) + Zeros(ENV_DATA_SIZE - |Pack(kept)|)
      ensures i + 1 == AppendAt(kept) < ENV_DATA_SIZE
    {
      hide Pack;
      ghost var d := data[..];
      i := 0;
      AppendAtPositive(kept);
      while i + 1 < ENV_DATA_SIZE && !(data[i] == NUL && data[i + 1] == NUL)
        invariant i < AppendAt(kept)
        decreases ENV_DATA_SIZE - i
      {
        AppendPlace(kept, d, i);
        i := i + 1;
      }
      AppendPlace(kept, d, i);
    }

    /** Write `name=value` and two NULs from `at` on, unless the array ends first. */
    method AppendRecord(at: nat, name: Text, value: Text) returns (ok: bool)
      requires Valid() && at < ENV_DATA_SIZE
      modifies data
      ensures ok == (at + |name| + |value| + 3 <= ENV_DATA_SIZE)
      ensures ok ==> data[..] == Splice(old(data[..]), at, Record(name, value) + [NUL, NUL])
    {
      hide Splice;
      ghost var d0 := data[..];
      var i;
      ok, i := CopyText(at, name);
      if !ok {
        return;
      }
      ghost var d1 := data[..];
      MemCpy(data, i, EQUALS);
      ghost var d2 := data[..];
      ok, i := CopyText(i + 1, value);
      if !ok {
        return;
      }
      if i + 1 >= ENV_DATA_SIZE {
        return false;
      }
      ghost var d3 := data[..];
      MemCpy(data, i, [NUL]);
      ghost var d4 := data[..];
      MemCpy(data, i + 1, [NUL]);
      RecordSpliced(d0, d1, d2, d3, d4, at, name, value);
    }

    /** `_MI_FLASH_SetEnvVal`: append behind the first two NULs in a row. */
    method SetVal(ghost kept: seq<Text>, name: Text, value: Text) returns (ok: bool)
      requires Valid() && |Pack(kept)| < ENV_DATA_SIZE
      requires forall k :: 0 <= k < |kept| ==> IsRecord(kept[k])
      requires data[..] == Pack(kept) + Zeros(ENV_DATA_SIZE - |Pack(kept)|)
      modifies data
      ensures ok == Fits(kept, name, value)
      ensures ok ==> data[..] == Edited(kept, name, value)
    {
      hide Pack, Splice;
      var i := FindTail(kept);
      ok := i + 1 < ENV_DATA_SIZE;
      if ok {
        ok := AppendRecord(i + 1, name, value);
      }
    }

    /** `MI_FLASH_SetEnvVar`, past its checks. */
    method SetVar(engine: CrcEngine, name: Text, value: Text) returns (ok: bool)
      requires Valid() && engine.Valid() && WellFormed(data[..])
      requires NUL !in name && NUL !in value
      modifies this, data, engine, engine.table
      ensures engine.Valid()
      ensures var recs := Records(old(data[..]));
              ok == Fits(Without(recs, name), name, value) &&
              (ok ==> crc == Crc(0, data[..]) && Terminated(data[..]) &&
                      Records(data[..]) == AfterSet(recs, name, value)) &&
              (!ok ==> crc == 0)
    {
      hide Pack, Records, Terminated, Without, Crc, Splice;
      ghost var d := data[..];
      ghost var kept := Without(Records(d), name);
      var org := new EnvInfo.Copy(this);
      crc := 0;
      var tmpindex := CopyOthers(org, name);
      MemCpy(data, tmpindex, [NUL]);
      ZeroAgain(Pack(kept));
      KeptAreRecords(d, name);
      ok := SetVal(kept, name, value);
      if ok {
        EditedText(kept, name, value);
        crc := engine.Compute(0, data[..]);
      }
    }

    /** Append a record and its NUL to what has been copied. */
    method CopyRecord(tmpindex: nat, str: Text, ghost copied: Text) returns (next: nat)
      requires Valid() && tmpindex == |copied| && tmpindex + |str| + 1 <= ENV_DATA_SIZE
      requires data[..] == copied + Zeros(ENV_DATA_SIZE - tmpindex)
      modifies data
      ensures next == tmpindex + |str| + 1
      ensures data[..] == copied + (str + [NUL]) + Zeros(ENV_DATA_SIZE - next)
    {
      hide Splice, Zeros;
      KeptSpliced(copied, str);
      MemCpy(data, tmpindex, str);
      MemCpy(data, tmpindex + |str|, [NUL]);
      next := tmpindex + |str| + 1;
    }

    /** Clear the array and copy the records of every other name into it. */
    method CopyOthers(org: EnvInfo, name: Text) returns (tmpindex: nat)
      requires Valid() && org.Valid() && org.data != data && WellFormed(org.data[..])
      modifies data
      ensures var kept := Without(Records(org.data[..]), name);
              tmpindex == |Pack(kept)| < ENV_DATA_SIZE &&
              data[..] == Pack(kept) + Zeros(ENV_DATA_SIZE - tmpindex)
    {
      hide Pack, Records, Terminated, Without, CLen, Splice, Copying, Zeros;
      ghost var d := org.data[..];
      ghost var recs := Records(d);
      forall k | 0 <= k < data.Length {
        data[k] := NUL;
      }
      CopyingStarts(recs, name, data[..]);
      ghost var k := 0;
      var index := 0;
      tmpindex := 0;
      assert d[0..] == d && org.data[0..] == d[0..];
      FoundAt(d, 0, 0);
      var found, str := org.GetEnvStr(0);
      while found
        invariant org.data[..] == d && Copying(recs, k, name, index, tmpindex, data[..])
        invariant k <= |recs| && found == (k < |recs|) && (found ==> str == recs[k])
        decreases |recs| - k
      {
        var nameSize := NameSize(str);
        CopyingGoesOn(d, k, name, index, tmpindex, data[..]);
        if str[..nameSize] != name {
          tmpindex := CopyRecord(tmpindex, str, Pack(Without(recs[..k], name)));
        }
        index := index + |str| + 1;
        k := k + 1;
        FoundAt(d, k, index);
        assert org.data[index..] == d[index..];
        found, str := org.GetEnvStr(index);
      }
      CopyingEnds(d, k, name, index, tmpindex, data[..]);
    }
  }

  /** The records before the `k`-th have been looked at, and those of other names copied. */
  ghost predicate Copying(recs: seq<Text>, k: nat, name: Text, index: nat, tmpindex: nat, data: Text) {
    k <= |recs| && index == |Pack(recs[..k])| && tmpindex == |Pack(Without(recs[..k], name))| <= index &&
    tmpindex <= ENV_DATA_SIZE && data == Pack(Without(recs[..k], name)) + Zeros(ENV_DATA_SIZE - tmpindex)
  }

  lemma CopyingStarts(recs: seq<Text>, name: Text, data: Text)
    requires |data| == ENV_DATA_SIZE && forall k :: 0 <= k < |data| ==> data[k] == NUL
    ensures Copying(recs, 0, name, 0, 0, data) && |Pack(recs[..0])| == 0
  {
    NothingKept(recs, name);
    assert data == [] + Zeros(ENV_DATA_SIZE);
  }

  /** Where the `k`-th record is found. */
  lemma FoundAt(d: Text, k: nat, index: nat)
    requires Terminated(d) && k <= |Records(d)| && index == |Pack(Records(d)[..k])|
    ensures index < |d| && CLen(d[index..]) < |d[index..]|
    ensures CStr(d[index..]) == if k < |Records(d)| then Records(d)[k] else []
    ensures k < |Records(d)| ==> |Records(d)[k]| > 0
  {
    hide Pack, Records, Terminated, CLen;
    RecordAt(d, k);
    if k < |Records(d)| {
      assert Records(d)[k] in Records(d);
      RecordsAreLong(d);
    }
  }

  lemma RecordsAreLong(d: Text)
    requires Terminated(d)
    ensures forall r :: r in Records(d) ==> |r| > 0
  {
  }

  lemma CopyingGoesOn(d: Text, k: nat, name: Text, index: nat, tmpindex: nat, data: Text)
    requires Terminated(d) && |d| == ENV_DATA_SIZE && k < |Records(d)|
    requires Copying(Records(d), k, name, index, tmpindex, data)
    ensures var r, kept := Records(d)[k], Pack(Without(Records(d)[..k], name));
            tmpindex == |kept| && tmpindex + |r| + 1 <= ENV_DATA_SIZE &&
            data == kept + Zeros(ENV_DATA_SIZE - tmpindex) &&
            index + |r| + 1 == |Pack(Records(d)[..k + 1])| &&
            (NameOf(r) == name ==> Copying(Records(d), k + 1, name, index + |r| + 1, tmpindex, data)) &&
            (NameOf(r) != name ==>
              Copying(Records(d), k + 1, name, index + |r| + 1, tmpindex + |r| + 1,
                      kept + (r + [NUL]) + Zeros(ENV_DATA_SIZE - (tmpindex + |r| + 1))))
  {
    hide Pack, Records, Terminated, Without, CLen, NameOf, Zeros;
    var recs := Records(d);
    RecordAt(d, k);
    RecordAt(d, k + 1);
    KeepOne(recs, k, name);
    assert Pack(Without(recs[..k], name)) + [] == Pack(Without(recs[..k], name));
  }

  lemma CopyingEnds(d: Text, k: nat, name: Text, index: nat, tmpindex: nat, data: Text)
    requires Terminated(d) && |d| == ENV_DATA_SIZE && k == |Records(d)|
    requires Copying(Records(d), k, name, index, tmpindex, data)
    ensures var kept := Without(Records(d), name);
            tmpindex == |Pack(kept)| < ENV_DATA_SIZE && data == Pack(kept) + Zeros(ENV_DATA_SIZE - tmpindex)
  {
    hide Pack, Records, Terminated, Without, CLen;
    RecordAt(d, k);
    assert Records(d)[..k] == Records(d);
  }

  lemma SpliceNothing(was: Text, at: nat)
    requires at <= |was|
    ensures Splice(was, at, []) == was
  {
  }

  lemma SpliceOneMore(was: Text, at: nat, text: Text, cnt: nat)
    requires cnt < |text| && at + cnt < |was|
    ensures Splice(was, at, text[..cnt])[at + cnt := text[cnt]] == Splice(was, at, text[..cnt + 1])
  {
  }

  lemma KeptAreRecords(data: Text, name: Text)
    ensures var kept := Without(Records(data), name);
            forall k :: 0 <= k < |kept| ==> IsRecord(kept[k])
  {
    var kept := Without(Records(data), name);
    forall k | 0 <= k < |kept|
      ensures IsRecord(kept[k])
    {
      assert kept[k] in kept;
    }
  }

  lemma NothingKept(recs: seq<Text>, name: Text)
    ensures Pack(Without(recs[..0], name)) == [] && |Pack(recs[..0])| == 0
  {
  }

  lemma KeepOne(recs: seq<Text>, k: nat, name: Text)
    requires k < |recs|
    ensures var kept, kept' := Without(recs[..k], name), Without(recs[..k + 1], name);
            kept' == (if NameOf(recs[k]) == name then kept else kept + [recs[k]]) &&
            Pack(kept') == Pack(kept) + (if NameOf(recs[k]) == name then [] else recs[k] + [NUL])
  {
    assert recs[..k + 1] == recs[..k] + [recs[k]];
    WithoutAppend(recs[..k], recs[k], name);
    PackAppend(Without(recs[..k], name), [recs[k]]);
    PackOne(recs[k]);
  }
}
