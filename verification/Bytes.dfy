/** Bytes, C strings and buffer copies shared by the modules of the model. */
module Bytes {

  /** A C `char` or `MI_U8`. */
  type Byte = c: char | c as int < 256

  type Text = seq<Byte>

  const NUL: Byte := '\0'

  /** One more than the largest `MI_U32`. */
  const WORD: nat := 0x1_0000_0000

  datatype Option<+T> = None | Some(value: T)

  function Octet(b: Byte): (o: bv8) {
    (b as int) as bv8
  }

  function Chr(o: bv8): (b: Byte) {
    (o as int) as char
  }

  lemma OctetChr(o: bv8)
    ensures Octet(Chr(o)) == o
  {
  }

  lemma NextOctet(o: bv8)
    requires o != 255
    ensures (o + 1) as int == o as int + 1
  {
  }

  /** Every number below 256 is the value of an octet. */
  lemma {:induction false} OctetNumbered(n: nat) returns (o: bv8)
    requires n < 256
    ensures o as int == n
  {
    if n == 0 {
      o := 0;
    } else {
      var p := OctetNumbered(n - 1);
      NextOctet(p);
      o := p + 1;
    }
  }

  lemma OctetOf(n: nat, o: bv8)
    requires n < 256 && o as int == n
    ensures n as bv8 == o
  {
  }

  lemma ChrOctet(b: Byte)
    ensures Chr(Octet(b)) == b
  {
    var o := OctetNumbered(b as int);
    OctetOf(b as int, o);
  }

  lemma OctetInjective(a: Byte, b: Byte)
    requires Octet(a) == Octet(b)
    ensures a == b
  {
    ChrOctet(a);
    ChrOctet(b);
  }

  /** What `memset(s, 0, n)` leaves. */
  function Zeros(n: nat): (z: seq<Byte>)
    ensures |z| == n
  {
    seq(n, _ => NUL)
  }

  /** What `memcpy(s + off, d, |d|)` leaves in the buffer `s`. */
  function Splice<T>(s: seq<T>, off: nat, d: seq<T>): (r: seq<T>)
    requires off + |d| <= |s|
    ensures |r| == |s|
  {
    s[..off] + d + s[off + |d|..]
  }

  /** Byte for byte: the copied bytes from `off` on, and every other byte as it was. */
  lemma SpliceAt<T>(s: seq<T>, off: nat, d: seq<T>, k: nat)
    requires off + |d| <= |s| && k < |s|
    ensures Splice(s, off, d)[k] == if off <= k < off + |d| then d[k - off] else s[k]
  {
  }

  lemma SpliceTwice<T>(s: seq<T>, off: nat, a: seq<T>, b: seq<T>)
    requires off + |a| + |b| <= |s|
    ensures Splice(Splice(s, off, a), off + |a|, b) == Splice(s, off, a + b)
  {
  }

  lemma SpliceAfter<T>(a: seq<T>, b: seq<T>, r: nat, d: seq<T>)
    requires r + |d| <= |b|
    ensures a + Splice(b, r, d) == Splice(a + b, |a| + r, d)
  {
  }

  lemma SpliceAcross<T>(b: seq<T>, c: seq<T>, d: seq<T>)
    requires |b| <= |d| <= |b| + |c|
    ensures d[..|b|] + Splice(c, 0, d[|b|..]) == Splice(b + c, 0, d)
  {
  }

  lemma SpliceInside<T>(a: seq<T>, b: seq<T>, c: seq<T>, r: nat, d: seq<T>)
    requires r + |d| <= |b|
    ensures a + Splice(b, r, d) + c == Splice(a + b + c, |a| + r, d)
  {
  }

  /** `strlen`: the index of the first NUL, or the length when there is none. */
  function CLen(s: seq<Byte>): (n: nat)
    ensures n <= |s|
    ensures NUL !in s[..n]
    ensures n < |s| ==> s[n] == NUL
  {
    if |s| == 0 || s[0] == NUL then 0
    else
      var n := 1 + CLen(s[1..]);
      assert s[..n] == [s[0]] + s[1..][..n - 1];
      n
  }

  /** The C string that starts at the beginning of `s`. */
  function CStr(s: seq<Byte>): (r: seq<Byte>) {
    s[..CLen(s)]
  }

  lemma {:induction false} CLenIs(s: seq<Byte>, n: nat)
    requires n <= |s| && (n < |s| ==> s[n] == NUL) && NUL !in s[..n]
    ensures CLen(s) == n
  {
    if n > 0 {
      assert s[..n][0] == s[0];
      assert s[1..][..n - 1] == s[..n][1..];
      CLenIs(s[1..], n - 1);
    }
  }

  /** A capital letter and its small one. */
  predicate CaseApart(a: Byte, b: Byte) {
    'A' <= a <= 'Z' && b as int == a as int + 32
  }

  /** `tolower` on the ASCII letters. */
  function Lower(b: Byte): (r: Byte)
    ensures r == b || CaseApart(b, r)
    ensures !('A' <= r <= 'Z')
  {
    if 'A' <= b <= 'Z' then ((b as int) + 32) as char else b
  }

  function LowerAll(s: seq<Byte>): (r: seq<Byte>)
    ensures |r| == |s|
  {
    seq(|s|, i requires 0 <= i < |s| => Lower(s[i]))
  }

  /** `strcasecmp(a, b) == 0`. */
  predicate SameIgnoringCase(a: seq<Byte>, b: seq<Byte>) {
    LowerAll(a) == LowerAll(b)
  }

  lemma LowerIff(a: Byte, b: Byte)
    ensures Lower(a) == Lower(b) <==> a == b || CaseApart(a, b) || CaseApart(b, a)
  {
  }

  /** Equal up to letter case, character for character. */
  lemma SameIgnoringCaseIff(a: seq<Byte>, b: seq<Byte>)
    ensures SameIgnoringCase(a, b) <==>
            |a| == |b| &&
            forall k :: 0 <= k < |a| ==> a[k] == b[k] || CaseApart(a[k], b[k]) || CaseApart(b[k], a[k])
  {
    if SameIgnoringCase(a, b) {
      forall k | 0 <= k < |a|
        ensures a[k] == b[k] || CaseApart(a[k], b[k]) || CaseApart(b[k], a[k])
      {
        assert LowerAll(a)[k] == LowerAll(b)[k];
        LowerIff(a[k], b[k]);
      }
    } else if |a| == |b| {
      var k :| 0 <= k < |a| && LowerAll(a)[k] != LowerAll(b)[k];
      LowerIff(a[k], b[k]);
    }
  }

  /** The first of the names that is equal up to letter case. */
  function FindName(names: seq<seq<Byte>>, name: seq<Byte>): (r: Option<nat>)
    ensures r.Some? ==> r.value < |names| && SameIgnoringCase(names[r.value], name)
    ensures r.Some? ==> forall k :: 0 <= k < r.value ==> !SameIgnoringCase(names[k], name)
    ensures r.None? ==> forall k :: 0 <= k < |names| ==> !SameIgnoringCase(names[k], name)
  {
    if |names| == 0 then None
    else if SameIgnoringCase(names[0], name) then Some(0)
    else
      match FindName(names[1..], name)
      case None =>
        assert forall k :: 1 <= k < |names| ==> names[k] == names[1..][k - 1];
        None
      case Some(i) =>
        assert forall k :: 1 <= k < i + 1 ==> names[k] == names[1..][k - 1];
        Some(i + 1)
  }

  predicate OccursAt(s: seq<Byte>, pat: seq<Byte>, i: nat) {
    i + |pat| <= |s| && s[i..i + |pat|] == pat
  }

  /** `strstr`: the first occurrence of `pat`. */
  function Find(s: seq<Byte>, pat: seq<Byte>): (r: Option<nat>)
    ensures r.Some? ==> OccursAt(s, pat, r.value) && forall j: nat :: j < r.value ==> !OccursAt(s, pat, j)
    ensures r.None? ==> forall j: nat :: !OccursAt(s, pat, j)
  {
    FindFrom(s, pat, 0)
  }

  function FindFrom(s: seq<Byte>, pat: seq<Byte>, from: nat): (r: Option<nat>)
    requires from <= |s| + 1
    requires forall j: nat :: j < from ==> !OccursAt(s, pat, j)
    ensures r.Some? ==> OccursAt(s, pat, r.value) && forall j: nat :: j < r.value ==> !OccursAt(s, pat, j)
    ensures r.None? ==> forall j: nat :: !OccursAt(s, pat, j)
    decreases |s| + 1 - from
  {
    if from > |s| then None
    else if OccursAt(s, pat, from) then Some(from)
    else FindFrom(s, pat, from + 1)
  }

  /** What is found reads `pat`, and wherever else the text reads `pat` is not before it. */
  lemma FindIsFirst(a: seq<Byte>, pat: seq<Byte>, b: seq<Byte>)
    ensures var r := Find(a + pat + b, pat);
            r.Some? && r.value <= |a| && (a + pat + b)[r.value..r.value + |pat|] == pat
  {
    assert OccursAt(a + pat + b, pat, |a|);
  }

  /** The first occurrence of a single character. */
  lemma FindSingle(a: seq<Byte>, c: seq<Byte>, b: seq<Byte>)
    requires |c| == 1 && c[0] !in a
    ensures Find(a + c + b, c) == Some(|a|)
  {
    var s := a + c + b;
    assert OccursAt(s, c, |a|);
    forall j: nat | j < |a|
      ensures !OccursAt(s, c, j)
    {
      assert a[j] in a;
      assert j + 1 <= |s| && s[j..j + 1][0] == a[j];
    }
  }

  /** A C string that begins with `a` goes on with the C string that follows it. */
  lemma CStrAfter(a: seq<Byte>, b: seq<Byte>)
    requires NUL !in a
    ensures CStr(a + b) == a + CStr(b)
  {
    var n := CLen(b);
    assert (a + b)[..|a| + n] == a + b[..n];
    CLenIs(a + b, |a| + n);
  }
}
