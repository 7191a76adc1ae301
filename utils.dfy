/**
 * Byte and string utilities of commonCode/utils.c: the host byte order test,
 * in-place byte reversal, the 64-bit byte order conversions, truncation of a
 * C string at a delimiter set, the wrapping 64-bit mean and the flow hash.
 */
module Utils {
  import opened ByteOrder

  const ERROR: int := -1

  // ---------------------------------------------------------------------
  // is_bigendian, swapbytes, htonll, ntohll
  // ---------------------------------------------------------------------

  /** The first byte in memory of the 32-bit integer 1 (the test integer). */
  function FirstByteOfOne(host: Endian): (b: uint8)
    ensures b == 0 <==> host == BigEndian
  {
    Store(host, 1, 4)[0]
  }

  /**
   * is_bigendian as written: it answers false when the first byte of the
   * test integer is 0 and true otherwise, which is the little-endian case.
   */
  function IsBigEndianAsWritten(host: Endian): (r: bool)
    ensures r <==> host == LittleEndian
  {
    if FirstByteOfOne(host) == 0 then false else true
  }

  /** The byte order test with the intended sense: true exactly on a big-endian host. */
  function IsBigEndian(host: Endian): (r: bool)
    ensures r <==> host == BigEndian
  {
    FirstByteOfOne(host) == 0
  }

  /**
   * swapbytes: reverses the bytes of the object in place unless the byte order
   * test (its result passed as bigEndian) says the host is big-endian.
   */
  method SwapBytes(obj: array<uint8>, bigEndian: bool)
    modifies obj
    ensures obj[..] == if bigEndian then old(obj[..]) else Reverse(old(obj[..]))
  {
    if !bigEndian {
      var start: int, end: int := 0, obj.Length - 1;
      while start < end
        invariant 0 <= start && end == obj.Length - 1 - start
        invariant start <= obj.Length - start
        invariant forall k :: 0 <= k < start ==>
          obj[k] == old(obj[obj.Length - 1 - k]) && obj[obj.Length - 1 - k] == old(obj[k])
        invariant forall k :: start <= k < obj.Length - start ==> obj[k] == old(obj[k])
      {
        obj[start], obj[end] := obj[end], obj[start];
        start, end := start + 1, end - 1;
      }
    }
  }

  /** swapbytes applied twice with the same test result restores the object. */
  lemma SwapBytesTwice(s: seq<uint8>, bigEndian: bool)
    ensures (var once := if bigEndian then s else Reverse(s);
             (if bigEndian then once else Reverse(once)) == s)
  {
    ReverseReverse(s);
  }

  /**
   * htonll: htobe64 (host to big-endian) unless the byte order test says the
   * host is big-endian, in which case the value is returned as is.
   */
  function Htonll(host: Endian, bigEndian: bool, x: uint64): (r: uint64)
    ensures bigEndian ==> r == x
    ensures !bigEndian ==> Store(host, r, 8) == BeBytes(x, 8)
  {
    Pow256Widths();
    StoreHostToNet(host, x, 8);
    if !bigEndian then HostToNet(host, x, 8) else x
  }

  /** ntohll: be64toh (big-endian to host) under the same test. */
  function Ntohll(host: Endian, bigEndian: bool, x: uint64): (r: uint64)
    ensures Htonll(host, bigEndian, r) == x
  {
    Pow256Widths();
    NetToHostOfHostToNet(host, x, 8);
    if !bigEndian then HostToNet(host, x, 8) else x
  }

  /** ntohll undoes htonll whatever the byte order test answers. */
  lemma NtohllOfHtonll(host: Endian, bigEndian: bool, x: uint64)
    ensures Ntohll(host, bigEndian, Htonll(host, bigEndian, x)) == x
  {
    Pow256Widths();
    NetToHostOfHostToNet(host, x, 8);
  }

  /** With the test as written, htonll never changes its argument, on either host. */
  lemma HtonllAsWrittenIsIdentity(host: Endian, x: uint64)
    ensures Htonll(host, IsBigEndianAsWritten(host), x) == x
    ensures Ntohll(host, IsBigEndianAsWritten(host), x) == x
  {
  }

  /**
   * So on a little-endian host htonll(x) for a one-byte x (1, say) is not
   * stored in network byte order: x comes first where 0 should.
   */
  lemma HtonllAsWrittenNotNetworkOrder(x: uint64)
    requires 0 < x < 256
    ensures Store(LittleEndian, Htonll(LittleEndian, IsBigEndianAsWritten(LittleEndian), x), 8)
            != BeBytes(x, 8)
  {
    var v := Htonll(LittleEndian, IsBigEndianAsWritten(LittleEndian), x);
    assert v == x;
    OneByteValue(x, 8);
    assert Store(LittleEndian, v, 8)[0] != BeBytes(x, 8)[0];
  }

  /** A value below 256 occupies the first of n little-endian bytes; the last is 0. */
  lemma OneByteValue(x: nat, n: nat)
    requires 0 < x < 256 && n >= 2
    ensures LeBytes(x, n)[0] == x && LeBytes(x, n)[n - 1] == 0
  {
    assert LeBytes(x, n) == [x as uint8] + LeBytes(0, n - 1);
    ZeroBytes(n - 1);
  }

  /** Every byte of zero is zero. */
  lemma {:induction false} ZeroBytes(n: nat)
    ensures forall i :: 0 <= i < n ==> LeBytes(0, n)[i] == 0
  {
    if n > 0 {
      ZeroBytes(n - 1);
      assert LeBytes(0, n) == [0] + LeBytes(0, n - 1);
    }
  }

  /** With the corrected test, htonll stores its argument in network byte order. */
  lemma HtonllStoresNetworkOrder(host: Endian, x: uint64)
    ensures Store(host, Htonll(host, IsBigEndian(host), x), 8) == BeBytes(x, 8)
  {
    Pow256Widths();
    StoreHostToNet(host, x, 8);
  }

  // ---------------------------------------------------------------------
  // getSubStringIndex
  // ---------------------------------------------------------------------

  /** The C string held in s: the characters before the first NUL. */
  function CStr(s: seq<char>): (r: seq<char>)
    ensures |r| <= |s| && r == s[..|r|]
    ensures '\0' !in r
    ensures '\0' in s ==> |r| < |s| && s[|r|] == '\0'
  {
    if s == [] || s[0] == '\0' then [] else [s[0]] + CStr(s[1..])
  }

  /** strcspn: the length of the longest prefix of s holding no character of reject. */
  function Cspn(s: seq<char>, reject: seq<char>): (r: nat)
    ensures r <= |s|
    ensures forall i :: 0 <= i < r ==> s[i] !in reject
    ensures r < |s| ==> s[r] in reject
  {
    if s == [] || s[0] in reject then 0 else 1 + Cspn(s[1..], reject)
  }

  /**
   * getSubStringIndex: ends the string at the first character that occurs in
   * termString by writing a NUL there, and returns the new length.
   */
  method GetSubStringIndex(str: array<char>, termString: array<char>) returns (rc: int)
    requires '\0' in str[..] && '\0' in termString[..]
    modifies str
    ensures rc != ERROR && 0 <= rc <= |CStr(old(str[..]))|
    ensures CStr(str[..]) == CStr(old(str[..]))[..rc]
    ensures forall i :: 0 <= i < rc ==> str[i] !in CStr(old(termString[..]))
    ensures rc < |CStr(old(str[..]))| ==> old(str[rc]) in CStr(old(termString[..]))
    ensures forall i :: 0 <= i < str.Length && i != rc ==> str[i] == old(str[i])
  {
    ghost var s0 := str[..];
    var s := CStr(str[..]);
    var term := CStr(termString[..]);
    var index := Cspn(s, term);
    str[index] := '\0';
    rc := index;
    assert str[..] == s0[index := '\0'];
    CStrStopsAtNul(str[..], index);
  }

  /** A NUL at index i, after i non-NUL characters, ends the C string there. */
  lemma {:induction false} CStrStopsAtNul(s: seq<char>, i: nat)
    requires i < |s| && s[i] == '\0' && '\0' !in s[..i]
    ensures CStr(s) == s[..i]
  {
    if i > 0 {
      assert s[1..][..i - 1] == s[1..i];
      CStrStopsAtNul(s[1..], i - 1);
    }
  }

  // ---------------------------------------------------------------------
  // myLLavg
  // ---------------------------------------------------------------------

  /** The exact (unbounded) sum of the samples. */
  function Sum(s: seq<uint64>): (r: nat)
  {
    if s == [] then 0 else Sum(s[..|s| - 1]) + s[|s| - 1]
  }

  /** One more sample adds it to the wrapped running sum. */
  lemma SumStep(a: seq<uint64>, i: nat)
    requires i < |a|
    ensures Sum(a[..i + 1]) == Sum(a[..i]) + a[i]
    ensures (Sum(a[..i]) % TWO_64 + a[i]) % TWO_64 == Sum(a[..i + 1]) % TWO_64
  {
    assert a[..i + 1][..i] == a[..i];
    ModAdd64(Sum(a[..i]), a[i]);
  }

  /**
   * myLLavg: the 64-bit wrapping sum of the first numberSamples samples,
   * divided by numberSamples, or 0 when there are none.
   */
  method MyLLavg(arrayPtr: array<uint64>, numberSamples: uint32) returns (myAvg: uint64)
    requires numberSamples <= arrayPtr.Length
    ensures numberSamples == 0 ==> myAvg == 0
    ensures numberSamples > 0 ==> myAvg == (Sum(arrayPtr[..numberSamples]) % TWO_64) / numberSamples
  {
    myAvg := 0;
    var mySum: uint64 := 0;
    var i := 0;
    while i < numberSamples
      invariant 0 <= i <= numberSamples
      invariant mySum == Sum(arrayPtr[..i]) % TWO_64
    {
      SumStep(arrayPtr[..], i);
      mySum := (mySum + arrayPtr[i]) % TWO_64;
      i := i + 1;
    }
    if numberSamples > 0 {
      DivAtMostSelf(mySum, numberSamples);
      myAvg := mySum / numberSamples;
    }
  }

  /** Each of n samples at most m sums to at most n * m. */
  lemma {:induction false} SumBound(s: seq<uint64>, m: int)
    requires forall i :: 0 <= i < |s| ==> s[i] <= m
    ensures Sum(s) <= |s| * m
  {
    if s != [] {
      SumBound(s[..|s| - 1], m);
    }
  }

  /** When the sum does not wrap, the mean never exceeds the largest sample. */
  lemma LLavgAtMostMax(s: seq<uint64>, m: int)
    requires s != [] && Sum(s) < TWO_64
    requires forall i :: 0 <= i < |s| ==> s[i] <= m
    ensures (Sum(s) % TWO_64) / |s| <= m
  {
    SumBound(s, m);
    DivAtMost(Sum(s), |s|, m);
  }

  /** x <= n * m with n > 0 gives x / n <= m. */
  lemma DivAtMost(x: nat, n: nat, m: int)
    requires n > 0 && x <= n * m
    ensures x / n <= m
  {
    var a := x / n;
    assert a * n <= x;
    MulLeft(n, a, m);
  }

  /** n * a <= n * m with n > 0 gives a <= m. */
  lemma MulLeft(n: nat, a: int, m: int)
    requires n > 0 && a * n <= n * m
    ensures a <= m
  {
    assert (a - m) * n <= 0;
  }

  // ---------------------------------------------------------------------
  // ipflow_hash
  // ---------------------------------------------------------------------

  const IPFLOW_HASHBITS: nat := 20
  const IPFLOW_HASHSIZE: nat := 0x10_0000

  function Pow2(k: nat): (r: nat)
    ensures r >= 1
  {
    if k == 0 then 1 else 2 * Pow2(k - 1)
  }

  /**
   * A 32-bit logical right shift as x86 executes it: the count is taken
   * modulo 32, so a shift by 32 leaves the value unchanged.
   */
  function Shr32(x: uint32, k: nat): (r: uint32)
  {
    var p := Pow2(k % 32);
    DivAtMostSelf(x, p);
    x / p
  }

  /** What one pass of the hash loop adds, at shift idx. */
  function HashTerm(dst: uint32, src: uint32, sport: uint16, dport: uint16, idx: nat): nat
    requires idx <= 32
  {
    Shr32(dst, 32 - idx) + Shr32(src, idx) + Shr32(sport, idx) + Shr32(dport, idx)
  }

  lemma HashTermAtZero(dst: uint32, src: uint32, sport: uint16, dport: uint16)
    ensures HashTerm(dst, src, sport, dport, 0) == dst + src + sport + dport
  {
  }

  lemma HashTermAtTwenty(dst: uint32, src: uint32, sport: uint16, dport: uint16)
    ensures HashTerm(dst, src, sport, dport, 20) == dst / 0x1000 + src / 0x10_0000
  {
    Pow2Values();
    assert Shr32(dst, 12) == dst / 0x1000;
    assert Shr32(src, 20) == src / 0x10_0000;
    assert Shr32(sport, 20) == 0 && Shr32(dport, 20) == 0;
  }

  lemma Pow2Values()
    ensures Pow2(12) == 0x1000 && Pow2(20) == 0x10_0000
  {
    assert Pow2(4) == 16;
    assert Pow2(8) == 256;
    assert Pow2(12) == 0x1000;
    assert Pow2(16) == 0x1_0000;
  }

  /** Keeping the low 20 bits of a wrapped 32-bit value keeps the low 20 bits of the value. */
  lemma MaskOfWrapped(x: int)
    ensures (x % TWO_32) % IPFLOW_HASHSIZE == x % IPFLOW_HASHSIZE
  {
  }

  /**
   * The flow hash in closed form: the IP protocol, both addresses, both ports,
   * the destination's top 20 bits and the source's top 12 bits, summed modulo
   * the table size.
   */
  function FlowHash(dst: uint32, src: uint32, sport: uint16, dport: uint16, ipP: uint8): nat
  {
    (ipP + dst + src + sport + dport + dst / 0x1000 + src / 0x10_0000) % IPFLOW_HASHSIZE
  }

  /** The unwrapped sum the accumulator holds before the pass at idx (0, 20 or 40). */
  ghost function HashBefore(dst: uint32, src: uint32, sport: uint16, dport: uint16, ipP: uint8, idx: nat): nat
  {
    if idx == 0 then ipP
    else if idx == 20 then ipP + HashTerm(dst, src, sport, dport, 0)
    else ipP + HashTerm(dst, src, sport, dport, 0) + HashTerm(dst, src, sport, dport, 20)
  }

  /** After both passes, the low bits of the wrapped accumulator are the closed-form hash. */
  lemma HashBeforeEnd(dst: uint32, src: uint32, sport: uint16, dport: uint16, ipP: uint8)
    ensures HashBefore(dst, src, sport, dport, ipP, 40) % TWO_32 % IPFLOW_HASHSIZE
            == FlowHash(dst, src, sport, dport, ipP)
  {
    var a := HashTerm(dst, src, sport, dport, 0);
    var b := HashTerm(dst, src, sport, dport, 20);
    var x := HashBefore(dst, src, sport, dport, ipP, 40);
    assert x == ipP + a + b;
    MaskOfWrapped(x);
    HashTermAtZero(dst, src, sport, dport);
    HashTermAtTwenty(dst, src, sport, dport);
  }

  /**
   * ipflow_hash: adds the shifted fields at idx = 0 and idx = 20 into a
   * wrapping 32-bit accumulator and keeps the low IPFLOW_HASHBITS bits.
   */
  method IpflowHash(dst: uint32, src: uint32, sport: uint16, dport: uint16, ipP: uint8)
    returns (h: uint32)
    ensures h < IPFLOW_HASHSIZE
    ensures h == FlowHash(dst, src, sport, dport, ipP)
  {
    var hash: uint32 := ipP;
    var idx: nat := 0;
    while idx < 32
      invariant idx == 0 || idx == 20 || idx == 40
      invariant hash == HashBefore(dst, src, sport, dport, ipP, idx) % TWO_32
    {
      var term := HashTerm(dst, src, sport, dport, idx);
      ModAdd32(HashBefore(dst, src, sport, dport, ipP, idx), term);
      hash := (hash + term) % TWO_32;
      idx := idx + IPFLOW_HASHBITS;
    }
    HashBeforeEnd(dst, src, sport, dport, ipP);
    h := hash % IPFLOW_HASHSIZE;
  }
}
