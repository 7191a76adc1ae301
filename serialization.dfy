/**
 * The percent-encoder of commonCode/serialization.c: two 256-entry tables,
 * one keeping the unreserved characters of section 2.3 of RFC 3986 and one
 * for HTML form encoding (space becomes '+'), and url_encode, which writes
 * each byte of a NUL-terminated string either as its table entry or as
 * "%XY" with two upper-case hex digits (section 2.1 of RFC 3986).
 */
module Serialization {
  import opened ByteOrder

  datatype Option<T> = None | Some(value: T)

  // ---------------------------------------------------------------------
  // The tables
  // ---------------------------------------------------------------------

  /** isalnum in the C locale: ASCII letters and digits only. */
  predicate IsAlnum(c: uint8)
  {
    '0' as int <= c <= '9' as int || 'A' as int <= c <= 'Z' as int || 'a' as int <= c <= 'z' as int
  }

  /** The unreserved characters of section 2.3 of RFC 3986: ALPHA, DIGIT, "-", ".", "_", "~". */
  predicate Unreserved(c: uint8)
  {
    'A' as int <= c <= 'Z' as int || 'a' as int <= c <= 'z' as int || '0' as int <= c <= '9' as int
    || c == '-' as int || c == '.' as int || c == '_' as int || c == '~' as int
  }

  /** The rfc3986 table entry: the character itself when unreserved, otherwise 0. */
  function RfcEntry(i: uint8): (r: char)
    ensures r != '\0' <==> Unreserved(i)
    ensures r != '\0' ==> r as int == i
  {
    if IsAlnum(i) || i == '~' as int || i == '-' as int || i == '.' as int || i == '_' as int
    then i as char else '\0'
  }

  /**
   * The html5 table entry: letters, digits, '*', '-', '.', '_' as themselves,
   * space as '+', otherwise 0.
   */
  function Html5Entry(i: uint8): (r: char)
    ensures i == ' ' as int ==> r == '+'
    ensures r != '\0' && i != ' ' as int ==> r as int == i
    ensures r != '\0' <==> (IsAlnum(i) || i == ' ' as int || i == '*' as int || i == '-' as int
                           || i == '.' as int || i == '_' as int)
  {
    if IsAlnum(i) || i == '*' as int || i == '-' as int || i == '.' as int || i == '_' as int
    then i as char
    else if i == ' ' as int then '+' else '\0'
  }

  function RfcTable(): (t: seq<char>)
    ensures |t| == 256
  {
    seq(256, i requires 0 <= i < 256 => RfcEntry(i))
  }

  function Html5Table(): (t: seq<char>)
    ensures |t| == 256
  {
    seq(256, i requires 0 <= i < 256 => Html5Entry(i))
  }

  /** The two global tables, zero until url_encoder_rfc_tables_init fills them. */
  class UrlTables {
    var rfc3986: array<char>
    var html5: array<char>

    ghost predicate Valid()
      reads this
    {
      rfc3986.Length == 256 && html5.Length == 256 && rfc3986 != html5
    }

    constructor ()
      ensures Valid() && fresh(rfc3986) && fresh(html5)
      ensures forall i :: 0 <= i < 256 ==> rfc3986[i] == '\0' && html5[i] == '\0'
    {
      rfc3986 := new char[256](_ => '\0');
      html5 := new char[256](_ => '\0');
    }

    /** url_encoder_rfc_tables_init */
    method Init()
      requires Valid()
      modifies rfc3986, html5
      ensures Valid()
      ensures rfc3986[..] == RfcTable() && html5[..] == Html5Table()
    {
      var i := 0;
      while i < 256
        invariant 0 <= i <= 256
        invariant forall j :: 0 <= j < i ==> rfc3986[j] == RfcEntry(j) && html5[j] == Html5Entry(j)
      {
        rfc3986[i] := RfcEntry(i);
        html5[i] := Html5Entry(i);
        i := i + 1;
      }
    }
  }

  // ---------------------------------------------------------------------
  // The encoding
  // ---------------------------------------------------------------------

  /** The string held in s: its bytes before the first NUL. */
  function ByteString(s: seq<uint8>): (r: seq<uint8>)
    ensures |r| <= |s| && r == s[..|r|]
    ensures 0 !in r
    ensures 0 in s ==> |r| < |s| && s[|r|] == 0
  {
    if s == [] || s[0] == 0 then [] else [s[0]] + ByteString(s[1..])
  }

  /** The upper-case hex digit of a nibble. */
  function HexDigit(n: int): (c: char)
    requires 0 <= n < 16
  {
    "0123456789ABCDEF"[n]
  }

  /** What url_encode writes for one byte: its table entry, or "%XY". */
  function EncodeByte(table: seq<char>, b: uint8): (r: seq<char>)
    requires |table| == 256
    ensures |r| == if table[b] != '\0' then 1 else 3
    ensures '\0' !in r
  {
    if table[b] != '\0' then [table[b]] else ['%', HexDigit(b / 16), HexDigit(b % 16)]
  }

  /** The encoding of a byte string, byte by byte. */
  function Encode(table: seq<char>, bs: seq<uint8>): (r: seq<char>)
    requires |table| == 256
  {
    if bs == [] then [] else EncodeByte(table, bs[0]) + Encode(table, bs[1..])
  }

  lemma {:induction false} EncodeAppend(table: seq<char>, bs: seq<uint8>, b: uint8)
    requires |table| == 256
    ensures Encode(table, bs + [b]) == Encode(table, bs) + EncodeByte(table, b)
  {
    if bs != [] {
      assert (bs + [b])[1..] == bs[1..] + [b];
      EncodeAppend(table, bs[1..], b);
    } else {
      assert [b][1..] == [];
    }
  }

  /** How many bytes the table keeps (non-zero entry). */
  function Kept(table: seq<char>, bs: seq<uint8>): (n: nat)
    requires |table| == 256
  {
    if bs == [] then 0 else (if table[bs[0]] != '\0' then 1 else 0) + Kept(table, bs[1..])
  }

  /** The output is one character per kept byte and three per escaped byte. */
  lemma {:induction false} EncodeLength(table: seq<char>, bs: seq<uint8>)
    requires |table| == 256
    ensures |Encode(table, bs)| == Kept(table, bs) + 3 * (|bs| - Kept(table, bs))
    ensures Kept(table, bs) <= |bs|
  {
    if bs != [] {
      EncodeLength(table, bs[1..]);
    }
  }

  /** No encoding holds a NUL, so the terminator written after it ends it. */
  lemma {:induction false} EncodeHasNoNul(table: seq<char>, bs: seq<uint8>)
    requires |table| == 256
    ensures '\0' !in Encode(table, bs)
  {
    if bs != [] {
      EncodeHasNoNul(table, bs[1..]);
    }
  }

  /**
   * sprintf(enc + pos, ...) producing out: the characters followed by a NUL.
   */
  method Sprintf(enc: array<char>, pos: nat, out: seq<char>)
    requires pos + |out| < enc.Length
    modifies enc
    ensures forall j :: 0 <= j < pos ==> enc[j] == old(enc[j])
    ensures enc[pos..pos + |out|] == out && enc[pos + |out|] == '\0'
    ensures forall j :: pos + |out| < j < enc.Length ==> enc[j] == old(enc[j])
  {
    var k := 0;
    while k < |out|
      invariant 0 <= k <= |out|
      invariant forall j :: 0 <= j < pos ==> enc[j] == old(enc[j])
      invariant enc[pos..pos + k] == out[..k]
      invariant forall j :: pos + |out| <= j < enc.Length ==> enc[j] == old(enc[j])
    {
      enc[pos + k] := out[k];
      k := k + 1;
    }
    enc[pos + |out|] := '\0';
  }

  /**
   * One step of url_encode: appends the encoding of b at encEnd, followed by
   * a NUL, and returns the position of that NUL.
   */
  method EncodeOne(table: array<char>, b: uint8, enc: array<char>, encEnd: nat, ghost done: seq<uint8>)
    returns (newEnd: nat)
    requires table.Length == 256 && table != enc
    requires encEnd + 3 < enc.Length
    requires enc[..encEnd] == Encode(table[..], done)
    modifies enc
    ensures newEnd == encEnd + |EncodeByte(table[..], b)| && newEnd < enc.Length
    ensures enc[..newEnd] == Encode(table[..], done + [b])
    ensures enc[newEnd] == '\0'
    ensures forall j :: newEnd < j < enc.Length ==> enc[j] == old(enc[j])
  {
    var out := EncodeByte(table[..], b);
    ghost var before := enc[..];
    Sprintf(enc, encEnd, out);
    assert enc[..encEnd] == before[..encEnd];
    assert enc[..encEnd + |out|] == enc[..encEnd] + enc[encEnd..encEnd + |out|];
    newEnd := encEnd + |out|;
    EncodeAppend(table[..], done, b);
  }

  /**
   * url_encode(table, s, enc): encodes the NUL-terminated string at s into
   * the buffer enc and returns the position it stops at. After a non-empty
   * string that position holds the terminating NUL; for an empty string
   * nothing is written. (Each pointer is modelled by an array whose first
   * cell is the one it points to.)
   */
  method UrlEncode(table: array<char>, s: array<uint8>, enc: array<char>) returns (encEnd: nat)
    requires table.Length == 256 && table != enc
    requires 0 in s[..]
    requires 3 * |ByteString(s[..])| < enc.Length
    modifies enc
    ensures encEnd < enc.Length
    ensures enc[..encEnd] == Encode(table[..], ByteString(s[..]))
    ensures ByteString(s[..]) != [] ==> enc[encEnd] == '\0'
    ensures ByteString(s[..]) == [] ==> encEnd == 0 && enc[..] == old(enc[..])
    ensures enc[encEnd + 1..] == old(enc[encEnd + 1..])
  {
    ghost var input := ByteString(s[..]);
    ghost var t := table[..];
    EncodeLength(t, input);
    var i := 0;
    encEnd := 0;
    while s[i] != 0
      invariant i <= |input| && i < s.Length
      invariant table[..] == t
      invariant encEnd + 3 * (|input| - i) < enc.Length
      invariant enc[..encEnd] == Encode(t, input[..i])
      invariant i > 0 ==> enc[encEnd] == '\0'
      invariant i == 0 ==> encEnd == 0 && enc[0] == old(enc[0])
      invariant forall j :: encEnd < j < enc.Length ==> enc[j] == old(enc[j])
      decreases |input| - i
    {
      var b := s[i];
      assert input[..i + 1] == input[..i] + [b];
      encEnd := EncodeOne(table, b, enc, encEnd, input[..i]);
      i := i + 1;
    }
    assert input[..i] == input;
    SameAfter(enc[..], old(enc[..]), encEnd);
  }

  lemma SameAfter(a: seq<char>, b: seq<char>, hi: nat)
    requires hi < |a| == |b|
    requires forall j :: hi < j < |a| ==> a[j] == b[j]
    ensures a[hi + 1..] == b[hi + 1..]
    ensures hi == 0 && a[0] == b[0] ==> a == b
  {
    assert hi == 0 && a[0] == b[0] ==> forall j :: 0 <= j < |a| ==> a[j] == b[j];
  }

  // ---------------------------------------------------------------------
  // Decoding: the inverse that the encoding promises
  // ---------------------------------------------------------------------

  function HexValue(c: char): (r: Option<nat>)
    ensures r.Some? ==> r.value < 16
  {
    if '0' <= c <= '9' then Some(c as int - '0' as int)
    else if 'A' <= c <= 'F' then Some(c as int - 'A' as int + 10)
    else None
  }

  lemma HexValueOfDigit(n: int)
    requires 0 <= n < 16
    ensures HexValue(HexDigit(n)) == Some(n)
  {
  }

  /**
   * Percent-decoding (section 2.1 of RFC 3986): "%XY" is the byte with hex
   * value XY; with plusIsSpace, as in HTML form data, '+' is a space; any
   * other character below 256 is that byte.
   */
  function PercentDecode(s: seq<char>, plusIsSpace: bool): (r: Option<seq<uint8>>)
    decreases |s|
  {
    if s == [] then Some([])
    else if s[0] == '%' then
      if |s| < 3 then None
      else match (HexValue(s[1]), HexValue(s[2]))
        case (Some(hi), Some(lo)) =>
          (match PercentDecode(s[3..], plusIsSpace)
           case Some(rest) => Some([hi * 16 + lo] + rest)
           case None => None)
        case _ => None
    else if plusIsSpace && s[0] == '+' then
      (match PercentDecode(s[1..], plusIsSpace)
       case Some(rest) => Some([' ' as int] + rest)
       case None => None)
    else if s[0] as int < 256 then
      (match PercentDecode(s[1..], plusIsSpace)
       case Some(rest) => Some([s[0] as int] + rest)
       case None => None)
    else None
  }

  /** A character that is neither '%' nor a form-data '+' decodes to itself. */
  lemma DecodeLiteral(c: char, tail: seq<char>, plusIsSpace: bool, rest: seq<uint8>)
    requires c != '%' && !(plusIsSpace && c == '+') && c as int < 256
    requires PercentDecode(tail, plusIsSpace) == Some(rest)
    ensures PercentDecode([c] + tail, plusIsSpace) == Some([c as int] + rest)
  {
    assert ([c] + tail)[1..] == tail;
  }

  /** In form data, '+' decodes to a space. */
  lemma DecodePlus(tail: seq<char>, rest: seq<uint8>)
    requires PercentDecode(tail, true) == Some(rest)
    ensures PercentDecode(['+'] + tail, true) == Some([' ' as int] + rest)
  {
    assert (['+'] + tail)[1..] == tail;
  }

  /** "%XY" with the upper-case hex digits of b decodes to b. */
  lemma DecodeEscape(b: uint8, tail: seq<char>, plusIsSpace: bool, rest: seq<uint8>)
    requires PercentDecode(tail, plusIsSpace) == Some(rest)
    ensures PercentDecode(['%', HexDigit(b / 16), HexDigit(b % 16)] + tail, plusIsSpace)
            == Some([b] + rest)
  {
    var e := ['%', HexDigit(b / 16), HexDigit(b % 16)] + tail;
    HexValueOfDigit(b / 16);
    HexValueOfDigit(b % 16);
    assert e[1] == HexDigit(b / 16) && e[2] == HexDigit(b % 16);
    assert e[3..] == tail;
  }

  /** Decoding an rfc3986 encoding gives the bytes back. */
  lemma {:induction false} RfcRoundTrip(bs: seq<uint8>)
    ensures PercentDecode(Encode(RfcTable(), bs), false) == Some(bs)
  {
    if bs != [] {
      var t := RfcTable();
      var b := bs[0];
      var tail := Encode(t, bs[1..]);
      RfcRoundTrip(bs[1..]);
      if t[b] != '\0' {
        DecodeLiteral(t[b], tail, false, bs[1..]);
      } else {
        DecodeEscape(b, tail, false, bs[1..]);
      }
      assert [b] + bs[1..] == bs;
    }
  }

  /** Decoding an html5 encoding as form data gives the bytes back. */
  lemma {:induction false} Html5RoundTrip(bs: seq<uint8>)
    ensures PercentDecode(Encode(Html5Table(), bs), true) == Some(bs)
  {
    if bs != [] {
      var t := Html5Table();
      var b := bs[0];
      var tail := Encode(t, bs[1..]);
      Html5RoundTrip(bs[1..]);
      if b == ' ' as int {
        DecodePlus(tail, bs[1..]);
      } else if t[b] != '\0' {
        DecodeLiteral(t[b], tail, true, bs[1..]);
      } else {
        DecodeEscape(b, tail, true, bs[1..]);
      }
      assert [b] + bs[1..] == bs;
    }
  }

  /** Under the rfc3986 table, a string of unreserved characters is copied unchanged. */
  lemma {:induction false} RfcKeepsUnreserved(bs: seq<uint8>)
    requires forall i :: 0 <= i < |bs| ==> Unreserved(bs[i])
    ensures Encode(RfcTable(), bs) == seq(|bs|, i requires 0 <= i < |bs| => bs[i] as char)
  {
    if bs != [] {
      RfcKeepsUnreserved(bs[1..]);
    }
  }

  /** Everything the rfc3986 encoding writes is unreserved, '%' or an upper-case hex digit. */
  lemma {:induction false} RfcOutputAlphabet(bs: seq<uint8>)
    ensures forall c :: c in Encode(RfcTable(), bs) ==>
              c == '%' || c in "0123456789ABCDEF" || (c as int < 256 && Unreserved(c as int))
  {
    if bs != [] {
      RfcOutputAlphabet(bs[1..]);
      var t := RfcTable();
      assert Encode(t, bs) == EncodeByte(t, bs[0]) + Encode(t, bs[1..]);
    }
  }
}
