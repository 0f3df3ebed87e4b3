/**
 * The re-decoding the reader applies to every line:
 * `line.encode('iso-8859-1').decode('utf-8')`. The capture files hold the
 * fetched bytes decoded as ISO-8859-1, one character per byte; encoding the
 * line back to ISO-8859-1 recovers the bytes, and strict UTF-8 decoding
 * turns them into the page's real text. Either step can fail.
 */
module Recoding {
  import opened Wrappers

  newtype Byte = b: int | 0 <= b < 256

  /** `s.encode('iso-8859-1')`: defined exactly when every character is below U+0100. */
  function Latin1Encode(s: string): (r: Option<seq<Byte>>)
    ensures r.Some? <==> forall i :: 0 <= i < |s| ==> s[i] as int < 256
    ensures r.Some? ==> |r.value| == |s| && forall i :: 0 <= i < |s| ==> r.value[i] as int == s[i] as int
  {
    if s == [] then Some([])
    else if s[0] as int >= 256 then None
    else
      match Latin1Encode(s[1..])
      case None => None
      case Some(t) => Some([s[0] as int as Byte] + t)
  }

  /** `str(b, 'ISO-8859-1')`: one character per byte, never fails. */
  function Latin1Decode(b: seq<Byte>): (r: string)
    ensures |r| == |b| && forall i :: 0 <= i < |b| ==> r[i] as int == b[i] as int
  {
    if b == [] then "" else [b[0] as int as char] + Latin1Decode(b[1..])
  }

  predicate IsContinuation(b: Byte) {
    0x80 <= b <= 0xBF
  }

  /**
   * Decodes the first scalar value of `b` and says how many bytes it took,
   * accepting exactly the well-formed UTF-8 sequences of Table 3-7 of the
   * Unicode Standard (no overlong forms, no surrogates, nothing above
   * U+10FFFF), as Python's strict decoder does.
   */
  function DecodeOne(b: seq<Byte>): (r: Option<(char, nat)>)
    requires b != []
    ensures r.Some? ==> 1 <= r.value.1 <= |b|
  {
    var b0 := b[0] as int;
    if b0 < 0x80 then Some((b0 as char, 1))
    else if 0xC2 <= b0 <= 0xDF then
      if |b| >= 2 && IsContinuation(b[1]) then
        Some((((b0 - 0xC0) * 64 + (b[1] as int - 0x80)) as char, 2))
      else None
    else if 0xE0 <= b0 <= 0xEF then
      var lo := if b0 == 0xE0 then 0xA0 else 0x80;
      var hi := if b0 == 0xED then 0x9F else 0xBF;
      if |b| >= 3 && lo <= b[1] as int <= hi && IsContinuation(b[2]) then
        Some((((b0 - 0xE0) * 4096 + (b[1] as int - 0x80) * 64 + (b[2] as int - 0x80)) as char, 3))
      else None
    else if 0xF0 <= b0 <= 0xF4 then
      var lo := if b0 == 0xF0 then 0x90 else 0x80;
      var hi := if b0 == 0xF4 then 0x8F else 0xBF;
      if |b| >= 4 && lo <= b[1] as int <= hi && IsContinuation(b[2]) && IsContinuation(b[3]) then
        Some((((b0 - 0xF0) * 262144 + (b[1] as int - 0x80) * 4096
               + (b[2] as int - 0x80) * 64 + (b[3] as int - 0x80)) as char, 4))
      else None
    else None
  }

  /** `b.decode('utf-8')`, strict: fails on the first ill-formed sequence. */
  function Utf8Decode(b: seq<Byte>): (r: Option<string>)
    ensures r.Some? ==> |r.value| <= |b|
    decreases |b|
  {
    if b == [] then Some("")
    else
      match DecodeOne(b)
      case None => None
      case Some((c, n)) =>
        match Utf8Decode(b[n..])
        case None => None
        case Some(t) => Some([c] + t)
  }

  /** The UTF-8 encoding of one scalar value. */
  function EncodeChar(c: char): (r: seq<Byte>)
    ensures 1 <= |r| <= 4
  {
    var n := c as int;
    if n < 0x80 then [n as Byte]
    else if n < 0x800 then [(0xC0 + n / 64) as Byte, (0x80 + n % 64) as Byte]
    else if n < 0x10000 then
      [(0xE0 + n / 4096) as Byte, (0x80 + (n / 64) % 64) as Byte, (0x80 + n % 64) as Byte]
    else
      [(0xF0 + n / 262144) as Byte, (0x80 + (n / 4096) % 64) as Byte,
       (0x80 + (n / 64) % 64) as Byte, (0x80 + n % 64) as Byte]
  }

  /** `s.encode('utf-8')`. */
  function Utf8Encode(s: string): seq<Byte>
  {
    if s == [] then [] else EncodeChar(s[0]) + Utf8Encode(s[1..])
  }

  /** The reader's re-decoding of one line; `None` where Python raises. */
  function Recode(line: string): (r: Option<string>)
    ensures r.Some? ==> (forall i :: 0 <= i < |line| ==> line[i] as int < 256) && |r.value| <= |line|
  {
    match Latin1Encode(line)
    case None => None
    case Some(b) => Utf8Decode(b)
  }

  predicate IsAscii(s: string) {
    forall i :: 0 <= i < |s| ==> s[i] as int < 0x80
  }

  /** Strict UTF-8 decoding takes ASCII bytes to the same characters. */
  lemma {:induction false} DecodeAscii(s: string)
    requires IsAscii(s)
    ensures Latin1Encode(s).Some? && Utf8Decode(Latin1Encode(s).value) == Some(s)
    decreases |s|
  {
    if s != [] {
      var b := Latin1Encode(s).value;
      assert IsAscii(s[1..]) by {
        forall i | 0 <= i < |s[1..]| ensures s[1..][i] as int < 0x80 { assert s[1..][i] == s[i + 1]; }
      }
      DecodeAscii(s[1..]);
      assert b == [s[0] as int as Byte] + Latin1Encode(s[1..]).value;
      assert DecodeOne(b) == Some((s[0], 1));
      assert b[1..] == Latin1Encode(s[1..]).value;
      assert s == [s[0]] + s[1..];
    }
  }

  /** Re-decoding leaves an ASCII line unchanged: in particular "", "\n" and "WARC/1.0\n". */
  lemma RecodeAscii(s: string)
    requires IsAscii(s)
    ensures Recode(s) == Some(s)
  {
    DecodeAscii(s);
  }

  /** The decoder reads back the bytes the encoder writes for one character. */
  lemma DecodeEncodeChar(c: char, rest: seq<Byte>)
    ensures DecodeOne(EncodeChar(c) + rest) == Some((c, |EncodeChar(c)|))
  {
    var n := c as int;
    if n < 0x80 {
    } else if n < 0x800 {
      DecodeEncodeTwo(c, rest);
    } else if n < 0x10000 {
      DecodeEncodeThree(c, rest);
    } else {
      DecodeEncodeFour(c, rest);
    }
  }

  lemma DecodeEncodeTwo(c: char, rest: seq<Byte>)
    requires 0x80 <= c as int < 0x800
    ensures DecodeOne(EncodeChar(c) + rest) == Some((c, 2))
  {
    var n := c as int;
    var b := EncodeChar(c) + rest;
    var q, r := n / 64, n % 64;
    assert n == q * 64 + r;
    assert b[0] as int == 0xC0 + q && b[1] as int == 0x80 + r;
  }

  lemma DecodeEncodeThree(c: char, rest: seq<Byte>)
    requires 0x800 <= c as int < 0x10000
    ensures DecodeOne(EncodeChar(c) + rest) == Some((c, 3))
  {
    var n := c as int;
    var b := EncodeChar(c) + rest;
    var q1, r1 := n / 64, n % 64;
    var q2, r2 := q1 / 64, q1 % 64;
    assert n == q2 * 4096 + r2 * 64 + r1;
    assert n / 4096 == q2;
    assert b[0] as int == 0xE0 + q2 && b[1] as int == 0x80 + r2 && b[2] as int == 0x80 + r1;
    assert q2 == 0 ==> r2 >= 0x20;
    assert q2 == 13 ==> r2 <= 0x1F;
  }

  lemma DecodeEncodeFour(c: char, rest: seq<Byte>)
    requires 0x10000 <= c as int
    ensures DecodeOne(EncodeChar(c) + rest) == Some((c, 4))
  {
    var n := c as int;
    var b := EncodeChar(c) + rest;
    var q1, r1 := n / 64, n % 64;
    var q2, r2 := q1 / 64, q1 % 64;
    var q3, r3 := q2 / 64, q2 % 64;
    assert n == q3 * 262144 + r3 * 4096 + r2 * 64 + r1;
    assert n / 4096 == q2 && n / 262144 == q3;
    assert b[0] as int == 0xF0 + q3 && b[1] as int == 0x80 + r3;
    assert b[2] as int == 0x80 + r2 && b[3] as int == 0x80 + r1;
    assert q3 == 0 ==> r3 >= 0x10;
    assert q3 == 4 ==> r3 <= 0x0F;
  }

  /** Strict UTF-8 decoding inverts UTF-8 encoding. */
  lemma {:induction false} Utf8RoundTrip(s: string)
    ensures Utf8Decode(Utf8Encode(s)) == Some(s)
    decreases |s|
  {
    if s != [] {
      var e := EncodeChar(s[0]);
      var tail := Utf8Encode(s[1..]);
      DecodeEncodeChar(s[0], tail);
      assert (e + tail)[|e|..] == tail;
      Utf8RoundTrip(s[1..]);
      assert s == [s[0]] + s[1..];
    }
  }

  /** The bytes the decoder takes for one scalar value are exactly that value's encoding. */
  lemma DecodeOneEncoding(b: seq<Byte>)
    requires b != [] && DecodeOne(b).Some?
    ensures EncodeChar(DecodeOne(b).value.0) == b[..DecodeOne(b).value.1]
  {
    var b0 := b[0] as int;
    if b0 < 0x80 {
      assert b[..1] == [b[0]];
    } else if b0 <= 0xDF {
      EncodingTwo(b);
    } else if b0 <= 0xEF {
      EncodingThree(b);
    } else {
      EncodingFour(b);
    }
  }

  lemma EncodingTwo(b: seq<Byte>)
    requires b != [] && 0x80 <= b[0] <= 0xDF && DecodeOne(b).Some?
    ensures EncodeChar(DecodeOne(b).value.0) == b[..2]
  {
    var (c, k) := DecodeOne(b).value;
    var hi, lo := b[0] as int - 0xC0, b[1] as int - 0x80;
    var n := c as int;
    assert n == hi * 64 + lo && 0 <= lo < 64 && 2 <= hi < 32;
    assert n / 64 == hi && n % 64 == lo;
    assert EncodeChar(c) == [b[0], b[1]];
  }

  lemma EncodingThree(b: seq<Byte>)
    requires b != [] && 0xE0 <= b[0] <= 0xEF && DecodeOne(b).Some?
    ensures EncodeChar(DecodeOne(b).value.0) == b[..3]
  {
    var (c, k) := DecodeOne(b).value;
    var x, y, z := b[0] as int - 0xE0, b[1] as int - 0x80, b[2] as int - 0x80;
    var n := c as int;
    assert n == x * 4096 + y * 64 + z && 0 <= y < 64 && 0 <= z < 64 && 0 <= x < 16;
    assert x == 0 ==> y >= 0x20;
    assert n / 64 == x * 64 + y && n % 64 == z;
    assert (n / 64) % 64 == y && n / 4096 == x;
    assert EncodeChar(c) == [b[0], b[1], b[2]];
  }

  lemma EncodingFour(b: seq<Byte>)
    requires b != [] && 0xF0 <= b[0] && DecodeOne(b).Some?
    ensures EncodeChar(DecodeOne(b).value.0) == b[..4]
  {
    var (c, k) := DecodeOne(b).value;
    var w, x, y, z := b[0] as int - 0xF0, b[1] as int - 0x80, b[2] as int - 0x80, b[3] as int - 0x80;
    var n := c as int;
    assert n == w * 262144 + x * 4096 + y * 64 + z && 0 <= x < 64 && 0 <= y < 64 && 0 <= z < 64 && 0 <= w <= 4;
    assert w == 0 ==> x >= 0x10;
    assert n / 64 == w * 4096 + x * 64 + y && n % 64 == z;
    assert (n / 64) % 64 == y;
    assert n / 4096 == w * 64 + x && (n / 4096) % 64 == x;
    assert n / 262144 == w;
    assert EncodeChar(c) == [b[0], b[1], b[2], b[3]];
  }

  /**
   * Strict UTF-8 decoding succeeds only on UTF-8 encodings: whatever it
   * accepts is the encoding of what it returns, so overlong forms,
   * surrogates, values above U+10FFFF and stray continuation bytes all fail.
   */
  lemma {:induction false} DecodeOnlyEncodings(b: seq<Byte>)
    requires Utf8Decode(b).Some?
    ensures Utf8Encode(Utf8Decode(b).value) == b
    decreases |b|
  {
    if b != [] {
      var (c, n) := DecodeOne(b).value;
      DecodeOneEncoding(b);
      DecodeOnlyEncodings(b[n..]);
      var t := Utf8Decode(b[n..]).value;
      assert Utf8Decode(b).value == [c] + t;
      EncodeCons(c, t, b, n);
    }
  }

  /** The encoding of `[c] + t` is that of `c` followed by that of `t`. */
  lemma EncodeCons(c: char, t: string, b: seq<Byte>, n: nat)
    requires n <= |b| && EncodeChar(c) == b[..n] && Utf8Encode(t) == b[n..]
    ensures Utf8Encode([c] + t) == b
  {
    assert ([c] + t)[1..] == t;
    assert b == b[..n] + b[n..];
  }

  /** Strict UTF-8 decoding gives `s` exactly on the UTF-8 encoding of `s`. */
  lemma Utf8DecodeExactly(b: seq<Byte>, s: string)
    ensures Utf8Decode(b) == Some(s) <==> b == Utf8Encode(s)
  {
    if Utf8Decode(b) == Some(s) {
      DecodeOnlyEncodings(b);
    }
    if b == Utf8Encode(s) {
      Utf8RoundTrip(s);
    }
  }

  /** ISO-8859-1 encoding inverts ISO-8859-1 decoding. */
  lemma {:induction false} Latin1RoundTrip(b: seq<Byte>)
    ensures Latin1Encode(Latin1Decode(b)) == Some(b)
    decreases |b|
  {
    if b != [] {
      Latin1RoundTrip(b[1..]);
      assert b == [b[0]] + b[1..];
    }
  }

  /** ISO-8859-1 decoding inverts ISO-8859-1 encoding wherever that succeeds. */
  lemma Latin1EncodeInverse(s: string)
    requires Latin1Encode(s).Some?
    ensures Latin1Decode(Latin1Encode(s).value) == s
  {
    var e := Latin1Encode(s).value;
    var d := Latin1Decode(e);
    forall i | 0 <= i < |s| ensures d[i] == s[i] {
      assert d[i] as int == e[i] as int == s[i] as int;
    }
  }

  /**
   * How a line of text sits in a capture file: its UTF-8 bytes, one
   * ISO-8859-1 character per byte, as the fetch step writes them.
   */
  function Stored(s: string): string {
    Latin1Decode(Utf8Encode(s))
  }

  /**
   * A line of UTF-8 text that was stored as ISO-8859-1 characters (as the
   * fetch step writes it) is restored to the original text by re-decoding.
   */
  lemma RecodeRepairs(s: string)
    ensures Recode(Stored(s)) == Some(s)
  {
    Latin1RoundTrip(Utf8Encode(s));
    Utf8RoundTrip(s);
  }

  /**
   * Re-decoding gives `s` exactly on the stored form of `s`: every line it
   * does not reject is the stored form of the text it returns.
   */
  lemma RecodeExactly(line: string, s: string)
    ensures Recode(line) == Some(s) <==> line == Stored(s)
  {
    if Recode(line) == Some(s) {
      var b := Latin1Encode(line).value;
      Utf8DecodeExactly(b, s);
      Latin1EncodeInverse(line);
    }
    if line == Stored(s) {
      RecodeRepairs(s);
    }
  }
}
