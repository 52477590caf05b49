/** `encodeURIComponent` as section 18.2.6.5 of ECMA-262 (2015 edition)
    defines it: every character outside the unreserved set is replaced by the
    percent-encoded octets of its UTF-8 encoding (section 2.1 of RFC 3986),
    with upper-case hexadecimal digits. The client uses it to turn a Drive link
    into a document id that contains no '/'. */
module Uri {

  newtype byte = x: int | 0 <= x < 256

  /** The characters left as they are: ASCII letters, digits and the marks
      `-_.!~*'()`. */
  predicate Unreserved(c: char) {
    ('A' <= c <= 'Z') || ('a' <= c <= 'z') || ('0' <= c <= '9') || c in "-_.!~*'()"
  }

  /** The number of octets of a UTF-8 sequence, as its first octet tells. */
  function Utf8Length(lead: byte): nat {
    if lead < 0x80 then 1 else if lead < 0xE0 then 2 else if lead < 0xF0 then 3 else 4
  }

  /** The UTF-8 encoding of one Unicode scalar value. */
  function Utf8(c: char): (bs: seq<byte>)
    ensures 1 <= |bs| <= 4
    ensures |bs| == Utf8Length(bs[0])
  {
    var cp := c as int;
    if cp < 0x80 then [cp as byte]
    else if cp < 0x800 then [(0xC0 + cp / 64) as byte, (0x80 + cp % 64) as byte]
    else if cp < 0x10000 then
      [(0xE0 + cp / 64 / 64) as byte, (0x80 + cp / 64 % 64) as byte, (0x80 + cp % 64) as byte]
    else
      [(0xF0 + cp / 64 / 64 / 64) as byte, (0x80 + cp / 64 / 64 % 64) as byte,
       (0x80 + cp / 64 % 64) as byte, (0x80 + cp % 64) as byte]
  }

  /** The scalar value a well-formed UTF-8 sequence of one character stands for. */
  function Utf8Value(bs: seq<byte>): int
    requires 1 <= |bs| <= 4
  {
    var b := seq(|bs|, i requires 0 <= i < |bs| => bs[i] as int);
    if |bs| == 1 then b[0]
    else if |bs| == 2 then (b[0] - 0xC0) * 64 + (b[1] - 0x80)
    else if |bs| == 3 then ((b[0] - 0xE0) * 64 + (b[1] - 0x80)) * 64 + (b[2] - 0x80)
    else (((b[0] - 0xF0) * 64 + (b[1] - 0x80)) * 64 + (b[2] - 0x80)) * 64 + (b[3] - 0x80)
  }

  /** Decoding the UTF-8 encoding of a character gives the character back. */
  lemma Utf8RoundTrip(c: char)
    ensures Utf8Value(Utf8(c)) == c as int
  {
    var cp := c as int;
    var q1 := cp / 64;
    var q2 := q1 / 64;
    var q3 := q2 / 64;
    assert cp == q1 * 64 + cp % 64;
    assert q1 == q2 * 64 + q1 % 64;
    assert q2 == q3 * 64 + q2 % 64;
  }

  lemma Utf8Injective(a: char, b: char)
    requires Utf8(a) == Utf8(b)
    ensures a == b
  {
    Utf8RoundTrip(a);
    Utf8RoundTrip(b);
  }

  /** The upper-case hexadecimal digit of a value below 16. */
  function HexDigit(d: int): (c: char)
    requires 0 <= d < 16
    ensures Unreserved(c)
  {
    if d < 10 then (('0' as int) + d) as char else (('A' as int) + d - 10) as char
  }

  /** `%XY` for one octet. */
  function PercentByte(b: byte): (t: string)
    ensures |t| == 3 && t[0] == '%'
  {
    ['%', HexDigit(b as int / 16), HexDigit(b as int % 16)]
  }

  lemma PercentByteInjective(a: byte, b: byte)
    requires PercentByte(a) == PercentByte(b)
    ensures a == b
  {
    assert PercentByte(a)[1] == PercentByte(b)[1];
    assert PercentByte(a)[2] == PercentByte(b)[2];
    assert a as int == 16 * (a as int / 16) + a as int % 16;
  }

  function PercentBytes(bs: seq<byte>): (r: string)
    ensures |r| == 3 * |bs|
    ensures forall i :: 0 <= i < |r| ==> Unreserved(r[i]) || r[i] == '%'
  {
    if bs == [] then []
    else
      var head, tail := PercentByte(bs[0]), PercentBytes(bs[1..]);
      assert forall i :: 3 <= i < |head| + |tail| ==> (head + tail)[i] == tail[i - 3];
      head + tail
  }

  lemma {:induction false} PercentBytesInjective(xs: seq<byte>, ys: seq<byte>)
    requires PercentBytes(xs) == PercentBytes(ys)
    ensures xs == ys
  {
    if xs != [] {
      var rx, ry := PercentBytes(xs), PercentBytes(ys);
      assert rx[..3] == PercentByte(xs[0]);
      assert ry[..3] == PercentByte(ys[0]);
      PercentByteInjective(xs[0], ys[0]);
      assert rx[3..] == PercentBytes(xs[1..]);
      assert ry[3..] == PercentBytes(ys[1..]);
      PercentBytesInjective(xs[1..], ys[1..]);
      assert xs == [xs[0]] + xs[1..];
      assert ys == [ys[0]] + ys[1..];
    }
  }

  /** The text that stands for one character in the output. */
  function EncodeChar(c: char): (t: string)
    ensures |t| >= 1
    ensures forall i :: 0 <= i < |t| ==> Unreserved(t[i]) || t[i] == '%'
    ensures Unreserved(c) ==> t == [c]
    ensures !Unreserved(c) ==> t[0] == '%'
  {
    if Unreserved(c) then [c] else PercentBytes(Utf8(c))
  }

  /** `encodeURIComponent(s)`. */
  function EncodeURIComponent(s: string): (r: string)
    ensures |s| <= |r|
    ensures forall i :: 0 <= i < |r| ==> Unreserved(r[i]) || r[i] == '%'
    ensures '/' !in r
  {
    if s == [] then []
    else
      var head, tail := EncodeChar(s[0]), EncodeURIComponent(s[1..]);
      assert forall i :: |head| <= i < |head| + |tail| ==> (head + tail)[i] == tail[i - |head|];
      head + tail
  }

  /** No character's text is a proper prefix of another's: the first octet of
      a percent-encoded character fixes how many octets follow. */
  lemma EncodeCharPrefixFree(a: char, b: char, x: string, y: string)
    requires EncodeChar(a) + x == EncodeChar(b) + y
    ensures a == b && x == y
  {
    var ta, tb := EncodeChar(a), EncodeChar(b);
    assert (ta + x)[0] == ta[0] && (tb + y)[0] == tb[0];
    if Unreserved(a) || Unreserved(b) {
      assert a == b;
    } else {
      var ua, ub := Utf8(a), Utf8(b);
      assert ta == PercentBytes(ua) && tb == PercentBytes(ub);
      assert ta[..3] == PercentByte(ua[0]);
      assert tb[..3] == PercentByte(ub[0]);
      assert (ta + x)[..3] == ta[..3];
      assert (tb + y)[..3] == tb[..3];
      PercentByteInjective(ua[0], ub[0]);
      assert |ta| == |tb|;
      assert ta == (ta + x)[..|ta|];
      assert tb == (tb + y)[..|tb|];
      PercentBytesInjective(ua, ub);
      Utf8Injective(a, b);
    }
    assert x == (ta + x)[|ta|..];
    assert y == (tb + y)[|tb|..];
  }

  /** Distinct strings have distinct encodings, so the encoding can serve as
      a document id. */
  lemma {:induction false} EncodeInjective(s: string, t: string)
    requires EncodeURIComponent(s) == EncodeURIComponent(t)
    ensures s == t
  {
    if s != [] && t != [] {
      EncodeCharPrefixFree(s[0], t[0], EncodeURIComponent(s[1..]), EncodeURIComponent(t[1..]));
      EncodeInjective(s[1..], t[1..]);
      assert s == [s[0]] + s[1..];
      assert t == [t[0]] + t[1..];
    }
  }

  /** A string made of unreserved characters only (a Drive file id, say) is
      its own encoding. */
  lemma {:induction false} EncodeUnreservedIsIdentity(s: string)
    requires forall i :: 0 <= i < |s| ==> Unreserved(s[i])
    ensures EncodeURIComponent(s) == s
  {
    if s != [] {
      EncodeUnreservedIsIdentity(s[1..]);
      assert s == [s[0]] + s[1..];
    }
  }

  /** Encoding distributes over concatenation. */
  lemma {:induction false} EncodeAppend(s: string, t: string)
    ensures EncodeURIComponent(s + t) == EncodeURIComponent(s) + EncodeURIComponent(t)
  {
    if s != [] {
      assert (s + t)[1..] == s[1..] + t;
      EncodeAppend(s[1..], t);
    } else {
      assert s + t == t;
    }
  }

  /** The separators of a Drive link are escaped. */
  lemma EncodeSlashExample()
    ensures EncodeURIComponent("/d/") == "%2Fd%2F"
  {
    assert Utf8('/') == [0x2F];
    assert EncodeChar('/') == "%2F";
    assert EncodeChar('d') == "d";
    assert EncodeURIComponent("/") == "%2F";
    assert EncodeURIComponent("d/") == "d%2F";
  }
}
