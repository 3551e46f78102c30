/** Base64 as Node's `Buffer` implements it: encoding with the alphabet and the `=` padding of
    section 4 of RFC 4648, and the lenient decoder of `Buffer.from(s, 'base64')`, which skips
    characters outside the alphabet, also accepts the URL-safe letters `-` and `_` (section 5 of
    RFC 4648), and stops at the first `=`. */
module Base64 {

  import opened Wrappers

  type Byte = b: int | 0 <= b < 256
  type Sextet = v: int | 0 <= v < 64

  /** The character of the section 4 alphabet for a 6-bit value. */
  function CharOf(v: Sextet): (c: char)
  {
    if v < 26 then (65 + v) as char
    else if v < 52 then (97 + v - 26) as char
    else if v < 62 then (48 + v - 52) as char
    else if v == 62 then '+'
    else '/'
  }

  /** The 6-bit value the decoder gives a character, if it has one. */
  function ValueOf(c: char): (r: Option<Sextet>)
  {
    if 'A' <= c <= 'Z' then Some(c as int - 65)
    else if 'a' <= c <= 'z' then Some(c as int - 97 + 26)
    else if '0' <= c <= '9' then Some(c as int - 48 + 52)
    else if c == '+' || c == '-' then Some(62)
    else if c == '/' || c == '_' then Some(63)
    else None
  }

  lemma ValueOfCharOf(v: Sextet)
    ensures ValueOf(CharOf(v)) == Some(v)
    ensures CharOf(v) != '='
  {
  }

  /** The 6-bit values the decoder reads: alphabet characters up to the first `=`. */
  function Sextets(s: string): (r: seq<Sextet>)
    ensures |r| <= |s|
  {
    if s == [] || s[0] == '=' then []
    else if ValueOf(s[0]).Some? then [ValueOf(s[0]).value] + Sextets(s[1..])
    else Sextets(s[1..])
  }

  /** The byte that the value `hi` and the top bits of `lo` make: the `k`-th byte of a group has
      its high `8 - 2k` ... bits in `hi` and the rest in `lo`. */
  function Join0(hi: Sextet, lo: Sextet): Byte { hi * 4 + lo / 16 }
  function Join1(hi: Sextet, lo: Sextet): Byte { (hi % 16) * 16 + lo / 4 }
  function Join2(hi: Sextet, lo: Sextet): Byte { (hi % 4) * 64 + lo }

  /** Four values give three bytes; a final two or three give one or two; a final single value
      gives nothing. */
  function BytesOf(vs: seq<Sextet>): (r: seq<Byte>)
    ensures |r| == 3 * (|vs| / 4) + (if |vs| % 4 == 0 then 0 else (|vs| % 4) - 1)
  {
    if |vs| >= 4 then
      [Join0(vs[0], vs[1]), Join1(vs[1], vs[2]), Join2(vs[2], vs[3])] + BytesOf(vs[4..])
    else if |vs| == 3 then
      [Join0(vs[0], vs[1]), Join1(vs[1], vs[2])]
    else if |vs| == 2 then
      [Join0(vs[0], vs[1])]
    else []
  }

  /** `Buffer.from(s, 'base64')`: total, it never fails. */
  function Decode(s: string): (r: seq<Byte>)
  {
    BytesOf(Sextets(s))
  }

  function Chars(vs: seq<Sextet>): (r: string)
    ensures |r| == |vs|
  {
    if vs == [] then "" else [CharOf(vs[0])] + Chars(vs[1..])
  }

  lemma {:induction false} SextetsOfChars(vs: seq<Sextet>, rest: string)
    ensures Sextets(Chars(vs) + rest) == vs + Sextets(rest)
  {
    if vs == [] {
      assert Chars(vs) + rest == rest;
    } else {
      var tail := Chars(vs[1..]) + rest;
      assert Chars(vs) + rest == [CharOf(vs[0])] + tail;
      assert ([CharOf(vs[0])] + tail)[1..] == tail;
      ValueOfCharOf(vs[0]);
      assert Sextets([CharOf(vs[0])] + tail) == [vs[0]] + Sextets(tail);
      SextetsOfChars(vs[1..], rest);
      assert vs == [vs[0]] + vs[1..];
    }
  }

  /** The 6-bit values of a group of up to three bytes, before padding. */
  function Split3(b0: Byte, b1: Byte, b2: Byte): seq<Sextet>
  {
    [b0 / 4, (b0 % 4) * 16 + b1 / 16, (b1 % 16) * 4 + b2 / 64, b2 % 64]
  }

  lemma JoinSplit3(b0: Byte, b1: Byte, b2: Byte)
    ensures Join0(Split3(b0, b1, b2)[0], Split3(b0, b1, b2)[1]) == b0
    ensures Join1(Split3(b0, b1, b2)[1], Split3(b0, b1, b2)[2]) == b1
    ensures Join2(Split3(b0, b1, b2)[2], Split3(b0, b1, b2)[3]) == b2
  {
  }

  /** Encodes three bytes at a time; a final group of one or two bytes is padded with `=`. */
  function Encode(bs: seq<Byte>): (r: string)
    ensures |r| == 4 * ((|bs| + 2) / 3)
  {
    if |bs| == 0 then ""
    else if |bs| == 1 then Chars(Split3(bs[0], 0, 0)[..2]) + "=="
    else if |bs| == 2 then Chars(Split3(bs[0], bs[1], 0)[..3]) + "="
    else Chars(Split3(bs[0], bs[1], bs[2])) + Encode(bs[3..])
  }

  /** Decoding undoes encoding. */
  lemma {:induction false} DecodeEncode(bs: seq<Byte>)
    ensures Decode(Encode(bs)) == bs
  {
    if |bs| == 1 {
      DecodeEncodeOne(bs[0]);
      assert bs == [bs[0]];
    } else if |bs| == 2 {
      DecodeEncodeTwo(bs[0], bs[1]);
      assert bs == [bs[0], bs[1]];
    } else if |bs| >= 3 {
      DecodeEncodeGroup(bs);
      DecodeEncode(bs[3..]);
      assert bs == bs[..3] + bs[3..];
    }
  }

  lemma DecodeEncodeOne(b0: Byte)
    ensures Decode(Encode([b0])) == [b0]
  {
    var vs := Split3(b0, 0, 0)[..2];
    assert Encode([b0]) == Chars(vs) + "==";
    SextetsOfChars(vs, "==");
    assert Sextets("==") == [];
    assert vs + [] == vs;
    assert BytesOf(vs) == [Join0(vs[0], vs[1])];
    JoinSplit3(b0, 0, 0);
  }

  lemma DecodeEncodeTwo(b0: Byte, b1: Byte)
    ensures Decode(Encode([b0, b1])) == [b0, b1]
  {
    var vs := Split3(b0, b1, 0)[..3];
    assert Encode([b0, b1]) == Chars(vs) + "=";
    SextetsOfChars(vs, "=");
    assert Sextets("=") == [];
    assert vs + [] == vs;
    assert BytesOf(vs) == [Join0(vs[0], vs[1]), Join1(vs[1], vs[2])];
    JoinSplit3(b0, b1, 0);
  }

  /** A full group decodes to its three bytes, followed by whatever the rest decodes to. */
  lemma {:induction false} DecodeEncodeGroup(bs: seq<Byte>)
    requires |bs| >= 3
    ensures Decode(Encode(bs)) == bs[..3] + Decode(Encode(bs[3..]))
  {
    var vs := Split3(bs[0], bs[1], bs[2]);
    var rest := Encode(bs[3..]);
    assert Encode(bs) == Chars(vs) + rest;
    SextetsOfChars(vs, rest);
    var all := vs + Sextets(rest);
    assert all[..4] == vs && all[4..] == Sextets(rest);
    JoinSplit3(bs[0], bs[1], bs[2]);
    assert [Join0(all[0], all[1]), Join1(all[1], all[2]), Join2(all[2], all[3])] == bs[..3];
    assert BytesOf(all) == bs[..3] + BytesOf(Sextets(rest));
    assert Decode(Encode(bs)) == BytesOf(all);
    assert Decode(rest) == BytesOf(Sextets(rest));
  }
}
