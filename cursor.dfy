/** The pagination cursor of the message history: the base64 of the decimal id of the oldest
    message of a page, and its decoding with `Buffer.from(cursor, 'base64').toString()`
    followed by `parseInt`. */
module Cursor {

  import opened JsString
  import opened JsNumber
  import Base64

  /** `Buffer.from(s)` (UTF-8) on a string of ASCII characters: one byte per character. */
  function AsciiBytes(s: string): (r: seq<Base64.Byte>)
    requires forall i :: 0 <= i < |s| ==> s[i] as int < 128
    ensures |r| == |s|
    ensures forall i :: 0 <= i < |s| ==> r[i] == s[i] as int
  {
    if s == [] then [] else [s[0] as int] + AsciiBytes(s[1..])
  }

  /** `buffer.toString()`: an ASCII byte is its character; any other byte is read as the
      replacement character U+FFFD. */
  function BytesToString(bs: seq<Base64.Byte>): (r: string)
    ensures |r| == |bs|
    ensures forall i :: 0 <= i < |bs| && bs[i] < 128 ==> r[i] as int == bs[i]
  {
    if bs == [] then ""
    else [if bs[0] < 128 then bs[0] as char else 0xFFFD as char] + BytesToString(bs[1..])
  }

  /** The cursor issued for the message with this id. */
  function Encode(id: nat): (r: string)
  {
    Base64.Encode(AsciiBytes(NatToDecimal(id)))
  }

  /** The number a cursor received from a client stands for; it never fails. */
  function Decode(cursor: string): (r: ParsedInt)
  {
    ParseInt(BytesToString(Base64.Decode(cursor)))
  }

  /** A cursor the server issued decodes to the id it was made from. */
  lemma {:induction false} DecodeEncode(id: nat)
    ensures Decode(Encode(id)) == Num(id)
  {
    var digits := NatToDecimal(id);
    var bytes := AsciiBytes(digits);
    Base64.DecodeEncode(bytes);
    assert BytesToString(bytes) == digits;
    ParseIntOfDecimal(id);
  }

  /** Distinct ids get distinct cursors. */
  lemma EncodeInjective(a: nat, b: nat)
    requires Encode(a) == Encode(b)
    ensures a == b
  {
    DecodeEncode(a);
    DecodeEncode(b);
  }

  /** A cursor with no base64 character in it decodes to NaN. */
  lemma {:induction false} NoAlphabetIsNaN(cursor: string)
    requires forall i :: 0 <= i < |cursor| ==> Base64.ValueOf(cursor[i]).None?
    ensures Decode(cursor) == NaN
  {
    NoAlphabetNoSextets(cursor);
  }

  lemma {:induction false} NoAlphabetNoSextets(s: string)
    requires forall i :: 0 <= i < |s| ==> Base64.ValueOf(s[i]).None?
    ensures Base64.Sextets(s) == []
  {
    if s != [] && s[0] != '=' {
      NoAlphabetNoSextets(s[1..]);
    }
  }
}
