/**
 * The transfer encoding of attachment data: base64 with the URL- and
 * filename-safe alphabet of section 5 of RFC 4648, padded with '='.
 * Only well-formed padded input is decoded; anything else is an error.
 */
module Base64Url {
  import opened Wrappers

  newtype byte = x: int | 0 <= x < 256

  /** The character for the 6-bit value `v` (RFC 4648, section 5, table 2). */
  function CharOf(v: int): char
    requires 0 <= v < 64
  {
    if v < 26 then (65 + v) as char
    else if v < 52 then (97 + v - 26) as char
    else if v < 62 then (48 + v - 52) as char
    else if v == 62 then '-'
    else '_'
  }

  /** The 6-bit value of an alphabet character; `None` for anything else, padding included. */
  function ValueOf(c: char): (r: Option<int>)
    ensures r.Some? ==> 0 <= r.value < 64 && CharOf(r.value) == c
    ensures forall v :: 0 <= v < 64 && CharOf(v) == c ==> r == Some(v)
  {
    if 'A' <= c <= 'Z' then Some(c as int - 65)
    else if 'a' <= c <= 'z' then Some(c as int - 97 + 26)
    else if '0' <= c <= '9' then Some(c as int - 48 + 52)
    else if c == '-' then Some(62)
    else if c == '_' then Some(63)
    else None
  }

  function EncodeGroup(b: seq<byte>): (s: string)
    requires 1 <= |b| <= 3
    ensures |s| == 4
  {
    var b0 := b[0] as int;
    if |b| == 1 then
      [CharOf(b0 / 4), CharOf((b0 % 4) * 16), '=', '=']
    else
      var b1 := b[1] as int;
      if |b| == 2 then
        [CharOf(b0 / 4), CharOf((b0 % 4) * 16 + b1 / 16), CharOf((b1 % 16) * 4), '=']
      else
        var b2 := b[2] as int;
        [CharOf(b0 / 4), CharOf((b0 % 4) * 16 + b1 / 16), CharOf((b1 % 16) * 4 + b2 / 64), CharOf(b2 % 64)]
  }

  /** Encoding, in groups of three bytes, the last group padded. */
  function Encode(b: seq<byte>): (s: string)
    ensures |s| == 4 * ((|b| + 2) / 3)
  {
    if |b| == 0 then ""
    else if |b| <= 3 then EncodeGroup(b)
    else EncodeGroup(b[..3]) + Encode(b[3..])
  }

  /** Decodes a group of four alphabet characters (no padding) into three bytes. */
  function DecodeFull(c0: char, c1: char, c2: char, c3: char): (r: Option<seq<byte>>)
    ensures r.Some? ==> |r.value| == 3
  {
    match (ValueOf(c0), ValueOf(c1), ValueOf(c2), ValueOf(c3))
    case (Some(v0), Some(v1), Some(v2), Some(v3)) =>
      Some([(v0 * 4 + v1 / 16) as byte, ((v1 % 16) * 16 + v2 / 4) as byte, ((v2 % 4) * 64 + v3) as byte])
    case _ => None
  }

  /** Decodes the last group, which may end in "=" (two bytes) or "==" (one byte). */
  function DecodeLast(c0: char, c1: char, c2: char, c3: char): (r: Option<seq<byte>>)
    ensures r.Some? ==> 1 <= |r.value| <= 3
  {
    if c2 == '=' && c3 == '=' then
      match (ValueOf(c0), ValueOf(c1))
      case (Some(v0), Some(v1)) => Some([(v0 * 4 + v1 / 16) as byte])
      case _ => None
    else if c3 == '=' then
      match (ValueOf(c0), ValueOf(c1), ValueOf(c2))
      case (Some(v0), Some(v1), Some(v2)) => Some([(v0 * 4 + v1 / 16) as byte, ((v1 % 16) * 16 + v2 / 4) as byte])
      case _ => None
    else
      DecodeFull(c0, c1, c2, c3)
  }

  /**
   * Decoding of well-formed padded input: a whole number of four-character
   * groups, padding only in the last one.  Like the decoder the source calls,
   * it ignores the unused low bits of a padded last group.
   */
  function Decode(s: string): (r: Option<seq<byte>>)
    ensures r.Some? ==> |s| % 4 == 0 && 3 * |s| / 4 - 2 <= |r.value| <= 3 * |s| / 4
  {
    if |s| == 0 then Some([])
    else if |s| < 4 then None
    else if |s| == 4 then DecodeLast(s[0], s[1], s[2], s[3])
    else
      match DecodeFull(s[0], s[1], s[2], s[3])
      case None => None
      case Some(group) =>
        match Decode(s[4..])
        case None => None
        case Some(rest) => Some(group + rest)
  }

  lemma DecodeOne(b0: byte)
    ensures DecodeLast(CharOf(b0 as int / 4), CharOf((b0 as int % 4) * 16), '=', '=') == Some([b0])
  {
  }

  lemma DecodeTwo(b0: byte, b1: byte)
    ensures DecodeLast(CharOf(b0 as int / 4), CharOf((b0 as int % 4) * 16 + b1 as int / 16),
                       CharOf((b1 as int % 16) * 4), '=') == Some([b0, b1])
  {
  }

  lemma DecodeThree(b0: byte, b1: byte, b2: byte)
    ensures DecodeFull(CharOf(b0 as int / 4), CharOf((b0 as int % 4) * 16 + b1 as int / 16),
                       CharOf((b1 as int % 16) * 4 + b2 as int / 64), CharOf(b2 as int % 64)) == Some([b0, b1, b2])
  {
    var v0, v1 := b0 as int / 4, (b0 as int % 4) * 16 + b1 as int / 16;
    var v2, v3 := (b1 as int % 16) * 4 + b2 as int / 64, b2 as int % 64;
    assert ValueOf(CharOf(v0)) == Some(v0) && ValueOf(CharOf(v1)) == Some(v1);
    assert ValueOf(CharOf(v2)) == Some(v2) && ValueOf(CharOf(v3)) == Some(v3);
    assert v0 * 4 + v1 / 16 == b0 as int;
    assert (v1 % 16) * 16 + v2 / 4 == b1 as int;
    assert (v2 % 4) * 64 + v3 == b2 as int;
  }

  lemma DecodeEncodeGroup(b: seq<byte>)
    requires 1 <= |b| <= 3
    ensures DecodeLast(EncodeGroup(b)[0], EncodeGroup(b)[1], EncodeGroup(b)[2], EncodeGroup(b)[3]) == Some(b)
  {
    if |b| == 1 {
      DecodeOne(b[0]);
      assert b == [b[0]];
    } else if |b| == 2 {
      DecodeTwo(b[0], b[1]);
      assert b == [b[0], b[1]];
    } else {
      DecodeThree(b[0], b[1], b[2]);
      assert b == [b[0], b[1], b[2]];
      var s := EncodeGroup(b);
      assert s[2] != '=' && s[3] != '=';
    }
  }

  lemma DecodeFullEncodeGroup(b: seq<byte>)
    requires |b| == 3
    ensures DecodeFull(EncodeGroup(b)[0], EncodeGroup(b)[1], EncodeGroup(b)[2], EncodeGroup(b)[3]) == Some(b)
  {
    DecodeThree(b[0], b[1], b[2]);
    assert b == [b[0], b[1], b[2]];
  }

  /** Round trip: decoding an encoding gives back the original bytes. */
  lemma {:induction false} DecodeEncode(b: seq<byte>)
    ensures Decode(Encode(b)) == Some(b)
  {
    if |b| == 0 {
    } else if |b| <= 3 {
      DecodeEncodeGroup(b);
    } else {
      var g, rest := EncodeGroup(b[..3]), Encode(b[3..]);
      var s := g + rest;
      assert s[4..] == rest;
      assert s[0] == g[0] && s[1] == g[1] && s[2] == g[2] && s[3] == g[3];
      DecodeFullEncodeGroup(b[..3]);
      DecodeEncode(b[3..]);
      assert b == b[..3] + b[3..];
    }
  }
}
