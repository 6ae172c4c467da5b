/** Base 64 as `btoa` produces it: the alphabet of Table 1 in section 4 of
    RFC 4648, `=` padding, applied to the string's characters taken as
    bytes. `btoa` refuses a string holding a character above U+00FF. */
module Base64 {
  import opened Common

  newtype byte = x: int | 0 <= x < 256

  /** A value of 6 bits. */
  type sextet = x: int | 0 <= x < 64

  /** Table 1 of RFC 4648: the character for a 6-bit value. */
  function Digit(v: sextet): (c: char)
    ensures c != '='
  {
    if v < 26 then (('A' as int) + v) as char
    else if v < 52 then (('a' as int) + (v - 26)) as char
    else if v < 62 then (('0' as int) + (v - 52)) as char
    else if v == 62 then '+'
    else '/'
  }

  /** The 6-bit value of a character of the alphabet, if it is one. */
  function Value(c: char): (r: Option<sextet>)
    ensures r.Some? ==> Digit(r.value) == c
  {
    if 'A' <= c <= 'Z' then Some((c as int) - ('A' as int))
    else if 'a' <= c <= 'z' then Some((c as int) - ('a' as int) + 26)
    else if '0' <= c <= '9' then Some((c as int) - ('0' as int) + 52)
    else if c == '+' then Some(62)
    else if c == '/' then Some(63)
    else None
  }

  lemma ValueOfDigit(v: sextet)
    ensures Value(Digit(v)) == Some(v)
  {
  }

  /** The sextets of three bytes give the bytes back. */
  lemma BlockArithmetic(a: byte, b: byte, c: byte)
    ensures var w, x, y, z := a as int / 4, (a as int % 4) * 16 + b as int / 16,
                              (b as int % 16) * 4 + c as int / 64, c as int % 64;
      DecodeBlock(w, x, y, z) == [a, b, c]
  {
    var x := (a as int % 4) * 16 + b as int / 16;
    var y := (b as int % 16) * 4 + c as int / 64;
    assert x / 16 == a as int % 4 && x % 16 == b as int / 16;
    assert y / 4 == b as int % 16 && y % 4 == c as int / 64;
  }

  /** Three bytes as four characters. */
  function EncodeBlock(a: byte, b: byte, c: byte): (r: string)
    ensures |r| == 4 && '=' !in r
  {
    [Digit(a as int / 4), Digit((a as int % 4) * 16 + b as int / 16),
     Digit((b as int % 16) * 4 + c as int / 64), Digit(c as int % 64)]
  }

  /** The encoding: whole blocks, then one or two trailing bytes padded to a
      block with `=`. */
  function Encode(s: seq<byte>): (r: string)
    ensures |r| % 4 == 0
    ensures |r| == 4 * ((|s| + 2) / 3)
    decreases |s|
  {
    if |s| == 0 then []
    else if |s| == 1 then EncodeOne(s[0])
    else if |s| == 2 then EncodeTwo(s[0], s[1])
    else
      assert (|s| + 2) / 3 == (|s| - 3 + 2) / 3 + 1;
      EncodeBlock(s[0], s[1], s[2]) + Encode(s[3..])
  }

  /** A last single byte: two digits and two `=`. */
  function EncodeOne(a: byte): (r: string)
    ensures |r| == 4
  {
    [Digit(a as int / 4), Digit((a as int % 4) * 16), '=', '=']
  }

  /** Two last bytes: three digits and one `=`. */
  function EncodeTwo(a: byte, b: byte): (r: string)
    ensures |r| == 4
  {
    [Digit(a as int / 4), Digit((a as int % 4) * 16 + b as int / 16), Digit((b as int % 16) * 4), '=']
  }

  /** The three bytes of a block whose four characters are all digits. */
  function DecodeBlock(w: sextet, x: sextet, y: sextet, z: sextet): seq<byte> {
    [(w * 4 + x / 16) as byte, ((x % 16) * 16 + y / 4) as byte, ((y % 4) * 64 + z) as byte]
  }

  /** Decoding: `None` unless the text is whole blocks of alphabet characters,
      where only the last block may end in one or two `=`. */
  function Decode(t: string): (r: Option<seq<byte>>)
    decreases |t|
  {
    if |t| == 0 then Some([])
    else if |t| < 4 then None
    else
      var w, x, y, z := Value(t[0]), Value(t[1]), Value(t[2]), Value(t[3]);
      if w.None? || x.None? then None
      else if |t| == 4 && t[2] == '=' && t[3] == '=' then
        Some([(w.value * 4 + x.value / 16) as byte])
      else if |t| == 4 && y.Some? && t[3] == '=' then
        Some([(w.value * 4 + x.value / 16) as byte, ((x.value % 16) * 16 + y.value / 4) as byte])
      else if y.None? || z.None? then None
      else
        match Decode(t[4..])
        case None => None
        case Some(rest) => Some(DecodeBlock(w.value, x.value, y.value, z.value) + rest)
  }

  /** The four characters of a block are digits that decode to its bytes. */
  lemma BlockRoundTrip(a: byte, b: byte, c: byte)
    ensures var e := EncodeBlock(a, b, c);
      && (forall i :: 0 <= i < 4 ==> Value(e[i]).Some?)
      && DecodeBlock(Value(e[0]).value, Value(e[1]).value, Value(e[2]).value, Value(e[3]).value) == [a, b, c]
  {
    var e := EncodeBlock(a, b, c);
    var w, x, y, z := a as int / 4, (a as int % 4) * 16 + b as int / 16,
                      (b as int % 16) * 4 + c as int / 64, c as int % 64;
    ValueOfDigit(w);
    ValueOfDigit(x);
    ValueOfDigit(y);
    ValueOfDigit(z);
    assert Value(e[0]) == Some(w) && Value(e[1]) == Some(x) && Value(e[2]) == Some(y) && Value(e[3]) == Some(z);
    BlockArithmetic(a, b, c);
  }

  /** A last block of three digits and one `=` decodes to two bytes. */
  lemma DecodeTwo(e: string, w: sextet, x: sextet, y: sextet)
    requires |e| == 4 && e[3] == '='
    requires Value(e[0]) == Some(w) && Value(e[1]) == Some(x) && Value(e[2]) == Some(y)
    ensures Decode(e) == Some([(w * 4 + x / 16) as byte, ((x % 16) * 16 + y / 4) as byte])
  {
    assert e[2] != '=';
  }

  /** The sextets of two bytes give the bytes back. */
  lemma TwoBytesArithmetic(a: byte, b: byte)
    ensures var w, x, y := a as int / 4, (a as int % 4) * 16 + b as int / 16, (b as int % 16) * 4;
      w * 4 + x / 16 == a as int && (x % 16) * 16 + y / 4 == b as int
  {
    var x := (a as int % 4) * 16 + b as int / 16;
    assert x / 16 == a as int % 4 && x % 16 == b as int / 16;
  }

  /** Two bytes encode to three digits and one `=`, which decode to them. */
  lemma TwoBytesBlock(a: byte, b: byte)
    ensures Decode(Encode([a, b])) == Some([a, b])
  {
    var w := a as int / 4;
    var x := (a as int % 4) * 16 + b as int / 16;
    var y := (b as int % 16) * 4;
    var e := EncodeTwo(a, b);
    assert Encode([a, b]) == e;
    ValueOfDigit(w);
    ValueOfDigit(x);
    ValueOfDigit(y);
    DecodeTwo(e, w, x, y);
    TwoBytesArithmetic(a, b);
  }

  /** Two trailing bytes: three digits and one `=`. */
  lemma TwoBytesRoundTrip(s: seq<byte>)
    requires |s| == 2
    ensures Decode(Encode(s)) == Some(s)
  {
    TwoBytesBlock(s[0], s[1]);
    assert s == [s[0], s[1]];
  }

  /** A last block of two digits and two `=` decodes to one byte. */
  lemma DecodeOne(e: string, w: sextet, x: sextet)
    requires |e| == 4 && e[2] == '=' && e[3] == '='
    requires Value(e[0]) == Some(w) && Value(e[1]) == Some(x)
    ensures Decode(e) == Some([(w * 4 + x / 16) as byte])
  {
  }

  /** One byte encodes to two digits and two `=`, which decode to it. */
  lemma OneByteBlock(a: byte)
    ensures Decode(Encode([a])) == Some([a])
  {
    var w := a as int / 4;
    var x := (a as int % 4) * 16;
    var e := EncodeOne(a);
    assert Encode([a]) == e;
    ValueOfDigit(w);
    ValueOfDigit(x);
    DecodeOne(e, w, x);
    assert w * 4 + x / 16 == a as int;
  }

  /** One trailing byte: two digits and two `=`. */
  lemma OneByteRoundTrip(s: seq<byte>)
    requires |s| == 1
    ensures Decode(Encode(s)) == Some(s)
  {
    OneByteBlock(s[0]);
    assert s == [s[0]];
  }

  /** A block of four digits in front of more text decodes to its three
      bytes in front of what the rest decodes to. */
  lemma DecodeCons(block: string, tail: string)
    requires |block| == 4
    requires forall i :: 0 <= i < 4 ==> Value(block[i]).Some?
    ensures var t := block + tail;
      Decode(t) == match Decode(tail)
                   case None => None
                   case Some(rest) => Some(DecodeBlock(Value(block[0]).value, Value(block[1]).value,
                                                       Value(block[2]).value, Value(block[3]).value) + rest)
  {
    var t := block + tail;
    assert t[4..] == tail;
    assert t[0] == block[0] && t[1] == block[1] && t[2] == block[2] && t[3] == block[3];
    assert Value(block[2]).Some? && Value(block[3]).Some?;
    assert block[2] != '=' && block[3] != '=';
  }

  /** Decoding an encoding gives back the bytes (section 4 of RFC 4648). */
  lemma {:induction false} DecodeEncode(s: seq<byte>)
    ensures Decode(Encode(s)) == Some(s)
    decreases |s|
  {
    if |s| == 1 {
      OneByteRoundTrip(s);
    } else if |s| == 2 {
      TwoBytesRoundTrip(s);
    } else if |s| >= 3 {
      var block := EncodeBlock(s[0], s[1], s[2]);
      var tail := Encode(s[3..]);
      assert Encode(s) == block + tail;
      assert Decode(block + tail) == Some([s[0], s[1], s[2]] + s[3..]) by {
        BlockRoundTrip(s[0], s[1], s[2]);
        DecodeEncode(s[3..]);
        DecodeCons(block, tail);
      }
      assert [s[0], s[1], s[2]] + s[3..] == s by {
        assert s == s[..3] + s[3..];
      }
    }
  }

  /** `btoa`: each character is one byte, so a character above U+00FF makes
      it throw (`None`). */
  function Btoa(s: string): (r: Option<string>)
    ensures r.Some? <==> forall i :: 0 <= i < |s| ==> s[i] as int < 256
    ensures r.Some? ==> |r.value| == 4 * ((|s| + 2) / 3)
  {
    if forall i :: 0 <= i < |s| ==> s[i] as int < 256 then
      Some(Encode(seq(|s|, i requires 0 <= i < |s| => s[i] as int as byte)))
    else None
  }

  /** What `btoa` produces decodes to the character codes of its input. */
  lemma BtoaDecodes(s: string)
    requires forall i :: 0 <= i < |s| ==> s[i] as int < 256
    ensures Btoa(s).Some?
    ensures var d := Decode(Btoa(s).value);
      d.Some? && |d.value| == |s| && forall i :: 0 <= i < |s| ==> d.value[i] as int == s[i] as int
  {
    DecodeEncode(seq(|s|, i requires 0 <= i < |s| => s[i] as int as byte));
  }
}
