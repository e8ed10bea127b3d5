/** The transit encoding of ciphertexts: standard base64 with padding, as defined
    in section 4 of RFC 4648, encoded and decoded the way Go's
    `base64.StdEncoding` does it (`EncodeToString` and `DecodeString`). */
module Base64 {
  import opened Types

  /** The character for a 6-bit value (RFC 4648, Table 1). */
  function SextetChar(v: int): (c: char)
    requires 0 <= v < 64
  {
    if v < 26 then ('A' as int + v) as char
    else if v < 52 then ('a' as int + (v - 26)) as char
    else if v < 62 then ('0' as int + (v - 52)) as char
    else if v == 62 then '+'
    else '/'
  }

  /** The 6-bit value a character stands for, or None for a character outside the alphabet. */
  function SextetValue(c: char): (r: Option<int>)
    ensures r.Some? ==> 0 <= r.value < 64 && SextetChar(r.value) == c
  {
    if 'A' <= c <= 'Z' then Some(c as int - 'A' as int)
    else if 'a' <= c <= 'z' then Some(c as int - 'a' as int + 26)
    else if '0' <= c <= '9' then Some(c as int - '0' as int + 52)
    else if c == '+' then Some(62)
    else if c == '/' then Some(63)
    else None
  }

  predicate InAlphabet(c: char) {
    SextetValue(c).Some?
  }

  const Pad: char := '='

  /** The four characters that encode the three bytes x, y, z. */
  function EncodeGroup(x: byte, y: byte, z: byte): string {
    [ SextetChar(x as int / 4),
      SextetChar(x as int % 4 * 16 + y as int / 16),
      SextetChar(y as int % 16 * 4 + z as int / 64),
      SextetChar(z as int % 64) ]
  }

  /** Go's `base64.StdEncoding.EncodeToString`: every three bytes become four
      characters, and a final one or two bytes are padded with '=' to four. */
  function Encode(b: seq<byte>): string
    decreases |b|
  {
    if |b| == 0 then ""
    else if |b| == 1 then
      [SextetChar(b[0] as int / 4), SextetChar(b[0] as int % 4 * 16), Pad, Pad]
    else if |b| == 2 then
      [ SextetChar(b[0] as int / 4),
        SextetChar(b[0] as int % 4 * 16 + b[1] as int / 16),
        SextetChar(b[1] as int % 16 * 4),
        Pad ]
    else
      EncodeGroup(b[0], b[1], b[2]) + Encode(b[3..])
  }

  predicate IsLineBreak(c: char) {
    c == '\r' || c == '\n'
  }

  /** Go's decoder skips carriage returns and line feeds wherever they occur. */
  function StripLineBreaks(s: string): (t: string)
    ensures |t| <= |s|
    ensures forall i :: 0 <= i < |t| ==> !IsLineBreak(t[i])
    ensures (forall i :: 0 <= i < |s| ==> !IsLineBreak(s[i])) ==> t == s
  {
    if s == [] then []
    else if IsLineBreak(s[0]) then StripLineBreaks(s[1..])
    else [s[0]] + StripLineBreaks(s[1..])
  }

  /** The bytes of a quantum of four alphabet characters, or None. */
  function DecodeFullQuantum(q: string): (r: Option<seq<byte>>)
    requires |q| == 4
    ensures r.Some? <==> InAlphabet(q[0]) && InAlphabet(q[1]) && InAlphabet(q[2]) && InAlphabet(q[3])
    ensures r.Some? ==> |r.value| == 3
  {
    match (SextetValue(q[0]), SextetValue(q[1]), SextetValue(q[2]), SextetValue(q[3]))
    case (Some(a), Some(b), Some(c), Some(d)) =>
      Some([(a * 4 + b / 16) as byte, (b % 16 * 16 + c / 4) as byte, (c % 4 * 64 + d) as byte])
    case _ => None
  }

  /** The bytes of the last quantum, which may end in "==" (one byte) or "=" (two bytes).
      The bits below the last byte are not checked: Go's default decoder is not strict. */
  function DecodeLastQuantum(q: string): (r: Option<seq<byte>>)
    requires |q| == 4
    ensures r.Some? ==> 1 <= |r.value| <= 3
    ensures r.Some? ==> InAlphabet(q[0]) && InAlphabet(q[1])
  {
    if q[2] == Pad && q[3] == Pad then
      match (SextetValue(q[0]), SextetValue(q[1]))
      case (Some(a), Some(b)) => Some([(a * 4 + b / 16) as byte])
      case _ => None
    else if q[3] == Pad then
      match (SextetValue(q[0]), SextetValue(q[1]), SextetValue(q[2]))
      case (Some(a), Some(b), Some(c)) => Some([(a * 4 + b / 16) as byte, (b % 16 * 16 + c / 4) as byte])
      case _ => None
    else
      DecodeFullQuantum(q)
  }

  /** Decodes a text free of line breaks, quantum by quantum; only the last quantum may carry padding. */
  function DecodeQuanta(t: string): Option<seq<byte>>
    decreases |t|
  {
    if |t| == 0 then Some([])
    else if |t| < 4 then None
    else if |t| == 4 then DecodeLastQuantum(t)
    else
      match DecodeFullQuantum(t[..4])
      case None => None
      case Some(q) =>
        match DecodeQuanta(t[4..])
        case None => None
        case Some(rest) => Some(q + rest)
  }

  /** Go's `base64.StdEncoding.DecodeString`: None where Go returns an error. */
  function Decode(s: string): Option<seq<byte>> {
    DecodeQuanta(StripLineBreaks(s))
  }

  /** An encoding is four characters for every started group of three bytes, all of
      them in the alphabet except for at most two padding characters at the end. */
  lemma {:induction false} EncodeShape(b: seq<byte>)
    ensures |Encode(b)| == 4 * ((|b| + 2) / 3)
    ensures forall i :: 0 <= i < |Encode(b)| ==> InAlphabet(Encode(b)[i]) || Encode(b)[i] == Pad
    ensures forall i :: 0 <= i < |Encode(b)| && Encode(b)[i] == Pad ==> |Encode(b)| - 2 <= i
    decreases |b|
  {
    if |b| < 3 {
      ShortEncodeShape(b);
    } else {
      EncodeShape(b[3..]);
      EncodeLong(b);
      var e, g, tail := Encode(b), EncodeGroup(b[0], b[1], b[2]), Encode(b[3..]);
      assert |e| == 4 + |tail| by {
        assert e == e[..4] + e[4..];
      }
      assert (|b| + 2) / 3 == (|b[3..]| + 2) / 3 + 1;
      GroupInAlphabet(b[0], b[1], b[2]);
      forall i | 0 <= i < |e|
        ensures (InAlphabet(e[i]) || e[i] == Pad) && (e[i] == Pad ==> |e| - 2 <= i)
      {
        if i < 4 {
          assert e[i] == g[i];
        } else {
          assert e[i] == tail[i - 4];
        }
      }
    }
  }

  lemma GroupInAlphabet(x: byte, y: byte, z: byte)
    ensures forall i :: 0 <= i < 4 ==> InAlphabet(EncodeGroup(x, y, z)[i])
  {
    SextetRoundTrip(x as int / 4);
    SextetRoundTrip(x as int % 4 * 16 + y as int / 16);
    SextetRoundTrip(y as int % 16 * 4 + z as int / 64);
    SextetRoundTrip(z as int % 64);
  }

  lemma ShortEncodeShape(b: seq<byte>)
    requires |b| < 3
    ensures |Encode(b)| == 4 * ((|b| + 2) / 3)
    ensures forall i :: 0 <= i < |Encode(b)| ==> InAlphabet(Encode(b)[i]) || Encode(b)[i] == Pad
    ensures forall i :: 0 <= i < |Encode(b)| && Encode(b)[i] == Pad ==> |Encode(b)| - 2 <= i
  {
    if |b| == 1 {
      SextetRoundTrip(b[0] as int / 4);
      SextetRoundTrip(b[0] as int % 4 * 16);
    } else if |b| == 2 {
      SextetRoundTrip(b[0] as int / 4);
      SextetRoundTrip(b[0] as int % 4 * 16 + b[1] as int / 16);
      SextetRoundTrip(b[1] as int % 16 * 4);
    }
  }

  /** A text decodes only if, once line breaks are removed, it is made of whole
      quanta of four characters; each quantum gives three bytes, the last one one to three. */
  lemma {:induction false} DecodeQuantaLength(t: string)
    ensures DecodeQuanta(t).Some? ==> |t| % 4 == 0
    ensures DecodeQuanta(t).Some? ==> |t| / 4 * 3 - 2 <= |DecodeQuanta(t).value| <= |t| / 4 * 3
    decreases |t|
  {
    if 4 < |t| && DecodeQuanta(t).Some? {
      var rest := t[4..];
      DecodeQuantaLength(rest);
      assert |rest| / 4 == |t| / 4 - 1 && |rest| % 4 == |t| % 4;
      var q := DecodeFullQuantum(t[..4]);
      assert DecodeQuanta(t).value == q.value + DecodeQuanta(rest).value;
    }
  }

  /** The sextets of a group reassemble into its bytes (the arithmetic of RFC 4648, section 4). */
  lemma SextetArithmetic(x: int, y: int, z: int)
    requires 0 <= x < 256 && 0 <= y < 256 && 0 <= z < 256
    ensures var b, c := x % 4 * 16 + y / 16, y % 16 * 4 + z / 64;
      && x / 4 * 4 + b / 16 == x
      && b % 16 * 16 + c / 4 == y
      && c % 4 * 64 + z % 64 == z
  {
    var b, c := x % 4 * 16 + y / 16, y % 16 * 4 + z / 64;
    assert b / 16 == x % 4 && b % 16 == y / 16;
    assert c / 4 == y % 16 && c % 4 == z / 64;
  }

  lemma SextetRoundTrip(v: int)
    requires 0 <= v < 64
    ensures SextetValue(SextetChar(v)) == Some(v)
  {
  }

  lemma GroupRoundTrip(x: byte, y: byte, z: byte)
    ensures DecodeFullQuantum(EncodeGroup(x, y, z)) == Some([x, y, z])
  {
    var a, b, c, d := x as int / 4, x as int % 4 * 16 + y as int / 16, y as int % 16 * 4 + z as int / 64, z as int % 64;
    SextetRoundTrip(a);
    SextetRoundTrip(b);
    SextetRoundTrip(c);
    SextetRoundTrip(d);
    SextetArithmetic(x as int, y as int, z as int);
  }

  lemma OneRoundTrip(x: byte)
    ensures DecodeQuanta(Encode([x])) == Some([x])
  {
    SextetRoundTrip(x as int / 4);
    SextetRoundTrip(x as int % 4 * 16);
    SextetArithmetic(x as int, 0, 0);
  }

  lemma TwoRoundTrip(x: byte, y: byte)
    ensures DecodeQuanta(Encode([x, y])) == Some([x, y])
  {
    SextetRoundTrip(x as int / 4);
    SextetRoundTrip(x as int % 4 * 16 + y as int / 16);
    SextetRoundTrip(y as int % 16 * 4);
    SextetArithmetic(x as int, y as int, 0);
  }

  lemma EncodeLong(b: seq<byte>)
    requires 3 <= |b|
    ensures Encode(b)[..4] == EncodeGroup(b[0], b[1], b[2])
    ensures Encode(b)[4..] == Encode(b[3..])
  {
    assert Encode(b) == EncodeGroup(b[0], b[1], b[2]) + Encode(b[3..]);
  }

  lemma DecodeThree(x: byte, y: byte, z: byte)
    ensures DecodeQuanta(Encode([x, y, z])) == Some([x, y, z])
  {
    var e := Encode([x, y, z]);
    EncodeLong([x, y, z]);
    assert [x, y, z][3..] == [];
    assert e == EncodeGroup(x, y, z);
    GroupRoundTrip(x, y, z);
  }

  lemma SplitGroup(b: seq<byte>)
    requires 3 <= |b|
    ensures b == [b[0], b[1], b[2]] + b[3..]
  {
  }

  lemma DecodeQuantaStep(t: string, q: seq<byte>, rest: seq<byte>)
    requires 4 < |t|
    requires DecodeFullQuantum(t[..4]) == Some(q) && DecodeQuanta(t[4..]) == Some(rest)
    ensures DecodeQuanta(t) == Some(q + rest)
  {
  }

  lemma DecodeLong(b: seq<byte>)
    requires 3 < |b|
    requires DecodeQuanta(Encode(b[3..])) == Some(b[3..])
    ensures DecodeQuanta(Encode(b)) == Some(b)
  {
    var e, g := Encode(b), [b[0], b[1], b[2]];
    assert 4 < |e| by {
      EncodeLong(b);
      EncodeShape(b[3..]);
      assert 1 <= (|b[3..]| + 2) / 3;
    }
    assert DecodeFullQuantum(e[..4]) == Some(g) by {
      EncodeLong(b);
      GroupRoundTrip(b[0], b[1], b[2]);
    }
    assert DecodeQuanta(e[4..]) == Some(b[3..]) by {
      EncodeLong(b);
    }
    DecodeQuantaStep(e, g, b[3..]);
    SplitGroup(b);
  }

  lemma {:induction false} DecodeQuantaEncode(b: seq<byte>)
    ensures DecodeQuanta(Encode(b)) == Some(b)
    decreases |b|
  {
    if 3 < |b| {
      DecodeQuantaEncode(b[3..]);
      DecodeLong(b);
    } else if |b| == 3 {
      DecodeThree(b[0], b[1], b[2]);
      assert b == [b[0], b[1], b[2]];
    } else if |b| == 2 {
      TwoRoundTrip(b[0], b[1]);
      assert b == [b[0], b[1]];
    } else if |b| == 1 {
      OneRoundTrip(b[0]);
      assert b == [b[0]];
    }
  }

  /** Decoding the encoding of any byte sequence, the empty one included, gives it back:
      a ciphertext survives its trip through a queue unchanged. */
  lemma {:induction false} RoundTrip(b: seq<byte>)
    ensures Decode(Encode(b)) == Some(b)
  {
    var e := Encode(b);
    EncodeShape(b);
    assert forall i :: 0 <= i < |e| ==> !IsLineBreak(e[i]);
    assert StripLineBreaks(e) == e;
    DecodeQuantaEncode(b);
  }

  lemma {:induction false} DecodeQuantaRejects(t: string, i: int)
    requires 0 <= i < |t| && !InAlphabet(t[i]) && t[i] != Pad
    ensures DecodeQuanta(t) == None
    decreases |t|
  {
    if 4 < |t| && 4 <= i {
      DecodeQuantaRejects(t[4..], i - 4);
    }
  }

  /** A character that is not a line break survives the stripping, at some index `j`. */
  lemma {:induction false} StripLineBreaksKeeps(s: string, i: int) returns (j: int)
    requires 0 <= i < |s| && !IsLineBreak(s[i])
    ensures 0 <= j < |StripLineBreaks(s)| && StripLineBreaks(s)[j] == s[i]
  {
    if i == 0 {
      j := 0;
    } else {
      var k := StripLineBreaksKeeps(s[1..], i - 1);
      j := if IsLineBreak(s[0]) then k else k + 1;
    }
  }

  /** A text holding a character that is neither in the alphabet, nor padding, nor
      a line break does not decode. */
  lemma ForeignCharRejected(s: string, i: int)
    requires 0 <= i < |s| && !InAlphabet(s[i]) && s[i] != Pad && !IsLineBreak(s[i])
    ensures Decode(s) == None
  {
    var j := StripLineBreaksKeeps(s, i);
    DecodeQuantaRejects(StripLineBreaks(s), j);
  }

  lemma {:induction false} StripLineBreaksAppend(a: string, b: string)
    ensures StripLineBreaks(a + b) == StripLineBreaks(a) + StripLineBreaks(b)
    decreases |a|
  {
    if a != [] {
      assert (a + b)[1..] == a[1..] + b;
      StripLineBreaksAppend(a[1..], b);
    } else {
      assert a + b == b;
    }
  }

  /** A line break anywhere in a text leaves its decoding unchanged. */
  lemma LineBreakIgnored(a: string, c: char, b: string)
    requires IsLineBreak(c)
    ensures Decode(a + [c] + b) == Decode(a + b)
  {
    StripLineBreaksAppend(a + [c], b);
    StripLineBreaksAppend(a, [c]);
    StripLineBreaksAppend(a, b);
    assert StripLineBreaks([c]) == [] by {
      assert [c][1..] == [];
    }
    assert StripLineBreaks(a + [c]) == StripLineBreaks(a);
    assert StripLineBreaks(a + [c] + b) == StripLineBreaks(a + b);
  }

  /** The decoder is not strict: bits left over below the last byte need not be zero,
      so a text other than the encoding of its bytes can decode to them. */
  lemma LeftoverBitsIgnored()
    ensures Decode("QR==") == Some([65])
    ensures Encode([65]) == "QQ=="
  {
  }
}
