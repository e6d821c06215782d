/** Standard Base64 (the alphabet `A-Z a-z 0-9 + /` with `=` padding) in its
    strict form: what Base64Field evidently meant to apply to the parameter. */
module Base64 {
  import opened Values

  predicate IsSextet(v: int) { 0 <= v < 64 }

  /** The character that spells a 6-bit group. */
  function SextetChar(v: int): (c: char)
    requires IsSextet(v)
  {
    if v < 26 then ('A' as int + v) as char
    else if v < 52 then ('a' as int + v - 26) as char
    else if v < 62 then ('0' as int + v - 52) as char
    else if v == 62 then '+'
    else '/'
  }

  predicate IsAlphabet(c: char)
  {
    'A' <= c <= 'Z' || 'a' <= c <= 'z' || '0' <= c <= '9' || c == '+' || c == '/'
  }

  /** The 6-bit group a character of the alphabet spells. */
  function SextetOf(c: char): (v: int)
    requires IsAlphabet(c)
    ensures IsSextet(v)
  {
    if 'A' <= c <= 'Z' then c as int - 'A' as int
    else if 'a' <= c <= 'z' then c as int - 'a' as int + 26
    else if '0' <= c <= '9' then c as int - '0' as int + 52
    else if c == '+' then 62
    else 63
  }

  lemma SextetRoundTrip(v: int)
    requires IsSextet(v)
    ensures IsAlphabet(SextetChar(v)) && SextetOf(SextetChar(v)) == v
  {
  }

  /** Three bytes as four characters; fewer bytes leave padding. */
  function EncodeGroup(a: Byte, b: Byte, c: Byte): (q: string)
    ensures |q| == 4
  {
    [SextetChar(a / 4), SextetChar((a % 4) * 16 + b / 16),
     SextetChar((b % 16) * 4 + c / 64), SextetChar(c % 64)]
  }

  function Encode(bytes: seq<Byte>): (s: string)
    ensures |s| % 4 == 0
  {
    if |bytes| == 0 then ""
    else if |bytes| == 1 then EncodeGroup(bytes[0], 0, 0)[..2] + "=="
    else if |bytes| == 2 then EncodeGroup(bytes[0], bytes[1], 0)[..3] + "="
    else EncodeGroup(bytes[0], bytes[1], bytes[2]) + Encode(bytes[3..])
  }

  /** The bytes four sextets spell. */
  function DecodeGroup(c0: int, c1: int, c2: int, c3: int): (g: seq<Byte>)
    requires IsSextet(c0) && IsSextet(c1) && IsSextet(c2) && IsSextet(c3)
    ensures |g| == 3
  {
    [c0 * 4 + c1 / 16, (c1 % 16) * 16 + c2 / 4, (c2 % 4) * 64 + c3]
  }

  /** The bytes a padded or unpadded final group spells; None when it is
      malformed. */
  function DecodeLast(q: string): (r: Option<seq<Byte>>)
    requires |q| == 4
    ensures r.Some? ==> 1 <= |r.value| <= 3
  {
    if !IsAlphabet(q[0]) || !IsAlphabet(q[1]) then None
    else if q[2] == '=' && q[3] == '=' then
      Some(DecodeGroup(SextetOf(q[0]), SextetOf(q[1]), 0, 0)[..1])
    else if IsAlphabet(q[2]) && q[3] == '=' then
      Some(DecodeGroup(SextetOf(q[0]), SextetOf(q[1]), SextetOf(q[2]), 0)[..2])
    else if IsAlphabet(q[2]) && IsAlphabet(q[3]) then
      Some(DecodeGroup(SextetOf(q[0]), SextetOf(q[1]), SextetOf(q[2]), SextetOf(q[3])))
    else None
  }

  /** Strict decoding: whole groups of four, padding only at the end. */
  function Decode(s: string): Option<seq<Byte>>
    decreases |s|
  {
    if |s| == 0 then Some([])
    else if |s| < 4 then None
    else if |s| == 4 then DecodeLast(s)
    else if IsAlphabet(s[0]) && IsAlphabet(s[1]) && IsAlphabet(s[2]) && IsAlphabet(s[3]) then
      match Decode(s[4..])
      case None => None
      case Some(rest) => Some(DecodeGroup(SextetOf(s[0]), SextetOf(s[1]), SextetOf(s[2]), SextetOf(s[3])) + rest)
    else None
  }

  /** An encoding spends four characters on every started group of three
      bytes. */
  lemma {:induction false} EncodeLength(bytes: seq<Byte>)
    ensures 4 * |bytes| <= 3 * |Encode(bytes)| < 4 * |bytes| + 12
    decreases |bytes|
  {
    if |bytes| >= 3 {
      EncodeLength(bytes[3..]);
    }
  }

  /** Text that decodes is made of whole groups of four characters, each
      spelling three bytes, less at most two bytes of padding. */
  lemma {:induction false} DecodeLength(s: string)
    ensures Decode(s).Some? ==> |s| % 4 == 0 && 4 * |Decode(s).value| <= 3 * |s| <= 4 * |Decode(s).value| + 8
    decreases |s|
  {
    if |s| > 4 && Decode(s).Some? {
      DecodeLength(s[4..]);
    }
  }

  /** The four sextets of three bytes put the bytes back together. */
  lemma SextetArithmetic(a: Byte, b: Byte, c: Byte)
    ensures var c0, c1, c2, c3 := a / 4, (a % 4) * 16 + b / 16, (b % 16) * 4 + c / 64, c % 64;
      IsSextet(c0) && IsSextet(c1) && IsSextet(c2) && IsSextet(c3) &&
      c0 * 4 + c1 / 16 == a && (c1 % 16) * 16 + c2 / 4 == b && (c2 % 4) * 64 + c3 == c
  {
    var c1, c2 := (a % 4) * 16 + b / 16, (b % 16) * 4 + c / 64;
    assert c1 / 16 == a % 4 && c1 % 16 == b / 16;
    assert c2 / 4 == b % 16 && c2 % 4 == c / 64;
  }

  lemma GroupRoundTrip(a: Byte, b: Byte, c: Byte)
    ensures var q := EncodeGroup(a, b, c);
      IsAlphabet(q[0]) && IsAlphabet(q[1]) && IsAlphabet(q[2]) && IsAlphabet(q[3]) &&
      DecodeGroup(SextetOf(q[0]), SextetOf(q[1]), SextetOf(q[2]), SextetOf(q[3])) == [a, b, c]
  {
    var c0, c1, c2, c3 := a / 4, (a % 4) * 16 + b / 16, (b % 16) * 4 + c / 64, c % 64;
    SextetArithmetic(a, b, c);
    SextetRoundTrip(c0);
    SextetRoundTrip(c1);
    SextetRoundTrip(c2);
    SextetRoundTrip(c3);
  }

  /** A full group in front of well-formed text decodes to the group's bytes
      followed by the rest's. */
  lemma DecodeCons(q: string, e: string)
    requires |q| == 4 && IsAlphabet(q[0]) && IsAlphabet(q[1]) && IsAlphabet(q[2]) && IsAlphabet(q[3])
    requires Decode(e).Some? && (e == [] || |e| >= 4)
    ensures Decode(q + e) ==
      Some(DecodeGroup(SextetOf(q[0]), SextetOf(q[1]), SextetOf(q[2]), SextetOf(q[3])) + Decode(e).value)
  {
    var s := q + e;
    var g := DecodeGroup(SextetOf(q[0]), SextetOf(q[1]), SextetOf(q[2]), SextetOf(q[3]));
    if e == [] {
      assert s == q && g + [] == g;
      assert q[2] != '=' && q[3] != '=';
      assert DecodeLast(q) == Some(g);
    } else {
      assert s[..4] == q;
      assert s[4..] == e;
    }
  }

  /** A single byte encodes to two characters and `==`, and back. */
  lemma DecodeEncodeOne(a: Byte)
    ensures Decode(Encode([a])) == Some([a])
  {
    var q := EncodeGroup(a, 0, 0);
    GroupRoundTrip(a, 0, 0);
    var x, y := SextetOf(q[0]), SextetOf(q[1]);
    assert DecodeGroup(x, y, SextetOf(q[2]), SextetOf(q[3]))[0] == a;
    assert DecodeGroup(x, y, 0, 0)[..1] == [a];
    var s := Encode([a]);
    assert s == q[..2] + "==";
    assert s[0] == q[0] && s[1] == q[1] && s[2] == '=' && s[3] == '=';
    assert DecodeLast(s) == Some([a]);
  }

  /** Two bytes encode to three characters and `=`, and back. */
  lemma DecodeEncodeTwo(a: Byte, b: Byte)
    ensures Decode(Encode([a, b])) == Some([a, b])
  {
    var q := EncodeGroup(a, b, 0);
    GroupRoundTrip(a, b, 0);
    var x, y, z := SextetOf(q[0]), SextetOf(q[1]), SextetOf(q[2]);
    assert DecodeGroup(x, y, z, SextetOf(q[3]))[..2] == [a, b];
    assert DecodeGroup(x, y, z, 0)[..2] == [a, b];
    var s := Encode([a, b]);
    assert s == q[..3] + "=";
    assert s[0] == q[0] && s[1] == q[1] && s[2] == q[2] && s[3] == '=';
    assert DecodeLast(s) == Some([a, b]);
  }

  /** A group's encoding in front of well-formed text decodes to the group
      followed by what the text decodes to. */
  lemma ConsRoundTrip(a: Byte, b: Byte, c: Byte, rest: seq<Byte>, e: string)
    requires Decode(e) == Some(rest) && (e == [] || |e| >= 4)
    ensures Decode(EncodeGroup(a, b, c) + e) == Some([a, b, c] + rest)
  {
    GroupRoundTrip(a, b, c);
    DecodeCons(EncodeGroup(a, b, c), e);
  }

  /** One full group in front of an encoding that round-trips keeps the
      round trip. */
  lemma DecodeEncodeGroup(bytes: seq<Byte>)
    requires |bytes| >= 3 && Decode(Encode(bytes[3..])) == Some(bytes[3..])
    ensures Decode(Encode(bytes)) == Some(bytes)
  {
    var e := Encode(bytes[3..]);
    var s := Encode(bytes);
    assert s == EncodeGroup(bytes[0], bytes[1], bytes[2]) + e;
    ConsRoundTrip(bytes[0], bytes[1], bytes[2], bytes[3..], e);
    SplitGroup(bytes);
  }

  lemma SplitGroup(bytes: seq<Byte>)
    requires |bytes| >= 3
    ensures [bytes[0], bytes[1], bytes[2]] + bytes[3..] == bytes
  {
  }

  /** Every byte string's encoding decodes back to it. */
  lemma {:induction false} DecodeEncode(bytes: seq<Byte>)
    ensures Decode(Encode(bytes)) == Some(bytes)
    decreases |bytes|
  {
    if |bytes| == 0 {
    } else if |bytes| == 1 {
      DecodeEncodeOne(bytes[0]);
      assert bytes == [bytes[0]];
    } else if |bytes| == 2 {
      DecodeEncodeTwo(bytes[0], bytes[1]);
      assert bytes == [bytes[0], bytes[1]];
    } else {
      DecodeEncode(bytes[3..]);
      DecodeEncodeGroup(bytes);
    }
  }

  lemma Example()
    ensures Encode([104, 105]) == "aGk="
    ensures Decode("aGk=") == Some([104, 105])
  {
    DecodeEncode([104, 105]);
  }
}
