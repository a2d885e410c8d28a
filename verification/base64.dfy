/** Base64 with padding, section 4 of RFC 4648: every three octets become four characters
    of the 64-character alphabet, and a final group of one or two octets is completed
    with `=`. The decoder is the strict one of section 3.5 (canonical encodings only), so
    the encoder and decoder are mutually inverse. */
module Base64 {
  import opened Outcome
  import opened Octets

  /** Membership in the alphabet of Table 1 of RFC 4648. */
  predicate IsAlphabetChar(c: char) {
    ('A' <= c <= 'Z') || ('a' <= c <= 'z') || ('0' <= c <= '9') || c == '+' || c == '/'
  }

  /** The character that encodes the six-bit value `i` (Table 1 of RFC 4648). */
  function EncodeSextet(i: nat): (c: char)
    requires i < 64
    ensures IsAlphabetChar(c)
  {
    if i < 26 then ('A' as int + i) as char
    else if i < 52 then ('a' as int + (i - 26)) as char
    else if i < 62 then ('0' as int + (i - 52)) as char
    else if i == 62 then '+'
    else '/'
  }

  /** The six-bit value an alphabet character stands for; None for any other character. */
  function DecodeChar(c: char): (r: Option<nat>)
    ensures r.Some? <==> IsAlphabetChar(c)
    ensures r.Some? ==> r.value < 64 && EncodeSextet(r.value) == c
  {
    if 'A' <= c <= 'Z' then Some(c as int - 'A' as int)
    else if 'a' <= c <= 'z' then Some(c as int - 'a' as int + 26)
    else if '0' <= c <= '9' then Some(c as int - '0' as int + 52)
    else if c == '+' then Some(62)
    else if c == '/' then Some(63)
    else None
  }

  lemma DecodeEncodeSextet(i: nat)
    requires i < 64
    ensures DecodeChar(EncodeSextet(i)) == Some(i)
  {
  }

  /** Number of `=` characters that complete the last group of an n-octet input. */
  function PadLength(n: nat): nat {
    (3 - n % 3) % 3
  }

  function EncodeGroup(b0: byte, b1: byte, b2: byte): string {
    [EncodeSextet(b0 / 4), EncodeSextet((b0 % 4) * 16 + b1 / 16),
     EncodeSextet((b1 % 16) * 4 + b2 / 64), EncodeSextet(b2 % 64)]
  }

  function EncodeOne(b0: byte): string {
    [EncodeSextet(b0 / 4), EncodeSextet((b0 % 4) * 16), '=', '=']
  }

  function EncodeTwo(b0: byte, b1: byte): string {
    [EncodeSextet(b0 / 4), EncodeSextet((b0 % 4) * 16 + b1 / 16), EncodeSextet((b1 % 16) * 4), '=']
  }

  /** The padded encoding of `b`. */
  function Encode(b: Bytes): (s: string)
    decreases |b|
  {
    if |b| == 0 then ""
    else if |b| == 1 then EncodeOne(b[0])
    else if |b| == 2 then EncodeTwo(b[0], b[1])
    else EncodeGroup(b[0], b[1], b[2]) + Encode(b[3..])
  }

  /** Every started group of three octets becomes four characters. */
  lemma {:induction false} EncodeLength(b: Bytes)
    ensures |Encode(b)| == 4 * ((|b| + 2) / 3)
    decreases |b|
  {
    if |b| > 3 {
      EncodeLength(b[3..]);
      GroupCount(|b|);
    }
  }

  lemma GroupCount(n: nat)
    requires n > 3
    ensures 4 * ((n + 2) / 3) == 4 + 4 * ((n - 3 + 2) / 3)
  {
  }

  /** s is alphabet characters followed by exactly p padding characters. */
  predicate PaddedAlphabet(s: string, p: nat) {
    && |s| >= p
    && (forall i :: 0 <= i < |s| - p ==> IsAlphabetChar(s[i]))
    && (forall i :: |s| - p <= i < |s| ==> s[i] == '=')
  }

  /** A full group in front of a padded text keeps it padded with the same padding. */
  lemma PaddedAlphabetPrepend(g: string, rest: string, p: nat)
    requires |g| == 4 && forall i :: 0 <= i < 4 ==> IsAlphabetChar(g[i])
    requires PaddedAlphabet(rest, p)
    ensures PaddedAlphabet(g + rest, p)
  {
    var s := g + rest;
    forall i | 0 <= i < |s| - p
      ensures IsAlphabetChar(s[i])
    {
      if i >= 4 {
        assert s[i] == rest[i - 4];
      }
    }
    forall i | |s| - p <= i < |s|
      ensures s[i] == '='
    {
      assert s[i] == rest[i - 4];
    }
  }

  lemma GroupAlphabet(b0: byte, b1: byte, b2: byte)
    ensures PaddedAlphabet(EncodeGroup(b0, b1, b2), 0)
  {
    var g := EncodeGroup(b0, b1, b2);
    assert IsAlphabetChar(g[0]) && IsAlphabetChar(g[1]) && IsAlphabetChar(g[2]) && IsAlphabetChar(g[3]);
  }

  lemma OneAlphabet(b0: byte)
    ensures PaddedAlphabet(EncodeOne(b0), 2)
  {
    var s := EncodeOne(b0);
    assert IsAlphabetChar(s[0]) && IsAlphabetChar(s[1]);
  }

  lemma TwoAlphabet(b0: byte, b1: byte)
    ensures PaddedAlphabet(EncodeTwo(b0, b1), 1)
  {
    var s := EncodeTwo(b0, b1);
    assert IsAlphabetChar(s[0]) && IsAlphabetChar(s[1]) && IsAlphabetChar(s[2]);
  }

  /** Inputs of at most three octets are encoded as one group. */
  lemma EncodeShort(b: Bytes)
    requires 1 <= |b| <= 3
    ensures |b| == 1 ==> Encode(b) == EncodeOne(b[0])
    ensures |b| == 2 ==> Encode(b) == EncodeTwo(b[0], b[1])
    ensures |b| == 3 ==> Encode(b) == EncodeGroup(b[0], b[1], b[2])
  {
    if |b| == 3 {
      assert Encode(b[3..]) == "";
    }
  }

  lemma EncodeAlphabetShort(b: Bytes)
    requires 1 <= |b| <= 3
    ensures PaddedAlphabet(Encode(b), PadLength(|b|))
  {
    EncodeShort(b);
    if |b| == 1 {
      OneAlphabet(b[0]);
    } else if |b| == 2 {
      TwoAlphabet(b[0], b[1]);
    } else {
      GroupAlphabet(b[0], b[1], b[2]);
    }
  }

  lemma PadLengthStep(n: nat)
    requires n >= 3
    ensures PadLength(n - 3) == PadLength(n)
  {
  }

  /** The encoding uses only alphabet characters, followed by exactly PadLength(|b|)
      padding characters. */
  lemma {:induction false} EncodeAlphabet(b: Bytes)
    ensures PaddedAlphabet(Encode(b), PadLength(|b|))
    decreases |b|
  {
    if |b| > 3 {
      EncodeAlphabet(b[3..]);
      EncodeLonger(b);
      PadLengthStep(|b|);
      GroupAlphabet(b[0], b[1], b[2]);
      PaddedAlphabetPrepend(EncodeGroup(b[0], b[1], b[2]), Encode(b[3..]), PadLength(|b|));
    } else if |b| > 0 {
      EncodeAlphabetShort(b);
    }
  }

  /** Four alphabet characters back to three octets. */
  function DecodeGroup(c0: char, c1: char, c2: char, c3: char): (r: Option<Bytes>)
    ensures r.Some? ==> |r.value| == 3
  {
    var i0 :- DecodeChar(c0);
    var i1 :- DecodeChar(c1);
    var i2 :- DecodeChar(c2);
    var i3 :- DecodeChar(c3);
    Some([i0 * 4 + i1 / 16, (i1 % 16) * 16 + i2 / 4, (i2 % 4) * 64 + i3])
  }

  /** The last group, which may end in one or two `=`; the bits the padding discards
      must be zero. */
  function DecodeLast(c0: char, c1: char, c2: char, c3: char): (r: Option<Bytes>)
    ensures r.Some? ==> 1 <= |r.value| <= 3
  {
    if c2 == '=' && c3 == '=' then
      var i0 :- DecodeChar(c0);
      var i1 :- DecodeChar(c1);
      if i1 % 16 != 0 then None else Some([i0 * 4 + i1 / 16])
    else if c3 == '=' then
      var i0 :- DecodeChar(c0);
      var i1 :- DecodeChar(c1);
      var i2 :- DecodeChar(c2);
      if i2 % 4 != 0 then None else Some([i0 * 4 + i1 / 16, (i1 % 16) * 16 + i2 / 4])
    else
      DecodeGroup(c0, c1, c2, c3)
  }

  /** Strict decoding: None unless `s` is a canonical padded encoding. */
  function Decode(s: string): (r: Option<Bytes>)
    decreases |s|
  {
    if |s| == 0 then Some([])
    else if |s| < 4 then None
    else if |s| == 4 then DecodeLast(s[0], s[1], s[2], s[3])
    else
      var group :- DecodeGroup(s[0], s[1], s[2], s[3]);
      var rest :- Decode(s[4..]);
      Some(group + rest)
  }

  /** (q * k + r) split back into quotient and remainder, for the three divisors used here. */
  lemma SplitAt(q: nat, r: nat, k: nat)
    requires k == 4 || k == 16 || k == 64
    requires r < k
    ensures (q * k + r) / k == q && (q * k + r) % k == r
  {
  }

  /** Splitting three octets into four sextets and packing them again gives the octets. */
  lemma RegroupBytes(b0: byte, b1: byte, b2: byte)
    ensures var i1 := (b0 % 4) * 16 + b1 / 16;
            var i2 := (b1 % 16) * 4 + b2 / 64;
            && i1 < 64 && i2 < 64
            && (b0 / 4) * 4 + i1 / 16 == b0
            && (i1 % 16) * 16 + i2 / 4 == b1
            && (i2 % 4) * 64 + b2 % 64 == b2
  {
    SplitAt(b0 % 4, b1 / 16, 16);
    SplitAt(b1 % 16, b2 / 64, 4);
  }

  /** DecodeGroup on four characters whose sextet values are known. */
  lemma DecodeGroupOf(c0: char, c1: char, c2: char, c3: char, i0: nat, i1: nat, i2: nat, i3: nat)
    requires DecodeChar(c0) == Some(i0) && DecodeChar(c1) == Some(i1)
    requires DecodeChar(c2) == Some(i2) && DecodeChar(c3) == Some(i3)
    ensures DecodeGroup(c0, c1, c2, c3) == Some([i0 * 4 + i1 / 16, (i1 % 16) * 16 + i2 / 4, (i2 % 4) * 64 + i3])
  {
  }

  lemma GroupRoundTrip(b0: byte, b1: byte, b2: byte)
    ensures var s := EncodeGroup(b0, b1, b2);
            DecodeGroup(s[0], s[1], s[2], s[3]) == Some([b0, b1, b2])
  {
    var i1 := (b0 % 4) * 16 + b1 / 16;
    var i2 := (b1 % 16) * 4 + b2 / 64;
    RegroupBytes(b0, b1, b2);
    DecodeEncodeSextet(b0 / 4);
    DecodeEncodeSextet(i1);
    DecodeEncodeSextet(i2);
    DecodeEncodeSextet(b2 % 64);
    DecodeGroupOf(EncodeSextet(b0 / 4), EncodeSextet(i1), EncodeSextet(i2), EncodeSextet(b2 % 64), b0 / 4, i1, i2, b2 % 64);
  }

  lemma OneRoundTrip(b0: byte)
    ensures var s := EncodeOne(b0); DecodeLast(s[0], s[1], s[2], s[3]) == Some([b0])
  {
    DecodeEncodeSextet(b0 / 4);
    DecodeEncodeSextet((b0 % 4) * 16);
    SplitAt(b0 % 4, 0, 16);
  }

  lemma TwoRoundTrip(b0: byte, b1: byte)
    ensures var s := EncodeTwo(b0, b1); DecodeLast(s[0], s[1], s[2], s[3]) == Some([b0, b1])
  {
    var i1 := (b0 % 4) * 16 + b1 / 16;
    DecodeEncodeSextet(b0 / 4);
    DecodeEncodeSextet(i1);
    DecodeEncodeSextet((b1 % 16) * 4);
    SplitAt(b0 % 4, b1 / 16, 16);
    SplitAt(b1 % 16, 0, 4);
  }

  /** Regrouping four sextets as three octets and back gives the four sextets. */
  lemma RegroupSextets(i0: nat, i1: nat, i2: nat, i3: nat, b0: int, b1: int, b2: int)
    requires i0 < 64 && i1 < 64 && i2 < 64 && i3 < 64
    requires b0 == i0 * 4 + i1 / 16 && b1 == (i1 % 16) * 16 + i2 / 4 && b2 == (i2 % 4) * 64 + i3
    ensures 0 <= b0 < 256 && 0 <= b1 < 256 && 0 <= b2 < 256
    ensures b0 / 4 == i0 && (b0 % 4) * 16 + b1 / 16 == i1
    ensures (b1 % 16) * 4 + b2 / 64 == i2 && b2 % 64 == i3
  {
    SplitAt(i0, i1 / 16, 4);
    SplitAt(i1 % 16, i2 / 4, 16);
    SplitAt(i2 % 4, i3, 64);
    SplitAt(i1 / 16, i1 % 16, 16);
    SplitAt(i2 / 4, i2 % 4, 4);
  }

  lemma GroupOfDecoded(c0: char, c1: char, c2: char, c3: char)
    requires DecodeGroup(c0, c1, c2, c3).Some?
    ensures var b := DecodeGroup(c0, c1, c2, c3).value;
            EncodeGroup(b[0], b[1], b[2]) == [c0, c1, c2, c3]
  {
    var i0 := DecodeChar(c0).value;
    var i1 := DecodeChar(c1).value;
    var i2 := DecodeChar(c2).value;
    var i3 := DecodeChar(c3).value;
    DecodeGroupOf(c0, c1, c2, c3, i0, i1, i2, i3);
    var b := DecodeGroup(c0, c1, c2, c3).value;
    EncodeRegrouped(i0, i1, i2, i3, b[0], b[1], b[2]);
  }

  lemma EncodeRegrouped(i0: nat, i1: nat, i2: nat, i3: nat, b0: byte, b1: byte, b2: byte)
    requires i0 < 64 && i1 < 64 && i2 < 64 && i3 < 64
    requires b0 == i0 * 4 + i1 / 16 && b1 == (i1 % 16) * 16 + i2 / 4 && b2 == (i2 % 4) * 64 + i3
    ensures EncodeGroup(b0, b1, b2) == [EncodeSextet(i0), EncodeSextet(i1), EncodeSextet(i2), EncodeSextet(i3)]
  {
    RegroupSextets(i0, i1, i2, i3, b0, b1, b2);
    var g := EncodeGroup(b0, b1, b2);
    assert g[0] == EncodeSextet(i0) && g[1] == EncodeSextet(i1) && g[2] == EncodeSextet(i2) && g[3] == EncodeSextet(i3);
  }

  lemma OneOfDecoded(c0: char, c1: char)
    requires DecodeLast(c0, c1, '=', '=').Some?
    ensures var b := DecodeLast(c0, c1, '=', '=').value;
            |b| == 1 && EncodeOne(b[0]) == [c0, c1, '=', '=']
  {
    var i0 := DecodeChar(c0).value;
    var i1 := DecodeChar(c1).value;
    var b := DecodeLast(c0, c1, '=', '=').value;
    assert b == [i0 * 4 + i1 / 16];
    SplitAt(i0, i1 / 16, 4);
    SplitAt(i1 / 16, i1 % 16, 16);
    assert b[0] / 4 == i0;
    assert (b[0] % 4) * 16 == i1;
  }

  lemma TwoOfDecoded(c0: char, c1: char, c2: char)
    requires c2 != '='
    requires DecodeLast(c0, c1, c2, '=').Some?
    ensures var b := DecodeLast(c0, c1, c2, '=').value;
            |b| == 2 && EncodeTwo(b[0], b[1]) == [c0, c1, c2, '=']
  {
    var i0 := DecodeChar(c0).value;
    var i1 := DecodeChar(c1).value;
    var i2 := DecodeChar(c2).value;
    var b := DecodeLast(c0, c1, c2, '=').value;
    assert b == [i0 * 4 + i1 / 16, (i1 % 16) * 16 + i2 / 4];
    SplitAt(i0, i1 / 16, 4);
    SplitAt(i1 % 16, i2 / 4, 16);
    SplitAt(i1 / 16, i1 % 16, 16);
    SplitAt(i2 / 4, i2 % 4, 4);
    assert b[0] / 4 == i0;
    assert (b[0] % 4) * 16 + b[1] / 16 == i1;
    assert (b[1] % 16) * 4 == i2;
  }

  lemma LastOfDecoded(c0: char, c1: char, c2: char, c3: char)
    requires DecodeLast(c0, c1, c2, c3).Some?
    ensures Encode(DecodeLast(c0, c1, c2, c3).value) == [c0, c1, c2, c3]
  {
    var b := DecodeLast(c0, c1, c2, c3).value;
    if c2 == '=' && c3 == '=' {
      OneOfDecoded(c0, c1);
    } else if c3 == '=' {
      TwoOfDecoded(c0, c1, c2);
    } else {
      GroupOfDecoded(c0, c1, c2, c3);
      assert b[3..] == [];
    }
  }

  lemma EncodeLonger(b: Bytes)
    requires |b| > 3
    ensures Encode(b) == EncodeGroup(b[0], b[1], b[2]) + Encode(b[3..])
    ensures |Encode(b[3..])| >= 4
  {
  }

  lemma DecodeLonger(g: string, rest: string, x: Bytes, y: Bytes)
    requires |g| == 4 && |rest| > 0
    requires DecodeGroup(g[0], g[1], g[2], g[3]) == Some(x)
    requires Decode(rest) == Some(y)
    ensures Decode(g + rest) == Some(x + y)
  {
    var s := g + rest;
    assert s[4..] == rest;
    assert s[0] == g[0] && s[1] == g[1] && s[2] == g[2] && s[3] == g[3];
  }

  lemma DecodeFour(s: string)
    requires |s| == 4
    ensures Decode(s) == DecodeLast(s[0], s[1], s[2], s[3])
  {
  }

  lemma DecodeEncodeOne(b: Bytes)
    requires |b| == 1
    ensures Decode(Encode(b)) == Some(b)
  {
    var s := Encode(b);
    EncodeShort(b);
    DecodeFour(s);
    OneRoundTrip(b[0]);
    ShortElements(b);
  }

  lemma DecodeEncodeTwo(b: Bytes)
    requires |b| == 2
    ensures Decode(Encode(b)) == Some(b)
  {
    var s := Encode(b);
    EncodeShort(b);
    DecodeFour(s);
    TwoRoundTrip(b[0], b[1]);
    ShortElements(b);
  }

  lemma ShortElements(b: Bytes)
    ensures |b| == 1 ==> b == [b[0]]
    ensures |b| == 2 ==> b == [b[0], b[1]]
  {
  }

  lemma ThreeElements(b: Bytes)
    requires |b| == 3
    ensures b == [b[0], b[1], b[2]]
  {
  }

  /** A full group read as the last group: no padding, so it decodes as a full group. */
  lemma LastOfGroup(b0: byte, b1: byte, b2: byte)
    ensures var s := EncodeGroup(b0, b1, b2);
            DecodeLast(s[0], s[1], s[2], s[3]) == Some([b0, b1, b2])
  {
    var s := EncodeGroup(b0, b1, b2);
    assert s[3] != '=' by {
      assert IsAlphabetChar(s[3]);
    }
    GroupRoundTrip(b0, b1, b2);
  }

  lemma DecodeEncodeThree(b: Bytes)
    requires |b| == 3
    ensures Decode(Encode(b)) == Some(b)
  {
    EncodeShort(b);
    DecodeFour(Encode(b));
    LastOfGroup(b[0], b[1], b[2]);
    ThreeElements(b);
  }

  lemma SplitThree(b: Bytes)
    requires |b| >= 3
    ensures b == [b[0], b[1], b[2]] + b[3..]
  {
  }

  lemma DecodeEncodeStep(b: Bytes)
    requires |b| > 3
    requires Decode(Encode(b[3..])) == Some(b[3..])
    ensures Decode(Encode(b)) == Some(b)
  {
    var g := EncodeGroup(b[0], b[1], b[2]);
    var rest := Encode(b[3..]);
    var x: Bytes := [b[0], b[1], b[2]];
    assert Encode(b) == g + rest && |rest| > 0 by {
      EncodeLonger(b);
    }
    assert Decode(g + rest) == Some(x + b[3..]) by {
      GroupRoundTrip(b[0], b[1], b[2]);
      DecodeLonger(g, rest, x, b[3..]);
    }
    SplitThree(b);
  }

  /** Decoding an encoding gives back exactly the original octets. */
  lemma {:induction false} DecodeEncode(b: Bytes)
    ensures Decode(Encode(b)) == Some(b)
    decreases |b|
  {
    if |b| == 1 {
      DecodeEncodeOne(b);
    } else if |b| == 2 {
      DecodeEncodeTwo(b);
    } else if |b| == 3 {
      DecodeEncodeThree(b);
    } else if |b| > 3 {
      DecodeEncode(b[3..]);
      DecodeEncodeStep(b);
    }
  }

  lemma SplitFour(s: string)
    requires |s| >= 4
    ensures s == [s[0], s[1], s[2], s[3]] + s[4..]
  {
  }

  lemma DecodeLongerParts(s: string)
    requires |s| > 4
    requires Decode(s).Some?
    ensures DecodeGroup(s[0], s[1], s[2], s[3]).Some? && Decode(s[4..]).Some?
    ensures Decode(s).value == DecodeGroup(s[0], s[1], s[2], s[3]).value + Decode(s[4..]).value
    ensures |Decode(s[4..]).value| > 0
  {
  }

  lemma EncodeDecodeStep(s: string)
    requires |s| > 4
    requires Decode(s).Some? && Decode(s[4..]).Some?
    requires Encode(Decode(s[4..]).value) == s[4..]
    ensures Encode(Decode(s).value) == s
  {
    var g := DecodeGroup(s[0], s[1], s[2], s[3]).value;
    var rest := Decode(s[4..]).value;
    var b := Decode(s).value;
    assert b == g + rest && |rest| > 0 by {
      DecodeLongerParts(s);
    }
    assert b[..3] == g && b[3..] == rest;
    assert Encode(b) == EncodeGroup(b[0], b[1], b[2]) + s[4..] by {
      EncodeLonger(b);
    }
    assert EncodeGroup(b[0], b[1], b[2]) == [s[0], s[1], s[2], s[3]] by {
      GroupOfDecoded(s[0], s[1], s[2], s[3]);
    }
    SplitFour(s);
  }

  /** Whatever the strict decoder accepts is the encoding of what it returns: the
      decoder accepts canonical encodings only. */
  lemma {:induction false} EncodeDecode(s: string)
    requires Decode(s).Some?
    ensures Encode(Decode(s).value) == s
    decreases |s|
  {
    if |s| == 4 {
      DecodeFour(s);
      LastOfDecoded(s[0], s[1], s[2], s[3]);
    } else if |s| > 4 {
      DecodeLongerParts(s);
      EncodeDecode(s[4..]);
      EncodeDecodeStep(s);
    }
  }
}
