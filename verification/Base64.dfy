/** Base64 as in section 4 of RFC 4648, by the hand-written loops of the append-only file. */
module Base64 {
  import opened Bytes

  const PAD: byte := 61

  type sextet = x: int | 0 <= x < 64

  /** The alphabet: `A-Z`, `a-z`, `0-9`, `+`, `/`, as bytes. */
  function Char(v: sextet): byte {
    if v < 26 then 65 + v
    else if v < 52 then 97 + (v - 26)
    else if v < 62 then 48 + (v - 52)
    else if v == 62 then 43
    else 47
  }

  /** Anything outside the alphabet, the padding included, counts as zero. */
  function DecodeChar(c: byte): sextet {
    if 65 <= c <= 90 then c - 65
    else if 97 <= c <= 122 then c - 97 + 26
    else if 48 <= c <= 57 then c - 48 + 52
    else if c == 43 then 62
    else if c == 47 then 63
    else 0
  }

  /** Three bytes as one 24-bit number; the shifted fields do not overlap, so `|` is `+`. */
  function Join(a: byte, b: byte, c: byte): nat {
    a * 0x1_0000 + b * 0x100 + c
  }

  /** The `k`-th 6-bit digit from the left of a 24-bit number. */
  function Digit(n: nat, k: nat): sextet
    requires k < 4
  {
    (if k == 0 then n / 0x4_0000 else if k == 1 then n / 0x1000 else if k == 2 then n / 0x40 else n) % 64
  }

  function Encode(s: bytes): bytes {
    if |s| == 0 then []
    else if |s| == 1 then
      var n := Join(s[0], 0, 0);
      [Char(Digit(n, 0)), Char(Digit(n, 1)), PAD, PAD]
    else if |s| == 2 then
      var n := Join(s[0], s[1], 0);
      [Char(Digit(n, 0)), Char(Digit(n, 1)), Char(Digit(n, 2)), PAD]
    else
      var n := Join(s[0], s[1], s[2]);
      [Char(Digit(n, 0)), Char(Digit(n, 1)), Char(Digit(n, 2)), Char(Digit(n, 3))] + Encode(s[3..])
  }

  /** One group of four characters gives one, two or three bytes. */
  function DecodeGroup(a: byte, b: byte, c: byte, d: byte): bytes {
    var n := DecodeChar(a) * 0x4_0000 + DecodeChar(b) * 0x1000 + DecodeChar(c) * 0x40 + DecodeChar(d);
    [(n / 0x1_0000) % 0x100] + (if c != PAD then [(n / 0x100) % 0x100] else []) + (if d != PAD then [n % 0x100] else [])
  }

  /** Characters left over after the last whole group are dropped. */
  function Decode(s: bytes): bytes {
    if |s| < 4 then [] else DecodeGroup(s[0], s[1], s[2], s[3]) + Decode(s[4..])
  }

  // ---- the loops ----

  lemma EncodePrefix(s: bytes, i: nat)
    requires i + 3 <= |s|
    ensures var n := Join(s[i], s[i + 1], s[i + 2]);
            Encode(s[i..]) == [Char(Digit(n, 0)), Char(Digit(n, 1)), Char(Digit(n, 2)), Char(Digit(n, 3))] + Encode(s[i + 3..])
  {
    hide Join, Digit, Char;
    assert s[i..][3..] == s[i + 3..];
  }

  lemma EncodeRest(s: bytes)
    ensures |s| == 0 ==> Encode(s) == []
    ensures |s| == 1 ==> var n := Join(s[0], 0, 0); Encode(s) == [Char(Digit(n, 0)), Char(Digit(n, 1)), PAD, PAD]
    ensures |s| == 2 ==> var n := Join(s[0], s[1], 0);
              Encode(s) == [Char(Digit(n, 0)), Char(Digit(n, 1)), Char(Digit(n, 2)), PAD]
  {
    hide Join, Digit, Char;
  }

  lemma DecodeStep(s: bytes, i: nat)
    requires i + 3 < |s|
    ensures Decode(s[i..]) == DecodeGroup(s[i], s[i + 1], s[i + 2], s[i + 3]) + Decode(s[i + 4..])
  {
    hide DecodeGroup;
    assert s[i..][4..] == s[i + 4..];
  }

  lemma DecodeRest(s: bytes)
    requires |s| < 4
    ensures Decode(s) == []
  {
  }

  method ToBase64(json: bytes) returns (out: bytes)
    ensures out == Encode(json)
    ensures |out| == 4 * ((|json| + 2) / 3) && Decode(out) == json
  {
    hide Join, Digit, Char, Encode, Decode;
    out := [];
    var i := 0;
    while i + 2 < |json|
      invariant i <= |json| && i % 3 == 0
      invariant out + Encode(json[i..]) == Encode(json)
    {
      EncodePrefix(json, i);
      var b := Join(json[i], json[i + 1], json[i + 2]);
      ghost var before := out;
      out := out + [Char(Digit(b, 0))];
      out := out + [Char(Digit(b, 1))];
      out := out + [Char(Digit(b, 2))];
      out := out + [Char(Digit(b, 3))];
      assert out == before + [Char(Digit(b, 0)), Char(Digit(b, 1)), Char(Digit(b, 2)), Char(Digit(b, 3))];
      i := i + 3;
    }
    EncodeRest(json[i..]);
    if |json| - i == 1 {
      var b := Join(json[i], 0, 0);
      out := out + [Char(Digit(b, 0)), Char(Digit(b, 1)), PAD, PAD];
    } else if |json| - i == 2 {
      var b := Join(json[i], json[i + 1], 0);
      out := out + [Char(Digit(b, 0)), Char(Digit(b, 1)), Char(Digit(b, 2)), PAD];
    }
    EncodedLength(json);
    RoundTrip(json);
  }

  method FromBase64(s: bytes) returns (out: bytes)
    ensures out == Decode(s)
  {
    hide Decode, DecodeGroup;
    out := [];
    var i := 0;
    while i + 3 < |s|
      invariant i <= |s| && out + Decode(s[i..]) == Decode(s)
    {
      DecodeStep(s, i);
      ghost var before := out;
      var group := GroupOf(s, i);
      out := out + group;
      assert before + (group + Decode(s[i + 4..])) == out + Decode(s[i + 4..]);
      i := i + 4;
    }
    DecodeRest(s[i..]);
  }

  /** The body of the decoding loop: what one group of four pushes. */
  method GroupOf(s: bytes, i: nat) returns (out: bytes)
    requires i + 3 < |s|
    ensures out == DecodeGroup(s[i], s[i + 1], s[i + 2], s[i + 3])
  {
    hide DecodeChar;
    var b := DecodeChar(s[i]) * 0x4_0000 + DecodeChar(s[i + 1]) * 0x1000 + DecodeChar(s[i + 2]) * 0x40 + DecodeChar(s[i + 3]);
    out := [(b / 0x1_0000) % 0x100];
    if s[i + 2] != PAD {
      out := out + [(b / 0x100) % 0x100];
    }
    if s[i + 3] != PAD {
      out := out + [b % 0x100];
    }
  }

  // ---- what they promise ----

  lemma CharBack(v: sextet)
    ensures DecodeChar(Char(v)) == v && Char(v) != PAD
  {
  }

  /** The digits of a number written out in base 64. */
  lemma DigitsOf(n: nat, d0: sextet, d1: sextet, d2: sextet, d3: sextet)
    requires n == d0 * 0x4_0000 + d1 * 0x1000 + d2 * 0x40 + d3
    ensures Digit(n, 0) == d0 && Digit(n, 1) == d1 && Digit(n, 2) == d2 && Digit(n, 3) == d3
  {
    assert n / 0x40 == d0 * 0x1000 + d1 * 0x40 + d2;
    assert n / 0x1000 == d0 * 0x40 + d1;
    assert n / 0x4_0000 == d0;
  }

  lemma BytesOf(a: byte, b: byte, c: byte)
    ensures var n := Join(a, b, c); (n / 0x1_0000) % 0x100 == a && (n / 0x100) % 0x100 == b && n % 0x100 == c
  {
    var n := Join(a, b, c);
    assert n / 0x1_0000 == a;
    assert n / 0x100 == a * 0x100 + b;
  }

  /** Cutting three bytes into four digits, bit field by bit field. */
  lemma Cut(a: byte, b: byte, c: byte)
    ensures var n := Join(a, b, c);
            && Digit(n, 0) == a / 4 && Digit(n, 1) == (a % 4) * 16 + b / 16
            && Digit(n, 2) == (b % 16) * 4 + c / 64 && Digit(n, 3) == c % 64
            && Digit(n, 0) * 0x4_0000 + Digit(n, 1) * 0x1000 + Digit(n, 2) * 0x40 + Digit(n, 3) == n
  {
    var n := Join(a, b, c);
    DigitsOf(n, a / 4, (a % 4) * 16 + b / 16, (b % 16) * 4 + c / 64, c % 64);
    hide Digit;
  }

  lemma FullGroup(a: byte, b: byte, c: byte)
    ensures var n := Join(a, b, c);
            DecodeGroup(Char(Digit(n, 0)), Char(Digit(n, 1)), Char(Digit(n, 2)), Char(Digit(n, 3))) == [a, b, c]
  {
    hide Join, Digit, Char, DecodeChar;
    var n := Join(a, b, c);
    Cut(a, b, c);
    BytesOf(a, b, c);
    CharBack(Digit(n, 0));
    CharBack(Digit(n, 1));
    CharBack(Digit(n, 2));
    CharBack(Digit(n, 3));
  }

  lemma PadIsZero()
    ensures DecodeChar(PAD) == 0
  {
  }

  lemma OneLeft(a: byte)
    ensures var n := Join(a, 0, 0); DecodeGroup(Char(Digit(n, 0)), Char(Digit(n, 1)), PAD, PAD) == [a]
  {
    hide Join, Digit, Char, DecodeChar;
    var n := Join(a, 0, 0);
    Cut(a, 0, 0);
    BytesOf(a, 0, 0);
    CharBack(Digit(n, 0));
    CharBack(Digit(n, 1));
    PadIsZero();
  }

  lemma TwoLeft(a: byte, b: byte)
    ensures var n := Join(a, b, 0); DecodeGroup(Char(Digit(n, 0)), Char(Digit(n, 1)), Char(Digit(n, 2)), PAD) == [a, b]
  {
    hide Join, Digit, Char, DecodeChar;
    var n := Join(a, b, 0);
    Cut(a, b, 0);
    BytesOf(a, b, 0);
    CharBack(Digit(n, 0));
    CharBack(Digit(n, 1));
    CharBack(Digit(n, 2));
    PadIsZero();
  }

  /** Decoding undoes encoding, for every byte string. */
  lemma {:induction false} RoundTrip(s: bytes)
    ensures Decode(Encode(s)) == s
    decreases |s|
  {
    hide Join, Digit, Char, DecodeGroup;
    if |s| == 1 {
      OneLeft(s[0]);
    } else if |s| == 2 {
      TwoLeft(s[0], s[1]);
    } else if |s| >= 3 {
      FullGroup(s[0], s[1], s[2]);
      RoundTrip(s[3..]);
      assert Encode(s)[4..] == Encode(s[3..]);
      assert s == [s[0], s[1], s[2]] + s[3..];
    }
  }

  lemma {:induction false} EncodedLength(s: bytes)
    ensures |Encode(s)| == 4 * ((|s| + 2) / 3)
    decreases |s|
  {
    hide Join, Digit, Char;
    if |s| >= 3 {
      EncodedLength(s[3..]);
    }
  }

  function Padding(n: nat): nat {
    (3 - n % 3) % 3
  }

  lemma ShortPadding(s: bytes, i: nat)
    requires |s| <= 2 && i < |Encode(s)|
    ensures |Encode(s)| == 4 && (Encode(s)[i] == PAD <==> i >= 4 - Padding(|s|))
  {
    hide Join, Digit, Char;
    EncodeRest(s);
    if |s| == 1 {
      CharBack(Digit(Join(s[0], 0, 0), 0));
      CharBack(Digit(Join(s[0], 0, 0), 1));
    } else if |s| == 2 {
      CharBack(Digit(Join(s[0], s[1], 0), 0));
      CharBack(Digit(Join(s[0], s[1], 0), 1));
      CharBack(Digit(Join(s[0], s[1], 0), 2));
    }
  }

  lemma NoPaddingInFullGroup(s: bytes, i: nat)
    requires |s| >= 3 && i < 4
    ensures Encode(s)[i] != PAD
  {
    hide Join, Digit, Char, Encode;
    EncodePrefix(s, 0);
    assert s[0..] == s;
    var n := Join(s[0], s[1], s[2]);
    CharBack(Digit(n, 0));
    CharBack(Digit(n, 1));
    CharBack(Digit(n, 2));
    CharBack(Digit(n, 3));
  }

  lemma PaddingPerGroup(n: nat)
    requires n >= 3
    ensures Padding(n) == Padding(n - 3)
  {
  }

  lemma SplitGroup(s: bytes)
    requires |s| >= 3
    ensures |Encode(s)| == |Encode(s[3..])| + 4 && Encode(s)[4..] == Encode(s[3..])
  {
    hide Join, Digit, Char;
  }

  lemma PaddingFits(s: bytes)
    ensures Padding(|s|) <= |Encode(s)|
  {
    EncodedLength(s);
    hide Encode;
  }

  /** The padding character ends the text, once for each byte the last group lacks, and is nowhere else. */
  lemma {:induction false} PaddingOnlyAtEnd(s: bytes, i: nat)
    ensures i < |Encode(s)| ==> (Encode(s)[i] == PAD <==> i >= |Encode(s)| - Padding(|s|))
    decreases |s|
  {
    hide Encode, Padding;
    if i < |Encode(s)| {
      if |s| <= 2 {
        ShortPadding(s, i);
      } else {
        PaddingPerGroup(|s|);
        SplitGroup(s);
        if i < 4 {
          NoPaddingInFullGroup(s, i);
          PaddingFits(s[3..]);
        } else {
          PaddingOnlyAtEnd(s[3..], i - 4);
          assert Encode(s)[i] == Encode(s)[4..][i - 4];
        }
      }
    }
  }

  /** Base64 text is ASCII, so it is also UTF-8. */
  lemma {:induction false} EncodedAscii(s: bytes)
    ensures forall i :: 0 <= i < |Encode(s)| ==> Encode(s)[i] < 128
    decreases |s|
  {
    hide Join, Digit;
    if |s| >= 3 {
      EncodedAscii(s[3..]);
    }
  }

  // ---- the alphabet and the test vectors of RFC 4648 ----

  /** The alphabet is that of table 1 in section 4. */
  lemma CharInTable(v: sextet)
    ensures Char(v) as char == ("ABCDEFGHIJKLMNOPQRSTUVWXYZ" + "abcdefghijklmnopqrstuvwxyz" + "0123456789" + "+/")[v]
  {
  }

  /** The test vectors of section 10 for "f", "fo", "foo" ... */
  lemma ShortVectors()
    ensures Encode([102]) == [90, 103, 61, 61]
    ensures Encode([102, 111]) == [90, 109, 56, 61]
    ensures Encode([102, 111, 111]) == [90, 109, 57, 118]
  {
  }

  lemma SecondGroup()
    ensures Encode([98, 97, 114]) == [89, 109, 70, 121]
  {
  }

  /** ... and "foobar". */
  lemma LongVector()
    ensures Encode([102, 111, 111, 98, 97, 114]) == [90, 109, 57, 118, 89, 109, 70, 121]
  {
    var s: bytes := [102, 111, 111, 98, 97, 114];
    var t: bytes := [102, 111, 111];
    ShortVectors();
    SecondGroup();
    EncodePrefix(s, 0);
    EncodePrefix(t, 0);
    assert s[0..] == s && t[0..] == t && s[3..] == [98, 97, 114] && t[3..] == [];
    hide Join, Digit, Char;
  }
}
