/** Unpadded base64 with the standard alphabet (sections 3.2 and 4 of RFC 4648), as RawStdEncoding of
    encoding/base64 encodes and, leniently, decodes it. */
module Base64 {
  import opened Text
  import opened Octets

  type Sextet = n: int | 0 <= n < 64

  function Letter(n: Sextet): char {
    if n < 26 then ('A' as int + n) as char
    else if n < 52 then ('a' as int + n - 26) as char
    else if n < 62 then ('0' as int + n - 52) as char
    else if n == 62 then '+' else '/'
  }

  function Index(c: char): Option<Sextet> {
    if 'A' <= c <= 'Z' then Some(c as int - 'A' as int)
    else if 'a' <= c <= 'z' then Some(c as int - 'a' as int + 26)
    else if '0' <= c <= '9' then Some(c as int - '0' as int + 52)
    else if c == '+' then Some(62) else if c == '/' then Some(63) else None
  }

  lemma IndexOfLetter(n: Sextet)
    ensures Index(Letter(n)) == Some(n)
  {
  }

  /** The four 6-bit digits of a 24-bit group. */
  function Digit(v: nat, k: nat): Sextet
    requires v < 0x100_0000 && k < 4
  {
    if k == 0 then v / 0x4_0000 else if k == 1 then v / 0x1000 % 64 else if k == 2 then v / 64 % 64 else v % 64
  }

  function Group(a: Octet, b: Octet, c: Octet): (v: nat)
    ensures v < 0x100_0000
  {
    a * 0x1_0000 + b * 0x100 + c
  }

  function Encode(b: Bytes): string {
    if |b| == 0 then ""
    else if |b| == 1 then
      var v := Group(b[0], 0, 0);
      [Letter(Digit(v, 0)), Letter(Digit(v, 1))]
    else if |b| == 2 then
      var v := Group(b[0], b[1], 0);
      [Letter(Digit(v, 0)), Letter(Digit(v, 1)), Letter(Digit(v, 2))]
    else
      var v := Group(b[0], b[1], b[2]);
      [Letter(Digit(v, 0)), Letter(Digit(v, 1)), Letter(Digit(v, 2)), Letter(Digit(v, 3))] + Encode(b[3..])
  }

  /** The decoder skips line breaks wherever they stand. */
  function WithoutLineBreaks(s: string): string {
    if s == [] then []
    else if s[0] == '\r' || s[0] == '\n' then WithoutLineBreaks(s[1..])
    else [s[0]] + WithoutLineBreaks(s[1..])
  }

  /** The octets of a 24-bit group of four digits. */
  function Octet0(p: Sextet, q: Sextet): Octet { p * 4 + q / 16 }
  function Octet1(q: Sextet, r: Sextet): Octet { q % 16 * 16 + r / 4 }
  function Octet2(r: Sextet, s: Sextet): Octet { r % 4 * 64 + s }

  /** Groups of four letters, then two or three; unused bits of the last letter are ignored. */
  function DecodeGroups(s: string): Option<Bytes> {
    if |s| == 0 then Some([])
    else if |s| == 1 || Index(s[0]).None? || Index(s[1]).None? then None
    else
      var p, q := Index(s[0]).value, Index(s[1]).value;
      if |s| == 2 then Some([Octet0(p, q)])
      else if Index(s[2]).None? then None
      else
        var r := Index(s[2]).value;
        if |s| == 3 then Some([Octet0(p, q), Octet1(q, r)])
        else if Index(s[3]).None? then None
        else
          var rest := DecodeGroups(s[4..]);
          if rest.None? then None
          else Some([Octet0(p, q), Octet1(q, r), Octet2(r, Index(s[3]).value)] + rest.value)
  }

  function Decode(s: string): Option<Bytes> { DecodeGroups(WithoutLineBreaks(s)) }

  /** Division of a 24-bit group at the octet boundaries. */
  lemma GroupDivisions(a: Octet, b: Octet, c: Octet)
    ensures var v := Group(a, b, c);
            && v / 64 == a * 1024 + b * 4 + c / 64 && v % 64 == c % 64
            && v / 0x1000 == a * 16 + b / 16
            && v / 0x4_0000 == a / 4
  {
  }

  lemma Remainder(t: nat, u: nat)
    requires u < 64
    ensures (64 * t + u) % 64 == u
  {
  }

  lemma SecondDigit(a: nat, y: nat)
    requires y < 16
    ensures (a * 16 + y) % 64 == a % 4 * 16 + y
  {
    Remainder(a / 4, 16 * (a % 4) + y);
    assert a * 16 + y == 64 * (a / 4) + (16 * (a % 4) + y);
  }

  lemma ThirdDigit(a: nat, b: nat, z: nat)
    requires z < 4
    ensures (a * 1024 + b * 4 + z) % 64 == b % 16 * 4 + z
  {
    Remainder(16 * a + b / 16, 4 * (b % 16) + z);
    assert a * 1024 + b * 4 + z == 64 * (16 * a + b / 16) + (4 * (b % 16) + z);
  }

  lemma DigitsOfGroup(a: Octet, b: Octet, c: Octet)
    ensures var v := Group(a, b, c);
            && Octet0(Digit(v, 0), Digit(v, 1)) == a
            && Octet1(Digit(v, 1), Digit(v, 2)) == b
            && Octet2(Digit(v, 2), Digit(v, 3)) == c
  {
    GroupDivisions(a, b, c);
    SecondDigit(a, b / 16);
    ThirdDigit(a, b, c / 64);
  }

  predicate InAlphabet(s: string) { forall i :: 0 <= i < |s| ==> Index(s[i]).Some? }

  lemma {:induction false} EncodedAlphabet(b: Bytes)
    ensures InAlphabet(Encode(b))
  {
    forall n: Sextet ensures Index(Letter(n)).Some? { IndexOfLetter(n); }
    if |b| >= 3 {
      EncodedAlphabet(b[3..]);
      var v, rest := Group(b[0], b[1], b[2]), Encode(b[3..]);
      var head := [Letter(Digit(v, 0)), Letter(Digit(v, 1)), Letter(Digit(v, 2)), Letter(Digit(v, 3))];
      assert Encode(b) == head + rest;
      ConcatInAlphabet(head, rest);
    }
  }

  lemma ConcatInAlphabet(a: string, b: string)
    requires InAlphabet(a) && InAlphabet(b)
    ensures InAlphabet(a + b)
  {
  }

  lemma {:induction false} AlphabetHasNoLineBreaks(s: string)
    requires InAlphabet(s)
    ensures WithoutLineBreaks(s) == s
  {
    if s == [] {
    } else {
      assert Index(s[0]).Some?;
      AlphabetHasNoLineBreaks(s[1..]);
    }
  }

  /** Decoding a full group in front of anything gives its three octets in front of the rest. */
  lemma FullGroup(a: Octet, b: Octet, c: Octet, rest: string)
    requires DecodeGroups(rest).Some?
    ensures var v := Group(a, b, c);
            DecodeGroups([Letter(Digit(v, 0)), Letter(Digit(v, 1)), Letter(Digit(v, 2)), Letter(Digit(v, 3))] + rest)
            == Some([a, b, c] + DecodeGroups(rest).value)
  {
    var v := Group(a, b, c);
    DigitsOfGroup(a, b, c);
    var w, x, y, z := Digit(v, 0), Digit(v, 1), Digit(v, 2), Digit(v, 3);
    IndexOfLetter(w);
    IndexOfLetter(x);
    IndexOfLetter(y);
    IndexOfLetter(z);
    var s := [Letter(w), Letter(x), Letter(y), Letter(z)] + rest;
    assert s[4..] == rest;
  }

  lemma OneOctet(a: Octet)
    ensures DecodeGroups(Encode([a])) == Some([a])
  {
    var v := Group(a, 0, 0);
    DigitsOfGroup(a, 0, 0);
    IndexOfLetter(Digit(v, 0));
    IndexOfLetter(Digit(v, 1));
    assert Encode([a]) == [Letter(Digit(v, 0)), Letter(Digit(v, 1))];
  }

  lemma TwoOctets(a: Octet, b: Octet)
    ensures DecodeGroups(Encode([a, b])) == Some([a, b])
  {
    var v := Group(a, b, 0);
    DigitsOfGroup(a, b, 0);
    IndexOfLetter(Digit(v, 0));
    IndexOfLetter(Digit(v, 1));
    IndexOfLetter(Digit(v, 2));
    assert Encode([a, b]) == [Letter(Digit(v, 0)), Letter(Digit(v, 1)), Letter(Digit(v, 2))];
  }

  lemma {:induction false} GroupsRoundTrip(b: Bytes)
    ensures DecodeGroups(Encode(b)) == Some(b)
  {
    if b == [] {
    } else if |b| == 1 {
      OneOctet(b[0]);
      assert b == [b[0]];
    } else if |b| == 2 {
      TwoOctets(b[0], b[1]);
      assert b == [b[0], b[1]];
    } else {
      var rest := Encode(b[3..]);
      GroupsRoundTrip(b[3..]);
      FullGroup(b[0], b[1], b[2], rest);
      assert [b[0], b[1], b[2]] + b[3..] == b;
    }
  }

  /** Decoding undoes encoding, for every byte string. */
  lemma RoundTrip(b: Bytes)
    ensures Decode(Encode(b)) == Some(b)
  {
    EncodedAlphabet(b);
    AlphabetHasNoLineBreaks(Encode(b));
    GroupsRoundTrip(b);
  }

  // ----- the alphabet and the bits ----------------------------------------------------------

  /** Table 1 of RFC 4648: the capital letters, the small letters and the digits in order, and then + and /. */
  lemma LettersAreTheTable(n: Sextet, c: char)
    ensures Letter(0) == 'A' && Letter(26) == 'a' && Letter(52) == '0' && Letter(62) == '+' && Letter(63) == '/'
    ensures Letter(25) == 'Z' && Letter(51) == 'z' && Letter(61) == '9'
    ensures n < 61 && n != 25 && n != 51 ==> Letter(n + 1) as int == Letter(n) as int + 1
    ensures Index(c) == Some(n) <==> Letter(n) == c
  {
  }

  /** The bits of a number that is put together from high and low bits. */
  lemma BitOfJoin1(high: nat, low: nat, k: nat)
    requires low < 2
    ensures Bit(2 * high + low, k) == if k == 0 then low else Bit(high, k - 1)
  {
  }

  lemma BitOfJoin2(high: nat, low: nat, k: nat)
    requires low < 4
    ensures Bit(4 * high + low, k) == if k < 2 then Bit(low, k) else Bit(high, k - 2)
  {
    assert 4 * high + low == 2 * (2 * high + low / 2) + low % 2;
    assert low == 2 * (low / 2) + low % 2;
    BitOfJoin1(2 * high + low / 2, low % 2, k);
    BitOfJoin1(low / 2, low % 2, k);
    if k > 0 {
      BitOfJoin1(high, low / 2, k - 1);
      BitOfJoin1(0, low / 2, k - 1);
    }
  }

  lemma BitOfJoin4(high: nat, low: nat, k: nat)
    requires low < 16
    ensures Bit(16 * high + low, k) == if k < 4 then Bit(low, k) else Bit(high, k - 4)
  {
    assert 16 * high + low == 4 * (4 * high + low / 4) + low % 4;
    assert low == 4 * (low / 4) + low % 4;
    BitOfJoin2(4 * high + low / 4, low % 4, k);
    BitOfJoin2(low / 4, low % 4, k);
    if k >= 2 { BitOfJoin2(high, low / 4, k - 2); }
  }

  lemma BitOfJoin6(high: nat, low: nat, k: nat)
    requires low < 64
    ensures Bit(64 * high + low, k) == if k < 6 then Bit(low, k) else Bit(high, k - 6)
  {
    assert 64 * high + low == 4 * (16 * high + low / 4) + low % 4;
    assert low == 4 * (low / 4) + low % 4;
    BitOfJoin2(16 * high + low / 4, low % 4, k);
    BitOfJoin2(low / 4, low % 4, k);
    if k >= 2 { BitOfJoin4(high, low / 4, k - 2); }
  }

  /** Bit i of a byte string and of a text of letters, the first being the highest of the first element. */
  function OctetBit(b: Bytes, i: nat): nat
    requires i < 8 * |b|
  {
    Bit(b[i / 8], 7 - i % 8)
  }

  function LetterBit(s: string, i: nat): nat
    requires i < 6 * |s| && InAlphabet(s)
  {
    Bit(Index(s[i / 6]).value, 5 - i % 6)
  }

  lemma OctetBitAt(b: Bytes, j: nat, t: nat)
    requires j < |b| && t < 8
    ensures OctetBit(b, 8 * j + t) == Bit(b[j], 7 - t)
  {
    assert (8 * j + t) / 8 == j && (8 * j + t) % 8 == t;
  }

  lemma LetterBitAt(s: string, j: nat, t: nat)
    requires j < |s| && t < 6 && InAlphabet(s)
    ensures LetterBit(s, 6 * j + t) == Bit(Index(s[j]).value, 5 - t)
  {
    assert (6 * j + t) / 6 == j && (6 * j + t) % 6 == t;
  }

  /** The bits of the three octets that four digits give. */
  lemma FirstOctetBit(p: Sextet, q: Sextet, i: nat)
    requires i < 8
    ensures Bit(Octet0(p, q), 7 - i) == if i < 6 then Bit(p, 5 - i) else Bit(q, 11 - i)
  {
    BitOfJoin2(p, q / 16, 7 - i);
    assert q == 16 * (q / 16) + q % 16;
    if i >= 6 { BitOfJoin4(q / 16, q % 16, 11 - i); }
  }

  lemma SecondOctetBit(q: Sextet, r: Sextet, i: nat)
    requires i < 8
    ensures Bit(Octet1(q, r), 7 - i) == if i < 4 then Bit(q, 3 - i) else Bit(r, 9 - i)
  {
    BitOfJoin4(q % 16, r / 4, 7 - i);
    assert q == 16 * (q / 16) + q % 16 && r == 4 * (r / 4) + r % 4;
    if i < 4 { BitOfJoin4(q / 16, q % 16, 3 - i); } else { BitOfJoin2(r / 4, r % 4, 9 - i); }
  }

  lemma ThirdOctetBit(r: Sextet, s: Sextet, i: nat)
    requires i < 8
    ensures Bit(Octet2(r, s), 7 - i) == if i < 2 then Bit(r, 1 - i) else Bit(s, 7 - i)
  {
    BitOfJoin6(r % 4, s, 7 - i);
    assert r == 4 * (r / 4) + r % 4;
    if i < 2 { BitOfJoin2(r / 4, r % 4, 1 - i); }
  }

  lemma GroupBit(s: string, b: Bytes, i: nat)
    requires 2 <= |s| <= 4 && InAlphabet(s) && |b| == |s| - 1 && i < 8 * |b|
    requires b[0] == Octet0(Index(s[0]).value, Index(s[1]).value)
    requires |s| >= 3 ==> b[1] == Octet1(Index(s[1]).value, Index(s[2]).value)
    requires |s| == 4 ==> b[2] == Octet2(Index(s[2]).value, Index(s[3]).value)
    ensures OctetBit(b, i) == LetterBit(s, i)
  {
    var j, k := i / 8, i / 6;
    OctetBitAt(b, j, i - 8 * j);
    LetterBitAt(s, k, i - 6 * k);
    if j == 0 {
      FirstOctetBit(Index(s[0]).value, Index(s[1]).value, i);
    } else if j == 1 {
      SecondOctetBit(Index(s[1]).value, Index(s[2]).value, i - 8);
    } else {
      ThirdOctetBit(Index(s[2]).value, Index(s[3]).value, i - 16);
    }
  }

  lemma AlphabetByGroups(s: string)
    requires |s| >= 4
    ensures InAlphabet(s) <==>
              Index(s[0]).Some? && Index(s[1]).Some? && Index(s[2]).Some? && Index(s[3]).Some? && InAlphabet(s[4..])
  {
    assert forall i :: 0 <= i < |s| - 4 ==> s[4..][i] == s[i + 4];
    assert forall i :: 4 <= i < |s| ==> s[i] == s[4..][i - 4];
  }

  /** Letters outside the alphabet, and a single letter left over, are refused; nothing else is. */
  lemma {:induction false} DecodedExactly(s: string)
    ensures DecodeGroups(s).Some? <==> InAlphabet(s) && |s| % 4 != 1
    ensures DecodeGroups(s).Some? ==> |DecodeGroups(s).value| == |s| * 6 / 8
  {
    if |s| < 4 {
    } else {
      DecodedExactly(s[4..]);
      AlphabetByGroups(s);
      SizeByGroups(|s|);
    }
  }

  lemma SizeByGroups(n: nat)
    requires n >= 4
    ensures (n - 4) % 4 == n % 4 && n * 6 / 8 == 3 + (n - 4) * 6 / 8
  {
  }

  lemma ShiftGroup(s: string, b: Bytes, i: nat)
    requires |s| >= 4 && |b| >= 3 && InAlphabet(s) && 24 <= i < 8 * |b| && i < 6 * |s|
    ensures OctetBit(b, i) == OctetBit(b[3..], i - 24)
    ensures InAlphabet(s[4..]) && LetterBit(s, i) == LetterBit(s[4..], i - 24)
  {
    assert i / 8 == 3 + (i - 24) / 8 && i / 6 == 4 + (i - 24) / 6;
  }

  /** Decoding copies bits: bit i of the octets is bit i of the letters. */
  lemma {:induction false} DecodedBit(s: string, i: nat)
    requires DecodeGroups(s).Some? && i < 8 * |DecodeGroups(s).value|
    ensures InAlphabet(s) && i < 6 * |s| && OctetBit(DecodeGroups(s).value, i) == LetterBit(s, i)
    decreases |s|
  {
    DecodedExactly(s);
    var b := DecodeGroups(s).value;
    if |s| < 4 {
      GroupBit(s, b, i);
    } else {
      var rest := DecodeGroups(s[4..]).value;
      assert b[3..] == rest;
      if i < 24 {
        GroupBit(s[..4], b[..3], i);
      } else {
        ShiftGroup(s, b, i);
        DecodedBit(s[4..], i - 24);
      }
    }
  }

  lemma LastDigits(a: Octet, b: Octet)
    ensures Digit(Group(a, 0, 0), 1) == 16 * (a % 4)
    ensures Digit(Group(a, b, 0), 2) == 4 * (b % 16)
  {
    GroupDivisions(a, 0, 0);
    SecondDigit(a, 0);
    GroupDivisions(a, b, 0);
    ThirdDigit(a, b, 0);
  }

  lemma ZeroBelow(n: nat, t: nat)
    ensures t < 4 ==> Bit(16 * n, t) == 0
    ensures t < 2 ==> Bit(4 * n, t) == 0
  {
    BitOfJoin4(n, 0, t);
    BitOfJoin2(n, 0, t);
    ZeroHasNoBits(t);
  }

  lemma OneIsPadded(a: Octet, t: nat)
    requires 2 <= t < 6
    ensures var s := Encode([a]); InAlphabet(s) && LetterBit(s, 6 + t) == 0
  {
    EncodedAlphabet([a]);
    LastDigits(a, 0);
    IndexOfLetter(Digit(Group(a, 0, 0), 1));
    LetterBitAt(Encode([a]), 1, t);
    ZeroBelow(a % 4, 5 - t);
  }

  lemma TwoArePadded(a: Octet, b: Octet, t: nat)
    requires 4 <= t < 6
    ensures var s := Encode([a, b]); InAlphabet(s) && LetterBit(s, 12 + t) == 0
  {
    EncodedAlphabet([a, b]);
    LastDigits(a, b);
    IndexOfLetter(Digit(Group(a, b, 0), 2));
    LetterBitAt(Encode([a, b]), 2, t);
    ZeroBelow(b % 16, 5 - t);
  }

  lemma {:induction false} PaddingIsZero(b: Bytes, i: nat)
    requires 8 * |b| <= i < 6 * |Encode(b)|
    ensures InAlphabet(Encode(b)) && LetterBit(Encode(b), i) == 0
    decreases |b|
  {
    EncodedAlphabet(b);
    if |b| == 0 {
    } else if |b| == 1 {
      assert b == [b[0]];
      OneIsPadded(b[0], i - 6);
    } else if |b| == 2 {
      assert b == [b[0], b[1]];
      TwoArePadded(b[0], b[1], i - 12);
    } else {
      var s := Encode(b);
      assert s[4..] == Encode(b[3..]);
      assert i / 6 == 4 + (i - 24) / 6;
      PaddingIsZero(b[3..], i - 24);
    }
  }

  /** Encoding copies bits, six to a letter of the table, and fills the last letter with zeros (section 4 of
      RFC 4648); no padding follows. */
  lemma EncodedBit(b: Bytes, i: nat)
    requires i < 6 * |Encode(b)|
    ensures InAlphabet(Encode(b)) && |Encode(b)| == (8 * |b| + 5) / 6
    ensures LetterBit(Encode(b), i) == if i < 8 * |b| then OctetBit(b, i) else 0
  {
    EncodedAlphabet(b);
    EncodedLength(b);
    GroupsRoundTrip(b);
    if i < 8 * |b| { DecodedBit(Encode(b), i); } else { PaddingIsZero(b, i); }
  }

  lemma {:induction false} EncodedLength(b: Bytes)
    ensures |Encode(b)| == (8 * |b| + 5) / 6
  {
    if |b| < 3 {
    } else {
      EncodedLength(b[3..]);
    }
  }

  /** The decoder works as if carriage returns and line feeds were not there. */
  lemma LineBreaksAreSkipped(s: string, t: string)
    ensures Decode(s + "\r" + t) == Decode(s + t) && Decode(s + "\n" + t) == Decode(s + t)
  {
    SkipOne(s, '\r', t);
    SkipOne(s, '\n', t);
  }

  lemma {:induction false} SkipOne(s: string, c: char, t: string)
    requires c == '\r' || c == '\n'
    ensures WithoutLineBreaks(s + [c] + t) == WithoutLineBreaks(s + t)
  {
    if s == [] {
      assert (s + [c] + t)[1..] == t && s + t == t;
    } else {
      SkipOne(s[1..], c, t);
      assert (s + [c] + t)[1..] == s[1..] + [c] + t && (s + t)[1..] == s[1..] + t;
    }
  }
}
