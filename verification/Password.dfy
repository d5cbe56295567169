/** internal/state/password.go: PBKDF2 (section 5.2 of RFC 8018) over an uninterpreted HMAC-SHA-256,
    and the encoded password record. */
module Password {
  import opened Text
  import opened Octets
  import Base64

  const HLEN: nat := 32

  /** HMAC-SHA-256 as any function of key and message with 32 octets of output. */
  type Prf = f: (Bytes, Bytes) -> Bytes | forall k, m :: |f(k, m)| == HLEN
    witness (k: Bytes, m: Bytes) => seq(HLEN, _ => 0)

  // ----- section 5.2 of RFC 8018 ------------------------------------------------------------

  /** INT(i): the block index as four octets, most significant first. */
  function Int4(i: nat): Bytes {
    [i / 0x100_0000 % 256, i / 0x1_0000 % 256, i / 0x100 % 256, i % 256]
  }

  /** Four octets denote the index exactly when it is below 2^32. */
  lemma Int4IsBigEndian(i: nat)
    ensures var b: seq<int> := Int4(i);
            b[0] * 0x100_0000 + b[1] * 0x1_0000 + b[2] * 0x100 + b[3] == i <==> i < 0x1_0000_0000
  {
    assert i / 0x100 == i / 0x1_0000 * 256 + i / 0x100 % 256;
    assert i / 0x1_0000 == i / 0x100_0000 * 256 + i / 0x1_0000 % 256;
  }

  /** U_j of block i. */
  function U(prf: Prf, password: Bytes, salt: Bytes, i: nat, j: nat): (u: Bytes)
    requires j >= 1
    ensures |u| == HLEN
  {
    if j == 1 then prf(password, salt + Int4(i)) else prf(password, U(prf, password, salt, i, j - 1))
  }

  function XorBytes(a: Bytes, b: Bytes): (r: Bytes)
    requires |a| == |b|
    ensures |r| == |a| && forall k :: 0 <= k < |a| ==> r[k] == Xor(a[k], b[k])
  {
    seq(|a|, k requires 0 <= k < |a| => Xor(a[k], b[k]))
  }

  /** F(P, S, c, i) = U_1 xor ... xor U_c. */
  function F(prf: Prf, password: Bytes, salt: Bytes, c: nat, i: nat): (t: Bytes)
    requires c >= 1
    ensures |t| == HLEN
  {
    if c == 1 then U(prf, password, salt, i, 1)
    else XorBytes(F(prf, password, salt, c - 1, i), U(prf, password, salt, i, c))
  }

  /** T_1 || ... || T_l */
  function Blocks(prf: Prf, password: Bytes, salt: Bytes, c: nat, l: nat): (b: Bytes)
    requires c >= 1
    ensures |b| == l * HLEN
  {
    if l == 0 then [] else Blocks(prf, password, salt, c, l - 1) + F(prf, password, salt, c, l)
  }

  function BlockCount(keyLen: nat): (l: nat)
    ensures l * HLEN >= keyLen && (keyLen > 0 ==> (l - 1) * HLEN < keyLen)
  {
    (keyLen + HLEN - 1) / HLEN
  }

  /** DK = T_1 || T_2 || ... || T_l<0..r-1> */
  function DerivedKey(prf: Prf, password: Bytes, salt: Bytes, c: nat, keyLen: nat): (dk: Bytes)
    requires c >= 1
    ensures |dk| == keyLen
  {
    Blocks(prf, password, salt, c, BlockCount(keyLen))[..keyLen]
  }

  /** One octet of one block: the XOR of that octet along the chain U_1, ..., U_c. */
  function ChainOctet(prf: Prf, password: Bytes, salt: Bytes, c: nat, i: nat, k: nat): Octet
    requires c >= 1 && k < HLEN
  {
    if c == 1 then U(prf, password, salt, i, 1)[k]
    else Xor(ChainOctet(prf, password, salt, c - 1, i, k), U(prf, password, salt, i, c)[k])
  }

  lemma {:induction false} BlockOctet(prf: Prf, password: Bytes, salt: Bytes, c: nat, i: nat, k: nat)
    requires c >= 1 && k < HLEN
    ensures F(prf, password, salt, c, i)[k] == ChainOctet(prf, password, salt, c, i, k)
  {
    if c == 1 {
    } else {
      BlockOctet(prf, password, salt, c - 1, i, k);
    }
  }

  lemma {:induction false} BlocksArePrefixes(prf: Prf, password: Bytes, salt: Bytes, c: nat, l: nat, m: nat)
    requires c >= 1 && l <= m
    ensures Blocks(prf, password, salt, c, l) <= Blocks(prf, password, salt, c, m)
  {
    if l == m {
    } else {
      BlocksArePrefixes(prf, password, salt, c, l, m - 1);
      PrefixOfConcat(Blocks(prf, password, salt, c, l), Blocks(prf, password, salt, c, m - 1),
                     F(prf, password, salt, c, m));
    }
  }

  lemma PrefixOfConcat(a: Bytes, b: Bytes, more: Bytes)
    requires a <= b
    ensures a <= b + more
  {
  }

  /** Octet k of the derived key belongs to block k / 32 + 1, whatever the length of the key. */
  lemma KeyOctet(prf: Prf, password: Bytes, salt: Bytes, c: nat, keyLen: nat, k: nat)
    requires c >= 1 && k < keyLen
    ensures DerivedKey(prf, password, salt, c, keyLen)[k] == ChainOctet(prf, password, salt, c, k / HLEN + 1, k % HLEN)
  {
    var l, i := BlockCount(keyLen), k / HLEN + 1;
    assert k < l * HLEN;
    BlocksArePrefixes(prf, password, salt, c, i, l);
    BlockOctet(prf, password, salt, c, i, k % HLEN);
    assert DerivedKey(prf, password, salt, c, keyLen)[k] == Blocks(prf, password, salt, c, i)[k];
    assert Blocks(prf, password, salt, c, i)[k] == F(prf, password, salt, c, i)[k - (i - 1) * HLEN];
  }

  /** A shorter key is a prefix of a longer one. */
  lemma ShorterKeyIsPrefix(prf: Prf, password: Bytes, salt: Bytes, c: nat, short: nat, long: nat)
    requires c >= 1 && short <= long
    ensures DerivedKey(prf, password, salt, c, long)[..short] == DerivedKey(prf, password, salt, c, short)
  {
    forall k | 0 <= k < short
      ensures DerivedKey(prf, password, salt, c, long)[k] == DerivedKey(prf, password, salt, c, short)[k]
    {
      KeyOctet(prf, password, salt, c, long, k);
      KeyOctet(prf, password, salt, c, short, k);
    }
  }

  // ----- the key, bit by bit ----------------------------------------------------------------

  /** HMAC under the password, n times, beginning with a message. */
  function Iterate(prf: Prf, password: Bytes, message: Bytes, n: nat): (r: Bytes)
    ensures n >= 1 ==> |r| == HLEN
    decreases n
  {
    if n == 0 then message else Iterate(prf, password, prf(password, message), n - 1)
  }

  lemma {:induction false} OneMoreIteration(prf: Prf, password: Bytes, message: Bytes, n: nat)
    ensures Iterate(prf, password, message, n + 1) == prf(password, Iterate(prf, password, message, n))
    decreases n
  {
    if n == 0 {
      assert Iterate(prf, password, message, 1) == Iterate(prf, password, prf(password, message), 0);
    } else {
      OneMoreIteration(prf, password, prf(password, message), n - 1);
    }
  }

  lemma {:induction false} ChainIsIteration(prf: Prf, password: Bytes, salt: Bytes, i: nat, j: nat)
    requires j >= 1
    ensures U(prf, password, salt, i, j) == Iterate(prf, password, salt + Int4(i), j)
    decreases j
  {
    OneMoreIteration(prf, password, salt + Int4(i), j - 1);
    if j == 1 {
    } else {
      ChainIsIteration(prf, password, salt, i, j - 1);
    }
  }

  /** The iterations up to c in which a bit of an octet is set. */
  function SetIn(prf: Prf, password: Bytes, message: Bytes, c: nat, k: nat, bit: nat): set<nat>
    requires k < HLEN
  {
    set n: nat | 1 <= n <= c && Bit(Iterate(prf, password, message, n)[k], bit) == 1
  }

  lemma OneMoreSet(prf: Prf, password: Bytes, message: Bytes, c: nat, k: nat, bit: nat)
    requires c >= 1 && k < HLEN
    ensures |SetIn(prf, password, message, c, k, bit)| ==
              |SetIn(prf, password, message, c - 1, k, bit)| + Bit(Iterate(prf, password, message, c)[k], bit)
  {
    var before, after := SetIn(prf, password, message, c - 1, k, bit), SetIn(prf, password, message, c, k, bit);
    if Bit(Iterate(prf, password, message, c)[k], bit) == 1 {
      assert after == before + {c};
    } else {
      assert after == before;
    }
  }

  lemma ParityOfOneMore(n: nat, b: nat)
    ensures (n + b) % 2 == (n % 2 + b) % 2
  {
  }

  lemma {:induction false} ChainBit(prf: Prf, password: Bytes, salt: Bytes, c: nat, i: nat, k: nat, bit: nat)
    requires c >= 1 && k < HLEN && bit < 8
    ensures Bit(ChainOctet(prf, password, salt, c, i, k), bit) == |SetIn(prf, password, salt + Int4(i), c, k, bit)| % 2
    decreases c
  {
    var last := U(prf, password, salt, i, c)[k];
    OneMoreSet(prf, password, salt + Int4(i), c, k, bit);
    ChainIsIteration(prf, password, salt, i, c);
    ParityOfOneMore(|SetIn(prf, password, salt + Int4(i), c - 1, k, bit)|, Bit(last, bit));
    if c == 1 {
      assert SetIn(prf, password, salt + Int4(i), 0, k, bit) == {};
    } else {
      ChainBit(prf, password, salt, c - 1, i, k, bit);
      XorAddsBits(ChainOctet(prf, password, salt, c - 1, i, k), last, bit);
    }
  }

  /** A bit of the derived key is set exactly when it is set in an odd number of the first c iterations of HMAC,
      which begin with the salt and the index of the block. */
  lemma KeyBit(prf: Prf, password: Bytes, salt: Bytes, c: nat, keyLen: nat, k: nat, bit: nat)
    requires c >= 1 && k < keyLen && bit < 8
    ensures Bit(DerivedKey(prf, password, salt, c, keyLen)[k], bit) ==
              |SetIn(prf, password, salt + Int4(k / HLEN + 1), c, k % HLEN, bit)| % 2
  {
    KeyOctet(prf, password, salt, c, keyLen, k);
    ChainBit(prf, password, salt, c, k / HLEN + 1, k % HLEN, bit);
  }

  // ----- pbkdf2SHA256 -----------------------------------------------------------------------

  /** Replaces each octet of the block by its XOR with the octet of `u` at the same place. */
  method XorInto(t: array<Octet>, u: Bytes)
    requires t.Length == |u|
    modifies t
    ensures t[..] == XorBytes(old(t[..]), u)
    ensures forall k, bit: nat :: 0 <= k < t.Length && bit < 8 ==>
              Bit(t[k], bit) == (Bit(old(t[k]), bit) + Bit(u[k], bit)) % 2
  {
    for j := 0 to t.Length
      invariant forall k :: 0 <= k < j ==> t[k] == Xor(old(t[k]), u[k])
      invariant forall k :: j <= k < t.Length ==> t[k] == old(t[k])
    {
      t[j] := Xor(t[j], u[j]);
    }
    forall k, bit: nat | 0 <= k < t.Length && bit < 8
      ensures Bit(t[k], bit) == (Bit(old(t[k]), bit) + Bit(u[k], bit)) % 2
    {
      XorAddsBits(old(t[k]), u[k], bit);
    }
  }

  method CopyOf(u: Bytes) returns (t: array<Octet>)
    ensures fresh(t) && t[..] == u
  {
    t := new Octet[|u|](k requires 0 <= k < |u| => u[k]);
  }

  /** The loop over the iterations of one block. */
  method BlockOf(prf: Prf, password: Bytes, salt: Bytes, iterations: int, counter: Bytes, ghost block: nat)
    returns (r: Bytes)
    requires counter == Int4(block)
    ensures r == F(prf, password, salt, if iterations < 1 then 1 else iterations, block)
  {
    ghost var c := if iterations < 1 then 1 else iterations;
    var u := prf(password, salt + counter);
    var t := CopyOf(u);
    var i := 1;
    while i < iterations
      invariant 1 <= i <= c && fresh(t)
      invariant u == U(prf, password, salt, block, i)
      invariant t[..] == F(prf, password, salt, i, block)
    {
      u := prf(password, u);
      XorInto(t, u);
      i := i + 1;
    }
    return t[..];
  }

  method Pbkdf2Sha256(prf: Prf, password: Bytes, salt: Bytes, iterations: int, keyLen: nat) returns (key: Bytes)
    ensures key == DerivedKey(prf, password, salt, if iterations < 1 then 1 else iterations, keyLen)
  {
    ghost var c := if iterations < 1 then 1 else iterations;
    var blocks := (keyLen + HLEN - 1) / HLEN;
    var out: Bytes := [];
    var counter := new Octet[4];
    for block := 1 to blocks + 1
      invariant out == Blocks(prf, password, salt, c, block - 1)
    {
      counter[0] := block / 0x100_0000 % 256;
      counter[1] := block / 0x1_0000 % 256;
      counter[2] := block / 0x100 % 256;
      counter[3] := block % 256;
      assert counter[..] == Int4(block);
      var t := BlockOf(prf, password, salt, iterations, counter[..], block);
      out := out + t;
    }
    return out[..keyLen];
  }

  // ----- the encoded record -----------------------------------------------------------------

  const ALGORITHM := "pbkdf2-sha256"
  const ITERATIONS: nat := 600000
  const SALT_BYTES: nat := 16
  const KEY_BYTES: nat := 32

  /** strconv.Atoi with 64-bit int. */
  function Atoi(s: string): Option<int> {
    var signed := s != [] && (s[0] == '-' || s[0] == '+');
    var digits := if signed then s[1..] else s;
    if digits == [] || !AllDigits(digits) then None
    else
      var n: int := if signed && s[0] == '-' then 0 - Value(digits) else Value(digits);
      if -0x8000_0000_0000_0000 <= n < 0x8000_0000_0000_0000 then Some(n) else None
  }

  lemma AtoiOfDecimal(n: nat)
    requires n < 0x8000_0000_0000_0000
    ensures Atoi(Decimal(n)) == Some(n)
  {
    ValueOfDecimal(n);
    assert IsDigit(Decimal(n)[0]);
  }

  predicate ValidPassword(password: Bytes) { 12 <= |password| <= 1024 }

  /** HashPassword for the salt that the random source gives. */
  function HashPassword(prf: Prf, password: Bytes, salt: Bytes): Option<string> {
    if !ValidPassword(password) then None
    else
      var key := DerivedKey(prf, password, salt, ITERATIONS, KEY_BYTES);
      Some("$" + ALGORITHM + "$i=" + Decimal(ITERATIONS) + "$" + Base64.Encode(salt) + "$" + Base64.Encode(key))
  }

  function VerifyPassword(prf: Prf, password: Bytes, encoded: string): bool {
    var parts := Split(encoded, '$');
    if |parts| != 5 || parts[1] != ALGORITHM || !("i=" <= parts[2]) then false
    else
      var iterations := Atoi(parts[2][2..]);
      if iterations.None? || iterations.value < 100000 || iterations.value > 5000000 then false
      else
        var salt := Base64.Decode(parts[3]);
        if salt.None? || |salt.value| < 16 then false
        else
          var expected := Base64.Decode(parts[4]);
          if expected.None? || |expected.value| != KEY_BYTES then false
          else DerivedKey(prf, password, salt.value, iterations.value, KEY_BYTES) == expected.value
  }

  lemma EncodedHasNoDollar(b: Bytes)
    ensures '$' !in Base64.Encode(b)
  {
    Base64.EncodedAlphabet(b);
    var s := Base64.Encode(b);
    forall i | 0 <= i < |s| ensures s[i] != '$' { assert Base64.Index(s[i]).Some?; }
  }

  /** Splitting a printed record at '$' gives back its five parts. */
  lemma RecordParts(iterations: nat, salt: Bytes, key: Bytes)
    ensures Split("$" + ALGORITHM + "$i=" + Decimal(iterations) + "$" + Base64.Encode(salt) + "$" + Base64.Encode(key),
                  '$')
            == [[], ALGORITHM, "i=" + Decimal(iterations), Base64.Encode(salt), Base64.Encode(key)]
  {
    EncodedHasNoDollar(salt);
    EncodedHasNoDollar(key);
    FiveParts(ALGORITHM, "i=" + Decimal(iterations), Base64.Encode(salt), Base64.Encode(key));
    var n := Decimal(iterations);
    assert "$" + ALGORITHM + "$i=" + n == "$" + ALGORITHM + "$" + ("i=" + n);
  }

  lemma FiveParts(a: string, n: string, s: string, k: string)
    requires '$' !in a && '$' !in n && '$' !in s && '$' !in k
    ensures Split("$" + a + "$" + n + "$" + s + "$" + k, '$') == [[], a, n, s, k]
  {
    var nsk := n + ['$'] + s + ['$'] + k;
    JoinThree(n, s, k, '$');
    SplitOfJoin([n, s, k], '$');
    SplitAtSeparator(a, '$', nsk);
    SplitAtSeparator([], '$', a + ['$'] + nsk);
    Regroup(a, n, s, k);
  }

  lemma Regroup(a: string, n: string, s: string, k: string)
    ensures "$" + a + "$" + n + "$" + s + "$" + k == [] + ['$'] + (a + ['$'] + (n + ['$'] + s + ['$'] + k))
    ensures [[]] + ([a] + [n, s, k]) == [[], a, n, s, k]
  {
  }

  /** VerifyPassword accepts, for a password, exactly the record whose key that password derives. */
  lemma VerifyReadsTheRecord(prf: Prf, password: Bytes, iterations: nat, salt: Bytes, key: Bytes)
    requires 100000 <= iterations <= 5000000 && |salt| >= 16 && |key| == KEY_BYTES
    ensures VerifyPassword(prf, password,
              "$" + ALGORITHM + "$i=" + Decimal(iterations) + "$" + Base64.Encode(salt) + "$" + Base64.Encode(key))
            <==> DerivedKey(prf, password, salt, iterations, KEY_BYTES) == key
  {
    RecordParts(iterations, salt, key);
    AtoiOfDecimal(iterations);
    Base64.RoundTrip(salt);
    Base64.RoundTrip(key);
    assert ("i=" + Decimal(iterations))[2..] == Decimal(iterations);
  }

  /** What HashPassword printed, VerifyPassword accepts for a password exactly when it derives the same key;
      in particular it accepts the password that was hashed. */
  lemma HashThenVerify(prf: Prf, password: Bytes, salt: Bytes, other: Bytes)
    requires ValidPassword(password) && |salt| == SALT_BYTES
    ensures HashPassword(prf, password, salt).Some?
    ensures VerifyPassword(prf, other, HashPassword(prf, password, salt).value)
            <==> DerivedKey(prf, other, salt, ITERATIONS, KEY_BYTES)
                 == DerivedKey(prf, password, salt, ITERATIONS, KEY_BYTES)
    ensures VerifyPassword(prf, password, HashPassword(prf, password, salt).value)
  {
    var key := DerivedKey(prf, password, salt, ITERATIONS, KEY_BYTES);
    VerifyReadsTheRecord(prf, other, ITERATIONS, salt, key);
    VerifyReadsTheRecord(prf, password, ITERATIONS, salt, key);
  }

  /** The record that HashPassword prints, with the parameters in use written out; it prints none exactly for
      passwords shorter than 12 or longer than 1024 octets. */
  lemma PrintedRecord(prf: Prf, password: Bytes, salt: Bytes)
    ensures HashPassword(prf, password, salt).Some? <==> 12 <= |password| <= 1024
    ensures HashPassword(prf, password, salt).Some? ==>
              HashPassword(prf, password, salt).value ==
                "$pbkdf2-sha256$i=600000$" + Base64.Encode(salt) + "$"
                + Base64.Encode(DerivedKey(prf, password, salt, 600000, 32))
  {
    HeadOfRecord();
  }

  lemma HeadOfRecord()
    ensures "$" + ALGORITHM + "$i=" + Decimal(ITERATIONS) + "$" == "$pbkdf2-sha256$i=600000$"
  {
    SixHundredThousand();
  }

  lemma SixHundredThousand()
    ensures Decimal(600000) == "600000"
  {
    assert Decimal(6) == "6" && Decimal(60) == "60" && Decimal(600) == "600";
    assert Decimal(6000) == "6000" && Decimal(60000) == "60000";
  }

  function RecordText(first: string, number: string, salt: string, key: string): string {
    first + "$pbkdf2-sha256$i=" + number + "$" + salt + "$" + key
  }

  /** The texts that are a record: five parts, of which the first is ignored. */
  predicate IsRecord(encoded: string, first: string, number: string, salt: string, key: string) {
    '$' !in first && '$' !in number && '$' !in salt && '$' !in key && encoded == RecordText(first, number, salt, key)
  }

  /** The parameters that VerifyPassword admits. */
  predicate Admissible(number: string, salt: string, key: string) {
    && Atoi(number).Some? && 100000 <= Atoi(number).value <= 5000000
    && Base64.Decode(salt).Some? && |Base64.Decode(salt).value| >= 16
    && Base64.Decode(key).Some? && |Base64.Decode(key).value| == 32
  }

  lemma JoinFive(a: string, b: string, c: string, d: string, e: string)
    ensures Join([a, b, c, d, e], '$') == a + ['$'] + (b + ['$'] + (c + ['$'] + d + ['$'] + e))
  {
    JoinThree(c, d, e, '$');
    assert [a, b, c, d, e][1..] == [b, c, d, e] && [b, c, d, e][1..] == [c, d, e];
  }

  lemma RecordTextIsJoin(first: string, number: string, salt: string, key: string)
    ensures RecordText(first, number, salt, key) == Join([first, ALGORITHM, "i=" + number, salt, key], '$')
  {
    JoinFive(first, ALGORITHM, "i=" + number, salt, key);
    assert "$pbkdf2-sha256$i=" == ['$'] + ALGORITHM + ['$'] + "i=";
    assert first + (['$'] + ALGORITHM + ['$'] + "i=") + number + "$" + salt + "$" + key
        == first + ['$'] + (ALGORITHM + ['$'] + ("i=" + number + ['$'] + salt + ['$'] + key));
  }

  /** Five parts with the right names, and a record, are the same. */
  lemma RecordHasFiveParts(encoded: string, first: string, number: string, salt: string, key: string)
    ensures IsRecord(encoded, first, number, salt, key) <==>
              Split(encoded, '$') == [first, ALGORITHM, "i=" + number, salt, key]
  {
    var parts := [first, ALGORITHM, "i=" + number, salt, key];
    RecordTextIsJoin(first, number, salt, key);
    JoinOfSplit(encoded, '$');
    if IsRecord(encoded, first, number, salt, key) {
      assert forall i :: 0 <= i < 5 ==> '$' !in parts[i];
      SplitOfJoin(parts, '$');
    }
    if Split(encoded, '$') == parts {
      assert '$' !in parts[0] && '$' !in parts[2] && '$' !in parts[3] && '$' !in parts[4];
      assert forall c :: c in number ==> c in parts[2];
    }
  }

  lemma FivePartsAreRead(prf: Prf, password: Bytes, encoded: string, first: string, number: string, salt: string,
                         key: string)
    requires Split(encoded, '$') == [first, ALGORITHM, "i=" + number, salt, key]
    ensures VerifyPassword(prf, password, encoded) <==>
              && Admissible(number, salt, key)
              && DerivedKey(prf, password, Base64.Decode(salt).value, Atoi(number).value, 32)
                   == Base64.Decode(key).value
  {
    assert ("i=" + number)[2..] == number;
  }

  lemma AcceptedHasFiveParts(prf: Prf, password: Bytes, encoded: string)
      returns (first: string, number: string, salt: string, key: string)
    requires VerifyPassword(prf, password, encoded)
    ensures Split(encoded, '$') == [first, ALGORITHM, "i=" + number, salt, key]
  {
    var parts := Split(encoded, '$');
    first, number, salt, key := parts[0], parts[2][2..], parts[3], parts[4];
    assert parts[2][..2] == "i=";
    assert parts[2] == parts[2][..2] + parts[2][2..];
    assert parts == [parts[0], parts[1], parts[2], parts[3], parts[4]];
  }

  /** VerifyPassword accepts a password exactly for texts that are a record with admissible parameters whose key
      the password derives. */
  lemma VerifyAcceptsExactly(prf: Prf, password: Bytes, encoded: string)
    ensures VerifyPassword(prf, password, encoded) <==>
              exists first, number, salt, key ::
                && IsRecord(encoded, first, number, salt, key) && Admissible(number, salt, key)
                && DerivedKey(prf, password, Base64.Decode(salt).value, Atoi(number).value, 32)
                   == Base64.Decode(key).value
  {
    if VerifyPassword(prf, password, encoded) {
      var first, number, salt, key := AcceptedHasFiveParts(prf, password, encoded);
      RecordHasFiveParts(encoded, first, number, salt, key);
      FivePartsAreRead(prf, password, encoded, first, number, salt, key);
    }
    if first, number, salt, key :|
      && IsRecord(encoded, first, number, salt, key) && Admissible(number, salt, key)
      && DerivedKey(prf, password, Base64.Decode(salt).value, Atoi(number).value, 32) == Base64.Decode(key).value
    {
      RecordHasFiveParts(encoded, first, number, salt, key);
      FivePartsAreRead(prf, password, encoded, first, number, salt, key);
    }
  }

  /** strconv.Atoi reads what prints an integer, with or without a plus sign, up to 64 bits, and nothing without
      digits or with another character. */
  lemma AtoiReads(n: nat, s: string)
    ensures Atoi("+" + Decimal(n)) == Atoi(Decimal(n)) == if n < 0x8000_0000_0000_0000 then Some(n) else None
    ensures Atoi("-" + Decimal(n)) == if n <= 0x8000_0000_0000_0000 then Some(0 - n) else None
    ensures Atoi(s).Some? ==> s != [] && IsDigit(s[|s| - 1]) && AllDigits(s[1..])
  {
    ValueOfDecimal(n);
    assert IsDigit(Decimal(n)[0]);
    assert ("+" + Decimal(n))[1..] == Decimal(n) && ("-" + Decimal(n))[1..] == Decimal(n);
  }
}
