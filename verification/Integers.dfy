/** Code that works on multi-byte integers a byte at a time. */
module Integers {
  import opened Bytes

  // ---- big-endian digits from the other end ----

  lemma {:induction false} BigEndianFront(d: byte, s: seq<byte>)
    ensures BigEndian([d] + s) == d as nat * Pow256(|s|) + BigEndian(s)
  {
    if s == [] {
      assert [d] + s == [d];
    } else {
      var hi := s[..|s| - 1];
      BigEndianFront(d, hi);
      assert ([d] + s)[..|s|] == [d] + hi && ([d] + s)[|s|] == s[|s| - 1];
      ShiftOne(d as nat, Pow256(|hi|));
    }
  }

  lemma ShiftOne(x: nat, p: nat)
    ensures x * (256 * p) == 256 * (x * p)
  {
  }

  lemma {:induction false} LeadingZeros(n: nat, s: seq<byte>)
    ensures BigEndian(Repeat(0, n) + s) == BigEndian(s)
  {
    if s == [] {
      if n > 0 {
        LeadingZeros(n - 1, s);
        assert (Repeat(0, n) + s)[..n - 1] == Repeat(0, n - 1) + s;
      }
    } else {
      LeadingZeros(n, s[..|s| - 1]);
      assert (Repeat(0, n) + s)[..n + |s| - 1] == Repeat(0, n) + s[..|s| - 1];
    }
  }

  // ---- X25519 ----

  const SIZE: nat := 32

  /** The field prime, big-endian. */
  const PRIME: seq<byte> := [0x7f] + Repeat(0xff, 30) + [0xed]

  const P25519: nat := 0x8000000000000000_0000000000000000_0000000000000000_0000000000000000 - 19

  lemma {:induction false} OnesAfter(n: nat)
    ensures BigEndian([0x7f] + Repeat(0xff, n)) + 1 == 128 * Pow256(n)
  {
    if n == 0 {
      assert [0x7f] + Repeat(0xff, 0) == [0x7f];
    } else {
      OnesAfter(n - 1);
      assert ([0x7f] + Repeat(0xff, n))[..n] == [0x7f] + Repeat(0xff, n - 1);
    }
  }

  lemma Powers()
    ensures Pow256(8) == 0x1_0000000000000000
    ensures Pow256(31) == 0x1_000000_00000000_0000000000000000_0000000000000000_0000000000000000
  {
    assert Pow256(4) == 0x1_00000000;
    assert Pow256(8) == 0x1_00000000_00000000;
    assert Pow256(12) == 0x1_00000000_00000000_00000000;
    assert Pow256(16) == 0x1_0000000000000000_0000000000000000;
    assert Pow256(20) == 0x1_00000000_0000000000000000_0000000000000000;
    assert Pow256(24) == 0x1_0000000000000000_0000000000000000_0000000000000000;
    assert Pow256(28) == 0x1_00000000_0000000000000000_0000000000000000_0000000000000000;
    assert Pow256(31) == 0x1_000000_00000000_0000000000000000_0000000000000000_0000000000000000;
  }

  lemma PrimeValue()
    ensures |PRIME| == SIZE && BigEndian(PRIME) == P25519
  {
    Powers();
    OnesAfter(30);
    assert PRIME[..31] == [0x7f] + Repeat(0xff, 30) && PRIME[31] == 0xed;
    assert Pow256(31) == 256 * Pow256(30);
  }

  lemma Distribute(a: int, b: int, c: int, p: int)
    ensures (a + b + c) * p == a * p + b * p + c * p
  {
  }

  lemma BorrowArithmetic(s: int, o: int, r: int, b: int, b': int, p: int, hs: int, ho: int, hr: int)
    requires b in {0, -1} && b' in {0, -1}
    requires hs == ho + hr + b * p && s + b == o + r + 256 * b'
    ensures s * p + hs == o * p + ho + r * p + hr + b' * (256 * p)
  {
    var k := 256 * b' - b;
    assert s == o + r + k;
    Distribute(o, r, k, p);
    assert k * p == b' * (256 * p) - b * p by {
      assert k == 0 || k == 1 || k == -256 || k == -255;
    }
  }

  /** One digit of a subtraction with borrow. */
  lemma BorrowStep(s: seq<byte>, o: seq<byte>, r: seq<byte>, i: nat, borrow: int, borrow': int)
    requires i < |s| == |o| == |r| && borrow in {0, -1} && borrow' in {0, -1}
    requires BigEndian(s[i + 1..]) == BigEndian(o[i + 1..]) + BigEndian(r[i + 1..]) + borrow * Pow256(|s| - 1 - i)
    requires s[i] as int + borrow == o[i] as int + r[i] as int + 256 * borrow'
    ensures BigEndian(s[i..]) == BigEndian(o[i..]) + BigEndian(r[i..]) + borrow' * Pow256(|s| - i)
  {
    hide BigEndian;
    var p := Pow256(|s| - 1 - i);
    DigitFirst(s, i);
    DigitFirst(o, i);
    DigitFirst(r, i);
    BorrowArithmetic(s[i] as int, o[i] as int, r[i] as int, borrow, borrow', p,
                     BigEndian(s[i + 1..]), BigEndian(o[i + 1..]), BigEndian(r[i + 1..]));
    assert Pow256(|s| - i) == 256 * p;
  }

  lemma DigitFirst(s: seq<byte>, i: nat)
    requires i < |s|
    ensures BigEndian(s[i..]) == s[i] as int * Pow256(|s| - 1 - i) + BigEndian(s[i + 1..])
  {
    assert s[i..] == [s[i]] + s[i + 1..];
    BigEndianFront(s[i], s[i + 1..]);
  }

  /** The remainder of the secret by the prime, as the code computes it. */
  function Reduced(v: nat): nat {
    if v >= P25519 then v - P25519 else v
  }

  /** One subtraction is enough exactly below twice the prime: above are 38 numbers of 32 bytes. */
  lemma ReducedIsRemainder(v: nat)
    requires v < 2 * P25519 + 38
    ensures Reduced(v) == v % P25519 <==> v < 2 * P25519
  {
  }

  /** Subtract with a borrow running up from the last byte. */
  method Subtract(secret: array<byte>) returns (reduced: array<byte>, carry: int)
    requires secret.Length == SIZE
    ensures fresh(reduced) && reduced.Length == SIZE && carry in {0, -1}
    ensures BigEndian(secret[..]) == P25519 + BigEndian(reduced[..]) + carry * Pow256(SIZE)
  {
    hide BigEndian, ByteOf, Pow256;
    PrimeValue();
    ghost var s := secret[..];
    reduced := new byte[SIZE](_ => 0);
    carry := 0;
    Empties(s, PRIME, reduced[..]);
    var i: int := SIZE - 1;
    while i >= 0
      invariant -1 <= i < SIZE && carry in {0, -1}
      invariant BigEndian(s[i + 1..]) == BigEndian(PRIME[i + 1..]) + BigEndian(reduced[..][i + 1..])
                                         + carry * Pow256(SIZE - 1 - i)
    {
      ghost var carry0, before := carry, reduced[..];
      carry := carry + secret[i] as int;
      carry := carry - PRIME[i] as int;
      reduced[i] := ByteOf(carry % 256);
      carry := carry / 256;
      assert reduced[..][i + 1..] == before[i + 1..];
      BorrowStep(s, PRIME, reduced[..], i, carry0, carry);
      i := i - 1;
    }
    assert s[0..] == s && PRIME[0..] == PRIME && reduced[..][0..] == reduced[..];
  }

  lemma Empties(s: seq<byte>, o: seq<byte>, r: seq<byte>)
    ensures BigEndian(s[|s|..]) == BigEndian(o[|o|..]) == BigEndian(r[|r|..]) == 0
  {
  }

  method Greater(gt: byte, eq: byte, above: byte) returns (r: byte)
    requires gt in {0, ONES} && eq in {0, ONES} && above in {0, ONES}
    ensures r == if gt == ONES || (eq == ONES && above == ONES) then ONES else 0
  {
    r := gt | (eq & above);
  }

  method Both(a: byte, b: byte) returns (r: byte)
    requires a in {0, ONES} && b in {0, ONES}
    ensures r == if a == ONES && b == ONES then ONES else 0
  {
    r := a & b;
  }

  method Either(a: byte, b: byte) returns (r: byte)
    requires a in {0, ONES} && b in {0, ONES}
    ensures r == if a == ONES || b == ONES then ONES else 0
  {
    r := a | b;
  }

  lemma DigitLast(s: seq<byte>, i: nat)
    requires i < |s|
    ensures BigEndian(s[..i + 1]) == BigEndian(s[..i]) * 256 + s[i] as nat
  {
    assert s[..i + 1][..i] == s[..i];
  }

  /** Compare with the prime, looking at every byte. */
  method AtLeastPrime(secret: array<byte>) returns (mask: byte)
    requires secret.Length == SIZE
    ensures mask == if BigEndian(secret[..]) >= P25519 then ONES else 0
  {
    PrimeValue();
    hide BigEndian;
    var gt: byte := 0;
    var eq: byte := ONES;
    ghost var s := secret[..];
    assert s[..0] == PRIME[..0] == [];
    for i := 0 to SIZE
      invariant gt == if BigEndian(s[..i]) > BigEndian(PRIME[..i]) then ONES else 0
      invariant eq == if BigEndian(s[..i]) == BigEndian(PRIME[..i]) then ONES else 0
    {
      var above := IntMaskGte(secret[i] as int, PRIME[i] as int + 1);
      gt := Greater(gt, eq, above);
      var same := ByteMaskEq(secret[i], PRIME[i]);
      eq := Both(eq, same);
      DigitLast(s, i);
      DigitLast(PRIME, i);
    }
    assert s[..SIZE] == s && PRIME[..SIZE] == PRIME;
    mask := Either(gt, eq);
  }

  /** Replace every byte by the reduced one, or keep it, by mask. */
  method SelectBytes(mask: byte, reduced: array<byte>, secret: array<byte>)
    requires mask in {0, ONES} && reduced.Length == secret.Length && reduced != secret
    modifies secret
    ensures secret[..] == if mask == ONES then reduced[..] else old(secret[..])
  {
    for i := 0 to secret.Length
      invariant forall k | 0 <= k < i :: secret[k] == if mask == ONES then reduced[k] else old(secret[k])
      invariant forall k | i <= k < secret.Length :: secret[k] == old(secret[k])
    {
      var b := MaskSelect(mask, reduced[i], secret[i]);
      secret[i] := b;
    }
  }

  /** Reduce the shared secret and turn it around: the result is little-endian, section 5 of RFC 7748. */
  method ReduceSecret(secret: array<byte>)
    requires secret.Length == SIZE
    modifies secret
    ensures LittleEndian(secret[..]) == Reduced(BigEndian(old(secret[..])))
  {
    hide BigEndian, LittleEndian, Reversed, Pow256;
    var reduced, carry := Subtract(secret);
    var mask := AtLeastPrime(secret);
    SubtractionFits(reduced[..], carry, BigEndian(secret[..]));
    SelectBytes(mask, reduced, secret);
    LittleEndianOfReversed(secret[..]);
    ReverseInPlace(secret);
  }

  /** No borrow is left exactly when the secret is at least the prime. */
  lemma SubtractionFits(reduced: seq<byte>, carry: int, v: nat)
    requires |reduced| == SIZE && carry in {0, -1}
    requires v == P25519 + BigEndian(reduced) + carry * Pow256(SIZE)
    ensures v >= P25519 ==> BigEndian(reduced) == v - P25519
  {
    hide Pow256, BigEndian;
    BigEndianBound(reduced);
    assert carry == 0 || v < P25519;
  }

  method ReverseInPlace(a: array<byte>)
    modifies a
    ensures a[..] == Reversed(old(a[..]))
  {
    var len := a.Length;
    for i := 0 to len / 2
      invariant forall k | 0 <= k < i :: a[k] == old(a[len - 1 - k]) && a[len - 1 - k] == old(a[k])
      invariant forall k | i <= k < len - i :: a[k] == old(a[k])
    {
      var t := a[i];
      a[i] := a[len - 1 - i];
      a[len - 1 - i] := t;
    }
    forall k | 0 <= k < len
      ensures a[k] == old(a[..])[len - 1 - k]
    {
      if k >= len - len / 2 {
        assert a[len - 1 - (len - 1 - k)] == old(a[len - 1 - k]);
      }
    }
  }

  // ---- signature order checks ----

  lemma LittleEndianFrom(s: seq<byte>, i: nat)
    requires i < |s|
    ensures LittleEndian(s[i..]) == s[i] as nat + 256 * LittleEndian(s[i + 1..])
  {
    assert s[i..][1..] == s[i + 1..];
  }

  type Octet = n: int | 0 <= n < 256

  function BytesOf(octets: seq<Octet>): (r: seq<byte>)
    ensures |r| == |octets| && forall i | 0 <= i < |octets| :: r[i] as nat == octets[i]
  {
    seq(|octets|, i requires 0 <= i < |octets| => ByteOf(octets[i]))
  }

  /** The group orders, little-endian. */
  const ED25519_OCTETS: seq<Octet> :=
    [0xed, 0xd3, 0xf5, 0x5c, 0x1a, 0x63, 0x12, 0x58] + (
    [0xd6, 0x9c, 0xf7, 0xa2, 0xde, 0xf9, 0xde, 0x14] + (
    [0x00, 0x00, 0x00, 0x00, 0x00, 0x00, 0x00, 0x00] + (
    [0x00, 0x00, 0x00, 0x00, 0x00, 0x00, 0x00, 0x10])))

  const ED448_OCTETS: seq<Octet> :=
    [0xf3, 0x44, 0x58, 0xab, 0x92, 0xc2, 0x78, 0x23] + (
    [0x55, 0x8f, 0xc5, 0x8d, 0x72, 0xc2, 0x6c, 0x21] + (
    [0x90, 0x36, 0xd6, 0xae, 0x49, 0xdb, 0x4e, 0xc4] + (
    [0xe9, 0x23, 0xca, 0x7c, 0xff, 0xff, 0xff, 0xff] + (
    [0xff, 0xff, 0xff, 0xff, 0xff, 0xff, 0xff, 0xff] + (
    [0xff, 0xff, 0xff, 0xff, 0xff, 0xff, 0xff, 0xff] + (
    [0xff, 0xff, 0xff, 0xff, 0xff, 0xff, 0xff, 0x3f] + (
    [0x00])))))))

  const ED25519_ORDER: seq<byte> := BytesOf(ED25519_OCTETS)
  const ED448_ORDER: seq<byte> := BytesOf(ED448_OCTETS)

  /** Sections 5.1 and 5.2 of RFC 8032: 2^252 and 2^446, and what is added to the one and taken from
      the other. */
  const L25519: nat :=
    0x1000000000000000_0000000000000000_0000000000000000_0000000000000000
    + 27742317777372353535851937790883648493
  const L448: nat :=
    0x4000000000000000000000000000000000000000000000000000000000000000000000000000000000000000000000000000000000000000
    - 13818066809895115352007386748515426880336692474882178609894547503885

  function Value(octets: seq<Octet>): nat {
    if octets == [] then 0 else octets[0] + 0x100 * Value(octets[1..])
  }

  lemma {:induction false} ValueOfBytes(octets: seq<Octet>)
    ensures LittleEndian(BytesOf(octets)) == Value(octets)
  {
    if octets != [] {
      assert BytesOf(octets)[1..] == BytesOf(octets[1..]);
      ValueOfBytes(octets[1..]);
    }
  }

  lemma OctetFirst(a: Octet, rest: seq<Octet>)
    ensures Value([a] + rest) == a + 0x100 * Value(rest)
  {
    assert ([a] + rest)[1..] == rest;
  }

  lemma FourFirst(a: Octet, b: Octet, c: Octet, d: Octet, rest: seq<Octet>)
    ensures Value([a, b, c, d] + rest) == a + 0x100 * b + 0x1_0000 * c + 0x100_0000 * d + 0x1_0000_0000 * Value(rest)
  {
    hide Value;
    OctetFirst(d, rest);
    OctetFirst(c, [d] + rest);
    OctetFirst(b, [c] + ([d] + rest));
    OctetFirst(a, [b] + ([c] + ([d] + rest)));
    assert [a] + ([b] + ([c] + ([d] + rest))) == [a, b, c, d] + rest;
  }

  lemma RowFirst(a: Octet, b: Octet, c: Octet, d: Octet, e: Octet, f: Octet, g: Octet, h: Octet, rest: seq<Octet>)
    ensures Value([a, b, c, d, e, f, g, h] + rest)
         == a + 0x100 * b + 0x1_0000 * c + 0x100_0000 * d
            + 0x1_0000_0000 * (e + 0x100 * f + 0x1_0000 * g + 0x100_0000 * h)
            + 0x1_0000_0000_0000_0000 * Value(rest)
  {
    hide Value;
    FourFirst(e, f, g, h, rest);
    FourFirst(a, b, c, d, [e, f, g, h] + rest);
    assert [a, b, c, d] + ([e, f, g, h] + rest) == [a, b, c, d, e, f, g, h] + rest;
  }

  lemma Ed25519Upper()
    ensures Value([0x00, 0x00, 0x00, 0x00, 0x00, 0x00, 0x00, 0x00] + [0x00, 0x00, 0x00, 0x00, 0x00, 0x00, 0x00, 0x10])
         == 0x1000000000000000_0000000000000000
  {
    var none: seq<Octet> := [];
    assert Value(none) == 0;
    hide Value;
    RowFirst(0x00, 0x00, 0x00, 0x00, 0x00, 0x00, 0x00, 0x10, none);
    var r := [0x00, 0x00, 0x00, 0x00, 0x00, 0x00, 0x00, 0x10];
    assert r + none == r;
    RowFirst(0x00, 0x00, 0x00, 0x00, 0x00, 0x00, 0x00, 0x00, r);
  }

  lemma Ed25519Value()
    ensures Value(ED25519_OCTETS) == L25519
  {
    hide Value;
    Ed25519Upper();
    var r := [0x00, 0x00, 0x00, 0x00, 0x00, 0x00, 0x00, 0x00] + [0x00, 0x00, 0x00, 0x00, 0x00, 0x00, 0x00, 0x10];
    RowFirst(0xd6, 0x9c, 0xf7, 0xa2, 0xde, 0xf9, 0xde, 0x14, r);
    r := [0xd6, 0x9c, 0xf7, 0xa2, 0xde, 0xf9, 0xde, 0x14] + r;
    assert Value(r) == 0x1000000000000000_0000000000000000_14def9dea2f79cd6;
    RowFirst(0xed, 0xd3, 0xf5, 0x5c, 0x1a, 0x63, 0x12, 0x58, r);
  }

  lemma Ed448Value()
    ensures Value(ED448_OCTETS) == L448
  {
    var none: seq<Octet> := [];
    assert Value(none) == 0;
    hide Value;
    OctetFirst(0x00, none);
    var r := [0x00];
    assert r + none == r;
    assert Value(r) == 0x0;
    RowFirst(0xff, 0xff, 0xff, 0xff, 0xff, 0xff, 0xff, 0x3f, r);
    r := [0xff, 0xff, 0xff, 0xff, 0xff, 0xff, 0xff, 0x3f] + r;
    assert Value(r) == 0x3fffffffffffffff;
    RowFirst(0xff, 0xff, 0xff, 0xff, 0xff, 0xff, 0xff, 0xff, r);
    r := [0xff, 0xff, 0xff, 0xff, 0xff, 0xff, 0xff, 0xff] + r;
    assert Value(r) == 0x3fffffffffffffff_ffffffffffffffff;
    RowFirst(0xff, 0xff, 0xff, 0xff, 0xff, 0xff, 0xff, 0xff, r);
    r := [0xff, 0xff, 0xff, 0xff, 0xff, 0xff, 0xff, 0xff] + r;
    assert Value(r) == 0x3fffffffffffffff_ffffffffffffffff_ffffffffffffffff;
    RowFirst(0xe9, 0x23, 0xca, 0x7c, 0xff, 0xff, 0xff, 0xff, r);
    r := [0xe9, 0x23, 0xca, 0x7c, 0xff, 0xff, 0xff, 0xff] + r;
    assert Value(r) == 0x3fffffffffffffff_ffffffffffffffff_ffffffffffffffff_ffffffff7cca23e9;
    RowFirst(0x90, 0x36, 0xd6, 0xae, 0x49, 0xdb, 0x4e, 0xc4, r);
    r := [0x90, 0x36, 0xd6, 0xae, 0x49, 0xdb, 0x4e, 0xc4] + r;
    assert Value(r) == 0x3fffffffffffffff_ffffffffffffffff_ffffffffffffffff_ffffffff7cca23e9_c44edb49aed63690;
    RowFirst(0x55, 0x8f, 0xc5, 0x8d, 0x72, 0xc2, 0x6c, 0x21, r);
    r := [0x55, 0x8f, 0xc5, 0x8d, 0x72, 0xc2, 0x6c, 0x21] + r;
    assert Value(r)
        == 0x3fffffffffffffffffffffffffffffffffffffffffffffffffffffff7cca23e9c44edb49aed63690216cc2728dc58f55;
    RowFirst(0xf3, 0x44, 0x58, 0xab, 0x92, 0xc2, 0x78, 0x23, r);
    r := [0xf3, 0x44, 0x58, 0xab, 0x92, 0xc2, 0x78, 0x23] + r;
  }

  /** The stored bytes are the orders of the two groups. */
  lemma OrderValues()
    ensures LittleEndian(ED25519_ORDER) == L25519 && LittleEndian(ED448_ORDER) == L448
  {
    hide LittleEndian, BytesOf, Value;
    ValueOfBytes(ED25519_OCTETS);
    ValueOfBytes(ED448_OCTETS);
    Ed25519Value();
    Ed448Value();
  }

  /** Look at a scalar from its most significant byte down, and stop at the first byte that is
      not the order's. */
  method AtMost(s: seq<byte>, order: seq<byte>) returns (ok: bool)
    requires |s| == |order|
    ensures ok <==> LittleEndian(s) <= LittleEndian(order)
  {
    hide LittleEndian;
    EmptyTails(s, order);
    ok := true;
    var n := |s|;
    while n > 0
      invariant 0 <= n <= |s| && ok
      invariant LittleEndian(s[n..]) == LittleEndian(order[n..])
    {
      var i := n - 1;
      if s[i] > order[i] {
        ok := false;
      }
      if s[i] != order[i] {
        HigherDigitDecides(s, order, i);
        return;
      }
      LittleEndianFrom(s, i);
      LittleEndianFrom(order, i);
      n := i;
    }
    WholeSlices(s, order);
  }

  lemma WholeSlices(s: seq<byte>, o: seq<byte>)
    ensures s[0..] == s && o[0..] == o
  {
  }

  /** What a signature must satisfy to get to verification. */
  predicate ScalarPasses(sig: seq<byte>, order: seq<byte>) {
    |sig| == 2 * |order| && LittleEndian(sig[|order|..]) <= LittleEndian(order)
  }

  /** The check before verification: the length, and the scalar half of the signature. */
  method CheckScalar(sig: seq<byte>, order: seq<byte>) returns (ok: bool)
    ensures ok <==> ScalarPasses(sig, order)
    ensures ok <==> |sig| == 2 * |order| && LittleEndian(sig[|order|..]) <= LittleEndian(order)
  {
    ok := |sig| == 2 * |order|;
    if ok {
      ok := AtMost(sig[|order|..], order);
    }
  }

  /** Sections 5.1.7 and 5.2.7 of RFC 8032 want the scalar below the order. The check meets
      that for every signature except those whose scalar is the order itself. */
  lemma ScalarCheckIsStrictUnlessEqual(sig: seq<byte>, order: seq<byte>)
    requires |sig| == 2 * |order|
    ensures (ScalarPasses(sig, order) <==> LittleEndian(sig[|order|..]) < LittleEndian(order))
       <==> sig[|order|..] != order
  {
    LittleEndianInjective(sig[|order|..], order);
  }

  /** For the two curves, with the orders as the numbers they are. */
  lemma EdChecksAreStrictUnlessEqual(sig: seq<byte>)
    ensures |sig| == 64 ==>
              ((ScalarPasses(sig, ED25519_ORDER) <==> LittleEndian(sig[32..]) < L25519)
               <==> LittleEndian(sig[32..]) != L25519)
    ensures |sig| == 114 ==>
              ((ScalarPasses(sig, ED448_ORDER) <==> LittleEndian(sig[57..]) < L448)
               <==> LittleEndian(sig[57..]) != L448)
  {
    hide LittleEndian;
    OrderValues();
  }

  lemma OrderItselfPasses(r: seq<byte>)
    requires |r| == 32
    ensures ScalarPasses(r + ED25519_ORDER, ED25519_ORDER)
  {
    assert (r + ED25519_ORDER)[32..] == ED25519_ORDER;
  }

  lemma Ed448OrderItselfPasses(r: seq<byte>)
    requires |r| == 57
    ensures ScalarPasses(r + ED448_ORDER, ED448_ORDER)
  {
    assert (r + ED448_ORDER)[57..] == ED448_ORDER;
  }

  lemma {:induction false} LittleEndianInjective(a: seq<byte>, b: seq<byte>)
    requires |a| == |b|
    ensures LittleEndian(a) == LittleEndian(b) <==> a == b
  {
    if a != [] {
      LittleEndianInjective(a[1..], b[1..]);
      assert a == [a[0]] + a[1..] && b == [b[0]] + b[1..];
    }
  }

  lemma EmptyTails(s: seq<byte>, o: seq<byte>)
    ensures LittleEndian(s[|s|..]) == LittleEndian(o[|o|..]) == 0
  {
  }

  /** With equal digits above it, the first differing digit decides the order of the numbers. */
  lemma HigherDigitDecides(s: seq<byte>, o: seq<byte>, i: nat)
    requires i < |s| == |o| && s[i] != o[i]
    requires LittleEndian(s[i + 1..]) == LittleEndian(o[i + 1..])
    ensures LittleEndian(s) < LittleEndian(o) <==> s[i] < o[i]
    ensures LittleEndian(s) != LittleEndian(o)
  {
    LittleEndianFrom(s, i);
    LittleEndianFrom(o, i);
    LowerDigitsYield(s, o, i);
    assert s[0..] == s && o[0..] == o;
  }

  lemma {:induction false} LowerDigitsYield(s: seq<byte>, o: seq<byte>, i: nat)
    requires i < |s| == |o|
    ensures LittleEndian(s[i..]) < LittleEndian(o[i..]) ==> LittleEndian(s[0..]) < LittleEndian(o[0..])
    ensures LittleEndian(s[i..]) > LittleEndian(o[i..]) ==> LittleEndian(s[0..]) > LittleEndian(o[0..])
  {
    if i > 0 {
      LowerDigitsYield(s, o, i - 1);
      LittleEndianFrom(s, i - 1);
      LittleEndianFrom(o, i - 1);
    }
  }

  // ---- DH secrets ----

  /** Move the secret to the end of the room it is to fill and clear what is before it. */
  method PadSecret(secret: array<byte>, len: nat, maxLen: nat, pad: bool) returns (newLen: nat)
    requires len <= secret.Length && (pad ==> len <= maxLen <= secret.Length)
    modifies secret
    ensures newLen == if pad then maxLen else len
    ensures BigEndian(secret[..newLen]) == BigEndian(old(secret[..len]))
    ensures secret[newLen..] == old(secret[newLen..])
  {
    hide BigEndian, Overwrite;
    newLen := len;
    if pad && len != maxLen {
      ghost var s := secret[..len];
      Copy(secret, maxLen - len, secret[..len]);
      ghost var moved := secret[..];
      Copy(secret, 0, Repeat(0, maxLen - len));
      newLen := maxLen;
      PaddedParts(old(secret[..]), s, maxLen);
      LeadingZeros(maxLen - len, s);
    }
  }

  lemma PaddedParts(before: seq<byte>, s: seq<byte>, maxLen: nat)
    requires |s| <= maxLen <= |before|
    ensures var after := Overwrite(Overwrite(before, maxLen - |s|, s), 0, Repeat(0, maxLen - |s|));
            after[..maxLen] == Repeat(0, maxLen - |s|) + s && after[maxLen..] == before[maxLen..]
  {
  }
}
