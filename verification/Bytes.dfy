/** Bytes, the constant-time byte masks, and the two integer readings of a byte string. */
module Bytes {

  type byte = bv8

  datatype Option<+T> = None | Some(value: T)

  const ONES: byte := 0xff

  /** The block size of AES. */
  const BLOCK: nat := 16

  /** How many values a 64-bit word has. */
  const SIZE64: nat := 0x1_0000_0000_0000_0000

  lemma Successor(b: byte)
    ensures (b + 1) as int == if b == ONES then 0 else b as int + 1
  {
  }

  /** The C cast of a number below 256 to unsigned char. */
  function ByteOf(n: nat): (b: byte)
    requires n < 256
    ensures b as int == n
  {
    if n == 0 then 0
    else
      var b := ByteOf(n - 1);
      Successor(b);
      b + 1
  }

  lemma ByteOfValue(b: byte)
    ensures b as nat < 256 && ByteOf(b as nat) == b
  {
    hide ByteOf;
    SameBytes(ByteOf(b as nat), b);
  }

  lemma SameBytes(a: byte, b: byte)
    requires a as nat == b as nat
    ensures a == b
  {
  }

  function Xor(a: seq<byte>, b: seq<byte>): (r: seq<byte>)
    requires |a| == |b|
    ensures |r| == |a|
  {
    seq(|a|, i requires 0 <= i < |a| => a[i] ^ b[i])
  }

  lemma XorCancels(a: seq<byte>, b: seq<byte>)
    requires |a| == |b|
    ensures Xor(Xor(a, b), b) == a
  {
  }

  lemma XorAt(a: seq<byte>, b: seq<byte>, i: nat)
    requires i < |a| == |b|
    ensures Xor(a, b)[i] == a[i] ^ b[i]
  {
  }

  function Repeat(b: byte, n: nat): (r: seq<byte>)
    ensures |r| == n && forall k | 0 <= k < n :: r[k] == b
  {
    seq(n, i => b)
  }

  // ---- masks: all ones for true, zero for false ----

  predicate IsInt32(a: int) {
    -0x8000_0000 <= a < 0x8000_0000
  }

  /** The top bit of a difference taken modulo 2^32, less one, kept to a byte. */
  method SignMask(difference: int) returns (m: byte)
    requires IsInt32(difference)
    ensures m == if difference >= 0 then ONES else 0
  {
    hide ByteOf;
    var word := difference % 0x1_0000_0000;
    var top := word / 0x8000_0000;
    assert top == if difference >= 0 then 0 else 1;
    m := ByteOf((top - 1) % 256);
  }

  method IntMaskGte(a: int, b: int) returns (m: byte)
    requires IsInt32(a - b)
    ensures m == if a >= b then ONES else 0
  {
    m := SignMask(a - b);
  }

  method IntMaskLt(a: int, b: int) returns (m: byte)
    requires IsInt32(b - a - 1)
    ensures m == if a < b then ONES else 0
  {
    m := SignMask(b - a - 1);
  }

  method IntMaskEq(a: int, b: int) returns (m: byte)
    requires IsInt32(a - b - 1) && IsInt32(b - a - 1)
    ensures m == if a == b then ONES else 0
  {
    var gt := SignMask(a - b - 1);
    var lt := SignMask(b - a - 1);
    m := !gt & !lt;
  }

  method ByteMaskEq(a: byte, b: byte) returns (m: byte)
    ensures m == if a == b then ONES else 0
  {
    var below: byte := if b as int - a as int < 0 then ONES else 0;
    var above: byte := if a as int - b as int < 0 then ONES else 0;
    m := !below & !above;
  }

  method ByteMaskNe(a: byte, b: byte) returns (m: byte)
    ensures m == if a != b then ONES else 0
  {
    m := ByteMaskEq(a, b);
    m := !m;
  }

  method MaskSelect(mask: byte, a: byte, b: byte) returns (r: byte)
    requires mask == ONES || mask == 0
    ensures r == if mask == ONES then a else b
  {
    r := (mask & a) | (!mask & b);
  }

  // ---- lengths in whole blocks ----

  /** The largest multiple of bs that is at most n. */
  function Floor(n: nat, bs: nat): (r: nat)
    requires bs > 0
    ensures r <= n < r + bs
  {
    if n < bs then 0 else bs + Floor(n - bs, bs)
  }

  predicate Whole(n: nat, bs: nat)
    requires bs > 0
  {
    Floor(n, bs) == n
  }

  lemma OneBlockIsWhole(bs: nat)
    requires bs > 0
    ensures Whole(bs, bs)
  {
  }

  lemma {:induction false} FloorOfSum(a: nat, b: nat, bs: nat)
    requires bs > 0 && Whole(a, bs)
    ensures Floor(a + b, bs) == a + Floor(b, bs)
  {
    if a >= bs {
      FloorOfSum(a - bs, b, bs);
    }
  }

  lemma {:induction false} FloorIsWhole(n: nat, bs: nat)
    requires bs > 0
    ensures Whole(Floor(n, bs), bs)
  {
    if n >= bs {
      FloorIsWhole(n - bs, bs);
    }
  }

  /** Floor agrees with C's remainder. */
  lemma {:induction false} FloorIsRemainder(n: nat, bs: nat)
    requires bs > 0
    ensures Floor(n, bs) == n - n % bs
    ensures Whole(n, bs) <==> n % bs == 0
  {
    if n >= bs {
      FloorIsRemainder(n - bs, bs);
      RemainderStep(n, bs);
    }
  }

  lemma RemainderStep(n: nat, bs: nat)
    requires n >= bs > 0
    ensures n % bs == (n - bs) % bs
  {
    var q, r := (n - bs) / bs, (n - bs) % bs;
    assert n == (q + 1) * bs + r;
    RemainderUnique(n, q + 1, r, bs);
  }

  lemma RemainderUnique(n: nat, q: nat, r: nat, bs: nat)
    requires bs > 0 && r < bs && n == q * bs + r
    ensures n % bs == r
  {
    var d := n / bs - q;
    assert n == (n / bs) * bs + n % bs;
    assert d * bs == r - n % bs;
    NonzeroMultiple(d, bs);
  }

  /** Up to bs below a multiple of bs. */
  lemma RemainderBelow(n: nat, p: nat, bs: nat)
    requires bs > 0 && n % bs == 0 && 1 <= p <= bs && p <= n
    ensures (n - p) % bs == bs - p
         || (p == bs && (n - p) % bs == 0)
  {
    var q := n / bs;
    assert n == q * bs;
    assert n - p == (q - 1) * bs + (bs - p);
    if q == 0 {
      assert false;
    }
    if p < bs {
      RemainderUnique(n - p, q - 1, bs - p, bs);
    } else {
      RemainderUnique(n - p, q - 1, 0, bs);
    }
  }

  lemma {:induction false} PositiveMultiple(d: nat, m: nat)
    requires d > 0
    ensures d * m >= m
  {
    if d > 1 {
      PositiveMultiple(d - 1, m);
      assert d * m == (d - 1) * m + m;
    }
  }

  lemma NonzeroMultiple(d: int, m: nat)
    ensures d == 0 || d * m >= m || -(d * m) >= m
  {
    if d > 0 {
      PositiveMultiple(d, m);
    } else if d < 0 {
      PositiveMultiple(-d, m);
      assert (-d) * m == -(d * m);
    }
  }

  /** One more byte: the remainder advances by one and wraps at bs. */
  lemma RemainderSuccessor(n: nat, bs: nat)
    requires bs > 0
    ensures (n + 1) % bs == if n % bs + 1 == bs then 0 else n % bs + 1
  {
    var q, r := n / bs, n % bs;
    if r + 1 == bs {
      assert n + 1 == (q + 1) * bs;
      RemainderUnique(n + 1, q + 1, 0, bs);
    } else {
      RemainderUnique(n + 1, q, r + 1, bs);
    }
  }

  // ---- integer readings ----

  function Pow256(n: nat): (r: nat)
    ensures r > 0
  {
    if n == 0 then 1 else 256 * Pow256(n - 1)
  }

  /** The number whose big-endian digits are s. */
  function BigEndian(s: seq<byte>): nat {
    if s == [] then 0 else BigEndian(s[..|s| - 1]) * 256 + s[|s| - 1] as nat
  }

  /** The number whose little-endian digits are s. */
  function LittleEndian(s: seq<byte>): nat {
    if s == [] then 0 else s[0] as nat + 256 * LittleEndian(s[1..])
  }

  function Reversed(s: seq<byte>): (r: seq<byte>)
    ensures |r| == |s|
    ensures forall k | 0 <= k < |s| :: r[k] == s[|s| - 1 - k]
  {
    seq(|s|, i requires 0 <= i < |s| => s[|s| - 1 - i])
  }

  lemma {:induction false} LittleEndianOfReversed(s: seq<byte>)
    ensures LittleEndian(Reversed(s)) == BigEndian(s)
  {
    if s != [] {
      LittleEndianOfReversed(s[..|s| - 1]);
      assert Reversed(s)[1..] == Reversed(s[..|s| - 1]);
    }
  }

  lemma {:induction false} BigEndianBound(s: seq<byte>)
    ensures BigEndian(s) < Pow256(|s|)
  {
    if s != [] {
      BigEndianBound(s[..|s| - 1]);
    }
  }

  lemma {:induction false} BigEndianInjective(a: seq<byte>, b: seq<byte>)
    requires |a| == |b|
    ensures BigEndian(a) == BigEndian(b) <==> a == b
  {
    if a != [] && BigEndian(a) == BigEndian(b) {
      var i := |a| - 1;
      BigEndianInjective(a[..i], b[..i]);
      SameDigits(BigEndian(a[..i]), a[i], BigEndian(b[..i]), b[i]);
      hide BigEndian;
      assert a == a[..i] + [a[i]] && b == b[..i] + [b[i]];
    }
  }

  lemma SameDigits(x: nat, a: byte, y: nat, b: byte)
    requires x * 256 + a as nat == y * 256 + b as nat
    ensures x == y && a == b
  {
    var m, n := a as nat, b as nat;
    assert m < 256 && n < 256;
    assert m == n;
    SameBytes(a, b);
  }

  // ---- buffers ----

  lemma Associative<T>(a: seq<T>, b: seq<T>, c: seq<T>)
    ensures a + (b + c) == (a + b) + c
  {
  }

  /** A buffer with data written over it at an offset. */
  function Overwrite(s: seq<byte>, off: nat, data: seq<byte>): (r: seq<byte>)
    requires off + |data| <= |s|
    ensures |r| == |s|
  {
    s[..off] + data + s[off + |data|..]
  }

  /** The only change to a buffer is that data was written at an offset. */
  ghost predicate Emitted(after: seq<byte>, before: seq<byte>, off: nat, data: seq<byte>) {
    off + |data| <= |before| && after == Overwrite(before, off, data)
  }

  lemma EmittedTwice(after: seq<byte>, mid: seq<byte>, before: seq<byte>, off: nat, a: seq<byte>, b: seq<byte>)
    requires Emitted(mid, before, off, a) && Emitted(after, mid, off + |a|, b)
    ensures Emitted(after, before, off, a + b)
  {
    OverwriteTwice(before, off, a, b);
  }

  lemma OverwriteNothing(s: seq<byte>, off: nat)
    requires off <= |s|
    ensures Overwrite(s, off, []) == s
  {
  }

  lemma OverwriteParts(s: seq<byte>, off: nat, data: seq<byte>)
    requires off + |data| <= |s|
    ensures Overwrite(s, off, data)[off..off + |data|] == data
  {
  }

  lemma OverwriteKeepsTail(s: seq<byte>, data: seq<byte>)
    requires |data| <= |s|
    ensures Overwrite(s, 0, data)[|data|..] == s[|data|..]
  {
  }

  lemma OverwriteTwice(s: seq<byte>, off: nat, a: seq<byte>, b: seq<byte>)
    requires off + |a| + |b| <= |s|
    ensures Overwrite(Overwrite(s, off, a), off + |a|, b) == Overwrite(s, off, a + b)
  {
  }

  lemma WholeOverwrite(s: seq<byte>, data: seq<byte>)
    requires |s| == |data|
    ensures Overwrite(s, 0, data) == data
  {
  }

  lemma OverwriteReversed(s: seq<byte>, off: nat, a: seq<byte>, b: seq<byte>)
    requires off + |a| + |b| <= |s|
    ensures Overwrite(Overwrite(s, off + |a|, b), off, a) == Overwrite(s, off, a + b)
  {
  }

  /** memcpy */
  method Copy(dst: array<byte>, off: nat, data: seq<byte>)
    requires off + |data| <= dst.Length
    modifies dst
    ensures dst[..] == Overwrite(old(dst[..]), off, data)
  {
    forall k | 0 <= k < |data| {
      dst[off + k] := data[k];
    }
  }

  method CopyEmits(dst: array<byte>, off: nat, data: seq<byte>)
    requires off + |data| <= dst.Length
    modifies dst
    ensures Emitted(dst[..], old(dst[..]), off, data)
  {
    Copy(dst, off, data);
  }

  lemma EmitNothing(s: seq<byte>, off: nat)
    requires off <= |s|
    ensures Emitted(s, s, off, [])
  {
  }

  lemma EmittedLength(after: seq<byte>, before: seq<byte>, off: nat, data: seq<byte>)
    requires Emitted(after, before, off, data)
    ensures |after| == |before| && off + |data| <= |before|
  {
  }
}
