/** Galois/counter mode: the counter keystream, one-shot sealing and opening, and what a
    sequence of updates and a final must amount to. */
module Gcm {
  import opened Bytes

  const TAG_LEN: nat := 16

  /** A key: the block permutation, the pre-counter block of an IV, and the full tag of a
      ciphertext and its additional data under an IV. */
  datatype RawKey = RawKey(E: seq<byte> -> seq<byte>, j0: seq<byte> -> seq<byte>,
                           tag: (seq<byte>, seq<byte>, seq<byte>) -> seq<byte>)

  ghost predicate IsGcmKey(g: RawKey) {
    && (forall b: seq<byte> {:trigger g.E(b)} | |b| == BLOCK :: |g.E(b)| == BLOCK)
    && (forall iv: seq<byte> {:trigger g.j0(iv)} :: |g.j0(iv)| == BLOCK)
    && (forall iv: seq<byte>, aad: seq<byte>, ct: seq<byte> {:trigger g.tag(iv, aad, ct)} ::
          |g.tag(iv, aad, ct)| == TAG_LEN)
  }

  type Key = g: RawKey | IsGcmKey(g)
    witness RawKey(b => b, iv => Repeat(0, BLOCK), (iv, aad, ct) => Repeat(0, TAG_LEN))

  // ---- counters ----

  /** Add one to a big-endian counter, wrapping at its width. */
  function Increment(s: seq<byte>): (r: seq<byte>)
    ensures |r| == |s|
  {
    if s == [] then []
    else if s[|s| - 1] == ONES then Increment(s[..|s| - 1]) + [0]
    else s[..|s| - 1] + [s[|s| - 1] + 1]
  }

  lemma {:induction false} IncrementAddsOne(s: seq<byte>)
    ensures BigEndian(Increment(s)) == if BigEndian(s) + 1 == Pow256(|s|) then 0 else BigEndian(s) + 1
  {
    if s != [] {
      var hi, lo := s[..|s| - 1], s[|s| - 1];
      BigEndianBound(hi);
      Successor(lo);
      if lo == ONES {
        IncrementAddsOne(hi);
        assert Increment(s)[..|s| - 1] == Increment(hi);
      } else {
        assert Increment(s)[..|s| - 1] == hi;
      }
    }
  }

  /** The counter after n increments. */
  function Advanced(s: seq<byte>, n: nat): (r: seq<byte>)
    ensures |r| == |s|
  {
    if n == 0 then s else Increment(Advanced(s, n - 1))
  }

  lemma {:induction false} AdvancedAdds(s: seq<byte>, n: nat)
    ensures BigEndian(Advanced(s, n)) == (BigEndian(s) + n) % Pow256(|s|)
  {
    hide Increment, BigEndian, Pow256;
    BigEndianBound(s);
    if n == 0 {
      RemainderUnique(BigEndian(s), 0, BigEndian(s), Pow256(|s|));
    } else {
      AdvancedAdds(s, n - 1);
      IncrementAddsOne(Advanced(s, n - 1));
      RemainderSuccessor(BigEndian(s) + n - 1, Pow256(|s|));
    }
  }

  /** A counter comes back to where it was exactly after every full turn. */
  lemma AdvancedReturns(s: seq<byte>, n: nat)
    ensures Advanced(s, n) == s <==> n % Pow256(|s|) == 0
  {
    hide Advanced, BigEndian, Pow256;
    AdvancedAdds(s, n);
    BigEndianInjective(Advanced(s, n), s);
    BigEndianBound(s);
    TurnIsWhole(BigEndian(s), n, Pow256(|s|));
  }

  lemma TurnIsWhole(v: nat, n: nat, p: nat)
    requires v < p
    ensures (v + n) % p == v <==> n % p == 0
  {
    var q, r := n / p, n % p;
    if v + r < p {
      RemainderUnique(v + n, q, v + r, p);
    } else {
      assert v + n == (q + 1) * p + (v + r - p);
      RemainderUnique(v + n, q + 1, v + r - p, p);
    }
  }

  /** The invocation field of an IV, which a TLS record carries explicitly. */
  const EXPLICIT_IV: nat := 8

  /** An IV with its invocation field, the last eight bytes, moved on by one. */
  function NextIv(iv: seq<byte>): (r: seq<byte>)
    requires EXPLICIT_IV <= |iv|
    ensures |r| == |iv|
  {
    iv[..|iv| - EXPLICIT_IV] + Increment(iv[|iv| - EXPLICIT_IV..])
  }

  function IvAfter(iv: seq<byte>, calls: nat): (r: seq<byte>)
    requires EXPLICIT_IV <= |iv|
    ensures |r| == |iv|
  {
    if calls == 0 then iv else NextIv(IvAfter(iv, calls - 1))
  }

  lemma NextIvParts(iv: seq<byte>)
    requires EXPLICIT_IV <= |iv|
    ensures var at := |iv| - EXPLICIT_IV;
            NextIv(iv)[at..] == Increment(iv[at..]) && NextIv(iv)[..at] == iv[..at]
  {
    hide Increment;
  }

  lemma {:induction false} IvAfterSplits(iv: seq<byte>, i: nat, n: nat)
    requires EXPLICIT_IV <= |iv|
    ensures var at := |iv| - EXPLICIT_IV;
            && IvAfter(iv, i + n)[at..] == Advanced(IvAfter(iv, i)[at..], n)
            && IvAfter(iv, i)[..at] == iv[..at]
    decreases i + n
  {
    hide NextIv, Increment;
    if n > 0 {
      IvAfterSplits(iv, i, n - 1);
      NextIvParts(IvAfter(iv, i + n - 1));
    } else if i > 0 {
      IvAfterSplits(iv, i - 1, 0);
      NextIvParts(IvAfter(iv, i - 1));
    }
  }

  lemma InvocationRange()
    ensures Pow256(EXPLICIT_IV) == SIZE64
  {
    assert Pow256(2) == 0x1_0000 && Pow256(4) == 0x1_0000_0000;
    assert Pow256(6) == 0x1_0000_0000_0000;
  }

  /** Two calls of any run of incrementing calls hand out the same invocation field exactly when
      a multiple of 2^64 calls apart; the fixed part never changes. */
  lemma HandedOutFieldsAreDistinct(iv: seq<byte>, i: nat, j: nat)
    requires EXPLICIT_IV <= |iv| && i < j
    ensures var at := |iv| - EXPLICIT_IV;
            && (IvAfter(iv, i)[at..] == IvAfter(iv, j)[at..] <==> (j - i) % SIZE64 == 0)
            && IvAfter(iv, i)[..at] == IvAfter(iv, j)[..at] == iv[..at]
  {
    hide IvAfter, Advanced, Pow256;
    IvAfterSplits(iv, i, j - i);
    IvAfterSplits(iv, j, 0);
    InvocationRange();
    AdvancedReturns(IvAfter(iv, i)[|iv| - EXPLICIT_IV..], j - i);
  }

  // ---- GCTR, section 6.5 of NIST SP 800-38D ----

  function Inc32(b: seq<byte>): (r: seq<byte>)
    requires |b| == BLOCK
    ensures |r| == BLOCK
  {
    b[..BLOCK - 4] + Increment(b[BLOCK - 4..])
  }

  function Gctr(g: Key, icb: seq<byte>, data: seq<byte>): (r: seq<byte>)
    requires |icb| == BLOCK
    ensures |r| == |data|
    decreases |data|
  {
    if |data| <= BLOCK then Xor(data, g.E(icb)[..|data|])
    else Xor(data[..BLOCK], g.E(icb)) + Gctr(g, Inc32(icb), data[BLOCK..])
  }

  /** The keystream does not depend on the length: a prefix enciphers to the prefix. */
  lemma {:induction false} GctrPrefix(g: Key, icb: seq<byte>, a: seq<byte>, b: seq<byte>)
    requires |icb| == BLOCK
    ensures Gctr(g, icb, a + b)[..|a|] == Gctr(g, icb, a)
    decreases |a|
  {
    if |a| > BLOCK {
      assert (a + b)[..BLOCK] == a[..BLOCK] && (a + b)[BLOCK..] == a[BLOCK..] + b;
      GctrPrefix(g, Inc32(icb), a[BLOCK..], b);
      var head := Xor(a[..BLOCK], g.E(icb));
      assert Gctr(g, icb, a + b) == head + Gctr(g, Inc32(icb), a[BLOCK..] + b);
    }
  }

  lemma {:induction false} GctrInvolution(g: Key, icb: seq<byte>, data: seq<byte>)
    requires |icb| == BLOCK
    ensures Gctr(g, icb, Gctr(g, icb, data)) == data
    decreases |data|
  {
    if |data| <= BLOCK {
      XorCancels(data, g.E(icb)[..|data|]);
    } else {
      var ct := Gctr(g, icb, data);
      assert ct[..BLOCK] == Xor(data[..BLOCK], g.E(icb));
      assert ct[BLOCK..] == Gctr(g, Inc32(icb), data[BLOCK..]);
      XorCancels(data[..BLOCK], g.E(icb));
      GctrInvolution(g, Inc32(icb), data[BLOCK..]);
    }
  }

  /** The counter block k steps after the first. */
  function Counter(icb: seq<byte>, k: nat): (r: seq<byte>)
    requires |icb| == BLOCK
    ensures |r| == BLOCK
  {
    icb[..BLOCK - 4] + Advanced(icb[BLOCK - 4..], k)
  }

  lemma {:induction false} AdvancedFromNext(s: seq<byte>, k: nat)
    ensures Advanced(Increment(s), k) == Advanced(s, k + 1)
  {
    hide Increment;
    if k > 0 {
      AdvancedFromNext(s, k - 1);
    }
  }

  lemma GctrFirst(g: Key, icb: seq<byte>, data: seq<byte>, p: nat)
    requires |icb| == BLOCK && p < |data| && p < BLOCK
    ensures Gctr(g, icb, data)[p] == data[p] ^ g.E(icb)[p]
  {
    hide Inc32;
    var ks := g.E(icb);
    if |data| <= BLOCK {
      XorAt(data, ks[..|data|], p);
    } else {
      XorAt(data[..BLOCK], ks, p);
    }
  }

  lemma GctrLater(g: Key, icb: seq<byte>, data: seq<byte>, p: nat)
    requires |icb| == BLOCK <= p < |data|
    ensures Gctr(g, icb, data)[p] == Gctr(g, Inc32(icb), data[BLOCK..])[p - BLOCK]
  {
    hide Inc32, Xor;
  }

  /** Every byte of data is added to its byte of the keystream. */
  lemma {:induction false} GctrAt(g: Key, icb: seq<byte>, data: seq<byte>, p: nat)
    requires |icb| == BLOCK && p < |data|
    ensures Gctr(g, icb, data)[p] == data[p] ^ g.E(Counter(icb, p / BLOCK))[p % BLOCK]
    decreases p
  {
    hide Increment, Gctr, Counter, Inc32, IsGcmKey;
    if p < BLOCK {
      FirstCounter(icb);
      GctrFirst(g, icb, data, p);
    } else {
      GctrLater(g, icb, data, p);
      GctrAt(g, Inc32(icb), data[BLOCK..], p - BLOCK);
      NextCounter(icb, p / BLOCK - 1);
      assert (p - BLOCK) / BLOCK == p / BLOCK - 1 && (p - BLOCK) % BLOCK == p % BLOCK;
    }
  }

  lemma FirstCounter(icb: seq<byte>)
    requires |icb| == BLOCK
    ensures Counter(icb, 0) == icb
  {
  }

  lemma NextCounter(icb: seq<byte>, k: nat)
    requires |icb| == BLOCK
    ensures Counter(Inc32(icb), k) == Counter(icb, k + 1)
  {
    hide Increment, Advanced;
    AdvancedFromNext(icb[BLOCK - 4..], k);
    assert Inc32(icb)[..BLOCK - 4] == icb[..BLOCK - 4];
    assert Inc32(icb)[BLOCK - 4..] == Increment(icb[BLOCK - 4..]);
  }

  /** The message part of GCM: encryption and decryption are the same. */
  function Cipher(g: Key, iv: seq<byte>, data: seq<byte>): (r: seq<byte>)
    ensures |r| == |data|
  {
    Gctr(g, Inc32(g.j0(iv)), data)
  }

  lemma CipherPrefix(g: Key, iv: seq<byte>, a: seq<byte>, b: seq<byte>)
    ensures Cipher(g, iv, a + b)[..|a|] == Cipher(g, iv, a)
  {
    GctrPrefix(g, Inc32(g.j0(iv)), a, b);
  }

  lemma CipherInvolution(g: Key, iv: seq<byte>, data: seq<byte>)
    ensures Cipher(g, iv, Cipher(g, iv, data)) == data
  {
    GctrInvolution(g, Inc32(g.j0(iv)), data);
  }

  /** The keystream comes back to its start after 2^32 blocks. */
  const PERIOD: nat := 0x10_0000_0000

  lemma {:induction false} AdvancedInTwo(s: seq<byte>, n: nat, m: nat)
    ensures Advanced(s, n + m) == Advanced(Advanced(s, n), m)
  {
    hide Increment;
    if m > 0 {
      AdvancedInTwo(s, n, m - 1);
    }
  }

  lemma CounterReturns(icb: seq<byte>, k: nat, m: nat)
    requires |icb| == BLOCK
    ensures Counter(icb, k) == icb <==> k % 0x1_0000_0000 == 0
    ensures k % 0x1_0000_0000 == 0 ==> Counter(icb, k + m) == Counter(icb, m)
  {
    hide Advanced;
    var field := icb[BLOCK - 4..];
    assert Pow256(2) == 0x1_0000 && Pow256(4) == 0x1_0000_0000;
    AdvancedReturns(field, k);
    AdvancedInTwo(field, k, m);
    assert icb == icb[..BLOCK - 4] + field;
    assert Counter(icb, k)[BLOCK - 4..] == Advanced(field, k);
  }

  /** Data enciphered behind other data comes out as on its own, under every key, exactly when there
      is none of it, or the other data fills whole turns of the keystream. */
  lemma CipherBehind(iv: seq<byte>, before: seq<byte>, data: seq<byte>)
    ensures (forall g: Key :: Cipher(g, iv, before + data)[|before|..] == Cipher(g, iv, data))
       <==> data == [] || |before| % PERIOD == 0
  {
    if data != [] && |before| % PERIOD != 0 {
      MarkedKeyDiffers(iv, before, data);
    } else {
      forall g: Key
        ensures Cipher(g, iv, before + data)[|before|..] == Cipher(g, iv, data)
      {
        if data != [] {
          WholeTurnsVanish(g, iv, before, data);
        }
      }
    }
  }

  lemma WholeTurnsVanish(g: Key, iv: seq<byte>, before: seq<byte>, data: seq<byte>)
    requires |before| % PERIOD == 0
    ensures Cipher(g, iv, before + data)[|before|..] == Cipher(g, iv, data)
  {
    forall i | 0 <= i < |data|
      ensures Cipher(g, iv, before + data)[|before| + i] == Cipher(g, iv, data)[i]
    {
      CipherAt(g, iv, before + data, |before| + i);
      CipherAt(g, iv, data, i);
      KeyBytesRepeat(g, iv, |before|, i);
      hide Cipher, Inc32, Counter, IsGcmKey;
    }
    hide Cipher;
  }

  lemma KeyBytesRepeat(g: Key, iv: seq<byte>, n: nat, i: nat)
    requires n % PERIOD == 0
    ensures KeyByte(g, iv, n + i) == KeyByte(g, iv, i)
  {
    hide Inc32, Counter;
    assert (n + i) / BLOCK == n / BLOCK + i / BLOCK && (n + i) % BLOCK == i % BLOCK;
    CounterReturns(Inc32(g.j0(iv)), n / BLOCK, i / BLOCK);
  }

  /** A key whose keystream is zero except for the first byte. */
  function MarkedKey(): (g: Key)
    ensures forall iv: seq<byte> :: g.j0(iv) == Repeat(0, BLOCK)
    ensures forall b: seq<byte> ::
              g.E(b) == if b == Inc32(Repeat(0, BLOCK)) then [1] + Repeat(0, BLOCK - 1) else Repeat(0, BLOCK)
  {
    RawKey(b => if b == Inc32(Repeat(0, BLOCK)) then [1] + Repeat(0, BLOCK - 1) else Repeat(0, BLOCK),
           iv => Repeat(0, BLOCK), (iv, aad, ct) => Repeat(0, TAG_LEN))
  }

  lemma CipherAt(g: Key, iv: seq<byte>, data: seq<byte>, p: nat)
    requires p < |data|
    ensures Cipher(g, iv, data)[p] == data[p] ^ g.E(Counter(Inc32(g.j0(iv)), p / BLOCK))[p % BLOCK]
  {
    hide Gctr, Inc32, Counter;
    GctrAt(g, Inc32(g.j0(iv)), data, p);
  }

  function KeyByte(g: Key, iv: seq<byte>, p: nat): byte {
    g.E(Counter(Inc32(g.j0(iv)), p / BLOCK))[p % BLOCK]
  }

  lemma InsideTurn(p: nat)
    ensures p / BLOCK % 0x1_0000_0000 == 0 && p % BLOCK == 0 <==> p % PERIOD == 0
  {
  }

  lemma MarkedBlock(iv: seq<byte>, k: nat)
    ensures var g := MarkedKey();
            g.E(Counter(Inc32(g.j0(iv)), k))
            == if k % 0x1_0000_0000 == 0 then [1] + Repeat(0, BLOCK - 1) else Repeat(0, BLOCK)
  {
    hide Inc32, Counter, IsGcmKey;
    CounterReturns(Inc32(Repeat(0, BLOCK)), k, 0);
  }

  lemma MarkedByte(g: Key, iv: seq<byte>, p: nat)
    requires g.E(Counter(Inc32(g.j0(iv)), p / BLOCK))
          == if p / BLOCK % 0x1_0000_0000 == 0 then [1] + Repeat(0, BLOCK - 1) else Repeat(0, BLOCK)
    ensures KeyByte(g, iv, p) == if p % PERIOD == 0 then 1 else 0
  {
    InsideTurn(p);
    hide Inc32, Counter, IsGcmKey;
    MarkedIndex(p % BLOCK);
  }

  lemma MarkedIndex(r: nat)
    requires r < BLOCK
    ensures ([1] + Repeat(0, BLOCK - 1))[r] == if r == 0 then 1 else 0
    ensures Repeat(0, BLOCK)[r] == 0
  {
  }

  lemma KeyBytesDiffer(g: Key, iv: seq<byte>, before: seq<byte>, data: seq<byte>)
    requires data != [] && KeyByte(g, iv, |before|) == 0 && KeyByte(g, iv, 0) == 1
    ensures Cipher(g, iv, before + data)[|before|..] != Cipher(g, iv, data)
  {
    CipherAt(g, iv, before + data, |before|);
    CipherAt(g, iv, data, 0);
    NotZeroBit(data[0]);
    hide Cipher, Inc32, Counter, IsGcmKey;
    assert Cipher(g, iv, before + data)[|before|] != Cipher(g, iv, data)[0];
  }

  lemma MarkedKeyDiffers(iv: seq<byte>, before: seq<byte>, data: seq<byte>)
    requires data != [] && |before| % PERIOD != 0
    ensures Cipher(MarkedKey(), iv, before + data)[|before|..] != Cipher(MarkedKey(), iv, data)
  {
    hide KeyByte, Cipher, Counter, Inc32;
    var g := MarkedKey();
    MarkedBlock(iv, |before| / BLOCK);
    MarkedBlock(iv, 0);
    MarkedByte(g, iv, |before|);
    MarkedByte(g, iv, 0);
    KeyBytesDiffer(g, iv, before, data);
  }

  lemma NotZeroBit(b: byte)
    ensures b ^ 0 != b ^ 1
  {
  }

  function FullTag(g: Key, iv: seq<byte>, aad: seq<byte>, ct: seq<byte>): (t: seq<byte>)
    ensures |t| == TAG_LEN
  {
    g.tag(iv, aad, ct)
  }

  // ---- a message in pieces ----

  /** One message in progress: what has been taken in, and the tag slot of the context. */
  datatype Session = Session(enc: bool, iv: seq<byte>, tagLen: nat, aad: seq<byte>, data: seq<byte>,
                             buf: seq<byte>, tagAvail: bool, authErr: bool)

  predicate ValidSession(s: Session) {
    |s.buf| == TAG_LEN && s.tagLen <= TAG_LEN
  }

  /** The ciphertext of the message so far: what was emitted, or what was taken in. */
  function Ciphertext(g: Key, s: Session): seq<byte> {
    if s.enc then Cipher(g, s.iv, s.data) else s.data
  }

  function Tag(g: Key, s: Session): (t: seq<byte>)
    requires ValidSession(s)
    ensures |t| == s.tagLen
  {
    FullTag(g, s.iv, s.aad, Ciphertext(g, s))[..s.tagLen]
  }

  /** The tag of everything so far, in the slot. */
  function Tagged(g: Key, s: Session): (r: Session)
    requires ValidSession(s)
    ensures ValidSession(r)
  {
    s.(buf := Tag(g, s) + s.buf[s.tagLen..], tagAvail := true)
  }

  function AddAad(s: Session, input: seq<byte>): Session {
    s.(aad := s.aad + input)
  }

  /** A data update emits the part of the message it adds. */
  function AddData(g: Key, s: Session, input: seq<byte>): (r: (Session, seq<byte>))
    requires ValidSession(s)
    ensures ValidSession(r.0) && |r.1| == |input|
  {
    if input == [] then (s, [])
    else
      var s' := s.(data := s.data + input);
      (if s.enc then Tagged(g, s') else s', Cipher(g, s.iv, s'.data)[|s.data|..])
  }

  /** The tag made, or the given one compared. */
  function Checked(g: Key, s: Session): (r: Session)
    requires ValidSession(s)
    ensures ValidSession(r)
  {
    if s.tagAvail then s
    else if s.enc then Tagged(g, s)
    else s.(authErr := s.buf[..s.tagLen] != Tag(g, s))
  }

  /** Final makes the tag, if no update did, or checks the given one; then the message is dropped.
      A recorded authentication failure is not forgotten. */
  function Finish(g: Key, s: Session): (r: (bool, Session))
    requires ValidSession(s)
  {
    if s.authErr then (false, s)
    else
      var s' := Checked(g, s);
      (!s'.authErr, s'.(aad := [], data := []))
  }

  datatype Op = Aad(bytes: seq<byte>) | Data(bytes: seq<byte>)

  function Apply(g: Key, s: Session, op: Op): (r: (Session, seq<byte>))
    requires ValidSession(s)
    ensures ValidSession(r.0)
  {
    match op
    case Aad(b) => (AddAad(s, b), [])
    case Data(b) => AddData(g, s, b)
  }

  function Run(g: Key, s: Session, ops: seq<Op>): (r: (Session, seq<byte>))
    requires ValidSession(s)
    ensures ValidSession(r.0)
    decreases |ops|
  {
    if ops == [] then (s, [])
    else
      var first := Apply(g, s, ops[0]);
      var rest := Run(g, first.0, ops[1..]);
      (rest.0, first.1 + rest.1)
  }

  function DataOf(ops: seq<Op>): seq<byte> {
    if ops == [] then []
    else (if ops[0].Data? then ops[0].bytes else []) + DataOf(ops[1..])
  }

  function AadOf(ops: seq<Op>): seq<byte> {
    if ops == [] then []
    else (if ops[0].Aad? then ops[0].bytes else []) + AadOf(ops[1..])
  }

  /** The additional data given before the last update that carried data; all of it if none did. */
  function CoveredAad(ops: seq<Op>): seq<byte> {
    if ops == [] then []
    else if DataOf(ops) == [] then AadOf(ops)
    else if DataOf(ops[1..]) == [] then []
    else (if ops[0].Aad? then ops[0].bytes else []) + CoveredAad(ops[1..])
  }

  /** Additional data given after the last update that carried data. */
  function TrailingAad(ops: seq<Op>): seq<byte> {
    if ops == [] || DataOf(ops) == [] then []
    else if DataOf(ops[1..]) == [] then AadOf(ops[1..])
    else TrailingAad(ops[1..])
  }

  lemma {:induction false} AadIsCoveredOrTrailing(ops: seq<Op>)
    ensures AadOf(ops) == CoveredAad(ops) + TrailingAad(ops)
  {
    if ops != [] && DataOf(ops) != [] && DataOf(ops[1..]) != [] {
      AadIsCoveredOrTrailing(ops[1..]);
    }
  }

  /** The emitted part of the longer message continues the emitted part of the shorter one. */
  lemma TailsJoin(g: Key, iv: seq<byte>, a: seq<byte>, b: seq<byte>, c: seq<byte>)
    ensures Cipher(g, iv, a + b)[|a|..] + Cipher(g, iv, a + b + c)[|a| + |b|..]
         == Cipher(g, iv, a + (b + c))[|a|..]
  {
    hide Cipher;
    assert a + b + c == a + (b + c);
    CipherPrefix(g, iv, a + b, c);
    var all := Cipher(g, iv, a + b + c);
    assert all[|a|..] == all[..|a + b|][|a|..] + all[|a + b|..];
  }

  /** What a run of updates has taken in and emitted. */
  ghost predicate Progress(g: Key, s: Session, r: (Session, seq<byte>), aad: seq<byte>, data: seq<byte>) {
    && r.0.aad == s.aad + aad && r.0.data == s.data + data
    && r.0.enc == s.enc && r.0.iv == s.iv && r.0.tagLen == s.tagLen && r.0.authErr == s.authErr
    && r.1 == Cipher(g, s.iv, s.data + data)[|s.data|..]
  }

  /** What it has done to the tag slot: the tag covers the given additional data. */
  ghost predicate Covers(g: Key, s: Session, s': Session, aad: seq<byte>, data: seq<byte>)
    requires ValidSession(s)
  {
    if s.enc && data != [] then
      && s'.tagAvail
      && s'.buf == FullTag(g, s.iv, s.aad + aad, Cipher(g, s.iv, s.data + data))[..s.tagLen] + s.buf[s.tagLen..]
    else s'.tagAvail == s.tagAvail && s'.buf == s.buf
  }

  lemma ProgressJoins(g: Key, s: Session, m: (Session, seq<byte>), r: (Session, seq<byte>),
                      a: seq<byte>, b: seq<byte>, aad: seq<byte>, data: seq<byte>)
    requires Progress(g, s, m, a, b) && Progress(g, m.0, r, aad, data)
    ensures Progress(g, s, (r.0, m.1 + r.1), a + aad, b + data)
  {
    hide Cipher;
    assert s.data + (b + data) == s.data + b + data;
    assert s.aad + (a + aad) == s.aad + a + aad;
    TailsJoin(g, s.iv, s.data, b, data);
  }

  lemma CoversJoins(g: Key, s: Session, m: Session, s': Session,
                    a: seq<byte>, b: seq<byte>, aad: seq<byte>, data: seq<byte>)
    requires ValidSession(s) && ValidSession(m)
    requires m.enc == s.enc && m.iv == s.iv && m.tagLen == s.tagLen && m.aad == s.aad + a && m.data == s.data + b
    requires Covers(g, s, m, [], b) && Covers(g, m, s', aad, data)
    requires data != [] || b == [] || aad == []
    ensures Covers(g, s, s', if data == [] then [] else a + aad, b + data)
  {
    hide Cipher;
    assert s.data + (b + data) == s.data + b + data;
    assert s.aad + (a + aad) == s.aad + a + aad;
    assert b + [] == b;
  }

  /** What any run of updates, in any order, leaves in the session and emits. */
  lemma {:induction false} RunResult(g: Key, s: Session, ops: seq<Op>)
    requires ValidSession(s)
    ensures Progress(g, s, Run(g, s, ops), AadOf(ops), DataOf(ops))
    ensures Covers(g, s, Run(g, s, ops).0, if DataOf(ops) == [] then [] else CoveredAad(ops), DataOf(ops))
    decreases |ops|
  {
    hide Cipher;
    if ops == [] {
      assert s.data + [] == s.data && s.aad + [] == s.aad;
    } else {
      var first := Apply(g, s, ops[0]);
      var rest := ops[1..];
      var a := if ops[0].Aad? then ops[0].bytes else [];
      var b := if ops[0].Data? then ops[0].bytes else [];
      FirstStep(g, s, ops[0]);
      RunResult(g, first.0, rest);
      hide Apply, Progress, Covers;
      ProgressJoins(g, s, first, Run(g, first.0, rest), a, b, AadOf(rest), DataOf(rest));
      var covered := if DataOf(rest) == [] then [] else CoveredAad(rest);
      CoversJoins(g, s, first.0, Run(g, first.0, rest).0, a, b, covered, DataOf(rest));
      CoveredStep(ops);
    }
  }

  lemma CoveredStep(ops: seq<Op>)
    requires ops != []
    ensures var a := if ops[0].Aad? then ops[0].bytes else [];
            var b := if ops[0].Data? then ops[0].bytes else [];
            && AadOf(ops) == a + AadOf(ops[1..]) && DataOf(ops) == b + DataOf(ops[1..])
            && (DataOf(ops) != [] ==>
                  CoveredAad(ops) == if DataOf(ops[1..]) == [] then [] else a + CoveredAad(ops[1..]))
  {
  }

  lemma FirstStep(g: Key, s: Session, op: Op)
    requires ValidSession(s)
    ensures var r, b := Apply(g, s, op), if op.Data? then op.bytes else [];
            Progress(g, s, r, if op.Aad? then op.bytes else [], b) && Covers(g, s, r.0, [], b)
  {
    hide Cipher;
    assert s.data + [] == s.data && s.aad + [] == s.aad;
  }

  predicate Fresh(s: Session) {
    ValidSession(s) && s.aad == [] && s.data == [] && !s.tagAvail && !s.authErr
  }

  /** The tag that is in the slot when a run of updates has been finished. */
  function KeptTag(g: Key, s: Session, ops: seq<Op>): seq<byte>
    requires ValidSession(s)
  {
    Finish(g, Run(g, s, ops).0).1.buf[..s.tagLen]
  }

  /** A tag that was not fetched, or a recorded rejection, keeps final from making a tag; only an
      update with data makes one then. */
  predicate KeepsOldTag(s: Session, ops: seq<Op>) {
    DataOf(ops) == [] && (s.tagAvail || s.authErr)
  }

  /** Spooled encryption, in any number of updates, is one-shot encryption: the outputs join up to
      the ciphertext of the joined data, and after final the tag slot holds its tag, unless it
      keeps an old one. The tag covers the additional data given before the last data update. */
  lemma SpooledIsOneShot(g: Key, s: Session, ops: seq<Op>)
    requires ValidSession(s) && s.enc
    ensures var r := Run(g, s, ops);
            var ct := Cipher(g, s.iv, s.data + DataOf(ops));
            && r.1 == ct[|s.data|..]
            && (Finish(g, r.0).0 <==> !s.authErr)
            && KeptTag(g, s, ops) == if KeepsOldTag(s, ops) then s.buf[..s.tagLen]
                                     else FullTag(g, s.iv, s.aad + CoveredAad(ops), ct)[..s.tagLen]
  {
    hide Cipher;
    RunResult(g, s, ops);
    assert DataOf(ops) == [] ==> CoveredAad(ops) == AadOf(ops);
  }

  /** Under every key the kept tag is that of all the data and additional data, exactly when no
      additional data came after the last data update, and no old tag is kept. */
  lemma TagCoversAllAad(s: Session, ops: seq<Op>)
    requires ValidSession(s) && s.enc && s.tagLen > 0
    ensures (forall g: Key ::
               KeptTag(g, s, ops)
               == FullTag(g, s.iv, s.aad + AadOf(ops), Cipher(g, s.iv, s.data + DataOf(ops)))[..s.tagLen])
       <==> TrailingAad(ops) == [] && !KeepsOldTag(s, ops)
  {
    hide Cipher, Run, Finish, KeptTag;
    AadIsCoveredOrTrailing(ops);
    var all := s.aad + AadOf(ops);
    forall g: Key
      ensures KeptTag(g, s, ops)
           == if KeepsOldTag(s, ops) then s.buf[..s.tagLen]
              else FullTag(g, s.iv, s.aad + CoveredAad(ops), Cipher(g, s.iv, s.data + DataOf(ops)))[..s.tagLen]
    {
      SpooledIsOneShot(g, s, ops);
    }
    if KeepsOldTag(s, ops) {
      OldTagIsNotRight(s, ops, if s.buf[0] == 1 then SensitiveKey(all + [0]) else SensitiveKey(all));
    } else if TrailingAad(ops) != [] {
      var g, ct := SensitiveKey(all), Cipher(SensitiveKey(all), s.iv, s.data + DataOf(ops));
      assert |s.aad + CoveredAad(ops)| < |all|;
      assert FullTag(g, s.iv, all, ct)[..s.tagLen][0] == 1;
      assert KeptTag(g, s, ops)[0] == FullTag(g, s.iv, s.aad + CoveredAad(ops), ct)[..s.tagLen][0] == 0;
    } else {
      assert CoveredAad(ops) == AadOf(ops);
    }
  }

  lemma OldTagIsNotRight(s: Session, ops: seq<Op>, g: Key)
    requires ValidSession(s) && s.enc && s.tagLen > 0 && KeepsOldTag(s, ops)
    requires FullTag(g, s.iv, s.aad + AadOf(ops), Cipher(g, s.iv, s.data + DataOf(ops)))[0] != s.buf[0]
    ensures KeptTag(g, s, ops)
         != FullTag(g, s.iv, s.aad + AadOf(ops), Cipher(g, s.iv, s.data + DataOf(ops)))[..s.tagLen]
  {
    hide Cipher, Run, Finish, KeptTag;
    SpooledIsOneShot(g, s, ops);
    assert KeptTag(g, s, ops)[0] == s.buf[0];
  }

  /** A key whose tags tell whether the additional data is the given one. */
  function SensitiveKey(aad: seq<byte>): (g: Key)
    ensures forall iv, a, ct :: FullTag(g, iv, a, ct) == Repeat(if a == aad then 1 else 0, TAG_LEN)
  {
    RawKey(b => b, iv => Repeat(0, BLOCK), (iv, a, ct) => Repeat(if a == aad then 1 else 0, TAG_LEN))
  }

  /** One byte of data and then one of additional data: the tag does not cover the second. */
  lemma TrailingAadIsLost(g: Key, s: Session, x: byte, y: byte)
    requires Fresh(s) && s.enc
    ensures var ops := [Data([x]), Aad([y])];
            && AadOf(ops) == [y]
            && KeptTag(g, s, ops) == FullTag(g, s.iv, [], Cipher(g, s.iv, [x]))[..s.tagLen]
  {
    hide Cipher, Finish, Run;
    var ops := [Data([x]), Aad([y])];
    assert ops[1..] == [Aad([y])] && ops[1..][1..] == [];
    CoveredStep(ops);
    CoveredStep(ops[1..]);
    assert DataOf([]) == [] && AadOf([]) == [];
    assert [x] + [] == [x] && [y] + [] == [y] && [] + [y] == [y];
    SpooledIsOneShot(g, s, ops);
    assert s.data + [x] == [x] && s.aad + [] == [];
  }

  /** Spooled decryption emits the message although every update before final encrypts. Final
      accepts exactly when no tag was rejected before, and either the given tag is the tag of all
      that was taken in, or a tag the context made itself has not been fetched. */
  lemma SpooledDecryption(g: Key, s: Session, ops: seq<Op>)
    requires ValidSession(s) && !s.enc
    ensures var r := Run(g, s, ops);
            && r.1 == Cipher(g, s.iv, s.data + DataOf(ops))[|s.data|..]
            && (Finish(g, r.0).0 <==>
                  && !s.authErr
                  && (s.tagAvail
                      || s.buf[..s.tagLen]
                         == FullTag(g, s.iv, s.aad + AadOf(ops), s.data + DataOf(ops))[..s.tagLen]))
  {
    hide Cipher;
    RunResult(g, s, ops);
  }

  /** The round trip, whatever the two splittings: the receiver gets the sender's data and accepts. */
  lemma GcmRoundTrip(g: Key, s: Session, ops: seq<Op>, t: Session, back: seq<Op>)
    requires Fresh(s) && s.enc && Fresh(t) && !t.enc && s.iv == t.iv && s.tagLen == t.tagLen
    requires DataOf(back) == Run(g, s, ops).1 && AadOf(back) == AadOf(ops) && TrailingAad(ops) == []
    requires t.buf[..t.tagLen] == KeptTag(g, s, ops)
    ensures Run(g, t, back).1 == DataOf(ops)
    ensures Finish(g, Run(g, t, back).0).0
  {
    hide Run, Finish, Cipher, DataOf, AadOf, CoveredAad, TrailingAad;
    SpooledIsOneShot(g, s, ops);
    AadIsCoveredOrTrailing(ops);
    assert s.aad + CoveredAad(ops) == CoveredAad(ops) == AadOf(ops) && s.data + DataOf(ops) == DataOf(ops);
    SpooledDecryption(g, t, back);
    assert t.data + DataOf(back) == DataOf(back) && t.aad + AadOf(back) == AadOf(back);
    CipherInvolution(g, s.iv, DataOf(ops));
    assert Run(g, t, back).1 == Cipher(g, t.iv, DataOf(back));
  }
}
