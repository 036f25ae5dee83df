/** A keyed block permutation and the two block modes built on it, CBC and ECB. */
module BlockCipher {
  import opened Bytes

  /** One key schedule: the forward and the inverse permutation on blocks of bs bytes. */
  datatype RawCipher = RawCipher(bs: nat, E: seq<byte> -> seq<byte>, D: seq<byte> -> seq<byte>)

  ghost predicate IsPermutation(c: RawCipher) {
    && 0 < c.bs < 256
    && (forall b: seq<byte> {:trigger c.E(b)} | |b| == c.bs :: |c.E(b)| == c.bs && c.D(c.E(b)) == b)
    && (forall b: seq<byte> {:trigger c.D(b)} | |b| == c.bs :: |c.D(b)| == c.bs)
  }

  type Cipher = c: RawCipher | IsPermutation(c) witness RawCipher(1, b => b, b => b)

  datatype Mode = CBC | ECB

  /** What the cipher emits for one block, with the chaining register at reg. */
  function BlockOut(c: Cipher, mode: Mode, enc: bool, reg: seq<byte>, block: seq<byte>): (r: seq<byte>)
    requires |reg| == |block| == c.bs
    ensures |r| == c.bs
  {
    match mode
    case CBC => if enc then c.E(Xor(block, reg)) else Xor(c.D(block), reg)
    case ECB => if enc then c.E(block) else c.D(block)
  }

  /** The chaining register after one block: the ciphertext block in CBC, untouched in ECB. */
  function RegAfter(c: Cipher, mode: Mode, enc: bool, reg: seq<byte>, block: seq<byte>): (r: seq<byte>)
    requires |reg| == |block| == c.bs
    ensures |r| == c.bs
  {
    if mode == ECB then reg
    else if enc then BlockOut(c, mode, enc, reg, block)
    else block
  }

  /** The output for all the whole blocks of data. */
  function Crypt(c: Cipher, mode: Mode, enc: bool, reg: seq<byte>, data: seq<byte>): (r: seq<byte>)
    requires |reg| == c.bs
    ensures |r| == Floor(|data|, c.bs)
    decreases |data|
  {
    if |data| < c.bs then []
    else
      var block := data[..c.bs];
      BlockOut(c, mode, enc, reg, block)
      + Crypt(c, mode, enc, RegAfter(c, mode, enc, reg, block), data[c.bs..])
  }

  /** The chaining register after all the whole blocks of data. */
  function LastReg(c: Cipher, mode: Mode, enc: bool, reg: seq<byte>, data: seq<byte>): (r: seq<byte>)
    requires |reg| == c.bs
    ensures |r| == c.bs
    decreases |data|
  {
    if |data| < c.bs then reg
    else LastReg(c, mode, enc, RegAfter(c, mode, enc, reg, data[..c.bs]), data[c.bs..])
  }

  lemma CryptNothing(c: Cipher, mode: Mode, enc: bool, reg: seq<byte>)
    requires |reg| == c.bs
    ensures Crypt(c, mode, enc, reg, []) == [] && LastReg(c, mode, enc, reg, []) == reg
  {
  }

  /** Processing a + b is processing a and then b from the register a left behind. */
  lemma {:induction false} CryptConcat(c: Cipher, mode: Mode, enc: bool, reg: seq<byte>,
                                       a: seq<byte>, b: seq<byte>)
    requires |reg| == c.bs && Whole(|a|, c.bs)
    ensures Crypt(c, mode, enc, reg, a + b)
         == Crypt(c, mode, enc, reg, a) + Crypt(c, mode, enc, LastReg(c, mode, enc, reg, a), b)
    ensures LastReg(c, mode, enc, reg, a + b)
         == LastReg(c, mode, enc, LastReg(c, mode, enc, reg, a), b)
    decreases |a|
  {
    if a == [] {
      assert a + b == b;
    } else {
      var block, rest := a[..c.bs], a[c.bs..];
      var reg' := RegAfter(c, mode, enc, reg, block);
      assert (a + b)[..c.bs] == block && (a + b)[c.bs..] == rest + b;
      CryptConcat(c, mode, enc, reg', rest, b);
      Associative(BlockOut(c, mode, enc, reg, block), Crypt(c, mode, enc, reg', rest),
                  Crypt(c, mode, enc, LastReg(c, mode, enc, reg', rest), b));
    }
  }

  /** Decrypting what was encrypted from the same register gives the data back and leaves
      both sides with the same register. */
  lemma {:induction false} CryptRoundTrip(c: Cipher, mode: Mode, reg: seq<byte>, data: seq<byte>)
    requires |reg| == c.bs && Whole(|data|, c.bs)
    ensures Crypt(c, mode, false, reg, Crypt(c, mode, true, reg, data)) == data
    ensures LastReg(c, mode, false, reg, Crypt(c, mode, true, reg, data))
         == LastReg(c, mode, true, reg, data)
    decreases |data|
  {
    if data != [] {
      var block, rest := data[..c.bs], data[c.bs..];
      var o := BlockOut(c, mode, true, reg, block);
      var reg' := RegAfter(c, mode, true, reg, block);
      var ct := Crypt(c, mode, true, reg, data);
      assert ct[..c.bs] == o && ct[c.bs..] == Crypt(c, mode, true, reg', rest);
      XorCancels(block, reg);
      assert BlockOut(c, mode, false, reg, o) == block;
      assert RegAfter(c, mode, false, reg, o) == reg';
      CryptRoundTrip(c, mode, reg', rest);
    }
  }

  /** The data after the first at bytes is processed from the register those bytes leave. */
  lemma CryptSuffix(c: Cipher, mode: Mode, enc: bool, reg: seq<byte>, data: seq<byte>, at: nat)
    requires |reg| == c.bs && at <= |data| && Whole(at, c.bs)
    ensures var ct := Crypt(c, mode, enc, reg, data);
            var mid := LastReg(c, mode, enc, reg, data[..at]);
            && at <= |ct| && ct[..at] == Crypt(c, mode, enc, reg, data[..at])
            && ct[at..] == Crypt(c, mode, enc, mid, data[at..])
  {
    assert data == data[..at] + data[at..];
    CryptConcat(c, mode, enc, reg, data[..at], data[at..]);
  }

  /** A CBC register is the last ciphertext block: the last one made, or the last one taken in. */
  lemma {:induction false} CbcRegIsLastBlock(c: Cipher, enc: bool, reg: seq<byte>, data: seq<byte>)
    requires |reg| == c.bs <= |data| && Whole(|data|, c.bs)
    ensures LastReg(c, CBC, enc, reg, data)
         == if enc then Crypt(c, CBC, true, reg, data)[|data| - c.bs..] else data[|data| - c.bs..]
    decreases |data|
  {
    var block, rest := data[..c.bs], data[c.bs..];
    var o, next := BlockOut(c, CBC, enc, reg, block), RegAfter(c, CBC, enc, reg, block);
    assert Crypt(c, CBC, enc, reg, data) == o + Crypt(c, CBC, enc, next, rest);
    if rest != [] {
      CbcRegIsLastBlock(c, enc, next, rest);
    }
  }

  lemma CbcFirstBlock(c: Cipher, reg: seq<byte>, data: seq<byte>)
    requires |reg| == c.bs <= |data|
    ensures Floor(|data|, c.bs) >= c.bs
    ensures Crypt(c, CBC, true, reg, data)[..c.bs] == c.E(Xor(data[..c.bs], reg))
  {
  }

  lemma SliceOfSlice<T>(s: seq<T>, lo: nat, mid: nat, hi: nat)
    requires lo <= mid <= hi <= |s|
    ensures s[lo..][mid - lo..hi - lo] == s[mid..hi]
    ensures s[..hi][lo..mid] == s[lo..mid]
  {
  }

  /** CBC of section 6.2 of NIST SP 800-38A: each ciphertext block is the permutation of its
      plaintext block masked with the ciphertext block before it, the first one with the IV. */
  lemma CbcIsChained(c: Cipher, reg: seq<byte>, data: seq<byte>, at: nat)
    requires |reg| == c.bs && Whole(|data|, c.bs) && Whole(at, c.bs) && at + c.bs <= |data|
    ensures var ct := Crypt(c, CBC, true, reg, data);
            ct[at..at + c.bs] == c.E(Xor(data[at..at + c.bs], if at == 0 then reg else ct[at - c.bs..at]))
  {
    var ct := Crypt(c, CBC, true, reg, data);
    var mid := LastReg(c, CBC, true, reg, data[..at]);
    CryptSuffix(c, CBC, true, reg, data, at);
    SliceOfSlice(ct, at, at, at + c.bs);
    SliceOfSlice(data, at, at, at + c.bs);
    CbcFirstBlock(c, mid, data[at..]);
    assert mid == if at == 0 then reg else ct[at - c.bs..at] by {
      if at > 0 {
        CbcRegIsLastBlock(c, true, reg, data[..at]);
        SliceOfSlice(ct, 0, at - c.bs, at);
      }
    }
  }

  /** CBC decryption self-synchronises: the register it starts from only reaches the first block. */
  lemma CbcSelfSynchronises(c: Cipher, reg: seq<byte>, reg': seq<byte>, data: seq<byte>)
    requires |reg| == |reg'| == c.bs <= |data| && Whole(|data|, c.bs)
    ensures Crypt(c, CBC, false, reg, data)[c.bs..] == Crypt(c, CBC, false, reg', data)[c.bs..]
    ensures LastReg(c, CBC, false, reg, data) == LastReg(c, CBC, false, reg', data)
  {
    var tail := Crypt(c, CBC, false, data[..c.bs], data[c.bs..]);
    assert Crypt(c, CBC, false, reg, data)[c.bs..] == tail;
    assert Crypt(c, CBC, false, reg', data)[c.bs..] == tail;
  }

  /** Block at of a run, on its own: the cipher applied once, from the register before it. */
  lemma BlockOfRun(c: Cipher, mode: Mode, enc: bool, reg: seq<byte>, data: seq<byte>, at: nat)
    requires |reg| == c.bs && Whole(at, c.bs) && at + c.bs <= |data| && Whole(|data|, c.bs)
    ensures at + c.bs <= |Crypt(c, mode, enc, reg, data)|
    ensures Crypt(c, mode, enc, reg, data)[at..at + c.bs]
         == BlockOut(c, mode, enc, LastReg(c, mode, enc, reg, data[..at]), data[at..at + c.bs])
  {
    hide Crypt, LastReg, BlockOut, Floor, IsPermutation;
    var mid := LastReg(c, mode, enc, reg, data[..at]);
    var all := Crypt(c, mode, enc, reg, data);
    CryptSuffix(c, mode, enc, reg, data, at);
    FirstOfRun(c, mode, enc, mid, data[at..]);
    SliceOfSlice(all, at, at, at + c.bs);
    SliceOfSlice(data, at, at, at + c.bs);
    SliceFromStart(all, at, c.bs);
    SliceFromStart(data, at, c.bs);
  }

  lemma FirstOfRun(c: Cipher, mode: Mode, enc: bool, reg: seq<byte>, data: seq<byte>)
    requires |reg| == c.bs <= |data|
    ensures c.bs <= |Crypt(c, mode, enc, reg, data)|
    ensures Crypt(c, mode, enc, reg, data)[..c.bs] == BlockOut(c, mode, enc, reg, data[..c.bs])
  {
    hide BlockOut, RegAfter;
  }

  lemma SliceFromStart<T>(s: seq<T>, at: nat, n: nat)
    requires at + n <= |s|
    ensures s[at..][..n] == s[at..at + n]
  {
  }

  /** Decryption: every plaintext block is the inverse permutation of its ciphertext block, added to
      the ciphertext block before it, the first to the IV. */
  lemma CbcDeciphers(c: Cipher, reg: seq<byte>, data: seq<byte>, at: nat)
    requires |reg| == c.bs && Whole(at, c.bs) && at + c.bs <= |data| && Whole(|data|, c.bs)
    ensures at + c.bs <= |Crypt(c, CBC, false, reg, data)| && (at > 0 ==> c.bs <= at)
    ensures Crypt(c, CBC, false, reg, data)[at..at + c.bs]
         == Xor(c.D(data[at..at + c.bs]), if at == 0 then reg else data[at - c.bs..at])
  {
    BlockOfRun(c, CBC, false, reg, data, at);
    if at > 0 {
      hide Crypt, LastReg;
      CbcRegIsLastBlock(c, false, reg, data[..at]);
      assert data[..at][at - c.bs..] == data[at - c.bs..at];
    } else {
      CryptNothing(c, CBC, false, reg);
      assert data[..0] == [];
    }
  }

  /** ECB: every block on its own. */
  lemma EcbIsBlockwise(c: Cipher, enc: bool, reg: seq<byte>, data: seq<byte>, at: nat)
    requires |reg| == c.bs && Whole(at, c.bs) && at + c.bs <= |data| && Whole(|data|, c.bs)
    ensures at + c.bs <= |Crypt(c, ECB, enc, reg, data)|
    ensures Crypt(c, ECB, enc, reg, data)[at..at + c.bs]
         == if enc then c.E(data[at..at + c.bs]) else c.D(data[at..at + c.bs])
  {
    BlockOfRun(c, ECB, enc, reg, data, at);
  }
}
