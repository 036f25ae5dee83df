/** AES with ciphertext stealing, variant CS3. */
module CiphertextStealing {
  import opened Bytes
  import opened BlockCipher

  /** The length of everything before the last two blocks, the last of which may be partial; of a
      single block, nothing. */
  function Leading(n: nat): (k: nat)
    requires n >= BLOCK
    ensures Whole(k, BLOCK) && k + BLOCK <= n <= k + 2 * BLOCK && (n > BLOCK ==> k + BLOCK < n)
  {
    if n == BLOCK then 0
    else
      FloorIsWhole(n - 1 - BLOCK, BLOCK);
      Floor(n - 1 - BLOCK, BLOCK)
  }

  function ZeroPadded(data: seq<byte>): (r: seq<byte>)
    requires |data| >= BLOCK
    ensures |r| == Leading(|data|) + 2 * BLOCK && Whole(|r|, BLOCK)
  {
    OneBlockIsWhole(BLOCK);
    FloorOfSum(Leading(|data|), 2 * BLOCK, BLOCK);
    data + Repeat(0, Leading(|data|) + 2 * BLOCK - |data|)
  }

  /** CBC-CS3 of the Addendum to NIST SP 800-38A: CBC over the zero-padded data, the last two
      blocks swapped and the output cut to the length of the data. */
  function Stolen(ct: seq<byte>, n: nat): (r: seq<byte>)
    requires n >= BLOCK && |ct| == Leading(n) + 2 * BLOCK
    ensures |r| == n
  {
    var k := Leading(n);
    ct[..k] + ct[k + BLOCK..] + ct[k..n - BLOCK]
  }

  function CtsEncrypt(c: Cipher, iv: seq<byte>, data: seq<byte>): (r: seq<byte>)
    requires c.bs == BLOCK == |iv| && |data| >= BLOCK
    ensures |r| == |data|
  {
    Stolen(Crypt(c, CBC, true, iv, ZeroPadded(data)), |data|)
  }

  /** Put the last two blocks back in order; what was cut off is in the deciphered last block,
      because it was masked onto zeros. */
  function Restored(c: Cipher, ct: seq<byte>): (r: seq<byte>)
    requires c.bs == BLOCK && |ct| > BLOCK
    ensures |r| == Leading(|ct|) + 2 * BLOCK
  {
    var k := Leading(|ct|);
    var last, partial := ct[k..k + BLOCK], ct[k + BLOCK..];
    ct[..k] + partial + c.D(last)[|partial|..] + last
  }

  function CtsDecrypt(c: Cipher, iv: seq<byte>, ct: seq<byte>): (r: seq<byte>)
    requires c.bs == BLOCK == |iv| && |ct| > BLOCK
    ensures |r| == |ct|
  {
    OneBlockIsWhole(BLOCK);
    FloorOfSum(Leading(|ct|), 2 * BLOCK, BLOCK);
    Crypt(c, CBC, false, iv, Restored(c, ct))[..|ct|]
  }

  /** What the decryption writes. From a single block it makes two, and neither is the message. */
  function Deciphered(c: Cipher, iv: seq<byte>, ct: seq<byte>): (r: seq<byte>)
    requires c.bs == BLOCK == |iv| && |ct| >= BLOCK
    ensures |r| == if |ct| == BLOCK then 2 * BLOCK else |ct|
  {
    if |ct| > BLOCK then CtsDecrypt(c, iv, ct) else Xor(c.D(Repeat(0, BLOCK)), iv) + c.D(ct)
  }

  /** The register both directions leave in the context: the last CBC block, which is sent
      as the last whole block but one place early. */
  function SavedIv(ct: seq<byte>): (r: seq<byte>)
    requires |ct| >= BLOCK
    ensures |r| == BLOCK
  {
    ct[Leading(|ct|)..Leading(|ct|) + BLOCK]
  }

  // ---- the round trip ----

  lemma LastTwoBlocks(c: Cipher, iv: seq<byte>, data: seq<byte>, k: nat)
    requires c.bs == BLOCK == |iv| && |data| == k + 2 * BLOCK && Whole(k, BLOCK)
    ensures var reg := LastReg(c, CBC, true, iv, data[..k]);
            var c1 := c.E(Xor(data[k..k + BLOCK], reg));
            var c2 := c.E(Xor(data[k + BLOCK..], c1));
            && Crypt(c, CBC, true, iv, data) == Crypt(c, CBC, true, iv, data[..k]) + c1 + c2
            && LastReg(c, CBC, true, iv, data) == c2
  {
    hide Crypt, LastReg, Floor;
    var reg := LastReg(c, CBC, true, iv, data[..k]);
    var two := data[k..];
    assert data == data[..k] + two;
    CryptConcat(c, CBC, true, iv, data[..k], two);
    TwoBlocks(c, reg, two);
    assert two[..BLOCK] == data[k..k + BLOCK] && two[BLOCK..] == data[k + BLOCK..];
    var c1 := c.E(Xor(data[k..k + BLOCK], reg));
    Associative(Crypt(c, CBC, true, iv, data[..k]), c1, c.E(Xor(data[k + BLOCK..], c1)));
  }

  lemma TwoBlocks(c: Cipher, reg: seq<byte>, two: seq<byte>)
    requires c.bs == BLOCK == |reg| && |two| == 2 * BLOCK
    ensures var c1 := c.E(Xor(two[..BLOCK], reg));
            var c2 := c.E(Xor(two[BLOCK..], c1));
            && Crypt(c, CBC, true, reg, two) == c1 + c2
            && LastReg(c, CBC, true, reg, two) == c2
  {
    var c1 := c.E(Xor(two[..BLOCK], reg));
    OneBlock(c, true, reg, two[..BLOCK]);
    OneBlock(c, true, c1, two[BLOCK..]);
    assert two == two[..BLOCK] + two[BLOCK..];
    OneBlockIsWhole(BLOCK);
    hide Crypt, LastReg;
    CryptConcat(c, CBC, true, reg, two[..BLOCK], two[BLOCK..]);
  }

  lemma OneBlock(c: Cipher, enc: bool, reg: seq<byte>, block: seq<byte>)
    requires c.bs == BLOCK == |reg| == |block|
    ensures Crypt(c, CBC, enc, reg, block) == if enc then c.E(Xor(block, reg)) else Xor(c.D(block), reg)
    ensures LastReg(c, CBC, enc, reg, block) == if enc then c.E(Xor(block, reg)) else block
  {
    assert block[..BLOCK] == block && block[BLOCK..] == [];
  }

  /** A block with a zero tail, masked with c1, deciphers to the tail of c1. */
  lemma StolenTail(c: Cipher, last: seq<byte>, c1: seq<byte>, m: nat)
    requires c.bs == BLOCK == |last| == |c1| && m <= BLOCK
    requires forall i | m <= i < BLOCK :: last[i] == 0
    ensures c.D(c.E(Xor(last, c1)))[m..] == c1[m..]
  {
    assert forall i | m <= i < BLOCK :: Xor(last, c1)[i] == c1[i];
  }

  /** Where the parts of a ciphertext end up when its last two blocks are swapped and it is cut. */
  lemma StolenParts(head: seq<byte>, c1: seq<byte>, c2: seq<byte>, n: nat)
    requires n > BLOCK && |head| == Leading(n) && |c1| == |c2| == BLOCK
    ensures var ct, k := Stolen(head + c1 + c2, n), |head|;
            && ct[..k] == head && ct[k..k + BLOCK] == c2 && ct[k + BLOCK..] == c1[..n - k - BLOCK]
  {
    hide Floor;
    var k, m := |head|, n - |head| - BLOCK;
    assert Stolen(head + c1 + c2, n) == head + c2 + c1[..m];
  }

  lemma Rejoined(head: seq<byte>, c1: seq<byte>, c2: seq<byte>, m: nat)
    requires m <= |c1|
    ensures head + c1[..m] + c1[m..] + c2 == head + c1 + c2
  {
  }

  lemma PaddingIsZero(data: seq<byte>)
    requires |data| > BLOCK
    ensures var k := Leading(|data|);
            ZeroPadded(data)[k + BLOCK..] == data[k + BLOCK..] + Repeat(0, k + 2 * BLOCK - |data|)
  {
  }

  lemma RestoredIsWhole(c: Cipher, iv: seq<byte>, data: seq<byte>)
    requires c.bs == BLOCK == |iv| && |data| > BLOCK
    ensures Restored(c, CtsEncrypt(c, iv, data)) == Crypt(c, CBC, true, iv, ZeroPadded(data))
  {
    PaddingIsZero(data);
    hide Crypt, LastReg, Floor, Stolen, ZeroPadded, Xor;
    var padded, k := ZeroPadded(data), Leading(|data|);
    var m := |data| - k - BLOCK;
    LastTwoBlocks(c, iv, padded, k);
    var head, reg := Crypt(c, CBC, true, iv, padded[..k]), LastReg(c, CBC, true, iv, padded[..k]);
    var last := padded[k + BLOCK..];
    var c1 := c.E(Xor(padded[k..k + BLOCK], reg));
    var c2 := c.E(Xor(last, c1));
    StolenTail(c, last, c1, m);
    StolenParts(head, c1, c2, |data|);
    Rejoined(head, c1, c2, m);
  }

  /** Decryption undoes encryption for every length above one block. */
  lemma CtsUndoes(c: Cipher, iv: seq<byte>, data: seq<byte>)
    requires c.bs == BLOCK == |iv| && |data| > BLOCK
    ensures CtsDecrypt(c, iv, CtsEncrypt(c, iv, data)) == data
    ensures SavedIv(CtsEncrypt(c, iv, data)) == LastReg(c, CBC, true, iv, ZeroPadded(data))
  {
    hide Crypt, LastReg, Floor;
    var padded, k := ZeroPadded(data), Leading(|data|);
    RestoredIsWhole(c, iv, data);
    CryptRoundTrip(c, CBC, iv, padded);
    LastTwoBlocks(c, iv, padded, k);
    assert padded[..|data|] == data;
  }

  /** What goes out, spelled out: CBC over the data filled up with zeros to whole blocks, all blocks
      but the last two in order, then the last, and then as much of the one before it as there is
      data left. */
  lemma CtsIsSwapped(c: Cipher, iv: seq<byte>, data: seq<byte>)
    requires c.bs == 16 == |iv| && |data| >= 16
    ensures var n := if |data| == 16 then 2 else (|data| + 15) / 16;
            var padded := data + Repeat(0, 16 * n - |data|);
            && |Crypt(c, CBC, true, iv, padded)| == 16 * n
            && var cbc, k := Crypt(c, CBC, true, iv, padded), 16 * (n - 2);
               CtsEncrypt(c, iv, data) == cbc[..k] + cbc[k + 16..] + cbc[k..|data| - 16]
  {
    hide Crypt, Floor, IsPermutation;
    LeadingSpelledOut(|data|);
  }

  lemma LeadingSpelledOut(n: nat)
    requires n >= 16
    ensures var blocks := if n == 16 then 2 else (n + 15) / 16;
            && Leading(n) == 16 * (blocks - 2) && Whole(16 * blocks, 16)
  {
    LeadingIsBlocks(n);
    FloorIsRemainder(16 * (if n == 16 then 2 else (n + 15) / 16), 16);
  }

  /** Two registers decipher a first block differently. */
  lemma FirstBlockDecides(c: Cipher, reg: seq<byte>, iv: seq<byte>, data: seq<byte>)
    requires c.bs == BLOCK == |reg| == |iv| <= |data|
    requires Crypt(c, CBC, false, reg, data)[..BLOCK] == Crypt(c, CBC, false, iv, data)[..BLOCK]
    ensures reg == iv
  {
    var p := c.D(data[..BLOCK]);
    assert Xor(p, reg) == Xor(p, iv);
    XorInjective(p, reg, iv);
  }

  lemma XorInjective(p: seq<byte>, a: seq<byte>, b: seq<byte>)
    requires |p| == |a| == |b| && Xor(p, a) == Xor(p, b)
    ensures a == b
  {
    hide Xor;
    XorCommutes(p, a);
    XorCommutes(p, b);
    XorCancels(a, p);
    XorCancels(b, p);
  }

  lemma XorCommutes(a: seq<byte>, b: seq<byte>)
    requires |a| == |b|
    ensures Xor(a, b) == Xor(b, a)
  {
  }

  /** The round trip, whatever the two ends start from: above one block it works if and only if they
      start from the same bytes, and on one block if and only if the message happens to be the
      decipherment of zeros, added to the receiver's IV. */
  lemma CtsRoundTrip(c: Cipher, reg: seq<byte>, iv: seq<byte>, data: seq<byte>)
    requires c.bs == BLOCK == |reg| == |iv| && |data| >= BLOCK
    ensures Deciphered(c, iv, CtsEncrypt(c, reg, data))[..|data|] == data
       <==> if |data| > BLOCK then iv == reg else data == Xor(c.D(Repeat(0, BLOCK)), iv)
    ensures |data| > BLOCK ==>
              SavedIv(CtsEncrypt(c, reg, data)) == LastReg(c, CBC, true, reg, ZeroPadded(data))
  {
    if |data| > BLOCK {
      hide Crypt, LastReg, Floor, Restored, CtsEncrypt;
      var ct := CtsEncrypt(c, reg, data);
      CtsUndoes(c, reg, data);
      var all := Restored(c, ct);
      OneBlockIsWhole(BLOCK);
      FloorOfSum(Leading(|ct|), 2 * BLOCK, BLOCK);
      assert Deciphered(c, iv, ct)[..|data|] == CtsDecrypt(c, iv, ct);
      if CtsDecrypt(c, iv, ct) == data {
        assert Crypt(c, CBC, false, iv, all)[..BLOCK] == data[..BLOCK] == Crypt(c, CBC, false, reg, all)[..BLOCK];
        FirstBlockDecides(c, reg, iv, all);
      }
    }
  }

  // ---- the two parts the context works in ----

  lemma LeadingIsBlocks(n: nat)
    requires n >= BLOCK
    ensures var blocks := (n + (BLOCK - 1)) / BLOCK - 2;
            Leading(n) == if blocks > 0 then blocks * BLOCK else 0
  {
    if n > BLOCK {
      FloorIsRemainder(n - 1 - BLOCK, BLOCK);
    }
  }

  /** Enciphering the leading blocks and then the scratch block of the rest is CS3. */
  lemma EncryptComposes(c: Cipher, start: seq<byte>, input: seq<byte>)
    requires c.bs == BLOCK == |start| && |input| >= BLOCK
    ensures var k := Leading(|input|);
            var rest := input[k..];
            var two := Overwrite(Repeat(0, 2 * BLOCK), 0, rest);
            var mid := LastReg(c, CBC, true, start, input[..k]);
            var head, cts := Crypt(c, CBC, true, start, input[..k]), Crypt(c, CBC, true, mid, two);
            && (k == 0 ==> head == [] && mid == start)
            && |cts| == 2 * BLOCK
            && CtsEncrypt(c, start, input) == head + cts[BLOCK..] + cts[..|rest| - BLOCK]
            && LastReg(c, CBC, true, start, ZeroPadded(input)) == LastReg(c, CBC, true, mid, two)
  {
    hide Crypt, LastReg, Floor;
    var k := Leading(|input|);
    var rest := input[k..];
    var two := Overwrite(Repeat(0, 2 * BLOCK), 0, rest);
    var mid := LastReg(c, CBC, true, start, input[..k]);
    assert ZeroPadded(input) == input[..k] + two;
    CryptConcat(c, CBC, true, start, input[..k], two);
    CryptNothing(c, CBC, true, start);
    OneBlockIsWhole(BLOCK);
    FloorOfSum(BLOCK, BLOCK, BLOCK);
    var head, cts := Crypt(c, CBC, true, start, input[..k]), Crypt(c, CBC, true, mid, two);
    assert k == 0 ==> input[..k] == [];
    assert (head + cts)[..k] == head && (head + cts)[k + BLOCK..] == cts[BLOCK..];
    assert (head + cts)[k..|input| - BLOCK] == cts[..|rest| - BLOCK];
  }

  lemma TwoBlocksBack(c: Cipher, reg: seq<byte>, c1: seq<byte>, c2: seq<byte>)
    requires c.bs == BLOCK == |reg| == |c1| == |c2|
    ensures Crypt(c, CBC, false, reg, c1 + c2) == Xor(c.D(c1), reg) + Xor(c.D(c2), c1)
  {
    OneBlock(c, false, reg, c1);
    OneBlock(c, false, c1, c2);
    OneBlockIsWhole(BLOCK);
    hide Crypt, LastReg;
    CryptConcat(c, CBC, false, reg, c1, c2);
  }

  /** What the decryption works out from the last two blocks sent, or from a single one, which it
      takes for a whole last block before a block of zeros. */
  function Recovered(c: Cipher, mid: seq<byte>, rest: seq<byte>): (r: (seq<byte>, seq<byte>, seq<byte>))
    requires c.bs == BLOCK == |mid| && BLOCK <= |rest| <= 2 * BLOCK
    ensures |r.0| == |r.1| == BLOCK && |r.2| == if |rest| == BLOCK then BLOCK else |rest| - BLOCK
  {
    var m := if |rest| == BLOCK then BLOCK else |rest| - BLOCK;
    var tmp := Xor(c.D(rest[..BLOCK]), rest[BLOCK..] + Repeat(0, 2 * BLOCK - |rest|));
    var c1 := if |rest| == BLOCK then Repeat(0, BLOCK) else rest[BLOCK..] + tmp[m..];
    (c1, Xor(c.D(c1), mid), tmp[..m])
  }

  lemma DecryptComposes(c: Cipher, iv: seq<byte>, input: seq<byte>)
    requires c.bs == BLOCK == |iv| && |input| >= BLOCK
    ensures var k := Leading(|input|);
            var mid := LastReg(c, CBC, false, iv, input[..k]);
            var r := Recovered(c, mid, input[k..]);
            && (k == 0 ==> mid == iv)
            && Deciphered(c, iv, input) == Crypt(c, CBC, false, iv, input[..k]) + r.1 + r.2
  {
    if |input| > BLOCK {
      LongDecryptComposes(c, iv, input);
    } else {
      CryptNothing(c, CBC, false, iv);
      assert input[..0] == [] && input[0..] == input && input[BLOCK..] == [];
      assert [] + Repeat(0, BLOCK) == Repeat(0, BLOCK) && input[..BLOCK] == input;
      XorZeros(c.D(input));
      assert [] + Xor(c.D(Repeat(0, BLOCK)), iv) == Xor(c.D(Repeat(0, BLOCK)), iv);
    }
  }

  lemma XorZeros(a: seq<byte>)
    ensures Xor(a, Repeat(0, |a|)) == a && Xor(a, Repeat(0, |a|))[..|a|] == a
  {
  }

  lemma LongDecryptComposes(c: Cipher, iv: seq<byte>, input: seq<byte>)
    requires c.bs == BLOCK == |iv| && |input| > BLOCK
    ensures var k := Leading(|input|);
            var mid := LastReg(c, CBC, false, iv, input[..k]);
            var r := Recovered(c, mid, input[k..]);
            && (k == 0 ==> mid == iv)
            && CtsDecrypt(c, iv, input) == Crypt(c, CBC, false, iv, input[..k]) + r.1 + r.2
  {
    hide Crypt, LastReg, Floor, Recovered, Restored;
    var k := Leading(|input|);
    var rest := input[k..];
    var m := |rest| - BLOCK;
    var head, mid := Crypt(c, CBC, false, iv, input[..k]), LastReg(c, CBC, false, iv, input[..k]);
    var r := Recovered(c, mid, rest);
    CryptNothing(c, CBC, false, iv);
    assert k == 0 ==> input[..k] == [];
    RestoredIsRecovered(c, mid, input);
    CryptConcat(c, CBC, false, iv, input[..k], r.0 + rest[..BLOCK]);
    TwoBlocksBack(c, mid, r.0, rest[..BLOCK]);
    RecoveredPlain(c, mid, rest);
    var p2 := Xor(c.D(rest[..BLOCK]), r.0);
    assert (head + (r.1 + p2))[..|input|] == head + r.1 + p2[..m];
  }

  lemma RestoredIsRecovered(c: Cipher, mid: seq<byte>, input: seq<byte>)
    requires c.bs == BLOCK == |mid| && |input| > BLOCK
    ensures var k := Leading(|input|);
            var rest := input[k..];
            Restored(c, input) == input[..k] + (Recovered(c, mid, rest).0 + rest[..BLOCK])
  {
    hide Floor;
    var k := Leading(|input|);
    var rest := input[k..];
    var m := |rest| - BLOCK;
    var tmp := Xor(c.D(rest[..BLOCK]), rest[BLOCK..] + Repeat(0, BLOCK - m));
    assert tmp[m..] == c.D(rest[..BLOCK])[m..];
    assert input[k..k + BLOCK] == rest[..BLOCK] && input[k + BLOCK..] == rest[BLOCK..];
  }

  lemma RecoveredPlain(c: Cipher, mid: seq<byte>, rest: seq<byte>)
    requires c.bs == BLOCK == |mid| && BLOCK <= |rest| <= 2 * BLOCK
    ensures var r := Recovered(c, mid, rest);
            && r.1 == Xor(c.D(r.0), mid)
            && (|rest| > BLOCK ==> r.2 == Xor(c.D(rest[..BLOCK]), r.0)[..|rest| - BLOCK])
  {
  }

  lemma ScratchParts(rest: seq<byte>)
    requires BLOCK <= |rest| <= 2 * BLOCK
    ensures var two := Overwrite(Repeat(0, 2 * BLOCK), 0, rest);
            two[..BLOCK] == rest[..BLOCK] && two[BLOCK..] == rest[BLOCK..] + Repeat(0, 2 * BLOCK - |rest|)
  {
  }

  lemma ScratchCompleted(rest: seq<byte>, stolen: seq<byte>)
    requires BLOCK < |rest| && |rest| + |stolen| == 2 * BLOCK
    ensures Overwrite(Overwrite(Repeat(0, 2 * BLOCK), 0, rest), |rest|, stolen)[BLOCK..] == rest[BLOCK..] + stolen
  {
  }
}
