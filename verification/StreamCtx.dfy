/** The AES context of the counter, feedback and ciphertext stealing modes. */
module StreamContext {
  import opened Bytes
  import opened BlockCipher
  import opened CiphertextStealing
  import opened StreamModes

  datatype StreamKind = Counter | Feedback | CTS

  lemma StreamNothing(c: Cipher, m: StreamMode, enc: bool, s: Keystream)
    requires Fits(c, s)
    ensures Through(c, m, enc, s, []) == (s, [])
  {
  }

  class AesStreamCtx {
    const mode: StreamKind
    var cipher: Cipher
    var reg: seq<byte>
    /** The keystream the library has not used up yet. */
    var left: seq<byte>
    var iv: seq<byte>
    var oiv: seq<byte>
    var enc: bool
    /** Ciphertext stealing allows only a single shot. */
    var updated: bool

    predicate Valid()
      reads this
    {
      cipher.bs == BLOCK == |reg| == |iv| && |left| <= BLOCK
    }

    constructor (mode: StreamKind, key: Cipher)
      requires key.bs == BLOCK
      ensures Valid() && this.mode == mode && cipher == key && left == [] && !updated
    {
      this.mode, cipher := mode, key;
      reg, left, iv, oiv := Repeat(0, BLOCK), [], Repeat(0, BLOCK), Repeat(0, BLOCK);
      enc, updated := false, false;
    }

    /** Start a message. Setting a key loads the given IV, or zeros; without a key the register
        stays, and only unused keystream is forgotten. A key of the wrong length stops only after
        the IV has been taken. */
    method Init(key: Option<Cipher>, keyLenOk: bool, newIv: Option<seq<byte>>, enc: bool, running: bool, paramsOk: bool)
        returns (ok: bool)
      requires Valid() && (key.Some? ==> key.value.bs == BLOCK)
      modifies this
      ensures Valid() && this.enc == enc
      ensures var begun := running && (newIv.Some? ==> |newIv.value| == BLOCK);
              var keyed := begun && (key.Some? ==> keyLenOk);
              && ok == (keyed && paramsOk)
              && iv == (if begun && newIv.Some? then newIv.value else old(iv))
              && oiv == (if begun && newIv.Some? then newIv.value else old(oiv))
              && cipher == (if keyed && key.Some? then key.value else old(cipher))
              && reg == (if !keyed || key.None? then old(reg)
                         else if newIv.Some? then newIv.value
                         else Repeat(0, BLOCK))
              && (if keyed then left == [] && !updated else unchanged(this`left, this`updated))
    {
      this.enc := enc;
      ok := running;
      if ok && newIv.Some? {
        ok := |newIv.value| == BLOCK;
        if ok {
          iv := newIv.value;
          oiv := iv;
        }
      }
      if ok && key.Some? {
        ok := keyLenOk;
        if ok {
          cipher := key.value;
          reg := if newIv.Some? then newIv.value else Repeat(0, BLOCK);
          left := [];
        }
      } else if ok {
        left := [];
      }
      if ok {
        updated := false;
        ok := paramsOk;
      }
    }

    // ---- counter and feedback mode ----

    /** wc_AesCtrEncrypt, wc_AesCfbEncrypt and wc_AesCfbDecrypt on a buffer. */
    method LibStream(m: StreamMode, out: array<byte>, outOff: nat, chunk: seq<byte>)
      requires Valid() && outOff + |chunk| <= out.Length
      modifies this`reg, this`left, out
      ensures Valid()
      ensures var r := Through(cipher, m, enc, Keystream(old(reg), old(left)), chunk);
              out[..] == Overwrite(old(out[..]), outOff, r.1) && Keystream(reg, left) == r.0
    {
      var r := Through(cipher, m, enc, Keystream(reg, left), chunk);
      reg, left := r.0.reg, r.0.left;
      Copy(out, outOff, r.1);
    }

    /** Chunks whose length fits a word32; the chunking is invisible. */
    method StreamBytes(m: StreamMode, out: array<byte>, outOff: nat, input: seq<byte>)
      requires Valid() && outOff + |input| <= out.Length
      modifies this`reg, this`left, this`iv, out
      ensures Valid() && iv == reg
      ensures var r := Through(cipher, m, enc, Keystream(old(iv), old(left)), input);
              out[..] == Overwrite(old(out[..]), outOff, r.1) && Keystream(iv, left) == r.0
    {
      hide Through, Overwrite;
      ghost var s, out0 := Keystream(iv, left), out[..];
      reg := iv;
      StreamNothing(cipher, m, enc, s);
      OverwriteNothing(out0, outOff);
      var pos := 0;
      while pos < |input|
        invariant pos <= |input| && Valid()
        invariant Keystream(reg, left) == Through(cipher, m, enc, s, input[..pos]).0
        invariant out[..] == Overwrite(out0, outOff, Through(cipher, m, enc, s, input[..pos]).1)
      {
        var rest := |input| - pos;
        var chunk := if rest > 0xFFFF_FFF0 then 0xFFFF_FFF0 else rest;
        assert input[..pos + chunk] == input[..pos] + input[pos..pos + chunk];
        ThroughConcat(cipher, m, enc, s, input[..pos], input[pos..pos + chunk]);
        OverwriteTwice(out0, outOff, Through(cipher, m, enc, s, input[..pos]).1,
                       Through(cipher, m, enc, Keystream(reg, left), input[pos..pos + chunk]).1);
        LibStream(m, out, outOff + pos, input[pos..pos + chunk]);
        pos := pos + chunk;
      }
      assert input[..pos] == input;
      iv := reg;
    }

    // ---- ciphertext stealing ----

    /** wc_AesCbcEncrypt and wc_AesCbcDecrypt on a buffer. */
    method Cbc(encrypt: bool, out: array<byte>, outOff: nat, input: seq<byte>)
      requires Valid() && Whole(|input|, BLOCK) && outOff + |input| <= out.Length
      modifies this`reg, out
      ensures Valid()
      ensures out[..] == Overwrite(old(out[..]), outOff, Crypt(cipher, CBC, encrypt, old(reg), input))
      ensures reg == LastReg(cipher, CBC, encrypt, old(reg), input)
    {
      var o := Crypt(cipher, CBC, encrypt, reg, input);
      reg := LastReg(cipher, CBC, encrypt, reg, input);
      Copy(out, outOff, o);
    }

    /** The register an operation starts from: the IV is only loaded for leading blocks. */
    function StartReg(n: nat): seq<byte>
      requires n >= BLOCK
      reads this
    {
      if Leading(n) > 0 then iv else reg
    }

    method LeadingBlocks(encrypt: bool, out: array<byte>, outOff: nat, input: seq<byte>) returns (k: nat)
      requires Valid() && |input| >= BLOCK && outOff + |input| <= out.Length
      modifies this`reg, this`iv, out
      ensures Valid() && k == Leading(|input|)
      ensures out[..] == Overwrite(old(out[..]), outOff,
                                   if k == 0 then [] else Crypt(cipher, CBC, encrypt, old(iv), input[..k]))
      ensures k == 0 ==> reg == old(reg) && iv == old(iv)
      ensures k > 0 ==> iv == reg == LastReg(cipher, CBC, encrypt, old(iv), input[..k])
    {
      hide Crypt, LastReg, Overwrite;
      var blocks: int := (|input| + (BLOCK - 1)) / BLOCK;
      blocks := blocks - 2;
      LeadingIsBlocks(|input|);
      k := if blocks > 0 then blocks * BLOCK else 0;
      OverwriteNothing(out[..], outOff);
      if blocks > 0 {
        reg := iv;
        Cbc(encrypt, out, outOff, input[..k]);
        iv := reg;
      }
    }

    method Encrypt(out: array<byte>, outOff: nat, input: seq<byte>)
      requires Valid() && |input| >= BLOCK && outOff + |input| <= out.Length
      modifies this`reg, this`iv, out
      ensures Valid()
      ensures out[..] == Overwrite(old(out[..]), outOff, CtsEncrypt(cipher, old(StartReg(|input|)), input))
      ensures iv == reg == LastReg(cipher, CBC, true, old(StartReg(|input|)), ZeroPadded(input))
    {
      hide Crypt, LastReg, Overwrite;
      ghost var start, out0 := StartReg(|input|), out[..];
      var ctsBlock := new byte[BLOCK * 2](_ => 0);
      var k := LeadingBlocks(true, out, outOff, input);
      var rest := input[k..];
      assert ctsBlock[..] == Repeat(0, 2 * BLOCK);
      Copy(ctsBlock, 0, rest);
      EncryptComposes(cipher, start, input);
      OneBlockIsWhole(BLOCK);
      FloorOfSum(BLOCK, BLOCK, BLOCK);
      ghost var two := ctsBlock[..];
      ghost var head := if k == 0 then [] else Crypt(cipher, CBC, true, start, input[..k]);
      assert two == Overwrite(Repeat(0, 2 * BLOCK), 0, rest);
      Cbc(true, ctsBlock, 0, ctsBlock[..]);
      iv := reg;
      WholeOverwrite(two, Crypt(cipher, CBC, true, LastReg(cipher, CBC, true, start, input[..k]), two));
      var last, partial := ctsBlock[BLOCK..], ctsBlock[..|rest| - BLOCK];
      Copy(out, outOff + k, last);
      Copy(out, outOff + k + BLOCK, partial);
      OverwriteTwice(out0, outOff, head, last);
      OverwriteTwice(out0, outOff, head + last, partial);
    }

    /** How many bytes the decryption of a rest or a message writes: two blocks for a single one. */
    function Written(n: nat): nat {
      if n == BLOCK then 2 * BLOCK else n
    }

    /** Decipher the block that was sent whole with the zero-padded other one as the register. */
    method DecipherLast(rest: seq<byte>) returns (ctsBlock: array<byte>, tmp: array<byte>)
      requires Valid() && BLOCK <= |rest| <= 2 * BLOCK
      modifies this`reg
      ensures Valid() && reg == rest[..BLOCK]
      ensures fresh(ctsBlock) && fresh(tmp) && ctsBlock != tmp && tmp.Length == BLOCK && ctsBlock.Length == 2 * BLOCK
      ensures ctsBlock[..] == Overwrite(Repeat(0, 2 * BLOCK), 0, rest)
      ensures tmp[..] == Xor(cipher.D(rest[..BLOCK]), rest[BLOCK..] + Repeat(0, 2 * BLOCK - |rest|))
    {
      hide Overwrite, Crypt, LastReg;
      ctsBlock := new byte[BLOCK * 2](_ => 0);
      tmp := new byte[BLOCK](_ => 0);
      OneBlockIsWhole(BLOCK);
      assert ctsBlock[..] == Repeat(0, 2 * BLOCK);
      Copy(ctsBlock, 0, rest);
      ScratchParts(rest);
      assert ctsBlock[BLOCK..] == ctsBlock[..][BLOCK..] && ctsBlock[..BLOCK] == ctsBlock[..][..BLOCK];
      reg := ctsBlock[BLOCK..];
      OneBlock(cipher, false, reg, ctsBlock[..BLOCK]);
      assert tmp[..] == Repeat(0, BLOCK);
      Cbc(false, tmp, 0, ctsBlock[..BLOCK]);
      WholeOverwrite(Repeat(0, BLOCK), Xor(cipher.D(rest[..BLOCK]), rest[BLOCK..] + Repeat(0, 2 * BLOCK - |rest|)));
    }

    /** That gives the end of the message, and the bytes that were cut off the other block. */
    method RecoverStolen(out: array<byte>, outOff: nat, rest: seq<byte>)
        returns (ctsBlock: array<byte>, tmp: array<byte>)
      requires Valid() && BLOCK <= |rest| <= 2 * BLOCK && outOff + Written(|rest|) <= out.Length
      modifies this`reg, out
      ensures Valid() && reg == rest[..BLOCK]
      ensures fresh(ctsBlock) && fresh(tmp) && ctsBlock != tmp && tmp.Length == BLOCK && ctsBlock.Length == 2 * BLOCK
      ensures ctsBlock[BLOCK..] == Recovered(cipher, iv, rest).0
      ensures out[..] == Overwrite(old(out[..]), outOff + BLOCK, Recovered(cipher, iv, rest).2)
    {
      hide Overwrite, Crypt, LastReg, Xor;
      var partialSz := |rest| % BLOCK;
      if partialSz == 0 {
        partialSz := BLOCK;
      }
      ctsBlock, tmp := DecipherLast(rest);
      Copy(out, outOff + BLOCK, tmp[..partialSz]);
      Copy(ctsBlock, |rest|, tmp[partialSz..]);
      assert tmp[..partialSz] == tmp[..][..partialSz] && tmp[partialSz..] == tmp[..][partialSz..];
      assert ctsBlock[BLOCK..] == ctsBlock[..][BLOCK..];
      if |rest| == BLOCK {
        OverwriteNothing(Overwrite(Repeat(0, 2 * BLOCK), 0, rest), |rest|);
        ScratchParts(rest);
      } else {
        ScratchCompleted(rest, tmp[partialSz..]);
      }
    }

    /** The last two blocks: recover the stolen bytes, then decipher the block they complete. */
    method LastBlocksBack(out: array<byte>, outOff: nat, rest: seq<byte>)
      requires Valid() && BLOCK <= |rest| <= 2 * BLOCK && outOff + Written(|rest|) <= out.Length
      modifies this`reg, this`iv, out
      ensures Valid() && iv == rest[..BLOCK]
      ensures var r := Recovered(cipher, old(iv), rest);
              out[..] == Overwrite(old(out[..]), outOff, r.1 + r.2)
    {
      hide Overwrite, Crypt, LastReg, Recovered;
      ghost var out0, r := out[..], Recovered(cipher, iv, rest);
      var ctsBlock, tmp := RecoverStolen(out, outOff, rest);
      RecoveredPlain(cipher, iv, rest);
      WholeOverwrite(tmp[..], reg);
      Copy(tmp, 0, reg);
      reg := iv;
      OneBlockIsWhole(BLOCK);
      OneBlock(cipher, false, reg, ctsBlock[BLOCK..]);
      Cbc(false, out, outOff, ctsBlock[BLOCK..]);
      OverwriteReversed(out0, outOff, r.1, r.2);
      iv := tmp[..];
    }

    method Decrypt(out: array<byte>, outOff: nat, input: seq<byte>)
      requires Valid() && |input| >= BLOCK && outOff + Written(|input|) <= out.Length
      modifies this`reg, this`iv, out
      ensures Valid() && iv == SavedIv(input)
      ensures out[..] == Overwrite(old(out[..]), outOff, Deciphered(cipher, old(iv), input))
    {
      hide Crypt, LastReg, Overwrite, Recovered, Deciphered;
      ghost var iv0, out0 := iv, out[..];
      DecryptComposes(cipher, iv, input);
      var k := LeadingBlocks(false, out, outOff, input);
      ghost var r := Recovered(cipher, iv, input[k..]);
      ghost var head := Crypt(cipher, CBC, false, iv0, input[..k]);
      CryptNothing(cipher, CBC, false, iv0);
      assert k == 0 ==> input[..k] == [];
      LastBlocksBack(out, outOff + k, input[k..]);
      OverwriteTwice(out0, outOff, head, r.1 + r.2);
      Associative(head, r.1, r.2);
    }

    /** The room an operation needs: that of its input, but two blocks to decipher a single one. */
    function Room(n: nat): nat
      reads this
    {
      if mode == CTS && !enc && !updated then Written(n) else n
    }

    method DoIt(out: array<byte>, outOff: nat, input: seq<byte>) returns (ok: bool)
      requires Valid() && outOff + Room(|input|) <= out.Length
      modifies this`reg, this`left, this`iv, this`updated, out
      ensures Valid()
      ensures ok <==> mode == CTS ==> !old(updated) && BLOCK <= |input|
      ensures !ok ==> unchanged(this) && unchanged(out)
      ensures ok && mode == Counter ==>
                var r := Through(cipher, CTR, enc, Keystream(old(iv), old(left)), input);
                && out[..] == Overwrite(old(out[..]), outOff, r.1) && Keystream(iv, left) == r.0
                && (old(left) == [] ==> r.1 == OneShot(cipher, CTR, enc, old(iv), input))
      ensures ok && mode == Feedback ==>
                var r := Through(cipher, CFB, enc, Keystream(old(iv), old(left)), input);
                && out[..] == Overwrite(old(out[..]), outOff, r.1) && Keystream(iv, left) == r.0
                && (old(left) == [] ==> r.1 == OneShot(cipher, CFB, enc, old(iv), input))
      ensures ok && mode == CTS && enc ==>
                var start := if |input| > 2 * BLOCK then old(iv) else old(reg);
                && out[..] == Overwrite(old(out[..]), outOff, CtsEncrypt(cipher, start, input))
                && iv == LastReg(cipher, CBC, true, start, ZeroPadded(input))
      ensures ok && mode == CTS && !enc && |input| > BLOCK ==>
                && out[..] == Overwrite(old(out[..]), outOff, CtsDecrypt(cipher, old(iv), input))
                && iv == SavedIv(input)
      ensures ok && mode == CTS && !enc && |input| == BLOCK ==>
                && out[..] == Overwrite(old(out[..]), outOff,
                                        Xor(cipher.D(Repeat(0, BLOCK)), old(iv)) + cipher.D(input))
                && iv == input
      ensures updated == (old(updated) || (ok && mode == CTS))
      ensures mode == CTS ==> left == old(left)
    {
      hide Crypt, LastReg, Overwrite, CtsEncrypt, CtsDecrypt, ZeroPadded, Through, OneShot;
      ok := true;
      if mode == Counter {
        ThroughIsOneShot(cipher, CTR, enc, iv, input);
        StreamBytes(CTR, out, outOff, input);
      } else if mode == Feedback {
        ThroughIsOneShot(cipher, CFB, enc, iv, input);
        StreamBytes(CFB, out, outOff, input);
      } else {
        assert BLOCK <= |input| ==> (Leading(|input|) > 0 <==> |input| > 2 * BLOCK);
        if updated {
          ok := false;
        }
        if |input| < BLOCK {
          ok := false;
        }
        if ok {
          if enc {
            Encrypt(out, outOff, input);
          } else {
            Decrypt(out, outOff, input);
          }
        }
        if ok {
          updated := true;
        }
      }
    }

    /** The update call, which checks the room first. */
    method Update(out: array<byte>, outOff: nat, outSize: nat, input: seq<byte>) returns (ok: bool)
      requires Valid() && (|input| <= outSize ==> outOff + Room(|input|) <= out.Length)
      modifies this`reg, this`left, this`iv, this`updated, out
      ensures Valid()
      ensures ok <==> |input| <= outSize && (mode == CTS ==> !old(updated) && BLOCK <= |input|)
      ensures !ok ==> unchanged(this) && unchanged(out)
      ensures ok && mode == Counter ==>
                var r := Through(cipher, CTR, enc, Keystream(old(iv), old(left)), input);
                && out[..] == Overwrite(old(out[..]), outOff, r.1) && Keystream(iv, left) == r.0
                && (old(left) == [] ==> r.1 == OneShot(cipher, CTR, enc, old(iv), input))
      ensures ok && mode == Feedback ==>
                var r := Through(cipher, CFB, enc, Keystream(old(iv), old(left)), input);
                && out[..] == Overwrite(old(out[..]), outOff, r.1) && Keystream(iv, left) == r.0
                && (old(left) == [] ==> r.1 == OneShot(cipher, CFB, enc, old(iv), input))
      ensures ok && mode == CTS && enc ==>
                var start := if |input| > 2 * BLOCK then old(iv) else old(reg);
                && out[..] == Overwrite(old(out[..]), outOff, CtsEncrypt(cipher, start, input))
                && iv == LastReg(cipher, CBC, true, start, ZeroPadded(input))
      ensures ok && mode == CTS && !enc && |input| > BLOCK ==>
                && out[..] == Overwrite(old(out[..]), outOff, CtsDecrypt(cipher, old(iv), input))
                && iv == SavedIv(input)
      ensures ok && mode == CTS && !enc && |input| == BLOCK ==>
                && out[..] == Overwrite(old(out[..]), outOff,
                                        Xor(cipher.D(Repeat(0, BLOCK)), old(iv)) + cipher.D(input))
                && iv == input
      ensures updated == (old(updated) || (ok && mode == CTS))
      ensures mode == CTS ==> left == old(left)
    {
      hide *;
      ok := outSize >= |input|;
      if ok {
        ok := DoIt(out, outOff, input);
      }
    }
  }
}
