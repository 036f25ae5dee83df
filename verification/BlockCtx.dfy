/** The block cipher contexts of AES (blocks of 16 bytes) and triple DES (blocks of 8 bytes). */
module BlockContext {
  import opened Bytes
  import opened BlockCipher
  import opened BlockStream
  import opened TlsCbc

  datatype Family = Aes | Des3 {
    const blockSize: nat := if Aes? then 16 else 8
    /** The largest whole number of blocks whose length fits a word32. */
    const maxChunk: nat := if Aes? then 0xFFFF_FFF0 else 0xFFFF_FFF8
  }

  lemma MaxChunkIsWhole(f: Family)
    ensures Whole(f.maxChunk, f.blockSize) && f.maxChunk > 0
  {
    FloorIsRemainder(f.maxChunk, f.blockSize);
  }

  lemma ChunkIsWhole(f: Family, inLen: nat, pos: nat, chunk: nat)
    requires Whole(inLen, f.blockSize) && Whole(pos, f.blockSize) && pos + chunk <= inLen
    requires chunk == f.maxChunk || pos + chunk == inLen
    ensures Whole(chunk, f.blockSize) && Whole(pos + chunk, f.blockSize)
  {
    MaxChunkIsWhole(f);
    FloorOfSum(pos, inLen - pos, f.blockSize);
    FloorOfSum(pos, chunk, f.blockSize);
  }

  /** One more chunk of data extends the output and moves the register along. */
  lemma ChunkExtends(c: Cipher, mode: Mode, enc: bool, reg: seq<byte>, data: seq<byte>,
                     pos: nat, chunk: nat, out: seq<byte>, off: nat)
    requires |reg| == c.bs && pos + chunk <= |data| && off + |data| <= |out|
    requires Whole(pos, c.bs) && Whole(chunk, c.bs)
    ensures var mid := LastReg(c, mode, enc, reg, data[..pos]);
            && LastReg(c, mode, enc, reg, data[..pos + chunk])
               == LastReg(c, mode, enc, mid, data[pos..pos + chunk])
            && Overwrite(out, off, Crypt(c, mode, enc, reg, data[..pos + chunk]))
               == Overwrite(Overwrite(out, off, Crypt(c, mode, enc, reg, data[..pos])), off + pos,
                            Crypt(c, mode, enc, mid, data[pos..pos + chunk]))
  {
    assert data[..pos + chunk] == data[..pos] + data[pos..pos + chunk];
    CryptConcat(c, mode, enc, reg, data[..pos], data[pos..pos + chunk]);
    OverwriteTwice(out, off, Crypt(c, mode, enc, reg, data[..pos]),
                   Crypt(c, mode, enc, LastReg(c, mode, enc, reg, data[..pos]), data[pos..pos + chunk]));
  }

  /** The flush of a filled buffer is what can fail: it needs room for one block. */
  predicate Blocked(cfg: Config, pending: nat, inLen: nat, outSize: nat) {
    pending > 0 && Ready(cfg, pending + inLen) > 0 && outSize < cfg.c.bs
  }

  /** The first stage of an update: what topping up and flushing do to the stream and the output. */
  ghost predicate Flushed(cfg: Config, s: Stream, input: seq<byte>, outOff: nat, outSize: nat, ok: bool, oLen: nat,
                          s1: Stream, out0: seq<byte>, out1: seq<byte>)
    requires Consistent(cfg, s)
  {
    var filled := s.pending + input[..TopUp(cfg, s, input)];
    var flush := Flushes(cfg, s, input);
    && ok == (flush ==> outSize >= cfg.c.bs)
    && if flush && ok then
         && oLen == cfg.c.bs && s1 == Stream(LastReg(cfg.c, cfg.mode, cfg.enc, s.reg, filled), [])
         && Emitted(out1, out0, outOff, Crypt(cfg.c, cfg.mode, cfg.enc, s.reg, filled))
       else oLen == 0 && s1 == Stream(s.reg, filled) && out1 == out0
  }

  /** The second stage: the blocks of the rest, on an empty buffer. */
  ghost predicate Taken(cfg: Config, s1: Stream, rest: seq<byte>, outOff: nat, more: nat, s2: Stream,
                        out1: seq<byte>, out2: seq<byte>)
    requires Consistent(cfg, s1)
  {
    var f := Feed(cfg, Stream(s1.reg, []), rest);
    && more == |f.1| && Emitted(out2, out1, outOff, f.1)
    && s2 == if rest == [] then s1 else f.0
  }

  lemma TakenInParts(cfg: Config, s1: Stream, rest: seq<byte>, outOff: nat, s2: Stream,
                     out1: seq<byte>, out2: seq<byte>)
    requires Consistent(cfg, s1) && (s1.pending == [] || rest == [])
    requires var k := Ready(cfg, |rest|);
             && s2.reg == LastReg(cfg.c, cfg.mode, cfg.enc, s1.reg, rest[..k])
             && Emitted(out2, out1, outOff, Crypt(cfg.c, cfg.mode, cfg.enc, s1.reg, rest[..k]))
             && s2.pending == if rest[k..] == [] then s1.pending else rest[k..]
    ensures Taken(cfg, s1, rest, outOff, Ready(cfg, |rest|), s2, out1, out2)
  {
    assert [] + rest == rest;
    CryptNothing(cfg.c, cfg.mode, cfg.enc, s1.reg);
    hide Crypt, LastReg, Overwrite;
  }

  /** Both stages together are one step of the stream. */
  lemma UpdateComposes(cfg: Config, s: Stream, input: seq<byte>, outOff: nat, outSize: nat, ok: bool, oLen: nat,
                       more: nat, s1: Stream, s2: Stream, out0: seq<byte>, out1: seq<byte>, out2: seq<byte>)
    requires Consistent(cfg, s) && Consistent(cfg, s1)
    requires Flushed(cfg, s, input, outOff, outSize, ok, oLen, s1, out0, out1)
    requires if ok then Taken(cfg, s1, input[TopUp(cfg, s, input)..], outOff + oLen, more, s2, out1, out2)
             else s2 == s1 && out2 == out1
    ensures ok <==> !Blocked(cfg, |s.pending|, |input|, outSize)
    ensures var f := Feed(cfg, s, input);
            if ok then s2 == f.0 && oLen + more == |f.1| && Emitted(out2, out0, outOff, f.1)
            else s2 == Stream(s.reg, s2.pending) && |s2.pending| == cfg.c.bs <= |s.pending + input|
                 && s2.pending == (s.pending + input)[..cfg.c.bs] && out2 == out0
  {
    hide Crypt, LastReg, Feed, Overwrite, Floor;
    if Flushes(cfg, s, input) {
      FeedWithFlush(cfg, s, input);
      if ok {
        var filled := s.pending + input[..TopUp(cfg, s, input)];
        EmittedTwice(out2, out1, out0, outOff, Crypt(cfg.c, cfg.mode, cfg.enc, s.reg, filled),
                     Feed(cfg, Stream(s1.reg, []), input[TopUp(cfg, s, input)..]).1);
      }
    } else {
      FeedWithoutFlush(cfg, s, input);
    }
  }

  /** What an update emits, by the number of bytes it has: all whole blocks, or when the last one is
      held back, all blocks before the last byte. */
  function WholeBlocks(cfg: Config, n: nat): int {
    if cfg.HoldsBack() && n > 0 then n - 1 - (n - 1) % cfg.c.bs else n - n % cfg.c.bs
  }

  /** Only the flushed block is compared with the size of the output buffer: whether an update that
      succeeds emits more than that size. */
  predicate Overruns(cfg: Config, pending: nat, inLen: nat, outSize: nat) {
    outSize < WholeBlocks(cfg, pending + inLen) && (pending == 0 || cfg.c.bs <= outSize)
  }

  lemma OverrunsWhenMoreThanRoom(cfg: Config, s: Stream, input: seq<byte>, outSize: nat)
    requires Consistent(cfg, s)
    ensures |Feed(cfg, s, input).1| == WholeBlocks(cfg, |s.pending| + |input|)
    ensures Overruns(cfg, |s.pending|, |input|, outSize)
       <==> !Blocked(cfg, |s.pending|, |input|, outSize) && |Feed(cfg, s, input).1| > outSize
  {
    hide Crypt, LastReg, Floor;
    var n := |s.pending| + |input|;
    FloorIsRemainder(if cfg.HoldsBack() && n > 0 then n - 1 else n, cfg.c.bs);
  }

  /** One block to encrypt and no room at all: the update does not fail, and emits the block. */
  lemma BlockWithoutRoom(cfg: Config, iv: seq<byte>, block: seq<byte>)
    requires cfg.enc && |iv| == |block| == cfg.c.bs
    ensures !Blocked(cfg, 0, |block|, 0) && |Feed(cfg, Stream(iv, []), block).1| == |block|
    ensures Overruns(cfg, 0, |block|, 0)
  {
    hide Crypt, LastReg;
    OneBlockIsWhole(cfg.c.bs);
    OverrunsWhenMoreThanRoom(cfg, Stream(iv, []), block, 0);
  }

  /** With room for the input and one block more nothing overruns. */
  lemma NothingOverruns(cfg: Config, pending: nat, inLen: nat, outSize: nat)
    requires pending <= cfg.c.bs && inLen + cfg.c.bs <= outSize
    ensures !Overruns(cfg, pending, inLen, outSize)
  {
  }

  /** Room for the result is room for both stages. */
  lemma UpdateHasRoom(cfg: Config, s: Stream, input: seq<byte>, outOff: nat, outSize: nat, size: nat)
    requires Consistent(cfg, s)
    requires Blocked(cfg, |s.pending|, |input|, outSize)
             || outOff + Ready(cfg, |s.pending| + |input|) <= size
    ensures var rest := |input| - TopUp(cfg, s, input);
            if Flushes(cfg, s, input) then outSize < cfg.c.bs || outOff + cfg.c.bs + Ready(cfg, rest) <= size
            else outOff + Ready(cfg, rest) <= size && (s.pending == [] || rest == 0)
  {
    hide Crypt, LastReg, Feed, Floor, Ready;
    if Flushes(cfg, s, input) {
      FeedWithFlush(cfg, s, input);
    } else {
      FeedWithoutFlush(cfg, s, input);
    }
  }

  /** What flushing the topped-up buffer does, and the room it leaves. */
  lemma FlushedInParts(cfg: Config, s: Stream, input: seq<byte>, outOff: nat, outSize: nat, ok: bool, oLen: nat,
                       mid: Stream, s1: Stream, out0: seq<byte>, out1: seq<byte>)
    requires Consistent(cfg, s) && mid == Stream(s.reg, s.pending + input[..TopUp(cfg, s, input)])
    requires Blocked(cfg, |s.pending|, |input|, outSize)
             || outOff + Ready(cfg, |s.pending| + |input|) <= |out0|
    requires var flush := |mid.pending| == cfg.c.bs && !(cfg.HoldsBack() && |input[TopUp(cfg, s, input)..]| == 0);
             && ok == (flush ==> outSize >= cfg.c.bs)
             && if flush && ok then
                  && oLen == cfg.c.bs && s1 == Stream(LastReg(cfg.c, cfg.mode, cfg.enc, mid.reg, mid.pending), [])
                  && Emitted(out1, out0, outOff, Crypt(cfg.c, cfg.mode, cfg.enc, mid.reg, mid.pending))
                else oLen == 0 && s1 == mid && out1 == out0
    ensures var rest := input[TopUp(cfg, s, input)..];
            && Flushed(cfg, s, input, outOff, outSize, ok, oLen, s1, out0, out1)
            && (ok ==> outOff + oLen + Ready(cfg, |rest|) <= |out0| && (s1.pending == [] || rest == []))
            && (!ok ==> |s1.pending| == cfg.c.bs)
  {
    UpdateHasRoom(cfg, s, input, outOff, outSize, |out0|);
    hide Crypt, LastReg, Overwrite, Ready, Emitted, TopUp;
    assert Flushes(cfg, s, input)
      <==> |mid.pending| == cfg.c.bs && !(cfg.HoldsBack() && |input[TopUp(cfg, s, input)..]| == 0);
  }

  /** A block can be processed when there is one, and a byte more if the last is held back. */
  lemma ReadyWhenBlock(cfg: Config, n: nat)
    ensures Ready(cfg, n) > 0 <==> n >= cfg.c.bs + if cfg.HoldsBack() then 1 else 0
  {
  }

  /** Holding back a whole last block is rounding down one byte less. */
  lemma HeldBackFloor(n: nat, bs: nat)
    requires bs > 0
    ensures n > 0 ==> Floor(n - 1, bs) == if Floor(n, bs) == n then n - bs else Floor(n, bs)
  {
    if n > 0 {
      FloorIsWhole(n, bs);
      var k := if Floor(n, bs) == n then n - bs else Floor(n, bs);
      if n >= bs {
        assert Whole(k, bs);
        FloorOfSum(k, n - 1 - k, bs);
      }
    }
  }

  /** What the random generator and the allocator do when asked. */
  datatype Environment = Environment(randMac: seq<byte>, rngOk: bool, allocOk: bool)

  method AccumulateInvalid(invalid: byte, check: byte, differs: byte) returns (r: byte)
    requires check in {0, ONES} && differs in {0, ONES}
    ensures r == 0 <==> invalid == 0 && (check == 0 || differs == 0)
  {
    r := invalid | (check & differs);
  }

  class BlockCtx {
    const family: Family
    const buf: array<byte>
    var cipher: Cipher
    var reg: seq<byte>
    var mode: Mode
    var tlsVersion: nat
    var tlsmac: array?<byte>
    var tlsmacsize: nat
    var tlsmacAlloced: bool
    var enc: bool
    var pad: bool
    var ivSet: bool
    var bufSz: nat
    var iv: seq<byte>
    var oiv: seq<byte>

    const bs: nat := family.blockSize

    ghost predicate Valid()
      reads this
    {
      && cipher.bs == bs == buf.Length == |reg| == |iv| == |oiv|
      && bufSz <= bs
      && (family.Aes? && mode == CBC ==> iv == reg)
      && (tlsmacAlloced ==> tlsmac != null)
    }

    constructor (family: Family, key: Cipher, mode: Mode)
      requires key.bs == family.blockSize
      ensures Valid() && this.family == family && cipher == key && this.mode == mode
      ensures bufSz == 0 && pad && !ivSet && tlsVersion == 0 && tlsmac == null
    {
      this.family := family;
      buf := new byte[family.blockSize](_ => 0);
      cipher, this.mode := key, mode;
      reg, iv, oiv := Repeat(0, key.bs), Repeat(0, key.bs), Repeat(0, key.bs);
      tlsVersion, tlsmac, tlsmacsize, tlsmacAlloced := 0, null, 0, false;
      enc, pad, ivSet, bufSz := true, true, false, 0;
    }

    /** Set the IV, keeping a copy to start over from. */
    method InitIv(newIv: seq<byte>) returns (ok: bool)
      requires Valid()
      modifies this`iv, this`oiv, this`ivSet, this`reg
      ensures Valid() && ok == (|newIv| == bs)
      ensures ok ==> ivSet && iv == oiv == reg == newIv
      ensures !ok ==> unchanged(this)
    {
      ok := |newIv| == bs;
      if ok {
        ivSet := true;
        iv := newIv;
        oiv := newIv;
        reg := newIv;
      }
    }

    /** Start a message. Without an IV AES starts over from the last one it was given, while DES3
        only shows that one again: it goes on from where it is, or from zeros under a new key. A key
        of the wrong length stops only after the IV has been taken. */
    method Init(key: Option<Cipher>, keyLenOk: bool, newIv: Option<seq<byte>>, enc: bool, running: bool, paramsOk: bool)
        returns (ok: bool)
      requires Valid() && (key.Some? ==> key.value.bs == bs)
      modifies this`bufSz, this`enc, this`iv, this`oiv, this`ivSet, this`reg, this`cipher
      ensures Valid() && bufSz == 0 && this.enc == enc
      ensures var begun := running && (newIv.Some? && mode == CBC ==> |newIv.value| == bs);
              && ok == (begun && (key.Some? ==> keyLenOk) && paramsOk)
              && cipher == (if begun && key.Some? && keyLenOk then key.value else old(cipher))
              && (begun && mode == CBC && newIv.Some? ==> reg == newIv.value)
              && (begun && mode == CBC && newIv.None? && family.Aes? ==>
                    reg == if old(ivSet) then old(oiv) else old(iv))
              && (begun && mode == CBC && newIv.None? && family.Des3? ==>
                    reg == if key.Some? && keyLenOk then Repeat(0, bs) else old(reg))
              && (begun ==> oiv == if newIv.Some? && mode == CBC then newIv.value else old(oiv))
              && (begun ==> ivSet == (old(ivSet) || (newIv.Some? && mode == CBC)))
              && (!begun ==> unchanged(this`reg, this`iv, this`oiv, this`ivSet))
    {
      hide IsPermutation;
      bufSz := 0;
      this.enc := enc;
      ok := running;
      if ok && newIv.Some? && mode != ECB {
        ok := InitIv(newIv.value);
      }
      if ok && newIv.None? && ivSet && mode == CBC {
        if family.Aes? {
          ok := InitIv(oiv);
        } else {
          iv := oiv;
        }
      }
      if ok && key.Some? {
        ok := keyLenOk;
        if ok {
          cipher := key.value;
          reg := if family.Aes? || (newIv.Some? && mode == CBC) then iv else Repeat(0, bs);
        }
      }
      ok := ok && paramsOk;
    }

    /** The stream the context is in the middle of. */
    ghost function State(): (s: Stream)
      requires Valid()
      reads this, buf
    {
      Stream(reg, buf[..bufSz])
    }

    /** TLS records are processed whole: nothing is held back. */
    function UpdateCfg(): Config
      reads this
    {
      Config(cipher, mode, enc, pad && tlsVersion == 0)
    }

    /** The library call on one chunk. */
    method LibCrypt(out: array<byte>, outOff: nat, chunk: seq<byte>)
      requires cipher.bs == bs == |reg| && Whole(|chunk|, bs) && outOff + |chunk| <= out.Length
      modifies this`reg, out
      ensures out[..] == Overwrite(old(out[..]), outOff, Crypt(cipher, mode, enc, old(reg), chunk))
      ensures reg == LastReg(cipher, mode, enc, old(reg), chunk)
    {
      var o := Crypt(cipher, mode, enc, reg, chunk);
      reg := LastReg(cipher, mode, enc, reg, chunk);
      Copy(out, outOff, o);
    }

    /** Process whole blocks in chunks whose length fits a word32. The chunking is invisible.
        The input is given by its contents: it is either out itself or apart from it. */
    method DoIt(out: array<byte>, outOff: nat, input: seq<byte>) returns (ok: bool)
      requires Valid() && Whole(|input|, bs) && outOff + |input| <= out.Length
      modifies this`reg, this`iv, out
      ensures ok <==> family.Aes? || mode == CBC
      ensures ok ==> Valid()
      ensures ok ==> out[..] == Overwrite(old(out[..]), outOff, Crypt(cipher, mode, enc, old(reg), input))
      ensures ok ==> reg == LastReg(cipher, mode, enc, old(reg), input)
      ensures !ok ==> unchanged(this) && unchanged(out)
    {
      hide Crypt, LastReg, Floor, Overwrite;
      if family.Des3? && mode != CBC {
        return false;
      }
      ghost var reg0, out0 := reg, out[..];
      CryptNothing(cipher, mode, enc, reg0);
      OverwriteNothing(out0, outOff);
      var pos := 0;
      while pos < |input|
        invariant pos <= |input| && Whole(pos, bs)
        invariant reg == LastReg(cipher, mode, enc, reg0, input[..pos]) && iv == old(iv)
        invariant out[..] == Overwrite(out0, outOff, Crypt(cipher, mode, enc, reg0, input[..pos]))
      {
        var left := |input| - pos;
        var chunk := if left > family.maxChunk then family.maxChunk else left;
        ChunkIsWhole(family, |input|, pos, chunk);
        ChunkExtends(cipher, mode, enc, reg0, input, pos, chunk, out0, outOff);
        LibCrypt(out, outOff + pos, input[pos..pos + chunk]);
        pos := pos + chunk;
      }
      assert input[..pos] == input;
      if mode == CBC {
        iv := reg;
      }
      return true;
    }

    // ---- updates ----

    /** Top up a buffer that is not empty. */
    method FillBuffer(input: seq<byte>) returns (len: nat)
      requires Valid()
      modifies this`bufSz, buf
      ensures Valid()
      ensures len == TopUp(UpdateCfg(), old(State()), input)
      ensures State() == Stream(reg, old(State()).pending + input[..len])
    {
      len := 0;
      if bufSz != 0 {
        len := bs - bufSz;
        if |input| < len {
          len := |input|;
        }
        Copy(buf, bufSz, input[..len]);
        bufSz := bufSz + len;
      }
      assert buf[..bufSz] == old(buf[..bufSz]) + input[..len];
    }

    /** The bytes that make whole blocks, less a last block that must be held back. */
    method CountBlocks(inLen: nat) returns (nextBlocks: nat)
      requires Valid()
      ensures nextBlocks == Ready(UpdateCfg(), inLen)
    {
      nextBlocks := Floor(inLen, bs);
      if nextBlocks > 0 && !enc && pad && nextBlocks == inLen && tlsVersion == 0 {
        nextBlocks := nextBlocks - bs;
      }
      HeldBackFloor(inLen, bs);
    }

    /** Process what can be processed of the input after the buffer, and buffer the rest. */
    method TakeBlocks(out: array<byte>, outOff: nat, input: seq<byte>) returns (oLen: nat)
      requires Valid() && (family.Aes? || mode == CBC) && out != buf
      requires bufSz == 0 || input == []
      requires outOff + Ready(UpdateCfg(), |input|) <= out.Length
      modifies this`reg, this`iv, this`bufSz, buf, out
      ensures Valid()
      ensures Taken(UpdateCfg(), old(State()), input, outOff, oLen, State(), old(out[..]), out[..])
    {
      hide Crypt, LastReg, Overwrite, Floor, Ready, Emitted, Taken;
      var nextBlocks := CountBlocks(|input|);
      ghost var cfg, s1, out1 := UpdateCfg(), State(), out[..];
      oLen := 0;
      var rest := input;
      CryptNothing(cipher, mode, enc, reg);
      EmitNothing(out1, outOff);
      if nextBlocks > 0 {
        ProcessBlocks(out, outOff, input[..nextBlocks]);
        rest := input[nextBlocks..];
        oLen := nextBlocks;
      }
      if |rest| != 0 {
        KeepForLater(rest);
      }
      TakenInParts(cfg, s1, input, outOff, State(), out1, out[..]);
    }

    /** A run of whole blocks of a mode that is supported. */
    method ProcessBlocks(out: array<byte>, outOff: nat, input: seq<byte>)
      requires Valid() && (family.Aes? || mode == CBC) && out != buf
      requires Whole(|input|, bs) && outOff + |input| <= out.Length
      modifies this`reg, this`iv, out
      ensures Valid() && Emitted(out[..], old(out[..]), outOff, Crypt(cipher, mode, enc, old(reg), input))
      ensures State() == Stream(LastReg(cipher, mode, enc, old(reg), input), old(State()).pending)
    {
      hide Crypt, LastReg, Overwrite, Floor;
      var done := DoIt(out, outOff, input);
    }

    method KeepForLater(rest: seq<byte>)
      requires buf.Length == bs && |rest| <= bs
      modifies this`bufSz, buf
      ensures bufSz == |rest| && buf[..bufSz] == rest
    {
      Copy(buf, 0, rest);
      bufSz := |rest|;
      OverwriteParts(old(buf[..]), 0, rest);
    }

    ghost predicate FlushBlocked(inLen: nat, outSize: nat)
      reads this
    {
      Blocked(UpdateCfg(), bufSz, inLen, outSize)
    }

    /** Encipher or decipher the filled buffer unless it must be held back. */
    method FlushBuffer(out: array<byte>, outOff: nat, outSize: nat, restLen: nat) returns (ok: bool, oLen: nat)
      requires Valid() && (family.Aes? || mode == CBC) && out != buf
      requires tlsVersion > 0 ==> bufSz < bs
      requires bufSz < bs || (UpdateCfg().HoldsBack() && restLen == 0) || outSize < bs || outOff + bs <= out.Length
      modifies this`reg, this`iv, this`bufSz, out
      ensures Valid()
      ensures var flush := old(bufSz) == bs && !(UpdateCfg().HoldsBack() && restLen == 0);
              && ok == (flush ==> outSize >= bs)
              && if flush && ok then
                   && oLen == bs && State() == Stream(LastReg(cipher, mode, enc, old(reg), old(State()).pending), [])
                   && Emitted(out[..], old(out[..]), outOff, Crypt(cipher, mode, enc, old(reg), old(State()).pending))
                 else
                   oLen == 0 && State() == old(State()) && out[..] == old(out[..])
    {
      hide Crypt, LastReg, Overwrite, Ready;
      ok, oLen := true, 0;
      if !enc && restLen == 0 && pad {
      } else if bufSz == bs {
        if outSize < bs {
          ok := false;
        } else {
          OneBlockIsWhole(bs);
          assert buf[..bufSz] == buf[..];
          var done := DoIt(out, outOff, buf[..]);
          bufSz := 0;
          oLen := bs;
        }
      }
    }

    /** What feeding the input to the stream in progress gives. */
    ghost function Fed(input: seq<byte>): (Stream, seq<byte>)
      requires Valid()
      reads this, buf
    {
      Feed(UpdateCfg(), State(), input)
    }

    /** Top up the buffer and flush it, if it need not be held back. */
    method FillAndFlush(out: array<byte>, outOff: nat, outSize: nat, input: seq<byte>)
        returns (ok: bool, oLen: nat, rest: seq<byte>)
      requires Valid() && (family.Aes? || mode == CBC) && out != buf
      requires tlsVersion > 0 ==> bufSz == 0
      requires FlushBlocked(|input|, outSize) || outOff + Ready(UpdateCfg(), bufSz + |input|) <= out.Length
      modifies this`reg, this`iv, this`bufSz, buf, out
      ensures Valid() && rest == input[TopUp(UpdateCfg(), old(State()), input)..]
      ensures Flushed(UpdateCfg(), old(State()), input, outOff, outSize, ok, oLen, State(), old(out[..]), out[..])
      ensures ok ==> outOff + oLen + Ready(UpdateCfg(), |rest|) <= out.Length && (bufSz == 0 || rest == [])
      ensures !ok ==> bufSz == bs
    {
      hide Crypt, LastReg, Overwrite, Floor, Feed, Ready, Emitted, TopUp, Flushed;
      ghost var cfg, s, out0 := UpdateCfg(), State(), out[..];
      UpdateHasRoom(cfg, s, input, outOff, outSize, out.Length);
      var len := FillBuffer(input);
      rest := input[len..];
      ghost var mid := State();
      assert |s.pending| == old(bufSz) && |mid.pending| == bufSz;
      assert Flushes(cfg, s, input) <==> bufSz == bs && !(cfg.HoldsBack() && |rest| == 0);
      ok, oLen := FlushBuffer(out, outOff, outSize, |rest|);
      FlushedInParts(cfg, s, input, outOff, outSize, ok, oLen, mid, State(), out0, out[..]);
      assert |State().pending| == bufSz;
    }

    /** Feed the stream: every byte taken in is processed or buffered, in order. */
    method UpdateBlocks(out: array<byte>, outOff: nat, outSize: nat, input: seq<byte>)
        returns (ok: bool, oLen: nat)
      requires Valid() && (family.Aes? || mode == CBC) && out != buf
      requires tlsVersion > 0 ==> bufSz == 0
      requires FlushBlocked(|input|, outSize) || outOff + Ready(UpdateCfg(), bufSz + |input|) <= out.Length
      modifies this`reg, this`iv, this`bufSz, buf, out
      ensures Valid()
      ensures ok <==> !old(FlushBlocked(|input|, outSize))
      ensures ok && oLen > outSize <==> old(Overruns(UpdateCfg(), bufSz, |input|, outSize))
      ensures ok ==> var f := old(Fed(input));
                     State() == f.0 && oLen == |f.1| && Emitted(out[..], old(out[..]), outOff, f.1)
      ensures !ok ==> reg == old(reg) && out[..] == old(out[..])
      ensures !ok ==> bufSz == bs && State().pending == (old(State()).pending + input)[..bs]
    {
      hide Crypt, LastReg, Overwrite, Floor, Feed, Ready, Emitted, TopUp, Flushed, Taken, Overruns;
      ghost var cfg, s, out0 := UpdateCfg(), State(), out[..];
      var rest;
      ok, oLen, rest := FillAndFlush(out, outOff, outSize, input);
      ghost var s1, out1 := State(), out[..];
      var more := 0;
      if ok {
        more := TakeBlocks(out, outOff + oLen, rest);
      }
      UpdateComposes(cfg, s, input, outOff, outSize, ok, oLen, more, s1, State(), out0, out1, out[..]);
      OverrunsWhenMoreThanRoom(cfg, s, input, outSize);
      oLen := oLen + more;
    }

    // ---- finishing ----

    method PadBuffer()
      requires Valid() && enc
      modifies this`bufSz, buf
      ensures Valid() && bufSz == bs && buf[..] == PadBlock(old(State()).pending, bs)
    {
      hide ByteOf;
      ghost var pending := State().pending;
      var padByte := ByteOf(bs - bufSz);
      for i := bufSz to bs
        invariant bufSz == |pending| <= bs
        invariant buf[..i] == pending + Repeat(padByte, i - |pending|)
      {
        buf[i] := padByte;
        assert buf[..i + 1] == buf[..i] + [padByte];
      }
      bufSz := bs;
    }

    method FinishEnc(out: array<byte>, outOff: nat, outSize: nat) returns (ok: bool, outLen: nat)
      requires Valid() && enc && (family.Aes? || mode == CBC) && out != buf
      requires pad ==> outSize < bs || outOff + bs <= out.Length
      modifies this`reg, this`iv, this`bufSz, buf, out
      ensures Valid()
      ensures var f := FinalEnc(Config(cipher, mode, true, pad), Stream(old(reg), old(buf[..bufSz])), outSize);
              && ok == f.ok && Stream(reg, buf[..bufSz]) == f.after
              && (ok <==> if pad then bs <= outSize else old(bufSz) == 0)
              && (ok ==> bufSz == 0)
              && (!ok ==> reg == old(reg) && out[..] == old(out[..]))
              && (ok ==> outLen == |f.out|)
              && out[..] == if f.out == [] then old(out[..]) else Overwrite(old(out[..]), outOff, f.out)
    {
      hide Crypt, LastReg, Overwrite, PadBlock;
      ok, outLen := true, 0;
      OneBlockIsWhole(bs);
      if pad {
        PadBuffer();
        assert buf[..bufSz] == buf[..];
      } else if bufSz != 0 {
        ok := false;
      }
      if ok && bufSz == bs {
        if outSize < bs {
          ok := false;
        } else {
          var done := DoIt(out, outOff, buf[..]);
          outLen := bs;
        }
      }
      if ok {
        bufSz := 0;
      }
    }

    /** Count the padding bytes from the end; good only if every one has the value of the last. */
    method CheckPadding() returns (ok: bool, len: nat)
      requires Valid() && bufSz == bs
      ensures ok <==> Padded(buf[..])
      ensures ok ==> len <= bs && Unpadded(buf[..]) == buf[..len]
    {
      var padByte := buf[bs - 1];
      len := bs;
      if padByte == 0 || padByte as nat > bs {
        return false, len;
      }
      for i := 0 to padByte as nat
        invariant len == bs - i
        invariant forall k | len <= k < bs :: buf[k] == padByte
      {
        len := len - 1;
        if buf[len] != padByte {
          assert buf[..][len] != padByte;
          return false, len;
        }
      }
      return true, len;
    }

    method DecryptInPlace()
      requires Valid() && (family.Aes? || mode == CBC) && bufSz == bs
      modifies this`reg, this`iv, buf
      ensures Valid()
      ensures buf[..] == Crypt(cipher, mode, enc, old(reg), old(State()).pending)
      ensures State() == Stream(LastReg(cipher, mode, enc, old(reg), old(State()).pending), buf[..])
    {
      hide Crypt, LastReg, Overwrite;
      OneBlockIsWhole(bs);
      assert buf[..bufSz] == buf[..];
      var done := DoIt(buf, 0, buf[..]);
      OverwriteParts(old(buf[..]), 0, Crypt(cipher, mode, enc, old(reg), old(buf[..])));
      assert buf[..bs] == buf[..];
    }

    method FinishDec(out: array<byte>, outOff: nat, outSize: nat) returns (ok: bool, outLen: nat)
      requires Valid() && !enc && (family.Aes? || mode == CBC) && out != buf
      requires outOff + (if outSize < bs then outSize else bs) <= out.Length
      modifies this`reg, this`iv, this`bufSz, buf, out
      ensures Valid()
      ensures var f := FinalDec(Config(cipher, mode, false, pad), Stream(old(reg), old(buf[..bufSz])), outSize);
              && ok == f.ok && Stream(reg, buf[..bufSz]) == f.after && outLen == |f.out|
              && (ok ==> bufSz == 0 && outLen <= outSize)
              && (!ok ==> outLen == 0 && out[..] == old(out[..]))
              && out[..] == if f.out == [] then old(out[..]) else Overwrite(old(out[..]), outOff, f.out)
    {
      hide Crypt, LastReg, Overwrite, Padded, Unpadded;
      ok, outLen := true, 0;
      OneBlockIsWhole(bs);
      if pad {
        if bufSz != bs {
          ok := false;
        }
      } else if bufSz != 0 {
        ok := false;
      }
      if ok && bufSz > 0 {
        DecryptInPlace();
      }
      if ok && pad {
        var len: nat;
        ok, len := CheckPadding();
        if !ok {
          return;
        }
        bufSz := len;
      }
      if ok && outSize < bufSz {
        ok := false;
      }
      if ok && bufSz > 0 {
        Copy(out, outOff, buf[..bufSz]);
        Copy(buf, 0, Repeat(0, bs));
        outLen := bufSz;
        bufSz := 0;
      }
    }

    // ---- TLS records ----

    /** The MAC the record layer can fetch. */
    function Mac(): Option<seq<byte>>
      reads this, tlsmac
    {
      if tlsmac == null then None else Some(tlsmac[..])
    }

    /** Strip padding and MAC from a decrypted record, keeping the MAC for the record layer. */
    method TlsDecRecord(plain: seq<byte>, env: Environment) returns (ok: bool, outLen: nat)
      requires Valid() && |plain| < 0x8000_0000 && |env.randMac| == MAX_MAC
      modifies this`tlsmac, this`tlsmacAlloced
      ensures Valid()
      ensures var o := Open(plain, bs, tlsmacsize, env.randMac);
              && ok == (o.Opened? && (tlsmacsize > 0 ==> env.rngOk && env.allocOk))
              && (o.Opened? ==> outLen == o.len)
              && (ok ==> Mac() == if tlsmacsize == 0 then None else Some(o.mac))
    {
      hide PaddingGood, MacEnd;
      outLen := 0;
      var macSize := tlsmacsize;
      if tlsmacAlloced {
        tlsmacAlloced := false;
        tlsmac := null;
      }
      if macSize > MAX_MAC || |plain| < bs + macSize + 1 {
        ok := false;
      } else {
        var rec := plain[bs..];
        var good, recLen := RemovePadding(rec, macSize);
        outLen := recLen - macSize;
        tlsmac, tlsmacAlloced := null, false;
        if macSize == 0 {
          ok := good != 0;
        } else {
          ok := env.rngOk && env.allocOk;
          if env.allocOk {
            tlsmac := ExtractMac(rec, recLen, macSize, good, env.randMac);
            tlsmacAlloced := true;
          }
        }
      }
    }

    /** The DES3 check: all of the last block is looked at, whatever the padding length. */
    method Des3DecRecord(plain: seq<byte>) returns (ok: bool, outLen: nat)
      requires family.Des3? && bs <= |plain|
      ensures ok <==> ShortPaddingGood(plain, bs)
      ensures outLen == ShortLength(plain, bs)
    {
      var pad := plain[|plain| - 1];
      var padStart := bs - pad as nat - 1;
      var invalid: byte := if pad as nat < bs then 0 else ONES;
      var i := bs - 1;
      while i >= 0
        invariant -1 <= i < bs
        invariant invalid == 0
             <==> pad as nat < bs
                  && forall k | |plain| - bs + i < k < |plain| :: k - (|plain| - bs) >= padStart ==> plain[k] == pad
      {
        var check := IntMaskGte(i, padStart);
        var differs := ByteMaskNe(plain[|plain| - bs + i], pad);
        invalid := AccumulateInvalid(invalid, check, differs);
        i := i - 1;
      }
      outLen := (|plain| - pad as nat - 1 - bs) % SIZE64;
      ok := invalid == 0;
    }

    /** Append the TLS padding to the record in place. */
    method SealRecord(out: array<byte>, outOff: nat, inLen: nat) returns (sealedLen: nat)
      requires bs > 0 && out != buf && outOff + inLen - inLen % bs + bs <= out.Length
      modifies out
      ensures sealedLen == inLen - inLen % bs + bs
      ensures out[outOff..outOff + sealedLen] == Sealed(old(out[outOff..outOff + inLen]), bs)
      ensures out[..outOff] == old(out[..outOff]) && out[outOff + sealedLen..] == old(out[outOff + sealedLen..])
    {
      hide ByteOf;
      var off := inLen % bs;
      var padByte := ByteOf(bs - off - 1);
      var start := outOff + inLen - off;
      for i := off to bs
        invariant out[..outOff + inLen] == old(out[..outOff + inLen])
        invariant forall k | outOff + inLen <= k < start + i :: out[k] == padByte
        invariant out[start + i..] == old(out[start + i..])
      {
        out[start + i] := padByte;
      }
      sealedLen := inLen + (bs - off - 1) + 1;
      hide Repeat;
      PaddedInPlace(old(out[..]), out[..], outOff, inLen, padByte, bs - off);
    }

    /** The encrypting update of a TLS record, in place. */
    method UpdateSealing(out: array<byte>, outOff: nat, outSize: nat, input: seq<byte>)
        returns (ok: bool, outLen: nat)
      requires Valid() && tlsVersion > 0 && enc && bufSz == 0 && (family.Aes? || mode == CBC) && out != buf
      requires outOff + |Sealed(input, bs)| <= out.Length && input == out[outOff..outOff + |input|]
      modifies this`reg, this`iv, this`bufSz, buf, out
      ensures Valid() && ok && outLen == |Sealed(input, bs)|
      ensures Emitted(out[..], old(out[..]), outOff, Crypt(cipher, mode, true, old(reg), Sealed(input, bs)))
      ensures State() == Stream(LastReg(cipher, mode, true, old(reg), Sealed(input, bs)), [])
    {
      hide Crypt, LastReg, Floor;
      ghost var out0 := out[..];
      SealedIsWhole(input, bs);
      var sealedLen := SealRecord(out, outOff, |input|);
      var data := out[outOff..outOff + sealedLen];
      FeedWhole(UpdateCfg(), reg, data);
      assert State() == Stream(reg, []);
      ghost var ct := Crypt(cipher, mode, true, reg, data);
      assert Overwrite(out[..], outOff, ct) == Overwrite(out0, outOff, ct);
      ok, outLen := UpdateBlocks(out, outOff, outSize, data);
    }

    /** The decrypting update of a TLS record, in place. */
    method UpdateOpening(out: array<byte>, outOff: nat, outSize: nat, input: seq<byte>, env: Environment)
        returns (ok: bool, outLen: nat)
      requires Valid() && tlsVersion > 0 && !enc && bufSz == 0 && (family.Aes? || mode == CBC) && out != buf
      requires outOff + |input| <= out.Length && input == out[outOff..outOff + |input|]
      requires |input| < 0x8000_0000 && |env.randMac| == MAX_MAC && (family.Des3? ==> bs <= |input|)
      modifies this`reg, this`iv, this`bufSz, this`tlsmac, this`tlsmacAlloced, buf, out
      ensures Valid()
      ensures State() == old(Fed(input)).0
      ensures Emitted(out[..], old(out[..]), outOff, old(Fed(input)).1)
      ensures Whole(|input|, bs) ==>
                && old(Fed(input)).1 == Crypt(cipher, mode, false, old(reg), input)
                && State() == Stream(LastReg(cipher, mode, false, old(reg), input), [])
      ensures family.Aes? ==>
                var o := Open(old(Fed(input)).1, bs, tlsmacsize, env.randMac);
                && ok == (o.Opened? && (tlsmacsize > 0 ==> env.rngOk && env.allocOk))
                && (ok ==> outLen == o.len && Mac() == if tlsmacsize == 0 then None else Some(o.mac))
      ensures family.Des3? ==>
                ok == ShortPaddingGood(old(Fed(input)).1, bs) && outLen == ShortLength(old(Fed(input)).1, bs)
    {
      hide Crypt, LastReg, Open, ShortPaddingGood, Overwrite, Feed;
      ghost var out0, plain0 := out[..], Fed(input).1;
      if Whole(|input|, bs) {
        FeedWhole(UpdateCfg(), reg, input);
        assert State() == Stream(reg, []);
      }
      var oLen: nat;
      ok, oLen := UpdateBlocks(out, outOff, outSize, input);
      OverwriteParts(out0, outOff, plain0);
      var plain := out[outOff..outOff + oLen];
      if family.Aes? {
        ok, outLen := TlsDecRecord(plain, env);
      } else {
        ok, outLen := Des3DecRecord(plain);
      }
    }

    /** Update. The input is given by its contents; a TLS record is processed in place. */
    method Update(out: array<byte>, outOff: nat, outSize: nat, input: seq<byte>, env: Environment)
        returns (ok: bool, outLen: nat)
      requires Valid() && (family.Aes? || mode == CBC) && out != buf
      requires tlsVersion > 0 ==> bufSz == 0 && outOff + |input| <= out.Length && input == out[outOff..outOff + |input|]
      requires tlsVersion > 0 && enc ==> outOff + |Sealed(input, bs)| <= out.Length
      requires tlsVersion > 0 && !enc ==> |input| < 0x8000_0000 && |env.randMac| == MAX_MAC
      requires tlsVersion > 0 && !enc && family.Des3? ==> bs <= |input|
      requires tlsVersion == 0 ==> FlushBlocked(|input|, outSize)
                                   || outOff + Ready(UpdateCfg(), bufSz + |input|) <= out.Length
      modifies this`reg, this`iv, this`bufSz, this`tlsmac, this`tlsmacAlloced, buf, out
      ensures Valid()
      ensures tlsVersion == 0 ==>
                (ok <==> || old(bufSz) == 0 || bs <= outSize
                         || old(bufSz) + |input| < bs + if !enc && pad then 1 else 0)
      ensures tlsVersion == 0 && ok ==>
                var f := Feed(Config(cipher, mode, enc, pad), Stream(old(reg), old(buf[..bufSz])), input);
                && Stream(reg, buf[..bufSz]) == f.0 && outLen == |f.1|
                && Emitted(out[..], old(out[..]), outOff, f.1)
      ensures tlsVersion == 0 && !ok ==>
                && reg == old(reg) && out[..] == old(out[..])
                && buf[..bufSz] == (old(buf[..bufSz]) + input)[..bs]
      ensures tlsVersion == 0 ==>
                (ok && outLen > outSize <==> Overruns(Config(cipher, mode, enc, pad), old(bufSz), |input|, outSize))
      ensures tlsVersion > 0 && enc ==>
                && ok && outLen == |Sealed(input, bs)|
                && Emitted(out[..], old(out[..]), outOff, Crypt(cipher, mode, true, old(reg), Sealed(input, bs)))
                && reg == LastReg(cipher, mode, true, old(reg), Sealed(input, bs)) && bufSz == 0
      ensures tlsVersion > 0 && !enc ==>
                && State() == old(Fed(input)).0
                && Emitted(out[..], old(out[..]), outOff, old(Fed(input)).1)
      ensures tlsVersion > 0 && !enc && Whole(|input|, bs) ==>
                && old(Fed(input)).1 == Crypt(cipher, mode, false, old(reg), input)
                && reg == LastReg(cipher, mode, false, old(reg), input) && bufSz == 0
      ensures tlsVersion > 0 && !enc && family.Aes? ==>
                var o := Open(old(Fed(input)).1, bs, tlsmacsize, env.randMac);
                && ok == (o.Opened? && (tlsmacsize > 0 ==> env.rngOk && env.allocOk))
                && (ok ==> outLen == o.len && Mac() == if tlsmacsize == 0 then None else Some(o.mac))
      ensures tlsVersion > 0 && !enc && family.Des3? ==>
                ok == ShortPaddingGood(old(Fed(input)).1, bs) && outLen == ShortLength(old(Fed(input)).1, bs)
    {
      hide Crypt, LastReg, Feed, Ready, Floor, Emitted, Overruns, Open, ShortPaddingGood, ShortLength, Sealed;
      ReadyWhenBlock(UpdateCfg(), bufSz + |input|);
      if tlsVersion > 0 && enc {
        ok, outLen := UpdateSealing(out, outOff, outSize, input);
      } else if tlsVersion > 0 {
        ok, outLen := UpdateOpening(out, outOff, outSize, input, env);
      } else {
        ok, outLen := UpdateBlocks(out, outOff, outSize, input);
      }
    }
  }
}
