/** Whole messages and records through block contexts, call by call as a caller makes them. */
module BlockSessions {
  import opened Bytes
  import opened BlockCipher
  import opened BlockStream
  import opened TlsCbc
  import opened BlockContext

  lemma {:induction false} ConcatEnd(chunks: seq<seq<byte>>, i: nat)
    requires i < |chunks|
    ensures Concat(chunks[..i + 1]) == Concat(chunks[..i]) + chunks[i]
    ensures |Concat(chunks[..i + 1])| <= |Concat(chunks)|
    decreases i
  {
    if i == 0 {
      assert chunks[..1] == [chunks[0]] && chunks[..0] == [] && chunks[..1][1..] == [];
      assert Concat([]) == [] && chunks[0] + [] == chunks[0] && [] + chunks[0] == chunks[0];
    } else {
      var rest := chunks[1..];
      assert chunks[..i + 1][1..] == rest[..i] && chunks[..i][1..] == rest[..i - 1];
      ConcatEnd(rest, i - 1);
      Associative(chunks[0], Concat(rest[..i - 1]), chunks[i]);
    }
  }

  lemma FeedNothing(cfg: Config, reg: seq<byte>)
    requires |reg| == cfg.c.bs
    ensures Feed(cfg, Stream(reg, []), []) == (Stream(reg, []), [])
    ensures Drained(cfg, Stream(reg, []))
  {
    FeedShort(cfg, Stream(reg, []), []);
    var none: seq<byte> := [];
    assert none + none == none;
  }

  /** Every update of a message, one after the other. */
  method Updates(ctx: BlockCtx, out: array<byte>, chunks: seq<seq<byte>>, env: Environment) returns (n: nat)
    requires ctx.Valid() && ctx.tlsVersion == 0 && ctx.bufSz == 0 && (ctx.family.Aes? || ctx.mode == CBC)
    requires out != ctx.buf && |Concat(chunks)| + ctx.bs <= out.Length
    modifies ctx`reg, ctx`iv, ctx`bufSz, ctx`tlsmac, ctx`tlsmacAlloced, ctx.buf, out
    ensures ctx.Valid() && n + ctx.bs <= out.Length
    ensures var f := FeedAll(Config(ctx.cipher, ctx.mode, ctx.enc, ctx.pad), Stream(old(ctx.reg), []), chunks);
            Stream(ctx.reg, ctx.buf[..ctx.bufSz]) == f.0 && out[..n] == f.1
  {
    hide Feed, Crypt, LastReg, Floor, Overruns, Open, ShortPaddingGood, Sealed, Ready, FeedAll, Concat;
    ghost var cfg, s := Config(ctx.cipher, ctx.mode, ctx.enc, ctx.pad), Stream(ctx.reg, []);
    n := 0;
    FeedNothing(cfg, ctx.reg);
    NoChunks(chunks);
    for i := 0 to |chunks|
      invariant ctx.Valid() && n + ctx.bufSz == |Concat(chunks[..i])| <= |Concat(chunks)|
      invariant n + ctx.bs <= out.Length
      invariant Feed(cfg, s, Concat(chunks[..i])) == (Stream(ctx.reg, ctx.buf[..ctx.bufSz]), out[..n])
    {
      ConcatEnd(chunks, i);
      FeedConcat(cfg, s, Concat(chunks[..i]), chunks[i]);
      ghost var out0 := out[..];
      var ok, more := ctx.Update(out, n, out.Length - n, chunks[i], env);
      ghost var f := Feed(cfg, Feed(cfg, s, Concat(chunks[..i])).0, chunks[i]);
      assert |f.1| <= ctx.bs + |chunks[i]|;
      EmittedBehind(out[..], out0, n, f.1);
      n := n + more;
    }
    assert chunks[..|chunks|] == chunks;
    ChunksAreInvisible(cfg, s, chunks);
  }

  lemma NoChunks(chunks: seq<seq<byte>>)
    ensures Concat(chunks[..0]) == []
  {
  }

  lemma EmittedBehind(after: seq<byte>, before: seq<byte>, n: nat, data: seq<byte>)
    requires Emitted(after, before, n, data)
    ensures n + |data| <= |after| && after[..n + |data|] == before[..n] + data
  {
  }

  /** A message enciphered in any updates and a final is one pass over it, padded if that is asked
      for; without padding it must be whole blocks. */
  method Encipher(ctx: BlockCtx, out: array<byte>, chunks: seq<seq<byte>>, env: Environment) returns (ok: bool, n: nat)
    requires ctx.Valid() && ctx.tlsVersion == 0 && ctx.enc && ctx.bufSz == 0 && (ctx.family.Aes? || ctx.mode == CBC)
    requires out != ctx.buf && |Concat(chunks)| + ctx.bs <= out.Length
    modifies ctx`reg, ctx`iv, ctx`bufSz, ctx`tlsmac, ctx`tlsmacAlloced, ctx.buf, out
    ensures ctx.Valid() && ok == (ctx.pad || |Concat(chunks)| % ctx.bs == 0)
    ensures ok ==> n <= out.Length
                   && out[..n] == Crypt(ctx.cipher, ctx.mode, true, old(ctx.reg),
                                        if ctx.pad then Rfc5652Padded(Concat(chunks), ctx.bs) else Concat(chunks))
  {
    hide Feed, FeedAll, Crypt, LastReg, Floor, FinalEnc, Rfc5652Padded, Concat, Overwrite;
    ghost var cfg := Config(ctx.cipher, ctx.mode, true, ctx.pad);
    n := Updates(ctx, out, chunks, env);
    ghost var s, out0 := Stream(ctx.reg, ctx.buf[..ctx.bufSz]), out[..];
    ghost var f := FinalEnc(cfg, s, ctx.bs);
    FinalsNeedRoom(cfg, s, out.Length - n);
    FinalFits(cfg, s);
    EncryptedIsWholeMessage(ctx.cipher, ctx.mode, ctx.pad, old(ctx.reg), chunks);
    var more: nat;
    ok, more := ctx.FinishEnc(out, n, out.Length - n);
    FinishedBehind(out[..], out0, n, f.out);
    n := if ok then n + more else n;
  }

  lemma FinalFits(cfg: Config, s: Stream)
    requires Consistent(cfg, s)
    ensures |FinalEnc(cfg, s, cfg.c.bs).out| <= cfg.c.bs && |FinalDec(cfg, s, cfg.c.bs).out| <= cfg.c.bs
  {
    hide Crypt, LastReg;
    OneBlockIsWhole(cfg.c.bs);
  }

  lemma FinishedBehind(after: seq<byte>, before: seq<byte>, n: nat, data: seq<byte>)
    requires n + |data| <= |before| && after == if data == [] then before else Overwrite(before, n, data)
    ensures |after| == |before| && after[..n + |data|] == before[..n] + data
  {
  }

  /** A message deciphered in any updates and a final: with padding it is accepted, and given out, exactly
      when the ciphertext is whole blocks that decipher to a padded message, and then it is that one. */
  method Decipher(ctx: BlockCtx, out: array<byte>, chunks: seq<seq<byte>>, env: Environment) returns (ok: bool, n: nat)
    requires ctx.Valid() && ctx.tlsVersion == 0 && !ctx.enc && ctx.bufSz == 0 && (ctx.family.Aes? || ctx.mode == CBC)
    requires out != ctx.buf && |Concat(chunks)| + ctx.bs <= out.Length
    modifies ctx`reg, ctx`iv, ctx`bufSz, ctx`tlsmac, ctx`tlsmacAlloced, ctx.buf, out
    ensures ctx.Valid() && n <= out.Length
    ensures ctx.pad ==>
              forall msg: seq<byte> ::
                (ok && out[..n] == msg
                 <==> && |Concat(chunks)| % ctx.bs == 0
                      && Crypt(ctx.cipher, ctx.mode, false, old(ctx.reg), Concat(chunks)) == Rfc5652Padded(msg, ctx.bs))
    ensures !ctx.pad ==>
              && ok == (|Concat(chunks)| % ctx.bs == 0)
              && (ok ==> out[..n] == Crypt(ctx.cipher, ctx.mode, false, old(ctx.reg), Concat(chunks)))
  {
    hide Feed, FeedAll, Crypt, LastReg, Floor, FinalDec, Rfc5652Padded, Concat, Overwrite, Unpad;
    ghost var cfg := Config(ctx.cipher, ctx.mode, false, ctx.pad);
    n := Updates(ctx, out, chunks, env);
    ghost var s, out0 := Stream(ctx.reg, ctx.buf[..ctx.bufSz]), out[..];
    ghost var f := FinalDec(cfg, s, ctx.bs);
    FinalsNeedRoom(cfg, s, out.Length - n);
    FinalFits(cfg, s);
    DecryptedIsWholeMessage(ctx.cipher, ctx.mode, ctx.pad, old(ctx.reg), chunks);
    var more: nat;
    ok, more := ctx.FinishDec(out, n, out.Length - n);
    FinishedBehind(out[..], out0, n, f.out);
    n := if ok then n + more else n;
    if ctx.pad {
      forall msg: seq<byte>
        ensures ok && out[..n] == msg
           <==> && |Concat(chunks)| % ctx.bs == 0
                && Crypt(ctx.cipher, ctx.mode, false, old(ctx.reg), Concat(chunks)) == Rfc5652Padded(msg, ctx.bs)
      {
        DecryptedIsExact(ctx.cipher, ctx.mode, old(ctx.reg), chunks, msg);
      }
    }
  }

  /** A message under a key and IV, and another one after initialising without either: AES starts over
      from the same IV, so equal messages give equal ciphertexts. */
  method EncipherTwice(ctx: BlockCtx, key: Cipher, iv: seq<byte>, out1: array<byte>, out2: array<byte>,
                       first: seq<seq<byte>>, second: seq<seq<byte>>, env: Environment)
      returns (n1: nat, n2: nat)
    requires ctx.Valid() && ctx.family.Aes? && ctx.mode == CBC && ctx.tlsVersion == 0 && ctx.pad
    requires key.bs == |iv| == 16 && out1 != out2 && out1 != ctx.buf && out2 != ctx.buf
    requires |Concat(first)| + 16 <= out1.Length && |Concat(second)| + 16 <= out2.Length
    modifies ctx, ctx.buf, out1, out2
    ensures n1 <= out1.Length && n2 <= out2.Length
    ensures out1[..n1] == Crypt(key, CBC, true, iv, Rfc5652Padded(Concat(first), 16))
    ensures out2[..n2] == Crypt(key, CBC, true, iv, Rfc5652Padded(Concat(second), 16))
    ensures Concat(first) == Concat(second) ==> out1[..n1] == out2[..n2]
  {
    hide Crypt, Rfc5652Padded, Concat;
    var ok := ctx.Init(Some(key), true, Some(iv), true, true, true);
    ok, n1 := Encipher(ctx, out1, first, env);
    ok := ctx.Init(None, true, None, true, true, true);
    ok, n2 := Encipher(ctx, out2, second, env);
  }

  /** The record at the start of the buffer sealed in place. */
  method Seal(sender: BlockCtx, out: array<byte>, inLen: nat, env: Environment) returns (n: nat)
    requires sender.Valid() && sender.family.Aes? && sender.mode == CBC && sender.enc
    requires sender.tlsVersion > 0 && sender.bufSz == 0 && out != sender.buf && inLen + 16 <= out.Length
    modifies sender, sender.buf, out
    ensures sender.Valid() && n <= inLen + 16 && Whole(n, 16)
    ensures out[..n] == Crypt(old(sender.cipher), CBC, true, old(sender.reg), Sealed(old(out[..inLen]), 16))
  {
    hide Crypt, LastReg, Sealed, Floor;
    ghost var data, out0 := out[..inLen], out[..];
    SealedLength(data, 16);
    assert out[0..0 + inLen] == data;
    var ok: bool;
    ok, n := sender.Update(out, 0, out.Length, out[..inLen], env);
    WrittenFirst(out[..], out0, Crypt(sender.cipher, CBC, true, old(sender.reg), Sealed(data, 16)));
  }

  /** The record of n bytes at the start of the buffer deciphered and opened in place. */
  method OpenRecord(receiver: BlockCtx, out: array<byte>, n: nat, env: Environment) returns (ok: bool, outLen: nat)
    requires receiver.Valid() && receiver.family.Aes? && receiver.mode == CBC && !receiver.enc
    requires receiver.tlsVersion > 0 && receiver.bufSz == 0 && out != receiver.buf
    requires n <= out.Length < 0x8000_0000 && Whole(n, 16) && |env.randMac| == MAX_MAC
    modifies receiver, receiver.buf, out
    ensures receiver.Valid()
    ensures var plain := Crypt(old(receiver.cipher), CBC, false, old(receiver.reg), old(out[..n]));
            var o := Open(plain, 16, old(receiver.tlsmacsize), env.randMac);
            && out[..n] == plain
            && ok == (o.Opened? && (old(receiver.tlsmacsize) > 0 ==> env.rngOk && env.allocOk))
            && (ok ==> outLen == o.len
                       && receiver.Mac() == if old(receiver.tlsmacsize) == 0 then None else Some(o.mac))
  {
    hide Crypt, LastReg, Open, Floor;
    ghost var ct, out0 := out[..n], out[..];
    assert out[0..0 + n] == ct;
    ok, outLen := receiver.Update(out, 0, out.Length, out[..n], env);
    WrittenFirst(out[..], out0, Crypt(receiver.cipher, CBC, false, old(receiver.reg), ct));
  }

  /** A record sealed by one context and opened by another with the same key, wherever the two stand:
      the payload and the MAC come back. */
  method SealAndOpen(sender: BlockCtx, receiver: BlockCtx, out: array<byte>, env: Environment,
                     explicitIv: seq<byte>, payload: seq<byte>, mac: seq<byte>) returns (ok: bool, outLen: nat)
    requires sender.Valid() && receiver.Valid() && sender != receiver && sender.buf != receiver.buf
    requires sender.family.Aes? && receiver.family.Aes? && sender.mode == receiver.mode == CBC
    requires sender.cipher == receiver.cipher && sender.enc && !receiver.enc
    requires sender.tlsVersion > 0 && receiver.tlsVersion > 0 && sender.bufSz == receiver.bufSz == 0
    requires out != sender.buf && out != receiver.buf && (receiver.tlsmac == null || out != receiver.tlsmac)
    requires |explicitIv| == 16 && |mac| == receiver.tlsmacsize <= MAX_MAC == |env.randMac|
    requires var data := explicitIv + payload + mac;
             |data| + 16 <= out.Length < 0x8000_0000 && out[..|data|] == data
    modifies sender, receiver, sender.buf, receiver.buf, out
    ensures ok == (mac == [] || (env.rngOk && env.allocOk))
    ensures ok ==> outLen == |payload| && 16 + outLen <= out.Length && out[16..16 + outLen] == payload
    ensures ok ==> receiver.Mac() == if mac == [] then None else Some(mac)
  {
    hide Crypt, LastReg, Open, Sealed, Feed, Floor;
    ghost var data := explicitIv + payload + mac;
    SealedLength(data, 16);
    RecordRoundTrip(sender.cipher, sender.reg, receiver.reg, explicitIv, payload, mac, env.randMac);
    var n := Seal(sender, out, |explicitIv| + |payload| + |mac|, env);
    ok, outLen := OpenRecord(receiver, out, n, env);
    assert |data| <= n;
    assert out[..n][16..][..|payload|] == out[16..16 + |payload|];
  }

  lemma SealedLength(data: seq<byte>, bs: nat)
    requires 0 < bs < 256
    ensures Whole(|Sealed(data, bs)|, bs) && |data| < |Sealed(data, bs)| <= |data| + bs
  {
    SealedIsWhole(data, bs);
  }

  lemma WrittenFirst(after: seq<byte>, before: seq<byte>, data: seq<byte>)
    requires Emitted(after, before, 0, data)
    ensures |after| == |before| && |data| <= |after| && after[..|data|] == data
  {
  }
}
