/** Whole messages through AES stream contexts, call by call as a caller makes them. */
module StreamSessions {
  import opened Bytes
  import opened BlockCipher
  import opened BlockStream
  import opened BlockSessions
  import opened CiphertextStealing
  import opened StreamModes
  import opened StreamContext

  /** A context initialised for a message, and all its updates: counter and feedback mode give out the
      mode of the standard over the whole message, however it is split. */
  method Process(ctx: AesStreamCtx, key: Cipher, iv: seq<byte>, enc: bool, out: array<byte>, chunks: seq<seq<byte>>)
      returns (n: nat)
    requires ctx.Valid() && ctx.mode != CTS && key.bs == |iv| == 16 && |Concat(chunks)| <= out.Length
    modifies ctx, out
    ensures ctx.Valid() && n == |Concat(chunks)|
    ensures ctx.mode == Counter ==> out[..n] == OneShot(key, CTR, enc, iv, Concat(chunks))
    ensures ctx.mode == Feedback ==> out[..n] == OneShot(key, CFB, enc, iv, Concat(chunks))
  {
    hide Through, OneShot, Concat, Overwrite, CtsEncrypt, CtsDecrypt, LastReg, Crypt;
    ghost var m, s := if ctx.mode == Counter then CTR else CFB, Keystream(iv, []);
    var ok := ctx.Init(Some(key), true, Some(iv), enc, true, true);
    n := 0;
    NoChunks(chunks);
    StreamNothing(key, m, enc, s);
    for i := 0 to |chunks|
      invariant ctx.Valid() && ctx.cipher == key && ctx.enc == enc
      invariant n == |Concat(chunks[..i])| <= |Concat(chunks)|
      invariant Through(key, m, enc, s, Concat(chunks[..i])) == (Keystream(ctx.iv, ctx.left), out[..n])
    {
      ConcatEnd(chunks, i);
      ThroughConcat(key, m, enc, s, Concat(chunks[..i]), chunks[i]);
      ghost var out0 := out[..];
      ghost var r := Through(key, m, enc, Keystream(ctx.iv, ctx.left), chunks[i]);
      ok := ctx.Update(out, n, out.Length - n, chunks[i]);
      OverwrittenBehind(out[..], out0, n, r.1);
      n := n + |chunks[i]|;
    }
    assert chunks[..|chunks|] == chunks;
    ThroughIsOneShot(key, m, enc, iv, Concat(chunks));
  }

  lemma OverwrittenBehind(after: seq<byte>, before: seq<byte>, n: nat, data: seq<byte>)
    requires n + |data| <= |before| && after == Overwrite(before, n, data)
    ensures |after| == |before| && after[..n + |data|] == before[..n] + data
  {
  }

  /** A message of more than one block stolen by one context comes back from another that was given the
      same key and IV; neither takes a second one. */
  method StealAndReturn(sender: AesStreamCtx, receiver: AesStreamCtx, key: Cipher, iv: seq<byte>,
                        msg: seq<byte>, out: array<byte>, again: seq<byte>) returns (ok: bool, second: bool)
    requires sender != receiver && sender.Valid() && receiver.Valid() && sender.mode == receiver.mode == CTS
    requires key.bs == |iv| == 16 && |msg| > 16 && |msg| == out.Length && |again| <= out.Length
    modifies sender, receiver, out
    ensures ok && out[..] == msg && sender.iv == receiver.iv && !second
  {
    hide CtsEncrypt, CtsDecrypt, Crypt, LastReg, Overwrite, ZeroPadded, SavedIv, Leading, Through;
    CtsUndoes(key, iv, msg);
    ok := sender.Init(Some(key), true, Some(iv), true, true, true);
    ok := receiver.Init(Some(key), true, Some(iv), false, true, true);
    ghost var out0 := out[..];
    ok := sender.Update(out, 0, out.Length, msg);
    WholeOverwrite(out0, CtsEncrypt(key, iv, msg));
    ok := receiver.Update(out, 0, out.Length, out[..]);
    WholeOverwrite(CtsEncrypt(key, iv, msg), msg);
    second := receiver.Update(out, 0, out.Length, again);
  }
}
