/** Whole messages and records through GCM contexts, call by call as a caller makes them. */
module AeadSessions {
  import opened Bytes
  import opened Gcm
  import opened GcmTls
  import opened AeadContext
  import RecordRuns
  import BlockStream
  import BlockSessions

  ghost predicate Ready(ctx: AeadCtx)
    reads ctx
  {
    ctx.Valid() && ctx.tlsAadLen.None? && ctx.tagLen.None? && !ctx.authErr && !ctx.tagAvail
    && ctx.aad == [] && ctx.inLen == 0
  }

  // ---- messages ----

  /** Additional data in any number of calls. */
  method GiveAad(ctx: AeadCtx, aads: seq<seq<byte>>)
    requires ctx.Valid() && ctx.tlsAadLen.None?
    modifies ctx, ctx.buf, ctx.spool
    ensures ctx.Valid() && ctx.tlsAadLen.None? && ctx.tagLen == old(ctx.tagLen) && ctx.key == old(ctx.key)
    ensures ctx.spool == old(ctx.spool) || fresh(ctx.spool)
    ensures ctx.Current() == AddAad(old(ctx.Current()), BlockStream.Concat(aads))
  {
    hide BlockStream.Concat, Cipher;
    ghost var s := ctx.Current();
    BlockSessions.NoChunks(aads);
    assert s.aad + [] == s.aad;
    for i := 0 to |aads|
      invariant ctx.Valid() && ctx.tlsAadLen.None? && ctx.tagLen == old(ctx.tagLen) && ctx.key == old(ctx.key)
      invariant ctx.spool == old(ctx.spool) || fresh(ctx.spool)
      invariant ctx.Current() == AddAad(s, BlockStream.Concat(aads[..i]))
    {
      BlockSessions.ConcatEnd(aads, i);
      Associative(s.aad, BlockStream.Concat(aads[..i]), aads[i]);
      var ok, n := ctx.StreamUpdate(null, 0, 0, Some(aads[i]), |aads[i]|, true, true);
    }
    assert aads[..|aads|] == aads;
  }

  /** What a context holds of a message, and has given out, after some of its data. */
  ghost predicate Given(g: Key, iv: seq<byte>, aad: seq<byte>, data: seq<byte>, slot: seq<byte>,
                        s: Session, out: seq<byte>)
  {
    && ValidSession(s) && !s.authErr && s.iv == iv && s.aad == aad && s.data == data && s.tagLen == 16
    && out == Cipher(g, iv, data)
    && (if s.enc && data != [] then s.tagAvail && s.buf == FullTag(g, iv, aad, out) else !s.tagAvail && s.buf == slot)
  }

  lemma GivenMore(g: Key, iv: seq<byte>, aad: seq<byte>, data: seq<byte>, slot: seq<byte>,
                  s: Session, out: seq<byte>, input: seq<byte>)
    requires Given(g, iv, aad, data, slot, s, out)
    ensures var r := AddData(g, s, input);
            Given(g, iv, aad, data + input, slot, r.0, out + r.1) && r.0.enc == s.enc
  {
    hide Cipher;
    if input == [] {
      assert data + input == data && out + [] == out;
    } else {
      CipherPrefix(g, iv, data, input);
      var all := Cipher(g, iv, data + input);
      assert all == all[..|data|] + all[|data|..];
    }
  }

  lemma GivenNothing(g: Key, iv: seq<byte>, aad: seq<byte>, s: Session)
    requires ValidSession(s) && !s.authErr && s.iv == iv && s.aad == aad && s.data == [] && s.tagLen == 16
    requires !s.tagAvail
    ensures Given(g, iv, aad, [], s.buf, s, [])
  {
  }

  /** Final leaves the tag of all that was given, or compares the one in the slot with it. */
  lemma GivenAll(g: Key, iv: seq<byte>, aad: seq<byte>, data: seq<byte>, slot: seq<byte>, s: Session, out: seq<byte>)
    requires Given(g, iv, aad, data, slot, s, out)
    ensures s.enc ==> Finish(g, s).0 && Finish(g, s).1.enc
                      && Finish(g, s).1.buf == FullTag(g, iv, aad, Cipher(g, iv, data))
    ensures !s.enc ==> (Finish(g, s).0 <==> slot == FullTag(g, iv, aad, data))
  {
    hide Cipher;
    var t := FullTag(g, iv, aad, if s.enc then out else data);
    assert t[..16] == t && s.buf[16..] == [] && s.buf[..16] == s.buf && t + [] == t;
  }

  /** Data in any number of updates. */
  method GiveData(ctx: AeadCtx, chunks: seq<seq<byte>>, out: array<byte>, ghost iv: seq<byte>, ghost aad: seq<byte>,
                  ghost slot: seq<byte>) returns (n: nat)
    requires ctx.Valid() && ctx.tlsAadLen.None? && |BlockStream.Concat(chunks)| <= out.Length
    requires out != ctx.buf && out != ctx.iv && out != ctx.spool
    requires Given(ctx.key, iv, aad, [], slot, ctx.Current(), [])
    modifies ctx, ctx.buf, ctx.spool, out
    ensures ctx.Valid() && ctx.tlsAadLen.None? && ctx.key == old(ctx.key) && ctx.enc == old(ctx.enc)
    ensures n == |BlockStream.Concat(chunks)| && (ctx.spool == old(ctx.spool) || fresh(ctx.spool))
    ensures Given(ctx.key, iv, aad, BlockStream.Concat(chunks), slot, ctx.Current(), out[..n])
    ensures chunks != [] && BlockStream.Concat(chunks) != [] ==> ctx.tagLen.Some?
  {
    hide BlockStream.Concat, Cipher, Emitted, AddData, Given;
    n := 0;
    BlockSessions.NoChunks(chunks);
    for i := 0 to |chunks|
      invariant ctx.Valid() && ctx.tlsAadLen.None? && ctx.key == old(ctx.key) && ctx.enc == old(ctx.enc)
      invariant out != ctx.spool && (ctx.spool == old(ctx.spool) || fresh(ctx.spool))
      invariant n == |BlockStream.Concat(chunks[..i])| <= |BlockStream.Concat(chunks)|
      invariant Given(ctx.key, iv, aad, BlockStream.Concat(chunks[..i]), slot, ctx.Current(), out[..n])
      invariant BlockStream.Concat(chunks[..i]) != [] ==> ctx.tagLen.Some?
    {
      BlockSessions.ConcatEnd(chunks, i);
      ghost var s, out0 := ctx.Current(), out[..];
      GivenMore(ctx.key, iv, aad, BlockStream.Concat(chunks[..i]), slot, s, out[..n], chunks[i]);
      var ok, more := ctx.StreamUpdate(out, n, out.Length - n, Some(chunks[i]), |chunks[i]|, true, true);
      BlockSessions.EmittedBehind(out[..], out0, n, AddData(ctx.key, s, chunks[i]).1);
      n := n + more;
    }
    assert chunks[..|chunks|] == chunks;
  }

  /** A context initialised for a message, with its additional data. */
  method Begin(ctx: AeadCtx, key: Key, iv: seq<byte>, enc: bool, tag: Option<seq<byte>>, aads: seq<seq<byte>>)
    requires Ready(ctx) && |iv| == ctx.ivLen && tag.None? == enc && (tag.Some? ==> |tag.value| == 16)
    modifies ctx, ctx.buf, ctx.iv, ctx.spool
    ensures ctx.Valid() && ctx.tlsAadLen.None? && ctx.key == key && ctx.enc == enc
    ensures ctx.spool == old(ctx.spool) || fresh(ctx.spool)
    ensures tag.Some? ==> ctx.Current().buf == tag.value
    ensures Given(key, iv, BlockStream.Concat(aads), [], ctx.Current().buf, ctx.Current(), [])
  {
    hide BlockStream.Concat, Cipher, Given;
    ghost var aad := BlockStream.Concat(aads);
    var ok := ctx.Init(Some(key), Some(iv), enc, true, true, true);
    assert ctx.Current().data == [];
    if tag.Some? {
      ok := ctx.SetTag(tag, 16);
      assert ctx.Current().buf == tag.value + [] == tag.value;
    }
    GiveAad(ctx, aads);
    assert [] + aad == aad;
    GivenNothing(key, iv, aad, ctx.Current());
  }

  /** A message encrypted in any updates, after additional data in any calls, and its tag: one-shot
      encryption of all the data with all the additional data. */
  method Encrypt(ctx: AeadCtx, key: Key, iv: seq<byte>, aads: seq<seq<byte>>, chunks: seq<seq<byte>>, out: array<byte>)
      returns (n: nat, tag: seq<byte>)
    requires Ready(ctx) && |iv| == ctx.ivLen && |BlockStream.Concat(chunks)| <= out.Length
    requires out != ctx.buf && out != ctx.iv && out != ctx.spool
    modifies ctx, ctx.buf, ctx.iv, ctx.spool, out
    ensures n == |BlockStream.Concat(chunks)| && out[..n] == Cipher(key, iv, BlockStream.Concat(chunks))
    ensures tag == FullTag(key, iv, BlockStream.Concat(aads), out[..n])
  {
    hide BlockStream.Concat, Cipher, Finish;
    Begin(ctx, key, iv, true, None, aads);
    ghost var slot := ctx.Current().buf;
    n := GiveData(ctx, chunks, out, iv, BlockStream.Concat(aads), slot);
    GivenAll(key, iv, BlockStream.Concat(aads), BlockStream.Concat(chunks), slot, ctx.Current(), out[..n]);
    var ok := ctx.StreamFinal(true);
    ok, tag := ctx.FetchTag(16);
  }

  /** A message decrypted in any updates: the plaintext comes out, and it is accepted if and only if the
      tag given for it is that of all the ciphertext and additional data. */
  method Decrypt(ctx: AeadCtx, key: Key, iv: seq<byte>, aads: seq<seq<byte>>, chunks: seq<seq<byte>>, tag: seq<byte>,
                 out: array<byte>) returns (ok: bool, n: nat)
    requires Ready(ctx) && |iv| == ctx.ivLen && |BlockStream.Concat(chunks)| <= out.Length && |tag| == 16
    requires out != ctx.buf && out != ctx.iv && out != ctx.spool
    modifies ctx, ctx.buf, ctx.iv, ctx.spool, out
    ensures n == |BlockStream.Concat(chunks)| && out[..n] == Cipher(key, iv, BlockStream.Concat(chunks))
    ensures ok <==> tag == FullTag(key, iv, BlockStream.Concat(aads), BlockStream.Concat(chunks))
  {
    hide BlockStream.Concat, Cipher, Finish;
    Begin(ctx, key, iv, false, Some(tag), aads);
    n := GiveData(ctx, chunks, out, iv, BlockStream.Concat(aads), tag);
    GivenAll(key, iv, BlockStream.Concat(aads), BlockStream.Concat(chunks), tag, ctx.Current(), out[..n]);
    ok := ctx.StreamFinal(true);
  }

  // ---- records ----

  /** Two contexts for the two ends of a connection, which share nothing but the key. */
  ghost predicate Ends(sender: AeadCtx, receiver: AeadCtx)
    reads sender, receiver
  {
    && sender.Valid() && receiver.Valid() && sender != receiver
    && sender.key == receiver.key && sender.keySet && receiver.keySet && sender.enc && !receiver.enc
    && sender.ivLen == receiver.ivLen == 12 && sender.tagLen.None? && receiver.tagLen.None?
    && {sender.buf, sender.iv, sender.spool} !! {receiver.buf, receiver.iv, receiver.spool}
  }

  /** Given the same fixed part the two have nonces that agree in all but the explicit part, which is
      what the round trip of a record asks for. */
  method GiveFixedPart(sender: AeadCtx, receiver: AeadCtx, part: seq<byte>, random: seq<byte>, noise: seq<byte>)
    requires Ends(sender, receiver) && |part| == 4 && |random| == |noise| == 12
    requires RecordRuns.Counted(sender.Line()) && RecordRuns.Counted(receiver.Line())
    modifies sender, sender.iv, receiver, receiver.iv
    ensures Ends(sender, receiver) && sender.ivGen && receiver.ivGen
    ensures unchanged(sender`spool, sender`enc, sender`key, receiver`spool, receiver`enc, receiver`key)
    ensures RecordRuns.Counted(sender.Line()) && RecordRuns.Counted(receiver.Line())
    ensures sender.CurrentIv() == part + random[4..]
    ensures receiver.CurrentIv() == part + old(receiver.CurrentIv())[4..]
    ensures sender.CurrentIv()[..4] == receiver.CurrentIv()[..4]
  {
    hide RecordRuns.Next;
    RecordRuns.FixIvIs(sender.Line(), RecordRuns.Fixed(part), random, true);
    RecordRuns.FixIvIs(receiver.Line(), RecordRuns.Fixed(part), noise, true);
    var ok := sender.SetFixedIv(RecordRuns.Fixed(part), random, true);
    ok := receiver.SetFixedIv(RecordRuns.Fixed(part), noise, true);
  }

  /** Both ends take the header, each with the length of the record as it knows it. */
  method GiveHeader(sender: AeadCtx, receiver: AeadCtx, header: seq<byte>, n: nat)
    requires Ends(sender, receiver) && |header| == 11 && n + 24 < 0x1_0000
    requires RecordRuns.Counted(sender.Line()) && RecordRuns.Counted(receiver.Line())
    modifies sender`tlsAadLen, sender`tlsEncRecords, receiver`tlsAadLen, receiver`tlsEncRecords,
             sender.buf, receiver.buf
    ensures Ends(sender, receiver) && sender.tlsAadLen.Some? && receiver.tlsAadLen.Some?
    ensures RecordRuns.Counted(sender.Line()) && RecordRuns.Counted(receiver.Line())
    ensures sender.buf[..13] == receiver.buf[..13] == header + LengthField(n)
  {
    hide CorrectedAad, LengthField, RecordRuns.Next;
    BothEndsAgree(header, n);
    var pad := sender.TlsInit(header + LengthField(n + 8), true);
    pad := receiver.TlsInit(header + LengthField(n + 24), true);
  }

  /** The record itself, sealed and opened in place. */
  method Exchange(sender: AeadCtx, receiver: AeadCtx, aad: seq<byte>, payload: seq<byte>, out: array<byte>)
      returns (ok: bool, outLen: nat)
    requires Ends(sender, receiver) && sender.ivGen && receiver.ivGen
    requires sender.tlsAadLen.Some? && receiver.tlsAadLen.Some?
    requires RecordRuns.Counted(sender.Line()) && RecordRuns.Counted(receiver.Line())
    requires sender.CurrentIv()[..4] == receiver.CurrentIv()[..4] && sender.buf[..13] == receiver.buf[..13] == aad
    requires out !in {sender.buf, sender.iv, sender.spool, receiver.buf, receiver.iv, receiver.spool}
    requires out.Length == 8 + |payload| + 16 && out[8..8 + |payload|] == payload
    modifies sender, sender.iv, receiver, receiver.iv, out
    ensures sender.Valid() && receiver.Valid()
    ensures ok && outLen == |payload| && out[8..8 + outLen] == payload
    ensures receiver.CurrentIv() == sender.CurrentIv() == old(sender.CurrentIv())
  {
    hide Cipher, Emitted, GcmTls.Sealed, Opened, ReceiverIv, RecordRuns.Next;
    ghost var iv, iv' := sender.CurrentIv(), receiver.CurrentIv();
    RecordRoundTrip(sender.key, iv, iv', aad, payload);
    SealedParts(sender.key, iv, aad, payload);
    ghost var out0, record := out[..], GcmTls.Sealed(sender.key, iv, aad, payload);
    assert out[0 + 8..0 + out.Length - 16] == payload;
    ok, outLen := sender.TlsCipher(out, 0, out.Length, true, true);
    WholeEmitted(out[..], out0, record);
    assert out[0..0 + out.Length] == out[..] == record;
    ghost var out1 := out[..];
    ok, outLen := receiver.TlsCipher(out, 0, out.Length, true, true);
    EmittedAt(out[..], out1, 8, payload);
    assert iv'[..4] + record[..8] == iv;
  }

  /** A record from one end to the other: the receiver has the sender's nonce and the payload comes
      back, for every payload that fits. */
  method SendRecord(sender: AeadCtx, receiver: AeadCtx, part: seq<byte>, random: seq<byte>, noise: seq<byte>,
                    header: seq<byte>, payload: seq<byte>, out: array<byte>) returns (ok: bool, outLen: nat)
    requires Ends(sender, receiver) && |part| == 4 && |random| == |noise| == 12 && |header| == 11
    requires RecordRuns.Counted(sender.Line()) && RecordRuns.Counted(receiver.Line())
    requires out !in {sender.buf, sender.iv, sender.spool, receiver.buf, receiver.iv, receiver.spool}
    requires out.Length == 8 + |payload| + 16 < 0x1_0000 && out[8..8 + |payload|] == payload
    modifies sender, sender.buf, sender.iv, receiver, receiver.buf, receiver.iv, out
    ensures sender.Valid() && receiver.Valid()
    ensures ok && outLen == |payload| && out[8..8 + outLen] == payload
    ensures sender.CurrentIv() == receiver.CurrentIv() == part + random[4..]
  {
    hide Cipher, LengthField;
    GiveFixedPart(sender, receiver, part, random, noise);
    GiveHeader(sender, receiver, header, |payload|);
    ok, outLen := Exchange(sender, receiver, header + LengthField(|payload|), payload, out);
  }

  lemma WholeEmitted(after: seq<byte>, before: seq<byte>, data: seq<byte>)
    requires Emitted(after, before, 0, data) && |data| == |before|
    ensures after == data
  {
  }

  lemma EmittedAt(after: seq<byte>, before: seq<byte>, off: nat, data: seq<byte>)
    requires Emitted(after, before, off, data)
    ensures off + |data| <= |after| && after[off..off + |data|] == data
  {
  }
}
