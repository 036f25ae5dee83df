/** What a buffered block cipher does to a stream: the specification the streaming engine
    refines, and the results about whole runs of it. */
module BlockStream {
  import opened Bytes
  import opened BlockCipher

  datatype Config = Config(c: Cipher, mode: Mode, enc: bool, pad: bool) {
    /** Padded decryption must not emit what may turn out to be the last block. */
    predicate HoldsBack() {
      !enc && pad
    }
  }

  /** The chaining register and the bytes taken in but not yet processed. */
  datatype Stream = Stream(reg: seq<byte>, pending: seq<byte>)

  predicate Consistent(cfg: Config, s: Stream) {
    |s.reg| == cfg.c.bs && |s.pending| <= cfg.c.bs
  }

  /** How many of n buffered bytes can be processed now. */
  function Ready(cfg: Config, n: nat): (r: nat)
    ensures r <= n <= r + cfg.c.bs && Whole(r, cfg.c.bs)
  {
    var m := if cfg.HoldsBack() && n > 0 then n - 1 else n;
    FloorIsWhole(m, cfg.c.bs);
    Floor(m, cfg.c.bs)
  }

  function Feed(cfg: Config, s: Stream, input: seq<byte>): (r: (Stream, seq<byte>))
    requires Consistent(cfg, s)
    ensures Consistent(cfg, r.0)
    ensures |r.1| == Ready(cfg, |s.pending| + |input|)
    ensures |s.pending| + |input| == |r.1| + |r.0.pending|
  {
    var all := s.pending + input;
    var k := Ready(cfg, |all|);
    (Stream(LastReg(cfg.c, cfg.mode, cfg.enc, s.reg, all[..k]), all[k..]),
     Crypt(cfg.c, cfg.mode, cfg.enc, s.reg, all[..k]))
  }

  /** Feeding a list of chunks one after the other. */
  function FeedAll(cfg: Config, s: Stream, chunks: seq<seq<byte>>): (r: (Stream, seq<byte>))
    requires Consistent(cfg, s)
    ensures Consistent(cfg, r.0)
    decreases |chunks|
  {
    if chunks == [] then (s, [])
    else
      var first := Feed(cfg, s, chunks[0]);
      var rest := FeedAll(cfg, first.0, chunks[1..]);
      (rest.0, first.1 + rest.1)
  }

  function Concat(chunks: seq<seq<byte>>): seq<byte> {
    if chunks == [] then [] else chunks[0] + Concat(chunks[1..])
  }

  // ---- finishing ----

  datatype Final = Final(ok: bool, out: seq<byte>, after: Stream)

  function PadBlock(pending: seq<byte>, bs: nat): (r: seq<byte>)
    requires |pending| <= bs < 256
    ensures |r| == bs
  {
    pending + Repeat(ByteOf(bs - |pending|), bs - |pending|)
  }

  /** A block ends with p bytes of value p, for some p from 1 to its length. */
  predicate Padded(block: seq<byte>) {
    && block != []
    && var p := block[|block| - 1];
       1 <= p as nat <= |block| && forall k | |block| - p as nat <= k < |block| :: block[k] == p
  }

  function Unpadded(block: seq<byte>): seq<byte>
    requires Padded(block)
  {
    block[..|block| - block[|block| - 1] as nat]
  }

  function FinalEnc(cfg: Config, s: Stream, outSize: nat): Final
    requires Consistent(cfg, s)
  {
    if !cfg.pad then Final(s.pending == [], [], s)
    else
      var block := PadBlock(s.pending, cfg.c.bs);
      if outSize < cfg.c.bs then Final(false, [], Stream(s.reg, block))
      else Final(true, Crypt(cfg.c, cfg.mode, cfg.enc, s.reg, block),
                 Stream(LastReg(cfg.c, cfg.mode, cfg.enc, s.reg, block), []))
  }

  function FinalDec(cfg: Config, s: Stream, outSize: nat): Final
    requires Consistent(cfg, s)
  {
    if !cfg.pad then Final(s.pending == [], [], s)
    else if |s.pending| != cfg.c.bs then Final(false, [], s)
    else
      var plain := Crypt(cfg.c, cfg.mode, cfg.enc, s.reg, s.pending);
      var reg := LastReg(cfg.c, cfg.mode, cfg.enc, s.reg, s.pending);
      if !Padded(plain) then Final(false, [], Stream(reg, plain))
      else if outSize < |Unpadded(plain)| then Final(false, [], Stream(reg, Unpadded(plain)))
      else Final(true, Unpadded(plain), Stream(reg, []))
  }

  /** Final needs room for what it emits, and to find nothing buffered when it does not pad. */
  lemma FinalsNeedRoom(cfg: Config, s: Stream, outSize: nat)
    requires Consistent(cfg, s)
    ensures FinalEnc(cfg, s, outSize).ok <==> if cfg.pad then cfg.c.bs <= outSize else s.pending == []
    ensures var f, roomy := FinalDec(cfg, s, outSize), FinalDec(cfg, s, cfg.c.bs);
            && (f.ok <==> roomy.ok && |roomy.out| <= outSize)
            && (f.ok ==> f == roomy)
    ensures cfg.c.bs <= outSize ==> FinalEnc(cfg, s, outSize) == FinalEnc(cfg, s, cfg.c.bs)
    ensures cfg.c.bs <= outSize ==> FinalDec(cfg, s, outSize) == FinalDec(cfg, s, cfg.c.bs)
    ensures !cfg.pad ==> (FinalDec(cfg, s, outSize).ok <==> s.pending == [])
    ensures cfg.pad && FinalDec(cfg, s, outSize).ok ==> |s.pending| == cfg.c.bs
  {
    hide Crypt, LastReg;
    OneBlockIsWhole(cfg.c.bs);
  }

  // ---- chunk independence ----

  lemma ReadySplits(cfg: Config, n: nat, m: nat)
    ensures Ready(cfg, n + m) == Ready(cfg, n) + Ready(cfg, n - Ready(cfg, n) + m)
  {
    var r := Ready(cfg, n);
    if cfg.HoldsBack() && n > 0 {
      FloorOfSum(r, n - r + m - 1, cfg.c.bs);
    } else if !cfg.HoldsBack() {
      FloorOfSum(r, n - r + m, cfg.c.bs);
    }
  }

  lemma CutTwice<T>(p: seq<T>, a: seq<T>, b: seq<T>, k1: nat, k2: nat)
    requires k1 <= |p + a| && k2 <= |(p + a)[k1..] + b|
    ensures (p + (a + b))[..k1 + k2] == (p + a)[..k1] + ((p + a)[k1..] + b)[..k2]
    ensures (p + (a + b))[k1 + k2..] == ((p + a)[k1..] + b)[k2..]
  {
  }

  lemma FeedConcat(cfg: Config, s: Stream, a: seq<byte>, b: seq<byte>)
    requires Consistent(cfg, s)
    ensures var first := Feed(cfg, s, a);
            var second := Feed(cfg, first.0, b);
            Feed(cfg, s, a + b) == (second.0, first.1 + second.1)
  {
    hide Crypt, LastReg, Floor, ByteOf;
    var all := s.pending + a;
    var k1 := Ready(cfg, |all|);
    var all2 := all[k1..] + b;
    var k2 := Ready(cfg, |all2|);
    ReadySplits(cfg, |all|, |b|);
    CutTwice(s.pending, a, b, k1, k2);
    CryptConcat(cfg.c, cfg.mode, cfg.enc, s.reg, all[..k1], all2[..k2]);
  }

  /** What cannot be processed yet is only buffered. */
  lemma FeedShort(cfg: Config, s: Stream, input: seq<byte>)
    requires Consistent(cfg, s) && Ready(cfg, |s.pending + input|) == 0
    ensures Feed(cfg, s, input) == (Stream(s.reg, s.pending + input), [])
  {
  }

  /** Whole blocks on an empty buffer all go through when nothing is held back. */
  lemma FeedWhole(cfg: Config, reg: seq<byte>, data: seq<byte>)
    requires |reg| == cfg.c.bs && Whole(|data|, cfg.c.bs) && !cfg.HoldsBack()
    ensures Feed(cfg, Stream(reg, []), data)
         == (Stream(LastReg(cfg.c, cfg.mode, cfg.enc, reg, data), []),
             Crypt(cfg.c, cfg.mode, cfg.enc, reg, data))
  {
    hide Crypt, LastReg;
    assert [] + data == data && data[..|data|] == data && data[|data|..] == [];
  }

  lemma CutAfterBlock<T>(pending: seq<T>, input: seq<T>, len: nat, k: nat)
    requires len + k <= |input|
    ensures (pending + input)[..|pending| + len + k] == pending + input[..len] + input[len..][..k]
    ensures (pending + input)[|pending| + len + k..] == input[len..][k..]
  {
  }

  /** A filled buffer that need not be held back goes first, then the rest on its own. */
  lemma FeedFilled(cfg: Config, s: Stream, input: seq<byte>, len: nat)
    requires Consistent(cfg, s) && len <= |input| && |s.pending| + len == cfg.c.bs
    requires len < |input| || !cfg.HoldsBack()
    ensures var block := s.pending + input[..len];
            var reg := LastReg(cfg.c, cfg.mode, cfg.enc, s.reg, block);
            var rest := Feed(cfg, Stream(reg, []), input[len..]);
            && Whole(|block|, cfg.c.bs)
            && Feed(cfg, s, input) == (rest.0, Crypt(cfg.c, cfg.mode, cfg.enc, s.reg, block) + rest.1)
  {
    hide Crypt, LastReg;
    var block, rest := s.pending + input[..len], input[len..];
    var k := Ready(cfg, |rest|);
    OneBlockIsWhole(cfg.c.bs);
    assert Ready(cfg, cfg.c.bs + |rest|) == cfg.c.bs + k;
    assert [] + rest == rest;
    CutAfterBlock(s.pending, input, len, k);
    hide Ready, Floor;
    CryptConcat(cfg.c, cfg.mode, cfg.enc, s.reg, block, rest[..k]);
  }

  /** How much of the input tops up a buffer that is not empty. */
  function TopUp(cfg: Config, s: Stream, input: seq<byte>): (len: nat)
    requires Consistent(cfg, s)
    ensures len <= |input| && |s.pending| + len <= cfg.c.bs
    ensures s.pending == [] ==> len == 0
  {
    if s.pending == [] then 0
    else if |input| < cfg.c.bs - |s.pending| then |input|
    else cfg.c.bs - |s.pending|
  }

  /** The topped-up buffer is full and need not be held back. */
  predicate Flushes(cfg: Config, s: Stream, input: seq<byte>)
    requires Consistent(cfg, s)
  {
    var len := TopUp(cfg, s, input);
    |s.pending| + len == cfg.c.bs && !(cfg.HoldsBack() && len == |input|)
  }

  /** The engine's two stages: a buffer that flushes goes first, then the rest on its own. */
  lemma FeedWithFlush(cfg: Config, s: Stream, input: seq<byte>)
    requires Consistent(cfg, s) && Flushes(cfg, s, input)
    ensures var len := TopUp(cfg, s, input);
            var filled, rest := s.pending + input[..len], input[len..];
            var reg := LastReg(cfg.c, cfg.mode, cfg.enc, s.reg, filled);
            var second := Feed(cfg, Stream(reg, []), rest);
            && s.pending != []
            && Ready(cfg, |s.pending| + |input|) == cfg.c.bs + Ready(cfg, |rest|)
            && (rest == [] ==> second.0 == Stream(reg, []))
            && Feed(cfg, s, input)
               == (second.0, Crypt(cfg.c, cfg.mode, cfg.enc, s.reg, filled) + second.1)
  {
    hide Crypt, LastReg;
    var len := TopUp(cfg, s, input);
    FeedFilled(cfg, s, input, len);
    if len == |input| {
      FeedShort(cfg, Stream(LastReg(cfg.c, cfg.mode, cfg.enc, s.reg, s.pending + input[..len]), []), []);
    }
  }

  /** Without a flush there is only the rest, or only a longer buffer. */
  lemma FeedWithoutFlush(cfg: Config, s: Stream, input: seq<byte>)
    requires Consistent(cfg, s) && !Flushes(cfg, s, input)
    ensures var len := TopUp(cfg, s, input);
            var rest := input[len..];
            var second := Feed(cfg, Stream(s.reg, []), rest);
            && (s.pending == [] || Ready(cfg, |s.pending| + |input|) == 0)
            && Ready(cfg, |s.pending| + |input|) == Ready(cfg, |rest|)
            && (s.pending == [] || rest == [])
            && Feed(cfg, s, input) == (if rest == [] then Stream(s.reg, s.pending + input[..len]) else second.0,
                                       second.1)
  {
    hide Crypt, LastReg;
    var len := TopUp(cfg, s, input);
    assert len == |input| ==> input[..len] == input;
    if s.pending != [] {
      FeedShort(cfg, s, input);
      FeedShort(cfg, Stream(s.reg, []), []);
    } else if input == [] {
      FeedShort(cfg, s, input);
    }
  }

  /** Nothing that could be processed is waiting. */
  predicate Drained(cfg: Config, s: Stream) {
    Consistent(cfg, s) && Ready(cfg, |s.pending|) == 0
  }

  lemma FeedDrains(cfg: Config, s: Stream, input: seq<byte>)
    requires Consistent(cfg, s)
    ensures Drained(cfg, Feed(cfg, s, input).0)
  {
    ReadySplits(cfg, |s.pending + input|, 0);
  }

  /** How the input is split into update calls is invisible. */
  lemma {:induction false} ChunksAreInvisible(cfg: Config, s: Stream, chunks: seq<seq<byte>>)
    requires Drained(cfg, s)
    ensures FeedAll(cfg, s, chunks) == Feed(cfg, s, Concat(chunks))
    decreases |chunks|
  {
    if chunks == [] {
      assert s.pending + [] == s.pending && s.pending[0..] == s.pending;
    } else {
      FeedDrains(cfg, s, chunks[0]);
      ChunksAreInvisible(cfg, Feed(cfg, s, chunks[0]).0, chunks[1..]);
      FeedConcat(cfg, s, chunks[0], Concat(chunks[1..]));
    }
  }

  /** No byte is lost: what came in is what went out plus what is buffered, and the buffer holds
      the remainder of the total, except that padded decryption keeps a full last block. */
  lemma BytesAreConserved(cfg: Config, iv: seq<byte>, chunks: seq<seq<byte>>)
    requires |iv| == cfg.c.bs
    ensures var r := FeedAll(cfg, Stream(iv, []), chunks);
            var total := |Concat(chunks)|;
            && total == |r.1| + |r.0.pending|
            && |r.0.pending| == if !cfg.HoldsBack() then total % cfg.c.bs
                                else if total == 0 then 0
                                else (total - 1) % cfg.c.bs + 1
  {
    hide Crypt, LastReg, Concat, FeedAll;
    var s, all := Stream(iv, []), Concat(chunks);
    ChunksAreInvisible(cfg, s, chunks);
    assert s.pending + all == all;
    FloorIsRemainder(|all|, cfg.c.bs);
    if |all| > 0 {
      FloorIsRemainder(|all| - 1, cfg.c.bs);
    }
  }

  // ---- whole messages ----

  function Encrypted(c: Cipher, mode: Mode, pad: bool, iv: seq<byte>, chunks: seq<seq<byte>>): Option<seq<byte>>
    requires |iv| == c.bs
  {
    var cfg := Config(c, mode, true, pad);
    var r := FeedAll(cfg, Stream(iv, []), chunks);
    var f := FinalEnc(cfg, r.0, c.bs);
    if f.ok then Some(r.1 + f.out) else None
  }

  function Decrypted(c: Cipher, mode: Mode, pad: bool, iv: seq<byte>, chunks: seq<seq<byte>>): Option<seq<byte>>
    requires |iv| == c.bs
  {
    var cfg := Config(c, mode, false, pad);
    var r := FeedAll(cfg, Stream(iv, []), chunks);
    var f := FinalDec(cfg, r.0, c.bs);
    if f.ok then Some(r.1 + f.out) else None
  }

  /** The padding of section 6.3 of RFC 5652. */
  function Rfc5652Padded(msg: seq<byte>, bs: nat): seq<byte>
    requires 0 < bs < 256
  {
    var p := bs - |msg| % bs;
    msg + Repeat(ByteOf(p), p)
  }

  /** A run from a fresh context, as one cut of the whole input. */
  lemma RunIsOneCut(cfg: Config, iv: seq<byte>, chunks: seq<seq<byte>>)
    requires |iv| == cfg.c.bs
    ensures var all := Concat(chunks);
            var k := Ready(cfg, |all|);
            && FeedAll(cfg, Stream(iv, []), chunks)
               == (Stream(LastReg(cfg.c, cfg.mode, cfg.enc, iv, all[..k]), all[k..]),
                   Crypt(cfg.c, cfg.mode, cfg.enc, iv, all[..k]))
  {
    hide Crypt, LastReg, Floor, ByteOf;
    ChunksAreInvisible(cfg, Stream(iv, []), chunks);
    assert [] + Concat(chunks) == Concat(chunks);
  }

  lemma PaddingLength(msg: seq<byte>, bs: nat)
    requires 0 < bs < 256
    ensures var p := bs - (|msg| - Floor(|msg|, bs));
            Rfc5652Padded(msg, bs) == msg + Repeat(ByteOf(p), p)
  {
    FloorIsRemainder(|msg|, bs);
  }

  lemma PaddedMessageIsCut(msg: seq<byte>, bs: nat)
    requires 0 < bs < 256
    ensures var k := Floor(|msg|, bs);
            Rfc5652Padded(msg, bs) == msg[..k] + PadBlock(msg[k..], bs)
  {
    hide Floor, Rfc5652Padded, ByteOf, Repeat;
    var k := Floor(|msg|, bs);
    var padding := Repeat(ByteOf(bs - |msg[k..]|), bs - |msg[k..]|);
    PaddingLength(msg, bs);
    assert msg == msg[..k] + msg[k..];
    Associative(msg[..k], msg[k..], padding);
  }

  lemma PaddedMessageIsWhole(msg: seq<byte>, bs: nat)
    requires 0 < bs < 256
    ensures Whole(|Rfc5652Padded(msg, bs)|, bs)
  {
    hide Floor, Rfc5652Padded, ByteOf, Repeat;
    PaddingLength(msg, bs);
    FloorIsWhole(|msg|, bs);
    OneBlockIsWhole(bs);
    FloorOfSum(Floor(|msg|, bs), bs, bs);
  }

  /** Updates and final together compute the block mode over the padded message, and without
      padding fail exactly on a message that is not whole blocks. */
  lemma EncryptedIsWholeMessage(c: Cipher, mode: Mode, pad: bool, iv: seq<byte>, chunks: seq<seq<byte>>)
    requires |iv| == c.bs
    ensures Encrypted(c, mode, pad, iv, chunks)
         == if pad then Some(Crypt(c, mode, true, iv, Rfc5652Padded(Concat(chunks), c.bs)))
            else if |Concat(chunks)| % c.bs == 0 then Some(Crypt(c, mode, true, iv, Concat(chunks)))
            else None
  {
    hide Crypt, LastReg, Floor, ByteOf;
    var msg := Concat(chunks);
    var k := Floor(|msg|, c.bs);
    var first, reg := Crypt(c, mode, true, iv, msg[..k]), LastReg(c, mode, true, iv, msg[..k]);
    RunIsOneCut(Config(c, mode, true, pad), iv, chunks);
    if pad {
      var last := PadBlock(msg[k..], c.bs);
      assert Encrypted(c, mode, pad, iv, chunks) == Some(first + Crypt(c, mode, true, reg, last));
      assert Rfc5652Padded(msg, c.bs) == msg[..k] + last by { PaddedMessageIsCut(msg, c.bs); }
      assert Whole(k, c.bs) by { FloorIsWhole(|msg|, c.bs); }
      CryptConcat(c, mode, true, iv, msg[..k], last);
    } else {
      FloorIsRemainder(|msg|, c.bs);
      assert first + [] == first;
      assert k == |msg| ==> msg[..k] == msg;
    }
  }

  /** Decryption as one pass: all-or-nothing on the last block's padding. */
  function WholeDecryption(c: Cipher, mode: Mode, pad: bool, iv: seq<byte>, ct: seq<byte>): Option<seq<byte>>
    requires |iv| == c.bs
  {
    if |ct| % c.bs != 0 then None
    else
      FloorIsRemainder(|ct|, c.bs);
      var plain := Crypt(c, mode, false, iv, ct);
      if !pad then Some(plain)
      else if plain == [] then None
      else Unpad(plain, c.bs)
  }

  /** Drop the padding that the last bs bytes end with. */
  function Unpad(plain: seq<byte>, bs: nat): Option<seq<byte>>
    requires bs <= |plain|
  {
    var k := |plain| - bs;
    if Padded(plain[k..]) then Some(plain[..k] + Unpadded(plain[k..])) else None
  }

  lemma HeldBackBlock(n: nat, bs: nat)
    requires n > 0 && bs > 0
    ensures n % bs == 0 <==> n - Floor(n - 1, bs) == bs
  {
    FloorIsRemainder(n - 1, bs);
    RemainderSuccessor(n - 1, bs);
  }

  /** With exactly one block held back, final completes the one-pass decryption. */
  lemma HeldBackFinal(c: Cipher, mode: Mode, iv: seq<byte>, ct: seq<byte>, k: nat)
    requires |iv| == c.bs && |ct| == k + c.bs && |ct| % c.bs == 0 && Whole(k, c.bs)
    ensures var cfg := Config(c, mode, false, true);
            var first := Crypt(c, mode, false, iv, ct[..k]);
            var f := FinalDec(cfg, Stream(LastReg(c, mode, false, iv, ct[..k]), ct[k..]), c.bs);
            WholeDecryption(c, mode, true, iv, ct) == if f.ok then Some(first + f.out) else None
  {
    hide Crypt, LastReg, Floor, ByteOf;
    var first, reg := Crypt(c, mode, false, iv, ct[..k]), LastReg(c, mode, false, iv, ct[..k]);
    var last := Crypt(c, mode, false, reg, ct[k..]);
    assert |first| == k && |last| == c.bs by { OneBlockIsWhole(c.bs); }
    assert Crypt(c, mode, false, iv, ct) == first + last by {
      assert ct == ct[..k] + ct[k..];
      CryptConcat(c, mode, false, iv, ct[..k], ct[k..]);
    }
    assert (first + last)[k..] == last && (first + last)[..k] == first;
  }

  lemma PaddedDecryptionIsWholeMessage(c: Cipher, mode: Mode, iv: seq<byte>, chunks: seq<seq<byte>>)
    requires |iv| == c.bs
    ensures Decrypted(c, mode, true, iv, chunks) == WholeDecryption(c, mode, true, iv, Concat(chunks))
  {
    hide Crypt, LastReg, Floor, ByteOf;
    var cfg, ct := Config(c, mode, false, true), Concat(chunks);
    var k := Ready(cfg, |ct|);
    RunIsOneCut(cfg, iv, chunks);
    if ct != [] {
      HeldBackBlock(|ct|, c.bs);
    }
    if |ct| - k == c.bs {
      HeldBackFinal(c, mode, iv, ct, k);
    } else {
      assert Decrypted(c, mode, true, iv, chunks) == None;
    }
  }

  /** The buffered, held-back decryption of any ciphertext, valid or not, is the one-pass one. */
  lemma DecryptedIsWholeMessage(c: Cipher, mode: Mode, pad: bool, iv: seq<byte>, chunks: seq<seq<byte>>)
    requires |iv| == c.bs
    ensures Decrypted(c, mode, pad, iv, chunks) == WholeDecryption(c, mode, pad, iv, Concat(chunks))
  {
    hide Crypt, LastReg, Floor, ByteOf;
    if pad {
      PaddedDecryptionIsWholeMessage(c, mode, iv, chunks);
    } else {
      var cfg, ct := Config(c, mode, false, false), Concat(chunks);
      var k := Ready(cfg, |ct|);
      RunIsOneCut(cfg, iv, chunks);
      FloorIsRemainder(|ct|, c.bs);
      assert Crypt(c, mode, false, iv, ct[..k]) + [] == Crypt(c, mode, false, iv, ct[..k]);
      assert k == |ct| ==> ct[..k] == ct;
    }
  }

  lemma PadBlockIsPadded(rest: seq<byte>, bs: nat)
    requires |rest| < bs < 256
    ensures Padded(PadBlock(rest, bs)) && Unpadded(PadBlock(rest, bs)) == rest
  {
    assert PadBlock(rest, bs)[bs - 1] == ByteOf(bs - |rest|);
  }

  /** Unpadding undoes padding. */
  lemma UnpadPadded(msg: seq<byte>, bs: nat)
    requires 0 < bs < 256
    ensures bs <= |Rfc5652Padded(msg, bs)| && Unpad(Rfc5652Padded(msg, bs), bs) == Some(msg)
  {
    hide Floor, ByteOf;
    PaddedMessageIsCut(msg, bs);
    var k, data := Floor(|msg|, bs), Rfc5652Padded(msg, bs);
    var last := PadBlock(msg[k..], bs);
    assert data[k..] == last && data[..k] == msg[..k];
    PadBlockIsPadded(msg[k..], bs);
    assert msg[..k] + msg[k..] == msg;
  }

  /** What padding is: the fewest bytes, at least one, that fill the last block, each of them saying
      how many they are. */
  lemma PaddingBytes(msg: seq<byte>, bs: nat)
    requires 0 < bs < 256
    ensures var padded := Rfc5652Padded(msg, bs);
            var n := |padded| - |msg|;
            && 1 <= n <= bs && |padded| % bs == 0 && padded[..|msg|] == msg
            && forall k | |msg| <= k < |padded| :: padded[k] as nat == n
  {
    var q, rest := |msg| / bs, |msg| % bs;
    assert |msg| + (bs - rest) == (q + 1) * bs + 0;
    RemainderUnique(|msg| + (bs - rest), q + 1, 0, bs);
  }

  /** Unpadding accepts nothing but padding. */
  lemma UnpadIsExact(plain: seq<byte>, bs: nat, msg: seq<byte>)
    requires 0 < bs < 256 && bs <= |plain| && |plain| % bs == 0
    ensures Unpad(plain, bs) == Some(msg) <==> plain == Rfc5652Padded(msg, bs)
  {
    if plain == Rfc5652Padded(msg, bs) {
      UnpadPadded(msg, bs);
    }
    if Unpad(plain, bs) == Some(msg) {
      UnpaddedWasPadded(plain, bs, msg);
    }
  }

  lemma UnpaddedWasPadded(plain: seq<byte>, bs: nat, msg: seq<byte>)
    requires 0 < bs < 256 && bs <= |plain| && |plain| % bs == 0 && Unpad(plain, bs) == Some(msg)
    ensures plain == Rfc5652Padded(msg, bs)
  {
    var k := |plain| - bs;
    var last := plain[k..];
    var b := last[bs - 1];
    var p := b as nat;
    assert last[..bs - p] == plain[k..|plain| - p];
    assert msg == plain[..|plain| - p];
    RemainderBelow(|plain|, p, bs);
    ByteOfValue(b);
    PaddedTail(plain, k, p);
    hide ByteOf, Padded, Unpad, Unpadded, Repeat;
    assert bs - |msg| % bs == p;
  }

  lemma PaddedTail(plain: seq<byte>, k: nat, p: nat)
    requires k <= |plain| && Padded(plain[k..]) && p == plain[|plain| - 1] as nat
    ensures p <= |plain| && plain == plain[..|plain| - p] + Repeat(plain[|plain| - 1], p)
  {
    var last, b := plain[k..], plain[|plain| - 1];
    assert last[|last| - 1] == b;
    forall i | |plain| - p <= i < |plain|
      ensures plain[i] == b
    {
      assert last[i - k] == b;
    }
    assert plain[|plain| - p..] == Repeat(b, p);
  }

  /** Padded decryption, in any updates, gives a message exactly when the ciphertext is whole blocks
      that decipher to that message with its padding. */
  lemma DecryptedIsExact(c: Cipher, mode: Mode, iv: seq<byte>, chunks: seq<seq<byte>>, msg: seq<byte>)
    requires |iv| == c.bs
    ensures var ct := Concat(chunks);
            (Decrypted(c, mode, true, iv, chunks) == Some(msg)
             <==> |ct| % c.bs == 0 && Crypt(c, mode, false, iv, ct) == Rfc5652Padded(msg, c.bs))
  {
    hide Crypt, LastReg, Floor, ByteOf, Decrypted, Unpad;
    var ct := Concat(chunks);
    DecryptedIsWholeMessage(c, mode, true, iv, chunks);
    PaddingBytes(msg, c.bs);
    if |ct| % c.bs == 0 {
      FloorIsRemainder(|ct|, c.bs);
      if ct != [] {
        AtLeastOneBlock(|ct|, c.bs);
        UnpadIsExact(Crypt(c, mode, false, iv, ct), c.bs, msg);
      }
    }
  }

  lemma AtLeastOneBlock(n: nat, bs: nat)
    requires bs > 0 && n > 0 && n % bs == 0
    ensures n >= bs
  {
  }

  /** The round trip: whatever the two splittings, decrypting the ciphertext of a message
      under the same key and IV gives the message. */
  lemma RoundTrip(c: Cipher, mode: Mode, pad: bool, iv: seq<byte>,
                  encChunks: seq<seq<byte>>, decChunks: seq<seq<byte>>)
    requires |iv| == c.bs
    requires Encrypted(c, mode, pad, iv, encChunks) == Some(Concat(decChunks))
    ensures Decrypted(c, mode, pad, iv, decChunks) == Some(Concat(encChunks))
  {
    hide Crypt, LastReg, Floor, ByteOf;
    var msg := Concat(encChunks);
    EncryptedIsWholeMessage(c, mode, pad, iv, encChunks);
    DecryptedIsWholeMessage(c, mode, pad, iv, decChunks);
    var data := if pad then Rfc5652Padded(msg, c.bs) else msg;
    FloorIsRemainder(|data|, c.bs);
    if pad {
      PaddedMessageIsWhole(msg, c.bs);
      UnpadPadded(msg, c.bs);
    }
    CryptRoundTrip(c, mode, iv, data);
  }
}
