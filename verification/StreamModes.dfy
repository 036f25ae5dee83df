/** Counter and cipher feedback mode, which give out one byte for every byte they take. */
module StreamModes {
  import opened Bytes
  import opened BlockCipher
  import opened BlockStream
  import opened Gcm

  datatype StreamMode = CTR | CFB

  /** What the library keeps between calls: the register, and the keystream not used up yet. */
  datatype Keystream = Keystream(reg: seq<byte>, left: seq<byte>)

  predicate Fits(c: Cipher, s: Keystream) {
    c.bs == BLOCK == |s.reg| && |s.left| <= BLOCK
  }

  /** Encipher the register when the keystream has run out. */
  function Filled(c: Cipher, mode: StreamMode, s: Keystream): (r: Keystream)
    requires Fits(c, s)
    ensures Fits(c, r) && r.left != []
  {
    if s.left != [] then s
    else Keystream(if mode.CTR? then Increment(s.reg) else s.reg, c.E(s.reg))
  }

  /** One byte. Feedback mode puts the ciphertext byte in the register. */
  function Take(c: Cipher, mode: StreamMode, enc: bool, s: Keystream, b: byte): (r: (Keystream, byte))
    requires Fits(c, s)
    ensures Fits(c, r.0)
  {
    var f := Filled(c, mode, s);
    var o := b ^ f.left[0];
    var at := BLOCK - |f.left|;
    (Keystream(if mode.CTR? then f.reg else f.reg[at := if enc then o else b], f.left[1..]), o)
  }

  function Through(c: Cipher, mode: StreamMode, enc: bool, s: Keystream, data: seq<byte>): (r: (Keystream, seq<byte>))
    requires Fits(c, s)
    ensures Fits(c, r.0) && |r.1| == |data|
    decreases |data|
  {
    if data == [] then (s, [])
    else
      var first := Take(c, mode, enc, s, data[0]);
      var rest := Through(c, mode, enc, first.0, data[1..]);
      (rest.0, [first.1] + rest.1)
  }

  lemma {:induction false} ThroughConcat(c: Cipher, mode: StreamMode, enc: bool, s: Keystream,
                                         a: seq<byte>, b: seq<byte>)
    requires Fits(c, s)
    ensures var r := Through(c, mode, enc, s, a);
            var r' := Through(c, mode, enc, r.0, b);
            Through(c, mode, enc, s, a + b) == (r'.0, r.1 + r'.1)
    decreases |a|
  {
    hide Take;
    if a == [] {
      assert a + b == b;
      assert [] + Through(c, mode, enc, s, b).1 == Through(c, mode, enc, s, b).1;
    } else {
      assert (a + b)[0] == a[0] && (a + b)[1..] == a[1..] + b;
      var first := Take(c, mode, enc, s, a[0]);
      ThroughConcat(c, mode, enc, first.0, a[1..], b);
      var rest := Through(c, mode, enc, first.0, a[1..]);
      Associative([first.1], rest.1, Through(c, mode, enc, rest.0, b).1);
    }
  }

  /** Decrypting undoes encrypting and leaves the same state, wherever in a block it starts. */
  lemma {:induction false} ThroughAndBack(c: Cipher, mode: StreamMode, s: Keystream, data: seq<byte>)
    requires Fits(c, s)
    ensures var r := Through(c, mode, true, s, data);
            Through(c, mode, false, s, r.1) == (r.0, data)
    decreases |data|
  {
    if data != [] {
      var r := Through(c, mode, true, s, data);
      TakeBack(c, mode, s, data[0]);
      hide Take;
      var first := Take(c, mode, true, s, data[0]);
      ThroughAndBack(c, mode, first.0, data[1..]);
      assert r.1[0] == first.1 && r.1[1..] == Through(c, mode, true, first.0, data[1..]).1;
      assert data == [data[0]] + data[1..];
    }
  }

  lemma TakeBack(c: Cipher, mode: StreamMode, s: Keystream, b: byte)
    requires Fits(c, s)
    ensures var r := Take(c, mode, true, s, b);
            Take(c, mode, false, s, r.1) == (r.0, b)
  {
  }

  // ---- sections 6.3 and 6.5 of NIST SP 800-38A ----

  /** The modes block by block, the last of which may be partial. */
  function OneShot(c: Cipher, mode: StreamMode, enc: bool, reg: seq<byte>, data: seq<byte>): (r: seq<byte>)
    requires c.bs == BLOCK == |reg|
    ensures |r| == |data|
    decreases |data|
  {
    if |data| <= BLOCK then Xor(data, c.E(reg)[..|data|])
    else
      var o := Xor(data[..BLOCK], c.E(reg));
      var next := if mode.CTR? then Increment(reg) else if enc then o else data[..BLOCK];
      o + OneShot(c, mode, enc, next, data[BLOCK..])
  }

  lemma OneShotFirst(c: Cipher, mode: StreamMode, enc: bool, reg: seq<byte>, data: seq<byte>, p: nat)
    requires c.bs == BLOCK == |reg| && p < |data| && p < BLOCK
    ensures OneShot(c, mode, enc, reg, data)[p] == data[p] ^ c.E(reg)[p]
  {
    hide Increment;
    if |data| <= BLOCK {
      XorAt(data, c.E(reg)[..|data|], p);
    } else {
      XorAt(data[..BLOCK], c.E(reg), p);
    }
  }

  lemma OneShotLater(c: Cipher, mode: StreamMode, enc: bool, reg: seq<byte>, data: seq<byte>)
    requires c.bs == BLOCK == |reg| && BLOCK < |data|
    ensures var out := OneShot(c, mode, enc, reg, data);
            var next := if mode.CTR? then Increment(reg) else if enc then out[..BLOCK] else data[..BLOCK];
            out[BLOCK..] == OneShot(c, mode, enc, next, data[BLOCK..])
  {
    hide Increment, Xor;
  }

  /** Counter mode adds to block k the encipherment of the IV counted up k times. */
  lemma {:induction false} CtrIsCounted(c: Cipher, enc: bool, iv: seq<byte>, data: seq<byte>, k: nat, r: nat)
    requires c.bs == BLOCK == |iv| && r < BLOCK && BLOCK * k + r < |data|
    ensures OneShot(c, CTR, enc, iv, data)[BLOCK * k + r] == data[BLOCK * k + r] ^ c.E(Advanced(iv, k))[r]
    decreases k
  {
    hide OneShot, Increment, IsPermutation;
    if k == 0 {
      OneShotFirst(c, CTR, enc, iv, data, r);
    } else {
      OneShotLater(c, CTR, enc, iv, data);
      CtrIsCounted(c, enc, Increment(iv), data[BLOCK..], k - 1, r);
      AdvancedFromNext(iv, k - 1);
      var out := OneShot(c, CTR, enc, iv, data);
      assert out[BLOCK..][BLOCK * (k - 1) + r] == out[BLOCK * k + r];
    }
  }

  /** Feedback mode adds to each block the encipherment of the ciphertext block before it, to the
      first that of the IV. */
  lemma {:induction false} CfbIsChained(c: Cipher, enc: bool, iv: seq<byte>, data: seq<byte>, k: nat, r: nat)
    requires c.bs == BLOCK == |iv| && r < BLOCK && BLOCK * k + r < |data|
    ensures var out := OneShot(c, CFB, enc, iv, data);
            var ct := if enc then out else data;
            out[BLOCK * k + r]
            == data[BLOCK * k + r] ^ c.E(if k == 0 then iv else ct[BLOCK * (k - 1)..BLOCK * k])[r]
    decreases k
  {
    hide OneShot, IsPermutation;
    if k == 0 {
      OneShotFirst(c, CFB, enc, iv, data, r);
    } else {
      var out := OneShot(c, CFB, enc, iv, data);
      var ct := if enc then out else data;
      OneShotLater(c, CFB, enc, iv, data);
      CfbIsChained(c, enc, ct[..BLOCK], data[BLOCK..], k - 1, r);
      BlockBehind(ct, k);
      assert out[BLOCK..][BLOCK * (k - 1) + r] == out[BLOCK * k + r];
    }
  }

  lemma BlockBehind(s: seq<byte>, k: nat)
    requires k > 0 && BLOCK * k <= |s|
    ensures k > 1 ==> s[BLOCK..][BLOCK * (k - 2)..BLOCK * (k - 1)] == s[BLOCK * (k - 1)..BLOCK * k]
  {
  }

  /** Within what is left of a block, the keystream is simply added. */
  ghost predicate Added(mode: StreamMode, enc: bool, s: Keystream, data: seq<byte>, r: (Keystream, seq<byte>)) {
    && |s.reg| == BLOCK && |data| <= |s.left| <= BLOCK && |r.1| == |data|
    && r.1 == Xor(data, s.left[..|data|]) && r.0.left == s.left[|data|..]
    && r.0.reg == if mode.CTR? then s.reg else Overwrite(s.reg, BLOCK - |s.left|, if enc then r.1 else data)
  }

  lemma {:induction false} WithinBlock(c: Cipher, mode: StreamMode, enc: bool, s: Keystream, data: seq<byte>)
    requires Fits(c, s) && |data| <= |s.left|
    ensures Added(mode, enc, s, data, Through(c, mode, enc, s, data))
    decreases |data|
  {
    if data == [] {
      OverwriteNothing(s.reg, BLOCK - |s.left|);
    } else {
      var first := Take(c, mode, enc, s, data[0]);
      TakeWithin(c, mode, enc, s, data[0]);
      WithinBlock(c, mode, enc, first.0, data[1..]);
      AddedJoins(mode, enc, s, data, first, Through(c, mode, enc, first.0, data[1..]));
    }
  }

  lemma AddedJoins(mode: StreamMode, enc: bool, s: Keystream, data: seq<byte>, first: (Keystream, byte),
                   rest: (Keystream, seq<byte>))
    requires |s.reg| == BLOCK && 0 < |data| <= |s.left| <= BLOCK
    requires first.1 == data[0] ^ s.left[0] && first.0.left == s.left[1..]
    requires first.0.reg == if mode.CTR? then s.reg
                            else Overwrite(s.reg, BLOCK - |s.left|, [if enc then first.1 else data[0]])
    requires Added(mode, enc, first.0, data[1..], rest)
    ensures Added(mode, enc, s, data, (rest.0, [first.1] + rest.1))
  {
    hide Xor, Overwrite;
    XorFirst(data, s.left[..|data|]);
    assert s.left[..|data|][1..] == first.0.left[..|data| - 1];
    assert data == [data[0]] + data[1..];
    if mode.CFB? {
      OverwriteTwice(s.reg, BLOCK - |s.left|, [if enc then first.1 else data[0]], if enc then rest.1 else data[1..]);
    }
  }

  lemma TakeWithin(c: Cipher, mode: StreamMode, enc: bool, s: Keystream, b: byte)
    requires Fits(c, s) && s.left != []
    ensures var r := Take(c, mode, enc, s, b);
            && r.1 == b ^ s.left[0] && r.0.left == s.left[1..]
            && r.0.reg == if mode.CTR? then s.reg
                          else Overwrite(s.reg, BLOCK - |s.left|, [if enc then r.1 else b])
  {
  }

  lemma XorFirst(a: seq<byte>, b: seq<byte>)
    requires |a| == |b| > 0
    ensures Xor(a, b) == [a[0] ^ b[0]] + Xor(a[1..], b[1..])
  {
  }

  lemma FromFilled(c: Cipher, mode: StreamMode, enc: bool, s: Keystream, data: seq<byte>)
    requires Fits(c, s) && data != []
    ensures Through(c, mode, enc, s, data) == Through(c, mode, enc, Filled(c, mode, s), data)
  {
  }

  /** From a fresh register, up to one block is added to its encipherment. */
  lemma FirstBlock(c: Cipher, mode: StreamMode, enc: bool, reg: seq<byte>, data: seq<byte>)
    requires c.bs == BLOCK == |reg| && |data| <= BLOCK
    ensures var r := Through(c, mode, enc, Keystream(reg, []), data);
            && r.1 == Xor(data, c.E(reg)[..|data|])
            && (|data| == BLOCK ==>
                  r.0 == Keystream(if mode.CTR? then Increment(reg) else if enc then r.1 else data, []))
  {
    var s := Keystream(reg, []);
    var f := Filled(c, mode, s);
    if data == [] {
      assert Through(c, mode, enc, s, data) == (s, []);
    } else {
      FromFilled(c, mode, enc, s, data);
      WithinBlock(c, mode, enc, f, data);
      hide Through, Take, Increment, Xor;
      if |data| == BLOCK && mode.CFB? {
        var r := Through(c, mode, enc, s, data);
        WholeOverwrite(f.reg, if enc then r.1 else data);
      }
    }
  }

  /** Byte by byte, with whatever keystream is kept, is block by block. */
  lemma {:induction false} ThroughIsOneShot(c: Cipher, mode: StreamMode, enc: bool, reg: seq<byte>, data: seq<byte>)
    requires c.bs == BLOCK == |reg|
    ensures Through(c, mode, enc, Keystream(reg, []), data).1 == OneShot(c, mode, enc, reg, data)
    decreases |data|
  {
    hide Through, Take, Increment, Xor, Filled;
    if |data| <= BLOCK {
      FirstBlock(c, mode, enc, reg, data);
    } else {
      var block, rest := data[..BLOCK], data[BLOCK..];
      FirstBlock(c, mode, enc, reg, block);
      var r := Through(c, mode, enc, Keystream(reg, []), block);
      var all := c.E(reg);
      assert all[..BLOCK] == all && data == block + rest;
      ThroughConcat(c, mode, enc, Keystream(reg, []), block, rest);
      ThroughIsOneShot(c, mode, enc, r.0.reg, rest);
    }
  }

  // ---- any number of updates ----

  function ThroughAll(c: Cipher, mode: StreamMode, enc: bool, s: Keystream, chunks: seq<seq<byte>>)
      : (r: (Keystream, seq<byte>))
    requires Fits(c, s)
    ensures Fits(c, r.0)
    decreases |chunks|
  {
    if chunks == [] then (s, [])
    else
      var first := Through(c, mode, enc, s, chunks[0]);
      var rest := ThroughAll(c, mode, enc, first.0, chunks[1..]);
      (rest.0, first.1 + rest.1)
  }

  lemma {:induction false} UpdatesAreInvisible(c: Cipher, mode: StreamMode, enc: bool, s: Keystream,
                                               chunks: seq<seq<byte>>)
    requires Fits(c, s)
    ensures ThroughAll(c, mode, enc, s, chunks) == Through(c, mode, enc, s, Concat(chunks))
    decreases |chunks|
  {
    if chunks != [] {
      UpdatesAreInvisible(c, mode, enc, Through(c, mode, enc, s, chunks[0]).0, chunks[1..]);
      ThroughConcat(c, mode, enc, s, chunks[0], Concat(chunks[1..]));
    }
  }

  /** A message in any updates, none of them whole blocks, is the mode applied once; its
      ciphertext in any other updates gives the message back. */
  lemma StreamRoundTrip(c: Cipher, mode: StreamMode, iv: seq<byte>, chunks: seq<seq<byte>>, back: seq<seq<byte>>)
    requires c.bs == BLOCK == |iv|
    requires Concat(back) == ThroughAll(c, mode, true, Keystream(iv, []), chunks).1
    ensures Concat(back) == OneShot(c, mode, true, iv, Concat(chunks))
    ensures ThroughAll(c, mode, false, Keystream(iv, []), back)
         == (ThroughAll(c, mode, true, Keystream(iv, []), chunks).0, Concat(chunks))
  {
    var s := Keystream(iv, []);
    UpdatesAreInvisible(c, mode, true, s, chunks);
    UpdatesAreInvisible(c, mode, false, s, back);
    ThroughIsOneShot(c, mode, true, iv, Concat(chunks));
    ThroughAndBack(c, mode, s, Concat(chunks));
  }
}
