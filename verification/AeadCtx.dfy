/** The AES-GCM context of a build without streaming GCM in the library: every update spools its
    input and works on the whole message again. */
module AeadContext {
  import opened Bytes
  import opened Gcm
  import opened GcmTls
  import opened GcmMessages
  import RecordRuns

  const EXTRA: nat := 128

  datatype IvState = Uninitialised | Buffered | Copied | Finished

  // ---- how the spool grows ----

  datatype Capacity = Capacity(used: nat, size: nat, reallocs: nat)

  /** What fits in place: nothing, or strictly less than the free space. */
  predicate Fits(c: Capacity, n: nat) {
    n == 0 || n < c.size - c.used
  }

  /** What does not fit makes the buffer be reallocated with spare room. */
  function Grown(c: Capacity, n: nat): Capacity
    requires c.used <= c.size
  {
    if Fits(c, n) then c.(used := c.used + n)
    else Capacity(c.used + n, c.used + n + EXTRA, c.reallocs + 1)
  }

  predicate Bounded(c: Capacity) {
    && (c.used == c.size == 0 || c.used < c.size)
    && EXTRA * c.reallocs <= c.size <= c.used + EXTRA
    && (c.reallocs == 0 ==> c.size == 0)
  }

  function Total(inputs: seq<nat>): nat {
    if inputs == [] then 0 else Total(inputs[..|inputs| - 1]) + inputs[|inputs| - 1]
  }

  function GrownBy(inputs: seq<nat>): (c: Capacity)
    ensures c.used <= c.size
  {
    if inputs == [] then Capacity(0, 0, 0)
    else Grown(GrownBy(inputs[..|inputs| - 1]), inputs[|inputs| - 1])
  }

  /** After any sequence of inputs the spool is empty or has room to spare, holds all that came,
      and was reallocated at most once for every 128 bytes and once more. */
  lemma {:induction false} SpoolIsBounded(inputs: seq<nat>)
    ensures var c := GrownBy(inputs);
            && Bounded(c) && (c.used == c.size == 0 || c.used < c.size) && c.used == Total(inputs)
            && c.reallocs <= 1 + Total(inputs) / 128
  {
    if inputs != [] {
      SpoolIsBounded(inputs[..|inputs| - 1]);
    }
  }

  /** Add one, from the last byte up, to the width bytes at off; stop at the first that does not wrap. */
  method IncrementAt(a: array<byte>, off: nat, width: nat)
    requires off + width <= a.Length
    modifies a
    ensures a[off..off + width] == Increment(old(a[off..off + width]))
    ensures a[..off] == old(a[..off]) && a[off + width..] == old(a[off + width..])
  {
    hide Increment;
    ghost var p := a[off..off + width];
    var i := width - 1;
    while i >= 0
      invariant -1 <= i < width
      invariant a[..off] == old(a[..off]) && a[off + width..] == old(a[off + width..])
      invariant forall k | off <= k <= off + i :: a[k] == old(a[k])
      invariant forall k | off + i < k < off + width :: old(a[k]) == ONES && a[k] == 0
    {
      a[off + i] := a[off + i] + 1;
      if a[off + i] != 0 {
        CarryStops(p, a[off..off + width], i);
        return;
      }
      i := i - 1;
    }
    CarryWraps(p, a[off..off + width]);
  }

  /** Counting up past trailing 0xff bytes clears them and adds one to the byte before. */
  lemma {:induction false} CarryStops(p: seq<byte>, q: seq<byte>, i: nat)
    requires i < |p| == |q| && p[i] != ONES && q[i] == p[i] + 1
    requires forall k | 0 <= k < i :: q[k] == p[k]
    requires forall k | i < k < |p| :: p[k] == ONES && q[k] == 0
    ensures Increment(p) == q
  {
    var last := |p| - 1;
    if i < last {
      CarryStops(p[..last], q[..last], i);
    }
    assert q == q[..last] + [q[last]];
    assert i == last ==> q[..last] == p[..last];
  }

  lemma {:induction false} CarryWraps(p: seq<byte>, q: seq<byte>)
    requires |p| == |q| && forall k | 0 <= k < |p| :: p[k] == ONES && q[k] == 0
    ensures Increment(p) == q
  {
    if p != [] {
      var last := |p| - 1;
      CarryWraps(p[..last], q[..last]);
      assert q == q[..last] + [q[last]];
    }
  }

  class AeadCtx {
    const buf: array<byte>
    const iv: array<byte>
    var key: Key
    var keySet: bool
    var reg: seq<byte>
    var ivLen: nat
    var tagLen: Option<nat>
    var tlsAadLen: Option<nat>
    var tlsEncRecords: nat
    var ivState: IvState
    var enc: bool
    var ivGen: bool
    var ivSet: bool
    var authErr: bool
    var aadSet: bool
    var tagAvail: bool
    var origIv: seq<byte>
    var aad: seq<byte>
    var spool: array<byte>
    var inLen: nat
    ghost var reallocs: nat

    ghost predicate Valid()
      reads this
    {
      && buf.Length == TAG_LEN && iv.Length == BLOCK && buf != iv && spool != buf && spool != iv
      && 0 < ivLen <= BLOCK
      && (tagLen.Some? ==> 0 < tagLen.value <= TAG_LEN)
      && |origIv| == BLOCK
      && Bounded(Spool())
    }

    ghost function Spool(): Capacity
      reads this
    {
      Capacity(inLen, spool.Length, reallocs)
    }

    /** The IV of the message in progress: the original one, once an operation has loaded it. */
    function EffectiveIv(): seq<byte>
      requires Valid()
      reads this, iv
    {
      if ivState == Copied then origIv[..ivLen] else iv[..ivLen]
    }

    ghost function Current(): (s: Session)
      requires Valid()
      reads this, iv, buf, spool
      ensures ValidSession(s) && |s.iv| == ivLen
      ensures s.enc == enc && s.tagAvail == tagAvail && s.authErr == authErr && |s.data| == inLen
    {
      Session(enc, EffectiveIv(), if tagLen.Some? then tagLen.value else TAG_LEN, aad, spool[..inLen], buf[..],
                      tagAvail, authErr)
    }

    /** What the record calls depend on. */
    ghost function Line(): (l: RecordRuns.Line)
      requires Valid()
      reads this, iv
      ensures RecordRuns.ValidLine(l) && |l.iv| == ivLen && l.iv == iv[..ivLen]
      ensures l.key == key && l.ivGen == ivGen && l.keySet == keySet && l.enc == enc
      ensures l.header == tlsAadLen.Some? && l.records == tlsEncRecords
    {
      RecordRuns.Line(key, iv[..ivLen], iv[ivLen..], enc, ivGen, keySet, tlsAadLen.Some?, tlsEncRecords)
    }

    constructor (key: Key)
      ensures Valid() && RecordRuns.Counted(Line()) && this.key == key
      ensures inLen == 0 && aad == [] && !tagAvail && !authErr && tlsAadLen == None && tagLen == None && ivLen == 12
    {
      buf := new byte[TAG_LEN](_ => 0);
      iv := new byte[BLOCK](_ => 0);
      spool := new byte[0];
      this.key, keySet, reg := key, false, Repeat(0, BLOCK);
      ivLen, tagLen, tlsAadLen, tlsEncRecords := 12, None, None, 0;
      ivState, enc, ivGen, ivSet, authErr, aadSet, tagAvail := Uninitialised, false, false, false, false, false, false;
      origIv, aad, inLen, reallocs := Repeat(0, BLOCK), [], 0, 0;
    }

    /** Initialise for a direction, with a key, an IV, or both. */
    method Init(newKey: Option<Key>, newIv: Option<seq<byte>>, enc: bool, running: bool, keyOk: bool, paramsOk: bool)
        returns (ok: bool)
      requires Valid()
      modifies this`key, this`keySet, this`enc, this`ivState, this`ivSet, this`tlsAadLen, iv
      ensures Valid() && (old(RecordRuns.Counted(Line())) ==> RecordRuns.Counted(Line()))
      ensures var started := running && (newKey.Some? ==> keyOk);
              && ok == (started && (newIv.Some? ==> |newIv.value| == ivLen) && paramsOk)
              && key == (if started && newKey.Some? then newKey.value else old(key))
              && Current() == (if started then Started(old(Current()), newIv, enc) else old(Current()))
              && Line() == (if started then RecordRuns.Restarted(old(Line()), newKey, newIv, enc)
                            else old(Line()))
      ensures ok && newIv.Some? ==> ivState == Buffered && !ivSet
      ensures ok && newIv.None? ==> ivState == old(ivState) && EffectiveIv() == old(EffectiveIv())
      ensures ok && newIv.Some? ==> CurrentIv() == EffectiveIv() == newIv.value
      ensures ok ==> this.enc == enc && keySet == (old(keySet) || newKey.Some?) && tlsAadLen.None?
    {
      hide Bounded, Started;
      ok := running && (newKey.Some? ==> keyOk);
      if ok {
        if newKey.Some? {
          key := newKey.value;
        }
        ok := Start(newKey, newIv, enc);
        ok := ok && paramsOk;
      }
    }

    method Start(newKey: Option<Key>, newIv: Option<seq<byte>>, enc: bool) returns (ok: bool)
      requires Valid() && (newKey.Some? ==> key == newKey.value)
      modifies this`keySet, this`enc, this`ivState, this`ivSet, this`tlsAadLen, iv
      ensures Valid() && ok == (newIv.Some? ==> |newIv.value| == ivLen)
      ensures Current() == Started(old(Current()), newIv, enc)
      ensures Line() == RecordRuns.Restarted(old(Line()), newKey, newIv, enc)
      ensures ivState == if ok && newIv.Some? then Buffered else old(ivState)
      ensures ivSet == (old(ivSet) && !(ok && newIv.Some?))
    {
      hide Bounded, Current, Line, EffectiveIv;
      ok := TakeIv(newIv);
      if ok {
        Direct(newKey.Some?, enc);
      }
    }

    method Direct(newKey: bool, enc: bool)
      requires Valid()
      modifies this`keySet, this`enc, this`tlsAadLen
      ensures Valid() && Current() == old(Current()).(enc := enc)
      ensures Line() == old(Line()).(enc := enc, keySet := old(Line()).keySet || newKey, header := false)
    {
      hide Bounded;
      this.enc := enc;
      keySet := keySet || newKey;
      tlsAadLen := None;
    }

    /** A new IV, if there is one, is of the right length and not loaded by any operation yet. */
    method TakeIv(newIv: Option<seq<byte>>) returns (ok: bool)
      requires Valid()
      modifies this`ivState, this`ivSet, iv
      ensures Valid() && ok == (newIv.Some? ==> |newIv.value| == ivLen)
      ensures Current() == if ok && newIv.Some? then old(Current()).(iv := newIv.value) else old(Current())
      ensures Line() == if ok && newIv.Some? then old(Line()).(iv := newIv.value) else old(Line())
      ensures ivState == if ok && newIv.Some? then Buffered else old(ivState)
      ensures ivSet == (old(ivSet) && !(ok && newIv.Some?))
    {
      hide Bounded, Overwrite;
      ok := true;
      if newIv.Some? {
        ok := |newIv.value| == ivLen;
        if ok {
          OverwriteParts(iv[..], 0, newIv.value);
          OverwriteKeepsTail(iv[..], newIv.value);
          Copy(iv, 0, newIv.value);
          ivState, ivSet := Buffered, false;
        }
      }
    }

    /** Set the length of IVs: the bytes of the buffer stay. */
    method SetIvLen(n: nat) returns (ok: bool)
      requires Valid()
      modifies this`ivLen
      ensures Valid() && ok == (0 < n <= BLOCK) && ivLen == if ok then n else old(ivLen)
      ensures Line() == RecordRuns.Next(old(Line()), RecordRuns.SetLength(n)).0
      ensures Current() == old(Current()).(iv := EffectiveIv())
    {
      hide Bounded;
      ok := 0 < n <= BLOCK;
      assert iv[..ivLen] + iv[ivLen..] == iv[..];
      if ok {
        ivLen := n;
        assert iv[..n] == iv[..][..n] && iv[n..] == iv[..][n..];
      }
    }

    // ---- the tag slot ----

    /** Take the tag of a message to decrypt, or only the length of tags. A tag given to an
        encrypting context is refused, but not before it is in the slot. */
    method SetTag(tag: Option<seq<byte>>, size: nat) returns (ok: bool)
      requires Valid() && (if tag.Some? then size == |tag.value| else size <= TAG_LEN)
      modifies this`tagLen, buf
      ensures Valid() && ok == (0 < size <= TAG_LEN && (tag.Some? ==> !enc))
      ensures Current() == if tag.Some? then WithTag(old(Current()), tag.value)
                           else if ok then old(Current()).(tagLen := size)
                           else old(Current())
      ensures tagLen == if ok then Some(size) else old(tagLen)
      ensures buf[..] == if tag.Some? && size <= 16 then tag.value + old(buf[..])[size..] else old(buf[..])
    {
      hide Bounded;
      ok := true;
      if tag.Some? {
        ok := size <= TAG_LEN;
        if ok {
          Copy(buf, 0, tag.value);
          assert buf[..] == tag.value + old(buf[..])[size..];
        }
      }
      if ok && (size == 0 || (tag.Some? && enc)) {
        ok := false;
      }
      if ok {
        tagLen := Some(size);
      }
    }

    /** Fetch the tag of an encrypted message. After that the slot holds nothing to be fetched,
        even when the fetching failed. */
    method FetchTag(size: nat) returns (ok: bool, tag: seq<byte>)
      requires Valid()
      modifies this`tagAvail
      ensures Valid() && Current() == old(Current()).(tagAvail := false)
      ensures ok == (enc && tagLen.Some? && 0 < size <= tagLen.value)
      ensures tag == if ok then Current().buf[..size] else []
    {
      ok := enc && tagLen.Some? && 0 < size <= tagLen.value;
      tag := if ok then buf[..size] else [];
      tagAvail := false;
    }

    // ---- taking input in ----

    method CacheAad(input: seq<byte>, allocOk: bool) returns (ok: bool)
      requires Valid()
      modifies this`aad, this`aadSet
      ensures Valid() && ok == (input == [] || allocOk)
      ensures Current() == if ok then AddAad(old(Current()), input) else old(Current())
      ensures ok ==> aadSet
    {
      ok := true;
      if |input| > 0 {
        if allocOk {
          aad := aad + input;
        } else {
          ok := false;
        }
      }
      if ok {
        aadSet := true;
      }
    }

    /** Replace the spool by a larger one with the same contents. */
    method Reallocate(size: nat)
      requires Valid() && inLen <= size
      modifies this`spool, this`reallocs
      ensures fresh(spool) && spool.Length == size && spool[..inLen] == old(spool[..inLen])
      ensures reallocs == old(reallocs) + 1
    {
      var p := new byte[size](_ => 0);
      OverwriteParts(p[..], 0, spool[..inLen]);
      Copy(p, 0, spool[..inLen]);
      spool := p;
      reallocs := reallocs + 1;
    }

    /** Append to the spool, reallocating only when the new data does not fit with room to spare. */
    method CacheIn(input: seq<byte>, allocOk: bool) returns (ok: bool)
      requires Valid()
      modifies this`spool, this`inLen, this`reallocs, spool
      ensures Valid() && (spool == old(spool) || fresh(spool))
      ensures ok == (Fits(old(Spool()), |input|) || allocOk)
      ensures !ok ==> unchanged(this) && unchanged(spool)
      ensures ok ==> Spool() == Grown(old(Spool()), |input|)
      ensures ok ==> Current() == old(Current()).(data := old(Current()).data + input)
    {
      hide Overwrite;
      ok := true;
      ghost var before := spool[..inLen];
      if |input| > 0 {
        if |input| >= spool.Length - inLen {
          if !allocOk {
            return false;
          }
          Reallocate(inLen + |input| + EXTRA);
        }
        Append(input);
      }
      assert spool[..inLen] == before + input;
    }

    method Append(input: seq<byte>)
      requires inLen + |input| <= spool.Length
      modifies this`inLen, spool
      ensures inLen == old(inLen) + |input| && spool[..inLen] == old(spool[..inLen]) + input
    {
      Copy(spool, inLen, input);
      inLen := inLen + |input|;
    }

    // ---- working on the spool ----

    /** Load the IV into the cipher; a buffered IV becomes the original one of the message. */
    method LoadIv()
      requires Valid()
      modifies this`reg, this`ivState, this`origIv
      ensures Valid() && Current() == old(Current()) && EffectiveIv() == old(EffectiveIv()) == reg
      ensures ivState == if old(ivState) == Buffered then Copied else old(ivState)
    {
      reg := EffectiveIv();
      if ivState == Buffered {
        ivState := Copied;
        origIv := iv[..ivLen] + origIv[ivLen..];
      }
    }

    /** The library's encryption under the loaded IV, which it writes back unchanged. */
    method LibEncrypt(data: seq<byte>) returns (tmp: seq<byte>, tag: seq<byte>)
      requires Valid()
      modifies this`reg
      ensures Valid() && Current() == old(Current())
      ensures tmp == Cipher(key, old(reg), data) && tag == FullTag(key, old(reg), aad, tmp)
    {
      tmp := Cipher(key, reg, data);
      tag := FullTag(key, reg, aad, tmp);
      reg := Increment(reg);
    }

    /** The library's decryption: no plaintext when the tag is wrong. */
    method LibDecrypt(data: seq<byte>, aad: seq<byte>, nonce: seq<byte>, tag: seq<byte>)
        returns (authentic: bool, plain: seq<byte>)
      requires |tag| <= TAG_LEN
      ensures authentic <==> tag == FullTag(key, nonce, aad, data)[..|tag|]
      ensures plain == if authentic then Cipher(key, nonce, data) else Repeat(0, |data|)
    {
      authentic := tag == FullTag(key, nonce, aad, data)[..|tag|];
      plain := if authentic then Cipher(key, nonce, data) else Repeat(0, |data|);
    }

    /** Encrypt the whole message so far, keep its tag, and emit what lies beyond offset. Decrypting
        updates do the same without keeping the tag. */
    method EncDecMore(out: array<byte>, outOff: nat, offset: nat, allocOk: bool) returns (ok: bool, outLen: nat)
      requires Valid() && offset < inLen && outOff + (inLen - offset) <= out.Length
      requires out != buf && out != iv && out != spool
      modifies this`tagLen, this`reg, this`ivState, this`origIv, this`ivSet, this`tagAvail, buf, out
      ensures Valid() && ok == allocOk
      ensures tagLen == if old(tagLen).None? then Some(16) else old(tagLen)
      ensures var s := old(Current());
              if ok then
                && Current() == (if enc then Tagged(key, s) else s)
                && outLen == inLen - offset
                && Emitted(out[..], old(out[..]), outOff, Cipher(key, s.iv, s.data)[offset..])
              else Current() == s && out[..] == old(out[..])
    {
      hide Cipher, Tagged, Emitted;
      ok, outLen := allocOk, 0;
      if tagLen.None? {
        tagLen := Some(TAG_LEN);
      }
      if ok {
        var tmp := EncryptSpool();
        assert out[..] == old(out[..]);
        CopyEmits(out, outOff, tmp[offset..]);
        outLen := inLen - offset;
      }
    }

    method EncryptSpool() returns (tmp: seq<byte>)
      requires Valid() && tagLen.Some?
      modifies this`reg, this`ivState, this`origIv, this`ivSet, this`tagAvail, buf
      ensures Valid() && Current() == (if enc then Tagged(key, old(Current())) else old(Current()))
      ensures tmp == Cipher(key, old(Current()).iv, old(Current()).data)
    {
      hide Cipher, Tagged;
      LoadIv();
      var tag: seq<byte>;
      tmp, tag := LibEncrypt(spool[..inLen]);
      if enc {
        ivSet := true;
        StoreTag(tag);
      }
    }

    method StoreTag(tag: seq<byte>)
      requires Valid() && tagLen.Some? && |tag| == TAG_LEN
      requires tag == FullTag(key, EffectiveIv(), aad, Ciphertext(key, Current()))
      modifies this`tagAvail, buf
      ensures Valid() && tagAvail && Current() == Tagged(key, old(Current()))
    {
      hide Cipher;
      Copy(buf, 0, tag[..tagLen.value]);
      tagAvail := true;
      assert buf[..] == tag[..tagLen.value] + old(buf[..])[tagLen.value..];
    }

    /** The final operation: make the missing tag or check the given one, then drop the message. */
    method EncDecDone(allocOk: bool) returns (ok: bool)
      requires Valid() && !authErr
      modifies this`tagLen, this`reg, this`ivState, this`origIv, this`ivSet, this`tagAvail, this`authErr,
               this`aad, this`aadSet, this`spool, this`inLen, this`reallocs, buf
      ensures Valid() && fresh(spool) && Line() == old(Line())
      ensures tagLen == if old(tagLen).None? then Some(16) else old(tagLen)
      ensures if old(inLen) > 0 && !old(tagAvail) && !allocOk then
                !ok && Current() == old(Current()).(aad := [], data := [])
              else (ok, Current()) == Finish(key, old(Current()))
    {
      hide Cipher, Tagged, Current, EffectiveIv, Checked;
      ok := Conclude(allocOk);
      DropMessage();
    }

    method ForgetIv()
      requires Valid()
      modifies this`ivSet
      ensures Valid() && !ivSet && Current() == old(Current()) && Line() == old(Line())
    {
      hide Bounded;
      ivSet := false;
    }

    /** Make the tag or compare the given one, if there is memory for what was spooled. */
    method Conclude(allocOk: bool) returns (ok: bool)
      requires Valid() && !authErr
      modifies this`tagLen, this`reg, this`ivState, this`origIv, this`ivSet, this`tagAvail, this`authErr, buf
      ensures Valid()
      ensures tagLen == if old(tagLen).None? then Some(16) else old(tagLen)
      ensures if inLen > 0 && !old(tagAvail) && !allocOk then !ok && Current() == old(Current())
              else Current() == Checked(key, old(Current())) && ok == !Current().authErr
    {
      hide Cipher, Tagged;
      ok := true;
      if tagLen.None? {
        tagLen := Some(TAG_LEN);
      }
      if !tagAvail {
        if inLen > 0 && !allocOk {
          ok := false;
        } else if enc {
          var tmp := EncryptSpool();
        } else {
          ok := CheckTag();
        }
      }
    }

    method CheckTag() returns (ok: bool)
      requires Valid() && tagLen.Some? && !enc
      modifies this`reg, this`ivState, this`origIv, this`authErr
      ensures Valid()
      ensures ok <==> old(Current()).buf[..tagLen.value] == Tag(key, old(Current()))
      ensures Current() == old(Current()).(authErr := !ok)
    {
      hide Cipher;
      LoadIv();
      authErr := false;
      var tmp: seq<byte>;
      ok, tmp := LibDecrypt(spool[..inLen], aad, EffectiveIv(), buf[..tagLen.value]);
      authErr := !ok;
    }

    method DropMessage()
      requires Valid()
      modifies this`aad, this`aadSet, this`spool, this`inLen, this`reallocs
      ensures Valid() && fresh(spool)
      ensures Current() == old(Current()).(aad := [], data := [])
    {
      aad, aadSet := [], false;
      spool := new byte[0];
      inLen, reallocs := 0, 0;
    }

    // ---- the streaming calls ----

    /** Update outside TLS records. No output buffer means additional data. */
    method StreamUpdate(out: array?<byte>, outOff: nat, outSize: nat, input: Option<seq<byte>>, len: nat,
                        spoolOk: bool, allocOk: bool) returns (ok: bool, outLen: nat)
      requires Valid() && tlsAadLen.None?
      requires input.Some? ==> |input.value| == len
      requires out != null ==> input.Some? && out != buf && out != iv && out != spool
      requires out != null && len <= outSize ==> outOff + len <= out.Length
      modifies this`aad, this`aadSet, this`spool, this`inLen, this`reallocs, spool,
               this`tagLen, this`reg, this`ivState, this`origIv, this`ivSet, this`tagAvail, buf, out
      ensures Valid() && (spool == old(spool) || fresh(spool))
      ensures out == null && input.None? ==> ok && Current() == old(Current())
      ensures out == null && ok ==> outLen == len
      ensures out == null || len == 0 ==> tagLen == old(tagLen)
      ensures out != null && ok && len > 0 ==> tagLen == if old(tagLen).None? then Some(16) else old(tagLen)
      ensures out == null && input.Some? ==>
                && ok == (len == 0 || spoolOk)
                && Current() == if ok then AddAad(old(Current()), input.value) else old(Current())
      ensures out != null ==>
                ok == (len <= outSize && (len == 0 || ((Fits(old(Spool()), len) || spoolOk) && allocOk)))
      ensures out != null && ok ==>
                && outLen == len && Current() == AddData(key, old(Current()), input.value).0
                && Emitted(out[..], old(out[..]), outOff, AddData(key, old(Current()), input.value).1)
      ensures out != null && !ok ==>
                && out[..] == old(out[..])
                && Current() == if len <= outSize && (Fits(old(Spool()), len) || spoolOk)
                                then old(Current()).(data := old(Current()).data + input.value)
                                else old(Current())
    {
      hide Cipher, Tagged, Emitted;
      ok, outLen := true, 0;
      if out == null {
        if input.None? {
          outLen := len;
        } else {
          ok := CacheAad(input.value, spoolOk);
          outLen := if ok then len else 0;
        }
      } else if outSize < len {
        ok := false;
      } else if len > 0 {
        var curLen := inLen;
        ok := CacheIn(input.value, spoolOk);
        if ok {
          assert out[..] == old(out[..]);
          ok, outLen := EncDecMore(out, outOff, curLen, allocOk);
        }
      } else {
        EmitNothing(out[..], outOff);
      }
    }

    method StreamFinal(allocOk: bool) returns (ok: bool)
      requires Valid()
      modifies this`tagLen, this`tlsAadLen, this`reg, this`ivState, this`origIv, this`ivSet, this`tagAvail,
               this`authErr, this`aad, this`aadSet, this`spool, this`inLen, this`reallocs, buf
      ensures Valid() && (old(RecordRuns.Counted(Line())) ==> RecordRuns.Counted(Line()))
      ensures EXPLICIT_IV <= ivLen && old(tlsAadLen).Some? ==>
                Line() == RecordRuns.Next(old(Line()), RecordRuns.Record([], false, true)).0
      ensures old(tlsAadLen).Some? ==> !ok && tlsAadLen.None? && ivState == Finished
      ensures old(tlsAadLen).None? && !old(authErr) ==>
                !ivSet && tagLen == if old(tagLen).None? then Some(16) else old(tagLen)
      ensures old(tlsAadLen).None? ==>
                if OutOfMemory(old(Current()), allocOk) then
                  !ok && Current() == old(Current()).(aad := [], data := [])
                else (ok, Current()) == Finish(key, old(Current()))
    {
      hide Finish, Bounded, RecordRuns.Next, Current, Line, EffectiveIv;
      if tlsAadLen.Some? {
        if EXPLICIT_IV <= ivLen {
          RecordRuns.NotInPlaceIs(Line(), [], true);
        }
        ok := false;
        EndRecord();
      } else if authErr {
        FinishRefused(key, Current());
        ok := false;
      } else {
        ok := EncDecDone(allocOk);
        ForgetIv();
      }
    }

    // ---- generated IVs ----

    function CurrentIv(): seq<byte>
      requires Valid()
      reads this, iv
    {
      iv[..ivLen]
    }

    /** The invocation field, the last eight bytes, moves on by one; the rest stays. */
    method AdvanceIv()
      requires iv.Length == BLOCK && EXPLICIT_IV <= ivLen <= BLOCK
      modifies iv
      ensures iv[..ivLen] == NextIv(old(iv[..ivLen])) && iv[ivLen..] == old(iv[ivLen..])
    {
      hide Increment;
      ghost var iv0 := iv[..ivLen];
      assert iv[ivLen - EXPLICIT_IV..ivLen] == iv0[ivLen - EXPLICIT_IV..];
      IncrementAt(iv, ivLen - EXPLICIT_IV, EXPLICIT_IV);
      assert iv[..ivLen] == iv[..ivLen - EXPLICIT_IV] + iv[ivLen - EXPLICIT_IV..ivLen];
      assert iv[..ivLen - EXPLICIT_IV] == iv0[..ivLen - EXPLICIT_IV];
    }

    /** Hand out the end of the IV; optionally move its invocation field on by one. */
    method GetRandIv(out: array<byte>, outOff: nat, olen: nat, inc: bool) returns (ok: bool)
      requires Valid() && out != iv && out != buf && out != spool && (inc ==> EXPLICIT_IV <= ivLen)
      requires var n := if olen == 0 || olen > ivLen then ivLen else olen; outOff + n <= out.Length
      modifies this`origIv, this`ivState, iv, out
      ensures Valid() && ok == (ivGen && keySet)
      ensures ok ==> var n := if olen == 0 || olen > ivLen then ivLen else olen;
                     Emitted(out[..], old(out[..]), outOff, old(CurrentIv())[ivLen - n..])
      ensures ok ==> EffectiveIv() == old(CurrentIv()) && ivState == Copied
      ensures ok && inc ==> CurrentIv() == NextIv(old(CurrentIv()))
      ensures !ok || !inc ==> iv[..] == old(iv[..])
      ensures Line() == RecordRuns.Next(old(Line()), RecordRuns.HandOut(inc)).0
      ensures Current() == old(Current()).(iv := EffectiveIv())
      ensures !ok ==> unchanged(this) && out[..] == old(out[..])
    {
      hide Emitted, Bounded, NextIv, Current, EffectiveIv, Line, RecordRuns.Next;
      RecordRuns.HandOutIs(Line(), inc);
      SameIv();
      ok := ivGen && keySet;
      if ok {
        var n := if olen == 0 || olen > ivLen then ivLen else olen;
        assert iv[ivLen - n..ivLen] == CurrentIv()[ivLen - n..];
        CopyEmits(out, outOff, iv[ivLen - n..ivLen]);
        KeepIv(inc);
      }
    }

    lemma SameIv()
      requires Valid()
      ensures Current() == Current().(iv := EffectiveIv())
    {
    }

    /** Keep the IV as that of the message, and move its field on. */
    method KeepIv(inc: bool)
      requires Valid() && (inc ==> EXPLICIT_IV <= ivLen)
      modifies this`origIv, this`ivState, iv
      ensures Valid() && EffectiveIv() == old(CurrentIv()) && ivState == Copied
      ensures Current() == old(Current()).(iv := EffectiveIv())
      ensures Line() == if inc then old(Line()).(iv := NextIv(old(Line()).iv)) else old(Line())
      ensures CurrentIv() == Line().iv
      ensures !inc ==> iv[..] == old(iv[..])
    {
      hide Bounded, NextIv;
      origIv := iv[..ivLen] + origIv[ivLen..];
      if inc {
        AdvanceIv();
      }
      ivState := Copied;
    }

    /** Take the explicit part of a received record's nonce. */
    method SetRandIv(input: seq<byte>) returns (ok: bool)
      requires Valid() && |input| <= ivLen
      modifies this`origIv, this`ivState, iv
      ensures Valid() && ok == (ivGen && keySet && !enc)
      ensures ok ==> CurrentIv() == old(CurrentIv())[..ivLen - |input|] + input && ivState == Buffered
      ensures ok ==> origIv[..ivLen] == old(CurrentIv())
      ensures !ok ==> unchanged(this) && unchanged(iv)
      ensures Line() == RecordRuns.Next(old(Line()), RecordRuns.Receive(input)).0
      ensures Current() == old(Current()).(iv := EffectiveIv())
    {
      hide Bounded, Current, EffectiveIv, Line, RecordRuns.Next;
      RecordRuns.ReceiveIs(Line(), input);
      SameIv();
      ok := ivGen && keySet && !enc;
      if ok {
        Remember();
        PutEnd(input);
        Rebuffer();
      }
    }

    /** Keep a copy of the IV. */
    method Remember()
      requires Valid()
      modifies this`origIv
      ensures Valid() && origIv[..ivLen] == CurrentIv() && Line() == old(Line())
      ensures Current() == old(Current()).(iv := EffectiveIv())
    {
      hide Bounded;
      origIv := iv[..ivLen] + origIv[ivLen..];
    }

    /** Write over the end of the IV. */
    method PutEnd(input: seq<byte>)
      requires Valid() && |input| <= ivLen
      modifies iv
      ensures Valid() && CurrentIv() == old(CurrentIv())[..ivLen - |input|] + input
      ensures Line() == old(Line()).(iv := CurrentIv())
      ensures Current() == old(Current()).(iv := EffectiveIv())
    {
      hide Bounded;
      ghost var iv0 := iv[..];
      Copy(iv, ivLen - |input|, input);
      assert iv[..] == iv0[..ivLen - |input|] + input + iv0[ivLen..];
      assert iv[..ivLen] == iv[..][..ivLen] && iv[ivLen..] == iv[..][ivLen..];
      assert iv0[..ivLen - |input|] == iv0[..ivLen][..ivLen - |input|];
    }

    /** The IV in place is to be loaded by the next operation. */
    method Rebuffer()
      requires Valid()
      modifies this`ivState
      ensures Valid() && ivState == Buffered && Line() == old(Line())
      ensures Current() == old(Current()).(iv := EffectiveIv())
    {
      hide Bounded;
      ivState := Buffered;
    }

    /** Fix the start of the IV, or restore all of it. The sender's rest is random; the receiver's
        comes with each record. A part that passes the guard although the IV has no room for it
        is refused by the library on the sending side, and cut on the other. */
    method SetFixedIv(given: RecordRuns.FixedIv, random: seq<byte>, drawn: bool) returns (ok: bool)
      requires Valid() && |random| == ivLen
      requires if given.Restored? then |given.iv| == ivLen else |given.part| <= BLOCK
      modifies this`reg, this`ivSet, this`ivGen, this`ivState, iv
      ensures Valid()
      ensures ok == (given.Restored?
                     || (&& 4 <= |given.part| && (|given.part| + 8 <= ivLen || ivLen < |given.part|)
                         && (enc ==> drawn && |given.part| <= ivLen)))
      ensures ok && given.Restored? ==> CurrentIv() == given.iv
      ensures ok && given.Fixed? && |given.part| <= ivLen ==>
                CurrentIv() == given.part + (if enc then random else old(CurrentIv()))[|given.part|..]
      ensures ok && given.Fixed? && |given.part| > ivLen ==> CurrentIv() == given.part[..ivLen]
      ensures !ok ==> CurrentIv() == old(CurrentIv())
      ensures Line() == RecordRuns.Next(old(Line()), RecordRuns.FixIv(given, random, drawn)).0
      ensures Current() == old(Current()).(iv := EffectiveIv())
      ensures given.Fixed? && !RecordRuns.GuardPasses(ivLen, |given.part|) ==> unchanged(this) && unchanged(iv)
      ensures given.Restored? || RecordRuns.GuardPasses(ivLen, |given.part|) ==> ivGen && ivState == Buffered
      ensures reg == if ok && given.Fixed? && enc then CurrentIv() else old(reg)
      ensures ivSet == (old(ivSet) || (ok && given.Fixed? && enc))
    {
      hide Bounded, Current, Line, EffectiveIv, RecordRuns.Next, RecordRuns.WithStart, RecordRuns.FixedStart;
      RecordRuns.FixIvIs(Line(), given, random, drawn);
      if given.Fixed? {
        RecordRuns.GuardLeavesRoomUnlessLonger(ivLen, |given.part|);
      }
      SameIv();
      ok := true;
      match given {
      case Restored(whole) =>
        PutIv(whole);
      case Fixed(part) =>
        var room := (ivLen - |part|) % SIZE64;
        if |part| < 4 || room < EXPLICIT_IV {
          return false;
        }
        ok := PutFixed(part, random, drawn);
      }
      Generated();
    }

    /** From now on IVs are generated, and the one in place was not loaded yet. */
    method Generated()
      requires Valid()
      modifies this`ivGen, this`ivState
      ensures Valid() && ivGen && ivState == Buffered
      ensures Line() == old(Line()).(ivGen := true)
      ensures Current() == old(Current()).(iv := EffectiveIv())
    {
      hide Bounded;
      ivGen := true;
      ivState := Buffered;
    }

    method PutFixed(part: seq<byte>, random: seq<byte>, drawn: bool) returns (ok: bool)
      requires Valid() && |random| == ivLen && |part| <= BLOCK
      modifies this`reg, this`ivSet, iv
      ensures Valid() && ok == (enc ==> drawn && |part| <= ivLen)
      ensures Line() == if ok then RecordRuns.WithStart(old(Line()), RecordRuns.FixedStart(old(Line()), part, random))
                        else old(Line())
      ensures CurrentIv() == if !ok then old(CurrentIv())
                             else if |part| > ivLen then part[..ivLen]
                             else part + (if enc then random else old(CurrentIv()))[|part|..]
      ensures Current() == old(Current()).(iv := Current().iv)
      ensures reg == if ok && enc then CurrentIv() else old(reg)
      ensures ivSet == (old(ivSet) || (ok && enc))
      ensures !ok ==> iv[..] == old(iv[..])
    {
      hide Bounded, EffectiveIv;
      ok := true;
      if enc {
        ok := drawn && |part| <= ivLen;
        if ok {
          reg := part + random[|part|..];
          PutIv(reg);
          ivSet := true;
        }
      } else {
        PutIv(part);
      }
    }

    /** Write over the start of the IV buffer. */
    method PutIv(data: seq<byte>)
      requires Valid() && |data| <= BLOCK
      modifies iv
      ensures Valid() && Line() == RecordRuns.WithStart(old(Line()), data)
      ensures Current() == old(Current()).(iv := Current().iv)
      ensures CurrentIv() == if |data| > ivLen then data[..ivLen] else data + old(CurrentIv())[|data|..]
    {
      hide Bounded;
      assert iv[..ivLen] + iv[ivLen..] == iv[..];
      Copy(iv, 0, data);
      assert iv[..] == data + old(iv[..])[|data|..];
      assert iv[..ivLen] == iv[..][..ivLen] && iv[ivLen..] == iv[..][ivLen..];
    }

    // ---- TLS 1.2 records ----

    /** Take the additional data of the next record; the result is the room its tag needs. */
    method TlsInit(newAad: seq<byte>, running: bool) returns (pad: nat)
      requires Valid()
      modifies this`tlsAadLen, this`tlsEncRecords, buf
      ensures Valid()
      ensures var room := if tagLen.Some? then tagLen.value else 16;
              var corrected := CorrectedAad(enc, newAad, room);
              if running && corrected.Some? then
                && pad == room && tlsAadLen == Some(AAD_LEN) && tlsEncRecords == 0
                && buf[..AAD_LEN] == corrected.value
              else pad == 0
      ensures running && |newAad| == AAD_LEN ==> tlsAadLen == Some(AAD_LEN) && tlsEncRecords == 0
      ensures old(RecordRuns.Counted(Line())) ==> RecordRuns.Counted(Line())
      ensures !(running && |newAad| == AAD_LEN) ==> unchanged(this) && unchanged(buf)
      ensures Line() == RecordRuns.Next(old(Line()), RecordRuns.Header(newAad, running)).0
    {
      hide ByteOf, Bounded, FieldValue, LengthField, Current, EffectiveIv, RecordRuns.Next;
      RecordRuns.HeaderIs(Line(), newAad, running);
      pad := if tagLen.Some? then tagLen.value else TAG_LEN;
      var ok := running && |newAad| == AAD_LEN;
      if ok {
        Copy(buf, 0, newAad);
        tlsAadLen, tlsEncRecords := Some(AAD_LEN), 0;
        assert buf[AAD_LEN - 2..AAD_LEN] == newAad[AAD_LEN - 2..];
        var len := FieldValue(buf[AAD_LEN - 2..AAD_LEN]);
        FieldBound(newAad[AAD_LEN - 2..]);
        if len >= EXPLICIT_IV {
          len := len - EXPLICIT_IV;
        } else {
          ok := false;
        }
        if ok && !enc {
          if len < pad {
            ok := false;
          } else {
            len := len - pad;
          }
        }
        if ok {
          Copy(buf, AAD_LEN - 2, LengthField(len));
          assert buf[..AAD_LEN] == newAad[..AAD_LEN - 2] + LengthField(len);
        }
      }
      if !ok {
        pad := 0;
      }
    }

    /** Seal or open a record in place. */
    method TlsCipher(out: array<byte>, outOff: nat, len: nat, inPlace: bool, running: bool)
        returns (ok: bool, outLen: nat)
      requires Valid() && RecordRuns.Counted(Line()) && tlsAadLen.Some? && EXPLICIT_IV <= ivLen
      requires out != iv && out != buf && out != spool && outOff + len <= out.Length
      modifies this`tlsEncRecords, this`origIv, this`ivState, this`tlsAadLen, this`reg, iv, out
      ensures Valid() && RecordRuns.Counted(Line()) && ivState == Finished && tlsAadLen.None?
      ensures Line() == RecordRuns.Next(old(Line()),
                                        RecordRuns.Record(old(out[outOff..outOff + len]), inPlace, running)).0
      ensures ok ==> ivGen && running && keySet && inPlace && 24 <= len
      ensures !ok ==> outLen == 0
      ensures !(ivGen && running && keySet && inPlace && 24 <= len) ==>
                out[..] == old(out[..]) && CurrentIv() == old(CurrentIv())
      ensures CurrentIv() == if !enc && ivGen && running && keySet && inPlace && 24 <= len then
                               old(CurrentIv())[..ivLen - 8] + old(out[outOff..outOff + len])[..8]
                             else old(CurrentIv())
      ensures ivGen && running && keySet && inPlace && 24 <= len ==>
                var aad := old(buf[..AAD_LEN]);
                if enc then
                  && ok && outLen == len
                  && Emitted(out[..], old(out[..]), outOff,
                             Sealed(key, old(CurrentIv()), aad,
                                    old(out[outOff + EXPLICIT_IV..outOff + len - TAG_LEN])))
                else
                  var answer := Opened(key, old(CurrentIv()), aad, old(out[outOff..outOff + len]));
                  && ok == answer.Some?
                  && Emitted(out[..], old(out[..]), outOff + EXPLICIT_IV,
                             if ok then answer.value else Repeat(0, len - EXPLICIT_IV - TAG_LEN))
                  && (ok ==> outLen == len - EXPLICIT_IV - TAG_LEN)
    {
      hide Emitted, Cipher, Bounded, Sealed, Opened, ReceiverIv, Line, RecordRuns.Next, Current, EffectiveIv;
      RecordRuns.RecordIs(Line(), out[outOff..outOff + len], inPlace, running);
      ReceiverIvIs(CurrentIv(), out[outOff..outOff + len]);
      ok := running && keySet && inPlace && EXPLICIT_IV + TAG_LEN <= len;
      outLen := 0;
      if ok && enc {
        CountRecord();
        ok := tlsEncRecords != 0;
      }
      if ok {
        if enc {
          ok := TlsSeal(out, outOff, len);
          outLen := if ok then len else 0;
        } else {
          ok := TlsOpen(out, outOff, len);
          outLen := if ok then len - EXPLICIT_IV - TAG_LEN else 0;
        }
      }
      EndRecord();
    }

    lemma ReceiverIvIs(iv: seq<byte>, record: seq<byte>)
      ensures EXPLICIT_IV <= |iv| && EXPLICIT_IV <= |record| ==>
                ReceiverIv(iv, record) == iv[..|iv| - 8] + record[..8]
    {
    }

    method CountRecord()
      requires Valid()
      modifies this`tlsEncRecords
      ensures Valid() && Line() == old(Line()).(records := (old(Line()).records + 1) % SIZE64)
      ensures tlsEncRecords == Line().records && CurrentIv() == old(CurrentIv())
    {
      tlsEncRecords := (tlsEncRecords + 1) % SIZE64;
    }

    method EndRecord()
      requires Valid()
      modifies this`ivState, this`tlsAadLen
      ensures Valid() && Line() == old(Line()).(header := false) && ivState == Finished && tlsAadLen.None?
    {
      ivState, tlsAadLen := Finished, None;
    }

    method TlsSeal(out: array<byte>, outOff: nat, len: nat) returns (ok: bool)
      requires Valid() && keySet && enc && EXPLICIT_IV <= ivLen && EXPLICIT_IV + TAG_LEN <= len
      requires out != iv && out != buf && out != spool && outOff + len <= out.Length
      modifies this`origIv, this`ivState, iv, out
      ensures Valid() && ok == ivGen && CurrentIv() == old(CurrentIv()) && Line() == old(Line())
      ensures !ok ==> out[..] == old(out[..])
      ensures ok ==> Emitted(out[..], old(out[..]), outOff,
                             Sealed(key, old(CurrentIv()), old(buf[..AAD_LEN]),
                                    old(out[outOff + EXPLICIT_IV..outOff + len - TAG_LEN])))
    {
      hide Emitted, Cipher, Bounded, Current, EffectiveIv, Line, RecordRuns.Next;
      RecordRuns.HandOutIs(Line(), false);
      ghost var out0, iv0 := out[..], CurrentIv();
      var plain := out[outOff + EXPLICIT_IV..outOff + len - TAG_LEN];
      ok := GetRandIv(out, outOff, EXPLICIT_IV, false);
      if ok {
        var ct := Cipher(key, iv[..ivLen], plain);
        var tag := FullTag(key, iv[..ivLen], buf[..AAD_LEN], ct);
        ghost var out1 := out[..];
        EmittedLength(out1, out0, outOff, iv0[ivLen - EXPLICIT_IV..]);
        CopyEmits(out, outOff + EXPLICIT_IV, ct);
        EmittedTwice(out[..], out1, out0, outOff, iv0[ivLen - EXPLICIT_IV..], ct);
        ghost var out2 := out[..];
        CopyEmits(out, outOff + EXPLICIT_IV + |ct|, tag);
        EmittedTwice(out[..], out2, out0, outOff, iv0[ivLen - EXPLICIT_IV..] + ct, tag);
      }
    }

    method TlsOpen(out: array<byte>, outOff: nat, len: nat) returns (ok: bool)
      requires Valid() && keySet && !enc && EXPLICIT_IV <= ivLen && EXPLICIT_IV + TAG_LEN <= len
      requires out != iv && out != buf && out != spool && outOff + len <= out.Length
      modifies this`origIv, this`ivState, iv, out
      ensures Valid() && (!ivGen ==> !ok && out[..] == old(out[..]) && Line() == old(Line()))
      ensures ivGen ==> Line() == old(Line()).(iv := ReceiverIv(old(CurrentIv()), old(out[outOff..outOff + len])))
      ensures ivGen ==>
                var record := old(out[outOff..outOff + len]);
                var answer := Opened(key, old(CurrentIv()), old(buf[..AAD_LEN]), record);
                && ok == answer.Some?
                && Emitted(out[..], old(out[..]), outOff + EXPLICIT_IV,
                           if ok then answer.value else Repeat(0, len - EXPLICIT_IV - TAG_LEN))
    {
      hide Emitted, Cipher, Bounded, Current, EffectiveIv, Line, RecordRuns.Next;
      var record := out[outOff..outOff + len];
      assert out[outOff..outOff + EXPLICIT_IV] == record[..EXPLICIT_IV];
      RecordRuns.ReceiveIs(Line(), record[..EXPLICIT_IV]);
      ok := SetRandIv(out[outOff..outOff + EXPLICIT_IV]);
      if ok {
        assert CurrentIv() == ReceiverIv(old(CurrentIv()), record);
        ok := OpenInto(out, outOff, record, old(CurrentIv()));
      }
    }

    /** Decipher a record whose nonce is in place. */
    method OpenInto(out: array<byte>, outOff: nat, record: seq<byte>, ghost iv0: seq<byte>) returns (ok: bool)
      requires Valid() && EXPLICIT_IV + TAG_LEN <= |record| && outOff + |record| <= out.Length
      requires EXPLICIT_IV <= ivLen == |iv0| && CurrentIv() == ReceiverIv(iv0, record)
      requires out != iv && out != buf && out != spool
      modifies out
      ensures Valid() && Line() == old(Line())
      ensures var answer := Opened(key, iv0, buf[..AAD_LEN], record);
              && ok == answer.Some?
              && Emitted(out[..], old(out[..]), outOff + EXPLICIT_IV,
                         if ok then answer.value else Repeat(0, |record| - EXPLICIT_IV - TAG_LEN))
    {
      hide Emitted, Cipher, Bounded, Current, EffectiveIv, Line;
      var ct := record[EXPLICIT_IV..|record| - TAG_LEN];
      ghost var expected := FullTag(key, CurrentIv(), buf[..AAD_LEN], ct);
      assert expected[..TAG_LEN] == expected;
      var plain: seq<byte>;
      ok, plain := LibDecrypt(ct, buf[..AAD_LEN], iv[..ivLen], record[|record| - TAG_LEN..]);
      CopyEmits(out, outOff + EXPLICIT_IV, plain);
    }
  }
}
