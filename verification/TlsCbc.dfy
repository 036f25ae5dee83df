/** TLS 1.1+ CBC records: padding check, MAC extraction and sealing. */
module TlsCbc {
  import opened Bytes
  import opened BlockCipher

  const MAX_MAC: nat := 64
  const ALL_ONES: bv64 := 0xFFFF_FFFF_FFFF_FFFF

  // ---- what a record holds ----

  /** The last byte is a padding length p, there is room for a MAC and p + 1 bytes, and the
      last p + 1 bytes all equal p. */
  predicate PaddingGood(rec: seq<byte>, macSize: nat)
    requires rec != []
  {
    var p := rec[|rec| - 1] as nat;
    macSize + p + 1 <= |rec| && forall k | |rec| - 1 - p <= k < |rec| :: rec[k] == rec[|rec| - 1]
  }

  function MacEnd(rec: seq<byte>, macSize: nat): (end: nat)
    requires macSize < |rec|
    ensures macSize <= end <= |rec| <= end + 256
  {
    if PaddingGood(rec, macSize) then |rec| - (rec[|rec| - 1] as nat + 1) else |rec|
  }

  datatype Opened = Rejected | Opened(len: nat, mac: seq<byte>)

  /** The two slices a decrypted record is made of after its explicit IV block; a record whose
      padding is bad keeps all its bytes and gets a random MAC instead. */
  function Open(plain: seq<byte>, bs: nat, macSize: nat, randMac: seq<byte>): Opened
    requires |randMac| == MAX_MAC
  {
    if macSize > MAX_MAC || |plain| < bs + macSize + 1 then Rejected
    else
      var rec := plain[bs..];
      var good, end := PaddingGood(rec, macSize), MacEnd(rec, macSize);
      if macSize == 0 && !good then Rejected
      else Opened(end - macSize, if good then rec[end - macSize..end] else randMac[..macSize])
  }

  /** A record is well formed when its last bytes are a MAC and p + 1 padding bytes. */
  function Record(explicitIv: seq<byte>, payload: seq<byte>, mac: seq<byte>, p: byte): seq<byte> {
    explicitIv + payload + mac + Repeat(p, p as nat + 1)
  }

  /** Every well-formed record, with any padding length up to 255, opens to its parts. */
  lemma WellFormedOpens(explicitIv: seq<byte>, payload: seq<byte>, mac: seq<byte>, p: byte, randMac: seq<byte>)
    requires |mac| <= MAX_MAC == |randMac|
    ensures Open(Record(explicitIv, payload, mac, p), |explicitIv|, |mac|, randMac) == Opened(|payload|, mac)
  {
    var plain := Record(explicitIv, payload, mac, p);
    var rec := plain[|explicitIv|..];
    assert rec == payload + mac + Repeat(p, p as nat + 1);
    assert rec[|rec| - 1] == p && PaddingGood(rec, |mac|);
    assert rec[|payload|..|payload| + |mac|] == mac;
  }

  /** A record that is too short, or whose MAC would be too long, is rejected. */
  lemma ShortRecordIsRejected(plain: seq<byte>, bs: nat, macSize: nat, randMac: seq<byte>)
    requires |randMac| == MAX_MAC && (macSize > 64 || |plain| < bs + macSize + 1)
    ensures Open(plain, bs, macSize, randMac) == Rejected
  {
  }

  /** A record whose last bytes are no padding, or leave no room for the MAC, keeps all of them, and
      shows nothing of them: without a MAC it is rejected, with one the MAC is the random one. */
  lemma BadPaddingIsHidden(plain: seq<byte>, bs: nat, macSize: nat, randMac: seq<byte>)
    requires |randMac| == MAX_MAC && macSize <= 64 && bs + macSize + 1 <= |plain|
    requires var rec := plain[bs..];
             var p := rec[|rec| - 1];
             macSize + p as nat + 1 > |rec| || exists k | |rec| - 1 - p as nat <= k < |rec| :: rec[k] != p
    ensures Open(plain, bs, macSize, randMac)
         == if macSize == 0 then Rejected else Opened(|plain| - bs - macSize, randMac[..macSize])
  {
  }

  /** Conversely, a record opened with good padding is the well-formed record of its parts. */
  lemma OpenedIsWellFormed(plain: seq<byte>, bs: nat, macSize: nat, randMac: seq<byte>)
    requires |randMac| == MAX_MAC && Open(plain, bs, macSize, randMac).Opened?
    requires PaddingGood(plain[bs..], macSize)
    ensures var o := Open(plain, bs, macSize, randMac);
            && bs + o.len <= |plain|
            && plain == Record(plain[..bs], plain[bs..bs + o.len], o.mac, plain[|plain| - 1])
  {
    var o := Open(plain, bs, macSize, randMac);
    OpenedParts(plain, bs, macSize, randMac);
    hide Open, PaddingGood, Record;
    RecordOfParts(plain, bs, bs + o.len, bs + o.len + macSize, plain[|plain| - 1]);
  }

  lemma OpenedParts(plain: seq<byte>, bs: nat, macSize: nat, randMac: seq<byte>)
    requires |randMac| == MAX_MAC && Open(plain, bs, macSize, randMac).Opened?
    requires PaddingGood(plain[bs..], macSize)
    ensures var o, p := Open(plain, bs, macSize, randMac), plain[|plain| - 1];
            var at := bs + o.len + macSize;
            && at + p as nat + 1 == |plain|
            && o.mac == plain[bs + o.len..at] && plain[at..] == Repeat(p, p as nat + 1)
  {
    var o := Open(plain, bs, macSize, randMac);
    var rec := plain[bs..];
    var at := o.len + macSize;
    assert o.mac == rec[o.len..at];
    GoodTail(rec, macSize);
    hide Open, PaddingGood, Repeat;
    Shifted(plain, bs, o.len, at);
    Shifted(plain, bs, at, |rec|);
    assert rec[at..|rec|] == rec[at..] && plain[bs + at..|plain|] == plain[bs + at..];
  }

  lemma Shifted<T>(s: seq<T>, n: nat, i: nat, j: nat)
    requires n <= |s| && i <= j <= |s| - n
    ensures s[n..][i..j] == s[n + i..n + j]
  {
  }

  lemma GoodTail(rec: seq<byte>, macSize: nat)
    requires rec != [] && PaddingGood(rec, macSize)
    ensures var p := rec[|rec| - 1];
            p as nat + 1 <= |rec| && rec[|rec| - 1 - p as nat..] == Repeat(p, p as nat + 1)
  {
  }

  lemma RecordOfParts(s: seq<byte>, i: nat, j: nat, k: nat, p: byte)
    requires i <= j <= k <= |s| && s[k..] == Repeat(p, p as nat + 1)
    ensures s == Record(s[..i], s[i..j], s[j..k], p)
  {
    assert s[..k] == s[..i] + s[i..j] + s[j..k];
  }

  // ---- the DES3 check, which knows no MAC ----

  /** Padding of at most one block: p < bs, and the last p + 1 bytes equal p. */
  predicate ShortPaddingGood(plain: seq<byte>, bs: nat)
    requires bs <= |plain| && bs > 0
  {
    var p := plain[|plain| - 1];
    p as nat < bs && forall k | |plain| - 1 - p as nat <= k < |plain| :: plain[k] == p
  }

  /** And nothing else does: a record of whole blocks passes exactly when it is sealed data. */
  lemma ShortPaddingIsSealed(plain: seq<byte>, bs: nat)
    requires 0 < bs < 256 && bs <= |plain| && Whole(|plain|, bs)
    ensures var p := plain[|plain| - 1] as nat;
            ShortPaddingGood(plain, bs) <==> p < bs && plain == Sealed(plain[..|plain| - p - 1], bs)
  {
    var last := plain[|plain| - 1];
    var p := last as nat;
    if p < bs {
      SealedWith(plain[..|plain| - p - 1], plain, bs, last);
      TailOf(plain, p + 1, last);
      hide Sealed, Floor, Repeat;
    }
  }

  lemma SealedWith(data: seq<byte>, plain: seq<byte>, bs: nat, last: byte)
    requires 0 < bs < 256 && bs <= |plain| && Whole(|plain|, bs) && last as nat < bs
    requires |data| == |plain| - last as nat - 1
    ensures Sealed(data, bs) == data + Repeat(last, last as nat + 1)
  {
    FloorIsRemainder(|plain|, bs);
    RemainderBelow(|plain|, last as nat + 1, bs);
    hide ByteOf;
    ByteOfValue(last);
  }

  lemma TailOf(plain: seq<byte>, n: nat, b: byte)
    requires n <= |plain|
    ensures plain == plain[..|plain| - n] + Repeat(b, n) <==> forall k | |plain| - n <= k < |plain| :: plain[k] == b
  {
    var rest := plain[|plain| - n..];
    assert plain == plain[..|plain| - n] + rest;
    if forall k | |plain| - n <= k < |plain| :: plain[k] == b {
      assert rest == Repeat(b, n);
    }
    if plain == plain[..|plain| - n] + Repeat(b, n) {
      forall k | |plain| - n <= k < |plain|
        ensures plain[k] == b
      {
        assert (plain[..|plain| - n] + Repeat(b, n))[k] == Repeat(b, n)[k - (|plain| - n)];
      }
    }
  }

  /** The length without the padding and the first block, as an unsigned 64-bit number. */
  function ShortLength(plain: seq<byte>, bs: nat): nat
    requires plain != []
  {
    (|plain| - plain[|plain| - 1] as nat - 1 - bs) % SIZE64
  }

  /** A record of whole blocks that passes has a length no more than its own exactly when it has at
      least two blocks; on a single one the length wraps. */
  lemma SingleBlockWraps(plain: seq<byte>, bs: nat)
    requires 0 < bs < 256 && bs <= |plain| < SIZE64 && Whole(|plain|, bs) && ShortPaddingGood(plain, bs)
    ensures ShortLength(plain, bs) <= |plain| <==> 2 * bs <= |plain|
  {
    hide Floor;
    FloorIsRemainder(|plain|, bs);
    if 2 * bs > |plain| {
      OneBlockIsWhole(bs);
      RemainderUnique(|plain|, 1, |plain| - bs, bs);
    }
  }

  /** Three bytes sealed for DES3 are one block that passes. */
  lemma ThreeBytesWrap(data: seq<byte>)
    requires |data| == 3
    ensures var plain := Sealed(data, 8);
            && |plain| == 8 && ShortPaddingGood(plain, 8)
            && ShortLength(plain, 8) == SIZE64 - 5 && ShortLength(plain, 8) > |plain|
  {
    assert 8 - 3 % 8 - 1 == 4;
  }

  /** A sealed record passes it. */
  lemma SealedIsShort(data: seq<byte>, bs: nat)
    requires 0 < bs < 256
    ensures bs <= |Sealed(data, bs)| && ShortPaddingGood(Sealed(data, bs), bs)
    ensures var plain := Sealed(data, bs);
            |plain| - plain[|plain| - 1] as nat - 1 == |data|
  {
    SealedIsWhole(data, bs);
  }

  // ---- sealing ----

  /** What the encrypting update makes of the data before it enciphers it. */
  function Sealed(data: seq<byte>, bs: nat): (r: seq<byte>)
    requires 0 < bs < 256
  {
    var p := bs - |data| % bs - 1;
    data + Repeat(ByteOf(p), p + 1)
  }

  /** A buffer whose record is kept and followed by n padding bytes. */
  lemma PaddedInPlace(before: seq<byte>, after: seq<byte>, off: nat, len: nat, p: byte, n: nat)
    requires |after| == |before| && off + len + n <= |after|
    requires after[..off + len] == before[..off + len]
    requires forall k | off + len <= k < off + len + n :: after[k] == p
    ensures after[off..off + len + n] == before[off..off + len] + Repeat(p, n)
    ensures after[..off] == before[..off]
  {
    assert after[..off] == after[..off + len][..off] == before[..off];
    Parted(after, off, off + len, off + len + n);
    assert after[off..off + len] == after[..off + len][off..] == before[off..off + len];
    assert after[off + len..off + len + n] == Repeat(p, n);
  }

  lemma Parted<T>(s: seq<T>, i: nat, j: nat, k: nat)
    requires i <= j <= k <= |s|
    ensures s[i..k] == s[i..j] + s[j..k]
  {
  }

  lemma SealedIsWhole(data: seq<byte>, bs: nat)
    requires 0 < bs < 256
    ensures Whole(|Sealed(data, bs)|, bs) && bs <= |Sealed(data, bs)|
  {
    FloorIsRemainder(|data|, bs);
    FloorIsWhole(|data|, bs);
    OneBlockIsWhole(bs);
    FloorOfSum(Floor(|data|, bs), bs, bs);
  }

  /** A sealed record opens to the payload and the MAC it was sealed with, even when the
      receiver's chaining register is not the sender's: CBC self-synchronises and the explicit
      IV block is dropped. */
  lemma RecordRoundTrip(c: Cipher, reg: seq<byte>, reg': seq<byte>, explicitIv: seq<byte>,
                        payload: seq<byte>, mac: seq<byte>, randMac: seq<byte>)
    requires |reg| == |reg'| == |explicitIv| == c.bs
    requires |mac| <= MAX_MAC == |randMac|
    ensures var plain := Crypt(c, CBC, false, reg',
                               Crypt(c, CBC, true, reg, Sealed(explicitIv + payload + mac, c.bs)));
            && Open(plain, c.bs, |mac|, randMac) == Opened(|payload|, mac)
            && plain[c.bs..][..|payload|] == payload
  {
    hide Crypt, LastReg, Floor, Open, Sealed, ByteOf;
    var data := explicitIv + payload + mac;
    var p := ByteOf(c.bs - |data| % c.bs - 1);
    var sealed := Sealed(data, c.bs);
    var plain := Crypt(c, CBC, false, reg', Crypt(c, CBC, true, reg, sealed));
    SealedIsWhole(data, c.bs);
    SealedIsRecord(explicitIv, payload, mac, c.bs);
    CbcTailSurvives(c, reg, reg', sealed);
    SameTailSameParts(plain, explicitIv, payload, mac, p);
    WellFormedOpens(plain[..c.bs], payload, mac, p, randMac);
  }

  /** A DES3 record of at least two blocks survives the same way, the MAC staying with the payload. */
  lemma ShortRecordRoundTrip(c: Cipher, reg: seq<byte>, reg': seq<byte>, data: seq<byte>)
    requires |reg| == |reg'| == c.bs <= |data|
    ensures var plain := Crypt(c, CBC, false, reg', Crypt(c, CBC, true, reg, Sealed(data, c.bs)));
            && 2 * c.bs <= |plain| && ShortPaddingGood(plain, c.bs)
            && |plain| - plain[|plain| - 1] as nat - 1 - c.bs == |data| - c.bs
            && (|data| < SIZE64 ==> ShortLength(plain, c.bs) == |data| - c.bs)
            && plain[c.bs..|data|] == data[c.bs..]
  {
    hide Crypt, LastReg, Floor, Sealed;
    var sealed := Sealed(data, c.bs);
    SealedIsWhole(data, c.bs);
    SealedIsShort(data, c.bs);
    CbcTailSurvives(c, reg, reg', sealed);
    var plain := Crypt(c, CBC, false, reg', Crypt(c, CBC, true, reg, sealed));
    SealedHasTwoBlocks(data, c.bs);
    assert forall k | c.bs <= k < |plain| :: plain[k] == plain[c.bs..][k - c.bs] == sealed[k];
  }

  lemma SealedHasTwoBlocks(data: seq<byte>, bs: nat)
    requires 0 < bs < 256 && bs <= |data|
    ensures 2 * bs <= |Sealed(data, bs)| && Sealed(data, bs)[..|data|] == data
  {
    SealedIsWhole(data, bs);
    OneBlockIsWhole(bs);
    var n := |Sealed(data, bs)|;
    assert n > bs;
    FloorIsRemainder(n, bs);
    FloorOfSum(bs, n - bs, bs);
  }

  lemma SealedIsRecord(explicitIv: seq<byte>, payload: seq<byte>, mac: seq<byte>, bs: nat)
    requires 0 < bs < 256
    ensures var data := explicitIv + payload + mac;
            Sealed(data, bs) == Record(explicitIv, payload, mac, ByteOf(bs - |data| % bs - 1))
  {
  }

  /** Decryption from any register recovers all but the first block. */
  lemma CbcTailSurvives(c: Cipher, reg: seq<byte>, reg': seq<byte>, data: seq<byte>)
    requires |reg| == |reg'| == c.bs <= |data| && Whole(|data|, c.bs)
    ensures var plain := Crypt(c, CBC, false, reg', Crypt(c, CBC, true, reg, data));
            |plain| == |data| && plain[c.bs..] == data[c.bs..]
  {
    hide Crypt, LastReg, Floor, ByteOf;
    CryptRoundTrip(c, CBC, reg, data);
    CbcSelfSynchronises(c, reg', reg, Crypt(c, CBC, true, reg, data));
  }

  lemma SameTailSameParts(plain: seq<byte>, explicitIv: seq<byte>, payload: seq<byte>, mac: seq<byte>, p: byte)
    requires var rec := Record(explicitIv, payload, mac, p);
             |plain| == |rec| && plain[|explicitIv|..] == rec[|explicitIv|..]
    ensures plain == Record(plain[..|explicitIv|], payload, mac, p)
    ensures plain[|explicitIv|..][..|payload|] == payload
  {
    assert plain == plain[..|explicitIv|] + plain[|explicitIv|..];
  }

  // ---- padding ----

  /** The low byte of the accumulator is still all ones. */
  predicate AllGood(good: bv64) {
    good & 0xff == 0xff
  }

  method FitsMask(recLen: nat, overhead: nat) returns (good: bv64)
    requires recLen < 0x8000_0000 && overhead < 0x1_0000
    ensures AllGood(good) <==> overhead <= recLen
  {
    var fits := IntMaskGte(recLen, overhead);
    good := 0 - ((fits & 1) as bv64);
  }

  /** One step of the accumulation: clear bits where a byte under the mask differs. */
  method ClearDifference(good: bv64, mask: byte, a: byte, b: byte) returns (r: bv64)
    requires mask == ONES || mask == 0
    ensures AllGood(r) <==> AllGood(good) && (mask == 0 || a == b)
  {
    r := good & !((mask & (a ^ b)) as bv64);
  }

  /** Collapse the low byte to a mask of full width. */
  method Collapse(good: bv64) returns (mask: bv64)
    ensures mask == if AllGood(good) then ALL_ONES else 0
  {
    var diff := (good & 0xff) ^ 0xff;
    diff := diff | (0 - diff);
    diff := diff >> 63;
    mask := diff - 1;
  }

  /** Bytes of rec from position from on that the padding length p covers all equal it. */
  predicate TailIsPadding(rec: seq<byte>, from: nat, p: byte) {
    forall k | from <= k < |rec| && |rec| - 1 - p as nat <= k :: rec[k] == p
  }

  /** Branch-free over the padding length: all ones for good padding, zero for bad. */
  method PaddingMask(rec: seq<byte>, macSize: nat) returns (good: bv64)
    requires macSize < |rec| < 0x8000_0000 && macSize <= MAX_MAC
    ensures good == if PaddingGood(rec, macSize) then ALL_ONES else 0
  {
    var padVal := rec[|rec| - 1];
    var p := padVal as nat;
    var overhead := macSize + p + 1;
    good := FitsMask(|rec|, overhead);
    var toCheck := 256;
    if toCheck > |rec| {
      toCheck := |rec|;
    }
    for i := 0 to toCheck
      invariant AllGood(good) <==> overhead <= |rec| && TailIsPadding(rec, |rec| - i, padVal)
    {
      var mask := IntMaskGte(p, i);
      good := ClearDifference(good, mask, padVal, rec[|rec| - 1 - i]);
    }
    good := Collapse(good);
  }

  /** What the mask subtracts from the record length. */
  method MaskedLength(good: bv64, p: byte) returns (n: nat)
    requires good == ALL_ONES || good == 0
    ensures n == if good == 0 then 0 else p as nat + 1
  {
    n := (good & (p as bv64 + 1)) as nat;
  }

  /** The padding mask and the record length without its padding, which stays if it is bad. */
  method RemovePadding(rec: seq<byte>, macSize: nat) returns (good: bv64, recLen: nat)
    requires macSize < |rec| < 0x8000_0000 && macSize <= MAX_MAC
    ensures good == if PaddingGood(rec, macSize) then ALL_ONES else 0
    ensures recLen == MacEnd(rec, macSize)
  {
    good := PaddingMask(rec, macSize);
    var padLen := MaskedLength(good, rec[|rec| - 1]);
    recLen := |rec| - padLen;
  }

  // ---- MAC extraction ----

  /** Slot k places after start in a ring of size slots. */
  function Ring(start: nat, k: nat, size: nat): (r: nat)
    requires start < size && k <= size
  {
    if start + k < size then start + k else start + k - size
  }

  /** The slot that byte n of the scan falls in. */
  function SlotOf(n: nat, size: nat): (r: nat)
    requires size > 0
    ensures r < size
  {
    n % size
  }

  lemma NextSlotOf(n: nat, size: nat)
    requires size > 0
    ensures SlotOf(n + 1, size) == if SlotOf(n, size) + 1 == size then 0 else SlotOf(n, size) + 1
    ensures SlotOf(0, size) == 0
  {
    RemainderSuccessor(n, size);
  }

  /** The next slot: step and wrap to zero by mask. Slot numbers stay below 65, so a byte is
      wide enough for the bit operations. */
  method NextSlot(j: nat, size: nat) returns (r: nat)
    requires j < size <= MAX_MAC
    ensures r == if j + 1 == size then 0 else j + 1
  {
    var inside := IntMaskLt(j + 1, size);
    r := (ByteOf(j + 1) & inside) as nat;
  }

  /** The ring holds the first n bytes of the MAC from slot start on, and zeros elsewhere. */
  ghost predicate RingHolds(ring: seq<byte>, start: nat, mac: seq<byte>, n: nat)
    requires n <= |mac| <= |ring|
  {
    && start < |mac|
    && (forall k | 0 <= k < n :: ring[Ring(start, k, |mac|)] == mac[k])
    && (forall k | n <= k < |mac| :: ring[Ring(start, k, |mac|)] == 0)
  }

  lemma RingIsEmpty(ring: seq<byte>, start: nat, mac: seq<byte>)
    requires start < |mac| <= |ring| && forall k | 0 <= k < |ring| :: ring[k] == 0
    ensures RingHolds(ring, start, mac, 0)
  {
  }

  lemma RingIsFilledOnce(ring: seq<byte>, start: nat, mac: seq<byte>, n: nat)
    requires n < |mac| <= |ring| && RingHolds(ring, start, mac, n)
    ensures ring[Ring(start, n, |mac|)] == 0
    ensures RingHolds(ring[Ring(start, n, |mac|) := mac[n]], start, mac, n + 1)
  {
  }

  /** Copy the MAC into a ring of macSize slots while touching every byte where it could be.
      The MAC starts in slot (macStart - scanStart) mod macSize, and each slot is written once. */
  method ScanMac(rec: seq<byte>, scanStart: nat, macStart: nat, macSize: nat)
      returns (rotatedMac: array<byte>, rotateOff: nat)
    requires 0 < macSize <= MAX_MAC && |rec| < 0x8000_0000
    requires scanStart <= macStart && macStart + macSize <= |rec|
    ensures fresh(rotatedMac) && rotatedMac.Length == MAX_MAC
    ensures rotateOff == SlotOf(macStart - scanStart, macSize)
    ensures RingHolds(rotatedMac[..], rotateOff, rec[macStart..macStart + macSize], macSize)
  {
    hide RingHolds, SlotOf;
    var macEnd := macStart + macSize;
    ghost var mac := rec[macStart..macEnd];
    ghost var r := SlotOf(macStart - scanStart, macSize);
    NextSlotOf(0, macSize);
    rotatedMac := new byte[MAX_MAC](_ => 0);
    RingIsEmpty(rotatedMac[..], r, mac);
    var inMac: byte := 0;
    rotateOff := 0;
    var j := 0;
    for i := scanStart to |rec|
      invariant j == SlotOf(i - scanStart, macSize)
      invariant rotateOff == if i <= macStart then 0 else r
      invariant inMac == if macStart < i <= macEnd then ONES else 0
      invariant macStart <= i <= macEnd ==> j == Ring(r, i - macStart, macSize)
      invariant RingHolds(rotatedMac[..], r, mac,
                          if i <= macStart then 0 else if i <= macEnd then i - macStart else macSize)
    {
      var started := IntMaskEq(i, macStart);
      var ended := IntMaskLt(i, macEnd);
      inMac := InMac(inMac, started, ended);
      rotateOff := RecordStart(rotateOff, j, started);
      ghost var ring := rotatedMac[..];
      if macStart <= i < macEnd {
        RingIsFilledOnce(ring, r, mac, i - macStart);
      }
      var slot := OrMasked(rotatedMac[j], rec[i], inMac);
      rotatedMac[j] := slot;
      assert rotatedMac[..] == ring[j := slot];
      assert !(macStart <= i < macEnd) ==> ring[j := slot] == ring;
      NextSlotOf(i - scanStart, macSize);
      j := NextSlot(j, macSize);
    }
  }

  method InMac(inMac: byte, started: byte, ended: byte) returns (r: byte)
    requires inMac in {0, ONES} && started in {0, ONES} && ended in {0, ONES}
    ensures r == if (inMac == ONES || started == ONES) && ended == ONES then ONES else 0
  {
    r := inMac | started;
    r := r & ended;
  }

  method RecordStart(rotateOff: nat, j: nat, started: byte) returns (r: nat)
    requires rotateOff < MAX_MAC && j < MAX_MAC
    requires started == 0 || (started == ONES && rotateOff == 0)
    ensures r == if started == ONES then j else rotateOff
  {
    r := (ByteOf(rotateOff) | (ByteOf(j) & started)) as nat;
  }

  method OrMasked(slot: byte, b: byte, mask: byte) returns (r: byte)
    requires mask == 0 || (mask == ONES && slot == 0)
    ensures r == if mask == ONES then b else slot
  {
    r := slot | (b & mask);
  }

  /** Load slot r through both 32-byte halves of the ring and select by mask. */
  method LoadBothHalves(ring: array<byte>, r: nat) returns (b: byte)
    requires ring.Length == MAX_MAC && r < MAX_MAC
    ensures b == ring[r]
  {
    var lower, upper := ByteOf(r) & !32, ByteOf(r) | 32;
    assert lower as nat < MAX_MAC && upper as nat < MAX_MAC;
    assert lower as nat == r || upper as nat == r;
    var eqMask := IntMaskEq(lower as nat, r);
    b := MaskSelect(eqMask, ring[lower as nat], ring[upper as nat]);
  }

  method LowByte(good: bv64) returns (mask: byte)
    requires good == ALL_ONES || good == 0
    ensures mask == if good == 0 then 0 else ONES
  {
    mask := (good & 0xff) as byte;
  }

  lemma RingHasStart(ring: seq<byte>, start: nat, mac: seq<byte>)
    requires |mac| <= |ring| && RingHolds(ring, start, mac, |mac|)
    ensures start < |mac| && (|mac| > 0 ==> Ring(start, 0, |mac|) == start)
  {
  }

  lemma RingByte(ring: seq<byte>, start: nat, mac: seq<byte>, i: nat)
    requires i < |mac| <= |ring| && RingHolds(ring, start, mac, |mac|)
    ensures start < |mac| && Ring(start, i, |mac|) < |mac|
    ensures ring[Ring(start, i, |mac|)] == mac[i]
  {
  }

  /** Undo the rotation; for bad padding write the random MAC instead. */
  method UnrotateMac(rotatedMac: array<byte>, start: nat, mac: seq<byte>, good: bv64, randMac: seq<byte>)
      returns (tlsmac: array<byte>)
    requires rotatedMac.Length == MAX_MAC && 0 < |mac| <= MAX_MAC == |randMac|
    requires RingHolds(rotatedMac[..], start, mac, |mac|)
    requires good == ALL_ONES || good == 0
    ensures fresh(tlsmac) && tlsmac[..] == if good == 0 then randMac[..|mac|] else mac
  {
    hide RingHolds;
    RingHasStart(rotatedMac[..], start, mac);
    var rotateOff := start;
    var macSize := |mac|;
    var goodMask := LowByte(good);
    tlsmac := new byte[macSize](_ => 0);
    for i := 0 to macSize
      invariant rotateOff == Ring(start, i, macSize)
      invariant tlsmac[..i] == if good == 0 then randMac[..i] else mac[..i]
    {
      RingByte(rotatedMac[..], start, mac, i);
      var inPlace := LoadBothHalves(rotatedMac, rotateOff);
      var b := MaskSelect(goodMask, inPlace, randMac[i]);
      tlsmac[i] := b;
      assert tlsmac[..i + 1] == tlsmac[..i] + [b];
      rotateOff := NextSlot(rotateOff, macSize);
    }
  }

  /** The MAC before macEnd when good is all ones, the random MAC when it is zero; every byte
      that could be part of a MAC is scanned either way. */
  method ExtractMac(rec: seq<byte>, macEnd: nat, macSize: nat, good: bv64, randMac: seq<byte>)
      returns (tlsmac: array<byte>)
    requires 0 < macSize <= MAX_MAC == |randMac| && |rec| < 0x8000_0000
    requires macSize <= macEnd <= |rec| <= macEnd + 256
    requires good == ALL_ONES || good == 0
    ensures fresh(tlsmac)
    ensures tlsmac[..] == if good == 0 then randMac[..macSize] else rec[macEnd - macSize..macEnd]
  {
    var macStart := macEnd - macSize;
    var scanStart := 0;
    if |rec| > macSize + 255 + 1 {
      scanStart := |rec| - (macSize + 255 + 1);
    }
    var rotated, rotateOff := ScanMac(rec, scanStart, macStart, macSize);
    tlsmac := UnrotateMac(rotated, rotateOff, rec[macStart..macEnd], good, randMac);
  }
}
