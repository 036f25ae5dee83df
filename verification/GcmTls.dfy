/** AES-GCM records of TLS 1.2. */
module GcmTls {
  import opened Bytes
  import opened Gcm

  const AAD_LEN: nat := 13

  /** The 16-bit length field that ends the additional data. */
  function LengthField(n: nat): (r: seq<byte>)
    requires n < 0x1_0000
    ensures |r| == 2
  {
    [ByteOf(n / 256), ByteOf(n % 256)]
  }

  function FieldValue(field: seq<byte>): nat
    requires |field| == 2
  {
    field[0] as nat * 256 + field[1] as nat
  }

  /** The additional data with the record length corrected to that of the plaintext: less the
      explicit IV, and on the receiving side less the tag. */
  function CorrectedAad(enc: bool, aad: seq<byte>, tagLen: nat): Option<seq<byte>> {
    if |aad| != AAD_LEN then None
    else
      var len := FieldValue(aad[AAD_LEN - 2..]);
      var overhead := EXPLICIT_IV + if enc then 0 else tagLen;
      if len < overhead then None
      else
        FieldBound(aad[AAD_LEN - 2..]);
        Some(aad[..AAD_LEN - 2] + LengthField(len - overhead))
  }

  lemma FieldBound(field: seq<byte>)
    requires |field| == 2
    ensures FieldValue(field) < 0x1_0000
  {
  }

  /** The length field is a big-endian number. */
  lemma FieldIsBigEndian(n: nat, field: seq<byte>)
    requires n < 0x1_0000 && |field| == 2
    ensures BigEndian(LengthField(n)) == n && FieldValue(field) == BigEndian(field)
  {
    hide ByteOf;
    TwoDigits(LengthField(n));
    TwoDigits(field);
  }

  lemma TwoDigits(s: seq<byte>)
    requires |s| == 2
    ensures BigEndian(s) == s[0] as nat * 256 + s[1] as nat
  {
    assert s[..1] == [s[0]] && s[..1][..0] == [];
    assert BigEndian(s[..1]) == s[0] as nat;
  }

  /** The header is taken when it has 13 bytes, and its length has room for the explicit IV and, on
      the receiving side, the tag; then only the length is changed, by that much. */
  lemma CorrectedExactly(enc: bool, aad: seq<byte>, tagLen: nat)
    ensures CorrectedAad(enc, aad, tagLen).Some?
       <==> |aad| == 13 && 8 + (if enc then 0 else tagLen) <= BigEndian(aad[11..])
    ensures CorrectedAad(enc, aad, tagLen).Some? ==>
              var r := CorrectedAad(enc, aad, tagLen).value;
              && |r| == 13 && r[..11] == aad[..11]
              && BigEndian(r[11..]) == BigEndian(aad[11..]) - 8 - if enc then 0 else tagLen
  {
    hide BigEndian, LengthField, FieldValue;
    if |aad| == 13 {
      var field := aad[11..];
      FieldBound(field);
      FieldIsBigEndian(0, field);
      if 8 + (if enc then 0 else tagLen) <= FieldValue(field) {
        var n := FieldValue(field) - 8 - if enc then 0 else tagLen;
        FieldIsBigEndian(n, field);
        assert (aad[..11] + LengthField(n))[11..] == LengthField(n);
      }
    }
  }

  /** Both ends authenticate the same additional data: the header with the plaintext length. */
  lemma BothEndsAgree(header: seq<byte>, n: nat)
    requires |header| == AAD_LEN - 2 && n + EXPLICIT_IV + TAG_LEN < 0x1_0000
    ensures CorrectedAad(true, header + LengthField(n + EXPLICIT_IV), TAG_LEN) == Some(header + LengthField(n))
    ensures CorrectedAad(false, header + LengthField(n + EXPLICIT_IV + TAG_LEN), TAG_LEN)
         == Some(header + LengthField(n))
  {
    hide LengthField, FieldValue;
    FieldRoundTrip(header, n + EXPLICIT_IV);
    FieldRoundTrip(header, n + EXPLICIT_IV + TAG_LEN);
  }

  lemma FieldRoundTrip(header: seq<byte>, n: nat)
    requires |header| == AAD_LEN - 2 && n < 0x1_0000
    ensures var aad := header + LengthField(n);
            aad[AAD_LEN - 2..] == LengthField(n) && aad[..AAD_LEN - 2] == header
    ensures FieldValue(LengthField(n)) == n
  {
    hide ByteOf;
  }

  /** What the sender's record call puts in place: explicit IV, ciphertext, tag. */
  function Sealed(g: Key, iv: seq<byte>, aad: seq<byte>, plain: seq<byte>): (r: seq<byte>)
    requires |iv| >= EXPLICIT_IV
    ensures |r| == EXPLICIT_IV + |plain| + TAG_LEN
  {
    var ct := Cipher(g, iv, plain);
    iv[|iv| - EXPLICIT_IV..] + ct + FullTag(g, iv, aad, ct)
  }

  /** The receiver's nonce: its own fixed part and the explicit part of the record. */
  function ReceiverIv(iv: seq<byte>, record: seq<byte>): (r: seq<byte>)
    requires |iv| >= EXPLICIT_IV && |record| >= EXPLICIT_IV
    ensures |r| == |iv|
  {
    iv[..|iv| - EXPLICIT_IV] + record[..EXPLICIT_IV]
  }

  function Opened(g: Key, iv: seq<byte>, aad: seq<byte>, record: seq<byte>): Option<seq<byte>>
    requires |iv| >= EXPLICIT_IV && |record| >= EXPLICIT_IV + TAG_LEN
  {
    var iv' := ReceiverIv(iv, record);
    var ct := record[EXPLICIT_IV..|record| - TAG_LEN];
    if FullTag(g, iv', aad, ct) == record[|record| - TAG_LEN..] then Some(Cipher(g, iv', ct)) else None
  }

  /** The parts of a record: the end of the nonce, the ciphertext, and its full tag. */
  lemma SealedParts(g: Key, iv: seq<byte>, aad: seq<byte>, plain: seq<byte>)
    requires |iv| >= 8
    ensures var record, n := Sealed(g, iv, aad, plain), |plain|;
            && |record| == 8 + n + 16 && record[..8] == iv[|iv| - 8..]
            && record[8..8 + n] == Cipher(g, iv, plain)
            && record[8 + n..] == FullTag(g, iv, aad, Cipher(g, iv, plain))
  {
    hide Cipher;
  }

  /** A record opens if and only if its last sixteen bytes are the tag of the bytes between, under the
      receiver's nonce with its end replaced by the first eight; then it opens to their plaintext. */
  lemma OpenedExactly(g: Key, iv: seq<byte>, aad: seq<byte>, record: seq<byte>)
    requires |iv| >= 8 && |record| >= 24
    ensures var nonce, ct := iv[..|iv| - 8] + record[..8], record[8..|record| - 16];
            && (Opened(g, iv, aad, record).Some? <==> record[|record| - 16..] == FullTag(g, nonce, aad, ct))
            && (Opened(g, iv, aad, record).Some? ==> Opened(g, iv, aad, record).value == Cipher(g, nonce, ct))
  {
    hide Cipher;
  }

  /** With equal fixed parts the receiver rebuilds the sender's nonce and gets the plaintext. */
  lemma RecordRoundTrip(g: Key, iv: seq<byte>, iv': seq<byte>, aad: seq<byte>, plain: seq<byte>)
    requires |iv| == |iv'| >= EXPLICIT_IV
    requires iv[..|iv| - EXPLICIT_IV] == iv'[..|iv| - EXPLICIT_IV]
    ensures ReceiverIv(iv', Sealed(g, iv, aad, plain)) == iv
    ensures Opened(g, iv', aad, Sealed(g, iv, aad, plain)) == Some(plain)
  {
    hide Cipher;
    var record, ct := Sealed(g, iv, aad, plain), Cipher(g, iv, plain);
    assert record[..EXPLICIT_IV] == iv[|iv| - EXPLICIT_IV..];
    assert record[EXPLICIT_IV..|record| - TAG_LEN] == ct;
    assert record[|record| - TAG_LEN..] == FullTag(g, iv, aad, ct);
    CipherInvolution(g, iv, plain);
  }

  /** Both ends together: from equal headers and fixed parts to the plaintext. */
  lemma TlsRoundTrip(g: Key, iv: seq<byte>, iv': seq<byte>, header: seq<byte>, plain: seq<byte>)
    requires |header| == AAD_LEN - 2 && |plain| + EXPLICIT_IV + TAG_LEN < 0x1_0000
    requires |iv| == |iv'| >= EXPLICIT_IV && iv[..|iv| - EXPLICIT_IV] == iv'[..|iv| - EXPLICIT_IV]
    ensures var n := |plain|;
            var sent := CorrectedAad(true, header + LengthField(n + EXPLICIT_IV), TAG_LEN);
            var record := Sealed(g, iv, sent.value, plain);
            var got := CorrectedAad(false, header + LengthField(|record|), TAG_LEN);
            sent.Some? && got.Some? && Opened(g, iv', got.value, record) == Some(plain)
  {
    hide CorrectedAad, Opened, ReceiverIv, LengthField;
    BothEndsAgree(header, |plain|);
    RecordRoundTrip(g, iv, iv', header + LengthField(|plain|), plain);
  }
}
