/** The nonces of TLS 1.2 records sealed by one GCM context, over runs of every call that can
    change them. */
module RecordRuns {
  import opened Bytes
  import opened Gcm
  import opened GcmTls

  /** What the record calls of a context depend on: the key, the IV and the bytes of its buffer
      behind it, and the flags. */
  datatype Line = Line(key: Key, iv: seq<byte>, spare: seq<byte>, enc: bool, ivGen: bool, keySet: bool,
                       header: bool, records: nat)

  /** What a record was sealed under. */
  datatype Use = Use(key: Key, nonce: seq<byte>)

  /** A whole IV, or the part of it that stays fixed. */
  datatype FixedIv = Restored(iv: seq<byte>) | Fixed(part: seq<byte>)

  datatype Op =
    | Header(aad: seq<byte>, running: bool)
    | Record(bytes: seq<byte>, inPlace: bool, running: bool)
    | FixIv(given: FixedIv, random: seq<byte>, drawn: bool)
    | Restart(newKey: Option<Key>, newIv: Option<seq<byte>>, enc: bool, started: bool)
    | HandOut(inc: bool)
    | Receive(part: seq<byte>)
    | SetLength(n: nat)

  predicate ValidLine(s: Line) {
    0 < |s.iv| && |s.iv| + |s.spare| == BLOCK
  }

  /** What callers must see to: an IV long enough for its field where that is used, and parts that
      fit the buffer. */
  predicate Legal(s: Line, op: Op) {
    && ValidLine(s)
    && match op
       case Record(_, _, _) => s.header ==> EXPLICIT_IV <= |s.iv|
       case FixIv(Restored(iv), _, _) => |iv| == |s.iv|
       case FixIv(Fixed(part), random, _) => |part| <= BLOCK && |random| == |s.iv|
       case HandOut(inc) => inc ==> EXPLICIT_IV <= |s.iv|
       case Receive(part) => |part| <= |s.iv|
       case _ => true
  }

  /** The guard on a fixed part, with the subtraction of unsigned 64-bit numbers the code makes. */
  predicate GuardPasses(ivLen: nat, partLen: nat) {
    4 <= partLen && (ivLen - partLen) % SIZE64 >= EXPLICIT_IV
  }

  /** It leaves room for the field unless the part is longer than the IV: then the difference
      wraps and the guard passes too. */
  lemma GuardLeavesRoomUnlessLonger(ivLen: nat, partLen: nat)
    requires ivLen <= BLOCK && partLen < 0x8000_0000
    ensures GuardPasses(ivLen, partLen) <==> 4 <= partLen && (partLen + EXPLICIT_IV <= ivLen || ivLen < partLen)
    ensures (GuardPasses(ivLen, partLen) <==> 4 <= partLen && partLen + EXPLICIT_IV <= ivLen)
       <==> partLen <= ivLen || partLen < 4
  {
  }

  /** Whether a fixed part is taken over: the sender's library must draw the rest, and refuses a
      part that leaves none. */
  predicate Fixes(s: Line, part: seq<byte>, drawn: bool) {
    GuardPasses(|s.iv|, |part|) && (s.enc ==> drawn && |part| <= |s.iv|)
  }

  /** A line whose buffer starts with other bytes. */
  function WithStart(s: Line, bytes: seq<byte>): (r: Line)
    requires ValidLine(s) && |bytes| <= BLOCK
    ensures ValidLine(r) && |r.iv| == |s.iv| && r == s.(iv := r.iv, spare := r.spare)
  {
    var all := bytes + (s.iv + s.spare)[|bytes|..];
    s.(iv := all[..|s.iv|], spare := all[|s.iv|..])
  }

  /** What a fixed part puts in place: the sender's rest is random. */
  function FixedStart(s: Line, part: seq<byte>, random: seq<byte>): (r: seq<byte>)
    requires ValidLine(s) && |part| <= BLOCK && |random| == |s.iv| && (s.enc ==> |part| <= |s.iv|)
    ensures |r| <= BLOCK
  {
    if s.enc then part + random[|part|..] else part
  }

  /** A record is long enough, in place, and met by a context with a key. */
  predicate Acceptable(s: Line, bytes: seq<byte>, inPlace: bool, running: bool) {
    running && s.keySet && inPlace && EXPLICIT_IV + TAG_LEN <= |bytes|
  }

  /** An initialisation ends any record, unless its IV has the wrong length; a key is set before. */
  function Restarted(s: Line, newKey: Option<Key>, newIv: Option<seq<byte>>, enc: bool): (r: Line)
    ensures |r.iv| == |s.iv| && r.spare == s.spare
  {
    var s' := s.(key := if newKey.Some? then newKey.value else s.key);
    if newIv.Some? && |newIv.value| != |s.iv| then s'
    else s'.(iv := if newIv.Some? then newIv.value else s.iv, enc := enc, keySet := s.keySet || newKey.Some?,
             header := false)
  }

  /** The length is 1 to 16; the bytes of the buffer stay, and the IV is as many of them. */
  function Resized(s: Line, n: nat): (r: Line)
    requires ValidLine(s)
    ensures ValidLine(r)
  {
    if n == 0 || n > BLOCK then s else s.(iv := (s.iv + s.spare)[..n], spare := (s.iv + s.spare)[n..])
  }

  /** One call, and what it sealed a record under, if it did. */
  function Next(s: Line, op: Op): (r: (Line, Option<Use>))
    requires Legal(s, op)
    ensures ValidLine(r.0)
  {
    match op
    case Header(aad, running) =>
      (if running && |aad| == AAD_LEN then s.(header := true, records := 0) else s, None)
    case Record(bytes, inPlace, running) =>
      if !s.header then (s, None)
      else
        var ok := Acceptable(s, bytes, inPlace, running);
        var records := if ok && s.enc then (s.records + 1) % SIZE64 else s.records;
        var s' := s.(header := false, records := records);
        if ok && s.enc then (s', if records != 0 && s.ivGen then Some(Use(s.key, s.iv)) else None)
        else (if ok && s.ivGen then s'.(iv := ReceiverIv(s.iv, bytes)) else s', None)
    case FixIv(Restored(iv), _, _) => (s.(iv := iv, ivGen := true), None)
    case FixIv(Fixed(part), random, drawn) =>
      if !GuardPasses(|s.iv|, |part|) then (s, None)
      else
        var s' := if Fixes(s, part, drawn) then WithStart(s, FixedStart(s, part, random)) else s;
        (s'.(ivGen := true), None)
    case Restart(newKey, newIv, enc, started) =>
      (if started then Restarted(s, newKey, newIv, enc) else s, None)
    case HandOut(inc) => (if s.ivGen && s.keySet && inc then s.(iv := NextIv(s.iv)) else s, None)
    case Receive(part) =>
      (if s.ivGen && s.keySet && !s.enc then s.(iv := s.iv[..|s.iv| - |part|] + part) else s, None)
    case SetLength(n) => (Resized(s, n), None)
  }

  lemma FixIvIs(s: Line, given: FixedIv, random: seq<byte>, drawn: bool)
    requires Legal(s, FixIv(given, random, drawn))
    ensures given.Restored? ==>
              Next(s, FixIv(given, random, drawn)).0 == WithStart(s, given.iv).(ivGen := true)
    ensures given.Fixed? ==>
              Next(s, FixIv(given, random, drawn)).0
              == if !GuardPasses(|s.iv|, |given.part|) then s
                 else if Fixes(s, given.part, drawn) then
                   WithStart(s, FixedStart(s, given.part, random)).(ivGen := true)
                 else s.(ivGen := true)
  {
    if given.Restored? {
      assert (given.iv + (s.iv + s.spare)[|given.iv|..])[..|s.iv|] == given.iv;
      assert (given.iv + (s.iv + s.spare)[|given.iv|..])[|s.iv|..] == s.spare;
    }
  }

  lemma HeaderIs(s: Line, aad: seq<byte>, running: bool)
    requires Legal(s, Header(aad, running))
    ensures Next(s, Header(aad, running)).0
         == if running && |aad| == AAD_LEN then s.(header := true, records := 0) else s
  {
  }

  lemma ReceiveIs(s: Line, part: seq<byte>)
    requires Legal(s, Receive(part))
    ensures Next(s, Receive(part)).0
         == if s.ivGen && s.keySet && !s.enc then s.(iv := s.iv[..|s.iv| - |part|] + part) else s
  {
  }

  /** A record call on a line whose count is in order. */
  lemma RecordIs(s: Line, bytes: seq<byte>, inPlace: bool, running: bool)
    requires Legal(s, Record(bytes, inPlace, running)) && s.header && Counted(s)
    ensures var ok := Acceptable(s, bytes, inPlace, running);
            var s' := s.(header := false, records := if ok && s.enc then 1 else s.records);
            Next(s, Record(bytes, inPlace, running)).0
            == if ok && !s.enc && s.ivGen then s'.(iv := ReceiverIv(s.iv, bytes)) else s'
  {
  }

  lemma HandOutIs(s: Line, inc: bool)
    requires Legal(s, HandOut(inc))
    ensures Next(s, HandOut(inc)).0 == if s.ivGen && s.keySet && inc then s.(iv := NextIv(s.iv)) else s
  {
  }

  lemma NotInPlaceIs(s: Line, bytes: seq<byte>, running: bool)
    requires Legal(s, Record(bytes, false, running))
    ensures Next(s, Record(bytes, false, running)).0 == s.(header := false)
  {
  }

  ghost predicate LegalRun(s: Line, ops: seq<Op>)
    decreases |ops|
  {
    ops == [] || (Legal(s, ops[0]) && LegalRun(Next(s, ops[0]).0, ops[1..]))
  }

  /** A run: where it leads, and what it sealed its records under. */
  function Run(s: Line, ops: seq<Op>): (r: (Line, seq<Use>))
    requires LegalRun(s, ops)
    decreases |ops|
  {
    if ops == [] then (s, [])
    else
      var first := Next(s, ops[0]);
      var rest := Run(first.0, ops[1..]);
      (rest.0, (if first.1.Some? then [first.1.value] else []) + rest.1)
  }

  // ---- the count of records ----

  predicate Counted(s: Line) {
    s.records <= 1 && (s.header ==> s.records == 0)
  }

  /** Every header starts the count of records again, so it is never above one and the check for
      too many records never refuses one. */
  lemma {:induction false} CountStaysLow(s: Line, ops: seq<Op>)
    requires LegalRun(s, ops) && Counted(s)
    ensures Counted(Run(s, ops).0)
    decreases |ops|
  {
    if ops != [] {
      hide WithStart, FixedStart, NextIv, ReceiverIv, Fixes, GuardPasses;
      CountStaysLow(Next(s, ops[0]).0, ops[1..]);
    }
  }

  lemma NeverTooMany(s: Line, op: Op)
    requires Legal(s, op) && Counted(s) && op.Record?
    ensures Next(s, op).1.Some?
       <==> s.header && s.enc && s.ivGen && op.running && s.keySet && op.inPlace && 24 <= |op.bytes|
  {
  }

  // ---- the nonces ----

  /** The calls that put a new IV in place. */
  predicate Renews(s: Line, op: Op)
    requires Legal(s, op)
  {
    match op
    case Header(_, _) => false
    case Record(bytes, inPlace, running) => s.header && !s.enc && s.ivGen && Acceptable(s, bytes, inPlace, running)
    case FixIv(Restored(_), _, _) => true
    case FixIv(Fixed(part), _, drawn) => Fixes(s, part, drawn)
    case Restart(_, newIv, _, started) => started && newIv.Some? && |newIv.value| == |s.iv|
    case HandOut(_) => false
    case Receive(_) => s.ivGen && s.keySet && !s.enc
    case SetLength(n) => 0 < n <= BLOCK && n != |s.iv|
  }

  predicate Counts(s: Line, op: Op) {
    op.HandOut? && op.inc && s.ivGen && s.keySet
  }

  /** What a sender does between records does not: headers, records, calls that count. */
  lemma SenderKeepsIv(s: Line, op: Op)
    requires Legal(s, op) && (op.Header? || op.HandOut? || (op.Record? && s.enc))
    ensures !Renews(s, op) && Next(s, op).0.iv == if Counts(s, op) then NextIv(s.iv) else s.iv
    ensures Counts(s, op) <==> op.HandOut? && op.inc && s.ivGen && s.keySet
  {
    IvOfCall(s, op);
  }

  /** The IV last put in place, and the incrementing calls since. */
  function Since(s: Line, ops: seq<Op>, base: seq<byte>, n: nat): (r: (seq<byte>, nat))
    requires LegalRun(s, ops)
    decreases |ops|
  {
    if ops == [] then (base, n)
    else
      var s' := Next(s, ops[0]).0;
      if Renews(s, ops[0]) then Since(s', ops[1..], s'.iv, 0)
      else Since(s', ops[1..], base, if Counts(s, ops[0]) then n + 1 else n)
  }

  /** An IV after n incrementing calls; one too short for the field has had none. */
  predicate Reached(iv: seq<byte>, base: seq<byte>, n: nat) {
    if n == 0 then iv == base else EXPLICIT_IV <= |base| && iv == IvAfter(base, n)
  }

  lemma {:induction false} IvIsCounted(s: Line, ops: seq<Op>, base: seq<byte>, n: nat)
    requires LegalRun(s, ops) && Reached(s.iv, base, n)
    ensures var b := Since(s, ops, base, n);
            Reached(Run(s, ops).0.iv, b.0, b.1)
    decreases |ops|
  {
    if ops != [] {
      CallIsCounted(s, ops[0], base, n);
      hide Next, Renews, Counts, Legal, Reached, IsGcmKey;
      var s' := Next(s, ops[0]).0;
      if Renews(s, ops[0]) {
        IvIsCounted(s', ops[1..], s'.iv, 0);
      } else {
        IvIsCounted(s', ops[1..], base, if Counts(s, ops[0]) then n + 1 else n);
      }
    }
  }

  lemma CallIsCounted(s: Line, op: Op, base: seq<byte>, n: nat)
    requires Legal(s, op) && Reached(s.iv, base, n)
    ensures var iv := Next(s, op).0.iv;
            if Renews(s, op) then Reached(iv, iv, 0)
            else Reached(iv, base, if Counts(s, op) then n + 1 else n)
  {
    IvOfCall(s, op);
    hide Next, NextIv, Renews, IvAfter, Legal;
    if Counts(s, op) {
      OneMore(s.iv, base, n);
    }
  }

  lemma OneMore(iv: seq<byte>, base: seq<byte>, n: nat)
    requires Reached(iv, base, n) && EXPLICIT_IV <= |iv|
    ensures Reached(NextIv(iv), base, n + 1)
  {
    if n == 0 {
      IvAfterNothing(base);
    }
  }

  lemma IvOfCall(s: Line, op: Op)
    requires Legal(s, op)
    ensures !Renews(s, op) ==> Next(s, op).0.iv == if Counts(s, op) then NextIv(s.iv) else s.iv
    ensures Counts(s, op) ==> EXPLICIT_IV <= |s.iv| && !Renews(s, op)
  {
    hide NextIv, ReceiverIv, WithStart;
    if op.SetLength? {
      assert (s.iv + s.spare)[..|s.iv|] == s.iv;
    }
  }

  /** A record sealed after a run has the key and the nonce of one sealed before it if and only if the
      key is the same, and the IV last put in place has the same length and fixed part, and its field
      counts up to the old one again. */
  lemma SameNonceAgain(s: Line, ops: seq<Op>, first: Op, second: Op)
    requires Legal(s, first) && Next(s, first).1.Some?
    requires LegalRun(Next(s, first).0, ops)
    requires var t := Run(Next(s, first).0, ops).0;
             Legal(t, second) && Next(t, second).1.Some?
    ensures var s' := Next(s, first).0;
            var t, b, at := Run(s', ops).0, Since(s', ops, s.iv, 0), |s.iv| - EXPLICIT_IV;
            (Next(t, second).1 == Next(s, first).1
             <==> && t.key == s.key
                  && |b.0| == |s.iv| && b.0[..at] == s.iv[..at]
                  && (BigEndian(b.0[at..]) + b.1) % SIZE64 == BigEndian(s.iv[at..]))
  {
    hide Next, Legal, Run, Since, NextIv, BigEndian, IvAfter, Renews;
    var s' := Next(s, first).0;
    var t := Run(s', ops).0;
    SealedUnderIv(s, first);
    SealedUnderIv(t, second);
    IvIsCounted(s', ops, s.iv, 0);
    var b := Since(s', ops, s.iv, 0);
    ReachedIs(t.iv, b.0, b.1, s.iv);
  }

  lemma SealedUnderIv(s: Line, op: Op)
    requires Legal(s, op) && Next(s, op).1.Some?
    ensures Next(s, op).1 == Some(Use(s.key, s.iv)) && Next(s, op).0.iv == s.iv && EXPLICIT_IV <= |s.iv|
    ensures Next(s, op).0.key == s.key
  {
    hide NextIv, ReceiverIv, WithStart;
  }

  lemma ReachedIs(reached: seq<byte>, base: seq<byte>, n: nat, iv: seq<byte>)
    requires Reached(reached, base, n) && EXPLICIT_IV <= |iv| && EXPLICIT_IV <= |reached|
    ensures var at := |iv| - EXPLICIT_IV;
            (reached == iv
             <==> && |base| == |iv| && base[..at] == iv[..at]
                  && (BigEndian(base[at..]) + n) % SIZE64 == BigEndian(iv[at..]))
  {
    hide BigEndian;
    if |base| == |iv| {
      IvAfterIs(base, n, iv);
      IvAfterNothing(base);
    }
  }

  lemma IvAfterNothing(iv: seq<byte>)
    requires EXPLICIT_IV <= |iv|
    ensures IvAfter(iv, 0) == iv
  {
  }

  lemma IvAfterIs(base: seq<byte>, n: nat, iv: seq<byte>)
    requires EXPLICIT_IV <= |base| == |iv|
    ensures var at := |iv| - EXPLICIT_IV;
            (IvAfter(base, n) == iv
             <==> base[..at] == iv[..at] && (BigEndian(base[at..]) + n) % SIZE64 == BigEndian(iv[at..]))
  {
    hide IvAfter, Advanced, BigEndian, Pow256;
    var at := |iv| - EXPLICIT_IV;
    IvAfterNothing(base);
    IvAfterSplits(base, 0, n);
    IvAfterSplits(base, n, 0);
    AdvancedAdds(base[at..], n);
    InvocationRange();
    BigEndianInjective(Advanced(base[at..], n), iv[at..]);
    var r := IvAfter(base, n);
    assert r == r[..at] + r[at..] && iv == iv[..at] + iv[at..];
  }

  /** Nothing in the run puts a new IV in place. */
  ghost predicate KeepsIv(s: Line, ops: seq<Op>)
    requires LegalRun(s, ops)
    decreases |ops|
  {
    ops == [] || (!Renews(s, ops[0]) && KeepsIv(Next(s, ops[0]).0, ops[1..]))
  }

  function Handed(s: Line, ops: seq<Op>): nat
    requires LegalRun(s, ops)
    decreases |ops|
  {
    if ops == [] then 0
    else (if Counts(s, ops[0]) then 1 else 0) + Handed(Next(s, ops[0]).0, ops[1..])
  }

  lemma {:induction false} KeptSince(s: Line, ops: seq<Op>, base: seq<byte>, n: nat)
    requires LegalRun(s, ops) && KeepsIv(s, ops)
    ensures Since(s, ops, base, n) == (base, n + Handed(s, ops))
    decreases |ops|
  {
    hide Next, Renews, Counts;
    if ops != [] {
      KeptSince(Next(s, ops[0]).0, ops[1..], base, if Counts(s, ops[0]) then n + 1 else n);
    }
  }

  /** Nothing in the run sets a key. */
  ghost predicate KeepsKey(ops: seq<Op>) {
    forall op | op in ops :: !(op.Restart? && op.newKey.Some?)
  }

  lemma {:induction false} KeyIsKept(s: Line, ops: seq<Op>)
    requires LegalRun(s, ops) && KeepsKey(ops)
    ensures Run(s, ops).0.key == s.key
    decreases |ops|
  {
    if ops != [] {
      assert !(ops[0].Restart? && ops[0].newKey.Some?);
      KeyOfCall(s, ops[0]);
      hide Next, Legal;
      assert forall op | op in ops[1..] :: op in ops;
      KeyIsKept(Next(s, ops[0]).0, ops[1..]);
    }
  }

  lemma KeyOfCall(s: Line, op: Op)
    requires Legal(s, op) && !(op.Restart? && op.newKey.Some?)
    ensures Next(s, op).0.key == s.key
  {
    hide NextIv, ReceiverIv;
  }

  /** Under one key and one IV two records share their nonce exactly when a multiple of 2^64
      incrementing calls, none among them, lie between them: sealing does not move the field on. */
  lemma RecordsShareNonce(s: Line, ops: seq<Op>, first: Op, second: Op)
    requires Legal(s, first) && Next(s, first).1.Some?
    requires LegalRun(Next(s, first).0, ops) && KeepsIv(Next(s, first).0, ops) && KeepsKey(ops)
    requires var t := Run(Next(s, first).0, ops).0;
             Legal(t, second) && Next(t, second).1.Some?
    ensures var s' := Next(s, first).0;
            Next(Run(s', ops).0, second).1 == Next(s, first).1 <==> Handed(s', ops) % SIZE64 == 0
  {
    hide Next, Legal, Run, Since, BigEndian, KeepsIv, KeepsKey, Handed, Pow256;
    var s' := Next(s, first).0;
    SealedUnderIv(s, first);
    var field := s.iv[|s.iv| - EXPLICIT_IV..];
    SameNonceAgain(s, ops, first, second);
    KeyIsKept(s', ops);
    KeptSince(s', ops, s.iv, 0);
    BigEndianBound(field);
    InvocationRange();
    TurnIsWhole(BigEndian(field), Handed(s', ops), SIZE64);
  }

  /** Two empty records, each after its header, go out under the same nonce; with an incrementing
      call between them, or the IV made longer, they do not. */
  lemma TwoRecordsShareNonce(g: Key, aad: seq<byte>, record: seq<byte>)
    requires |aad| == AAD_LEN && |record| == EXPLICIT_IV + TAG_LEN
    ensures var s := Line(g, Repeat(0, 12), Repeat(0, 4), true, true, true, false, 0);
            var header, seal, n := Header(aad, true), Record(record, true, true), s.iv;
            var twice := [header, seal, header, seal];
            var counted := [header, seal, HandOut(true), header, seal];
            var longer := [header, seal, SetLength(16), header, seal];
            && LegalRun(s, twice) && Run(s, twice) == (s.(records := 1), [Use(g, n), Use(g, n)])
            && LegalRun(s, counted) && Run(s, counted).1 == [Use(g, n), Use(g, NextIv(n))] && NextIv(n) != n
            && LegalRun(s, longer) && Run(s, longer).1 == [Use(g, n), Use(g, Repeat(0, 16))]
  {
    hide NextIv, WithStart, ReceiverIv, Run, LegalRun, Resized;
    var s := Line(g, Repeat(0, 12), Repeat(0, 4), true, true, true, false, 0);
    var header, seal, n := Header(aad, true), Record(record, true, true), s.iv;
    var s1 := s.(records := 1);
    var s2, s3 := s1.(iv := NextIv(n)), s1.(iv := Repeat(0, 16), spare := []);
    LongerIv(s1);
    NoRun(s1);
    NoRun(s2);
    NoRun(s3);
    assert [Use(g, n)] + [Use(g, n)] == [Use(g, n), Use(g, n)];
    SealTwo(s1, s1, header, seal, []);
    SealTwo(s2, s2, header, seal, []);
    SealTwo(s3, s3, header, seal, []);
    RunOne(s1, HandOut(true), [header, seal]);
    RunOne(s1, SetLength(16), [header, seal]);
    assert [HandOut(true)] + [header, seal] == [HandOut(true), header, seal];
    assert [SetLength(16)] + [header, seal] == [SetLength(16), header, seal];
    SealTwo(s, s1, header, seal, [header, seal]);
    SealTwo(s, s1, header, seal, [HandOut(true), header, seal]);
    SealTwo(s, s1, header, seal, [SetLength(16), header, seal]);
    assert [header, seal] + [header, seal] == [header, seal, header, seal];
    assert [header, seal] + [HandOut(true), header, seal] == [header, seal, HandOut(true), header, seal];
    assert [header, seal] + [SetLength(16), header, seal] == [header, seal, SetLength(16), header, seal];
    NextIsOther(n);
  }

  lemma LongerIv(s: Line)
    requires s.iv == Repeat(0, 12) && s.spare == Repeat(0, 4)
    ensures Resized(s, 16) == s.(iv := Repeat(0, 16), spare := [])
  {
  }

  /** A header and a record that is sealed. */
  lemma SealTwo(s: Line, s1: Line, header: Op, seal: Op, rest: seq<Op>)
    requires ValidLine(s) && EXPLICIT_IV <= |s.iv| && s.enc && s.ivGen && s.keySet
    requires s1 == s.(records := 1, header := false)
    requires header.Header? && header.running && |header.aad| == AAD_LEN
    requires seal.Record? && Acceptable(s, seal.bytes, seal.inPlace, seal.running)
    requires LegalRun(s1, rest)
    ensures LegalRun(s, [header, seal] + rest)
    ensures Run(s, [header, seal] + rest) == (Run(s1, rest).0, [Use(s.key, s.iv)] + Run(s1, rest).1)
    ensures rest == [] ==> LegalRun(s, [header, seal]) && Run(s, [header, seal]) == (s1, [Use(s.key, s.iv)])
  {
    hide NextIv, WithStart, ReceiverIv, Run, LegalRun;
    assert Next(s, header).1 == None && Next(Next(s, header).0, seal) == (s1, Some(Use(s.key, s.iv)));
    RunTwo(s, header, seal, rest);
    assert rest == [] ==> Run(s1, rest) == (s1, []) by {
      NoRun(s1);
    }
    assert [header, seal] + [] == [header, seal];
    assert [Use(s.key, s.iv)] + [] == [Use(s.key, s.iv)];
  }

  lemma NoRun(s: Line)
    ensures LegalRun(s, []) && Run(s, []) == (s, [])
  {
  }

  lemma NextIsOther(iv: seq<byte>)
    requires EXPLICIT_IV <= |iv|
    ensures NextIv(iv) != iv
  {
    HandedOutFieldsAreDistinct(iv, 0, 1);
    assert IvAfter(iv, 1) == NextIv(IvAfter(iv, 0));
  }

  lemma RunOne(s: Line, op: Op, rest: seq<Op>)
    requires Legal(s, op) && LegalRun(Next(s, op).0, rest)
    ensures var r, r' := Next(s, op), Run(Next(s, op).0, rest);
            && LegalRun(s, [op] + rest)
            && Run(s, [op] + rest) == (r'.0, (if r.1.Some? then [r.1.value] else []) + r'.1)
  {
    hide Next;
    assert ([op] + rest)[1..] == rest;
  }

  lemma RunTwo(s: Line, a: Op, b: Op, rest: seq<Op>)
    requires Legal(s, a) && Next(s, a).1.None?
    requires Legal(Next(s, a).0, b) && Next(Next(s, a).0, b).1.Some?
    requires LegalRun(Next(Next(s, a).0, b).0, rest)
    ensures var r := Next(Next(s, a).0, b);
            && LegalRun(s, [a, b] + rest)
            && Run(s, [a, b] + rest) == (Run(r.0, rest).0, [r.1.value] + Run(r.0, rest).1)
  {
    hide Next, LegalRun, Run;
    RunOne(Next(s, a).0, b, rest);
    RunOne(s, a, [b] + rest);
    assert [a] + ([b] + rest) == [a, b] + rest;
    var r := Run(Next(s, a).0, [b] + rest);
    assert [] + r.1 == r.1;
  }
}
