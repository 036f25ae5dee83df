/** What a GCM context answers and emits over many messages: runs of initialisations, tags given and
    fetched, new IVs, updates and finals, in any order and with any of their allocations failing,
    outside TLS records. */
module GcmMessages {
  import opened Bytes
  import opened Gcm

  datatype Context = Context(g: Key, s: Session)

  /** How far an update gets: done, input not spooled for lack of memory, or spooled but not
      processed. */
  datatype Outcome = Done | NotSpooled | NotProcessed

  datatype Call =
    | Start(begun: bool, key: Option<Key>, iv: Option<seq<byte>>, enc: bool)
    | PutIv(other: seq<byte>)
    | GiveTag(tag: seq<byte>)
    | TagLength(n: nat)
    | FetchTag
    | Feed(op: Op, outcome: Outcome)
    | Final(allocOk: bool)

  /** An IV of the wrong length stops an initialisation; a good one replaces the last. Neither
      the tag slot nor a recorded rejection nor what was taken in is touched. */
  function Started(s: Session, iv: Option<seq<byte>>, enc: bool): (r: Session)
    requires ValidSession(s)
    ensures ValidSession(r)
  {
    if iv.Some? && |iv.value| != |s.iv| then s
    else s.(enc := enc, iv := if iv.Some? then iv.value else s.iv)
  }

  /** A given tag goes into the slot; only a decrypting context takes its length. */
  function WithTag(s: Session, tag: seq<byte>): (r: Session)
    requires ValidSession(s)
    ensures ValidSession(r)
  {
    if |tag| > TAG_LEN then s
    else
      var s' := s.(buf := tag + s.buf[|tag|..]);
      if tag == [] || s.enc then s' else s'.(tagLen := |tag|)
  }

  /** An update, with what it emits. */
  function Fed(g: Key, s: Session, op: Op, outcome: Outcome): (r: (Session, seq<byte>))
    requires ValidSession(s)
    ensures ValidSession(r.0)
  {
    match outcome
    case Done => Apply(g, s, op)
    case NotSpooled => (s, [])
    case NotProcessed => (if op.Data? then s.(data := s.data + op.bytes) else s, [])
  }

  /** Final needs memory for what was spooled, unless a tag is waiting or a rejection is recorded. */
  predicate OutOfMemory(s: Session, allocOk: bool) {
    !s.authErr && s.data != [] && !s.tagAvail && !allocOk
  }

  /** One call: the context after it, what it emits, and the answer of a final: nothing when it ran
      out of memory, else whether it accepts. */
  function Called(x: Context, call: Call): (r: (Context, seq<byte>, seq<Option<bool>>))
    requires ValidSession(x.s)
    ensures ValidSession(r.0.s)
  {
    match call
    case Start(begun, key, iv, enc) =>
      (if begun then Context(if key.Some? then key.value else x.g, Started(x.s, iv, enc)) else x, [], [])
    case PutIv(other) => (x.(s := x.s.(iv := other)), [], [])
    case GiveTag(tag) => (x.(s := WithTag(x.s, tag)), [], [])
    case TagLength(n) => (if 0 < n <= TAG_LEN then x.(s := x.s.(tagLen := n)) else x, [], [])
    case FetchTag => (x.(s := x.s.(tagAvail := false)), [], [])
    case Feed(op, outcome) =>
      var f := Fed(x.g, x.s, op, outcome);
      (x.(s := f.0), f.1, [])
    case Final(allocOk) =>
      if OutOfMemory(x.s, allocOk) then (x.(s := x.s.(aad := [], data := [])), [], [None])
      else
        var f := Finish(x.g, x.s);
        (x.(s := f.1), [], [Some(f.0)])
  }

  /** A run of calls. */
  function Calls(x: Context, calls: seq<Call>): (r: (Context, seq<byte>, seq<Option<bool>>))
    requires ValidSession(x.s)
    ensures ValidSession(r.0.s)
    decreases |calls|
  {
    if calls == [] then (x, [], [])
    else
      var first := Called(x, calls[0]);
      var rest := Calls(first.0, calls[1..]);
      (rest.0, first.1 + rest.1, first.2 + rest.2)
  }

  lemma {:induction false} CallsConcat(x: Context, a: seq<Call>, b: seq<Call>)
    requires ValidSession(x.s)
    ensures var r := Calls(x, a);
            var r' := Calls(r.0, b);
            Calls(x, a + b) == (r'.0, r.1 + r'.1, r.2 + r'.2)
    decreases |a|
  {
    if a == [] {
      assert a + b == b;
      var r := Calls(x, b);
      assert [] + r.1 == r.1 && [] + r.2 == r.2;
    } else {
      assert (a + b)[0] == a[0] && (a + b)[1..] == a[1..] + b;
      var first := Called(x, a[0]);
      CallsConcat(first.0, a[1..], b);
      hide Called;
      var rest := Calls(first.0, a[1..]);
      Associative(first.1, rest.1, Calls(rest.0, b).1);
      Associative(first.2, rest.2, Calls(rest.0, b).2);
    }
  }

  lemma OneCall(x: Context, call: Call)
    requires ValidSession(x.s)
    ensures Calls(x, [call]) == Called(x, call)
  {
    hide Called;
    var first := Called(x, call);
    assert Calls(first.0, [call][1..]) == (first.0, [], []);
    assert first.1 + [] == first.1 && first.2 + [] == first.2;
  }

  lemma NoCalls(x: Context)
    requires ValidSession(x.s)
    ensures Calls(x, []) == (x, [], [])
  {
  }

  predicate NoneRefused(answers: seq<Option<bool>>) {
    forall i | 0 <= i < |answers| :: answers[i] != Some(false)
  }

  // ---- what a final answers after any run ----

  /** A rejection is recorded exactly when some final of the run refused, or one before it. A final
      that ran out of memory does not count. */
  lemma {:induction false} RejectionIsRecorded(x: Context, calls: seq<Call>)
    requires ValidSession(x.s)
    ensures var r := Calls(x, calls);
            r.0.s.authErr <==> x.s.authErr || !NoneRefused(r.2)
    decreases |calls|
  {
    if calls != [] {
      var first := Called(x, calls[0]);
      RecordedByCall(x, calls[0]);
      RejectionIsRecorded(first.0, calls[1..]);
      NoneRefusedConcat(first.2, Calls(first.0, calls[1..]).2);
    }
  }

  lemma RecordedByCall(x: Context, call: Call)
    requires ValidSession(x.s)
    ensures var r := Called(x, call);
            r.0.s.authErr <==> x.s.authErr || !NoneRefused(r.2)
  {
    hide Tag, Cipher;
    if call.Final? {
      assert |Called(x, call).2| == 1;
      assert Called(x, call).2[0]
          == if OutOfMemory(x.s, call.allocOk) then None else Some(Finish(x.g, x.s).0);
    } else {
      assert NoneRefused(Called(x, call).2);
    }
  }

  lemma NoneRefusedConcat(a: seq<Option<bool>>, b: seq<Option<bool>>)
    ensures NoneRefused(a + b) <==> NoneRefused(a) && NoneRefused(b)
  {
    if !NoneRefused(a) {
      var i :| 0 <= i < |a| && a[i] == Some(false);
      assert (a + b)[i] == Some(false);
    }
    if !NoneRefused(b) {
      var i :| 0 <= i < |b| && b[i] == Some(false);
      assert (a + b)[|a| + i] == Some(false);
    }
  }

  /** What lets final accept: encryption, a tag of its own that was not fetched, or the right tag. */
  predicate Satisfied(x: Context)
    requires ValidSession(x.s)
  {
    x.s.enc || x.s.tagAvail || x.s.buf[..x.s.tagLen] == FullTag(x.g, x.s.iv, x.s.aad, x.s.data)[..x.s.tagLen]
  }

  /** After any run of calls, whatever keys, IVs, tags and messages it brought and whatever memory
      was missing, final accepts if and only if no final before it refused, it has the memory it
      needs, and the context is satisfied. Without the memory it does not answer; it refuses if a
      final before it refused, or it has the memory and is not satisfied. */
  lemma FinalAccepts(x: Context, calls: seq<Call>, allocOk: bool)
    requires ValidSession(x.s)
    ensures var r := Calls(x, calls);
            var clean := !x.s.authErr && NoneRefused(r.2);
            var memory := r.0.s.data == [] || r.0.s.tagAvail || allocOk;
            && Called(r.0, Final(allocOk)).2
               == [if !clean then Some(false) else if !memory then None else Some(Satisfied(r.0))]
  {
    hide Calls, Cipher;
    RejectionIsRecorded(x, calls);
  }

  /** Once a final has refused, every later final refuses: initialising again, with whatever key
      and IV, and giving the right tag make no difference. */
  lemma RejectionSticks(x: Context, calls: seq<Call>, allocOk: bool)
    requires ValidSession(x.s) && x.s.authErr
    ensures Called(Calls(x, calls).0, Final(allocOk)).2 == [Some(false)]
  {
    hide Calls;
    RejectionIsRecorded(x, calls);
  }

  // ---- messages ----

  /** A message to decrypt, with all that the receiver is given for it. */
  datatype Message = Message(key: Key, iv: seq<byte>, ops: seq<Op>, tag: seq<byte>)

  function Feeds(ops: seq<Op>): (r: seq<Call>)
    ensures |r| == |ops| && forall i | 0 <= i < |ops| :: r[i] == Feed(ops[i], Done)
  {
    seq(|ops|, i requires 0 <= i < |ops| => Feed(ops[i], Done))
  }

  function Opening(m: Message): Call {
    Start(true, Some(m.key), Some(m.iv), false)
  }

  function CallsOf(m: Message): seq<Call> {
    [Opening(m)] + Feeds(m.ops) + [GiveTag(m.tag)] + [Final(true)]
  }

  function AllCalls(ms: seq<Message>): seq<Call> {
    if ms == [] then [] else CallsOf(ms[0]) + AllCalls(ms[1..])
  }

  predicate Authentic(m: Message) {
    m.tag == FullTag(m.key, m.iv, AadOf(m.ops), DataOf(m.ops))[..if |m.tag| > TAG_LEN then TAG_LEN else |m.tag|]
  }

  /** What a receiver may be given: an IV of the set length and a tag of at most 16 bytes. */
  predicate Sendable(m: Message, ivLen: nat) {
    |m.iv| == ivLen && 0 < |m.tag| <= TAG_LEN
  }

  predicate Idle(s: Session) {
    ValidSession(s) && s.aad == [] && s.data == []
  }

  lemma {:induction false} FeedsAreRun(x: Context, ops: seq<Op>)
    requires ValidSession(x.s)
    ensures var r := Run(x.g, x.s, ops);
            Calls(x, Feeds(ops)) == (x.(s := r.0), r.1, [])
    decreases |ops|
  {
    hide Apply;
    if ops != [] {
      assert Feeds(ops)[1..] == Feeds(ops[1..]) && Feeds(ops)[0] == Feed(ops[0], Done);
      var first := Apply(x.g, x.s, ops[0]);
      var x1 := x.(s := first.0);
      FeedsAreRun(x1, ops[1..]);
      assert Called(x, Feeds(ops)[0]) == (x1, first.1, []);
      var none: seq<Option<bool>> := [];
      assert none + none == none;
    }
  }

  /** The first calls of a message: the context is initialised and fed. */
  lemma OpeningSteps(x: Context, m: Message)
    requires ValidSession(x.s)
    ensures var x1 := Called(x, Opening(m)).0;
            var f := Run(x1.g, x1.s, m.ops);
            Calls(x, [Opening(m)] + Feeds(m.ops)) == (x1.(s := f.0), f.1, [])
  {
    hide Calls, Run, Started;
    var x1 := Called(x, Opening(m)).0;
    OneCall(x, Opening(m));
    FeedsAreRun(x1, m.ops);
    CallsConcat(x, [Opening(m)], Feeds(m.ops));
    NothingAround(Run(x1.g, x1.s, m.ops).1, Calls(x, [Opening(m)]).2);
  }

  /** A message call by call: initialised, fed, given its tag, finished. */
  lemma MessageSteps(x: Context, m: Message)
    requires ValidSession(x.s)
    ensures var x1 := Called(x, Opening(m)).0;
            var f := Run(x1.g, x1.s, m.ops);
            var last := Called(Called(x1.(s := f.0), GiveTag(m.tag)).0, Final(true));
            Calls(x, CallsOf(m)) == (last.0, f.1, last.2)
  {
    hide Calls, Called, Run, Feeds;
    OpeningSteps(x, m);
    var begun := [Opening(m)] + Feeds(m.ops);
    var f := Calls(x, begun);
    var x3 := Called(f.0, GiveTag(m.tag)).0;
    SilentCalls(f.0, m.tag);
    SilentCalls(x3, m.tag);
    OneCall(f.0, GiveTag(m.tag));
    CallsConcat(x, begun, [GiveTag(m.tag)]);
    OneCall(x3, Final(true));
    CallsConcat(x, begun + [GiveTag(m.tag)], [Final(true)]);
    NothingAround(f.1, Called(x3, Final(true)).2);
  }

  lemma SilentCalls(x: Context, tag: seq<byte>)
    requires ValidSession(x.s)
    ensures Called(x, GiveTag(tag)).1 == [] && Called(x, GiveTag(tag)).2 == []
    ensures Called(x, Final(true)).1 == []
  {
  }

  lemma NothingAround<A, B>(a: seq<A>, b: seq<B>)
    ensures [] + a == a && a + [] == a && a + [] + [] == a && [] + b == b && [] + [] + b == b
  {
  }

  /** A message as the context takes it: what was left there is in front of it. */
  lemma TakenMessage(g: Key, s: Session, ops: seq<Op>)
    requires ValidSession(s) && !s.enc
    ensures var r := Run(g, s, ops);
            && r.0.aad == s.aad + AadOf(ops) && r.0.data == s.data + DataOf(ops) && !r.0.enc
            && r.0.iv == s.iv && r.0.authErr == s.authErr && r.0.tagAvail == s.tagAvail && r.0.buf == s.buf
            && r.1 == Cipher(g, s.iv, s.data + DataOf(ops))[|s.data|..]
  {
    hide Run, Cipher;
    RunResult(g, s, ops);
  }

  /** One message to an idle context: where it leaves it, what it emits, and its one answer. */
  lemma MessageResult(x: Context, m: Message)
    requires Idle(x.s) && Sendable(m, |x.s.iv|)
    ensures var r := Calls(x, CallsOf(m));
            && |r.0.s.iv| == |x.s.iv| && r.0.s.tagAvail == x.s.tagAvail
            && r.2 == [Some(!x.s.authErr && (x.s.tagAvail || Authentic(m)))]
            && r.0.s.authErr == (r.2[0] == Some(false))
            && (!x.s.authErr ==> Idle(r.0.s))
  {
    hide Calls, Run, AadOf, DataOf, Cipher;
    MessageSteps(x, m);
    var x1 := Called(x, Opening(m)).0;
    TakenMessage(x1.g, x1.s, m.ops);
    assert [] + AadOf(m.ops) == AadOf(m.ops) && [] + DataOf(m.ops) == DataOf(m.ops);
    var x2 := x1.(s := Run(x1.g, x1.s, m.ops).0);
    var x3 := Called(x2, GiveTag(m.tag)).0;
    assert x3.s.buf[..x3.s.tagLen] == m.tag;
  }

  /** After a rejection a message is refused, and what it brought stays in the context. */
  lemma RefusedMessage(x: Context, m: Message)
    requires ValidSession(x.s) && x.s.authErr && |m.iv| == |x.s.iv|
    ensures var r := Calls(x, CallsOf(m));
            && r.2 == [Some(false)] && r.0.s.authErr && |r.0.s.iv| == |x.s.iv|
            && r.0.s.data == x.s.data + DataOf(m.ops)
  {
    hide Calls, Run, Apply, Finish, Cipher;
    MessageSteps(x, m);
    var x1 := Called(x, Opening(m)).0;
    TakenMessage(x1.g, x1.s, m.ops);
    var x2 := x1.(s := Run(x1.g, x1.s, m.ops).0);
    var x3 := Called(x2, GiveTag(m.tag)).0;
    FinishRefused(x3.g, x3.s);
  }

  lemma FinishRefused(g: Key, s: Session)
    requires ValidSession(s) && s.authErr
    ensures Finish(g, s) == (false, s)
  {
  }

  /** With the memory they need, every message is accepted if and only if it and all before it are
      authentic, or the context has a tag of its own that was not fetched; after a rejection none is. */
  lemma {:induction false} MessagesAreAnswered(x: Context, ms: seq<Message>)
    requires Idle(x.s) && forall m | m in ms :: Sendable(m, |x.s.iv|)
    ensures var answers := Calls(x, AllCalls(ms)).2;
            && |answers| == |ms|
            && forall i | 0 <= i < |ms| ::
                 answers[i]
                 == Some(!x.s.authErr && (x.s.tagAvail || forall j | 0 <= j <= i :: Authentic(ms[j])))
    decreases |ms|
  {
    hide Calls, CallsOf, Authentic;
    if ms == [] {
      NoCalls(x);
    } else {
      var first, rest := CallsOf(ms[0]), ms[1..];
      MessageResult(x, ms[0]);
      CallsConcat(x, first, AllCalls(rest));
      var r := Calls(x, first);
      assert forall m | m in rest :: Sendable(m, |x.s.iv|);
      if r.0.s.authErr {
        RefusedMessages(r.0, rest);
      } else {
        MessagesAreAnswered(r.0, rest);
      }
      var answers, later := Calls(x, AllCalls(ms)).2, Calls(r.0, AllCalls(rest)).2;
      assert answers == r.2 + later;
      forall i | 0 <= i < |ms|
        ensures answers[i] == Some(!x.s.authErr && (x.s.tagAvail || forall j | 0 <= j <= i :: Authentic(ms[j])))
      {
        if i > 0 {
          assert answers[i] == later[i - 1];
          assert forall j | 0 <= j < i :: rest[j] == ms[j + 1];
          assert (forall j | 0 <= j <= i :: Authentic(ms[j]))
            <==> Authentic(ms[0]) && forall j | 0 <= j <= i - 1 :: Authentic(rest[j]);
        }
      }
    }
  }

  lemma {:induction false} RefusedMessages(x: Context, ms: seq<Message>)
    requires ValidSession(x.s) && x.s.authErr && forall m | m in ms :: |m.iv| == |x.s.iv|
    ensures var answers := Calls(x, AllCalls(ms)).2;
            |answers| == |ms| && forall i | 0 <= i < |ms| :: answers[i] == Some(false)
    decreases |ms|
  {
    hide Calls, CallsOf;
    if ms == [] {
      NoCalls(x);
    } else {
      CallsConcat(x, CallsOf(ms[0]), AllCalls(ms[1..]));
      RefusedMessage(x, ms[0]);
      RefusedMessages(Calls(x, CallsOf(ms[0])).0, ms[1..]);
    }
  }

  // ---- what messages emit ----

  /** What the messages leave in a context: the first one refused is dropped, all after it stay. */
  function Stale(refused: bool, ms: seq<Message>): seq<byte>
    decreases |ms|
  {
    if ms == [] then []
    else if refused then DataOf(ms[0].ops) + Stale(true, ms[1..])
    else Stale(!Authentic(ms[0]), ms[1..])
  }

  lemma {:induction false} StaleData(x: Context, ms: seq<Message>)
    requires ValidSession(x.s) && !x.s.tagAvail && forall m | m in ms :: Sendable(m, |x.s.iv|)
    requires x.s.authErr || Idle(x.s)
    ensures var y := Calls(x, AllCalls(ms)).0;
            |y.s.iv| == |x.s.iv| && y.s.data == x.s.data + Stale(x.s.authErr, ms)
    decreases |ms|
  {
    hide Calls, CallsOf, Authentic, DataOf;
    if ms == [] {
      NoCalls(x);
    } else {
      CallsConcat(x, CallsOf(ms[0]), AllCalls(ms[1..]));
      var y := Calls(x, CallsOf(ms[0])).0;
      assert Sendable(ms[0], |x.s.iv|);
      if x.s.authErr {
        RefusedMessage(x, ms[0]);
        TagStays(x, ms[0]);
        Associative(x.s.data, DataOf(ms[0].ops), Stale(true, ms[1..]));
      } else {
        MessageResult(x, ms[0]);
        assert y.s.data == [] && [] + Stale(!Authentic(ms[0]), ms[1..]) == Stale(!Authentic(ms[0]), ms[1..]);
      }
      StaleData(y, ms[1..]);
    }
  }

  lemma TagStays(x: Context, m: Message)
    requires ValidSession(x.s) && |m.iv| == |x.s.iv|
    ensures Calls(x, CallsOf(m)).0.s.tagAvail == x.s.tagAvail
  {
    hide Calls, Run, Apply, Cipher, Tag;
    MessageSteps(x, m);
    var x1 := Called(x, Opening(m)).0;
    TakenMessage(x1.g, x1.s, m.ops);
  }

  /** A message is deciphered behind what the messages before it left; what it emits is the message's
      own, under every key, if and only if it has no data, or that fills whole turns of the keystream. */
  lemma MessageIsEmitted(x: Context, ms: seq<Message>, m: Message)
    requires Idle(x.s) && !x.s.tagAvail && !x.s.authErr
    requires Sendable(m, |x.s.iv|) && forall m' | m' in ms :: Sendable(m', |x.s.iv|)
    ensures var stale, own := Stale(false, ms), DataOf(m.ops);
            && Calls(Calls(x, AllCalls(ms)).0, CallsOf(m)).1 == Cipher(m.key, m.iv, stale + own)[|stale|..]
            && ((forall g: Key :: Cipher(g, m.iv, stale + own)[|stale|..] == Cipher(g, m.iv, own))
                <==> own == [] || |stale| % PERIOD == 0)
  {
    hide Calls, Run, Apply, Finish, Cipher, AllCalls, CallsOf, DataOf, Stale;
    var stale := Stale(false, ms);
    StaleData(x, ms);
    assert [] + stale == stale;
    var y := Calls(x, AllCalls(ms)).0;
    MessageSteps(y, m);
    var x1 := Called(y, Opening(m)).0;
    TakenMessage(x1.g, x1.s, m.ops);
    CipherBehind(m.iv, stale, DataOf(m.ops));
  }

  // ---- inputs on which the answer is not the tag's, or the output not the message ----

  function NewSession(ivLen: nat): (s: Session)
    ensures Fresh(s)
  {
    Session(false, Repeat(0, ivLen), TAG_LEN, [], [], Repeat(0, TAG_LEN), false, false)
  }

  /** One ciphertext byte with its right tag, and with a tag in which one bit is flipped. */
  function RightMessage(g: Key, ct: byte): Message {
    Message(g, Repeat(0, 12), [Data([ct])], FullTag(g, Repeat(0, 12), [], [ct]))
  }

  function WrongMessage(g: Key, ct: byte): (m: Message)
  {
    var right := RightMessage(g, ct);
    right.(tag := right.tag[0 := right.tag[0] ^ 1])
  }

  lemma RightAndWrong(g: Key, ct: byte)
    ensures var right, wrong := RightMessage(g, ct), WrongMessage(g, ct);
            && Authentic(right) && !Authentic(wrong) && Sendable(right, 12) && Sendable(wrong, 12)
            && DataOf(right.ops) == DataOf(wrong.ops) == [ct]
  {
    var right, wrong := RightMessage(g, ct), WrongMessage(g, ct);
    OneUpdate(ct);
    FlippedBit(right.tag[0]);
    assert right.tag[..TAG_LEN] == right.tag && wrong.tag[0] != right.tag[0];
  }

  lemma FlippedBit(b: byte)
    ensures b ^ 1 != b
  {
  }

  lemma OneUpdate(b: byte)
    ensures AadOf([Data([b])]) == [] && DataOf([Data([b])]) == [b]
  {
    assert [Data([b])][1..] == [];
  }

  /** A wrong tag, then the same message with its right tag, which is refused although a new context
      accepts it. */
  lemma RightTagIsRefused(g: Key, ct: byte)
    ensures var x, right, wrong := Context(g, NewSession(12)), RightMessage(g, ct), WrongMessage(g, ct);
            && Calls(x, AllCalls([right])).2 == [Some(true)]
            && Calls(x, AllCalls([wrong, right])).2 == [Some(false), Some(false)]
  {
    hide Calls, AllCalls, Authentic, RightMessage, WrongMessage;
    var x, right, wrong := Context(g, NewSession(12)), RightMessage(g, ct), WrongMessage(g, ct);
    RightAndWrong(g, ct);
    MessagesAreAnswered(x, [right]);
    MessagesAreAnswered(x, [wrong, right]);
    assert [wrong, right][0] == wrong;
  }

  /** A wrong tag and two right messages: the last one is deciphered behind the second. */
  lemma ThirdMessage(g: Key, ct: byte)
    ensures var x, right, wrong := Context(g, NewSession(12)), RightMessage(g, ct), WrongMessage(g, ct);
            Calls(Calls(x, AllCalls([wrong, right])).0, CallsOf(right)).1
            == Cipher(g, Repeat(0, 12), [ct] + [ct])[1..]
  {
    var x, right, wrong := Context(g, NewSession(12)), RightMessage(g, ct), WrongMessage(g, ct);
    assert right.key == g && right.iv == Repeat(0, 12);
    hide Calls, AllCalls, CallsOf, Authentic, RightMessage, WrongMessage, Cipher, DataOf, IsGcmKey;
    RightAndWrong(g, ct);
    MessageIsEmitted(x, [wrong, right], right);
    assert [wrong, right][1..] == [right] && [right][1..] == [];
    assert Stale(true, []) == [] && [ct] + [] == [ct];
    assert Stale(true, [right]) == [ct] && Stale(false, [wrong, right]) == [ct];
  }

  /** Under the key whose keystream is zero except for its first byte it comes out wrong. */
  lemma LaterMessageIsGarbled(ct: byte) returns (g: Key)
    ensures var x, right, wrong := Context(g, NewSession(12)), RightMessage(g, ct), WrongMessage(g, ct);
            Calls(Calls(x, AllCalls([wrong, right])).0, CallsOf(right)).1 != Cipher(g, Repeat(0, 12), [ct])
  {
    g := MarkedKey();
    hide Calls, AllCalls, CallsOf, RightMessage, WrongMessage, Cipher, IsGcmKey, Gctr;
    ThirdMessage(g, ct);
    MarkedKeyDiffers(Repeat(0, 12), [ct], [ct]);
  }

  /** A right message without the memory to check it is not answered, and dropped without being
      recorded: the next one is accepted. */
  lemma MissingMemoryIsForgotten(g: Key, ct: byte)
    ensures var x, right := Context(g, NewSession(12)), RightMessage(g, ct);
            var tried := [Opening(right)] + Feeds(right.ops) + [Final(false)];
            Calls(x, tried + CallsOf(right)).2 == [None, Some(true)]
  {
    hide Calls, CallsOf, Authentic, Run, Cipher, DataOf, AadOf;
    var x, right := Context(g, NewSession(12)), RightMessage(g, ct);
    var begin, feeds := [Opening(right)], Feeds(right.ops);
    RightAndWrong(g, ct);
    var x1 := Called(x, Opening(right)).0;
    OneCall(x, Opening(right));
    FeedsAreRun(x1, right.ops);
    TakenMessage(x1.g, x1.s, right.ops);
    CallsConcat(x, begin, feeds);
    var x2 := x1.(s := Run(x1.g, x1.s, right.ops).0);
    OneCall(x2, Final(false));
    CallsConcat(x, begin + feeds, [Final(false)]);
    var x3 := Called(x2, Final(false)).0;
    assert x2.s.data == [] + [ct];
    assert OutOfMemory(x2.s, false);
    MessageResult(x3, right);
    CallsConcat(x, begin + feeds + [Final(false)], CallsOf(right));
    var none: seq<Option<bool>> := [];
    assert none + none + [None] == [None];
    assert [None] + [Some(true)] == [None, Some(true)];
  }

  /** A message is encrypted and its tag not fetched: then the next one to be decrypted is
      accepted whatever its tag, and only if its tag is right once the first one is fetched. */
  lemma UnfetchedTagAcceptsAny(g: Key, p: byte, m: Message)
    requires Sendable(m, 12)
    ensures var x, iv := Context(g, NewSession(12)), Repeat(0, 12);
            var sent := [Start(true, Some(g), Some(iv), true), Feed(Data([p]), Done), Final(true)];
            && Calls(x, sent + CallsOf(m)).2 == [Some(true), Some(true)]
            && Calls(x, sent + [FetchTag] + CallsOf(m)).2 == [Some(true), Some(Authentic(m))]
  {
    hide Calls, CallsOf, Authentic, Tag;
    var x, iv := Context(g, NewSession(12)), Repeat(0, 12);
    var sent := [Start(true, Some(g), Some(iv), true), Feed(Data([p]), Done), Final(true)];
    var x1 := SentOne(x, iv, p);
    CallsConcat(x, sent, CallsOf(m));
    MessageResult(x1, m);
    CallsConcat(x, sent, [FetchTag]);
    CallsConcat(x, sent + [FetchTag], CallsOf(m));
    OneCall(x1, FetchTag);
    MessageResult(Called(x1, FetchTag).0, m);
    var none: seq<Option<bool>> := [];
    assert [Some(true)] + none == [Some(true)];
  }

  lemma SentOne(x: Context, iv: seq<byte>, p: byte) returns (x': Context)
    requires Fresh(x.s) && |iv| == |x.s.iv|
    ensures var r := Calls(x, [Start(true, Some(x.g), Some(iv), true), Feed(Data([p]), Done), Final(true)]);
            r.0 == x' && r.2 == [Some(true)]
    ensures Idle(x'.s) && x'.s.tagAvail && !x'.s.authErr && x'.g == x.g && |x'.s.iv| == |iv|
  {
    hide Calls, Tag, Cipher;
    var a, b, c := Start(true, Some(x.g), Some(iv), true), Feed(Data([p]), Done), Final(true);
    assert [a, b, c] == [a] + [b] + [c];
    var x1 := Called(x, a).0;
    var x2 := Called(x1, b).0;
    OneCall(x, a);
    OneCall(x1, b);
    CallsConcat(x, [a], [b]);
    OneCall(x2, c);
    CallsConcat(x, [a] + [b], [c]);
    x' := Called(x2, c).0;
    var none: seq<Option<bool>> := [];
    assert none + none + [Some(true)] == [Some(true)];
  }
}
