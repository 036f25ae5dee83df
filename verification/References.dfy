/** Who holds a reference to which shared key: the bookkeeping that reference counts stand for. */
module References {
  import opened Bytes

  /** The two references a key exchange context can hold. */
  datatype Slots<+K> = Slots(key: Option<K>, peer: Option<K>)

  datatype Slot = KeySlot | PeerSlot

  function Held<K>(s: Slots<K>, slot: Slot): Option<K> {
    if slot == KeySlot then s.key else s.peer
  }

  function Put<K>(s: Slots<K>, slot: Slot, k: Option<K>): Slots<K> {
    if slot == KeySlot then s.(key := k) else s.(peer := k)
  }

  /** All keys ever made with their counts, the handles their owners have, the keys whose memory
      was given back, and the contexts that exist. */
  datatype World<!K, !C> = World(cnt: map<K, int>, owners: map<K, nat>, freed: set<K>, ctxs: map<C, Slots<K>>)

  ghost function Holders<K, C>(ctxs: map<C, Slots<K>>, slot: Slot, k: K): set<C> {
    set c | c in ctxs && Held(ctxs[c], slot) == Some(k)
  }

  /** The references to a key there are. */
  ghost function Outstanding<K, C>(w: World<K, C>, k: K): nat
    requires k in w.owners
  {
    w.owners[k] + |Holders(w.ctxs, KeySlot, k)| + |Holders(w.ctxs, PeerSlot, k)|
  }

  /** Every count is the number of references, a key is freed exactly when there are none, and no
      context points at a freed key. */
  ghost predicate Conserved<K, C>(w: World<K, C>) {
    && w.owners.Keys == w.cnt.Keys && w.freed <= w.cnt.Keys
    && (forall k | k in w.cnt :: w.cnt[k] == Outstanding(w, k) && (k in w.freed <==> w.cnt[k] == 0))
    && (forall c, slot | c in w.ctxs && Held(w.ctxs[c], slot).Some? ::
          Held(w.ctxs[c], slot).value in w.cnt && Held(w.ctxs[c], slot).value !in w.freed)
  }

  ghost function Live<K, C>(w: World<K, C>): set<K> {
    w.cnt.Keys - w.freed
  }

  // ---- the elementary changes ----

  ghost function Inc<K, C>(w: World<K, C>, k: K): World<K, C>
    requires k in Live(w)
  {
    w.(cnt := w.cnt[k := w.cnt[k] + 1])
  }

  /** Count down, and give the memory back at zero. Never done to a freed key. */
  ghost function Dec<K, C>(w: World<K, C>, k: K): World<K, C>
    requires k in Live(w)
  {
    var n := w.cnt[k] - 1;
    w.(cnt := w.cnt[k := n], freed := if n == 0 then w.freed + {k} else w.freed)
  }

  ghost function SetSlot<K, C>(w: World<K, C>, c: C, slot: Slot, k: Option<K>): World<K, C>
    requires c in w.ctxs
  {
    w.(ctxs := w.ctxs[c := Put(w.ctxs[c], slot, k)])
  }

  /** Let go of what a slot holds. */
  ghost function Drop<K, C>(w: World<K, C>, c: C, slot: Slot): World<K, C>
    requires c in w.ctxs
    requires Held(w.ctxs[c], slot).Some? ==> Held(w.ctxs[c], slot).value in Live(w)
  {
    match Held(w.ctxs[c], slot)
    case None => w
    case Some(k) => SetSlot(Dec(w, k), c, slot, None)
  }

  ghost function Take<K, C>(w: World<K, C>, c: C, slot: Slot, k: K): World<K, C>
    requires c in w.ctxs && k in Live(w)
  {
    SetSlot(Inc(w, k), c, slot, Some(k))
  }

  lemma HoldersAfter<K, C>(ctxs: map<C, Slots<K>>, c: C, s: Slots<K>, slot: Slot, k: K)
    requires c in ctxs
    ensures |Holders(ctxs[c := s], slot, k)| == |Holders(ctxs, slot, k)|
                                                - (if Held(ctxs[c], slot) == Some(k) then 1 else 0)
                                                + (if Held(s, slot) == Some(k) then 1 else 0)
  {
    var rest := Holders(ctxs, slot, k) - {c};
    assert Holders(ctxs, slot, k) == if Held(ctxs[c], slot) == Some(k) then rest + {c} else rest;
    assert Holders(ctxs[c := s], slot, k) == if Held(s, slot) == Some(k) then rest + {c} else rest;
  }

  /** Changing one slot changes the references by what leaves it and what enters it. */
  lemma ReferencesAfter<K, C>(w: World<K, C>, c: C, slot: Slot, v: Option<K>, k: K)
    requires c in w.ctxs && k in w.owners
    ensures Outstanding(SetSlot(w, c, slot, v), k) == Outstanding(w, k)
                                                     - (if Held(w.ctxs[c], slot) == Some(k) then 1 else 0)
                                                     + (if v == Some(k) then 1 else 0)
  {
    var s := Put(w.ctxs[c], slot, v);
    HoldersAfter(w.ctxs, c, s, KeySlot, k);
    HoldersAfter(w.ctxs, c, s, PeerSlot, k);
  }

  lemma DropConserves<K, C>(w: World<K, C>, c: C, slot: Slot)
    requires Conserved(w) && c in w.ctxs
    ensures Held(w.ctxs[c], slot).Some? ==> Held(w.ctxs[c], slot).value in Live(w)
    ensures var w' := Drop(w, c, slot);
            && Conserved(w') && w'.owners == w.owners && w.freed <= w'.freed
            && w'.ctxs == w.ctxs[c := Put(w.ctxs[c], slot, None)]
            && (forall k | k in Live(w) && w.owners[k] > 0 :: k in Live(w'))
  {
    hide Outstanding;
    if Held(w.ctxs[c], slot).None? {
      assert w.ctxs[c := Put(w.ctxs[c], slot, None)] == w.ctxs;
    } else {
      var k := Held(w.ctxs[c], slot).value;
      var w1 := Dec(w, k);
      var w' := SetSlot(w1, c, slot, None);
      forall j | j in w'.cnt
        ensures w'.cnt[j] == Outstanding(w', j)
      {
        SameReferences(w, w1, j);
        ReferencesAfter(w1, c, slot, None, j);
      }
      DropLeavesNoDangling(w, c, slot);
    }
  }

  lemma SameReferences<K, C>(w: World<K, C>, w': World<K, C>, k: K)
    requires w'.owners == w.owners && w'.ctxs == w.ctxs && k in w.owners
    ensures Outstanding(w', k) == Outstanding(w, k)
  {
  }

  /** A key that another slot or an owner still refers to is not freed by the drop. */
  lemma DropLeavesNoDangling<K, C>(w: World<K, C>, c: C, slot: Slot)
    requires Conserved(w) && c in w.ctxs && Held(w.ctxs[c], slot).Some?
    ensures var w' := Drop(w, c, slot);
            && (forall d, sl | d in w'.ctxs && Held(w'.ctxs[d], sl).Some? :: Held(w'.ctxs[d], sl).value in Live(w'))
            && (forall k | k in Live(w) && w.owners[k] > 0 :: k in Live(w'))
  {
    var k := Held(w.ctxs[c], slot).value;
    var w' := Drop(w, c, slot);
    assert w'.cnt[k] == Outstanding(w', k) by {
      SameReferences(w, Dec(w, k), k);
      ReferencesAfter(Dec(w, k), c, slot, None, k);
    }
    forall d, sl | d in w'.ctxs && Held(w'.ctxs[d], sl).Some?
      ensures Held(w'.ctxs[d], sl).value in Live(w')
    {
      if Held(w'.ctxs[d], sl) == Some(k) {
        assert d in Holders(w'.ctxs, sl, k);
        assert Outstanding(w', k) > 0;
      }
    }
  }

  lemma TakeConserves<K, C>(w: World<K, C>, c: C, slot: Slot, k: K)
    requires Conserved(w) && c in w.ctxs && Held(w.ctxs[c], slot).None? && k in Live(w)
    ensures var w' := Take(w, c, slot, k);
            Conserved(w') && w'.owners == w.owners && w'.freed == w.freed
  {
    hide Outstanding;
    var w1 := Inc(w, k);
    var w' := SetSlot(w1, c, slot, Some(k));
    forall j | j in w'.cnt
      ensures w'.cnt[j] == Outstanding(w', j)
    {
      SameReferences(w, w1, j);
      ReferencesAfter(w1, c, slot, Some(k), j);
    }
    forall d, sl | d in w'.ctxs && Held(w'.ctxs[d], sl).Some?
      ensures Held(w'.ctxs[d], sl).value in Live(w')
    {
      if d == c && sl == slot {
        assert Held(w'.ctxs[d], sl) == Some(k);
      } else {
        assert Held(w'.ctxs[d], sl) == Held(w.ctxs[d], sl);
      }
    }
  }

  // ---- the calls ----

  /** A key without references from contexts, made with one handle for its owner. */
  ghost function NewKey<K, C>(w: World<K, C>, k: K): (r: World<K, C>)
    requires Conserved(w) && k !in w.cnt
    ensures Conserved(r) && w.freed <= r.freed
  {
    var r := w.(cnt := w.cnt[k := 1], owners := w.owners[k := 1]);
    assert Holders(w.ctxs, KeySlot, k) == {} && Holders(w.ctxs, PeerSlot, k) == {};
    assert forall j | j in w.cnt :: Outstanding(r, j) == Outstanding(w, j);
    r
  }

  ghost function Release<K, C>(w: World<K, C>, k: K): (r: World<K, C>)
    requires Conserved(w) && k in w.owners && w.owners[k] > 0
    ensures Conserved(r) && w.freed <= r.freed
  {
    var r := Dec(w.(owners := w.owners[k := w.owners[k] - 1]), k);
    ReleaseConserves(w, k);
    r
  }

  lemma ReleaseConserves<K, C>(w: World<K, C>, k: K)
    requires Conserved(w) && k in w.owners && w.owners[k] > 0
    ensures Conserved(Dec(w.(owners := w.owners[k := w.owners[k] - 1]), k))
  {
    var w1 := w.(owners := w.owners[k := w.owners[k] - 1]);
    var r := Dec(w1, k);
    forall j | j in w.cnt
      ensures Outstanding(r, j) == Outstanding(w, j) - if j == k then 1 else 0
    {
      SameReferences(w1, r, j);
    }
    hide Outstanding;
    forall d, sl | d in r.ctxs && Held(r.ctxs[d], sl).Some?
      ensures Held(r.ctxs[d], sl).value in Live(r)
    {
      HeldIsOutstanding(r, d, sl, Held(r.ctxs[d], sl).value);
    }
  }

  lemma HeldIsOutstanding<K, C>(w: World<K, C>, c: C, slot: Slot, k: K)
    requires c in w.ctxs && Held(w.ctxs[c], slot) == Some(k) && k in w.owners
    ensures Outstanding(w, k) > 0
  {
    assert c in Holders(w.ctxs, slot, k);
  }

  ghost function NewCtx<K, C>(w: World<K, C>, c: C): (r: World<K, C>)
    requires Conserved(w) && c !in w.ctxs
    ensures Conserved(r) && r.freed == w.freed
  {
    var r := w.(ctxs := w.ctxs[c := Slots(None, None)]);
    assert forall slot, k | k in w.cnt :: Holders(r.ctxs, slot, k) == Holders(w.ctxs, slot, k);
    r
  }

  /** Give up a context that holds nothing any more. */
  ghost function Remove<K, C>(w: World<K, C>, c: C): (r: World<K, C>)
    requires Conserved(w) && c in w.ctxs && w.ctxs[c] == Slots(None, None)
    ensures Conserved(r) && r.freed == w.freed
  {
    var r := w.(ctxs := w.ctxs - {c});
    assert forall slot, k | k in w.cnt :: Holders(r.ctxs, slot, k) == Holders(w.ctxs, slot, k);
    r
  }

  /** Put a reference to a key, if one is given, in an empty slot. */
  ghost function Share<K, C>(w: World<K, C>, dst: C, slot: Slot, k: Option<K>): (r: World<K, C>)
    requires Conserved(w) && dst in w.ctxs && Held(w.ctxs[dst], slot).None?
    requires k.Some? ==> k.value in Live(w)
    ensures Conserved(r) && r.freed == w.freed
    ensures r.ctxs == w.ctxs[dst := Put(w.ctxs[dst], slot, k)]
  {
    match k
    case None =>
      assert w.ctxs[dst := Put(w.ctxs[dst], slot, None)] == w.ctxs;
      w
    case Some(key) =>
      TakeConserves(w, dst, slot, key);
      Take(w, dst, slot, key)
  }

  lemma OwnedIsLive<K, C>(w: World<K, C>, k: K)
    requires Conserved(w) && k in w.owners && w.owners[k] > 0
    ensures k in Live(w)
  {
    assert Outstanding(w, k) > 0;
  }

  lemma ReplaceIsReady<K, C>(w: World<K, C>, c: C, slot: Slot, k: K)
    requires Conserved(w) && c in w.ctxs && k in w.owners && w.owners[k] > 0
    ensures Held(w.ctxs[c], slot).Some? ==> Held(w.ctxs[c], slot).value in Live(w)
    ensures var w1 := Drop(w, c, slot);
            && Conserved(w1) && w.freed <= w1.freed && k in Live(w1)
            && c in w1.ctxs && Held(w1.ctxs[c], slot).None?
  {
    OwnedIsLive(w, k);
    hide Conserved, Outstanding, Drop;
    DropConserves(w, c, slot);
  }

  /** Point a slot at a key: let go of another key first, and hold nothing if the lock fails. */
  ghost function Replace<K, C>(w: World<K, C>, c: C, slot: Slot, k: K, lockOk: bool): (r: World<K, C>)
    requires Conserved(w) && c in w.ctxs && k in w.owners && w.owners[k] > 0
    ensures Conserved(r) && w.freed <= r.freed
  {
    if Held(w.ctxs[c], slot) == Some(k) then w
    else
      ReplaceIsReady(w, c, slot, k);
      var w1 := Drop(w, c, slot);
      if lockOk then Share(w1, c, slot, Some(k)) else w1
  }

  ghost function FreeCtx<K, C>(w: World<K, C>, c: C): (r: World<K, C>)
    requires Conserved(w) && c in w.ctxs
    ensures Conserved(r) && w.freed <= r.freed && c !in r.ctxs
  {
    DropConserves(w, c, PeerSlot);
    var w1 := Drop(w, c, PeerSlot);
    DropConserves(w1, c, KeySlot);
    Remove(Drop(w1, c, KeySlot), c)
  }

  lemma SlotsAreLive<K, C>(w: World<K, C>, c: C)
    requires Conserved(w) && c in w.ctxs
    ensures w.ctxs[c].key.Some? ==> w.ctxs[c].key.value in Live(w)
    ensures w.ctxs[c].peer.Some? ==> w.ctxs[c].peer.value in Live(w)
  {
    assert Held(w.ctxs[c], KeySlot) == w.ctxs[c].key && Held(w.ctxs[c], PeerSlot) == w.ctxs[c].peer;
  }

  /** Copy both references of s into an empty context, as far as the locks allow. */
  ghost function Shared<K, C>(w: World<K, C>, s: Slots<K>, dst: C, keyLock: bool, peerLock: bool): (r: World<K, C>)
    requires Conserved(w) && dst in w.ctxs && w.ctxs[dst] == Slots(None, None)
    requires (s.key.Some? ==> s.key.value in Live(w)) && (s.peer.Some? ==> s.peer.value in Live(w))
    ensures Conserved(r) && r.freed == w.freed && dst in r.ctxs
  {
    if s.key.Some? && !keyLock then w
    else
      var w1 := Share(w, dst, KeySlot, s.key);
      if s.peer.Some? && !peerLock then w1 else Share(w1, dst, PeerSlot, s.peer)
  }

  /** Duplicate a context; on any failure let go of what was taken and give up the copy. */
  ghost function Dup<K, C>(w: World<K, C>, src: C, dst: C, keyLock: bool, peerLock: bool, ukmOk: bool): (r: World<K, C>)
    requires Conserved(w) && src in w.ctxs && dst !in w.ctxs
    ensures Conserved(r) && w.freed <= r.freed
  {
    var s := w.ctxs[src];
    SlotsAreLive(w, src);
    var w1 := Shared(NewCtx(w, dst), s, dst, keyLock, peerLock);
    if (s.key.Some? ==> keyLock) && (s.peer.Some? ==> peerLock) && ukmOk then w1 else FreeCtx(w1, dst)
  }

  // ---- runs ----

  datatype Op<K, C> =
    | MakeKey(k: K)
    | ReleaseKey(k: K)
    | MakeCtx(c: C)
    | InitCtx(c: C, k: K, running: bool, lockOk: bool)
    | SetPeer(c: C, k: K, running: bool, matches: bool, lockOk: bool)
    | DupCtx(c: C, dst: C, keyLock: bool, peerLock: bool, ukmOk: bool)
    | DropCtx(c: C)

  /** What a caller must respect: only use contexts that exist and keys it has a handle on. */
  ghost predicate Legal<K, C>(w: World<K, C>, op: Op<K, C>) {
    match op
    case MakeKey(k) => k !in w.cnt
    case ReleaseKey(k) => k in w.owners && w.owners[k] > 0
    case MakeCtx(c) => c !in w.ctxs
    case InitCtx(c, k, _, _) => c in w.ctxs && k in w.owners && w.owners[k] > 0
    case SetPeer(c, k, _, _, _) => c in w.ctxs && k in w.owners && w.owners[k] > 0
    case DupCtx(c, dst, _, _, _) => c in w.ctxs && dst !in w.ctxs
    case DropCtx(c) => c in w.ctxs
  }

  ghost function Step<K, C>(w: World<K, C>, op: Op<K, C>): (r: World<K, C>)
    requires Conserved(w) && Legal(w, op)
    ensures Conserved(r) && w.freed <= r.freed
  {
    match op
    case MakeKey(k) => NewKey(w, k)
    case ReleaseKey(k) => Release(w, k)
    case MakeCtx(c) => NewCtx(w, c)
    case InitCtx(c, k, running, lockOk) => if running then Replace(w, c, KeySlot, k, lockOk) else w
    case SetPeer(c, k, running, matches, lockOk) =>
      if running && matches then Replace(w, c, PeerSlot, k, lockOk) else w
    case DupCtx(c, dst, keyLock, peerLock, ukmOk) => Dup(w, c, dst, keyLock, peerLock, ukmOk)
    case DropCtx(c) => FreeCtx(w, c)
  }

  /** A state every step of the run led to by legal calls. */
  ghost predicate Reaches<K, C>(w: World<K, C>, ops: seq<Op<K, C>>, w': World<K, C>)
    requires Conserved(w)
    decreases |ops|
  {
    if ops == [] then w' == w
    else Legal(w, ops[0]) && Reaches(Step(w, ops[0]), ops[1..], w')
  }

  /** How many times the memory of a key is given back in a run. */
  ghost function TimesFreed<K, C>(w: World<K, C>, ops: seq<Op<K, C>>, w': World<K, C>, k: K): nat
    requires Conserved(w) && Reaches(w, ops, w')
    decreases |ops|
  {
    if ops == [] then 0
    else
      var next := Step(w, ops[0]);
      (if k !in w.freed && k in next.freed then 1 else 0) + TimesFreed(next, ops[1..], w', k)
  }

  /** Before any call there is nothing, and nothing to conserve. */
  lemma StartIsConserved<K, C>()
    ensures Conserved<K, C>(World(map[], map[], {}, map[]))
  {
  }

  /** Over every run, whatever locks fail: counts are references, no context points at a freed
      key, and a key is freed once exactly when its last reference goes. */
  lemma {:induction false} RunConserves<K, C>(w: World<K, C>, ops: seq<Op<K, C>>, w': World<K, C>, k: K)
    requires Conserved(w) && Reaches(w, ops, w') && k !in w.freed
    ensures Conserved(w')
    ensures TimesFreed(w, ops, w', k) == if k in w'.freed then 1 else 0
    ensures k in w'.cnt ==> (k in w'.freed <==> Outstanding(w', k) == 0)
    decreases |ops|
  {
    if ops != [] {
      var next := Step(w, ops[0]);
      if k in next.freed {
        StaysFreed(next, ops[1..], w', k);
      } else {
        RunConserves(next, ops[1..], w', k);
      }
    }
  }

  lemma {:induction false} StaysFreed<K, C>(w: World<K, C>, ops: seq<Op<K, C>>, w': World<K, C>, k: K)
    requires Conserved(w) && Reaches(w, ops, w') && k in w.freed
    ensures Conserved(w') && k in w'.freed && TimesFreed(w, ops, w', k) == 0
    decreases |ops|
  {
    if ops != [] {
      StaysFreed(Step(w, ops[0]), ops[1..], w', k);
    }
  }

  lemma SlotBack<K, C>(ctxs: map<C, Slots<K>>, c: C, slot: Slot, k: K)
    requires c in ctxs && Held(ctxs[c], slot).None?
    ensures var s := Put(ctxs[c], slot, Some(k));
            Held(s, slot) == Some(k) && ctxs[c := s][c := Put(s, slot, None)] == ctxs
  {
    var s := Put(ctxs[c], slot, Some(k));
    assert Put(s, slot, None) == ctxs[c];
  }

  lemma CountBack<K>(cnt: map<K, int>, k: K)
    requires k in cnt
    ensures cnt[k := cnt[k] + 1][k := cnt[k]] == cnt
  {
  }

  lemma DropUndoesTake<K, C>(w: World<K, C>, c: C, slot: Slot, k: K)
    requires c in w.ctxs && Held(w.ctxs[c], slot).None? && k in Live(w) && w.cnt[k] != 0
    ensures var r := Take(w, c, slot, k);
            c in r.ctxs && Held(r.ctxs[c], slot) == Some(k) && k in Live(r) && Drop(r, c, slot) == w
  {
    SlotBack(w.ctxs, c, slot, k);
    CountBack(w.cnt, k);
    hide Held, Put;
  }

  /** Taking a reference and letting it go again changes nothing. */
  lemma DropUndoesShare<K, C>(w: World<K, C>, dst: C, slot: Slot, k: Option<K>)
    requires Conserved(w) && dst in w.ctxs && Held(w.ctxs[dst], slot).None?
    requires k.Some? ==> k.value in Live(w)
    ensures Drop(Share(w, dst, slot, k), dst, slot) == w
  {
    if k.Some? {
      assert w.cnt[k.value] != 0;
      hide Conserved, Outstanding, Take, Drop;
      DropUndoesTake(w, dst, slot, k.value);
    }
  }

  /** A duplication that fails, at whatever point, leaves every count as it was, and freeing a
      duplicate undoes the duplication. */
  lemma FailedDupChangesNothing<K, C>(w: World<K, C>, src: C, dst: C, keyLock: bool, peerLock: bool, ukmOk: bool)
    requires Conserved(w) && src in w.ctxs && dst !in w.ctxs
    ensures dst !in Dup(w, src, dst, keyLock, peerLock, ukmOk).ctxs ==> Dup(w, src, dst, keyLock, peerLock, ukmOk) == w
    ensures dst in Dup(w, src, dst, keyLock, peerLock, ukmOk).ctxs ==>
              FreeCtx(Dup(w, src, dst, keyLock, peerLock, ukmOk), dst) == w
  {
    var s := w.ctxs[src];
    assert Held(s, KeySlot) == s.key && Held(s, PeerSlot) == s.peer;
    var w1 := NewCtx(w, dst);
    assert w1.ctxs - {dst} == w.ctxs;
    FreeEmpty(w1, dst);
    if s.key.None? || keyLock {
      var w2 := Share(w1, dst, KeySlot, s.key);
      DropUndoesShare(w1, dst, KeySlot, s.key);
      assert FreeCtx(w2, dst) == w;
      if s.peer.None? || peerLock {
        DropUndoesShare(w2, dst, PeerSlot, s.peer);
      }
    }
  }

  lemma FreeEmpty<K, C>(w: World<K, C>, c: C)
    requires Conserved(w) && c in w.ctxs && w.ctxs[c] == Slots(None, None)
    ensures FreeCtx(w, c) == Remove(w, c)
  {
  }
}
