/** Diffie-Hellman keys and the key exchange contexts that share them. */
module DhKeys {
  import opened Bytes
  import opened References

  class Dh {
    var refCnt: int
    const bits: nat
    /** Whether the memory has been given back. */
    ghost var freed: bool

    constructor (bits: nat)
      ensures refCnt == 1 && !freed && this.bits == bits
    {
      refCnt, this.bits, freed := 1, bits, false;
    }

    /** The most bytes a secret can have: enough for all bits, and no more. */
    function GetSize(): (n: nat)
      ensures 8 * n >= bits && 8 * n < bits + 8
    {
      (bits + 7) / 8
    }

    /** Take a reference; fails when the mutex cannot be locked. */
    method UpRef(lockOk: bool) returns (ok: bool)
      requires !freed
      modifies this`refCnt
      ensures ok == lockOk && refCnt == old(refCnt) + if ok then 1 else 0
    {
      ok := lockOk;
      if ok {
        refCnt := refCnt + 1;
      }
    }
  }

  class DhCtx {
    var key: Dh?
    var peer: Dh?
    var pad: bool

    constructor ()
      ensures key == null && peer == null && !pad
    {
      key, peer, pad := null, null, false;
    }
  }

  /** Let go of a reference, if there is one; the last one gives the memory back. The count goes
      down whether or not the mutex could be locked. */
  method Free(dh: Dh?)
    requires dh != null ==> !dh.freed
    modifies dh
    ensures dh != null ==> dh.refCnt == old(dh.refCnt) - 1 && dh.freed == (dh.refCnt == 0)
  {
    if dh != null {
      dh.refCnt := dh.refCnt - 1;
      if dh.refCnt == 0 {
        dh.freed := true;
      }
    }
  }

  // ---- all keys and contexts ----

  datatype Registry = Registry(keys: set<Dh>, ctxs: set<DhCtx>, owners: map<Dh, nat>)

  function Ref(p: Dh?): Option<Dh> {
    if p == null then None else Some(p)
  }

  /** The bookkeeping that the objects make up. */
  ghost function View(g: Registry): World<Dh, DhCtx>
    reads g.keys`refCnt, g.keys`freed, g.ctxs`key, g.ctxs`peer
  {
    World(map k | k in g.keys :: k.refCnt, g.owners, set k | k in g.keys && k.freed,
          map c | c in g.ctxs :: Slots(Ref(c.key), Ref(c.peer)))
  }

  lemma ViewOf(g: Registry, ctx: DhCtx)
    ensures ctx in g.ctxs <==> ctx in View(g).ctxs
    ensures ctx in g.ctxs ==> Held(View(g).ctxs[ctx], KeySlot) == Ref(ctx.key)
    ensures ctx in g.ctxs ==> Held(View(g).ctxs[ctx], PeerSlot) == Ref(ctx.peer)
  {
  }

  lemma ViewWithout(g: Registry, ctx: DhCtx)
    ensures View(g.(ctxs := g.ctxs - {ctx})) == View(g).(ctxs := View(g).ctxs - {ctx})
  {
    assert View(g.(ctxs := g.ctxs - {ctx})).ctxs == View(g).ctxs - {ctx};
  }

  lemma ViewOwned(g: Registry, owners: map<Dh, nat>)
    ensures View(g.(owners := owners)) == View(g).(owners := owners)
  {
  }

  /** Free a key of the registry. */
  method FreeKey(dh: Dh, ghost g: Registry)
    requires dh in Live(View(g))
    modifies dh
    ensures View(g) == Dec(old(View(g)), dh)
    ensures dh.refCnt == old(dh.refCnt) - 1 && dh.freed == (dh.refCnt == 0)
  {
    Free(dh);
    assert View(g).cnt == old(View(g)).cnt[dh := dh.refCnt];
  }

  method DropKey(ctx: DhCtx, ghost g: Registry)
    requires ctx in g.ctxs && (ctx.key != null ==> ctx.key in Live(View(g)))
    modifies ctx`key, ctx.key
    ensures ctx.key == null && View(g) == Drop(old(View(g)), ctx, KeySlot)
    ensures old(ctx.key) != null ==> old(ctx.key).refCnt == old(ctx.key.refCnt) - 1
  {
    Free(ctx.key);
    ctx.key := null;
  }

  method DropPeer(ctx: DhCtx, ghost g: Registry)
    requires ctx in g.ctxs && (ctx.peer != null ==> ctx.peer in Live(View(g)))
    modifies ctx`peer, ctx.peer
    ensures ctx.peer == null && View(g) == Drop(old(View(g)), ctx, PeerSlot)
    ensures old(ctx.peer) != null ==> old(ctx.peer).refCnt == old(ctx.peer.refCnt) - 1
  {
    Free(ctx.peer);
    ctx.peer := null;
  }

  method TakeKey(ctx: DhCtx, dh: Dh, lockOk: bool, ghost g: Registry) returns (ok: bool)
    requires ctx in g.ctxs && ctx.key == null && dh in Live(View(g))
    modifies ctx`key, dh`refCnt
    ensures ok == lockOk && ctx.key == if ok then dh else null
    ensures dh.refCnt == old(dh.refCnt) + if ok then 1 else 0
    ensures View(g) == if ok then Take(old(View(g)), ctx, KeySlot, dh) else old(View(g))
  {
    ok := dh.UpRef(lockOk);
    if ok {
      ctx.key := dh;
    }
  }

  method TakePeer(ctx: DhCtx, dh: Dh, lockOk: bool, ghost g: Registry) returns (ok: bool)
    requires ctx in g.ctxs && ctx.peer == null && dh in Live(View(g))
    modifies ctx`peer, dh`refCnt
    ensures ok == lockOk && ctx.peer == if ok then dh else null
    ensures dh.refCnt == old(dh.refCnt) + if ok then 1 else 0
    ensures View(g) == if ok then Take(old(View(g)), ctx, PeerSlot, dh) else old(View(g))
  {
    ok := dh.UpRef(lockOk);
    if ok {
      ctx.peer := dh;
    }
  }

  // ---- the provider calls ----

  method New(bits: nat, running: bool, allocOk: bool, initOk: bool, mutexOk: bool, ghost g: Registry)
      returns (dh: Dh?, ghost g': Registry)
    requires Conserved(View(g))
    ensures (dh != null) == (running && allocOk && initOk && mutexOk)
    ensures dh == null ==> g' == g
    ensures dh != null ==> dh.refCnt == 1 && !dh.freed && dh.bits == bits
    ensures dh != null ==> fresh(dh) && g' == Registry(g.keys + {dh}, g.ctxs, g.owners[dh := 1])
    ensures dh != null ==> dh !in old(View(g)).cnt && View(g') == NewKey(old(View(g)), dh)
  {
    dh, g' := null, g;
    if running && allocOk && initOk && mutexOk {
      var made := new Dh(bits);
      dh, g' := made, Registry(g.keys + {made}, g.ctxs, g.owners[made := 1]);
      assert View(g').cnt == View(g).cnt[made := 1];
      assert View(g').freed == View(g).freed;
    }
  }

  /** The owner gives up one handle. */
  method ReleaseOwned(dh: Dh, ghost g: Registry) returns (ghost g': Registry)
    requires Conserved(View(g)) && Legal(View(g), ReleaseKey(dh))
    modifies dh
    ensures g' == g.(owners := old(View(g)).owners[dh := old(View(g)).owners[dh] - 1])
    ensures View(g') == Step(old(View(g)), ReleaseKey(dh))
    ensures dh.refCnt == old(dh.refCnt) - 1 && dh.freed == (dh.refCnt == 0)
  {
    OwnedIsLive(View(g), dh);
    hide View, Conserved, Outstanding, Dec;
    ghost var w := View(g);
    g' := g.(owners := w.owners[dh := w.owners[dh] - 1]);
    FreeKey(dh, g);
    ViewOwned(g, g'.owners);
    DecKeepsOwners(w, dh, g'.owners);
  }

  lemma DecKeepsOwners(w: World<Dh, DhCtx>, dh: Dh, owners: map<Dh, nat>)
    requires dh in Live(w)
    ensures Dec(w, dh).(owners := owners) == Dec(w.(owners := owners), dh)
  {
  }

  method Init(ctx: DhCtx, dh: Dh, running: bool, lockOk: bool, paramsOk: bool, ghost g: Registry)
      returns (ok: bool)
    requires Conserved(View(g)) && Legal(View(g), InitCtx(ctx, dh, running, lockOk))
    modifies ctx, ctx.key, dh
    ensures View(g) == Step(old(View(g)), InitCtx(ctx, dh, running, lockOk))
    ensures ok == (running && (lockOk || old(ctx.key) == dh) && paramsOk)
    ensures ctx.key == if !running || old(ctx.key) == dh then old(ctx.key) else if lockOk then dh else null
    ensures ctx.peer == old(ctx.peer)
    ensures running && old(ctx.key) != dh ==>
              && dh.refCnt == old(dh.refCnt) + (if lockOk then 1 else 0)
              && (old(ctx.key) != null ==> old(ctx.key).refCnt == old(ctx.key.refCnt) - 1)
    ensures !running || old(ctx.key) == dh ==> dh.refCnt == old(dh.refCnt)
    ensures ctx.pad == (old(ctx.pad) && !(running && (lockOk || old(ctx.key) == dh)))
  {
    hide View, Conserved, Outstanding, Holders, Drop, Take;
    ViewOf(g, ctx);
    ok := running;
    if ok && ctx.key != dh {
      ReplaceIsReady(View(g), ctx, KeySlot, dh);
      DropKey(ctx, g);
      ok := TakeKey(ctx, dh, lockOk, g);
    }
    if ok {
      ctx.pad := false;
      ok := paramsOk;
    }
  }

  method SetPeerKey(ctx: DhCtx, dh: Dh, running: bool, matches: bool, lockOk: bool, ghost g: Registry)
      returns (ok: bool)
    requires Conserved(View(g)) && Legal(View(g), SetPeer(ctx, dh, running, matches, lockOk))
    modifies ctx, ctx.peer, dh
    ensures View(g) == Step(old(View(g)), SetPeer(ctx, dh, running, matches, lockOk))
    ensures ok == (running && matches && (lockOk || old(ctx.peer) == dh))
    ensures ctx.peer == if !(running && matches) || old(ctx.peer) == dh then old(ctx.peer)
                        else if lockOk then dh else null
    ensures ctx.key == old(ctx.key)
    ensures running && matches && old(ctx.peer) != dh ==>
              && dh.refCnt == old(dh.refCnt) + (if lockOk then 1 else 0)
              && (old(ctx.peer) != null ==> old(ctx.peer).refCnt == old(ctx.peer.refCnt) - 1)
    ensures !(running && matches) || old(ctx.peer) == dh ==> dh.refCnt == old(dh.refCnt)
  {
    hide View, Conserved, Outstanding, Holders, Drop, Take;
    ViewOf(g, ctx);
    ok := running;
    if ok && !matches {
      ok := false;
    }
    if ok && ctx.peer != dh {
      ReplaceIsReady(View(g), ctx, PeerSlot, dh);
      DropPeer(ctx, g);
      ok := TakePeer(ctx, dh, lockOk, g);
    }
  }

  method FreeContext(ctx: DhCtx, ghost g: Registry) returns (ghost g': Registry)
    requires Conserved(View(g)) && ctx in g.ctxs
    modifies ctx, ctx.key, ctx.peer
    ensures g' == g.(ctxs := g.ctxs - {ctx})
    ensures View(g') == FreeCtx(old(View(g)), ctx)
  {
    hide View, Conserved, Outstanding, Holders, Drop;
    ghost var w := View(g);
    ViewOf(g, ctx);
    DropConserves(w, ctx, PeerSlot);
    DropPeer(ctx, g);
    ViewOf(g, ctx);
    DropConserves(View(g), ctx, KeySlot);
    DropKey(ctx, g);
    ViewOf(g, ctx);
    g' := g.(ctxs := g.ctxs - {ctx});
    ViewWithout(g, ctx);
  }

  lemma ViewWith(g: Registry, ctx: DhCtx)
    requires ctx !in g.ctxs && ctx.key == null && ctx.peer == null
    ensures View(g.(ctxs := g.ctxs + {ctx})) == View(g).(ctxs := View(g).ctxs[ctx := Slots(None, None)])
  {
    assert View(g.(ctxs := g.ctxs + {ctx})).ctxs == View(g).ctxs[ctx := Slots(None, None)];
  }

  method NewContext(running: bool, allocOk: bool, ghost g: Registry) returns (ctx: DhCtx?, ghost g': Registry)
    requires Conserved(View(g))
    ensures (ctx != null) == (running && allocOk)
    ensures ctx == null ==> g' == g
    ensures ctx != null ==>
              && fresh(ctx) && ctx !in old(View(g)).ctxs && ctx.key == null && ctx.peer == null && !ctx.pad
              && g' == g.(ctxs := g.ctxs + {ctx}) && View(g') == NewCtx(old(View(g)), ctx)
  {
    ctx, g' := null, g;
    if running && allocOk {
      var made := new DhCtx();
      assert made !in g.ctxs && made !in View(g).ctxs;
      ViewWith(g, made);
      ctx, g' := made, g.(ctxs := g.ctxs + {made});
    }
  }

  /** Copy the references of a slot into an empty context. */
  method ShareBoth(src: DhCtx, dst: DhCtx, keyLock: bool, peerLock: bool, ghost g: Registry) returns (ok: bool)
    requires Conserved(View(g)) && src in g.ctxs && dst in g.ctxs && src != dst
    requires dst.key == null && dst.peer == null
    requires (src.key != null ==> src.key in Live(View(g))) && (src.peer != null ==> src.peer in Live(View(g)))
    modifies dst`key, dst`peer, src.key, src.peer
    ensures ok == ((src.key != null ==> keyLock) && (src.peer != null ==> peerLock))
    ensures (dst.key == null || dst.key == src.key) && (dst.peer == null || dst.peer == src.peer)
    ensures ok ==> dst.key == src.key && dst.peer == src.peer
    ensures View(g) == Shared(old(View(g)), old(View(g)).ctxs[src], dst, keyLock, peerLock)
  {
    hide View, Conserved, Outstanding, Holders;
    ViewOf(g, src);
    ViewOf(g, dst);
    ok := true;
    if src.key != null {
      ok := TakeKey(dst, src.key, keyLock, g);
    }
    if ok && src.peer != null {
      ok := TakePeer(dst, src.peer, peerLock, g);
    }
  }

  /** Fill a new context from another one, or give it up. */
  method CopyInto(src: DhCtx, copy: DhCtx, keyLock: bool, peerLock: bool, ukmOk: bool,
                  ghost g: Registry, ghost w: World<Dh, DhCtx>)
      returns (ok: bool, ghost g': Registry)
    requires w == View(g) && Conserved(w) && src in g.ctxs && copy in g.ctxs && src != copy
    requires copy.key == null && copy.peer == null
    requires (src.key != null ==> src.key in Live(w)) && (src.peer != null ==> src.peer in Live(w))
    modifies copy, src.key, src.peer
    ensures ok == (ukmOk && (src.key != null ==> keyLock) && (src.peer != null ==> peerLock))
    ensures ok ==> copy.key == src.key && copy.peer == src.peer && copy.pad == src.pad
    ensures var w1 := Shared(w, w.ctxs[src], copy, keyLock, peerLock);
            View(g') == if ok then w1 else FreeCtx(w1, copy)
  {
    ViewOf(g, src);
    ViewOf(g, copy);
    hide View, Conserved, Outstanding, Holders, Shared, FreeCtx, Live;
    g' := g;
    ok := ShareBoth(src, copy, keyLock, peerLock, g);
    ok := ok && ukmOk;
    if ok {
      copy.pad := src.pad;
    } else {
      g' := FreeContext(copy, g);
    }
  }

  lemma DupStep(w: World<Dh, DhCtx>, src: DhCtx, dst: DhCtx, keyLock: bool, peerLock: bool, ukmOk: bool)
    requires Conserved(w) && src in w.ctxs && dst !in w.ctxs
    ensures var s := w.ctxs[src];
            var w0 := NewCtx(w, dst);
            && w0.ctxs[dst] == Slots(None, None) && w0.ctxs[src] == s
            && (s.key.Some? ==> s.key.value in Live(w0)) && (s.peer.Some? ==> s.peer.value in Live(w0))
            && var w1 := Shared(w0, s, dst, keyLock, peerLock);
               Step(w, DupCtx(src, dst, keyLock, peerLock, ukmOk))
               == if ukmOk && (s.key.Some? ==> keyLock) && (s.peer.Some? ==> peerLock) then w1 else FreeCtx(w1, dst)
  {
    SlotsAreLive(w, src);
  }

  /** The new context, filled or given up, completes the duplication. */
  method FillCopy(src: DhCtx, copy: DhCtx, keyLock: bool, peerLock: bool, ukmOk: bool,
                  ghost g: Registry, ghost w: World<Dh, DhCtx>)
      returns (ok: bool, ghost g': Registry)
    requires Conserved(w) && src in w.ctxs && copy !in w.ctxs && View(g) == NewCtx(w, copy)
    requires w.ctxs[src] == Slots(Ref(src.key), Ref(src.peer)) && copy.key == null && copy.peer == null
    modifies copy, src.key, src.peer
    ensures ok == (ukmOk && (src.key != null ==> keyLock) && (src.peer != null ==> peerLock))
    ensures ok ==> copy.key == src.key && copy.peer == src.peer && copy.pad == src.pad
    ensures View(g') == Step(w, DupCtx(src, copy, keyLock, peerLock, ukmOk))
  {
    DupStep(w, src, copy, keyLock, peerLock, ukmOk);
    ViewOf(g, src);
    ViewOf(g, copy);
    hide View, Conserved, Outstanding, Holders, Shared, NewCtx, FreeCtx, Live, Step;
    ok, g' := CopyInto(src, copy, keyLock, peerLock, ukmOk, g, NewCtx(w, copy));
  }

  /** Duplicate a context. The copy exists only if every lock and copy succeeds. */
  method Duplicate(src: DhCtx, running: bool, allocOk: bool, keyLock: bool, peerLock: bool, ukmOk: bool,
                   ghost g: Registry)
      returns (dst: DhCtx?, ghost made: DhCtx?, ghost g': Registry)
    requires Conserved(View(g)) && src in g.ctxs
    modifies src.key, src.peer
    ensures !(running && allocOk) ==> dst == null && g' == g && View(g) == old(View(g))
    ensures running && allocOk ==>
              && made != null && fresh(made) && made !in old(View(g)).ctxs
              && View(g') == Step(old(View(g)), DupCtx(src, made, keyLock, peerLock, ukmOk))
              && (dst == null || dst == made)
    ensures dst != null <==> running && allocOk && ukmOk
                             && (src.key != null ==> keyLock) && (src.peer != null ==> peerLock)
    ensures dst != null ==> dst.key == src.key && dst.peer == src.peer && dst.pad == src.pad
  {
    ghost var w := View(g);
    SlotsOf(g, src);
    hide View, Conserved, Step, NewCtx, Legal;
    dst, made, g' := null, null, g;
    if running {
      var copy;
      copy, g' := NewContext(running, allocOk, g);
      made := copy;
      if copy != null {
        var ok;
        ok, g' := FillCopy(src, copy, keyLock, peerLock, ukmOk, g', w);
        dst := if ok then copy else null;
      }
    }
  }

  lemma SlotsOf(g: Registry, ctx: DhCtx)
    requires ctx in g.ctxs
    ensures ctx in View(g).ctxs && View(g).ctxs[ctx] == Slots(Ref(ctx.key), Ref(ctx.peer))
  {
  }
}
