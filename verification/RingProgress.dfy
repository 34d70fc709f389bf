// What one call of an endpoint achieves when the other endpoint pauses: sends and
// receives come to their end, with the answer that the stream positions give.
module RingProgress {
  import opened Common
  import opened RingArithmetic
  import opened RingProtocol
  import opened RingSafety

  // The same action k times.
  function Steps(s: State, a: Action, k: nat): State
    decreases k
  {
    if k == 0 then s else Steps(Next(s, a), a, k - 1)
  }

  lemma OneStep(s: State, a: Action, k: nat)
    ensures Steps(s, a, k + 1) == Steps(Next(s, a), a, k) && Steps(s, a, 1) == Next(s, a)
  {
    assert Steps(s, a, 1) == Steps(Next(s, a), a, 0);
  }

  // ---- Receiving ----

  // The next packet has been received, and nothing was sent meanwhile.
  ghost predicate Delivered(s: State, t: State) {
    && t.c.pc.CReady? && t.h.sent == s.h.sent && |s.h.received| < |s.h.sent|
    && t.h.received == s.h.sent[..|s.h.received| + 1]
  }

  // At most that many steps are left once a packet was found.
  function StepsLeft(pc: ConsumerPc): nat {
    match pc case CReadLength => 4 case CTrailer(_) => 3 case CCopy1(_) => 2 case CCopy2(_, _) => 1 case _ => 0
  }

  lemma ReceiveStep(s: State)
    requires Inv(s) && StepsLeft(s.c.pc) > 0
    ensures var t := Next(s, ConsumerStep);
      Delivered(s, t) || (t.h == s.h && 0 < StepsLeft(t.c.pc) < StepsLeft(s.c.pc))
  {
    InvSane(s);
    NextFrame(s);
    var r := |s.h.received|;
    var start, packet := s.h.bounds[r], s.h.sent[r];
    match s.c.pc
    case CReadLength => ReadLengthIs(s, start, packet, s.h.bounds[s.h.cached]);
    case CTrailer(_) => CheckTrailerIs(s, start, packet);
    case CCopy1(_) =>
      CopyOut1Is(s, start, packet);
      assert s.h.received + [packet] == s.h.sent[..r + 1];
    case CCopy2(_, _) =>
      CopyOut2Is(s, start, packet);
      assert s.h.received + [packet] == s.h.sent[..r + 1];
  }

  lemma {:induction false} ReceiveEnds(s: State) returns (k: nat)
    requires Inv(s) && StepsLeft(s.c.pc) > 0
    ensures k <= StepsLeft(s.c.pc) && Delivered(s, Steps(s, ConsumerStep, k))
    decreases StepsLeft(s.c.pc)
  {
    var t := Next(s, ConsumerStep);
    ReceiveStep(s);
    k := 1;
    if !Delivered(s, t) {
      KeepNext(s, ConsumerStep);
      k := ReceiveEnds(t);
      OneStep(s, ConsumerStep, k);
      k := k + 1;
    } else {
      OneStep(s, ConsumerStep, 0);
    }
  }

  // A receive finds the next packet exactly if there is one: In or the cached In is
  // past the packets received.
  lemma ReceiveFinds(s: State)
    requires Inv(s) && s.c.pc.CReady?
    ensures var t := Next(s, Receive);
      if |s.h.received| < s.h.cached then t.c.pc.CReadLength? && t.h.received == s.h.received && t.h.sent == s.h.sent
      else
        var u := Next(t, ConsumerStep);
        && t.c.pc.CReadIn1? && u.h.received == s.h.received && u.h.sent == s.h.sent
        && if |s.h.received| < s.h.committed then u.c.pc.CReadLength? else u.c.pc.CReady?
  {
    var t := Next(s, Receive);
    var r := |s.h.received|;
    InvSane(s);
    SlotInjective(s.n, s.h.bounds[r], s.h.bounds[s.h.cached]);
    BoundsIncrease(s.n, s.h, r, s.h.cached);
    if r == s.h.cached {
      KeepNext(s, Receive);
      InvSane(t);
      SlotInjective(s.n, s.h.bounds[r], s.h.bounds[s.h.committed]);
      BoundsIncrease(s.n, s.h, r, s.h.committed);
      AlignedSlot(s.n, s.h.bounds[s.h.committed]);
    }
  }

  // The next packet if there is one, and none otherwise.
  ghost predicate ReceiveTells(s: State, t: State) {
    if |s.h.received| < s.h.committed then Delivered(s, t)
    else t.c.pc.CReady? && t.h.received == s.h.received && t.h.sent == s.h.sent
  }

  lemma ReceiveGoesOn(s: State, t: State) returns (m: nat)
    requires Inv(t) && t.c.pc.CReadLength? && t.h.received == s.h.received && t.h.sent == s.h.sent
    requires |s.h.received| < s.h.committed
    ensures m <= 4 && ReceiveTells(s, Steps(t, ConsumerStep, m))
  {
    m := ReceiveEnds(t);
  }

  lemma ReceiveFrom(s: State) returns (k: nat)
    requires Inv(s) && s.c.pc.CReady?
    ensures k <= 5 && ReceiveTells(s, Steps(Next(s, Receive), ConsumerStep, k))
  {
    var t := Next(s, Receive);
    var u := Next(t, ConsumerStep);
    ReceiveFinds(s);
    KeepNext(s, Receive);
    KeepNext(t, ConsumerStep);
    k := 1;
    OneStep(t, ConsumerStep, 0);
    if |s.h.received| < s.h.cached {
      k := ReceiveGoesOn(s, t);
    } else if |s.h.received| < s.h.committed {
      k := ReceiveGoesOn(s, u);
      OneStep(t, ConsumerStep, k);
      k := k + 1;
    }
  }

  // From every reachable state, a receive delivers the next packet if one has been
  // committed, and returns without one otherwise.
  lemma {:induction false} ReceiveAnswers(ring: Ring, actions: seq<Action>) returns (k: nat)
    requires Usable(ring) && Run(ring, actions).c.pc.CReady?
    ensures k <= 5 && ReceiveTells(Run(ring, actions), Steps(Run(ring, actions + [Receive]), ConsumerStep, k))
  {
    assert (actions + [Receive])[..|actions|] == actions;
    Reachable(ring, actions);
    k := ReceiveFrom(Run(ring, actions));
  }

  // ---- Sending ----

  // The packet has been staged, as the source pads it, and nothing was committed.
  ghost predicate Staged(s: State, t: State, packet: Packet) {
    && t.p.pc.PReady? && t.h.sent == s.h.sent + [packet + Zero8[..AlignUp8(|packet|) - |packet|]]
    && t.h.committed == s.h.committed
  }

  function WritesLeft(pc: ProducerPc): nat {
    match pc case PTail(_) => 5 case PTrailer(_) => 4 case PClear(_) => 3 case PCopy1(_) => 2 case PCopy2(_) => 1
    case _ => 0
  }

  lemma SendStep(s: State, k: Packet)
    requires Inv(s) && WritesLeft(s.p.pc) > 0 && s.p.pc.packet == k
    ensures var t := Next(s, ProducerStep);
      || Staged(s, t, k)
      || (&& 0 < WritesLeft(t.p.pc) < WritesLeft(s.p.pc) && t.p.pc.packet == k
          && t.h.sent == s.h.sent && t.h.committed == s.h.committed)
  {
    InvSane(s);
    CopyStages(s, k);
    if s.p.pc.PCopy1? {
      assert Next(s, ProducerStep) == Copy1(s, k);
    } else if s.p.pc.PCopy2? {
      assert Next(s, ProducerStep) == Copy2(s, k);
    }
  }

  // The last copy stages the packet; if there are two, the first only goes on.
  lemma CopyStages(s: State, k: Packet)
    requires Sane(s)
    ensures var t := Copy1(s, k);
      Staged(s, t, k) || (t.p.pc == PCopy2(k) && t.h == s.h)
    ensures FirstChunk(s.n, s.p.off, |k|) < |k| ==> Staged(s, Copy2(s, k), k)
  {
  }

  lemma {:induction false} SendEnds(s: State, k: Packet) returns (m: nat)
    requires Inv(s) && WritesLeft(s.p.pc) > 0 && s.p.pc.packet == k
    ensures m <= WritesLeft(s.p.pc) && Staged(s, Steps(s, ProducerStep, m), k)
    decreases WritesLeft(s.p.pc)
  {
    var t := Next(s, ProducerStep);
    SendStep(s, k);
    m := 1;
    if !Staged(s, t, k) {
      KeepNext(s, ProducerStep);
      m := SendEnds(t, k);
      OneStep(s, ProducerStep, m);
      m := m + 1;
    } else {
      OneStep(s, ProducerStep, 0);
    }
  }

  // The producer was turned away: nothing is staged, and a size that could ever fit
  // is left pending.
  ghost predicate TurnedAway(s: State, t: State, k: Packet) {
    && t.p.pc.PReady? && t.h.sent == s.h.sent && t.h.stream == s.h.stream && t.h.committed == s.h.committed
    && (AlignUp8(|k|) + 8 < s.n ==> t.h.blocked.Some? && t.sh.pending > 0)
  }

  // The packet is staged exactly if it and its trailer leave a byte free between the
  // staged bytes and Out.
  ghost predicate SendTells(s: State, t: State, k: Packet) {
    if |s.h.stream| + AlignUp8(|k|) + 8 < s.h.out + s.n then Staged(s, t, k) else TurnedAway(s, t, k)
  }

  lemma SendGoesOn(s: State, t: State, k: Packet) returns (m: nat)
    requires Inv(t) && t.p.pc == PTail(k) && t.h.sent == s.h.sent && t.h.committed == s.h.committed
    requires |s.h.stream| + AlignUp8(|k|) + 8 < s.h.out + s.n
    ensures m <= 5 && SendTells(s, Steps(t, ProducerStep, m), k)
  {
    m := SendEnds(t, k);
  }

  // Out has to be read.
  lemma SendFromRead(s: State, k: Packet) returns (m: nat)
    requires Inv(s) && s.p.pc == PReadOut1(k)
    ensures m <= 6 && SendTells(s, Steps(s, ProducerStep, m), k)
  {
    var t := Next(s, ProducerStep);
    SendReads(s, k);
    KeepNext(s, ProducerStep);
    if t.p.pc.PTail? {
      m := SendGoesOn(s, t, k);
    } else if t.p.pc.PReady? {
      m := 0;
    } else {
      m := 2;
      SendBlocks(t, k);
    }
    OneStep(s, ProducerStep, m);
    m := m + 1;
  }

  lemma SendFrom(s: State, k: Packet) returns (m: nat)
    requires Inv(s) && s.p.pc.PReady? && Sendable(s.n, k)
    ensures m <= 6 && SendTells(s, Steps(Next(s, Send(k)), ProducerStep, m), k)
  {
    InvSane(s);
    var t := Next(s, Send(k));
    KeepNext(s, Send(k));
    StreamDistance(s.n, |s.h.stream|, s.h.outCache);
    if Fits(s, k) {
      m := SendGoesOn(s, t, k);
    } else {
      m := SendFromRead(t, k);
    }
  }

  // From every reachable state, a send stages its packet or is turned away.
  lemma {:induction false} SendAnswers(ring: Ring, actions: seq<Action>, k: Packet) returns (m: nat)
    requires Usable(ring) && Run(ring, actions).p.pc.PReady? && Sendable(ring.n, k)
    ensures m <= 6 && SendTells(Run(ring, actions), Steps(Run(ring, actions + [Send(k)]), ProducerStep, m), k)
  {
    assert (actions + [Send(k)])[..|actions|] == actions;
    Reachable(ring, actions);
    m := SendFrom(Run(ring, actions), k);
  }

  // The first read of Out decides.
  lemma SendReads(s: State, k: Packet)
    requires Inv(s) && s.p.pc == PReadOut1(k)
    ensures var t := Next(s, ProducerStep);
      && t.h == s.h.(outCache := s.h.out) && t.n == s.n && t.sh == s.sh
      && t.p.pc == if |s.h.stream| + Total(k) < s.h.out + s.n then PTail(k)
                   else if Total(k) >= s.n then PReady else PWritePending(k)
  {
    InvSane(s);
    ReadsOut(s, k);
  }

  // The pending size is published and Out is read again.
  lemma SendBlocks(s: State, k: Packet)
    requires Inv(s) && s.p.pc == PWritePending(k) && |s.h.stream| + Total(k) >= s.h.out + s.n
    ensures TurnedAway(s, Steps(s, ProducerStep, 2), k)
  {
    var t := Next(s, ProducerStep);
    InvSane(s);
    KeepNext(s, ProducerStep);
    InvSane(t);
    ReadsOut(t, k);
    KeepNext(t, ProducerStep);
    var u := Next(t, ProducerStep);
    assert Steps(u, ProducerStep, 0) == u;
    assert Steps(t, ProducerStep, 1) == Steps(u, ProducerStep, 0);
  }

  // ---- Completing ----

  // All that was staged is published.
  ghost predicate Inserted(s: State, t: State) {
    && t.p.pc.PReady? && t.h.committed == |s.h.sent| && t.h.sent == s.h.sent
    && s.n > 0 && t.sh.inp == Slot(s.n, |s.h.stream|)
  }

  // All that was read is published.
  ghost predicate Removed(s: State, t: State) {
    && t.c.pc.CReady? && t.h.received == s.h.received && |s.h.received| < |s.h.bounds|
    && s.n > 0 && t.h.out == s.h.bounds[|s.h.received|] && t.sh.out == Slot(s.n, t.h.out)
  }

  // From every reachable state, completing an insertion publishes all that is staged,
  // and completing a removal publishes all that was read.
  lemma {:induction false} CompletionAnswers(ring: Ring, actions: seq<Action>)
    requires Usable(ring)
    ensures var s := Run(ring, actions);
      s.p.pc.PReady? ==> Inserted(s, Steps(Run(ring, actions + [Commit]), ProducerStep, 3))
    ensures var s := Run(ring, actions);
      s.c.pc.CReady? ==> Removed(s, Steps(Run(ring, actions + [Remove]), ConsumerStep, 3))
  {
    var s := Run(ring, actions);
    assert (actions + [Commit])[..|actions|] == (actions + [Remove])[..|actions|] == actions;
    Reachable(ring, actions);
    if s.p.pc.PReady? { InsertionEnds(s); }
    if s.c.pc.CReady? { RemovalEnds(s); }
  }

  lemma InsertionStarts(s: State)
    requires Inv(s) && s.p.pc.PReady?
    ensures var b := Next(Next(s, Commit), ProducerStep); b.p.pc.PReadMask? && Inserted(s, AtProducer(b, PReady))
  {
    InvSane(s);
  }

  lemma InsertionEnds(s: State)
    requires Inv(s) && s.p.pc.PReady?
    ensures Inserted(s, Steps(Next(s, Commit), ProducerStep, 3))
  {
    var a := Next(s, Commit);
    var b := Next(a, ProducerStep);
    var c := Next(b, ProducerStep);
    InsertionStarts(s);
    KeepNext(s, Commit);
    KeepNext(a, ProducerStep);
    InsertionReads(b);
    OneStep(a, ProducerStep, 2);
    OneStep(b, ProducerStep, 1);
    OneStep(c, ProducerStep, 0);
  }

  // The last two steps of an insertion change neither In nor what is committed.
  lemma InsertionReads(s: State)
    requires Inv(s) && s.p.pc.PReadMask?
    ensures var t := Next(Next(s, ProducerStep), ProducerStep);
      t.p.pc.PReady? && t.h.committed == s.h.committed && t.h.sent == s.h.sent && t.sh.inp == s.sh.inp
  {
    InvSane(s);
    AlignedSlot(s.n, s.h.out);
  }

  lemma RemovalEnds(s: State)
    requires Inv(s) && s.c.pc.CReady?
    ensures Removed(s, Steps(Next(s, Remove), ConsumerStep, 3))
  {
    InvSane(s);
    var a := Next(s, Remove);
    var b := Next(a, ConsumerStep);
    var c := Next(b, ConsumerStep);
    AlignedSlot(s.n, s.h.bounds[s.h.committed]);
    OneStep(a, ConsumerStep, 2);
    OneStep(b, ConsumerStep, 1);
    OneStep(c, ConsumerStep, 0);
  }
}
