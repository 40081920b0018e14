// server/internal/hub/hub.go: the hub itself, each method one uninterrupted
// stretch of the protocol.
module Hub {
  import opened HubProtocol

  lemma ExecGrows<E>(s: State<E>, acts: seq<Action<E>>, a: Action<E>)
    ensures var mid := Exec(s, acts);
            Exec(s, acts + [a]) == if Enabled(mid, a) && !Panics(mid, a) then Next(mid, a) else mid
  {
    assert (acts + [a])[..|acts|] == acts;
  }

  predicate IsBroadcast<E(==)>(acts: seq<Action<E>>, e: E) {
    acts != [] && acts[0] == Begin(e) && forall i | 1 <= i < |acts| :: IsBroadcastStep(acts[i])
  }

  predicate BroadcastSteps<E>(acts: seq<Action<E>>) {
    forall i | 0 <= i < |acts| :: IsBroadcastStep(acts[i])
  }

  lemma OneMoreStep<E>(acts: seq<Action<E>>, a: Action<E>)
    requires BroadcastSteps(acts) && IsBroadcastStep(a)
    ensures BroadcastSteps(acts + [a])
  {}

  /** `whole` is split into what is left and what is done. */
  predicate Split<T>(whole: set<T>, left: set<T>, done: set<T>) {
    whole == left + done && left !! done
  }

  lemma SplitMove<T>(whole: set<T>, left: set<T>, done: set<T>, c: T)
    requires Split(whole, left, done) && c in left
    ensures c in whole && c !in done && Split(whole, left - {c}, done + {c})
  {}

  lemma SplitGrow<T>(whole: set<T>, left: set<T>, done: set<T>, c: T)
    requires Split(whole, left, done) && c !in whole
    ensures Split(whole + {c}, left, done + {c}) && Split(whole + {c}, left + {c}, done)
  {}

  /** The channels among `cs` that can take an event. */
  function ReadyAmong<E>(chans: map<ChanId, Chan<E>>, cs: set<ChanId>, waiting: set<ChanId>): set<ChanId> {
    set c | c in cs && c in chans && Ready(chans[c], c in waiting)
  }

  function PutAll<E>(chans: map<ChanId, Chan<E>>, cs: set<ChanId>, e: E): (m: map<ChanId, Chan<E>>)
    ensures m.Keys == chans.Keys
  {
    map c | c in chans :: if c in cs then Put(chans[c], e) else chans[c]
  }

  function CloseAll<E>(chans: map<ChanId, Chan<E>>, cs: set<ChanId>): (m: map<ChanId, Chan<E>>)
    ensures m.Keys == chans.Keys
  {
    map c | c in chans :: if c in cs then chans[c].(open := false) else chans[c]
  }

  lemma ReadyOneMore<E>(chans: map<ChanId, Chan<E>>, cs: set<ChanId>, c: ChanId, waiting: set<ChanId>)
    requires c in chans
    ensures ReadyAmong(chans, cs + {c}, waiting) ==
            ReadyAmong(chans, cs, waiting) + if Ready(chans[c], c in waiting) then {c} else {}
  {}

  lemma PutOneMore<E>(chans: map<ChanId, Chan<E>>, cs: set<ChanId>, c: ChanId, e: E)
    requires c in chans && c !in cs
    ensures c in PutAll(chans, cs, e) && PutAll(chans, cs, e)[c] == chans[c]
    ensures PutAll(chans, cs + {c}, e) == PutAll(chans, cs, e)[c := Put(chans[c], e)]
  {}

  lemma CloseOneMore<E>(chans: map<ChanId, Chan<E>>, cs: set<ChanId>, c: ChanId)
    requires c in chans && c !in cs
    ensures c in CloseAll(chans, cs) && CloseAll(chans, cs)[c] == chans[c]
    ensures CloseAll(chans, cs + {c}) == CloseAll(chans, cs)[c := chans[c].(open := false)]
  {}

  // ---------- The two loops on values ----------

  function SendState<E>(s0: State<E>, chans: map<ChanId, Chan<E>>, left: set<ChanId>, dead: set<ChanId>): State<E>
    requires s0.lock.Sending?
  {
    s0.(chans := chans, lock := Sending(s0.lock.event, left, dead))
  }

  /** The subscribers seen so far are split into the ready ones, which have got the
      event, and the others. */
  ghost predicate SendLoop<E>(s0: State<E>, waiting: set<ChanId>, chans: map<ChanId, Chan<E>>, acts: seq<Action<E>>,
                              left: set<ChanId>, seen: set<ChanId>, dead: set<ChanId>)
    requires s0.lock.Sending?
  {
    var done := ReadyAmong(s0.chans, seen, waiting);
    && Split(s0.subs, left, seen) && Split(seen, dead, done) && chans == PutAll(s0.chans, done, s0.lock.event)
    && BroadcastSteps(acts) && SendState(s0, chans, left, dead) == Exec(s0, acts)
  }

  lemma SendStarts<E>(s0: State<E>, waiting: set<ChanId>)
    requires s0.lock.Sending? && s0.lock.left == s0.subs && s0.lock.dead == {}
    ensures SendLoop(s0, waiting, s0.chans, [], s0.subs, {}, {})
  {
    assert ReadyAmong(s0.chans, {}, waiting) == {} && PutAll(s0.chans, {}, s0.lock.event) == s0.chans;
  }

  lemma SendAdvances<E>(s0: State<E>, waiting: set<ChanId>, chans: map<ChanId, Chan<E>>, acts: seq<Action<E>>,
                        left: set<ChanId>, seen: set<ChanId>, dead: set<ChanId>, c: ChanId)
    requires s0.lock.Sending? && SendLoop(s0, waiting, chans, acts, left, seen, dead) && c in left && c in chans
    requires var was, a := SendState(s0, chans, left, dead), Action<E>.Send(c, c in waiting);
             Enabled(was, a) && !Panics(was, a)
    ensures var sent := Ready(chans[c], c in waiting);
            var after := if sent then chans[c := Put(chans[c], s0.lock.event)] else chans;
            SendLoop(s0, waiting, after, acts + [Send(c, c in waiting)], left - {c}, seen + {c},
                     if sent then dead else dead + {c})
  {
    hide Put, Ready, PutAll, ReadyAmong, Exec, BroadcastSteps, Split;
    var done := ReadyAmong(s0.chans, seen, waiting);
    SplitMove(s0.subs, left, seen, c);
    SplitGrow(seen, dead, done, c);
    assert c !in done;
    PutOneMore(s0.chans, done, c, s0.lock.event);
    ReadyOneMore(s0.chans, seen, c, waiting);
    ExecGrows(s0, acts, Send(c, c in waiting));
    OneMoreStep(acts, Send(c, c in waiting));
    assert done + {} == done;
  }

  lemma SendEnds<E>(s0: State<E>, waiting: set<ChanId>, chans: map<ChanId, Chan<E>>, acts: seq<Action<E>>,
                    seen: set<ChanId>, dead: set<ChanId>)
    requires s0.lock.Sending? && SendLoop(s0, waiting, chans, acts, {}, seen, dead)
    ensures var done := ReadyAmong(s0.chans, s0.subs, waiting);
            && chans == PutAll(s0.chans, done, s0.lock.event) && Split(s0.subs, dead, done)
            && BroadcastSteps(acts) && SendState(s0, chans, {}, dead) == Exec(s0, acts)
  {
    assert seen == s0.subs;
  }

  function ReapState<E>(s0: State<E>, chans: map<ChanId, Chan<E>>, subs: set<ChanId>, dead: set<ChanId>): State<E>
    requires s0.lock.Sending?
  {
    s0.(chans := chans, subs := subs, lock := Sending(s0.lock.event, {}, dead))
  }

  ghost predicate ReapLoop<E>(s0: State<E>, chans: map<ChanId, Chan<E>>, subs: set<ChanId>, acts: seq<Action<E>>,
                              dead: set<ChanId>, done: set<ChanId>)
    requires s0.lock.Sending?
  {
    && Split(s0.lock.dead, dead, done) && subs == s0.subs - done && chans == CloseAll(s0.chans, done)
    && BroadcastSteps(acts) && ReapState(s0, chans, subs, dead) == Exec(s0, acts)
  }

  lemma ReapStarts<E>(s0: State<E>)
    requires s0.lock.Sending? && s0.lock.left == {}
    ensures ReapLoop(s0, s0.chans, s0.subs, [], s0.lock.dead, {})
  {
    assert CloseAll(s0.chans, {}) == s0.chans;
  }

  lemma ReapAdvances<E>(s0: State<E>, chans: map<ChanId, Chan<E>>, subs: set<ChanId>, acts: seq<Action<E>>,
                        dead: set<ChanId>, done: set<ChanId>, c: ChanId)
    requires s0.lock.Sending? && ReapLoop(s0, chans, subs, acts, dead, done) && c in dead && c in chans
    requires var was, a := ReapState(s0, chans, subs, dead), Action<E>.Reap(c); Enabled(was, a) && !Panics(was, a)
    ensures ReapLoop(s0, chans[c := chans[c].(open := false)], subs - {c}, acts + [Reap(c)], dead - {c}, done + {c})
  {
    hide CloseAll, Exec, BroadcastSteps, Split;
    SplitMove(s0.lock.dead, dead, done, c);
    CloseOneMore(s0.chans, done, c);
    ExecGrows(s0, acts, Reap(c));
    OneMoreStep(acts, Reap(c));
    assert s0.subs - done - {c} == s0.subs - (done + {c});
  }

  lemma ReapEnds<E>(s0: State<E>, chans: map<ChanId, Chan<E>>, subs: set<ChanId>, acts: seq<Action<E>>,
                    done: set<ChanId>)
    requires s0.lock.Sending? && ReapLoop(s0, chans, subs, acts, {}, done)
    ensures subs == s0.subs - s0.lock.dead && chans == CloseAll(s0.chans, s0.lock.dead)
    ensures BroadcastSteps(acts) && ReapState(s0, chans, subs, {}) == Exec(s0, acts)
  {
    assert done == s0.lock.dead;
  }

  class Hub<E(==)> {
    var subs: set<ChanId>
    /** The channels of the process, subscribed or not. */
    var chans: map<ChanId, Chan<E>>
    ghost var log: seq<E>
    ghost var start: map<ChanId, nat>

    ghost function View(lock: Lock<E>): State<E>
      reads this
    {
      State(chans, subs, lock, log, start)
    }

    ghost predicate Valid()
      reads this
    {
      Inv(View(Free))
    }

    constructor ()
      ensures Valid() && View(Free) == Init()
    {
      subs, chans, log, start := {}, map[], [], map[];
    }

    /** `make(chan Event, cap)`. */
    method Make(c: ChanId, cap: nat)
      requires Valid() && c !in chans
      modifies this
      ensures Valid() && View(Free) == Next(old(View(Free)), Action<E>.Make(c, cap))
    {
      StepKeepsInv(View(Free), Action<E>.Make(c, cap));
      chans := chans[c := Chan(cap, [], true, [])];
    }

    method Subscribe(c: ChanId)
      requires Valid() && c in chans && chans[c].open
      modifies this
      ensures Valid() && View(Free) == Next(old(View(Free)), Action<E>.Subscribe(c))
      ensures subs == old(subs) + {c} && chans == old(chans) && log == old(log)
    {
      StepKeepsInv(View(Free), Action<E>.Subscribe(c));
      if c !in subs {
        start := start[c := |log|];
      }
      subs := subs + {c};
    }

    method Unsubscribe(c: ChanId)
      requires Valid()
      modifies this
      ensures Valid() && subs == old(subs) - {c} && log == old(log) && start == old(start)
      ensures chans.Keys == old(chans).Keys
              && forall d | d in chans ::
                   chans[d] == if d == c && c in old(subs) then old(chans)[d].(open := false) else old(chans)[d]
      ensures old(!Panics(View(Free), Action<E>.Unsubscribe(c)))
              && View(Free) == Next(old(View(Free)), Action<E>.Unsubscribe(c))
    {
      StepKeepsInv(View(Free), Action<E>.Unsubscribe(c));
      if c in subs {
        subs := subs - {c};
        chans := chans[c := chans[c].(open := false)];
      }
    }

    /** One arm of the select: the send, or the note that the channel is not ready. */
    method SendOne(c: ChanId, ev: E, waiting: bool, ghost left: set<ChanId>, ghost dead: set<ChanId>)
      returns (sent: bool)
      requires Inv(View(Sending(ev, left, dead))) && c in left
      modifies this`chans
      ensures c in old(chans) && sent == Ready(old(chans)[c], waiting)
      ensures chans == if sent then old(chans)[c := Put(old(chans)[c], ev)] else old(chans)
      ensures var was, a := old(View(Sending(ev, left, dead))), Action<E>.Send(c, waiting);
              var now := View(Sending(ev, left - {c}, if sent then dead else dead + {c}));
              Enabled(was, a) && !Panics(was, a) && now == Next(was, a) && Inv(now)
    {
      ghost var was := View(Sending(ev, left, dead));
      StepKeepsInv(was, Action<E>.Send(c, waiting));
      hide Inv, Put;
      sent := Ready(chans[c], waiting);
      if sent {
        chans := chans[c := Put(chans[c], ev)];
      }
    }

    method ReapOne(c: ChanId, ghost ev: E, ghost dead: set<ChanId>)
      requires Inv(View(Sending(ev, {}, dead))) && c in dead
      modifies this`chans, this`subs
      ensures c in old(chans) && subs == old(subs) - {c}
      ensures chans == old(chans)[c := old(chans)[c].(open := false)]
      ensures var was, a := old(View(Sending(ev, {}, dead))), Action<E>.Reap(c);
              var now := View(Sending(ev, {}, dead - {c}));
              Enabled(was, a) && !Panics(was, a) && now == Next(was, a) && Inv(now)
    {
      ghost var was := View(Sending(ev, {}, dead));
      StepKeepsInv(was, Action<E>.Reap(c));
      hide Inv;
      subs := subs - {c};
      chans := chans[c := chans[c].(open := false)];
    }

    /** The first loop of Broadcast: sends to every subscriber that is ready. */
    method SendAll(ev: E, waiting: set<ChanId>) returns (dead: set<ChanId>, ghost acts: seq<Action<E>>)
      requires Inv(View(Sending(ev, subs, {})))
      modifies this`chans
      ensures chans == PutAll(old(chans), ReadyAmong(old(chans), subs, waiting), ev)
      ensures Split(subs, dead, ReadyAmong(old(chans), subs, waiting))
      ensures BroadcastSteps(acts) && View(Sending(ev, {}, dead)) == Exec(old(View(Sending(ev, subs, {}))), acts)
      ensures Inv(View(Sending(ev, {}, dead)))
    {
      hide Inv, Put, Ready, PutAll, ReadyAmong, Exec, Next, Enabled, Panics, BroadcastSteps, Split, SendLoop;
      ghost var s0 := View(Sending(ev, subs, {}));
      acts := [];
      var left := subs;
      dead := {};
      ghost var seen: set<ChanId> := {};
      SendStarts(s0, waiting);
      while left != {}
        invariant SendLoop(s0, waiting, chans, acts, left, seen, dead)
        invariant Inv(View(Sending(ev, left, dead)))
        decreases left
      {
        ghost var before := chans;
        var c :| c in left;
        var sent := SendOne(c, ev, c in waiting, left, dead);
        SendAdvances(s0, waiting, before, acts, left, seen, dead, c);
        acts := acts + [Send(c, c in waiting)];
        left := left - {c};
        seen := seen + {c};
        if !sent {
          dead := dead + {c};
        }
      }
      SendEnds(s0, waiting, chans, acts, seen, dead);
    }

    /** The second loop: removes and closes the subscribers that were not. */
    method ReapAll(slow: set<ChanId>, ghost ev: E) returns (ghost acts: seq<Action<E>>)
      requires Inv(View(Sending(ev, {}, slow)))
      modifies this`chans, this`subs
      ensures subs == old(subs) - slow && chans == CloseAll(old(chans), slow)
      ensures BroadcastSteps(acts) && View(Sending(ev, {}, {})) == Exec(old(View(Sending(ev, {}, slow))), acts)
      ensures Inv(View(Sending(ev, {}, {})))
    {
      hide Inv, CloseAll, Exec, Next, Enabled, Panics, BroadcastSteps, Split, ReapLoop;
      ghost var s0 := View(Sending(ev, {}, slow));
      acts := [];
      var dead := slow;
      ghost var done: set<ChanId> := {};
      ReapStarts(s0);
      while dead != {}
        invariant ReapLoop(s0, chans, subs, acts, dead, done)
        invariant Inv(View(Sending(ev, {}, dead)))
        decreases dead
      {
        ghost var before, subsBefore := chans, subs;
        var c :| c in dead;
        ReapOne(c, ev, dead);
        ReapAdvances(s0, before, subsBefore, acts, dead, done, c);
        acts := acts + [Reap(c)];
        dead := dead - {c};
        done := done + {c};
      }
      ReapEnds(s0, chans, subs, acts, done);
    }

    /** The event is logged and the lock taken. */
    ghost method BeginBroadcast(ev: E)
      requires Valid()
      modifies this`log
      ensures log == old(log) + [ev] && Inv(View(Sending(ev, subs, {})))
      ensures Enabled(old(View(Free)), Begin(ev))
              && View(Sending(ev, subs, {})) == Next(old(View(Free)), Begin(ev))
    {
      StepKeepsInv(View(Free), Begin(ev));
      hide Inv;
      log := log + [ev];
    }

    method Broadcast(ev: E, waiting: set<ChanId>)
      requires Valid()
      modifies this
      ensures Valid()
      ensures log == old(log) + [ev] && start == old(start)
      ensures subs == ReadyAmong(old(chans), old(subs), waiting)
      ensures chans == CloseAll(PutAll(old(chans), subs, ev), old(subs) - subs)
      ensures old(subs) <= old(chans).Keys == chans.Keys && subs <= old(subs)
      ensures forall c | c in old(chans) && c !in old(subs) :: chans[c] == old(chans)[c]
      ensures forall c | c in old(subs) ::
                var ch := old(chans)[c];
                && |ch.buffer| <= ch.cap
                && (|ch.buffer| < ch.cap ==> c in subs && chans[c] == ch.(buffer := ch.buffer + [ev]))
                && (ch.cap == 0 && c in waiting ==> c in subs && chans[c] == ch.(delivered := ch.delivered + [ev]))
                && (|ch.buffer| == ch.cap && !(ch.cap == 0 && c in waiting) ==>
                      c !in subs && chans[c] == ch.(open := false))
      ensures exists acts :: IsBroadcast(acts, ev) && View(Free) == Exec(old(View(Free)), acts)
    {
      hide Inv, Put, Ready, Exec, Next, Enabled, Panics, PutAll, CloseAll, ReadyAmong, BroadcastSteps, IsBroadcast;
      ghost var s0 := View(Free);
      BeginBroadcast(ev);
      ghost var s1 := View(Sending(ev, subs, {}));
      var dead, sends := SendAll(ev, waiting);
      ghost var s2 := View(Sending(ev, {}, dead));
      ghost var reaps := ReapAll(dead, ev);
      ghost var s3 := View(Sending(ev, {}, {}));
      EndBroadcast(s3);
      BroadcastIsRun(s0, ev, s1, sends, s2, reaps, s3, View(Free));
      EveryoneServed(s0, waiting, ev);
    }
  }

  /** An event goes into a buffer with room or straight to a receiver waiting at an
      unbuffered channel; every other subscriber is cut off. */
  lemma EveryoneServed<E>(s: State<E>, waiting: set<ChanId>, e: E)
    requires Inv(s)
    ensures var kept := ReadyAmong(s.chans, s.subs, waiting);
            var after := CloseAll(PutAll(s.chans, kept, e), s.subs - kept);
            && s.subs <= s.chans.Keys && kept <= s.subs
            && (forall c | c in s.chans && c !in s.subs :: after[c] == s.chans[c])
            && forall c | c in s.subs ::
                 var ch := s.chans[c];
                 && |ch.buffer| <= ch.cap
                 && (|ch.buffer| < ch.cap ==> c in kept && after[c] == ch.(buffer := ch.buffer + [e]))
                 && (ch.cap == 0 && c in waiting ==> c in kept && after[c] == ch.(delivered := ch.delivered + [e]))
                 && (|ch.buffer| == ch.cap && !(ch.cap == 0 && c in waiting) ==>
                       c !in kept && after[c] == ch.(open := false))
  {
    forall c | c in s.subs
      ensures c in s.chans && |s.chans[c].buffer| <= s.chans[c].cap
    {
      assert ChannelOk(s, c);
    }
  }

  lemma EndBroadcast<E>(s: State<E>)
    requires Inv(s) && s.lock.Sending? && s.lock.left == {} && s.lock.dead == {}
    ensures Enabled(s, Action<E>.End) && Next(s, Action<E>.End) == s.(lock := Free) && Inv(s.(lock := Free))
  {
    StepKeepsInv(s, Action<E>.End);
  }

  lemma {:induction false} ExecConcat<E>(s: State<E>, first: seq<Action<E>>, second: seq<Action<E>>)
    ensures Exec(s, first + second) == Exec(Exec(s, first), second)
  {
    hide Next, Enabled, Panics;
    if second == [] {
      assert first + second == first;
    } else {
      var n := |second| - 1;
      ExecConcat(s, first, second[..n]);
      assert (first + second)[..|first| + n] == first + second[..n];
    }
  }

  lemma BroadcastIsRun<E>(s0: State<E>, e: E, s1: State<E>, sends: seq<Action<E>>, s2: State<E>,
                          reaps: seq<Action<E>>, s3: State<E>, s4: State<E>)
    requires Enabled(s0, Begin(e)) && s1 == Next(s0, Begin(e))
    requires s2 == Exec(s1, sends) && s3 == Exec(s2, reaps)
    requires Enabled(s3, Action<E>.End) && s4 == Next(s3, Action<E>.End)
    requires BroadcastSteps(sends) && BroadcastSteps(reaps)
    ensures exists acts :: IsBroadcast(acts, e) && s4 == Exec(s0, acts)
  {
    hide Exec;
    var loops := sends + reaps;
    var acts := [Begin(e)] + loops + [End];
    ExecConcat(s1, sends, reaps);
    assert Exec(s0, [Begin(e)]) == s1 by {
      ExecGrows(s0, [], Begin(e));
      EmptyExec(s0);
      assert [] + [Begin(e)] == [Begin(e)];
    }
    ExecConcat(s0, [Begin(e)], loops);
    ExecGrows(s0, [Begin(e)] + loops, Action<E>.End);
    forall i | 1 <= i < |acts| ensures IsBroadcastStep(acts[i]) {
      if i <= |loops| { assert acts[i] == loops[i - 1]; }
    }
    assert IsBroadcast(acts, e);
  }

  lemma EmptyExec<E>(s: State<E>)
    ensures Exec(s, []) == s
  {}
}
