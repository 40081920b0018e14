// server/internal/hub/hub.go as a transition system. One action is one region
// under the hub's lock or one channel operation; receivers do not take the
// lock, so they interleave with the sends of a broadcast.
module HubProtocol {

  type ChanId = nat

  /** A buffered Go channel, with everything ever received from it. */
  datatype Chan<E> = Chan(cap: nat, buffer: seq<E>, open: bool, delivered: seq<E>) {
    /** All that was ever put into the channel. */
    function Accepted(): seq<E> { delivered + buffer }
  }

  /** Who holds the hub's mutex: nobody, or a broadcast with subscribers left
      to visit and subscribers found not ready. */
  datatype Lock<E> = Free | Sending(event: E, left: set<ChanId>, dead: set<ChanId>)

  /** `log` is every event handed to Broadcast; `start[c]` is how many there
      were when `c` was subscribed. */
  datatype State<E> = State(chans: map<ChanId, Chan<E>>, subs: set<ChanId>, lock: Lock<E>,
                            log: seq<E>, start: map<ChanId, nat>)

  datatype Action<E> =
    | Make(c: ChanId, cap: nat)
    | Subscribe(c: ChanId)
    | Unsubscribe(c: ChanId)
    | Begin(event: E)
    | Send(c: ChanId, waiting: bool)
    | Reap(c: ChanId)
    | End
    | Receive(c: ChanId)

  function Init<E>(): State<E> { State(map[], {}, Free, [], map[]) }

  predicate Enabled<E>(s: State<E>, a: Action<E>) {
    match a
    case Make(c, cap) => c !in s.chans
    // Every caller subscribes a channel it has just made.
    case Subscribe(c) => s.lock.Free? && c in s.chans && s.chans[c].open
    case Unsubscribe(c) => s.lock.Free?
    case Begin(_) => s.lock.Free?
    case Send(c, _) => s.lock.Sending? && c in s.lock.left
    case Reap(c) => s.lock.Sending? && s.lock.left == {} && c in s.lock.dead
    case End => s.lock.Sending? && s.lock.left == {} && s.lock.dead == {}
    case Receive(c) => c in s.chans && s.chans[c].buffer != []
  }

  /** Sending on a closed channel and closing a closed channel panic in Go. */
  predicate Panics<E>(s: State<E>, a: Action<E>) {
    match a
    case Send(c, _) => c !in s.chans || !s.chans[c].open
    case Reap(c) => c !in s.chans || !s.chans[c].open
    case Unsubscribe(c) => c in s.subs && (c !in s.chans || !s.chans[c].open)
    case _ => false
  }

  function Close<E>(s: State<E>, c: ChanId): State<E> {
    s.(subs := s.subs - {c},
       chans := if c in s.chans then s.chans[c := s.chans[c].(open := false)] else s.chans)
  }

  /** A send proceeds when there is room, or straight into a waiting receiver
      when the channel has no buffer at all. */
  predicate Ready<E>(ch: Chan<E>, waiting: bool) {
    |ch.buffer| < ch.cap || (ch.cap == 0 && waiting)
  }

  function Put<E>(ch: Chan<E>, e: E): Chan<E> {
    if ch.cap == 0 then ch.(delivered := ch.delivered + [e]) else ch.(buffer := ch.buffer + [e])
  }

  function Next<E>(s: State<E>, a: Action<E>): State<E>
    requires Enabled(s, a) && !Panics(s, a)
  {
    match a
    case Make(c, cap) => s.(chans := s.chans[c := Chan(cap, [], true, [])])
    case Subscribe(c) =>
      if c in s.subs then s else s.(subs := s.subs + {c}, start := s.start[c := |s.log|])
    case Unsubscribe(c) => if c in s.subs then Close(s, c) else s
    case Begin(e) => s.(lock := Sending(e, s.subs, {}), log := s.log + [e])
    case Send(c, waiting) =>
      if Ready(s.chans[c], waiting)
      then s.(chans := s.chans[c := Put(s.chans[c], s.lock.event)], lock := s.lock.(left := s.lock.left - {c}))
      else s.(lock := s.lock.(left := s.lock.left - {c}, dead := s.lock.dead + {c}))
    case Reap(c) => Close(s, c).(lock := s.lock.(dead := s.lock.dead - {c}))
    case End => s.(lock := Free)
    case Receive(c) =>
      var ch := s.chans[c];
      s.(chans := s.chans[c := ch.(buffer := ch.buffer[1..], delivered := ch.delivered + [ch.buffer[0]])])
  }

  /** Executes the actions in order, skipping those that are not enabled. A
      panic would stop the run; `ChannelSafety` shows that there is none. */
  function Exec<E>(s: State<E>, acts: seq<Action<E>>): State<E> {
    if acts == [] then s
    else
      var mid := Exec(s, acts[..|acts| - 1]);
      var a := acts[|acts| - 1];
      if Enabled(mid, a) && !Panics(mid, a) then Next(mid, a) else mid
  }

  // ---------- What every step keeps ----------

  /** Still waiting for the event of the broadcast in progress. */
  predicate Pending<E>(s: State<E>, c: ChanId) {
    s.lock.Sending? && (c in s.lock.left || c in s.lock.dead)
  }

  ghost predicate ChannelOk<E>(s: State<E>, c: ChanId)
    requires c in s.chans
  {
    var ch := s.chans[c];
    && |ch.buffer| <= ch.cap
    && (c !in s.start ==> ch.open && ch.Accepted() == [])
    && (c in s.start ==>
          && (c in s.subs <==> ch.open)
          && s.start[c] + |ch.Accepted()| <= |s.log|
          && ch.Accepted() == s.log[s.start[c]..s.start[c] + |ch.Accepted()|])
    && (c in s.subs ==>
          c in s.start && s.start[c] + |ch.Accepted()| == |s.log| - if Pending(s, c) then 1 else 0)
  }

  ghost predicate Inv<E>(s: State<E>) {
    && s.subs <= s.start.Keys <= s.chans.Keys
    && (s.lock.Sending? ==>
          && s.lock.left <= s.subs && s.lock.dead <= s.subs && s.lock.left !! s.lock.dead
          && s.log != [] && s.log[|s.log| - 1] == s.lock.event)
    && forall c | c in s.chans :: ChannelOk(s, c)
  }

  lemma SendReachesChannel<E>(s: State<E>, c: ChanId, waiting: bool)
    requires Inv(s) && Enabled(s, Send(c, waiting)) && !Panics(s, Send(c, waiting))
    requires Ready(s.chans[c], waiting)
    ensures ChannelOk(Next(s, Send(c, waiting)), c)
  {
    assert ChannelOk(s, c);
    var ch, t := s.chans[c], Next(s, Send(c, waiting));
    var n := |ch.Accepted()|;
    hide Put;
    assert t.chans[c].Accepted() == ch.Accepted() + [s.lock.event];
    assert |t.chans[c].Accepted()| == n + 1;
    assert !Pending(t, c);
  }

  lemma SendKeepsChannel<E>(s: State<E>, d: ChanId, waiting: bool, c: ChanId)
    requires Inv(s) && Enabled(s, Send(d, waiting)) && !Panics(s, Send(d, waiting)) && c in s.chans
    ensures ChannelOk(Next(s, Send(d, waiting)), c)
  {
    if d == c && Ready(s.chans[c], waiting) {
      SendReachesChannel(s, c, waiting);
    } else {
      assert ChannelOk(s, c);
      assert Next(s, Send(d, waiting)).chans[c] == s.chans[c];
      hide Chan.Accepted, Put, Ready;
    }
  }

  lemma ReceiveKeepsChannel<E>(s: State<E>, d: ChanId, c: ChanId)
    requires Inv(s) && Enabled(s, Receive(d)) && c in s.chans
    ensures ChannelOk(Next(s, Receive(d)), c)
  {
    assert ChannelOk(s, c);
    assert Next(s, Receive(d)).chans[c].Accepted() == s.chans[c].Accepted();
    assert |s.chans[c].buffer| <= s.chans[c].cap;
  }

  lemma BeginKeepsChannel<E>(s: State<E>, e: E, c: ChanId)
    requires Inv(s) && Enabled(s, Begin(e)) && c in s.chans
    ensures ChannelOk(Next(s, Begin(e)), c)
  {
    assert ChannelOk(s, c);
  }

  lemma CloseKeepsChannel<E>(s: State<E>, a: Action<E>, c: ChanId)
    requires Inv(s) && Enabled(s, a) && !Panics(s, a) && c in s.chans
    requires a.Unsubscribe? || a.Reap?
    ensures ChannelOk(Next(s, a), c)
  {
    assert ChannelOk(s, c);
    assert |s.chans[c].buffer| <= s.chans[c].cap;
  }

  lemma RegisterKeepsChannel<E>(s: State<E>, a: Action<E>, c: ChanId)
    requires Inv(s) && Enabled(s, a) && c in Next(s, a).chans
    requires a.Make? || a.Subscribe? || a.End?
    ensures ChannelOk(Next(s, a), c)
  {
    if c !in s.chans {
      assert Next(s, a).chans[c] == Chan(a.cap, [], true, []);
    } else {
      assert ChannelOk(s, c);
    }
  }

  lemma StepKeepsChannel<E>(s: State<E>, a: Action<E>, c: ChanId)
    requires Inv(s) && Enabled(s, a) && !Panics(s, a)
    requires c in Next(s, a).chans
    ensures ChannelOk(Next(s, a), c)
  {
    hide ChannelOk;
    match a {
      case Send(d, waiting) => SendKeepsChannel(s, d, waiting, c);
      case Receive(d) => ReceiveKeepsChannel(s, d, c);
      case Begin(e) => BeginKeepsChannel(s, e, c);
      case Unsubscribe(_) => CloseKeepsChannel(s, a, c);
      case Reap(_) => CloseKeepsChannel(s, a, c);
      case _ => RegisterKeepsChannel(s, a, c);
    }
  }

  /** Every action keeps the invariant. */
  lemma StepKeepsInv<E>(s: State<E>, a: Action<E>)
    requires Inv(s) && Enabled(s, a) && !Panics(s, a)
    ensures Inv(Next(s, a))
  {
    hide ChannelOk;
    forall c | c in Next(s, a).chans ensures ChannelOk(Next(s, a), c) {
      StepKeepsChannel(s, a, c);
    }
  }

  lemma {:induction false} RunKeepsInv<E>(s: State<E>, acts: seq<Action<E>>)
    requires Inv(s)
    ensures Inv(Exec(s, acts))
  {
    if acts != [] {
      var mid := Exec(s, acts[..|acts| - 1]);
      RunKeepsInv(s, acts[..|acts| - 1]);
      if Enabled(mid, acts[|acts| - 1]) {
        StepKeepsInv(mid, acts[|acts| - 1]);
      }
    }
  }

  // ---------- Whole runs ----------

  /** Channel safety: whatever happened before, no enabled action panics, and a
      channel that was ever subscribed is registered exactly while it is open. */
  lemma ChannelSafety<E>(acts: seq<Action<E>>, a: Action<E>, c: ChanId)
    ensures var s := Exec(Init<E>(), acts);
            (Enabled(s, a) ==> !Panics(s, a))
            && (c in s.start ==> c in s.chans && (c in s.subs <==> s.chans[c].open))
  {
    var s := Exec(Init<E>(), acts);
    RunKeepsInv(Init<E>(), acts);
    if c in s.start { assert ChannelOk(s, c); }
  }

  /** Gap-free delivery: what a subscriber received, followed by what waits in
      its buffer, is a contiguous slice of the broadcast log from the point of
      subscription, and while it is registered the slice reaches the end of the
      log, except for the event of a broadcast that has not visited it. */
  lemma GapFreeDelivery<E>(acts: seq<Action<E>>, c: ChanId)
    requires c in Exec(Init<E>(), acts).start
    ensures var s := Exec(Init<E>(), acts);
            c in s.chans
            && var from, got := s.start[c], s.chans[c].delivered + s.chans[c].buffer;
            from + |got| <= |s.log| && got == s.log[from..from + |got|]
            && (c in s.subs ==> from + |got| == |s.log| - if Pending(s, c) then 1 else 0)
  {
    RunKeepsInv(Init<E>(), acts);
    assert ChannelOk(Exec(Init<E>(), acts), c);
  }

  lemma CutOffStep<E>(s: State<E>, a: Action<E>, c: ChanId)
    requires Inv(s) && c in s.start && c !in s.subs
    requires Enabled(s, a) && !Panics(s, a)
    ensures var t := Next(s, a);
            c in t.start && c !in t.subs && t.start[c] == s.start[c]
            && t.chans[c].Accepted() == s.chans[c].Accepted()
            && s.chans[c].delivered <= t.chans[c].delivered
  {
    assert ChannelOk(s, c);
    if a.Receive? && a.c == c { assert Next(s, a).chans[c].Accepted() == s.chans[c].Accepted(); }
  }

  /** A subscriber that was cut off stays cut off: it can drain its buffer and
      never sees a later event, so it skips nothing. */
  lemma {:induction false} CutOffIsFinal<E>(s: State<E>, acts: seq<Action<E>>, c: ChanId)
    requires Inv(s) && c in s.start && c !in s.subs
    ensures var t := Exec(s, acts);
            Inv(t) && c in t.start && c !in t.subs && c in t.chans
            && t.chans[c].Accepted() == s.chans[c].Accepted()
  {
    assert ChannelOk(s, c);
    if acts != [] {
      var mid := Exec(s, acts[..|acts| - 1]);
      CutOffIsFinal(s, acts[..|acts| - 1], c);
      if Enabled(mid, acts[|acts| - 1]) {
        StepKeepsInv(mid, acts[|acts| - 1]);
        CutOffStep(mid, acts[|acts| - 1], c);
      }
    }
  }

  /** How many steps the broadcast in progress still has to make. */
  function Remaining<E>(s: State<E>): nat {
    if s.lock.Free? then 0 else 2 * |s.lock.left| + |s.lock.dead| + 1
  }

  predicate IsBroadcastStep<E>(a: Action<E>) { a.Send? || a.Reap? || a.End? }

  /** Broadcast never waits: in every reachable state that holds the lock the
      broadcaster itself has an enabled step, whatever the buffers hold; each of
      its steps brings it nearer the end and nothing else moves it back. */
  lemma BroadcastNeverWaits<E>(acts: seq<Action<E>>)
    returns (step: Action<E>)
    requires Exec(Init<E>(), acts).lock.Sending?
    ensures var s := Exec(Init<E>(), acts);
            IsBroadcastStep(step) && Enabled(s, step) && !Panics(s, step)
            && Remaining(Next(s, step)) < Remaining(s)
    ensures var s := Exec(Init<E>(), acts);
            forall a | Enabled(s, a) && !Panics(s, a) ::
              Remaining(Next(s, a)) <= Remaining(s) && (IsBroadcastStep(a) ==> Remaining(Next(s, a)) < Remaining(s))
  {
    var s := Exec(Init<E>(), acts);
    RunKeepsInv(Init<E>(), acts);
    forall a | Enabled(s, a) && !Panics(s, a)
      ensures Remaining(Next(s, a)) <= Remaining(s) && (IsBroadcastStep(a) ==> Remaining(Next(s, a)) < Remaining(s))
    {
      StepsShrink(s, a);
    }
    if s.lock.left != {} {
      var c :| c in s.lock.left;
      step := Send(c, false);
    } else if s.lock.dead != {} {
      var c :| c in s.lock.dead;
      step := Reap(c);
    } else {
      step := End;
    }
    StepsShrink(s, step);
  }

  lemma StepsShrink<E>(s: State<E>, a: Action<E>)
    requires Inv(s) && s.lock.Sending? && Enabled(s, a) && !Panics(s, a)
    ensures Remaining(Next(s, a)) <= Remaining(s)
    ensures IsBroadcastStep(a) ==> Remaining(Next(s, a)) < Remaining(s)
  {
    match a {
      case Send(c, waiting) =>
        assert |s.lock.left - {c}| == |s.lock.left| - 1;
        assert |s.lock.dead + {c}| <= |s.lock.dead| + 1;
      case Reap(c) =>
        assert |s.lock.dead - {c}| == |s.lock.dead| - 1;
      case _ =>
    }
  }

  /** Subscribing without the caller's guarantee that the channel is open. */
  function SubscribeAny<E>(s: State<E>, c: ChanId): State<E> {
    if c in s.subs then s else s.(subs := s.subs + {c}, start := s.start[c := |s.log|])
  }

  /** The guarantee is exactly what safety needs: after subscribing `c`, the
      next broadcast panics at `c` if and only if `c` was already closed. */
  lemma SubscribeNeedsOpen<E>(s: State<E>, c: ChanId, e: E, waiting: bool)
    requires Inv(s) && s.lock.Free? && c in s.chans
    ensures var t := Next(SubscribeAny(s, c), Begin(e));
            Enabled(t, Send(c, waiting)) && (Panics(t, Send(c, waiting)) <==> !s.chans[c].open)
    ensures s.chans[c].open ==> Inv(SubscribeAny(s, c))
  {
    assert ChannelOk(s, c);
    if s.chans[c].open {
      assert SubscribeAny(s, c) == Next(s, Subscribe(c));
      StepKeepsInv(s, Subscribe(c));
    }
  }

  /** Unsubscribing twice is unsubscribing once. */
  lemma UnsubscribeIdempotent<E>(s: State<E>, c: ChanId)
    requires Inv(s) && s.lock.Free?
    ensures !Panics(s, Unsubscribe(c))
    ensures var t := Next(s, Unsubscribe(c));
            !Panics(t, Unsubscribe(c)) && Next(t, Unsubscribe(c)) == t && c !in t.subs
  {}
}
