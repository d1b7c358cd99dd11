/** What callers of the pool may expect of it: which connection `get` hands out, why it may
  * come back without one, what the deque is, and what `init` and `close_all` wait for. */
module PoolService {
  import opened ConnectionPool
  import opened PoolHistory

  // ----- the deque is a queue --------------------------------------------------------------------

  /** Nothing, the oldest one taken for a `ping`, or everything dropped at the end of a loop. */
  ghost predicate Serves(s: Shared, s': Shared, t': Task) {
    || s'.available == s.available
    || (t'.GetPinging? && s.available == [t'.conn] + s'.available && Usable(s))
    || (s'.available == [] && t'.Done?)
  }

  /** `t` brings a connection: newly connected, or returned by a client to a usable pool. */
  predicate Supplies(s: Shared, t: Task, e: Env) {
    (t.InitConnecting? && e.ok) || (t.Returning? && !t.temporary && Usable(s))
  }

  /** What is brought goes to the back, what is taken comes from the front, and a deque is only
    * dropped as a whole. */
  lemma DequeIsQueue(o: Options, s: Shared, t: Task, e: Env, spare: Conn)
    ensures var (s', t') := Resume(o, s, t, e, spare);
      if Supplies(s, t, e) then s'.available == s.available + [t.conn] else Serves(s, s', t')
  {
    if t.GetPosted? && Usable(s) && s.available != [] {
      assert s.available == [s.available[0]] + s.available[1..];
    } else if t.IsInit() || t.IsClosing() {
      LoopsClear(o, s, t, e, spare);
    } else {
      OthersKeep(o, s, t, e, spare);
    }
  }

  lemma LoopsClear(o: Options, s: Shared, t: Task, e: Env, spare: Conn)
    requires t.IsInit() || t.IsClosing()
    ensures var (s', t') := Resume(o, s, t, e, spare);
      if t.InitConnecting? && e.ok then s'.available == s.available + [t.conn] else Serves(s, s', t')
  {
  }

  lemma OthersKeep(o: Options, s: Shared, t: Task, e: Env, spare: Conn)
    requires !t.IsInit() && !t.IsClosing() && !(t.GetPosted? && Usable(s) && s.available != [])
    ensures var (s', t') := Resume(o, s, t, e, spare);
      if Supplies(s, t, e) then s'.available == s.available + [t.conn] else s'.available == s.available
  {
  }

  // ----- what `get` comes back with --------------------------------------------------------------

  /** The answers that a connection gives whose `ping` would answer `ping` and whose `connect`
    * would answer `connect`. */
  function Given(ping: bool, connect: bool): seq<bool> {
    if ping then [true] else [false, connect]
  }

  /** One resumption of task `i`, as `get` makes them: the pool is in view, and so is the
    * history of every connection. */
  lemma Moves(o: Options, events: seq<Event>, i: nat, e: Env) returns (longer: seq<Event>)
    requires i < |Run(o, events).tasks|
    ensures longer == events + [Resumed(i, e)] && Extends(events, longer)
    ensures Run(o, longer) == Next(o, Run(o, events), Resumed(i, e))
    ensures forall x: Conn | x !in Run(o, events).shared.available || x in Run(o, longer).shared.available ::
      Answers(o, longer, x) == Answers(o, events, x) + if Awaits(Run(o, events).tasks[i], x) then [e.ok] else []
  {
    longer := events + [Resumed(i, e)];
    OneMore(o, events, Resumed(i, e));
    forall x: Conn | x !in Run(o, events).shared.available || x in Run(o, longer).shared.available
      ensures Answers(o, longer, x) ==
        Answers(o, events, x) + if Awaits(Run(o, events).tasks[i], x) then [e.ok] else []
    {
      AnswersExtend(o, events, Resumed(i, e), x);
    }
  }

  /** The oldest connection leaves the deque. */
  lemma Pops(o: Options, events: seq<Event>, i: nat) returns (longer: seq<Event>)
    requires var c := Run(o, events);
      i < |c.tasks| && c.tasks[i] == GetPosted && Usable(c.shared) && c.shared.available != []
    ensures Extends(events, longer)
    ensures var c, c' := Run(o, events), Run(o, longer); var x := c.shared.available[0];
      && c'.shared == c.shared.(available := c.shared.available[1..], inUse := c.shared.inUse + 1)
      && c'.tasks == c.tasks[i := GetPinging(x)]
      && Answers(o, longer, x) == []
      && forall y: Conn | y != x :: Answers(o, longer, y) == Answers(o, events, y)
  {
    hide Run;
    hide Answers;
    var s := Run(o, events).shared;
    var x := s.available[0];
    assert s.available == [x] + s.available[1..];
    OncePerDeque(o, events, x, s.available[1..]);
    longer := Moves(o, events, i, Ok());
    AnswersExtend(o, events, Resumed(i, Ok()), x);
  }

  /** `ping`, and `connect` if that fails. */
  lemma Asks(o: Options, events: seq<Event>, i: nat, ping: bool, connect: bool) returns (longer: seq<Event>)
    requires i < |Run(o, events).tasks| && Run(o, events).tasks[i].GetPinging?
    ensures Extends(events, longer)
    ensures var c, c' := Run(o, events), Run(o, longer); var x := c.tasks[i].conn;
      && c'.shared == c.shared
      && c'.tasks == c.tasks[i := if ping || connect then GetVerified(x) else GetFailed(x)]
      && Answers(o, longer, x) == Answers(o, events, x) + Given(ping, connect)
      && forall y: Conn | y != x :: Answers(o, longer, y) == Answers(o, events, y)
  {
    hide Run;
    hide Answers;
    longer := Moves(o, events, i, Env(ping, true, false));
    OnePlace(o, events, i, Run(o, events).tasks[i].conn);
    if !ping {
      longer := Moves(o, longer, i, Env(connect, true, false));
    }
  }

  /** A dead connection is dropped, and `get` begins again. */
  lemma Drops(o: Options, events: seq<Event>, i: nat) returns (longer: seq<Event>)
    requires var c := Run(o, events); i < |c.tasks| && c.tasks[i].GetFailed? && c.shared.inUse > 0
    ensures Extends(events, longer)
    ensures var c, c' := Run(o, events), Run(o, longer);
      && c'.shared == c.shared.(inUse := c.shared.inUse - 1)
      && c'.tasks == c.tasks[i := GetPosted]
    ensures forall y: Conn :: Answers(o, longer, y) == Answers(o, events, y)
  {
    hide Run;
    hide Answers;
    longer := Moves(o, events, i, Ok());
    longer := Moves(o, longer, i, Ok());
  }

  /** One turn of the loop of `get`: the oldest connection is dropped or handed out. */
  lemma TakesOrDrops(o: Options, events: seq<Event>, i: nat, ping: bool, connect: bool) returns (longer: seq<Event>)
    requires var c := Run(o, events);
      i < |c.tasks| && c.tasks[i] == GetPosted && Usable(c.shared) && c.shared.available != []
    ensures Extends(events, longer)
    ensures var c, c' := Run(o, events), Run(o, longer); var x := c.shared.available[0];
      && c'.tasks == c.tasks[i := if ping || connect then Handle(x, false) else GetPosted]
      && c'.shared == c.shared.(available := c.shared.available[1..],
                                inUse := c.shared.inUse + One(ping || connect))
      && Answers(o, longer, x) == Given(ping, connect)
      && forall y: Conn | y != x :: Answers(o, longer, y) == Answers(o, events, y)
  {
    hide Run;
    hide Answers;
    var popped := Pops(o, events, i);
    var asked := Asks(o, popped, i, ping, connect);
    ExtendsTwice(events, popped, asked);
    if ping || connect {
      longer := Moves(o, asked, i, Ok());
    } else {
      longer := Drops(o, asked, i);
    }
    ExtendsTwice(events, asked, longer);
  }

  lemma Shifted(q: seq<Conn>, n: nat)
    requires 0 < n < |q|
    ensures q[1..][..n] == q[1..n + 1] && q[1..][n..] == q[n + 1..] && q[1..][n - 1] == q[n]
    ensures q[..n + 1] == [q[0]] + q[1..n + 1]
  {
  }

  /** While the pool is usable, `get` hands out the first connection of the deque that answers
    * `ping` or can be reconnected.  Those before it have failed both and are dropped; the ones
    * behind it stay as they are and are asked nothing. */
  lemma {:induction false} GetTakesFirstAlive(o: Options, events: seq<Event>, i: nat, ping: seq<bool>,
                                              connect: seq<bool>, n: nat) returns (longer: seq<Event>)
    requires i < |Run(o, events).tasks| && Run(o, events).tasks[i] == GetPosted && Usable(Run(o, events).shared)
    requires n < |ping| == |connect| == |Run(o, events).shared.available|
    requires (forall k | 0 <= k < n :: !ping[k] && !connect[k]) && (ping[n] || connect[n])
    ensures Extends(events, longer)
    ensures var s, s' := Run(o, events).shared, Run(o, longer).shared;
      && s' == s.(available := s.available[n + 1..], inUse := s.inUse + 1)
      && Run(o, longer).tasks == Run(o, events).tasks[i := Handle(s.available[n], false)]
      && (forall k | 0 <= k <= n :: Answers(o, longer, s.available[k]) == Given(ping[k], connect[k]))
    ensures forall y: Conn | y !in Run(o, events).shared.available[..n + 1] ::
      Answers(o, longer, y) == Answers(o, events, y)
    decreases n
  {
    hide Run;
    hide Answers;
    hide Extends;
    var q := Run(o, events).shared.available;
    longer := TakesOrDrops(o, events, i, ping[0], connect[0]);
    if n > 0 {
      var next := longer;
      assert q == [q[0]] + q[1..];
      OncePerDeque(o, events, q[0], q[1..]);
      longer := GetTakesFirstAlive(o, next, i, ping[1..], connect[1..], n - 1);
      ExtendsTwice(events, next, longer);
      Shifted(q, n);
      forall k | 0 <= k <= n ensures Answers(o, longer, q[k]) == Given(ping[k], connect[k]) {
        if k > 0 {
          assert q[k] == q[1..][k - 1];
        }
      }
    }
  }

  /** With the deque empty and expansion allowed, `get` makes a temporary connection and hands it
    * out if it connects; if not, both counters are as before and `get` sleeps. */
  lemma GetExpands(o: Options, events: seq<Event>, i: nat, connect: bool) returns (longer: seq<Event>)
    requires i < |Run(o, events).tasks| && Run(o, events).tasks[i] == GetPosted
    requires var s := Run(o, events).shared;
      Usable(s) && s.available == [] && o.expand && s.dynamicCount < o.maxDynamic
    ensures Extends(events, longer)
    ensures var c, c' := Run(o, events), Run(o, longer);
      exists x: Conn ::
        && x >= c.made && Answers(o, longer, x) == [connect]
        && (if connect then
          && c'.tasks == c.tasks[i := Handle(x, true)]
          && c'.shared == c.shared.(dynamicCount := c.shared.dynamicCount + 1, inUse := c.shared.inUse + 1)
        else c'.tasks == c.tasks[i := GetWaiting] && c'.shared == c.shared)
  {
    hide Run;
    hide Answers;
    var c := Run(o, events);
    AnswersAreHeeded(o, events);
    var e1 := Moves(o, events, i, Ok());
    var e2 := Moves(o, e1, i, Ok());
    var x := Run(o, e1).made;
    assert Run(o, e2).tasks[i] == DynamicConnecting(x);
    AnswersAreHeeded(o, e2);
    assert Earned(Run(o, e2).tasks[i], Answers(o, e2, x));
    var e3 := Moves(o, e2, i, Env(connect, true, false));
    assert Answers(o, e3, x) == [connect];
    longer := Moves(o, e3, i, Ok());
    assert Answers(o, longer, x) == [connect];
  }

  /** A client's connection goes to the back of the deque of a usable pool; a temporary one
    * is closed. */
  lemma ReturnedGoesBack(o: Options, events: seq<Event>, i: nat) returns (longer: seq<Event>)
    requires i < |Run(o, events).tasks| && Run(o, events).tasks[i].Handle?
    ensures Extends(events, longer)
    ensures var c, c' := Run(o, events), Run(o, longer);
      var s, t := c.shared, c.tasks[i];
      && c'.tasks == c.tasks[i := Done]
      && c'.shared.available == s.available + (if !t.temporary && Usable(s) then [t.conn] else [])
      && c'.shared.inUse == s.inUse - 1
      && c'.shared.dynamicCount == s.dynamicCount - One(t.temporary)
  {
    hide Run;
    hide Answers;
    LeaseAccounting(o, events);
    CountsCover(Run(o, events).tasks, i);
    var sent := Moves(o, events, i, Ok());
    longer := Moves(o, sent, i, Ok());
  }

  predicate Getting(t: Task) {
    t.GetPosted? || t.GetPinging? || t.GetReconnecting? || t.GetFailed? || t.GetVerified? || t.GetDisconnecting?
    || t.GetWaiting? || t.DynamicPosted? || t.DynamicConnecting? || t.DynamicFailed? || t.DynamicReady?
    || t.DynamicDisconnecting?
  }

  /** Why `get` comes back with nothing, sleeps, or leaves the deque alone. */
  ghost predicate Reasons(o: Options, s: Shared, t: Task, e: Env, t': Task) {
    var room := o.expand && s.dynamicCount < o.maxDynamic;
    && (t'.Done? ==> !e.inTime || (t.GetPosted? && !Usable(s)))
    && (t'.GetWaiting? ==> e.inTime && (t.GetPosted? ==> Usable(s) && s.available == [] && !room))
    && (t'.GetPosted? ==> e.inTime && !t.GetPosted?)
    && (t'.DynamicPosted? ==> t.GetPosted? && Usable(s) && s.available == [] && room)
    && (t'.DynamicConnecting? ==> t.DynamicPosted? && Usable(s) && s.dynamicCount < o.maxDynamic)
    && (t'.Handle? ==> Usable(s))
    && ((t.GetVerified? || t.DynamicReady?) && Usable(s) ==> t' == Handle(t.conn, t.DynamicReady?))
    && (t'.GetDisconnecting? || t'.DynamicDisconnecting? ==> t.GetFailed? || !Usable(s))
    && (t.GetPosted? && !Usable(s) ==> t'.Done?)
    && !t'.Returning? && !t'.IsInit() && !t'.IsClosing() && t' != t
  }

  lemma GetHasReasons(o: Options, s: Shared, t: Task, e: Env, spare: Conn)
    requires Getting(t)
    ensures Reasons(o, s, t, e, Resume(o, s, t, e, spare).1)
  {
    if t.IsPlain() || t.IsDynamic() {
      LeaseHasReasons(o, s, t, e, spare);
    } else {
      FreeHasReasons(o, s, t, e, spare);
    }
  }

  lemma LeaseHasReasons(o: Options, s: Shared, t: Task, e: Env, spare: Conn)
    requires Getting(t) && (t.IsPlain() || t.IsDynamic())
    ensures Reasons(o, s, t, e, Resume(o, s, t, e, spare).1)
  {
  }

  lemma FreeHasReasons(o: Options, s: Shared, t: Task, e: Env, spare: Conn)
    requires Getting(t) && !t.IsPlain() && !t.IsDynamic()
    ensures Reasons(o, s, t, e, Resume(o, s, t, e, spare).1)
  {
  }

  // ----- temporary connections -------------------------------------------------------------------

  /** `x` is nobody's but a temporary lease's. */
  ghost predicate Temporary(c: Config, x: Conn) {
    && x < c.made && x !in c.shared.available
    && forall i | 0 <= i < |c.tasks| && c.tasks[i].Owns(x) :: c.tasks[i].IsDynamic() || c.tasks[i].DynamicDisconnecting?
  }

  lemma PieceKeepsTemporary(o: Options, s: Shared, t: Task, e: Env, spare: Conn, x: Conn)
    requires x != spare && x !in s.available && (t.Owns(x) ==> t.IsDynamic() || t.DynamicDisconnecting?)
    ensures var (s', t') := Resume(o, s, t, e, spare);
      x !in s'.available && (t'.Owns(x) ==> t'.IsDynamic() || t'.DynamicDisconnecting?)
  {
    hide Resume;
    DequeIsQueue(o, s, t, e, spare);
    if t.Owns(x) {
      DynamicStays(o, s, t, e, spare, x);
    } else {
      NothingNew(o, s, t, e, spare, x);
    }
  }

  lemma DynamicStays(o: Options, s: Shared, t: Task, e: Env, spare: Conn, x: Conn)
    requires t.IsDynamic() || t.DynamicDisconnecting?
    ensures var t' := Resume(o, s, t, e, spare).1; t'.Owns(x) ==> t'.IsDynamic() || t'.DynamicDisconnecting?
  {
  }

  lemma NothingNew(o: Options, s: Shared, t: Task, e: Env, spare: Conn, x: Conn)
    requires x != spare && x !in s.available && !t.Owns(x)
    ensures !Resume(o, s, t, e, spare).1.Owns(x)
  {
    hide Resume;
    NoDuplication(o, s, t, e, spare, x);
  }

  lemma TemporaryStep(o: Options, c: Config, ev: Event, x: Conn)
    requires Temporary(c, x)
    ensures Temporary(Next(o, c, ev), x)
  {
    match ev
    case Called(call, e) =>
      BeginOwns(c.shared, call, e, c.made);
    case Resumed(i, e) =>
      if i < |c.tasks| {
        PieceKeepsTemporary(o, c.shared, c.tasks[i], e, c.made, x);
      }
  }

  /** A connection that was made as a temporary one never waits in the deque, and is never
    * held as one of the pool's own. */
  lemma {:induction false} TemporaryStays(o: Options, events: seq<Event>, longer: seq<Event>, x: Conn)
    requires events <= longer && DynamicConnecting(x) in Run(o, events).tasks
    ensures Temporary(Run(o, longer), x)
    decreases |longer|
  {
    hide Run;
    if |longer| > |events| {
      var n := |longer| - 1;
      TemporaryStays(o, events, longer[..n], x);
      assert longer == longer[..n] + [longer[n]];
      RunExtends(o, longer[..n], longer[n]);
      TemporaryStep(o, Run(o, longer[..n]), longer[n], x);
    } else {
      assert longer == events;
      var ts := Run(o, events).tasks;
      var i :| 0 <= i < |ts| && ts[i] == DynamicConnecting(x);
      OnePlace(o, events, i, x);
    }
  }

  /** Without the option there are none. */
  lemma {:induction false} NoneWithoutOption(o: Options, events: seq<Event>)
    requires !o.expand
    ensures var c := Run(o, events);
      && c.shared.dynamicCount == Dynamic(c.tasks) == 0
      && forall i | 0 <= i < |c.tasks| :: !c.tasks[i].IsDynamic() && !c.tasks[i].DynamicPosted?
  {
    hide Resume;
    if events != [] {
      var n := |events| - 1;
      var c, ev := Run(o, events[..n]), events[n];
      NoneWithoutOption(o, events[..n]);
      match ev
      case Called(call, e) =>
        CountsAppend(c.tasks, Begin(c.shared, call, e, c.made).1, 0);
      case Resumed(i, e) =>
        if i < |c.tasks| {
          StaysPlain(o, c.shared, c.tasks[i], e, c.made);
          CountsUpdate(c.tasks, i, Resume(o, c.shared, c.tasks[i], e, c.made).1);
        }
    }
    LeaseAccounting(o, events);
  }

  lemma StaysPlain(o: Options, s: Shared, t: Task, e: Env, spare: Conn)
    requires !o.expand && !t.IsDynamic() && !t.DynamicPosted?
    ensures var t' := Resume(o, s, t, e, spare).1; !t'.IsDynamic() && !t'.DynamicPosted?
  {
  }

  // ----- init and close_all ----------------------------------------------------------------------

  /** A call of `init` changes a pool only if it is neither initialized nor closing, and then
    * begins with an empty pool of the size asked for. */
  lemma InitBegins(s: Shared, size: nat, e: Env, spare: Conn)
    ensures var (s', t) := Begin(s, Init(size), e, spare);
      && s' == s.(poolSize := s'.poolSize, initialized := s'.initialized)
      && (if s.initialized || s.closing then s' == s && t == Done
        else s'.poolSize == size && (s'.initialized <==> size == 0) && (size > 0 ==> t == InitConnecting(spare, 0)))
  {
  }

  /** A piece makes the pool usable only as the last one of an `init` whose connects have all
    * succeeded: the deque has the size asked for, and all in it is alive. */
  lemma InitDelivers(o: Options, events: seq<Event>, i: nat, e: Env)
    requires InitsDoNotOverlap(o, events) && i < |Run(o, events).tasks|
    requires !Run(o, events).shared.initialized && Run(o, events + [Resumed(i, e)]).shared.initialized
    ensures var c' := Run(o, events + [Resumed(i, e)]);
      && |c'.shared.available| == c'.shared.poolSize && c'.tasks[i] == Done
      && forall x | x in c'.shared.available :: Alive(Answers(o, events + [Resumed(i, e)], x))
  {
    hide Answers;
    var c := Run(o, events);
    RunIsOrderly(o, events);
    RunExtends(o, events, Resumed(i, e));
    AnswersAreHeeded(o, events + [Resumed(i, e)]);
    assert Position(c.shared, c.tasks[i]);
    LastConnect(o, c.shared, c.tasks[i], e, c.made);
  }

  lemma LastConnect(o: Options, s: Shared, t: Task, e: Env, spare: Conn)
    requires Position(s, t) && !s.initialized
    ensures var (s', t') := Resume(o, s, t, e, spare);
      s'.initialized ==> |s'.available| == s'.poolSize && t' == Done
  {
  }

  /** An `init` whose `connect` fails ends with an empty deque and an unusable pool: at once or
    * after its loop, which none of its pieces leaves otherwise. */
  lemma InitFails(o: Options, s: Shared, t: Task, e: Env, spare: Conn)
    requires Position(s, t) && ((t.InitConnecting? && !e.ok) || t.InitDisconnecting?)
    ensures var (s', t') := Resume(o, s, t, e, spare);
      && !s'.initialized
      && (if t'.Done? then s'.available == []
        else
          && t'.InitDisconnecting? && s' == s && t'.end == |s.available|
          && t'.k == if t.InitConnecting? then 0 else t.k + 1)
  {
  }

  /** No lease on any connection is out. */
  ghost predicate NothingOut(c: Config) {
    forall i | 0 <= i < |c.tasks| :: !c.tasks[i].IsPlain() && !c.tasks[i].IsDynamic()
  }

  lemma {:induction false} CountsNothing(ts: seq<Task>)
    ensures Plain(ts) + Dynamic(ts) == 0 <==> forall i | 0 <= i < |ts| :: !ts[i].IsPlain() && !ts[i].IsDynamic()
  {
    if ts != [] {
      CountsNothing(ts[..|ts| - 1]);
    }
  }

  /** The part of `close_all` that decides whether to go on waiting. */
  predicate Decides(s: Shared, t: Task) {
    (t.ClosePosted? && Usable(s)) || t.CloseWaitPosted?
  }

  /** In every interleaving: `close_all`, asked to wait and in time, goes on to its disconnect
    * loop exactly when no lease is out. */
  lemma CloseWaitsExactly(o: Options, events: seq<Event>, i: nat, e: Env)
    requires i < |Run(o, events).tasks| && Decides(Run(o, events).shared, Run(o, events).tasks[i])
    requires e.wait && e.inTime
    ensures var c' := Run(o, events + [Resumed(i, e)]);
      && (c'.tasks[i] == CloseFinalPosted <==> NothingOut(Run(o, events)))
      && (c'.tasks[i] == CloseFinalPosted || c'.tasks[i].CloseWaiting? || c'.tasks[i].CloseWaitPosted?)
      && c'.shared == (var s := Run(o, events).shared;
        if Run(o, events).tasks[i].ClosePosted? then s.(closing := true) else s)
  {
    hide Run;
    hide Resume;
    hide Decides;
    var c := Run(o, events);
    RunExtends(o, events, Resumed(i, e));
    LeaseAccounting(o, events);
    CountsNothing(c.tasks);
    Decision(o, c.shared, c.tasks[i], e, c.made);
  }

  lemma Decision(o: Options, s: Shared, t: Task, e: Env, spare: Conn)
    requires Decides(s, t) && e.wait && e.inTime
    ensures var (s', t') := Resume(o, s, t, e, spare);
      && s' == (if t.ClosePosted? then s.(closing := true) else s)
      && (t' == CloseFinalPosted <==> s.inUse == 0)
      && (t' == CloseFinalPosted || t'.CloseWaiting? || t'.CloseWaitPosted?)
  {
  }

  /** When its time is up, or when it was not asked to wait, it goes on in any case. */
  lemma CloseGoesOn(o: Options, s: Shared, t: Task, e: Env, spare: Conn)
    requires (Decides(s, t) && (!e.inTime || (t.ClosePosted? && !e.wait))) || (t.CloseWaiting? && !e.inTime)
    ensures Resume(o, s, t, e, spare) == (s.(closing := s.closing || t.ClosePosted?), CloseFinalPosted)
  {
  }
}
