/** What `ping` and `connect` have answered about each connection of the pool, and what the
  * coroutines may do with it.  The history is read off the events of a run: it does not ask
  * what a piece does with an answer. */
module PoolHistory {
  import opened ConnectionPool

  // ----- the history ---------------------------------------------------------------------------

  /** `t` waits for the answer of `ping` or `connect` on `x`. */
  predicate Awaits(t: Task, x: Conn) {
    (t.GetPinging? || t.GetReconnecting? || t.DynamicConnecting? || t.InitConnecting?) && t.conn == x
  }

  /** This event is the answer that some task awaited on `x`. */
  predicate IsAnswer(c: Config, ev: Event, x: Conn) {
    ev.Resumed? && ev.task < |c.tasks| && Awaits(c.tasks[ev.task], x)
  }

  predicate Left(c: Config, c': Config, x: Conn) {
    x in c.shared.available && x !in c'.shared.available
  }

  /** All answers awaited on `x` since it was made or last left the deque. */
  function Answers(o: Options, events: seq<Event>, x: Conn): seq<bool> {
    if events == [] then []
    else
      var before, ev := events[..|events| - 1], events[|events| - 1];
      var c := Run(o, before);
      if Left(c, Next(o, c, ev), x) then []
      else Answers(o, before, x) + if IsAnswer(c, ev, x) then [ev.env.ok] else []
  }

  lemma AnswersExtend(o: Options, events: seq<Event>, ev: Event, x: Conn)
    ensures Answers(o, events + [ev], x) ==
      (if Left(Run(o, events), Run(o, events + [ev]), x) then []
       else Answers(o, events, x) + if IsAnswer(Run(o, events), ev, x) then [ev.env.ok] else [])
  {
    RunExtends(o, events, ev);
    assert (events + [ev])[..|events|] == events;
  }

  // ----- every answer is heeded ------------------------------------------------------------------

  /** `ping` answered, or it did not and the reconnect succeeded; a new connection has only
    * been connected. */
  ghost predicate Alive(answers: seq<bool>) {
    answers == [true] || answers == [false, true]
  }

  ghost predicate Dead(answers: seq<bool>) {
    answers == [false] || answers == [false, false]
  }

  /** What must have been answered about its connection before a task can be where it is. */
  ghost predicate Earned(t: Task, answers: seq<bool>) {
    match t
    case InitConnecting(_, _) => answers == []
    case GetPinging(_) => answers == []
    case GetReconnecting(_) => answers == [false]
    case GetFailed(_) => answers == [false, false]
    case GetVerified(_) => Alive(answers)
    case GetDisconnecting(_) => Alive(answers) || answers == [false, false]
    case DynamicConnecting(_) => answers == []
    case DynamicReady(_) => answers == [true]
    case DynamicDisconnecting(_) => answers == [true]
    case Handle(_, temporary) => if temporary then answers == [true] else Alive(answers)
    case Returning(_, temporary) => if temporary then answers == [true] else Alive(answers)
    case InitDisconnecting(_, _, _) => answers == [false]
    case DynamicFailed(_) => answers == [false]
    case _ => true
  }

  /** `t` has a connection of its own. */
  predicate Owner(t: Task) {
    t.IsInit() || t.IsPlain() || t.IsDynamic() || t.GetDisconnecting? || t.DynamicDisconnecting?
  }

  ghost predicate Heeded(o: Options, events: seq<Event>) {
    var c := Run(o, events);
    && (forall i | 0 <= i < |c.tasks| && Owner(c.tasks[i]) ::
      Earned(c.tasks[i], Answers(o, events, c.tasks[i].conn)))
    && (forall x | x in c.shared.available :: Alive(Answers(o, events, x)))
    && (forall x: Conn | x >= c.made :: Answers(o, events, x) == [])
  }

  /** What one piece does with its connection once `answers` have been given, the last of them
    * to this piece. */
  ghost predicate PieceHeeds(s: Shared, t: Task, r: (Shared, Task), spare: Conn, answers: seq<bool>) {
    && (Owner(r.1) ==>
      || (r.1.conn == spare && Earned(r.1, []))
      || (t.Owns(r.1.conn) && Earned(r.1, answers))
      || (r.1.GetPinging? && s.available == [r.1.conn] + r.0.available))
    && (forall x | x in r.0.available :: x in s.available || (t.Owns(x) && Alive(answers)))
  }

  function Heard(t: Task, e: Env, answers: seq<bool>): seq<bool> {
    answers + if Owner(t) && Awaits(t, t.conn) then [e.ok] else []
  }

  lemma ResumeHeeds(o: Options, s: Shared, t: Task, e: Env, spare: Conn, answers: seq<bool>)
    requires Owner(t) ==> Earned(t, answers)
    ensures PieceHeeds(s, t, Resume(o, s, t, e, spare), spare, Heard(t, e, answers))
  {
    if t.IsPlain() {
      PlainHeeds(o, s, t, e, spare, answers);
    } else if t.IsInit() {
      InitHeeds(o, s, t, e, spare, answers);
    } else {
      RestHeeds(o, s, t, e, spare, answers);
    }
  }

  lemma PlainHeeds(o: Options, s: Shared, t: Task, e: Env, spare: Conn, answers: seq<bool>)
    requires t.IsPlain() && Earned(t, answers)
    ensures PieceHeeds(s, t, Resume(o, s, t, e, spare), spare, Heard(t, e, answers))
  {
  }

  lemma InitHeeds(o: Options, s: Shared, t: Task, e: Env, spare: Conn, answers: seq<bool>)
    requires t.IsInit() && Earned(t, answers)
    ensures PieceHeeds(s, t, Resume(o, s, t, e, spare), spare, Heard(t, e, answers))
  {
  }

  lemma RestHeeds(o: Options, s: Shared, t: Task, e: Env, spare: Conn, answers: seq<bool>)
    requires !t.IsPlain() && !t.IsInit() && (Owner(t) ==> Earned(t, answers))
    ensures PieceHeeds(s, t, Resume(o, s, t, e, spare), spare, Heard(t, e, answers))
  {
  }

  /** A connection has one place: its owner's, or one in the deque. */
  lemma OnePlace(o: Options, events: seq<Event>, i: nat, x: Conn)
    requires i < |Run(o, events).tasks| && Run(o, events).tasks[i].Owns(x)
    ensures var c := Run(o, events);
      && x !in c.shared.available && x < c.made
      && forall j | 0 <= j < |c.tasks| && c.tasks[j].Owns(x) :: j == i
  {
    var c := Run(o, events);
    ConnectionsAreExclusive(o, events);
    assert Places(c.shared, c.tasks, x) <= One(x < c.made);
    OwnersCover(c.tasks, i, i, x);
    forall j | 0 <= j < |c.tasks| && c.tasks[j].Owns(x) ensures j == i {
      if j < i {
        OwnersCover(c.tasks, j, i, x);
      } else if i < j {
        OwnersCover(c.tasks, i, j, x);
      }
    }
  }

  lemma OncePerDeque(o: Options, events: seq<Event>, x: Conn, rest: seq<Conn>)
    requires Run(o, events).shared.available == [x] + rest
    ensures x !in rest && x < Run(o, events).made
  {
    var c := Run(o, events);
    ConnectionsAreExclusive(o, events);
    assert Places(c.shared, c.tasks, x) <= One(x < c.made);
    assert multiset([x] + rest)[x] == 1 + multiset(rest)[x];
  }

  lemma MadeBefore(o: Options, events: seq<Event>, x: Conn)
    requires x in Run(o, events).shared.available
    ensures x < Run(o, events).made
  {
    var c := Run(o, events);
    ConnectionsAreExclusive(o, events);
    assert Places(c.shared, c.tasks, x) <= One(x < c.made);
  }

  /** An event changes the history of a connection only if it takes it from the deque or
    * resumes its owner. */
  lemma Unheard(o: Options, events: seq<Event>, ev: Event, x: Conn)
    requires !Left(Run(o, events), Run(o, events + [ev]), x)
    requires ev.Resumed? && ev.task < |Run(o, events).tasks| ==> !Run(o, events).tasks[ev.task].Owns(x)
    ensures Answers(o, events + [ev], x) == Answers(o, events, x)
  {
    AnswersExtend(o, events, ev, x);
  }

  lemma OwnHeard(o: Options, events: seq<Event>, i: nat, e: Env, x: Conn)
    requires i < |Run(o, events).tasks| && Run(o, events).tasks[i].Owns(x)
    ensures Answers(o, events + [Resumed(i, e)], x) == Heard(Run(o, events).tasks[i], e, Answers(o, events, x))
  {
    OnePlace(o, events, i, x);
    AnswersExtend(o, events, Resumed(i, e), x);
  }

  lemma CallIsHeeded(o: Options, events: seq<Event>, call: Call, e: Env)
    requires Heeded(o, events)
    ensures Heeded(o, events + [Called(call, e)])
  {
    var c, ev := Run(o, events), Called(call, e);
    RunExtends(o, events, ev);
    var c' := Run(o, events + [ev]);
    BeginOwns(c.shared, call, e, c.made);
    forall x: Conn ensures Answers(o, events + [ev], x) == Answers(o, events, x) {
      Unheard(o, events, ev, x);
    }
  }

  lemma BeginOwns(s: Shared, call: Call, e: Env, spare: Conn)
    ensures var r := Begin(s, call, e, spare);
      r.0.available == s.available && (Owner(r.1) ==> r.1 == InitConnecting(spare, 0))
  {
  }

  lemma ResumptionIsHeeded(o: Options, events: seq<Event>, i: nat, e: Env)
    requires Heeded(o, events) && i < |Run(o, events).tasks|
    ensures Heeded(o, events + [Resumed(i, e)])
  {
    hide Run;
    hide Answers;
    hide Resume;
    var c, ev := Run(o, events), Resumed(i, e);
    var t := c.tasks[i];
    var r := Resume(o, c.shared, t, e, c.made);
    RunExtends(o, events, ev);
    var c' := Run(o, events + [ev]);
    assert c' == Config(r.0, c.tasks[i := r.1], c.made + 1, c.carried);
    var answers := if Owner(t) then Answers(o, events, t.conn) else [];
    ResumeHeeds(o, c.shared, t, e, c.made, answers);
    forall j | 0 <= j < |c'.tasks| && Owner(c'.tasks[j])
      ensures Earned(c'.tasks[j], Answers(o, events + [ev], c'.tasks[j].conn))
    {
      if j == i {
        MovedIsEarned(o, events, i, e, answers);
      } else {
        OnePlace(o, events, j, c.tasks[j].conn);
        Unheard(o, events, ev, c.tasks[j].conn);
      }
    }
    forall x | x in c'.shared.available ensures Alive(Answers(o, events + [ev], x)) {
      WaitingIsAlive(o, events, i, e, answers, x);
    }
    forall x: Conn | x >= c'.made ensures Answers(o, events + [ev], x) == [] {
      if x in c.shared.available {
        MadeBefore(o, events, x);
      } else if t.Owns(x) {
        OnePlace(o, events, i, x);
      } else {
        Unheard(o, events, ev, x);
      }
    }
  }

  lemma MovedIsEarned(o: Options, events: seq<Event>, i: nat, e: Env, answers: seq<bool>)
    requires Heeded(o, events) && i < |Run(o, events).tasks|
    requires var t := Run(o, events).tasks[i]; answers == if Owner(t) then Answers(o, events, t.conn) else []
    requires var c := Run(o, events); var r := Resume(o, c.shared, c.tasks[i], e, c.made);
      && PieceHeeds(c.shared, c.tasks[i], r, c.made, Heard(c.tasks[i], e, answers)) && Owner(r.1)
    ensures var longer := events + [Resumed(i, e)];
      var ts := Run(o, longer).tasks;
      i < |ts| && Owner(ts[i]) && Earned(ts[i], Answers(o, longer, ts[i].conn))
  {
    hide Run;
    hide Answers;
    hide Resume;
    var c, ev := Run(o, events), Resumed(i, e);
    var t := c.tasks[i];
    var r := Resume(o, c.shared, t, e, c.made);
    RunExtends(o, events, ev);
    var y := r.1.conn;
    if t.Owns(y) {
      OwnHeard(o, events, i, e, y);
      OnePlace(o, events, i, y);
    } else if y == c.made {
      if y in c.shared.available {
        MadeBefore(o, events, y);
      }
      Unheard(o, events, ev, y);
    } else {
      OncePerDeque(o, events, y, r.0.available);
      AnswersExtend(o, events, ev, y);
    }
  }

  lemma WaitingIsAlive(o: Options, events: seq<Event>, i: nat, e: Env, answers: seq<bool>, x: Conn)
    requires Heeded(o, events) && i < |Run(o, events).tasks|
    requires var t := Run(o, events).tasks[i]; answers == if Owner(t) then Answers(o, events, t.conn) else []
    requires var c := Run(o, events); var r := Resume(o, c.shared, c.tasks[i], e, c.made);
      PieceHeeds(c.shared, c.tasks[i], r, c.made, Heard(c.tasks[i], e, answers))
    requires x in Run(o, events + [Resumed(i, e)]).shared.available
    ensures Alive(Answers(o, events + [Resumed(i, e)], x))
  {
    hide Run;
    hide Answers;
    hide Resume;
    var c, ev := Run(o, events), Resumed(i, e);
    RunExtends(o, events, ev);
    if c.tasks[i].Owns(x) {
      OnePlace(o, events, i, x);
      OwnHeard(o, events, i, e, x);
    } else {
      Unheard(o, events, ev, x);
    }
  }

  /** In every interleaving: a connection that a client holds, or that is ready for one, has
    * answered its last `ping`, or the `connect` after that `ping` failed; so has every
    * connection in the deque.  A connection is given up as dead only after both have failed. */
  lemma {:induction false} AnswersAreHeeded(o: Options, events: seq<Event>)
    ensures Heeded(o, events)
  {
    if events != [] {
      var n := |events| - 1;
      var before, ev := events[..n], events[n];
      assert events == before + [ev];
      AnswersAreHeeded(o, before);
      match ev
      case Called(call, e) =>
        CallIsHeeded(o, before, call, e);
      case Resumed(i, e) =>
        if i < |Run(o, before).tasks| {
          ResumptionIsHeeded(o, before, i, e);
        } else {
          RunExtends(o, before, ev);
          forall x: Conn ensures Answers(o, events, x) == Answers(o, before, x) {
            Unheard(o, before, ev, x);
          }
        }
    }
  }

  /** In the client's terms. */
  lemma HandleIsAlive(o: Options, events: seq<Event>, i: nat)
    requires i < |Run(o, events).tasks| && Run(o, events).tasks[i].Handle?
    ensures var t := Run(o, events).tasks[i];
      var answers := Answers(o, events, t.conn);
      && answers != [] && answers[|answers| - 1]
      && (t.temporary ==> answers == [true])
  {
    AnswersAreHeeded(o, events);
  }

  // ----- the dead stay away ------------------------------------------------------------------------

  /** Where a task may hold a connection that is of no use any more. */
  predicate Discards(t: Task) {
    t.GetFailed? || t.GetDisconnecting? || t.DynamicFailed? || t.InitDisconnecting?
  }

  /** Connection `x` has been made, is not available, and whoever still has it discards it. */
  ghost predicate Gone(c: Config, x: Conn) {
    && x < c.made && x !in c.shared.available
    && forall i | 0 <= i < |c.tasks| && c.tasks[i].Owns(x) :: Discards(c.tasks[i])
  }

  lemma PieceKeepsGone(o: Options, s: Shared, t: Task, e: Env, spare: Conn, x: Conn)
    requires x != spare && x !in s.available && (t.Owns(x) ==> Discards(t))
    ensures var r := Resume(o, s, t, e, spare); x !in r.0.available && (r.1.Owns(x) ==> Discards(r.1))
  {
    hide PieceHeeds;
    if t.IsPlain() {
      PlainKeepsGone(o, s, t, e, spare, x);
    } else if t.IsInit() {
      InitKeepsGone(o, s, t, e, spare, x);
    } else {
      RestKeepsGone(o, s, t, e, spare, x);
    }
  }

  lemma PlainKeepsGone(o: Options, s: Shared, t: Task, e: Env, spare: Conn, x: Conn)
    requires t.IsPlain() && x != spare && x !in s.available && (t.Owns(x) ==> Discards(t))
    ensures var r := Resume(o, s, t, e, spare); x !in r.0.available && (r.1.Owns(x) ==> Discards(r.1))
  {
  }

  lemma InitKeepsGone(o: Options, s: Shared, t: Task, e: Env, spare: Conn, x: Conn)
    requires t.IsInit() && x != spare && x !in s.available && (t.Owns(x) ==> Discards(t))
    ensures var r := Resume(o, s, t, e, spare); x !in r.0.available && (r.1.Owns(x) ==> Discards(r.1))
  {
  }

  lemma RestKeepsGone(o: Options, s: Shared, t: Task, e: Env, spare: Conn, x: Conn)
    requires !t.IsPlain() && !t.IsInit()
    requires x != spare && x !in s.available && (t.Owns(x) ==> Discards(t))
    ensures var r := Resume(o, s, t, e, spare); x !in r.0.available && (r.1.Owns(x) ==> Discards(r.1))
  {
  }

  lemma StepKeepsGone(o: Options, c: Config, ev: Event, x: Conn)
    requires Gone(c, x)
    ensures Gone(Next(o, c, ev), x)
  {
    match ev
    case Called(call, e) =>
      BeginOwns(c.shared, call, e, c.made);
    case Resumed(i, e) =>
      if i < |c.tasks| {
        PieceKeepsGone(o, c.shared, c.tasks[i], e, c.made, x);
      }
  }

  lemma {:induction false} GoneStays(o: Options, events: seq<Event>, longer: seq<Event>, x: Conn)
    requires events <= longer && Gone(Run(o, events), x)
    ensures Gone(Run(o, longer), x)
    decreases |longer|
  {
    if |longer| > |events| {
      GoneStays(o, events, longer[..|longer| - 1], x);
      StepKeepsGone(o, Run(o, longer[..|longer| - 1]), longer[|longer| - 1], x);
    } else {
      assert longer == events;
    }
  }

  /** Nobody is given `x`, or has been given it, and it does not wait in the deque. */
  ghost predicate OutOfService(c: Config, x: Conn) {
    && x !in c.shared.available
    && forall i | 0 <= i < |c.tasks| ::
      c.tasks[i].Handle? || c.tasks[i].Returning? || c.tasks[i].GetVerified? || c.tasks[i].DynamicReady? ==>
        c.tasks[i].conn != x
  }

  lemma GoneIsOutOfService(c: Config, x: Conn)
    requires Gone(c, x)
    ensures OutOfService(c, x)
  {
    forall i | 0 <= i < |c.tasks|
      && (c.tasks[i].Handle? || c.tasks[i].Returning? || c.tasks[i].GetVerified? || c.tasks[i].DynamicReady?)
      ensures c.tasks[i].conn != x
    {
      assert c.tasks[i].Owns(x) ==> Discards(c.tasks[i]);
    }
  }

  lemma DeadIsDiscarded(t: Task, answers: seq<bool>)
    requires Owner(t) && Earned(t, answers) && Dead(answers) && (answers == [false] ==> !t.GetReconnecting?)
    ensures Discards(t)
  {
    assert !Alive(answers) && |answers| > 0 && !answers[|answers| - 1];
  }

  /** A connection whose `ping` and reconnect have both failed, or a temporary one whose
    * `connect` has failed, is never handed out or put into the deque, however the run goes on. */
  lemma DeadStaysAway(o: Options, events: seq<Event>, longer: seq<Event>, x: Conn)
    requires events <= longer
    requires Answers(o, events, x) == [false, false]
      || (Answers(o, events, x) == [false] && GetReconnecting(x) !in Run(o, events).tasks)
    ensures OutOfService(Run(o, longer), x)
  {
    hide Run;
    hide Answers;
    AnswersAreHeeded(o, events);
    var c := Run(o, events);
    forall i | 0 <= i < |c.tasks| && c.tasks[i].Owns(x) ensures Discards(c.tasks[i]) {
      assert Owner(c.tasks[i]) && Earned(c.tasks[i], Answers(o, events, x));
      assert c.tasks[i] in c.tasks;
      DeadIsDiscarded(c.tasks[i], Answers(o, events, x));
    }
    GoneStays(o, events, longer, x);
    GoneIsOutOfService(Run(o, longer), x);
  }

  predicate Connects(t: Task, x: Conn) {
    (t.GetReconnecting? || t.DynamicConnecting? || t.InitConnecting?) && t.conn == x
  }

  /** The same in terms of one event: whoever awaited the `connect` that failed. */
  lemma FailedConnectIsFinal(o: Options, events: seq<Event>, i: nat, e: Env, x: Conn, longer: seq<Event>)
    requires i < |Run(o, events).tasks| && Connects(Run(o, events).tasks[i], x) && !e.ok
    requires events + [Resumed(i, e)] <= longer
    ensures OutOfService(Run(o, longer), x)
  {
    hide Run;
    hide Answers;
    hide Resume;
    var ev := Resumed(i, e);
    AnswersAreHeeded(o, events);
    AnswersAreHeeded(o, events + [ev]);
    OnePlace(o, events, i, x);
    OwnHeard(o, events, i, e, x);
    RunExtends(o, events, ev);
    var c, c' := Run(o, events), Run(o, events + [ev]);
    assert Earned(c.tasks[i], Answers(o, events, x));
    assert !c'.tasks[i].GetReconnecting? by {
      FailedMovesOn(o, c.shared, c.tasks[i], e, c.made);
    }
    DeadStaysAway(o, events + [ev], longer, x);
  }

  lemma FailedMovesOn(o: Options, s: Shared, t: Task, e: Env, spare: Conn)
    ensures Resume(o, s, t, e, spare).1.GetReconnecting? ==> t.GetPinging?
  {
  }
}
