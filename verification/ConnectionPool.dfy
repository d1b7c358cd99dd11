/** The asynchronous connection pool.  Every coroutine is cut at its suspension points; a
  * `Task` says where it is suspended and what it owns, and resuming it runs one atomic piece.
  * The results of `connect` and `ping` and the clock are the environment's choice. */
module ConnectionPool {

  type Conn = nat

  datatype Options = Options(expand: bool, maxDynamic: nat)

  /** What the outside decides for one piece: the result of the call it waited for, whether the
    * deadline lies ahead, and whether `close_all` was asked to wait. */
  datatype Env = Env(ok: bool, inTime: bool, wait: bool)

  datatype Task =
    | InitConnecting(conn: Conn, i: nat)
    | InitDisconnecting(conn: Conn, k: nat, end: nat)
    | GetPosted
    | GetPinging(conn: Conn)
    | GetReconnecting(conn: Conn)
    | GetFailed(conn: Conn)
    | GetVerified(conn: Conn)
    | GetDisconnecting(conn: Conn)
    | GetWaiting
    | DynamicPosted
    | DynamicConnecting(conn: Conn)
    | DynamicFailed(conn: Conn)
    | DynamicReady(conn: Conn)
    | DynamicDisconnecting(conn: Conn)
    | Handle(conn: Conn, temporary: bool)     // a connection held by a client
    | Returning(conn: Conn, temporary: bool)  // its return has been posted
    | ClosePosted
    | CloseWaitPosted
    | CloseWaiting
    | CloseFinalPosted
    | CloseDisconnecting(k: nat, end: nat)
    | Done
  {
    predicate IsDynamic() {
      DynamicConnecting? || DynamicFailed? || DynamicReady? || ((Handle? || Returning?) && temporary)
    }

    /** A lease on one of the pool's own connections. */
    predicate IsPlain() {
      GetPinging? || GetReconnecting? || GetFailed? || GetVerified? || ((Handle? || Returning?) && !temporary)
    }

    predicate IsInit() {
      InitConnecting? || InitDisconnecting?
    }

    predicate IsClosing() {
      CloseWaitPosted? || CloseWaiting? || CloseFinalPosted? || CloseDisconnecting?
    }

    predicate InDisconnectLoop() {
      InitDisconnecting? || CloseDisconnecting?
    }

    predicate Owns(x: Conn) {
      (IsInit() || IsPlain() || IsDynamic() || GetDisconnecting? || DynamicDisconnecting?) && conn == x
    }
  }

  datatype Shared = Shared(initialized: bool, closing: bool, poolSize: nat, inUse: nat, dynamicCount: nat,
                           available: seq<Conn>)

  const SIZE_MAX: nat := 0xffff_ffff_ffff_ffff

  // ----- one atomic piece ------------------------------------------------------------------------

  /** `if (n > 0) --n;` */
  function GuardedDecrement(n: nat): nat {
    if n > 0 then n - 1 else n
  }

  /** `--n` on `size_t` */
  function Decrement(n: nat): nat {
    if n > 0 then n - 1 else SIZE_MAX
  }

  function Closed(s: Shared): Shared {
    s.(available := [], initialized := false, closing := false)
  }

  /** The loop head of `get`. */
  function Retry(e: Env): Task {
    if e.inTime then GetPosted else Done
  }

  /** `get` found nothing: sleep unless the time is up. */
  function Exhausted(e: Env): Task {
    if e.inTime then GetWaiting else Done
  }

  function Usable(s: Shared): bool {
    s.initialized && !s.closing
  }

  /** The piece that runs when `t` is resumed; `spare` is a connection not made before. */
  function Resume(o: Options, s: Shared, t: Task, e: Env, spare: Conn): (Shared, Task) {
    match t
    case InitConnecting(conn, i) =>
      if !e.ok then
        if s.available == [] then (s, Done) else (s, InitDisconnecting(conn, 0, |s.available|))
      else
        var s := s.(available := s.available + [conn]);
        if i + 1 < s.poolSize then (s, InitConnecting(spare, i + 1)) else (s.(initialized := true), Done)
    case InitDisconnecting(conn, k, end) =>
      if k + 1 < end then (s, InitDisconnecting(conn, k + 1, end)) else (s.(available := []), Done)
    case GetPosted =>
      if !Usable(s) then (s, Done)
      else if s.available != [] then
        (s.(available := s.available[1..], inUse := s.inUse + 1), GetPinging(s.available[0]))
      else if o.expand && s.dynamicCount < o.maxDynamic then (s, DynamicPosted)
      else (s, Exhausted(e))
    case GetPinging(conn) =>
      (s, if e.ok then GetVerified(conn) else GetReconnecting(conn))
    case GetReconnecting(conn) =>
      (s, if e.ok then GetVerified(conn) else GetFailed(conn))
    case GetFailed(conn) =>
      (s.(inUse := GuardedDecrement(s.inUse)), GetDisconnecting(conn))
    case GetVerified(conn) =>
      if Usable(s) then (s, Handle(conn, false))
      else (s.(inUse := GuardedDecrement(s.inUse)), GetDisconnecting(conn))
    case GetDisconnecting(_) => (s, Retry(e))
    case GetWaiting => (s, Retry(e))
    case DynamicPosted =>
      if !Usable(s) || s.dynamicCount >= o.maxDynamic then (s, Exhausted(e))
      else (s.(dynamicCount := s.dynamicCount + 1, inUse := s.inUse + 1), DynamicConnecting(spare))
    case DynamicConnecting(conn) =>
      (s, if e.ok then DynamicReady(conn) else DynamicFailed(conn))
    case DynamicFailed(_) =>
      (s.(dynamicCount := Decrement(s.dynamicCount), inUse := Decrement(s.inUse)), Exhausted(e))
    case DynamicReady(conn) =>
      if Usable(s) then (s, Handle(conn, true))
      else
        (s.(dynamicCount := GuardedDecrement(s.dynamicCount), inUse := GuardedDecrement(s.inUse)),
         DynamicDisconnecting(conn))
    case DynamicDisconnecting(_) => (s, Exhausted(e))
    case Handle(conn, temporary) => (s, Returning(conn, temporary))
    case Returning(conn, temporary) =>
      var s := s.(inUse := GuardedDecrement(s.inUse));
      if temporary then (s.(dynamicCount := GuardedDecrement(s.dynamicCount)), Done)
      else if Usable(s) then (s.(available := s.available + [conn]), Done)
      else (s, Done)
    case ClosePosted =>
      if !Usable(s) then (s, Done)
      else (s.(closing := true), if e.wait && s.inUse > 0 && e.inTime then CloseWaitPosted else CloseFinalPosted)
    case CloseWaitPosted =>
      (s, if s.inUse == 0 || !e.inTime then CloseFinalPosted else CloseWaiting)
    case CloseWaiting =>
      (s, if e.inTime then CloseWaitPosted else CloseFinalPosted)
    case CloseFinalPosted =>
      if s.available == [] then (Closed(s), Done) else (s, CloseDisconnecting(0, |s.available|))
    case CloseDisconnecting(k, end) =>
      if k + 1 < end then (s, CloseDisconnecting(k + 1, end)) else (Closed(s), Done)
    case Done => (s, Done)
  }

  datatype Call = Init(size: nat) | Get | CloseAll

  /** The piece that runs when a member function is called. */
  function Begin(s: Shared, call: Call, e: Env, spare: Conn): (Shared, Task) {
    match call
    case Init(size) =>
      if s.initialized || s.closing then (s, Done)
      else if size == 0 then (s.(poolSize := 0, initialized := true), Done)
      else (s.(poolSize := size), InitConnecting(spare, 0))
    case Get => (s, Retry(e))
    case CloseAll => (s, ClosePosted)
  }

  // ----- the pool object -----------------------------------------------------------------------

  class Pool {
    const options: Options
    var initialized: bool
    var closing: bool
    var poolSize: nat
    var inUse: nat
    var dynamicCount: nat
    var available: seq<Conn>

    constructor (options: Options)
      ensures this.options == options && State() == Shared(false, false, 0, 0, 0, [])
    {
      this.options := options;
      initialized, closing, poolSize, inUse, dynamicCount, available := false, false, 0, 0, 0, [];
    }

    ghost function State(): Shared
      reads this
    {
      Shared(initialized, closing, poolSize, inUse, dynamicCount, available)
    }

    /** The part of `init` before its first suspension. */
    method BeginInit(size: nat, spare: Conn) returns (t: Task)
      modifies this
      ensures forall e :: (State(), t) == Begin(old(State()), Init(size), e, spare)
    {
      if initialized || closing {
        return Done;
      }
      poolSize := size;
      if size == 0 {
        initialized := true;
        return Done;
      }
      t := InitConnecting(spare, 0);
    }

    /** `init` after `connect`. */
    method InitConnected(conn: Conn, i: nat, e: Env, spare: Conn) returns (t: Task)
      modifies this
      ensures (State(), t) == Resume(options, old(State()), InitConnecting(conn, i), e, spare)
    {
      if !e.ok {
        if |available| == 0 {
          return Done;
        }
        return InitDisconnecting(conn, 0, |available|);
      }
      available := available + [conn];
      if i + 1 < poolSize {
        return InitConnecting(spare, i + 1);
      }
      initialized := true;
      t := Done;
    }

    /** `disconnect_available_connections` after one `disconnect`. */
    method InitDisconnected(conn: Conn, k: nat, end: nat, e: Env, spare: Conn) returns (t: Task)
      modifies this
      ensures (State(), t) == Resume(options, old(State()), InitDisconnecting(conn, k, end), e, spare)
    {
      if k + 1 < end {
        return InitDisconnecting(conn, k + 1, end);
      }
      available := [];
      t := Done;
    }

    /** `get` once it runs on the strand. */
    method TryGet(e: Env, spare: Conn) returns (t: Task)
      modifies this
      ensures (State(), t) == Resume(options, old(State()), GetPosted, e, spare)
    {
      if !initialized || closing {
        return Done;
      }
      if |available| != 0 {
        var connection := available[0];
        available := available[1..];
        inUse := inUse + 1;
        return GetPinging(connection);
      }
      if options.expand && dynamicCount < options.maxDynamic {
        return DynamicPosted;
      }
      t := Exhausted(e);
    }

    /** `get` with the answer of `ping`. */
    method Pinged(conn: Conn, e: Env, spare: Conn) returns (t: Task)
      ensures (State(), t) == Resume(options, State(), GetPinging(conn), e, spare)
    {
      var alive := e.ok;
      if !alive {
        return GetReconnecting(conn);
      }
      t := GetVerified(conn);
    }

    /** `get` with the answer of `connect`. */
    method Reconnected(conn: Conn, e: Env, spare: Conn) returns (t: Task)
      ensures (State(), t) == Resume(options, State(), GetReconnecting(conn), e, spare)
    {
      var alive := e.ok;
      if !alive {
        return GetFailed(conn);
      }
      t := GetVerified(conn);
    }

    /** `get` after ping and reconnect have failed. */
    method DropDead(conn: Conn, e: Env, spare: Conn) returns (t: Task)
      modifies this
      ensures (State(), t) == Resume(options, old(State()), GetFailed(conn), e, spare)
    {
      if inUse > 0 {
        inUse := inUse - 1;
      }
      t := GetDisconnecting(conn);
    }

    /** `get` with a verified connection, back on the strand. */
    method HandOut(conn: Conn, e: Env, spare: Conn) returns (t: Task)
      modifies this
      ensures (State(), t) == Resume(options, old(State()), GetVerified(conn), e, spare)
    {
      if !initialized || closing {
        if inUse > 0 {
          inUse := inUse - 1;
        }
        return GetDisconnecting(conn);
      }
      t := Handle(conn, false);
    }

    /** `create_dynamic_connection` once it runs on the strand. */
    method BeginDynamic(e: Env, spare: Conn) returns (t: Task)
      modifies this
      ensures (State(), t) == Resume(options, old(State()), DynamicPosted, e, spare)
    {
      if !initialized || closing || dynamicCount >= options.maxDynamic {
        return Exhausted(e);
      }
      dynamicCount := dynamicCount + 1;
      inUse := inUse + 1;
      t := DynamicConnecting(spare);
    }

    /** `create_dynamic_connection` with the answer of `connect`. */
    method DynamicAnswered(conn: Conn, e: Env, spare: Conn) returns (t: Task)
      ensures (State(), t) == Resume(options, State(), DynamicConnecting(conn), e, spare)
    {
      var connected := e.ok;
      if !connected {
        return DynamicFailed(conn);
      }
      t := DynamicReady(conn);
    }

    method DynamicNotConnected(conn: Conn, e: Env, spare: Conn) returns (t: Task)
      modifies this
      ensures (State(), t) == Resume(options, old(State()), DynamicFailed(conn), e, spare)
    {
      dynamicCount := Decrement(dynamicCount);
      inUse := Decrement(inUse);
      t := Exhausted(e);
    }

    method DynamicConnected(conn: Conn, e: Env, spare: Conn) returns (t: Task)
      modifies this
      ensures (State(), t) == Resume(options, old(State()), DynamicReady(conn), e, spare)
    {
      if !initialized || closing {
        if dynamicCount > 0 {
          dynamicCount := dynamicCount - 1;
        }
        if inUse > 0 {
          inUse := inUse - 1;
        }
        return DynamicDisconnecting(conn);
      }
      t := Handle(conn, true);
    }

    method ReturnConnection(conn: Conn, temporary: bool, e: Env, spare: Conn) returns (t: Task)
      modifies this
      ensures (State(), t) == Resume(options, old(State()), Returning(conn, temporary), e, spare)
    {
      t := Done;
      if temporary {
        if dynamicCount > 0 {
          dynamicCount := dynamicCount - 1;
        }
        if inUse > 0 {
          inUse := inUse - 1;
        }
        return;
      }
      if inUse > 0 {
        inUse := inUse - 1;
      }
      if initialized && !closing {
        available := available + [conn];
      }
    }

    /** `close_all` once it runs on the strand. */
    method BeginClose(e: Env, spare: Conn) returns (t: Task)
      modifies this
      ensures (State(), t) == Resume(options, old(State()), ClosePosted, e, spare)
    {
      if !initialized || closing {
        return Done;
      }
      closing := true;
      t := if e.wait && inUse > 0 && e.inTime then CloseWaitPosted else CloseFinalPosted;
    }

    /** `close_all` at the head of its waiting loop. */
    method CheckLeases(e: Env, spare: Conn) returns (t: Task)
      ensures (State(), t) == Resume(options, State(), CloseWaitPosted, e, spare)
    {
      if inUse == 0 {
        return CloseFinalPosted;
      }
      t := if e.inTime then CloseWaiting else CloseFinalPosted;
    }

    /** `close_all` at its disconnect loop. */
    method Drain(e: Env, spare: Conn) returns (t: Task)
      modifies this
      ensures (State(), t) == Resume(options, old(State()), CloseFinalPosted, e, spare)
    {
      if |available| != 0 {
        return CloseDisconnecting(0, |available|);
      }
      FinishClose();
      t := Done;
    }

    method CloseDisconnected(k: nat, end: nat, e: Env, spare: Conn) returns (t: Task)
      modifies this
      ensures (State(), t) == Resume(options, old(State()), CloseDisconnecting(k, end), e, spare)
    {
      if k + 1 < end {
        return CloseDisconnecting(k + 1, end);
      }
      FinishClose();
      t := Done;
    }

    method FinishClose()
      modifies this
      ensures State() == Closed(old(State()))
    {
      available := [];
      initialized := false;
      closing := false;
    }
  }

  // ----- runs ------------------------------------------------------------------------------------------

  datatype Event = Called(call: Call, env: Env) | Resumed(task: nat, env: Env)

  /** `carried` remembers how many of the pool's own leases were out when the last `init` began. */
  datatype Config = Config(shared: Shared, tasks: seq<Task>, made: Conn, carried: nat)

  function Starts(s: Shared, ev: Event): bool {
    ev.Called? && ev.call.Init? && !s.initialized && !s.closing
  }

  function Next(o: Options, c: Config, ev: Event): Config {
    match ev
    case Called(call, e) =>
      var (s, t) := Begin(c.shared, call, e, c.made);
      Config(s, c.tasks + [t], c.made + 1, if Starts(c.shared, ev) then Plain(c.tasks) else c.carried)
    case Resumed(i, e) =>
      if i >= |c.tasks| then c
      else
        var (s, t) := Resume(o, c.shared, c.tasks[i], e, c.made);
        Config(s, c.tasks[i := t], c.made + 1, c.carried)
  }

  function Run(o: Options, events: seq<Event>): Config {
    if events == [] then Config(Shared(false, false, 0, 0, 0, []), [], 0, 0)
    else Next(o, Run(o, events[..|events| - 1]), events[|events| - 1])
  }

  // ----- exact lease accounting ----------------------------------------------------------------------------

  function One(b: bool): nat {
    if b then 1 else 0
  }

  /** How many of the pool's own connections are leased. */
  function Plain(ts: seq<Task>): nat {
    if ts == [] then 0 else Plain(ts[..|ts| - 1]) + One(ts[|ts| - 1].IsPlain())
  }

  /** How many temporary connections exist or are being made. */
  function Dynamic(ts: seq<Task>): nat {
    if ts == [] then 0 else Dynamic(ts[..|ts| - 1]) + One(ts[|ts| - 1].IsDynamic())
  }

  /** How many tasks own connection `x`. */
  function Owners(ts: seq<Task>, x: Conn): nat {
    if ts == [] then 0 else Owners(ts[..|ts| - 1], x) + One(ts[|ts| - 1].Owns(x))
  }

  lemma CountsAppend(ts: seq<Task>, t: Task, x: Conn)
    ensures Plain(ts + [t]) == Plain(ts) + One(t.IsPlain())
    ensures Dynamic(ts + [t]) == Dynamic(ts) + One(t.IsDynamic())
    ensures Owners(ts + [t], x) == Owners(ts, x) + One(t.Owns(x))
  {
    assert (ts + [t])[..|ts|] == ts;
  }

  lemma {:induction false} CountsUpdate(ts: seq<Task>, i: nat, t: Task)
    requires i < |ts|
    ensures Plain(ts[i := t]) + One(ts[i].IsPlain()) == Plain(ts) + One(t.IsPlain())
    ensures Dynamic(ts[i := t]) + One(ts[i].IsDynamic()) == Dynamic(ts) + One(t.IsDynamic())
  {
    var n := |ts| - 1;
    if i < n {
      assert ts[i := t][..n] == ts[..n][i := t];
      CountsUpdate(ts[..n], i, t);
    } else {
      assert ts[i := t][..n] == ts[..n];
    }
  }

  lemma {:induction false} OwnersUpdate(ts: seq<Task>, i: nat, t: Task, x: Conn)
    requires i < |ts|
    ensures Owners(ts[i := t], x) + One(ts[i].Owns(x)) == Owners(ts, x) + One(t.Owns(x))
  {
    var n := |ts| - 1;
    if i < n {
      assert ts[i := t][..n] == ts[..n][i := t];
      OwnersUpdate(ts[..n], i, t, x);
    } else {
      assert ts[i := t][..n] == ts[..n];
    }
  }

  lemma {:induction false} CountsCover(ts: seq<Task>, i: nat)
    requires i < |ts|
    ensures Plain(ts) >= One(ts[i].IsPlain())
    ensures Dynamic(ts) >= One(ts[i].IsDynamic())
  {
    if i < |ts| - 1 {
      CountsCover(ts[..|ts| - 1], i);
    }
  }

  ghost predicate Accounted(o: Options, c: Config) {
    && c.shared.inUse == Plain(c.tasks) + Dynamic(c.tasks)
    && c.shared.dynamicCount == Dynamic(c.tasks) <= o.maxDynamic
  }

  function Leases(t: Task): nat {
    One(t.IsPlain()) + One(t.IsDynamic())
  }

  /** One piece gives up or takes exactly the leases by which its task changes. */
  ghost predicate PieceAccounts(o: Options, s: Shared, t: Task, r: (Shared, Task)) {
    && r.0.inUse + Leases(t) == s.inUse + Leases(r.1)
    && r.0.dynamicCount + One(t.IsDynamic()) == s.dynamicCount + One(r.1.IsDynamic())
    && (s.dynamicCount <= o.maxDynamic ==> r.0.dynamicCount <= o.maxDynamic)
  }

  lemma ResumeAccounts(o: Options, s: Shared, t: Task, e: Env, spare: Conn)
    requires s.inUse >= Leases(t) && s.dynamicCount >= One(t.IsDynamic())
    ensures PieceAccounts(o, s, t, Resume(o, s, t, e, spare))
  {
    if t.IsPlain() || t.IsDynamic() {
      LeaseAccounts(o, s, t, e, spare);
    } else {
      OtherAccounts(o, s, t, e, spare);
    }
  }

  lemma LeaseAccounts(o: Options, s: Shared, t: Task, e: Env, spare: Conn)
    requires s.inUse >= Leases(t) && s.dynamicCount >= One(t.IsDynamic())
    requires t.IsPlain() || t.IsDynamic()
    ensures PieceAccounts(o, s, t, Resume(o, s, t, e, spare))
  {
    if t.IsPlain() {
      PlainAccounts(o, s, t, e, spare);
    } else {
      DynamicAccounts(o, s, t, e, spare);
    }
  }

  lemma PlainAccounts(o: Options, s: Shared, t: Task, e: Env, spare: Conn)
    requires s.inUse >= 1 && t.IsPlain()
    ensures PieceAccounts(o, s, t, Resume(o, s, t, e, spare))
  {
  }

  lemma DynamicAccounts(o: Options, s: Shared, t: Task, e: Env, spare: Conn)
    requires s.inUse >= 1 && s.dynamicCount >= 1 && t.IsDynamic()
    ensures PieceAccounts(o, s, t, Resume(o, s, t, e, spare))
  {
  }

  lemma OtherAccounts(o: Options, s: Shared, t: Task, e: Env, spare: Conn)
    requires !t.IsPlain() && !t.IsDynamic()
    ensures PieceAccounts(o, s, t, Resume(o, s, t, e, spare))
  {
    hide Resume;
    if t.GetPosted? || t.DynamicPosted? {
      TakerAccounts(o, s, t, e, spare);
    } else {
      IdleAccounts(o, s, t, e, spare);
    }
  }

  lemma TakerAccounts(o: Options, s: Shared, t: Task, e: Env, spare: Conn)
    requires t.GetPosted? || t.DynamicPosted?
    ensures PieceAccounts(o, s, t, Resume(o, s, t, e, spare))
  {
  }

  lemma IdleAccounts(o: Options, s: Shared, t: Task, e: Env, spare: Conn)
    requires !t.IsPlain() && !t.IsDynamic() && !t.GetPosted? && !t.DynamicPosted?
    ensures var (s', t') := Resume(o, s, t, e, spare);
      s'.inUse == s.inUse && s'.dynamicCount == s.dynamicCount && !t'.IsPlain() && !t'.IsDynamic()
  {
  }

  lemma AccountedUpdate(o: Options, c: Config, i: nat, r: (Shared, Task))
    requires Accounted(o, c) && i < |c.tasks| && PieceAccounts(o, c.shared, c.tasks[i], r)
    ensures Accounted(o, Config(r.0, c.tasks[i := r.1], c.made + 1, c.carried))
  {
    CountsUpdate(c.tasks, i, r.1);
  }

  lemma AccountedStep(o: Options, c: Config, ev: Event)
    requires Accounted(o, c)
    ensures Accounted(o, Next(o, c, ev))
  {
    match ev
    case Called(call, e) =>
      CountsAppend(c.tasks, Begin(c.shared, call, e, c.made).1, 0);
    case Resumed(i, e) =>
      if i < |c.tasks| {
        CountsCover(c.tasks, i);
        ResumeAccounts(o, c.shared, c.tasks[i], e, c.made);
        AccountedUpdate(o, c, i, Resume(o, c.shared, c.tasks[i], e, c.made));
      }
  }

  /** In every interleaving both counters count exactly what they are named for: connections
    * popped but not yet handed out, handed out, or on their way back, and temporary
    * connections from the moment they are begun.  The limit on the latter holds. */
  lemma {:induction false} LeaseAccounting(o: Options, events: seq<Event>)
    ensures Accounted(o, Run(o, events))
  {
    if events != [] {
      LeaseAccounting(o, events[..|events| - 1]);
      AccountedStep(o, Run(o, events[..|events| - 1]), events[|events| - 1]);
    }
  }

  /** So no `> 0` test before a decrement ever fails, and no unguarded decrement wraps around:
    * every piece that gives up a lease lowers the counters by exactly that lease. */
  lemma DecrementsAreExact(o: Options, events: seq<Event>, i: nat, e: Env)
    requires i < |Run(o, events).tasks|
    ensures var c := Run(o, events);
      var t := c.tasks[i];
      && c.shared.inUse >= Leases(t) && c.shared.dynamicCount >= One(t.IsDynamic())
      && PieceAccounts(o, c.shared, t, Resume(o, c.shared, t, e, c.made))
  {
    var c := Run(o, events);
    LeaseAccounting(o, events);
    CountsCover(c.tasks, i);
    ResumeAccounts(o, c.shared, c.tasks[i], e, c.made);
  }

  /** When every task has ended, no lease is left. */
  lemma NoLeaseLeaks(o: Options, events: seq<Event>)
    requires AllDone(Run(o, events).tasks)
    ensures Run(o, events).shared.inUse == 0 && Run(o, events).shared.dynamicCount == 0
  {
    LeaseAccounting(o, events);
    NothingCounted(Run(o, events).tasks);
  }

  ghost predicate AllDone(ts: seq<Task>) {
    forall i | 0 <= i < |ts| :: ts[i] == Done
  }

  lemma {:induction false} NothingCounted(ts: seq<Task>)
    requires AllDone(ts)
    ensures Plain(ts) == 0 && Dynamic(ts) == 0
  {
    if ts != [] {
      NothingCounted(ts[..|ts| - 1]);
    }
  }

  // ----- exclusive ownership ----------------------------------------------------------------------------------

  /** The number of places that have connection `x`: the deque and its owners. */
  function Places(s: Shared, ts: seq<Task>, x: Conn): nat {
    multiset(s.available)[x] + Owners(ts, x)
  }

  ghost predicate Exclusive(c: Config) {
    forall x: Conn :: Places(c.shared, c.tasks, x) <= One(x < c.made)
  }

  /** A piece passes connections on; the only new one is the spare. */
  ghost predicate PassesOn(s: Shared, t: Task, r: (Shared, Task), spare: Conn, x: Conn) {
    multiset(r.0.available)[x] + One(r.1.Owns(x)) <= multiset(s.available)[x] + One(t.Owns(x)) + One(x == spare)
  }

  lemma NoDuplication(o: Options, s: Shared, t: Task, e: Env, spare: Conn, x: Conn)
    ensures PassesOn(s, t, Resume(o, s, t, e, spare), spare, x)
  {
    if t.GetPosted? {
      TakesFirst(o, s, e, spare, x);
    } else if t.InitConnecting? || t.Returning? {
      GivesBack(o, s, t, e, spare, x);
    } else if t.IsInit() || t.IsClosing() {
      OnlyClears(o, s, t, e, spare);
    } else {
      SameDeque(o, s, t, e, spare);
    }
  }

  lemma TakesFirst(o: Options, s: Shared, e: Env, spare: Conn, x: Conn)
    ensures PassesOn(s, GetPosted, Resume(o, s, GetPosted, e, spare), spare, x)
  {
    if s.available != [] {
      assert s.available == [s.available[0]] + s.available[1..];
    }
  }

  lemma GivesBack(o: Options, s: Shared, t: Task, e: Env, spare: Conn, x: Conn)
    requires t.InitConnecting? || t.Returning?
    ensures PassesOn(s, t, Resume(o, s, t, e, spare), spare, x)
  {
    hide Resume;
    assert multiset(s.available + [t.conn])[x] == multiset(s.available)[x] + One(x == t.conn);
    AppendsOrKeeps(o, s, t, e, spare, x);
  }

  lemma AppendsOrKeeps(o: Options, s: Shared, t: Task, e: Env, spare: Conn, x: Conn)
    requires t.InitConnecting? || t.Returning?
    ensures var r := Resume(o, s, t, e, spare);
      if r.0.available == s.available then r.1.Owns(x) ==> t.Owns(x)
      else r.0.available == s.available + [t.conn] && (r.1.Owns(x) ==> x == spare)
  {
    assert |s.available + [t.conn]| == |s.available| + 1;
  }

  lemma OnlyClears(o: Options, s: Shared, t: Task, e: Env, spare: Conn)
    requires t.InitDisconnecting? || t.IsClosing()
    ensures var r := Resume(o, s, t, e, spare);
      && (r.0.available == s.available || r.0.available == [])
      && forall x: Conn :: r.1.Owns(x) ==> t.Owns(x)
  {
  }

  lemma SameDeque(o: Options, s: Shared, t: Task, e: Env, spare: Conn)
    requires !(t.GetPosted? || t.IsInit() || t.IsClosing() || t.Returning?)
    ensures var r := Resume(o, s, t, e, spare);
      && r.0.available == s.available
      && forall x: Conn :: r.1.Owns(x) ==> t.Owns(x) || x == spare
  {
  }

  lemma ExclusiveUpdate(c: Config, i: nat, r: (Shared, Task))
    requires Exclusive(c) && i < |c.tasks|
    requires forall x: Conn :: PassesOn(c.shared, c.tasks[i], r, c.made, x)
    ensures Exclusive(Config(r.0, c.tasks[i := r.1], c.made + 1, c.carried))
  {
    var ts := c.tasks[i := r.1];
    forall x: Conn ensures Places(r.0, ts, x) <= One(x < c.made + 1) {
      OwnersUpdate(c.tasks, i, r.1, x);
      assert Places(c.shared, c.tasks, x) <= One(x < c.made);
      assert PassesOn(c.shared, c.tasks[i], r, c.made, x);
    }
  }

  lemma ExclusiveStep(o: Options, c: Config, ev: Event)
    requires Exclusive(c)
    ensures Exclusive(Next(o, c, ev))
  {
    match ev
    case Called(call, e) =>
      var r := Begin(c.shared, call, e, c.made);
      forall x: Conn ensures Places(r.0, c.tasks + [r.1], x) <= One(x < c.made + 1) {
        CountsAppend(c.tasks, r.1, x);
        assert Places(c.shared, c.tasks, x) <= One(x < c.made);
      }
    case Resumed(i, e) =>
      if i < |c.tasks| {
        var r := Resume(o, c.shared, c.tasks[i], e, c.made);
        forall x: Conn ensures PassesOn(c.shared, c.tasks[i], r, c.made, x) {
          NoDuplication(o, c.shared, c.tasks[i], e, c.made, x);
        }
        ExclusiveUpdate(c, i, r);
      }
  }

  /** In every interleaving, even with overlapping calls of `init`, a connection has one place:
    * never twice in the deque, never there and leased, never leased twice. */
  lemma {:induction false} ConnectionsAreExclusive(o: Options, events: seq<Event>)
    ensures Exclusive(Run(o, events))
  {
    if events != [] {
      ConnectionsAreExclusive(o, events[..|events| - 1]);
      ExclusiveStep(o, Run(o, events[..|events| - 1]), events[|events| - 1]);
    }
  }

  lemma {:induction false} OwnersCover(ts: seq<Task>, i: nat, j: nat, x: Conn)
    requires i <= j < |ts| && ts[i].Owns(x) && ts[j].Owns(x)
    ensures Owners(ts, x) >= if i < j then 2 else 1
  {
    if j < |ts| - 1 {
      OwnersCover(ts[..|ts| - 1], i, j, x);
    } else if i < j {
      OwnersCover(ts[..|ts| - 1], i, i, x);
    }
  }

  /** The same in terms of clients: two handles never share a connection, and no connection
    * held by a client waits in the deque. */
  lemma HandlesAreExclusive(o: Options, events: seq<Event>, i: nat, j: nat)
    requires var ts := Run(o, events).tasks; i < j < |ts| && ts[i].Handle? && ts[j].Handle?
    ensures var c := Run(o, events);
      c.tasks[i].conn != c.tasks[j].conn && c.tasks[i].conn !in c.shared.available
  {
    var c := Run(o, events);
    ConnectionsAreExclusive(o, events);
    var x := c.tasks[i].conn;
    OwnersCover(c.tasks, i, i, x);
    if c.tasks[j].conn == x {
      OwnersCover(c.tasks, i, j, x);
    }
    assert Places(c.shared, c.tasks, x) <= 1;
  }

  // ----- closing ---------------------------------------------------------------------------------------------------

  /** What a suspended task may rely on. */
  ghost predicate Position(s: Shared, t: Task) {
    && (t.IsInit() ==> !s.initialized && !s.closing)
    && (t.IsClosing() ==> s.initialized && s.closing)
    && (t.InitConnecting? ==> |s.available| == t.i < s.poolSize)
    && (t.InDisconnectLoop() ==> t.k < t.end == |s.available|)
  }

  ghost predicate InitUnderWay(ts: seq<Task>) {
    exists i :: 0 <= i < |ts| && ts[i].IsInit()
  }

  ghost predicate CloseUnderWay(ts: seq<Task>) {
    exists i :: 0 <= i < |ts| && ts[i].IsClosing()
  }

  /** At most one `init` and at most one `close_all` are under way. */
  ghost predicate OneEach(ts: seq<Task>) {
    && (forall i, j | 0 <= i < j < |ts| :: !(ts[i].IsInit() && ts[j].IsInit()))
    && (forall i, j | 0 <= i < j < |ts| :: !(ts[i].IsClosing() && ts[j].IsClosing()))
  }

  ghost predicate Orderly(c: Config) {
    && (forall i | 0 <= i < |c.tasks| :: Position(c.shared, c.tasks[i]))
    && OneEach(c.tasks)
    && (c.shared.closing ==> CloseUnderWay(c.tasks))
    && (!c.shared.initialized && !InitUnderWay(c.tasks) ==> c.shared.available == [])
    && (InitUnderWay(c.tasks) ==> Plain(c.tasks) <= c.carried)
    && |c.shared.available| + Plain(c.tasks) <= c.shared.poolSize + c.carried
  }

  /** Which pieces may change what. */
  ghost predicate Disciplined(s: Shared, t: Task, r: (Shared, Task)) {
    var (s', t') := r;
    && s'.poolSize == s.poolSize
    && (s'.initialized && !s.initialized ==> t.IsInit() && !t'.IsInit())
    && (s.initialized && !s'.initialized ==> t.IsClosing() && !t'.IsClosing() && s'.available == [])
    && (s'.closing && !s.closing ==> t.ClosePosted? && t'.IsClosing() && Usable(s))
    && (s.closing && !s'.closing ==> t.IsClosing() && !t'.IsClosing())
    && (s'.available != s.available ==> Usable(s) || t.IsInit() || t.IsClosing())
    && (t'.IsInit() ==> t.IsInit())
    && (t'.IsClosing() ==> t.IsClosing() || (t.ClosePosted? && Usable(s)))
    && (t.IsClosing() && !t'.IsClosing() ==> !s'.closing && !s'.initialized)
    && (t.IsInit() && !t'.IsInit() ==> s'.initialized || s'.available == [])
    && |s'.available| + One(t'.IsPlain()) <= |s.available| + One(t.IsPlain()) + One(t.InitConnecting?)
    && (!Usable(s) ==> One(t'.IsPlain()) <= One(t.IsPlain()))
  }

  lemma ResumeDisciplined(o: Options, s: Shared, t: Task, e: Env, spare: Conn)
    requires Position(s, t)
    ensures Disciplined(s, t, Resume(o, s, t, e, spare))
  {
    if t.IsInit() {
      InitDisciplined(o, s, t, e, spare);
    } else if t.IsClosing() {
      CloseDisciplined(o, s, t, e, spare);
    } else {
      OtherDisciplined(o, s, t, e, spare);
    }
  }

  lemma InitDisciplined(o: Options, s: Shared, t: Task, e: Env, spare: Conn)
    requires Position(s, t) && t.IsInit()
    ensures Disciplined(s, t, Resume(o, s, t, e, spare))
  {
  }

  lemma CloseDisciplined(o: Options, s: Shared, t: Task, e: Env, spare: Conn)
    requires Position(s, t) && t.IsClosing()
    ensures Disciplined(s, t, Resume(o, s, t, e, spare))
  {
  }

  lemma OtherDisciplined(o: Options, s: Shared, t: Task, e: Env, spare: Conn)
    requires !t.IsInit() && !t.IsClosing()
    ensures Disciplined(s, t, Resume(o, s, t, e, spare))
  {
    if t.IsPlain() {
      LeaseDisciplined(o, s, t, e, spare);
    } else if t.GetPosted? {
      PopDisciplined(o, s, e, spare);
    } else {
      RestDisciplined(o, s, t, e, spare);
    }
  }

  lemma LeaseDisciplined(o: Options, s: Shared, t: Task, e: Env, spare: Conn)
    requires t.IsPlain()
    ensures Disciplined(s, t, Resume(o, s, t, e, spare))
  {
  }

  lemma PopDisciplined(o: Options, s: Shared, e: Env, spare: Conn)
    ensures Disciplined(s, GetPosted, Resume(o, s, GetPosted, e, spare))
  {
  }

  lemma RestDisciplined(o: Options, s: Shared, t: Task, e: Env, spare: Conn)
    requires !t.IsInit() && !t.IsClosing() && !t.IsPlain() && !t.GetPosted?
    ensures Disciplined(s, t, Resume(o, s, t, e, spare))
  {
  }

  lemma ResumePosition(o: Options, s: Shared, t: Task, e: Env, spare: Conn)
    requires Position(s, t)
    ensures var r := Resume(o, s, t, e, spare); Position(r.0, r.1)
  {
    if t.IsInit() || t.IsClosing() {
      LoopPosition(o, s, t, e, spare);
    } else {
      OtherPosition(o, s, t, e, spare);
    }
  }

  lemma LoopPosition(o: Options, s: Shared, t: Task, e: Env, spare: Conn)
    requires Position(s, t) && (t.IsInit() || t.IsClosing())
    ensures var r := Resume(o, s, t, e, spare); Position(r.0, r.1)
  {
  }

  lemma OtherPosition(o: Options, s: Shared, t: Task, e: Env, spare: Conn)
    requires !t.IsInit() && !t.IsClosing()
    ensures var r := Resume(o, s, t, e, spare); Position(r.0, r.1)
  {
  }

  lemma OthersKeepPosition(s: Shared, t: Task, r: (Shared, Task), other: Task)
    requires Position(s, t) && Position(s, other) && Disciplined(s, t, r)
    requires !(t.IsInit() && other.IsInit()) && !(t.IsClosing() && other.IsClosing())
    ensures Position(r.0, other)
    ensures other.InDisconnectLoop() ==> r.0.available == s.available
  {
  }

  lemma OneEachUpdate(c: Config, i: nat, r: (Shared, Task))
    requires Orderly(c) && i < |c.tasks| && Disciplined(c.shared, c.tasks[i], r)
    ensures OneEach(c.tasks[i := r.1])
  {
    var ts := c.tasks[i := r.1];
    forall j, k | 0 <= j < k < |ts| ensures !(ts[j].IsClosing() && ts[k].IsClosing()) {
      assert Position(c.shared, c.tasks[j]) && Position(c.shared, c.tasks[k]);
    }
  }

  lemma UnderWayUpdate(c: Config, i: nat, r: (Shared, Task))
    requires Orderly(c) && i < |c.tasks| && Disciplined(c.shared, c.tasks[i], r)
    ensures var ts := c.tasks[i := r.1];
      && (InitUnderWay(ts) ==> InitUnderWay(c.tasks))
      && (InitUnderWay(c.tasks) && (c.tasks[i].IsInit() ==> r.1.IsInit()) ==> InitUnderWay(ts))
      && (r.0.closing ==> CloseUnderWay(ts))
  {
    var ts := c.tasks[i := r.1];
    if InitUnderWay(ts) {
      var j :| 0 <= j < |ts| && ts[j].IsInit();
      assert c.tasks[j].IsInit();
    }
    if r.1.IsInit() {
      assert ts[i].IsInit();
    } else if InitUnderWay(c.tasks) && !c.tasks[i].IsInit() {
      var j :| 0 <= j < |ts| && c.tasks[j].IsInit();
      assert ts[j].IsInit();
    }
    if r.0.closing {
      if r.1.IsClosing() {
        assert ts[i].IsClosing();
      } else {
        var j :| 0 <= j < |ts| && c.tasks[j].IsClosing();
        assert ts[j].IsClosing();
      }
    }
  }

  lemma OrderlyUpdate(c: Config, i: nat, r: (Shared, Task))
    requires Orderly(c) && i < |c.tasks| && Disciplined(c.shared, c.tasks[i], r) && Position(r.0, r.1)
    ensures Orderly(Config(r.0, c.tasks[i := r.1], c.made + 1, c.carried))
  {
    var ts := c.tasks[i := r.1];
    forall j | 0 <= j < |ts| ensures Position(r.0, ts[j]) {
      if j != i {
        assert Position(c.shared, c.tasks[i]) && Position(c.shared, c.tasks[j]);
        OthersKeepPosition(c.shared, c.tasks[i], r, c.tasks[j]);
      }
    }
    assert Position(c.shared, c.tasks[i]);
    OneEachUpdate(c, i, r);
    UnderWayUpdate(c, i, r);
    CountsUpdate(c.tasks, i, r.1);
    if InitUnderWay(c.tasks) {
      var j :| 0 <= j < |c.tasks| && c.tasks[j].IsInit();
      assert Position(c.shared, c.tasks[j]);
    }
    assert c.tasks[i].IsInit() ==> InitUnderWay(c.tasks);
  }

  lemma UnderWayAppend(ts: seq<Task>, t: Task)
    ensures InitUnderWay(ts + [t]) <==> InitUnderWay(ts) || t.IsInit()
    ensures CloseUnderWay(ts) ==> CloseUnderWay(ts + [t])
  {
    assert (ts + [t])[|ts|] == t;
    if InitUnderWay(ts) {
      var i :| 0 <= i < |ts| && ts[i].IsInit();
      assert (ts + [t])[i].IsInit();
    }
    if CloseUnderWay(ts) {
      var i :| 0 <= i < |ts| && ts[i].IsClosing();
      assert (ts + [t])[i].IsClosing();
    }
  }

  lemma PositionsAfterCall(c: Config, call: Call, e: Env)
    requires Orderly(c) && (call.Init? ==> !InitUnderWay(c.tasks))
    ensures var r := Begin(c.shared, call, e, c.made);
      && Position(r.0, r.1)
      && forall j | 0 <= j < |c.tasks| :: Position(r.0, c.tasks[j])
  {
    var r := Begin(c.shared, call, e, c.made);
    forall j | 0 <= j < |c.tasks| ensures Position(r.0, c.tasks[j]) {
      assert Position(c.shared, c.tasks[j]);
      assert c.tasks[j].IsInit() ==> InitUnderWay(c.tasks);
    }
  }

  lemma OneEachAppend(ts: seq<Task>, t: Task)
    requires OneEach(ts) && !t.IsClosing() && (t.IsInit() ==> !InitUnderWay(ts))
    ensures OneEach(ts + [t])
  {
    forall j | 0 <= j < |ts| && t.IsInit() ensures !ts[j].IsInit() {
      assert ts[j].IsInit() ==> InitUnderWay(ts);
    }
  }

  lemma OrderlyAppend(c: Config, r: (Shared, Task), carried: nat)
    requires Orderly(c) && r.0.available == c.shared.available && r.0.closing == c.shared.closing
    requires Position(r.0, r.1) && forall j | 0 <= j < |c.tasks| :: Position(r.0, c.tasks[j])
    requires !r.1.IsClosing() && !r.1.IsPlain() && (r.1.IsInit() ==> !InitUnderWay(c.tasks))
    requires c.shared.initialized ==> r.0.initialized
    requires (r.0.poolSize == c.shared.poolSize && carried == c.carried && !r.1.IsInit())
      || (carried == Plain(c.tasks) && r.0.available == [])
    ensures Orderly(Config(r.0, c.tasks + [r.1], c.made + 1, carried))
  {
    CountsAppend(c.tasks, r.1, 0);
    UnderWayAppend(c.tasks, r.1);
    OneEachAppend(c.tasks, r.1);
  }

  lemma OrderlyCall(o: Options, c: Config, call: Call, e: Env)
    requires Orderly(c) && (call.Init? ==> !InitUnderWay(c.tasks))
    ensures Orderly(Next(o, c, Called(call, e)))
  {
    PositionsAfterCall(c, call, e);
    OrderlyAppend(c, Begin(c.shared, call, e, c.made), Next(o, c, Called(call, e)).carried);
  }

  /** An `init` is called only while no other one is suspended. */
  ghost predicate Exclusively(c: Config, ev: Event) {
    ev.Called? && ev.call.Init? ==> !InitUnderWay(c.tasks)
  }

  ghost predicate InitsDoNotOverlap(o: Options, events: seq<Event>) {
    forall n | 0 <= n < |events| :: Exclusively(Run(o, events[..n]), events[n])
  }

  lemma NoOverlapBefore(o: Options, events: seq<Event>)
    requires events != [] && InitsDoNotOverlap(o, events)
    ensures InitsDoNotOverlap(o, events[..|events| - 1])
    ensures Exclusively(Run(o, events[..|events| - 1]), events[|events| - 1])
  {
    var before := events[..|events| - 1];
    forall n | 0 <= n < |before| ensures Exclusively(Run(o, before[..n]), before[n]) {
      assert before[..n] == events[..n];
    }
  }

  lemma OrderlyStep(o: Options, c: Config, ev: Event)
    requires Orderly(c) && Exclusively(c, ev)
    ensures Orderly(Next(o, c, ev))
  {
    match ev
    case Called(call, e) =>
      OrderlyCall(o, c, call, e);
    case Resumed(i, e) =>
      if i < |c.tasks| {
        assert Position(c.shared, c.tasks[i]);
        ResumeDisciplined(o, c.shared, c.tasks[i], e, c.made);
        ResumePosition(o, c.shared, c.tasks[i], e, c.made);
        OrderlyUpdate(c, i, Resume(o, c.shared, c.tasks[i], e, c.made));
      }
  }

  lemma {:induction false} RunIsOrderly(o: Options, events: seq<Event>)
    requires InitsDoNotOverlap(o, events)
    ensures Orderly(Run(o, events))
  {
    if events != [] {
      NoOverlapBefore(o, events);
      RunIsOrderly(o, events[..|events| - 1]);
      OrderlyStep(o, Run(o, events[..|events| - 1]), events[|events| - 1]);
    }
  }

  /** Another piece leaves a suspended loop over the deque, and the deque, alone. */
  lemma OthersLeaveDeque(o: Options, c: Config, ev: Event, i: nat)
    requires Orderly(c) && Exclusively(c, ev)
    requires i < |c.tasks| && c.tasks[i].InDisconnectLoop() && (ev.Resumed? ==> ev.task != i)
    ensures Next(o, c, ev).shared.available == c.shared.available
    ensures Next(o, c, ev).tasks[i] == c.tasks[i]
  {
    assert Position(c.shared, c.tasks[i]);
    if ev.Resumed? && ev.task < |c.tasks| {
      var t := c.tasks[ev.task];
      assert Position(c.shared, t);
      ResumeDisciplined(o, c.shared, t, ev.env, c.made);
      OthersKeepPosition(c.shared, t, Resume(o, c.shared, t, ev.env, c.made), c.tasks[i]);
    }
  }

  /** While a loop over the deque is suspended no other piece changes the deque, and the loop's
    * own next element is in range. */
  lemma DequeIsStable(o: Options, events: seq<Event>, ev: Event, i: nat)
    requires InitsDoNotOverlap(o, events) && Exclusively(Run(o, events), ev)
    requires i < |Run(o, events).tasks| && Run(o, events).tasks[i].InDisconnectLoop()
    requires ev.Resumed? ==> ev.task != i
    ensures var c := Run(o, events);
      && c.tasks[i].k < c.tasks[i].end == |c.shared.available|
      && Next(o, c, ev).shared.available == c.shared.available
      && Next(o, c, ev).tasks[i] == c.tasks[i]
  {
    RunIsOrderly(o, events);
    OthersLeaveDeque(o, Run(o, events), ev, i);
  }

  ghost predicate LoopAt(c: Config, i: nat, deque: seq<Conn>, k: nat) {
    i < |c.tasks| && c.tasks[i].CloseDisconnecting? && c.shared.available == deque && c.tasks[i].k == k
  }

  ghost predicate LoopOver(c: Config, i: nat) {
    i < |c.tasks| && c.tasks[i] == Done
  }

  /** One event, seen from a suspended disconnect loop of `close_all`: only its own resumption
    * moves it on, to the next connection or, after the last one, to the closed pool. */
  lemma LoopStep(o: Options, c: Config, ev: Event, i: nat, k: nat)
    requires Orderly(c) && Exclusively(c, ev) && LoopAt(c, i, c.shared.available, k)
    ensures var c' := Next(o, c, ev); var mine := ev.Resumed? && ev.task == i;
      if !mine then LoopAt(c', i, c.shared.available, k)
      else if k + 1 < |c.shared.available| then LoopAt(c', i, c.shared.available, k + 1)
      else k + 1 == |c.shared.available| && LoopOver(c', i) && c'.shared == Closed(c.shared)
  {
    assert Position(c.shared, c.tasks[i]);
    if !(ev.Resumed? && ev.task == i) {
      OthersLeaveDeque(o, c, ev, i);
    }
  }

  lemma OverStaysOver(o: Options, c: Config, ev: Event, i: nat)
    requires LoopOver(c, i)
    ensures LoopOver(Next(o, c, ev), i)
  {
  }

  /** How often task `i` is resumed. */
  function Resumptions(events: seq<Event>, i: nat): nat {
    if events == [] then 0
    else
      Resumptions(events[..|events| - 1], i) +
      One(events[|events| - 1].Resumed? && events[|events| - 1].task == i)
  }

  function RunFrom(o: Options, c: Config, events: seq<Event>): Config {
    if events == [] then c
    else Next(o, RunFrom(o, c, events[..|events| - 1]), events[|events| - 1])
  }

  ghost predicate ExclusivelyFrom(o: Options, c: Config, events: seq<Event>) {
    events != [] ==>
      && ExclusivelyFrom(o, c, events[..|events| - 1])
      && Exclusively(RunFrom(o, c, events[..|events| - 1]), events[|events| - 1])
  }

  /** `close_all` reaches every connection that the deque held when its loop began: whatever
    * happens meanwhile, after k resumptions it stands before connection k of that deque, and
    * it ends only after the last one. */
  lemma {:induction false} LoopVisitsWholeDeque(o: Options, c: Config, events: seq<Event>, i: nat)
    requires Orderly(c) && ExclusivelyFrom(o, c, events) && LoopAt(c, i, c.shared.available, 0)
    ensures var k, c' := Resumptions(events, i), RunFrom(o, c, events);
      && Orderly(c')
      && (if k < |c.shared.available| then LoopAt(c', i, c.shared.available, k) else LoopOver(c', i))
  {
    assert Position(c.shared, c.tasks[i]);
    if events != [] {
      var before, ev := events[..|events| - 1], events[|events| - 1];
      LoopVisitsWholeDeque(o, c, before, i);
      var k, mid := Resumptions(before, i), RunFrom(o, c, before);
      OrderlyStep(o, mid, ev);
      if k < |c.shared.available| {
        LoopStep(o, mid, ev, i, k);
      } else {
        OverStaysOver(o, mid, ev, i);
      }
    }
  }

  // ----- extending a run -------------------------------------------------------------------------

  function Ok(): Env {
    Env(true, true, false)
  }

  lemma RunExtends(o: Options, events: seq<Event>, ev: Event)
    ensures Run(o, events + [ev]) == Next(o, Run(o, events), ev)
  {
    assert (events + [ev])[..|events|] == events;
  }

  predicate IsInitCall(ev: Event) {
    ev.Called? && ev.call.Init?
  }

  /** `longer` goes on without a further call of `init`. */
  ghost predicate Extends(events: seq<Event>, longer: seq<Event>) {
    events <= longer && forall n | |events| <= n < |longer| :: !IsInitCall(longer[n])
  }

  lemma OneMore(o: Options, events: seq<Event>, ev: Event)
    requires !IsInitCall(ev)
    ensures Extends(events, events + [ev])
    ensures Run(o, events + [ev]) == Next(o, Run(o, events), ev)
  {
    RunExtends(o, events, ev);
  }

  /** A suspended `init` can always finish: its connects succeed. */
  lemma {:induction false} Filled(o: Options, events: seq<Event>, i: nat) returns (longer: seq<Event>)
    requires i < |Run(o, events).tasks| && Run(o, events).tasks[i].InitConnecting?
    ensures Extends(events, longer)
    ensures var c, c' := Run(o, events), Run(o, longer);
      && c'.tasks == c.tasks[i := Done]
      && c'.shared == c.shared.(initialized := true, available := c'.shared.available)
      && |c'.shared.available| >= |c.shared.available| + 1
      && (c.tasks[i].i < c.shared.poolSize ==>
        |c'.shared.available| == |c.shared.available| + c.shared.poolSize - c.tasks[i].i)
    decreases Run(o, events).shared.poolSize - Run(o, events).tasks[i].i
  {
    hide Run;
    var c := Run(o, events);
    longer := events + [Resumed(i, Ok())];
    OneMore(o, events, Resumed(i, Ok()));
    if c.tasks[i].i + 1 < c.shared.poolSize {
      longer := Filled(o, longer, i);
    }
  }

  /** A suspended disconnect loop of `init` can always finish, and then empties the deque. */
  lemma {:induction false} Drained(o: Options, events: seq<Event>, i: nat) returns (longer: seq<Event>)
    requires i < |Run(o, events).tasks| && Run(o, events).tasks[i].InitDisconnecting?
    ensures Extends(events, longer)
    ensures var c, c' := Run(o, events), Run(o, longer);
      c'.tasks == c.tasks[i := Done] && c'.shared == c.shared.(available := [])
    decreases Run(o, events).tasks[i].end - Run(o, events).tasks[i].k
  {
    hide Run;
    var t := Run(o, events).tasks[i];
    longer := events + [Resumed(i, Ok())];
    OneMore(o, events, Resumed(i, Ok()));
    if t.k + 1 < t.end {
      longer := Drained(o, longer, i);
    }
  }

  /** `close_all` can always reach its loop. */
  lemma Closing(o: Options, events: seq<Event>) returns (longer: seq<Event>)
    requires var s := Run(o, events).shared; Usable(s) && s.available != []
    ensures Extends(events, longer)
    ensures var c, c' := Run(o, events), Run(o, longer);
      && c'.tasks == c.tasks + [CloseDisconnecting(0, |c.shared.available|)]
      && c'.shared == c.shared.(closing := true)
  {
    hide Run;
    var i := |Run(o, events).tasks|;
    OneMore(o, events, Called(CloseAll, Ok()));
    var e1 := events + [Called(CloseAll, Ok())];
    OneMore(o, e1, Resumed(i, Ok()));
    var e2 := e1 + [Resumed(i, Ok())];
    OneMore(o, e2, Resumed(i, Ok()));
    longer := e2 + [Resumed(i, Ok())];
  }

  lemma PrefixRuns(events: seq<Event>, longer: seq<Event>, n: nat)
    requires events <= longer && n <= |events|
    ensures longer[..n] == events[..n]
  {
  }

  /** An `init` that does not overlap, and no `init` after it. */
  lemma StaysApart(o: Options, events: seq<Event>, init: Event, longer: seq<Event>)
    requires InitsDoNotOverlap(o, events) && Exclusively(Run(o, events), init)
    requires Extends(events + [init], longer)
    ensures InitsDoNotOverlap(o, longer)
  {
    hide Run;
    forall n | 0 <= n < |longer| ensures Exclusively(Run(o, longer[..n]), longer[n]) {
      if n < |events| {
        PrefixRuns(events, longer, n);
      } else if n == |events| {
        assert longer[..n] == events;
      }
    }
  }

  // ----- when closing is safe --------------------------------------------------------------------

  /** The loop of `close_all` stands inside the deque that it began with. */
  ghost predicate Steady(c: Config) {
    forall i | 0 <= i < |c.tasks| && c.tasks[i].CloseDisconnecting? ::
      c.tasks[i].k < c.tasks[i].end == |c.shared.available|
  }

  /** The run goes on with a call of `init`; later ones do not overlap. */
  ghost predicate InitNext(o: Options, events: seq<Event>, size: nat, longer: seq<Event>) {
    && |events| < |longer| && events <= longer
    && longer[|events|].Called? && longer[|events|].call == Init(size)
    && forall n | |events| < n < |longer| :: Exclusively(Run(o, longer[..n]), longer[n])
  }

  lemma ApartStaysSteady(o: Options, events: seq<Event>, size: nat, longer: seq<Event>)
    requires InitsDoNotOverlap(o, events) && !InitUnderWay(Run(o, events).tasks)
    requires InitNext(o, events, size, longer)
    ensures InitsDoNotOverlap(o, longer)
    ensures Steady(Run(o, longer))
  {
    hide Run;
    forall n | 0 <= n < |longer| ensures Exclusively(Run(o, longer[..n]), longer[n]) {
      if n < |events| {
        PrefixRuns(events, longer, n);
      } else if n == |events| {
        assert longer[..n] == events;
      }
    }
    RunIsOrderly(o, longer);
    var c := Run(o, longer);
    forall i | 0 <= i < |c.tasks| && c.tasks[i].CloseDisconnecting?
      ensures c.tasks[i].k < c.tasks[i].end == |c.shared.available|
    {
      assert Position(c.shared, c.tasks[i]);
    }
  }

  lemma ExtendsTwice(a: seq<Event>, b: seq<Event>, c: seq<Event>)
    requires Extends(a, b) && Extends(b, c)
    ensures Extends(a, c)
  {
  }

  /** From every state with a suspended `init`: a second call passes the guard too and finishes,
    * `close_all` stands in its loop, and the first call changes the deque under it, either by
    * one more connection or by emptying it. */
  lemma OverlappingInits(o: Options, events: seq<Event>, i: nat, size: nat) returns (longer: seq<Event>)
    requires InitsDoNotOverlap(o, events) && size >= 1
    requires i < |Run(o, events).tasks| && Run(o, events).tasks[i].IsInit()
    ensures InitNext(o, events, size, longer) && Extends(events + [Called(Init(size), Ok())], longer)
    ensures var c, n := Run(o, longer), |Run(o, events).tasks| + 1;
      && n < |c.tasks| && c.tasks[n].CloseDisconnecting?
      && if Run(o, events).tasks[i].InitConnecting? then c.tasks[n].end < |c.shared.available|
        else c.shared.available == [] && c.tasks[n].end > 0
  {
    hide Run;
    var c := Run(o, events);
    RunIsOrderly(o, events);
    assert Position(c.shared, c.tasks[i]);
    var init := Called(Init(size), Ok());
    RunExtends(o, events, init);
    var begun := events + [init];
    var filled := Filled(o, begun, |c.tasks|);
    var closing := Closing(o, filled);
    ExtendsTwice(begun, filled, closing);
    if c.tasks[i].InitConnecting? {
      OneMore(o, closing, Resumed(i, Ok()));
      longer := closing + [Resumed(i, Ok())];
    } else {
      longer := Drained(o, closing, i);
    }
    ExtendsTwice(begun, closing, longer);
    assert longer[|events|] == init;
  }

  /** Whether the loop of `close_all` is safe whatever happens from now on is decided by the next
    * call of `init`: it must not be made while another one is suspended. */
  lemma ClosingIsSafeExactly(o: Options, events: seq<Event>, size: nat)
    requires InitsDoNotOverlap(o, events) && size >= 1
    ensures (forall longer | InitNext(o, events, size, longer) :: Steady(Run(o, longer)))
      <==> !InitUnderWay(Run(o, events).tasks)
  {
    hide Run;
    var c := Run(o, events);
    if InitUnderWay(c.tasks) {
      var i :| 0 <= i < |c.tasks| && c.tasks[i].IsInit();
      var longer := OverlappingInits(o, events, i, size);
      assert !Steady(Run(o, longer));
    } else {
      forall longer | InitNext(o, events, size, longer) ensures Steady(Run(o, longer)) {
        ApartStaysSteady(o, events, size, longer);
      }
    }
  }

  // ----- the size of the pool --------------------------------------------------------------------

  /** The pool never has more of its own connections than it was asked for, plus the leases
    * still out when the last `init` began. */
  lemma Capacity(o: Options, events: seq<Event>)
    requires InitsDoNotOverlap(o, events)
    ensures var c := Run(o, events); |c.shared.available| + Plain(c.tasks) <= c.shared.poolSize + c.carried
  {
    RunIsOrderly(o, events);
  }

  ghost predicate WithinSize(c: Config) {
    |c.shared.available| + Plain(c.tasks) <= c.shared.poolSize
  }

  /** A call of `init` would begin to connect. */
  ghost predicate MayBegin(o: Options, events: seq<Event>) {
    var c := Run(o, events);
    InitsDoNotOverlap(o, events) && !c.shared.initialized && !c.shared.closing && !InitUnderWay(c.tasks)
  }

  ghost predicate StartsAt(o: Options, events: seq<Event>, n: nat)
    requires n < |events|
  {
    Starts(Run(o, events[..n]).shared, events[n])
  }

  /** The run goes on with this `init` and without beginning another one. */
  ghost predicate LastInit(o: Options, events: seq<Event>, size: nat, longer: seq<Event>) {
    && |events| < |longer| && events <= longer && InitsDoNotOverlap(o, longer)
    && longer[|events|].Called? && longer[|events|].call == Init(size)
    && forall n | |events| < n < |longer| :: !StartsAt(o, longer, n)
  }

  lemma {:induction false} CarriedStays(o: Options, events: seq<Event>, size: nat, longer: seq<Event>)
    requires MayBegin(o, events) && LastInit(o, events, size, longer)
    ensures Run(o, longer).carried == Plain(Run(o, events).tasks)
    decreases |longer|
  {
    hide Run;
    hide Plain;
    var n := |longer| - 1;
    var before := longer[..n];
    assert longer == before + [longer[n]];
    RunExtends(o, before, longer[n]);
    if n == |events| {
      assert before == events;
    } else {
      NoOverlapBefore(o, longer);
      forall m | |events| < m < n ensures !StartsAt(o, before, m) {
        assert !StartsAt(o, longer, m);
        PrefixRuns(before, longer, m);
      }
      CarriedStays(o, events, size, before);
      assert !StartsAt(o, longer, n);
    }
  }

  /** From every state in which `init` may begin: it succeeds, and the leases that are out at
    * that moment come on top of the size. */
  lemma OutOnTop(o: Options, events: seq<Event>, size: nat) returns (longer: seq<Event>)
    requires MayBegin(o, events)
    ensures LastInit(o, events, size, longer)
    ensures var c, c' := Run(o, events), Run(o, longer);
      && Usable(c'.shared) && c'.shared.poolSize == size == |c'.shared.available|
      && c'.tasks == c.tasks + [Done]
  {
    hide Run;
    var c := Run(o, events);
    RunIsOrderly(o, events);
    var init := Called(Init(size), Ok());
    RunExtends(o, events, init);
    longer := events + [init];
    if size > 0 {
      longer := Filled(o, longer, |c.tasks|);
    }
    StaysApart(o, events, init, longer);
    assert longer[|events|] == init;
  }

  /** The pool keeps within its size, whatever happens from the next `init` on, if and only if no
    * lease on one of its connections is out when that `init` begins. */
  lemma CapacityExactly(o: Options, events: seq<Event>, size: nat)
    requires MayBegin(o, events)
    ensures (forall longer | LastInit(o, events, size, longer) :: WithinSize(Run(o, longer)))
      <==> Plain(Run(o, events).tasks) == 0
  {
    hide Run;
    hide Plain;
    var c := Run(o, events);
    if Plain(c.tasks) == 0 {
      forall longer | LastInit(o, events, size, longer) ensures WithinSize(Run(o, longer)) {
        CarriedStays(o, events, size, longer);
        Capacity(o, longer);
      }
    } else {
      var longer := OutOnTop(o, events, size);
      CountsAppend(c.tasks, Done, 0);
      assert !WithinSize(Run(o, longer));
    }
  }

  /** Every `init` that begins finds no lease out. */
  ghost predicate InitsBeginIdle(o: Options, events: seq<Event>) {
    forall n | 0 <= n < |events| && StartsAt(o, events, n) :: Plain(Run(o, events[..n]).tasks) == 0
  }

  lemma StartsBefore(o: Options, events: seq<Event>, n: nat)
    requires n < |events| - 1
    ensures StartsAt(o, events[..|events| - 1], n) <==> StartsAt(o, events, n)
    ensures events[..|events| - 1][..n] == events[..n]
  {
    PrefixRuns(events[..|events| - 1], events, n);
  }

  lemma {:induction false} NothingCarried(o: Options, events: seq<Event>)
    requires InitsBeginIdle(o, events)
    ensures Run(o, events).carried == 0
  {
    hide Plain;
    if events != [] {
      var n := |events| - 1;
      forall m | 0 <= m < n && StartsAt(o, events[..n], m) ensures Plain(Run(o, events[..n][..m]).tasks) == 0 {
        StartsBefore(o, events, m);
      }
      NothingCarried(o, events[..n]);
      assert StartsAt(o, events, n) ==> Plain(Run(o, events[..n]).tasks) == 0;
    }
  }

  /** So a pool that is only initialized while idle always keeps within its size. */
  lemma IdlePoolKeepsSize(o: Options, events: seq<Event>)
    requires InitsDoNotOverlap(o, events) && InitsBeginIdle(o, events)
    ensures WithinSize(Run(o, events))
  {
    hide Run;
    NothingCarried(o, events);
    Capacity(o, events);
  }

  /** Before any `init` has begun. */
  ghost predicate Untouched(c: Config) {
    && !c.shared.initialized && !c.shared.closing && Plain(c.tasks) == 0
    && forall i | 0 <= i < |c.tasks| :: c.tasks[i].GetPosted? || c.tasks[i].ClosePosted? || c.tasks[i].Done?
  }

  lemma UntouchedStep(o: Options, c: Config, ev: Event)
    requires Untouched(c) && !Starts(c.shared, ev)
    ensures Untouched(Next(o, c, ev))
  {
    match ev
    case Called(call, e) =>
      CountsAppend(c.tasks, Begin(c.shared, call, e, c.made).1, 0);
    case Resumed(i, e) =>
      if i < |c.tasks| {
        hide Resume;
        hide Plain;
        UntouchedPiece(o, c.shared, c.tasks[i], e, c.made);
        CountsUpdate(c.tasks, i, Resume(o, c.shared, c.tasks[i], e, c.made).1);
      }
  }

  lemma UntouchedPiece(o: Options, s: Shared, t: Task, e: Env, spare: Conn)
    requires !s.initialized && (t.GetPosted? || t.ClosePosted? || t.Done?)
    ensures Resume(o, s, t, e, spare) == (s, Done)
  {
  }

  lemma {:induction false} NothingBegun(o: Options, events: seq<Event>)
    requires forall n | 0 <= n < |events| :: !StartsAt(o, events, n)
    ensures Untouched(Run(o, events))
  {
    if events != [] {
      var n := |events| - 1;
      forall m | 0 <= m < n ensures !StartsAt(o, events[..n], m) {
        StartsBefore(o, events, m);
      }
      NothingBegun(o, events[..n]);
      assert !StartsAt(o, events, n);
      UntouchedStep(o, Run(o, events[..n]), events[n]);
    }
  }

  /** And so does a pool that is initialized once. */
  lemma OneInitKeepsSize(o: Options, events: seq<Event>)
    requires InitsDoNotOverlap(o, events)
    requires forall m, n | 0 <= m < n < |events| :: !(StartsAt(o, events, m) && StartsAt(o, events, n))
    ensures WithinSize(Run(o, events))
  {
    hide Run;
    forall n | 0 <= n < |events| && StartsAt(o, events, n) ensures Plain(Run(o, events[..n]).tasks) == 0 {
      forall m | 0 <= m < n ensures !StartsAt(o, events[..n], m) {
        assert !StartsAt(o, events, m);
        PrefixRuns(events[..n], events, m);
      }
      NothingBegun(o, events[..n]);
    }
    IdlePoolKeepsSize(o, events);
  }

  /** A handle from before `close_all` that comes back after the next `init` goes into the new
    * deque, which then alone holds one connection more than the pool was asked for. */
  lemma ReturnedTooLate(o: Options, events: seq<Event>, i: nat, size: nat) returns (longer: seq<Event>)
    requires MayBegin(o, events)
    requires i < |Run(o, events).tasks| && Run(o, events).tasks[i].Handle? && !Run(o, events).tasks[i].temporary
    ensures InitsDoNotOverlap(o, longer)
    ensures var s := Run(o, longer).shared; s.poolSize == size && |s.available| == size + 1
  {
    hide Run;
    var begun := OutOnTop(o, events, size);
    OneMore(o, begun, Resumed(i, Ok()));
    var sent := begun + [Resumed(i, Ok())];
    OneMore(o, sent, Resumed(i, Ok()));
    longer := sent + [Resumed(i, Ok())];
    forall n | 0 <= n < |longer| ensures Exclusively(Run(o, longer[..n]), longer[n]) {
      if n < |begun| {
        PrefixRuns(begun, longer, n);
      }
    }
  }

  /** A client takes the only connection of a pool. */
  lemma TakeOnly(o: Options, events: seq<Event>) returns (longer: seq<Event>)
    requires var s := Run(o, events).shared; Usable(s) && |s.available| == 1
    ensures Extends(events, longer)
    ensures var c, c' := Run(o, events), Run(o, longer);
      && c'.shared == c.shared.(available := [], inUse := c.shared.inUse + 1)
      && c'.tasks == c.tasks + [Handle(c.shared.available[0], false)]
  {
    hide Run;
    var i := |Run(o, events).tasks|;
    OneMore(o, events, Called(Get, Ok()));
    var e1 := events + [Called(Get, Ok())];
    OneMore(o, e1, Resumed(i, Ok()));
    var e2 := e1 + [Resumed(i, Ok())];
    OneMore(o, e2, Resumed(i, Ok()));
    var e3 := e2 + [Resumed(i, Ok())];
    OneMore(o, e3, Resumed(i, Ok()));
    longer := e3 + [Resumed(i, Ok())];
  }

  lemma CloseEmpty(o: Options, events: seq<Event>) returns (longer: seq<Event>)
    requires var s := Run(o, events).shared; Usable(s) && s.available == []
    ensures Extends(events, longer)
    ensures var c, c' := Run(o, events), Run(o, longer);
      c'.shared == Closed(c.shared) && c'.tasks == c.tasks + [Done]
  {
    hide Run;
    var i := |Run(o, events).tasks|;
    OneMore(o, events, Called(CloseAll, Ok()));
    var e1 := events + [Called(CloseAll, Ok())];
    OneMore(o, e1, Resumed(i, Ok()));
    var e2 := e1 + [Resumed(i, Ok())];
    OneMore(o, e2, Resumed(i, Ok()));
    longer := e2 + [Resumed(i, Ok())];
  }

  /** Such a state is reached: `close_all` does not wait for a handle, and `init` may begin. */
  lemma HandleOutlivesPool(o: Options) returns (events: seq<Event>, i: nat)
    ensures MayBegin(o, events)
    ensures var ts := Run(o, events).tasks; i < |ts| && ts[i].Handle? && !ts[i].temporary
  {
    var init := Called(Init(1), Ok());
    var begun := [] + [init];
    RunExtends(o, [], init);
    assert Run(o, []).tasks == [] && Run(o, begun).tasks == [InitConnecting(0, 0)];
    hide Run;
    var filled := Filled(o, begun, 0);
    var taken := TakeOnly(o, filled);
    ExtendsTwice(begun, filled, taken);
    events := CloseEmpty(o, taken);
    ExtendsTwice(begun, taken, events);
    StaysApart(o, [], init, events);
    i := 1;
  }

  // ----- conservation --------------------------------------------------------------------------------------

  /** Every `connect` and `ping` succeeds and nobody closes the pool. */
  ghost predicate NothingFails(events: seq<Event>) {
    forall n | 0 <= n < |events| :: events[n].env.ok && !(events[n].Called? && events[n].call.CloseAll?)
  }

  predicate Healthy(t: Task) {
    !(t.GetReconnecting? || t.GetFailed? || t.GetDisconnecting? || t.InitDisconnecting? || t.ClosePosted?
      || t.IsClosing())
  }

  ghost predicate Conserved(c: Config) {
    && (forall i | 0 <= i < |c.tasks| :: Healthy(c.tasks[i]))
    && !c.shared.closing
    && (if c.shared.initialized then |c.shared.available| + Plain(c.tasks) == c.shared.poolSize
      else Plain(c.tasks) == 0)
  }

  lemma ConservedCall(o: Options, c: Config, call: Call, e: Env)
    requires Orderly(c) && Conserved(c) && !call.CloseAll? && (call.Init? ==> !InitUnderWay(c.tasks))
    ensures Conserved(Next(o, c, Called(call, e)))
  {
    hide Begin;
    hide Plain;
    var r := Begin(c.shared, call, e, c.made);
    HealthyCall(c.shared, call, e, c.made);
    CountsAppend(c.tasks, r.1, 0);
  }

  lemma HealthyCall(s: Shared, call: Call, e: Env, spare: Conn)
    requires !call.CloseAll? && !s.closing
    ensures var (s', t) := Begin(s, call, e, spare);
      && Healthy(t) && !t.IsPlain() && !s'.closing && s'.available == s.available
      && (s.initialized ==> s' == s)
      && (s'.initialized && !s.initialized ==> call.Init? && s'.poolSize == 0)
  {
  }

  lemma ConservedStep(o: Options, c: Config, ev: Event)
    requires Orderly(c) && Exclusively(c, ev) && Conserved(c)
    requires ev.env.ok && !(ev.Called? && ev.call.CloseAll?)
    ensures Conserved(Next(o, c, ev))
  {
    match ev
    case Called(call, e) =>
      ConservedCall(o, c, call, e);
    case Resumed(i, e) =>
      if i < |c.tasks| {
        ConservedResume(o, c, i, e);
      }
  }

  lemma ConservedResume(o: Options, c: Config, i: nat, e: Env)
    requires Orderly(c) && Conserved(c) && i < |c.tasks| && e.ok
    ensures Conserved(Next(o, c, Resumed(i, e)))
  {
    hide Resume;
    assert Healthy(c.tasks[i]) && Position(c.shared, c.tasks[i]);
    CountsCover(c.tasks, i);
    HealthyPiece(o, c.shared, c.tasks[i], e, c.made);
    ConservedUpdate(c, i, Resume(o, c.shared, c.tasks[i], e, c.made));
  }

  ghost predicate PieceConserves(s: Shared, t: Task, r: (Shared, Task)) {
    var (s', t') := r;
    && Healthy(t') && !s'.closing && s'.poolSize == s.poolSize
    && (s.initialized ==> s'.initialized && |s'.available| + One(t'.IsPlain()) == |s.available| + One(t.IsPlain()))
    && (!s.initialized && s'.initialized ==> |s'.available| == s'.poolSize)
    && (!s.initialized ==> !t'.IsPlain())
  }

  lemma ConservedUpdate(c: Config, i: nat, r: (Shared, Task))
    requires Conserved(c) && i < |c.tasks| && PieceConserves(c.shared, c.tasks[i], r)
    ensures Conserved(Config(r.0, c.tasks[i := r.1], c.made + 1, c.carried))
  {
    CountsUpdate(c.tasks, i, r.1);
  }

  lemma HealthyPiece(o: Options, s: Shared, t: Task, e: Env, spare: Conn)
    requires Healthy(t) && Position(s, t) && e.ok && !s.closing && (t.IsPlain() ==> s.initialized)
    ensures PieceConserves(s, t, Resume(o, s, t, e, spare))
  {
  }

  /** If nothing fails and nobody closes the pool, then once it is initialized no connection is
    * ever lost or gained: those in the deque and those leased add up to the pool's size. */
  lemma {:induction false} NothingIsLost(o: Options, events: seq<Event>)
    requires InitsDoNotOverlap(o, events) && NothingFails(events)
    ensures Conserved(Run(o, events))
  {
    if events != [] {
      var before := events[..|events| - 1];
      NoOverlapBefore(o, events);
      NothingIsLost(o, before);
      RunIsOrderly(o, before);
      ConservedStep(o, Run(o, before), events[|events| - 1]);
    }
  }
}
