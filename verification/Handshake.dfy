/**
 The stop/resume handshake between the emulation thread (`monitor_run`) and the server thread
 (`server_recv_request_and_dispatch`), with a client connected. A state holds the program
 counters of both threads and what they share. A schedule is any sequence of moves; a move
 lets one thread make one access to a shared variable or one lock operation, and a thread
 that is blocked stays where it is. Two moves do more: the scan of the breakpoints and the
 test of control_flow_next read and clear flags in one go. No interleaving is lost by that,
 since the only other code that touches these flags is the serving of CONTROL_FLOW, which
 `ServedOnlyWhileParked` keeps out of the do-loop. Program counters are numbered so that
 a region of the code is an interval; being at `E_WAIT` or `S_WAIT` is being in the wait set
 of `cnd_server_stop`.
 */
module Handshake {

  datatype Switch = Off | On
  datatype Owner = Free | Emulation | Server
  datatype QuickLock = Unlocked | Reading | Writing
  datatype Control = Until | Next | Continue | Break | OtherControl
  datatype Request = ControlFlow(c: Control) | Inspect | Resume | Stop

  // the emulation thread
  const E_LOCK := 0             // top of the loop, about to lock the mutex
  const E_WAIT := 1             // in pthread_cond_wait
  const E_REACQUIRE := 2        // woken, needs the mutex back
  const E_UNLOCK_STOPPED := 3   // unlock, then continue
  const E_CHECK := 4            // holds the mutex, about to read server_running
  const E_UNLOCK_RUN := 5       // unlock, then enter the do-loop
  const E_EXEC := 6             // exec_next
  const E_TRY_READ := 7         // got_stop_request: pthread_rwlock_tryrdlock
  const E_READ_REQUEST := 8     //   reads and clears server_stop_request
  const E_READ_DONE := 9        //   unlocks
  const E_SCAN := 10            // hit_breakpoint: breakpoints and until
  const E_NEXT := 11            //   control_flow_next
  const E_STOP := 12            //   stop_execution, without the mutex
  const E_JOIN_LOCK := 13       // after the do-loop: the empty lock/unlock pair
  const E_JOIN_UNLOCK := 14
  const E_SIGNAL := 15

  // the server thread
  const S_IDLE := 0
  const S_LOCK := 1
  const S_RECEIVE := 2          // from here the server holds the mutex
  const S_UNLOCK := 3
  const S_CHECK := 4            // reads server_running
  const S_STOP := 5             // handle_monitor_stop
  const S_CONTROL_SIGNAL := 6
  const S_RESUME := 7
  const S_INSPECT := 8          // dispatch_inspect: reads CPU and PPU state
  const S_CONTROL := 9          // dispatch_control_flow: flags and breakpoints
  const S_CONTROL_RESUME := 10  //   its resume_execution
  const S_WRITE_LOCK := 11      // set_stop_request
  const S_SET_REQUEST := 12
  const S_WRITE_UNLOCK := 13
  const S_COND_WAIT := 14
  const S_WAIT := 15            // in pthread_cond_wait, without the mutex
  const S_REACQUIRE := 16

  datatype State = State(
    e: int, s: int, mutex: Owner, quickLock: QuickLock,
    running: Switch, stopRequest: Switch,
    flags: set<Control>,  // the control_flow flags that are up
    ret: Switch,          // the emulation thread's local result of the tests
    request: Request,     // the server's local request
    answerable: Switch    // history: STOP was accepted in the do-loop or just after it
  )

  /** One move of a thread, with the choices its environment makes for it. */
  datatype Move =
    | EmulationMoves(wakes: bool, atBreakpoint: bool, atUntil: bool)
    | ServerMoves(received: bool, request: Request)
    | ServerWakesSpuriously

  function Initial(): State {
    State(E_LOCK, S_IDLE, Free, Unlocked, Off, Off, {}, Off, Inspect, Off)
  }

  // ---------- regions ----------

  /** The body of the do-loop: exec_next and the tests of server_should_stop_execution. */
  predicate InLoop(e: int) { E_EXEC <= e <= E_STOP }

  predicate EmulationHolds(e: int) { E_UNLOCK_STOPPED <= e <= E_UNLOCK_RUN || e == E_JOIN_UNLOCK }

  predicate ServerHolds(s: int) { S_RECEIVE <= s <= S_COND_WAIT }

  /** Serving INSPECT or CONTROL_FLOW. */
  predicate Serving(s: int) { S_INSPECT <= s <= S_CONTROL_RESUME }

  predicate StopSection(s: int) { S_WRITE_LOCK <= s <= S_WAIT }

  // ---------- moves of the emulation thread ----------

  function EmulationNext(st: State, m: Move): State
    requires m.EmulationMoves?
  {
    if InLoop(st.e) then LoopNext(st, m)
    else if st.e == E_LOCK then if st.mutex.Free? then st.(e := E_CHECK, mutex := Emulation) else st
    else if st.e == E_CHECK then if st.running.On? then st.(e := E_UNLOCK_RUN) else st.(e := E_WAIT, mutex := Free)
    else if st.e == E_WAIT then if m.wakes then st.(e := E_REACQUIRE) else st  // a spurious wakeup
    else if st.e == E_REACQUIRE then if st.mutex.Free? then st.(e := E_UNLOCK_STOPPED, mutex := Emulation) else st
    else if st.e == E_UNLOCK_STOPPED then st.(e := E_LOCK, mutex := Free)
    else if st.e == E_UNLOCK_RUN then st.(e := E_EXEC, mutex := Free)
    else if st.e == E_JOIN_LOCK then if st.mutex.Free? then st.(e := E_JOIN_UNLOCK, mutex := Emulation) else st
    else if st.e == E_JOIN_UNLOCK then st.(e := E_SIGNAL, mutex := Free)
    else st.(e := E_LOCK, s := if st.s == S_WAIT then S_REACQUIRE else st.s)
  }

  function LoopNext(st: State, m: Move): State
    requires m.EmulationMoves?
  {
    if st.e == E_EXEC then st.(e := E_TRY_READ)
    else if st.e == E_TRY_READ then
      if st.quickLock.Writing? then st.(e := E_SCAN) else st.(e := E_READ_REQUEST, quickLock := Reading)
    else if st.e == E_READ_REQUEST then st.(e := E_READ_DONE, ret := st.stopRequest, stopRequest := Off)
    else if st.e == E_READ_DONE then st.(e := if st.ret.On? then E_JOIN_LOCK else E_SCAN, quickLock := Unlocked)
    else if st.e == E_SCAN then
      var hitUntil := Until in st.flags && m.atUntil;
      var hit := hitUntil || ((Continue in st.flags || Until in st.flags) && m.atBreakpoint);
      st.(e := E_NEXT, ret := if hit then On else Off,
          flags := st.flags - (if hit then {Continue} else {}) - (if hitUntil then {Until} else {}))
    else if st.e == E_NEXT then
      st.(e := if st.ret.On? || Control.Next in st.flags then E_STOP else E_EXEC, flags := st.flags - {Control.Next})
    else st.(e := E_JOIN_LOCK, running := Off)
  }

  // ---------- moves of the server thread ----------

  function ServerNext(st: State, m: Move): State
    requires m.ServerMoves?
  {
    if Serving(st.s) then ServeNext(st)
    else if StopSection(st.s) then StopNext(st)
    else if st.s == S_IDLE then st.(s := S_LOCK)
    else if st.s == S_LOCK then if st.mutex.Free? then st.(s := S_RECEIVE, mutex := Server) else st
    else if st.s == S_RECEIVE then if m.received then st.(s := S_CHECK, request := m.request) else st.(s := S_UNLOCK)
    else if st.s == S_CHECK then st.(s := Target(st.request, st.running.On?))
    else if st.s == S_RESUME then st.(s := S_UNLOCK, running := On)
    else if st.s == S_CONTROL_SIGNAL then st.(s := S_UNLOCK, e := if st.e == E_WAIT then E_REACQUIRE else st.e)
    else if st.s == S_STOP then
      st.(s := S_WRITE_LOCK, running := Off, answerable := if InLoop(st.e) || st.e == E_JOIN_LOCK then On else Off)
    else if st.s == S_REACQUIRE then if st.mutex.Free? then st.(s := S_UNLOCK, mutex := Server) else st
    else st.(s := S_IDLE, mutex := Free)
  }

  function ServeNext(st: State): State {
    if st.s == S_INSPECT then st.(s := S_UNLOCK)
    else if st.s == S_CONTROL then
      var c := if st.request.ControlFlow? then st.request.c else OtherControl;
      if c.Until? || c.Next? || c.Continue? then st.(s := S_CONTROL_RESUME, flags := st.flags + {c})
      else st.(s := S_CONTROL_SIGNAL)
    else st.(s := S_CONTROL_SIGNAL, running := On)
  }

  function StopNext(st: State): State {
    if st.s == S_WRITE_LOCK then if st.quickLock.Reading? then st else st.(s := S_SET_REQUEST, quickLock := Writing)
    else if st.s == S_SET_REQUEST then st.(s := S_WRITE_UNLOCK, stopRequest := On)
    else if st.s == S_WRITE_UNLOCK then st.(s := S_COND_WAIT, quickLock := Unlocked)
    else if st.s == S_COND_WAIT then st.(s := S_WAIT, mutex := Free)
    else st
  }

  /** Where a request goes after its test of server_running. */
  function Target(r: Request, running: bool): int {
    match r
    case ControlFlow(_) => if running then S_UNLOCK else S_CONTROL
    case Inspect => if running then S_UNLOCK else S_INSPECT
    case Resume => if running then S_UNLOCK else S_RESUME
    case Stop => if running then S_STOP else S_UNLOCK
  }

  function Next(st: State, m: Move): State {
    match m
    case EmulationMoves(_, _, _) => EmulationNext(st, m)
    case ServerMoves(_, _) => ServerNext(st, m)
    case ServerWakesSpuriously => if st.s == S_WAIT then st.(s := S_REACQUIRE) else st
  }

  function After(st: State, schedule: seq<Move>): State {
    if schedule == [] then st else Next(After(st, schedule[..|schedule| - 1]), schedule[|schedule| - 1])
  }

  predicate NoSpuriousServerWakeup(schedule: seq<Move>) {
    forall m | m in schedule :: !m.ServerWakesSpuriously?
  }

  // ---------- the invariant ----------

  ghost predicate Locks(st: State) {
    && E_LOCK <= st.e <= E_SIGNAL && S_IDLE <= st.s <= S_REACQUIRE
    && (st.mutex.Emulation? <==> EmulationHolds(st.e))
    && (st.mutex.Server? <==> ServerHolds(st.s))
    && (st.quickLock.Reading? <==> E_READ_REQUEST <= st.e <= E_READ_DONE)
    && (st.quickLock.Writing? <==> S_SET_REQUEST <= st.s <= S_WRITE_UNLOCK)
  }

  ghost predicate Exclusion(st: State) {
    && (InLoop(st.e) && st.running.Off? ==> StopSection(st.s))
    && (S_WRITE_LOCK <= st.s <= S_REACQUIRE ==> st.running.Off?)
    && (st.e == E_UNLOCK_RUN ==> st.running.On?)
    && (S_RESUME <= st.s <= S_CONTROL_RESUME ==> st.running.Off?)
    && (S_CONTROL_SIGNAL <= st.s <= S_CONTROL_RESUME ==> !InLoop(st.e))
  }

  ghost predicate Wakeup(st: State) {
    st.answerable.On? && StopSection(st.s) ==>
      && E_EXEC <= st.e
      && (st.e >= E_JOIN_UNLOCK ==> st.s == S_WAIT)
      && (st.s >= S_WRITE_UNLOCK && InLoop(st.e) ==> if st.e == E_READ_DONE then st.ret.On? else st.stopRequest.On?)
  }

  ghost predicate Inv(st: State) { Locks(st) && Exclusion(st) && Wakeup(st) }

  lemma LoopKeeps(st: State, m: Move)
    requires Inv(st) && m.EmulationMoves? && InLoop(st.e)
    ensures Inv(LoopNext(st, m))
  {
  }

  lemma EmulationKeeps(st: State, m: Move)
    requires Inv(st) && m.EmulationMoves?
    ensures Inv(EmulationNext(st, m))
  {
    if InLoop(st.e) {
      LoopKeeps(st, m);
    }
  }

  lemma ServeKeeps(st: State)
    requires Inv(st) && Serving(st.s)
    ensures Inv(ServeNext(st))
  {
  }

  lemma StopKeeps(st: State)
    requires Inv(st) && StopSection(st.s)
    ensures Inv(StopNext(st))
  {
  }

  lemma IdleKeeps(st: State, m: Move)
    requires Inv(st) && m.ServerMoves? && (st.s <= S_RECEIVE || st.s == S_UNLOCK || st.s == S_REACQUIRE)
    ensures Inv(ServerNext(st, m))
  {
  }

  lemma ServerKeeps(st: State, m: Move)
    requires Inv(st) && m.ServerMoves?
    ensures Inv(ServerNext(st, m))
  {
    if Serving(st.s) {
      ServeKeeps(st);
    } else if StopSection(st.s) {
      StopKeeps(st);
    } else if st.s <= S_RECEIVE || st.s == S_UNLOCK || st.s == S_REACQUIRE {
      IdleKeeps(st, m);
    }
  }

  lemma {:induction false} AfterKeeps(st: State, schedule: seq<Move>)
    requires Inv(st) && NoSpuriousServerWakeup(schedule)
    ensures Inv(After(st, schedule))
  {
    if schedule != [] {
      var front, m := schedule[..|schedule| - 1], schedule[|schedule| - 1];
      AfterKeeps(st, front);
      assert m in schedule;
      if m.EmulationMoves? {
        EmulationKeeps(After(st, front), m);
      } else {
        ServerKeeps(After(st, front), m);
      }
    }
  }

  lemma Reachable(schedule: seq<Move>)
    requires NoSpuriousServerWakeup(schedule)
    ensures Inv(After(Initial(), schedule))
  {
    AfterKeeps(Initial(), schedule);
  }

  // ---------- what the handshake guarantees ----------

  /**
   Whatever the interleaving, while the server serves INSPECT or CONTROL_FLOW the emulation
   thread is neither in exec_next nor reading the breakpoints and flags, nor past the test that
   lets it in; and the two threads never hold the mutex together.
   */
  lemma ServedOnlyWhileParked(schedule: seq<Move>)
    requires NoSpuriousServerWakeup(schedule)
    ensures var st := After(Initial(), schedule);
            && (Serving(st.s) ==> !InLoop(st.e) && st.e != E_UNLOCK_RUN)
            && !(EmulationHolds(st.e) && ServerHolds(st.s))
  {
    Reachable(schedule);
  }

  /**
   A STOP accepted while the emulation thread was in its do-loop, or had just left it: when
   that thread comes to signal, after the empty lock/unlock pair, the server is waiting already,
   so the signal releases it.
   */
  lemma SignalReachesStop(schedule: seq<Move>, m: Move)
    requires NoSpuriousServerWakeup(schedule) && m.EmulationMoves?
    ensures var st := After(Initial(), schedule);
            StopSection(st.s) && st.answerable.On? && st.e == E_SIGNAL ==>
              st.s == S_WAIT && Next(st, m).s == S_REACQUIRE
  {
    Reachable(schedule);
  }

  /** Emulation moves that remain until the signal has been sent. */
  function Distance(e: int): nat {
    if E_SCAN <= e <= E_NEXT then 19 - e
    else if E_EXEC <= e <= E_READ_DONE then 13 - e
    else if e == E_STOP then 4
    else if E_JOIN_LOCK <= e <= E_SIGNAL then 16 - e
    else 0
  }

  lemma WaitingStopAdvances(st: State, m: Move)
    requires Inv(st) && st.s == S_WAIT && st.answerable.On? && !m.ServerWakesSpuriously?
    ensures m.ServerMoves? ==> Next(st, m) == st
    ensures m.EmulationMoves? ==>
              var st' := Next(st, m);
              if st.e == E_SIGNAL then st'.s == S_REACQUIRE
              else st'.s == S_WAIT && st'.answerable.On? && Distance(st'.e) < Distance(st.e)
  {
  }

  function EmulationMovesIn(schedule: seq<Move>): nat {
    if schedule == [] then 0
    else EmulationMovesIn(schedule[..|schedule| - 1]) + if schedule[|schedule| - 1].EmulationMoves? then 1 else 0
  }

  /**
   An answerable STOP that waits is released at the latest by the ninth move of the emulation
   thread, whatever that thread meets in its tests: as long as the server still waits, fewer
   than nine have been made.
   */
  lemma {:induction false} StopIsReleased(st: State, schedule: seq<Move>)
    requires Inv(st) && st.s == S_WAIT && st.answerable.On? && NoSpuriousServerWakeup(schedule)
    requires forall n | 0 <= n <= |schedule| :: After(st, schedule[..n]).s == S_WAIT
    ensures After(st, schedule).answerable.On?
    ensures EmulationMovesIn(schedule) + Distance(After(st, schedule).e) <= Distance(st.e) <= 9
    ensures Distance(After(st, schedule).e) > 0
  {
    assert schedule[..|schedule|] == schedule;
    AfterKeeps(st, schedule);
    if schedule != [] {
      var front, m := schedule[..|schedule| - 1], schedule[|schedule| - 1];
      forall n | 0 <= n <= |front|
        ensures After(st, front[..n]).s == S_WAIT
      {
        assert front[..n] == schedule[..n];
      }
      assert m in schedule;
      StopIsReleased(st, front);
      AfterKeeps(st, front);
      WaitingStopAdvances(After(st, front), m);
    }
  }

  /** The server waits for a signal, and the emulation thread for server_running. */
  predicate Deadlocked(st: State) {
    StopSection(st.s) && st.running.Off? && E_LOCK <= st.e <= E_CHECK
  }

  /**
   The fate of every STOP at the moment it is accepted: answerable in the do-loop and right
   after it; never answered at the top of the loop; undecided while the signal is on its way.
   */
  lemma StopAccepted(st: State, m: Move)
    requires Inv(st) && st.s == S_STOP && m.ServerMoves?
    ensures var st' := Next(st, m);
            if InLoop(st.e) || st.e == E_JOIN_LOCK then st'.answerable.On?
            else st'.answerable.Off? && (Deadlocked(st') || st'.e == E_SIGNAL)
  {
  }

  /** A signal sent before the server waits is lost, and with it that STOP. */
  lemma SignalRace(st: State, m: Move)
    requires st.e == E_SIGNAL && StopSection(st.s) && st.running.Off? && m.EmulationMoves?
    ensures if st.s == S_WAIT then Next(st, m).s == S_REACQUIRE else Deadlocked(Next(st, m))
  {
  }

  lemma {:induction false} DeadlockIsForever(st: State, schedule: seq<Move>)
    requires Deadlocked(st) && NoSpuriousServerWakeup(schedule)
    ensures Deadlocked(After(st, schedule))
  {
    if schedule != [] {
      DeadlockIsForever(st, schedule[..|schedule| - 1]);
      assert schedule[|schedule| - 1] in schedule;
    }
  }

  // ---------- how a pass of the do-loop ends ----------

  /** What the tests of hit_breakpoint look for, when the program counter has come to such a place. */
  predicate Hits(flags: set<Control>, atBreakpoint: bool, atUntil: bool) {
    || Control.Next in flags
    || ((Continue in flags || Until in flags) && atBreakpoint)
    || (Until in flags && atUntil)
  }

  /** The place the program counter has come to, as all moves of the schedule find it. */
  predicate Finds(schedule: seq<Move>, atBreakpoint: bool, atUntil: bool) {
    forall m | m in schedule && m.EmulationMoves? :: m.atBreakpoint == atBreakpoint && m.atUntil == atUntil
  }

  /** The flags that brought the pass to its end are down, and no other. */
  predicate Lowered(before: set<Control>, after: set<Control>, atBreakpoint: bool, atUntil: bool) {
    && Control.Next !in after
    && (Until in after <==> Until in before && !atUntil)
    && (Continue in after <==> Continue in before && !atBreakpoint && !(Until in before && atUntil))
  }

  /** How often exec_next runs. */
  function Execs(st: State, schedule: seq<Move>): nat {
    if schedule == [] then 0
    else
      var front, m := schedule[..|schedule| - 1], schedule[|schedule| - 1];
      Execs(st, front) + if m.EmulationMoves? && After(st, front).e == E_EXEC then 1 else 0
  }

  /** About to enter the do-loop or at its top, and no stop request left over from an earlier STOP. */
  ghost predicate AtTop(st: State) {
    && Inv(st) && E_UNLOCK_RUN <= st.e <= E_EXEC
    && (st.stopRequest.On? ==> st.running.Off?)
  }

  /** Between the top of the do-loop and its end; `after` is the outcome of the scan. */
  ghost predicate InPass(st: State, u: State, atBreakpoint: bool, atUntil: bool) {
    && Inv(u) && st.e <= u.e <= E_STOP
    && (u.stopRequest.On? || (u.e == E_READ_DONE && u.ret.On?) ==> u.running.Off?)
    && (u.e <= E_SCAN ==> u.flags == st.flags)
    && (u.e == E_NEXT ==>
          && (Control.Next in u.flags <==> Control.Next in st.flags)
          && (Control.Next in u.flags || u.ret.On?)
          && Lowered(st.flags, u.flags - {Control.Next}, atBreakpoint, atUntil))
    && (u.e == E_STOP ==> Lowered(st.flags, u.flags, atBreakpoint, atUntil))
  }

  /**
   The end of the do-loop, with the emulation stopped: the flags behind it are down, unless a STOP
   came first and ended it.
   */
  ghost predicate Stopped(st: State, u: State, atBreakpoint: bool, atUntil: bool) {
    && u.e == E_JOIN_LOCK && u.running.Off?
    && (Lowered(st.flags, u.flags, atBreakpoint, atUntil) || (u.flags == st.flags && StopSection(u.s)))
  }

  /** In the do-loop the server changes nothing the thread tests, but for a STOP. */
  lemma ServerSparesPass(st: State, m: Move)
    requires Inv(st) && E_UNLOCK_RUN <= st.e <= E_STOP && m.ServerMoves?
    ensures var u := ServerNext(st, m);
            && u.e == st.e && u.flags == st.flags && u.ret == st.ret
            && (st.running.Off? ==> u.running.Off?)
            && (u.stopRequest.On? && st.stopRequest.Off? ==> u.running.Off?)
  {
  }

  lemma PassMove(st: State, u: State, m: Move, atBreakpoint: bool, atUntil: bool)
    requires AtTop(st) && Hits(st.flags, atBreakpoint, atUntil) && InPass(st, u, atBreakpoint, atUntil)
    requires m.EmulationMoves? && m.atBreakpoint == atBreakpoint && m.atUntil == atUntil
    ensures var v := Next(u, m);
            v.e > u.e && (InPass(st, v, atBreakpoint, atUntil) || Stopped(st, v, atBreakpoint, atUntil))
  {
    EmulationKeeps(u, m);
  }

  /** Any move of either thread in such a pass. */
  lemma AnyMove(st: State, u: State, m: Move, atBreakpoint: bool, atUntil: bool)
    requires AtTop(st) && Hits(st.flags, atBreakpoint, atUntil) && InPass(st, u, atBreakpoint, atUntil)
    requires !m.ServerWakesSpuriously?
    requires m.EmulationMoves? ==> m.atBreakpoint == atBreakpoint && m.atUntil == atUntil
    ensures var v := Next(u, m);
            && (if m.EmulationMoves? then v.e > u.e else v.e == u.e) && st.e <= u.e <= E_STOP
            && (u.e == E_UNLOCK_RUN ==> v.e <= E_EXEC)
            && (InPass(st, v, atBreakpoint, atUntil) || Stopped(st, v, atBreakpoint, atUntil))
  {
    if m.EmulationMoves? {
      PassMove(st, u, m, atBreakpoint, atUntil);
    } else {
      ServerKeeps(u, m);
      ServerSparesPass(u, m);
    }
  }

  lemma TopIsInPass(st: State, atBreakpoint: bool, atUntil: bool)
    requires AtTop(st)
    ensures InPass(st, st, atBreakpoint, atUntil)
  {
  }

  /**
   The schedule has either stopped the emulation after n moves, with one exec_next, or it has not
   come to the end of the pass.
   */
  lemma {:induction false} PassSoFar(st: State, schedule: seq<Move>, atBreakpoint: bool, atUntil: bool)
    returns (n: nat)
    requires AtTop(st) && Hits(st.flags, atBreakpoint, atUntil)
    requires NoSpuriousServerWakeup(schedule) && Finds(schedule, atBreakpoint, atUntil)
    ensures n <= |schedule|
    ensures var u := After(st, schedule[..n]);
            && st.e + EmulationMovesIn(schedule[..n]) <= u.e
            && Execs(st, schedule[..n]) == (if u.e <= E_EXEC then 0 else 1)
            && (Stopped(st, u, atBreakpoint, atUntil) || (n == |schedule| && InPass(st, u, atBreakpoint, atUntil)))
  {
    hide Inv, Hits, InPass, Stopped, Next;
    n := |schedule|;
    assert schedule[..n] == schedule;
    if schedule == [] {
      TopIsInPass(st, atBreakpoint, atUntil);
    } else {
      var front, m := schedule[..|schedule| - 1], schedule[|schedule| - 1];
      assert m in schedule;
      n := PassSoFar(st, front, atBreakpoint, atUntil);
      assert schedule[..n] == front[..n];
      var u := After(st, front[..n]);
      if !Stopped(st, u, atBreakpoint, atUntil) {
        n := |schedule|;
        assert front[..|front|] == front;
        AnyMove(st, u, m, atBreakpoint, atUntil);
      }
    }
  }

  /**
   A single step, a breakpoint and the until address end the pass: in every schedule, by the
   eighth move of the emulation thread at the latest, exec_next has run exactly once and the thread
   is out of the do-loop with the emulation stopped and the flag down.
   */
  lemma HitStops(st: State, schedule: seq<Move>, atBreakpoint: bool, atUntil: bool) returns (n: nat)
    requires AtTop(st) && Hits(st.flags, atBreakpoint, atUntil)
    requires NoSpuriousServerWakeup(schedule) && Finds(schedule, atBreakpoint, atUntil)
    requires EmulationMovesIn(schedule) >= 8
    ensures n <= |schedule| && EmulationMovesIn(schedule[..n]) <= 8 && Execs(st, schedule[..n]) == 1
    ensures Stopped(st, After(st, schedule[..n]), atBreakpoint, atUntil)
  {
    n := PassSoFar(st, schedule, atBreakpoint, atUntil);
    assert schedule[..|schedule|] == schedule;
  }

  /** Nothing the program counter comes to ends the pass. */
  predicate NeverHits(flags: set<Control>, schedule: seq<Move>) {
    forall m | m in schedule && m.EmulationMoves? :: !Hits(flags, m.atBreakpoint, m.atUntil)
  }

  /** As long as the thread has not left the do-loop, it goes round it and stop_execution is not reached. */
  lemma {:induction false} NoHitNoStop(st: State, schedule: seq<Move>)
    requires Inv(st) && E_UNLOCK_RUN <= st.e <= E_SCAN
    requires NoSpuriousServerWakeup(schedule) && NeverHits(st.flags, schedule)
    requires forall n | 0 <= n <= |schedule| :: After(st, schedule[..n]).e != E_JOIN_LOCK
    ensures var u := After(st, schedule);
            Inv(u) && E_UNLOCK_RUN <= u.e <= E_NEXT && u.flags == st.flags && (u.e == E_NEXT ==> u.ret.Off?)
  {
    if schedule != [] {
      var front, m := schedule[..|schedule| - 1], schedule[|schedule| - 1];
      assert m in schedule && schedule[..|schedule|] == schedule;
      forall n | 0 <= n <= |front|
        ensures After(st, front[..n]).e != E_JOIN_LOCK
      {
        assert front[..n] == schedule[..n];
      }
      NoHitNoStop(st, front);
      if m.EmulationMoves? {
        EmulationKeeps(After(st, front), m);
      } else {
        ServerKeeps(After(st, front), m);
        ServerSparesPass(After(st, front), m);
      }
    }
  }

  /** No STOP is on its way. */
  predicate Quiet(st: State) { !StopSection(st.s) && st.s != S_STOP && (st.s == S_CHECK ==> !st.request.Stop?) }

  predicate NoStopSent(schedule: seq<Move>) { forall m | m in schedule && m.ServerMoves? :: !m.request.Stop? }

  lemma {:induction false} StaysQuiet(st: State, schedule: seq<Move>)
    requires Quiet(st) && NoStopSent(schedule)
    ensures Quiet(After(st, schedule))
  {
    if schedule != [] {
      StaysQuiet(st, schedule[..|schedule| - 1]);
      assert schedule[|schedule| - 1] in schedule;
    }
  }

  lemma QuietServer(st: State, m: Move)
    requires Inv(st) && Quiet(st) && E_UNLOCK_RUN <= st.e <= E_STOP && m.ServerMoves?
    ensures ServerNext(st, m).running == st.running && ServerNext(st, m).stopRequest == st.stopRequest
  {
  }

  /** With neither a STOP nor a hit the emulation runs on, pass after pass, in every schedule. */
  lemma {:induction false} RunsOn(st: State, schedule: seq<Move>)
    requires AtTop(st) && Quiet(st) && st.running.On?
    requires NoSpuriousServerWakeup(schedule) && NoStopSent(schedule) && NeverHits(st.flags, schedule)
    ensures var u := After(st, schedule);
            && Inv(u) && E_UNLOCK_RUN <= u.e <= E_NEXT && u.running.On? && u.flags == st.flags
            && u.stopRequest.Off? && (u.e == E_READ_DONE || u.e == E_NEXT ==> u.ret.Off?)
  {
    if schedule != [] {
      var front, m := schedule[..|schedule| - 1], schedule[|schedule| - 1];
      assert m in schedule;
      RunsOn(st, front);
      StaysQuiet(st, front);
      if m.EmulationMoves? {
        EmulationKeeps(After(st, front), m);
      } else {
        ServerKeeps(After(st, front), m);
        ServerSparesPass(After(st, front), m);
        QuietServer(After(st, front), m);
      }
    }
  }

  /** A stop request left over takes the thread out of the do-loop without stopping the emulation. */
  ghost predicate Stale(st: State, u: State) {
    && Inv(u) && Quiet(u) && u.running.On? && u.flags == st.flags && E_UNLOCK_RUN <= u.e <= E_READ_DONE
    && if u.e == E_READ_DONE then u.ret.On? && u.stopRequest.Off? else u.stopRequest.On?
  }

  ghost predicate Slipped(st: State, u: State) {
    u.e == E_JOIN_LOCK && u.running.On? && u.flags == st.flags && u.stopRequest.Off?
  }

  lemma StaleMove(st: State, u: State, m: Move)
    requires Stale(st, u) && !m.ServerWakesSpuriously? && (m.ServerMoves? ==> !m.request.Stop?)
    ensures var v := Next(u, m);
            && (Stale(st, v) || Slipped(st, v))
            && (if m.EmulationMoves? then v.e > u.e else v.e == u.e)
            && (u.e == E_UNLOCK_RUN ==> v.e <= E_EXEC)
  {
    if m.EmulationMoves? {
      EmulationKeeps(u, m);
    } else {
      ServerKeeps(u, m);
      ServerSparesPass(u, m);
      QuietServer(u, m);
    }
  }

  lemma {:induction false} StaleSoFar(st: State, schedule: seq<Move>) returns (n: nat)
    requires st.e == E_UNLOCK_RUN && Stale(st, st) && NoSpuriousServerWakeup(schedule) && NoStopSent(schedule)
    ensures n <= |schedule|
    ensures var u := After(st, schedule[..n]);
            && st.e + EmulationMovesIn(schedule[..n]) <= u.e
            && Execs(st, schedule[..n]) == (if u.e <= E_EXEC then 0 else 1)
            && (Slipped(st, u) || (n == |schedule| && Stale(st, u)))
  {
    hide Inv, Next, Quiet;
    n := |schedule|;
    assert schedule[..n] == schedule;
    if schedule != [] {
      var front, m := schedule[..|schedule| - 1], schedule[|schedule| - 1];
      assert m in schedule;
      n := StaleSoFar(st, front);
      assert schedule[..n] == front[..n];
      var u := After(st, front[..n]);
      if !Slipped(st, u) {
        n := |schedule|;
        assert front[..|front|] == front;
        StaleMove(st, u, m);
      }
    }
  }

  /**
   What a single step does, exactly: with no further STOP on its way, after one exec_next the
   emulation has stopped and NEXT is down if and only if no stop request was left over from an
   earlier STOP; with one left over, the emulation runs on with NEXT still up.
   */
  lemma SingleStep(st: State, schedule: seq<Move>, atBreakpoint: bool, atUntil: bool) returns (n: nat)
    requires Inv(st) && st.e == E_UNLOCK_RUN && Control.Next in st.flags && Quiet(st)
    requires NoSpuriousServerWakeup(schedule) && NoStopSent(schedule) && Finds(schedule, atBreakpoint, atUntil)
    requires EmulationMovesIn(schedule) >= 8
    ensures n <= |schedule| && EmulationMovesIn(schedule[..n]) <= 8 && Execs(st, schedule[..n]) == 1
    ensures var u := After(st, schedule[..n]);
            && u.e == E_JOIN_LOCK
            && (u.running.Off? <==> st.stopRequest.Off?)
            && (Control.Next !in u.flags <==> st.stopRequest.Off?)
  {
    assert schedule[..|schedule|] == schedule;
    if st.stopRequest.On? {
      n := StaleSoFar(st, schedule);
    } else {
      n := HitStops(st, schedule, atBreakpoint, atUntil);
      StaysQuiet(st, schedule[..n]);
    }
  }

  /** CONTROL_FLOW served: the flag is up, the emulation may run, and its thread has been woken. */
  lemma ControlFlowServed(st: State, m: Move)
    requires Inv(st) && st.s == S_CONTROL && m.ServerMoves?
    requires st.request.ControlFlow? && (st.request.c.Until? || st.request.c.Next? || st.request.c.Continue?)
    ensures var u := Next(Next(Next(st, m), m), m);
            && u.s == S_UNLOCK && u.running.On? && u.flags == st.flags + {st.request.c}
            && u.e == (if st.e == E_WAIT then E_REACQUIRE else st.e)
  {
  }

  /** Stopped, everything but STOP is served; running, nothing but STOP; what is refused changes nothing. */
  lemma OnlyStopWhileRunning(st: State, m: Move)
    requires Inv(st) && st.s == S_CHECK && m.ServerMoves?
    ensures var u := Next(st, m);
            && u == st.(s := u.s)
            && (u.s == S_UNLOCK <==> (st.request.Stop? <==> st.running.Off?))
            && (u.s == S_CONTROL ==> st.request.ControlFlow?) && (u.s == S_INSPECT ==> st.request.Inspect?)
            && (u.s == S_RESUME ==> st.request.Resume?) && (u.s == S_STOP ==> st.request.Stop?)
            && u.s in {S_UNLOCK, S_CONTROL, S_INSPECT, S_RESUME, S_STOP}
            && (u.s == S_RESUME ==> Next(u, m) == u.(s := S_UNLOCK, running := On))
  {
  }

  // ---------- why the server must not wake spuriously ----------

  lemma Extend(schedule: seq<Move>, m: Move) returns (longer: seq<Move>)
    ensures longer == schedule + [m]
    ensures After(Initial(), longer) == Next(After(Initial(), schedule), m)
  {
    longer := schedule + [m];
    assert longer[..|longer| - 1] == schedule;
  }

  /** The server served request r up to its test of server_running. */
  lemma ServeRequest(schedule: seq<Move>, r: Request) returns (longer: seq<Move>)
    requires var st := After(Initial(), schedule); st.s == S_IDLE && st.mutex == Free
    ensures NoSpuriousServerWakeup(schedule) ==> NoSpuriousServerWakeup(longer)
    ensures var st := After(Initial(), schedule);
            After(Initial(), longer) == st.(mutex := Server, request := r, s := Target(r, st.running.On?))
  {
    longer := schedule;
    for i := 0 to 4
      invariant NoSpuriousServerWakeup(schedule) ==> NoSpuriousServerWakeup(longer)
      invariant var st := After(Initial(), schedule);
                After(Initial(), longer) ==
                  if i == 0 then st
                  else if i == 1 then st.(s := S_LOCK)
                  else if i == 2 then st.(s := S_RECEIVE, mutex := Server)
                  else if i == 3 then st.(s := S_CHECK, mutex := Server, request := r)
                  else st.(mutex := Server, request := r, s := Target(r, st.running.On?))
    {
      longer := Extend(longer, ServerMoves(true, r));
    }
  }

  /** The deadlock is reached: RESUME, then STOP before the emulation thread has come round to look. */
  lemma DeadlockReached() returns (schedule: seq<Move>)
    ensures NoSpuriousServerWakeup(schedule) && Deadlocked(After(Initial(), schedule))
  {
    schedule := ServeRequest([], Resume);
    schedule := Extend(schedule, ServerMoves(true, Resume));
    schedule := Extend(schedule, ServerMoves(true, Resume));
    schedule := ServeRequest(schedule, Stop);
    schedule := Extend(schedule, ServerMoves(true, Stop));
  }

  /** Without spurious wakeups: the server waits for its STOP while exec_next is running. */
  lemma StopDuringExec() returns (schedule: seq<Move>)
    ensures NoSpuriousServerWakeup(schedule)
    ensures var st := After(Initial(), schedule);
            st.e == E_EXEC && st.s == S_WAIT && st.mutex == Free && st.running.Off?
  {
    var emulation, server := EmulationMoves(false, false, false), ServerMoves(true, Stop);
    schedule := ServeRequest([], Resume);
    schedule := Extend(schedule, server);
    schedule := Extend(schedule, server);
    schedule := Extend(schedule, emulation);
    schedule := Extend(schedule, emulation);
    schedule := Extend(schedule, emulation);
    schedule := ServeRequest(schedule, Stop);
    schedule := Extend(schedule, server);
    schedule := Extend(schedule, server);
    schedule := Extend(schedule, server);
    schedule := Extend(schedule, server);
    schedule := Extend(schedule, server);
  }

  /** With one spurious wakeup of the server, it serves INSPECT while exec_next is running. */
  lemma SpuriousWakeupBreaksExclusion() returns (schedule: seq<Move>)
    ensures var st := After(Initial(), schedule); st.s == S_INSPECT && st.e == E_EXEC
  {
    schedule := StopDuringExec();
    schedule := Extend(schedule, ServerWakesSpuriously);
    schedule := Extend(schedule, ServerMoves(true, Inspect));
    schedule := Extend(schedule, ServerMoves(true, Inspect));
    schedule := ServeRequest(schedule, Inspect);
  }

  // ---------- a stop request left over ----------

  function Turn(): Move { EmulationMoves(false, true, false) }

  function Serve(): Move { ServerMoves(true, Stop) }

  /** A schedule that ends in state u. */
  ghost predicate LeadsTo(schedule: seq<Move>, u: State) {
    NoSpuriousServerWakeup(schedule) && After(Initial(), schedule) == u
  }

  /** CONTINUE is served, and the first exec_next comes to a breakpoint. */
  lemma ContinueRuns() returns (schedule: seq<Move>)
    ensures LeadsTo(
              schedule, State(E_SCAN, S_IDLE, Free, Unlocked, On, Off, {Continue}, Off, ControlFlow(Continue), Off))
  {
    schedule := ServeControl([], Continue);
    var st := State(E_LOCK, S_IDLE, Free, Unlocked, On, Off, {Continue}, Off, ControlFlow(Continue), Off);
    assert {} + {Continue} == {Continue};
    assert LeadsTo(schedule, st);
    schedule := Extend(schedule, Turn());
    schedule := Extend(schedule, Turn());
    schedule := Extend(schedule, Turn());
    schedule := Extend(schedule, Turn());
    schedule := Extend(schedule, Turn());
    schedule := Extend(schedule, Turn());
    schedule := Extend(schedule, Turn());
  }

  /** A STOP accepted while the thread tests the breakpoint it has hit: the scan ends the pass first. */
  lemma StopTooLate() returns (schedule: seq<Move>)
    ensures LeadsTo(schedule, State(E_JOIN_LOCK, S_WAIT, Free, Unlocked, Off, On, {}, On, Stop, On))
  {
    schedule := ContinueRuns();
    schedule := ServeRequest(schedule, Stop);
    schedule := Extend(schedule, Serve());
    assert {Continue} - {Continue} - {} == {};
    schedule := Extend(schedule, Turn());
    assert LeadsTo(schedule, State(E_NEXT, S_WRITE_LOCK, Server, Unlocked, Off, Off, {}, On, Stop, On));
    schedule := Extend(schedule, Turn());
    schedule := Extend(schedule, Turn());
    schedule := Extend(schedule, Serve());
    schedule := Extend(schedule, Serve());
    schedule := Extend(schedule, Serve());
    schedule := Extend(schedule, Serve());
  }

  /** Its signal releases the STOP, whose request is never read. */
  lemma RequestLeftOver() returns (schedule: seq<Move>)
    ensures LeadsTo(schedule, State(E_WAIT, S_IDLE, Free, Unlocked, Off, On, {}, On, Stop, On))
  {
    schedule := StopTooLate();
    schedule := Extend(schedule, Turn());
    schedule := Extend(schedule, Turn());
    schedule := Extend(schedule, Turn());
    schedule := Extend(schedule, Serve());
    schedule := Extend(schedule, Serve());
    schedule := Extend(schedule, Turn());
    schedule := Extend(schedule, Turn());
  }

  /**
   The single step that follows finds it, so that by `SingleStep` the emulation does not stop after
   one exec_next: the state is reached without a spurious wakeup of the server.
   */
  lemma StaleRequestReached() returns (schedule: seq<Move>)
    ensures NoSpuriousServerWakeup(schedule)
    ensures var st := After(Initial(), schedule);
            st.e == E_UNLOCK_RUN && Control.Next in st.flags && st.stopRequest.On? && Inv(st) && Quiet(st)
  {
    schedule := RequestLeftOver();
    schedule := ServeControl(schedule, Control.Next);
    schedule := Extend(schedule, Turn());
    schedule := Extend(schedule, Turn());
    schedule := Extend(schedule, Turn());
    schedule := Extend(schedule, Turn());
    Reachable(schedule);
  }

  /** A CONTROL_FLOW served from its reception to the unlocking of the mutex. */
  lemma ServeControl(schedule: seq<Move>, c: Control) returns (longer: seq<Move>)
    requires c.Until? || c.Next? || c.Continue?
    requires var st := After(Initial(), schedule); st.s == S_IDLE && st.mutex == Free && st.running.Off?
    ensures NoSpuriousServerWakeup(schedule) ==> NoSpuriousServerWakeup(longer)
    ensures var st := After(Initial(), schedule);
            After(Initial(), longer) ==
              st.(flags := st.flags + {c}, running := On, request := ControlFlow(c),
                  e := if st.e == E_WAIT then E_REACQUIRE else st.e)
  {
    longer := ServeRequest(schedule, ControlFlow(c));
    longer := Extend(longer, Serve());
    longer := Extend(longer, Serve());
    longer := Extend(longer, Serve());
    longer := Extend(longer, Serve());
  }
}
