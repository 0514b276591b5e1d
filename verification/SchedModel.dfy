/** The round-robin scheduler as a transition system (src/kernel/sched/core.c): which process
    runs, and what its registers are. */
module SchedModel {
  import opened Bytes
  import opened Strings

  type Registers = seq<byte>

  datatype Process = Process(pid: nat, saved: Registers)

  /** The processes in the order of /proc's children (leaving "self" out), the position of the
      running one (-1: none), the processor's registers and the next process number. */
  datatype State = State(procs: seq<Process>, cursor: int, cpu: Registers, nextPid: nat)

  /** Execute: the processor runs and ends up with new registers. */
  datatype Event = Execute(r: Registers) | Tick | Create(r: Registers) | Exit

  ghost predicate Ok(s: State) {
    && -1 <= s.cursor < |s.procs|
    && (forall i :: 0 <= i < |s.procs| ==> s.procs[i].pid < s.nextPid)
    && (forall i, j :: 0 <= i < j < |s.procs| ==> s.procs[i].pid != s.procs[j].pid)
  }

  predicate Enabled(s: State, e: Event) {
    match e
    case Execute(r) => true
    case Tick => 0 < |s.procs|
    case Create(r) => true
    case Exit => 0 <= s.cursor < |s.procs|
  }

  /** The registers of the running process go to its save area. */
  function Save(s: State): (r: seq<Process>)
    ensures |r| == |s.procs|
  {
    if 0 <= s.cursor < |s.procs| then s.procs[s.cursor := s.procs[s.cursor].(saved := s.cpu)] else s.procs
  }

  function NextCursor(cursor: int, n: nat): int {
    if cursor < 0 || cursor + 1 >= n then 0 else cursor + 1
  }

  function Step(s: State, e: Event): (t: State)
    requires Enabled(s, e)
  {
    match e
    case Execute(r) => s.(cpu := r)
    case Tick =>
      var procs, c := Save(s), NextCursor(s.cursor, |s.procs|);
      State(procs, c, procs[c].saved, s.nextPid)
    case Create(r) =>
      State([Process(s.nextPid, r)] + s.procs, if s.cursor < 0 then -1 else s.cursor + 1, s.cpu, s.nextPid + 1)
    case Exit => State(s.procs[..s.cursor] + s.procs[s.cursor + 1..], -1, s.cpu, s.nextPid)
  }

  lemma {:induction false} StepOk(s: State, e: Event)
    requires Ok(s) && Enabled(s, e)
    ensures Ok(Step(s, e))
  {
  }

  /** Until 2^32 processes have been created, no two live ones have the same name in /proc, and
      none is called "self". */
  lemma {:induction false} NamesDistinct(s: State)
    requires Ok(s) && s.nextPid <= WORD
    ensures forall i, j :: 0 <= i < j < |s.procs| ==> Name(s.procs[i].pid) != Name(s.procs[j].pid)
    ensures forall i :: 0 <= i < |s.procs| ==> Name(s.procs[i].pid) != [115, 101, 108, 102]
  {
    hide Name;
    forall i, j | 0 <= i < j < |s.procs|
      ensures Name(s.procs[i].pid) != Name(s.procs[j].pid)
    {
      if Name(s.procs[i].pid) == Name(s.procs[j].pid) {
        NameInjective(s.procs[i].pid, s.procs[j].pid);
      }
    }
    forall i | 0 <= i < |s.procs|
      ensures Name(s.procs[i].pid) != [115, 101, 108, 102]
    {
      assert ZERO <= Name(s.procs[i].pid)[0] < ZERO + 10;
    }
  }

  // ---- Runs ----

  ghost predicate Runs(s: State, es: seq<Event>)
    decreases |es|
  {
    es == [] || (Enabled(s, es[0]) && Runs(Step(s, es[0]), es[1..]))
  }

  ghost function Run(s: State, es: seq<Event>): State
    requires Runs(s, es)
    decreases |es|
  {
    if es == [] then s else Run(Step(s, es[0]), es[1..])
  }

  // ---- Isolation ----

  predicate Alive(s: State, pid: nat) {
    exists i :: 0 <= i < |s.procs| && s.procs[i].pid == pid
  }

  predicate Running(s: State, pid: nat) {
    0 <= s.cursor < |s.procs| && s.procs[s.cursor].pid == pid
  }

  ghost function IndexOf(s: State, pid: nat): (i: nat)
    requires Alive(s, pid)
    ensures i < |s.procs| && s.procs[i].pid == pid
  {
    var i :| 0 <= i < |s.procs| && s.procs[i].pid == pid;
    i
  }

  /** The registers a process has, wherever they are kept. */
  ghost function Context(s: State, pid: nat): Registers
    requires Alive(s, pid)
  {
    if Running(s, pid) then s.cpu else s.procs[IndexOf(s, pid)].saved
  }

  /** One event changes the registers of one process at most: those of the process that executes,
      or that is created. */
  lemma {:induction false} StepContext(s: State, e: Event, pid: nat)
    requires Ok(s) && Enabled(s, e) && Alive(Step(s, e), pid)
    ensures (e.Create? && pid == s.nextPid) || Alive(s, pid)
    ensures Context(Step(s, e), pid) ==
      if e.Create? && pid == s.nextPid then e.r
      else if e.Execute? && Running(s, pid) then e.r
      else Context(s, pid)
  {
    var t := Step(s, e);
    var j := IndexOf(t, pid);
    match e {
      case Execute(r) =>
      case Tick =>
        assert s.procs[j].pid == pid;
      case Create(r) =>
        if j > 0 {
          assert s.procs[j - 1].pid == pid;
        }
      case Exit =>
        assert s.procs[if j < s.cursor then j else j + 1].pid == pid;
    }
  }

  /** The private processor of one process: it sees only what happens to that process. */
  ghost function VirtualRun(s: State, es: seq<Event>, pid: nat, mine: Registers): Registers
    requires Runs(s, es)
    decreases |es|
  {
    if es == [] then mine
    else
      var e := es[0];
      VirtualRun(Step(s, e), es[1..], pid,
                 if (e.Create? && pid == s.nextPid) || (e.Execute? && Running(s, pid)) then e.r else mine)
  }

  /** Over every run, each process has the registers its private processor would have: those it
      had when it last executed, or was created with. */
  lemma {:induction false} Isolation(s: State, es: seq<Event>, pid: nat, mine: Registers)
    requires Ok(s) && Runs(s, es) && Alive(Run(s, es), pid)
    requires Alive(s, pid) ==> mine == Context(s, pid)
    ensures Context(Run(s, es), pid) == VirtualRun(s, es, pid, mine)
    decreases |es|
  {
    if es != [] {
      var e := es[0];
      var t := Step(s, e);
      StepOk(s, e);
      if Alive(t, pid) {
        StepContext(s, e, pid);
        Isolation(t, es[1..], pid, Context(t, pid));
        if !(e.Create? && pid == s.nextPid) {
          assert Alive(s, pid);
        }
      } else {
        Isolation(t, es[1..], pid, if (e.Create? && pid == s.nextPid) || (e.Execute? && Running(s, pid)) then e.r
            else mine);
      }
    }
  }

  // ---- Order ----

  function Ticks(es: seq<Event>): nat {
    if es == [] then 0 else (if es[0].Tick? then 1 else 0) + Ticks(es[1..])
  }

  predicate NoCreation(es: seq<Event>) {
    forall e :: e in es ==> e.Execute? || e.Tick?
  }

  predicate NoExit(es: seq<Event>) {
    forall e :: e in es ==> !e.Exit?
  }

  /** A place in a list of n, counted on past its end. */
  function Around(at: int, n: nat): int {
    if at >= n then at - n else at
  }

  /** Without creation or exit, t <= n ticks move the cursor t places around the n processes. */
  lemma {:induction false} RoundRobin(s: State, es: seq<Event>)
    requires Ok(s) && Runs(s, es) && NoCreation(es) && Ticks(es) <= |s.procs|
    ensures var t := Run(s, es);
      && |t.procs| == |s.procs|
      && (forall i :: 0 <= i < |s.procs| ==> t.procs[i].pid == s.procs[i].pid)
      && t.cursor == Around(s.cursor + Ticks(es), |s.procs|)
    decreases |es|
  {
    if es != [] {
      assert es[0] in es;
      StepOk(s, es[0]);
      RoundRobin(Step(s, es[0]), es[1..]);
    }
  }

  /** The processes that the ticks of a run let run, in order. */
  ghost function Started(s: State, es: seq<Event>): (r: seq<nat>)
    requires Ok(s) && Runs(s, es)
    ensures |r| == Ticks(es)
    decreases |es|
  {
    if es == [] then []
    else
      var t := Step(s, es[0]);
      StepOk(s, es[0]);
      (if es[0].Tick? then [t.procs[t.cursor].pid] else []) + Started(t, es[1..])
  }

  lemma {:induction false} StartedAre(s: State, es: seq<Event>, k: nat)
    requires Ok(s) && Runs(s, es) && NoCreation(es) && k < Ticks(es) <= |s.procs|
    ensures Started(s, es)[k] == s.procs[Around(s.cursor + 1 + k, |s.procs|)].pid
    decreases |es|
  {
    hide Step, Ok;
    var t := Step(s, es[0]);
    assert es[0] in es;
    StepOk(s, es[0]);
    TickMoves(s, es[0]);
    if es[0].Tick? {
      assert Started(s, es) == [t.procs[t.cursor].pid] + Started(t, es[1..]);
      if k > 0 {
        StartedAre(t, es[1..], k - 1);
      }
    } else {
      assert Started(s, es) == [] + Started(t, es[1..]);
      StartedAre(t, es[1..], k);
    }
  }

  lemma TickMoves(s: State, e: Event)
    requires Ok(s) && Enabled(s, e) && (e.Execute? || e.Tick?)
    ensures var t := Step(s, e);
      && |t.procs| == |s.procs| && -1 <= s.cursor < |s.procs|
      && (forall i :: 0 <= i < |s.procs| ==> t.procs[i].pid == s.procs[i].pid)
      && t.cursor == if e.Tick? then Around(s.cursor + 1, |s.procs|) else s.cursor
  {
  }

  /** With n processes and no creation or exit, n ticks let every process run exactly once. */
  lemma {:induction false} EachRunsOnce(s: State, es: seq<Event>)
    requires Ok(s) && Runs(s, es) && NoCreation(es) && Ticks(es) == |s.procs|
    ensures forall i :: 0 <= i < |s.procs| ==> s.procs[i].pid in Started(s, es)
    ensures forall k, l :: 0 <= k < l < |s.procs| ==> Started(s, es)[k] != Started(s, es)[l]
  {
    var n := |s.procs|;
    forall k | 0 <= k < n
      ensures Started(s, es)[k] == s.procs[Around(s.cursor + 1 + k, n)].pid
    {
      StartedAre(s, es, k);
    }
    forall i | 0 <= i < n
      ensures s.procs[i].pid in Started(s, es)
    {
      var k := if i > s.cursor then i - s.cursor - 1 else i - s.cursor - 1 + n;
      assert Started(s, es)[k] == s.procs[i].pid;
    }
  }

  /** A process ahead of the cursor runs after exactly as many ticks as it is ahead, whatever is
      created meanwhile: creation cannot delay it. */
  lemma {:induction false} AheadRuns(s: State, es: seq<Event>, i: nat)
    requires Ok(s) && Runs(s, es) && NoExit(es)
    requires 0 <= s.cursor <= i < |s.procs| && Ticks(es) == i - s.cursor
    ensures Running(Run(s, es), s.procs[i].pid)
    decreases |es|
  {
    if es != [] {
      assert es[0] in es;
      StepOk(s, es[0]);
      AheadRuns(Step(s, es[0]), es[1..], if es[0].Create? then i + 1 else i);
    }
  }

  /** After as many ticks as there are processes from the cursor on, the cursor is back at the
      head of the list, with every process at or ahead of it. */
  lemma {:induction false} CursorWraps(s: State, es: seq<Event>)
    requires Ok(s) && Runs(s, es) && NoExit(es) && 0 <= s.cursor
    requires Ticks(es) == |s.procs| - s.cursor && es[|es| - 1].Tick?
    ensures Run(s, es).cursor == 0
    ensures forall pid :: Alive(s, pid) ==> Alive(Run(s, es), pid)
    decreases |es|
  {
    var t := Step(s, es[0]);
    assert es[0] in es;
    StepOk(s, es[0]);
    forall pid | Alive(s, pid)
      ensures Alive(t, pid)
    {
      var i := IndexOf(s, pid);
      assert t.procs[if es[0].Create? then i + 1 else i].pid == pid;
    }
    if |es| > 1 {
      TicksLast(es[1..]);
      CursorWraps(t, es[1..]);
    }
  }

  lemma {:induction false} TicksLast(es: seq<Event>)
    requires es != [] && es[|es| - 1].Tick?
    ensures Ticks(es) > 0
  {
    if |es| > 1 {
      TicksLast(es[1..]);
    }
  }

  // ---- Starvation ----

  function Creations(es: seq<Event>): nat {
    if es == [] then 0 else (if es[0].Create? then 1 else 0) + Creations(es[1..])
  }

  /** How many ticks the i-th process has to wait if nothing is created. */
  function Distance(s: State, i: nat): nat
    requires i < |s.procs| && -1 <= s.cursor < |s.procs|
  {
    if s.cursor <= i then i - s.cursor else |s.procs| - s.cursor + i
  }

  /** A process runs at some point of a run. */
  ghost predicate EverRuns(s: State, es: seq<Event>, pid: nat)
    requires Runs(s, es)
    decreases |es|
  {
    Running(s, pid) || (es != [] && EverRuns(Step(s, es[0]), es[1..], pid))
  }

  /** Creation alone starves nobody: each creation delays a process by one tick at most. */
  lemma {:induction false} NoStarvation(s: State, es: seq<Event>, i: nat)
    requires Ok(s) && Runs(s, es) && NoExit(es) && i < |s.procs|
    requires Ticks(es) >= Distance(s, i) + Creations(es)
    ensures EverRuns(s, es, s.procs[i].pid)
    decreases |es|
  {
    if es != [] && !Running(s, s.procs[i].pid) {
      assert es[0] in es;
      StepOk(s, es[0]);
      NoStarvation(Step(s, es[0]), es[1..], if es[0].Create? then i + 1 else i);
    }
  }

  // ---- The skipping loop ----

  /** The place of the cursor after k moves over a list of n nodes. */
  function CursorAfter(at: int, n: nat, k: nat): int
    decreases k
  {
    if k == 0 then at else CursorAfter(NextCursor(at, n), n, k - 1)
  }

  lemma {:induction false} OnlySelf(at: int, k: nat)
    requires -1 <= at <= 0 && k > 0
    ensures CursorAfter(at, 1, k) == 0
    decreases k
  {
    if k > 1 {
      OnlySelf(NextCursor(at, 1), k - 1);
    }
  }

  /** The loop of CommitNextProcess, over a list whose last node is "self", ends exactly if there is
      another node: with "self" alone the cursor comes back to it for ever. */
  lemma {:induction false} SkipEndsIff(at: int, len: nat)
    requires -1 <= at < len && len > 0
    ensures (exists k: nat :: k > 0 && CursorAfter(at, len, k) != len - 1) <==> len > 1
  {
    if len > 1 {
      assert CursorAfter(at, len, 1) == NextCursor(at, len);
      assert CursorAfter(at, len, 2) == CursorAfter(NextCursor(at, len), len, 1);
    } else {
      forall k: nat | k > 0
        ensures CursorAfter(at, len, k) == len - 1
      {
        OnlySelf(at, k);
      }
    }
  }
}
