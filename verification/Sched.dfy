/** The scheduler of src/kernel/sched/core.c on the heap: /proc's list of nodes, the process image
    behind each of them, and the trap that switches processes (src/ia32/sched/switch.s). */
module Sched {
  import opened Bytes
  import opened Ide
  import opened SchedModel
  import opened Strings
  import opened Vnode

  /** sizeof(TaskRegisters) and sizeof(Task) on ia32: the registers, the 64-bit process number,
      the head of the descriptor list and the base directory. */
  const REGISTERS: int := 64
  const TASK: int := 88
  const TWO64: int := 0x1_0000_0000_0000_0000

  datatype Transfer = Moved(bytes: int) | SegmentationFault

  function PidBytes(pid: nat): (s: seq<byte>)
    requires pid < TWO64
    ensures |s| == 8
  {
    ToLE32(pid % WORD) + ToLE32(pid / WORD)
  }

  function PidOf(image: seq<byte>): nat
    requires |image| == TASK
  {
    LE32(image[64..68]) + WORD * LE32(image[68..72])
  }

  lemma PidRoundTrip(image: seq<byte>, pid: nat)
    requires |image| == TASK && pid < TWO64 && image[64..72] == PidBytes(pid)
    ensures PidOf(image) == pid
  {
    assert image[64..68] == image[64..72][..4] == ToLE32(pid % WORD);
    assert image[68..72] == image[64..72][4..] == ToLE32(pid / WORD);
  }

  function ProcessOf(image: seq<byte>): (p: Process)
    requires |image| == TASK
    ensures p.saved == image[..REGISTERS]
  {
    Process(PidOf(image), image[..REGISTERS])
  }

  method TaskWriteFunction(buf: array<byte>, size: dword, elements: dword, self: VNode) returns (r: Transfer)
    requires self.data != null && self.data.Length == TASK && buf != self.data
    requires Wrap(size * elements) <= TASK ==> Wrap(size * elements) <= buf.Length
    modifies self.data
    ensures r == if Wrap(size * elements) > TASK then SegmentationFault else Moved(Wrap(size * elements))
    ensures r.Moved? ==> self.data[..] == Splice(old(self.data[..]), 0, buf[..Wrap(size * elements)])
    ensures r.SegmentationFault? ==> self.data[..] == old(self.data[..])
  {
    var bytes := Wrap(size * elements);
    if bytes > TASK {
      return SegmentationFault;
    }
    CopyBytes(self.data, 0, buf, 0, bytes);
    return Moved(bytes);
  }

  method TaskReadFunction(buf: array<byte>, size: dword, elements: dword, self: VNode) returns (r: Transfer)
    requires self.data != null && self.data.Length == TASK && buf != self.data
    requires Wrap(size * elements) <= TASK ==> Wrap(size * elements) <= buf.Length
    modifies buf
    ensures r == if Wrap(size * elements) > TASK then SegmentationFault else Moved(Wrap(size * elements))
    ensures r.Moved? ==> buf[..] == Splice(old(buf[..]), 0, self.data[..Wrap(size * elements)])
    ensures r.SegmentationFault? ==> buf[..] == old(buf[..])
  {
    var bytes := Wrap(size * elements);
    if bytes > TASK {
      return SegmentationFault;
    }
    CopyBytes(buf, 0, self.data, 0, bytes);
    return Moved(bytes);
  }

  function Zeros(n: nat): (s: seq<byte>)
    ensures |s| == n && forall k :: 0 <= k < n ==> s[k] == 0
  {
    if n == 0 then [] else [0] + Zeros(n - 1)
  }

  /** A new task behind its registers: its number, a descriptor list that is only its head
      (no reference, no successor, index -1) and the root as base directory. */
  function NewTask(pid: nat, root: dword): (s: seq<byte>)
    requires pid < TWO64
    ensures |s| == TASK - REGISTERS && s[..8] == PidBytes(pid)
  {
    PidBytes(pid) + Zeros(8) + [255, 255, 255, 255] + ToLE32(root)
  }

  /** What is behind a new task's registers, by offset in the image: the number at 64, the head of the
      descriptor list without reference (72) and successor (76) and with index -1 (80), and the
      base directory (84). */
  ghost predicate IsNewTask(image: seq<byte>, pid: nat, root: dword) {
    && |image| == 88
    && image[64] as int + 0x100 * image[65] as int + 0x1_0000 * image[66] as int + 0x100_0000 * image[67] as int
       + 0x1_0000_0000 * (image[68] as int + 0x100 * image[69] as int + 0x1_0000 * image[70] as int
                          + 0x100_0000 * image[71] as int) == pid
    && (forall k :: 72 <= k < 80 ==> image[k] == 0) && (forall k :: 80 <= k < 84 ==> image[k] == 255)
    && image[84] as int + 0x100 * image[85] as int + 0x1_0000 * image[86] as int + 0x100_0000 * image[87] as int == root
  }

  lemma NewTaskIs(image: seq<byte>, pid: nat, root: dword)
    requires |image| == TASK && pid < TWO64 && image[REGISTERS..] == NewTask(pid, root)
    ensures IsNewTask(image, pid, root)
  {
    hide ToLE32, LE32;
    var s := NewTask(pid, root);
    assert forall k :: 0 <= k < 24 ==> image[64 + k] == s[k];
    assert s[0..4] == ToLE32(pid % WORD) && s[4..8] == ToLE32(pid / WORD) && s[20..24] == ToLE32(root);
    DwordIs(s[0..4]);
    DwordIs(s[4..8]);
    DwordIs(s[20..24]);
  }

  lemma DwordIs(s: seq<byte>)
    requires |s| == 4
    ensures LE32(s) == s[0] as int + 0x100 * s[1] as int + 0x1_0000 * s[2] as int + 0x100_0000 * s[3] as int
  {
  }

  /** An image with the same bytes behind its registers is as new. */
  lemma StaysNew(image: seq<byte>, image': seq<byte>, pid: nat, root: dword)
    requires IsNewTask(image, pid, root) && |image'| == TASK && image'[REGISTERS..] == image[REGISTERS..]
    ensures IsNewTask(image', pid, root)
  {
    assert forall k :: 64 <= k < 88 ==> image'[k] == image'[REGISTERS..][k - 64] == image[k];
  }

  method StoreBytes(dst: array<byte>, at: nat, s: seq<byte>)
    requires at + |s| <= dst.Length
    modifies dst
    ensures dst[..] == Splice(old(dst[..]), at, s)
  {
    forall k | 0 <= k < |s| {
      dst[at + k] := s[k];
    }
  }

  method NewImage(initial: Registers, pid: nat, root: dword) returns (image: array<byte>)
    requires |initial| == REGISTERS && pid < TWO64
    ensures fresh(image) && image.Length == TASK && ProcessOf(image[..]) == Process(pid, initial)
    ensures IsNewTask(image[..], pid, root)
  {
    hide PidOf, NewTask, IsNewTask;
    image := new byte[TASK](k => 0);
    StoreBytes(image, 0, initial);
    StoreBytes(image, REGISTERS, NewTask(pid, root));
    assert image[..REGISTERS] == initial && image[REGISTERS..] == NewTask(pid, root);
    assert image[64..72] == image[REGISTERS..][..8];
    PidRoundTrip(image[..], pid);
    NewTaskIs(image[..], pid, root);
  }

  method ProcessName(n: dword) returns (name: seq<byte>)
    ensures name == Name(n)
  {
    hide Name;
    var buffer := UlToString(n);
    var length := Strnlen(buffer[..], 32);
    ghost var name' := Name(n);
    assert forall k :: 0 <= k < |name'| ==> buffer[..][k] == name'[k];
    assert buffer[..][|name'|] == 0;
    assert length == |name'|;
    name := buffer[..length];
  }

  /** Saving registers changes nothing else of a task: its number, its descriptors and its base
      directory stay. */
  lemma SavedImage(image: seq<byte>, r: Registers)
    requires |image| == TASK && |r| == REGISTERS
    ensures ProcessOf(r + image[REGISTERS..]) == ProcessOf(image).(saved := r)
    ensures (r + image[REGISTERS..])[REGISTERS..] == image[REGISTERS..]
  {
    var t := r + image[REGISTERS..];
    assert t[64..68] == image[64..68] && t[68..72] == image[68..72];
  }

  ghost function ProcessesOf(images: seq<array<byte>>): (r: seq<Process>)
    requires forall i :: 0 <= i < |images| ==> images[i].Length == TASK
    reads images
    ensures |r| == |images| && forall i :: 0 <= i < |r| ==> r[i] == ProcessOf(images[i][..])
  {
    if images == [] then [] else [ProcessOf(images[0][..])] + ProcessesOf(images[1..])
  }

  /** Every process is a node with a task image of its own and without a `parent`, which
      RegisterChildVNode does not set. */
  ghost predicate OwnTasks(procs: seq<VNode>, images: seq<array<byte>>): (v: bool)
    reads procs`data, procs`parent
    ensures v ==> |images| == |procs|
  {
    && |images| == |procs|
    && (forall i :: 0 <= i < |procs| ==> procs[i].data == images[i] && procs[i].parent == null)
    && (forall i :: 0 <= i < |images| ==> images[i].Length == TASK)
    && (forall i, j :: 0 <= i < j < |images| ==> images[i] != images[j])
  }

  lemma OneMore(created: VNode, image: array<byte>, procs: seq<VNode>, images: seq<array<byte>>)
    requires OwnTasks(procs, images) && created.data == image && created.parent == null
    requires image.Length == TASK && image !in images
    ensures OwnTasks([created] + procs, [image] + images)
    ensures ProcessesOf([image] + images) == [ProcessOf(image[..])] + ProcessesOf(images)
  {
    assert ([image] + images)[1..] == images;
  }

  lemma {:induction false} OneLess(procs: seq<VNode>, images: seq<array<byte>>, i: nat)
    requires OwnTasks(procs, images) && i < |procs|
    ensures OwnTasks(Without(procs, i), images[..i] + images[i + 1..])
    ensures ProcessesOf(images[..i] + images[i + 1..]) == ProcessesOf(images)[..i] + ProcessesOf(images)[i + 1..]
  {
  }

  /** The kernel's scheduling state. `cpu` is the register block of the processor, `scratch` is
      ScratchProc. /proc lists the processes, the latest first, and last the node "self". */
  class Kernel {
    const proc: VNode
    const selfProc: VNode
    const cpu: array<byte>
    const scratch: array<byte>
    const root: dword
    var currentProc: VNode?
    var ticks: nat
    var programIdentifier: nat
    ghost var procs: seq<VNode>
    ghost var images: seq<array<byte>>
    ghost var cursor: int

    /** /proc with the node "self" only. */
    constructor (root: dword)
      ensures Valid() && Abs() == State([], -1, cpu[..], 0)
    {
      this.root := root;
      proc := new VNode();
      selfProc := new VNode();
      cpu := new byte[REGISTERS](k => 0);
      scratch := new byte[TASK](k => 0);
      currentProc := null;
      ticks, programIdentifier := 0, 0;
      procs, images, cursor := [], [], -1;
      new;
      RegisterChildVNode(proc, selfProc, []);
      assert procs + [selfProc] == [selfProc] + [];
    }

    ghost predicate Valid()
      reads this, proc`firstChild, (procs + [selfProc])`next, (procs + [selfProc])`previous, procs`data, procs`parent
    {
      Listed() && programIdentifier < TWO64
    }

    ghost predicate Listed(): (v: bool)
      reads this`procs, this`images, this`cursor, this`currentProc
      reads proc`firstChild, (procs + [selfProc])`next, (procs + [selfProc])`previous, procs`data, procs`parent
      ensures v ==> Images() && Buffers() && -1 <= cursor < |procs| && (currentProc == null <==> cursor < 0)
    {
      && Children(proc, procs + [selfProc])
      && Images() && Buffers()
      && -1 <= cursor < |procs| && currentProc == At(procs, cursor)
    }

    ghost predicate Buffers()
      reads this`images
    {
      && cpu.Length == REGISTERS && scratch.Length == TASK && cpu != scratch
      && cpu !in images && scratch !in images
    }

    ghost predicate Images()
      reads this`procs, this`images, procs`data, procs`parent
    {
      OwnTasks(procs, images)
    }

    ghost function Processes(): (r: seq<Process>)
      requires Images()
      reads this`procs, this`images, procs`data, procs`parent, images
      ensures |r| == |procs| && forall i :: 0 <= i < |r| ==> r[i] == ProcessOf(images[i][..])
    {
      ProcessesOf(images)
    }

    ghost function Abs(): State
      requires Images()
      reads this, procs, images, cpu
    {
      State(Processes(), cursor, cpu[..], programIdentifier)
    }

    /** The image of the running process, if there is one. */
    ghost function Running(): set<object>
      requires Images()
      reads this`procs, this`images, this`cursor, procs`data, procs`parent
    {
      if 0 <= cursor < |images| then {images[cursor]} else {}
    }

    /** The registers in ScratchProc go to the image of the running process; the rest of every
        image stays. */
    method CommitProcessSave()
      requires Valid()
      modifies Running()
      ensures Valid() && Processes() == Save(old(Abs()).(cpu := scratch[..REGISTERS]))
      ensures forall i :: 0 <= i < |images| ==> images[i][REGISTERS..] == old(images[i][REGISTERS..])
    {
      hide Children, ProcessesOf, ProcessOf, PidOf;
      ghost var before := Processes();
      if currentProc != null {
        SavedImage(images[cursor][..], scratch[..REGISTERS]);
        var r := TaskWriteFunction(scratch, 1, REGISTERS, currentProc);
        assert images[cursor][..] == scratch[..REGISTERS] + old(images[cursor][REGISTERS..]);
      }
      assert forall i :: 0 <= i < |images| && i != cursor ==> images[i][..] == old(images[i][..]);
      assert forall i :: 0 <= i < |images| && i != cursor ==> Processes()[i] == before[i];
    }

    method CommitProcessLoad()
      requires Valid()
      modifies scratch
      ensures scratch[..] ==
        if cursor >= 0 then images[cursor][..REGISTERS] + old(scratch[REGISTERS..]) else old(scratch[..])
    {
      if currentProc != null {
        var r := TaskReadFunction(scratch, 1, REGISTERS, currentProc);
      }
    }

    /** The cursor moves to the next process, wherever "self" is skipped. It would move from
        "self" to "self" for ever if there were no process. */
    method CommitNextProcess()
      requires Valid() && procs != []
      modifies this`ticks, this`currentProc, this`cursor, selfProc`link, scratch
      ensures Valid() && cursor == NextCursor(old(cursor), |procs|)
      ensures selfProc.link == currentProc
      ensures ticks == (old(ticks) + 1) % TWO64
      ensures scratch[..REGISTERS] == Processes()[cursor].saved && scratch[REGISTERS..] == old(scratch[REGISTERS..])
      ensures Processes() == old(Processes())
    {
      hide Children, ProcessesOf, PidOf;
      ticks := (ticks + 1) % TWO64;
      MoveCursor();
      selfProc.link := currentProc;
      CommitProcessLoad();
    }

    method MoveCursor()
      requires Valid() && procs != []
      modifies this`currentProc, this`cursor
      ensures Valid() && cursor == NextCursor(old(cursor), |procs|)
    {
      hide Images;
      ghost var s := procs + [selfProc];
      ghost var at := Advance(cursor);
      while currentProc == selfProc
        invariant 0 <= at <= |procs| && currentProc == s[at]
        invariant if at == |procs| then cursor == |procs| - 1 else at == NextCursor(cursor, |procs|)
        decreases at
        modifies this`currentProc
      {
        assert s[|procs|] == selfProc;
        at := Advance(at);
      }
      cursor := at;
    }

    method Advance(ghost at: int) returns (ghost to: int)
      requires Children(proc, procs + [selfProc])
      requires -1 <= at <= |procs| && currentProc == At(procs + [selfProc], at)
      modifies this`currentProc
      ensures to == NextCursor(at, |procs| + 1) && currentProc == At(procs + [selfProc], to)
    {
      if currentProc == null || currentProc.next == null {
        currentProc := proc.firstChild;
      } else {
        currentProc := currentProc.next;
      }
      to := NextCursor(at, |procs| + 1);
    }

    /** A new process becomes the first child of /proc. (The names repeat after 2^32 processes
        and the numbers after 2^64.) */
    method SchedulerCreateProc(initial: Registers) returns (created: VNode)
      requires Valid() && |initial| == REGISTERS
      modifies this`programIdentifier, this`procs, this`images, this`cursor
      modifies proc`firstChild, Just(proc.firstChild)`previous
      ensures Valid() && procs == [created] + old(procs) && fresh(created) && fresh(images[0])
      ensures created.name == Name(old(programIdentifier) % WORD)
      ensures images == [images[0]] + old(images) && IsNewTask(images[0][..], old(programIdentifier), root)
      ensures images[0][..64] == initial
      ensures old(programIdentifier) + 1 < TWO64 ==> Abs() == Step(old(Abs()), Create(initial))
    {
      hide Listed, Images, Buffers, Processes, ProcessOf, IsNewTask, Name, Children, OwnTasks, ProcessesOf;
      ghost var before := Processes();
      var name := ProcessName(programIdentifier % WORD);
      var image := NewImage(initial, programIdentifier, root);
      created := new VNode();
      created.data := image;
      created.name := name;
      programIdentifier := (programIdentifier + 1) % TWO64;
      assert Processes() == before;
      Enlist(created, image);
      assert Processes() == [ProcessOf(image[..])] + before;
    }

    /** The first process runs at once. */
    method SchedulerInitialise()
      requires Valid() && procs == [] && programIdentifier == 0
      modifies this`programIdentifier, this`procs, this`images, this`cursor, this`currentProc
      modifies proc`firstChild, Just(proc.firstChild)`previous
      ensures Valid() && Abs() == State([Process(0, Zeros(REGISTERS))], 0, old(cpu[..]), 1)
      ensures IsNewTask(images[0][..], 0, root)
    {
      hide Images, Processes, ProcessOf, Zeros;
      var first := SchedulerCreateProc(Zeros(REGISTERS));
      currentProc, cursor := first, 0;
    }

    method Enlist(created: VNode, ghost image: array<byte>)
      requires Valid() && created !in procs && created != selfProc && created.previous == null && created.parent == null
      requires created.data == image && image.Length == TASK && image !in images && image != scratch && image != cpu
      modifies this`procs, this`images, this`cursor
      modifies created`next, proc`firstChild, Just(proc.firstChild)`previous
      ensures Valid() && procs == [created] + old(procs) && images == [image] + old(images)
      ensures cursor == if old(cursor) < 0 then -1 else old(cursor) + 1
      ensures Processes() == [ProcessOf(image[..])] + old(Processes())
    {
      hide ProcessesOf, ProcessOf, Children, OwnTasks;
      RegisterChildVNode(proc, created, procs + [selfProc]);
      OneMore(created, image, procs, images);
      assert [created] + (procs + [selfProc]) == ([created] + procs) + [selfProc];
      procs, images := [created] + procs, [image] + images;
      cursor := if cursor < 0 then -1 else cursor + 1;
    }

    /** SchedulerExit's walk to the predecessor of the running process, which then skips it. */
    method SkipCurrent()
      requires Valid() && currentProc != null
      modifies proc`firstChild, (if cursor > 0 then {procs[cursor - 1]} else {})`next
      ensures if cursor > 0 then procs[cursor - 1].next == currentProc.next && proc.firstChild == old(proc.firstChild)
              else proc.firstChild == currentProc.next
    {
      hide OwnTasks;
      ghost var s := procs + [selfProc];
      assert currentProc == s[cursor];
      var prev := proc.firstChild;
      if prev == currentProc {
        proc.firstChild := currentProc.next;
      } else {
        ghost var at := 0;
        while prev != null && prev.next != currentProc
          invariant 0 <= at < cursor && prev == s[at]
          decreases cursor - at
          modifies {}
        {
          prev, at := prev.next, at + 1;
        }
        if prev != null {
          prev.next := currentProc.next;
        }
      }
    }

    /** Takes the running process out of /proc. */
    method Unlink()
      requires Valid() && currentProc != null
      modifies proc`firstChild, (procs + [selfProc])`next, (procs + [selfProc])`previous, procs`parent
      ensures Children(proc, Without(procs, cursor) + [selfProc])
      ensures OwnTasks(procs, images)
    {
      hide Without;
      ghost var s := procs + [selfProc];
      assert currentProc == s[cursor] && (cursor > 0 ==> procs[cursor - 1] == s[cursor - 1]);
      assert currentProc.previous == At(s, cursor - 1) && currentProc.next == At(s, cursor + 1);
      SkipCurrent();
      UnregisterVNode(currentProc);
      WithoutLinked(s, cursor);
      WithoutFirst(s, cursor);
      WithoutAppend(procs, selfProc, cursor);
    }

    /** The running process is removed; none runs until the next trap. (Its descriptors are closed
        by Vfd.Table.ExitFiles.) */
    method SchedulerExit()
      requires Valid() && currentProc != null
      modifies this`currentProc, this`procs, this`images, this`cursor
      modifies proc`firstChild, (procs + [selfProc])`next, (procs + [selfProc])`previous, procs`parent
      ensures Valid() && currentProc == null && procs == Without(old(procs), old(cursor))
      ensures Enabled(old(Abs()), SchedModel.Exit) && Abs() == Step(old(Abs()), SchedModel.Exit)
      ensures images == old(images)[..old(cursor)] + old(images)[old(cursor) + 1..]
    {
      hide Listed, OwnTasks, ProcessesOf, Without, Children;
      ghost var before := Processes();
      Unlink();
      assert Processes() == before;
      Forget();
    }

    method Forget()
      requires Images() && Buffers() && 0 <= cursor < |procs|
      requires Children(proc, Without(procs, cursor) + [selfProc])
      modifies this`currentProc, this`procs, this`images, this`cursor
      ensures Listed() && currentProc == null && cursor == -1 && procs == Without(old(procs), old(cursor))
      ensures Processes() == old(Processes())[..old(cursor)] + old(Processes())[old(cursor) + 1..]
      ensures images == old(images)[..old(cursor)] + old(images)[old(cursor) + 1..]
    {
      hide OwnTasks, Children, ProcessesOf, Without, ProcessOf;
      OneLess(procs, images, cursor);
      images := images[..cursor] + images[cursor + 1..];
      procs := Without(procs, cursor);
      currentProc, cursor := null, -1;
    }

    /** The trap handler's first half: the processor's registers go to ScratchProc. */
    method EnterTrap()
      requires Buffers()
      modifies scratch
      ensures scratch[..REGISTERS] == cpu[..] && scratch[REGISTERS..] == old(scratch[REGISTERS..])
    {
      CopyBytes(scratch, 0, cpu, 0, REGISTERS);
      assert cpu[0..REGISTERS] == cpu[..];
    }

    method LeaveTrap()
      requires Buffers()
      modifies cpu
      ensures cpu[..] == scratch[..REGISTERS]
    {
      CopyBytes(cpu, 0, scratch, 0, REGISTERS);
    }

    /** The timer trap is the scheduler's Tick. */
    method NextProcess()
      requires Valid() && procs != []
      modifies this`ticks, this`currentProc, this`cursor, selfProc`link, scratch, cpu, Running()
      ensures Valid() && Enabled(old(Abs()), Tick) && Abs() == Step(old(Abs()), Tick)
      ensures forall i :: 0 <= i < |images| ==> images[i][REGISTERS..] == old(images[i][REGISTERS..])
    {
      hide Listed, Images, Processes, ProcessOf, Save;
      ghost var before := Abs();
      EnterTrap();
      CommitProcessSave();
      CommitNextProcess();
      LeaveTrap();
      assert Processes() == Save(before);
    }

    // ---- Runs ----

    /** Every live process has its number and what it was created with behind its registers. */
    ghost predicate AllNew()
      requires Images()
      reads this`procs, this`images, procs`data, procs`parent, images
    {
      forall i :: 0 <= i < |images| ==> IsNewTask(images[i][..], Processes()[i].pid, root)
    }

    /** The processor ends up with new registers. */
    method Execute(r: Registers)
      requires Valid() && AllNew() && |r| == REGISTERS
      modifies cpu
      ensures Valid() && AllNew() && Abs() == Step(old(Abs()), SchedModel.Execute(r))
    {
      hide Listed, IsNewTask, ProcessOf, ProcessesOf;
      ghost var before := Processes();
      StoreBytes(cpu, 0, r);
      assert Processes() == before;
    }

    method Trap()
      requires Valid() && AllNew() && procs != []
      modifies this`ticks, this`currentProc, this`cursor, selfProc`link, scratch, cpu, Running()
      ensures Valid() && AllNew() && Abs() == Step(old(Abs()), Tick)
      ensures forall i :: 0 <= i < |images| ==> images[i][REGISTERS..] == old(images[i][REGISTERS..])
    {
      hide Listed, Processes, IsNewTask, ProcessOf;
      ghost var before := Abs();
      NextProcess();
      forall i | 0 <= i < |images|
        ensures IsNewTask(images[i][..], Processes()[i].pid, root)
      {
        assert Processes()[i].pid == before.procs[i].pid;
        assert images[i][..][REGISTERS..] == old(images[i][..])[REGISTERS..];
        StaysNew(old(images[i][..]), images[i][..], before.procs[i].pid, root);
      }
    }

    method Spawn(r: Registers)
      requires Valid() && AllNew() && |r| == REGISTERS && programIdentifier + 1 < TWO64
      modifies this`programIdentifier, this`procs, this`images, this`cursor
      modifies proc`firstChild, Just(proc.firstChild)`previous
      ensures Valid() && AllNew() && Abs() == Step(old(Abs()), Create(r))
      ensures procs != [] && procs[1..] == old(procs) && fresh(procs[0])
      ensures images != [] && images[1..] == old(images) && fresh(images[0])
    {
      hide Listed, OwnTasks, Processes, IsNewTask, ProcessOf, Children;
      ghost var before := Abs();
      var created := SchedulerCreateProc(r);
      forall i | 0 <= i < |images|
        ensures IsNewTask(images[i][..], Processes()[i].pid, root)
      {
        if i > 0 {
          assert Processes()[i] == before.procs[i - 1] && images[i] == old(images[i - 1]);
        }
      }
    }

    method Quit()
      requires Valid() && AllNew() && cursor >= 0
      modifies this`currentProc, this`procs, this`images, this`cursor
      modifies proc`firstChild, (procs + [selfProc])`next, (procs + [selfProc])`previous, procs`parent
      ensures Valid() && AllNew() && Enabled(old(Abs()), Exit) && Abs() == Step(old(Abs()), Exit)
      ensures procs == old(procs)[..old(cursor)] + old(procs)[old(cursor) + 1..]
      ensures images == old(images)[..old(cursor)] + old(images)[old(cursor) + 1..]
    {
      hide OwnTasks, Processes, IsNewTask, ProcessOf, Children;
      ghost var before := Abs();
      SchedulerExit();
      forall i | 0 <= i < |images|
        ensures IsNewTask(images[i][..], Processes()[i].pid, root)
      {
        var j := if i < old(cursor) then i else i + 1;
        assert Processes()[i] == before.procs[j] && images[i] == old(images[j]);
      }
    }

    lemma Head()
      requires Valid()
      ensures proc.firstChild == (procs + [selfProc])[0]
      ensures (cursor >= 0 <==> currentProc != null) && |procs| == |images| == |Processes()| && -1 <= cursor < |procs|
    {
    }

    lemma NoEvent(s: State)
      ensures Run(s, []) == s
    {
    }

    lemma Next(s: State, es: seq<Event>)
      requires es != [] && Runs(s, es)
      ensures Runs(Step(s, es[0]), es[1..]) && Run(s, es) == Run(Step(s, es[0]), es[1..])
      ensures Step(s, es[0]).nextPid <= s.nextPid + 1
    {
    }

    method Handle(e: Event)
      requires Valid() && AllNew() && Enabled(Abs(), e) && programIdentifier + 1 < TWO64
      requires e.Execute? || e.Create? ==> |e.r| == REGISTERS
      modifies this, proc, selfProc, procs, scratch, cpu, images
      ensures Valid() && AllNew() && Abs() == Step(old(Abs()), e)
      ensures forall i :: 0 <= i < |procs| ==> procs[i] in old(procs) || fresh(procs[i])
      ensures forall i :: 0 <= i < |images| ==> images[i] in old(images) || fresh(images[i])
    {
      hide Listed, OwnTasks, Processes, IsNewTask, ProcessOf, Children, AllNew;
      Head();
      match e {
        case Execute(r) => Execute(r);
        case Tick => Trap();
        case Create(r) => Spawn(r);
        case Exit => Quit();
      }
    }

    /** Every run of the transition system, on the kernel: the processes are those of the run, and
        each live one keeps its number and all that it was created with behind its registers. */
    method Serve(es: seq<Event>)
      requires Valid() && AllNew() && Runs(Abs(), es) && programIdentifier + |es| < TWO64
      requires forall e :: e in es && (e.Execute? || e.Create?) ==> |e.r| == REGISTERS
      modifies this, proc, selfProc, procs, scratch, cpu, images
      ensures Valid() && AllNew() && Abs() == Run(old(Abs()), es)
      decreases |es|
    {
      hide Listed, Images, OwnTasks, Processes, IsNewTask, ProcessOf, Children, AllNew, Run, Step;
      if es == [] {
        NoEvent(Abs());
        return;
      }
      assert es[0] in es && forall e :: e in es[1..] ==> e in es;
      ghost var s := Abs();
      Handle(es[0]);
      Next(s, es);
      Serve(es[1..]);
    }
  }
}
