/**
 The process list of src/process.c with the page directory pool of src/paging.c and the scheduler
 steps of src/scheduler.c: what create, destroy and context save keep over every run after boot.
 */
module Processes {
  import opened Layout
  import opened Store

  const PROCESS_COUNT_MAX := 16
  const PROCESS_PAGE_FRAME_COUNT_MAX := 8
  const KERNEL_VIRTUAL_ADDRESS_BASE: u32 := 0xC000_0000
  const PAGE_FRAME_SIZE: u32 := 0x40_0000
  const PAGE_FRAME_MAX_COUNT := 32
  const PAGE_ENTRY_COUNT := 1024
  const PAGING_DIRECTORY_TABLE_MAX_COUNT := 32
  const HIGHER_HALF := 0x300

  const SUCCESS := 0
  const FAIL_MAX_PROCESS_EXCEEDED := 1
  const FAIL_INVALID_ENTRYPOINT := 2
  const FAIL_NOT_ENOUGH_MEMORY := 3
  const FAIL_FS_READ_FAILURE := 4

  /** The fields of a page directory entry that the kernel ever sets. */
  datatype PageEntry = PageEntry(present: bool, write: bool, user: bool, large: bool, frame: nat)

  const BLANK := PageEntry(false, false, false, false, 0)
  const KERNEL := PageEntry(true, true, false, true, 0)

  function UserPage(frame: nat): PageEntry { PageEntry(true, true, true, true, frame) }

  function BlankTable(): (t: PageTable) { seq(PAGE_ENTRY_COUNT, _ => BLANK) }

  type PageTable = t: seq<PageEntry> | |t| == PAGE_ENTRY_COUNT witness seq(PAGE_ENTRY_COUNT, _ => BLANK)

  datatype ProcessState = New | Ready | Running | Waiting | Terminated

  /** Registers are an opaque number; the page directory is its index in the pool, -1 for NULL. */
  datatype Context = Context(registers: nat, directory: int)

  const NO_DIRECTORY := -1
  const INITIAL_REGISTERS: nat := 0

  datatype Pcb = Pcb(pid: nat, state: ProcessState, pages: nat, context: Context)
  {
    predicate Live() { pid != 0 }
  }

  const ZEROED := Pcb(0, New, 0, Context(0, NO_DIRECTORY))

  /**
   The process list with its counters, the directory pool, and what creation takes from the rest of
   the kernel: entry 0 of the kernel's own page directory, and the number of free page frames.
   */
  datatype Kernel = Kernel(list: seq<Pcb>, active: nat, nextPid: nat, used: seq<bool>, tables: seq<PageTable>,
                           low: PageEntry, freeFrames: nat)

  /** A creation request: file size, load address, and what the file system answers to the read. */
  datatype Program = Program(size: u32, entry: u32, readCode: int)

  // ----- the steps -----

  function FindPid(list: seq<Pcb>, pid: nat, i: nat): (k: nat)
    requires i <= |list|
    ensures i <= k <= |list|
    ensures k < |list| ==> list[k].pid == pid
    ensures forall j :: i <= j < k ==> list[j].pid != pid
    decreases |list| - i
  {
    if i == |list| || list[i].pid == pid then i else FindPid(list, pid, i + 1)
  }

  function FindUnused(used: seq<bool>, i: nat): (k: nat)
    requires i <= |used|
    ensures i <= k <= |used|
    ensures k < |used| ==> !used[k]
    ensures forall j :: i <= j < k ==> used[j]
    decreases |used| - i
  {
    if i == |used| || !used[i] then i else FindUnused(used, i + 1)
  }

  /** Page frames for the program and its stack; sum and quotient in 32-bit arithmetic. */
  function PagesNeeded(size: u32): u32
  {
    ToU32(CeilDiv(ToInt32((size + PAGE_FRAME_SIZE) % 0x1_0000_0000), PAGE_FRAME_SIZE))
  }

  /** Up to the limit: one frame for the stack, and as many as the bytes of the program fill. */
  lemma PagesAreFrames(size: u32)
    requires size <= 7 * PAGE_FRAME_SIZE
    ensures PagesNeeded(size) == 1 + (size + PAGE_FRAME_SIZE - 1) / PAGE_FRAME_SIZE
  {
  }

  /** The sizes that wrap around get one frame or none. */
  lemma PagesOfHugeSize(size: u32)
    requires size > 0xFF40_0000 && size != 0xFF80_0000
    ensures PagesNeeded(size) == if size > 0xFF80_0000 && size != 0xFFC0_0000 then 1 else 0
  {
    var v := ToInt32((size + PAGE_FRAME_SIZE) % 0x1_0000_0000);
    var n := CeilDiv(v, PAGE_FRAME_SIZE);
    hide ToInt32, CeilDiv;
    SignedSum(size, v);
    CeilBounds(v, n);
    assert PagesNeeded(size) == n % 0x1_0000_0000;
  }

  predicate FitsInMemory(k: Kernel, size: u32)
  {
    PagesNeeded(size) <= k.freeFrames && PagesNeeded(size) <= PROCESS_PAGE_FRAME_COUNT_MAX
  }

  /**
   The memory check lets a program pass exactly when it fits in seven frames beside the stack, or
   when its size is so close to 2^32 that the sum wraps around or counts as a small negative number.
   The count of free frames never decides.
   */
  lemma MemoryCheckIff(k: Kernel, size: u32)
    requires Inv(k)
    ensures FitsInMemory(k, size) <==>
            size <= 7 * PAGE_FRAME_SIZE ||
            (size > 0x1_0000_0000 - 3 * PAGE_FRAME_SIZE && size != 0x1_0000_0000 - 2 * PAGE_FRAME_SIZE)
  {
    hide PagesNeeded, SlotOk, Apart, LiveSlots, BlankTable;
    FewPagesIff(size);
  }

  lemma FewPagesIff(size: u32)
    ensures PagesNeeded(size) <= PROCESS_PAGE_FRAME_COUNT_MAX <==>
            size <= 7 * PAGE_FRAME_SIZE ||
            (size > 0x1_0000_0000 - 3 * PAGE_FRAME_SIZE && size != 0x1_0000_0000 - 2 * PAGE_FRAME_SIZE)
  {
    var v := ToInt32((size + PAGE_FRAME_SIZE) % 0x1_0000_0000);
    var n := CeilDiv(v, PAGE_FRAME_SIZE);
    hide ToInt32, CeilDiv;
    SignedSum(size, v);
    CeilBounds(v, n);
    assert PagesNeeded(size) == n % 0x1_0000_0000;
  }

  lemma SignedSum(size: u32, v: int)
    requires v == ToInt32((size + PAGE_FRAME_SIZE) % 0x1_0000_0000)
    ensures v == if size + PAGE_FRAME_SIZE < 0x8000_0000 then size + PAGE_FRAME_SIZE
                 else size + PAGE_FRAME_SIZE - 0x1_0000_0000
  {
  }

  lemma CeilBounds(v: int, n: int)
    requires n == CeilDiv(v, PAGE_FRAME_SIZE)
    ensures v >= 0 ==> (n - 1) * PAGE_FRAME_SIZE < v <= n * PAGE_FRAME_SIZE
    ensures v < 0 && v % PAGE_FRAME_SIZE == 0 ==> n * PAGE_FRAME_SIZE == v
    ensures v < 0 && v % PAGE_FRAME_SIZE != 0 ==> (n - 2) * PAGE_FRAME_SIZE < v < (n - 1) * PAGE_FRAME_SIZE
  {
  }

  function CreateCode(k: Kernel, p: Program): int
  {
    if k.active >= PROCESS_COUNT_MAX then FAIL_MAX_PROCESS_EXCEEDED
    else if p.entry >= KERNEL_VIRTUAL_ADDRESS_BASE then FAIL_INVALID_ENTRYPOINT
    else if !FitsInMemory(k, p.size) then FAIL_NOT_ENOUGH_MEMORY
    else if FindUnused(k.used, 0) == |k.used| then FAIL_NOT_ENOUGH_MEMORY
    else if p.readCode != 0 then FAIL_FS_READ_FAILURE
    else SUCCESS
  }

  /** A new directory gets the two entries of the kernel's own; all others stay as they are. */
  function WithKernel(t: PageTable, low: PageEntry): PageTable { t[0 := low][HIGHER_HALF := KERNEL] }

  /** The pages of the program: the higher half from its start, on the frames from 0. */
  function WithPages(t: PageTable, pages: nat): PageTable
    requires pages <= PROCESS_PAGE_FRAME_COUNT_MAX
  {
    if pages == 0 then t else WithPages(t, pages - 1)[HIGHER_HALF + (pages - 1) := UserPage(pages - 1)]
  }

  predicate Sized(k: Kernel)
  {
    |k.list| == PROCESS_COUNT_MAX && |k.used| == |k.tables| == PAGING_DIRECTORY_TABLE_MAX_COUNT
  }

  function TakeDirectory(k: Kernel): Kernel
    requires Sized(k) && FindUnused(k.used, 0) < |k.used|
  {
    var d := FindUnused(k.used, 0);
    k.(used := k.used[d := true], tables := k.tables[d := WithKernel(k.tables[d], k.low)])
  }

  /** process_create_user_process; a failed read keeps the directory it took. */
  function Create(k: Kernel, p: Program): Kernel
    requires Sized(k) && (CreateCode(k, p) == SUCCESS ==> FindPid(k.list, 0, 0) < |k.list|)
  {
    if CreateCode(k, p) == FAIL_FS_READ_FAILURE then TakeDirectory(k)
    else if CreateCode(k, p) == SUCCESS then Started(TakeDirectory(k), FindUnused(k.used, 0), PagesNeeded(p.size))
    else k
  }

  /** The successful end of a creation, with directory d taken. */
  function Started(k: Kernel, d: nat, pages: nat): Kernel
    requires Sized(k) && FindPid(k.list, 0, 0) < |k.list| && d < |k.used| && pages <= PROCESS_PAGE_FRAME_COUNT_MAX
  {
    k.(list := k.list[FindPid(k.list, 0, 0) := Pcb(k.nextPid, Ready, pages, Context(INITIAL_REGISTERS, d))],
       tables := k.tables[d := WithPages(k.tables[d], pages)], nextPid := k.nextPid + 1, active := k.active + 1)
  }

  /** paging_free_page_directory: anything that is not a directory of the pool is passed over. */
  function FreeDirectory(k: Kernel, d: int): Kernel
    requires Sized(k)
  {
    if 0 <= d < |k.used| then k.(used := k.used[d := false], tables := k.tables[d := BlankTable()]) else k
  }

  function Ended(p: Pcb): Pcb { p.(pid := 0, state := Terminated) }

  /** process_destroy: the first slot with that number, even number 0. */
  function Destroy(k: Kernel, pid: nat): Kernel
    requires Sized(k)
  {
    var i := FindPid(k.list, pid, 0);
    if i == |k.list| then k
    else FreeDirectory(k, k.list[i].context.directory).(list := k.list[i := Ended(k.list[i])])
  }

  /** The timer tick: the registers go into the slot below the active count, with that slot's own directory. */
  function Save(k: Kernel, registers: nat): Kernel
    requires Sized(k) && k.active <= |k.list|
  {
    if k.active == 0 then k
    else
      var i := k.active - 1;
      k.(list := k.list[i := k.list[i].(context := Context(registers, k.list[i].context.directory))])
  }

  function Zeroed(): Kernel
  {
    Kernel(seq(PROCESS_COUNT_MAX, _ => ZEROED), 0, 1, seq(PAGING_DIRECTORY_TABLE_MAX_COUNT, _ => false),
           seq(PAGING_DIRECTORY_TABLE_MAX_COUNT, _ => BlankTable()), KERNEL, PAGE_FRAME_MAX_COUNT)
  }

  /**
   paging_allocate_user_page_frame on the kernel's own directory at address 0, the one call there
   is. It uses the count of free frames as the physical address.
   */
  function MapFirstPage(k: Kernel): Kernel
    requires k.freeFrames > 0
  {
    k.(low := UserPage(k.freeFrames / PAGE_FRAME_SIZE % PAGE_ENTRY_COUNT), freeFrames := k.freeFrames - 1)
  }

  // ----- the invariant -----

  function LiveSlots(k: Kernel): set<nat>
  {
    set i: nat | i < |k.list| && k.list[i].Live()
  }

  function UsedDirectories(k: Kernel): set<nat>
  {
    set d: nat | d < |k.used| && k.used[d]
  }

  /** A live process: a number handed out before, and a used directory that maps its pages and nothing else. */
  predicate SlotOk(k: Kernel, i: nat)
    requires Sized(k) && i < |k.list|
  {
    var s := k.list[i];
    NO_DIRECTORY <= s.context.directory < |k.used| &&
    (s.Live() ==>
       s.pid < k.nextPid && s.pages <= PROCESS_PAGE_FRAME_COUNT_MAX &&
       0 <= s.context.directory && k.used[s.context.directory] &&
       k.tables[s.context.directory] == ProcessTable(k.low, s.pages))
  }

  /** The page table of a process, entry by entry. */
  function ProcessTable(low: PageEntry, pages: nat): PageTable
  {
    seq(PAGE_ENTRY_COUNT, i requires 0 <= i => ProcessEntry(low, pages, i))
  }

  function ProcessEntry(low: PageEntry, pages: nat, i: nat): PageEntry
  {
    if i == 0 then low
    else if HIGHER_HALF <= i < HIGHER_HALF + pages then UserPage(i - HIGHER_HALF)
    else if i == HIGHER_HALF then KERNEL
    else BLANK
  }

  /** No two live processes share a number or a directory. */
  predicate Apart(k: Kernel, i: nat, j: nat)
    requires Sized(k) && i < |k.list| && j < |k.list|
  {
    k.list[i].Live() && k.list[j].Live() && i != j ==>
      k.list[i].pid != k.list[j].pid && k.list[i].context.directory != k.list[j].context.directory
  }

  ghost predicate Inv(k: Kernel)
  {
    Sized(k) &&
    |LiveSlots(k)| <= k.active <= PROCESS_COUNT_MAX && 1 <= k.nextPid <= k.active + 1 &&
    PAGE_FRAME_MAX_COUNT - 1 <= k.freeFrames <= PAGE_FRAME_MAX_COUNT &&
    (forall i :: 0 <= i < |k.list| ==> SlotOk(k, i)) &&
    (forall i, j :: 0 <= i < |k.list| && 0 <= j < |k.list| ==> Apart(k, i, j)) &&
    (forall d :: 0 <= d < |k.used| && !k.used[d] ==> k.tables[d] == BlankTable())
  }

  ghost function Below(n: nat): (s: set<nat>)
    ensures |s| == n
    ensures forall i: nat :: i in s <==> i < n
  {
    if n == 0 then {} else Below(n - 1) + {n - 1}
  }

  /** A creation that passes the count check gets a slot: 16 live processes would be more than the count. */
  lemma SlotExists(k: Kernel)
    requires Inv(k) && k.active < PROCESS_COUNT_MAX
    ensures FindPid(k.list, 0, 0) < |k.list|
  {
    assert (forall i :: 0 <= i < |k.list| ==> k.list[i].Live()) ==> LiveSlots(k) == Below(PROCESS_COUNT_MAX);
  }

  lemma ZeroedIsFine()
    ensures Inv(Zeroed()) && LiveSlots(Zeroed()) == {} && UsedDirectories(Zeroed()) == {}
  {
    assert LiveSlots(Zeroed()) == {};
  }

  /** On a blank directory the writes of create make exactly the table of the process. */
  lemma {:induction false} PagesMakeTable(low: PageEntry, pages: nat)
    requires pages <= PROCESS_PAGE_FRAME_COUNT_MAX
    ensures WithPages(WithKernel(BlankTable(), low), pages) == ProcessTable(low, pages)
  {
    if pages > 0 {
      PagesMakeTable(low, pages - 1);
      var t := ProcessTable(low, pages - 1)[HIGHER_HALF + (pages - 1) := UserPage(pages - 1)];
      forall i | 0 <= i < PAGE_ENTRY_COUNT
        ensures t[i] == ProcessTable(low, pages)[i]
      {
      }
    }
  }

  lemma TakeKeepsInv(k: Kernel)
    requires Inv(k) && FindUnused(k.used, 0) < |k.used|
    ensures Inv(TakeDirectory(k))
    ensures LiveSlots(TakeDirectory(k)) == LiveSlots(k)
    ensures UsedDirectories(TakeDirectory(k)) == UsedDirectories(k) + {FindUnused(k.used, 0)}
  {
    hide BlankTable, ProcessTable, WithKernel;
    var k' := TakeDirectory(k);
    assert LiveSlots(k') == LiveSlots(k);
    forall i | 0 <= i < |k.list| ensures SlotOk(k', i) { assert SlotOk(k, i); }
    forall i, j | 0 <= i < |k.list| && 0 <= j < |k.list| ensures Apart(k', i, j) { assert Apart(k, i, j); }
  }

  /** The slot of a new process, on a directory that no live process has. */
  lemma StartKeepsInv(k: Kernel, pages: nat)
    requires Inv(k) && k.active < PROCESS_COUNT_MAX && FindUnused(k.used, 0) < |k.used|
    requires FindPid(k.list, 0, 0) < |k.list| && pages <= PROCESS_PAGE_FRAME_COUNT_MAX
    ensures var k' := Started(TakeDirectory(k), FindUnused(k.used, 0), pages);
            Inv(k') && LiveSlots(k') == LiveSlots(k) + {FindPid(k.list, 0, 0)} &&
            UsedDirectories(k') == UsedDirectories(k) + {FindUnused(k.used, 0)}
  {
    hide BlankTable, ProcessTable, WithKernel, WithPages, FindPid, FindUnused;
    TakeKeepsInv(k);
    var t, d, s := TakeDirectory(k), FindUnused(k.used, 0), FindPid(k.list, 0, 0);
    var k' := Started(t, d, pages);
    PagesMakeTable(k.low, pages);
    assert LiveSlots(k') == LiveSlots(k) + {s};
    forall i | 0 <= i < |k.list| ensures SlotOk(k', i) { assert SlotOk(k, i); assert SlotOk(t, i); }
    forall i, j | 0 <= i < |k.list| && 0 <= j < |k.list| ensures Apart(k', i, j)
    {
      assert Apart(k, i, j) && SlotOk(k, i) && SlotOk(k, j);
    }
  }

  lemma CreateKeepsInv(k: Kernel, p: Program)
    requires Inv(k)
    ensures CreateCode(k, p) == SUCCESS ==> FindPid(k.list, 0, 0) < |k.list|
    ensures var code, k' := CreateCode(k, p), Create(k, p);
            Inv(k') &&
            LiveSlots(k') == (if code == SUCCESS then LiveSlots(k) + {FindPid(k.list, 0, 0)} else LiveSlots(k)) &&
            UsedDirectories(k') == if code == SUCCESS || code == FAIL_FS_READ_FAILURE
                                   then UsedDirectories(k) + {FindUnused(k.used, 0)} else UsedDirectories(k)
  {
    hide Inv, TakeDirectory, Started, LiveSlots, UsedDirectories;
    if CreateCode(k, p) == SUCCESS {
      SlotExists(k);
      StartKeepsInv(k, PagesNeeded(p.size));
    } else if CreateCode(k, p) == FAIL_FS_READ_FAILURE {
      TakeKeepsInv(k);
    }
  }

  /** Some live process has the directory. */
  predicate Owned(k: Kernel, d: int)
  {
    exists i :: 0 <= i < |k.list| && k.list[i].Live() && k.list[i].context.directory == d
  }

  /** Ending a slot is safe when its directory is its own: that of a live slot is, that of a dead one may not be. */
  lemma EndKeepsInv(k: Kernel, i: nat)
    requires Inv(k) && i < |k.list|
    requires k.list[i].Live() || !Owned(k, k.list[i].context.directory)
    ensures var d := k.list[i].context.directory; var k' := FreeDirectory(k, d).(list := k.list[i := Ended(k.list[i])]);
            Inv(k') && LiveSlots(k') == LiveSlots(k) - {i} && UsedDirectories(k') == UsedDirectories(k) - {d}
  {
    hide BlankTable, ProcessTable, WithKernel, WithPages;
    var d := k.list[i].context.directory;
    var k' := FreeDirectory(k, d).(list := k.list[i := Ended(k.list[i])]);
    assert LiveSlots(k') == LiveSlots(k) - {i};
    forall j | 0 <= j < |k.list| ensures SlotOk(k', j) { assert SlotOk(k, j) && Apart(k, i, j); }
    forall a, b | 0 <= a < |k.list| && 0 <= b < |k.list| ensures Apart(k', a, b) { assert Apart(k, a, b); }
    assert SlotOk(k, i);
    assert UsedDirectories(k') == UsedDirectories(k) - {d};
  }

  lemma DestroyKeepsInv(k: Kernel, pid: nat)
    requires Inv(k) && pid != 0
    ensures var k', i := Destroy(k, pid), FindPid(k.list, pid, 0);
            Inv(k') &&
            if i == |k.list| then k' == k
            else LiveSlots(k') == LiveSlots(k) - {i} && i in LiveSlots(k) &&
                 UsedDirectories(k') == UsedDirectories(k) - {k.list[i].context.directory} &&
                 k.list[i].context.directory in UsedDirectories(k)
  {
    var i := FindPid(k.list, pid, 0);
    if i < |k.list| {
      EndKeepsInv(k, i);
      assert SlotOk(k, i);
    }
  }

  /**
   Number 0 is the mark of a dead slot, and destroy does not look out for it: it frees what the
   first dead slot last had. That is harmless exactly when no live process has that directory now.
   */
  lemma DestroyZeroIff(k: Kernel)
    requires Inv(k)
    ensures var i := FindPid(k.list, 0, 0);
            Inv(Destroy(k, 0)) <==> (i == |k.list| || !Owned(k, k.list[i].context.directory))
  {
    var i := FindPid(k.list, 0, 0);
    if i < |k.list| {
      var d := k.list[i].context.directory;
      if Owned(k, d) {
        var j :| 0 <= j < |k.list| && k.list[j].Live() && k.list[j].context.directory == d;
        assert SlotOk(k, j);
        assert !SlotOk(Destroy(k, 0), j);
      } else {
        EndKeepsInv(k, i);
      }
    }
  }

  lemma SaveKeepsInv(k: Kernel, registers: nat)
    requires Inv(k)
    ensures Inv(Save(k, registers))
    ensures LiveSlots(Save(k, registers)) == LiveSlots(k) && UsedDirectories(Save(k, registers)) == UsedDirectories(k)
  {
    hide ProcessTable, BlankTable;
    var k' := Save(k, registers);
    assert LiveSlots(k') == LiveSlots(k);
    forall i | 0 <= i < |k.list| ensures SlotOk(k', i) { assert SlotOk(k, i); }
    forall i, j | 0 <= i < |k.list| && 0 <= j < |k.list| ensures Apart(k', i, j) { assert Apart(k, i, j); }
  }

  // ----- runs -----

  datatype Op = OpCreate(program: Program) | OpDestroy(pid: nat) | OpSave(registers: nat)

  /** Everything the system calls can be asked for, but for the destruction of number 0. */
  predicate Allowed(op: Op) { op.OpDestroy? ==> op.pid != 0 }

  ghost function Next(k: Kernel, op: Op): Kernel
    requires Inv(k)
  {
    match op
    case OpCreate(p) => CreateKeepsInv(k, p); Create(k, p)
    case OpDestroy(pid) => Destroy(k, pid)
    case OpSave(registers) => Save(k, registers)
  }

  /** One for every creation that took a directory and then failed to read its program. */
  function Lost(k: Kernel, op: Op): nat
  {
    if op.OpCreate? && CreateCode(k, op.program) == FAIL_FS_READ_FAILURE then 1 else 0
  }

  /** The operation ends a process. */
  predicate Ends(k: Kernel, op: Op)
  {
    op.OpDestroy? && FindPid(k.list, op.pid, 0) < |k.list|
  }

  lemma StepKeepsInv(k: Kernel, op: Op)
    requires Inv(k) && Allowed(op)
    ensures Inv(Next(k, op)) && k.nextPid <= Next(k, op).nextPid && k.active <= Next(k, op).active
    ensures Next(k, op).low == k.low && Next(k, op).freeFrames == k.freeFrames
    ensures |UsedDirectories(Next(k, op))| - |LiveSlots(Next(k, op))| ==
            |UsedDirectories(k)| - |LiveSlots(k)| + Lost(k, op)
    ensures Next(k, op).active - |LiveSlots(Next(k, op))| == k.active - |LiveSlots(k)| + if Ends(k, op) then 1 else 0
  {
    hide Inv, LiveSlots, UsedDirectories;
    match op
    case OpCreate(p) =>
      CreateKeepsInv(k, p);
      NewOnes(k, p);
    case OpDestroy(pid) =>
      DestroyKeepsInv(k, pid);
    case OpSave(registers) =>
      SaveKeepsInv(k, registers);
  }

  lemma NewOnes(k: Kernel, p: Program)
    requires Inv(k)
    ensures FindPid(k.list, 0, 0) !in LiveSlots(k) && FindUnused(k.used, 0) !in UsedDirectories(k)
  {
  }

  /** The kernel after the operations, and the directories lost on the way. */
  ghost function Run(k: Kernel, ops: seq<Op>): (Kernel, nat)
    requires Inv(k) && forall op :: op in ops ==> Allowed(op)
    decreases ops
  {
    if ops == [] then (k, 0)
    else
      StepKeepsInv(k, ops[0]);
      var rest := Run(Next(k, ops[0]), ops[1..]);
      (rest.0, Lost(k, ops[0]) + rest.1)
  }

  /**
   Over every run the invariant stays, and no directory is won or lost but for the failed reads:
   the used ones are those of the live processes and one for each failed read.
   */
  lemma {:induction false} RunKeepsInv(k: Kernel, ops: seq<Op>)
    requires Inv(k) && forall op :: op in ops ==> Allowed(op)
    ensures var end := Run(k, ops).0;
            Inv(end) && k.nextPid <= end.nextPid <= PROCESS_COUNT_MAX + 1 && k.active <= end.active &&
            end.low == k.low && end.freeFrames == k.freeFrames &&
            |UsedDirectories(end)| - |LiveSlots(end)| == |UsedDirectories(k)| - |LiveSlots(k)| + Run(k, ops).1
    decreases ops
  {
    if ops != [] {
      StepKeepsInv(k, ops[0]);
      RunKeepsInv(Next(k, ops[0]), ops[1..]);
    }
  }

  // ----- one step, field by field -----

  /** The answer of a creation, by the order of its checks; before the directory is taken nothing changes. */
  lemma CreateCodes(k: Kernel, p: Program)
    requires Inv(k)
    ensures CreateCode(k, p) ==
            if k.active >= 16 then 1
            else if p.entry >= 0xC000_0000 then 2
            else if !(p.size <= 0x1C0_0000 || (p.size > 0xFF40_0000 && p.size != 0xFF80_0000)) then 3
            else if forall j :: 0 <= j < 32 ==> k.used[j] then 3
            else if p.readCode != 0 then 4
            else 0
    ensures CreateCode(k, p) in {1, 2, 3} ==> Next(k, OpCreate(p)) == k
  {
    MemoryCheckIff(k, p.size);
    hide FitsInMemory, SlotOk, Apart, LiveSlots, BlankTable;
  }

  /** When the read fails, the first free directory is taken, with the kernel's two entries, and stays taken. */
  lemma FailedReadEffects(k: Kernel, p: Program) returns (d: nat)
    requires Inv(k) && CreateCode(k, p) == 4
    ensures var k' := Next(k, OpCreate(p));
            k'.list == k.list && k'.active == k.active && k'.nextPid == k.nextPid && k'.low == k.low &&
            k'.freeFrames == k.freeFrames && d < 32 && |k'.tables| == 32 &&
            !k.used[d] && (forall j :: 0 <= j < d ==> k.used[j]) && k'.used == k.used[d := true] &&
            (forall j :: 0 <= j < 32 && j != d ==> k'.tables[j] == k.tables[j]) &&
            k'.tables[d][0] == k.low && k'.tables[d][768] == PageEntry(true, true, false, true, 0) &&
            forall j :: 1 <= j < 1024 && j != 768 ==> k'.tables[d][j] == PageEntry(false, false, false, false, 0)
  {
    hide BlankTable, WithPages, WithKernel, PagesNeeded, LiveSlots, SlotOk, Apart, FitsInMemory, FindPid;
    d := FindUnused(k.used, 0);
    TakenTables(k);
  }

  /**
   A creation that succeeds takes the first free directory and the first dead slot, which gets the next
   number; the directory maps the pages on the frames from 0, and both counters go up.
   */
  lemma CreateEffects(k: Kernel, p: Program) returns (s: nat, d: nat)
    requires Inv(k) && CreateCode(k, p) == 0
    ensures var k' := Next(k, OpCreate(p));
            k'.active == k.active + 1 && k'.nextPid == k.nextPid + 1 && k'.low == k.low &&
            k'.freeFrames == k.freeFrames && s < 16 && |k'.list| == 16 &&
            k.list[s].pid == 0 && (forall j :: 0 <= j < s ==> k.list[j].pid != 0) &&
            k'.list == k.list[s := Pcb(k.nextPid, Ready, k'.list[s].pages, Context(0, d))] &&
            k'.list[s].pages <= 8 &&
            k'.list[s].pages ==
            if p.size <= 0x1C0_0000 then 1 + (p.size + 0x3F_FFFF) / 0x40_0000
            else if p.size > 0xFF80_0000 && p.size != 0xFFC0_0000 then 1 else 0
    ensures var k' := Next(k, OpCreate(p));
            d < 32 && |k'.tables| == 32 && !k.used[d] && (forall j :: 0 <= j < d ==> k.used[j]) &&
            k'.used == k.used[d := true] && (forall j :: 0 <= j < 32 && j != d ==> k'.tables[j] == k.tables[j])
    ensures var t, pages := Next(k, OpCreate(p)).tables[d], Next(k, OpCreate(p)).list[s].pages;
            t[0] == k.low &&
            (forall j :: 0 <= j < pages ==> t[768 + j] == PageEntry(true, true, true, true, j)) &&
            (pages == 0 ==> t[768] == PageEntry(true, true, false, true, 0)) &&
            forall j :: 1 <= j < 1024 && j != 768 && !(768 <= j < 768 + pages) ==>
              t[j] == PageEntry(false, false, false, false, 0)
  {
    hide BlankTable, WithPages, WithKernel, PagesNeeded, LiveSlots, SlotOk, Apart, ProcessTable, FindPid, FindUnused;
    s, d := FindPid(k.list, 0, 0), FindUnused(k.used, 0);
    CreateKeepsInv(k, p);
    StartedTables(k, p);
    CreateCodes(k, p);
    if p.size <= 7 * PAGE_FRAME_SIZE { PagesAreFrames(p.size); } else { PagesOfHugeSize(p.size); }
    TableEntries(k.low, PagesNeeded(p.size));
  }

  lemma TableEntries(low: PageEntry, pages: nat)
    requires pages <= 8
    ensures var t := ProcessTable(low, pages);
            t[0] == low &&
            (forall j :: 0 <= j < pages ==> t[768 + j] == PageEntry(true, true, true, true, j)) &&
            (pages == 0 ==> t[768] == PageEntry(true, true, false, true, 0)) &&
            forall j :: 1 <= j < 1024 && j != 768 && !(768 <= j < 768 + pages) ==>
              t[j] == PageEntry(false, false, false, false, 0)
  {
  }

  lemma StartedTables(k: Kernel, p: Program)
    requires Inv(k) && CreateCode(k, p) == SUCCESS
    ensures var d, k' := FindUnused(k.used, 0), Next(k, OpCreate(p));
            d < |k.tables| && k'.tables == k.tables[d := ProcessTable(k.low, PagesNeeded(p.size))]
  {
    hide PagesNeeded, WithPages, WithKernel, BlankTable, ProcessTable, LiveSlots, FindPid, FindUnused, SlotOk, Apart;
    CreateKeepsInv(k, p);
    PagesMakeTable(k.low, PagesNeeded(p.size));
  }

  lemma TakenTables(k: Kernel)
    requires Inv(k) && FindUnused(k.used, 0) < |k.used|
    ensures var d, t := FindUnused(k.used, 0), TakeDirectory(k).tables;
            d < |k.tables| == |t| && (forall j :: 0 <= j < |t| && j != d ==> t[j] == k.tables[j]) &&
            t[d] == ProcessTable(k.low, 0)
  {
    hide BlankTable, ProcessTable, WithKernel, LiveSlots, FindUnused, SlotOk, Apart;
    PagesMakeTable(k.low, 0);
  }

  /**
   What a destruction does: the first slot with the number loses it and is terminated, its directory is
   free and blank, and nothing else changes. The contents of its context stay behind.
   */
  lemma DestroyEffects(k: Kernel, pid: nat) returns (i: nat)
    requires Inv(k)
    ensures var k' := Destroy(k, pid);
            k'.active == k.active && k'.nextPid == k.nextPid && k'.low == k.low && k'.freeFrames == k.freeFrames
    ensures (forall j :: 0 <= j < 16 ==> k.list[j].pid != pid) ==> Destroy(k, pid) == k
    ensures (exists j :: 0 <= j < 16 && k.list[j].pid == pid) ==>
              var k' := Destroy(k, pid);
              i < 16 && k.list[i].pid == pid && (forall j :: 0 <= j < i ==> k.list[j].pid != pid) &&
              k'.list == k.list[i := Pcb(0, Terminated, k.list[i].pages, k.list[i].context)] &&
              var d := k.list[i].context.directory;
              if d < 0 then k'.used == k.used && k'.tables == k.tables
              else
                d < 32 && k'.used == k.used[d := false] && |k'.tables| == 32 &&
                (forall j :: 0 <= j < 32 && j != d ==> k'.tables[j] == k.tables[j]) &&
                forall j :: 0 <= j < 1024 ==> k'.tables[d][j] == PageEntry(false, false, false, false, 0)
  {
    i := FindPid(k.list, pid, 0);
    if i < |k.list| { assert SlotOk(k, i); }
    hide SlotOk, Apart, LiveSlots, ProcessTable;
  }

  // ----- saved registers -----

  /** The step writes the context of slot i: a tick that names it, or a creation that fills it. */
  ghost predicate Touches(k: Kernel, op: Op, i: nat)
    requires Sized(k) && i < 16
  {
    (op.OpSave? && k.active == i + 1) ||
    (op.OpCreate? && CreateCode(k, op.program) == 0 && k.list[i].pid == 0 &&
     forall j :: 0 <= j < i ==> k.list[j].pid != 0)
  }

  ghost predicate LeftAlone(k: Kernel, ops: seq<Op>, i: nat)
    requires Inv(k) && i < 16 && forall op :: op in ops ==> Allowed(op)
    decreases ops
  {
    ops == [] ||
    (!Touches(k, ops[0], i) && (StepKeepsInv(k, ops[0]); LeftAlone(Next(k, ops[0]), ops[1..], i)))
  }

  lemma {:induction false} ContextStays(k: Kernel, ops: seq<Op>, i: nat)
    requires Inv(k) && i < 16 && (forall op :: op in ops ==> Allowed(op)) && LeftAlone(k, ops, i)
    ensures |Run(k, ops).0.list| == |k.list| == 16 && Run(k, ops).0.list[i].context == k.list[i].context
    decreases ops
  {
    hide Inv, Next;
    InvIsSized(k);
    if ops != [] {
      StepKeepsInv(k, ops[0]);
      StepKeepsContext(k, ops[0], i);
      ContextStays(Next(k, ops[0]), ops[1..], i);
    }
  }

  lemma InvIsSized(k: Kernel)
    requires Inv(k)
    ensures Sized(k)
  {
  }

  lemma StepKeepsContext(k: Kernel, op: Op, i: nat)
    requires Inv(k) && i < 16 && Allowed(op) && !Touches(k, op, i)
    ensures |Next(k, op).list| == 16 && Next(k, op).list[i].context == k.list[i].context
  {
    hide SlotOk, Apart, LiveSlots, BlankTable, WithPages, WithKernel, PagesNeeded;
    if op.OpCreate? { CreateKeepsInv(k, op.program); }
  }

  /**
   What a tick saves is there until the slot is named by another tick or filled by a creation: over
   every run in between, whatever ends in it, the slot has these registers and its directory.
   */
  lemma SavedRegistersStay(k: Kernel, registers: nat, ops: seq<Op>)
    requires Inv(k) && 0 < k.active && forall op :: op in ops ==> Allowed(op)
    ensures Inv(Next(k, OpSave(registers))) && k.active <= 16 &&
            forall op :: op in [OpSave(registers)] + ops ==> Allowed(op)
    ensures LeftAlone(Next(k, OpSave(registers)), ops, k.active - 1) ==>
              var end := Run(k, [OpSave(registers)] + ops).0;
              |end.list| == |k.list| == 16 && end.list[k.active - 1].context.registers == registers &&
              end.list[k.active - 1].context.directory == k.list[k.active - 1].context.directory
  {
    StepKeepsInv(k, OpSave(registers));
    ActiveInRange(k);
    RunOne(k, OpSave(registers), ops);
    hide Inv, Run, LeftAlone;
    InvIsSized(k);
    if LeftAlone(Next(k, OpSave(registers)), ops, k.active - 1) {
      ContextStays(Next(k, OpSave(registers)), ops, k.active - 1);
    }
  }

  // ----- numbers -----

  function NumberGiven(k: Kernel, op: Op): seq<nat>
  {
    if op.OpCreate? && CreateCode(k, op.program) == SUCCESS then [k.nextPid] else []
  }

  /** The numbers that a run hands out, in order. */
  ghost function Given(k: Kernel, ops: seq<Op>): seq<nat>
    requires Inv(k) && forall op :: op in ops ==> Allowed(op)
    decreases ops
  {
    if ops == [] then []
    else
      StepKeepsInv(k, ops[0]);
      NumberGiven(k, ops[0]) + Given(Next(k, ops[0]), ops[1..])
  }

  predicate HasNumber(k: Kernel, pid: nat)
  {
    exists i :: 0 <= i < |k.list| && k.list[i].Live() && k.list[i].pid == pid
  }

  /** Numbers never repeat: a run hands out the ones from the counter on, one by one, and all others are old. */
  lemma {:induction false} NumbersNeverRepeat(k: Kernel, ops: seq<Op>)
    requires Inv(k) && forall op :: op in ops ==> Allowed(op)
    ensures forall i :: 0 <= i < |Given(k, ops)| ==> Given(k, ops)[i] == k.nextPid + i
    ensures |Given(k, ops)| == Run(k, ops).0.nextPid - k.nextPid
    ensures forall pid: nat :: HasNumber(Run(k, ops).0, pid) ==> pid in Given(k, ops) || HasNumber(k, pid)
    ensures forall pid: nat :: HasNumber(k, pid) ==> pid < k.nextPid
    decreases ops
  {
    hide Inv;
    OldNumbers(k);
    if ops != [] {
      StepKeepsInv(k, ops[0]);
      StepNumbers(k, ops[0]);
      hide HasNumber, Next, NumberGiven;
      NumbersNeverRepeat(Next(k, ops[0]), ops[1..]);
    }
  }

  lemma OldNumbers(k: Kernel)
    requires Inv(k)
    ensures forall pid: nat :: HasNumber(k, pid) ==> pid < k.nextPid
  {
    forall i | 0 <= i < |k.list| && k.list[i].Live() ensures k.list[i].pid < k.nextPid { assert SlotOk(k, i); }
  }

  lemma StepNumbers(k: Kernel, op: Op)
    requires Inv(k)
    ensures Next(k, op).nextPid == k.nextPid + |NumberGiven(k, op)| && |NumberGiven(k, op)| <= 1
    ensures forall pid: nat :: HasNumber(Next(k, op), pid) ==> pid in NumberGiven(k, op) || HasNumber(k, pid)
    ensures forall pid :: pid in NumberGiven(k, op) ==> pid == k.nextPid
  {
    hide SlotOk, Apart, BlankTable, LiveSlots, PagesNeeded, WithPages, WithKernel, FindPid, FindUnused;
    if op.OpCreate? {
      CreateKeepsInv(k, op.program);
    }
    forall pid: nat | HasNumber(Next(k, op), pid) ensures pid in NumberGiven(k, op) || HasNumber(k, pid)
    {
      var k' := Next(k, op);
      var i :| 0 <= i < |k'.list| && k'.list[i].Live() && k'.list[i].pid == pid;
      assert k'.list[i].pid == k.list[i].pid || pid in NumberGiven(k, op);
    }
  }

  // ----- what the scheduler can pick -----

  /** Every slot that the scheduler's index can name belongs to a live process. */
  predicate Compact(k: Kernel)
  {
    forall i :: 0 <= i < k.active && i < |k.list| ==> k.list[i].Live()
  }

  lemma CompactIsFull(k: Kernel)
    requires Inv(k)
    ensures Compact(k) ==> LiveSlots(k) == Below(k.active) && |LiveSlots(k)| == k.active
  {
    hide SlotOk, Apart, BlankTable;
    if Compact(k) {
      SubsetIsAll(Below(k.active), LiveSlots(k));
    }
  }

  lemma SubsetIsAll(a: set<nat>, b: set<nat>)
    requires a <= b && |b| <= |a|
    ensures a == b
  {
    assert |b| == |a| + |b - a|;
  }

  /** Only the end of a process breaks it: the count stays, and the slot below the count is dead. */
  lemma StepCompact(k: Kernel, op: Op)
    requires Inv(k) && Allowed(op) && Compact(k)
    ensures Compact(Next(k, op)) <==> !Ends(k, op)
  {
    hide SlotOk, Apart, BlankTable, WithPages, WithKernel, PagesNeeded, FindUnused, Below;
    CompactIsFull(k);
    StepKeepsInv(k, op);
    CompactIsFull(Next(k, op));
    if op.OpCreate? {
      CreateKeepsInv(k, op.program);
      assert FindPid(k.list, 0, 0) >= k.active;
      assert k.active < |k.list| ==> k.active !in LiveSlots(k);
    }
  }

  ghost predicate NoneEnds(k: Kernel, ops: seq<Op>)
    requires Inv(k) && forall op :: op in ops ==> Allowed(op)
    decreases ops
  {
    ops == [] || (!Ends(k, ops[0]) && (StepKeepsInv(k, ops[0]); NoneEnds(Next(k, ops[0]), ops[1..])))
  }

  /**
   The scheduler walks over live processes exactly until the first one ends: from then on and for
   good some slot below the count is dead, since the count never goes down.
   */
  lemma {:induction false} RunCompactIff(k: Kernel, ops: seq<Op>)
    requires Inv(k) && Compact(k) && forall op :: op in ops ==> Allowed(op)
    ensures Compact(Run(k, ops).0) <==> NoneEnds(k, ops)
    decreases ops
  {
    hide Inv, Compact, Next, Ends;
    if ops != [] {
      StepKeepsInv(k, ops[0]);
      StepCompact(k, ops[0]);
      if Ends(k, ops[0]) {
        CompactIsFull(k);
        GapStays(Next(k, ops[0]), ops[1..]);
        CompactIsFull(Run(k, ops).0);
      } else {
        RunCompactIff(Next(k, ops[0]), ops[1..]);
      }
    }
  }

  lemma {:induction false} GapStays(k: Kernel, ops: seq<Op>)
    requires Inv(k) && forall op :: op in ops ==> Allowed(op)
    ensures Inv(Run(k, ops).0)
    ensures Run(k, ops).0.active - |LiveSlots(Run(k, ops).0)| >= k.active - |LiveSlots(k)|
    decreases ops
  {
    hide Inv, Next;
    if ops != [] {
      StepKeepsInv(k, ops[0]);
      GapStays(Next(k, ops[0]), ops[1..]);
    }
  }

  // ----- boot -----

  /** Before the first creation the kernel maps its first page for users. */
  function FirstMapped(): Kernel { MapFirstPage(Zeroed()) }

  /** The kernel's main: the shell is created on the zeroed list, then the scheduler sets the count to 1. */
  function Booted(p: Program): Kernel
  {
    FirstPageIsFine();
    Create(FirstMapped(), p).(active := 1)
  }

  lemma FirstPageIsFine()
    ensures Inv(FirstMapped()) && LiveSlots(FirstMapped()) == {} && UsedDirectories(FirstMapped()) == {}
    ensures FirstMapped().low == UserPage(0) && FirstMapped().freeFrames == PAGE_FRAME_MAX_COUNT - 1
    ensures FirstMapped().active == 0 && FirstMapped().nextPid == 1 && |FirstMapped().list| == 16
    ensures forall i :: 0 <= i < 16 ==> FirstMapped().list[i].pid == 0 && FirstMapped().list[i].context.directory == -1
    ensures FirstMapped().low == PageEntry(true, true, true, true, 0) && FirstMapped().freeFrames == 31
  {
    hide BlankTable, ProcessTable;
    ZeroedIsFine();
    assert LiveSlots(FirstMapped()) == {};
    forall i | 0 <= i < |FirstMapped().list| ensures SlotOk(FirstMapped(), i) { assert SlotOk(Zeroed(), i); }
    assert UsedDirectories(FirstMapped()) == {};
  }

  lemma BootEstablishesInv(p: Program)
    ensures Inv(Booted(p)) && |LiveSlots(Booted(p))| <= 1
    ensures Booted(p).low == UserPage(0) && Booted(p).freeFrames == PAGE_FRAME_MAX_COUNT - 1
  {
    hide PagesNeeded, WithPages, ProcessTable, BlankTable, WithKernel;
    FirstPageIsFine();
    CreateKeepsInv(FirstMapped(), p);
    var k, k' := Create(FirstMapped(), p), Booted(p);
    assert LiveSlots(k') == LiveSlots(k);
    forall i | 0 <= i < |k.list| ensures SlotOk(k', i) { assert SlotOk(k, i); }
    forall i, j | 0 <= i < |k.list| && 0 <= j < |k.list| ensures Apart(k', i, j) { assert Apart(k, i, j); }
  }

  lemma BootCompactIff(p: Program)
    ensures Compact(Booted(p)) <==> CreateCode(FirstMapped(), p) == SUCCESS
  {
    hide Inv, WithPages, BlankTable, WithKernel, PagesNeeded, FindUnused, CreateCode;
    FirstPageIsFine();
    CreateKeepsInv(FirstMapped(), p);
    assert 0 !in LiveSlots(FirstMapped());
    var k := Create(FirstMapped(), p);
    assert Compact(Booted(p)) <==> 0 in LiveSlots(k);
  }

  /** From boot on: used directories are those of live processes and of failed reads. */
  lemma BootedRun(p: Program, ops: seq<Op>)
    requires forall op :: op in ops ==> Allowed(op)
    ensures Inv(Booted(p))
    ensures var end := Run(Booted(p), ops).0;
            Inv(end) && end.low == UserPage(0) &&
            |UsedDirectories(end)| == |LiveSlots(end)| + Lost(FirstMapped(), OpCreate(p)) + Run(Booted(p), ops).1
  {
    hide Inv, Create, CreateCode, LiveSlots;
    BootEstablishesInv(p);
    RunKeepsInv(Booted(p), ops);
    FirstPageIsFine();
    StepKeepsInv(FirstMapped(), OpCreate(p));
    SameSlots(Create(FirstMapped(), p));
  }

  lemma SameSlots(k: Kernel)
    ensures LiveSlots(k.(active := 1)) == LiveSlots(k) && UsedDirectories(k.(active := 1)) == UsedDirectories(k)
  {
  }

  /**
   Destroying the process just created gives back its directory, blank, and its slot; the count and
   the number are gone for good, and so is one of the sixteen chances to create a process.
   */
  lemma CreateThenDestroy(k: Kernel, p: Program)
    requires Inv(k) && CreateCode(k, p) == SUCCESS
    ensures FindPid(k.list, 0, 0) < |k.list|
    ensures var k' := Destroy(Create(k, p), k.nextPid);
            k'.used == k.used && k'.tables == k.tables && LiveSlots(k') == LiveSlots(k) &&
            (forall i :: i in LiveSlots(k) ==> k'.list[i] == k.list[i]) &&
            k'.active == k.active + 1 && k'.nextPid == k.nextPid + 1
  {
    hide WithPages, ProcessTable, BlankTable, WithKernel, PagesNeeded, FindPid, FindUnused;
    SlotExists(k);
    CreateKeepsInv(k, p);
    var s, k1 := FindPid(k.list, 0, 0), Create(k, p);
    forall i | 0 <= i < |k.list| ensures k1.list[i].pid == k.nextPid <==> i == s { assert SlotOk(k, i); }
    assert FindPid(k1.list, k.nextPid, 0) == s;
  }

  // ----- destroying number 0 -----

  const SHELL := Program(2048, 0, 0)
  const UNREADABLE := Program(2048, 0, 1)

  /** Two more processes start and end, a failed read takes the first free directory, one process starts. */
  const REUSE: seq<Op> :=
    [OpCreate(SHELL), OpCreate(SHELL), OpDestroy(2), OpDestroy(3), OpCreate(UNREADABLE), OpCreate(SHELL)]

  /** Numbers, directories and flags at the front of the lists. */
  ghost predicate Looks(k: Kernel, active: nat, nextPid: nat, pids: (nat, nat, nat), dirs: (int, int, int),
                        used: (bool, bool, bool))
  {
    Inv(k) && Sized(k) && k.active == active && k.nextPid == nextPid && !k.used[3] &&
    k.list[0].pid == pids.0 && k.list[1].pid == pids.1 && k.list[2].pid == pids.2 &&
    k.list[0].context.directory == dirs.0 && k.list[1].context.directory == dirs.1 &&
    k.list[2].context.directory == dirs.2 &&
    k.used[0] == used.0 && k.used[1] == used.1 && k.used[2] == used.2
  }

  lemma CreateAt(k: Kernel, p: Program, s: nat, d: nat)
    requires Inv(k) && k.active < PROCESS_COUNT_MAX && (p == SHELL || p == UNREADABLE)
    requires s < 3 && k.list[s].pid == 0 && forall j :: 0 <= j < s ==> k.list[j].pid != 0
    requires d < 3 && !k.used[d] && forall j :: 0 <= j < d ==> k.used[j]
    ensures Inv(Create(k, p)) && Sized(Create(k, p)) && Create(k, p).used == k.used[d := true]
    ensures p == UNREADABLE ==>
              Create(k, p).list == k.list && Create(k, p).active == k.active && Create(k, p).nextPid == k.nextPid
    ensures p == SHELL ==>
              Create(k, p).list == k.list[s := Pcb(k.nextPid, Ready, 2, Context(INITIAL_REGISTERS, d))] &&
              Create(k, p).active == k.active + 1 && Create(k, p).nextPid == k.nextPid + 1
  {
    hide FindPid, FindUnused, WithPages, WithKernel, ProcessTable, BlankTable, LiveSlots;
    assert PagesNeeded(2048) == 2;
    CreateKeepsInv(k, p);
    assert FindUnused(k.used, 0) == d && FindPid(k.list, 0, 0) == s;
  }

  lemma DestroyAt(k: Kernel, s: nat)
    requires Inv(k) && s < 3 && k.list[s].Live()
    ensures var d, k' := k.list[s].context.directory, Destroy(k, k.list[s].pid);
            Inv(k') && Sized(k') && 0 <= d < |k.used| && k'.used == k.used[d := false] &&
            k'.list == k.list[s := Ended(k.list[s])] &&
            k'.active == k.active && k'.nextPid == k.nextPid
  {
    hide FindPid, WithPages, WithKernel, ProcessTable, BlankTable, LiveSlots;
    var pid := k.list[s].pid;
    DestroyKeepsInv(k, pid);
    assert SlotOk(k, s);
    var i := FindPid(k.list, pid, 0);
    assert i < |k.list| && Apart(k, i, s);
  }

  lemma RunOne(k: Kernel, op: Op, rest: seq<Op>)
    requires Inv(k) && Allowed(op) && forall o :: o in rest ==> Allowed(o)
    ensures Inv(Next(k, op)) && forall o :: o in [op] + rest ==> Allowed(o)
    ensures Run(k, [op] + rest).0 == Run(Next(k, op), rest).0
  {
    hide Inv, Next;
    StepKeepsInv(k, op);
    assert ([op] + rest)[1..] == rest;
  }

  lemma BootedLooks()
    ensures Looks(Booted(SHELL), 1, 2, (1, 0, 0), (0, -1, -1), (true, false, false))
  {
    hide Inv;
    BootEstablishesInv(SHELL);
    FirstPageIsFine();
    CreateAt(FirstMapped(), SHELL, 0, 0);
  }

  lemma ReuseSteps(k0: Kernel)
    requires Looks(k0, 1, 2, (1, 0, 0), (0, -1, -1), (true, false, false))
    ensures Inv(k0) && forall op :: op in REUSE ==> Allowed(op)
    ensures Looks(Run(k0, REUSE).0, 4, 5, (1, 4, 0), (0, 2, 2), (true, true, true))
  {
    hide Inv, Create, Destroy, Run;
    CreateAt(k0, SHELL, 1, 1);
    var k1 := Create(k0, SHELL);
    assert Looks(k1, 2, 3, (1, 2, 0), (0, 1, -1), (true, true, false));
    CreateAt(k1, SHELL, 2, 2);
    var k2 := Create(k1, SHELL);
    assert Looks(k2, 3, 4, (1, 2, 3), (0, 1, 2), (true, true, true));
    DestroyAt(k2, 1);
    var k3 := Destroy(k2, 2);
    assert Looks(k3, 3, 4, (1, 0, 3), (0, 1, 2), (true, false, true));
    DestroyAt(k3, 2);
    var k4 := Destroy(k3, 3);
    assert Looks(k4, 3, 4, (1, 0, 0), (0, 1, 2), (true, false, false));
    CreateAt(k4, UNREADABLE, 1, 1);
    var k5 := Create(k4, UNREADABLE);
    assert Looks(k5, 3, 4, (1, 0, 0), (0, 1, 2), (true, true, false));
    CreateAt(k5, SHELL, 1, 2);
    var k6 := Create(k5, SHELL);
    var ops5 := [OpCreate(SHELL)] + [];
    var ops4 := [OpCreate(UNREADABLE)] + ops5;
    var ops3 := [OpDestroy(3)] + ops4;
    var ops2 := [OpDestroy(2)] + ops3;
    var ops1 := [OpCreate(SHELL)] + ops2;
    RunNone(k6);
    RunOne(k5, OpCreate(SHELL), []);
    RunOne(k4, OpCreate(UNREADABLE), ops5);
    RunOne(k3, OpDestroy(3), ops4);
    RunOne(k2, OpDestroy(2), ops3);
    RunOne(k1, OpCreate(SHELL), ops2);
    RunOne(k0, OpCreate(SHELL), ops1);
    assert REUSE == [OpCreate(SHELL)] + ops1;
  }

  lemma RunNone(k: Kernel)
    requires Inv(k)
    ensures Run(k, []).0 == k
  {
  }

  /** So number 0 has to be kept out: after this run its destruction frees the directory of a live process. */
  lemma DestroyZeroBreaks()
    ensures Inv(Booted(SHELL)) && forall op :: op in REUSE ==> Allowed(op)
    ensures var k := Run(Booted(SHELL), REUSE).0;
            Inv(k) && Sized(k) && k.list[1].Live() && k.list[1].context.directory == 2 && k.used[2] &&
            Destroy(k, 0).list[1] == k.list[1] && !Destroy(k, 0).used[2]
  {
    hide Inv, Run, Booted, LiveSlots;
    BootedLooks();
    ReuseSteps(Booted(SHELL));
    var k := Run(Booted(SHELL), REUSE).0;
    assert FindPid(k.list, 0, 0) == 2;
  }

  // ----- the kernel's own state -----

  class ProcessManager {
    const list: array<Pcb>
    const used: array<bool>
    const tables: array<PageTable>
    var active: nat
    var nextPid: nat
    var low: PageEntry
    var freeFrames: nat
    var current: int

    ghost predicate Shaped()
    {
      list.Length == PROCESS_COUNT_MAX && used.Length == tables.Length == PAGING_DIRECTORY_TABLE_MAX_COUNT
    }

    ghost function State(): Kernel
      reads this, list, used, tables
    {
      Kernel(list[..], active, nextPid, used[..], tables[..], low, freeFrames)
    }

    ghost predicate Valid()
      reads this, list, used, tables
    {
      Shaped() && Inv(State()) && -1 <= current < PROCESS_COUNT_MAX
    }

    constructor ()
      ensures Valid() && State() == Zeroed() && current == -1
      ensures fresh(list) && fresh(used) && fresh(tables)
    {
      list := new Pcb[PROCESS_COUNT_MAX](_ => ZEROED);
      used := new bool[PAGING_DIRECTORY_TABLE_MAX_COUNT](_ => false);
      tables := new PageTable[PAGING_DIRECTORY_TABLE_MAX_COUNT](_ => BlankTable());
      active, nextPid, current := 0, 1, -1;
      low, freeFrames := KERNEL, PAGE_FRAME_MAX_COUNT;
      new;
      hide BlankTable;
      ZeroedIsFine();
      assert list[..] == Zeroed().list && used[..] == Zeroed().used && tables[..] == Zeroed().tables;
    }

    /** process_list_get_inactive_index, and process_list_get_pcb_by_pid as an index. */
    method IndexOf(pid: nat) returns (i: int)
      requires Shaped()
      ensures var k := FindPid(list[..], pid, 0); i == if k == list.Length then -1 else k
    {
      hide *;
      i := 0;
      while i < list.Length
        invariant 0 <= i <= list.Length
        invariant forall j :: 0 <= j < i ==> list[j].pid != pid
      {
        if list[i].pid == pid {
          return;
        }
        i := i + 1;
      }
      i := -1;
    }

    method GenerateNewPid() returns (pid: nat)
      modifies this`nextPid
      ensures pid == old(nextPid) && nextPid == pid + 1
    {
      pid := nextPid;
      nextPid := nextPid + 1;
    }

    /** paging_create_new_page_directory; -1 is NULL. */
    method CreateNewPageDirectory() returns (d: int)
      requires Shaped()
      modifies used, tables
      ensures var free := FindUnused(old(used[..]), 0);
              if free == used.Length then d == NO_DIRECTORY && State() == old(State())
              else d == free && State() == TakeDirectory(old(State()))
    {
      for i := 0 to used.Length
        invariant forall j :: 0 <= j < i ==> used[j]
        invariant used[..] == old(used[..]) && tables[..] == old(tables[..])
      {
        if !used[i] {
          assert FindUnused(used[..], 0) == i;
          used[i] := true;
          ghost var t := tables[i];
          tables[i] := tables[i][0 := low];
          tables[i] := tables[i][HIGHER_HALF := KERNEL];
          assert tables[i] == WithKernel(t, low);
          return i;
        }
      }
      return NO_DIRECTORY;
    }

    /** paging_free_page_directory. */
    method FreePageDirectory(directory: int) returns (ok: bool)
      requires Shaped()
      modifies used, tables
      ensures State() == FreeDirectory(old(State()), directory)
      ensures ok <==> 0 <= directory < used.Length
    {
      for i := 0 to used.Length
        invariant used[..] == old(used[..]) && tables[..] == old(tables[..])
        invariant directory < 0 || directory >= i
      {
        if i == directory {
          used[i] := false;
          ClearTable(i);
          return true;
        }
      }
      return false;
    }

    method ClearTable(i: nat)
      requires i < tables.Length
      modifies tables
      ensures tables[..] == old(tables[..])[i := BlankTable()]
    {
      for j := 0 to PAGE_ENTRY_COUNT
        invariant forall n :: 0 <= n < j ==> tables[i][n] == BLANK
        invariant forall n :: 0 <= n < tables.Length && n != i ==> tables[n] == old(tables[n])
      {
        tables[i] := tables[i][j := BLANK];
      }
      assert tables[i] == BlankTable();
    }

    /** The loop that enters the program's pages. */
    method MapPages(d: nat, pages: nat)
      requires d < tables.Length && pages <= PROCESS_PAGE_FRAME_COUNT_MAX
      modifies tables
      ensures tables[..] == old(tables[..])[d := WithPages(old(tables[d]), pages)]
    {
      for i := 0 to pages
        invariant tables[..] == old(tables[..])[d := WithPages(old(tables[d]), i)]
      {
        tables[d] := tables[d][HIGHER_HALF + i := UserPage(i)];
      }
    }

    /** process_create_user_process. That the slot it asks for is there follows from the invariant. */
    method CreateUserProcess(p: Program) returns (code: int)
      requires Valid()
      modifies this`active, this`nextPid, list, used, tables
      ensures Valid()
      ensures code == old(CreateCode(State(), p))
      ensures Inv(old(State())) && State() == Next(old(State()), OpCreate(p))
    {
      hide Inv, WithKernel, WithPages, FindPid, FindUnused, PagesNeeded, LiveSlots, UsedDirectories;
      ghost var k := State();
      CreateKeepsInv(k, p);
      if active >= PROCESS_COUNT_MAX {
        return FAIL_MAX_PROCESS_EXCEEDED;
      }
      if p.entry >= KERNEL_VIRTUAL_ADDRESS_BASE {
        return FAIL_INVALID_ENTRYPOINT;
      }
      var pages := PagesNeeded(p.size);
      if pages > freeFrames || pages > PROCESS_PAGE_FRAME_COUNT_MAX {
        return FAIL_NOT_ENOUGH_MEMORY;
      }
      SlotExists(k);
      var index := IndexOf(0);
      var d := CreateNewPageDirectory();
      if d == NO_DIRECTORY {
        return FAIL_NOT_ENOUGH_MEMORY;
      }
      if p.readCode != 0 {
        return FAIL_FS_READ_FAILURE;
      }
      MapPages(d, pages);
      var pid := GenerateNewPid();
      list[index] := Pcb(pid, Ready, pages, Context(INITIAL_REGISTERS, d));
      active := active + 1;
      return SUCCESS;
    }

    /** process_destroy. */
    method DestroyProcess(pid: nat) returns (ok: bool)
      requires Valid()
      modifies list, used, tables
      ensures State() == Destroy(old(State()), pid)
      ensures ok <==> exists i :: 0 <= i < list.Length && old(list[i].pid) == pid
      ensures pid != 0 ==> Valid()
    {
      hide Inv, FindPid, BlankTable, LiveSlots, UsedDirectories;
      ghost var k := State();
      if pid != 0 {
        DestroyKeepsInv(k, pid);
      }
      var i := IndexOf(pid);
      if i == -1 {
        return false;
      }
      var released := FreePageDirectory(list[i].context.directory);
      list[i] := Ended(list[i]);
      return true;
    }

    /** scheduler_init, as the kernel calls it: once, after the first process has been created. */
    method SchedulerInit()
      requires Valid() && |LiveSlots(State())| <= 1 && nextPid <= 2
      modifies this`active
      ensures Valid() && State() == old(State()).(active := 1)
    {
      hide LiveSlots;
      ghost var k := State();
      active := 1;
      SameSlots(k);
      forall i | 0 <= i < |k.list| ensures SlotOk(State(), i) { assert SlotOk(k, i); }
      forall i, j | 0 <= i < |k.list| && 0 <= j < |k.list| ensures Apart(State(), i, j) { assert Apart(k, i, j); }
    }

    /** The timer interrupt: the context it builds keeps the page directory of the slot it is saved to. */
    method SaveContext(registers: nat)
      requires Valid()
      modifies list
      ensures Valid() && State() == Save(old(State()), registers)
      ensures 0 < active ==>
                active - 1 < list.Length && list[active - 1].context.registers == registers &&
                list[active - 1].context.directory == old(list[active - 1].context.directory) &&
                list[active - 1].pid == old(list[active - 1].pid) &&
                list[active - 1].state == old(list[active - 1].state) &&
                list[active - 1].pages == old(list[active - 1].pages)
      ensures forall i :: 0 <= i < list.Length && i != active - 1 ==> list[i] == old(list[i])
    {
      hide Inv, LiveSlots;
      ghost var k := State();
      SaveKeepsInv(k, registers);
      ActiveInRange(k);
      if active > 0 {
        var i := active - 1;
        list[i] := list[i].(context := Context(registers, list[i].context.directory));
      }
    }

    /**
     scheduler_switch_to_next_process without the switch itself. What it picks is a live process, on
     a directory in use that maps its pages, as long as none has ended; afterwards it need not be.
     */
    method SwitchToNext() returns (p: Pcb)
      requires Valid() && active > 0
      modifies this`current
      ensures Valid() && current == (old(current) + 1) % active && 0 <= current < active && p == list[current]
      ensures Compact(State()) ==>
                p.Live() && 0 <= p.context.directory < used.Length && used[p.context.directory] &&
                tables[p.context.directory] == ProcessTable(low, p.pages)
    {
      current := (current + 1) % active;
      p := list[current];
      assert SlotOk(State(), current);
    }

    /** paging_allocate_user_page_frame, as the kernel's main calls it. */
    method MapKernelPage() returns (ok: bool)
      requires Valid() && freeFrames == PAGE_FRAME_MAX_COUNT && State() == Zeroed()
      modifies this`low, this`freeFrames
      ensures ok && Valid() && State() == FirstMapped()
    {
      hide Inv;
      FirstPageIsFine();
      var physical := freeFrames;
      if physical > freeFrames {
        return false;
      }
      low := UserPage(physical / PAGE_FRAME_SIZE % PAGE_ENTRY_COUNT);
      freeFrames := freeFrames - 1;
      return true;
    }

    /** The end of the kernel's main. Whatever the creation answers, slot 0 is switched to. */
    method BootShell(p: Program) returns (code: int, first: Pcb)
      requires Valid() && State() == Zeroed() && current == -1
      modifies this, list, used, tables
      ensures Valid() && State() == Booted(p) && current == 0 && first == list[0]
      ensures code == CreateCode(FirstMapped(), p)
      ensures first.Live() <==> code == SUCCESS
    {
      hide Inv, CreateCode, LiveSlots;
      var ok := MapKernelPage();
      FirstPageIsFine();
      code := CreateUserProcess(p);
      FewLive(p);
      SchedulerInit();
      first := SwitchToNext();
      BootCompactIff(p);
    }
  }

  lemma FewLive(p: Program)
    ensures Inv(FirstMapped()) && |LiveSlots(Next(FirstMapped(), OpCreate(p)))| <= 1
    ensures Next(FirstMapped(), OpCreate(p)).nextPid <= 2
  {
    hide Inv, WithPages, BlankTable, WithKernel, PagesNeeded, FindUnused, FindPid;
    FirstPageIsFine();
    CreateKeepsInv(FirstMapped(), p);
  }

  lemma ActiveInRange(k: Kernel)
    requires Inv(k)
    ensures k.active <= |k.list|
  {
  }
}
