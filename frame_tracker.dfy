/**
 * The owned-frame layer: `FrameTracker` wraps one allocated page number and
 * releases it when dropped; the free functions reach the allocator through
 * the global init-once cell `FRAME_ALLOCATOR`, which is passed in here as
 * `global`.  The allocator behind it is the LoongArch stack allocator.
 */
module FrameTracking {
  import opened Wrappers
  import opened CommonAddr
  import opened OnceCells
  import opened FrameAllocator

  datatype FrameTracker = FrameTracker(ppn: PhysPageNum)

  /** The trackers for a list of page numbers, in the same order. */
  function Trackers(ppns: seq<PhysPageNum>): (ts: seq<FrameTracker>)
    ensures |ts| == |ppns| && forall i :: 0 <= i < |ppns| ==> ts[i].ppn == ppns[i]
  {
    seq(|ppns|, i requires 0 <= i < |ppns| => FrameTracker(ppns[i]))
  }

  /** The allocator objects behind the global cell: none before `init`. */
  function Behind(global: OnceCell<StackFrameAllocator>): set<StackFrameAllocator>
    reads global
  {
    if global.value.Some? then {global.value.value} else {}
  }

  /** `init_frame_allocator`: `FRAME_ALLOCATOR.init`, which panics on a second
      call and keeps the first allocator. */
  method InitFrameAllocator(global: OnceCell<StackFrameAllocator>, allocator: StackFrameAllocator)
    returns (panicked: bool)
    modifies global
    ensures panicked <==> old(global.value).Some?
    ensures global.value == if panicked then old(global.value) else Some(allocator)
  {
    panicked := global.Init(allocator);
  }

  /** `frame_alloc`: `get().alloc().map(FrameTracker::new)`; panics before
      `init`, and otherwise wraps exactly what the allocator returns. */
  method FrameAlloc(global: OnceCell<StackFrameAllocator>) returns (r: Outcome<Option<FrameTracker>>)
    modifies Behind(global)
    ensures r.Panic? <==> global.value.None?
    ensures global.value.Some? ==>
      var a := global.value.value;
      var step := AllocSpec(old(a.Model()));
      a.Model() == step.state
      && r.value == (if step.ppn.Some? then Some(FrameTracker(step.ppn.value)) else None)
  {
    var cell := global.Get();
    if cell.Panic? {
      r := Panic;
    } else {
      var p := cell.value.Alloc();
      match p
      case None => r := Ok(None);
      case Some(ppn) => r := Ok(Some(FrameTracker(ppn)));
    }
  }

  /** `frame_alloc_physical_pages`: 0 pages give an empty vector without
      touching the cell; otherwise one tracker per allocated page, in order,
      with a panic before `init`. */
  method FrameAllocPhysicalPages(global: OnceCell<StackFrameAllocator>, num: int)
    returns (r: Outcome<Option<seq<FrameTracker>>>)
    requires 0 <= num < Words.U64
    modifies Behind(global)
    ensures num == 0 ==> r == Ok(Some([])) && unchanged(Behind(global))
    ensures num > 0 ==> (r.Panic? <==> global.value.None?)
    ensures num > 0 && global.value.Some? ==>
      var a := global.value.value;
      var step := AllocatePhysicalPagesSpec(old(a.Model()), num);
      a.Model() == step.state
      && r.value == (if step.ppns.Some? then Some(Trackers(step.ppns.value)) else None)
  {
    if num == 0 {
      return Ok(Some([]));
    }
    var cell := global.Get();
    if cell.Panic? {
      r := Panic;
    } else {
      var ppns := cell.value.AllocatePhysicalPages(num);
      match ppns
      case None => r := Ok(None);
      case Some(ps) => r := Ok(Some(Trackers(ps)));
    }
  }

  /** `frame_dealloc`: `get().dealloc(ppn)`; panics before `init` and when
      the allocator rejects the page. */
  method FrameDealloc(global: OnceCell<StackFrameAllocator>, ppn: PhysPageNum) returns (panicked: bool)
    modifies Behind(global)
    ensures global.value.None? ==> panicked
    ensures global.value.Some? ==>
      var a := global.value.value;
      var step := DeallocSpec(old(a.Model()), ppn);
      (panicked <==> step.Panic?)
      && a.Model() == (if step.Ok? then step.value else old(a.Model()))
  {
    var cell := global.Get();
    if cell.Panic? {
      panicked := true;
    } else {
      panicked := cell.value.Dealloc(ppn);
    }
  }

  /** `Drop for FrameTracker`: releases the tracked page through
      `frame_dealloc`. */
  method DropTracker(global: OnceCell<StackFrameAllocator>, t: FrameTracker) returns (panicked: bool)
    modifies Behind(global)
    ensures global.value.None? ==> panicked
    ensures global.value.Some? ==>
      var a := global.value.value;
      var step := DeallocSpec(old(a.Model()), t.ppn);
      (panicked <==> step.Panic?)
      && a.Model() == (if step.Ok? then step.value else old(a.Model()))
  {
    panicked := FrameDealloc(global, t.ppn);
  }

  /** A frame taken with `frame_alloc` and dropped goes back to the
      allocator: the next `frame_alloc` returns the same page. */
  method AllocDropAlloc(global: OnceCell<StackFrameAllocator>) returns (first: Outcome<Option<FrameTracker>>, second: Outcome<Option<FrameTracker>>)
    requires global.value.Some? && Valid(global.value.value.Model()) && global.value.value.end <= 0x10_0000_0000
    modifies Behind(global)
    ensures first.Ok? && second.Ok?
    ensures first.value.Some? ==> second == first
  {
    first := FrameAlloc(global);
    if first.value.Some? {
      ghost var a := global.value.value;
      ghost var before := a.Model();
      var t := first.value.value;
      AllocThenDealloc(old(a.Model()));
      var panicked := DropTracker(global, t);
      second := FrameAlloc(global);
    } else {
      second := FrameAlloc(global);
    }
  }
}
