/**
 * The LoongArch radix page-table walk: `find_pte`, which looks up the
 * last-level slot of a virtual page, and `find_pte_create`, which installs
 * the missing intermediate tables on the way down.
 *
 * Physical memory is a map from page number to the page's entries; a page
 * or an index the map does not hold reads as the empty entry.  The
 * reference `&mut PageTableEntry` the walks return is the `Slot` it points
 * at.  `valid` is bit 0 of the entry.
 *
 * Both walks follow the code's test on intermediate entries: `find_pte`
 * stops (with `None`) at a valid one and descends through invalid ones;
 * `find_pte_create` allocates for an invalid one.  And since `new` never
 * sets bit 0, the entries `find_pte_create` installs are themselves
 * invalid.  The lemmas at the end state what follows from that.
 */
module PageWalk {
  import opened Wrappers
  import opened CommonAddr
  import opened PteFlags
  import opened LoongarchConfig
  import opened OnceCells
  import opened FrameAllocator
  import opened FrameTracking
  import PageIndex
  import LoongarchPte

  /** Physical memory as table pages of entries. */
  type Memory = map<PhysPageNum, seq<PageTableEntry>>

  /** One entry of one table page: what a `&mut PageTableEntry` points at. */
  datatype Slot = Slot(page: PhysPageNum, index: nat)

  /** Reading a slot; memory that holds nothing there reads as zero. */
  function Entry(m: Memory, s: Slot): PageTableEntry
  {
    if s.page in m && s.index < |m[s.page]| then m[s.page][s.index] else EMPTY_PTE
  }

  /** `*pte = e`: the slot reads `e` afterwards and every other slot reads
      as before. */
  function Store(m: Memory, s: Slot, e: PageTableEntry): (r: Memory)
    ensures Entry(r, s) == e
    ensures forall t :: t != s ==> Entry(r, t) == Entry(m, t)
  {
    var page := if s.page in m then m[s.page] else [];
    var padded := if s.index < |page| then page else page + seq(s.index + 1 - |page|, _ => EMPTY_PTE);
    m[s.page := padded[s.index := e]]
  }

  /** What the lookup returns, and the slots it read on the way. */
  datatype Walk = Walk(slot: Option<Slot>, path: seq<Slot>)

  /** `find_pte` from level `i` down, at table page `ppn`. */
  function FindPteSpec(m: Memory, ppn: PhysPageNum, idxs: seq<nat>, i: nat): (w: Walk)
    requires |idxs| == PAGE_TABLE_LEVELS && i < PAGE_TABLE_LEVELS
    decreases PAGE_TABLE_LEVELS - i
  {
    var slot := Slot(ppn, idxs[i]);
    if i == PAGE_TABLE_LEVELS - 1 then Walk(Some(slot), [slot])
    else if LoongarchPte.Valid(Entry(m, slot)) then Walk(None, [slot])
    else
      var rest := FindPteSpec(m, LoongarchPte.Ppn(Entry(m, slot)), idxs, i + 1);
      Walk(rest.slot, [slot] + rest.path)
  }

  /** The shape of a lookup: it starts at `ppn`, reads at most one slot per
      level, follows the page number of every invalid entry it passes, stops
      at the first valid one with `None`, and returns `Some` exactly when it
      reaches the last level, with the last slot read. */
  lemma {:induction false} FindPteShape(m: Memory, ppn: PhysPageNum, idxs: seq<nat>, i: nat)
    requires |idxs| == PAGE_TABLE_LEVELS && i < PAGE_TABLE_LEVELS
    ensures var w := FindPteSpec(m, ppn, idxs, i);
      && 1 <= |w.path| <= PAGE_TABLE_LEVELS - i
      && w.path[0] == Slot(ppn, idxs[i])
      && (forall k :: 0 <= k < |w.path| ==> w.path[k].index == idxs[i + k])
      && (forall k :: 0 <= k < |w.path| - 1 ==>
            !LoongarchPte.Valid(Entry(m, w.path[k]))
            && w.path[k + 1].page == LoongarchPte.Ppn(Entry(m, w.path[k])))
      && (w.slot.Some? <==> |w.path| == PAGE_TABLE_LEVELS - i)
      && (w.slot.Some? ==> w.slot.value == w.path[|w.path| - 1])
      && (w.slot.None? ==> LoongarchPte.Valid(Entry(m, w.path[|w.path| - 1])))
    decreases PAGE_TABLE_LEVELS - i
  {
    var slot := Slot(ppn, idxs[i]);
    if i < PAGE_TABLE_LEVELS - 1 && !LoongarchPte.Valid(Entry(m, slot)) {
      var next := LoongarchPte.Ppn(Entry(m, slot));
      FindPteShape(m, next, idxs, i + 1);
      var rest := FindPteSpec(m, next, idxs, i + 1);
      var w := FindPteSpec(m, ppn, idxs, i);
      assert w.path == [slot] + rest.path;
      forall k | 0 <= k < |w.path| ensures w.path[k].index == idxs[i + k] {
        if k > 0 {
          assert w.path[k] == rest.path[k - 1];
        }
      }
      forall k | 0 <= k < |w.path| - 1
        ensures !LoongarchPte.Valid(Entry(m, w.path[k]))
        ensures w.path[k + 1].page == LoongarchPte.Ppn(Entry(m, w.path[k]))
      {
        if k > 0 {
          assert w.path[k] == rest.path[k - 1];
          assert w.path[k + 1] == rest.path[k];
        }
      }
    }
  }

  /** With three levels: the lookup finds the last-level slot exactly when
      both intermediate entries it reads are invalid. */
  lemma FindPteSomeIff(m: Memory, root: PhysPageNum, idxs: seq<nat>)
    requires |idxs| == PAGE_TABLE_LEVELS
    ensures var e0 := Entry(m, Slot(root, idxs[0]));
      var p1 := LoongarchPte.Ppn(e0);
      var e1 := Entry(m, Slot(p1, idxs[1]));
      var p2 := LoongarchPte.Ppn(e1);
      FindPteSpec(m, root, idxs, 0).slot
        == if !LoongarchPte.Valid(e0) && !LoongarchPte.Valid(e1) then Some(Slot(p2, idxs[2])) else None
  {
  }

  /** The state `find_pte_create` works on: memory, the allocator behind the
      global cell (`None` before `init`) and the owned-frame vector. */
  datatype CreateState = CreateState(pages: Memory, alloc: Option<AllocState>, frames: seq<FrameTracker>)

  /** A finished create walk: the final state, the slot returned and the
      intermediate slots it wrote, in order. */
  datatype Created = Created(state: CreateState, slot: Slot, written: seq<Slot>)

  /** `find_pte_create` from level `i` down: an invalid intermediate entry
      gets a fresh frame (`frame_alloc().unwrap()`, which panics before
      `init` and when no frame is left), the entry `new(frame.ppn, V)` and a
      push onto the frame vector; the walk then follows the entry's page
      number. */
  function FindPteCreateSpec(st: CreateState, ppn: PhysPageNum, idxs: seq<nat>, i: nat): (r: Outcome<Created>)
    requires |idxs| == PAGE_TABLE_LEVELS && i < PAGE_TABLE_LEVELS
    decreases PAGE_TABLE_LEVELS - i
  {
    var slot := Slot(ppn, idxs[i]);
    if i == PAGE_TABLE_LEVELS - 1 then Ok(Created(st, slot, []))
    else
      var pte := Entry(st.pages, slot);
      if LoongarchPte.Valid(pte) then FindPteCreateSpec(st, LoongarchPte.Ppn(pte), idxs, i + 1)
      else if st.alloc.None? then Panic
      else
        var step := AllocSpec(st.alloc.value);
        if step.ppn.None? then Panic
        else
          var installed := LoongarchPte.New(step.ppn.value, {V});
          var next := CreateState(Store(st.pages, slot, installed), Some(step.state),
                                  st.frames + [FrameTracker(step.ppn.value)]);
          match FindPteCreateSpec(next, LoongarchPte.Ppn(installed), idxs, i + 1)
          case Panic => Panic
          case Ok(c) => Ok(c.(written := [slot] + c.written))
  }

  /** What a successful create walk writes: it returns a last-level slot,
      writes at most one slot per intermediate level and no other slot. */
  lemma {:induction false} CreateWrites(st: CreateState, ppn: PhysPageNum, idxs: seq<nat>, i: nat)
    requires |idxs| == PAGE_TABLE_LEVELS && i < PAGE_TABLE_LEVELS
    requires FindPteCreateSpec(st, ppn, idxs, i).Ok?
    ensures var c := FindPteCreateSpec(st, ppn, idxs, i).value;
      && c.slot.index == idxs[PAGE_TABLE_LEVELS - 1]
      && |c.written| <= PAGE_TABLE_LEVELS - 1 - i
      && (forall s :: s !in c.written ==> Entry(c.state.pages, s) == Entry(st.pages, s))
    decreases PAGE_TABLE_LEVELS - i
  {
    var slot := Slot(ppn, idxs[i]);
    if i < PAGE_TABLE_LEVELS - 1 {
      var pte := Entry(st.pages, slot);
      if LoongarchPte.Valid(pte) {
        CreateWrites(st, LoongarchPte.Ppn(pte), idxs, i + 1);
      } else {
        var step := AllocSpec(st.alloc.value);
        var installed := LoongarchPte.New(step.ppn.value, {V});
        var next := CreateState(Store(st.pages, slot, installed), Some(step.state),
                                st.frames + [FrameTracker(step.ppn.value)]);
        CreateWrites(next, LoongarchPte.Ppn(installed), idxs, i + 1);
      }
    }
  }

  /** The frames of a successful create walk: one is appended per slot
      written, the earlier ones are kept, and the appended ones are the
      allocator's next results, in order; before `init` nothing is written. */
  lemma {:induction false} CreateFrames(st: CreateState, ppn: PhysPageNum, idxs: seq<nat>, i: nat)
    requires |idxs| == PAGE_TABLE_LEVELS && i < PAGE_TABLE_LEVELS
    requires FindPteCreateSpec(st, ppn, idxs, i).Ok?
    ensures var c := FindPteCreateSpec(st, ppn, idxs, i).value;
      && |c.state.frames| == |st.frames| + |c.written|
      && c.state.frames[..|st.frames|] == st.frames
      && (st.alloc.None? ==> c.written == [] && c.state.alloc == st.alloc)
      && (st.alloc.Some? ==>
            var run := AllocTimes(st.alloc.value, |c.written|);
            c.state.alloc == Some(run.0)
            && forall k :: 0 <= k < |c.written| ==> run.1[k] == Some(c.state.frames[|st.frames| + k].ppn))
    decreases PAGE_TABLE_LEVELS - i
  {
    var slot := Slot(ppn, idxs[i]);
    if i < PAGE_TABLE_LEVELS - 1 {
      var pte := Entry(st.pages, slot);
      if LoongarchPte.Valid(pte) {
        CreateFrames(st, LoongarchPte.Ppn(pte), idxs, i + 1);
      } else {
        var step := AllocSpec(st.alloc.value);
        var installed := LoongarchPte.New(step.ppn.value, {V});
        var next := CreateState(Store(st.pages, slot, installed), Some(step.state),
                                st.frames + [FrameTracker(step.ppn.value)]);
        CreateFrames(next, LoongarchPte.Ppn(installed), idxs, i + 1);
        var c := FindPteCreateSpec(next, LoongarchPte.Ppn(installed), idxs, i + 1).value;
        var n := |c.written|;
        assert c.state.frames[..|next.frames|] == next.frames;
        assert c.state.frames[..|st.frames|] == next.frames[..|st.frames|];
        var run := AllocTimes(step.state, n);
        var whole := AllocTimes(st.alloc.value, n + 1);
        assert whole == (run.0, [step.ppn] + run.1);
        forall k | 0 <= k < n + 1
          ensures whole.1[k] == Some(c.state.frames[|st.frames| + k].ppn)
        {
          if k == 0 {
            assert c.state.frames[|st.frames|] == next.frames[|st.frames|];
          } else {
            assert run.1[k - 1] == Some(c.state.frames[|next.frames| + (k - 1)].ppn);
          }
        }
      }
    }
  }

  /** How many more pages `alloc` can hand out. */
  function Available(s: AllocState): int
  {
    |s.recycled| + s.end - s.current
  }

  /** `find_pte_create` cannot panic when the allocator is initialised and
      holds a frame for every intermediate level. */
  lemma {:induction false} FindPteCreateSucceeds(st: CreateState, ppn: PhysPageNum, idxs: seq<nat>, i: nat)
    requires |idxs| == PAGE_TABLE_LEVELS && i < PAGE_TABLE_LEVELS
    requires st.alloc.Some? && FrameAllocator.Valid(st.alloc.value)
    requires Available(st.alloc.value) >= PAGE_TABLE_LEVELS - 1 - i
    ensures FindPteCreateSpec(st, ppn, idxs, i).Ok?
    decreases PAGE_TABLE_LEVELS - i
  {
    var slot := Slot(ppn, idxs[i]);
    if i < PAGE_TABLE_LEVELS - 1 {
      var pte := Entry(st.pages, slot);
      if LoongarchPte.Valid(pte) {
        FindPteCreateSucceeds(st, LoongarchPte.Ppn(pte), idxs, i + 1);
      } else {
        var s := st.alloc.value;
        var step := AllocSpec(s);
        OperationsPreserveValid(s, 0, PhysPageNum(0));
        assert Available(step.state) == Available(s) - 1;
        var installed := LoongarchPte.New(step.ppn.value, {V});
        var next := CreateState(Store(st.pages, slot, installed), Some(step.state),
                                st.frames + [FrameTracker(step.ppn.value)]);
        FindPteCreateSucceeds(next, LoongarchPte.Ppn(installed), idxs, i + 1);
      }
    }
  }

  /** When the walk passes no valid intermediate entry and the slots it
      writes are distinct, `find_pte` on the memory it leaves behind returns
      the very slot `find_pte_create` returned: the installed entries are
      invalid, and `find_pte` descends through invalid entries. */
  lemma {:induction false} FindAfterCreate(st: CreateState, ppn: PhysPageNum, idxs: seq<nat>, i: nat)
    requires |idxs| == PAGE_TABLE_LEVELS && i < PAGE_TABLE_LEVELS
    requires FindPteCreateSpec(st, ppn, idxs, i).Ok?
    requires var c := FindPteCreateSpec(st, ppn, idxs, i).value;
      |c.written| == PAGE_TABLE_LEVELS - 1 - i
      && forall k, l :: 0 <= k < l < |c.written| ==> c.written[k] != c.written[l]
    ensures var c := FindPteCreateSpec(st, ppn, idxs, i).value;
      FindPteSpec(c.state.pages, ppn, idxs, i).slot == Some(c.slot)
    decreases PAGE_TABLE_LEVELS - i
  {
    var slot := Slot(ppn, idxs[i]);
    if i < PAGE_TABLE_LEVELS - 1 {
      var pte := Entry(st.pages, slot);
      if LoongarchPte.Valid(pte) {
        CreateWrites(st, LoongarchPte.Ppn(pte), idxs, i + 1);
        assert false;
      } else {
        var whole := FindPteCreateSpec(st, ppn, idxs, i).value;
        var step := AllocSpec(st.alloc.value);
        var installed := LoongarchPte.New(step.ppn.value, {V});
        var next := CreateState(Store(st.pages, slot, installed), Some(step.state),
                                st.frames + [FrameTracker(step.ppn.value)]);
        var c := FindPteCreateSpec(next, LoongarchPte.Ppn(installed), idxs, i + 1).value;
        assert whole == c.(written := [slot] + c.written);
        FindAfterCreate(next, LoongarchPte.Ppn(installed), idxs, i + 1);
        assert FindPteSpec(whole.state.pages, LoongarchPte.Ppn(installed), idxs, i + 1).slot == Some(whole.slot);
        CreateInstalls(st, ppn, idxs, i);
        assert whole.written[0] !in whole.written[1..];
        assert whole.state.frames[|st.frames|].ppn == step.ppn.value by {
          CreateFrames(next, LoongarchPte.Ppn(installed), idxs, i + 1);
          assert c.state.frames[|st.frames|] == next.frames[|st.frames|];
        }
        assert Entry(whole.state.pages, slot) == installed;
        LoongarchPte.NewIsInvalid(step.ppn.value, {V});
      }
    }
  }

  /** One step of the create walk: an invalid intermediate slot is the first
      one written, a frame is pushed for it, and unless the walk writes the
      slot again further down it ends up holding `new(frame.ppn, V)` for the
      first frame pushed. */
  lemma CreateInstalls(st: CreateState, ppn: PhysPageNum, idxs: seq<nat>, i: nat)
    requires |idxs| == PAGE_TABLE_LEVELS && i < PAGE_TABLE_LEVELS - 1
    requires FindPteCreateSpec(st, ppn, idxs, i).Ok?
    requires !LoongarchPte.Valid(Entry(st.pages, Slot(ppn, idxs[i])))
    ensures var c := FindPteCreateSpec(st, ppn, idxs, i).value;
      && |c.written| >= 1 && c.written[0] == Slot(ppn, idxs[i])
      && |c.state.frames| > |st.frames|
      && (c.written[0] !in c.written[1..] ==>
            Entry(c.state.pages, c.written[0]) == LoongarchPte.New(c.state.frames[|st.frames|].ppn, {V}))
  {
    var slot := Slot(ppn, idxs[i]);
    var step := AllocSpec(st.alloc.value);
    var installed := LoongarchPte.New(step.ppn.value, {V});
    var next := CreateState(Store(st.pages, slot, installed), Some(step.state),
                            st.frames + [FrameTracker(step.ppn.value)]);
    CreateWrites(next, LoongarchPte.Ppn(installed), idxs, i + 1);
    CreateFrames(next, LoongarchPte.Ppn(installed), idxs, i + 1);
    var c := FindPteCreateSpec(next, LoongarchPte.Ppn(installed), idxs, i + 1).value;
    var whole := FindPteCreateSpec(st, ppn, idxs, i).value;
    assert whole.written == [slot] + c.written;
    assert whole.written[1..] == c.written;
    assert c.state.frames[|st.frames|] == next.frames[|st.frames|];
  }

  /** Because the installed entries are invalid, calling `find_pte_create`
      again for the same page writes the root slot again with yet another
      frame. */
  lemma CreateAgainReallocates(st: CreateState, root: PhysPageNum, idxs: seq<nat>)
    requires |idxs| == PAGE_TABLE_LEVELS
    requires !LoongarchPte.Valid(Entry(st.pages, Slot(root, idxs[0])))
    requires FindPteCreateSpec(st, root, idxs, 0).Ok?
    requires var c := FindPteCreateSpec(st, root, idxs, 0).value;
      c.written[0] !in c.written[1..] && FindPteCreateSpec(c.state, root, idxs, 0).Ok?
    ensures var c := FindPteCreateSpec(st, root, idxs, 0).value;
      var again := FindPteCreateSpec(c.state, root, idxs, 0).value;
      |again.written| >= 1 && again.written[0] == c.written[0] == Slot(root, idxs[0])
      && |again.state.frames| > |c.state.frames|
  {
    CreateInstalls(st, root, idxs, 0);
    var c := FindPteCreateSpec(st, root, idxs, 0).value;
    LoongarchPte.NewIsInvalid(c.state.frames[|st.frames|].ppn, {V});
    CreateInstalls(c.state, root, idxs, 0);
  }

  /** One level of the create walk, as the loop body takes it: a valid
      intermediate entry is descended through. */
  lemma CreateStepValid(st: CreateState, ppn: PhysPageNum, idxs: seq<nat>, i: nat, w: seq<Slot>)
    requires |idxs| == PAGE_TABLE_LEVELS && i < PAGE_TABLE_LEVELS - 1
    requires LoongarchPte.Valid(Entry(st.pages, Slot(ppn, idxs[i])))
    ensures Prefixed(FindPteCreateSpec(st, ppn, idxs, i), w)
      == Prefixed(FindPteCreateSpec(st, LoongarchPte.Ppn(Entry(st.pages, Slot(ppn, idxs[i]))), idxs, i + 1), w)
  {
  }

  /** An invalid intermediate entry panics when no frame can be had. */
  lemma CreateStepPanic(st: CreateState, ppn: PhysPageNum, idxs: seq<nat>, i: nat, w: seq<Slot>)
    requires |idxs| == PAGE_TABLE_LEVELS && i < PAGE_TABLE_LEVELS - 1
    requires !LoongarchPte.Valid(Entry(st.pages, Slot(ppn, idxs[i])))
    requires st.alloc.None? || AllocSpec(st.alloc.value).ppn.None?
    ensures Prefixed(FindPteCreateSpec(st, ppn, idxs, i), w).Panic?
  {
  }

  /** An invalid intermediate entry is replaced by `new(frame.ppn, V)` for a
      fresh frame, which is pushed, and the walk descends to that frame. */
  lemma CreateStepInstall(st: CreateState, ppn: PhysPageNum, idxs: seq<nat>, i: nat, w: seq<Slot>)
    requires |idxs| == PAGE_TABLE_LEVELS && i < PAGE_TABLE_LEVELS - 1
    requires !LoongarchPte.Valid(Entry(st.pages, Slot(ppn, idxs[i])))
    requires st.alloc.Some? && AllocSpec(st.alloc.value).ppn.Some?
    ensures var slot := Slot(ppn, idxs[i]);
      var step := AllocSpec(st.alloc.value);
      var installed := LoongarchPte.New(step.ppn.value, {V});
      var next := CreateState(Store(st.pages, slot, installed), Some(step.state),
                              st.frames + [FrameTracker(step.ppn.value)]);
      Prefixed(FindPteCreateSpec(st, ppn, idxs, i), w)
        == Prefixed(FindPteCreateSpec(next, LoongarchPte.Ppn(installed), idxs, i + 1), w + [slot])
  {
    var slot := Slot(ppn, idxs[i]);
    var step := AllocSpec(st.alloc.value);
    var installed := LoongarchPte.New(step.ppn.value, {V});
    var next := CreateState(Store(st.pages, slot, installed), Some(step.state),
                            st.frames + [FrameTracker(step.ppn.value)]);
    var r := FindPteCreateSpec(next, LoongarchPte.Ppn(installed), idxs, i + 1);
    if r.Ok? {
      assert w + ([slot] + r.value.written) == (w + [slot]) + r.value.written;
    }
  }

  /** The allocator state behind the global cell, `None` before `init`. */
  function AllocOf(global: OnceCell<StackFrameAllocator>): Option<AllocState>
    reads global, Behind(global)
  {
    if global.value.Some? then Some(global.value.value.Model()) else None
  }

  /** Physical memory holding the page tables. */
  class PhysMemory {
    var pages: Memory

    constructor (m: Memory)
      ensures pages == m
    {
      pages := m;
    }

    /** `find_pte`: the loop over the indices with a mutable `ppn`. */
    method FindPte(root: PhysPageNum, vpn: VirtPageNum) returns (res: Option<Slot>)
      ensures res == FindPteSpec(pages, root, PageIndex.Indices(vpn.bits, PAGE_TABLE_LEVELS), 0).slot
    {
      var idxs := LoongarchPte.VirtPageNumIndices(vpn);
      var ppn := root;
      res := None;
      var i := 0;
      while i < |idxs|
        invariant 0 <= i <= |idxs| == PAGE_TABLE_LEVELS
        invariant i < |idxs| ==> FindPteSpec(pages, root, idxs, 0).slot == FindPteSpec(pages, ppn, idxs, i).slot
        invariant i == |idxs| ==> res == FindPteSpec(pages, root, idxs, 0).slot
        decreases |idxs| - i
      {
        var slot := Slot(ppn, idxs[i]);
        var pte := Entry(pages, slot);
        if i == PAGE_TABLE_LEVELS - 1 {
          res := Some(slot);
          break;
        }
        if LoongarchPte.Valid(pte) {
          break;
        }
        ppn := LoongarchPte.Ppn(pte);
        i := i + 1;
      }
    }

    /** `find_pte_create`, with the owned-frame vector passed in and handed
        back. */
    method FindPteCreate(global: OnceCell<StackFrameAllocator>, root: PhysPageNum,
                         frames: seq<FrameTracker>, vpn: VirtPageNum)
      returns (res: Outcome<Option<Slot>>, framesOut: seq<FrameTracker>)
      modifies this, Behind(global)
      ensures var spec := FindPteCreateSpec(CreateState(old(pages), old(AllocOf(global)), frames), root,
                                            PageIndex.Indices(vpn.bits, PAGE_TABLE_LEVELS), 0);
        (res.Panic? <==> spec.Panic?)
        && (spec.Ok? ==>
              res == Ok(Some(spec.value.slot))
              && pages == spec.value.state.pages
              && AllocOf(global) == spec.value.state.alloc
              && framesOut == spec.value.state.frames)
    {
      var idxs := LoongarchPte.VirtPageNumIndices(vpn);
      ghost var spec := FindPteCreateSpec(CreateState(pages, AllocOf(global), frames), root, idxs, 0);
      var ppn := root;
      framesOut := frames;
      res := Ok(None);
      ghost var written: seq<Slot> := [];
      ghost var alloc := AllocOf(global);
      assert spec.Ok? ==> [] + spec.value.written == spec.value.written;
      var i := 0;
      while i < |idxs|
        invariant 0 <= i <= |idxs| == PAGE_TABLE_LEVELS
        invariant alloc == AllocOf(global)
        invariant i < |idxs| ==>
          spec == Prefixed(FindPteCreateSpec(CreateState(pages, alloc, framesOut), ppn, idxs, i), written)
        invariant i == |idxs| ==> res.Ok? && spec.Ok? && res.value == Some(spec.value.slot)
        decreases |idxs| - i
      {
        var slot := Slot(ppn, idxs[i]);
        var pte := Entry(pages, slot);
        if i == PAGE_TABLE_LEVELS - 1 {
          res := Ok(Some(slot));
          break;
        }
        ghost var before := CreateState(pages, alloc, framesOut);
        if LoongarchPte.Valid(pte) {
          CreateStepValid(before, ppn, idxs, i, written);
        } else {
          var frame := FrameAlloc(global);
          if frame.Panic? || frame.value.None? {
            CreateStepPanic(before, ppn, idxs, i, written);
            res := Panic;
            return;
          }
          CreateStepInstall(before, ppn, idxs, i, written);
          alloc := Some(AllocSpec(alloc.value).state);
          var installed := LoongarchPte.New(frame.value.value.ppn, {V});
          pages := Store(pages, slot, installed);
          framesOut := framesOut + [frame.value.value];
          written := written + [slot];
          pte := installed;
        }
        ppn := LoongarchPte.Ppn(pte);
        i := i + 1;
      }
    }
  }

  /** A create walk's result with `w` written before it. */
  function Prefixed(r: Outcome<Created>, w: seq<Slot>): (p: Outcome<Created>)
    ensures p.Panic? <==> r.Panic?
    ensures p.Ok? ==> p.value.state == r.value.state && p.value.slot == r.value.slot
                      && p.value.written == w + r.value.written
  {
    match r
    case Panic => Panic
    case Ok(c) => Ok(c.(written := w + c.written))
  }
}
