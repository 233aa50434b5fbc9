/**
 * The LoongArch stack frame allocator: a bump pointer over the physical page
 * numbers `[current, end)` and a stack of released pages that are handed out
 * again first.  Returned page numbers go through the masking conversion of
 * the LoongArch address code.
 *
 * `AllocState` and the functions on it say what one call does; the class
 * `StackFrameAllocator` holds the same three fields, updated in place, and
 * each of its methods is proved to follow the function of the same name
 * with `Spec` appended.
 */
module FrameAllocator {
  import opened Words
  import opened Wrappers
  import opened CommonAddr
  import Paging
  import LoongarchMmAddr

  datatype AllocState = AllocState(current: usize, end: usize, recycled: seq<usize>)

  /** The invariant the operations keep: the bump pointer has not passed the
      end, every released page lies below it, and none is released twice. */
  predicate Valid(s: AllocState)
  {
    && s.current <= s.end
    && (forall i :: 0 <= i < |s.recycled| ==> s.recycled[i] < s.current)
    && (forall i, j :: 0 <= i < j < |s.recycled| ==> s.recycled[i] != s.recycled[j])
  }

  /** `usize` into `PhysPageNum` in a LoongArch build, which keeps the low
      36 bits (`IntoPpnIsConversion`). */
  function IntoPpn(v: usize): (p: PhysPageNum)
    ensures v < 0x10_0000_0000 ==> p == PhysPageNum(v)
  {
    PhysPageNum(v % 0x10_0000_0000)
  }

  /** `IntoPpn` is the `From<usize>` conversion of the LoongArch address
      code, `v & PPN_MASK`. */
  lemma IntoPpnIsConversion(v: usize)
    ensures IntoPpn(v) == LoongarchMmAddr.PhysPageNumFromUsize(v)
  {
  }

  /** `StackFrameAllocator::new`. */
  const NEW_STATE: AllocState := AllocState(0, 0, [])

  /** `StackFrameAllocator::init`: the bounds are set and the released pages
      are kept. */
  function InitSpec(s: AllocState, l: PhysPageNum, r: PhysPageNum): (t: AllocState)
    ensures t.current == l.bits && t.end == r.bits && t.recycled == s.recycled
    ensures Valid(t) <==> l.bits <= r.bits && (forall i :: 0 <= i < |s.recycled| ==> s.recycled[i] < l.bits)
                          && (forall i, j :: 0 <= i < j < |s.recycled| ==> s.recycled[i] != s.recycled[j])
  {
    s.(current := l.bits, end := r.bits)
  }

  datatype AllocResult = AllocResult(state: AllocState, ppn: Option<PhysPageNum>)

  /** `FrameAlloc::alloc`: the most recently released page if there is one,
      otherwise the bump pointer, otherwise nothing.  `current += 1` wraps;
      `current - 1` then gives back the old pointer. */
  function AllocSpec(s: AllocState): (r: AllocResult)
    ensures r.ppn.None? <==> |s.recycled| == 0 && s.current == s.end
    ensures r.ppn.None? ==> r.state == s
    ensures |s.recycled| > 0 ==>
      r.ppn == Some(IntoPpn(s.recycled[|s.recycled| - 1]))
      && r.state == s.(recycled := s.recycled[..|s.recycled| - 1])
    ensures |s.recycled| == 0 && s.current != s.end ==>
      r.ppn == Some(IntoPpn(s.current)) && r.state.recycled == [] && r.state.end == s.end
      && (s.current < U64 - 1 ==> r.state.current == s.current + 1)
  {
    if |s.recycled| > 0 then
      AllocResult(s.(recycled := s.recycled[..|s.recycled| - 1]), Some(IntoPpn(s.recycled[|s.recycled| - 1])))
    else if s.current == s.end then
      AllocResult(s, None)
    else
      var next := Paging.WrappingAdd(s.current, 1);
      AllocResult(s.(current := next), Some(IntoPpn((next - 1) % U64)))
  }

  datatype PagesResult = PagesResult(state: AllocState, ppns: Option<seq<PhysPageNum>>)

  /** The page numbers `start`, `start + 1`, ... of a contiguous run. */
  function Run(start: usize, n: usize): (r: seq<PhysPageNum>)
    ensures |r| == n
    ensures forall i :: 0 <= i < n ==> r[i] == IntoPpn(Paging.WrappingAdd(start, i))
  {
    seq(n, i requires 0 <= i < n => IntoPpn(Paging.WrappingAdd(start, i)))
  }

  /** `FrameAlloc::allocate_physical_pages`: `pages` consecutive pages from
      the bump pointer, or nothing when they do not fit below the end.  The
      sum in the bound check wraps like every other `usize` sum here. */
  function AllocatePhysicalPagesSpec(s: AllocState, pages: usize): (r: PagesResult)
    ensures s.current + pages < U64 ==> (r.ppns.None? <==> s.current + pages > s.end)
    ensures r.ppns.None? ==> r.state == s
    ensures r.ppns.Some? ==> r.state.recycled == s.recycled && r.state.end == s.end && |r.ppns.value| == pages
    ensures r.ppns.Some? && s.current + pages < U64 ==>
      r.state.current == s.current + pages
      && forall i :: 0 <= i < pages ==> r.ppns.value[i] == IntoPpn(s.current + i)
  {
    var next := Paging.WrappingAdd(s.current, pages);
    if next > s.end then
      PagesResult(s, None)
    else
      PagesResult(s.(current := next), Some(Run(s.current, pages)))
  }

  /** `FrameAlloc::dealloc`: panics for a page at or above the bump pointer
      and for one already released; otherwise pushes it. */
  function DeallocSpec(s: AllocState, p: PhysPageNum): (r: Outcome<AllocState>)
    ensures r.Panic? <==> p.bits >= s.current || p.bits in s.recycled
    ensures r.Ok? ==> r.value == s.(recycled := s.recycled + [p.bits])
  {
    if p.bits >= s.current || p.bits in s.recycled then Panic
    else Ok(s.(recycled := s.recycled + [p.bits]))
  }

  /** Every operation keeps `Valid`; `allocate_physical_pages` does so as long
      as the bump pointer does not wrap. */
  lemma OperationsPreserveValid(s: AllocState, pages: usize, p: PhysPageNum)
    requires Valid(s)
    ensures Valid(AllocSpec(s).state)
    ensures s.current + pages < U64 ==> Valid(AllocatePhysicalPagesSpec(s, pages).state)
    ensures DeallocSpec(s, p).Ok? ==> Valid(DeallocSpec(s, p).value)
  {
    var t := AllocSpec(s).state;
    if |s.recycled| > 0 {
      assert forall i :: 0 <= i < |t.recycled| ==> t.recycled[i] == s.recycled[i];
    }
    if DeallocSpec(s, p).Ok? {
      var d := DeallocSpec(s, p).value;
      forall i, j | 0 <= i < j < |d.recycled| ensures d.recycled[i] != d.recycled[j] {
        if j == |s.recycled| {
          assert d.recycled[i] == s.recycled[i];
        }
      }
    }
  }

  /** A page just handed out by `alloc` may be released again at once; when
      it came off the released stack, that puts the state back as it was.
      (The pages must fit the 36-bit conversion, or two could collide.) */
  lemma AllocThenDealloc(s: AllocState)
    requires Valid(s) && s.end <= 0x10_0000_0000 && AllocSpec(s).ppn.Some?
    ensures DeallocSpec(AllocSpec(s).state, AllocSpec(s).ppn.value).Ok?
    ensures |s.recycled| > 0 ==> DeallocSpec(AllocSpec(s).state, AllocSpec(s).ppn.value).value == s
    ensures IntoPpn(AllocSpec(s).ppn.value.bits) == AllocSpec(s).ppn.value
  {
    var n := |s.recycled|;
    if n > 0 {
      var last := s.recycled[n - 1];
      var rest := s.recycled[..n - 1];
      assert last < 0x10_0000_0000;
      assert rest + [last] == s.recycled;
    }
  }

  /** Releasing a page and allocating once more returns that page and puts
      the state back as it was. */
  lemma DeallocThenAlloc(s: AllocState, p: PhysPageNum)
    requires DeallocSpec(s, p).Ok?
    ensures AllocSpec(DeallocSpec(s, p).value) == AllocResult(s, Some(IntoPpn(p.bits)))
  {
    var d := DeallocSpec(s, p).value;
    assert d.recycled[..|d.recycled| - 1] == s.recycled;
  }

  /** Releasing pages in some order and allocating as many gives them back in
      the reverse order (last in, first out), and the state is as before. */
  lemma {:induction false} LastInFirstOut(s: AllocState, ps: seq<PhysPageNum>)
    requires DeallocAll(s, ps).Ok?
    ensures AllocTimes(DeallocAll(s, ps).value, |ps|).0 == s
    ensures forall i :: 0 <= i < |ps| ==>
      AllocTimes(DeallocAll(s, ps).value, |ps|).1[i] == Some(IntoPpn(ps[|ps| - 1 - i].bits))
    decreases |ps|
  {
    if |ps| > 0 {
      var n := |ps|;
      var d := DeallocSpec(s, ps[0]).value;
      var e := DeallocAll(d, ps[1..]).value;
      assert DeallocAll(s, ps).value == e;
      LastInFirstOut(d, ps[1..]);
      AllocTimesSplit(e, n - 1);
      DeallocThenAlloc(s, ps[0]);
      var rs := AllocTimes(e, n).1;
      forall i | 0 <= i < n ensures rs[i] == Some(IntoPpn(ps[n - 1 - i].bits)) {
        if i < n - 1 {
          assert rs[i] == AllocTimes(e, n - 1).1[i];
          assert ps[1..][n - 2 - i] == ps[n - 1 - i];
        }
      }
    }
  }

  /** Releasing the pages of `ps` in order. */
  function DeallocAll(s: AllocState, ps: seq<PhysPageNum>): (r: Outcome<AllocState>)
    decreases |ps|
  {
    if |ps| == 0 then Ok(s)
    else match DeallocSpec(s, ps[0])
      case Panic => Panic
      case Ok(t) => DeallocAll(t, ps[1..])
  }

  lemma {:induction false} DeallocAllAppends(s: AllocState, ps: seq<PhysPageNum>)
    requires DeallocAll(s, ps).Ok?
    ensures DeallocAll(s, ps).value.current == s.current && DeallocAll(s, ps).value.end == s.end
    ensures DeallocAll(s, ps).value.recycled == s.recycled + seq(|ps|, i requires 0 <= i < |ps| => ps[i].bits)
    decreases |ps|
  {
    if |ps| == 0 {
      assert s.recycled + [] == s.recycled;
    } else {
      var t := DeallocSpec(s, ps[0]).value;
      DeallocAllAppends(t, ps[1..]);
      assert t.recycled + seq(|ps| - 1, i requires 0 <= i < |ps| - 1 => ps[1..][i].bits)
        == s.recycled + seq(|ps|, i requires 0 <= i < |ps| => ps[i].bits);
    }
  }

  /** Allocating `n` times in a row: the final state and the results. */
  function AllocTimes(s: AllocState, n: nat): (r: (AllocState, seq<Option<PhysPageNum>>))
    ensures |r.1| == n
    decreases n
  {
    if n == 0 then (s, [])
    else
      var first := AllocSpec(s);
      var rest := AllocTimes(first.state, n - 1);
      (rest.0, [first.ppn] + rest.1)
  }

  lemma {:induction false} AllocTimesSplit(s: AllocState, n: nat)
    ensures AllocTimes(s, n + 1).0 == AllocSpec(AllocTimes(s, n).0).state
    ensures AllocTimes(s, n + 1).1 == AllocTimes(s, n).1 + [AllocSpec(AllocTimes(s, n).0).ppn]
    decreases n
  {
    if n > 0 {
      AllocTimesSplit(AllocSpec(s).state, n - 1);
    }
  }

  /** With no released pages, `end - current` allocations hand out
      `current`, `current + 1`, ..., `end - 1`, leaving nothing, and the next
      allocation fails. */
  lemma {:induction false} AllocSweep(s: AllocState, m: nat)
    requires s.recycled == [] && s.current + m == s.end
    ensures AllocTimes(s, m).0 == s.(current := s.end)
    ensures forall i :: 0 <= i < m ==> AllocTimes(s, m).1[i] == Some(IntoPpn(s.current + i))
    ensures AllocSpec(AllocTimes(s, m).0).ppn.None?
    decreases m
  {
    if m > 0 {
      var first := AllocSpec(s);
      var next := first.state;
      assert next == s.(current := s.current + 1);
      AllocSweep(next, m - 1);
      var rest := AllocTimes(next, m - 1);
      assert AllocTimes(s, m) == (rest.0, [first.ppn] + rest.1);
      forall i | 0 <= i < m ensures AllocTimes(s, m).1[i] == Some(IntoPpn(s.current + i)) {
        if i > 0 {
          assert AllocTimes(s, m).1[i] == rest.1[i - 1];
          assert next.current + (i - 1) == s.current + i;
        }
      }
    }
  }

  /** After `init(l, r)` on a fresh allocator, `r - l` allocations return
      `l`, ..., `r - 1`, all different while they fit `PPN_MASK`, and the
      next one returns nothing. */
  lemma AllocAfterInit(l: PhysPageNum, r: PhysPageNum)
    requires l.bits <= r.bits
    ensures var rs := AllocTimes(InitSpec(NEW_STATE, l, r), r.bits - l.bits).1;
      forall i :: 0 <= i < r.bits - l.bits ==> rs[i] == Some(IntoPpn(l.bits + i))
    ensures var rs := AllocTimes(InitSpec(NEW_STATE, l, r), r.bits - l.bits).1;
      r.bits <= 0x10_0000_0000 ==> forall i, j :: 0 <= i < j < r.bits - l.bits ==> rs[i] != rs[j]
    ensures AllocSpec(AllocTimes(InitSpec(NEW_STATE, l, r), r.bits - l.bits).0).ppn.None?
  {
    var s := InitSpec(NEW_STATE, l, r);
    AllocSweep(s, r.bits - l.bits);
    var rs := AllocTimes(s, r.bits - l.bits).1;
    if r.bits <= 0x10_0000_0000 {
      forall i, j | 0 <= i < j < r.bits - l.bits ensures rs[i] != rs[j] {
        assert rs[i] == Some(PhysPageNum(l.bits + i));
        assert rs[j] == Some(PhysPageNum(l.bits + j));
      }
    }
  }

  /** `FrameAlloc` as an object whose fields `alloc`, `allocate_physical_pages`
      and `dealloc` update in place. */
  class StackFrameAllocator {
    var current: usize
    var end: usize
    var recycled: seq<usize>

    function Model(): AllocState
      reads this
    {
      AllocState(current, end, recycled)
    }

    /** `StackFrameAllocator::new`. */
    constructor ()
      ensures Model() == NEW_STATE
    {
      current := 0;
      end := 0;
      recycled := [];
    }

    /** `StackFrameAllocator::init`. */
    method Init(l: PhysPageNum, r: PhysPageNum)
      modifies this
      ensures Model() == InitSpec(old(Model()), l, r)
    {
      current := l.bits;
      end := r.bits;
    }

    /** `FrameAlloc::alloc`. */
    method Alloc() returns (p: Option<PhysPageNum>)
      modifies this
      ensures AllocResult(Model(), p) == AllocSpec(old(Model()))
    {
      if |recycled| > 0 {
        var ppn := recycled[|recycled| - 1];
        recycled := recycled[..|recycled| - 1];
        p := Some(IntoPpn(ppn));
      } else if current == end {
        p := None;
      } else {
        current := Paging.WrappingAdd(current, 1);
        p := Some(IntoPpn((current - 1) % U64));
      }
    }

    /** `FrameAlloc::allocate_physical_pages`: the `for` loop pushes the
        pages one by one. */
    method AllocatePhysicalPages(pages: usize) returns (r: Option<seq<PhysPageNum>>)
      modifies this
      ensures PagesResult(Model(), r) == AllocatePhysicalPagesSpec(old(Model()), pages)
    {
      if Paging.WrappingAdd(current, pages) > end {
        r := None;
      } else {
        var start := current;
        current := Paging.WrappingAdd(current, pages);
        var result: seq<PhysPageNum> := [];
        var i := 0;
        while i < pages
          invariant 0 <= i <= pages && |result| == i
          invariant forall k :: 0 <= k < i ==> result[k] == IntoPpn(Paging.WrappingAdd(start, k))
        {
          result := result + [IntoPpn(Paging.WrappingAdd(start, i))];
          i := i + 1;
        }
        assert result == Run(start, pages);
        r := Some(result);
      }
    }

    /** The `recycled.iter().any(|&v| v == ppn)` scan of `dealloc`. */
    method RecycledContains(ppn: usize) returns (found: bool)
      ensures found <==> ppn in recycled
    {
      found := false;
      var i := 0;
      while i < |recycled|
        invariant 0 <= i <= |recycled|
        invariant found <==> ppn in recycled[..i]
      {
        if recycled[i] == ppn {
          found := true;
        }
        assert recycled[..i + 1] == recycled[..i] + [recycled[i]];
        i := i + 1;
      }
      assert recycled[..i] == recycled;
    }

    /** `FrameAlloc::dealloc`; `panicked` reports the `panic!`, after which
        nothing is changed. */
    method Dealloc(p: PhysPageNum) returns (panicked: bool)
      modifies this
      ensures panicked <==> DeallocSpec(old(Model()), p).Panic?
      ensures !panicked ==> Model() == DeallocSpec(old(Model()), p).value
      ensures panicked ==> Model() == old(Model())
    {
      var seen := false;
      if p.bits < current {
        seen := RecycledContains(p.bits);
      }
      panicked := p.bits >= current || seen;
      if !panicked {
        recycled := recycled + [p.bits];
      }
    }
  }
}
