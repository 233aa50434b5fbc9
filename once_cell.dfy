/**
 * `OnceCell<T>`: a slot written at most once, guarded by an initialised
 * flag.  The flag and the slot are modelled together as `value`, which is
 * `None` exactly while the flag is false; the atomic accesses to the flag are
 * plain reads and writes here.
 */
module OnceCells {
  import opened Wrappers

  class OnceCell<T> {
    var value: Option<T>

    /** `OnceCell::new`: not initialised. */
    constructor ()
      ensures value == None
    {
      value := None;
    }

    /** `OnceCell::init`: stores `v` and sets the flag; on a cell already
        initialised it panics (`panicked`) and the stored value stays. */
    method Init(v: T) returns (panicked: bool)
      modifies this
      ensures panicked <==> old(value).Some?
      ensures value == if panicked then old(value) else Some(v)
    {
      panicked := value.Some?;
      if !panicked {
        value := Some(v);
      }
    }

    /** `OnceCell::get`: panics before `init`, otherwise the stored value. */
    method Get() returns (r: Outcome<T>)
      ensures r.Panic? <==> value.None?
      ensures r.Ok? ==> value == Some(r.value)
    {
      if value.None? {
        r := Panic;
      } else {
        r := Ok(value.value);
      }
    }

    /** `OnceCell::get_mut`: `None` before `init`, otherwise the stored
        value. */
    method GetMut() returns (r: Option<T>)
      ensures r.None? <==> value.None?
      ensures r.Some? ==> value == r
    {
      r := value;
    }

    /** Assigning through the reference `get_mut` returns: nothing happens
        before `init`, afterwards the slot holds `v`. */
    method AssignThroughGetMut(v: T) returns (written: bool)
      modifies this
      ensures written <==> old(value).Some?
      ensures value == if written then Some(v) else old(value)
    {
      var slot := GetMut();
      written := slot.Some?;
      if written {
        value := Some(v);
      }
    }

    /** `Deref::deref`: the same as `get`. */
    method Deref() returns (r: Outcome<T>)
      ensures r.Panic? <==> value.None?
      ensures r.Ok? ==> value == Some(r.value)
    {
      r := Get();
    }

    /** `DerefMut::deref_mut`: `get_mut` with `expect`, so it panics before
        `init`. */
    method DerefMut() returns (r: Outcome<T>)
      ensures r.Panic? <==> value.None?
      ensures r.Ok? ==> value == Some(r.value)
    {
      var slot := GetMut();
      match slot
      case None => r := Panic;
      case Some(x) => r := Ok(x);
    }

    /** `Drop::drop` as written: on an initialised cell it calls
        `drop_in_place` on the pointer the `UnsafeCell` hands out, which
        points to a `MaybeUninit<T>`.  `MaybeUninit<T>` has no drop glue, so
        no destructor runs, and a stored value is leaked.  `dropped` is the
        value whose destructor runs. */
    method Drop() returns (dropped: Option<T>)
      ensures dropped == None
    {
      dropped := None;
    }

    /** `Drop::drop` with `assume_init_drop` in place of `drop_in_place`:
        the stored value's destructor runs exactly when the cell is
        initialised. */
    method DropAssumeInit() returns (dropped: Option<T>)
      ensures dropped.Some? <==> value.Some?
      ensures dropped.Some? ==> dropped == value
    {
      if value.Some? {
        dropped := Some(value.value);
      } else {
        dropped := None;
      }
    }
  }

  /** A fresh cell initialised once hands back, through `get`, `deref` and
      `get_mut`, the value given to `init`. */
  method InitThenRead<T>(v: T) returns (got: Outcome<T>, deref: Outcome<T>, mutable: Option<T>)
    ensures got == Ok(v) && deref == Ok(v) && mutable == Some(v)
  {
    var cell := new OnceCell<T>();
    var panicked := cell.Init(v);
    got := cell.Get();
    deref := cell.Deref();
    mutable := cell.GetMut();
  }

  /** Before `init`, `get`, `deref` and `deref_mut` panic and `get_mut`
      returns `None`. */
  method ReadBeforeInit<T>() returns (got: Outcome<T>, deref: Outcome<T>, derefMut: Outcome<T>, mutable: Option<T>)
    ensures got.Panic? && deref.Panic? && derefMut.Panic? && mutable.None?
  {
    var cell := new OnceCell<T>();
    got := cell.Get();
    deref := cell.Deref();
    derefMut := cell.DerefMut();
    mutable := cell.GetMut();
  }

  /** A second `init` panics and `get` still returns the first value; a
      write through `get_mut` is what a later `get` returns. */
  method InitTwiceThenWrite<T>(v: T, w: T, x: T) returns (second: bool, got: Outcome<T>, after: Outcome<T>)
    ensures second && got == Ok(v) && after == Ok(x)
  {
    var cell := new OnceCell<T>();
    var first := cell.Init(v);
    second := cell.Init(w);
    got := cell.Get();
    var written := cell.AssignThroughGetMut(x);
    after := cell.Get();
  }

  /** Dropping an initialised cell as written runs no destructor: the value
      given to `init` is still in the cell and nothing is dropped. */
  method InitThenDropLeaks<T>(v: T) returns (dropped: Option<T>, stored: Option<T>)
    ensures dropped == None && stored == Some(v)
  {
    var cell := new OnceCell<T>();
    var panicked := cell.Init(v);
    dropped := cell.Drop();
    stored := cell.value;
  }

  /** With `assume_init_drop`, dropping an initialised cell drops exactly the
      value given to `init`, and dropping a cell never initialised drops
      nothing. */
  method InitThenDropFixed<T>(v: T) returns (dropped: Option<T>, untouched: Option<T>)
    ensures dropped == Some(v) && untouched == None
  {
    var cell := new OnceCell<T>();
    var panicked := cell.Init(v);
    dropped := cell.DropAssumeInit();
    var empty := new OnceCell<T>();
    untouched := empty.DropAssumeInit();
  }
}
