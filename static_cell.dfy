/**
 * `StaticCell<T>`: the same initialised flag and slot as `OnceCell`, whose
 * `get_mut` takes `&self` and panics before initialisation instead of
 * returning `None`.  `value` again stands for the flag and the slot together.
 */
module StaticCells {
  import opened Wrappers

  class StaticCell<T> {
    var value: Option<T>

    /** `StaticCell::new`: not initialised. */
    constructor ()
      ensures value == None
    {
      value := None;
    }

    /** `StaticCell::init`: the first call stores `v`; a second one
        panics and the stored value stays. */
    method Init(v: T) returns (panicked: bool)
      modifies this
      ensures panicked <==> old(value).Some?
      ensures value == if panicked then old(value) else Some(v)
    {
      panicked := value.Some?;
      if !panicked {
        value := Some(v);
      }
    }

    /** `StaticCell::get`: panics before `init`, otherwise the stored value. */
    method Get() returns (r: Outcome<T>)
      ensures r.Panic? <==> value.None?
      ensures r.Ok? ==> value == Some(r.value)
    {
      if value.None? {
        r := Panic;
      } else {
        r := Ok(value.value);
      }
    }

    /** `StaticCell::get_mut`: panics before `init` as `get` does. */
    method GetMut() returns (r: Outcome<T>)
      ensures r.Panic? <==> value.None?
      ensures r.Ok? ==> value == Some(r.value)
    {
      if value.None? {
        r := Panic;
      } else {
        r := Ok(value.value);
      }
    }

    /** Assigning through the reference `get_mut` returns: a panic before
        `init`, afterwards the slot holds `v`. */
    method AssignThroughGetMut(v: T) returns (panicked: bool)
      modifies this
      ensures panicked <==> old(value).None?
      ensures value == if panicked then old(value) else Some(v)
    {
      var slot := GetMut();
      panicked := slot.Panic?;
      if !panicked {
        value := Some(v);
      }
    }

    /** `Deref::deref` delegates to `get`. */
    method Deref() returns (r: Outcome<T>)
      ensures r.Panic? <==> value.None?
      ensures r.Ok? ==> value == Some(r.value)
    {
      r := Get();
    }

    /** `DerefMut::deref_mut` delegates to `get_mut`. */
    method DerefMut() returns (r: Outcome<T>)
      ensures r.Panic? <==> value.None?
      ensures r.Ok? ==> value == Some(r.value)
    {
      r := GetMut();
    }

    /** `Drop::drop` as written: on an initialised cell it calls
        `drop_in_place` on the pointer the `UnsafeCell` hands out, which
        points to a `MaybeUninit<T>`.  `MaybeUninit<T>` has no drop glue, so
        no destructor runs, and a stored value is leaked.  `dropped` is the
        value whose destructor runs. */
    method Drop() returns (dropped: Option<T>)
      ensures dropped == None
    {
      dropped := None;
    }

    /** `Drop::drop` with `assume_init_drop` in place of `drop_in_place`:
        the stored value's destructor runs exactly when the cell is
        initialised. */
    method DropAssumeInit() returns (dropped: Option<T>)
      ensures dropped.Some? <==> value.Some?
      ensures dropped.Some? ==> dropped == value
    {
      if value.Some? {
        dropped := Some(value.value);
      } else {
        dropped := None;
      }
    }
  }

  /** A fresh cell initialised once gives back the value through every
      accessor, and a write through `get_mut` is what a later `get`
      returns. */
  method InitThenRead<T>(v: T, x: T) returns (got: Outcome<T>, mutable: Outcome<T>, after: Outcome<T>)
    ensures got == Ok(v) && mutable == Ok(v) && after == Ok(x)
  {
    var cell := new StaticCell<T>();
    var panicked := cell.Init(v);
    got := cell.Get();
    mutable := cell.GetMut();
    var failed := cell.AssignThroughGetMut(x);
    after := cell.Deref();
  }

  /** Before `init` every accessor panics; after one `init` a second one
      panics. */
  method MisusePanicsAlways<T>(v: T, w: T) returns (got: Outcome<T>, mutable: Outcome<T>, second: bool)
    ensures got.Panic? && mutable.Panic? && second
  {
    var cell := new StaticCell<T>();
    got := cell.Get();
    mutable := cell.DerefMut();
    var first := cell.Init(v);
    second := cell.Init(w);
  }

  /** Dropping an initialised cell as written runs no destructor: the value
      given to `init` is still in the cell and nothing is dropped. */
  method InitThenDropLeaks<T>(v: T) returns (dropped: Option<T>, stored: Option<T>)
    ensures dropped == None && stored == Some(v)
  {
    var cell := new StaticCell<T>();
    var panicked := cell.Init(v);
    dropped := cell.Drop();
    stored := cell.value;
  }

  /** With `assume_init_drop`, dropping an initialised cell drops exactly the
      value given to `init`, and dropping a cell never initialised drops
      nothing. */
  method InitThenDropFixed<T>(v: T) returns (dropped: Option<T>, untouched: Option<T>)
    ensures dropped == Some(v) && untouched == None
  {
    var cell := new StaticCell<T>();
    var panicked := cell.Init(v);
    dropped := cell.DropAssumeInit();
    var empty := new StaticCell<T>();
    untouched := empty.DropAssumeInit();
  }
}
