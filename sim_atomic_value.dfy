/**
 * The counter wrapper `sim_atomic_value_t`: a `long` value with init, paired init,
 * destroy, get, put, add, sub, inc and dec. Only the single-threaded meaning is
 * modelled (the mutex-guarded branches): every operation is one indivisible update.
 */
module SimAtomic {

  /** A mutex, known only by its identity. */
  class Mutex {
    constructor () {}
  }

  class AtomicValue {
    /** The wrapped value. */
    var value: int
    /** True when the mutex was supplied by the caller (paired init). */
    var paired: bool
    /** The value's mutex; null once destroyed. */
    var valueLock: Mutex?

    /** Storage for a wrapper that no init call has set up yet. */
    constructor ()
      ensures value == 0 && !paired && valueLock == null
    {
      value := 0;
      paired := false;
      valueLock := null;
    }

    /** `sim_atomic_init`: value 0, with a mutex of its own. */
    method Init()
      modifies this
      ensures value == 0 && !paired
      ensures valueLock != null && fresh(valueLock)
    {
      value := 0;
      paired := false;
      valueLock := new Mutex();
    }

    /** `sim_atomic_paired_init`: value 0, sharing the caller's mutex, which it does not own. */
    method PairedInit(mutex: Mutex)
      modifies this
      ensures value == 0 && paired && valueLock == mutex
    {
      value := 0;
      paired := true;
      valueLock := mutex;
    }

    /**
     * `sim_atomic_destroy`: the value becomes -1 and the mutex is dropped. The mutex is
     * released (returned in `released`) only when this wrapper owned it.
     */
    method Destroy() returns (released: Mutex?)
      modifies this
      ensures value == -1 && !paired && valueLock == null
      ensures released == (if old(paired) then null else old(valueLock))
    {
      value := -1;
      released := null;
      if !paired {
        released := valueLock;
      }
      paired := false;
      valueLock := null;
    }

    /** `sim_atomic_get`: the value currently stored, as the last put, add or sub left it. */
    function Get(): (v: int)
      reads this
      ensures v == value
    {
      value
    }

    /** `sim_atomic_put`: after `Put(v)`, `Get()` is `v`. */
    method Put(newval: int)
      modifies this
      ensures Get() == newval
      ensures paired == old(paired) && valueLock == old(valueLock)
    {
      value := newval;
    }

    /** `sim_atomic_add`: stores old + x and returns the new value. */
    method Add(x: int) returns (r: int)
      modifies this
      ensures value == old(value) + x && r == value
      ensures paired == old(paired) && valueLock == old(valueLock)
    {
      value := value + x;
      r := value;
    }

    /** `sim_atomic_sub`: stores old - x and returns the new value. */
    method Sub(x: int) returns (r: int)
      modifies this
      ensures value == old(value) - x && r == value
      ensures paired == old(paired) && valueLock == old(valueLock)
    {
      value := value - x;
      r := value;
    }

    /** `sim_atomic_inc`: adds one and returns the incremented value. */
    method Inc() returns (r: int)
      modifies this
      ensures value == old(value) + 1 && r == value
      ensures paired == old(paired) && valueLock == old(valueLock)
    {
      r := Add(1);
    }

    /** `sim_atomic_dec`: subtracts one and returns the decremented value. */
    method Dec() returns (r: int)
      modifies this
      ensures value == old(value) - 1 && r == value
      ensures paired == old(paired) && valueLock == old(valueLock)
    {
      r := Sub(1);
    }
  }

  /**
   * The documented laws of the wrapper, exercised on a fresh value: get after put,
   * add and sub inverse to each other, inc and dec by one.
   */
  method CounterLaws(v: int, x: int) returns (afterPut: int, afterAdd: int, afterSub: int, afterInc: int, afterDec: int)
    ensures afterPut == v && afterAdd == v + x && afterSub == v
    ensures afterInc == v + 1 && afterDec == v
  {
    var c := new AtomicValue();
    c.Init();
    c.Put(v);
    afterPut := c.Get();
    afterAdd := c.Add(x);
    afterSub := c.Sub(x);
    afterInc := c.Inc();
    afterDec := c.Dec();
  }
}
