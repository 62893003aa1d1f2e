/**
 `Queue<T>` of src/queue.rs with its synchronization stripped away: one
 critical section of `put` or `take` is one method call. The wait loops
 (`while guard.len() == guard.capacity()` and `while guard.is_empty()`) are
 the preconditions `!IsFull` and `!IsEmpty`, the states in which they exit.
 */
module Mpmc {
  import opened Wrappers
  import opened QueueSpec

  class Queue<T> {
    /** `guard.capacity()`: what `VecDeque::with_capacity` reserved; never changes. */
    const cap: nat
    /** The `VecDeque` behind the mutex, front first. */
    var items: seq<T>
    /** Every critical section completed so far, in the order the mutex admitted them. */
    ghost var ops: seq<Op<T>>
    /** Every value `take` has returned, in order. */
    ghost var taken: seq<T>

    /** The buffer stays within its capacity, and it and the values taken are
        what the sequential replay of `ops` yields. */
    ghost predicate Valid()
      reads this
    {
      |items| <= cap && Run(cap, ops) == Done(items, taken)
    }

    /** `Queue::with_capacity(count)` and `QueueData::with_capacity(count)`.
        `reserved` is the capacity `VecDeque::with_capacity(count)` chose,
        which is at least `count`. */
    constructor WithCapacity(count: nat, reserved: nat)
      requires count <= reserved
      ensures Valid()
      ensures cap == reserved && cap >= count
      ensures items == [] && ops == [] && taken == []
    {
      cap := reserved;
      items := [];
      ops := [];
      taken := [];
    }

    /** The queue as its documentation describes it: space for at most
        `count` elements, because the capacity the guard compares against is
        exactly `count`. */
    constructor WithExactCapacity(count: nat)
      ensures Valid()
      ensures cap == count
      ensures items == [] && ops == [] && taken == []
    {
      cap := count;
      items := [];
      ops := [];
      taken := [];
    }

    /** The critical section of `put(value)`, entered once its wait loop has exited. */
    method Put(value: T)
      requires Valid()
      requires !IsFull(cap, items)
      modifies this
      ensures Valid()
      ensures |items| <= cap
      ensures items == old(items) + [value]
      ensures ops == old(ops) + [Op.Put(value)] && taken == old(taken)
    {
      RunSnoc(cap, ops, Op.Put(value));
      items := items + [value];
      ops := ops + [Op.Put(value)];
    }

    /** The critical section of `take()`, entered once its wait loop has exited;
        the `unwrap()` of `pop_front()` is checked here. */
    method Take() returns (value: T)
      requires Valid()
      requires !IsEmpty(items)
      modifies this
      ensures Valid()
      ensures value == old(items)[0] && items == old(items)[1..]
      ensures ops == old(ops) + [Op.Take] && taken == old(taken) + [value]
    {
      RunSnoc(cap, ops, Op.Take);
      var front := PopFront(items).Unwrap();
      value := front.0;
      items := front.1;
      ops := ops + [Op.Take];
      taken := taken + [value];
    }
  }
}
