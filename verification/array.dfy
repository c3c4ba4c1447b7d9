/** The growable array of tut_array.c.
    The C array owns `capacity` slots of memory of which the first `length`
    are in use. The model keeps the whole block as `mem` (so capacity is
    `|mem|`); a slot whose bytes were never written holds `None`. Slots past
    `length` keep their old contents, as the C memory does. */
module DynArray {
  import opened Wrappers

  /** TUT_ARRAY_INIT_CAPACITY */
  const InitCapacity: nat := 8

  datatype Arr<T> = Arr(mem: seq<Option<T>>, length: nat) {
    function Capacity(): nat {
      |mem|
    }

    ghost predicate Valid() {
      length <= |mem|
    }

    /** The elements in use, `[0, length)`. */
    function Items(): seq<Option<T>>
      requires Valid()
    {
      mem[..length]
    }
  }

  /** Tut_InitArray: no memory, no elements. */
  function Init<T>(): (a: Arr<T>)
    ensures a.Valid() && a.length == 0 && a.Capacity() == 0
  {
    Arr([], 0)
  }

  function Unwritten<T>(n: nat): (s: seq<Option<T>>)
    ensures |s| == n
    ensures forall i :: 0 <= i < n ==> s[i] == None
  {
    seq(n, _ => None)
  }

  /** Tut_ArrayReserve: capacity becomes max(old, requested); never shrinks. */
  function Reserve<T>(a: Arr<T>, capacity: nat): (r: Arr<T>)
    requires a.Valid()
    ensures r.Valid()
    ensures r.length == a.length
    ensures r.Capacity() == if a.Capacity() < capacity then capacity else a.Capacity()
    ensures r.mem[..a.Capacity()] == a.mem
  {
    if a.Capacity() < capacity then Arr(a.mem + Unwritten(capacity - a.Capacity()), a.length)
    else a
  }

  /** Tut_ArrayResize: length becomes `length`; with an `init` value every
      new slot `[prev, length)` holds it; slots below `prev` are unchanged. */
  function Resize<T>(a: Arr<T>, length: nat, init: Option<T>): (r: Arr<T>)
    requires a.Valid()
    ensures r.Valid()
    ensures r.length == length
    ensures r.Capacity() == if a.Capacity() < length then length else a.Capacity()
    ensures forall i :: 0 <= i < a.length && i < length ==> r.mem[i] == a.mem[i]
    ensures init.Some? ==> forall i :: a.length <= i < length ==> r.mem[i] == init
    ensures init.None? ==> r.mem[..a.Capacity()] == a.mem
    ensures forall i :: length <= i < a.Capacity() ==> r.mem[i] == a.mem[i]
  {
    var b := Reserve(a, length);
    if init.Some? && a.length < length then
      Arr(b.mem[..a.length] + seq(length - a.length, _ => init) + b.mem[length..], length)
    else
      Arr(b.mem, length)
  }

  /** Tut_ArrayGet; the C code asserts the index. */
  function Get<T>(a: Arr<T>, index: nat): (v: Option<T>)
    requires a.Valid() && index < a.length
    ensures v == a.Items()[index]
  {
    a.mem[index]
  }

  /** Tut_ArraySet: only slot `index` changes. */
  function Set<T>(a: Arr<T>, index: nat, value: T): (r: Arr<T>)
    requires a.Valid() && index < a.length
    ensures r.Valid() && r.length == a.length && r.Capacity() == a.Capacity()
    ensures Get(r, index) == Some(value)
    ensures forall i :: 0 <= i < |a.mem| && i != index ==> r.mem[i] == a.mem[i]
  {
    Arr(a.mem[index := Some(value)], a.length)
  }

  /** One growth step of the push loop: 0 becomes 8, anything else doubles. */
  function Step(capacity: nat): (c: nat)
    ensures c > capacity
  {
    if capacity == 0 then InitCapacity else 2 * capacity
  }

  /** The capacity after `k` growth steps. */
  function Grown(capacity: nat, k: nat): nat
    decreases k
  {
    if k == 0 then capacity else Grown(Step(capacity), k - 1)
  }

  /** The loop `while (length + 1 >= capacity) grow` of Tut_ArrayPush and
      Tut_ArrayInsert: the first capacity in the growth chain above `length + 1`. */
  function GrowCapacity(capacity: nat, length: nat): (c: nat)
    ensures c > length + 1
    ensures c >= capacity
    ensures capacity > length + 1 ==> c == capacity
    ensures exists k :: c == Grown(capacity, k)
    decreases if capacity > length + 1 then 0 else length + 2 - capacity
  {
    if length + 1 >= capacity then
      var c := GrowCapacity(Step(capacity), length);
      var k: nat :| c == Grown(Step(capacity), k);
      assert c == Grown(capacity, k + 1);
      c
    else
      assert capacity == Grown(capacity, 0);
      capacity
  }

  /** Tut_ArrayPush: one more element, the pushed value last, and room to spare. */
  function Push<T>(a: Arr<T>, value: T): (r: Arr<T>)
    requires a.Valid()
    ensures r.Valid()
    ensures r.length == a.length + 1
    ensures r.Items() == a.Items() + [Some(value)]
    ensures r.Capacity() > r.length
    ensures exists k :: r.Capacity() == Grown(a.Capacity(), k)
  {
    var b := Reserve(a, GrowCapacity(a.Capacity(), a.length));
    Arr(b.mem[a.length := Some(value)], a.length + 1)
  }

  /** Tut_ArrayPop: the last element, and one element fewer. */
  function Pop<T>(a: Arr<T>): (r: (Arr<T>, Option<T>))
    requires a.Valid() && a.length > 0
    ensures r.0.Valid()
    ensures r.0.length == a.length - 1
    ensures r.0.Capacity() == a.Capacity()
    ensures r.1 == a.Items()[a.length - 1]
    ensures a.Items() == r.0.Items() + [r.1]
  {
    (Arr(a.mem, a.length - 1), a.mem[a.length - 1])
  }

  /** Popping right after a push gives back the value and the old elements. */
  lemma PopAfterPush<T>(a: Arr<T>, value: T)
    requires a.Valid()
    ensures Pop(Push(a, value)).1 == Some(value)
    ensures Pop(Push(a, value)).0.Items() == a.Items()
  {
    var p := Push(a, value);
    assert p.Items()[..a.length] == a.Items();
  }

  /** Tut_ArrayInsert: `value` lands at `index`, `[index, length)` moves up by
      one, `[0, index)` stays. The C loop doubles without the 0 case; since
      `index < length` the capacity is positive, so the step is the same. */
  function Insert<T>(a: Arr<T>, index: nat, value: T): (r: Arr<T>)
    requires a.Valid() && index < a.length
    ensures r.Valid()
    ensures r.length == a.length + 1
    ensures r.Capacity() > r.length
    ensures r.Items() == a.Items()[..index] + [Some(value)] + a.Items()[index..]
  {
    var b := Reserve(a, GrowCapacity(a.Capacity(), a.length));
    var m := b.mem[..index] + [Some(value)] + b.mem[index..a.length] + b.mem[a.length + 1..];
    assert m[..a.length + 1] == b.mem[..index] + [Some(value)] + b.mem[index..a.length];
    Arr(m, a.length + 1)
  }

  /** Tut_ArrayClear: no elements, capacity kept. */
  function Clear<T>(a: Arr<T>): (r: Arr<T>)
    requires a.Valid()
    ensures r.Valid() && r.length == 0 && r.Capacity() == a.Capacity()
  {
    Arr(a.mem, 0)
  }

  /** Tut_ArrayCopy: `to` ends up with `from`'s length and elements. */
  function Copy<T>(from: Arr<T>, to: Arr<T>): (r: Arr<T>)
    requires from.Valid() && to.Valid()
    ensures r.Valid()
    ensures r.length == from.length
    ensures r.Items() == from.Items()
    ensures r.Capacity() == if to.Capacity() < from.length then from.length else to.Capacity()
  {
    var b := Reserve(to, from.length);
    Arr(from.mem[..from.length] + b.mem[from.length..], from.length)
  }
}
