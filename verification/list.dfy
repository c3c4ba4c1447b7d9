/** The doubly linked list of tut_list.c.
    The C list keeps a node chain and, separately, a `length` counter and
    `head`/`tail` pointers that every operation updates by hand. The model
    keeps the chain as `items` and the three bookkeeping fields as the C
    code maintains them (a node is named by the value it holds), and proves
    that each operation keeps them consistent with the chain. */
module LinkedList {
  import opened Wrappers

  datatype List<T> = List(items: seq<T>, length: nat, head: Option<T>, tail: Option<T>)

  /** The bookkeeping fields agree with the chain. */
  ghost predicate Valid<T>(l: List<T>) {
    && l.length == |l.items|
    && (|l.items| == 0 ==> l.head == None && l.tail == None)
    && (|l.items| > 0 ==> l.head == Some(l.items[0]) && l.tail == Some(l.items[|l.items| - 1]))
  }

  /** Tut_InitList: empty, null head and tail. */
  function Init<T>(): (l: List<T>)
    ensures Valid(l) && l.items == []
  {
    List([], 0, None, None)
  }

  /** Tut_ListAppend, field by field as the C code updates them. */
  function Append<T>(l: List<T>, value: T): (r: List<T>)
    requires Valid(l)
    ensures Valid(r)
    ensures r.items == l.items + [value]
    ensures r.length == l.length + 1
    ensures r.tail == Some(value)
    ensures l.items == [] ==> r.head == r.tail
    ensures l.items != [] ==> r.head == l.head
  {
    if l.head.None? then List(l.items + [value], l.length + 1, Some(value), Some(value))
    else List(l.items + [value], l.length + 1, l.head, Some(value))
  }

  /** Tut_ListPrepend, field by field as the C code updates them. */
  function Prepend<T>(l: List<T>, value: T): (r: List<T>)
    requires Valid(l)
    ensures Valid(r)
    ensures r.items == [value] + l.items
    ensures r.length == l.length + 1
    ensures r.head == Some(value)
    ensures l.items == [] ==> r.head == r.tail
    ensures l.items != [] ==> r.tail == l.tail
  {
    if l.head.None? then List([value] + l.items, l.length + 1, Some(value), Some(value))
    else List([value] + l.items, l.length + 1, Some(value), l.tail)
  }

  /** Tut_DestroyList: every node freed, length 0, null head and tail. */
  function Destroy<T>(l: List<T>): (r: List<T>)
    ensures Valid(r) && r.length == 0 && r.head == None && r.tail == None
  {
    List([], 0, None, None)
  }

  /** Appending the elements of `xs` one by one (the TUT_LIST_EACH copy loops
      of the compiler) builds exactly `l.items + xs`. */
  function AppendAll<T>(l: List<T>, xs: seq<T>): (r: List<T>)
    requires Valid(l)
    ensures Valid(r)
    ensures r.items == l.items + xs
    decreases |xs|
  {
    if |xs| == 0 then l
    else
      var r := AppendAll(Append(l, xs[0]), xs[1..]);
      assert l.items + xs == (l.items + [xs[0]]) + xs[1..];
      r
  }
}
