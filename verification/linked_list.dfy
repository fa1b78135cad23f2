/** The pointer-level `LinkedList` of index.js: nodes with `prev`/`next`
    links in an arena addressed by `Ptr`, the `#firstNode`/`#lastNode` end
    pointers, the `#length` counter and the `#valueMap` from value to node.
    Nodes are never freed: an unlinked node stays in the arena, which is how
    a stale end pointer keeps its value. Module LinkedRefinement relates this
    record to the abstract contents of module UniqueLists. */
module LinkedNodes {
  import opened Wrappers
  import opened UniqueLists

  type Ptr = nat

  datatype Node<T> = Node(value: T, prev: Option<Ptr>, next: Option<Ptr>)

  datatype LinkedList<T(==)> = LinkedList(
    first: Option<Ptr>,
    last: Option<Ptr>,
    length: int,
    valueMap: map<T, Ptr>,
    nodes: map<Ptr, Node<T>>,
    top: Ptr)

  /** A (possibly null) reference names a node that exists. */
  predicate InArena<T>(nodes: map<Ptr, Node<T>>, p: Option<Ptr>) {
    p.Some? ==> p.value in nodes
  }

  /** Every link held by a node names a node. */
  predicate Closed<T>(nodes: map<Ptr, Node<T>>) {
    forall p {:trigger nodes[p]} | p in nodes ::
      InArena(nodes, nodes[p].prev) && InArena(nodes, nodes[p].next)
  }

  /** Well-typed references, which JavaScript's object references give for
      free; `top` is above every allocated node. */
  predicate Arena<T(==)>(l: LinkedList<T>) {
    && Closed(l.nodes)
    && (forall p | p in l.nodes :: p < l.top)
    && InArena(l.nodes, l.first)
    && InArena(l.nodes, l.last)
    && (forall v | v in l.valueMap :: l.valueMap[v] in l.nodes)
  }

  /** A new, empty list: both end pointers null. */
  function Empty<T(==)>(): (l: LinkedList<T>)
    ensures Arena(l) && l.length == 0 && l.valueMap == map[]
  {
    LinkedList(None, None, 0, map[], map[], 0)
  }

  /** `first`: the value under `#firstNode`, whether or not it is stale. */
  function FirstValue<T(==)>(l: LinkedList<T>): Option<T>
    requires Arena(l)
  {
    if l.first.Some? then Some(l.nodes[l.first.value].value) else None
  }

  /** `last`: the value under `#lastNode`, whether or not it is stale. */
  function LastValue<T(==)>(l: LinkedList<T>): Option<T>
    requires Arena(l)
  {
    if l.last.Some? then Some(l.nodes[l.last.value].value) else None
  }

  /** `isEmpty`: decided by `#length` alone. */
  predicate IsEmpty<T(==)>(l: LinkedList<T>) {
    l.length == 0
  }

  /** `includes`: decided by the value map alone. */
  predicate Includes<T(==)>(l: LinkedList<T>, v: T) {
    v in l.valueMap
  }

  /** `#record`: count one more value and map it to its node. */
  function Record<T(==)>(l: LinkedList<T>, v: T, p: Ptr): LinkedList<T> {
    l.(length := l.length + 1, valueMap := l.valueMap[v := p])
  }

  /** `#unrecord`: count one value less and drop it from the map. */
  function Unrecord<T(==)>(l: LinkedList<T>, v: T): LinkedList<T> {
    l.(length := l.length - 1, valueMap := l.valueMap - {v})
  }

  /** The first `push` into an empty list: the new node becomes both ends. */
  function PushOnly<T(==)>(l: LinkedList<T>, v: T): (r: LinkedList<T>)
    requires Arena(l)
    ensures Arena(r)
  {
    var p := l.top;
    var l1 := l.(nodes := l.nodes[p := Node(v, None, None)], top := p + 1);
    Record(l1.(first := Some(p), last := Some(p)), v, p)
  }

  /** `push` onto a non-empty list: link the new node after `#lastNode`. */
  function PushLinked<T(==)>(l: LinkedList<T>, v: T): (r: LinkedList<T>)
    requires Arena(l) && l.last.Some?
    ensures Arena(r)
  {
    var p, q := l.top, l.last.value;
    var n1 := l.nodes[p := Node(v, None, None)];
    var n2 := n1[q := n1[q].(next := Some(p))];
    var n3 := n2[p := n2[p].(prev := Some(q))];
    Record(l.(nodes := n3, top := p + 1, last := Some(p)), v, p)
  }

  /** `push` when `#length` is non-zero but `#lastNode` is null: the node is
      allocated and becomes `#lastNode` without any link. */
  function PushUnlinked<T(==)>(l: LinkedList<T>, v: T): (r: LinkedList<T>)
    requires Arena(l)
    ensures Arena(r)
  {
    var p := l.top;
    Record(l.(nodes := l.nodes[p := Node(v, None, None)], top := p + 1, last := Some(p)), v, p)
  }

  /** `push`: refuses a present value; otherwise, by `isEmpty` and then by
      `#lastNode`, one of the three cases above. */
  function Push<T(==)>(l: LinkedList<T>, v: T): (r: Result<LinkedList<T>, ListError>)
    requires Arena(l)
    ensures r.Failure? <==> Includes(l, v)
    ensures r.Success? ==> Arena(r.value) && r.value.length == l.length + 1
    ensures r.Success? ==> Includes(r.value, v) && LastValue(r.value) == Some(v)
  {
    if Includes(l, v) then Failure(AlreadyContains)
    else if IsEmpty(l) then Success(PushOnly(l, v))
    else if l.last.Some? then Success(PushLinked(l, v))
    else Success(PushUnlinked(l, v))
  }

  /** `unshift` onto a non-empty list: link the new node before `#firstNode`. */
  function UnshiftLinked<T(==)>(l: LinkedList<T>, v: T): (r: LinkedList<T>)
    requires Arena(l) && l.first.Some?
    ensures Arena(r)
  {
    var p, f := l.top, l.first.value;
    var n1 := l.nodes[p := Node(v, None, Some(f))];
    var n2 := n1[f := n1[f].(prev := Some(p))];
    Record(l.(nodes := n2, top := p + 1, first := Some(p)), v, p)
  }

  /** `unshift`: refuses a present value; an empty list defers to `push`;
      otherwise `#firstNode` must be non-null. */
  function Unshift<T(==)>(l: LinkedList<T>, v: T): (r: Result<LinkedList<T>, ListError>)
    requires Arena(l)
    requires !Includes(l, v) && !IsEmpty(l) ==> l.first.Some?
    ensures r.Failure? <==> Includes(l, v)
    ensures r.Success? ==> Arena(r.value) && r.value.length == l.length + 1
    ensures r.Success? ==> Includes(r.value, v) && FirstValue(r.value) == Some(v)
  {
    if Includes(l, v) then Failure(AlreadyContains)
    else if IsEmpty(l) then Push(l, v)
    else Success(UnshiftLinked(l, v))
  }

  /** The general case of `insertAfter`: the new node goes between node `b`
      and its successor. */
  function InsertBetween<T(==)>(l: LinkedList<T>, v: T, b: Ptr): (r: LinkedList<T>)
    requires Arena(l) && b in l.nodes && l.nodes[b].next.Some?
    ensures Arena(r)
  {
    var p, a := l.top, l.nodes[b].next.value;
    var n1 := l.nodes[p := Node(v, Some(b), Some(a))];
    var n2 := n1[b := n1[b].(next := Some(p))];
    var n3 := n2[a := n2[a].(prev := Some(p))];
    Record(l.(nodes := n3, top := p + 1), v, p)
  }

  /** The calls of `insertAfter` that do not dereference null or undefined:
      a null reference needs what `unshift` needs; a non-null one must be
      mapped, and unless its node is `#lastNode` that node needs a successor. */
  predicate InsertAfterDefined<T(==)>(l: LinkedList<T>, v: T, ref: Option<T>)
    requires Arena(l)
  {
    !Includes(l, v) ==>
      if ref.None? then !IsEmpty(l) ==> l.first.Some?
      else
        && ref.value in l.valueMap
        && (Some(l.valueMap[ref.value]) != l.last ==> l.nodes[l.valueMap[ref.value]].next.Some?)
  }

  /** `insertAfter(v, ref)`: refuses a present value; a null `ref` unshifts,
      a `ref` held by `#lastNode` pushes, any other goes in after `ref`. */
  function InsertAfter<T(==)>(l: LinkedList<T>, v: T, ref: Option<T>): (r: Result<LinkedList<T>, ListError>)
    requires Arena(l)
    requires InsertAfterDefined(l, v, ref)
    ensures r.Failure? <==> Includes(l, v)
    ensures r.Success? ==> Arena(r.value) && r.value.length == l.length + 1
    ensures r.Success? ==> Includes(r.value, v)
  {
    if Includes(l, v) then Failure(AlreadyContains)
    else if ref.None? then Unshift(l, v)
    else
      var b := l.valueMap[ref.value];
      if Some(b) == l.last then Push(l, v)
      else Success(InsertBetween(l, v, b))
  }

  /** `pop`: read `last`, step `#lastNode` back to its `prev` and clear that
      node's `next`. Only `#lastNode` must be non-null: `#length` is not
      consulted. */
  function Pop<T(==)>(l: LinkedList<T>): (r: (LinkedList<T>, T))
    requires Arena(l) && l.last.Some?
    ensures Arena(r.0) && r.0.length == l.length - 1
    ensures Some(r.1) == LastValue(l) && !Includes(r.0, r.1)
  {
    var v := l.nodes[l.last.value].value;
    var newLast := l.nodes[l.last.value].prev;
    var l1 := l.(last := newLast);
    var l2 :=
      if newLast.Some? then l1.(nodes := l1.nodes[newLast.value := l1.nodes[newLast.value].(next := None)])
      else l1;
    (Unrecord(l2, v), v)
  }

  /** `shift`: read `first`, step `#firstNode` on to its `next` and clear
      that node's `prev`. Only `#firstNode` must be non-null. */
  function Shift<T(==)>(l: LinkedList<T>): (r: (LinkedList<T>, T))
    requires Arena(l) && l.first.Some?
    ensures Arena(r.0) && r.0.length == l.length - 1
    ensures Some(r.1) == FirstValue(l) && !Includes(r.0, r.1)
  {
    var v := l.nodes[l.first.value].value;
    var newFirst := l.nodes[l.first.value].next;
    var l1 := l.(first := newFirst);
    var l2 :=
      if newFirst.Some? then l1.(nodes := l1.nodes[newFirst.value := l1.nodes[newFirst.value].(prev := None)])
      else l1;
    (Unrecord(l2, v), v)
  }

  /** The general case of `remove`: link the neighbours of `v`'s node to each
      other. */
  function Unlink<T(==)>(l: LinkedList<T>, v: T): (r: LinkedList<T>)
    requires Arena(l) && v in l.valueMap
    requires l.nodes[l.valueMap[v]].prev.Some? && l.nodes[l.valueMap[v]].next.Some?
    ensures Arena(r) && r.length == l.length - 1 && !Includes(r, v)
  {
    var n := l.nodes[l.valueMap[v]];
    var b, a := n.prev.value, n.next.value;
    var n1 := l.nodes[b := l.nodes[b].(next := Some(a))];
    var n2 := n1[a := n1[a].(prev := Some(b))];
    Unrecord(l.(nodes := n2), v)
  }

  /** The calls of `remove` that do not dereference null or undefined: the
      value is mapped, and the end pointer that `shift` or `pop` would follow
      is non-null. */
  predicate RemoveDefined<T(==)>(l: LinkedList<T>, v: T)
    requires Arena(l)
  {
    && v in l.valueMap
    && var n := l.nodes[l.valueMap[v]];
       if n.prev.None? then l.first.Some?
       else n.next.None? ==> l.last.Some?
  }

  /** `remove(v)`: a node without `prev` is shifted off, one without `next`
      popped, any other unlinked. */
  function Remove<T(==)>(l: LinkedList<T>, v: T): (r: LinkedList<T>)
    requires Arena(l) && RemoveDefined(l, v)
    ensures Arena(r) && r.length == l.length - 1
  {
    var n := l.nodes[l.valueMap[v]];
    if n.prev.None? then Shift(l).0
    else if n.next.None? then Pop(l).0
    else Unlink(l, v)
  }

  /** The iterator: the values from node `p` along `next` until a null link,
      for at most `fuel` steps. */
  function Iterate<T>(nodes: map<Ptr, Node<T>>, p: Option<Ptr>, fuel: nat): seq<T>
    requires Closed(nodes) && InArena(nodes, p)
    decreases fuel
  {
    if fuel == 0 || p.None? then []
    else [nodes[p.value].value] + Iterate(nodes, nodes[p.value].next, fuel - 1)
  }

  /** The values the iterator of `l` yields, from `#firstNode`. */
  function Values<T(==)>(l: LinkedList<T>, fuel: nat): seq<T>
    requires Arena(l)
  {
    Iterate(l.nodes, l.first, fuel)
  }

  /** The iterator's values when it runs to its end: a walk that never
      revisits a node takes at most one step per node of the arena. */
  function Walk<T(==)>(l: LinkedList<T>): seq<T>
    requires Arena(l)
  {
    Values(l, |l.nodes|)
  }

  /** `join(separator)`: `[...this].join(separator)`, the string `str`
      gives each of the iterator's values, joined by `separator`. */
  function Join<T(==)>(l: LinkedList<T>, str: T -> string, sep: string): string
    requires Arena(l)
  {
    UniqueLists.Join(Strings(Walk(l), str), sep)
  }
}
