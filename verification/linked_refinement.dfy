/** The representation invariant of `LinkedList` and the proof that every
    pointer-level operation of module LinkedNodes does to the abstract
    contents what the operation of the same name in module UniqueLists does.
    The chain is named by a ghost sequence of node pointers. */
module LinkedRefinement {
  import opened Wrappers
  import opened UniqueLists
  import opened LinkedNodes

  /** The node expected at position `i` of a chain: its value, and links to
      its neighbours in `ptrs` (null at either end). */
  function Cell<T>(s: seq<T>, ptrs: seq<Ptr>, i: nat): Node<T>
    requires i < |s| == |ptrs|
  {
    Node(s[i], if i == 0 then None else Some(ptrs[i - 1]),
         if i == |ptrs| - 1 then None else Some(ptrs[i + 1]))
  }

  /** The nodes at `ptrs` hold `s` and are linked both ways in that order. */
  ghost predicate Chain<T>(nodes: map<Ptr, Node<T>>, s: seq<T>, ptrs: seq<Ptr>)
    requires |s| == |ptrs|
  {
    && (forall i | 0 <= i < |ptrs| :: ptrs[i] in nodes)
    && (forall i {:trigger nodes[ptrs[i]]} | 0 <= i < |ptrs| :: nodes[ptrs[i]] == Cell(s, ptrs, i))
  }

  /** `x` has an entry in the value map. Keys are quantified through this
      predicate so that the values reached from a key do not feed back into
      new keys. */
  ghost predicate Mapped<T>(valueMap: map<T, Ptr>, x: T) {
    x in valueMap
  }

  /** The value map sends exactly the values of `s` to their nodes. */
  ghost predicate Indexes<T>(valueMap: map<T, Ptr>, s: seq<T>, ptrs: seq<Ptr>)
    requires |s| == |ptrs|
  {
    && (forall i | 0 <= i < |s| :: s[i] in valueMap && valueMap[s[i]] == ptrs[i])
    && (forall x {:trigger Mapped(valueMap, x)} | x in valueMap && Mapped(valueMap, x) :: x in s)
  }

  /** The representation invariant: `ptrs` are the chain's nodes holding `s`
      from head to tail, linked both ways, with the end pointers at its ends,
      `#length` equal to its length and the value map sending each value to
      its node. An empty list says nothing of its end pointers: they may be
      stale. */
  ghost predicate Valid<T>(l: LinkedList<T>, s: UList<T>, ptrs: seq<Ptr>) {
    && Arena(l)
    && l.length == |s| && |ptrs| == |s|
    && Distinct(ptrs)
    && Chain(l.nodes, s, ptrs)
    && (|s| > 0 ==> l.first == Some(ptrs[0]) && l.last == Some(ptrs[|s| - 1]))
    && Indexes(l.valueMap, s, ptrs)
  }

  /** Linking a new node after the tail node extends the chain by it. */
  lemma ChainAppend<T>(nodes: map<Ptr, Node<T>>, s: seq<T>, ptrs: seq<Ptr>, v: T, p: Ptr)
    requires |s| == |ptrs| > 0 && Distinct(ptrs) && p !in ptrs
    requires Chain(nodes, s, ptrs)
    ensures Chain(nodes[ptrs[|s| - 1] := nodes[ptrs[|s| - 1]].(next := Some(p))]
                       [p := Node(v, Some(ptrs[|s| - 1]), None)],
                  s + [v], ptrs + [p])
  {
    var q := ptrs[|s| - 1];
    var nodes' := nodes[q := nodes[q].(next := Some(p))][p := Node(v, Some(q), None)];
    var s', ptrs' := s + [v], ptrs + [p];
    forall i | 0 <= i < |ptrs'|
      ensures ptrs'[i] in nodes' && nodes'[ptrs'[i]] == Cell(s', ptrs', i)
    {
      if i < |s| - 1 {
        assert ptrs[i] != q;
        assert nodes'[ptrs'[i]] == nodes[ptrs[i]];
      }
    }
  }

  /** Linking a new node before the head node extends the chain by it. */
  lemma ChainPrepend<T>(nodes: map<Ptr, Node<T>>, s: seq<T>, ptrs: seq<Ptr>, v: T, p: Ptr)
    requires |s| == |ptrs| > 0 && Distinct(ptrs) && p !in ptrs
    requires Chain(nodes, s, ptrs)
    ensures Chain(nodes[p := Node(v, None, Some(ptrs[0]))]
                       [ptrs[0] := nodes[ptrs[0]].(prev := Some(p))],
                  [v] + s, [p] + ptrs)
  {
    var nodes' := nodes[p := Node(v, None, Some(ptrs[0]))][ptrs[0] := nodes[ptrs[0]].(prev := Some(p))];
    var s', ptrs' := [v] + s, [p] + ptrs;
    forall i | 0 <= i < |ptrs'|
      ensures ptrs'[i] in nodes' && nodes'[ptrs'[i]] == Cell(s', ptrs', i)
    {
      if i > 1 {
        assert ptrs'[i] == ptrs[i - 1] != ptrs[0];
        assert nodes'[ptrs'[i]] == nodes[ptrs[i - 1]];
      }
    }
  }

  /** Cutting the link into the tail node leaves the chain without it. */
  lemma ChainDropLast<T>(nodes: map<Ptr, Node<T>>, s: seq<T>, ptrs: seq<Ptr>)
    requires |s| == |ptrs| > 1 && Distinct(ptrs)
    requires Chain(nodes, s, ptrs)
    ensures Chain(nodes[ptrs[|s| - 2] := nodes[ptrs[|s| - 2]].(next := None)],
                  s[..|s| - 1], ptrs[..|s| - 1])
  {
    var q := ptrs[|s| - 2];
    var nodes' := nodes[q := nodes[q].(next := None)];
    var s', ptrs' := s[..|s| - 1], ptrs[..|s| - 1];
    forall i | 0 <= i < |ptrs'|
      ensures ptrs'[i] in nodes' && nodes'[ptrs'[i]] == Cell(s', ptrs', i)
    {
      if i < |s| - 2 {
        assert ptrs[i] != q;
      }
    }
  }

  /** Cutting the link into the head node leaves the chain without it. */
  lemma ChainDropFirst<T>(nodes: map<Ptr, Node<T>>, s: seq<T>, ptrs: seq<Ptr>)
    requires |s| == |ptrs| > 1 && Distinct(ptrs)
    requires Chain(nodes, s, ptrs)
    ensures Chain(nodes[ptrs[1] := nodes[ptrs[1]].(prev := None)], s[1..], ptrs[1..])
  {
    var nodes' := nodes[ptrs[1] := nodes[ptrs[1]].(prev := None)];
    var s', ptrs' := s[1..], ptrs[1..];
    forall i | 0 <= i < |ptrs'|
      ensures ptrs'[i] in nodes' && nodes'[ptrs'[i]] == Cell(s', ptrs', i)
    {
      if i > 0 {
        assert ptrs[i + 1] != ptrs[1];
      }
    }
  }

  /** One position of a spliced chain: before the gap nothing moves, after
      it everything moves down by one. */
  lemma SpliceCell<T>(nodes: map<Ptr, Node<T>>, s: seq<T>, ptrs: seq<Ptr>, k: nat, i: nat)
    requires |s| == |ptrs| && 0 < k < |s| - 1 && Distinct(ptrs)
    requires Chain(nodes, s, ptrs)
    requires i < |s| - 1
    ensures var b, a := ptrs[k - 1], ptrs[k + 1];
            var nodes' := nodes[b := nodes[b].(next := Some(a))][a := nodes[a].(prev := Some(b))];
            var s', ptrs' := s[..k] + s[k + 1..], ptrs[..k] + ptrs[k + 1..];
            ptrs'[i] in nodes' && nodes'[ptrs'[i]] == Cell(s', ptrs', i)
  {
    var b, a := ptrs[k - 1], ptrs[k + 1];
    var s', ptrs' := s[..k] + s[k + 1..], ptrs[..k] + ptrs[k + 1..];
    var j := if i < k then i else i + 1;
    assert ptrs'[i] == ptrs[j] && s'[i] == s[j];
    assert Cell(s, ptrs, j) == nodes[ptrs[j]];
    if i > 0 {
      assert ptrs'[i - 1] == (if i - 1 < k then ptrs[i - 1] else ptrs[i]);
    }
    if i < |ptrs'| - 1 {
      assert ptrs'[i + 1] == (if i + 1 < k then ptrs[i + 1] else ptrs[i + 2]);
    }
  }

  /** Linking the neighbours of an inner node to each other leaves the chain
      without it. */
  lemma ChainSplice<T>(nodes: map<Ptr, Node<T>>, s: seq<T>, ptrs: seq<Ptr>, k: nat)
    requires |s| == |ptrs| && 0 < k < |s| - 1 && Distinct(ptrs)
    requires Chain(nodes, s, ptrs)
    ensures Chain(nodes[ptrs[k - 1] := nodes[ptrs[k - 1]].(next := Some(ptrs[k + 1]))]
                       [ptrs[k + 1] := nodes[ptrs[k + 1]].(prev := Some(ptrs[k - 1]))],
                  s[..k] + s[k + 1..], ptrs[..k] + ptrs[k + 1..])
  {
    var b, a := ptrs[k - 1], ptrs[k + 1];
    var nodes' := nodes[b := nodes[b].(next := Some(a))][a := nodes[a].(prev := Some(b))];
    var s', ptrs' := s[..k] + s[k + 1..], ptrs[..k] + ptrs[k + 1..];
    forall i | 0 <= i < |ptrs'|
      ensures ptrs'[i] in nodes' && nodes'[ptrs'[i]] == Cell(s', ptrs', i)
    {
      SpliceCell(nodes, s, ptrs, k, i);
    }
  }

  /** Linking a new node between two neighbours extends the chain by it. */
  lemma ChainInsert<T>(nodes: map<Ptr, Node<T>>, s: seq<T>, ptrs: seq<Ptr>, k: nat, v: T, p: Ptr)
    requires |s| == |ptrs| && k < |s| - 1 && Distinct(ptrs) && p !in ptrs
    requires Chain(nodes, s, ptrs)
    ensures Chain(nodes[p := Node(v, Some(ptrs[k]), Some(ptrs[k + 1]))]
                       [ptrs[k] := nodes[ptrs[k]].(next := Some(p))]
                       [ptrs[k + 1] := nodes[ptrs[k + 1]].(prev := Some(p))],
                  s[..k + 1] + [v] + s[k + 1..], ptrs[..k + 1] + [p] + ptrs[k + 1..])
  {
    var b, a := ptrs[k], ptrs[k + 1];
    var nodes' := nodes[p := Node(v, Some(b), Some(a))][b := nodes[b].(next := Some(p))]
                       [a := nodes[a].(prev := Some(p))];
    var s', ptrs' := s[..k + 1] + [v] + s[k + 1..], ptrs[..k + 1] + [p] + ptrs[k + 1..];
    forall i | 0 <= i < |ptrs'|
      ensures ptrs'[i] in nodes' && nodes'[ptrs'[i]] == Cell(s', ptrs', i)
    {
      if i < k {
        assert ptrs'[i] == ptrs[i] && ptrs[i] != a && ptrs[i] != b;
        assert ptrs'[i + 1] == ptrs[i + 1] && s'[i] == s[i];
      } else if i == k {
        assert ptrs'[i] == b && ptrs'[i + 1] == p && s'[i] == s[i];
      } else if i == k + 1 {
        assert ptrs'[i] == p && ptrs'[i - 1] == b && ptrs'[i + 1] == a && s'[i] == v;
      } else if i == k + 2 {
        assert ptrs'[i] == a && ptrs'[i - 1] == p && s'[i] == s[i - 1];
        if i < |ptrs'| - 1 {
          assert ptrs'[i + 1] == ptrs[i];
        }
      } else {
        assert ptrs'[i] == ptrs[i - 1] && ptrs[i - 1] != a && ptrs[i - 1] != b;
        assert s'[i] == s[i - 1] && ptrs'[i - 1] == ptrs[i - 2];
        if i < |ptrs'| - 1 {
          assert ptrs'[i + 1] == ptrs[i];
        }
      }
    }
  }

  /** Dropping position `k` keeps a sequence duplicate-free. */
  lemma DistinctDrop<T>(s: seq<T>, k: nat)
    requires Distinct(s) && k < |s|
    ensures Distinct(s[..k] + s[k + 1..])
  {
    var t := s[..k] + s[k + 1..];
    forall i, j | 0 <= i < j < |t|
      ensures t[i] != t[j]
    {
      var i' := if i < k then i else i + 1;
      var j' := if j < k then j else j + 1;
      assert t[i] == s[i'] && t[j] == s[j'];
    }
  }

  /** Adding an absent value at position `k` keeps a sequence duplicate-free. */
  lemma DistinctAdd<T>(s: seq<T>, k: nat, v: T)
    requires Distinct(s) && k <= |s| && v !in s
    ensures Distinct(s[..k] + [v] + s[k..])
  {
    var t := s[..k] + [v] + s[k..];
    forall i, j | 0 <= i < j < |t|
      ensures t[i] != t[j]
    {
      if i != k && j != k {
        var i' := if i < k then i else i - 1;
        var j' := if j < k then j else j - 1;
        assert t[i] == s[i'] && t[j] == s[j'];
      } else if i == k {
        assert t[j] == s[j - 1];
      } else {
        assert t[i] == s[i];
      }
    }
  }

  /** Unmapping the value at position `k` matches dropping that position. */
  lemma IndexesDrop<T>(m: map<T, Ptr>, s: seq<T>, ptrs: seq<Ptr>, k: nat)
    requires |s| == |ptrs| && k < |s| && Distinct(s)
    requires Indexes(m, s, ptrs)
    ensures Indexes(m - {s[k]}, s[..k] + s[k + 1..], ptrs[..k] + ptrs[k + 1..])
  {
    var m', s', ptrs' := m - {s[k]}, s[..k] + s[k + 1..], ptrs[..k] + ptrs[k + 1..];
    forall i | 0 <= i < |s'|
      ensures s'[i] in m' && m'[s'[i]] == ptrs'[i]
    {
      var j := if i < k then i else i + 1;
      assert s'[i] == s[j] && ptrs'[i] == ptrs[j] && j != k;
    }
    forall x | x in m' && Mapped(m', x)
      ensures x in s'
    {
      assert Mapped(m, x);
      var j :| 0 <= j < |s| && s[j] == x;
      assert j != k;
      assert s'[if j < k then j else j - 1] == x;
    }
  }

  /** Mapping a new value to a new node matches adding it at position `k`. */
  lemma IndexesAdd<T>(m: map<T, Ptr>, s: seq<T>, ptrs: seq<Ptr>, k: nat, v: T, p: Ptr)
    requires |s| == |ptrs| && k <= |s| && v !in s
    requires Indexes(m, s, ptrs)
    ensures Indexes(m[v := p], s[..k] + [v] + s[k..], ptrs[..k] + [p] + ptrs[k..])
  {
    var m', s', ptrs' := m[v := p], s[..k] + [v] + s[k..], ptrs[..k] + [p] + ptrs[k..];
    forall i | 0 <= i < |s'|
      ensures s'[i] in m' && m'[s'[i]] == ptrs'[i]
    {
      if i < k {
        assert s'[i] == s[i] && ptrs'[i] == ptrs[i];
      } else if i > k {
        assert s'[i] == s[i - 1] && ptrs'[i] == ptrs[i - 1];
      }
    }
    forall x | x in m' && Mapped(m', x)
      ensures x in s'
    {
      if x != v {
        assert Mapped(m, x);
        var j :| 0 <= j < |s| && s[j] == x;
        assert s'[if j < k then j else j + 1] == x;
      } else {
        assert s'[k] == v;
      }
    }
  }


  /** Every node of the chain lies below `top`, so a new node is never one of
      them. */
  lemma ChainBelowTop<T>(l: LinkedList<T>, s: UList<T>, ptrs: seq<Ptr>)
    requires Valid(l, s, ptrs)
    ensures l.top !in ptrs
  {
  }

  /** `includes` on the nodes is membership in the contents. */
  lemma IncludesRefines<T>(l: LinkedList<T>, s: UList<T>, ptrs: seq<Ptr>, v: T)
    requires Valid(l, s, ptrs)
    ensures Includes(l, v) <==> v in s
  {
    if v in l.valueMap {
      assert Mapped(l.valueMap, v);
    }
  }

  /** A new list holds nothing. */
  lemma EmptyRefines<T>()
    ensures Valid(Empty<T>(), [], [])
  {
  }

  /** The first value pushed into an empty list, stale end pointers or not. */
  lemma PushOnlyValid<T>(l: LinkedList<T>, s: UList<T>, v: T)
    requires Valid(l, s, []) && v !in s
    ensures Valid(PushOnly(l, v), UniqueLists.Push(s, v).value, [l.top])
  {
    forall x | x in l.valueMap
      ensures false
    {
      assert Mapped(l.valueMap, x);
    }
  }

  /** The links `push` leaves on a non-empty list. */
  lemma PushLinkedChain<T>(l: LinkedList<T>, s: UList<T>, ptrs: seq<Ptr>, v: T)
    requires Arena(l) && |s| == |ptrs| > 0 && Distinct(ptrs) && Chain(l.nodes, s, ptrs)
    requires l.last == Some(ptrs[|s| - 1]) && l.top !in ptrs
    ensures Chain(PushLinked(l, v).nodes, s + [v], ptrs + [l.top])
  {
    var p, q := l.top, ptrs[|s| - 1];
    assert PushLinked(l, v).nodes == l.nodes[q := l.nodes[q].(next := Some(p))][p := Node(v, Some(q), None)];
    ChainAppend(l.nodes, s, ptrs, v, p);
  }

  /** A value added at the tail gets the new node in the value map. */
  lemma AppendIndexes<T>(m: map<T, Ptr>, s: seq<T>, ptrs: seq<Ptr>, v: T, p: Ptr)
    requires |s| == |ptrs| && Distinct(ptrs) && p !in ptrs && v !in s
    requires Indexes(m, s, ptrs)
    ensures Distinct(ptrs + [p]) && Indexes(m[v := p], s + [v], ptrs + [p])
  {
    assert s + [v] == s[..|s|] + [v] + s[|s|..];
    assert ptrs + [p] == ptrs[..|s|] + [p] + ptrs[|s|..];
    DistinctAdd(ptrs, |s|, p);
    IndexesAdd(m, s, ptrs, |s|, v, p);
  }

  /** A value added at the head gets the new node in the value map. */
  lemma PrependIndexes<T>(m: map<T, Ptr>, s: seq<T>, ptrs: seq<Ptr>, v: T, p: Ptr)
    requires |s| == |ptrs| && Distinct(ptrs) && p !in ptrs && v !in s
    requires Indexes(m, s, ptrs)
    ensures Distinct([p] + ptrs) && Indexes(m[v := p], [v] + s, [p] + ptrs)
  {
    assert [v] + s == s[..0] + [v] + s[0..];
    assert [p] + ptrs == ptrs[..0] + [p] + ptrs[0..];
    DistinctAdd(ptrs, 0, p);
    IndexesAdd(m, s, ptrs, 0, v, p);
  }

  /** A value pushed onto a non-empty list joins the chain at its tail. */
  lemma PushLinkedValid<T>(l: LinkedList<T>, s: UList<T>, ptrs: seq<Ptr>, v: T)
    requires Valid(l, s, ptrs) && |s| > 0 && v !in s
    ensures Valid(PushLinked(l, v), UniqueLists.Push(s, v).value, ptrs + [l.top])
  {
    ChainBelowTop(l, s, ptrs);
    PushLinkedChain(l, s, ptrs, v);
    AppendIndexes(l.valueMap, s, ptrs, v, l.top);
  }

  /** `push` on the nodes is `push` on the contents: the same refusal, and on
      success the chain grows by a new node at its tail. */
  lemma PushRefines<T>(l: LinkedList<T>, s: UList<T>, ptrs: seq<Ptr>, v: T)
    requires Valid(l, s, ptrs)
    ensures LinkedNodes.Push(l, v).Failure? <==> UniqueLists.Push(s, v).Failure?
    ensures LinkedNodes.Push(l, v).Success? ==>
              Valid(LinkedNodes.Push(l, v).value, UniqueLists.Push(s, v).value, ptrs + [l.top])
  {
    IncludesRefines(l, s, ptrs, v);
    if v !in s {
      if |s| == 0 {
        PushOnlyValid(l, s, v);
      } else {
        PushLinkedValid(l, s, ptrs, v);
      }
    }
  }

  /** The links `unshift` leaves on a non-empty list. */
  lemma UnshiftLinkedChain<T>(l: LinkedList<T>, s: UList<T>, ptrs: seq<Ptr>, v: T)
    requires Arena(l) && |s| == |ptrs| > 0 && Distinct(ptrs) && Chain(l.nodes, s, ptrs)
    requires l.first == Some(ptrs[0]) && l.top !in ptrs
    ensures Chain(UnshiftLinked(l, v).nodes, [v] + s, [l.top] + ptrs)
  {
    var p, f := l.top, ptrs[0];
    assert UnshiftLinked(l, v).nodes == l.nodes[p := Node(v, None, Some(f))][f := l.nodes[f].(prev := Some(p))];
    ChainPrepend(l.nodes, s, ptrs, v, p);
  }

  /** A value unshifted onto a non-empty list joins the chain at its head. */
  lemma UnshiftLinkedValid<T>(l: LinkedList<T>, s: UList<T>, ptrs: seq<Ptr>, v: T)
    requires Valid(l, s, ptrs) && |s| > 0 && v !in s
    ensures Valid(UnshiftLinked(l, v), UniqueLists.Unshift(s, v).value, [l.top] + ptrs)
  {
    ChainBelowTop(l, s, ptrs);
    UnshiftLinkedChain(l, s, ptrs, v);
    PrependIndexes(l.valueMap, s, ptrs, v, l.top);
  }

  /** `unshift` on the nodes is `unshift` on the contents. */
  lemma UnshiftRefines<T>(l: LinkedList<T>, s: UList<T>, ptrs: seq<Ptr>, v: T)
    requires Valid(l, s, ptrs)
    ensures !Includes(l, v) && !IsEmpty(l) ==> l.first.Some?
    ensures LinkedNodes.Unshift(l, v).Failure? <==> UniqueLists.Unshift(s, v).Failure?
    ensures LinkedNodes.Unshift(l, v).Success? ==>
              Valid(LinkedNodes.Unshift(l, v).value, UniqueLists.Unshift(s, v).value, [l.top] + ptrs)
  {
    IncludesRefines(l, s, ptrs, v);
    if v !in s {
      if |s| == 0 {
        PushOnlyValid(l, s, v);
      } else {
        UnshiftLinkedValid(l, s, ptrs, v);
      }
    }
  }

  /** Dropping the tail value unmaps it and drops its node. */
  lemma DropLastIndexes<T>(m: map<T, Ptr>, s: seq<T>, ptrs: seq<Ptr>)
    requires |s| == |ptrs| > 0 && Distinct(s) && Distinct(ptrs)
    requires Indexes(m, s, ptrs)
    ensures Distinct(ptrs[..|s| - 1]) && Indexes(m - {s[|s| - 1]}, s[..|s| - 1], ptrs[..|s| - 1])
  {
    var k := |s| - 1;
    assert s[..k] + s[k + 1..] == s[..k];
    assert ptrs[..k] + ptrs[k + 1..] == ptrs[..k];
    DistinctDrop(ptrs, k);
    IndexesDrop(m, s, ptrs, k);
  }

  /** Dropping the head value unmaps it and drops its node. */
  lemma DropFirstIndexes<T>(m: map<T, Ptr>, s: seq<T>, ptrs: seq<Ptr>)
    requires |s| == |ptrs| > 0 && Distinct(s) && Distinct(ptrs)
    requires Indexes(m, s, ptrs)
    ensures Distinct(ptrs[1..]) && Indexes(m - {s[0]}, s[1..], ptrs[1..])
  {
    assert s[..0] + s[1..] == s[1..];
    assert ptrs[..0] + ptrs[1..] == ptrs[1..];
    DistinctDrop(ptrs, 0);
    IndexesDrop(m, s, ptrs, 0);
  }

  /** The links `pop` leaves when the tail has a predecessor. */
  lemma PopChain<T>(l: LinkedList<T>, s: seq<T>, ptrs: seq<Ptr>)
    requires Arena(l) && |s| == |ptrs| > 1 && Distinct(ptrs) && Chain(l.nodes, s, ptrs)
    requires l.last == Some(ptrs[|s| - 1])
    ensures LinkedNodes.Pop(l).0.last == Some(ptrs[|s| - 2])
    ensures Chain(LinkedNodes.Pop(l).0.nodes, s[..|s| - 1], ptrs[..|s| - 1])
  {
    var q := ptrs[|s| - 2];
    assert l.nodes[ptrs[|s| - 1]] == Cell(s, ptrs, |s| - 1);
    assert LinkedNodes.Pop(l).0.nodes == l.nodes[q := l.nodes[q].(next := None)];
    ChainDropLast(l.nodes, s, ptrs);
  }

  /** The links `shift` leaves when the head has a successor. */
  lemma ShiftChain<T>(l: LinkedList<T>, s: seq<T>, ptrs: seq<Ptr>)
    requires Arena(l) && |s| == |ptrs| > 1 && Distinct(ptrs) && Chain(l.nodes, s, ptrs)
    requires l.first == Some(ptrs[0])
    ensures LinkedNodes.Shift(l).0.first == Some(ptrs[1])
    ensures Chain(LinkedNodes.Shift(l).0.nodes, s[1..], ptrs[1..])
  {
    assert l.nodes[ptrs[0]] == Cell(s, ptrs, 0);
    assert LinkedNodes.Shift(l).0.nodes == l.nodes[ptrs[1] := l.nodes[ptrs[1]].(prev := None)];
    ChainDropFirst(l.nodes, s, ptrs);
  }

  /** `pop` on the nodes is `pop` on the contents: it needs only a non-empty
      list, returns the tail value and leaves the chain without its tail. */
  lemma PopRefines<T>(l: LinkedList<T>, s: UList<T>, ptrs: seq<Ptr>)
    requires Valid(l, s, ptrs) && |s| > 0
    ensures l.last.Some?
    ensures LinkedNodes.Pop(l).1 == UniqueLists.Pop(s).1
    ensures Valid(LinkedNodes.Pop(l).0, UniqueLists.Pop(s).0, ptrs[..|s| - 1])
  {
    assert l.nodes[ptrs[|s| - 1]] == Cell(s, ptrs, |s| - 1);
    assert UniqueLists.Pop(s) == (s[..|s| - 1], s[|s| - 1]);
    DropLastIndexes(l.valueMap, s, ptrs);
    if |s| > 1 {
      PopChain(l, s, ptrs);
    }
  }

  /** `shift` on the nodes is `shift` on the contents. */
  lemma ShiftRefines<T>(l: LinkedList<T>, s: UList<T>, ptrs: seq<Ptr>)
    requires Valid(l, s, ptrs) && |s| > 0
    ensures l.first.Some?
    ensures LinkedNodes.Shift(l).1 == UniqueLists.Shift(s).1
    ensures Valid(LinkedNodes.Shift(l).0, UniqueLists.Shift(s).0, ptrs[1..])
  {
    assert l.nodes[ptrs[0]] == Cell(s, ptrs, 0);
    assert UniqueLists.Shift(s) == (s[1..], s[0]);
    DropFirstIndexes(l.valueMap, s, ptrs);
    if |s| > 1 {
      ShiftChain(l, s, ptrs);
    }
  }

  /** Dropping the value at position `k` unmaps it and drops its node. */
  lemma DropIndexes<T>(m: map<T, Ptr>, s: seq<T>, ptrs: seq<Ptr>, k: nat)
    requires |s| == |ptrs| && k < |s| && Distinct(s) && Distinct(ptrs)
    requires Indexes(m, s, ptrs)
    ensures Distinct(ptrs[..k] + ptrs[k + 1..])
    ensures Indexes(m - {s[k]}, s[..k] + s[k + 1..], ptrs[..k] + ptrs[k + 1..])
  {
    DistinctDrop(ptrs, k);
    IndexesDrop(m, s, ptrs, k);
  }

  /** Adding a value at position `k` maps it to its new node `p`. */
  lemma InsertIndexes<T>(m: map<T, Ptr>, s: seq<T>, ptrs: seq<Ptr>, k: nat, v: T, p: Ptr)
    requires |s| == |ptrs| && k <= |s| && Distinct(ptrs) && p !in ptrs && v !in s
    requires Indexes(m, s, ptrs)
    ensures Distinct(ptrs[..k] + [p] + ptrs[k..])
    ensures Indexes(m[v := p], s[..k] + [v] + s[k..], ptrs[..k] + [p] + ptrs[k..])
  {
    DistinctAdd(ptrs, k, p);
    IndexesAdd(m, s, ptrs, k, v, p);
  }

  /** The abstract `remove` of the value at position `k`. */
  lemma RemoveAt<T>(s: UList<T>, k: nat)
    requires k < |s|
    ensures UniqueLists.Remove(s, s[k]) == s[..k] + s[k + 1..]
  {
    IndexOfUnique(s, k);
    RemoveKeepsOrder(s, s[k]);
  }

  /** The abstract `insertAfter` behind an inner position `k`. */
  lemma InsertAt<T>(s: UList<T>, v: T, k: nat)
    requires k < |s| - 1 && v !in s
    ensures UniqueLists.InsertAfter(s, v, Some(s[k])).Success?
    ensures UniqueLists.InsertAfter(s, v, Some(s[k])).value == s[..k + 1] + [v] + s[k + 1..]
  {
    IndexOfUnique(s, k);
    assert Last(s) != Some(s[k]) by {
      assert s[|s| - 1] != s[k];
    }
  }

  /** The links `remove` leaves when it splices out an inner node. */
  lemma UnlinkChain<T>(l: LinkedList<T>, s: seq<T>, ptrs: seq<Ptr>, k: nat)
    requires Arena(l) && |s| == |ptrs| && 0 < k < |s| - 1 && Distinct(ptrs)
    requires Chain(l.nodes, s, ptrs)
    requires s[k] in l.valueMap && l.valueMap[s[k]] == ptrs[k]
    requires l.nodes[ptrs[k]] == Cell(s, ptrs, k)
    ensures Chain(Unlink(l, s[k]).nodes, s[..k] + s[k + 1..], ptrs[..k] + ptrs[k + 1..])
  {
    var b, a := ptrs[k - 1], ptrs[k + 1];
    assert Unlink(l, s[k]).nodes == l.nodes[b := l.nodes[b].(next := Some(a))][a := l.nodes[a].(prev := Some(b))];
    ChainSplice(l.nodes, s, ptrs, k);
  }

  /** An inner value is spliced out of the chain. */
  lemma UnlinkValid<T>(l: LinkedList<T>, s: UList<T>, ptrs: seq<Ptr>, k: nat, s': UList<T>)
    requires Valid(l, s, ptrs) && 0 < k < |s| - 1
    requires s' == s[..k] + s[k + 1..]
    ensures l.nodes[l.valueMap[s[k]]].prev.Some? && l.nodes[l.valueMap[s[k]]].next.Some?
    ensures Valid(Unlink(l, s[k]), s', ptrs[..k] + ptrs[k + 1..])
  {
    assert l.valueMap[s[k]] == ptrs[k];
    assert l.nodes[ptrs[k]] == Cell(s, ptrs, k);
    UnlinkChain(l, s, ptrs, k);
    DropIndexes(l.valueMap, s, ptrs, k);
    var r, ptrs' := Unlink(l, s[k]), ptrs[..k] + ptrs[k + 1..];
    assert r.valueMap == l.valueMap - {s[k]} && r.first == l.first && r.last == l.last;
    assert |ptrs'| == |s| - 1 && ptrs'[0] == ptrs[0] && ptrs'[|s| - 2] == ptrs[|s| - 1];
  }

  /** Dropping the first or the last position of a sequence by slicing
      around it. */
  lemma DropEnds<T>(s: seq<T>)
    requires |s| > 0
    ensures s[..0] + s[0 + 1..] == s[1..]
    ensures s[..|s| - 1] + s[|s| - 1 + 1..] == s[..|s| - 1]
  {
  }

  /** A node without `prev` is removed by `shift`. */
  lemma RemoveHeadIsShift<T>(l: LinkedList<T>, v: T)
    requires Arena(l) && v in l.valueMap && l.first.Some?
    requires l.nodes[l.valueMap[v]].prev.None?
    ensures RemoveDefined(l, v) && LinkedNodes.Remove(l, v) == LinkedNodes.Shift(l).0
  {
  }

  /** A node with `prev` but without `next` is removed by `pop`. */
  lemma RemoveTailIsPop<T>(l: LinkedList<T>, v: T)
    requires Arena(l) && v in l.valueMap && l.last.Some?
    requires l.nodes[l.valueMap[v]].prev.Some? && l.nodes[l.valueMap[v]].next.None?
    ensures RemoveDefined(l, v) && LinkedNodes.Remove(l, v) == LinkedNodes.Pop(l).0
  {
  }

  /** Removing the head value is `shift`, on the nodes and on the contents. */
  lemma RemoveHeadRefines<T>(l: LinkedList<T>, s: UList<T>, ptrs: seq<Ptr>, v: T)
    requires Valid(l, s, ptrs) && v in s && IndexOf(s, v) == 0
    ensures RemoveDefined(l, v)
    ensures Valid(LinkedNodes.Remove(l, v), UniqueLists.Remove(s, v),
                  ptrs[..IndexOf(s, v)] + ptrs[IndexOf(s, v) + 1..])
  {
    assert v == s[0];
    ShiftRefines(l, s, ptrs);
    assert RemoveDefined(l, v) && LinkedNodes.Remove(l, v) == LinkedNodes.Shift(l).0 by {
      assert l.valueMap[s[0]] == ptrs[0];
      assert l.nodes[ptrs[0]] == Cell(s, ptrs, 0);
      RemoveHeadIsShift(l, v);
    }
    assert UniqueLists.Remove(s, v) == UniqueLists.Shift(s).0 by {
      RemoveAt(s, 0);
      DropEnds(s);
    }
    assert ptrs[..IndexOf(s, v)] + ptrs[IndexOf(s, v) + 1..] == ptrs[1..] by {
      DropEnds(ptrs);
    }
  }

  /** Removing the tail value of a longer list is `pop`. */
  lemma RemoveTailRefines<T>(l: LinkedList<T>, s: UList<T>, ptrs: seq<Ptr>, v: T)
    requires Valid(l, s, ptrs) && v in s && 0 < IndexOf(s, v) == |s| - 1
    ensures RemoveDefined(l, v)
    ensures Valid(LinkedNodes.Remove(l, v), UniqueLists.Remove(s, v),
                  ptrs[..IndexOf(s, v)] + ptrs[IndexOf(s, v) + 1..])
  {
    var k := |s| - 1;
    assert v == s[k];
    PopRefines(l, s, ptrs);
    assert RemoveDefined(l, v) && LinkedNodes.Remove(l, v) == LinkedNodes.Pop(l).0 by {
      assert l.valueMap[s[k]] == ptrs[k];
      assert l.nodes[ptrs[k]] == Cell(s, ptrs, k);
      RemoveTailIsPop(l, v);
    }
    assert UniqueLists.Remove(s, v) == UniqueLists.Pop(s).0 by {
      RemoveAt(s, k);
      DropEnds(s);
    }
    assert ptrs[..IndexOf(s, v)] + ptrs[IndexOf(s, v) + 1..] == ptrs[..|s| - 1] by {
      DropEnds(ptrs);
    }
  }

  /** Removing an inner value splices its node out. */
  lemma RemoveInnerRefines<T>(l: LinkedList<T>, s: UList<T>, ptrs: seq<Ptr>, v: T)
    requires Valid(l, s, ptrs) && v in s && 0 < IndexOf(s, v) < |s| - 1
    ensures RemoveDefined(l, v)
    ensures Valid(LinkedNodes.Remove(l, v), UniqueLists.Remove(s, v),
                  ptrs[..IndexOf(s, v)] + ptrs[IndexOf(s, v) + 1..])
  {
    var k := IndexOf(s, v);
    assert l.valueMap[s[k]] == ptrs[k];
    assert l.nodes[ptrs[k]] == Cell(s, ptrs, k);
    RemoveAt(s, k);
    UnlinkValid(l, s, ptrs, k, UniqueLists.Remove(s, v));
  }

  /** `remove` on the nodes is `remove` on the contents: every value of the
      list can be removed without dereferencing null, whichever of `shift`,
      `pop` or the splice its position selects. */
  lemma RemoveRefines<T>(l: LinkedList<T>, s: UList<T>, ptrs: seq<Ptr>, v: T)
    requires Valid(l, s, ptrs) && v in s
    ensures RemoveDefined(l, v)
    ensures Valid(LinkedNodes.Remove(l, v), UniqueLists.Remove(s, v),
                  ptrs[..IndexOf(s, v)] + ptrs[IndexOf(s, v) + 1..])
  {
    var k := IndexOf(s, v);
    if k == 0 {
      RemoveHeadRefines(l, s, ptrs, v);
    } else if k == |s| - 1 {
      RemoveTailRefines(l, s, ptrs, v);
    } else {
      RemoveInnerRefines(l, s, ptrs, v);
    }
  }

  /** The chain after `insertAfter`: the new node `p` at the head for a null
      reference, otherwise right behind the reference's node. */
  function AfterPtrs<T(==)>(s: seq<T>, ptrs: seq<Ptr>, ref: Option<T>, p: Ptr): (r: seq<Ptr>)
    requires |s| == |ptrs| && (ref.Some? ==> ref.value in s)
    ensures |r| == |ptrs| + 1 && p in r
  {
    if ref.None? then [p] + ptrs
    else
      var k := IndexOf(s, ref.value);
      assert (ptrs[..k + 1] + [p] + ptrs[k + 1..])[k + 1] == p;
      ptrs[..k + 1] + [p] + ptrs[k + 1..]
  }

  /** The links `insertAfter` leaves between two neighbours. */
  lemma InsertBetweenChain<T>(l: LinkedList<T>, s: seq<T>, ptrs: seq<Ptr>, v: T, k: nat)
    requires Arena(l) && |s| == |ptrs| && k < |s| - 1 && Distinct(ptrs) && l.top !in ptrs
    requires Chain(l.nodes, s, ptrs)
    requires l.nodes[ptrs[k]].next == Some(ptrs[k + 1])
    ensures Chain(InsertBetween(l, v, ptrs[k]).nodes, s[..k + 1] + [v] + s[k + 1..],
                  ptrs[..k + 1] + [l.top] + ptrs[k + 1..])
  {
    var p, b, a := l.top, ptrs[k], ptrs[k + 1];
    assert InsertBetween(l, v, b).nodes
        == l.nodes[p := Node(v, Some(b), Some(a))][b := l.nodes[b].(next := Some(p))][a := l.nodes[a].(prev := Some(p))];
    ChainInsert(l.nodes, s, ptrs, k, v, p);
  }

  /** A value inserted behind an inner node joins the chain there. */
  lemma InsertBetweenValid<T>(l: LinkedList<T>, s: UList<T>, ptrs: seq<Ptr>, v: T, k: nat)
    requires Valid(l, s, ptrs) && k < |s| - 1 && v !in s
    ensures ptrs[k] in l.nodes && l.nodes[ptrs[k]].next.Some?
    ensures Valid(InsertBetween(l, v, ptrs[k]), UniqueLists.InsertAfter(s, v, Some(s[k])).value,
                  ptrs[..k + 1] + [l.top] + ptrs[k + 1..])
  {
    assert l.nodes[ptrs[k]] == Cell(s, ptrs, k);
    ChainBelowTop(l, s, ptrs);
    InsertAt(s, v, k);
    InsertBetweenChain(l, s, ptrs, v, k);
    InsertIndexes(l.valueMap, s, ptrs, k + 1, v, l.top);
    var r, s', ptrs' := InsertBetween(l, v, ptrs[k]), UniqueLists.InsertAfter(s, v, Some(s[k])).value, ptrs[..k + 1] + [l.top] + ptrs[k + 1..];
    assert |s'| == |s| + 1 && ptrs'[|s'| - 1] == ptrs[|s| - 1];
  }

  /** `insertAfter` behind the tail value is `push`, on the nodes and on the
      contents alike. */
  lemma InsertAfterLastIsPush<T>(l: LinkedList<T>, s: UList<T>, ptrs: seq<Ptr>, v: T)
    requires Valid(l, s, ptrs) && |s| > 0 && v !in s
    ensures InsertAfterDefined(l, v, Some(s[|s| - 1]))
    ensures LinkedNodes.InsertAfter(l, v, Some(s[|s| - 1])) == LinkedNodes.Push(l, v)
    ensures UniqueLists.InsertAfter(s, v, Some(s[|s| - 1])) == UniqueLists.Push(s, v)
    ensures AfterPtrs(s, ptrs, Some(s[|s| - 1]), l.top) == ptrs + [l.top]
  {
    var k := |s| - 1;
    IncludesRefines(l, s, ptrs, v);
    assert l.valueMap[s[k]] == ptrs[k] && l.last == Some(ptrs[k]);
    InsertAfterTailPushes(l, v, s[k]);
    AfterPtrsLast(s, ptrs, l.top);
  }

  /** A reference held by `#lastNode` makes `insertAfter` a `push`. */
  lemma InsertAfterTailPushes<T>(l: LinkedList<T>, v: T, r: T)
    requires Arena(l) && !Includes(l, v) && r in l.valueMap && Some(l.valueMap[r]) == l.last
    ensures InsertAfterDefined(l, v, Some(r))
    ensures LinkedNodes.InsertAfter(l, v, Some(r)) == LinkedNodes.Push(l, v)
  {
  }

  /** The chain after `insertAfter` behind the tail value. */
  lemma AfterPtrsLast<T>(s: UList<T>, ptrs: seq<Ptr>, p: Ptr)
    requires |s| == |ptrs| > 0
    ensures AfterPtrs(s, ptrs, Some(s[|s| - 1]), p) == ptrs + [p]
  {
    var k := |s| - 1;
    IndexOfUnique(s, k);
    assert ptrs[..k + 1] + [p] + ptrs[k + 1..] == ptrs + [p];
  }

  /** A reference whose node is not `#lastNode` but has a successor makes
      `insertAfter` splice the new node in behind it. */
  lemma InsertAfterSplices<T>(l: LinkedList<T>, v: T, r: T)
    requires Arena(l) && !Includes(l, v) && r in l.valueMap
    requires Some(l.valueMap[r]) != l.last && l.nodes[l.valueMap[r]].next.Some?
    ensures InsertAfterDefined(l, v, Some(r))
    ensures LinkedNodes.InsertAfter(l, v, Some(r)) == Success(InsertBetween(l, v, l.valueMap[r]))
  {
  }

  /** The chain after `insertAfter` behind the inner position `k`. */
  lemma AfterPtrsInner<T>(s: UList<T>, ptrs: seq<Ptr>, k: nat, p: Ptr)
    requires |s| == |ptrs| && k < |s|
    ensures AfterPtrs(s, ptrs, Some(s[k]), p) == ptrs[..k + 1] + [p] + ptrs[k + 1..]
  {
    IndexOfUnique(s, k);
  }

  /** `insertAfter` behind an inner value splices a node in behind it. */
  lemma InsertAfterInnerIsBetween<T>(l: LinkedList<T>, s: UList<T>, ptrs: seq<Ptr>, v: T, k: nat)
    requires Valid(l, s, ptrs) && k < |s| - 1 && v !in s
    ensures ptrs[k] in l.nodes && l.nodes[ptrs[k]].next.Some?
    ensures InsertAfterDefined(l, v, Some(s[k]))
    ensures LinkedNodes.InsertAfter(l, v, Some(s[k])) == Success(InsertBetween(l, v, ptrs[k]))
    ensures AfterPtrs(s, ptrs, Some(s[k]), l.top) == ptrs[..k + 1] + [l.top] + ptrs[k + 1..]
  {
    IncludesRefines(l, s, ptrs, v);
    assert l.valueMap[s[k]] == ptrs[k];
    assert l.nodes[ptrs[k]] == Cell(s, ptrs, k);
    assert l.last == Some(ptrs[|s| - 1]) && ptrs[k] != ptrs[|s| - 1];
    InsertAfterSplices(l, v, s[k]);
    AfterPtrsInner(s, ptrs, k, l.top);
  }

  /** `insertAfter` on the nodes is `insertAfter` on the contents: the same
      refusal, every reference in the list accepted, and the new node placed
      at the head or right behind the reference's node. */
  lemma InsertAfterRefines<T>(l: LinkedList<T>, s: UList<T>, ptrs: seq<Ptr>, v: T, ref: Option<T>)
    requires Valid(l, s, ptrs) && (ref.Some? ==> ref.value in s)
    ensures InsertAfterDefined(l, v, ref)
    ensures LinkedNodes.InsertAfter(l, v, ref).Failure? <==> UniqueLists.InsertAfter(s, v, ref).Failure?
    ensures LinkedNodes.InsertAfter(l, v, ref).Success? ==>
              Valid(LinkedNodes.InsertAfter(l, v, ref).value, UniqueLists.InsertAfter(s, v, ref).value,
                    AfterPtrs(s, ptrs, ref, l.top))
  {
    if v !in s {
      if ref.None? {
        UnshiftRefines(l, s, ptrs, v);
      } else {
        var k := IndexOf(s, ref.value);
        if k == |s| - 1 {
          InsertAfterLastIsPush(l, s, ptrs, v);
          PushRefines(l, s, ptrs, v);
        } else {
          InsertAfterInnerIsBetween(l, s, ptrs, v, k);
          InsertBetweenValid(l, s, ptrs, v, k);
        }
      }
    }
  }

  /** The getters on the nodes agree with the contents: `length` and
      `isEmpty` by the counter, `first` and `last` by the end pointers, which
      are current whenever the list holds something. */
  lemma ObserversRefine<T>(l: LinkedList<T>, s: UList<T>, ptrs: seq<Ptr>)
    requires Valid(l, s, ptrs)
    ensures l.length == |s| && (IsEmpty(l) <==> |s| == 0)
    ensures |s| > 0 ==> FirstValue(l) == First(s) && LastValue(l) == Last(s)
  {
    if |s| > 0 {
      assert l.nodes[ptrs[0]] == Cell(s, ptrs, 0);
      assert l.nodes[ptrs[|s| - 1]] == Cell(s, ptrs, |s| - 1);
    }
  }

  /** `getNode(v)` gives the node holding `v`, whose links lead to the values
      next to `v` in the contents, or are null at either end. */
  lemma GetNodeRefines<T>(l: LinkedList<T>, s: UList<T>, ptrs: seq<Ptr>, v: T)
    requires Valid(l, s, ptrs) && v in s
    ensures v in l.valueMap && l.valueMap[v] in l.nodes
    ensures l.nodes[l.valueMap[v]].value == v
    ensures l.nodes[l.valueMap[v]].next.None? <==> NextOf(s, v).None?
    ensures l.nodes[l.valueMap[v]].next.Some? ==>
              Some(l.nodes[l.nodes[l.valueMap[v]].next.value].value) == NextOf(s, v)
    ensures l.nodes[l.valueMap[v]].prev.None? <==> PrevOf(s, v).None?
    ensures l.nodes[l.valueMap[v]].prev.Some? ==>
              Some(l.nodes[l.nodes[l.valueMap[v]].prev.value].value) == PrevOf(s, v)
  {
    var k := IndexOf(s, v);
    assert l.valueMap[v] == ptrs[k];
    assert l.nodes[ptrs[k]] == Cell(s, ptrs, k);
    if k > 0 {
      assert l.nodes[ptrs[k - 1]] == Cell(s, ptrs, k - 1);
    }
    if k < |s| - 1 {
      assert l.nodes[ptrs[k + 1]] == Cell(s, ptrs, k + 1);
    }
  }

  /** Walking the chain from position `k` yields the contents from `k` on,
      given enough steps. */
  lemma {:induction false} IterateChain<T>(nodes: map<Ptr, Node<T>>, s: seq<T>, ptrs: seq<Ptr>, k: nat, fuel: nat)
    requires Closed(nodes) && |s| == |ptrs| && Chain(nodes, s, ptrs)
    requires k < |s| && fuel >= |s| - k
    ensures Iterate(nodes, Some(ptrs[k]), fuel) == s[k..]
    decreases |s| - k
  {
    assert nodes[ptrs[k]] == Cell(s, ptrs, k);
    if k < |s| - 1 {
      IterateChain(nodes, s, ptrs, k + 1, fuel - 1);
      assert s[k..] == [s[k]] + s[k + 1..];
    }
  }

  /** The iterator of a non-empty list yields exactly its contents, in order,
      and stops at the null link after the tail. */
  lemma IteratorRefines<T>(l: LinkedList<T>, s: UList<T>, ptrs: seq<Ptr>, fuel: nat)
    requires Valid(l, s, ptrs) && |s| > 0 && fuel >= |s|
    ensures Values(l, fuel) == s
  {
    IterateChain(l.nodes, s, ptrs, 0, fuel);
  }

  /** A duplicate-free chain in the arena has no more nodes than the arena. */
  lemma {:induction false} ChainFitsArena<T>(nodes: map<Ptr, Node<T>>, ptrs: seq<Ptr>)
    requires Distinct(ptrs) && forall i | 0 <= i < |ptrs| :: ptrs[i] in nodes
    ensures |ptrs| <= |nodes|
    decreases |ptrs|
  {
    if |ptrs| > 0 {
      var p := ptrs[|ptrs| - 1];
      var rest := ptrs[..|ptrs| - 1];
      forall i | 0 <= i < |rest|
        ensures rest[i] in nodes - {p}
      {
        assert rest[i] == ptrs[i] != p;
      }
      ChainFitsArena(nodes - {p}, rest);
    }
  }

  /** The iterator of a non-empty list, run to its end, yields exactly its
      contents. */
  lemma WalkRefines<T>(l: LinkedList<T>, s: UList<T>, ptrs: seq<Ptr>)
    requires Valid(l, s, ptrs) && |s| > 0
    ensures Walk(l) == s
  {
    ChainFitsArena(l.nodes, ptrs);
    IteratorRefines(l, s, ptrs, |l.nodes|);
  }

  /** `join` on a non-empty list joins the strings of its contents. */
  lemma JoinRefines<T>(l: LinkedList<T>, s: UList<T>, ptrs: seq<Ptr>, str: T -> string, sep: string)
    requires Valid(l, s, ptrs) && |s| > 0
    ensures LinkedNodes.Join(l, str, sep) == UniqueLists.Join(Strings(s, str), sep)
  {
    WalkRefines(l, s, ptrs);
  }

  /** A duplicate-free sequence has as many distinct values as positions. */
  lemma {:induction false} DistinctCount<T>(s: seq<T>)
    requires Distinct(s)
    ensures |set x | x in s| == |s|
    decreases |s|
  {
    if |s| > 0 {
      var rest := s[..|s| - 1];
      DistinctCount(rest);
      assert (set x | x in s) == (set x | x in rest) + {s[|s| - 1]};
      assert s[|s| - 1] !in rest;
    }
  }

  /** The keys of a value map that indexes `s` are the values of `s`. */
  lemma KeysAreContents<T>(m: map<T, Ptr>, s: seq<T>, ptrs: seq<Ptr>)
    requires |s| == |ptrs| && Indexes(m, s, ptrs)
    ensures m.Keys == set x | x in s
  {
    forall x | x in m
      ensures x in s
    {
      assert Mapped(m, x);
    }
  }

  /** `#length` counts the values recorded in `#valueMap`. */
  lemma LengthCountsMap<T>(l: LinkedList<T>, s: UList<T>, ptrs: seq<Ptr>)
    requires Valid(l, s, ptrs)
    ensures |l.valueMap| == l.length
  {
    KeysAreContents(l.valueMap, s, ptrs);
    DistinctCount(s);
    assert |l.valueMap| == |l.valueMap.Keys|;
  }

  /** On a non-empty list, the iterator visits `length` distinct values, from
      the value `first` reports to the one `last` reports. */
  lemma IterationVisitsLength<T>(l: LinkedList<T>, s: UList<T>, ptrs: seq<Ptr>)
    requires Valid(l, s, ptrs) && |s| > 0
    ensures |Walk(l)| == l.length && Distinct(Walk(l))
    ensures First(Walk(l)) == FirstValue(l) && Last(Walk(l)) == LastValue(l)
  {
    WalkRefines(l, s, ptrs);
    ObserversRefine(l, s, ptrs);
  }

  /** `pop` empties a one-value list through `#lastNode` only: `#firstNode`
      keeps the popped node, so `first` and the iterator still report the
      popped value while `isEmpty` holds. */
  lemma PopSoleLeavesStaleFirst<T>(l: LinkedList<T>, s: UList<T>, ptrs: seq<Ptr>)
    requires Valid(l, s, ptrs) && |s| == 1
    ensures l.last.Some? && IsEmpty(LinkedNodes.Pop(l).0)
    ensures LinkedNodes.Pop(l).0.last.None?
    ensures FirstValue(LinkedNodes.Pop(l).0) == Some(s[0])
    ensures Walk(LinkedNodes.Pop(l).0) == [s[0]]
  {
    assert l.nodes[ptrs[0]] == Cell(s, ptrs, 0);
    ChainFitsArena(l.nodes, ptrs);
    var e := LinkedNodes.Pop(l).0;
    assert e.nodes == l.nodes && e.first == Some(ptrs[0]);
    assert Iterate(e.nodes, e.first, |e.nodes|) == [s[0]] + Iterate(e.nodes, None, |e.nodes| - 1);
  }

  /** `shift` empties a one-value list through `#firstNode` only: `#lastNode`
      keeps the shifted node, so `last` still reports it while the iterator
      yields nothing. */
  lemma ShiftSoleLeavesStaleLast<T>(l: LinkedList<T>, s: UList<T>, ptrs: seq<Ptr>)
    requires Valid(l, s, ptrs) && |s| == 1
    ensures l.first.Some? && IsEmpty(LinkedNodes.Shift(l).0)
    ensures LinkedNodes.Shift(l).0.first.None?
    ensures LastValue(LinkedNodes.Shift(l).0) == Some(s[0])
    ensures Walk(LinkedNodes.Shift(l).0) == []
  {
    assert l.nodes[ptrs[0]] == Cell(s, ptrs, 0);
  }

  /** `pop` consults only `#lastNode`: after `shift` has drained a one-value
      list, `pop` still succeeds, returns the value already shifted off and
      takes `#length` below zero. */
  lemma PopAfterDrainingShift<T>(l: LinkedList<T>, s: UList<T>, ptrs: seq<Ptr>)
    requires Valid(l, s, ptrs) && |s| == 1
    ensures l.first.Some? && LinkedNodes.Shift(l).0.last.Some?
    ensures LinkedNodes.Pop(LinkedNodes.Shift(l).0).1 == s[0]
    ensures LinkedNodes.Pop(LinkedNodes.Shift(l).0).0.length == -1
  {
    assert l.nodes[ptrs[0]] == Cell(s, ptrs, 0);
  }
}
