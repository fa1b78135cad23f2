/** The abstract view of `LinkedList` (index.js): the values from head to tail,
    each at most once. Every operation is stated on this sequence; the
    pointer-level implementation in module LinkedNodes refines it. */
module UniqueLists {
  import opened Wrappers

  /** No value occurs twice. */
  predicate Distinct<T(==)>(s: seq<T>) {
    forall i, j | 0 <= i < j < |s| :: s[i] != s[j]
  }

  /** The contents of a list: its values in order, none of them repeated
      (the value map admits each value once). */
  type UList<T(==)> = s: seq<T> | Distinct(s) witness []

  /** The one error the list raises on purpose: "list already contains value". */
  datatype ListError = AlreadyContains

  /** Position of `v`; stands in for the value map's `get`. */
  function IndexOf<T(==)>(s: seq<T>, v: T): (i: nat)
    requires v in s
    ensures i < |s| && s[i] == v
    ensures v !in s[..i]
  {
    if s[0] == v then 0 else 1 + IndexOf(s[1..], v)
  }

  /** In a list, a value's position is the only index holding it. */
  lemma IndexOfUnique<T>(s: UList<T>, i: int)
    requires 0 <= i < |s|
    ensures IndexOf(s, s[i]) == i
  {
  }

  /** `first`: the head value, `None` on an empty list. */
  function First<T>(s: seq<T>): Option<T> {
    if |s| == 0 then None else Some(s[0])
  }

  /** `last`: the tail value, `None` on an empty list. */
  function Last<T>(s: seq<T>): Option<T> {
    if |s| == 0 then None else Some(s[|s| - 1])
  }

  /** The value of `getNode(v).next`: the value right after `v`. */
  function NextOf<T(==)>(s: UList<T>, v: T): (r: Option<T>)
    requires v in s
    ensures forall i | 0 <= i < |s| && s[i] == v ::
              r == (if i + 1 < |s| then Some(s[i + 1]) else None)
  {
    var i := IndexOf(s, v);
    if i + 1 < |s| then Some(s[i + 1]) else None
  }

  /** The value of `getNode(v).prev`: the value right before `v`. */
  function PrevOf<T(==)>(s: UList<T>, v: T): (r: Option<T>)
    requires v in s
    ensures forall i | 0 <= i < |s| && s[i] == v ::
              r == (if i > 0 then Some(s[i - 1]) else None)
  {
    var i := IndexOf(s, v);
    if i > 0 then Some(s[i - 1]) else None
  }

  /** `push`: append at the tail, refusing a value already present. */
  function Push<T(==)>(s: UList<T>, v: T): (r: Result<UList<T>, ListError>)
    ensures r.Failure? <==> v in s
    ensures r.Success? ==> |r.value| == |s| + 1 && r.value[..|s|] == s
    ensures r.Success? ==> Last(r.value) == Some(v)
  {
    if v in s then Failure(AlreadyContains) else Success(s + [v])
  }

  /** `unshift`: prepend at the head, refusing a value already present. */
  function Unshift<T(==)>(s: UList<T>, v: T): (r: Result<UList<T>, ListError>)
    ensures r.Failure? <==> v in s
    ensures r.Success? ==> |r.value| == |s| + 1 && r.value[1..] == s
    ensures r.Success? ==> First(r.value) == Some(v)
  {
    if v in s then Failure(AlreadyContains) else Success([v] + s)
  }

  /** `pop`: the tail value and the list without it. Popping an empty list
      dereferences `null` in the source, hence the precondition. */
  function Pop<T(==)>(s: UList<T>): (r: (UList<T>, T))
    requires |s| > 0
    ensures r.0 + [r.1] == s
  {
    (s[..|s| - 1], s[|s| - 1])
  }

  /** `shift`: the head value and the list without it. */
  function Shift<T(==)>(s: UList<T>): (r: (UList<T>, T))
    requires |s| > 0
    ensures [r.1] + r.0 == s
  {
    (s[1..], s[0])
  }

  /** `remove`: unlink `v` wherever it is. A head node (no predecessor) is
      shifted off, a tail node (no successor) popped, any other node spliced
      out. */
  function Remove<T(==)>(s: UList<T>, v: T): (r: UList<T>)
    requires v in s
    ensures |r| == |s| - 1
    ensures v !in r
    ensures multiset(r) == multiset(s) - multiset{v}
  {
    var i := IndexOf(s, v);
    DropAt(s, i);
    if i == 0 then
      assert s[1..] == s[..i] + s[i + 1..];
      Shift(s).0
    else if i == |s| - 1 then
      assert s[..|s| - 1] == s[..i] + s[i + 1..];
      Pop(s).0
    else
      s[..i] + s[i + 1..]
  }

  /** Dropping position `i` of a list leaves a list without `s[i]` and with
      every other value once. */
  lemma DropAt<T>(s: UList<T>, i: nat)
    requires i < |s|
    ensures Distinct(s[..i] + s[i + 1..])
    ensures s[i] !in s[..i] + s[i + 1..]
    ensures multiset(s[..i] + s[i + 1..]) == multiset(s) - multiset{s[i]}
  {
    var t := s[..i] + s[i + 1..];
    assert forall j | 0 <= j < |t| :: t[j] == if j < i then s[j] else s[j + 1];
    assert s == s[..i] + [s[i]] + s[i + 1..];
    assert multiset(s) == multiset(s[..i]) + multiset{s[i]} + multiset(s[i + 1..]);
  }

  /** `remove` keeps the other values in order: everything before `v` stays in
      front, everything after `v` moves up by one. */
  lemma RemoveKeepsOrder<T>(s: UList<T>, v: T)
    requires v in s
    ensures Remove(s, v) == s[..IndexOf(s, v)] + s[IndexOf(s, v) + 1..]
  {
    var i := IndexOf(s, v);
    if i == 0 {
      assert s[..i] + s[i + 1..] == s[1..];
    } else if i == |s| - 1 {
      assert s[..i] + s[i + 1..] == s[..|s| - 1];
    }
  }

  /** `insertAfter(v, ref)`: a missing `ref` unshifts, the tail as `ref`
      pushes, otherwise `v` lands right after `ref`. The duplicate check comes
      first; an absent non-null `ref` dereferences `undefined` in the source. */
  function InsertAfter<T(==)>(s: UList<T>, v: T, ref: Option<T>): (r: Result<UList<T>, ListError>)
    requires v !in s && ref.Some? ==> ref.value in s
    ensures r.Failure? <==> v in s
    ensures r.Success? ==> multiset(r.value) == multiset(s) + multiset{v}
    ensures r.Success? && ref.None? ==> First(r.value) == Some(v)
    ensures r.Success? && ref.Some? ==>
              ref.value in r.value && NextOf(r.value, ref.value) == Some(v)
  {
    if v in s then Failure(AlreadyContains)
    else if ref.None? then Unshift(s, v)
    else if Last(s) == ref then
      var r := Push(s, v);
      assert r.value[|s| - 1] == ref.value;
      r
    else
      var i := IndexOf(s, ref.value);
      var t := s[..i + 1] + [v] + s[i + 1..];
      SpliceIn(s, v, i + 1);
      assert t[i] == ref.value && t[i + 1] == v;
      Success(t)
  }

  /** Splicing a new value in at position `j` keeps the values distinct and
      adds just that value. */
  lemma SpliceIn<T>(s: UList<T>, v: T, j: nat)
    requires v !in s && j <= |s|
    ensures Distinct(s[..j] + [v] + s[j..])
    ensures multiset(s[..j] + [v] + s[j..]) == multiset(s) + multiset{v}
  {
    var r := s[..j] + [v] + s[j..];
    assert forall i | 0 <= i < |r| :: r[i] == if i < j then s[i] else if i == j then v else s[i - 1];
    assert s == s[..j] + s[j..];
    assert multiset(r) == multiset(s[..j]) + multiset{v} + multiset(s[j..]);
  }

  /** `pop` undoes `push`. */
  lemma PopUndoesPush<T>(s: UList<T>, v: T)
    requires v !in s
    ensures Push(s, v).Success? && Pop(Push(s, v).value) == (s, v)
  {
  }

  /** `shift` undoes `unshift`. */
  lemma ShiftUndoesUnshift<T>(s: UList<T>, v: T)
    requires v !in s
    ensures Unshift(s, v).Success? && Shift(Unshift(s, v).value) == (s, v)
  {
  }

  /** Removing a freshly inserted value gives back the list it was inserted
      into: `insertAfter` moves no other value. */
  lemma RemoveUndoesInsertAfter<T>(s: UList<T>, v: T, ref: Option<T>)
    requires v !in s && (ref.Some? ==> ref.value in s)
    ensures InsertAfter(s, v, ref).Success?
    ensures Remove(InsertAfter(s, v, ref).value, v) == s
  {
    var j: nat;
    if ref.None? {
      j := 0;
      assert [v] + s == s[..j] + [v] + s[j..];
    } else if Last(s) == ref {
      j := |s|;
      assert s + [v] == s[..j] + [v] + s[j..];
    } else {
      InsertAfterInner(s, v, ref.value);
      j := IndexOf(s, ref.value) + 1;
    }
    RemoveSpliced(s, v, j);
  }

  /** Behind a value other than the last, `insertAfter` splices. */
  lemma InsertAfterInner<T>(s: UList<T>, v: T, ref: T)
    requires v !in s && ref in s && Last(s) != Some(ref)
    ensures InsertAfter(s, v, Some(ref))
            == Success(s[..IndexOf(s, ref) + 1] + [v] + s[IndexOf(s, ref) + 1..])
  {
  }

  /** Removing a value spliced in at position `j` gives back the list it was
      spliced into. */
  lemma RemoveSpliced<T>(s: UList<T>, v: T, j: nat)
    requires v !in s && j <= |s|
    ensures Distinct(s[..j] + [v] + s[j..])
    ensures Remove(s[..j] + [v] + s[j..], v) == s
  {
    var r := s[..j] + [v] + s[j..];
    SpliceIn(s, v, j);
    assert r[j] == v;
    IndexOfUnique(r, j);
    RemoveKeepsOrder(r, v);
    assert r[..j] == s[..j] && r[j + 1..] == s[j..];
  }

  /** Taking `v` out and inserting it again after its former predecessor
      restores the list. This is why `reinsertMember` treats a drop onto the
      predecessor as no move at all. */
  lemma InsertAfterPredecessorUndoesRemove<T>(s: UList<T>, v: T)
    requires v in s
    ensures InsertAfter(Remove(s, v), v, PrevOf(s, v)) == Success(s)
  {
    var i := IndexOf(s, v);
    IndexOfUnique(s, i);
    RemoveKeepsOrder(s, v);
    var t := Remove(s, v);
    assert t == s[..i] + s[i + 1..];
    if i == 0 {
      assert [v] + t == s;
    } else {
      var p := s[i - 1];
      assert PrevOf(s, v) == Some(p);
      assert t[i - 1] == p;
      IndexOfUnique(t, i - 1);
      if i == |s| - 1 {
        assert Last(t) == Some(p);
        assert t + [v] == s;
      } else {
        assert Last(t) != Some(p) by {
          assert t[|t| - 1] == s[|s| - 1];
        }
        assert t[..i] + [v] + t[i..] == s;
      }
    }
  }

  /** Taking `v` out and inserting it again anywhere keeps the same values
      and the same length. */
  lemma MoveKeepsValues<T>(s: UList<T>, v: T, ref: Option<T>)
    requires v in s && (ref.Some? ==> ref.value in s && ref.value != v)
    ensures ref.Some? ==> ref.value in Remove(s, v)
    ensures InsertAfter(Remove(s, v), v, ref).Success?
    ensures multiset(InsertAfter(Remove(s, v), v, ref).value) == multiset(s)
    ensures |InsertAfter(Remove(s, v), v, ref).value| == |s|
  {
    var t := Remove(s, v);
    if ref.Some? {
      assert ref.value in multiset(t);
    }
    var r := InsertAfter(t, v, ref).value;
    assert v in multiset(s);
    assert multiset(r) == multiset(s) - multiset{v} + multiset{v};
    assert multiset(s) - multiset{v} + multiset{v} == multiset(s);
    assert |r| == |multiset(r)|;
  }

  /** Each value's string, in order: the `toString()` that `join` applies
      to every value before joining. */
  function Strings<T>(vs: seq<T>, str: T -> string): (r: seq<string>)
    ensures |r| == |vs| && forall i | 0 <= i < |vs| :: r[i] == str(vs[i])
  {
    seq(|vs|, i requires 0 <= i < |vs| => str(vs[i]))
  }

  /** `join(sep)`: the values' strings with `sep` between neighbours, as
      JavaScript's `Array.prototype.join` does. */
  function Join(parts: seq<string>, sep: string): (r: string)
    ensures |parts| == 1 ==> r == parts[0]
  {
    if |parts| == 0 then ""
    else if |parts| == 1 then parts[0]
    else parts[0] + sep + Join(parts[1..], sep)
  }

  /** Joining two non-empty runs puts exactly one separator between them. */
  lemma {:induction false} JoinAppend(a: seq<string>, b: seq<string>, sep: string)
    requires |a| > 0 && |b| > 0
    ensures Join(a + b, sep) == Join(a, sep) + sep + Join(b, sep)
  {
    if |a| == 1 {
      assert (a + b)[1..] == b;
    } else {
      assert (a + b)[1..] == a[1..] + b;
      JoinAppend(a[1..], b, sep);
    }
  }

  /** A joined string opens with the first part and closes with the last, so
      no separator leads or trails. */
  lemma {:induction false} JoinEnds(parts: seq<string>, sep: string)
    requires |parts| > 0
    ensures |Join(parts, sep)| >= |parts[0]| && |Join(parts, sep)| >= |parts[|parts| - 1]|
    ensures Join(parts, sep)[..|parts[0]|] == parts[0]
    ensures Join(parts, sep)[|Join(parts, sep)| - |parts[|parts| - 1]|..] == parts[|parts| - 1]
  {
    if |parts| > 1 {
      JoinEnds(parts[1..], sep);
      var rest := Join(parts[1..], sep);
      assert Join(parts, sep) == parts[0] + sep + rest;
      assert parts[1..][|parts[1..]| - 1] == parts[|parts| - 1];
    }
  }

  /** Materialising the list by repeated `shift` yields the forward iteration
      order and leaves the list empty. */
  method ShiftAll<T(==)>(s: UList<T>) returns (out: seq<T>, rest: UList<T>)
    ensures out == s
    ensures rest == []
  {
    out := [];
    rest := s;
    while |rest| > 0
      invariant out + rest == s
      decreases |rest|
    {
      var (tail, v) := Shift(rest);
      out := out + [v];
      rest := tail;
    }
  }
}
