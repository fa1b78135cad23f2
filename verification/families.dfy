/** `familySequence` of index.js: two duplicate-free lists of members, the
    adults and then the children, read together as one display order. Members
    are objects compared by identity in the source; here each has a
    `MemberId`, and `people` holds the data of every member created so far,
    whether or not it is currently in a list. */
module Families {
  import opened Wrappers
  import opened UniqueLists
  import opened Members

  type MemberId = nat

  datatype Family = Family(
    adults: UList<MemberId>,
    children: UList<MemberId>,
    people: map<MemberId, Member>,
    nextId: MemberId)

  /** The page's starting state: no member yet. */
  function Empty(): Family {
    Family([], [], map[], 0)
  }

  /** The display order: all adults, then all children. */
  function Order(f: Family): seq<MemberId> {
    f.adults + f.children
  }

  /** The invariant the user actions keep: every listed member exists, sits
      in the list its `isAdult` selects, and identities below `nextId` are
      the only ones in use. */
  predicate WellFormed(f: Family) {
    && (forall i | 0 <= i < |f.adults| :: f.adults[i] in f.people && f.people[f.adults[i]].IsAdult())
    && (forall i | 0 <= i < |f.children| :: f.children[i] in f.people && !f.people[f.children[i]].IsAdult())
    && (forall id | id in f.people :: id < f.nextId)
  }

  /** Every listed member exists, so the family can be rendered. */
  predicate Known(f: Family) {
    && (forall i | 0 <= i < |f.adults| :: f.adults[i] in f.people)
    && (forall i | 0 <= i < |f.children| :: f.children[i] in f.people)
  }

  /** `memberList(isAdult)`: the adults list or the children list. */
  function MemberList(f: Family, isAdult: bool): (r: UList<MemberId>)
    ensures WellFormed(f) ==>
              forall i | 0 <= i < |r| :: r[i] in f.people && f.people[r[i]].IsAdult() == isAdult
  {
    if isAdult then f.adults else f.children
  }

  /** `m` exists and is in the list its `isAdult` selects: what `getNode` on
      that list needs not to return `undefined`. */
  predicate InFamily(f: Family, m: MemberId) {
    m in f.people && m in MemberList(f, f.people[m].IsAdult())
  }

  /** `length`: the two list lengths added. */
  function Length(f: Family): (n: nat)
    ensures n == |Order(f)|
  {
    |f.adults| + |f.children|
  }

  /** `firstMember`: null when both lists are empty, else the head of the
      adults list unless that list is empty. */
  function FirstMember(f: Family): (r: Option<MemberId>)
    ensures r == First(Order(f))
  {
    if |f.children| == 0 && |f.adults| == 0 then None
    else if |f.adults| == 0 then First(f.children)
    else First(f.adults)
  }

  /** `lastMember`: null when both lists are empty, else the tail of the
      children list unless that list is empty. */
  function LastMember(f: Family): (r: Option<MemberId>)
    ensures r == Last(Order(f))
  {
    if |f.children| == 0 && |f.adults| == 0 then None
    else if |f.children| == 0 then Last(f.adults)
    else Last(f.children)
  }

  /** `memberAfter(m, wrap)`: a null `m` gives `firstMember`; otherwise the
      successor of `m` in its own list, or at the end of that list either null
      (`wrap` false) or the head of the other list, falling back to the head
      of `m`'s own list. */
  function MemberAfter(f: Family, m: Option<MemberId>, wrap: bool): (r: Option<MemberId>)
    requires m.Some? ==> InFamily(f, m.value)
    ensures m.None? ==> r == First(Order(f))
  {
    if m.None? then FirstMember(f)
    else
      var adult := f.people[m.value].IsAdult();
      var list := MemberList(f, adult);
      var after := NextOf(list, m.value);
      if after.Some? then after
      else if !wrap then None
      else
        var other := MemberList(f, !adult);
        if |other| != 0 then First(other)
        else First(list)
  }

  /** `memberBefore(m, wrap)`: the mirror image of `memberAfter`, from
      `lastMember` and towards the tails. */
  function MemberBefore(f: Family, m: Option<MemberId>, wrap: bool): (r: Option<MemberId>)
    requires m.Some? ==> InFamily(f, m.value)
    ensures m.None? ==> r == Last(Order(f))
  {
    if m.None? then LastMember(f)
    else
      var adult := f.people[m.value].IsAdult();
      var list := MemberList(f, adult);
      var before := PrevOf(list, m.value);
      if before.Some? then before
      else if !wrap then None
      else
        var other := MemberList(f, !adult);
        if |other| != 0 then Last(other)
        else Last(list)
  }

  /** The strings of the members `ids`, in order. */
  function Render(people: map<MemberId, Member>, ids: seq<MemberId>): (r: seq<string>)
    requires forall i | 0 <= i < |ids| :: ids[i] in people
    ensures |r| == |ids| && forall i | 0 <= i < |ids| :: r[i] == people[ids[i]].ToString()
  {
    seq(|ids|, i requires 0 <= i < |ids| => people[ids[i]].ToString())
  }

  /** `toString()`: the adults joined by ZWJ, a ZWJ between the groups only
      when both are non-empty, then the children joined by ZWJ. */
  function ToString(f: Family): string
    requires Known(f)
  {
    var a := if |f.adults| != 0 then Join(Render(f.people, f.adults), ZWJ) else "";
    var between := if |f.adults| != 0 && |f.children| != 0 then ZWJ else "";
    var c := if |f.children| != 0 then Join(Render(f.people, f.children), ZWJ) else "";
    a + between + c
  }

  /** Adults and children are told apart by `isAdult`, so no member is in
      both lists and the display order is duplicate-free. */
  lemma OrderDistinct(f: Family)
    requires WellFormed(f)
    ensures Distinct(Order(f))
  {
    var o := Order(f);
    forall i, j | 0 <= i < j < |o|
      ensures o[i] != o[j]
    {
      if j < |f.adults| {
        assert o[i] == f.adults[i] && o[j] == f.adults[j];
      } else if i >= |f.adults| {
        assert o[i] == f.children[i - |f.adults|] && o[j] == f.children[j - |f.adults|];
      } else {
        assert f.people[o[i]].IsAdult() && !f.people[o[j]].IsAdult();
      }
    }
  }

  /** Every member of the display order is in its own list. */
  lemma OrderInFamily(f: Family, i: nat)
    requires WellFormed(f) && i < |Order(f)|
    ensures InFamily(f, Order(f)[i])
    ensures f.people[Order(f)[i]].IsAdult() <==> i < |f.adults|
  {
    if i < |f.adults| {
      assert Order(f)[i] == f.adults[i];
    } else {
      assert Order(f)[i] == f.children[i - |f.adults|];
    }
  }

  /** One step forward around a cycle of length `n`. */
  lemma NextIndex(i: nat, n: nat)
    requires i < n
    ensures (i + 1) % n == if i + 1 < n then i + 1 else 0
  {
  }

  /** One step backward around a cycle of length `n`. */
  lemma PrevIndex(i: nat, n: nat)
    requires i < n
    ensures (i + n - 1) % n == if i > 0 then i - 1 else n - 1
  {
    if i > 0 {
      assert i + n - 1 == (i - 1) + n;
    }
  }

  /** `memberAfter` with `wrap`, for an adult at position `i`. */
  lemma MemberAfterWrapsAdult(f: Family, i: nat)
    requires WellFormed(f) && i < |f.adults|
    ensures InFamily(f, f.adults[i])
    ensures MemberAfter(f, Some(f.adults[i]), true)
         == if i + 1 < |f.adults| then Some(f.adults[i + 1])
            else if |f.children| != 0 then Some(f.children[0])
            else Some(f.adults[0])
  {
    IndexOfUnique(f.adults, i);
  }

  /** `memberAfter` with `wrap`, for a child at position `j`. */
  lemma MemberAfterWrapsChild(f: Family, j: nat)
    requires WellFormed(f) && j < |f.children|
    ensures InFamily(f, f.children[j])
    ensures MemberAfter(f, Some(f.children[j]), true)
         == if j + 1 < |f.children| then Some(f.children[j + 1])
            else if |f.adults| != 0 then Some(f.adults[0])
            else Some(f.children[0])
  {
    IndexOfUnique(f.children, j);
  }

  /** `memberBefore` with `wrap`, for an adult at position `i`. */
  lemma MemberBeforeWrapsAdult(f: Family, i: nat)
    requires WellFormed(f) && i < |f.adults|
    ensures InFamily(f, f.adults[i])
    ensures MemberBefore(f, Some(f.adults[i]), true)
         == if i > 0 then Some(f.adults[i - 1])
            else if |f.children| != 0 then Some(f.children[|f.children| - 1])
            else Some(f.adults[|f.adults| - 1])
  {
    IndexOfUnique(f.adults, i);
  }

  /** `memberBefore` with `wrap`, for a child at position `j`. */
  lemma MemberBeforeWrapsChild(f: Family, j: nat)
    requires WellFormed(f) && j < |f.children|
    ensures InFamily(f, f.children[j])
    ensures MemberBefore(f, Some(f.children[j]), true)
         == if j > 0 then Some(f.children[j - 1])
            else if |f.adults| != 0 then Some(f.adults[|f.adults| - 1])
            else Some(f.children[|f.children| - 1])
  {
    IndexOfUnique(f.children, j);
  }

  /** With `wrap`, `memberAfter` is the cyclic successor in the display order:
      the last adult is followed by the first child, and the end of the
      order by its start. */
  lemma MemberAfterWraps(f: Family, i: nat)
    requires WellFormed(f) && i < |Order(f)|
    ensures InFamily(f, Order(f)[i])
    ensures MemberAfter(f, Some(Order(f)[i]), true) == Some(Order(f)[(i + 1) % |Order(f)|])
  {
    var o, na, n := Order(f), |f.adults|, |Order(f)|;
    NextIndex(i, n);
    if i < na {
      assert o[i] == f.adults[i];
      MemberAfterWrapsAdult(f, i);
    } else {
      assert o[i] == f.children[i - na];
      MemberAfterWrapsChild(f, i - na);
    }
  }

  /** With `wrap`, `memberBefore` is the cyclic predecessor in the display
      order. */
  lemma MemberBeforeWraps(f: Family, i: nat)
    requires WellFormed(f) && i < |Order(f)|
    ensures InFamily(f, Order(f)[i])
    ensures MemberBefore(f, Some(Order(f)[i]), true) == Some(Order(f)[(i + |Order(f)| - 1) % |Order(f)|])
  {
    var o, na, n := Order(f), |f.adults|, |Order(f)|;
    PrevIndex(i, n);
    if i < na {
      assert o[i] == f.adults[i];
      MemberBeforeWrapsAdult(f, i);
    } else {
      assert o[i] == f.children[i - na];
      MemberBeforeWrapsChild(f, i - na);
    }
  }

  /** Without `wrap`, `memberAfter` stays in the member's own list: the next
      member of the display order, or null at the end of either list. */
  lemma MemberAfterNoWrap(f: Family, i: nat)
    requires WellFormed(f) && i < |Order(f)|
    ensures InFamily(f, Order(f)[i])
    ensures MemberAfter(f, Some(Order(f)[i]), false)
         == if i + 1 == |f.adults| || i + 1 == |Order(f)| then None else Some(Order(f)[i + 1])
  {
    OrderInFamily(f, i);
    var o, na := Order(f), |f.adults|;
    if i < na {
      IndexOfUnique(f.adults, i);
      if i + 1 < na {
        assert o[i + 1] == f.adults[i + 1];
      }
    } else {
      IndexOfUnique(f.children, i - na);
      assert o[i] == f.children[i - na];
      if i + 1 < |o| {
        assert o[i + 1] == f.children[i + 1 - na];
      }
    }
  }

  /** Without `wrap`, `memberBefore` stays in the member's own list: the
      previous member of the display order, or null at the head of either
      list. */
  lemma MemberBeforeNoWrap(f: Family, i: nat)
    requires WellFormed(f) && i < |Order(f)|
    ensures InFamily(f, Order(f)[i])
    ensures MemberBefore(f, Some(Order(f)[i]), false)
         == if i == 0 || i == |f.adults| then None else Some(Order(f)[i - 1])
  {
    OrderInFamily(f, i);
    var o, na := Order(f), |f.adults|;
    if i < na {
      IndexOfUnique(f.adults, i);
      if i > 0 {
        assert o[i - 1] == f.adults[i - 1];
      }
    } else {
      IndexOfUnique(f.children, i - na);
      assert o[i] == f.children[i - na];
      if i > na {
        assert o[i - 1] == f.children[i - 1 - na];
      }
    }
  }

  /** Stepping forward and then back, both with `wrap`, returns to the
      member: the two navigations are inverse. */
  lemma MemberBeforeUndoesMemberAfter(f: Family, i: nat)
    requires WellFormed(f) && i < |Order(f)|
    ensures InFamily(f, Order(f)[i])
    ensures MemberAfter(f, Some(Order(f)[i]), true).Some?
    ensures InFamily(f, MemberAfter(f, Some(Order(f)[i]), true).value)
    ensures MemberBefore(f, MemberAfter(f, Some(Order(f)[i]), true), true) == Some(Order(f)[i])
  {
    var n := |Order(f)|;
    var j := (i + 1) % n;
    MemberAfterWraps(f, i);
    MemberBeforeWraps(f, j);
    NextIndex(i, n);
    PrevIndex(j, n);
  }

  /** The rendering of a concatenation is the concatenation of renderings. */
  lemma RenderAppend(people: map<MemberId, Member>, a: seq<MemberId>, b: seq<MemberId>)
    requires forall i | 0 <= i < |a| :: a[i] in people
    requires forall i | 0 <= i < |b| :: b[i] in people
    ensures forall i | 0 <= i < |a + b| :: (a + b)[i] in people
    ensures Render(people, a + b) == Render(people, a) + Render(people, b)
  {
    assert forall i | 0 <= i < |a + b| :: (a + b)[i] == if i < |a| then a[i] else b[i - |a|];
  }

  /** `toString()` is the display order's member strings joined by ZWJ: the
      group-wise assembly puts exactly one joiner between neighbours,
      including across the two groups, and gives "" for an empty family. */
  lemma ToStringJoinsOrder(f: Family)
    requires Known(f)
    ensures forall i | 0 <= i < |Order(f)| :: Order(f)[i] in f.people
    ensures ToString(f) == Join(Render(f.people, Order(f)), ZWJ)
  {
    RenderAppend(f.people, f.adults, f.children);
    var ra, rc := Render(f.people, f.adults), Render(f.people, f.children);
    if |f.adults| != 0 && |f.children| != 0 {
      JoinAppend(ra, rc, ZWJ);
    } else if |f.adults| != 0 {
      assert ra + rc == ra;
    } else {
      assert ra + rc == rc;
    }
  }

  /** A family of catalogued members renders with no joiner at either end. */
  lemma ToStringHasNoOuterJoiner(f: Family)
    requires Known(f) && |Order(f)| > 0
    requires forall i | 0 <= i < |Order(f)| :: Order(f)[i] in f.people && Catalogued(f.people[Order(f)[i]])
    ensures |ToString(f)| > 0
    ensures ToString(f)[0] != ZWJ[0] && ToString(f)[|ToString(f)| - 1] != ZWJ[0]
  {
    ToStringJoinsOrder(f);
    var parts := Render(f.people, Order(f));
    var first, last := f.people[Order(f)[0]], f.people[Order(f)[|parts| - 1]];
    JoinEnds(parts, ZWJ);
    ToStringAvoidsJoiner(first);
    ToStringAvoidsJoiner(last);
    var s := Join(parts, ZWJ);
    assert s[0] == s[..|parts[0]|][0];
    assert s[|s| - 1] == s[|s| - |parts[|parts| - 1]|..][|parts[|parts| - 1]| - 1];
  }

  /** The empty family renders as "", and a man with a girl as the two
      glyphs with one joiner between them. */
  lemma ManAndGirlRender(f: Family, a: MemberId, c: MemberId)
    requires f.adults == [a] && f.children == [c]
    requires a in f.people && f.people[a] == NewMember(MAN)
    requires c in f.people && f.people[c] == NewMember(GIRL)
    ensures ToString(Empty()) == ""
    ensures ToString(f) == "\U{1F468}\U{200D}\U{1F467}"
  {
    assert Render(f.people, f.adults) == [MAN.glyph];
    assert Render(f.people, f.children) == [GIRL.glyph];
  }

  /** `tone = t`: a plain field update of one member; the lists, the other
      members and the identity counter stay as they were. The notification
      is not modelled. */
  function SetTone(f: Family, m: MemberId, tone: string): (r: Family)
    requires m in f.people
    ensures m in r.people && r.people[m].mtype == f.people[m].mtype && r.people[m].tone == tone
    ensures r.adults == f.adults && r.children == f.children && r.nextId == f.nextId
    ensures r.people.Keys == f.people.Keys
    ensures forall x | x in f.people && x != m :: r.people[x] == f.people[x]
  {
    f.(people := f.people[m := f.people[m].(tone := tone)])
  }

  /** `type = t`: a plain field update of one member, which the source does
      not confine to the member's category; nothing else changes. */
  function SetType(f: Family, m: MemberId, t: MemberType): (r: Family)
    requires m in f.people
    ensures m in r.people && r.people[m].mtype == t && r.people[m].tone == f.people[m].tone
    ensures r.adults == f.adults && r.children == f.children && r.nextId == f.nextId
    ensures r.people.Keys == f.people.Keys
    ensures forall x | x in f.people && x != m :: r.people[x] == f.people[x]
  {
    f.(people := f.people[m := f.people[m].(mtype := t)])
  }

  /** A new tone leaves the lists and the partition as they were. */
  lemma SetToneKeepsWellFormed(f: Family, m: MemberId, tone: string)
    requires WellFormed(f) && m in f.people
    ensures WellFormed(SetTone(f, m, tone)) && Order(SetTone(f, m, tone)) == Order(f)
  {
  }

  /** A new type keeps the partition exactly when it keeps the member's
      category, or the member is in neither list. A change of category on a
      listed member leaves it in the wrong list. */
  lemma SetTypeKeepsWellFormed(f: Family, m: MemberId, t: MemberType)
    requires WellFormed(f) && m in f.people
    ensures Order(SetType(f, m, t)) == Order(f)
    ensures WellFormed(SetType(f, m, t)) <==> (t.isAdult == f.people[m].IsAdult() || m !in Order(f))
  {
    var r := SetType(f, m, t);
    if m in Order(f) && t.isAdult != f.people[m].IsAdult() {
      var i :| 0 <= i < |Order(f)| && Order(f)[i] == m;
      if i < |f.adults| {
        assert r.adults[i] == m && !r.people[m].IsAdult();
      } else {
        assert r.children[i - |f.adults|] == m && r.people[m].IsAdult();
      }
    } else {
      forall i | 0 <= i < |r.adults|
        ensures r.people[r.adults[i]].IsAdult()
      {
        assert Order(f)[i] == r.adults[i];
      }
      forall i | 0 <= i < |r.children|
        ensures !r.people[r.children[i]].IsAdult()
      {
        assert Order(f)[|f.adults| + i] == r.children[i];
      }
    }
  }
}
