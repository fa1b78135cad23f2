/** The list-level effect of `userActions` in index.js: `addMember`,
    `removeMember` and `reinsertMember`, with the display rows, the output
    box, the event listener and the selection left out. Also `new Member`,
    which gives a member its identity. */
module UserActions {
  import opened Wrappers
  import opened UniqueLists
  import opened Members
  import opened Families

  /** The family with the list for `isAdult` replaced by `list`. */
  function WithList(f: Family, isAdult: bool, list: UList<MemberId>): (r: Family)
    ensures MemberList(r, isAdult) == list && MemberList(r, !isAdult) == MemberList(f, !isAdult)
    ensures r.people == f.people && r.nextId == f.nextId
  {
    if isAdult then f.(adults := list) else f.(children := list)
  }

  /** `new Member(type, tone)`: a fresh identity holding `m`, in no list yet. */
  function CreateMember(f: Family, m: Member): (r: (Family, MemberId))
    requires WellFormed(f)
    ensures r.1 !in f.people && r.0.people == f.people[r.1 := m]
    ensures r.0.adults == f.adults && r.0.children == f.children
    ensures WellFormed(r.0) && !InFamily(r.0, r.1)
  {
    var id := f.nextId;
    var r := f.(people := f.people[id := m], nextId := id + 1);
    assert id !in Order(f);
    (r, id)
  }

  /** `addMember(m, ref)`: `insertAfter(m, ref)` on the list that `m`'s
      `isAdult` selects. The insertion throws on a member already in that
      list and dereferences `undefined` on a `ref` that is not in it. */
  function AddMember(f: Family, m: MemberId, ref: Option<MemberId>): (r: Result<Family, ListError>)
    requires m in f.people
    requires var list := MemberList(f, f.people[m].IsAdult());
             m !in list && ref.Some? ==> ref.value in list
    ensures var adult := f.people[m].IsAdult();
            r.Failure? <==> m in MemberList(f, adult)
    ensures var adult := f.people[m].IsAdult();
            r.Success? ==>
              && r.value.people == f.people && r.value.nextId == f.nextId
              && MemberList(r.value, !adult) == MemberList(f, !adult)
              && multiset(MemberList(r.value, adult)) == multiset(MemberList(f, adult)) + multiset{m}
    ensures var adult := f.people[m].IsAdult();
            r.Success? && ref.None? ==> First(MemberList(r.value, adult)) == Some(m)
    ensures var adult := f.people[m].IsAdult();
            r.Success? && ref.Some? ==>
              ref.value in MemberList(r.value, adult) && NextOf(MemberList(r.value, adult), ref.value) == Some(m)
  {
    var adult := f.people[m].IsAdult();
    match InsertAfter(MemberList(f, adult), m, ref)
    case Failure(e) => Failure(e)
    case Success(list) => Success(WithList(f, adult, list))
  }

  /** `removeMember(m)`: `remove(m)` on the list that `m`'s `isAdult`
      selects, which must hold `m`. */
  function RemoveMember(f: Family, m: MemberId): (r: Family)
    requires InFamily(f, m)
    ensures var adult := f.people[m].IsAdult();
            && r.people == f.people && r.nextId == f.nextId
            && MemberList(r, !adult) == MemberList(f, !adult)
            && m !in MemberList(r, adult)
            && multiset(MemberList(r, adult)) == multiset(MemberList(f, adult)) - multiset{m}
  {
    var adult := f.people[m].IsAdult();
    WithList(f, adult, Remove(MemberList(f, adult), m))
  }

  /** `reinsertMember(m, ref)`: nothing when `ref` is `m` itself, is `m`'s
      predecessor in its own list (`memberBefore(m, false)`, null at the
      head), or is a member of the other category; otherwise `m` is removed
      and added again right behind `ref`. */
  function ReinsertMember(f: Family, m: MemberId, ref: Option<MemberId>): (r: Family)
    requires InFamily(f, m)
    requires ref.Some? ==> ref.value in f.people
    requires ref.Some? && f.people[ref.value].IsAdult() == f.people[m].IsAdult() ==>
               ref.value in MemberList(f, f.people[m].IsAdult())
    ensures r.people == f.people && r.nextId == f.nextId
    ensures var adult := f.people[m].IsAdult();
            && MemberList(r, !adult) == MemberList(f, !adult)
            && multiset(MemberList(r, adult)) == multiset(MemberList(f, adult))
  {
    var noPositionChange := ref == Some(m) || ref == MemberBefore(f, Some(m), false);
    var rowIsUnshared := ref.Some? && f.people[m].IsAdult() != f.people[ref.value].IsAdult();
    if noPositionChange || rowIsUnshared then f
    else
      var adult := f.people[m].IsAdult();
      var f1 := RemoveMember(f, m);
      MoveKeepsValues(MemberList(f, adult), m, ref);
      AddMember(f1, m, ref).value
  }

  /** Adding a member not yet listed puts it in the list of its category
      and keeps the family well formed. */
  lemma AddMemberKeepsWellFormed(f: Family, m: MemberId, ref: Option<MemberId>)
    requires WellFormed(f) && m in f.people && !InFamily(f, m)
    requires ref.Some? ==> ref.value in MemberList(f, f.people[m].IsAdult())
    ensures AddMember(f, m, ref).Success?
    ensures WellFormed(AddMember(f, m, ref).value) && InFamily(AddMember(f, m, ref).value, m)
  {
    var adult := f.people[m].IsAdult();
    var r := AddMember(f, m, ref).value;
    var list := MemberList(r, adult);
    forall i | 0 <= i < |list|
      ensures list[i] in f.people && f.people[list[i]].IsAdult() == adult
    {
      assert list[i] in multiset(list);
    }
    assert m in multiset(list);
  }

  /** Removing a member takes it out of the family and keeps the family well
      formed. */
  lemma RemoveMemberKeepsWellFormed(f: Family, m: MemberId)
    requires WellFormed(f) && InFamily(f, m)
    ensures WellFormed(RemoveMember(f, m)) && !InFamily(RemoveMember(f, m), m)
    ensures |Order(RemoveMember(f, m))| == |Order(f)| - 1
  {
    var adult := f.people[m].IsAdult();
    var r := RemoveMember(f, m);
    var list := MemberList(r, adult);
    forall i | 0 <= i < |list|
      ensures list[i] in f.people && f.people[list[i]].IsAdult() == adult
    {
      assert list[i] in multiset(list);
    }
    assert |list| == |MemberList(f, adult)| - 1 by {
      assert |multiset(list)| == |multiset(MemberList(f, adult))| - 1;
    }
  }

  /** Removing a member keeps the others of its list in order. */
  lemma RemoveMemberKeepsOrder(f: Family, m: MemberId)
    requires InFamily(f, m)
    ensures var list := MemberList(f, f.people[m].IsAdult());
            var k := IndexOf(list, m);
            MemberList(RemoveMember(f, m), f.people[m].IsAdult()) == list[..k] + list[k + 1..]
  {
    RemoveKeepsOrder(MemberList(f, f.people[m].IsAdult()), m);
  }

  /** Putting a member back behind its old predecessor, or at the head when
      it had none, restores the family: this is why `reinsertMember` may skip
      that case. */
  lemma AddAtPredecessorUndoesRemove(f: Family, m: MemberId)
    requires InFamily(f, m)
    ensures var ref := MemberBefore(f, Some(m), false);
            var f1 := RemoveMember(f, m);
            && m in f1.people
            && (ref.Some? ==> ref.value in MemberList(f1, f1.people[m].IsAdult()))
            && AddMember(f1, m, ref) == Success(f)
  {
    var adult := f.people[m].IsAdult();
    var list := MemberList(f, adult);
    var ref := MemberBefore(f, Some(m), false);
    assert ref == PrevOf(list, m);
    InsertAfterPredecessorUndoesRemove(list, m);
    RemoveKeepsOrder(list, m);
    var k := IndexOf(list, m);
    if ref.Some? {
      assert ref.value == list[k - 1] == (list[..k] + list[k + 1..])[k - 1];
    }
  }

  /** The three cases in which `reinsertMember` leaves the family as it is. */
  lemma ReinsertMemberNoChange(f: Family, m: MemberId, ref: Option<MemberId>)
    requires InFamily(f, m)
    requires ref.Some? ==> ref.value in f.people
    requires ref.Some? && f.people[ref.value].IsAdult() == f.people[m].IsAdult() ==>
               ref.value in MemberList(f, f.people[m].IsAdult())
    requires || ref == Some(m)
             || ref == MemberBefore(f, Some(m), false)
             || (ref.Some? && f.people[ref.value].IsAdult() != f.people[m].IsAdult())
    ensures ReinsertMember(f, m, ref) == f
  {
  }

  /** Otherwise `reinsertMember` moves `m` within its own list: right behind
      `ref`, or to the head for a null `ref`. The list keeps its members and
      its length, the other list and the member data stay as they were, and
      the family stays well formed. */
  lemma ReinsertMemberMoves(f: Family, m: MemberId, ref: Option<MemberId>)
    requires WellFormed(f) && InFamily(f, m)
    requires ref.Some? ==> ref.value in f.people
    requires ref.Some? && f.people[ref.value].IsAdult() == f.people[m].IsAdult() ==>
               ref.value in MemberList(f, f.people[m].IsAdult())
    requires ref != Some(m) && ref != MemberBefore(f, Some(m), false)
    requires ref.Some? ==> f.people[ref.value].IsAdult() == f.people[m].IsAdult()
    ensures var r, adult := ReinsertMember(f, m, ref), f.people[m].IsAdult();
            && WellFormed(r)
            && MemberList(r, !adult) == MemberList(f, !adult)
            && multiset(MemberList(r, adult)) == multiset(MemberList(f, adult))
            && |MemberList(r, adult)| == |MemberList(f, adult)|
            && (ref.None? ==> First(MemberList(r, adult)) == Some(m))
            && (ref.Some? ==> ref.value in MemberList(r, adult) && NextOf(MemberList(r, adult), ref.value) == Some(m))
  {
    var adult := f.people[m].IsAdult();
    var f1 := RemoveMember(f, m);
    RemoveMemberKeepsWellFormed(f, m);
    MoveKeepsValues(MemberList(f, adult), m, ref);
    AddMemberKeepsWellFormed(f1, m, ref);
  }

  /** `reinsertMember` never changes who is in the family. */
  lemma ReinsertMemberKeepsMembers(f: Family, m: MemberId, ref: Option<MemberId>)
    requires WellFormed(f) && InFamily(f, m)
    requires ref.Some? ==> ref.value in f.people
    requires ref.Some? && f.people[ref.value].IsAdult() == f.people[m].IsAdult() ==>
               ref.value in MemberList(f, f.people[m].IsAdult())
    ensures WellFormed(ReinsertMember(f, m, ref))
    ensures multiset(Order(ReinsertMember(f, m, ref))) == multiset(Order(f))
  {
    var noPositionChange := ref == Some(m) || ref == MemberBefore(f, Some(m), false);
    var rowIsUnshared := ref.Some? && f.people[m].IsAdult() != f.people[ref.value].IsAdult();
    if !(noPositionChange || rowIsUnshared) {
      ReinsertMemberMoves(f, m, ref);
      var r := ReinsertMember(f, m, ref);
      if f.people[m].IsAdult() {
        assert Order(r) == r.adults + f.children;
      } else {
        assert Order(r) == f.adults + r.children;
      }
    }
  }
}
