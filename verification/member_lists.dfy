/** The family's two lists as the pointer-level `LinkedList`s they are in
    index.js, holding member identities, and the rendering that
    `familySequence.toString()` asks of them through `join`. */
module MemberLists {
  import opened UniqueLists
  import opened LinkedNodes
  import opened LinkedRefinement
  import Members
  import Families

  /** `this.adults.join(ZWJ)` and `this.children.join(ZWJ)`: joining a
      non-empty list of members through each member's `toString()` gives the
      joined rendering of its contents, the group string of `toString()`. */
  lemma JoinRendersMembers(l: LinkedList<Families.MemberId>, s: UList<Families.MemberId>, ptrs: seq<Ptr>,
                           people: map<Families.MemberId, Members.Member>)
    requires Valid(l, s, ptrs) && |s| > 0
    requires forall i | 0 <= i < |s| :: s[i] in people
    ensures LinkedNodes.Join(l, x => if x in people then people[x].ToString() else "", Members.ZWJ)
            == UniqueLists.Join(Families.Render(people, s), Members.ZWJ)
  {
    var str := x => if x in people then people[x].ToString() else "";
    JoinRefines(l, s, ptrs, str, Members.ZWJ);
    assert Strings(s, str) == Families.Render(people, s);
  }
}
