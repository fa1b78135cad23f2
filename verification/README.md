# Family emoji builder: the list, the members and the family, in Dafny

The family emoji builder composes a family emoji from people. Each person
("member") has a type and a skin tone. Members sit in two ordered lists, the
adults and then the children. The family is rendered as the members' strings
joined by the zero-width joiner U+200D (ZWJ). This project models the part of
`index.js` that holds that state, and proves what the code promises about it.
The page, its rows and its event handlers are not modelled.

The model has eight modules:

- `Wrappers` (`wrappers.dfy`): `Option` and `Result`.
- `UniqueLists` (`unique_list.dfy`): the abstract view of `LinkedList`.
  - The contents are a duplicate-free sequence, `UList<T>`.
  - Every list operation is stated on that sequence: `push`, `unshift`,
    `insertAfter`, `pop`, `shift`, `remove` and `join`.
  - A value already present is refused with `Failure(AlreadyContains)`. That
    is the source's `throw new Error("list already contains value")`. The
    refusal carries no new list, so nothing has changed when it is raised.
- `LinkedNodes` (`linked_list.dfy`): the pointer-level `LinkedList`.
  - Nodes live in an arena `map<Ptr, Node<T>>` and are never freed.
  - The record holds the `#firstNode`/`#lastNode` end pointers, the `#length`
    counter and the `#valueMap`.
  - Every method follows the source's branches. That includes `pop` and
    `shift` moving only one end pointer.
- `LinkedRefinement` (`linked_refinement.dfy`): the invariant `Valid(l, s, ptrs)`.
  - It ties a pointer-level list to its contents `s` through the chain of
    nodes `ptrs`.
  - One lemma per operation shows that the pointer-level operation keeps the
    invariant, and that it changes the contents exactly as the abstract
    operation does.
  - Further lemmas exhibit the stale end pointers that an emptied list keeps.
- `Members` (`members.dfy`): `Member.Type`, with the adult and child
  catalogues; `Member.Tone`; and a member's `isAdult` and `toString`.
- `Families` (`families.dfy`): `familySequence`, covering `length`,
  `firstMember`, `lastMember`, `memberAfter`, `memberBefore`, `memberList`
  and `toString`. It also has the two setters of `Member`.
- `MemberLists` (`member_lists.dfy`): the family's two lists as pointer-level
  lists of member identities, and the `join` through each member's
  `toString()` that `familySequence.toString()` performs on them.
- `UserActions` (`user_actions.dfy`): `new Member`, and the effect on the
  lists of `userActions.addMember`, `removeMember` and `reinsertMember`.

Members are objects compared by identity in the source. Here each one gets a
`MemberId`, and the family keeps the data of every member it has created.

Calls that crash the source with a null or undefined dereference are
preconditions (`requires`), not errors. They are:

- `pop` when `#lastNode` is null and `shift` when `#firstNode` is null, as
  on a list never filled (a list filled and then emptied keeps a stale end
  pointer; see "Notes on the source");
- `remove` of an absent value, through the `undefined` that `getNode`
  returns for it;
- `insertAfter` with a non-null reference that is absent;
- `memberAfter` and `memberBefore` of a member that is not in its list.

## Model

| member | source | states |
|---|---|---|
| UniqueLists.Push | index.js:61-83 | refused exactly when the value is present; otherwise the old contents followed by the value, which becomes `last` |
| UniqueLists.Unshift | index.js:85-102 | refused exactly when the value is present; otherwise the value followed by the old contents, and it becomes `first` |
| UniqueLists.InsertAfter | index.js:104-133 | refused exactly when the value is present; otherwise one more occurrence of the value and nothing else; at the head for a null reference, right after the reference otherwise |
| UniqueLists.Pop | index.js:135-146 | on a non-empty list, the remaining contents followed by the returned value give the old contents |
| UniqueLists.Shift | index.js:148-159 | on a non-empty list, the returned value followed by the remaining contents give the old contents |
| UniqueLists.Remove | index.js:161-181 | one value shorter, the value is gone, every other value is kept |
| UniqueLists.RemoveKeepsOrder | index.js:161-181 | `remove` keeps the values before the removed one and after it in their order |
| UniqueLists.PopUndoesPush | index.js:135-146 | `pop` after a successful `push` returns the pushed value and the former contents |
| UniqueLists.ShiftUndoesUnshift | index.js:148-159 | `shift` after a successful `unshift` returns the value and the former contents |
| UniqueLists.RemoveUndoesInsertAfter | index.js:104-133 | removing a value just inserted gives back the former contents, so `insertAfter` keeps the other values in order |
| UniqueLists.InsertAfterPredecessorUndoesRemove | index.js:542-549 | removing a value and inserting it after its former predecessor (at the head if it had none) restores the list |
| UniqueLists.MoveKeepsValues | index.js:546-548 | removing a value and inserting it again after any other value, or at the head, keeps the same values and the same length |
| UniqueLists.Join | index.js:183-185 | a one-value list joins to that value |
| UniqueLists.JoinAppend | index.js:183-185 | joining two non-empty runs puts exactly one separator between them |
| UniqueLists.JoinEnds | index.js:183-185 | a joined string starts with the first value's string and ends with the last's |
| UniqueLists.ShiftAll | index.js:148-159 | shifting until empty yields the contents in order and leaves an empty list |
| LinkedNodes.Empty | index.js:12-14 | a new list has no values and a zero length |
| LinkedNodes.Push | index.js:61-83 | refused exactly when `includes` holds; otherwise the length rises by one, `includes` holds and `last` is the value |
| LinkedNodes.Unshift | index.js:85-102 | refused exactly when `includes` holds; otherwise the length rises by one, `includes` holds and `first` is the value |
| LinkedNodes.InsertAfter | index.js:104-133 | refused exactly when `includes` holds; otherwise the length rises by one and `includes` holds |
| LinkedNodes.Pop | index.js:135-146 | returns `last`, takes it out of the value map and lowers the length by one |
| LinkedNodes.Shift | index.js:148-159 | returns `first`, takes it out of the value map and lowers the length by one |
| LinkedNodes.Unlink | index.js:170-178 | the inner case of `remove` takes the value out of the map and lowers the length by one |
| LinkedNodes.Remove | index.js:161-181 | lowers the length by one |
| LinkedRefinement.EmptyRefines | index.js:12-18 | a new list represents the empty contents |
| LinkedRefinement.IncludesRefines | index.js:187-189 | `includes(v)` holds exactly when `v` is in the contents |
| LinkedRefinement.ObserversRefine | index.js:20-34 | `length` is the number of values and `isEmpty` means no values; on a non-empty list `first` and `last` are its head and tail |
| LinkedRefinement.GetNodeRefines | index.js:191-193 | `getNode(v)` holds `v`; its `next` and `prev` are null exactly at the tail and at the head, and otherwise lead to the neighbouring values |
| LinkedRefinement.LengthCountsMap | index.js:42-59 | `#length` equals the number of values recorded in `#valueMap` |
| LinkedRefinement.PushRefines | index.js:61-83 | `push` on the nodes refuses and accepts as the abstract `push` does, keeps the invariant and appends the value |
| LinkedRefinement.UnshiftRefines | index.js:85-102 | `unshift` on the nodes refuses and accepts as the abstract `unshift` does, keeps the invariant and prepends the value |
| LinkedRefinement.InsertAfterLastIsPush | index.js:117-119 | a reference held by `#lastNode` makes `insertAfter` a `push` |
| LinkedRefinement.InsertAfterInnerIsBetween | index.js:122-130 | any other present reference makes `insertAfter` splice a node in after the reference's node |
| LinkedRefinement.InsertBetweenValid | index.js:122-130 | the splice keeps the invariant, with the new value right after the reference |
| LinkedRefinement.InsertAfterRefines | index.js:104-133 | `insertAfter` never dereferences null for a present or null reference; it refuses as the abstract `insertAfter` does and otherwise has the same contents |
| LinkedRefinement.PopRefines | index.js:135-146 | on a non-empty list, `pop` returns the tail value and keeps the invariant for the contents without it |
| LinkedRefinement.ShiftRefines | index.js:148-159 | on a non-empty list, `shift` returns the head value and keeps the invariant for the contents without it |
| LinkedRefinement.RemoveHeadRefines | index.js:164-165 | removing the head is `shift` and keeps the invariant |
| LinkedRefinement.RemoveTailRefines | index.js:167-168 | removing the tail of a longer list is `pop` and keeps the invariant |
| LinkedRefinement.RemoveInnerRefines | index.js:170-178 | removing an inner value links its neighbours and keeps the invariant |
| LinkedRefinement.RemoveRefines | index.js:161-181 | `remove` of any present value never dereferences null and has the contents of the abstract `remove` |
| LinkedRefinement.IteratorRefines | index.js:195-202 | the iterator of a non-empty list yields its contents, in order, and stops at the tail |
| LinkedRefinement.WalkRefines | index.js:195-202 | the iterator run to its end yields exactly the contents |
| LinkedRefinement.IterationVisitsLength | index.js:195-202 | on a non-empty list the iterator visits `length` distinct values, from `first` to `last` |
| LinkedRefinement.JoinRefines | index.js:183-185 | `join` on a non-empty list of any values joins, in list order, the string each value converts to |
| MemberLists.JoinRendersMembers | index.js:418-432 | on a non-empty member list, `adults.join(ZWJ)` and `children.join(ZWJ)` through each member's `toString()` give the ZWJ join of the members' renderings, the group strings that `toString()` assembles |
| LinkedRefinement.PopSoleLeavesStaleFirst | index.js:135-146 | popping the only value leaves `isEmpty` true and `last` null, but `first` and the iterator still give the popped value |
| LinkedRefinement.ShiftSoleLeavesStaleLast | index.js:148-159 | shifting the only value leaves `isEmpty` true and the iterator empty, but `last` still gives the shifted value |
| LinkedRefinement.PopAfterDrainingShift | index.js:135-146 | after that shift, `pop` still succeeds, returns the shifted value again and takes `length` to -1 |
| Members.NewMember | index.js:275-280 | a new member with the default tone is adult exactly when its type is, and renders as the type's glyph alone |
| Members.CataloguesClassify | index.js:238-270 | every `Type.Adult` entry is adult, every `Type.Child` entry is not, and there are six tones, the first of them "" |
| Members.CataloguedShape | index.js:306-308 | a catalogued member renders as its type's one glyph followed by its tone |
| Members.GlyphsIdentifyTypes | index.js:238-252 | no two catalogue types share a glyph |
| Members.ToStringInjective | index.js:306-308 | two catalogued members that render alike have the same type and tone |
| Members.ToStringAvoidsJoiner | index.js:306-308 | a catalogued member's string neither starts nor ends with ZWJ |
| Families.OrderDistinct | index.js:315-318 | no member is both an adult and a child, so adults followed by children has no repeats |
| Families.Length | index.js:320-322 | `length` is the length of adults followed by children |
| Families.FirstMember | index.js:324-332 | `firstMember` is the head of adults followed by children, null when both are empty |
| Families.LastMember | index.js:334-342 | `lastMember` is the tail of adults followed by children, null when both are empty |
| Families.MemberList | index.js:404-406 | in a well-formed family the list chosen by `isAdult` holds only members with that `isAdult` |
| Families.MemberAfter | index.js:344-372 | `memberAfter(null)` is the first member |
| Families.MemberBefore | index.js:374-402 | `memberBefore(null)` is the last member |
| Families.MemberAfterWraps | index.js:344-372 | with `wrap`, `memberAfter` is the cyclic successor in adults followed by children |
| Families.MemberBeforeWraps | index.js:374-402 | with `wrap`, `memberBefore` is the cyclic predecessor in adults followed by children |
| Families.MemberAfterNoWrap | index.js:344-372 | without `wrap`, `memberAfter` is null exactly at the end of the member's own list, and otherwise the next member |
| Families.MemberBeforeNoWrap | index.js:374-402 | without `wrap`, `memberBefore` is null exactly at the start of the member's own list, and otherwise the previous member |
| Families.MemberBeforeUndoesMemberAfter | index.js:344-402 | with `wrap`, `memberBefore` of `memberAfter(m)` is `m` |
| Families.ToStringJoinsOrder | index.js:418-432 | `toString()` is the members of adults followed by children, joined by ZWJ; "" for an empty family |
| Families.ToStringHasNoOuterJoiner | index.js:418-432 | a non-empty family of catalogued members renders with no ZWJ at either end |
| Families.ManAndGirlRender | index.js:418-432 | an empty family renders as ""; a man and a girl render as the two glyphs with one ZWJ between them |
| Families.SetTone | index.js:296-300 | the tone setter changes the member's tone and keeps its type; both lists, the identity counter, the set of members and every other member's data are unchanged |
| Families.SetType | index.js:286-290 | the type setter changes the member's type and keeps its tone; both lists, the identity counter, the set of members and every other member's data are unchanged |
| Families.SetToneKeepsWellFormed | index.js:296-300 | a tone change keeps both lists and the partition |
| Families.SetTypeKeepsWellFormed | index.js:286-290 | a type change keeps both lists; it keeps the partition exactly when the category is kept or the member is in no list |
| UserActions.CreateMember | index.js:275-280 | a new member has a fresh identity, is in no list, and the family stays well formed |
| UserActions.AddMember | index.js:506-510 | refused exactly when the member is already in the list `isAdult` selects; otherwise that list gains the member, at the head for a null reference or right after the reference; the other list stays unchanged |
| UserActions.RemoveMember | index.js:528-529 | the member leaves the list `isAdult` selects, which keeps every other member; the other list stays unchanged |
| UserActions.ReinsertMember | index.js:542-549 | the member's list keeps the same members, the other list and the member data are untouched |
| UserActions.AddMemberKeepsWellFormed | index.js:506-510 | adding a member that is in no list succeeds, places it in its category's list and keeps the family well formed |
| UserActions.RemoveMemberKeepsWellFormed | index.js:528-529 | removing takes the member out of the family, keeps it well formed and shortens it by one |
| UserActions.RemoveMemberKeepsOrder | index.js:528-529 | removing keeps the rest of the member's list in order |
| UserActions.AddAtPredecessorUndoesRemove | index.js:543 | removing a member and adding it back after `memberBefore(m, false)` restores the family |
| UserActions.ReinsertMemberNoChange | index.js:542-545 | the family is unchanged when the reference is the member, its in-list predecessor, or a member of the other category |
| UserActions.ReinsertMemberMoves | index.js:546-548 | in all other cases the member moves within its own list: right after the reference, or to the head for a null one. The list keeps its members and its length, the other list is unchanged, and the family stays well formed |
| UserActions.ReinsertMemberKeepsMembers | index.js:542-549 | `reinsertMember` always keeps the family well formed and its members the same |

## Left out

- The page: the emoji rows, `MemberDisplay`, `MemberBoundary`, `EmojiRow`, the selection, the settings sections, `updateOutputBox` and the keyboard, drag and click handlers (index.js:435-1010 apart from `userActions`). They call into the core but hold no state of their own worth a contract.
- UserActions.AddMember: the `memberupdate` listener it installs, the member display it inserts and the `selectNew` selection are page work. Only the list change is modelled.
- The `memberupdate` events that the `Member` setters dispatch (index.js:289, 299): the setters are plain record updates.
- The clipboard copy handler: it is asynchronous browser input/output.
- `produceRandomFamily`: it depends on `Math.random`.
- `validate()` (index.js:408-416): it computes flags and discards them, so it has no observable effect.
- `Symbol.toStringTag` (index.js:310-312): it only names the class.
- `WeakMap` garbage collection: the value map is a finite map keyed by the value.
- Glyph meaning: glyphs and tones are plain code-point strings. The catalogue constants are the code points that the source's UTF-8 literals encode. There is no grapheme or font semantics.
- A falsy non-null reference: the values are objects and so always truthy. A reference is either `None` (null) or a value.
- LinkedNodes.Walk: runs the iterator for at most one step per node in the arena. For non-empty lists in the invariant this is proved to reach the end, so `Walk` is exactly the iterator's output. For a stale emptied list, it is the iterator's output up to that bound.
- Families.ToString: requires every listed member to exist (`Known`). In the source this holds by construction, because the lists hold the member objects themselves.

## Notes on the source

Three behaviours of the code that a reader might not expect. The model
follows the code:

- There are no "not found" or "empty list" checks. `getNode` of an absent
  value returns `undefined`, and its callers dereference that: `remove`
  (index.js:164), `insertAfter` after an absent reference (index.js:123) and
  `memberAfter`/`memberBefore` of an unlisted member (index.js:354, 384).
  `pop` when `#lastNode` is null and `shift` when `#firstNode` is null
  dereference null. These calls are preconditions here.
- A member's type can be changed after it is listed. The type setter
  (index.js:286-290) can change `isAdult` without moving the member to the
  other list. `Families.SetTypeKeepsWellFormed` shows that the partition
  survives exactly when the category is kept. The page only offers types of
  the member's own category.
- `pop` and `shift` move only one end pointer. On a list that `pop` or
  `shift` has emptied, the other end pointer still names the removed node,
  and a later `pop` or `shift` can go through that stale pointer. This is
  shown by:
  - `LinkedRefinement.PopSoleLeavesStaleFirst`;
  - `LinkedRefinement.ShiftSoleLeavesStaleLast`;
  - `LinkedRefinement.PopAfterDrainingShift`.

  The invariant `Valid` therefore says nothing about the end pointers of an
  empty list. A later `push` on such a list resets both pointers.
