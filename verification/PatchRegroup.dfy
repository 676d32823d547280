/** Moving the path map one level up (merkle_tree/src/patch.rs): the lists of two children
    become one list, sorted by operation index. */
module PatchRegroup {
  import opened Wrappers
  import opened SparseTree
  import opened BatchSpec
  import opened MergeIndexed
  import opened PatchMerge
  import opened PatchStep

  function Insert(u: Update, list: seq<Update>): seq<Update> {
    if list == [] || u.index < list[0].index then [u] + list else [list[0]] + Insert(u, list[1..])
  }

  function SortByIndex(list: seq<Update>): seq<Update> {
    if list == [] then [] else Insert(list[0], SortByIndex(list[1..]))
  }

  ghost predicate AscendingIndex(list: seq<Update>) {
    forall i, j :: 0 <= i < j < |list| ==> list[i].index < list[j].index
  }

  ghost predicate DistinctIndex(list: seq<Update>) {
    forall i, j :: 0 <= i < j < |list| ==> list[i].index != list[j].index
  }

  lemma {:induction false} InsertMembers(u: Update, list: seq<Update>)
    ensures forall x :: x in Insert(u, list) <==> x == u || x in list
  {
    if list == [] || u.index < list[0].index {
    } else {
      InsertMembers(u, list[1..]);
      assert list == [list[0]] + list[1..];
    }
  }

  lemma {:induction false} InsertAscending(u: Update, list: seq<Update>)
    requires AscendingIndex(list) && forall x :: x in list ==> x.index != u.index
    ensures AscendingIndex(Insert(u, list))
  {
    if list == [] {
    } else if u.index < list[0].index {
    } else {
      var rest := Insert(u, list[1..]);
      assert list == [list[0]] + list[1..];
      InsertAscending(u, list[1..]);
      InsertMembers(u, list[1..]);
      forall t | 0 <= t < |rest| ensures list[0].index < rest[t].index {
        assert rest[t] in rest;
        assert rest[t] in list[1..] ==> exists s :: 1 <= s < |list| && list[s] == rest[t];
        assert list[0] in list;
      }
    }
  }

  lemma {:induction false} SortMembers(list: seq<Update>)
    requires DistinctIndex(list)
    ensures AscendingIndex(SortByIndex(list))
    ensures forall x :: x in SortByIndex(list) <==> x in list
  {
    if list != [] {
      var rest := list[1..];
      SortMembers(rest);
      InsertMembers(list[0], SortByIndex(rest));
      assert list == [list[0]] + rest;
      forall x | x in rest ensures x.index != list[0].index {
        var t :| 0 <= t < |rest| && rest[t] == x;
        assert list[t + 1] == x;
      }
      InsertAscending(list[0], SortByIndex(rest));
    }
  }

  ghost predicate HaveUncles(list: seq<Update>) {
    forall t :: 0 <= t < |list| ==> list[t].uncles != []
  }

  function PopUncles(list: seq<Update>): seq<Update>
    requires HaveUncles(list)
  {
    seq(|list|, t requires 0 <= t < |list| => list[t].(uncles := list[t].uncles[..|list[t].uncles| - 1]))
  }

  function At(m: UpdatesMap, idx: nat): Option<seq<Update>> {
    if idx in m then Some(m[idx]) else None
  }

  function Parents(m: UpdatesMap): set<nat> {
    set idx | idx in m :: idx / 2
  }

  /** The hash map yields the two children in no particular order; sorting makes it irrelevant. */
  function Regroup(m: UpdatesMap): UpdatesMap
    requires forall idx :: idx in m ==> HaveUncles(m[idx])
  {
    map up | up in Parents(m) :: SortByIndex(PopUncles(Flat(At(m, 2 * up))) + PopUncles(Flat(At(m, 2 * up + 1))))
  }

  lemma {:induction false} ParentsOfLevel(b: Batch, height: nat, m: UpdatesMap)
    requires m.Keys == IndicesAt(b, height)
    ensures Parents(m) == IndicesAt(b, height + 1)
  {
    forall up | up in IndicesAt(b, height + 1) ensures up in Parents(m) {
      var i :| 0 <= i < |b.keys| && b.PathIdx(i, height + 1) == up;
      assert b.PathIdx(i, height) in m;
    }
    forall up | up in Parents(m) ensures up in IndicesAt(b, height + 1) {
      var idx :| idx in m && idx / 2 == up;
      var i :| 0 <= i < |b.keys| && b.PathIdx(i, height) == idx;
      assert b.PathIdx(i, height + 1) == up;
    }
  }

  lemma {:induction false} ListOrEmpty(b: Batch, height: nat, neighbor: bool, done: set<nat>, m: UpdatesMap, idx: nat)
    requires AtLevel(b, height, done) && IsLevel(b, height, neighbor, done, m)
    ensures IsNodeList(b, height, idx, neighbor, done, Flat(At(m, idx)))
  {
    if idx !in m {
      UntouchedNode(b, height, idx);
    }
  }

  function Below(n: nat): (s: set<nat>)
    ensures forall i: nat :: i in s <==> i < n
  {
    if n == 0 then {} else Below(n - 1) + {n - 1}
  }

  ghost function AllOps(b: Batch): set<nat> {
    Below(|b.keys|)
  }

  /** A list after popping: the operations of one child as they stand on the parent. */
  ghost predicate IsPopped(b: Batch, height: nat, idx: nat, list: seq<Update>)
    requires b.Valid() && height < b.depth
  {
    var ops := AllOpsAt(b, height, idx);
    && |list| == |ops|
    && forall t :: 0 <= t < |ops| ==> ops[t] < |b.keys| && list[t] == UpdateAt(b, ops[t], height + 1, height + 1, false)
  }

  lemma {:induction false} PoppedList(b: Batch, height: nat, idx: nat, list: seq<Update>)
    requires b.Valid() && height < b.depth && IsNodeList(b, height, idx, false, AllOps(b), list)
    ensures HaveUncles(list) && IsPopped(b, height, idx, PopUncles(list))
  {
    forall t | 0 <= t < |list| ensures list[t].uncles != [] {
      ListItem(b, height, idx, false, AllOps(b), list, t);
      NextUncles(b, AllOpsAt(b, height, idx)[t], height, height + 1, false);
    }
    forall t | 0 <= t < |list|
      ensures PopUncles(list)[t] == UpdateAt(b, AllOpsAt(b, height, idx)[t], height + 1, height + 1, false)
    {
      ListItem(b, height, idx, false, AllOps(b), list, t);
      NextUncles(b, AllOpsAt(b, height, idx)[t], height, height + 1, false);
    }
  }

  lemma {:induction false} PoppedMember(b: Batch, height: nat, idx: nat, list: seq<Update>, u: Update)
    requires b.Valid() && height < b.depth && IsPopped(b, height, idx, list)
    requires u in list
    ensures u.index in AllOpsAt(b, height, idx) && u.index < |b.keys|
    ensures u == UpdateAt(b, u.index, height + 1, height + 1, false)
  {
    var t :| 0 <= t < |list| && list[t] == u;
    assert AllOpsAt(b, height, idx)[t] in AllOpsAt(b, height, idx);
  }

  lemma {:induction false} PoppedHas(b: Batch, height: nat, idx: nat, list: seq<Update>, i: nat)
    requires b.Valid() && height < b.depth && IsPopped(b, height, idx, list)
    requires i in AllOpsAt(b, height, idx)
    ensures i < |b.keys| && UpdateAt(b, i, height + 1, height + 1, false) in list
  {
    var t :| 0 <= t < |list| && AllOpsAt(b, height, idx)[t] == i;
    assert list[t] in list;
  }

  lemma {:induction false} PoppedDistinct(b: Batch, height: nat, up: nat, left: seq<Update>, right: seq<Update>)
    requires b.Valid() && height < b.depth
    requires IsPopped(b, height, 2 * up, left) && IsPopped(b, height, 2 * up + 1, right)
    ensures DistinctIndex(left + right)
  {
    var both := left + right;
    OpsAtMembers(b, height, 2 * up, |b.keys|);
    OpsAtMembers(b, height, 2 * up + 1, |b.keys|);
    SiblingsDisjoint(b, height, up);
    forall i | 0 <= i < |both|
      ensures both[i].index
           == if i < |left| then AllOpsAt(b, height, 2 * up)[i] else AllOpsAt(b, height, 2 * up + 1)[i - |left|]
    {
    }
  }

  lemma {:induction false} UnionMember(b: Batch, height: nat, up: nat, left: seq<Update>, right: seq<Update>, u: Update)
    requires b.Valid() && height < b.depth
    requires IsPopped(b, height, 2 * up, left) && IsPopped(b, height, 2 * up + 1, right)
    requires u in left + right
    ensures u.index in AllOpsAt(b, height + 1, up) && u.index < |b.keys|
    ensures u == UpdateAt(b, u.index, height + 1, height + 1, false)
  {
    OpInParent(b, height, up, u.index);
    if u in left {
      PoppedMember(b, height, 2 * up, left, u);
    } else {
      assert u in right;
      PoppedMember(b, height, 2 * up + 1, right, u);
    }
  }

  lemma {:induction false} UnionHas(b: Batch, height: nat, up: nat, left: seq<Update>, right: seq<Update>, i: nat)
    requires b.Valid() && height < b.depth
    requires IsPopped(b, height, 2 * up, left) && IsPopped(b, height, 2 * up + 1, right)
    requires i in AllOpsAt(b, height + 1, up)
    ensures i < |b.keys| && UpdateAt(b, i, height + 1, height + 1, false) in left + right
  {
    OpInParent(b, height, up, i);
    if i in AllOpsAt(b, height, 2 * up) {
      PoppedHas(b, height, 2 * up, left, i);
    } else {
      PoppedHas(b, height, 2 * up + 1, right, i);
      assert UpdateAt(b, i, height + 1, height + 1, false) in right;
    }
  }

  /** A sorted list holding exactly the updates of the parent's operations is the parent's list. */
  lemma {:induction false} SortedIsNodeList(b: Batch, height: nat, up: nat, both: seq<Update>, sorted: seq<Update>)
    requires b.Valid() && height <= b.depth
    requires forall u: Update :: u in both ==>
               && u.index in AllOpsAt(b, height, up) && u.index < |b.keys|
               && u == UpdateAt(b, u.index, height, height, false)
    requires forall i :: i in AllOpsAt(b, height, up) ==> i < |b.keys| && UpdateAt(b, i, height, height, false) in both
    requires AscendingIndex(sorted) && forall u :: u in sorted <==> u in both
    ensures IsNodeList(b, height, up, false, {}, sorted)
  {
    var ops := AllOpsAt(b, height, up);
    OpsAtMembers(b, height, up, |b.keys|);
    var indices: seq<nat> := seq(|sorted|, t requires 0 <= t < |sorted| => sorted[t].index);
    assert forall t :: 0 <= t < |sorted| ==> sorted[t] in sorted;
    forall x | x in ops ensures x in indices {
      assert UpdateAt(b, x, height, height, false) in sorted;
      var t :| 0 <= t < |sorted| && sorted[t] == UpdateAt(b, x, height, height, false);
      assert indices[t] == x;
    }
    AscendingUnique(indices, ops);
    forall t | 0 <= t < |ops|
      ensures ops[t] < |b.keys| && sorted[t] == UpdateAt(b, ops[t], height, height, false)
    {
      assert indices[t] == sorted[t].index;
    }
  }

  lemma {:induction false} RegroupNode(b: Batch, height: nat, up: nat, leftList: seq<Update>, rightList: seq<Update>)
    requires b.Valid() && height < b.depth
    requires IsNodeList(b, height, 2 * up, false, AllOps(b), leftList)
    requires IsNodeList(b, height, 2 * up + 1, false, AllOps(b), rightList)
    ensures HaveUncles(leftList) && HaveUncles(rightList)
    ensures IsNodeList(b, height + 1, up, false, {}, SortByIndex(PopUncles(leftList) + PopUncles(rightList)))
  {
    hide IsNodeList, PopUncles, HaveUncles;
    PoppedList(b, height, 2 * up, leftList);
    PoppedList(b, height, 2 * up + 1, rightList);
    var left, right := PopUncles(leftList), PopUncles(rightList);
    PoppedDistinct(b, height, up, left, right);
    SortMembers(left + right);
    forall u: Update | u in left + right
      ensures u.index in AllOpsAt(b, height + 1, up) && u.index < |b.keys|
      ensures u == UpdateAt(b, u.index, height + 1, height + 1, false)
    {
      UnionMember(b, height, up, left, right, u);
    }
    var ops := AllOpsAt(b, height + 1, up);
    forall i | i in ops
      ensures i < |b.keys| && UpdateAt(b, i, height + 1, height + 1, false) in left + right
    {
      UnionHas(b, height, up, left, right, i);
    }
    SortedIsNodeList(b, height + 1, up, left + right, SortByIndex(left + right));
  }

  lemma {:induction false} RegroupParent(b: Batch, height: nat, m: UpdatesMap, up: nat)
    requires b.Valid() && height < b.depth && IsLevel(b, height, false, AllOps(b), m)
    ensures HaveUncles(Flat(At(m, 2 * up))) && HaveUncles(Flat(At(m, 2 * up + 1)))
    ensures IsNodeList(b, height + 1, up, false, {},
                       SortByIndex(PopUncles(Flat(At(m, 2 * up))) + PopUncles(Flat(At(m, 2 * up + 1)))))
  {
    hide IsNodeList, IsLevel, Flat, At, SortByIndex, PopUncles;
    ListOrEmpty(b, height, false, AllOps(b), m, 2 * up);
    ListOrEmpty(b, height, false, AllOps(b), m, 2 * up + 1);
    RegroupNode(b, height, up, Flat(At(m, 2 * up)), Flat(At(m, 2 * up + 1)));
  }

  lemma {:induction false} LevelHasUncles(b: Batch, height: nat, m: UpdatesMap)
    requires b.Valid() && height < b.depth && IsLevel(b, height, false, AllOps(b), m)
    ensures forall idx :: idx in m ==> HaveUncles(m[idx])
  {
    hide HaveUncles, IsNodeList, AllOps;
    forall idx | idx in m ensures HaveUncles(m[idx]) {
      PoppedList(b, height, idx, m[idx]);
    }
  }

  lemma RegroupAt(m: UpdatesMap, up: nat)
    requires (forall idx :: idx in m ==> HaveUncles(m[idx])) && up in Regroup(m)
    ensures HaveUncles(Flat(At(m, 2 * up))) && HaveUncles(Flat(At(m, 2 * up + 1)))
    ensures Regroup(m)[up] == SortByIndex(PopUncles(Flat(At(m, 2 * up))) + PopUncles(Flat(At(m, 2 * up + 1))))
  {
  }

  lemma {:induction false} RegroupedLists(b: Batch, height: nat, m: UpdatesMap)
    requires b.Valid() && height < b.depth && IsLevel(b, height, false, AllOps(b), m)
    requires forall idx :: idx in m ==> HaveUncles(m[idx])
    ensures forall up :: up in Regroup(m) ==> IsNodeList(b, height + 1, up, false, {}, Regroup(m)[up])
  {
    forall up | up in Regroup(m) ensures IsNodeList(b, height + 1, up, false, {}, Regroup(m)[up]) {
      hide IsNodeList, IsLevel, HaveUncles, Regroup;
      RegroupAt(m, up);
      RegroupParent(b, height, m, up);
    }
  }

  lemma {:induction false} RegroupLevel(b: Batch, height: nat, m: UpdatesMap)
    requires b.Valid() && height < b.depth && IsLevel(b, height, false, AllOps(b), m)
    ensures forall idx :: idx in m ==> HaveUncles(m[idx])
    ensures IsLevel(b, height + 1, false, {}, Regroup(m))
  {
    LevelHasUncles(b, height, m);
    ParentsOfLevel(b, height, m);
    RegroupedLists(b, height, m);
    hide IsNodeList, HaveUncles, IndicesAt;
  }
}
