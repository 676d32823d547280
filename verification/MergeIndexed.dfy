/** Merging two lists that are indexed by operation numbers. */
module MergeIndexed {
  import opened Wrappers
  import opened MergeJoin

  ghost predicate Ascending(s: seq<nat>) {
    forall i, j :: 0 <= i < j < |s| ==> s[i] < s[j]
  }

  ghost predicate Image<T(!new)>(f: nat -> T, ops: seq<nat>, list: seq<T>) {
    |list| == |ops| && forall t :: 0 <= t < |ops| ==> list[t] == f(ops[t])
  }

  ghost predicate Indexed<T(!new)>(key: T -> int, f: nat -> T) {
    forall i :: key(f(i)) == i
  }

  ghost predicate Disjoint(left: seq<nat>, right: seq<nat>) {
    forall i, j :: 0 <= i < |left| && 0 <= j < |right| ==> left[i] != right[j]
  }

  lemma {:induction false} AscendingSplit(s: seq<nat>)
    requires Ascending(s) && s != []
    ensures forall x :: x in s ==> x <= s[|s| - 1]
    ensures forall x :: x in s[..|s| - 1] <==> x in s && x != s[|s| - 1]
  {
    var m := |s| - 1;
    forall x ensures x in s <==> x in s[..m] || x == s[m] {
      InLast(s, x);
    }
    forall x | x in s[..m] ensures x < s[m] {
      var i :| 0 <= i < m && s[i] == x;
    }
  }

  lemma SameLast(s: seq<nat>, t: seq<nat>)
    requires Ascending(s) && Ascending(t) && s != [] && t != []
    requires forall x :: x in s <==> x in t
    ensures s[|s| - 1] == t[|t| - 1]
  {
    AscendingSplit(s);
    AscendingSplit(t);
    assert s[|s| - 1] in s && t[|t| - 1] in t;
  }

  lemma SameWithoutLast(s: seq<nat>, t: seq<nat>, x: nat)
    requires Ascending(s) && Ascending(t) && s != [] && t != []
    requires forall x :: x in s <==> x in t
    ensures x in s[..|s| - 1] <==> x in t[..|t| - 1]
  {
    SameLast(s, t);
    AscendingSplit(s);
    AscendingSplit(t);
    assert x in s[..|s| - 1] <==> x in s && x != s[|s| - 1];
    assert x in t[..|t| - 1] <==> x in t && x != t[|t| - 1];
  }

  lemma InitAscends(s: seq<nat>)
    requires Ascending(s) && s != []
    ensures Ascending(s[..|s| - 1])
  {
  }

  /** An ascending sequence is determined by its members. */
  lemma {:induction false} AscendingUnique(s: seq<nat>, t: seq<nat>)
    requires Ascending(s) && Ascending(t)
    requires forall x :: x in s <==> x in t
    ensures s == t
  {
    EmptyIffNoMember(s);
    EmptyIffNoMember(t);
    if s != [] {
      var m, n := |s| - 1, |t| - 1;
      SameLast(s, t);
      forall x ensures x in s[..m] <==> x in t[..n] {
        SameWithoutLast(s, t, x);
      }
      InitAscends(s);
      InitAscends(t);
      hide Ascending;
      AscendingUnique(s[..m], t[..n]);
      assert s == s[..m] + [s[m]] && t == t[..n] + [t[n]];
    }
  }

  /** The sorted union of what is left of two ascending sequences. */
  ghost function Union(left: seq<nat>, right: seq<nat>, a: nat, b: nat): seq<nat>
    requires a <= |left| && b <= |right|
    decreases |left| - a + |right| - b
  {
    if a == |left| && b == |right| then []
    else if b == |right| || (a < |left| && left[a] < right[b]) then [left[a]] + Union(left, right, a + 1, b)
    else [right[b]] + Union(left, right, a, b + 1)
  }

  lemma {:induction false} UnionMembers(left: seq<nat>, right: seq<nat>, a: nat, b: nat)
    requires a <= |left| && b <= |right|
    ensures forall x :: x in Union(left, right, a, b) <==> x in left[a..] || x in right[b..]
    decreases |left| - a + |right| - b
  {
    if a == |left| && b == |right| {
    } else if b == |right| || (a < |left| && left[a] < right[b]) {
      UnionMembers(left, right, a + 1, b);
      assert left[a..] == [left[a]] + left[a + 1..];
    } else {
      UnionMembers(left, right, a, b + 1);
      assert right[b..] == [right[b]] + right[b + 1..];
    }
  }

  lemma ConsAscending(head: nat, rest: seq<nat>)
    requires Ascending(rest) && forall x :: x in rest ==> head < x
    ensures Ascending([head] + rest)
  {
    var s := [head] + rest;
    forall i, j | 0 <= i < j < |s| ensures s[i] < s[j] {
      assert rest[j - 1] in rest;
    }
  }

  lemma AboveFirst(s: seq<nat>, a: nat, low: nat)
    requires Ascending(s) && a <= |s| && (a < |s| ==> low < s[a])
    ensures forall x :: x in s[a..] ==> low < x
  {
  }

  lemma {:induction false} UnionAscending(left: seq<nat>, right: seq<nat>, a: nat, b: nat)
    requires a <= |left| && b <= |right|
    requires Ascending(left) && Ascending(right) && Disjoint(left, right)
    ensures Ascending(Union(left, right, a, b))
    decreases |left| - a + |right| - b
  {
    if a == |left| && b == |right| {
    } else {
      var takeLeft := b == |right| || (a < |left| && left[a] < right[b]);
      var a', b' := if takeLeft then a + 1 else a, if takeLeft then b else b + 1;
      var head := if takeLeft then left[a] else right[b];
      AboveFirst(left, a', head);
      AboveFirst(right, b', head);
      UnionAscending(left, right, a', b');
      UnionMembers(left, right, a', b');
      ConsAscending(head, Union(left, right, a', b'));
    }
  }

  /** The item of index `i`, from whichever side, with its predecessor on the other side. */
  ghost predicate Emitted<T(!new), P>(key: T -> int, mapF: T -> P, f: nat -> T,
      leftOps: seq<nat>, rightOps: seq<nat>, left: seq<T>, right: seq<T>, i: nat, e: (T, Option<P>))
  {
    && e.0 == f(i)
    && (|| (i in leftOps && e.1 == MaxPredecessor(key, mapF, right, i))
        || (i in rightOps && e.1 == MaxPredecessor(key, mapF, left, i)))
  }

  /** The merge goes through the union of the indices. */
  lemma {:induction false} JoinedIsImage<T(!new), P>(key: T -> int, mapF: T -> P, f: nat -> T,
      leftOps: seq<nat>, rightOps: seq<nat>, left: seq<T>, right: seq<T>, a: nat, b: nat)
    requires Indexed(key, f) && Image(f, leftOps, left) && Image(f, rightOps, right)
    requires a <= |left| && b <= |right|
    ensures var out, union := Joined(key, mapF, left, right, a, b), Union(leftOps, rightOps, a, b);
            && |out| == |union|
            && forall t :: 0 <= t < |union| ==> Emitted(key, mapF, f, leftOps, rightOps, left, right, union[t], out[t])
    decreases |left| - a + |right| - b
  {
    hide MaxPredecessor;
    if a == |left| && b == |right| {
    } else {
      assert a < |left| ==> key(left[a]) == key(f(leftOps[a])) == leftOps[a];
      assert b < |right| ==> key(right[b]) == key(f(rightOps[b])) == rightOps[b];
      var takeLeft := b == |right| || (a < |left| && leftOps[a] < rightOps[b]);
      var a', b' := if takeLeft then a + 1 else a, if takeLeft then b else b + 1;
      JoinedIsImage(key, mapF, f, leftOps, rightOps, left, right, a', b');
      var out, union := Joined(key, mapF, left, right, a, b), Union(leftOps, rightOps, a, b);
      var out', union' := Joined(key, mapF, left, right, a', b'), Union(leftOps, rightOps, a', b');
      assert out == [out[0]] + out' && union == [union[0]] + union';
      assert Emitted(key, mapF, f, leftOps, rightOps, left, right, union[0], out[0]);
    }
  }

  lemma {:induction false} ImagesMergeable<T(!new)>(key: T -> int, f: nat -> T,
      leftOps: seq<nat>, rightOps: seq<nat>, left: seq<T>, right: seq<T>)
    requires Indexed(key, f) && Image(f, leftOps, left) && Image(f, rightOps, right)
    requires Ascending(leftOps) && Ascending(rightOps) && Disjoint(leftOps, rightOps)
    ensures Increasing(key, left) && Increasing(key, right) && NoSharedKey(key, left, right)
  {
    assert forall t :: 0 <= t < |left| ==> key(left[t]) == key(f(leftOps[t])) == leftOps[t];
    assert forall t :: 0 <= t < |right| ==> key(right[t]) == key(f(rightOps[t])) == rightOps[t];
  }

  /** `ops` is the sorted union of the two index lists: the merge goes through `ops` in order,
      each item with its predecessor in the other list. */
  lemma {:induction false} MergeGoesThrough<T(!new), P>(key: T -> int, mapF: T -> P, f: nat -> T,
      leftOps: seq<nat>, rightOps: seq<nat>, ops: seq<nat>, left: seq<T>, right: seq<T>)
    requires Indexed(key, f) && Image(f, leftOps, left) && Image(f, rightOps, right)
    requires Ascending(leftOps) && Ascending(rightOps) && Disjoint(leftOps, rightOps)
    requires Ascending(ops) && forall x :: x in ops <==> x in leftOps || x in rightOps
    ensures var out := Joined(key, mapF, left, right, 0, 0);
            && |out| == |ops|
            && forall t :: 0 <= t < |ops| ==> Emitted(key, mapF, f, leftOps, rightOps, left, right, ops[t], out[t])
  {
    assert leftOps[0..] == leftOps && rightOps[0..] == rightOps;
    UnionMembers(leftOps, rightOps, 0, 0);
    UnionAscending(leftOps, rightOps, 0, 0);
    AscendingUnique(Union(leftOps, rightOps, 0, 0), ops);
    JoinedIsImage(key, mapF, f, leftOps, rightOps, left, right, 0, 0);
  }

  /** The predecessor of `i` in a list: the item of the latest index below `i`. */
  lemma {:induction false} PredecessorInImage<T(!new), P>(key: T -> int, mapF: T -> P, f: nat -> T, ops: seq<nat>,
      list: seq<T>, i: nat)
    returns (c: nat)
    requires Indexed(key, f) && Image(f, ops, list) && Ascending(ops)
    ensures c <= |ops| && (c > 0 ==> ops[c - 1] < i) && (c < |ops| ==> ops[c] >= i)
    ensures MaxPredecessor(key, mapF, list, i) == if c == 0 then None else Some(mapF(f(ops[c - 1])))
  {
    c := 0;
    while c < |ops| && ops[c] < i
      invariant c <= |ops| && (c > 0 ==> ops[c - 1] < i)
    {
      c := c + 1;
    }
    assert forall t :: 0 <= t < |list| ==> key(list[t]) == key(f(ops[t])) == ops[t];
    MaxPredecessorSplit(key, mapF, list, i, c);
  }
}
