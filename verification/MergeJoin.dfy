/** The ordered merge that pairs every item with the latest earlier item of the
    other side (merkle_tree/src/iter_ext/merge_join_with_max_predecessor.rs). */
module MergeJoin {
  import opened Wrappers

  datatype Either<+T> = Left(item: T) | Right(item: T)

  // ---------------------------------------------------------------- Specification

  ghost predicate Increasing<T>(key: T -> int, s: seq<T>) {
    forall i, j :: 0 <= i < j < |s| ==> key(s[i]) < key(s[j])
  }

  ghost predicate NoSharedKey<T>(key: T -> int, left: seq<T>, right: seq<T>) {
    forall i, j :: 0 <= i < |left| && 0 <= j < |right| ==> key(left[i]) != key(right[j])
  }

  /** The mapped value of the last item of `other` whose key is below `k`. */
  ghost function MaxPredecessor<T, P>(key: T -> int, mapF: T -> P, other: seq<T>, k: int): Option<P> {
    if other == [] then None
    else if key(other[|other| - 1]) < k then Some(mapF(other[|other| - 1]))
    else MaxPredecessor(key, mapF, other[..|other| - 1], k)
  }

  /** What is still to come once `a` items of `left` and `b` items of `right` were emitted. */
  ghost function Joined<T, P>(key: T -> int, mapF: T -> P, left: seq<T>, right: seq<T>, a: nat, b: nat)
    : seq<(T, Option<P>)>
    requires a <= |left| && b <= |right|
    decreases |left| - a + |right| - b
  {
    if a == |left| && b == |right| then []
    else if b == |right| || (a < |left| && key(left[a]) < key(right[b])) then
      [(left[a], MaxPredecessor(key, mapF, right, key(left[a])))] + Joined(key, mapF, left, right, a + 1, b)
    else
      [(right[b], MaxPredecessor(key, mapF, left, key(right[b])))] + Joined(key, mapF, left, right, a, b + 1)
  }

  /** `MaxPredecessor` really is the largest smaller item: nothing of `other` lies between. */
  lemma {:induction false} MaxPredecessorSplit<T, P>(key: T -> int, mapF: T -> P, other: seq<T>, k: int, b: nat)
    requires b <= |other|
    requires forall j :: b <= j < |other| ==> key(other[j]) >= k
    requires b > 0 ==> key(other[b - 1]) < k
    ensures MaxPredecessor(key, mapF, other, k) == if b == 0 then None else Some(mapF(other[b - 1]))
  {
    if b < |other| {
      MaxPredecessorSplit(key, mapF, other[..|other| - 1], k, b);
    }
  }

  function ItemsOf<T, P>(out: seq<(T, Option<P>)>): (items: seq<T>)
    ensures |items| == |out| && forall i :: 0 <= i < |out| ==> items[i] == out[i].0
  {
    seq(|out|, i requires 0 <= i < |out| => out[i].0)
  }

  lemma ItemsOfCons<T, P>(first: (T, Option<P>), rest: seq<(T, Option<P>)>)
    ensures ItemsOf([first] + rest) == [first.0] + ItemsOf(rest)
  {
  }

  lemma NextOfSlice<T>(s: seq<T>, a: nat)
    requires a < |s|
    ensures multiset(s[a..]) == multiset{s[a]} + multiset(s[a + 1..])
  {
    assert s[a..] == [s[a]] + s[a + 1..];
  }

  /** Every item of both inputs comes out exactly once: the merge is an interleaving. */
  lemma {:induction false} JoinedItems<T, P>(key: T -> int, mapF: T -> P, left: seq<T>, right: seq<T>, a: nat, b: nat)
    requires a <= |left| && b <= |right|
    ensures var out := Joined(key, mapF, left, right, a, b);
            && |out| == |left| - a + |right| - b
            && multiset(ItemsOf(out)) == multiset(left[a..]) + multiset(right[b..])
    decreases |left| - a + |right| - b
  {
    hide ItemsOf, MaxPredecessor;
    if a == |left| && b == |right| {
    } else if b == |right| || (a < |left| && key(left[a]) < key(right[b])) {
      JoinedItems(key, mapF, left, right, a + 1, b);
      ItemsOfCons(Joined(key, mapF, left, right, a, b)[0], Joined(key, mapF, left, right, a + 1, b));
      NextOfSlice(left, a);
    } else {
      JoinedItems(key, mapF, left, right, a, b + 1);
      ItemsOfCons(Joined(key, mapF, left, right, a, b)[0], Joined(key, mapF, left, right, a, b + 1));
      NextOfSlice(right, b);
    }
  }

  /** A bound below everything that is left is below everything that still comes out. */
  lemma {:induction false} JoinedAbove<T, P>(key: T -> int, mapF: T -> P, left: seq<T>, right: seq<T>, a: nat,
      b: nat, bound: int)
    requires a <= |left| && b <= |right|
    requires forall x :: a <= x < |left| ==> bound < key(left[x])
    requires forall y :: b <= y < |right| ==> bound < key(right[y])
    ensures forall i :: 0 <= i < |Joined(key, mapF, left, right, a, b)| ==>
              bound < key(Joined(key, mapF, left, right, a, b)[i].0)
    decreases |left| - a + |right| - b
  {
    if a == |left| && b == |right| {
    } else if b == |right| || (a < |left| && key(left[a]) < key(right[b])) {
      JoinedAbove(key, mapF, left, right, a + 1, b, bound);
    } else {
      JoinedAbove(key, mapF, left, right, a, b + 1, bound);
    }
  }

  /** Items come out in strictly increasing key order. */
  lemma {:induction false} JoinedIncreasing<T, P>(key: T -> int, mapF: T -> P, left: seq<T>, right: seq<T>, a: nat,
      b: nat)
    requires a <= |left| && b <= |right|
    requires Increasing(key, left) && Increasing(key, right) && NoSharedKey(key, left, right)
    ensures Increasing((e: (T, Option<P>)) => key(e.0), Joined(key, mapF, left, right, a, b))
    decreases |left| - a + |right| - b
  {
    var out := Joined(key, mapF, left, right, a, b);
    if a == |left| && b == |right| {
    } else {
      var takeLeft := b == |right| || (a < |left| && key(left[a]) < key(right[b]));
      var a', b' := if takeLeft then a + 1 else a, if takeLeft then b else b + 1;
      var rest := Joined(key, mapF, left, right, a', b');
      JoinedIncreasing(key, mapF, left, right, a', b');
      JoinedAbove(key, mapF, left, right, a', b', key(out[0].0));
      assert out == [out[0]] + rest;
    }
  }

  /** Each emitted pair carries the predecessor its item has in the other input. */
  lemma {:induction false} JoinedPredecessors<T, P>(key: T -> int, mapF: T -> P, left: seq<T>, right: seq<T>, a: nat,
      b: nat)
    requires a <= |left| && b <= |right|
    ensures forall i :: 0 <= i < |Joined(key, mapF, left, right, a, b)| ==>
              var e := Joined(key, mapF, left, right, a, b)[i];
              || (e.0 in left && e.1 == MaxPredecessor(key, mapF, right, key(e.0)))
              || (e.0 in right && e.1 == MaxPredecessor(key, mapF, left, key(e.0)))
    decreases |left| - a + |right| - b
  {
    if a == |left| && b == |right| {
    } else if b == |right| || (a < |left| && key(left[a]) < key(right[b])) {
      JoinedPredecessors(key, mapF, left, right, a + 1, b);
    } else {
      JoinedPredecessors(key, mapF, left, right, a, b + 1);
    }
  }

  // ---------------------------------------------------------------- The iterator as a value

  /** Where both sides are read, the item read but not yet emitted, and the predecessor registers. */
  datatype Cursor<+T, +P> = Cursor(leftPos: nat, rightPos: nat, last: Option<Either<T>>,
    lastLeft: Option<P>, lastRight: Option<P>)

  function Start<T, P>(): Cursor<T, P> {
    Cursor(0, 0, None, None, None)
  }

  datatype Join<!T, !P> = Join(left: seq<T>, right: seq<T>, key: T -> int, mapF: T -> P) {
    function Peek(s: seq<T>, pos: nat): Option<T> {
      if pos < |s| then Some(s[pos]) else None
    }

    /** Picks the item after `item`, which came from `first`; `None` stands for an exhausted side. The
        other two results are what the caller stores for `first` and for `second`. */
    function Choose(item: T, first: Option<T>, second: Option<T>): (Option<Either<T>>, Option<P>, Option<P>) {
      if first.None? || second.None? || key(first.value) < key(second.value) then
        (if first.Some? then Some(Left(first.value)) else None, Some(mapF(item)), None)
      else if key(first.value) == key(second.value) then (Some(Left(first.value)), None, None)
      else
        (Some(Right(second.value)),
         if key(item) == key(second.value) then None else Some(mapF(item)),
         if key(item) < key(second.value) then Some(mapF(second.value)) else None)
    }

    /** The item in hand is the last one read from its side. */
    ghost predicate Placed(c: Cursor<T, P>) {
      && c.leftPos <= |left| && c.rightPos <= |right|
      && (c.last.Some? && c.last.value.Left? ==> c.leftPos > 0 && c.last.value == Left(left[c.leftPos - 1]))
      && (c.last.Some? && c.last.value.Right? ==> c.rightPos > 0 && c.last.value == Right(right[c.rightPos - 1]))
    }

    /** Items emitted so far from each side. */
    function EmittedLeft(c: Cursor<T, P>): nat
      requires Placed(c)
    {
      if c.last.Some? && c.last.value.Left? then c.leftPos - 1 else c.leftPos
    }

    function EmittedRight(c: Cursor<T, P>): nat
      requires Placed(c)
    {
      if c.last.Some? && c.last.value.Right? then c.rightPos - 1 else c.rightPos
    }

    /** Reads an item if there is none in hand. */
    function Fill(c: Cursor<T, P>): (c': Cursor<T, P>)
      requires Placed(c)
      ensures Placed(c') && EmittedLeft(c') == EmittedLeft(c) && EmittedRight(c') == EmittedRight(c)
      ensures c'.last.None? ==> c' == c && c.leftPos == |left| && c.rightPos == |right|
    {
      var l, r := Peek(left, c.leftPos), Peek(right, c.rightPos);
      if c.last.Some? then c
      else if l.None? || (r.Some? && key(l.value) > key(r.value)) then
        if r.Some? then c.(last := Some(Right(r.value)), rightPos := c.rightPos + 1) else c
      else c.(last := Some(Left(l.value)), leftPos := c.leftPos + 1)
    }

    /** The item in hand with the register of the other side. */
    function InHand(c: Cursor<T, P>): (T, Option<P>)
      requires c.last.Some?
    {
      (c.last.value.item, if c.last.value.Left? then c.lastRight else c.lastLeft)
    }

    function Keep(register: Option<P>, update: Option<P>): Option<P> {
      if update.Some? then update else register
    }

    /** Emits the item in hand and reads the next one. */
    function Emit(c: Cursor<T, P>): (c': Cursor<T, P>)
      requires Placed(c) && c.last.Some?
      ensures Placed(c')
      ensures EmittedLeft(c') == EmittedLeft(c) + (if c.last.value.Left? then 1 else 0)
      ensures EmittedRight(c') == EmittedRight(c) + (if c.last.value.Left? then 0 else 1)
    {
      var x, l, r := c.last.value.item, Peek(left, c.leftPos), Peek(right, c.rightPos);
      if c.last.value.Left? then
        var (next, forLeft, forRight) := Choose(x, l, r);
        Cursor(if next.Some? && next.value.Left? then c.leftPos + 1 else c.leftPos,
               if next.Some? && next.value.Right? then c.rightPos + 1 else c.rightPos,
               next, Keep(c.lastLeft, forLeft), Keep(c.lastRight, forRight))
      else
        // what Choose calls left and right changes places
        var (next, forRight, forLeft) := Choose(x, r, l);
        Cursor(if next.Some? && next.value.Right? then c.leftPos + 1 else c.leftPos,
               if next.Some? && next.value.Left? then c.rightPos + 1 else c.rightPos,
               if next.None? then None
               else Some(if next.value.Left? then Right(next.value.item) else Left(next.value.item)),
               Keep(c.lastLeft, forLeft), Keep(c.lastRight, forRight))
    }

    /** Everything that still comes out. */
    function Run(c: Cursor<T, P>): seq<(T, Option<P>)>
      requires Placed(c)
      decreases |left| - EmittedLeft(c) + |right| - EmittedRight(c)
    {
      var c' := Fill(c);
      if c'.last.None? then [] else [InHand(c')] + Run(Emit(c'))
    }

    // -------------------------------------------------------------- On any inputs

    lemma RunUnfolds(c: Cursor<T, P>)
      requires Placed(c)
      ensures Fill(c).last.None? ==> Run(c) == []
      ensures Fill(c).last.Some? ==> Run(c) == [InHand(Fill(c))] + Run(Emit(Fill(c)))
    {
      hide Fill, Emit, InHand;
    }

    /** The items not emitted yet. */
    ghost function Rest(c: Cursor<T, P>): multiset<T>
      requires Placed(c)
    {
      multiset(left[EmittedLeft(c)..]) + multiset(right[EmittedRight(c)..])
    }

    lemma FillKeepsRest(c: Cursor<T, P>)
      requires Placed(c)
      ensures Rest(Fill(c)) == Rest(c) && (Fill(c).last.None? ==> Rest(c) == multiset{})
    {
    }

    lemma {:induction false} EmitTakesOne(c: Cursor<T, P>)
      requires Placed(c) && c.last.Some?
      ensures Rest(c) == multiset{InHand(c).0} + Rest(Emit(c))
    {
      hide Emit;
      if c.last.value.Left? {
        NextOfSlice(left, EmittedLeft(c));
      } else {
        NextOfSlice(right, EmittedRight(c));
      }
    }

    /** Whatever the inputs are, every item of both comes out exactly once. */
    lemma {:induction false} RunItems(c: Cursor<T, P>)
      requires Placed(c)
      ensures multiset(ItemsOf(Run(c))) == Rest(c)
      decreases |left| - EmittedLeft(c) + |right| - EmittedRight(c)
    {
      hide Emit, Fill, Run, InHand, ItemsOf, Rest;
      var c' := Fill(c);
      FillKeepsRest(c);
      RunUnfolds(c);
      if c'.last.None? {
        NoItems<T, P>();
      } else {
        EmitTakesOne(c');
        RunItems(Emit(c'));
        ItemsOfCons(InHand(c'), Run(Emit(c')));
      }
    }

    /** The item in hand is a smallest one of what is left. */
    ghost predicate SmallestInHand(c: Cursor<T, P>)
      requires Placed(c)
    {
      c.last.Some? ==>
        && (EmittedLeft(c) < |left| ==> key(c.last.value.item) <= key(left[EmittedLeft(c)]))
        && (EmittedRight(c) < |right| ==> key(c.last.value.item) <= key(right[EmittedRight(c)]))
    }

    ghost predicate AtLeast(c: Cursor<T, P>, bound: int)
      requires Placed(c)
    {
      && (EmittedLeft(c) < |left| ==> bound <= key(left[EmittedLeft(c)]))
      && (EmittedRight(c) < |right| ==> bound <= key(right[EmittedRight(c)]))
    }

    lemma {:induction false} EmitStaysSmallest(c: Cursor<T, P>)
      requires Placed(c) && c.last.Some? && SmallestInHand(c) && Increasing(key, left) && Increasing(key, right)
      ensures SmallestInHand(Emit(c)) && AtLeast(Emit(c), key(c.last.value.item))
    {
    }

    lemma {:induction false} FillIsSmallest(c: Cursor<T, P>)
      requires Placed(c) && SmallestInHand(c)
      ensures SmallestInHand(Fill(c))
    {
    }

    /** On increasing inputs, with common keys or without, the items come out in order. */
    lemma {:induction false} RunOrdered(c: Cursor<T, P>, bound: int)
      requires Placed(c) && SmallestInHand(c) && Increasing(key, left) && Increasing(key, right) && AtLeast(c, bound)
      ensures forall i :: 0 <= i < |Run(c)| ==> bound <= key(Run(c)[i].0)
      ensures forall i, j :: 0 <= i < j < |Run(c)| ==> key(Run(c)[i].0) <= key(Run(c)[j].0)
      decreases |left| - EmittedLeft(c) + |right| - EmittedRight(c)
    {
      var c' := Fill(c);
      if c'.last.Some? {
        FillIsSmallest(c);
        EmitStaysSmallest(c');
        assert bound <= key(c'.last.value.item);
        hide SmallestInHand, Emit, Fill, Increasing, AtLeast;
        RunOrdered(Emit(c'), key(c'.last.value.item));
      }
    }

    // -------------------------------------------------------------- On inputs without a common key

    ghost predicate Ordered() {
      Increasing(key, left) && Increasing(key, right) && NoSharedKey(key, left, right)
    }

    function Seen(s: seq<T>, n: nat): Option<P>
      requires n <= |s|
    {
      if n == 0 then None else Some(mapF(s[n - 1]))
    }

    ghost predicate Valid(c: Cursor<T, P>) {
      Placed(c) &&
      var a, b := EmittedLeft(c), EmittedRight(c);
      // everything emitted lies below everything that is left
      && (a > 0 && b < |right| ==> key(left[a - 1]) < key(right[b]))
      && (b > 0 && a < |left| ==> key(right[b - 1]) < key(left[a]))
      // the item in hand is the smallest one left
      && (c.last.Some? && c.last.value.Left? && b < |right| ==> key(left[a]) < key(right[b]))
      && (c.last.Some? && c.last.value.Right? && a < |left| ==> key(right[b]) < key(left[a]))
      // without one, both sides can go on only at the very start
      && (c.last.None? && a < |left| && b < |right| ==> a == 0 && b == 0)
      // the register that the next item of the other side will read
      && ((c.last.None? || c.last.value.Right?) && b < |right| ==> c.lastLeft == Seen(left, a))
      && ((c.last.None? || c.last.value.Left?) && a < |left| ==> c.lastRight == Seen(right, b))
    }

    lemma {:induction false} FillKeepsValid(c: Cursor<T, P>)
      requires Valid(c) && Ordered()
      ensures Valid(Fill(c))
    {
    }

    /** What the order of the inputs says about the two items that may come next. */
    ghost predicate LocallyOrdered(c: Cursor<T, P>, x: T) {
      && (c.leftPos < |left| && c.rightPos < |right| ==> key(left[c.leftPos]) != key(right[c.rightPos]))
      && (c.leftPos < |left| ==> key(x) < key(left[c.leftPos]))
      && (c.rightPos < |right| ==> key(x) < key(right[c.rightPos]))
    }

    lemma {:induction false} NextIsLarger(c: Cursor<T, P>)
      requires Valid(c) && Ordered() && c.last.Some?
      ensures LocallyOrdered(c, c.last.value.item)
    {
    }

    lemma {:induction false} EmitLeftKeepsValid(c: Cursor<T, P>)
      requires Valid(c) && c.last.Some? && c.last.value.Left? && LocallyOrdered(c, c.last.value.item)
      ensures Valid(Emit(c))
    {
    }

    lemma {:induction false} EmitRightKeepsValid(c: Cursor<T, P>)
      requires Valid(c) && c.last.Some? && c.last.value.Right? && LocallyOrdered(c, c.last.value.item)
      ensures Valid(Emit(c))
    {
    }

    lemma {:induction false} InHandLeft(c: Cursor<T, P>)
      requires Valid(c) && Ordered() && c.last.Some? && c.last.value.Left?
      ensures EmittedLeft(c) < |left|
      ensures Joined(key, mapF, left, right, EmittedLeft(c), EmittedRight(c))
           == [InHand(c)] + Joined(key, mapF, left, right, EmittedLeft(c) + 1, EmittedRight(c))
    {
      var a, b := EmittedLeft(c), EmittedRight(c);
      assert forall j :: b <= j < |right| ==> key(right[j]) >= key(left[a]);
      MaxPredecessorSplit(key, mapF, right, key(left[a]), b);
    }

    lemma {:induction false} InHandRight(c: Cursor<T, P>)
      requires Valid(c) && Ordered() && c.last.Some? && c.last.value.Right?
      ensures EmittedRight(c) < |right|
      ensures Joined(key, mapF, left, right, EmittedLeft(c), EmittedRight(c))
           == [InHand(c)] + Joined(key, mapF, left, right, EmittedLeft(c), EmittedRight(c) + 1)
    {
      var a, b := EmittedLeft(c), EmittedRight(c);
      assert forall j :: a <= j < |left| ==> key(left[j]) >= key(right[b]);
      MaxPredecessorSplit(key, mapF, left, key(right[b]), a);
    }

    /** Emitting the item in hand is one step of the specified merge. */
    lemma {:induction false} EmitIsJoined(c: Cursor<T, P>)
      requires Valid(c) && Ordered() && c.last.Some?
      ensures Valid(Emit(c))
      ensures Joined(key, mapF, left, right, EmittedLeft(c), EmittedRight(c))
           == [InHand(c)] + Joined(key, mapF, left, right, EmittedLeft(Emit(c)), EmittedRight(Emit(c)))
    {
      NextIsLarger(c);
      hide Valid, Emit, LocallyOrdered, Joined;
      if c.last.value.Left? {
        EmitLeftKeepsValid(c);
        InHandLeft(c);
      } else {
        EmitRightKeepsValid(c);
        InHandRight(c);
      }
    }

    /** On increasing inputs without a common key, what comes out is the specified merge. */
    lemma {:induction false} RunIsJoined(c: Cursor<T, P>)
      requires Valid(c) && Ordered()
      ensures Run(c) == Joined(key, mapF, left, right, EmittedLeft(c), EmittedRight(c))
      decreases |left| - EmittedLeft(c) + |right| - EmittedRight(c)
    {
      hide Ordered, Emit, Fill;
      var c' := Fill(c);
      FillKeepsValid(c);
      if c'.last.Some? {
        EmitIsJoined(c');
        hide Valid;
        RunIsJoined(Emit(c'));
        hide Joined;
      }
    }
  }

  lemma NoItems<T, P>()
    ensures ItemsOf<T, P>([]) == []
  {
  }

  // ---------------------------------------------------------------- The iterator

  /** The two peekable source iterators are sequences with a read position. */
  class MergeJoinWithMaxPredecessor<T, P> {
    const join: Join<T, P>
    var leftPos: nat
    var rightPos: nat
    var last: Option<Either<T>>
    var lastLeft: Option<P>
    var lastRight: Option<P>

    ghost function View(): Cursor<T, P>
      reads this
    {
      Cursor(leftPos, rightPos, last, lastLeft, lastRight)
    }

    constructor (join: Join<T, P>)
      ensures this.join == join && View() == Start()
    {
      this.join := join;
      leftPos, rightPos, last, lastLeft, lastRight := 0, 0, None, None, None;
    }

    /** Fills `last` when nothing is in hand. */
    method Prefetch()
      requires join.Placed(View()) && last.None?
      modifies this`last, this`leftPos, this`rightPos
      ensures View() == join.Fill(old(View()))
    {
      var nextLeft, nextRight := join.Peek(join.left, leftPos), join.Peek(join.right, rightPos);
      if nextLeft.None? || (nextRight.Some? && join.key(nextLeft.value) > join.key(nextRight.value)) {
        if nextRight.Some? {
          last, rightPos := Some(Right(nextRight.value)), rightPos + 1;
        }
      } else {
        last, leftPos := Some(Left(nextLeft.value)), leftPos + 1;
      }
    }

    /** The registers that got a value. */
    method Remember(left: Option<P>, right: Option<P>)
      modifies this`lastLeft, this`lastRight
      ensures lastLeft == join.Keep(old(lastLeft), left) && lastRight == join.Keep(old(lastRight), right)
    {
      if left.Some? {
        lastLeft := left;
      }
      if right.Some? {
        lastRight := right;
      }
    }

    /** Emits the item in hand and reads the next one. */
    method Emit() returns (item: (T, Option<P>))
      requires join.Placed(View()) && last.Some?
      modifies this
      ensures item == join.InHand(old(View())) && View() == join.Emit(old(View()))
    {
      var x, nextLeft, nextRight := last.value.item, join.Peek(join.left, leftPos), join.Peek(join.right, rightPos);
      if last.value.Left? {
        item := (x, lastRight);
        var (next, forLeft, forRight) := join.Choose(x, nextLeft, nextRight);
        Remember(forLeft, forRight);
        match next {
          case None => last := None;
          case Some(Left(y)) => last, leftPos := Some(Left(y)), leftPos + 1;
          case Some(Right(y)) => last, rightPos := Some(Right(y)), rightPos + 1;
        }
      } else {
        // what `Choose` calls left and right changes places
        item := (x, lastLeft);
        var (next, forRight, forLeft) := join.Choose(x, nextRight, nextLeft);
        Remember(forLeft, forRight);
        match next {
          case None => last := None;
          case Some(Left(y)) => last, rightPos := Some(Right(y)), rightPos + 1;
          case Some(Right(y)) => last, leftPos := Some(Left(y)), leftPos + 1;
        }
      }
    }

    /** `next`, on any inputs: an item and the state after it, or nothing once both sides are through. */
    method Next() returns (item: Option<(T, Option<P>)>)
      requires join.Placed(View())
      modifies this
      ensures join.Placed(View())
      ensures item.None? ==> join.Run(old(View())) == [] == join.Run(View())
      ensures item.Some? ==> join.Run(old(View())) == [item.value] + join.Run(View())
    {
      ghost var before := View();
      if last.None? {
        Prefetch();
      }
      assert View() == join.Fill(before);
      if last.None? {
        return None;
      }
      var emitted := Emit();
      item := Some(emitted);
    }
  }

  lemma AppendFirst<X>(out: seq<X>, first: X, rest: seq<X>)
    ensures out + ([first] + rest) == out + [first] + rest
  {
  }

  lemma StartPlaced<T, P>(join: Join<T, P>)
    ensures join.Placed(Start())
  {
  }

  /** The loop of `collect`. */
  method CollectRun<T, P>(join: Join<T, P>) returns (out: seq<(T, Option<P>)>)
    ensures join.Placed(Start()) && out == join.Run(Start())
  {
    StartPlaced(join);
    hide *;
    var it := new MergeJoinWithMaxPredecessor(join);
    out := [];
    ghost var rest := join.Run(Start());
    var item := it.Next();
    while item.Some?
      invariant it.join == join && fresh(it) && join.Placed(it.View())
      invariant rest == if item.Some? then [item.value] + join.Run(it.View()) else []
      invariant join.Run(Start()) == out + rest
      decreases |rest|
    {
      AppendFirst(out, item.value, join.Run(it.View()));
      out := out + [item.value];
      rest := join.Run(it.View());
      item := it.Next();
    }
  }

  /** `collect` on the iterator: the whole output in one sequence. All items of both inputs come out
      once; in order if both inputs increase; and if they have no key in common, as specified. */
  method Collect<T, P>(left: seq<T>, right: seq<T>, key: T -> int, mapF: T -> P)
    returns (out: seq<(T, Option<P>)>)
    ensures Join(left, right, key, mapF).Placed(Start()) && out == Join(left, right, key, mapF).Run(Start())
    ensures multiset(ItemsOf(out)) == multiset(left) + multiset(right)
    ensures Increasing(key, left) && Increasing(key, right) ==>
              forall i, j :: 0 <= i < j < |out| ==> key(out[i].0) <= key(out[j].0)
    ensures Increasing(key, left) && Increasing(key, right) && NoSharedKey(key, left, right) ==>
              out == Joined(key, mapF, left, right, 0, 0)
  {
    var join := Join(left, right, key, mapF);
    CollectedRight(join);
    out := CollectRun(join);
  }

  lemma {:induction false} CollectedRight<T, P>(join: Join<T, P>)
    ensures join.Placed(Start())
    ensures multiset(ItemsOf(join.Run(Start()))) == multiset(join.left) + multiset(join.right)
    ensures Increasing(join.key, join.left) && Increasing(join.key, join.right) ==>
              forall i, j :: 0 <= i < j < |join.Run(Start())| ==>
                join.key(join.Run(Start())[i].0) <= join.key(join.Run(Start())[j].0)
    ensures join.Ordered() ==> join.Run(Start()) == Joined(join.key, join.mapF, join.left, join.right, 0, 0)
  {
    join.RunItems(Start());
    assert join.left[0..] == join.left && join.right[0..] == join.right;
    if Increasing(join.key, join.left) && Increasing(join.key, join.right) {
      OrderedFromStart(join);
    }
    if join.Ordered() {
      join.RunIsJoined(Start());
    }
  }

  lemma {:induction false} OrderedFromStart<T, P>(join: Join<T, P>)
    requires Increasing(join.key, join.left) && Increasing(join.key, join.right)
    ensures forall i, j :: 0 <= i < j < |join.Run(Start())| ==>
              join.key(join.Run(Start())[i].0) <= join.key(join.Run(Start())[j].0)
  {
    var l := if join.left == [] then 0 else join.key(join.left[0]);
    var r := if join.right == [] then 0 else join.key(join.right[0]);
    join.RunOrdered(Start(), if l < r then l else r);
  }

  /** One step of a run, written out. */
  lemma RunStep<T, P>(join: Join<T, P>, c: Cursor<T, P>, filled: Cursor<T, P>, after: Cursor<T, P>)
    requires join.Placed(c) && filled == join.Fill(c) && filled.last.Some? && after == join.Emit(filled)
    ensures join.Run(c) == [join.InHand(filled)] + join.Run(after)
  {
    hide Join.Fill, Join.Emit;
  }

  function Itself(x: int): int {
    x
  }

  /** On a common key the predecessor need not be the largest smaller item. It may be the equal item of
      the other side. */
  lemma SharedKeyGetsEqual()
    ensures Join([1], [1], Itself, Itself).Run(Start()) == [(1, None), (1, Some(1))]
  {
    var join := Join([1], [1], Itself, Itself);
    RunStep(join, Start(), Cursor(1, 0, Some(Left(1)), None, None), Cursor(1, 0, None, Some(1), None));
    RunStep(join, Cursor(1, 0, None, Some(1), None), Cursor(1, 1, Some(Right(1)), Some(1), None),
            Cursor(1, 1, None, Some(1), Some(1)));
    assert join.Run(Cursor(1, 1, None, Some(1), Some(1))) == [];
    hide Join.Run, Join.Fill, Join.Emit;
  }

  /** Or it may be missing: the item 2 on the right has the item 1 on the left before it. */
  lemma SharedKeyLosesPredecessor()
    ensures Join([1, 2, 3], [2], Itself, Itself).Run(Start()) == [(1, None), (2, None), (2, None), (3, Some(2))]
    ensures MaxPredecessor(Itself, Itself, [1, 2, 3], 2) == Some(1)
  {
    var join := Join([1, 2, 3], [2], Itself, Itself);
    var c1 := Cursor(2, 0, Some(Left(2)), None, None);
    var c2 := Cursor(2, 1, Some(Right(2)), None, None);
    var c3 := Cursor(2, 1, None, None, Some(2));
    var c4 := Cursor(3, 1, None, Some(3), Some(2));
    RunStep(join, Start(), Cursor(1, 0, Some(Left(1)), None, None), c1);
    RunStep(join, c1, c1, c2);
    RunStep(join, c2, c2, c3);
    RunStep(join, c3, Cursor(3, 1, Some(Left(3)), None, Some(2)), c4);
    assert join.Run(c4) == [];
    assert [1, 2, 3][..2][..1] == [1];
    hide Join.Run, Join.Fill, Join.Emit;
  }
}
