/** What the merge iterator does with a key that is on both sides
    (merkle_tree/src/iter_ext/merge_join_with_max_predecessor.rs). */
module MergeShared {
  import opened Wrappers
  import opened MergeJoin

  // ---------------------------------------------------------------- Right predecessors

  /** The item in hand comes with the largest smaller item of the other side. */
  ghost predicate RightHere<T(!new), P(!new)>(join: Join<T, P>, c: Cursor<T, P>)
    requires c.last.Some?
  {
    var x := c.last.value;
    join.InHand(c).1 == MaxPredecessor(join.key, join.mapF, if x.Left? then join.right else join.left, join.key(x.item))
  }

  /** So does every item that still comes out. */
  ghost predicate RunRight<T(!new), P(!new)>(join: Join<T, P>, c: Cursor<T, P>)
    requires join.Placed(c)
    decreases |join.left| - join.EmittedLeft(c) + |join.right| - join.EmittedRight(c)
  {
    var filled := join.Fill(c);
    filled.last.Some? ==> RightHere(join, filled) && RunRight(join, join.Emit(filled))
  }

  lemma RunRightUnfolds<T(!new), P(!new)>(join: Join<T, P>, c: Cursor<T, P>)
    requires join.Placed(c)
    ensures join.Fill(c).last.None? ==> RunRight(join, c)
    ensures join.Fill(c).last.Some? ==>
              (RunRight(join, c) <==> RightHere(join, join.Fill(c)) && RunRight(join, join.Emit(join.Fill(c))))
  {
    hide RightHere, Join.Fill, Join.Emit;
  }

  lemma RunRightInHand<T(!new), P(!new)>(join: Join<T, P>, c: Cursor<T, P>)
    requires join.Placed(c) && c.last.Some?
    ensures RunRight(join, c) <==> RightHere(join, c) && RunRight(join, join.Emit(c))
  {
    hide RightHere, Join.Emit;
  }

  ghost predicate BothIncrease<T, P>(join: Join<T, P>) {
    Increasing(join.key, join.left) && Increasing(join.key, join.right)
  }

  /** With the registers as they should be, the item in hand comes out right. */
  lemma {:induction false} ValidIsRight<T(!new), P(!new)>(join: Join<T, P>, c: Cursor<T, P>)
    requires BothIncrease(join) && join.Valid(c) && c.last.Some?
    ensures RightHere(join, c)
  {
    var a, b := join.EmittedLeft(c), join.EmittedRight(c);
    if c.last.value.Left? {
      assert forall y :: b <= y < |join.right| ==> join.key(join.right[y]) >= join.key(join.left[a]);
      MaxPredecessorSplit(join.key, join.mapF, join.right, join.key(join.left[a]), b);
    } else {
      assert forall x :: a <= x < |join.left| ==> join.key(join.left[x]) >= join.key(join.right[b]);
      MaxPredecessorSplit(join.key, join.mapF, join.left, join.key(join.right[b]), a);
    }
  }

  // ---------------------------------------------------------------- After the last common key

  /** What is left of the two sides has no key in common. */
  ghost predicate RestApart<T, P>(join: Join<T, P>, a: nat, b: nat) {
    forall x, y :: a <= x < |join.left| && b <= y < |join.right| ==> join.key(join.left[x]) != join.key(join.right[y])
  }

  lemma {:induction false} FillStaysValid<T, P>(join: Join<T, P>, c: Cursor<T, P>)
    requires join.Valid(c) && BothIncrease(join) && RestApart(join, join.EmittedLeft(c), join.EmittedRight(c))
    ensures join.Valid(join.Fill(c))
  {
  }

  lemma {:induction false} EmitStaysValid<T, P>(join: Join<T, P>, c: Cursor<T, P>)
    requires join.Valid(c) && BothIncrease(join) && c.last.Some?
    requires c.leftPos < |join.left| && c.rightPos < |join.right| ==>
               join.key(join.left[c.leftPos]) != join.key(join.right[c.rightPos])
    ensures join.Valid(join.Emit(c))
  {
    InHandBelow(join, c);
    hide Join.Valid, Join.Emit, BothIncrease;
    if c.last.value.Left? {
      join.EmitLeftKeepsValid(c);
    } else {
      join.EmitRightKeepsValid(c);
    }
  }

  lemma {:induction false} InHandBelow<T, P>(join: Join<T, P>, c: Cursor<T, P>)
    requires join.Valid(c) && BothIncrease(join) && c.last.Some?
    ensures c.leftPos < |join.left| ==> join.key(c.last.value.item) < join.key(join.left[c.leftPos])
    ensures c.rightPos < |join.right| ==> join.key(c.last.value.item) < join.key(join.right[c.rightPos])
  {
  }

  lemma InHandPlaced<T, P>(join: Join<T, P>, c: Cursor<T, P>)
    requires join.Valid(c)
    ensures join.Placed(c)
    ensures join.EmittedLeft(c) <= c.leftPos <= |join.left| && join.EmittedRight(c) <= c.rightPos <= |join.right|
  {
  }

  lemma {:induction false} ValidRunIsRight<T(!new), P(!new)>(join: Join<T, P>, c: Cursor<T, P>)
    requires join.Valid(c) && BothIncrease(join) && RestApart(join, join.EmittedLeft(c), join.EmittedRight(c))
    ensures RunRight(join, c)
    decreases |join.left| - join.EmittedLeft(c) + |join.right| - join.EmittedRight(c)
  {
    hide Join.Emit, Join.Fill, BothIncrease, RunRight, RightHere;
    RunRightUnfolds(join, c);
    var filled := join.Fill(c);
    if filled.last.Some? {
      FillStaysValid(join, c);
      InHandPlaced(join, filled);
      hide Join.Valid;
      ValidIsRight(join, filled);
      EmitStaysValid(join, filled);
      ValidRunIsRight(join, join.Emit(filled));
    }
  }

  // ---------------------------------------------------------------- The two sides exchanged

  function Swapped<T, P>(join: Join<T, P>): Join<T, P> {
    Join(join.right, join.left, join.key, join.mapF)
  }

  function SwappedCursor<T, P>(c: Cursor<T, P>): Cursor<T, P> {
    Cursor(c.rightPos, c.leftPos,
           if c.last.None? then None
           else Some(if c.last.value.Left? then Right(c.last.value.item) else Left(c.last.value.item)),
           c.lastRight, c.lastLeft)
  }

  lemma SwapPlaced<T, P>(join: Join<T, P>, c: Cursor<T, P>)
    requires join.Placed(c)
    ensures Swapped(join).Placed(SwappedCursor(c))
    ensures Swapped(join).EmittedLeft(SwappedCursor(c)) == join.EmittedRight(c)
    ensures Swapped(join).EmittedRight(SwappedCursor(c)) == join.EmittedLeft(c)
  {
  }

  lemma SwapEmit<T, P>(join: Join<T, P>, c: Cursor<T, P>)
    requires join.Placed(c) && c.last.Some?
    ensures Swapped(join).Placed(SwappedCursor(c))
    ensures Swapped(join).Emit(SwappedCursor(c)) == SwappedCursor(join.Emit(c))
  {
  }

  /** Once it is under way, the iterator has an item in hand or one side is through. */
  predicate UnderWay<T, P>(join: Join<T, P>, c: Cursor<T, P>) {
    c.last.Some? || c.leftPos == |join.left| || c.rightPos == |join.right|
  }

  lemma SwapFill<T, P>(join: Join<T, P>, c: Cursor<T, P>)
    requires join.Placed(c) && UnderWay(join, c)
    ensures Swapped(join).Placed(SwappedCursor(c))
    ensures Swapped(join).Fill(SwappedCursor(c)) == SwappedCursor(join.Fill(c))
  {
  }

  lemma EmitIsUnderWay<T, P>(join: Join<T, P>, c: Cursor<T, P>)
    requires join.Placed(c) && c.last.Some?
    ensures UnderWay(join, join.Emit(c))
  {
  }

  lemma {:induction false} SwapRun<T(!new), P(!new)>(join: Join<T, P>, c: Cursor<T, P>)
    requires join.Placed(c) && UnderWay(join, c)
    ensures Swapped(join).Placed(SwappedCursor(c))
    ensures RunRight(join, c) <==> RunRight(Swapped(join), SwappedCursor(c))
    decreases |join.left| - join.EmittedLeft(c) + |join.right| - join.EmittedRight(c)
  {
    SwapPlaced(join, c);
    SwapFill(join, c);
    RunRightUnfolds(join, c);
    RunRightUnfolds(Swapped(join), SwappedCursor(c));
    var filled := join.Fill(c);
    if filled.last.Some? {
      EmitIsUnderWay(join, filled);
      SwapEmit(join, filled);
      SwapRun(join, join.Emit(filled));
      hide RunRight, Join.Emit, Join.Fill, MaxPredecessor, UnderWay;
    }
  }

  // ---------------------------------------------------------------- What a common key asks for

  ghost predicate Shared<T, P>(join: Join<T, P>, i: nat, j: nat) {
    i < |join.left| && j < |join.right| && join.key(join.left[i]) == join.key(join.right[j])
  }

  /** The item before `left[a]` is from the right side: the left one comes in turn. */
  ghost predicate Turn<T, P>(join: Join<T, P>, a: nat, b: nat)
    requires a <= |join.left| && b <= |join.right|
  {
    b > 0 && (a == 0 || join.key(join.left[a - 1]) <= join.key(join.right[b - 1]))
  }

  /** The last item before the pair is from the left. */
  ghost predicate LeftReadLast<T, P>(join: Join<T, P>, i: nat, j: nat)
    requires i <= |join.left| && j <= |join.right|
  {
    i > 0 && (j == 0 || join.key(join.right[j - 1]) < join.key(join.left[i - 1]))
  }

  /** The left side goes on, and its next item comes before the next one on the right. */
  ghost predicate LeftGoesOn<T, P>(join: Join<T, P>, i: nat, j: nat) {
    i + 1 < |join.left| && (j + 1 >= |join.right| || join.key(join.left[i + 1]) < join.key(join.right[j + 1]))
  }

  /** What the predecessors around a common key depend on: the side read last before it has just come
      in turn, it goes on after the key, and it does so before the other side. With the key first on
      both sides, the left one is read first. */
  ghost predicate KeepsPredecessors<T, P>(join: Join<T, P>, i: nat, j: nat)
    requires i < |join.left| && j < |join.right|
  {
    if i == 0 && j == 0 then LeftGoesOn(join, i, j)
    else if LeftReadLast(join, i, j) then Turn(join, i - 1, j) && LeftGoesOn(join, i, j)
    else j > 0 && Turn(Swapped(join), j - 1, i) && LeftGoesOn(Swapped(join), j, i)
  }

  /** All common keys from these positions on do. */
  ghost predicate AllKeep<T, P>(join: Join<T, P>, a: nat, b: nat) {
    forall x, y :: a <= x && b <= y && Shared(join, x, y) ==> KeepsPredecessors(join, x, y)
  }

  /** The first common key from these positions on. */
  ghost predicate NextPair<T, P>(join: Join<T, P>, a: nat, b: nat, i: nat, j: nat) {
    && BothIncrease(join) && a <= i && b <= j && Shared(join, i, j)
    && forall x, y :: a <= x <= i && b <= y <= j && Shared(join, x, y) ==> x == i && y == j
  }

  lemma {:induction false} FirstPair<T, P>(join: Join<T, P>, a: nat, b: nat, x: nat, y: nat) returns (i: nat, j: nat)
    requires BothIncrease(join) && a <= x && b <= y && Shared(join, x, y)
    ensures NextPair(join, a, b, i, j)
    decreases x + y
  {
    if u: nat, v: nat :| a <= u <= x && b <= v <= y && Shared(join, u, v) && !(u == x && v == y) {
      i, j := FirstPair(join, a, b, u, v);
    } else {
      i, j := x, y;
    }
  }

  /** The later common keys come after the first one on both sides. */
  lemma {:induction false} AllAfterFirst<T, P>(join: Join<T, P>, a: nat, b: nat, i: nat, j: nat)
    requires NextPair(join, a, b, i, j)
    ensures AllKeep(join, a, b) <==> KeepsPredecessors(join, i, j) && AllKeep(join, i + 1, j + 1)
  {
    forall x, y | a <= x && b <= y && Shared(join, x, y) ensures (x == i && y == j) || (x > i && y > j) {
      LaterPair(join, a, b, i, j, x, y);
    }
    hide KeepsPredecessors, BothIncrease;
  }

  lemma LaterPair<T, P>(join: Join<T, P>, a: nat, b: nat, i: nat, j: nat, x: nat, y: nat)
    requires NextPair(join, a, b, i, j) && a <= x && b <= y && Shared(join, x, y)
    ensures (x == i && y == j) || (x > i && y > j)
  {
  }

  ghost predicate Distinguishes<T, P>(key: T -> int, mapF: T -> P, items: seq<T>) {
    forall x, y :: x in items && y in items && mapF(x) == mapF(y) ==> key(x) == key(y)
  }

  /** Items with different keys are told apart after mapping. */
  ghost predicate TellsApart<T, P>(join: Join<T, P>) {
    Distinguishes(join.key, join.mapF, join.left) && Distinguishes(join.key, join.mapF, join.right)
  }

  lemma SeenDiffers<T, P>(join: Join<T, P>, i: nat)
    requires BothIncrease(join) && TellsApart(join) && i < |join.left|
    ensures join.Seen(join.left, i) != join.Seen(join.left, i + 1)
  {
    if i > 0 {
      assert join.left[i - 1] in join.left && join.left[i] in join.left;
      assert join.key(join.left[i - 1]) < join.key(join.left[i]);
    }
  }

  // ---------------------------------------------------------------- Between two pairs

  /** What the left register holds while a left item is in hand: the item itself if the side has just
      come in turn, otherwise the one before it. */
  ghost predicate OwnLeft<T, P>(join: Join<T, P>, c: Cursor<T, P>)
    requires join.Placed(c)
  {
    var a, b := join.EmittedLeft(c), join.EmittedRight(c);
    c.last.Some? && c.last.value.Left? ==>
      c.lastLeft == join.Seen(join.left, if Turn(join, a, b) then a + 1 else a)
  }

  ghost predicate Own<T, P>(join: Join<T, P>, c: Cursor<T, P>)
    requires join.Placed(c)
  {
    SwapPlaced(join, c);
    OwnLeft(join, c) && OwnLeft(Swapped(join), SwappedCursor(c))
  }

  /** All is well so far: the registers are right, or one side is through. */
  ghost predicate Well<T, P>(join: Join<T, P>, c: Cursor<T, P>) {
    && BothIncrease(join) && join.Valid(c) && Own(join, c)
    && (c.last.None? ==> c.leftPos == |join.left| || c.rightPos == |join.right|)
  }

  /** On the way to a pair: an item is in hand, and nothing before the pair is on both sides. */
  ghost predicate Early<T, P>(join: Join<T, P>, c: Cursor<T, P>, i: nat, j: nat) {
    Well(join, c) && c.last.Some? && NextPair(join, c.leftPos, c.rightPos, i, j)
  }

  lemma {:induction false} EarlyStep<T(!new), P(!new)>(join: Join<T, P>, c: Cursor<T, P>, i: nat, j: nat)
    requires Early(join, c, i, j) && !(c.leftPos == i && c.rightPos == j)
    ensures Early(join, join.Emit(c), i, j) && (RunRight(join, c) <==> RunRight(join, join.Emit(c)))
  {
    RunRightInHand(join, c);
    ValidIsRight(join, c);
    HeadsDiffer(join, c, i, j);
    EmitStaysValid(join, c);
    EarlyOwn(join, c, i, j);
    hide RunRight, RightHere, Own, Join.Valid;
  }

  lemma HeadsDiffer<T, P>(join: Join<T, P>, c: Cursor<T, P>, i: nat, j: nat)
    requires Early(join, c, i, j) && !(c.leftPos == i && c.rightPos == j)
    ensures join.key(join.left[c.leftPos]) != join.key(join.right[c.rightPos])
  {
    assert !Shared(join, c.leftPos, c.rightPos);
  }

  lemma {:induction false} EarlyOwn<T, P>(join: Join<T, P>, c: Cursor<T, P>, i: nat, j: nat)
    requires Early(join, c, i, j) && !(c.leftPos == i && c.rightPos == j)
    ensures Own(join, join.Emit(c)) && join.Emit(c).last.Some?
    ensures NextPair(join, join.Emit(c).leftPos, join.Emit(c).rightPos, i, j)
  {
    EarlyNext(join, c, i, j);
    EarlyOwnLeft(join, c, i, j);
    SwapEarly(join, c, i, j);
    SwapEmit(join, c);
    EarlyOwnLeft(Swapped(join), SwappedCursor(c), j, i);
    hide NextPair, OwnLeft, Join.Emit, Well;
  }

  lemma {:induction false} EarlyNext<T, P>(join: Join<T, P>, c: Cursor<T, P>, i: nat, j: nat)
    requires Early(join, c, i, j) && !(c.leftPos == i && c.rightPos == j)
    ensures join.Emit(c).last.Some? && NextPair(join, join.Emit(c).leftPos, join.Emit(c).rightPos, i, j)
  {
    HeadsDiffer(join, c, i, j);
    hide Own;
  }

  lemma {:induction false} EarlyOwnLeft<T, P>(join: Join<T, P>, c: Cursor<T, P>, i: nat, j: nat)
    requires Early(join, c, i, j) && !(c.leftPos == i && c.rightPos == j)
    ensures join.Placed(join.Emit(c)) && OwnLeft(join, join.Emit(c))
  {
    HeadsDiffer(join, c, i, j);
  }

  /** The iterator gets to the moment before the pair. */
  lemma {:induction false} Approach<T(!new), P(!new)>(join: Join<T, P>, c: Cursor<T, P>, i: nat, j: nat)
    returns (tie: Cursor<T, P>)
    requires Early(join, c, i, j)
    ensures Early(join, tie, i, j) && tie.leftPos == i && tie.rightPos == j
    ensures RunRight(join, c) <==> RunRight(join, tie)
    decreases |join.left| - join.EmittedLeft(c) + |join.right| - join.EmittedRight(c)
  {
    if c.leftPos == i && c.rightPos == j {
      tie := c;
    } else {
      EarlyStep(join, c, i, j);
      hide Join.Emit, Own, RunRight, NextPair;
      tie := Approach(join, join.Emit(c), i, j);
    }
  }

  // ---------------------------------------------------------------- The pair

  /** The left item of the pair is in hand, the right one comes next on its side. */
  ghost predicate AtPair<T, P>(join: Join<T, P>, c: Cursor<T, P>, i: nat, j: nat) {
    && BothIncrease(join) && Shared(join, i, j)
    && c.last == Some(Left(join.left[i])) && c.leftPos == i + 1 && c.rightPos == j
    && c.lastRight == join.Seen(join.right, j)
  }

  /** The right item of the pair is in hand, the left one has been emitted. */
  ghost predicate Turned<T, P>(join: Join<T, P>, c: Cursor<T, P>, i: nat, j: nat) {
    && BothIncrease(join) && Shared(join, i, j)
    && c.last == Some(Right(join.right[j])) && c.leftPos == i + 1 && c.rightPos == j + 1
  }

  /** The predecessor that the items of the pair should get. */
  lemma {:induction false} PredecessorsOfPair<T(!new), P(!new)>(join: Join<T, P>, i: nat, j: nat)
    requires BothIncrease(join) && Shared(join, i, j)
    ensures MaxPredecessor(join.key, join.mapF, join.right, join.key(join.left[i])) == join.Seen(join.right, j)
    ensures MaxPredecessor(join.key, join.mapF, join.left, join.key(join.right[j])) == join.Seen(join.left, i)
  {
    MaxPredecessorSplit(join.key, join.mapF, join.right, join.key(join.left[i]), j);
    MaxPredecessorSplit(join.key, join.mapF, join.left, join.key(join.right[j]), i);
  }

  /** The left side ends with the common key: the right item comes with the left one of its own key. */
  lemma {:induction false} PairAtEnd<T(!new), P(!new)>(join: Join<T, P>, c: Cursor<T, P>, i: nat, j: nat)
    requires AtPair(join, c, i, j) && TellsApart(join) && i + 1 == |join.left|
    ensures join.Placed(c) && !RunRight(join, c)
  {
    var next := join.Emit(c);
    assert next == Cursor(i + 1, j, None, Some(join.mapF(join.left[i])), c.lastRight);
    var filled := join.Fill(next);
    assert filled == next.(last := Some(Right(join.right[j])), rightPos := j + 1);
    RunRightInHand(join, c);
    RunRightUnfolds(join, next);
    PredecessorsOfPair(join, i, j);
    SeenDiffers(join, i);
    hide RunRight, MaxPredecessor, BothIncrease, TellsApart, Join.Emit, Join.Fill;
  }

  /** The left side goes on: the right item of the pair is next, with the register as it was. */
  lemma {:induction false} PairTurns<T(!new), P(!new)>(join: Join<T, P>, c: Cursor<T, P>, i: nat, j: nat)
    requires AtPair(join, c, i, j) && i + 1 < |join.left|
    ensures join.Placed(c) && Turned(join, join.Emit(c), i, j) && join.Emit(c).lastLeft == c.lastLeft
    ensures RunRight(join, c) <==> RunRight(join, join.Emit(c))
  {
    assert join.Emit(c) == Cursor(i + 1, j + 1, Some(Right(join.right[j])), c.lastLeft, c.lastRight);
    RunRightInHand(join, c);
    PredecessorsOfPair(join, i, j);
    hide RunRight, MaxPredecessor, BothIncrease, Join.Emit;
  }

  lemma {:induction false} GoesOnWell<T(!new), P(!new)>(join: Join<T, P>, c: Cursor<T, P>, i: nat, j: nat)
    requires Turned(join, c, i, j) && LeftGoesOn(join, i, j)
    ensures join.Placed(c) && Well(join, join.Emit(c))
    ensures join.EmittedLeft(join.Emit(c)) == i + 1 && join.EmittedRight(join.Emit(c)) == j + 1
  {
    assert join.Valid(join.Emit(c));
  }

  /** The next item of the right side comes first: the left item of the pair is not registered for it. */
  lemma {:induction false} StaysWrong<T(!new), P(!new)>(join: Join<T, P>, c: Cursor<T, P>, i: nat, j: nat)
    requires Turned(join, c, i, j) && TellsApart(join) && i + 1 < |join.left| && !LeftGoesOn(join, i, j)
    requires c.lastLeft == join.Seen(join.left, i)
    ensures join.Placed(c) && !RunRight(join, join.Emit(c))
  {
    var next := join.Emit(c);
    assert join.key(join.right[j + 1]) <= join.key(join.left[i + 1]);
    assert next.last == Some(Right(join.right[j + 1])) && next.lastLeft == c.lastLeft;
    RunRightInHand(join, next);
    MaxPredecessorSplit(join.key, join.mapF, join.left, join.key(join.right[j + 1]), i + 1);
    SeenDiffers(join, i);
    hide RunRight, MaxPredecessor, TellsApart, Join.Emit;
  }

  /** From the pair on all predecessors are right exactly if the register had the last left item before
      the pair, the left side goes on before the right one, and all is right after that. */
  lemma {:induction false} PairIsRight<T(!new), P(!new)>(join: Join<T, P>, c: Cursor<T, P>, i: nat, j: nat)
    returns (after: Cursor<T, P>)
    requires AtPair(join, c, i, j) && TellsApart(join)
    ensures join.Placed(c)
    ensures LeftGoesOn(join, i, j) ==>
              && Well(join, after) && join.EmittedLeft(after) == i + 1 && join.EmittedRight(after) == j + 1
              && (RunRight(join, c) <==> c.lastLeft == join.Seen(join.left, i) && RunRight(join, after))
    ensures !LeftGoesOn(join, i, j) ==> !RunRight(join, c)
  {
    if i + 1 == |join.left| {
      PairAtEnd(join, c, i, j);
      after := c;
    } else {
      PairTurns(join, c, i, j);
      var turned := join.Emit(c);
      RunRightInHand(join, turned);
      PredecessorsOfPair(join, i, j);
      after := join.Emit(turned);
      if LeftGoesOn(join, i, j) {
        GoesOnWell(join, turned, i, j);
      } else if turned.lastLeft == join.Seen(join.left, i) {
        StaysWrong(join, turned, i, j);
      }
    }
    hide RunRight, TellsApart, Well, Join.Emit, MaxPredecessor;
  }

  lemma {:induction false} TieIsPair<T, P>(join: Join<T, P>, tie: Cursor<T, P>, i: nat, j: nat)
    requires Early(join, tie, i, j) && tie.leftPos == i && tie.rightPos == j && tie.last.value.Left?
    ensures LeftReadLast(join, i, j)
    ensures AtPair(join, join.Emit(tie), i, j) && join.Emit(tie).lastLeft == tie.lastLeft
    ensures tie.lastLeft == join.Seen(join.left, if Turn(join, i - 1, j) then i else i - 1)
  {
  }

  /** The item read before the pair is from the left. */
  lemma {:induction false} TieLeft<T(!new), P(!new)>(join: Join<T, P>, tie: Cursor<T, P>, i: nat, j: nat)
    returns (after: Cursor<T, P>)
    requires Early(join, tie, i, j) && TellsApart(join) && tie.leftPos == i && tie.rightPos == j && tie.last.value.Left?
    ensures LeftReadLast(join, i, j)
    ensures LeftGoesOn(join, i, j) ==>
              && Well(join, after) && join.EmittedLeft(after) == i + 1 && join.EmittedRight(after) == j + 1
              && (RunRight(join, tie) <==> Turn(join, i - 1, j) && RunRight(join, after))
    ensures !LeftGoesOn(join, i, j) ==> !RunRight(join, tie)
  {
    TieIsPair(join, tie, i, j);
    RunRightInHand(join, tie);
    ValidIsRight(join, tie);
    SeenDiffers(join, i - 1);
    hide RunRight, RightHere, TellsApart, AtPair, Join.Emit, LeftGoesOn, Well, Turn;
    after := PairIsRight(join, join.Emit(tie), i, j);
  }

  lemma SwapWell<T, P>(join: Join<T, P>, c: Cursor<T, P>)
    requires Well(join, c)
    ensures Well(Swapped(join), SwappedCursor(c))
  {
    SwapPlaced(join, c);
    assert SwappedCursor(SwappedCursor(c)) == c && Swapped(Swapped(join)) == join;
  }

  lemma SwapEarly<T, P>(join: Join<T, P>, c: Cursor<T, P>, i: nat, j: nat)
    requires Early(join, c, i, j)
    ensures Early(Swapped(join), SwappedCursor(c), j, i)
  {
    SwapWell(join, c);
    SwapNextPair(join, c.leftPos, c.rightPos, i, j);
    hide Well, NextPair;
  }

  lemma SwapNextPair<T, P>(join: Join<T, P>, a: nat, b: nat, i: nat, j: nat)
    requires NextPair(join, a, b, i, j)
    ensures NextPair(Swapped(join), b, a, j, i)
  {
    forall x, y | b <= x <= j && a <= y <= i && Shared(Swapped(join), x, y) ensures x == j && y == i {
      assert Shared(join, y, x);
    }
  }

  /** The item read before the pair is from the right. */
  lemma {:induction false} TieRight<T(!new), P(!new)>(join: Join<T, P>, tie: Cursor<T, P>, i: nat, j: nat)
    returns (after: Cursor<T, P>)
    requires Early(join, tie, i, j) && TellsApart(join) && tie.leftPos == i && tie.rightPos == j
    requires tie.last.value.Right?
    ensures j > 0 && !LeftReadLast(join, i, j)
    ensures LeftGoesOn(Swapped(join), j, i) ==>
              && Well(join, after) && join.EmittedLeft(after) == i + 1 && join.EmittedRight(after) == j + 1
              && (RunRight(join, tie) <==> Turn(Swapped(join), j - 1, i) && RunRight(join, after))
    ensures !LeftGoesOn(Swapped(join), j, i) ==> !RunRight(join, tie)
  {
    SwapEarly(join, tie, i, j);
    SwapRun(join, tie);
    assert TellsApart(Swapped(join));
    hide TellsApart, RunRight, Early, LeftGoesOn, Turn;
    var other := TieLeft(Swapped(join), SwappedCursor(tie), j, i);
    OnlyOneReadLast(join, i, j);
    after := SwappedCursor(other);
    if LeftGoesOn(Swapped(join), j, i) {
      SwapBack(join, other);
    }
  }

  lemma SwapBack<T(!new), P(!new)>(join: Join<T, P>, other: Cursor<T, P>)
    requires Well(Swapped(join), other)
    ensures Well(join, SwappedCursor(other))
    ensures join.EmittedLeft(SwappedCursor(other)) == Swapped(join).EmittedRight(other)
    ensures join.EmittedRight(SwappedCursor(other)) == Swapped(join).EmittedLeft(other)
    ensures RunRight(join, SwappedCursor(other)) <==> RunRight(Swapped(join), other)
  {
    assert Swapped(Swapped(join)) == join;
    SwapWell(Swapped(join), other);
    SwapPlaced(Swapped(join), other);
    SwapRun(Swapped(join), other);
    hide RunRight, Own;
  }

  lemma OnlyOneReadLast<T, P>(join: Join<T, P>, i: nat, j: nat)
    requires i <= |join.left| && j <= |join.right| && LeftReadLast(Swapped(join), j, i)
    ensures j > 0 && !LeftReadLast(join, i, j)
  {
  }

  // ---------------------------------------------------------------- All pairs

  lemma NothingShared<T, P>(join: Join<T, P>, c: Cursor<T, P>)
    requires Well(join, c) && (c.last.None? || forall x, y :: c.leftPos <= x && c.rightPos <= y ==> !Shared(join, x, y))
    ensures RestApart(join, join.EmittedLeft(c), join.EmittedRight(c))
    ensures AllKeep(join, join.EmittedLeft(c), join.EmittedRight(c))
  {
    forall x, y | join.EmittedLeft(c) <= x && join.EmittedRight(c) <= y ensures !Shared(join, x, y) {
      if Shared(join, x, y) {
        InHandApart(join, c, x, y);
      }
    }
    hide BothIncrease, Own, Join.Valid, KeepsPredecessors;
    forall x, y | join.EmittedLeft(c) <= x < |join.left| && join.EmittedRight(c) <= y < |join.right|
      ensures join.key(join.left[x]) != join.key(join.right[y])
    {
      assert !Shared(join, x, y);
    }
  }

  /** The item in hand has no partner. */
  lemma InHandApart<T, P>(join: Join<T, P>, c: Cursor<T, P>, x: nat, y: nat)
    requires Well(join, c) && join.EmittedLeft(c) <= x && join.EmittedRight(c) <= y && Shared(join, x, y)
    ensures c.last.Some? && c.leftPos <= x && c.rightPos <= y
  {
  }

  lemma AllFromPositions<T, P>(join: Join<T, P>, c: Cursor<T, P>)
    requires Well(join, c)
    ensures AllKeep(join, join.EmittedLeft(c), join.EmittedRight(c)) <==> AllKeep(join, c.leftPos, c.rightPos)
  {
    forall x, y | join.EmittedLeft(c) <= x && join.EmittedRight(c) <= y && Shared(join, x, y)
      ensures c.leftPos <= x && c.rightPos <= y
    {
      InHandApart(join, c, x, y);
    }
    hide KeepsPredecessors, BothIncrease, Own, Join.Valid;
  }

  /** The pair decides: if it does not keep the predecessors, some come out wrong; otherwise all is well
      again after it. */
  lemma {:induction false} PairDecides<T(!new), P(!new)>(join: Join<T, P>, tie: Cursor<T, P>, i: nat, j: nat)
    returns (after: Cursor<T, P>)
    requires Early(join, tie, i, j) && TellsApart(join) && tie.leftPos == i && tie.rightPos == j
    ensures join.Placed(tie) && i < |join.left| && j < |join.right|
    ensures KeepsPredecessors(join, i, j) ==>
              && Well(join, after) && join.EmittedLeft(after) == i + 1 && join.EmittedRight(after) == j + 1
              && (RunRight(join, tie) <==> RunRight(join, after))
    ensures !KeepsPredecessors(join, i, j) ==> !RunRight(join, tie)
  {
    if tie.last.value.Left? {
      after := TieLeft(join, tie, i, j);
    } else {
      after := TieRight(join, tie, i, j);
    }
    hide RunRight, TellsApart, Turn, LeftGoesOn, Well, BothIncrease;
  }

  /** From any moment at which all is well. */
  lemma {:induction false} WellRunIsRight<T(!new), P(!new)>(join: Join<T, P>, c: Cursor<T, P>)
    requires Well(join, c) && TellsApart(join)
    ensures RunRight(join, c) <==> AllKeep(join, join.EmittedLeft(c), join.EmittedRight(c))
    decreases |join.left| - join.EmittedLeft(c) + |join.right| - join.EmittedRight(c)
  {
    if c.last.None? || forall x, y :: c.leftPos <= x && c.rightPos <= y ==> !Shared(join, x, y) {
      NothingShared(join, c);
      ValidRunIsRight(join, c);
    } else {
      var x: nat, y: nat :| c.leftPos <= x && c.rightPos <= y && Shared(join, x, y);
      var i, j := FirstPair(join, c.leftPos, c.rightPos, x, y);
      AllFromPositions(join, c);
      AllAfterFirst(join, c.leftPos, c.rightPos, i, j);
      hide RunRight, AllKeep, TellsApart, KeepsPredecessors, Own, BothIncrease, Join.Valid;
      var tie := Approach(join, c, i, j);
      var after := PairDecides(join, tie, i, j);
      if KeepsPredecessors(join, i, j) {
        WellRunIsRight(join, after);
      }
    }
  }

  lemma StartIsPair<T, P>(join: Join<T, P>)
    requires BothIncrease(join) && Shared(join, 0, 0)
    ensures join.Placed(Start()) && AtPair(join, join.Fill(Start()), 0, 0) && join.Fill(Start()).lastLeft == None
  {
  }

  lemma {:induction false} StartIsWell<T, P>(join: Join<T, P>)
    requires BothIncrease(join) && !Shared(join, 0, 0)
    ensures join.Placed(Start()) && Well(join, join.Fill(Start()))
    ensures join.EmittedLeft(join.Fill(Start())) == 0 && join.EmittedRight(join.Fill(Start())) == 0
  {
  }

  lemma StartFilled<T(!new), P(!new)>(join: Join<T, P>)
    requires join.Placed(Start())
    ensures RunRight(join, Start()) <==> RunRight(join, join.Fill(Start()))
  {
    RunRightUnfolds(join, Start());
    RunRightUnfolds(join, join.Fill(Start()));
    assert join.Fill(join.Fill(Start())) == join.Fill(Start());
    hide RunRight, RightHere, Join.Emit, Join.Fill;
  }

  /** The key is first on both sides. */
  lemma {:induction false} PairAtStart<T(!new), P(!new)>(join: Join<T, P>)
    requires BothIncrease(join) && TellsApart(join) && Shared(join, 0, 0)
    ensures join.Placed(Start()) && (RunRight(join, Start()) <==> AllKeep(join, 0, 0))
  {
    StartIsPair(join);
    StartFilled(join);
    AllAfterFirst(join, 0, 0, 0, 0);
    hide RunRight, AllKeep, TellsApart, BothIncrease, Join.Fill, LeftGoesOn, AtPair, Well;
    var after := PairIsRight(join, join.Fill(Start()), 0, 0);
    if LeftGoesOn(join, 0, 0) {
      WellRunIsRight(join, after);
    }
  }

  /** Two increasing inputs: all items come out with the largest smaller item of the other side exactly
      if every common key keeps the predecessors. */
  lemma {:induction false} PredecessorsRight<T(!new), P(!new)>(join: Join<T, P>)
    requires BothIncrease(join) && TellsApart(join)
    ensures join.Placed(Start())
    ensures RunRight(join, Start()) <==> AllKeep(join, 0, 0)
  {
    if Shared(join, 0, 0) {
      PairAtStart(join);
    } else {
      StartIsWell(join);
      hide RunRight, AllKeep, TellsApart, BothIncrease, Join.Fill, Well, Shared;
      StartFilled(join);
      WellRunIsRight(join, join.Fill(Start()));
    }
  }
}
