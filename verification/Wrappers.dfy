/** Result types shared by all components. */
module Wrappers {
  datatype Option<+T> = None | Some(value: T)

  datatype Result<+T, +E> = Success(value: T) | Failure(error: E)

  lemma TakeNext<T>(s: seq<T>, n: nat)
    requires n < |s|
    ensures s[..n + 1] == s[..n] + [s[n]] && s[..n + 1][..n] == s[..n]
  {
  }

  lemma TakeNone<T>(s: seq<T>)
    ensures s[..0] == []
  {
  }

  lemma TakeAll<T>(s: seq<T>)
    ensures s[..|s|] == s
  {
  }

  function Reversed<T>(s: seq<T>): (r: seq<T>)
    ensures |r| == |s| && forall i :: 0 <= i < |s| ==> r[i] == s[|s| - 1 - i]
  {
    if s == [] then [] else Reversed(s[1..]) + [s[0]]
  }

  lemma EmptyIffNoMember<T>(s: seq<T>)
    ensures s == [] <==> forall t :: t !in s
  {
    if s != [] {
      assert s[0] in s;
    }
  }

  function Flatten<T>(groups: seq<seq<T>>): seq<T> {
    if groups == [] then [] else Flatten(groups[..|groups| - 1]) + groups[|groups| - 1]
  }

  /** Where a member of the flat sequence comes from. */
  lemma FlattenAt<T>(groups: seq<seq<T>>, i: nat)
    requires i < |Flatten(groups)|
    ensures groups != []
    ensures var init, last := Flatten(groups[..|groups| - 1]), groups[|groups| - 1];
            && (i < |init| ==> Flatten(groups)[i] == init[i])
            && (i >= |init| ==> i - |init| < |last| && Flatten(groups)[i] == last[i - |init|])
  {
  }

  lemma InLast<T>(s: seq<T>, x: T)
    requires s != []
    ensures x in s <==> x in s[..|s| - 1] || x == s[|s| - 1]
  {
    assert s == s[..|s| - 1] + [s[|s| - 1]];
  }
}
