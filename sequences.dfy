/** The list operations the game performs on its entity arrays: `splice(i, 1)`,
    `indexOf`, and removal of the elements that fail a test during a reverse scan. */
module Sequences {

  /** `s.splice(i, 1)`: the element at `i` is gone, the others keep their order. */
  function RemoveAt<T>(s: seq<T>, i: nat): (r: seq<T>)
    requires i < |s|
    ensures |r| == |s| - 1
    ensures forall k :: 0 <= k < i ==> r[k] == s[k]
    ensures forall k :: i <= k < |r| ==> r[k] == s[k + 1]
    ensures multiset(r) == multiset(s) - multiset{s[i]}
  {
    assert s == s[..i] + [s[i]] + s[i + 1..];
    s[..i] + s[i + 1..]
  }

  /** `s.indexOf(x)`: the first position holding `x`, or -1 when there is none. */
  method IndexOf<T(==)>(s: seq<T>, x: T) returns (index: int)
    ensures -1 <= index < |s|
    ensures index == -1 <==> x !in s
    ensures 0 <= index ==> s[index] == x && x !in s[..index]
  {
    index := 0;
    while index < |s|
      invariant 0 <= index <= |s|
      invariant x !in s[..index]
    {
      if s[index] == x {
        return;
      }
      index := index + 1;
    }
    assert s[..index] == s;
    index := -1;
  }

  /** The elements of `s` that pass `keep`, in their original order. */
  function Filter<T>(s: seq<T>, keep: T -> bool): (r: seq<T>)
    ensures |r| <= |s|
    ensures forall k :: 0 <= k < |r| ==> r[k] in s && keep(r[k])
    ensures forall i :: 0 <= i < |s| && keep(s[i]) ==> s[i] in r
  {
    if s == [] then []
    else
      var rest := Filter(s[1..], keep);
      assert forall i :: 0 < i < |s| ==> s[i] == s[1..][i - 1];
      if keep(s[0]) then [s[0]] + rest else rest
  }

  /** Appending three pieces one after another is appending them joined. */
  lemma AppendAssoc<T>(a: seq<T>, b: seq<T>, c: seq<T>, d: seq<T>)
    ensures a + (b + c + d) == a + b + c + d
  {
  }

  /** One step of an in-place reverse filter over `s`, a copy of `p` whose suffix from
      `i + 1` on is already filtered: dropping or keeping element `i` extends the filtered
      suffix to `i`. */
  lemma {:induction false} FilterStep<T>(p: seq<T>, i: nat, s: seq<T>, keep: T -> bool, s': seq<T>)
    requires i < |p| && i < |s| && s[..i + 1] == p[..i + 1] && s[i + 1..] == Filter(p[i + 1..], keep)
    requires s' == if keep(s[i]) then s else RemoveAt(s, i)
    ensures i <= |s'| && s'[..i] == p[..i] && s'[i..] == Filter(p[i..], keep)
  {
    assert s[i] == p[i] by {
      assert s[..i + 1][i] == p[..i + 1][i];
    }
    assert s[..i] == p[..i] by {
      assert s[..i] == s[..i + 1][..i] && p[..i] == p[..i + 1][..i];
    }
    assert p[i..][0] == p[i] && p[i..][1..] == p[i + 1..];
    if keep(s[i]) {
      assert s[i..] == [s[i]] + s[i + 1..];
    } else {
      assert s'[i..] == s[i + 1..];
      assert s'[..i] == s[..i];
    }
  }

  /** The positions `from`, `from + 1`, ... of `s` whose elements pass `keep`, ascending. */
  function KeptPositions<T>(s: seq<T>, keep: T -> bool, from: nat): (ix: seq<nat>)
    ensures forall k :: 0 <= k < |ix| ==> from <= ix[k] < |s|
    decreases |s| - from
  {
    if from >= |s| then []
    else
      var rest := KeptPositions(s, keep, from + 1);
      if keep(s[from]) then [from] + rest else rest
  }

  /** The kept positions strictly increase and are exactly the passing ones. */
  lemma {:induction false} KeptPositionsExact<T>(s: seq<T>, keep: T -> bool, from: nat)
    ensures var ix := KeptPositions(s, keep, from);
      && (forall k, l :: 0 <= k < l < |ix| ==> ix[k] < ix[l])
      && (forall i :: from <= i < |s| ==> (keep(s[i]) <==> i in ix))
    decreases |s| - from
  {
    if from < |s| {
      KeptPositionsExact(s, keep, from + 1);
    }
  }

  /** Filter keeps exactly the passing elements, each once, in their original order:
      the k-th survivor is the element at the k-th passing position. */
  lemma {:induction false} FilterByPosition<T>(s: seq<T>, keep: T -> bool, from: nat)
    requires from <= |s|
    ensures var r, ix := Filter(s[from..], keep), KeptPositions(s, keep, from);
      && |r| == |ix|
      && (forall k :: 0 <= k < |ix| ==> r[k] == s[ix[k]])
    decreases |s| - from
  {
    if from < |s| {
      assert s[from..][1..] == s[from + 1..];
      FilterByPosition(s, keep, from + 1);
    }
  }
}
