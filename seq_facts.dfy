/** Facts about sequence slicing and concatenation, stated once so that the
    proofs about the crawler's string functions can cite them instead of
    re-deriving them next to recursive definitions. */
module SeqFacts {
  lemma ConcatAssoc<T>(a: seq<T>, b: seq<T>, c: seq<T>)
    ensures a + b + c == a + (b + c)
  {
  }

  lemma DropAppend<T>(s: seq<T>, t: seq<T>, n: nat)
    requires n <= |s|
    ensures (s + t)[n..] == s[n..] + t
  {
  }

  lemma TakeAppend<T>(s: seq<T>, t: seq<T>)
    ensures (s + t)[..|s|] == s
  {
  }

  lemma LastSplit<T>(s: seq<T>)
    requires s != []
    ensures s[..|s| - 1] + [s[|s| - 1]] == s
  {
  }

  lemma TakeSnoc<T>(s: seq<T>, i: nat)
    requires i < |s|
    ensures s[..i + 1] == s[..i] + [s[i]]
  {
  }

  /** Moving the head of `rest` to the end of `done` keeps their concatenation. */
  lemma PopFront<T>(done: seq<T>, rest: seq<T>)
    requires rest != []
    ensures done + rest == (done + [rest[0]]) + rest[1..]
  {
  }

  lemma TakeAll<T>(s: seq<T>)
    ensures s[..|s|] == s
  {
  }

  lemma SnocIndex<T>(xs: seq<T>, x: T)
    ensures |xs + [x]| == |xs| + 1 && (xs + [x])[..|xs|] == xs && (xs + [x])[|xs|] == x
    ensures forall k :: 0 <= k < |xs| ==> (xs + [x])[k] == xs[k]
  {
  }

  lemma ReplaceLastIndex<T>(xs: seq<T>, x: T)
    requires |xs| >= 1
    ensures var ys := xs[..|xs| - 1] + [x];
      |ys| == |xs| && ys[|xs| - 1] == x && ys[..|xs| - 1] == xs[..|xs| - 1]
      && forall k :: 0 <= k < |xs| - 1 ==> ys[k] == xs[k]
  {
  }
}
