/** Order-preserving de-duplication and occurrence counts, shared by the header
    counter and the result-page ID extractor, and the dictionary a loop of
    assignments builds, shared by the peptide page parser's two tables. */
module Collections {
  import opened Wrappers

  predicate NoDups<T(==)>(xs: seq<T>) {
    forall i, j :: 0 <= i < j < |xs| ==> xs[i] != xs[j]
  }

  /** Keep the first appearance of every element, in order. */
  function Dedup<T(==, !new)>(xs: seq<T>): (r: seq<T>)
    ensures NoDups(r)
    ensures forall x :: x in r <==> x in xs
    ensures |r| <= |xs|
  {
    if xs == [] then []
    else
      var r0 := Dedup(xs[..|xs| - 1]);
      var x := xs[|xs| - 1];
      assert xs == xs[..|xs| - 1] + [x];
      if x in r0 then r0 else r0 + [x]
  }

  /** Number of occurrences of `x` in `xs`. */
  function Count<T(==)>(xs: seq<T>, x: T): (n: nat)
    ensures n <= |xs|
    ensures n > 0 <==> x in xs
  {
    if xs == [] then 0
    else
      assert xs == xs[..|xs| - 1] + [xs[|xs| - 1]];
      Count(xs[..|xs| - 1], x) + (if xs[|xs| - 1] == x then 1 else 0)
  }

  /** Dedup keeps the order of first appearances: an element that first appears
      before another stays before it. */
  lemma {:induction false} DedupOrder<T(!new)>(xs: seq<T>, i: nat, j: nat)
    requires i < j < |Dedup(xs)|
    ensures exists a, b :: (0 <= a < b < |xs| && xs[a] == Dedup(xs)[i] && xs[b] == Dedup(xs)[j]
                            && Dedup(xs)[i] !in xs[..a] && Dedup(xs)[j] !in xs[..b])
    decreases |xs|
  {
    var pre := xs[..|xs| - 1];
    var x := xs[|xs| - 1];
    var r0 := Dedup(pre);
    if j < |r0| {
      DedupOrder(pre, i, j);
      var a, b :| 0 <= a < b < |pre| && pre[a] == r0[i] && pre[b] == r0[j]
                  && r0[i] !in pre[..a] && r0[j] !in pre[..b];
      assert xs[..a] == pre[..a] && xs[..b] == pre[..b];
      assert xs[a] == pre[a] && xs[b] == pre[b];
    } else {
      assert x !in r0 && Dedup(xs)[j] == x && j == |r0|;
      assert x !in pre;
      FirstAppearance(pre, r0[i]);
      var a :| 0 <= a < |pre| && pre[a] == r0[i] && r0[i] !in pre[..a];
      assert xs[..a] == pre[..a] && xs[a] == pre[a];
      assert xs[..|xs| - 1] == pre;
    }
  }

  lemma FirstAppearance<T>(xs: seq<T>, x: T)
    requires x in xs
    ensures exists a :: 0 <= a < |xs| && xs[a] == x && x !in xs[..a]
  {
    var a :| 0 <= a < |xs| && xs[a] == x;
    while x in xs[..a]
      invariant 0 <= a < |xs| && xs[a] == x
      decreases a
    {
      var b :| 0 <= b < a && xs[..a][b] == x;
      a := b;
    }
  }

  /** The dictionary a loop of `d[k] = v` statements builds when each element
      of `xs` makes at most one assignment: later assignments overwrite
      earlier ones. */
  function Assign<T, K(==), V>(xs: seq<T>, entry: T -> Option<(K, V)>): map<K, V> {
    if xs == [] then map[]
    else
      var d := Assign(xs[..|xs| - 1], entry);
      var e := entry(xs[|xs| - 1]);
      if e.Some? then d[e.value.0 := e.value.1] else d
  }

  /** Every key of the dictionary was assigned by some element, with the value
      it holds; and every key some element assigns is in the dictionary. */
  lemma {:induction false} AssignFrom<T, K, V>(xs: seq<T>, entry: T -> Option<(K, V)>)
    ensures forall k :: k in Assign(xs, entry) ==>
      exists i :: 0 <= i < |xs| && entry(xs[i]) == Some((k, Assign(xs, entry)[k]))
    ensures forall i :: 0 <= i < |xs| && entry(xs[i]).Some? ==> entry(xs[i]).value.0 in Assign(xs, entry)
    decreases |xs|
  {
    if xs != [] {
      var init := xs[..|xs| - 1];
      AssignFrom(init, entry);
      forall k | k in Assign(xs, entry)
        ensures exists i :: 0 <= i < |xs| && entry(xs[i]) == Some((k, Assign(xs, entry)[k]))
      {
        var e := entry(xs[|xs| - 1]);
        if !(e.Some? && e.value.0 == k) {
          var i :| 0 <= i < |init| && entry(init[i]) == Some((k, Assign(init, entry)[k]));
          assert init[i] == xs[i];
        }
      }
      forall i | 0 <= i < |xs| && entry(xs[i]).Some? ensures entry(xs[i]).value.0 in Assign(xs, entry) {
        if i < |init| {
          assert init[i] == xs[i];
        }
      }
    }
  }

  /** The last element that assigns a key decides its value. */
  lemma {:induction false} AssignLast<T, K, V>(xs: seq<T>, entry: T -> Option<(K, V)>, i: nat, k: K, v: V)
    requires i < |xs| && entry(xs[i]) == Some((k, v))
    requires forall j :: i < j < |xs| ==> entry(xs[j]).None? || entry(xs[j]).value.0 != k
    ensures k in Assign(xs, entry) && Assign(xs, entry)[k] == v
    decreases |xs|
  {
    if i < |xs| - 1 {
      var init := xs[..|xs| - 1];
      assert init[i] == xs[i];
      forall j | i < j < |init| ensures entry(init[j]).None? || entry(init[j]).value.0 != k {
        assert init[j] == xs[j];
      }
      AssignLast(init, entry, i, k, v);
    }
  }
}
