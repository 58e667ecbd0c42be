/** Order-preserving selection from a list: the shape of every list comprehension
    with a filter, and of the `list.remove` loops that follow them. */
module Selection {
  import opened Lists

  ghost predicate Increasing(m: seq<nat>) {
    forall i, j :: 0 <= i < j < |m| ==> m[i] < m[j]
  }

  /** The positions below n that are in keep, in ascending order. */
  ghost function Indices(n: nat, keep: set<nat>): (m: seq<nat>)
    ensures forall k :: 0 <= k < |m| ==> m[k] < n && m[k] in keep
  {
    if n == 0 then []
    else Indices(n - 1, keep) + (if n - 1 in keep then [n - 1] else [])
  }

  lemma {:induction false} IndicesIncrease(n: nat, keep: set<nat>)
    ensures Increasing(Indices(n, keep))
  {
    if n > 0 { IndicesIncrease(n - 1, keep); }
  }

  lemma {:induction false} IndexOf(n: nat, keep: set<nat>, i: nat) returns (k: nat)
    requires i < n && i in keep
    ensures k < |Indices(n, keep)| && Indices(n, keep)[k] == i
  {
    if i == n - 1 {
      k := |Indices(n - 1, keep)|;
    } else {
      k := IndexOf(n - 1, keep, i);
    }
  }

  lemma {:induction false} SameIndices(n: nat, keep: set<nat>, keep': set<nat>)
    requires forall i: nat :: i < n ==> (i in keep <==> i in keep')
    ensures Indices(n, keep) == Indices(n, keep')
  {
    if n > 0 { SameIndices(n - 1, keep, keep'); }
  }

  ghost function Gather<T>(xs: seq<T>, m: seq<nat>): (r: seq<T>)
    requires forall k :: 0 <= k < |m| ==> m[k] < |xs|
  {
    seq(|m|, k requires 0 <= k < |m| => xs[m[k]])
  }

  /** The elements of xs whose position is in keep, in list order. */
  ghost function Select<T>(xs: seq<T>, keep: set<nat>): (r: seq<T>)
    ensures |r| == |Indices(|xs|, keep)|
    ensures forall k :: 0 <= k < |r| ==> r[k] == xs[Indices(|xs|, keep)[k]]
  {
    Gather(xs, Indices(|xs|, keep))
  }

  /** The positions below n that are not in drop. */
  ghost function Outside(n: nat, drop: set<nat>): set<nat> {
    set i: nat | i < n && i !in drop
  }

  /** Python's `list.remove`: drops the first occurrence. */
  function RemoveFirst<T(==)>(xs: seq<T>, x: T): seq<T> {
    if xs == [] then []
    else if xs[0] == x then xs[1..]
    else [xs[0]] + RemoveFirst(xs[1..], x)
  }

  lemma SelectSnoc<T>(xs: seq<T>, keep: set<nat>, keep': set<nat>)
    requires |xs| > 0
    requires forall i: nat :: i < |xs| - 1 ==> (i in keep <==> i in keep')
    ensures Select(xs, keep) == Select(xs[..|xs| - 1], keep') + if |xs| - 1 in keep then [xs[|xs| - 1]] else []
  {
    SameIndices(|xs| - 1, keep, keep');
  }

  lemma {:induction false} RemoveFirstSnoc<T>(xs: seq<T>, z: T, x: T)
    ensures x in xs ==> RemoveFirst(xs + [z], x) == RemoveFirst(xs, x) + [z]
    ensures x !in xs && x == z ==> RemoveFirst(xs + [z], x) == xs
  {
    if xs == [] {
    } else {
      assert (xs + [z])[1..] == xs[1..] + [z];
      RemoveFirstSnoc(xs[1..], z, x);
    }
  }

  /** Removing one selected element leaves the selection without its position. */
  lemma {:induction false} RemoveSelected<T>(xs: seq<T>, keep: set<nat>, i: nat)
    requires Distinct(xs)
    requires i < |xs| && i in keep
    ensures RemoveFirst(Select(xs, keep), xs[i]) == Select(xs, keep - {i})
  {
    var n := |xs| - 1;
    SelectSnoc(xs, keep, keep);
    if i == n {
      SelectSnoc(xs, keep - {i}, keep);
      RemoveFirstSnoc(Select(xs[..n], keep), xs[n], xs[n]);
      assert xs[n] !in Select(xs[..n], keep);
    } else {
      var ys := xs[..n];
      SelectSnoc(xs, keep - {i}, keep - {i});
      assert ys[i] == xs[i];
      RemoveSelected(ys, keep, i);
      var k := IndexOf(n, keep, i);
      assert Select(ys, keep)[k] == xs[i];
      if n in keep {
        RemoveFirstSnoc(Select(ys, keep), xs[n], xs[i]);
      } else {
        assert Select(xs, keep) == Select(ys, keep);
        assert Select(xs, keep - {i}) == Select(ys, keep - {i});
      }
    }
  }

  lemma {:induction false} SelectAll<T>(xs: seq<T>, keep: set<nat>)
    requires forall i: nat :: i < |xs| ==> i in keep
    ensures Select(xs, keep) == xs
  {
    if xs != [] {
      SelectSnoc(xs, keep, keep);
      SelectAll(xs[..|xs| - 1], keep);
    }
  }

  /** Where a kept element stands in the selection. */
  lemma SelectHas<T>(xs: seq<T>, keep: set<nat>, i: nat) returns (k: nat)
    requires i < |xs| && i in keep
    ensures k < |Select(xs, keep)| && Select(xs, keep)[k] == xs[i] && Indices(|xs|, keep)[k] == i
  {
    k := IndexOf(|xs|, keep, i);
  }

  lemma SelectSelectSnoc<T>(ys: seq<T>, z: T, outer: set<nat>, inner: set<nat>, both: set<nat>)
    requires Select(Select(ys, outer), inner) == Select(ys, both)
    requires |ys| in outer ==> (|Select(ys, outer)| in inner <==> |ys| in both)
    requires |ys| !in outer ==> |ys| !in both
    ensures Select(Select(ys + [z], outer), inner) == Select(ys + [z], both)
  {
    var xs, s := ys + [z], Select(ys, outer);
    assert xs[..|ys|] == ys;
    SelectSnoc(xs, outer, outer);
    SelectSnoc(xs, both, both);
    if |ys| in outer {
      assert (s + [z])[..|s|] == s;
      SelectSnoc(s + [z], inner, inner);
    } else {
      assert Select(xs, outer) == s;
      assert Select(xs, both) == Select(ys, both);
    }
  }

  /** Two filters in a row are one filter, on the positions of the original list. */
  lemma {:induction false} SelectSelect<T>(xs: seq<T>, outer: set<nat>, inner: set<nat>, both: set<nat>)
    requires forall i :: i in both ==> i in outer
    requires forall h :: 0 <= h < |Indices(|xs|, outer)| ==> (h in inner <==> Indices(|xs|, outer)[h] in both)
    ensures Select(Select(xs, outer), inner) == Select(xs, both)
  {
    if xs != [] {
      var n := |xs| - 1;
      var e, e' := Indices(n + 1, outer), Indices(n, outer);
      assert e == e' + if n in outer then [n] else [];
      forall h | 0 <= h < |e'| ensures h in inner <==> e'[h] in both { assert e[h] == e'[h]; }
      SelectSelect(xs[..n], outer, inner, both);
      assert n in outer ==> e[|e'|] == n;
      SelectSelectSnoc(xs[..n], xs[n], outer, inner, both);
      assert xs == xs[..n] + [xs[n]];
    }
  }

  /** The least kept position comes first. */
  lemma {:induction false} IndicesHead(n: nat, keep: set<nat>, first: nat)
    requires first < n && first in keep && forall i :: i in keep ==> first <= i
    ensures Indices(n, keep) == [first] + Indices(n, keep - {first})
  {
    if first == n - 1 {
      SameIndices(n - 1, keep, {});
      SameIndices(n - 1, keep - {first}, {});
      NoIndices(n - 1);
    } else {
      IndicesHead(n - 1, keep, first);
    }
  }

  lemma {:induction false} NoIndices(n: nat)
    ensures Indices(n, {}) == []
  {
    if n > 0 { NoIndices(n - 1); }
  }

  lemma SelectHead<T>(xs: seq<T>, keep: set<nat>, first: nat)
    requires first < |xs| && first in keep && forall i :: i in keep ==> first <= i
    ensures Select(xs, keep) == [xs[first]] + Select(xs, keep - {first})
  {
    IndicesHead(|xs|, keep, first);
  }

  lemma SelectDistinct<T>(xs: seq<T>, keep: set<nat>)
    requires Distinct(xs)
    ensures Distinct(Select(xs, keep))
  {
    IndicesIncrease(|xs|, keep);
  }

  // ---- Removing the selected elements one by one ----

  /** The loop `for x in gone: xs.remove(x)`. */
  ghost function RemoveAll<T>(xs: seq<T>, gone: seq<T>): seq<T> {
    if gone == [] then xs else RemoveFirst(RemoveAll(xs, gone[..|gone| - 1]), gone[|gone| - 1])
  }

  ghost function Prefix(m: seq<nat>, k: nat): set<nat>
    requires k <= |m|
  {
    set j | 0 <= j < k :: m[j]
  }

  lemma PrefixGrows(n: nat, drop: set<nat>, k: nat)
    requires 0 < k <= |Indices(n, drop)|
    ensures var m := Indices(n, drop);
            && m[k - 1] in Outside(n, Prefix(m, k - 1))
            && Outside(n, Prefix(m, k)) == Outside(n, Prefix(m, k - 1)) - {m[k - 1]}
  {
    var m := Indices(n, drop);
    IndicesIncrease(n, drop);
    assert m[k - 1] !in Prefix(m, k - 1);
    assert Prefix(m, k) == Prefix(m, k - 1) + {m[k - 1]};
  }

  lemma {:induction false} RemovePrefix<T>(xs: seq<T>, drop: set<nat>, k: nat)
    requires Distinct(xs) && k <= |Select(xs, drop)|
    ensures RemoveAll(xs, Select(xs, drop)[..k]) == Select(xs, Outside(|xs|, Prefix(Indices(|xs|, drop), k)))
  {
    var n, m, gone := |xs|, Indices(|xs|, drop), Select(xs, drop);
    if k == 0 {
      SelectAll(xs, Outside(n, Prefix(m, 0)));
    } else {
      RemovePrefix(xs, drop, k - 1);
      assert gone[..k][..k - 1] == gone[..k - 1];
      PrefixGrows(n, drop, k);
      RemoveSelected(xs, Outside(n, Prefix(m, k - 1)), m[k - 1]);
    }
  }

  /** Removing the selected elements one by one leaves the others. */
  lemma RemoveAllSelected<T>(xs: seq<T>, drop: set<nat>)
    requires Distinct(xs) && forall i :: i in drop ==> i < |xs|
    ensures RemoveAll(xs, Select(xs, drop)) == Select(xs, Outside(|xs|, drop))
    ensures Distinct(Select(xs, Outside(|xs|, drop)))
  {
    var m, gone := Indices(|xs|, drop), Select(xs, drop);
    RemovePrefix(xs, drop, |gone|);
    assert gone[..|gone|] == gone;
    forall i | i in drop ensures i in Prefix(m, |m|) {
      var k := IndexOf(|xs|, drop, i);
    }
    assert Prefix(m, |m|) == drop;
    SelectDistinct(xs, Outside(|xs|, drop));
  }
}
