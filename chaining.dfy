/** A hash table with separate chaining, as plain values.

    A table is a sequence of bins; a bin is a sequence of elements (a chain).
    An element belongs in the bin whose index is its hash modulo the number of
    bins.  The functions here are the pure counterparts of what the hash set
    class does to its table in place: append to a bin, delete from a bin by
    equality, and rehash everything into a fresh table of another size.  The
    lemmas state what each of them keeps.
 */
module Chaining {

  /** The bin an element with hash value `h` sits in, in a table of `n` bins.
      Dafny's `%` with a positive divisor is never negative, as Python's is. */
  function BinIndex(h: int, n: int): (i: int)
    requires n >= 1
    ensures 0 <= i < n
    ensures 0 <= h < n ==> i == h
  {
    h % n
  }

  /** No element occurs twice. */
  ghost predicate Distinct<T>(s: seq<T>)
  {
    forall j, k :: 0 <= j < k < |s| ==> s[j] != s[k]
  }

  /** The elements of a table, bin after bin and within a bin in chain order:
      the order in which the set is iterated. */
  function Flatten<T>(bins: seq<seq<T>>): seq<T>
  {
    if bins == [] then [] else Flatten(bins[..|bins| - 1]) + bins[|bins| - 1]
  }

  /** The elements of a sequence as a set. */
  ghost function SetOf<T>(s: seq<T>): set<T>
  {
    set x | x in s
  }

  /** The elements of a table as a set. */
  ghost function Members<T>(bins: seq<seq<T>>): set<T>
  {
    SetOf(Flatten(bins))
  }

  /** The sum of the lengths of all bins. */
  function TotalLength<T>(bins: seq<seq<T>>): nat
  {
    if bins == [] then 0 else TotalLength(bins[..|bins| - 1]) + |bins[|bins| - 1]|
  }

  /** A table of `n` empty bins. */
  function EmptyTable<T>(n: nat): seq<seq<T>>
  {
    seq(n, _ => [])
  }

  /** Every element sits in the bin its hash selects. */
  ghost predicate Placed<T>(bins: seq<seq<T>>, hash: T -> int)
  {
    |bins| >= 1 &&
    forall i, y :: 0 <= i < |bins| && y in bins[i] ==> BinIndex(hash(y), |bins|) == i
  }

  /** No bin holds the same element twice. */
  ghost predicate NoDupBins<T>(bins: seq<seq<T>>)
  {
    forall i :: 0 <= i < |bins| ==> Distinct(bins[i])
  }

  /** Append `x` to the bin it belongs in (the intended `bin.append(x)`). */
  function Insert<T>(bins: seq<seq<T>>, hash: T -> int, x: T): seq<seq<T>>
    requires |bins| >= 1
  {
    var i := BinIndex(hash(x), |bins|);
    bins[i := bins[i] + [x]]
  }

  /** Delete the first element equal to `x` from a bin, as Python's
      `list.remove` does. */
  function RemoveFirst<T(==)>(b: seq<T>, x: T): (r: seq<T>)
    ensures x in b ==> |r| == |b| - 1
    ensures x !in b ==> r == b
    ensures forall y :: y in r ==> y in b
    ensures forall y :: y in b && y != x ==> y in r
    ensures Distinct(b) ==> Distinct(r) && x !in r
  {
    if b == [] then []
    else if b[0] == x then b[1..]
    else
      var rest := RemoveFirst(b[1..], x);
      assert Distinct(b) ==> Distinct(b[1..]) && b[0] !in b[1..] by {
        if Distinct(b) {
          forall j, k | 0 <= j < k < |b[1..]| ensures b[1..][j] != b[1..][k] {
            assert b[1..][j] == b[j + 1] && b[1..][k] == b[k + 1];
          }
          forall k | 0 <= k < |b[1..]| ensures b[1..][k] != b[0] {
            assert b[1..][k] == b[k + 1];
          }
        }
      }
      [b[0]] + rest
  }

  /** Delete `x` from the bin it belongs in. */
  function Delete<T(==)>(bins: seq<seq<T>>, hash: T -> int, x: T): seq<seq<T>>
    requires |bins| >= 1
  {
    var i := BinIndex(hash(x), |bins|);
    bins[i := RemoveFirst(bins[i], x)]
  }

  /** Append the elements of `xs`, first to last, each to its bin of `t`. */
  function AppendAll<T>(t: seq<seq<T>>, hash: T -> int, xs: seq<T>): (r: seq<seq<T>>)
    requires |t| >= 1
    ensures |r| == |t|
    decreases |xs|
  {
    if xs == [] then t
    else Insert(AppendAll(t, hash, xs[..|xs| - 1]), hash, xs[|xs| - 1])
  }

  /** The table a resize to `n` bins builds: a fresh table, and every element
      of the old one appended to its new bin in iteration order. */
  function Rehash<T>(bins: seq<seq<T>>, n: int, hash: T -> int): seq<seq<T>>
    requires n >= 1
  {
    AppendAll(EmptyTable(n), hash, Flatten(bins))
  }

  // ---------------------------------------------------------------------
  // Flattening

  /** Iteration yields as many elements as the bins hold together. */
  lemma {:induction false} FlattenLength<T>(bins: seq<seq<T>>)
    ensures |Flatten(bins)| == TotalLength(bins)
  {
    if bins != [] {
      FlattenLength(bins[..|bins| - 1]);
    }
  }

  /** An element is iterated exactly when some bin holds it. */
  lemma {:induction false} InFlatten<T>(bins: seq<seq<T>>, x: T)
    ensures x in Flatten(bins) <==> exists i :: 0 <= i < |bins| && x in bins[i]
  {
    if bins != [] {
      var m := |bins| - 1;
      var front := bins[..m];
      InFlatten(front, x);
      if x in Flatten(bins) && x !in bins[m] {
        var i :| 0 <= i < m && x in front[i];
        assert x in bins[i];
      }
      if i :| 0 <= i < |bins| && x in bins[i] {
        if i < m {
          assert x in front[i];
        }
      }
    }
  }

  /** In a placed table, an element is present exactly when its own bin holds
      it: the membership test only scans that one bin. */
  lemma LookupBin<T>(bins: seq<seq<T>>, hash: T -> int, x: T)
    requires Placed(bins, hash)
    ensures x in Flatten(bins) <==> x in bins[BinIndex(hash(x), |bins|)]
  {
    InFlatten(bins, x);
  }

  /** A table that is empty iterates to nothing. */
  lemma {:induction false} EmptyTableFlatten<T>(n: nat)
    ensures Flatten(EmptyTable<T>(n)) == []
    ensures TotalLength(EmptyTable<T>(n)) == 0
  {
    if n > 0 {
      assert EmptyTable<T>(n)[..n - 1] == EmptyTable<T>(n - 1);
      EmptyTableFlatten<T>(n - 1);
    }
  }

  lemma {:induction false} FlattenPrefixDistinct<T>(bins: seq<seq<T>>, hash: T -> int, k: nat)
    requires Placed(bins, hash) && NoDupBins(bins) && k <= |bins|
    ensures Distinct(Flatten(bins[..k]))
  {
    if k > 0 {
      FlattenPrefixDistinct(bins, hash, k - 1);
      assert bins[..k][..k - 1] == bins[..k - 1];
      var a := Flatten(bins[..k - 1]);
      var b := bins[k - 1];
      assert Flatten(bins[..k]) == a + b;
      forall j, l | 0 <= j < l < |a + b| ensures (a + b)[j] != (a + b)[l] {
        if j < |a| <= l {
          var y := (a + b)[j];
          assert y in a;
          InFlatten(bins[..k - 1], y);
          var i :| 0 <= i < k - 1 && y in bins[..k - 1][i];
          assert y in bins[i];
          assert BinIndex(hash(y), |bins|) == i;
          assert (a + b)[l] == b[l - |a|];
          assert (a + b)[l] in bins[k - 1];
          assert BinIndex(hash((a + b)[l]), |bins|) == k - 1;
        } else if l < |a| {
          assert (a + b)[j] == a[j] && (a + b)[l] == a[l];
        } else if |a| <= j {
          assert (a + b)[j] == b[j - |a|] && (a + b)[l] == b[l - |a|];
        }
      }
    }
  }

  /** Because every element sits in one bin only, and no bin repeats an
      element, iteration yields every element exactly once. */
  lemma FlattenDistinct<T>(bins: seq<seq<T>>, hash: T -> int)
    requires Placed(bins, hash) && NoDupBins(bins)
    ensures Distinct(Flatten(bins))
  {
    FlattenPrefixDistinct(bins, hash, |bins|);
    assert bins[..|bins|] == bins;
  }

  /** A sequence without repetitions has as many distinct elements as entries. */
  lemma {:induction false} DistinctCardinality<T>(s: seq<T>)
    requires Distinct(s)
    ensures |SetOf(s)| == |s|
  {
    if s != [] {
      var m := |s| - 1;
      DistinctCardinality(s[..m]);
      assert SetOf(s) == SetOf(s[..m]) + {s[m]};
      assert s[m] !in SetOf(s[..m]);
    }
  }

  // ---------------------------------------------------------------------
  // Updating one bin

  lemma {:induction false} TotalLengthUpdate<T>(bins: seq<seq<T>>, i: int, b: seq<T>)
    requires 0 <= i < |bins|
    ensures TotalLength(bins[i := b]) == TotalLength(bins) - |bins[i]| + |b|
  {
    var m := |bins| - 1;
    if i == m {
      assert bins[i := b][..m] == bins[..m];
    } else {
      assert bins[i := b][..m] == bins[..m][i := b];
      TotalLengthUpdate(bins[..m], i, b);
    }
  }

  /** Adding an absent element keeps the table placed and free of repeats, adds
      one to its total length and adds exactly that element. */
  lemma InsertKeeps<T>(bins: seq<seq<T>>, hash: T -> int, x: T)
    requires Placed(bins, hash) && NoDupBins(bins) && x !in Flatten(bins)
    ensures Placed(Insert(bins, hash, x), hash)
    ensures NoDupBins(Insert(bins, hash, x))
    ensures TotalLength(Insert(bins, hash, x)) == TotalLength(bins) + 1
    ensures forall y :: y in Flatten(Insert(bins, hash, x)) <==> y in Flatten(bins) || y == x
  {
    var i := BinIndex(hash(x), |bins|);
    var r := Insert(bins, hash, x);
    LookupBin(bins, hash, x);
    assert r[i] == bins[i] + [x];
    TotalLengthUpdate(bins, i, bins[i] + [x]);
    forall y ensures y in Flatten(r) <==> y in Flatten(bins) || y == x {
      InFlatten(r, y);
      InFlatten(bins, y);
      if y in Flatten(bins) {
        var j :| 0 <= j < |bins| && y in bins[j];
        assert y in r[j];
      }
      if y in Flatten(r) && y != x {
        var j :| 0 <= j < |r| && y in r[j];
        assert y in bins[j];
      }
    }
  }

  /** Deleting a present element keeps the table placed and free of repeats,
      takes one from its total length and removes exactly that element. */
  lemma DeleteKeeps<T>(bins: seq<seq<T>>, hash: T -> int, x: T)
    requires Placed(bins, hash) && NoDupBins(bins) && x in Flatten(bins)
    ensures Placed(Delete(bins, hash, x), hash)
    ensures NoDupBins(Delete(bins, hash, x))
    ensures TotalLength(Delete(bins, hash, x)) == TotalLength(bins) - 1
    ensures forall y :: y in Flatten(Delete(bins, hash, x)) <==> y in Flatten(bins) && y != x
  {
    var i := BinIndex(hash(x), |bins|);
    var r := Delete(bins, hash, x);
    LookupBin(bins, hash, x);
    assert r[i] == RemoveFirst(bins[i], x);
    TotalLengthUpdate(bins, i, RemoveFirst(bins[i], x));
    forall y ensures y in Flatten(r) <==> y in Flatten(bins) && y != x {
      InFlatten(r, y);
      InFlatten(bins, y);
      if y in Flatten(bins) && y != x {
        var j :| 0 <= j < |bins| && y in bins[j];
        assert y in r[j];
      }
      if y in Flatten(r) {
        var j :| 0 <= j < |r| && y in r[j];
        assert y in bins[j];
        if j == i {
          assert y != x;
        }
      }
    }
  }

  lemma MembersIff<T>(bins: seq<seq<T>>, s: set<T>)
    requires forall y :: y in Flatten(bins) <==> y in s
    ensures Members(bins) == s
  {
    var f := Flatten(bins);
    assert forall y :: y in f <==> y in s;
    assert Members(bins) == SetOf(f);
  }

  /** Adding an absent element adds it to the set of members. */
  lemma InsertMembers<T>(bins: seq<seq<T>>, hash: T -> int, x: T)
    requires Placed(bins, hash) && NoDupBins(bins) && x !in Flatten(bins)
    ensures Members(Insert(bins, hash, x)) == Members(bins) + {x}
  {
    InsertKeeps(bins, hash, x);
    MembersIff(Insert(bins, hash, x), Members(bins) + {x});
  }

  /** Deleting a present element removes it from the set of members. */
  lemma DeleteMembers<T>(bins: seq<seq<T>>, hash: T -> int, x: T)
    requires Placed(bins, hash) && NoDupBins(bins) && x in Flatten(bins)
    ensures Members(Delete(bins, hash, x)) == Members(bins) - {x}
  {
    DeleteKeeps(bins, hash, x);
    MembersIff(Delete(bins, hash, x), Members(bins) - {x});
  }

  // ---------------------------------------------------------------------
  // Rehashing

  /** Appending one more element is one more `Insert`. */
  lemma AppendAllSnoc<T>(t: seq<seq<T>>, hash: T -> int, xs: seq<T>, x: T)
    requires |t| >= 1
    ensures AppendAll(t, hash, xs + [x]) == Insert(AppendAll(t, hash, xs), hash, x)
  {
    assert (xs + [x])[..|xs|] == xs;
  }

  /** Flattening one more bin appends that bin. */
  lemma FlattenSnoc<T>(bins: seq<seq<T>>, i: int)
    requires 0 <= i < |bins|
    ensures Flatten(bins[..i + 1]) == Flatten(bins[..i]) + bins[i]
  {
    assert bins[..i + 1][..i] == bins[..i];
  }

  lemma {:induction false} AppendAllKeeps<T>(t: seq<seq<T>>, hash: T -> int, xs: seq<T>)
    requires Placed(t, hash) && NoDupBins(t) && Distinct(xs)
    requires forall y :: y in xs ==> y !in Flatten(t)
    ensures Placed(AppendAll(t, hash, xs), hash)
    ensures NoDupBins(AppendAll(t, hash, xs))
    ensures TotalLength(AppendAll(t, hash, xs)) == TotalLength(t) + |xs|
    ensures forall y :: y in Flatten(AppendAll(t, hash, xs)) <==> y in Flatten(t) || y in xs
    decreases |xs|
  {
    if xs != [] {
      var m := |xs| - 1;
      var front := xs[..m];
      assert xs == front + [xs[m]];
      AppendAllKeeps(t, hash, front);
      var u := AppendAll(t, hash, front);
      assert xs[m] !in front;
      InsertKeeps(u, hash, xs[m]);
    }
  }

  /** A resize to `n` bins builds a placed table without repeats of `n` bins,
      holding exactly the elements of the old table, as many as before. */
  lemma RehashKeeps<T>(bins: seq<seq<T>>, n: int, hash: T -> int)
    requires n >= 1 && Distinct(Flatten(bins))
    ensures |Rehash(bins, n, hash)| == n
    ensures Placed(Rehash(bins, n, hash), hash)
    ensures NoDupBins(Rehash(bins, n, hash))
    ensures TotalLength(Rehash(bins, n, hash)) == |Flatten(bins)|
    ensures forall y :: y in Flatten(Rehash(bins, n, hash)) <==> y in Flatten(bins)
  {
    EmptyTableFlatten<T>(n);
    AppendAllKeeps(EmptyTable(n), hash, Flatten(bins));
  }

  /** Rehashing keeps the set of members. */
  lemma RehashMembers<T>(bins: seq<seq<T>>, n: int, hash: T -> int)
    requires n >= 1 && Distinct(Flatten(bins))
    ensures Members(Rehash(bins, n, hash)) == Members(bins)
  {
    RehashKeeps(bins, n, hash);
    MembersIff(Rehash(bins, n, hash), Members(bins));
  }
}
