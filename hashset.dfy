/** The hash set: a class whose table of bins is updated in place.

    The fields are those of the source class: `size` (the number of bins),
    `used` (the number of stored elements) and the table of bins, here an
    array of sequences.  The element type's hash function is a constant of the
    object.  Each mutating method says exactly what the new table is, in terms
    of the pure functions of module Chaining, and the lemmas there say what
    those functions keep.
 */
module HashSets {
  import opened Chaining

  /** What `Remove` reports: success, or the `KeyError` the source raises for
      an absent element, carrying that element. */
  datatype Outcome<T> = Removed | KeyError(element: T)

  class HashSet<T(==)> {
    const hash: T -> int
    var size: int
    var used: int
    var table: array<seq<T>>

    /** The structure of a separately chained table: every element in the bin
        its hash selects, no bin repeating an element, and `used` counting
        them all.  A resize starts from this alone, since `Add` grows the
        table only after the load bound has been exceeded. */
    ghost predicate Consistent()
      reads this, table
    {
      size >= 1 &&
      table.Length == size &&
      used == TotalLength(table[..]) &&
      Placed(table[..], hash) &&
      NoDupBins(table[..])
    }

    /** The object invariant: a consistent table at most half full. */
    ghost predicate Valid()
      reads this, table
    {
      Consistent() && 2 * used <= size
    }

    /** The set's contents: every element held by some bin. */
    ghost function Elements(): set<T>
      reads this, table
    {
      Members(table[..])
    }

    /** A new set holding the elements of `s`, its table sized for all of them
        (`initialSize` or twice the length of `s`, whichever is larger), so
        that adding them never grows it. */
    constructor (s: seq<T>, initialSize: int, hash: T -> int)
      requires initialSize >= 1 || |s| >= 1
      ensures Valid() && fresh(table)
      ensures this.hash == hash
      ensures size == if 2 * |s| > initialSize then 2 * |s| else initialSize
      ensures Elements() == SetOf(s)
      ensures used == |SetOf(s)|
    {
      var n := if 2 * |s| > initialSize then 2 * |s| else initialSize;
      this.hash := hash;
      size := n;
      used := 0;
      table := new seq<T>[n](_ => []);
      new;
      assert table[..] == EmptyTable(n);
      EmptyTableFlatten<T>(n);
      var i := 0;
      while i < |s|
        invariant 0 <= i <= |s|
        invariant Valid() && fresh(table)
        invariant size == n && used <= i
        invariant Elements() == SetOf(s[..i])
      {
        assert s[..i + 1] == s[..i] + [s[i]];
        Add(s[i]);
        i := i + 1;
      }
      assert s[..i] == s;
      UsedIsCardinality();
    }

    /** The bin `x` belongs in.  Every element of it shares the bin index of
        `x`, and `x` is in the set exactly when it is in this bin. */
    function GetBin(x: T): (b: seq<T>)
      reads this, table
      requires Valid()
      ensures forall y :: y in b ==> BinIndex(hash(y), size) == BinIndex(hash(x), size)
      ensures x in b <==> x in Elements()
    {
      LookupBin(table[..], hash, x);
      table[BinIndex(hash(x), size)]
    }

    /** Membership, scanning only the bin of `x`. */
    function Contains(x: T): (r: bool)
      reads this, table
      requires Valid()
      ensures r <==> x in Elements()
    {
      x in GetBin(x)
    }

    /** The truth value of the set: whether it holds any element. */
    function NonEmpty(): (r: bool)
      reads this, table
      requires Valid()
      ensures r <==> Elements() != {}
    {
      FlattenLength(table[..]);
      assert used > 0 ==> Flatten(table[..])[0] in Elements();
      used > 0
    }

    /** Iteration: bins in table order, each bin in chain order.  It yields
        every member of the set exactly once, `used` elements in all. */
    function Iterate(): (r: seq<T>)
      reads this, table
      requires Valid()
      ensures |r| == used
      ensures Distinct(r)
      ensures forall i :: 0 <= i < |r| ==> Contains(r[i])
      ensures forall x :: x in Elements() ==> x in r
    {
      FlattenLength(table[..]);
      FlattenDistinct(table[..], hash);
      Flatten(table[..])
    }

    /** `used` is the number of elements of the set. */
    lemma UsedIsCardinality()
      requires Valid()
      ensures used == |Elements()|
    {
      FlattenLength(table[..]);
      FlattenDistinct(table[..], hash);
      DistinctCardinality(Flatten(table[..]));
    }

    /** Change the table to `n` bins: allocate `n` empty bins, then walk the
        old bins in order and append each element to its new bin, counting
        them again into `used`. */
    method Resize(n: int)
      requires Consistent() && n >= 1
      modifies this
      ensures Consistent() && fresh(table)
      ensures size == n && used == old(used)
      ensures table[..] == Rehash(old(table[..]), n, hash)
      ensures Elements() == old(Elements())
    {
      var oldTable := table;
      ghost var bins := table[..];
      FlattenDistinct(bins, hash);
      size := n;
      used := 0;
      table := new seq<T>[n](_ => []);
      assert table[..] == EmptyTable(n);
      // The source reads each element's hash back as `b[x]` and stores it with
      // `self.array[index][x] = hash_val`, indexing lists by elements; the
      // intended operation rehashes each element and appends it to its bin.
      var i := 0;
      while i < oldTable.Length
        invariant 0 <= i <= oldTable.Length
        invariant oldTable[..] == bins
        invariant fresh(table) && table.Length == n && size == n
        invariant table[..] == AppendAll(EmptyTable(n), hash, Flatten(bins[..i]))
        invariant used == |Flatten(bins[..i])|
      {
        var b := oldTable[i];
        ghost var prefix := Flatten(bins[..i]);
        var j := 0;
        ghost var done := prefix;
        while j < |b|
          invariant 0 <= j <= |b|
          invariant done == prefix + b[..j]
          invariant fresh(table) && table.Length == n && size == n
          invariant table[..] == AppendAll(EmptyTable(n), hash, done)
          invariant used == |prefix| + j
        {
          var x := b[j];
          AppendAllSnoc(EmptyTable(n), hash, done, x);
          assert b[..j + 1] == b[..j] + [x];
          var index := BinIndex(hash(x), size);
          table[index] := table[index] + [x];
          done := done + [x];
          used := used + 1;
          j := j + 1;
        }
        FlattenSnoc(bins, i);
        assert b[..j] == b;
        i := i + 1;
      }
      assert bins[..i] == bins;
      RehashKeeps(bins, n, hash);
      RehashMembers(bins, n, hash);
      FlattenLength(bins);
    }

    /** Add `x`.  An element already present changes nothing.  Otherwise `x`
        is appended to its bin and counted, and if the table is then more than
        half full it is doubled. */
    method Add(x: T)
      requires Valid()
      modifies this, table
      ensures Valid()
      ensures Elements() == old(Elements()) + {x}
      ensures x in old(Elements()) ==>
                table == old(table) && table[..] == old(table[..]) &&
                used == old(used) && size == old(size)
      ensures x !in old(Elements()) ==> used == old(used) + 1
      ensures x !in old(Elements()) && 2 * used <= old(size) ==>
                table == old(table) && size == old(size) &&
                table[..] == Insert(old(table[..]), hash, x)
      ensures x !in old(Elements()) && 2 * used > old(size) ==>
                fresh(table) && size == 2 * old(size) &&
                table[..] == Rehash(Insert(old(table[..]), hash, x), size, hash)
    {
      var index := BinIndex(hash(x), size);
      LookupBin(table[..], hash, x);
      // The source stores `bin[element] = hash_val` into a list here; the
      // intended operation is appending the element to its bin.
      if x !in table[index] {
        ghost var before := table[..];
        InsertKeeps(before, hash, x);
        InsertMembers(before, hash, x);
        table[index] := table[index] + [x];
        assert table[..] == Insert(before, hash, x);
        used := used + 1;
        // `used > size / 2` in the source, on floats.
        if 2 * used > size {
          Resize(2 * size);
        }
      }
    }

    /** Remove `x`.  An absent element is reported as `KeyError(x)` and nothing
        changes.  Otherwise `x` is deleted from its bin and uncounted, and if
        the table is then less than a quarter full it is halved. */
    method Remove(x: T) returns (r: Outcome<T>)
      requires Valid()
      modifies this, table
      ensures Valid()
      ensures Elements() == old(Elements()) - {x}
      ensures r == if x in old(Elements()) then Removed else KeyError(x)
      ensures x !in old(Elements()) ==>
                table == old(table) && table[..] == old(table[..]) &&
                used == old(used) && size == old(size)
      ensures x in old(Elements()) ==> used == old(used) - 1
      ensures x in old(Elements()) && 4 * used >= old(size) ==>
                table == old(table) && size == old(size) &&
                table[..] == Delete(old(table[..]), hash, x)
      ensures x in old(Elements()) && 4 * used < old(size) ==>
                fresh(table) && size == old(size) / 2 &&
                table[..] == Rehash(Delete(old(table[..]), hash, x), size, hash)
    {
      var b := GetBin(x);
      if x !in b {
        return KeyError(x);
      }
      var index := BinIndex(hash(x), size);
      ghost var before := table[..];
      DeleteKeeps(before, hash, x);
      DeleteMembers(before, hash, x);
      // The source writes `del b[element]`, indexing a list by the element;
      // the intended operation deletes the element from its bin by equality.
      table[index] := RemoveFirst(table[index], x);
      assert table[..] == Delete(before, hash, x);
      used := used - 1;
      // `used < size / 4` and `int(size / 2)` in the source, on floats.
      if 4 * used < size {
        Resize(size / 2);
      }
      r := Removed;
    }
  }

  /** A client run, first half: a set created empty with 4 bins, and three
      additions, the third of which grows it to 8 bins. */
  method ScenarioGrow() returns (s: HashSet<int>)
    ensures s.Valid() && fresh(s) && fresh(s.table)
    ensures s.Elements() == {1, 2, 3} && s.used == 3 && s.size == 8
  {
    s := new HashSet<int>([], 4, x => x);
    assert SetOf<int>([]) == {};
    assert s.Elements() == {} && s.used == 0 && s.size == 4;
    s.Add(1);
    assert s.Elements() == {1} && s.used == 1 && s.size == 4;
    s.Add(2);
    assert s.Elements() == {1, 2} && s.used == 2 && s.size == 4;
    s.Add(3);
    assert s.Contains(2);
  }

  /** A client run, second half: removing a present element, which leaves 8
      bins, and then an absent one, which reports `KeyError`. */
  method ScenarioRemove()
  {
    var s := ScenarioGrow();
    var r := s.Remove(1);
    assert r == Removed && s.Elements() == {2, 3};
    assert s.used == 2 && s.size == 8;
    assert !s.Contains(1);
    r := s.Remove(5);
    assert r == KeyError(5) && s.used == 2 && s.Elements() == {2, 3};
  }
}
