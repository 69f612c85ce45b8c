# Hash set with separate chaining and resizing

This project models `HashSet` from `src/hashset2.py`: a generic set stored in a
hash table of `size` bins, where each bin is a chain (a list) of the elements
whose hash modulo `size` selects it, and `used` counts the stored elements.
`add` appends an absent element to its bin and doubles the table once it is
more than half full. `remove` deletes a present element and halves the table
once it is less than a quarter full. An absent element makes `remove` raise
`KeyError`. `_resize` builds a fresh table and rehashes every element into it.
Membership, emptiness and iteration read the table without changing it.

The model has two modules.

- `Chaining` (`chaining.dfy`) holds the table as a value, a `seq<seq<T>>`. It
  defines the pure counterparts of what the class does in place:
  - `Insert` appends an element to its bin;
  - `RemoveFirst` and `Delete` delete an element from its bin by equality;
  - `Rehash` builds the table a resize produces;
  - `Flatten` is the iteration order.
  Its lemmas prove what each of these keeps: every element sits in its own bin
  (`Placed`), no bin repeats an element (`NoDupBins`), the total length, and the
  set of members.
- `HashSets` (`hashset.dfy`) holds the class `HashSet`. Its fields `size`,
  `used` and `table` (an `array<seq<T>>`, the source's `array`) are updated in
  place, and the element type's hash function is the constant `hash`. The
  structural invariant is `Consistent()`. The object invariant `Valid()` adds
  the load bound `2 * used <= size`. `Add`, `Remove` and `Resize` give their
  new table exactly, as `Insert`, `Delete` or `Rehash` of the old one, and
  say what happens to the set of elements, to `used` and to `size`. Two client
  methods, `ScenarioGrow` and `ScenarioRemove`, follow one run: an empty set of
  4 bins, additions of 1, 2 and 3 (the third grows the table to 8 bins), removal
  of 1, and removal of the absent 5.

The source and its design disagree in four places. The model follows the
intended design, and the code comments at each spot say so:

- The bins are declared `list[list[T]]` (src/hashset2.py:15), but the code
  indexes them like dictionaries keyed by the element:
  - `bin[element] = hash_val` at line 56;
  - `del b[element]` at line 66;
  - `b[x]` and `self.array[index][x] = hash_val` at lines 45-47.
  On lists these lines fail or do something else. The model does what the
  doc-comments and the declared types describe:
  - `add` appends the element to its bin;
  - `remove` deletes the first equal element, as `list.remove` does;
  - `_resize` recomputes `hash(x) % new_size` and appends `x` to that bin.
- The watermark tests use float division. They become the integer tests
  `2 * used > size` (line 58) and `4 * used < size` (line 68). The halved size
  `int(self.size / 2)` (line 69) becomes `size / 2`. For positive sizes these
  give the same results.
- The code keeps no lower bound on the load factor and no minimum table size.
  `__init__` may start with many more bins than elements. `remove` halves the
  table whenever it is less than a quarter full. So the model proves only what
  the code keeps: the upper bound `2 * used <= size`, and `size >= 1`.
- An initial size of 0 with an empty sequence would leave a table of no bins,
  and `hash(x) % self.size` (lines 34, 53) would divide by zero. The
  constructor therefore requires `initialSize >= 1` or a non-empty sequence,
  which is exactly the condition that the size it computes is at least 1.

## Model

| member | source | states |
|---|---|---|
| `Chaining.BinIndex` | src/hashset2.py:33-34 | the bin index `hash % size` lies in `[0, size)` for every hash value, negative ones included |
| `Chaining.RemoveFirst` | src/hashset2.py:66 | deleting by equality from a bin shortens it by one exactly when the element was there, keeps every other element, adds nothing, and on a bin without repeats removes the element entirely and keeps it free of repeats |
| `Chaining.FlattenLength` | src/hashset2.py:71-74 | iteration yields as many elements as all bins hold together, which is the count that `used` must equal |
| `Chaining.InFlatten` | src/hashset2.py:71-74 | an element is yielded by iteration exactly when some bin holds it |
| `Chaining.LookupBin` | src/hashset2.py:80-82 | in a table where every element sits in its own bin, an element is stored exactly when the one bin its hash selects holds it |
| `Chaining.FlattenDistinct` | src/hashset2.py:71-74 | when every element sits in its own bin and no bin repeats an element, iteration yields each element once |
| `Chaining.EmptyTableFlatten` | src/hashset2.py:26 | a table of empty bins holds nothing and has total length 0 |
| `Chaining.DistinctCardinality` | src/hashset2.py:14 | a sequence without repeats has as many distinct elements as entries, so `used` is the number of members |
| `Chaining.InsertKeeps` | src/hashset2.py:53-57 | appending an absent element to its bin keeps every element in its own bin and every bin free of repeats, adds one to the total length, and adds exactly that element |
| `Chaining.InsertMembers` | src/hashset2.py:55-57 | appending an absent element adds exactly it to the set of members |
| `Chaining.DeleteKeeps` | src/hashset2.py:63-67 | deleting a present element from its bin keeps every element in its own bin and every bin free of repeats, takes one from the total length, and removes exactly that element |
| `Chaining.DeleteMembers` | src/hashset2.py:66 | deleting a present element removes exactly it from the set of members |
| `Chaining.AppendAllKeeps` | src/hashset2.py:43-48 | appending distinct elements that are absent from a table, one by one to their bins, keeps every element in its own bin and every bin free of repeats, adds their number to the total length, and adds exactly them |
| `Chaining.RehashKeeps` | src/hashset2.py:37-48 | a resize to `n` bins builds `n` bins in which every element sits in bin `hash % n`, no bin repeats an element, the total length is the old element count, and the elements are exactly the old ones |
| `Chaining.RehashMembers` | src/hashset2.py:37-48 | a resize keeps the set of members |
| `HashSets.HashSet.constructor` | src/hashset2.py:17-29 | the set starts with `max(initialSize, 2 * len(seq))` bins, never grows while the sequence is added, holds exactly the elements of the sequence with repeats collapsed, `used` is their number, and the object invariant holds |
| `HashSets.HashSet.GetBin` | src/hashset2.py:31-35 | every element of the bin returned for `x` has the same bin index as `x`, and `x` is a member exactly when that bin holds it |
| `HashSets.HashSet.Contains` | src/hashset2.py:80-82 | the membership test, which scans one bin, is true exactly when `x` is among the elements of all bins |
| `HashSets.HashSet.NonEmpty` | src/hashset2.py:76-78 | `used > 0` is true exactly when the set holds some element |
| `HashSets.HashSet.Iterate` | src/hashset2.py:71-74 | iteration yields `used` elements, none twice, each one a member by the membership test, and every member among them |
| `HashSets.HashSet.UsedIsCardinality` | src/hashset2.py:13-15 | under the object invariant `used` is the number of elements of the set |
| `HashSets.HashSet.Resize` | src/hashset2.py:37-48 | from a consistent table the nested rehash loop yields a fresh table of `n` bins equal to `Rehash` of the old one, with `size == n`, `used` unchanged and the same elements, and the table stays consistent |
| `HashSets.HashSet.Add` | src/hashset2.py:50-59 | adding keeps the object invariant and makes the elements the old ones plus `x`; a present `x` changes nothing (table, `used`, `size`); an absent one adds 1 to `used` and is appended to its bin in place, or, when that makes the table over half full, the table is the doubled rehash of the appended one |
| `HashSets.HashSet.Remove` | src/hashset2.py:61-69 | removing keeps the object invariant and takes `x` out of the elements; an absent `x` yields `KeyError(x)` and changes nothing (table, `used`, `size`); a present one yields `Removed`, takes 1 from `used` and is deleted from its bin in place, or, when that leaves the table under a quarter full, the table is the halved rehash of the deleted one |

## Left out

- `__repr__` (src/hashset2.py:84-86) is left out. It only formats the set as a string for diagnostics.
- Python's built-in `hash` is not modelled. It is the constant `hash: T -> int`, an arbitrary total function given to the constructor.
- Python's `KeyError` exception becomes the returned value `KeyError(x)` of the datatype `Outcome`.
- The lazy generator of `__iter__` is not modelled, and neither is what happens when the set changes during an iteration. Iteration is the whole flattened sequence of bins, `Iterate`.
- The constructor takes a finite sequence, the result of `list(seq)` at line 19. The default arguments (an empty sequence, 16 bins) are not modelled; every caller passes both.
- `typing` and the generic annotations are not modelled. They become the type parameter `T(==)`.
