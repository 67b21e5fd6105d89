# MapReduce map and shuffle phases in Dafny

This project models the two sequential pieces of a single-process MapReduce
framework written in Java: the shuffle phase (`Shuffler`) and the way the
map phase (`Mapper`) collects its results.

- **Shuffler** (`Shuffler.dfy`). `shuffle` walks the mapped (key, value)
  pairs and fills a hash map from each key to the list of its values, in the
  order the pairs are met. It then copies the map's entries into a list, in the
  map's own unspecified order, and sorts that list by key. The model keeps the
  three steps as three loops: `GroupByKey` over a `map<JString, seq<V>>`,
  `ListEntries`, which picks the map's keys in an arbitrary order, and
  `SortByKey`, an insertion sort. The predicate `IsShuffleOf` states what
  the result must be: keys strictly ascending, exactly the keys of the input,
  and each key's values in input order. Lemmas prove that this predicate fixes
  the result uniquely, and that no pair is lost or duplicated. Further lemmas
  show that no key repeats, every group is non-empty, empty input gives empty
  output, and shuffling again changes nothing.
- **Java strings** (`JavaString.dfy`). Keys are Java strings: sequences of
  UTF-16 code units, ordered by `String.compareTo`. `CompareTo` follows the
  JDK's definition: the difference of the first differing code units, or else
  the difference of the lengths. Lemmas prove that this is a strict total
  order.
- **Pairs** (`Pairs.dfy`). The key/value pair, and the specification
  functions over sequences of pairs: keys, the values of one key, selection
  by key, and flattening groups back into pairs.
- **Mapper** (`Mapper.dfy`). A class with the source's `futures` and
  `output` lists as sequence fields, the abstract `map` as the function
  `mapLine`, and the executor's shut-down state. `Execute` submits one task
  per line. `CollectResults` waits on the futures in submission order and
  appends every returned pair. It drops a `null` result and skips a task that
  threw. The function `Collected` specifies what is kept, and lemmas state how
  it behaves.

The thread pool is abstracted away. Each future is represented by the outcome
that waiting on it reports: the pair that `map` returned, `null`, or an
exception. Tasks are taken in submission order, which is the order in which
the source reads them.

Three behaviours of the code are worth stating outright:

- The collected pairs are in input-line order, because `collectResults` walks
  the futures in submission order (Mapper.java:43).
- A task that throws is dropped after its stack trace is printed
  (Mapper.java:50-52); nothing reports it.
- The shuffle does not reject a `null` key up front (see "Left out").

## Model

| member | source | states |
|---|---|---|
| Shuffler.Execute | trunk/src/main/java/uk/co/streefland/rhys/mapreduce/framework/Shuffler.java:19-24 | `execute` returns the shuffle of its input: the keys strictly ascending, exactly the input's keys, and each key's values in input order |
| Shuffler.Shuffle | trunk/src/main/java/uk/co/streefland/rhys/mapreduce/framework/Shuffler.java:32-66 | `shuffle` (group into a hash map, list the entries, sort by key) yields a result satisfying `IsShuffleOf` for its input |
| Shuffler.GroupByKey | trunk/src/main/java/uk/co/streefland/rhys/mapreduce/framework/Shuffler.java:38-52 | after the grouping loop the map's keys are exactly the input's keys, and each key's list is the values paired with it, in the order they were met |
| Shuffler.ListEntries | trunk/src/main/java/uk/co/streefland/rhys/mapreduce/framework/Shuffler.java:55-60 | the copy loop lists every key of the map once, with the map's list for it, in some order |
| Shuffler.SortByKey | trunk/src/main/java/uk/co/streefland/rhys/mapreduce/framework/Shuffler.java:63 | sorting by key gives a permutation of the list in which no key sorts before the key of an earlier group |
| Shuffler.InsertKeepsSorted | trunk/src/main/java/uk/co/streefland/rhys/mapreduce/framework/Shuffler.java:63 | inserting a group after the keys it does not sort before, and before the first key it does, keeps the list sorted |
| Shuffler.SortedEntriesAreShuffle | trunk/src/main/java/uk/co/streefland/rhys/mapreduce/framework/Shuffler.java:55-63 | sorting the listed entries of the grouping map gives the shuffle of the input, with keys strictly ascending because no key repeats |
| Shuffler.ShuffleKeysDistinct | trunk/src/main/java/uk/co/streefland/rhys/mapreduce/framework/Shuffler.java:43-51 | each key occurs at most once in the output |
| Shuffler.ShuffleGroupsNonEmpty | trunk/src/main/java/uk/co/streefland/rhys/mapreduce/framework/Shuffler.java:43-46 | every output group holds at least one value, since a list is created holding its first value |
| Shuffler.ShuffleConservesPairs | trunk/src/main/java/uk/co/streefland/rhys/mapreduce/framework/Shuffler.java:38-52 | flattening the output gives back the input pairs as a multiset, and the group sizes add up to the number of input pairs |
| Shuffler.SortedKeysUnique | trunk/src/main/java/uk/co/streefland/rhys/mapreduce/framework/Shuffler.java:63 | two strictly sorted group lists with the same key set list the keys in the same order |
| Shuffler.ShuffleUnique | trunk/src/main/java/uk/co/streefland/rhys/mapreduce/framework/Shuffler.java:55-63 | the output is determined by the input alone, whatever order the hash map lists its entries in |
| Shuffler.ShuffleIdempotent | trunk/src/main/java/uk/co/streefland/rhys/mapreduce/framework/Shuffler.java:32-66 | shuffling the flattened output of a shuffle gives the same groups back |
| Shuffler.ShuffleOfEmpty | trunk/src/main/java/uk/co/streefland/rhys/mapreduce/framework/Shuffler.java:34-38 | the output is empty exactly when the input is empty |
| Shuffler.ShuffleExample | trunk/src/main/java/uk/co/streefland/rhys/mapreduce/framework/Shuffler.java:32-66 | the pairs ("A", 1), ("B", 2), ("A", 3) shuffle to ("A", [1, 3]), ("B", [2]) |
| JavaString.CompareTo | trunk/src/main/java/uk/co/streefland/rhys/mapreduce/framework/Shuffler.java:63 | `String.compareTo` as in the JDK: when one string is a prefix of the other, the result is the difference of the lengths |
| JavaString.CompareToFirstDifference | trunk/src/main/java/uk/co/streefland/rhys/mapreduce/framework/Shuffler.java:63 | at the first position where two strings differ, `compareTo` is the difference of the code units there |
| JavaString.CompareToZero | trunk/src/main/java/uk/co/streefland/rhys/mapreduce/framework/Shuffler.java:63 | `compareTo` is zero exactly for equal strings |
| JavaString.CompareToAntisymmetric | trunk/src/main/java/uk/co/streefland/rhys/mapreduce/framework/Shuffler.java:63 | swapping the operands of `compareTo` negates the result |
| JavaString.LessIrreflexive | trunk/src/main/java/uk/co/streefland/rhys/mapreduce/framework/Shuffler.java:63 | no key sorts before itself |
| JavaString.LessTrichotomy | trunk/src/main/java/uk/co/streefland/rhys/mapreduce/framework/Shuffler.java:63 | two keys are equal or one sorts strictly before the other, and never both ways |
| JavaString.LessTransitive | trunk/src/main/java/uk/co/streefland/rhys/mapreduce/framework/Shuffler.java:63 | the key order is transitive |
| Pairs.ValuesOf | trunk/src/main/java/uk/co/streefland/rhys/mapreduce/framework/Shuffler.java:43-50 | the values of a key are at most as many as the pairs, and there is at least one exactly when the key occurs |
| Pairs.ValuesOfSnoc | trunk/src/main/java/uk/co/streefland/rhys/mapreduce/framework/Shuffler.java:43-50 | meeting one more pair appends its value to its own key's list and leaves every other key's list unchanged |
| Pairs.Select | trunk/src/main/java/uk/co/streefland/rhys/mapreduce/framework/Shuffler.java:38-52 | selecting by a key set keeps exactly the pairs whose key is in the set, and adds none |
| Pairs.ExpandValuesOf | trunk/src/main/java/uk/co/streefland/rhys/mapreduce/framework/Shuffler.java:43-50 | a key's values, paired with that key again, are exactly the input pairs with that key, in order |
| Pairs.SelectUnion | trunk/src/main/java/uk/co/streefland/rhys/mapreduce/framework/Shuffler.java:38-52 | selecting the keys of two disjoint sets selects each pair once and loses none |
| Pairs.SelectAll | trunk/src/main/java/uk/co/streefland/rhys/mapreduce/framework/Shuffler.java:38-52 | selecting every key that occurs keeps the whole input |
| Pairs.UngroupSelects | trunk/src/main/java/uk/co/streefland/rhys/mapreduce/framework/Shuffler.java:38-60 | flattening groups with distinct keys, each holding its key's values, gives the input pairs with those keys, as a multiset |
| Pairs.Ungroup | trunk/src/main/java/uk/co/streefland/rhys/mapreduce/framework/Shuffler.java:55-60 | flattening groups yields as many pairs as the groups hold values |
| Pairs.KeysOfUngroup | trunk/src/main/java/uk/co/streefland/rhys/mapreduce/framework/Shuffler.java:43-46 | flattening non-empty groups yields exactly their keys |
| Pairs.ValuesOfUngroup | trunk/src/main/java/uk/co/streefland/rhys/mapreduce/framework/Shuffler.java:43-50 | flattening groups with distinct keys gives each key back exactly its group's values, in order |
| Pairs.KeysOfEmpty | trunk/src/main/java/uk/co/streefland/rhys/mapreduce/framework/Shuffler.java:34-38 | only the empty sequence has no keys |
| Mapper.Collected | trunk/src/main/java/uk/co/streefland/rhys/mapreduce/framework/Mapper.java:43-49 | no more pairs are collected than there are tasks |
| Mapper.CollectedAppend | trunk/src/main/java/uk/co/streefland/rhys/mapreduce/framework/Mapper.java:43-53 | collecting two runs of outcomes one after the other collects each in turn |
| Mapper.CollectedSkips | trunk/src/main/java/uk/co/streefland/rhys/mapreduce/framework/Mapper.java:44-52 | a returned pair is appended, a `null` result is dropped, and a failed task is skipped while collecting goes on with the tasks after it |
| Mapper.CollectedMembers | trunk/src/main/java/uk/co/streefland/rhys/mapreduce/framework/Mapper.java:45-49 | a pair is collected exactly when some task returned it |
| Mapper.CollectedAll | trunk/src/main/java/uk/co/streefland/rhys/mapreduce/framework/Mapper.java:43-49 | the output is as long as the input exactly when every task returned a pair |
| Mapper.CollectExample | trunk/src/main/java/uk/co/streefland/rhys/mapreduce/framework/Mapper.java:41-53 | with `map` returning `null` for "skip", throwing for "bad" and pairing other lines with their length, the lines "x", "skip", "bad", "y" yield ("x", 1), ("y", 1) |
| Mapper.Mapper.constructor | trunk/src/main/java/uk/co/streefland/rhys/mapreduce/framework/Mapper.java:17-19 | a new mapper has no futures, no output and a live executor |
| Mapper.Mapper.Execute | trunk/src/main/java/uk/co/streefland/rhys/mapreduce/framework/Mapper.java:26-35 | one task per line is appended to `futures`, and `output` gains the collected pairs of all futures, old ones included. The result is `output` itself. Once the executor is shut down, a non-empty input is rejected and nothing changes |
| Mapper.Mapper.CollectResults | trunk/src/main/java/uk/co/streefland/rhys/mapreduce/framework/Mapper.java:41-56 | the list passed in is kept as a prefix, followed by the returned pairs of the futures in submission order. The executor is shut down afterwards |
| Mapper.MapBatch | trunk/src/main/java/uk/co/streefland/rhys/mapreduce/framework/Mapper.java:17-35 | a fresh mapper run over the lines returns exactly the pairs `map` returned, in line order, and no more of them than there are lines |

## Left out

- Threads: the executor, the pool size `Driver.MAPPER_THREADS`, the blocking `future.get()` and interruption. Tasks are evaluated one after another in submission order. Interruption is not modelled. In the source an interrupted wait skips that future even when `map` returned a pair.
- `map` is taken as a pure function of its line. Side effects and shared state inside a concrete mapper are not modelled, and neither are exception causes.
- `e.printStackTrace()` is output only. A failed task is modelled as skipped.
- Mapper.Mapper.CollectResults: in the source it appends in place to the list object it is given. The model returns the extended sequence, and `Execute` stores that back into `output`. Aliasing between the returned list and the field is therefore shown as equal values, not as one object.
- The runtime casts `(String) p.getKey()` and `(Pair) future.get()`: keys and values are statically typed. A `null` key is not modelled. In the source such a key is grouped by the hash map, and the sort throws `NullPointerException` once there are at least two groups.
- The hash map's iteration order: `ListEntries` picks the keys in an arbitrary order. `ShuffleUnique` shows that the result does not depend on that order.
- Shuffler.SortByKey: does not state that `List.sort` is stable. The keys it sorts are distinct, so stability has no effect on the result.
- `Pair.java` is not part of this model. The pair is declared here as an immutable datatype.
- `AirportFlightCounter.java`, `Output.java` and `Airport.java` are not part of this model. They handle console, text-file and PDF output, and a record that parses floating point; none of this has logic of the core.
