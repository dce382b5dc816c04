# chper in Dafny

A verified model of the core of `chper`, a small Go utility package:

- **`CHash`** is a consistent-hash ring. A node registers under a name and
  claims `factor * weight` positions on a ring of `2^32` positions. To do so it
  hashes the candidate keys `name#constinctethashing#0`, `…#1`, and so on,
  skipping every position already taken. A query is served by the first
  stored position strictly above the query's hash, wrapping around to the
  smallest position. The ring keeps three tables: `realNodeMap` (name to
  node record), `virtualNodeMap` (position to owner) and the sorted cache
  `virtualNodeList`.
- **`Ring`** is a fixed-capacity buffer that keeps the most recent pushes in
  push order, overwriting the oldest once full.
- **The slice and map helpers** of `slice.go` and `map.go`: ranges, walks,
  maps and folds, building maps from slices, difference, intersection,
  filling, filtering, merging, padding, reversing, de-duplicating,
  converting, searching, sorting, and the map counterparts.

Modules:

| file | module | contents |
|---|---|---|
| `wrappers.dfy` | `Wrappers` | `Option`, `Result`, `Outcome`, `Min`, `Max` |
| `hash_ring_spec.dfy` | `HashRingSpec` | the ring's tables as values, with their invariant; claiming positions, adding, removing, building, routing; the sorted list |
| `consistent_hashing.dfy` | `ConsistentHashing` | class `CHash`, whose fields are updated in place, proved against `HashRingSpec`; `NewCHash` |
| `ring.dfy` | `RingBuffer` | class `Ring` over an `array`, with a ghost push history |
| `slices.dfy` | `Slices` | the helpers of `slice.go` except sorting |
| `slice_sort.dfy` | `SliceSorting` | `SliceSortF` (in place on an `array`) and `SliceSort` |
| `maps.dfy` | `Maps` | the helpers of `map.go`; class `MapRef` for a Go map updated through a reference |

Modelling choices:

- A Go `uint32` position is an `int` in `[0, 2^32)`.
- A node name is a byte string.
- `indexer`, `nodeNaming` and `weightSpecify` are arbitrary functions carried in the option record.
- Loops over Go maps pick the next key with `:|`, so every contract holds for every iteration order.
- Go's zero value of a type parameter is passed in as `zero` wherever a helper produces it.
- A nil slice or map is `None` only where the Go code tells nil apart from empty.

## Model

| member | source | states |
|---|---|---|
| HashRingSpec.AdaptVirtualNodeFactor | consistenthashing.go:82-93 | A positive factor is kept. Otherwise the factor is at least 5 and at least 1. Up to 300 nodes, factor × nodes lies in `(1500 - nodes, 1500]`; above 300 nodes the factor is exactly 5. |
| HashRingSpec.Decimal | consistenthashing.go:227-229 | The `%d` digits of `i`: at least one ASCII digit, two or more from 10 on, the last one `i % 10`, and no leading zero. |
| HashRingSpec.DecimalInjective | consistenthashing.go:227-229 | Distinct numbers print as distinct digit strings. |
| HashRingSpec.VirtualNodeKey | consistenthashing.go:227-229 | The key is the node name, then the separator `#constinctethashing#`, then the digits of `i`, and nothing else. |
| HashRingSpec.VirtualNodeKeyInjective | consistenthashing.go:227-229 | Distinct indices give one node distinct candidate keys. |
| HashRingSpec.ClaimStop | consistenthashing.go:200-216 | The collision-skipping loop inspects exactly the least number of candidate keys whose positions give `quota` fresh positions. |
| HashRingSpec.Claimed | consistenthashing.go:200-216 | The positions the loop claims are disjoint from the occupied ones. |
| HashRingSpec.ClaimedSize | consistenthashing.go:200-216 | Exactly `quota` positions are claimed, none of them occupied before, each the hash of one of the node's own candidate keys. |
| HashRingSpec.CandidatesAreKeys | consistenthashing.go:201-203 | Every candidate position is the hash of some `name#constinctethashing#i` with `i` below the bound. |
| HashRingSpec.ClaimStep | consistenthashing.go:202-215 | One candidate adds its position to the claimed set exactly when that position is neither occupied nor already claimed. |
| HashRingSpec.ClaimAdvance | consistenthashing.go:201-215 | A step below the quota stays before the stopping point. It either skips (count unchanged) or claims one more position (count + 1), keeping the loop state consistent. |
| HashRingSpec.ClaimDone | consistenthashing.go:201 | When `succCount` reaches the quota, the claimed set is exactly `Claimed`. |
| HashRingSpec.ClaimIterate | consistenthashing.go:201-216 | One whole iteration on the loop state and the map being filled: a hit is skipped; a miss is claimed and stored as a virtual node of the new node. |
| HashRingSpec.StampedStep | consistenthashing.go:208-215 | Storing one new virtual node at a free position extends the stamped map by exactly that position. |
| HashRingSpec.StampedRegister | consistenthashing.go:210-215 | The map the loop fills is the virtual-node table of `Register`. |
| HashRingSpec.OwnershipPartition | consistenthashing.go:210-222 | Under the table invariant, distinct nodes own disjoint position sets, and their union is the key set of `virtualNodeMap`. |
| HashRingSpec.Register | consistenthashing.go:210-222 | Registering keeps every earlier position, adds exactly the claimed ones, and maps each of them to the new node. |
| HashRingSpec.RegisterValid | consistenthashing.go:193-222 | Registering a new name with fresh positions keeps the table invariant. |
| HashRingSpec.RegisterProperties | consistenthashing.go:193-222 | After registering: the invariant holds; the names gain exactly the new one; the new positions are exactly the claimed set, recorded as the node's own; earlier records are untouched. |
| HashRingSpec.UnregisterValid | consistenthashing.go:247-252 | Removal keeps the invariant. It drops exactly the node's record and exactly the positions it owned. Every other record and position is unchanged. |
| HashRingSpec.AddSpec | consistenthashing.go:179-225 | `addNode` fails exactly when the weight is below 1, naming fails, or the name is already registered. |
| HashRingSpec.AddSpecIsRegister | consistenthashing.go:193-222 | A successful add registers the name with the positions `Claimed` gives. |
| HashRingSpec.AddSpecProperties | consistenthashing.go:200-222 | A successful add keeps the invariant and adds exactly `factor * weight` fresh positions, all owned by the new node. Every earlier position and record is unchanged. |
| HashRingSpec.RemoveSpec | consistenthashing.go:239-256 | `removeNode` fails exactly when naming fails or the name is not registered. |
| HashRingSpec.InitStep | consistenthashing.go:150-155 | Building from a node list is adding the first node, then building from the rest; the first error ends the construction. |
| HashRingSpec.InitSpecValid | consistenthashing.go:134-161 | The tables `NewCHash` builds satisfy the invariant. |
| HashRingSpec.RouteDetermined | consistenthashing.go:275-283 | On a non-empty ring every query position is served by exactly one stored position. |
| HashRingSpec.RouteSurvivesRemoval | consistenthashing.go:275-283 | Removing positions other than the serving one does not change which position serves a query. |
| HashRingSpec.RemovalKeepsRoutes | consistenthashing.go:239-256 | After a node is removed, every query not served by it is served by the same position, with the same owner and node. |
| HashRingSpec.InsertByIndex | consistenthashing.go:285-299 | Inserting into the ascending list keeps it strictly ascending by position. It adds exactly the new entry and keeps every old one. |
| HashRingSpec.ListSize | consistenthashing.go:285-293 | The sorted list has exactly one entry per position of `virtualNodeMap`, so it is empty exactly when the map is. |
| ConsistentHashing.CHash.constructor | consistenthashing.go:146-150 | The ring starts with empty tables and an empty list, and satisfies the invariant. |
| ConsistentHashing.CHash.Add | consistenthashing.go:179-225 | Result and new tables agree with `AddSpec`. A failure changes nothing. With `doSort` the list matches the table; without it the list is left as it was. |
| ConsistentHashing.ClaimPositions | consistenthashing.go:200-216 | The loop claims exactly `Claimed(...)` and stores one virtual node of the new node per claimed position, leaving the rest of the map alone. |
| ConsistentHashing.CHash.AddNodeWithWeight | consistenthashing.go:163-169 | As `Add` with the caller's weight. The invariant, including the sorted list, holds afterwards. |
| ConsistentHashing.CHash.AddNode | consistenthashing.go:171-177 | As `Add` with the weight `weightSpecify` gives. The invariant holds afterwards. |
| ConsistentHashing.CHash.RemoveNode | consistenthashing.go:231-256 | Result and new tables agree with `RemoveSpec`, and a failure changes nothing. The invariant holds afterwards, with the list re-sorted. |
| ConsistentHashing.CHash.SortVirtualNode | consistenthashing.go:285-293 | The new list is strictly ascending by position, holds each entry of `virtualNodeMap`, and nothing else. |
| ConsistentHashing.CHash.Search | consistenthashing.go:276-278 | Returns the first index whose position is strictly greater than the query; every earlier position is at most the query. |
| ConsistentHashing.CHash.Find | consistenthashing.go:275-283 | Returns the node owning the stored position that serves the query: the least position strictly above it, or else the least of all. |
| ConsistentHashing.CHash.Hash | consistenthashing.go:258-273 | Fails with "zero node" exactly when the list, equivalently the table, is empty. Otherwise returns the node serving `indexer(data)`. |
| ConsistentHashing.NewCHash | consistenthashing.go:134-161 | Fails on an empty node list. Otherwise the result agrees with `InitSpec` under the adapted factor, and a returned ring is fresh and satisfies the invariant. |
| RingBuffer.WindowPush | ring.go:43-57 | One push appends to the last-`capacity` window of the history, and drops the oldest element once the window is full. |
| RingBuffer.KeepAppend | ring.go:66-68 | Filtering one more element appends it exactly when the filter is nil or accepts it. |
| RingBuffer.KeepAll | ring.go:66 | A nil filter returns every element. |
| RingBuffer.KeepSound | ring.go:64-69 | A filter returns only elements it accepts, returns every accepted element, and returns no more than it was given. |
| RingBuffer.KeepNone | ring.go:64-69 | A filter that rejects everything returns nothing. |
| RingBuffer.ModWrap | ring.go:50 | For indexes below twice the capacity, `i % capacity` is `i` or `i - capacity`. |
| RingBuffer.UnrollExtend | ring.go:64-65 | Reading the slot `(begin + n) % capacity` extends the unrolled contents by one. |
| RingBuffer.KeepNext | ring.go:64-69 | One iteration of the `Elements` loop extends the filtered prefix correctly. |
| RingBuffer.UnrollAppend | ring.go:52-53 | Writing slot `size` of a ring that starts at slot 0 appends to its contents. |
| RingBuffer.UnrollOverwrite | ring.go:46-50 | Overwriting `begin` in a full ring and advancing `begin` drops the oldest element and appends the new one. |
| RingBuffer.Ring.constructor | ring.go:18-30 | Capacity at least 1. The ring starts empty with an empty history and satisfies the invariant. |
| RingBuffer.Ring.Push | ring.go:43-57 | Keeps the invariant that the contents are the last `min(pushes, capacity)` pushes. The contents gain the value, and lose the oldest one when the ring was full; `size` becomes `min(size + 1, capacity)`. |
| RingBuffer.Ring.Elements | ring.go:60-72 | Returns the held elements, oldest first, that the filter keeps (all of them for a nil filter). |
| RingBuffer.Ring.First | ring.go:75-80 | Returns the `begin` slot and whether the ring is non-empty. When it is non-empty, that slot is the oldest retained push. |
| RingBuffer.Ring.Last | ring.go:83-92 | `ok` exactly when non-empty. The value is then the newest push. |
| RingBuffer.Ring.Size | ring.go:95-100 | The number of held elements, `min(pushes, capacity)`. |
| Slices.RangeSizeIsFloorPlusOne | slice.go:30-33 | The ceiling-plus-exact-hit size is the distance over the step rounded down, plus one. |
| Slices.RangeShape | slice.go:16-40 | The range is empty exactly when `stop` is unreachable. Otherwise it starts at `start` and moves by `step`. Every element lies between `start` and `stop`, and one more step would leave that interval. |
| Slices.Range | slice.go:16-40 | The loop builds exactly the specified range (a zero step is the panic). |
| Slices.SliceWalk | slice.go:43-47 | The action is applied to each index and element in order. |
| Slices.WalkVisitsInOrder | slice.go:43-47 | A recording action sees exactly `(0, l0), (1, l1), …`. |
| Slices.SliceMap | slice.go:53-60 | Same length; element `i` is `callback(i, list[i])`. |
| Slices.FoldLeftConcat | slice.go:64-75 | Reducing a concatenation is reducing the second part from the first part's result. |
| Slices.SliceReduce | slice.go:64-75 | The left fold of the callback from the first optional initial value, else the zero value. |
| Slices.SliceCombine | slice.go:79-92 | The keys are the first `min(len(keys), len(values))` keys. A key maps to the value paired with its last occurrence among them. |
| Slices.SliceCountValues | slice.go:96-103 | The keys are the values of the slice, each mapped to its number of occurrences. |
| Slices.ToMapEntries | slice.go:286-296 | The keys are exactly those of non-skipped entries. Each key holds the value of its last non-skipped entry. |
| Slices.Slice2Map | slice.go:286-296 | The loop builds the map that storing the non-skipped entries in order gives. |
| Slices.SliceAsKey | slice.go:106-110 | The keys are the elements of the slice, each mapped to `true`. |
| Slices.SliceFlip | slice.go:196-203 | Each distinct value maps to the index of its last occurrence. |
| Slices.DeleteAll | slice.go:121-128 | Deleting a slice's elements leaves exactly the keys not in it; the early exit happens only once the map is empty. |
| Slices.SliceDiff | slice.go:115-132 | Each distinct element of `as` that occurs in none of `bs`, without duplicates, in an unspecified order. |
| Slices.SliceIntersect | slice.go:135-155 | As written: a value is reported exactly when its counter (1 for being in `sa`, plus its occurrences in `sb`) exceeds 1; no duplicates. |
| Slices.IntersectReportsValueMissingFromSa | slice.go:141-149 | With `sa = [1]` and `sb = [[2, 2]]` the counter of 2 exceeds 1 although 2 is not in `sa`. |
| Slices.SliceIntersectCorrected | slice.go:135-155 | Exactly the distinct values of `sa` that occur in every slice of `sb`; no duplicates. |
| Slices.SliceFill | slice.go:159-169 | `start` zero values followed by `size` copies of `v`. A negative `size` or `start` is the panic. |
| Slices.FilterIndexedSound | slice.go:183-192 | The filter returns only elements accepted at their own index, returns every accepted element, and returns a sub-multiset of the input. |
| Slices.FilterIndexedAll | slice.go:183-192 | A filter accepting everything returns the list unchanged. |
| Slices.SliceFilterF | slice.go:183-192 | The loop builds the in-order sequence of accepted elements. |
| Slices.SliceFilter | slice.go:172-180 | A nil `keepMap` gives nil. Otherwise the result is the elements of `list` that `keepMap` maps to `true` (a missing key reads as `false`), in order and with their repetitions; so every element kept is one `keepMap` accepts, and every such element of `list` is kept. |
| Slices.FlattenLaws | slice.go:206-218 | The merged length is the sum of the lengths, and merging distributes over concatenating the arguments. |
| Slices.SliceMerge | slice.go:206-218 | The concatenation of the slices in argument order. |
| Slices.Repeat | slice.go:241-247 | `n` copies of the pad value. |
| Slices.SlicePad | slice.go:223-250 | Length `max(abs(wantLength), len(list))`. Padding goes on the left for a negative length and on the right otherwise, with the given value or the zero value. A list already that long is copied. |
| Slices.Reverse | slice.go:253-264 | `r[i] == list[len - 1 - i]`. |
| Slices.ReverseInvolution | slice.go:253-264 | Reversing twice gives the list back. |
| Slices.SliceReverse | slice.go:253-264 | Nil stays nil; otherwise the reversed list. |
| Slices.DedupProperties | slice.go:266-282 | No duplicates, the same values as the input, in the order of their first occurrences. |
| Slices.SliceUnique | slice.go:266-282 | Nil stays nil; otherwise the loop keeps each value's first occurrence, in order. |
| Slices.ConvertAllLength | slice.go:299-314 | Conversion keeps at most as many elements as the input, and all of them when none is skipped. |
| Slices.SliceConvert | slice.go:299-314 | Fails exactly when some convertor call errs, returning the first such error. Otherwise it returns the converted non-skipped elements in order. |
| Slices.SliceExistF | slice.go:348-356 | Finds exactly when some element matches, returning the first matching index. Otherwise returns `(0, false)`. |
| Slices.SliceExist | slice.go:359-361 | Finds exactly when `data` occurs, returning its first index. Otherwise returns `(0, false)`. |
| SliceSorting.SliceSortF | slice.go:325-336 | A nil comparison leaves the slice unchanged. Otherwise the slice ends sorted by the comparison, and it is always a permutation of itself. |
| SliceSorting.SliceSort | slice.go:320-322 | The slice ends ascending and is a permutation of itself. |
| SliceSorting.AscendingUnique | slice.go:320-322 | Two ascending sequences with the same elements are equal, so `SliceSort` has one possible outcome. |
| Maps.KeysWithStep | map.go:20-22 | Visiting one more key adds one to the count of its value and leaves every other count alone. |
| Maps.MapKeys | map.go:8-15 | Every key exactly once; length `len(m)`. |
| Maps.MapValues | map.go:18-25 | Each value as often as keys map to it; length `len(m)`. |
| Maps.MapConvertF | map.go:38-56 | Fails exactly when some entry's convertor errs, with one of those errors. Otherwise the keys are the non-skipped ones, holding their converted values. |
| Maps.MapConvertBool | map.go:27-35 | The same keys, every value `true`. |
| Maps.MapCompareF | map.go:62-91 | Exactly the keys only in `a`, only in `b`, and in both with values `isSame` does not equate; every recorded value is `true`. |
| Maps.MapRef.constructor | map.go:110 | A new map with the given contents. |
| Maps.MapRef.Put | map.go:112 | One entry set, the rest unchanged. |
| Maps.Merged | map.go:104-106 | Keys of both maps; `b` wins on a shared key. |
| Maps.PutAll | map.go:120-122 | Copies every entry of the source into the destination, overriding. |
| Maps.MapMerge | map.go:107-125 | The returned map is `a` (nil reads as empty) merged with `b`. In place with a non-nil `a` it is `a` itself; otherwise it is a fresh map and `a` is unchanged. |
| Maps.MapShallowCopy | map.go:140-160 | Nil stays nil. Otherwise the entries the single keep function accepts, with their original values; none when no keep function is given. |
| Maps.MapFilterF | map.go:135-137 | Nil stays nil. A nil `keepFunc` gives an empty map; otherwise exactly the entries `keepFunc` accepts. |
| Maps.MapFilter | map.go:128-132 | Nil stays nil; otherwise exactly the entries whose key `keepMap` maps to `true`. |

## Left out

- Locking: the mutexes of `CHash` and `Ring` are concurrency. Each public method is modelled as the sequential body it guards.
- The default `indexer` (`crc32.ChecksumIEEE`) and `nodeNaming` (`json.Marshal`) are library calls. The option functions `CHashOption…` only set record fields. The model takes the final option record, with arbitrary functions in it.
- `virtualNodeKey` uses `fmt.Sprintf`; the model concatenates the name, the ASCII separator and the decimal digits of `i`.
- ConsistentHashing.CHash.Add: requires `AddTerminates`. The candidate keys must be able to yield `factor * weight` fresh positions, since the Go loop does not terminate otherwise.
- ConsistentHashing.NewCHash: requires the same termination condition for every node, as `InitTerminates`.
- ConsistentHashing.CHash.Add: `factor * weight` is an unbounded integer, so an overflowing Go `int` product is not modelled.
- ConsistentHashing.ClaimPositions: fills a copy of `virtualNodeMap` that the caller then stores, where the Go loop writes the field directly; under the lock nothing can observe the difference.
- Go's `virtualNode` holds a copy of the `realNode` struct, whose position map it shares. The model keeps the owner's name and node in each virtual node, and looks the positions up in `realNodeMap`.
- `sort.Sort` of the virtual nodes is modelled as sorted insertion, and `sort.Search` as a binary search. Both are specified by their outcome, not by the library's algorithm.
- SliceSorting.SliceSortF: sorts by selection, not by the library's algorithm. It promises what `sort.Sort` promises, for a comparison that is a strict weak order: irreflexive, transitive, and with incomparability transitive.
- SliceSorting.SliceSort: only integer slices are modelled. Go's `SliceSort` is generic over every `bigAble` type; strings, bytes and runes order the same way by `<`, and floats with NaN, which are not a strict weak order, are not modelled.
- `MapCompare` and `isSame` use `reflect.DeepEqual`, which has no counterpart here; `MapCompareF` with an arbitrary `isSame` is modelled.
- `Range` over floating-point types is not modelled, nor is overflow of fixed-width integer types; `Range` works on unbounded integers with exact ceiling division.
- `SliceShuffle` relies on `math/rand`.
- Slices.SliceIntersect: the `int8` counter is unbounded here, so its wrap-around after 127 occurrences is not modelled.
- Map iteration order is unspecified in Go. Every contract over a map loop holds for any order, and results built from map loops are specified as sets, not fixed sequences.
- A nil slice passed as an empty one behaves the same in every helper except those that test for nil, which take an `Option`. Results are not told apart as nil or empty where no caller can tell.
- Callbacks are total, pure functions. `SliceWalk`'s action, which in Go updates captured variables, is a function from the old state to the new one.
- RingBuffer.Ring.Last: on an empty ring it returns the `begin` slot, which only ever holds the slot's initial value and stands for Go's zero value.
- The statistical balance of positions across nodes depends on the concrete hash and is not a property of the model.

## Findings

| source | as written | input that shows it | evidently intended | confidence | as-written member | corrected member |
|---|---|---|---|---|---|---|
| slice.go:135-155 | A value is reported when its counter exceeds 1. `sa` contributes 1 and every occurrence in any slice of `sb` adds 1, so a value repeated inside `sb` is reported although it is not in `sa`. A value of `sa` that occurs in just one of several `sb` slices is reported too. | `sa = [1]`, `sb = [[2, 2]]` gives `[2]` | The values of `sa` that occur in every slice of `sb`, as the tests in slice_test.go:177-224 expect | not executed | Slices.SliceIntersect, Slices.IntersectReportsValueMissingFromSa | Slices.SliceIntersectCorrected |
