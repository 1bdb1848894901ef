# rangetools, modelled in Dafny

`rangetools` is a Rust library that treats one-dimensional ranges of integers as sets. The model has four layers:

- **Bounds.** A finite bound is `Included(v)` or `Excluded(v)`. The model covers the library's single order on bounds and its `max_start` / `min_end` combinators.
- **Range shapes.** `BoundedRange`, `LowerBoundedRange`, `UpperBoundedRange`, and the marker shapes `UnboundedRange` and `EmptyRange`. This includes their conversions from the standard ranges, `contains`, `is_empty` and the range iterators.
- **Set shapes.** Each set shape keeps a sorted list of non-empty, non-overlapping finite pieces, plus the half-infinite ranges at its ends. The shapes are `BoundedSet`, `LowerBoundedSet`, `UpperBoundedSet` and `UnboundedSet` (`Full` or `Piecewise`). Each has a normalising insert (`add_range`, `add_set`, …), and `defragment` absorbs pieces into the extremal ranges.
- **The `Rangetools` operations.** `intersection`, `disjoint`, `intersects`, `union` and `complement`, over every pair of operand types: the standard ranges and the library's own shapes.

Integers are unbounded here. The `Step` trait (src/step.rs) is modelled separately, with its fixed widths and casts written out.

Each value type is a Dafny `datatype` with a `Contains` predicate and, for the set shapes, a `Valid` invariant. The invariant says the pieces are non-empty, sorted by start, and pairwise non-intersecting.

The normalisers that the library runs in place (`add_range`, `defragment`, …) are modelled in two parts:

- **A specification function.** It is proved to keep membership and the invariant.
- **A class with the mutating methods.** It holds a mutable cell. Each method is proved to leave the cell holding exactly what the specification function computes. The loops in `defragment`, `add_set` and the iterators carry their own invariants.

Every operation's result is proved to hold exactly the values the library documents:

- **intersection:** the values in both operands;
- **union:** the values in either operand;
- **complement:** every value not in the operand.

Every result is also proved to satisfy the set invariant. For the three extremal shapes that invariant covers the finite pieces only. A second predicate, `Settled`, says that `defragment` has nothing left to do: no piece meets the half-infinite range at either end, and an `UnboundedSet`'s head and tail leave a gap. `Settled` is proved for every extremal `add_range`, `add_lower_bounded_range`, `add_upper_bounded_range` and `defragment`. `add_set` keeps it, and so do the unions and the extremal intersections and complements built from these. The few operations for which it is not proved are named under "## Left out".

#### Readings where the source is ambiguous

The source files mix snapshots. The model picks one consistent reading:

- **Bound orders.**
  - Ends use the library's single order, in which `Included(x) > Excluded(x)` (src/bound.rs:32-60).
  - Starts use the order in which `Included(x)` comes first (`Bounds.StartLe`). Wherever the library takes the min of two starts, the model uses this order's min.
  - These two orders are what the `LowerBound` / `UpperBound` wrappers of the newer snapshot stand for (src/implementations/rangetools/bounded_range.rs:5, src/lib.rs:103).
- **`is_empty` of a `BoundedRange`.** It is the tag-aware rule of src/implementations/rangetools/bounded_range.rs:4-11. The single-order rule of src/bounded_range.rs:40-42 is `Ranges.IsEmptyBySingleOrder`, which is proved to imply it.
- **Ends against starts.** The comparisons between an end and a start in src/unbounded_set.rs:51,60,151 are read as `Bounds.Abuts`: the two bounds overlap or meet at one value. In a dense order that means no value lies between them. Over the integers it is stricter: `..=4` and `5..` leave no integer between them, yet they do not abut. So `defragment` keeps such a head and tail apart, and a Piecewise set can hold every integer without being Full. The literal code behaves the same way. The reading also merges in the opposite case, an end Excluded(x) against a start Included(x) such as `..5` with `5..`: the single-order test `upper.end >= lower.start` is false there, so the literal code keeps a Piecewise set (and leaves a piece `5..=7` apart from the head `..5`), while the model collapses it to Full (and absorbs the piece). Membership is the same; the stored shape, which `PartialEq` compares, differs.
- **Helpers used but not shown.**
  - `combine` is the hull of two intersecting ranges (`RangeMeets.Hull`).
  - `flipped` swaps the tag and keeps the value (`Bounds.Flip`).

Where the literal code loses or adds values, it is modelled as written as well, beside the corrected definition. Those cases are listed under "## Findings".

The Rust method resolution matters here. On a concrete `BoundedRange`, `r.is_empty()` calls the inherent single-order method (src/bounded_range.rs:40-42). Generic code such as `disjoint` (src/lib.rs:141) calls the tag-aware trait method.

## Model

| member | source | states |
|---|---|---|
| Bounds.FromStd | src/bound.rs:7-15 | converting a standard bound keeps its tag and value; only `Unbounded` maps to `Unbounded` |
| Bounds.BoundedPart | src/bound.rs:17-24 | `bounded` is None exactly for `Unbounded`, and otherwise returns the finite bound it wraps |
| Bounds.Compare | src/bound.rs:32-54 | equal tags compare by value; at equal values Included is greater than Excluded; otherwise the values decide; Equal only for identical bounds |
| Bounds.Shifted | src/bound.rs:62-68 | `add_assign` adds to the value and keeps the tag, so the set of admitted values shifts by the same amount |
| Bounds.MaxStart | src/bound.rs:77-89 | `max_start` returns one of its arguments, is above both in the start order, and a value passes it exactly when it passes both starts |
| Bounds.MinEnd | src/bound.rs:90-102 | `min_end` returns one of its arguments, is below both, and a value passes it exactly when it passes both ends |
| Bounds.StartMin | src/lower_bounded_set.rs:43 | the min of two starts in the start order: a value passes it exactly when it passes either start |
| Bounds.EndMax | src/upper_bounded_set.rs:38 | the max of two ends in the single order: a value passes it exactly when it passes either end |
| Bounds.SingleMin | src/lower_bounded_set.rs:53 | `Ord::min` in the single order as the library applies it to starts: one of the arguments, below both in that order |
| Bounds.Flip | src/implementations/complement/bounded_range.rs:10 | a flipped start admits exactly the values the original end rejects, and a flipped end those the original start rejects |
| Bounds.Abuts | src/unbounded_set.rs:51 | an end and a start that abut leave no value outside both |
| Bounds.LeIsTotalOrder | src/bound.rs:56-60 | the single order is reflexive, antisymmetric, transitive and total, and `Less`/`Greater` are mirror images |
| Bounds.StartLeIsTotalOrder | src/bound.rs:77-89 | the start order used for starts is a total order as well |
| Bounds.StartLeAgreesWithLe | src/bound.rs:38-51 | the two orders agree except on an Included/Excluded tie, where they are opposite |
| Bounds.MaxStartMinEndCommute | src/bound.rs:77-102 | `max_start` and `min_end` are commutative and resolve an Included/Excluded tie to the Excluded bound |
| Bounds.SingleMinIsMinEnd | src/implementations/intersection/upper_bounded_range.rs:56-58 | `min` of two ends in the single order is `min_end`, so UpperBoundedRange ∩ UpperBoundedRange is exact |
| Bounds.FlipInvolutive | src/implementations/complement/bounded_range.rs:10 | flipping twice gives the bound back |
| Ranges.FromRange | src/bounded_range.rs:9-16 | `a..b` becomes (Included a, Excluded b) and holds exactly a <= t < b |
| Ranges.Contains | src/bounded_range.rs:44-54 | the start's predicate (t > s when Excluded, t >= s when Included) and the end's (t < e when Excluded, t <= e when Included) both hold; no ensures, its properties are the membership clauses of the range functions |
| Ranges.FromRangeInclusive | src/bounded_range.rs:18-26 | `a..=b` becomes (Included a, Included b) and holds exactly a <= t <= b |
| Ranges.IsEmpty | src/implementations/rangetools/bounded_range.rs:4-11 | a range is non-empty exactly when start < end, or start == end with both Included; an empty range holds no value |
| Ranges.IsEmptyBySingleOrder | src/bounded_range.rs:40-42 | emptiness by `start > end` in the single order implies the tag-aware emptiness |
| Ranges.SingleOrderEmptinessGap | src/implementations/rangetools/bounded_range.rs:7-9 | the two emptiness rules differ exactly on ranges whose start is Excluded at the end's value |
| Ranges.Elements | src/bounded_range.rs:62-96 | the values an iterator over a range yields: ascending by one from the first member, and exactly the range's members |
| Ranges.FromRangeFrom | src/lower_bounded_range.rs:8-14 | `a..` becomes Included(a) and holds exactly a <= t |
| Ranges.LowerContainsReadings | src/lower_bounded_range.rs:25-27 | `t >= start.t()` as written differs from the tag-aware membership exactly at the value of an Excluded start |
| Ranges.LowerContainsAsWritten | src/lower_bounded_range.rs:25-27 | `t >= start.t()`, whatever the start's tag, as the library writes it; no ensures, `LowerContainsReadings` relates it to `LowerContains` |
| Ranges.LowerContains | src/bounded_range.rs:45-48 | the tag-aware start predicate, the membership the set algebra uses for a lower-bounded range; no ensures, properties in `LowerContainsReadings` and `FromRangeFrom` |
| Ranges.FromRangeTo | src/upper_bounded_range.rs:8-14 | `..b` becomes Excluded(b) and holds exactly t < b |
| Ranges.FromRangeToInclusive | src/upper_bounded_range.rs:16-22 | `..=b` becomes Included(b) and holds exactly t <= b |
| Ranges.UpperContains | src/upper_bounded_range.rs:33-38 | t < x for an Excluded(x) end and t <= i for an Included(i) end; no ensures, properties in `FromRangeTo` and `FromRangeToInclusive` |
| RangeMeets.MeetBounded | src/implementations/intersection/bounded_range.rs:12-18 | BoundedRange ∩ BoundedRange (max_start, min_end) holds exactly the values in both |
| RangeMeets.MeetBoundedLower | src/implementations/intersection/bounded_range.rs:38-43 | BoundedRange ∩ LowerBoundedRange keeps the end and holds exactly the values in both |
| RangeMeets.MeetBoundedUpper | src/implementations/intersection/bounded_range.rs:63-68 | BoundedRange ∩ UpperBoundedRange keeps the start and holds exactly the values in both |
| RangeMeets.MeetLower | src/implementations/intersection/lower_bounded_range.rs:23-28 | LowerBoundedRange ∩ LowerBoundedRange holds exactly the values in both |
| RangeMeets.MeetLowerUpper | src/implementations/intersection/lower_bounded_range.rs:37-39 | LowerBoundedRange ∩ UpperBoundedRange is a bounded range holding exactly the values in both |
| RangeMeets.MeetUpper | src/implementations/intersection/upper_bounded_range.rs:56-58 | UpperBoundedRange ∩ UpperBoundedRange ends at `min_end` and holds exactly the values in both |
| RangeMeets.MeetBoundedCommutes | src/implementations/intersection/bounded_range.rs:12-18 | bounded ∩ bounded is commutative |
| RangeMeets.Intersects | src/lib.rs:153-160 | two bounded ranges intersect when their meet is not empty by the tag-aware rule, the `intersects` that src/bounded_set.rs:66 uses; no ensures, properties in `IntersectsNonEmpty`, `IntersectsSymmetric` and `SameStartIntersects` |
| RangeMeets.IntersectsNonEmpty | src/lib.rs:153-160 | two bounded ranges that intersect are both non-empty |
| RangeMeets.IntersectsSymmetric | src/lib.rs:153-160 | `intersects` on bounded ranges is symmetric |
| RangeMeets.SameStartIntersects | src/bounded_set.rs:66 | two non-empty ranges with the same start intersect |
| RangeMeets.Hull | src/bounded_set.rs:67 | `combine` starts no later and ends no earlier than either range, and for intersecting ranges holds exactly the values of either |
| RangeMeets.HullCovers | src/bounded_set.rs:67 | a value in the hull of two intersecting ranges lies in one of them |
| RangeIterators.BoundedRangeIter.constructor | src/bounded_range.rs:29-31 | the iterator starts with the range's own bounds |
| RangeIterators.BoundedRangeIter.Next | src/bounded_range.rs:62-96 | `next` returns None exactly when the range has no values, changing nothing; otherwise it returns the least member, advances the start by one keeping its tag, and leaves the remaining values |
| RangeIterators.AdvancedElements | src/bounded_range.rs:68 | advancing a non-empty range's start by one drops exactly its first value |
| RangeIterators.LowerBoundedRangeIter.constructor | src/lower_bounded_range.rs:17-19 | the iterator starts at the range's start |
| RangeIterators.LowerBoundedRangeIter.Next | src/lower_bounded_range.rs:39-50 | `next` never returns None; it returns the least member (start, or start+1 when Excluded), shifts the start by one keeping the tag, and the range loses exactly that value |
| BoundedSets.Empty | src/bounded_set.rs:56-60 | `empty()` has no pieces, is valid and holds nothing |
| BoundedSets.Contains | src/bounded_set.rs:96-98 | some stored range contains t; no ensures, properties in the membership clauses of `WithRange`, `WithSet` and `IsEmptySet` |
| BoundedSets.FromRange | src/bounded_set.rs:22-30 | converting a range gives a valid set holding exactly its values, and no pieces exactly when the range is empty |
| BoundedSets.IsEmptySet | src/implementations/rangetools/bounded_set.rs:4-6 | an empty set holds nothing, and a valid set is empty exactly when it has no pieces |
| BoundedSets.FindIntersecting | src/bounded_set.rs:66 | `position` of the first stored piece that intersects the new range, or the length when none does |
| BoundedSets.InsertPosition | src/bounded_set.rs:71-75 | the first position whose piece starts after the new range, or the length, so earlier pieces start no later |
| BoundedSets.Remove | src/bounded_set.rs:68 | removing one piece leaves one piece fewer |
| BoundedSets.RemoveContains | src/bounded_set.rs:68 | a value is in the set exactly when it is in the removed piece or in what remains |
| BoundedSets.RemoveValid | src/bounded_set.rs:68 | removing a piece keeps the invariant |
| BoundedSets.InsertValid | src/bounded_set.rs:71-76 | inserting a non-empty range that meets no piece at its start position keeps the invariant |
| BoundedSets.AfterInsertPosition | src/bounded_set.rs:71-76 | the pieces after the insert position start after the new range and do not meet it |
| BoundedSets.InsertAtValid | src/bounded_set.rs:76 | inserting between smaller and larger apart pieces keeps the invariant |
| BoundedSets.InsertContains | src/bounded_set.rs:76 | after the insert the set holds its old values and exactly the new range's |
| BoundedSets.WithRange | src/bounded_set.rs:64-79 | `add_range` holds the old values or the range's, and keeps the invariant |
| BoundedSets.WithSet | src/bounded_set.rs:80-84 | `add_set` holds the values of either set, and keeps the invariant |
| BoundedSets.BoundedSetCell.constructor | src/bounded_set.rs:17-20 | the cell holds the given set |
| BoundedSets.BoundedSetCell.AddRange | src/bounded_set.rs:64-79 | removing the intersecting piece and re-adding the hull, in place and recursively, leaves the cell at `WithRange` of the old set |
| BoundedSets.BoundedSetCell.AddSet | src/bounded_set.rs:80-84 | the in-place loop over the other set's pieces leaves the cell at `WithSet` of the old set |
| BoundedSetIterators.Pieces | src/bounded_set.rs:38-42 | `into_iter` makes one iterator per piece, in order, each over that piece's values |
| BoundedSetIterators.PiecesYieldMembers | src/bounded_set.rs:123-133 | the values the set iterator yields are exactly the set's members |
| BoundedSetIterators.EarlierPieceBelow | src/bounded_set.rs:18 | every value of an earlier, apart piece is below every value of a later one |
| BoundedSetIterators.FirstPieceBelowRest | src/bounded_set.rs:18 | in a valid set every value of the first piece is below every value of the rest |
| BoundedSetIterators.PiecesAscending | src/bounded_set.rs:123-133 | a valid set's iterator yields strictly ascending values |
| BoundedSetIterators.BoundedSetIter.constructor | src/bounded_set.rs:38-42 | the iterator holds one per-piece iterator for each piece |
| BoundedSetIterators.BoundedSetIter.Next | src/bounded_set.rs:123-133 | `next` skips exhausted pieces and yields the first remaining value, or None with nothing left |
| BoundedSetIterators.BoundedSetIter.NextBack | src/bounded_set.rs:187-197 | `next_back` yields the last remaining value and drops it, or None with nothing left |
| BoundedSetIterators.BoundedSetIter.SizeHint | src/bounded_set.rs:135-138 | `size_hint` is exact: (n, Some(n)) for the n remaining values |
| BoundedSetIterators.BoundedSetIter.Count | src/bounded_set.rs:140-145 | `count` is the number of remaining values |
| BoundedSetIterators.BoundedSetIter.Last | src/bounded_set.rs:147-160 | `last` is the last remaining value, None exactly when none remain |
| BoundedSetIterators.BoundedSetIter.Nth | src/bounded_set.rs:162-172 | `nth(n)` skips whole pieces, yields the n-th remaining value and drops it and those before it, or None and nothing left |
| BoundedSetIterators.BoundedSetIter.NthBack | src/bounded_set.rs:199-209 | `nth_back(n)` yields the n-th value from the back and drops it and those after it, or None and nothing left |
| BoundedSetIterators.BoundedSetIter.Min | src/bounded_set.rs:174-176 | `min` is the first remaining value, None exactly when none remain |
| BoundedSetIterators.BoundedSetIter.Max | src/bounded_set.rs:178-180 | `max` is the last remaining value, None exactly when none remain |
| BoundedSetIterators.LowerBoundedSetIter.constructor | src/lower_bounded_set.rs:18-27 | iteration over a LowerBoundedSet starts from its pieces' iterators and its tail |
| BoundedSetIterators.LowerBoundedSetIter.Next | src/lower_bounded_set.rs:22-26 | `next` never returns None: the pieces' next value while any remain, then the tail's least value, shifting the tail's start |
| LowerBoundedSets.FromLower | src/lower_bounded_set.rs:9-16 | converting a LowerBoundedRange gives that tail with no pieces, valid, holding exactly the range's values |
| LowerBoundedSets.Contains | src/lower_bounded_set.rs:62-64 | the tail or one of the pieces contains t; no ensures, properties in the membership clauses of `Defragmented`, `WithRange`, `WithLower` and `WithSet` |
| LowerBoundedSets.Absorb | src/lower_bounded_set.rs:42-43 | absorbing a piece that meets the tail gives a tail holding the values of either |
| LowerBoundedSets.DropLastContains | src/lower_bounded_set.rs:42 | popping the last piece splits membership into that piece or the rest, and keeps the invariant |
| LowerBoundedSets.Defragmented | src/lower_bounded_set.rs:30-46 | `defragment` keeps membership and the invariant, keeps a prefix of the pieces, and ends with the last piece apart from the tail |
| LowerBoundedSets.DefragmentedUnfolds | src/lower_bounded_set.rs:31-44 | `defragment` stops at no pieces or when the last piece does not meet the tail, and otherwise pops it and lowers the tail's start |
| LowerBoundedSets.SettledApart | src/lower_bounded_set.rs:30-46 | in a valid set that `defragment` has settled, no piece meets the tail, the earlier pieces included |
| LowerBoundedSets.WithRange | src/lower_bounded_set.rs:48-51 | `add_range` holds the old values or the range's, keeps the invariant, and always leaves a settled set |
| LowerBoundedSets.WithLower | src/lower_bounded_set.rs:52-55 | `add_lower_bounded_range` holds the old values or the range's, and leaves a valid, defragmented set |
| LowerBoundedSets.WithSet | src/lower_bounded_set.rs:56-60 | `add_set` holds the values of either, keeps the invariant, and is settled when the set was or a piece was added |
| LowerBoundedSets.LowerBoundedSetCell.constructor | src/lower_bounded_set.rs:4-7 | the cell holds the given set |
| LowerBoundedSets.LowerBoundedSetCell.Defragment | src/lower_bounded_set.rs:30-46 | the in-place loop leaves the cell at `Defragmented` of the old set |
| LowerBoundedSets.LowerBoundedSetCell.AddRange | src/lower_bounded_set.rs:48-51 | the cell ends at `WithRange` of the old set |
| LowerBoundedSets.LowerBoundedSetCell.AddLowerBoundedRange | src/lower_bounded_set.rs:52-55 | the cell ends at `WithLower` of the old set |
| LowerBoundedSets.LowerBoundedSetCell.AddSet | src/lower_bounded_set.rs:56-60 | the loop leaves the cell at `WithSet` of the old set |
| UpperBoundedSets.FromUpper | src/upper_bounded_set.rs:9-16 | converting an UpperBoundedRange gives that head with no pieces, valid, holding exactly the range's values |
| UpperBoundedSets.Contains | src/upper_bounded_set.rs:56-58 | the head or one of the pieces contains t; no ensures, properties in the membership clauses of `Defragmented`, `WithRange`, `WithUpper` and `WithSet` |
| UpperBoundedSets.IsEmptySet | src/upper_bounded_set.rs:18-22 | `is_empty` is false, and rightly so, since the head always holds a value |
| UpperBoundedSets.Absorb | src/upper_bounded_set.rs:37-38 | absorbing a piece that meets the head gives a head holding the values of either |
| UpperBoundedSets.DropFirstContains | src/upper_bounded_set.rs:37 | removing the first piece splits membership into that piece or the rest, and keeps the invariant |
| UpperBoundedSets.AbsorbFirst | src/upper_bounded_set.rs:36-38 | one absorbing step keeps membership and the invariant |
| UpperBoundedSets.Defragmented | src/upper_bounded_set.rs:25-41 | `defragment` keeps membership and the invariant, keeps a suffix of the pieces, and ends with the first piece apart from the head |
| UpperBoundedSets.DefragmentedUnfolds | src/upper_bounded_set.rs:26-39 | `defragment` stops at no pieces or when the first piece does not meet the head, and otherwise removes it and raises the head's end |
| UpperBoundedSets.WithRange | src/upper_bounded_set.rs:42-45 | `add_range` holds the old values or the range's, keeps the invariant, and always leaves a settled set |
| UpperBoundedSets.WithUpper | src/upper_bounded_set.rs:46-49 | `add_upper_bounded_range` holds the old values or the range's, and leaves a valid, defragmented set |
| UpperBoundedSets.WithSet | src/upper_bounded_set.rs:50-54 | `add_set` holds the values of either, keeps the invariant, and is settled when the set was or a piece was added |
| UpperBoundedSets.UpperBoundedSetCell.constructor | src/upper_bounded_set.rs:4-7 | the cell holds the given set |
| UpperBoundedSets.UpperBoundedSetCell.Defragment | src/upper_bounded_set.rs:25-41 | the in-place loop leaves the cell at `Defragmented` of the old set |
| UpperBoundedSets.UpperBoundedSetCell.AddRange | src/upper_bounded_set.rs:42-45 | the cell ends at `WithRange` of the old set |
| UpperBoundedSets.UpperBoundedSetCell.AddUpperBoundedRange | src/upper_bounded_set.rs:46-49 | the cell ends at `WithUpper` of the old set |
| UpperBoundedSets.UpperBoundedSetCell.AddSet | src/upper_bounded_set.rs:50-54 | the loop leaves the cell at `WithSet` of the old set |
| UnboundedSets.ReachingHead | src/unbounded_set.rs:47-52 | the first piece whose start abuts the upper range's end, or the length when none does |
| UnboundedSets.PiecewiseContains | src/unbounded_set.rs:40-44 | the upper range, the lower range or one of the pieces contains t; no ensures, properties in the membership clauses of `PiecewiseDefragmented` |
| UnboundedSets.Contains | src/unbounded_set.rs:131-136 | Full holds every value, a Piecewise set what `PiecewiseContains` says; no ensures, properties in `FromUnbounded`, `New` and the `With*` membership clauses |
| UnboundedSets.ReachingTail | src/unbounded_set.rs:56-61 | the first piece whose end abuts the lower range's start, or the length when none does |
| UnboundedSets.AbsorbIntoHead | src/unbounded_set.rs:54 | raising the upper end to the max with an abutting piece holds exactly the values of either |
| UnboundedSets.AbsorbIntoTail | src/unbounded_set.rs:63 | lowering the lower start to the min with an abutting piece holds exactly the values of either |
| UnboundedSets.PiecewiseDefragmented | src/unbounded_set.rs:46-66 | Piecewise `defragment` keeps membership and the invariant, has no more pieces, and leaves no piece that abuts either end range |
| UnboundedSets.RemovedPieceKeepsMembers | src/unbounded_set.rs:53-63 | one absorbing step, into either end range, keeps membership and the invariant |
| UnboundedSets.Defragmented | src/unbounded_set.rs:143-155 | `defragment` keeps membership and the invariant, Full stays Full, and a Piecewise result has apart end ranges |
| UnboundedSets.FromUnbounded | src/unbounded_set.rs:88-92 | converting `UnboundedRange` gives Full, which holds every value |
| UnboundedSets.OverlapCoversAll | src/unbounded_set.rs:107 | when the two end ranges overlap, every value is in one of them |
| UnboundedSets.New | src/unbounded_set.rs:103-116 | `new` gives Full exactly when the two ranges overlap, else Piecewise with no pieces; it holds exactly the values of either, is valid, and is settled when head and tail do not abut |
| UnboundedSets.WithRange | src/unbounded_set.rs:157-160 | `add_range` holds the old values or the range's, keeps the invariant, is defragmented, and leaves Full as Full |
| UnboundedSets.WithLower | src/unbounded_set.rs:161-166 | `add_lower_bounded_range` holds the old values or the range's, keeps the invariant, is defragmented, and leaves Full as Full |
| UnboundedSets.WithUpper | src/unbounded_set.rs:167-172 | `add_upper_bounded_range` holds the old values or the range's, keeps the invariant, is defragmented, and leaves Full as Full |
| UnboundedSets.WithSet | src/unbounded_set.rs:173-177 | `add_set` holds the values of either, keeps the invariant, is settled when the set was or a piece was added, and leaves Full as Full |
| UnboundedSets.WithUnboundedSet | src/unbounded_set.rs:178-192 | `add_unbounded_set` holds the values of either, keeps the invariant and is defragmented; Full on either side gives Full |
| UnboundedSets.PiecewiseUnboundedSetCell.constructor | src/unbounded_set.rs:21-26 | the cell holds the given set |
| UnboundedSets.PiecewiseUnboundedSetCell.Defragment | src/unbounded_set.rs:46-66 | the in-place recursion leaves the cell at `PiecewiseDefragmented` of the old set |
| UnboundedSets.UnboundedSetCell.constructor | src/unbounded_set.rs:81-86 | the cell holds the given set |
| UnboundedSets.UnboundedSetCell.Defragment | src/unbounded_set.rs:143-155 | the cell ends at `Defragmented` of the old set |
| UnboundedSets.UnboundedSetCell.AddRange | src/unbounded_set.rs:157-160 | the cell ends at `WithRange` of the old set |
| UnboundedSets.UnboundedSetCell.AddLowerBoundedRange | src/unbounded_set.rs:161-166 | the cell ends at `WithLower` of the old set |
| UnboundedSets.UnboundedSetCell.AddUpperBoundedRange | src/unbounded_set.rs:167-172 | the cell ends at `WithUpper` of the old set |
| UnboundedSets.UnboundedSetCell.AddSet | src/unbounded_set.rs:173-177 | the loop leaves the cell at `WithSet` of the old set |
| UnboundedSets.UnboundedSetCell.AddUnboundedSet | src/unbounded_set.rs:178-192 | the cell ends at `WithUnboundedSet` of the old set |
| SetMeets.MeetClip | src/implementations/intersection/bounded_set.rs:13-20 | clipping a piece by a range stays within the piece and holds exactly the values in both |
| SetMeets.WithinEmpty | src/implementations/intersection/bounded_set.rs:16-18 | a range within an empty range is empty |
| SetMeets.NarrowedApart | src/implementations/intersection/bounded_set.rs:16-18 | narrowing two ordered, apart pieces keeps them ordered and apart |
| SetMeets.ConsValid | src/bounded_set.rs:18 | a non-empty piece before and apart from a valid set's pieces gives a valid set |
| SetMeets.NonEmpty | src/implementations/intersection/bounded_set.rs:18 | `retain(!is_empty)` keeps only non-empty pieces, drawn from the input |
| SetMeets.NonEmptyKeepsAll | src/implementations/intersection/bounded_set.rs:18 | `retain(!is_empty)` keeps every non-empty piece of the input, so with `NonEmpty` it keeps exactly those |
| SetMeets.ConsContains | src/bounded_set.rs:96-98 | a value is in a piece list exactly when it is in its first piece or the rest |
| SetMeets.NonEmptyContains | src/implementations/intersection/bounded_set.rs:18 | dropping the empty pieces keeps membership |
| SetMeets.NonEmptyValid | src/implementations/intersection/bounded_set.rs:18 | dropping the empty pieces of an ordered, apart list gives a valid set |
| SetMeets.Mapped | src/implementations/intersection/bounded_set.rs:16-17 | mapping the clip over the pieces clips each piece in place |
| SetMeets.MappedApart | src/implementations/intersection/bounded_set.rs:16-17 | clipping a valid set's pieces leaves them ordered and apart |
| SetMeets.SetClipWithin | src/implementations/intersection/bounded_set.rs:13-20 | each piece of BoundedSet ∩ a range lies within a piece of the original set |
| SetMeets.SetClip | src/implementations/intersection/bounded_set.rs:13-20 | BoundedSet ∩ a range holds exactly the values in both, keeps the invariant, and has no more pieces |
| SetMeets.Clipped | src/implementations/intersection/bounded_set.rs:13-20 | the loop that overwrites each piece with its meet, then drops the empty ones, computes `SetClip` |
| SetMeets.Retained | src/implementations/intersection/bounded_set.rs:18 | dropping a valid set's empty pieces keeps membership and the invariant |
| Intersections.LbsBr | src/implementations/intersection/lower_bounded_set.rs:13-19 | LowerBoundedSet ∩ BoundedRange is a valid BoundedSet holding exactly the values in both |
| Intersections.UbsBr | src/implementations/intersection/upper_bounded_set.rs:13-19 | UpperBoundedSet ∩ BoundedRange is a valid BoundedSet holding exactly the values in both |
| Intersections.PieceMeet | src/implementations/intersection/bounded_range.rs:27-29 | one piece ∩ a set operand holds exactly the values in both |
| Intersections.Gathered | src/implementations/intersection/bounded_set.rs:29-35 | folding `add_set(piece ∩ other)` over the pieces adds exactly the values of the pieces that are in the operand, and keeps the invariant |
| Intersections.Gather | src/implementations/intersection/bounded_set.rs:29-35 | the in-place fold loop computes `Gathered` |
| Intersections.BsBs | src/implementations/intersection/bounded_set.rs:29-35 | BoundedSet ∩ BoundedSet is valid and holds exactly the values in both |
| Intersections.BsLbs | src/implementations/intersection/bounded_set.rs:60-69 | BoundedSet ∩ LowerBoundedSet holds exactly the values in both and keeps the invariant |
| Intersections.BsUbs | src/implementations/intersection/bounded_set.rs:94-103 | BoundedSet ∩ UpperBoundedSet holds exactly the values in both and keeps the invariant |
| Intersections.BsUs | src/implementations/intersection/bounded_set.rs:123-139 | BoundedSet ∩ UnboundedSet holds exactly the values in both, keeps the invariant, and Full gives the set back |
| Intersections.LbsLbr | src/implementations/intersection/lower_bounded_set.rs:39-44 | LowerBoundedSet ∩ LowerBoundedRange holds exactly the values in both, keeps the invariant, and stays settled |
| Intersections.LbsLbs | src/implementations/intersection/lower_bounded_set.rs:53-60 | LowerBoundedSet ∩ LowerBoundedSet holds exactly the values in both, keeps the invariant, and stays settled |
| Intersections.LbsUbr | src/implementations/intersection/lower_bounded_set.rs:69-76 | LowerBoundedSet ∩ UpperBoundedRange is a valid BoundedSet holding exactly the values in both |
| Intersections.LbsUbs | src/implementations/intersection/lower_bounded_set.rs:85-92 | LowerBoundedSet ∩ UpperBoundedSet is a valid BoundedSet holding exactly the values in both |
| Intersections.LbsUs | src/implementations/intersection/lower_bounded_set.rs:112-129 | LowerBoundedSet ∩ UnboundedSet holds exactly the values in both, keeps the invariant, stays settled, and Full gives the set back |
| Intersections.UbsLbr | src/implementations/intersection/upper_bounded_set.rs:39-45 | UpperBoundedSet ∩ LowerBoundedRange is a valid BoundedSet holding exactly the values in both |
| Intersections.UbsUbr | src/implementations/intersection/upper_bounded_set.rs:65-70 | UpperBoundedSet ∩ UpperBoundedRange is valid, settled, and holds exactly the values in both |
| Intersections.UbsUbs | src/implementations/intersection/upper_bounded_set.rs:79-84 | UpperBoundedSet ∩ UpperBoundedSet is valid, settled, and holds exactly the values in both |
| Intersections.UbsUs | src/implementations/intersection/upper_bounded_set.rs:103-120 | UpperBoundedSet ∩ UnboundedSet holds exactly the values in both, keeps the invariant, is settled when the other set is Piecewise or the set was settled, and Full gives the set back |
| Intersections.UsUs | src/implementations/intersection/unbounded_set.rs:89-107 | UnboundedSet ∩ UnboundedSet holds exactly the values in both, keeps the invariant, and Full on either side gives the other |
| Unions.LbsLbs | src/implementations/union/lower_bounded_set.rs:23-27 | LowerBoundedSet ∪ LowerBoundedSet holds the values of either, keeps the invariant, and is settled |
| Unions.LbsUbs | src/implementations/union/lower_bounded_set.rs:36-40 | LowerBoundedSet ∪ UpperBoundedSet is a valid UnboundedSet holding the values of either; it is settled when either side has pieces or head and tail do not abut |
| Unions.LbsUs | src/implementations/union/lower_bounded_set.rs:49-53 | LowerBoundedSet ∪ UnboundedSet holds the values of either, keeps the invariant, is settled, and Full stays Full |
| Unions.UbsUbs | src/implementations/union/upper_bounded_set.rs:34-38 | UpperBoundedSet ∪ UpperBoundedSet holds the values of either, keeps the invariant, and is settled |
| Unions.UbsUs | src/implementations/union/upper_bounded_set.rs:47-51 | UpperBoundedSet ∪ UnboundedSet holds the values of either, keeps the invariant, is settled, and Full stays Full |
| Complements.BrComplement | src/implementations/complement/bounded_range.rs:9-12 | the complement of a bounded range is a valid UnboundedSet holding exactly the values outside it |
| Complements.BrComplementIsNew | src/implementations/complement/bounded_range.rs:10-11 | that union adds no pieces: it is `UnboundedSet::new` of the two flipped bounds |
| Complements.LbrComplement | src/implementations/complement/lower_bounded_range.rs:7-9 | the complement of `l..` is the flipped upper range, holding exactly the values below the start |
| Complements.UbrComplement | src/implementations/complement/upper_bounded_range.rs:7-9 | the complement of `..u` is the flipped lower range, holding exactly the values above the end |
| Complements.LbrComplementInverse | src/implementations/complement/lower_bounded_range.rs:7-9 | complementing a lower range twice gives it back |
| Complements.UsFold | src/implementations/complement/bounded_set.rs:8-12 | intersecting with each piece's complement removes exactly the pieces' values and keeps the invariant |
| Complements.BsComplement | src/implementations/complement/bounded_set.rs:7-13 | the complement of a BoundedSet is a valid UnboundedSet holding exactly the values outside it; of the empty set it is Full |
| Complements.UbsFold | src/implementations/complement/lower_bounded_set.rs:8-11 | the fold over an UpperBoundedSet removes exactly the pieces' values, keeps the invariant, and stays settled |
| Complements.LbsComplement | src/implementations/complement/lower_bounded_set.rs:7-12 | the complement of a LowerBoundedSet is a valid, settled UpperBoundedSet holding exactly the values outside it |
| Complements.LbsFold | src/implementations/complement/upper_bounded_set.rs:8-11 | the fold over a LowerBoundedSet removes exactly the pieces' values, keeps the invariant, and stays settled |
| Complements.UbsComplement | src/implementations/complement/upper_bounded_set.rs:7-12 | the complement of an UpperBoundedSet is a valid, settled LowerBoundedSet holding exactly the values outside it |
| Complements.BsFold | src/implementations/complement/unbounded_set.rs:15-20 | the fold over a BoundedSet removes exactly the pieces' values and keeps the invariant |
| Complements.UsComplement | src/implementations/complement/unbounded_set.rs:7-23 | the complement of an UnboundedSet is a valid BoundedSet holding exactly the values outside it; of Full it is empty |
| Shapes.ShapeIsEmpty | src/implementations/rangetools/empty_range.rs:4-6 | an empty shape holds no value, and a valid BoundedSet is empty exactly when it has no pieces |
| Shapes.ShapeContains | src/empty_range.rs:58-60 | EmptyRange holds nothing, UnboundedRange (src/unbounded_range.rs:11-13) everything, and every other shape what its own `contains` says; no ensures, properties in `ShapeIsEmpty`, `ToInner` and `ShapeToSet` |
| Shapes.Contains | src/bounded_range.rs:9-26 | a standard range holds what the shape it converts to holds (`a..b` is a <= t < b, `a..=b` is a <= t <= b, and so on), a library shape what `ShapeContains` says; no ensures, properties in `ToInner` and `ToSet` |
| Shapes.IsEmpty | src/implementations/rangetools/range.rs:4-6 | an empty value holds nothing, and for a standard range `is_empty` holds exactly when it has no value |
| Shapes.ToInner | src/implementations/rangetools/range.rs:8-11 | `to_inner` keeps membership, emptiness and validity; a library shape is its own inner value |
| Shapes.ShapeToSet | src/implementations/rangetools/bounded_range.rs:13-21 | `to_set` gives a set shape with the same members and emptiness, valid, and is the identity on set shapes |
| Shapes.ToSet | src/implementations/rangetools/range.rs:13-16 | `to_set` of any value is a valid set shape with the same members |
| Algebra.BoundedMeetSound | src/implementations/intersection/bounded_range.rs:6-102 | BoundedRange ∩ any inner shape holds exactly the values in both and keeps the invariant |
| Algebra.BoundedMeet | src/implementations/intersection/bounded_range.rs:6-102 | BoundedRange ∩ each inner shape: the range meets for range shapes, delegation to the set's own impl for sets, itself for UnboundedRange; no ensures, properties in `BoundedMeetSound` |
| Algebra.LowerMeet | src/implementations/intersection/lower_bounded_range.rs:6-50 | LowerBoundedRange ∩ each inner shape: max_start with a bounded or lower range, (start, end) with an upper range, itself with UnboundedRange, the set's own impl for a set; no ensures, properties in `LowerMeetSound` |
| Algebra.UpperMeet | src/implementations/intersection/upper_bounded_range.rs:6-91 | UpperBoundedRange ∩ each inner shape: the min of two ends, delegation to the other side otherwise; no ensures, properties in `UpperMeetSound` |
| Algebra.BoundedSetMeet | src/implementations/intersection/bounded_set.rs:6-141 | BoundedSet ∩ each inner shape: clip the pieces against a range, gather piece ∩ other for a set, the set itself for UnboundedRange and Full; no ensures, properties in `BoundedSetMeetSound` |
| Algebra.LowerSetMeet | src/implementations/intersection/lower_bounded_set.rs:6-141 | LowerBoundedSet ∩ each inner shape, case by case as the impl; no ensures, properties in `LowerSetMeetSound` |
| Algebra.UpperSetMeet | src/implementations/intersection/upper_bounded_set.rs:6-132 | UpperBoundedSet ∩ each inner shape, case by case as the impl; no ensures, properties in `UpperSetMeetSound` |
| Algebra.UnboundedSetMeet | src/implementations/intersection/unbounded_set.rs:6-108 | UnboundedSet ∩ each inner shape: a range is turned into its set first, EmptyRange absorbs, UnboundedRange and Full are the identity, and against another UnboundedSet the result is the union of the three parts' meets; no ensures, properties in `UnboundedSetMeetSound` and `UnboundedSetMeetValid` |
| Algebra.LowerMeetSound | src/implementations/intersection/lower_bounded_range.rs:1-50 | LowerBoundedRange ∩ any inner shape holds exactly the values in both and keeps the invariant |
| Algebra.UpperMeetSound | src/implementations/intersection/upper_bounded_range.rs:1-91 | UpperBoundedRange ∩ any inner shape holds exactly the values in both and keeps the invariant |
| Algebra.BoundedSetMeetSound | src/implementations/intersection/bounded_set.rs:1-141 | BoundedSet ∩ any inner shape holds exactly the values in both and is valid |
| Algebra.LowerSetMeetSound | src/implementations/intersection/lower_bounded_set.rs:1-141 | LowerBoundedSet ∩ any inner shape holds exactly the values in both and keeps the invariant |
| Algebra.UpperSetMeetSound | src/implementations/intersection/upper_bounded_set.rs:1-132 | UpperBoundedSet ∩ any inner shape holds exactly the values in both and keeps the invariant |
| Algebra.UnboundedSetMeetSound | src/implementations/intersection/unbounded_set.rs:1-108 | UnboundedSet ∩ any inner shape holds exactly the values in both |
| Algebra.UnboundedSetMeetValid | src/implementations/intersection/unbounded_set.rs:1-108 | UnboundedSet ∩ a valid shape keeps the invariant |
| Algebra.Meet | src/implementations/intersection/empty_range.rs:7-10 | EmptyRange absorbs and UnboundedRange gives the other operand |
| Algebra.MeetSound | src/implementations/intersection/unbounded_range.rs:47-73 | the meet of any two inner shapes holds exactly the values in both and keeps the invariant |
| Algebra.Intersection | src/lib.rs:107-124 | `intersection` holds exactly the values in both operands, keeps the invariant, EmptyRange absorbs, and `..` gives the other's inner shape |
| Algebra.Disjoint | src/lib.rs:126-142 | operands `disjoint` calls disjoint share no value |
| Algebra.Intersects | src/lib.rs:144-160 | `intersects` is the negation of `disjoint`, and operands sharing a value intersect |
| Algebra.SetUnion | src/implementations/union/bounded_set.rs:1-66 | EmptyRange gives the other set, and UnboundedRange absorbs every non-empty set |
| Algebra.SetUnionSound | src/implementations/union/lower_bounded_set.rs:1-65 | the union of two set shapes holds the values of either and keeps the invariant |
| Algebra.Union | src/lib.rs:178-197 | `union` holds the values of either operand, keeps the invariant, EmptyRange on either side gives the other, and UnboundedRange absorbs |
| ShapeComplements.Complement | src/implementations/complement/range.rs:7-9 | EmptyRange and UnboundedRange (or `..`) are each other's complement |
| ShapeComplements.ComplementSound | src/complement.rs:6 | `complement` holds exactly the values the operand does not, and is a valid set |
| ShapeComplements.ComplementTwice | src/complement.rs:6 | complementing twice gives back the operand's values |
| Steps.CastFromUsize | src/step.rs:35 | `count as T` is the value in T's range congruent to the count modulo 2^bits, so the count itself when it fits |
| Steps.CastToUsize | src/step.rs:29 | `as usize` is the usize congruent to the value modulo 2^64, so the value itself when it fits |
| Steps.Next | src/step.rs:21-23 | `next` of a value below the maximum is the least value of the type above it |
| Steps.Prev | src/step.rs:24-26 | `prev` of a value above the minimum is the greatest value of the type below it |
| Steps.StepsBetween | src/step.rs:27-33 | `steps_between` is Some exactly when start <= end, and then the step count reaches end from start |
| Steps.Forward | src/step.rs:34-36 | `forward(s, n)` is s + n when n fits the type |
| Steps.Backward | src/step.rs:37-39 | `backward(s, n)` is s - n when n fits the type |
| Steps.PrevNext | src/step.rs:21-26 | `prev` undoes `next` and `next` undoes `prev` |
| Steps.ForwardStepsBetween | src/step.rs:27-36 | stepping forward by `steps_between(s, e)` reaches e |
| Steps.BackwardForward | src/step.rs:34-39 | `backward` undoes `forward` |
| Steps.TypesWellFormed | src/step.rs:20-272 | the twelve integer impls are one definition over well-formed widths, with the u8 and i8 limits as Rust's |
| Steps.SignedCastWraps | src/step.rs:162 | `200usize as i8` wraps to -56 |
| Scenarios.IntersectionExamples | src/lib.rs:23-28 | `(0..5) ∩ (3..)` contains 4 and `(0..5) ∩ (5..10)` is empty |
| Scenarios.IsEmptyExamples | src/lib.rs:84-85 | `3..2` is empty and `0..5` is not |
| Scenarios.ToInnerExample | src/lib.rs:102-103 | `(0..5).to_inner()` is (Included 0, Excluded 5) |
| Scenarios.IntersectionValueExample | src/lib.rs:115-116 | `(0..5) ∩ (3..7)` is (Included 3, Excluded 5) |
| Scenarios.DisjointExamples | src/lib.rs:132-133 | `0..5` and `10..20` are disjoint; `..5` and `3..` intersect |
| Scenarios.UnionExample | src/lib.rs:186-189 | `(..3) ∪ (5..)` contains 0 and 5 but not 4 |
| Scenarios.PiecewiseExample | src/unbounded_set.rs:13-18 | `(..3) ∪ (5..10) ∪ (20..)` contains 0, 7 and 42 but not 4 or 15 |
| Scenarios.BoundedComplementExamples | src/test/complement.rs:6-24 | the complements of `5..10` and `5..=10` are the expected unbounded sets |
| Scenarios.HalfComplementExamples | src/test/complement.rs:26-45 | the complements of `..4`, `..=4` and `2..` are the expected half ranges |
| Scenarios.FullComplementExamples | src/test/complement.rs:47-90 | `..`, UnboundedRange and EmptyRange complement as expected |
| Scenarios.BoundedSetComplementExample | src/test/complement.rs:92-97 | the complement of `(1..3) ∪ (5..10)` is `(..1) ∪ (3..5) ∪ (10..)` |
| Scenarios.TwoPieceSet | src/test/iterator/bounded_set.rs:5 | `(0..1) ∪ (3..4)` is the two-piece set |
| Scenarios.BoundedSetIterExample | src/test/iterator/bounded_set.rs:4-58 | iterating `(0..1) ∪ (3..4)` gives 0, 3, None; size_hint (2, Some 2), count 2, last 3, nth(1) 3, min 0 |
| Scenarios.PieceAndTail | src/test/iterator/lower_bounded_set.rs:10 | `(4..) ∪ (1..2)` is the piece (1..2) with tail 4.. |
| Scenarios.LowerBoundedSetIterExample | src/test/iterator/lower_bounded_set.rs:10-13 | iterating `(1..2) ∪ (4..)` starts 1, 4 |
| Scenarios.CollectExample | src/lib.rs:37-38 | `(1..3) ∪ (5..7)` collects to [1, 2, 5, 6] |
| Scenarios.PieceBelowTail | src/lib.rs:40 | `(1..3) ∪ (10..)` is the piece (1..3) with tail 10.. |
| Scenarios.TakeExample | src/lib.rs:40-41 | `(1..3) ∪ (10..)` starts 1, 2, 10, 11, 12 |
| Findings.LowerContainsCounterexample | src/lower_bounded_range.rs:25-27 | the complement of `..=4` contains 4 as written, though `..=4` does too |
| Findings.LbsDefragmentedAsWritten | src/lower_bounded_set.rs:30-46 | `defragment` as written, with the single-order `is_empty` and `min`: it keeps a prefix of the pieces |
| Findings.LbsWithLowerAsWritten | src/lower_bounded_set.rs:52-55 | `add_lower_bounded_range` as written takes the single-order min of the starts |
| Findings.StartMinCounterexample | src/lower_bounded_set.rs:53 | adding (Excluded 5).. to 5.. loses 5 as written, while `WithLower` keeps it |
| Findings.LbsEmptinessCounterexample | src/lower_bounded_set.rs:38 | a piece 1..3 and tail (Excluded 3).. gain 3 as written, but not under `Defragmented` |
| Findings.UbsDefragmentedAsWritten | src/upper_bounded_set.rs:25-41 | `defragment` as written, with the single-order `is_empty`: it keeps a suffix of the pieces |
| Findings.UbsEmptinessCounterexample | src/upper_bounded_set.rs:33 | head ..3 and piece (Excluded 3, Included 5) gain 3 as written, but not under `Defragmented` |
| Findings.NewAsWritten | src/unbounded_set.rs:103-116 | `new` as written, with the single-order `is_empty`: whenever the corrected `new` is Full, so is this one |
| Findings.NewCounterexample | src/unbounded_set.rs:107 | `new(..5, (Excluded 5)..)` is Full as written though 5 is in neither range |
| Findings.BsFromRangeAsWritten | src/bounded_set.rs:22-30 | `From<BoundedRange>` as written holds exactly the range's values, in at most one piece |
| Findings.BsIsEmptyAsWritten | src/implementations/rangetools/bounded_set.rs:4-6 | `is_empty` as written, with the single-order rule per piece: it still implies no members |
| Findings.BsEmptinessCounterexample | src/bounded_set.rs:24 | the range (Excluded 3, Excluded 3) becomes a one-piece set as written, breaking the invariant and `is_empty` |
| Findings.InsertPositionAsWritten | src/bounded_set.rs:71-75 | the insert position as written: the first piece whose start is `>` the new start in the single order |
| Findings.BsWithRangeAsWritten | src/bounded_set.rs:64-79 | `add_range` as written, with the inherent `is_empty` guard and the single-order insert position: it still adds exactly the range's values |
| Findings.InsertOrderCounterexample | src/bounded_set.rs:74 | `3..=3` plus (Excluded 3, Included 5) stores the new range first as written, so the pieces are out of order and iteration yields 4 before 3 |
| Findings.AddEmptyRangeCounterexample | src/bounded_set.rs:65 | adding (Excluded 3, Excluded 3) to the empty set stores an empty piece as written; the corrected `WithRange` leaves the set empty |
| Findings.ReachingHeadAsWritten | src/unbounded_set.rs:47-52 | the `position` of unbounded_set.rs:51 as written: the first piece with start <= upper end in the single order |
| Findings.ReachingTailAsWritten | src/unbounded_set.rs:56-61 | the `position` of unbounded_set.rs:60 as written: the first piece with end >= lower start in the single order |
| Findings.PiecewiseDefragmentedAsWritten | src/unbounded_set.rs:46-66 | Piecewise `defragment` as written: it has no more pieces than before |
| Findings.TailStartMinCounterexample | src/unbounded_set.rs:63 | head ..0, piece (Excluded 5, Included 7) as `add_range` stores it, and tail 5..: the single-order `min` makes the tail start at Excluded(5) and 5 is lost, but not under `PiecewiseDefragmented` |
| Findings.ReachingHeadCounterexample | src/unbounded_set.rs:51 | head ..5 and piece (Excluded 5, Included 7) gain 5 as written, but not under `PiecewiseDefragmented` |
| Findings.UsDefragmentedAsWritten | src/unbounded_set.rs:143-155 | `defragment` as written, comparing end and start in the single order: Full stays Full |
| Findings.UsWithLowerAsWritten | src/unbounded_set.rs:161-166 | `add_lower_bounded_range` as written, with `Bound::min` in the single order: Full stays Full, and a set with no pieces whose head ends below the new start keeps its head and takes that start |
| Findings.UsStartMinCounterexample | src/unbounded_set.rs:163 | `new(..0, 5..)` gaining (Excluded 5).. loses 5 as written, but not under `UnboundedSets.WithLower` |
| Findings.CollapseCounterexample | src/unbounded_set.rs:151 | ..5 with (Excluded 5).. collapses to Full as written, though 5 is in neither |
| Findings.LbsLbsAsWritten | src/implementations/intersection/lower_bounded_set.rs:53-60 | LowerBoundedSet ∩ LowerBoundedSet as written keeps only values in both, but misses `self.tail ∩ other.pieces` |
| Findings.LbsLbsCounterexample | src/implementations/intersection/lower_bounded_set.rs:56-58 | `(0..).to_set() ∩ ((1..2).union(5..))`, a LowerBoundedSet with no pieces on the left, loses 1 as written; the corrected `LbsLbs` keeps it |

## Left out

- **Integer width.** Values of the range and set types are unbounded integers, so the model does not capture overflow in the range iterators' `+= 1`. Widths are modelled only for the `Step` trait, and there only the `as` casts wrap: `Steps.Next`, `Prev`, `StepsBetween`, `Forward` and `Backward` take the absence of overflow in their additions and subtractions as a precondition. So the overflow panic (or, in a release build, the wrap-around) of that arithmetic is not modelled. `usize` and `isize` are taken as 64-bit, although Rust's width for them depends on the target.
- **Per-range iterators inside `BoundedSetIter`.** These are abstracted to the sequence of values each piece still has to yield. The generic `len`/`nth`/`last` of `BoundedRange`'s `ExactSizeIterator`/`DoubleEndedIterator` are therefore not modelled separately.
- **EmptyRange's iterator (src/empty_range.rs:21-27).** It is `std::iter::empty`, which yields nothing, and is not modelled.
- **Index impls (src/implementations/index/).** They are not part of this model.
- **Serde support, `Hash`, `Debug` and `Clone` derives.** These are library plumbing, not set semantics.
- **Static dispatch.** The trait impls are chosen by the operands' static types; the model chooses through a sum type (`Shapes.Value`). `Algebra.BoundedMeet`, `LowerMeet`, `UpperMeet`, `BoundedSetMeet`, `LowerSetMeet`, `UpperSetMeet`, `UnboundedSetMeet` have no `ensures` of their own. Their properties are stated pointwise in the matching `…Sound` lemmas.
- **Impls named in the union and intersection tables but not shown in the source.** These are defined the way the shown impls work:
  - `Range`, `RangeFrom`, `RangeInclusive` and `RangeTo` on the left of `union` take `to_set` first.
  - `UnboundedSet ∪ BoundedSet` is `add_set`.
  - `X ∩ EmptyRange` is EmptyRange.
  - LowerBoundedRange and UnboundedRange against a set go through the set's own impl.
- **`is_empty` of `a..=b` (src/implementations/rangetools/range_inclusive.rs).** The file is not part of this model; it is read as `a > b`, the standard library's rule.
- **Inherent `is_empty` on concrete ranges.** The `retain` calls in src/implementations/intersection/*.rs use the single-order `is_empty` of src/bounded_range.rs:40-42. The model uses the sound, tag-aware rule there, as it does everywhere else (see "## Findings").
- Algebra.Disjoint: states only that operands it calls disjoint share no value, not the converse. The tag-aware `is_empty` suits a dense value type: over integers a range such as (Excluded 3, Excluded 4) holds no value yet is not empty, so `disjoint` can be false for operands with no common integer.
- UnboundedSets.New, Unions.LbsUbs, Intersections.UsUs, Complements.BsComplement: not proved settled in general. A head and a tail that touch at one value without overlapping, such as `..=5` and `(Excluded 5)..`, have an empty meet, so `new` returns them as a Piecewise set; `defragment` would collapse that set to Full. `Unions.LbsUbs` is proved settled only when either side has pieces or the head and tail do not abut, and `UsUs` and `BsComplement`, built on it, state validity and membership only.
- Scenarios.PiecewiseExample, Scenarios.BoundedSetComplementExample: these take their operands as parameters whose values are fixed by `requires`, so the proof works from the operations' contracts. `BoundedSetComplementExample` states that the complement holds the same values as `(..1) ∪ (3..5) ∪ (10..)` for every integer, not the structural equality that src/test/complement.rs:96 asserts with `assert_eq!`: it does not show which pieces the complement stores.

## Findings

| source | as written | input that shows it | evidently intended | confidence | as-written member | corrected member |
|---|---|---|---|---|---|---|
| src/lower_bounded_range.rs:25-27 | `contains` is `t >= start.t()`, whatever the tag | the complement of `..=4` is (Excluded 4).., which then contains 4 | an Excluded start rejects its own value | not executed | Findings.LowerContainsCounterexample | Ranges.LowerContainsReadings |
| src/lower_bounded_set.rs:52-55 | the new tail start is `Bound::min` in the single order, where Excluded(x) < Included(x) | adding (Excluded 5).. to 5.. gives (Excluded 5).., losing 5 | the min of two starts keeps every value either admits | not executed | Findings.StartMinCounterexample | LowerBoundedSets.WithLower |
| src/lower_bounded_set.rs:30-46 | `defragment` tests the meet with the single-order `is_empty` and merges with the single-order `min` | piece 1..3 and tail (Excluded 3)..: the meet (Excluded 3, Excluded 3) is not empty by that rule, so 3 is added | absorb only a piece that really shares a value with the tail | not executed | Findings.LbsEmptinessCounterexample | LowerBoundedSets.Defragmented |
| src/upper_bounded_set.rs:25-41 | `defragment` tests the meet with the single-order `is_empty` | head ..3 and piece (Excluded 3, Included 5): the meet (Excluded 3, Excluded 3) passes, and the head becomes ..=5, adding 3 | absorb only a piece that really shares a value with the head | not executed | Findings.UbsEmptinessCounterexample | UpperBoundedSets.Defragmented |
| src/unbounded_set.rs:103-116 | `new` tests the meet of the two ranges with the single-order `is_empty` | `new(..5, (Excluded 5)..)` is Full, though 5 is in neither | Full only when the two ranges cover every value | not executed | Findings.NewCounterexample | UnboundedSets.New |
| src/bounded_set.rs:74 | `add_range` picks the insert position by `range.start > r.start` in the single order | the set `3..=3` plus (Excluded 3, Included 5), the meet of `(..=3).complement()` with `0..=5`: the new range goes first, so the pieces are out of start order and the iterator's `min` gives 4, not 3 | insert after every piece that starts no later, in the start order | not executed | Findings.InsertOrderCounterexample | BoundedSets.InsertPosition |
| src/bounded_set.rs:65 | `add_range` skips only a range the single-order `is_empty` calls empty | adding (Excluded 3, Excluded 3) to the empty set stores it as a piece, so the invariant breaks | an empty range adds nothing | not executed | Findings.AddEmptyRangeCounterexample | BoundedSets.WithRange |
| src/bounded_set.rs:22-30 | `From<BoundedRange>` keeps a range the single-order `is_empty` calls non-empty | (Excluded 3, Excluded 3), the meet of (Excluded 3).. with ..3, becomes a one-piece set: the invariant breaks and `is_empty` is false for a set with no members | an empty range gives the empty set | not executed | Findings.BsEmptinessCounterexample | BoundedSets.FromRange |
| src/unbounded_set.rs:46-66 | a piece is absorbed when `r.start <= upper.end` in the single order | head ..5, piece (Excluded 5, Included 7), tail 10..: 5 is added | absorb only a piece that overlaps or touches the head, so that no value of a dense order lies between them | not executed | Findings.ReachingHeadCounterexample | UnboundedSets.PiecewiseDefragmented |
| src/unbounded_set.rs:63 | Piecewise `defragment` lowers the tail's start with `min` in the single order, where Excluded(x) < Included(x) | `new(..0, 5..)` plus the range (Excluded 5, Included 7), the meet of `(..=5).complement()` with `0..=7`: the piece reaches the tail, the tail becomes (Excluded 5).. and 5 is lost | the min of two starts keeps every value either admits | not executed | Findings.TailStartMinCounterexample | UnboundedSets.PiecewiseDefragmented |
| src/unbounded_set.rs:163 | `add_lower_bounded_range` takes `Bound::min` of the starts in the single order | `new(..0, 5..)` plus (Excluded 5)..: the tail becomes (Excluded 5).. and 5 is lost | the min of two starts keeps every value either admits | not executed | Findings.UsStartMinCounterexample | UnboundedSets.WithLower |
| src/unbounded_set.rs:143-155 | the set becomes Full when `upper.end >= lower.start` in the single order | ..5 with (Excluded 5).. becomes Full, though 5 is in neither | Full only when the two ranges overlap or touch, so that no value of a dense order lies between them | not executed | Findings.CollapseCounterexample | UnboundedSets.Defragmented |
| src/implementations/intersection/lower_bounded_set.rs:47-61 | LowerBoundedSet ∩ LowerBoundedSet is `(self ∩ other.tail) ∪ (self.pieces ∩ other)` | `(0..).to_set() ∩ ((1..2).union(5..))`, with the LowerBoundedSet `(0..).to_set()` on the left, gives 5.., losing 1 (a bare `0..` goes through the LowerBoundedRange impl instead and loses nothing) | also keep `self.tail ∩ other.pieces` | not executed | Findings.LbsLbsCounterexample | Intersections.LbsLbs |
