# E-commerce analytics ETL: a Dafny model of the transform core

This project models the relational core of the Glue/PySpark batch job
`scripts/ecommerce-full-etl.py`, which turns three raw tables into an
enriched event dataset:

- **Event normalisation** (`Events`): the `events` table is projected,
  `transactionid` is cast to a bigint with `""` meaning absent, only `view`,
  `addtocart` and `transaction` events are kept, and an `event_date`
  partition key is added.
- **Latest property snapshot and pivot** (`PropertySnapshot`): the
  `item_properties` change log gets a `numeric_value` text (values starting
  with `n`, with every `n` removed), is collapsed to the latest row per
  (item, property) as `row_number() = 1` over a descending time window does,
  and `categoryid`, `available` and `price` are pivoted into one record per
  item.
- **Category paths** (`CategoryHierarchy`): `build_category_path` runs five
  rounds of a left self-join of the *current* frame. Because each round
  joins the frame it has just updated, the pointer doubles its distance
  every round, and the path of category `c` comes out as
  `[c, p(c), p²(c), p⁴(c), p⁸(c), p¹⁶(c)]`, cut at the first undefined
  step. The method `BuildCategoryPath` loops exactly like the job and is
  proved equal to that closed form.
- **Enrichment** (`Enrichment`): the two left joins, first by `item_id` into
  the pivot and then by `categoryid` cast to bigint into the hierarchy, and
  `RunJob`, which composes the whole transform and returns the three
  datasets the job writes.

Data frames are sequences of records. Where the key is unique they are maps
keyed by it: the snapshot by (item_id, property_name), the pivot by
item_id, and the category frame by category_id. Every stage is a function of
its inputs, so running it twice on the same input gives the same result.
`Casts` holds the string-to-bigint cast, and `Options` holds the nullable
value type.

Assumptions the model makes explicit:

- Category ids are unique in the category table (`UniqueRawCategoryIds`,
  `UniqueCategoryIds`). The job does not enforce this. With duplicate ids,
  both the self-join and the enrichment join would multiply rows.
- Ties in the snapshot window go to the earliest row in input order among
  the equally late rows (`IsLatest`). The job leaves ties to Spark.

## Model

| member | source | states |
|---|---|---|
| `Casts.CastBigint` | scripts/ecommerce-full-etl.py:39-40 | the cast is present exactly when the text is an optionally signed decimal numeral whose value lies in the 64-bit range, and then it is that value |
| `Casts.EmptyAsAbsent` | scripts/ecommerce-full-etl.py:39-40 | `""` is absent; any other text is present exactly when it is a numeral in the 64-bit range, and then holds its value |
| `Casts.CastShowRoundTrip` | scripts/ecommerce-full-etl.py:39-40 | casting the decimal text of any 64-bit integer to bigint gives that integer back, both directly and through the empty-as-null rule |
| `Casts.EmptyAsAbsentExamples` | scripts/ecommerce-full-etl.py:39-40 | `""` is absent, `"98765"` is 98765, `"-42"` is -42, and `"12a"` and `"-"` are null |
| `Events.NormalizeEvent` | scripts/ecommerce-full-etl.py:34-46 | every column is carried over unchanged except `transaction_id`, which is absent exactly when the text is empty or not a bigint; `event_date` is the date of the event's instant |
| `Events.NormalizeEvents` | scripts/ecommerce-full-etl.py:34-46 | the output has no more rows than the input, and every output event has type `view`, `addtocart` or `transaction` (which rows and in what order: `NormalizeEventsKeepsOrder`) |
| `Events.NormalizeEventsKeepsOrder` | scripts/ecommerce-full-etl.py:34-41 | the output is exactly the normalised tracked events, in input order: an increasing list of positions covers every tracked input row |
| `Events.NormalizeEventsAppend` | scripts/ecommerce-full-etl.py:34-41 | normalising a concatenation is the concatenation of the normalised parts, so the filter is row-local |
| `Events.NormalizeSingleEvent` | scripts/ecommerce-full-etl.py:41 | a single event is kept if and only if its type is `view`, `addtocart` or `transaction` |
| `PropertySnapshot.NumericText` | scripts/ecommerce-full-etl.py:63 | the numeric text is present if and only if the value starts with `n`, and it is then the value with every `n` removed |
| `PropertySnapshot.RemoveEveryN` | scripts/ecommerce-full-etl.py:63 | the stripped text contains no `n` and is no longer than the value |
| `PropertySnapshot.RemoveEveryNAppend` | scripts/ecommerce-full-etl.py:63 | stripping a concatenation strips each part, so the kept characters stay in their order |
| `PropertySnapshot.RemoveEveryNChar` | scripts/ecommerce-full-etl.py:63 | a lone `n` is dropped and any other character is kept |
| `PropertySnapshot.RemoveEveryNKeepsOthers` | scripts/ecommerce-full-etl.py:63 | the stripped text holds the same characters as the value with every `n` taken out: each other character is kept exactly as often as it occurs |
| `PropertySnapshot.NumericTextExamples` | scripts/ecommerce-full-etl.py:63 | `"n19.99"` gives `"19.99"`, and `"19.99"` and `""` give none |
| `PropertySnapshot.NumericTextDropsInnerN` | scripts/ecommerce-full-etl.py:63 | `"n12n5"` gives `"125"`, so every `n` is removed, not only the prefix |
| `PropertySnapshot.ProcessProperty` | scripts/ecommerce-full-etl.py:56-64 | the processed row keeps the key, time and value of the change-log row, and has numeric text exactly when the value starts with `n`; that text is the numeric text of the value |
| `PropertySnapshot.ProcessProperties` | scripts/ecommerce-full-etl.py:56-64 | one processed row per change-log row, position by position |
| `PropertySnapshot.LatestSnapshot` | scripts/ecommerce-full-etl.py:66-70 | the snapshot has one entry per distinct (item_id, property_name) of the input, and each entry is an input row of that key (that it is the row the window keeps: `LatestSnapshotSpec`) |
| `PropertySnapshot.LatestSnapshotChooses` | scripts/ecommerce-full-etl.py:66-70 | the snapshot's keys are the input keys, and each key maps to an input row of that key that the window keeps |
| `PropertySnapshot.LatestStep` | scripts/ecommerce-full-etl.py:66-70 | adding one change-log row keeps the snapshot choosing, for every key, the row the window keeps |
| `PropertySnapshot.NewRowIsLatest` | scripts/ecommerce-full-etl.py:67 | a row strictly later than the current choice for its key is the latest of the extended log |
| `PropertySnapshot.OldRowStaysLatest` | scripts/ecommerce-full-etl.py:67 | the current choice stays latest when the added row is not later |
| `PropertySnapshot.LatestIsUnique` | scripts/ecommerce-full-etl.py:67-70 | at most one row per key is the one the window keeps (`row_number() = 1`) |
| `PropertySnapshot.LatestSnapshotSpec` | scripts/ecommerce-full-etl.py:66-70 | exactly one row per distinct (item_id, property_name); it is an input row of that key, no input row of the key is later, and it is the earliest of the latest rows |
| `PropertySnapshot.Pivot` | scripts/ecommerce-full-etl.py:73-75 | one record per item with at least one of `categoryid`, `available`, `price`; each field is that property's snapshot value, or absent exactly when the item lacks the property |
| `PropertySnapshot.PivotOfLatest` | scripts/ecommerce-full-etl.py:66-75 | over the change log: an item has a record exactly when one of its rows names a pivoted property; a field is present exactly when such a row exists, and it holds the value of the latest row |
| `CategoryHierarchy.CleanCategory` | scripts/ecommerce-full-etl.py:84-87 | the category id is kept, and the parent is absent for `""`, otherwise it is the bigint cast |
| `CategoryHierarchy.CleanCategories` | scripts/ecommerce-full-etl.py:84-87 | one cleaned row per input row |
| `CategoryHierarchy.EdgeMap` | scripts/ecommerce-full-etl.py:84-87 | with unique ids, the frame maps each category id to its parent, with no other keys |
| `CategoryHierarchy.InitialFrame` | scripts/ecommerce-full-etl.py:92 | every category starts with its own pointer and the path `[category_id]` |
| `CategoryHierarchy.JoinRow` | scripts/ecommerce-full-etl.py:95-104 | a row's path either stays the same or grows by exactly the id its pointer names; it grows if and only if the pointer matches a row; the new pointer is the matched row's pointer, and null when nothing matched |
| `CategoryHierarchy.SelfJoinRound` | scripts/ecommerce-full-etl.py:95-105 | a round keeps one row per category |
| `CategoryHierarchy.SelfJoinRounds` | scripts/ecommerce-full-etl.py:94-105 | any number of rounds keeps one row per category |
| `CategoryHierarchy.CategoryPaths` | scripts/ecommerce-full-etl.py:90-108 | `category_hierarchy` has one row per category of the cleaned table (path shape: `CategoryPathsShape`) |
| `CategoryHierarchy.BuildCategoryPath` | scripts/ecommerce-full-etl.py:90-106 | the five-round loop yields one row per category, with the pointer-doubling path and pointer of the closed form; each path starts at its category and has 1 to 6 entries |
| `CategoryHierarchy.SelfJoinRoundsClosed` | scripts/ecommerce-full-etl.py:94-105 | after k rounds the frame has one row per category, and every row is in the closed form of round k |
| `CategoryHierarchy.RoundKeepsClosed` | scripts/ecommerce-full-etl.py:95-105 | a round of the self-join takes a frame in the closed form of round k-1 to the closed form of round k |
| `CategoryHierarchy.InitialRowClosedForm` | scripts/ecommerce-full-etl.py:92 | the initial row of a category is the closed form of round 0 |
| `CategoryHierarchy.SelfJoinRoundsClosedForm` | scripts/ecommerce-full-etl.py:94-105 | after k rounds, row c holds the path `[c, Up(c,1), Up(c,2), ..., Up(c,2^(k-1))]`, cut at the first undefined entry, and the pointer is the parent of `Up(c, 2^k - 1)` |
| `CategoryHierarchy.DoublingStep` | scripts/ecommerce-full-etl.py:95-104 | one self-join round moves a row from the closed form at round k-1 to round k |
| `CategoryHierarchy.PointerReaches` | scripts/ecommerce-full-etl.py:95-101 | the round-k pointer, when it names a row, is the ancestor 2^k hops up; otherwise that ancestor is undefined |
| `CategoryHierarchy.PointerStep` | scripts/ecommerce-full-etl.py:99 | the new pointer is the round-k pointer of the row the current pointer names, which doubles the distance |
| `CategoryHierarchy.UpAdd` | scripts/ecommerce-full-etl.py:95-99 | a walk of a + b hops is a walk of a hops followed by one of b hops |
| `CategoryHierarchy.UpStaysNone` | scripts/ecommerce-full-etl.py:100-103 | once a walk is undefined it stays undefined, so a truncated path never grows again |
| `CategoryHierarchy.DoublingPathShape` | scripts/ecommerce-full-etl.py:92-105 | the path after k rounds starts at c and has 1 to k + 1 entries; entry i is the ancestor 2^(i-1) hops up; a shorter path stops because the next doubling hop is undefined |
| `CategoryHierarchy.CategoryPathsShape` | scripts/ecommerce-full-etl.py:90-108 | `category_hierarchy` has one row per input category, whose path starts with its own id and has between 1 and 6 entries |
| `CategoryHierarchy.SelfJoinRoundExtends` | scripts/ecommerce-full-etl.py:100-103 | after each round, every path is unchanged or has grown by exactly one element |
| `CategoryHierarchy.DetachedRowIsFrozen` | scripts/ecommerce-full-etl.py:95-104 | once a row's pointer is null, its row never changes in any later round |
| `CategoryHierarchy.NoHopKeepsOwnId` | scripts/ecommerce-full-etl.py:100-103 | without a first hop, the path stays `[c]` for any number of rounds |
| `CategoryHierarchy.RootKeepsOwnId` | scripts/ecommerce-full-etl.py:84-106 | a category with no parent, or whose parent has no row, keeps the path `[c]` |
| `CategoryHierarchy.SelfLoopStays` | scripts/ecommerce-full-etl.py:95-99 | a self-parented category is its own ancestor at every distance |
| `CategoryHierarchy.SelfLoopRepeats` | scripts/ecommerce-full-etl.py:94-105 | after k rounds, a self-parented category's path is k + 1 copies of its id |
| `CategoryHierarchy.SelfParentRepeats` | scripts/ecommerce-full-etl.py:90-106 | a self-parented category gets six copies of its id, and the loop still ends |
| `CategoryHierarchy.Pow2Monotone` | scripts/ecommerce-full-etl.py:94 | the hop distance 2^k grows with the round number |
| `CategoryHierarchy.ChainWalk` | scripts/ecommerce-full-etl.py:84-87 | in the chain 4 → 3 → 2 → 1, the walk from 4 meets 3, 2 and 1, and the fourth hop is undefined |
| `CategoryHierarchy.ChainDoublingPath` | scripts/ecommerce-full-etl.py:94-105 | in the chain 4 → 3 → 2 → 1, the closed-form path of 4 after five rounds is `[4, 3, 2]` |
| `CategoryHierarchy.ChainSkipsRoot` | scripts/ecommerce-full-etl.py:90-106 | as written, the chain D → C → B → A gives D the path `[D, C, B]` |
| `CategoryHierarchy.AncestorRound` | scripts/ecommerce-full-etl.py:95-105 | the corrected round, which joins with `category_clean`, keeps one row per category |
| `CategoryHierarchy.AncestorRounds` | scripts/ecommerce-full-etl.py:94-105 | any number of corrected rounds keeps one row per category |
| `CategoryHierarchy.AncestorRoundsClosedForm` | scripts/ecommerce-full-etl.py:94-105 | after k corrected rounds, row c holds `[c, Up(c,1), ..., Up(c,k)]`, cut at the first undefined hop, and the pointer is the parent of `Up(c,k)` |
| `CategoryHierarchy.AncestorStep` | scripts/ecommerce-full-etl.py:95-104 | one corrected round extends the path by exactly one hop of the parent relation |
| `CategoryHierarchy.BuildAncestorPath` | scripts/ecommerce-full-etl.py:90-106 | the corrected five-round loop yields one row per category, with the one-hop-per-round path |
| `CategoryHierarchy.AncestorPathIsParentChain` | scripts/ecommerce-full-etl.py:90-106 | the corrected path starts at c, each entry's parent is the next entry, it has at most 6 entries, and it is shorter only when its last entry has no parent with a row |
| `CategoryHierarchy.ChainReachesRoot` | scripts/ecommerce-full-etl.py:90-106 | with the corrected loop, the chain D → C → B → A gives `[D, C, B, A]` |
| `Enrichment.JoinItemAttributes` | scripts/ecommerce-full-etl.py:111 | the left join by item_id keeps every event in place, with the item's pivot record, or all-absent attributes when the item has none |
| `Enrichment.CategoryKey` | scripts/ecommerce-full-etl.py:114 | the join key is present exactly when `categoryid` is present and casts to a bigint |
| `Enrichment.JoinCategoryRow` | scripts/ecommerce-full-etl.py:114-118 | the event and its attributes are kept, and the path is present exactly when the cast `categoryid` names a hierarchy row |
| `Enrichment.JoinCategoryHierarchy` | scripts/ecommerce-full-etl.py:114-118 | the left join with the hierarchy keeps exactly one row per input row, in place |
| `Enrichment.EnrichEvents` | scripts/ecommerce-full-etl.py:111-118 | one output row per event, in place, each carrying its own event (the joined columns: `EnrichEventsSpec`) |
| `Enrichment.EnrichEventsSpec` | scripts/ecommerce-full-etl.py:111-118 | the two joins neither drop nor duplicate events; an unmatched item, or an absent, uncastable or unmatched `categoryid`, leaves nulls instead of dropping the row; a matched row carries the hierarchy row of exactly that category |
| `Enrichment.RunJob` | scripts/ecommerce-full-etl.py:34-118 | no more enriched rows than raw events, all of a tracked type; the snapshot has one entry per (item_id, property_name) of the change log; the hierarchy has one row per category of the cleaned table (the joined columns: `RunJobSpec`) |
| `Enrichment.RunJobSpec` | scripts/ecommerce-full-etl.py:34-118 | one enriched row per tracked event, in order; its attributes are the pivot of the latest properties of its item; a present path belongs to a category of the tree, starts at that category and has 1 to 6 entries |

## Findings

| source | as written | input that shows it | evidently intended | confidence | as-written member | corrected member |
|---|---|---|---|---|---|---|
| scripts/ecommerce-full-etl.py:95-96 | each round joins the frame with its own updated copy, so the pointer jumps 1, 2, 4, 8 and then 16 hops, and ancestors in between are skipped | the chain 4 → 3 → 2 → 1 gives category 4 the path `[4, 3, 2]`; the root 1 would be at distance 4, which no round visits | one parent per round, joining with `category_clean`, which gives `[4, 3, 2, 1]` | medium (the code calls itself "simplified"), not executed | `CategoryHierarchy.ChainSkipsRoot` | `CategoryHierarchy.AncestorPathIsParentChain` |

The published `category_hierarchy` and `RunJob` keep the as-written builder,
because that is what the job computes. The join lemmas (`EnrichEventsSpec`)
hold for any hierarchy frame, so they also hold for `AncestorPaths`.

## Left out

- Glue and Spark setup, catalog reads, the parquet writes to S3 and
  `job.commit` (lines 13-32, 49-53, 78-82, 121-145) are I/O and
  orchestration. `RunJob` returns the three datasets instead of writing them.
- `event_time` and `property_time` (`timestamp / 1000` cast to a timestamp)
  are kept as the epoch-millisecond value, which orders rows the same way.
  `event_date` is given by a parameter `dateOf`, because `date_format`
  depends on the session time zone and the date library.
- `PropertySnapshot.NumericText`: stops at the text before the float cast.
  The float parse, with null for text such as `"abc"`, is not modelled.
- `Casts.CastBigint`: accepts only an optional sign followed by digits, with
  null outside the 64-bit range. Spark's whitespace trimming and its
  truncation of decimal text such as `"1.5"` are not modelled.
- The `visitorid`, `itemid` and `categoryid` columns are taken to be
  integer columns already, so their bigint cast is the identity. A null or
  uncastable id is not modelled.
- `PropertySnapshot.LatestSnapshot`: Spark breaks ties between equally late
  rows in no stated order, and orders nulls by its own rules. The model
  picks the earliest of the tied rows in input order.
- The dynamic pivot's schema inference, where a column is missing when no
  row has that property, is replaced by a fixed record with three optional
  fields.
- `Enrichment.RunJob` and `CategoryHierarchy.EdgeMap` require unique
  category ids. The row multiplication that duplicate ids would cause in
  the self-join and in the second enrichment join is not modelled.
- Spark promises no row order. The model keeps events in input order, and
  the keyed outputs have no order at all. Distributed execution and
  partitioning have no semantic effect and are not modelled.
