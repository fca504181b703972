# HarfBuzz UCD table preparation, modelled in Dafny

HarfBuzz's `gen-ucd-table.py` reads the Unicode Character Database
repertoire (one record per codepoint) and prepares the data that its packed
UCD table is built from. This project models that preparation and proves
what it guarantees:

- **Property streams**: general category, combining class and script are
  copied per codepoint. The mirroring glyph is stored as the signed distance
  from the codepoint (`property_streams.dfy`).
- **Canonical decomposition encoder**:
  - `dm` holds the canonical, non-`#`, non-Hangul-syllable mappings.
  - The arity assertion rejects mappings of three or more codepoints.
  - `dm1` is the sorted set of singleton targets. It is checked to lie in
    planes 0 and 2 and is split into two arrays of low 16 bits.
  - `dm2` is the sorted list of pairs, each extended with its order field.
  - `filt` splits the pairs into a narrow and a wide array, with the
    assertion that the narrow ones come first.
  - `dm_order` is the combined index the `dm` stream stores.

  The encoder is `decomposition.dfy`. Its laws are in
  `decomposition_laws.dfy`, and the central one is the round trip: every
  stored index decodes back, through the arrays, to the mapping it was made
  from.
- **Enumeration maps**: `gc_order` numbers the thirty general categories in
  both directions. `sc_order` / `sc_array` number the scripts in the order
  the header declares them (`enum_order.dfy`).
- **Profiles**: DEFAULT, COMPACT and SLOPPY are written one after another,
  under `#ifndef HB_OPTIMIZE_SIZE` / `#elif !defined(HB_NO_UCD_UNASSIGNED)` /
  `#else`. Which one a build compiles is proved, and so is the fact that
  only the last one sees filled data (`profiles.dfy`).
- **SLOPPY block fill**: forward and backward in-place passes over the
  general category and script arrays, confined to 128-entry blocks
  (`block_fill.dfy`). The passes are array methods proved equal to a
  functional definition. That definition is characterised completely:
  - only default entries change;
  - a default entry takes the nearest non-default entry before it in its
    block, or else the nearest one after it;
  - an entry stays default exactly when its whole block is default;
  - no value crosses a block boundary.

Support modules:
- `ucd_records.dfy`: the record datatype and `Option`/`Result`.
- `sorting.dfy`: Python's `sorted(set(...))` on integers and `sorted` on
  integer 3-tuples, each with a uniqueness lemma showing it is the only
  possible result.
- `bits.dfy`: Python's `&`, `>>` and `<<` on non-negative integers. These
  are defined bit by bit, and lemmas turn the encoder's masks into plain
  ranges.

A record's position in the input sequence is its codepoint, as in the
generator's `enumerate(ucd)`. Python's unbounded integers are `nat`, with
`int` for the mirroring delta, which can be negative. A Python dict whose
keys mix kinds is either kept as one Dafny map over a sum type, or split
into two maps:
- `dm_order` has keys `None`, 1-tuples and 2-tuples. It becomes one map
  keyed by `Option<seq<nat>>`.
- `gc_order` and `sc_order` have integer and string keys. Each becomes two
  maps, one per key kind, since an integer key never equals a string key.

Four behaviours of the code are easy to misread:
- The backward pass can fill the FIRST entry of a block, from the nearest
  assigned entry after it (`BlockFill.FirstEntryFilled`). An entry stays
  unassigned only when its whole block is.
- A zero mirroring delta does not mean "no mirror": a codepoint that
  mirrors to itself also stores 0 (`PropertyStreams.SelfMirrorIndistinct`).
- The script scan has no check that at least one script was found. None is
  modelled.
- A pair's order field, and the `dm_order` index of a pair, come from the
  codepoint whose mapping it is. A pair shared by two codepoints keeps the
  index of its last position in the sorted `dm2`.

One edge case follows from the code as written. An empty mapping is falsy,
so it passes the arity assertion on line 54. It has no key in `dm_order`,
so the `dm` stream has no index for it (`DecompositionLaws.DmStream`,
`DecompositionLaws.EmptyMappingHasNoIndex`). The repertoire never contains
such a mapping, so this is recorded as behaviour, not as a defect.

## Model

All source paths are under `src/framework/draw/thirdparty/harfbuzz/harfbuzz/src/`.

| member | source | states |
|---|---|---|
| PropertyStreams.BmgStream | src/framework/draw/thirdparty/harfbuzz/harfbuzz/src/gen-ucd-table.py:42 | one delta per record; a codepoint plus its delta is its mirror, or the codepoint itself when the field is empty |
| PropertyStreams.GcStream | src/framework/draw/thirdparty/harfbuzz/harfbuzz/src/gen-ucd-table.py:40 | one general category per record; StreamsRecoverRow states that it gives back each record's field |
| PropertyStreams.CccStream | src/framework/draw/thirdparty/harfbuzz/harfbuzz/src/gen-ucd-table.py:41 | one combining class per record; StreamsRecoverRow states that it gives back each record's field |
| PropertyStreams.ScStream | src/framework/draw/thirdparty/harfbuzz/harfbuzz/src/gen-ucd-table.py:43 | one script per record; StreamsRecoverRow states that it gives back each record's field |
| PropertyStreams.StreamsRecoverRow | src/framework/draw/thirdparty/harfbuzz/harfbuzz/src/gen-ucd-table.py:40-43 | the gc, ccc and sc streams give back each record's fields; a non-zero delta gives back the mirror exactly; a zero delta means no mirror or a self-mirror |
| PropertyStreams.SelfMirrorIndistinct | src/framework/draw/thirdparty/harfbuzz/harfbuzz/src/gen-ucd-table.py:42 | a self-mirroring record and a record with no mirror give the same bmg stream |
| Decomposition.Items | src/framework/draw/thirdparty/harfbuzz/harfbuzz/src/gen-ucd-table.py:50-51 | `dm.items()`: the codepoints of the records that pass the dm filter, in the order the comprehension inserts them (ItemsOfDm, ItemsAscending) |
| Decomposition.ItemsOfDm | src/framework/draw/thirdparty/harfbuzz/harfbuzz/src/gen-ucd-table.py:50-51 | the list walked as `dm.items()` holds exactly dm's entries |
| Decomposition.ItemsAscending | src/framework/draw/thirdparty/harfbuzz/harfbuzz/src/gen-ucd-table.py:50-51 | the items come in strictly ascending codepoint order, which is the order dm's comprehension inserts them |
| Decomposition.Dm | src/framework/draw/thirdparty/harfbuzz/harfbuzz/src/gen-ucd-table.py:50-51 | the dm dictionary; DmEntries characterises its keys and values |
| DecompositionLaws.DmEntries | src/framework/draw/thirdparty/harfbuzz/harfbuzz/src/gen-ucd-table.py:50-51 | a codepoint is in dm exactly when its mapping is not `#`, its type is `can` and it is outside [0xAC00, 0xAC00+11172); its entry is its mapping |
| Decomposition.Ce | src/framework/draw/thirdparty/harfbuzz/harfbuzz/src/gen-ucd-table.py:52 | the composition-exclusion set; OrderFieldCases states how it decides the order field |
| DecompositionLaws.ArityCheck | src/framework/draw/thirdparty/harfbuzz/harfbuzz/src/gen-ucd-table.py:54 | generation aborts on the arity assertion exactly when some mapping has more than two codepoints; an Ok result has only mappings of length at most 2 |
| Decomposition.ArityCheckFails | src/framework/draw/thirdparty/harfbuzz/harfbuzz/src/gen-ucd-table.py:54 | the `any(...)` test of the arity assertion; ArityCheck and TabulateSucceeds characterise it |
| Decomposition.Singletons | src/framework/draw/thirdparty/harfbuzz/harfbuzz/src/gen-ucd-table.py:55 | the one-codepoint targets of dm's values, before `sorted(set(...))`; Dm1Contents characterises the sorted result |
| Sorting.SortedSet | src/framework/draw/thirdparty/harfbuzz/harfbuzz/src/gen-ucd-table.py:55 | `sorted(set(xs))`: strictly ascending, with exactly the values of xs |
| Sorting.StrictlyIncreasingUnique | src/framework/draw/thirdparty/harfbuzz/harfbuzz/src/gen-ucd-table.py:55 | a strictly ascending list is determined by its values, so SortedSet is the only possible result |
| DecompositionLaws.Dm1Contents | src/framework/draw/thirdparty/harfbuzz/harfbuzz/src/gen-ucd-table.py:55 | dm1 is strictly ascending and holds exactly the targets of dm's one-codepoint mappings |
| Decomposition.Dm1 | src/framework/draw/thirdparty/harfbuzz/harfbuzz/src/gen-ucd-table.py:55 | `dm1`, the sorted distinct singleton targets; Dm1Contents characterises it |
| Decomposition.PlanesOk | src/framework/draw/thirdparty/harfbuzz/harfbuzz/src/gen-ucd-table.py:56 | the plane assertion; TabulateSucceeds and PlaneArrays characterise it |
| DecompositionLaws.EncodedSingleton | src/framework/draw/thirdparty/harfbuzz/harfbuzz/src/gen-ucd-table.py:55 | in an Ok result every one-codepoint mapping's target is in dm1 |
| Decomposition.PlaneArray | src/framework/draw/thirdparty/harfbuzz/harfbuzz/src/gen-ucd-table.py:57-58 | the low 16 bits of the dm1 entries in one plane, in dm1's order; PlaneArrays and PlaneParts characterise it |
| DecompositionLaws.PlaneArrays | src/framework/draw/thirdparty/harfbuzz/harfbuzz/src/gen-ucd-table.py:56-58 | for dm1 in planes 0 and 2, p0 followed by p2 has dm1's length, its k-th entry is the low 16 bits of dm1[k], and the plane-0 entries are exactly the first len(p0) |
| DecompositionLaws.PlaneParts | src/framework/draw/thirdparty/harfbuzz/harfbuzz/src/gen-ucd-table.py:57-58 | a plane-0 value equals its low 16 bits; a plane-2 value equals 0x20000 plus them |
| DecompositionLaws.SingletonIndexPlane | src/framework/draw/thirdparty/harfbuzz/harfbuzz/src/gen-ucd-table.py:57-59 | a singleton's index lies in 1..len(dm1), and it is at most len(p0) exactly when the target is in plane 0 |
| Sorting.SortTriples | src/framework/draw/thirdparty/harfbuzz/harfbuzz/src/gen-ucd-table.py:61-62 | `sorted` on 3-tuples: ascending in tuple order and a permutation of the input |
| Sorting.SortedTriplesUnique | src/framework/draw/thirdparty/harfbuzz/harfbuzz/src/gen-ucd-table.py:61-62 | two sorted lists with the same multiset are equal, so SortTriples is the only possible result |
| DecompositionLaws.Dm2Contents | src/framework/draw/thirdparty/harfbuzz/harfbuzz/src/gen-ucd-table.py:61-62 | dm2 is sorted by (first, second, order), and a triple is in it exactly when some two-codepoint mapping yields it with its codepoint's order field; Dm2Count gives how often |
| Decomposition.Dm2 | src/framework/draw/thirdparty/harfbuzz/harfbuzz/src/gen-ucd-table.py:61-62 | `dm2`, the sorted pair entries; Dm2Contents and Dm2Count characterise it |
| DecompositionLaws.Dm2Count | src/framework/draw/thirdparty/harfbuzz/harfbuzz/src/gen-ucd-table.py:61-62 | dm2 holds each triple once for every codepoint whose two-codepoint mapping, with that codepoint's order field, yields it, so a mapping shared by several codepoints with equal order fields occurs several times |
| DecompositionLaws.EntriesCount | src/framework/draw/thirdparty/harfbuzz/harfbuzz/src/gen-ucd-table.py:61-62 | before sorting, the generator's list holds e once for each item whose two-codepoint mapping yields it, whatever the items |
| DecompositionLaws.ItemsCount | src/framework/draw/thirdparty/harfbuzz/harfbuzz/src/gen-ucd-table.py:50-51 | the items yielding e are exactly one per codepoint whose record is in dm and yields e |
| Decomposition.PairEntries | src/framework/draw/thirdparty/harfbuzz/harfbuzz/src/gen-ucd-table.py:61-62 | the (first, second, order) triple of each two-codepoint item; Dm2Contents characterises its sorted form |
| Decomposition.OrderField | src/framework/draw/thirdparty/harfbuzz/harfbuzz/src/gen-ucd-table.py:61 | the third component of a dm2 entry; OrderFieldCases states its two cases |
| DecompositionLaws.OrderFieldCases | src/framework/draw/thirdparty/harfbuzz/harfbuzz/src/gen-ucd-table.py:61 | the order field is the codepoint when it is not excluded from composition and has combining class 0, and 0 otherwise |
| DecompositionLaws.PairInDm2 | src/framework/draw/thirdparty/harfbuzz/harfbuzz/src/gen-ucd-table.py:61-62 | every two-codepoint mapping of dm appears among dm2's pairs |
| DecompositionLaws.EncodedPair | src/framework/draw/thirdparty/harfbuzz/harfbuzz/src/gen-ucd-table.py:61-62 | in an Ok result every two-codepoint mapping appears among dm2's pairs |
| Decomposition.Filt | src/framework/draw/thirdparty/harfbuzz/harfbuzz/src/gen-ucd-table.py:64-66 | the exact mask test of `filt`; FiltRanges gives its range form |
| Decomposition.NarrowPart | src/framework/draw/thirdparty/harfbuzz/harfbuzz/src/gen-ucd-table.py:67 | the filt entries of dm2 in order; SplitMembers states their contents and SplitCheck the line-69 assertion |
| Decomposition.WidePart | src/framework/draw/thirdparty/harfbuzz/harfbuzz/src/gen-ucd-table.py:68 | the other entries of dm2 in order; SplitMembers and SplitCheck characterise it with NarrowPart |
| DecompositionLaws.FiltRanges | src/framework/draw/thirdparty/harfbuzz/harfbuzz/src/gen-ucd-table.py:64-66 | for values below 2^32, filt holds exactly when first < 0x800, 0x0300 <= second <= 0x037F, order < 0x100000 and order's low 16 bits < 0x4000 |
| DecompositionLaws.SplitMembers | src/framework/draw/thirdparty/harfbuzz/harfbuzz/src/gen-ucd-table.py:67-68 | the narrow array holds only filt entries, the wide one only others, and together they are a permutation of dm2 |
| DecompositionLaws.SplitCheck | src/framework/draw/thirdparty/harfbuzz/harfbuzz/src/gen-ucd-table.py:69 | the assertion that narrow + wide == dm2 holds exactly when no narrow entry follows a wide one |
| DecompositionLaws.EnumerateLast | src/framework/draw/thirdparty/harfbuzz/harfbuzz/src/gen-ucd-table.py:74 | the dict comprehension has a key exactly for the listed keys, with the position of its LAST occurrence plus the base |
| Decomposition.Enumerate | src/framework/draw/thirdparty/harfbuzz/harfbuzz/src/gen-ucd-table.py:74 | the `{key: i + base for i, key in enumerate(keys)}` comprehension, used for dm1_order on line 59 and dm2_order on line 74; EnumerateLast characterises it |
| Decomposition.SingletonKeys | src/framework/draw/thirdparty/harfbuzz/harfbuzz/src/gen-ucd-table.py:59 | the 1-tuple key of each dm1 entry; DmOrderKeys and DmOrderSingleton characterise it |
| Decomposition.PairKeys | src/framework/draw/thirdparty/harfbuzz/harfbuzz/src/gen-ucd-table.py:74 | the `v[1]` key of each dm2 entry, its pair without the order field; DmOrderKeys and DmOrderPair characterise it |
| DecompositionLaws.DmOrderKeys | src/framework/draw/thirdparty/harfbuzz/harfbuzz/src/gen-ucd-table.py:76-78 | dm_order maps None to 0 and has keys for None, the one-tuples of dm1 and the pairs of dm2, and nothing else |
| DecompositionLaws.DmOrderSingleton | src/framework/draw/thirdparty/harfbuzz/harfbuzz/src/gen-ucd-table.py:59 | the k-th entry of dm1 keeps index k + 1 after the updates: no pair key overwrites it |
| DecompositionLaws.DmOrderPair | src/framework/draw/thirdparty/harfbuzz/harfbuzz/src/gen-ucd-table.py:73-74 | a pair's index is l + j for the last position j of dm2 holding that pair, where l = 1 + len(p0) + len(p2) |
| DecompositionLaws.TabulateOk | src/framework/draw/thirdparty/harfbuzz/harfbuzz/src/gen-ucd-table.py:54-78 | when all three assertions pass, the tables are p0, p2, the narrow and wide parts, and dm_order as laid out on lines 73-78 |
| DecompositionLaws.TabulateSucceeds | src/framework/draw/thirdparty/harfbuzz/harfbuzz/src/gen-ucd-table.py:54-69 | the encoder returns Ok exactly when the arity, plane and split assertions all hold, and otherwise fails with the error of the first that does not |
| Decomposition.Tabulate | src/framework/draw/thirdparty/harfbuzz/harfbuzz/src/gen-ucd-table.py:54-78 | the three assertions in source order, then p0, p2, the narrow and wide arrays and dm_order; TabulateSucceeds states when it succeeds and with which error it fails; TabulateOk states the layout of an Ok result |
| DecompositionLaws.EncodeOk | src/framework/draw/thirdparty/harfbuzz/harfbuzz/src/gen-ucd-table.py:50-78 | an Ok result is built from dm, dm1 and dm2 of the input and has the layout TabulateOk states |
| DecompositionLaws.EncodeSucceeds | src/framework/draw/thirdparty/harfbuzz/harfbuzz/src/gen-ucd-table.py:50-69 | encoding a repertoire succeeds exactly when its dm passes the arity test, its dm1 the plane test and its dm2 the split test |
| Decomposition.Encode | src/framework/draw/thirdparty/harfbuzz/harfbuzz/src/gen-ucd-table.py:50-78 | the decomposition encoder on a repertoire; EncodeOk, RoundTrip and DmStream characterise it |
| DecompositionLaws.DecodeSingleton | src/framework/draw/thirdparty/harfbuzz/harfbuzz/src/gen-ucd-table.py:57-59 | index k + 1 decodes, through p0 or p2, to the k-th entry of dm1 |
| DecompositionLaws.SingletonRoundTrip | src/framework/draw/thirdparty/harfbuzz/harfbuzz/src/gen-ucd-table.py:55-59 | every singleton target has an index, in range, that decodes back to it |
| DecompositionLaws.PairRoundTrip | src/framework/draw/thirdparty/harfbuzz/harfbuzz/src/gen-ucd-table.py:67-74 | every pair of dm2 has an index, in range, that decodes back to it through the narrow or wide array |
| DecompositionLaws.RoundTrip | src/framework/draw/thirdparty/harfbuzz/harfbuzz/src/gen-ucd-table.py:50-78 | every non-empty mapping in dm has a dm_order index below the table size, and decoding that index gives the mapping back |
| DecompositionLaws.DmStream | src/framework/draw/thirdparty/harfbuzz/harfbuzz/src/gen-ucd-table.py:73-78 | the dm stream stores 0 for a codepoint outside dm, which decodes to no mapping, and for any other codepoint an index that decodes to its mapping; only an empty mapping has no index |
| Decomposition.DmIndex | src/framework/draw/thirdparty/harfbuzz/harfbuzz/src/gen-ucd-table.py:186 | the value the dm dataset holds for a codepoint: `dm_order[None]` outside dm, `dm_order` of its mapping inside; DmStream characterises it |
| DecompositionLaws.EmptyMappingHasNoIndex | src/framework/draw/thirdparty/harfbuzz/harfbuzz/src/gen-ucd-table.py:54 | a canonical record with an empty mapping passes the arity assertion, the encoder succeeds, and the record has no dm_order index |
| EnumOrder.GcTagsDistinct | src/framework/draw/thirdparty/harfbuzz/harfbuzz/src/gen-ucd-table.py:84-86 | the thirty general-category tags are pairwise distinct |
| EnumOrder.BuildGcOrder | src/framework/draw/thirdparty/harfbuzz/harfbuzz/src/gen-ucd-table.py:83-88 | gc_order numbers tag i as i, and its two directions are inverse bijections between 0..29 and the thirty tags |
| EnumOrder.Matched | src/framework/draw/thirdparty/harfbuzz/harfbuzz/src/gen-ucd-table.py:93-95 | the regex matches of the header's lines in file order, skipping lines that do not match; MatchedMembers characterises it |
| EnumOrder.MatchedMembers | src/framework/draw/thirdparty/harfbuzz/harfbuzz/src/gen-ucd-table.py:93-95 | a match is kept exactly when some line produced it |
| EnumOrder.BuildScOrder | src/framework/draw/thirdparty/harfbuzz/harfbuzz/src/gen-ucd-table.py:90-101 | sc_array lists the matched identifiers in file order; number k maps to the k-th tag; a tag maps to its last position; each tag's number maps back to it |
| EnumOrder.AppendMatch | src/framework/draw/thirdparty/harfbuzz/harfbuzz/src/gen-ucd-table.py:96-101 | one matching line appends its identifier, numbers its tag by the next position and overwrites an earlier number for the same tag |
| Profiles.CompressionLevel | src/framework/draw/thirdparty/harfbuzz/harfbuzz/src/gen-ucd-table.py:110-114 | DEFAULT compresses at level 5, COMPACT and SLOPPY at 9 |
| Profiles.Guard | src/framework/draw/thirdparty/harfbuzz/harfbuzz/src/gen-ucd-table.py:158-163 | the condition opening each profile's section; ActiveProfile states which profile they select |
| Profiles.FirstActive | src/framework/draw/thirdparty/harfbuzz/harfbuzz/src/gen-ucd-table.py:158-165 | an #if/#elif/#else chain compiles the first section whose condition holds, and none when no condition holds |
| Profiles.ActiveProfile | src/framework/draw/thirdparty/harfbuzz/harfbuzz/src/gen-ucd-table.py:154-165 | the compiled profile is DEFAULT unless HB_OPTIMIZE_SIZE is defined, else COMPACT unless HB_NO_UCD_UNASSIGNED is defined, else SLOPPY |
| Profiles.PackAllProfiles | src/framework/draw/thirdparty/harfbuzz/harfbuzz/src/gen-ucd-table.py:154-186 | DEFAULT and COMPACT pack the streams as read; SLOPPY, last, packs them block-filled with Cn and Zzzz and leaves them filled |
| BlockFill.ForwardPass | src/framework/draw/thirdparty/harfbuzz/harfbuzz/src/gen-ucd-table.py:169-171 | the in-place forward pass leaves the array equal to ForwardFilled of its old contents |
| BlockFill.ForwardFilled | src/framework/draw/thirdparty/harfbuzz/harfbuzz/src/gen-ucd-table.py:169-171 | the whole stream after the forward pass; ForwardPass is proved to compute it, and FwdNearest and FwdAllDefault give each entry |
| BlockFill.BackwardPass | src/framework/draw/thirdparty/harfbuzz/harfbuzz/src/gen-ucd-table.py:172-174 | the in-place backward pass leaves the array equal to BackwardFilled of its old contents |
| BlockFill.BackwardFilled | src/framework/draw/thirdparty/harfbuzz/harfbuzz/src/gen-ucd-table.py:172-174 | the whole stream after the backward pass; BackwardPass is proved to compute it, and BwdNearest and BwdAllDefault give each entry |
| BlockFill.FillBlocks | src/framework/draw/thirdparty/harfbuzz/harfbuzz/src/gen-ucd-table.py:168-180 | both passes leave the array equal to Filled of its old contents |
| BlockFill.Fwd | src/framework/draw/thirdparty/harfbuzz/harfbuzz/src/gen-ucd-table.py:169-171 | entry i after the forward pass; FwdNearest and FwdAllDefault characterise it |
| BlockFill.Bwd | src/framework/draw/thirdparty/harfbuzz/harfbuzz/src/gen-ucd-table.py:172-174 | entry i after the backward pass; BwdNearest and BwdAllDefault characterise it |
| BlockFill.Filled | src/framework/draw/thirdparty/harfbuzz/harfbuzz/src/gen-ucd-table.py:168-180 | the stream after both passes; FilledKeepsNonDefault, FilledFromBefore, FilledFromAfter and FilledDefaultIff characterise it |
| BlockFill.FwdNearest | src/framework/draw/thirdparty/harfbuzz/harfbuzz/src/gen-ucd-table.py:169-171 | after the forward pass an entry holds the nearest non-default entry at or before it in its block |
| BlockFill.FwdAllDefault | src/framework/draw/thirdparty/harfbuzz/harfbuzz/src/gen-ucd-table.py:169-171 | after the forward pass an entry stays default when its block up to it is all default |
| BlockFill.BwdNearest | src/framework/draw/thirdparty/harfbuzz/harfbuzz/src/gen-ucd-table.py:172-174 | after the backward pass an entry holds the nearest non-default entry at or after it in its block |
| BlockFill.BwdAllDefault | src/framework/draw/thirdparty/harfbuzz/harfbuzz/src/gen-ucd-table.py:172-174 | after the backward pass an entry stays default when its block from it on is all default |
| BlockFill.FilledKeepsNonDefault | src/framework/draw/thirdparty/harfbuzz/harfbuzz/src/gen-ucd-table.py:168-180 | only default entries change |
| BlockFill.FilledFromBefore | src/framework/draw/thirdparty/harfbuzz/harfbuzz/src/gen-ucd-table.py:168-180 | a default entry with a non-default entry before it in its block takes the nearest such |
| BlockFill.FilledFromAfter | src/framework/draw/thirdparty/harfbuzz/harfbuzz/src/gen-ucd-table.py:168-180 | a default entry with only default entries before it in its block takes the nearest non-default entry after it |
| BlockFill.FilledDefaultIff | src/framework/draw/thirdparty/harfbuzz/harfbuzz/src/gen-ucd-table.py:168-180 | an entry is default after the fill exactly when its whole block was default |
| BlockFill.FilledSource | src/framework/draw/thirdparty/harfbuzz/harfbuzz/src/gen-ucd-table.py:168-180 | in a block with a non-default entry, every entry ends up as some non-default entry of that block |
| BlockFill.FilledStaysInBlock | src/framework/draw/thirdparty/harfbuzz/harfbuzz/src/gen-ucd-table.py:168-180 | every entry after the fill is an entry of its own block before it: no value crosses a block boundary |
| BlockFill.FirstEntryFilled | src/framework/draw/thirdparty/harfbuzz/harfbuzz/src/gen-ucd-table.py:172-174 | an unassigned first entry of a block takes the next assigned value: Filled(["Cn", "Lu"], "Cn") == ["Lu", "Lu"] |

## Left out

- The packTab library (lines 17-22, 135-141 and 183-190). Its source is not
  part of this model. The repertoire is an input sequence of records with
  the fields already parsed (`int(v, 16)`, `int(u['ccc'])`, `split()`).
  Packing is represented only by the data handed to the packer
  (`Profiles.Pack`). The lookups that `pack_table` makes through `gc_order`
  and `sc_order` are not modelled. Its lookup through `dm_order` is
  modelled as `Decomposition.DmIndex`.
- The `HB_CODEPOINT_ENCODE3` and `HB_CODEPOINT_ENCODE3_11_7_14` word layouts
  (lines 70-71). They are C macros from headers that are not part of this
  model. The narrow and wide arrays keep the triples. `Decomposition.Decode`
  reads them back directly, as the decoder in `hb-ucd.cc` would after
  unpacking. That decoder is not part of this model.
- The regular expression and the reading of hb-common.h (lines 92-95). The
  scan's input is the per-line match result (`Option<ScriptMatch>`), and
  matching itself is not modelled.
- The argument-count check and `sys.exit` (lines 13-14), logging, and all
  printed text: comments, header guards, `#include` and `#endif` (lines
  116-130, 157-166 and 192-200). Only the guard conditions are modelled.
- The unreachable `else: assert False` branch of the profile loop (lines
  164-165). Profiles are a three-constructor datatype, so it cannot occur.
- `Profiles.PackAllProfiles`: the pack record carries only the gc and sc
  streams, the two the loop mutates. The ccc, bmg and dm datasets go
  unchanged into every profile.
- Two representation changes that do not change behaviour. First, line
  61 sorts pairs `(v + (order,), v)`, and lines 67-69 and 74 read
  `v[0]` and `v[1]` from them. The model sorts the triples
  `v + (order,)` directly: the second component is the triple's first
  two fields, so the order, the narrow/wide split, the line-69 check and
  the `dm2_order` keys are the same. Second, lines 57-58 format each
  entry as a `'0x%04Xu'` string. The model keeps the number.
- `DecompositionLaws.FiltRanges`: the plain-range form is stated only for
  values below 2^32, the codepoint range. `Decomposition.Filt` itself is
  modelled exactly for all non-negative integers.
