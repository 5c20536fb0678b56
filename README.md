# List utilities of Python_Utils, modelled in Dafny

`utils_lists.dfy` models the stateless list helpers of `lists/utils_lists.py`:
intersection and difference of two lists, the most frequent element,
one-level flattening, the positions where two lists differ, de-duplication
with optional sorting, the positions of an element, the nested-list and
duplicate checks, and the first position of the maximum.

Python lists become `seq<T>`. A hashable element type becomes `T(==)`. Where
the source sorts or takes a maximum, the element type is `int`. A Python list
element that may itself be a list (for `list_is_nested` and
`list_has_duplicates`) becomes `Item<T> = Atom(value) | Nested(items)`. The
exceptions the helpers raise become the `Err` case of `Result<T>`:

- `LengthMismatch`: the `AssertionError` of `find_indexes_where_lists_differ`;
- `EmptyMax`: the `ValueError` of `max([])` in `first_argmax`;
- `EmptyMostCommon`: the `IndexError` of `most_common(1)[0]` in `most_frequent`;
- `NotIterable`: the `TypeError` when `flatten_list` meets a direct element that is not a list;
- `Unhashable`: the `TypeError` when `set()` meets an element that is a list.

Python gives the lists it builds from a `set` no particular order. The model
lists them in order of first occurrence (`Distinct`). Their contracts promise
only which elements they hold and that none is held twice. `Distinct` is also
the key order of `collections.Counter`, which insertion-orders its keys. So
`most_frequent` is modelled exactly, tie-break included:
`most_common(1)` takes the first key with the highest count.

## Model

| member | source | states |
|---|---|---|
| `UtilsLists.FindCommonElements` | lists/utils_lists.py:40-52 | x is in the result iff x is in both lists; the result holds no duplicates |
| `UtilsLists.FindDifferenceList` | lists/utils_lists.py:80-90 | x is in the result iff x is in the first list and not in the second; no duplicates |
| `UtilsLists.CommonAndDifferencePartition` | lists/utils_lists.py:40-90 | every element of the first list is in exactly one of intersection and difference, and their lengths add up to `len(set(list1))` |
| `UtilsLists.MostFrequent` | lists/utils_lists.py:55-65 | fails with an IndexError exactly on the empty list; otherwise returns an element of the list whose count is at least every element's count, and every element met before its first occurrence has a strictly smaller count |
| `UtilsLists.MostFrequentUnique` | lists/utils_lists.py:55-65 | those properties determine the result: any element that has them is the one returned |
| `UtilsLists.Distinct` | lists/utils_lists.py:131 | `list(set(lst))`: the same elements as the input, none twice, no longer than the input |
| `UtilsLists.DistinctKeepsFirstOccurrenceOrder` | lists/utils_lists.py:62-63 | the distinct elements come in the order of their first occurrence in the input, which is the Counter's key order |
| `UtilsLists.DistinctCount` | lists/utils_lists.py:172 | `len(set(s)) <= len(s)`, with equality iff no value occurs twice in `s` |
| `UtilsLists.FlattenList` | lists/utils_lists.py:68-77 | the result's length is the sum of the sublists' lengths, and x is in it iff x is in some sublist |
| `UtilsLists.FlattenListAppend` | lists/utils_lists.py:75 | flattening a concatenation of lists of lists is the concatenation of their flattenings |
| `UtilsLists.FlattenListAt` | lists/utils_lists.py:75 | order is kept: item k of sublist i is at position (total length of sublists 0..i-1) + k |
| `UtilsLists.FlattenItems` | lists/utils_lists.py:170-171 | flattening an arbitrary list succeeds iff every direct element is a list, fails with a TypeError otherwise, and removes exactly one level: the result is the in-order concatenation of the sublists (`FlattenList` of them), so an item is in it iff it is a direct item of one of the sublists |
| `UtilsLists.DifferingIndexes` | lists/utils_lists.py:119 | for equally long lists: strictly increasing, and i is in it iff i is a position where the lists differ |
| `UtilsLists.FindIndexesWhereListsDiffer` | lists/utils_lists.py:108-120 | fails with the length-mismatch assertion iff the lengths differ; otherwise strictly increasing positions, i in it iff the lists differ at i, empty iff the lists are equal |
| `UtilsLists.FindIndexesWhereListsDifferSymmetric` | lists/utils_lists.py:108-120 | swapping the two lists gives the same result, error included |
| `UtilsLists.StrictlyIncreasingDeterminedByElements` | lists/utils_lists.py:119 | an index list that is strictly increasing is determined by its set of indexes (the sorted-order guarantee of the comprehensions at lines 119, 146 and of the sort at line 134) |
| `UtilsLists.FindIdxsOfElementInList` | lists/utils_lists.py:138-148 | strictly increasing positions; i is in it iff position i holds the element; as many positions as the element's count; empty iff the element does not occur |
| `UtilsLists.FirstIdxIsIndex` | lists/utils_lists.py:146 | when the element occurs, the first position found is `lst.index(element)` |
| `UtilsLists.IndexOf` | lists/utils_lists.py:185 | `list.index`: a position holding the value that no earlier position holds |
| `UtilsLists.Sort` | lists/utils_lists.py:134 | `list.sort()` on integers: ascending, and a permutation of the input (same multiset) |
| `UtilsLists.ExtractUniqueElements` | lists/utils_lists.py:123-136 | the same elements as the input, none twice; with `ordered` (true by default) strictly ascending |
| `UtilsLists.ExtractUniqueOrderedDetermined` | lists/utils_lists.py:123-136 | with `ordered`, two lists with the same elements give the same result, so the ordered result does not depend on the set's iteration order |
| `UtilsLists.ListIsNested` | lists/utils_lists.py:151-160 | true iff some direct element is a list |
| `UtilsLists.ListHasDuplicates` | lists/utils_lists.py:163-174 | a list with no nested element: Ok(true) iff some value occurs twice; a nested list: fails if some direct element is not a list, fails if the flattened list still holds a list, and otherwise Ok(true) iff some value occurs twice in the flattened list |
| `UtilsLists.TotalLengthPrefix` | lists/utils_lists.py:75 | the items of sublist i and of the sublists before it all come before the items of any later sublist |
| `UtilsLists.ListHasDuplicatesSharedItem` | lists/utils_lists.py:170-172 | when two different direct sublists hold the same value (and the flattened list holds no list), the answer is true: flattening keeps both copies |
| `UtilsLists.Max` | lists/utils_lists.py:185 | `max` of a non-empty list of integers: an element of the list that no element exceeds |
| `UtilsLists.FirstArgmax` | lists/utils_lists.py:177-187 | fails with a ValueError exactly on the empty list; otherwise an in-range position whose value no element exceeds and that every earlier value is strictly below |
| `UtilsLists.FirstArgmaxUnique` | lists/utils_lists.py:177-187 | those properties determine the result: any position that has them is the one returned |

## Left out

- Pickle save and load (lists/utils_lists.py:7-37) and all of lists/list_utils.py: file-system and serialization I/O.
- `split_list_equal_sized_groups` and `shuffle_two_lists_with_same_order` (lists/utils_lists.py:93-105, 190-206): they depend on a pseudorandom shuffle, the group boundaries use float division and Python's `round`, and the file never imports `random`.
- nifti_and_dicom/utils_nifti_and_dicom.py, numpy/utils_np.py, numeric/numeric_utils.py and strings/utils_strings.py are not part of this model: they wrap image, numpy and date-parsing libraries or do floating-point rounding.
- Helpers such as a top-n `most_common`, slicing by index lists and keeping only duplicates exist only in other revisions of the list module; those revisions are not part of this model.
- FindCommonElements: the order of the result is not stated, because Python's set iteration order is unspecified; the model happens to use first-occurrence order.
- FindDifferenceList: the order of the result is not stated, for the same reason.
- ExtractUniqueElements: with `ordered` false the order is not stated, for the same reason; the element type is `int`, so the `TypeError` that sorting mixed, unorderable values raises is not modelled.
- FirstArgmax: the element type is `int`; maxima of other orderable Python types are not modelled.
- Sort: modelled as insertion sort rather than Timsort; on integers every ascending permutation is the same list, so the result agrees.
- Python's cross-type equality (`1 == 1.0 == True`) is not modelled: elements compare with Dafny's equality of one type.
- FlattenItems: an `Atom` stands for a non-iterable value; any hashable iterable that is not a list (a string, tuple, `frozenset`, `bytes` or `range`), which Python would iterate while flattening, is not modelled and fails with `NotIterable` in the model.
- FindIndexesWhereListsDiffer: under `python -O` the length assertion at lists/utils_lists.py:118 is stripped, and `zip` then compares only the common prefix instead of raising; the model always raises.
