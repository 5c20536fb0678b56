/**
 * A model of the stateless list helpers of lists/utils_lists.py.
 *
 * Python lists become `seq<T>`; a hashable element type becomes `T(==)`;
 * an orderable element type becomes `int`. The exceptions the helpers raise
 * become the `Err` case of `Result`. Results that Python builds from a `set`
 * have no specified order: the model lists them in order of first occurrence,
 * and the contracts promise only their element set and that they hold no
 * duplicates.
 */
module UtilsLists {

  /** The exceptions the modelled helpers can raise. */
  datatype Error =
    | LengthMismatch   // AssertionError: find_indexes_where_lists_differ on lists of different lengths
    | EmptyMax         // ValueError: max() of an empty list, in first_argmax
    | EmptyMostCommon  // IndexError: most_common(1)[0] of an empty Counter, in most_frequent
    | NotIterable      // TypeError: flatten_list meets an element that is not a list
    | Unhashable       // TypeError: set() meets an element that is a list

  datatype Result<T> = Ok(value: T) | Err(error: Error)

  /**
   * An element of a Python list as list_is_nested sees it: either a list
   * (`Nested`) or some other, hashable and non-iterable, value (`Atom`).
   */
  datatype Item<T> = Atom(value: T) | Nested(items: seq<Item<T>>)

  // ---------------------------------------------------------------------
  // Vocabulary about sequences
  // ---------------------------------------------------------------------

  /** The elements of `s` as a set: Python's `set(s)`. */
  function Elems<T(!new)>(s: seq<T>): set<T>
  {
    set x | x in s
  }

  ghost predicate NoDuplicates<T(!new)>(s: seq<T>)
  {
    forall i, j :: 0 <= i < j < |s| ==> s[i] != s[j]
  }

  /** How often `x` occurs in `s`: `Counter(s)[x]`. */
  function Count<T(==,!new)>(s: seq<T>, x: T): nat
  {
    multiset(s)[x]
  }

  ghost predicate StrictlyIncreasing(s: seq<int>)
  {
    forall i, j :: 0 <= i < j < |s| ==> s[i] < s[j]
  }

  /** Appending a bound larger than every element keeps a sequence strictly increasing. */
  lemma StrictlyIncreasingAppend(p: seq<int>, n: int)
    requires StrictlyIncreasing(p)
    requires forall x :: x in p ==> x < n
    ensures StrictlyIncreasing(p + [n])
  {
    forall i, j | 0 <= i < j < |p| + 1 ensures (p + [n])[i] < (p + [n])[j] {
      if j == |p| {
        assert p[i] in p;
      }
    }
  }

  ghost predicate Ascending(s: seq<int>)
  {
    forall i, j :: 0 <= i < j < |s| ==> s[i] <= s[j]
  }

  /** `s.index(x)`: the first position of `s` that holds `x`. */
  function IndexOf<T(==,!new)>(s: seq<T>, x: T): (r: nat)
    requires x in s
    ensures r < |s| && s[r] == x
    ensures forall j :: 0 <= j < r ==> s[j] != x
  {
    if s[0] == x then 0 else 1 + IndexOf(s[1..], x)
  }

  /** A position that holds `x` and is preceded only by other values is the first one. */
  lemma IndexOfIsFirst<T(!new)>(s: seq<T>, x: T, k: nat)
    requires k < |s| && s[k] == x
    requires forall j :: 0 <= j < k ==> s[j] != x
    ensures IndexOf(s, x) == k
  {
  }

  /**
   * The distinct elements of `s`, each kept at its first occurrence. This is
   * the key order of `collections.Counter(s)`, and one admissible iteration
   * order of `set(s)`.
   */
  function Distinct<T(==,!new)>(s: seq<T>): (r: seq<T>)
    ensures NoDuplicates(r)
    ensures forall x :: x in r <==> x in s
    ensures |r| <= |s|
  {
    if s == [] then []
    else
      var p, last := s[..|s| - 1], s[|s| - 1];
      assert s == p + [last];
      var d := Distinct(p);
      if last in p then d else d + [last]
  }

  /**
   * `len(set(s)) == len(s)` exactly when `s` holds no element twice, and the
   * set is never larger than the list.
   */
  lemma {:induction false} DistinctCount<T(!new)>(s: seq<T>)
    ensures |Elems(s)| <= |s|
    ensures |Elems(s)| == |s| <==> NoDuplicates(s)
  {
    if s != [] {
      var p, last := s[..|s| - 1], s[|s| - 1];
      assert s == p + [last];
      DistinctCount(p);
      assert Elems(s) == Elems(p) + {last};
      if last in p {
        assert Elems(s) == Elems(p);
        var i := IndexOf(p, last);
        assert s[i] == s[|s| - 1];
      } else {
        assert last !in Elems(p);
        assert |Elems(s)| == |Elems(p)| + 1;
        if NoDuplicates(p) {
          forall i, j | 0 <= i < j < |s| ensures s[i] != s[j] {
            if j < |s| - 1 {
              assert s[i] == p[i] && s[j] == p[j];
            } else {
              assert s[i] in p;
            }
          }
        } else {
          var i, j :| 0 <= i < j < |p| && p[i] == p[j];
          assert s[i] == s[j];
        }
      }
    }
  }

  /** Distinct lists the values of `s` in the order of their first occurrence in `s`. */
  lemma {:induction false} DistinctKeepsFirstOccurrenceOrder<T(!new)>(s: seq<T>, x: T, y: T)
    requires x in s && y in s
    ensures IndexOf(Distinct(s), x) < IndexOf(Distinct(s), y) <==> IndexOf(s, x) < IndexOf(s, y)
  {
    var n := |s|;
    var p, last := s[..n - 1], s[n - 1];
    assert s == p + [last];
    var d := Distinct(p);
    // A value already in `p` is first met at the same place in `p` as in `s`,
    // and at the same place in `d` as in `Distinct(s)`.
    forall z | z in p
      ensures IndexOf(s, z) == IndexOf(p, z)
      ensures IndexOf(Distinct(s), z) == IndexOf(d, z)
    {
      IndexOfIsFirst(s, z, IndexOf(p, z));
      IndexOfIsFirst(Distinct(s), z, IndexOf(d, z));
    }
    if last in p {
      assert x in p && y in p;
      DistinctKeepsFirstOccurrenceOrder(p, x, y);
    } else {
      assert Distinct(s) == d + [last];
      assert last !in d;
      IndexOfIsFirst(s, last, n - 1);
      IndexOfIsFirst(Distinct(s), last, |d|);
      if x in p && y in p {
        DistinctKeepsFirstOccurrenceOrder(p, x, y);
      }
    }
  }

  /** `[x for x in s if keep(x)]`. */
  function Filter<T(!new)>(s: seq<T>, keep: T -> bool): (r: seq<T>)
    ensures forall x :: x in r <==> x in s && keep(x)
  {
    if s == [] then []
    else (if keep(s[0]) then [s[0]] else []) + Filter(s[1..], keep)
  }

  // ---------------------------------------------------------------------
  // find_common_elements and find_difference_list
  // ---------------------------------------------------------------------

  /** `list(set(list1).intersection(list2))`. */
  function FindCommonElements<T(==,!new)>(list1: seq<T>, list2: seq<T>): (r: seq<T>)
    ensures NoDuplicates(r)
    ensures forall x :: x in r <==> x in list1 && x in list2
  {
    Distinct(Filter(list1, x => x in list2))
  }

  /** `list(set(list1) - set(list2))`. */
  function FindDifferenceList<T(==,!new)>(list1: seq<T>, list2: seq<T>): (r: seq<T>)
    ensures NoDuplicates(r)
    ensures forall x :: x in r <==> x in list1 && x !in list2
  {
    Distinct(Filter(list1, x => x !in list2))
  }

  /**
   * The common elements and the difference split the distinct elements of
   * the first list between them: none is in both, and together they count
   * exactly `len(set(list1))`.
   */
  lemma CommonAndDifferencePartition<T(!new)>(list1: seq<T>, list2: seq<T>)
    ensures forall x :: x in list1 ==>
      (x in FindCommonElements(list1, list2) <==> x !in FindDifferenceList(list1, list2))
    ensures |FindCommonElements(list1, list2)| + |FindDifferenceList(list1, list2)| == |Elems(list1)|
  {
    var c, d := FindCommonElements(list1, list2), FindDifferenceList(list1, list2);
    DistinctCount(c);
    DistinctCount(d);
    assert Elems(list1) == Elems(c) + Elems(d);
    assert Elems(c) * Elems(d) == {};
  }

  // ---------------------------------------------------------------------
  // flatten_list
  // ---------------------------------------------------------------------

  /** The sum of the lengths of the sublists. */
  function TotalLength<T(!new)>(ss: seq<seq<T>>): nat
  {
    if ss == [] then 0 else |ss[0]| + TotalLength(ss[1..])
  }

  /** `[item for sublist in ss for item in sublist]`. */
  function FlattenList<T(!new)>(ss: seq<seq<T>>): (r: seq<T>)
    ensures |r| == TotalLength(ss)
    ensures forall x :: x in r <==> exists i :: 0 <= i < |ss| && x in ss[i]
  {
    if ss == [] then []
    else
      assert forall i :: 0 <= i < |ss| - 1 ==> ss[1..][i] == ss[i + 1];
      ss[0] + FlattenList(ss[1..])
  }

  /** Flattening a concatenation is concatenating the flattenings. */
  lemma {:induction false} FlattenListAppend<T(!new)>(ss: seq<seq<T>>, ts: seq<seq<T>>)
    ensures FlattenList(ss + ts) == FlattenList(ss) + FlattenList(ts)
    ensures TotalLength(ss + ts) == TotalLength(ss) + TotalLength(ts)
  {
    if ss != [] {
      assert (ss + ts)[1..] == ss[1..] + ts;
      FlattenListAppend(ss[1..], ts);
    } else {
      assert ss + ts == ts;
    }
  }

  /**
   * Flattening keeps the order: item `k` of sublist `i` sits right after all
   * the items of the sublists before it.
   */
  lemma FlattenListAt<T(!new)>(ss: seq<seq<T>>, i: nat, k: nat)
    requires i < |ss| && k < |ss[i]|
    ensures TotalLength(ss[..i]) + k < |FlattenList(ss)|
    ensures FlattenList(ss)[TotalLength(ss[..i]) + k] == ss[i][k]
  {
    assert ss == ss[..i] + ([ss[i]] + ss[i + 1..]);
    FlattenListAppend(ss[..i], [ss[i]] + ss[i + 1..]);
    assert ([ss[i]] + ss[i + 1..])[1..] == ss[i + 1..];
  }

  /** The sublists of a list whose direct elements are all lists. */
  function Sublists<T(!new)>(xs: seq<Item<T>>): (r: seq<seq<Item<T>>>)
    requires forall i :: 0 <= i < |xs| ==> xs[i].Nested?
    ensures |r| == |xs| && forall i :: 0 <= i < |xs| ==> r[i] == xs[i].items
  {
    if xs == [] then [] else [xs[0].items] + Sublists(xs[1..])
  }

  /**
   * flatten_list applied to an arbitrary Python list: it fails on a direct
   * element that is not a list, and otherwise removes exactly one level of
   * nesting (lists inside the sublists stay lists).
   */
  function FlattenItems<T(!new)>(xs: seq<Item<T>>): (r: Result<seq<Item<T>>>)
    ensures r.Ok? <==> forall i :: 0 <= i < |xs| ==> xs[i].Nested?
    ensures r.Err? ==> r.error == NotIterable
    ensures r.Ok? ==> forall e :: e in r.value <==> exists i :: 0 <= i < |xs| && e in xs[i].items
    ensures r.Ok? ==> r.value == FlattenList(Sublists(xs))
  {
    if forall i :: 0 <= i < |xs| ==> xs[i].Nested? then
      Ok(FlattenList(Sublists(xs)))
    else
      Err(NotIterable)
  }

  // ---------------------------------------------------------------------
  // find_indexes_where_lists_differ
  // ---------------------------------------------------------------------

  /** The positions, in ascending order, at which two equally long lists differ. */
  function DifferingIndexes<T(==,!new)>(list1: seq<T>, list2: seq<T>): (r: seq<nat>)
    requires |list1| == |list2|
    ensures StrictlyIncreasing(r)
    ensures forall i: nat :: i in r <==> i < |list1| && list1[i] != list2[i]
  {
    if list1 == [] then []
    else
      var n := |list1| - 1;
      var p := DifferingIndexes(list1[..n], list2[..n]);
      if list1[n] != list2[n] then
        StrictlyIncreasingAppend(p, n);
        p + [n]
      else
        p
  }

  /**
   * `find_indexes_where_lists_differ`: fails unless both lists have the same
   * length; otherwise the ascending positions where they differ, none
   * exactly when the lists are equal.
   */
  function FindIndexesWhereListsDiffer<T(==,!new)>(list1: seq<T>, list2: seq<T>): (r: Result<seq<nat>>)
    ensures r.Ok? <==> |list1| == |list2|
    ensures r.Err? ==> r.error == LengthMismatch
    ensures r.Ok? ==> StrictlyIncreasing(r.value)
    ensures r.Ok? ==> forall i: nat :: i in r.value <==> i < |list1| && list1[i] != list2[i]
    ensures r.Ok? ==> (r.value == [] <==> list1 == list2)
  {
    if |list1| != |list2| then Err(LengthMismatch)
    else
      var d := DifferingIndexes(list1, list2);
      assert d != [] ==> d[0] in d;
      Ok(d)
  }

  /** A strictly increasing sequence is determined by its set of elements. */
  lemma {:induction false} StrictlyIncreasingDeterminedByElements(r: seq<int>, t: seq<int>)
    requires StrictlyIncreasing(r) && StrictlyIncreasing(t)
    requires forall x :: x in r <==> x in t
    ensures r == t
  {
    if r != [] || t != [] {
      assert r != [] ==> r[0] in r && r[0] in t;
      assert t != [] ==> t[0] in t && t[0] in r;
      assert r[0] == t[0];
      forall x ensures x in r[1..] <==> x in t[1..] {
        if x in r[1..] {
          assert x in r && x != r[0];
        }
        if x in t[1..] {
          assert x in t && x != t[0];
        }
      }
      StrictlyIncreasingDeterminedByElements(r[1..], t[1..]);
      assert r == [r[0]] + r[1..] && t == [t[0]] + t[1..];
    }
  }

  /** The order of the two arguments does not matter. */
  lemma FindIndexesWhereListsDifferSymmetric<T(!new)>(list1: seq<T>, list2: seq<T>)
    ensures FindIndexesWhereListsDiffer(list1, list2) == FindIndexesWhereListsDiffer(list2, list1)
  {
    if |list1| == |list2| {
      var d1, d2 := FindIndexesWhereListsDiffer(list1, list2).value, FindIndexesWhereListsDiffer(list2, list1).value;
      StrictlyIncreasingDeterminedByElements(d1, d2);
    }
  }

  // ---------------------------------------------------------------------
  // find_idxs_of_element_in_list
  // ---------------------------------------------------------------------

  /**
   * `[i for i, x in enumerate(lst) if x == element]`: the ascending positions
   * holding `element`, as many as it occurs, none exactly when it is absent.
   */
  function FindIdxsOfElementInList<T(==,!new)>(lst: seq<T>, element: T): (r: seq<nat>)
    ensures StrictlyIncreasing(r)
    ensures forall i: nat :: i in r <==> i < |lst| && lst[i] == element
    ensures |r| == Count(lst, element)
    ensures r == [] <==> element !in lst
  {
    if lst == [] then []
    else
      var n := |lst| - 1;
      var p := FindIdxsOfElementInList(lst[..n], element);
      assert lst == lst[..n] + [lst[n]];
      assert multiset(lst) == multiset(lst[..n]) + multiset{lst[n]};
      if lst[n] == element then
        StrictlyIncreasingAppend(p, n);
        p + [n]
      else
        p
  }

  /** The first index found is where `lst.index(element)` points. */
  lemma FirstIdxIsIndex<T(!new)>(lst: seq<T>, element: T)
    requires element in lst
    ensures FindIdxsOfElementInList(lst, element)[0] == IndexOf(lst, element)
  {
    var r := FindIdxsOfElementInList(lst, element);
    var k := IndexOf(lst, element);
    assert r[0] in r;
    assert k in r;
  }

  // ---------------------------------------------------------------------
  // extract_unique_elements
  // ---------------------------------------------------------------------

  /** Put `x` into an ascending list at its place. */
  function Insert(x: int, s: seq<int>): (r: seq<int>)
    requires Ascending(s)
    ensures Ascending(r)
    ensures multiset(r) == multiset(s) + multiset{x}
  {
    if s == [] || x <= s[0] then [x] + s
    else
      var rest := Insert(x, s[1..]);
      assert s == [s[0]] + s[1..];
      InsertKeepsLowerBound(s[0], x, s[1..], rest);
      [s[0]] + rest
  }

  /** A lower bound of `x` and of the elements of `t` is one of every element of `u`, which holds them. */
  lemma InsertKeepsLowerBound(lo: int, x: int, t: seq<int>, u: seq<int>)
    requires lo <= x && forall k :: 0 <= k < |t| ==> lo <= t[k]
    requires multiset(u) == multiset(t) + multiset{x}
    requires Ascending(u)
    ensures Ascending([lo] + u)
  {
    forall k | 0 <= k < |u| ensures lo <= u[k] {
      assert u[k] in multiset(u);
      if u[k] != x {
        assert u[k] in multiset(t);
        var j :| 0 <= j < |t| && t[j] == u[k];
      }
    }
  }

  /** `lst.sort()` on a list of integers: an ascending permutation. */
  function Sort(s: seq<int>): (r: seq<int>)
    ensures Ascending(r)
    ensures multiset(r) == multiset(s)
  {
    if s == [] then []
    else
      assert s == [s[0]] + s[1..];
      Insert(s[0], Sort(s[1..]))
  }

  /**
   * `extract_unique_elements`: each value of the list once; when `ordered`,
   * in strictly ascending order.
   */
  function ExtractUniqueElements(lst: seq<int>, ordered: bool := true): (r: seq<int>)
    ensures NoDuplicates(r)
    ensures forall x :: x in r <==> x in lst
    ensures ordered ==> StrictlyIncreasing(r)
  {
    var u := Distinct(lst);
    if ordered then
      var r := Sort(u);
      assert forall x :: x in r <==> x in multiset(u);
      assert Elems(r) == Elems(u);
      DistinctCount(u);
      DistinctCount(r);
      r
    else
      u
  }

  /** The ordered result is fully determined by the set of values in the list. */
  lemma ExtractUniqueOrderedDetermined(lst1: seq<int>, lst2: seq<int>)
    requires forall x :: x in lst1 <==> x in lst2
    ensures ExtractUniqueElements(lst1, true) == ExtractUniqueElements(lst2, true)
  {
    StrictlyIncreasingDeterminedByElements(ExtractUniqueElements(lst1, true), ExtractUniqueElements(lst2, true));
  }

  // ---------------------------------------------------------------------
  // list_is_nested and list_has_duplicates
  // ---------------------------------------------------------------------

  /** `any(isinstance(i, list) for i in xs)`. */
  function ListIsNested<T(!new)>(xs: seq<Item<T>>): (r: bool)
    ensures r <==> exists i :: 0 <= i < |xs| && xs[i].Nested?
  {
    |xs| > 0 && (xs[0].Nested? || ListIsNested(xs[1..]))
  }

  /**
   * `list_has_duplicates`: a nested list is first flattened one level, which
   * fails if some direct element is not a list; then `set()` fails if an
   * element is (still) a list; otherwise the answer is whether the length
   * and the number of distinct elements differ, that is whether some value
   * occurs twice.
   */
  function ListHasDuplicates<T(==,!new)>(xs: seq<Item<T>>): (r: Result<bool>)
    ensures !ListIsNested(xs) ==> r == Ok(!NoDuplicates(xs))
    ensures ListIsNested(xs) && FlattenItems(xs).Err? ==> r == Err(NotIterable)
    ensures ListIsNested(xs) && FlattenItems(xs).Ok? ==>
      var ys := FlattenItems(xs).value;
      r == if ListIsNested(ys) then Err(Unhashable) else Ok(!NoDuplicates(ys))
  {
    var flat := if ListIsNested(xs) then FlattenItems(xs) else Ok(xs);
    match flat
    case Err(e) => Err(e)
    case Ok(ys) =>
      if ListIsNested(ys) then Err(Unhashable)
      else
        DistinctCount(ys);
        Ok(|ys| != |Elems(ys)|)
  }

  /** The items of the sublists before `j` take up at least the items of sublist `i < j` and those before it. */
  lemma TotalLengthPrefix<T(!new)>(ss: seq<seq<T>>, i: nat, j: nat)
    requires i < j <= |ss|
    ensures TotalLength(ss[..i]) + |ss[i]| <= TotalLength(ss[..j])
  {
    assert ss[..j] == ss[..i] + ss[i..j];
    FlattenListAppend(ss[..i], ss[i..j]);
    assert TotalLength(ss[i..j]) == |ss[i]| + TotalLength(ss[i..j][1..]);
  }

  /**
   * Flattening keeps every copy: a value that two different sublists both
   * hold makes list_has_duplicates answer true, once the flattened list is
   * hashable.
   */
  lemma ListHasDuplicatesSharedItem<T(!new)>(xs: seq<Item<T>>, i: nat, j: nat, k: nat, m: nat)
    requires forall n :: 0 <= n < |xs| ==> xs[n].Nested?
    requires !ListIsNested(FlattenList(Sublists(xs)))
    requires i < j < |xs| && k < |xs[i].items| && m < |xs[j].items|
    requires xs[i].items[k] == xs[j].items[m]
    ensures ListHasDuplicates(xs) == Ok(true)
  {
    var ss := Sublists(xs);
    assert xs[i].Nested?;
    assert ListIsNested(xs);
    FlattenListAt(ss, i, k);
    FlattenListAt(ss, j, m);
    TotalLengthPrefix(ss, i, j);
    var ys := FlattenList(ss);
    var a, b := TotalLength(ss[..i]) + k, TotalLength(ss[..j]) + m;
    assert a < b && ys[a] == ys[b];
  }

  // ---------------------------------------------------------------------
  // first_argmax and most_frequent
  // ---------------------------------------------------------------------

  /** `max(s)` on a non-empty list of integers. */
  function Max(s: seq<int>): (m: int)
    requires |s| > 0
    ensures m in s
    ensures forall j :: 0 <= j < |s| ==> s[j] <= m
  {
    if |s| == 1 then s[0]
    else
      var n := |s| - 1;
      var m := Max(s[..n]);
      assert s == s[..n] + [s[n]];
      if s[n] > m then s[n] else m
  }

  /**
   * `input_list.index(max(input_list))`: fails on the empty list; otherwise
   * the position of a largest value that no earlier value equals.
   */
  function FirstArgmax(s: seq<int>): (r: Result<nat>)
    ensures r.Ok? <==> |s| > 0
    ensures r.Err? ==> r.error == EmptyMax
    ensures r.Ok? ==> r.value < |s|
    ensures r.Ok? ==> forall j :: 0 <= j < |s| ==> s[j] <= s[r.value]
    ensures r.Ok? ==> forall j :: 0 <= j < r.value ==> s[j] < s[r.value]
  {
    if s == [] then Err(EmptyMax)
    else
      var k := IndexOf(s, Max(s));
      assert forall j :: 0 <= j < k ==> s[j] <= s[k] && s[j] != s[k];
      Ok(k)
  }

  /** Its contract pins the result down: any index with those properties is the one returned. */
  lemma FirstArgmaxUnique(s: seq<int>, k: nat)
    requires k < |s|
    requires forall j :: 0 <= j < |s| ==> s[j] <= s[k]
    requires forall j :: 0 <= j < k ==> s[j] < s[k]
    ensures FirstArgmax(s) == Ok(k)
  {
  }

  /**
   * `Counter(s).most_common(1)[0][0]`: fails on the empty list; otherwise an
   * element with the highest count, the first such in order of first
   * occurrence, since `most_common(1)` takes the first maximum over the
   * Counter's keys in insertion order.
   */
  function MostFrequent<T(==,!new)>(s: seq<T>): (r: Result<T>)
    ensures r.Ok? <==> |s| > 0
    ensures r.Err? ==> r.error == EmptyMostCommon
    ensures r.Ok? ==> r.value in s
    ensures r.Ok? ==> forall y :: y in s ==> Count(s, y) <= Count(s, r.value)
    ensures r.Ok? ==> forall j :: 0 <= j < IndexOf(s, r.value) ==> Count(s, s[j]) < Count(s, r.value)
  {
    if s == [] then Err(EmptyMostCommon)
    else
      var keys := Distinct(s);
      var counts := seq(|keys|, i requires 0 <= i < |keys| => Count(s, keys[i]));
      var k := FirstArgmax(counts).value;
      MostFrequentIsFirstMax(s, keys, counts, k);
      Ok(keys[k])
  }

  /** The facts behind MostFrequent's contract. */
  lemma MostFrequentIsFirstMax<T(!new)>(s: seq<T>, keys: seq<T>, counts: seq<int>, k: nat)
    requires keys == Distinct(s)
    requires |counts| == |keys| && forall i :: 0 <= i < |keys| ==> counts[i] == Count(s, keys[i])
    requires k < |counts|
    requires forall j :: 0 <= j < |counts| ==> counts[j] <= counts[k]
    requires forall j :: 0 <= j < k ==> counts[j] < counts[k]
    ensures keys[k] in s
    ensures forall y :: y in s ==> Count(s, y) <= Count(s, keys[k])
    ensures forall j :: 0 <= j < IndexOf(s, keys[k]) ==> Count(s, s[j]) < Count(s, keys[k])
  {
    var v := keys[k];
    assert v in keys;
    forall y | y in s ensures Count(s, y) <= Count(s, v) {
      var i := IndexOf(keys, y);
    }
    IndexOfIsFirst(keys, v, k);
    forall j | 0 <= j < IndexOf(s, v) ensures Count(s, s[j]) < Count(s, v) {
      var y := s[j];
      IndexOfIsFirst(s, y, IndexOf(s, y));
      DistinctKeepsFirstOccurrenceOrder(s, y, v);
      var i := IndexOf(keys, y);
      assert i < k;
    }
  }

  /** Its contract pins the result down: ties go to the element met first. */
  lemma MostFrequentUnique<T(!new)>(s: seq<T>, v: T)
    requires v in s
    requires forall y :: y in s ==> Count(s, y) <= Count(s, v)
    requires forall j :: 0 <= j < IndexOf(s, v) ==> Count(s, s[j]) < Count(s, v)
    ensures MostFrequent(s) == Ok(v)
  {
    var w := MostFrequent(s).value;
    var iw, iv := IndexOf(s, w), IndexOf(s, v);
    assert Count(s, w) == Count(s, v);
    assert Count(s, s[iw]) == Count(s, v) && Count(s, s[iv]) == Count(s, w);
    assert iw == iv;
  }
}
