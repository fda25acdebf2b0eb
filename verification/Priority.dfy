/**
  Rule lists ordered by priority. Three components sort their rules stably by
  priority and then take the first rule that applies; what they promise is the
  rule of least priority, the earliest in configuration order among equals.
*/
module Priority {

  import opened Common

  /** `iter().find(p)`. */
  function FirstMatch<T>(s: seq<T>, p: T -> bool): Option<T>
  {
    if s == [] then None else if p(s[0]) then Some(s[0]) else FirstMatch(s[1..], p)
  }

  /** Where a stable sort puts a further element: after every element whose key is not larger. */
  function InsertStable<T>(s: seq<T>, key: T -> int, x: T): seq<T>
  {
    if s == [] then [x]
    else if key(x) < key(s[0]) then [x] + s
    else [s[0]] + InsertStable(s[1..], key, x)
  }

  /** `sort_by_key(key)`, a stable sort. */
  function StableSort<T>(s: seq<T>, key: T -> int): seq<T>
  {
    if s == [] then [] else InsertStable(StableSort(s[..|s| - 1], key), key, s[|s| - 1])
  }

  /** `filter(p).min_by_key(key)`: of several minimal elements the first is kept. */
  function MinByKey<T>(s: seq<T>, key: T -> int, p: T -> bool): Option<T>
  {
    if s == [] then None
    else Better(MinByKey(s[..|s| - 1], key, p), s[|s| - 1], key, p)
  }

  function Better<T>(best: Option<T>, x: T, key: T -> int, p: T -> bool): Option<T>
  {
    if p(x) && (best.None? || key(x) < key(best.value)) then Some(x) else best
  }

  ghost predicate Sorted<T(!new)>(s: seq<T>, key: T -> int)
  {
    forall i, j | 0 <= i < j < |s| :: key(s[i]) <= key(s[j])
  }

  /** Element `i` applies, and every other one that applies has a larger key or comes later. */
  ghost predicate IsLeastAt<T>(s: seq<T>, key: T -> int, p: T -> bool, i: nat)
    requires i < |s|
  {
    p(s[i]) && forall j | 0 <= j < |s| && p(s[j]) :: key(s[i]) < key(s[j]) || (key(s[i]) == key(s[j]) && i <= j)
  }

  /** `r` is the element of least key that applies, the earliest among equals; none if none applies. */
  ghost predicate IsLeast<T(!new)>(s: seq<T>, key: T -> int, p: T -> bool, r: Option<T>)
  {
    match r
    case None => forall j | 0 <= j < |s| :: !p(s[j])
    case Some(x) => exists i: nat | i < |s| :: s[i] == x && IsLeastAt(s, key, p, i)
  }

  lemma {:induction false} InsertKeepsSorted<T(!new)>(s: seq<T>, key: T -> int, x: T)
    requires Sorted(s, key)
    ensures Sorted(InsertStable(s, key, x), key)
    ensures forall y :: y in InsertStable(s, key, x) <==> y in s || y == x
  {
    if s != [] && key(x) >= key(s[0]) {
      InsertKeepsSorted(s[1..], key, x);
      var rest := InsertStable(s[1..], key, x);
      forall j | 0 <= j < |rest| ensures key(s[0]) <= key(rest[j]) {
        assert rest[j] in rest;
      }
      assert s == [s[0]] + s[1..];
    }
  }

  lemma {:induction false} SortIsSorted<T(!new)>(s: seq<T>, key: T -> int)
    ensures Sorted(StableSort(s, key), key)
    ensures forall y :: y in StableSort(s, key) <==> y in s
  {
    if s != [] {
      var init, x := s[..|s| - 1], s[|s| - 1];
      SortIsSorted(init, key);
      InsertKeepsSorted(StableSort(init, key), key, x);
      assert s == init + [x];
    }
  }

  lemma {:induction false} FirstMatchAfterInsert<T(!new)>(s: seq<T>, key: T -> int, p: T -> bool, x: T)
    requires Sorted(s, key)
    ensures FirstMatch(InsertStable(s, key, x), p) == Better(FirstMatch(s, p), x, key, p)
  {
    if s == [] {
    } else if key(x) < key(s[0]) {
      assert ([x] + s)[1..] == s;
      FirstMatchIsMember(s, p);
    } else {
      assert ([s[0]] + InsertStable(s[1..], key, x))[1..] == InsertStable(s[1..], key, x);
      FirstMatchAfterInsert(s[1..], key, p, x);
    }
  }

  lemma {:induction false} FirstMatchIsMember<T(!new)>(s: seq<T>, p: T -> bool)
    ensures FirstMatch(s, p).Some? ==> FirstMatch(s, p).value in s && p(FirstMatch(s, p).value)
    ensures FirstMatch(s, p).None? ==> forall x | x in s :: !p(x)
  {
    if s != [] {
      FirstMatchIsMember(s[1..], p);
      assert s == [s[0]] + s[1..];
    }
  }

  /** Searching the sorted list gives what the unsorted list's `min_by_key` gives. */
  lemma {:induction false} SortedSearchIsMinByKey<T(!new)>(s: seq<T>, key: T -> int, p: T -> bool)
    ensures FirstMatch(StableSort(s, key), p) == MinByKey(s, key, p)
  {
    if s != [] {
      var init, x := s[..|s| - 1], s[|s| - 1];
      SortedSearchIsMinByKey(init, key, p);
      SortIsSorted(init, key);
      FirstMatchAfterInsert(StableSort(init, key), key, p, x);
    }
  }

  lemma {:induction false} MinByKeyIsLeast<T(!new)>(s: seq<T>, key: T -> int, p: T -> bool)
    ensures IsLeast(s, key, p, MinByKey(s, key, p))
  {
    if s != [] {
      var init, x := s[..|s| - 1], s[|s| - 1];
      MinByKeyIsLeast(init, key, p);
      var best := MinByKey(init, key, p);
      if Better(best, x, key, p) != best {
        assert IsLeastAt(s, key, p, |s| - 1) by {
          forall j | 0 <= j < |init| && p(s[j]) ensures key(x) < key(s[j]) {
            assert init[j] == s[j];
          }
        }
      } else if best.Some? {
        var i: nat :| i < |init| && init[i] == best.value && IsLeastAt(init, key, p, i);
        assert IsLeastAt(s, key, p, i) by {
          forall j | 0 <= j < |s| && p(s[j])
            ensures key(s[i]) < key(s[j]) || (key(s[i]) == key(s[j]) && i <= j)
          {
            if j < |init| { assert init[j] == s[j]; }
          }
        }
      }
    }
  }

  lemma LeastIsUnique<T(!new)>(s: seq<T>, key: T -> int, p: T -> bool, r: Option<T>, other: Option<T>)
    requires IsLeast(s, key, p, r) && IsLeast(s, key, p, other)
    ensures r == other
  {
    if r.Some? && other.Some? {
      var i: nat :| i < |s| && s[i] == r.value && IsLeastAt(s, key, p, i);
      var j: nat :| j < |s| && s[j] == other.value && IsLeastAt(s, key, p, j);
      assert p(s[i]) && p(s[j]);
    }
  }

  /**
    The rule a sorted table yields is the one of least priority, earliest in
    configuration order; and looking for the minimum in the sorted list again,
    as two of the lookups do, changes nothing.
  */
  lemma SortedSearchIsLeast<T(!new)>(s: seq<T>, key: T -> int, p: T -> bool)
    ensures IsLeast(s, key, p, FirstMatch(StableSort(s, key), p))
    ensures MinByKey(StableSort(s, key), key, p) == FirstMatch(StableSort(s, key), p)
  {
    SortedSearchIsMinByKey(s, key, p);
    MinByKeyIsLeast(s, key, p);
    SortIsSorted(s, key);
    MinOfSorted(StableSort(s, key), key, p);
  }

  lemma {:induction false} MinOfSorted<T(!new)>(s: seq<T>, key: T -> int, p: T -> bool)
    requires Sorted(s, key)
    ensures MinByKey(s, key, p) == FirstMatch(s, p)
  {
    if s != [] {
      var init, x := s[..|s| - 1], s[|s| - 1];
      MinOfSorted(init, key, p);
      FirstMatchAppend(init, x, p);
      FirstMatchIsMember(init, p);
      assert s == init + [x];
    }
  }

  lemma {:induction false} FirstMatchAppend<T(!new)>(s: seq<T>, x: T, p: T -> bool)
    ensures FirstMatch(s + [x], p) ==
            if FirstMatch(s, p).Some? then FirstMatch(s, p) else if p(x) then Some(x) else None
  {
    if s != [] {
      assert (s + [x])[1..] == s[1..] + [x];
      FirstMatchAppend(s[1..], x, p);
    }
  }
}
