/**
 * Storage: MenuStorage, MenuSorter and MenuFilter (RestaurantMenu/storage.cpp).
 *
 * MenuStorage owns the list of dishes. The three sorts reorder a vector of
 * dishes in place; here the vector is an array and one insertion sort,
 * parameterised by the comparator, stands for std::sort. The three filters
 * copy the matching dishes in input order and sort the copy.
 */
module Storage {
  import opened Models

  // ---------------------------------------------------------------------
  // Removing a dish
  // ---------------------------------------------------------------------

  /** s without its first occurrence of x; s itself when x does not occur. */
  function RemoveFirst(s: seq<Dish>, x: Dish): seq<Dish> {
    if s == [] then []
    else if s[0] == x then s[1..]
    else [s[0]] + RemoveFirst(s[1..], x)
  }

  /** Removing the first occurrence takes out exactly one copy of x, or nothing when there is none. */
  lemma {:induction false} RemoveFirstEffect(s: seq<Dish>, x: Dish)
    ensures x in s ==> |RemoveFirst(s, x)| == |s| - 1 && multiset(RemoveFirst(s, x)) == multiset(s) - multiset{x}
    ensures x !in s ==> RemoveFirst(s, x) == s
  {
    if s != [] && s[0] != x {
      RemoveFirstEffect(s[1..], x);
      assert s == [s[0]] + s[1..];
    } else if s != [] {
      assert s == [s[0]] + s[1..];
    }
  }

  /** The first occurrence at index i is where the removal happens. */
  lemma {:induction false} RemoveFirstAt(s: seq<Dish>, x: Dish, i: nat)
    requires i < |s| && s[i] == x && x !in s[..i]
    ensures RemoveFirst(s, x) == s[..i] + s[i + 1..]
  {
    if i > 0 {
      assert s[1..][..i - 1] == s[..i][1..];
      RemoveFirstAt(s[1..], x, i - 1);
      assert s[..i] == [s[0]] + s[1..][..i - 1];
    }
  }

  /** MenuStorage: the dishes of the menu, in insertion order. */
  class MenuStorage {
    var dishes: seq<Dish>

    /** An empty storage. */
    constructor()
      ensures dishes == []
    {
      dishes := [];
    }

    /** getDishes(). */
    function GetDishes(): seq<Dish>
      reads this
    {
      dishes
    }

    /** getDishesCount(): how many dishes getDishes() hands back. */
    function GetDishesCount(): (n: nat)
      reads this
      ensures n == |GetDishes()|
    {
      |dishes|
    }

    /** addDish(name, price, hours, minutes): appends the dish with its normalised time. */
    method AddDish(name: string, price: real, hours: int, minutes: int)
      modifies this
      ensures dishes == old(dishes) + [NewDish(name, price, hours, minutes, 0, 0)]
      ensures GetDishesCount() == old(GetDishesCount()) + 1
    {
      dishes := dishes + [NewDish(name, price, hours, minutes, 0, 0)];
    }

    /** clear(): no dishes remain. */
    method Clear()
      modifies this
      ensures dishes == [] && GetDishesCount() == 0
    {
      dishes := [];
    }

    /**
     * removeDish(name, price, time): removes the first dish equal in all
     * three fields and says whether there was one.
     */
    method RemoveDish(name: string, price: real, time: Time) returns (removed: bool)
      modifies this
      ensures removed == (Dish(name, price, time) in old(dishes))
      ensures dishes == RemoveFirst(old(dishes), Dish(name, price, time))
    {
      var target := Dish(name, price, time);
      var i := 0;
      while i < |dishes| && dishes[i] != target
        invariant 0 <= i <= |dishes|
        invariant target !in dishes[..i]
      {
        i := i + 1;
      }
      if i == |dishes| {
        assert dishes[..i] == dishes;
        RemoveFirstEffect(dishes, target);
        return false;
      }
      RemoveFirstAt(dishes, target, i);
      dishes := dishes[..i] + dishes[i + 1..];
      return true;
    }
  }

  /** The storage example: removing one of two dishes that share a name leaves the other. */
  lemma RemoveExample(t1: Time, t2: Time)
    ensures var d1, d2, d3 := Dish("Dish 1", 10.0, t1), Dish("Dish 2", 15.0, t2), Dish("Dish 1", 12.0, t1);
            && RemoveFirst([d1, d2, d3], d1) == [d2, d3]
            && Dish("Missing", 20.0, t1) !in [d1, d2, d3]
            && RemoveFirst([d2, d3], Dish("Missing", 20.0, t1)) == [d2, d3]
  {
    var d1, d2, d3 := Dish("Dish 1", 10.0, t1), Dish("Dish 2", 15.0, t2), Dish("Dish 1", 12.0, t1);
    assert [d1, d2, d3][1..] == [d2, d3];
    RemoveFirstEffect([d2, d3], Dish("Missing", 20.0, t1));
  }

  // ---------------------------------------------------------------------
  // Comparators
  // ---------------------------------------------------------------------

  /** std::string operator<: lexicographic order on characters, a proper prefix first. */
  predicate NameLess(a: string, b: string) {
    if a == [] then b != []
    else if b == [] then false
    else if a[0] != b[0] then a[0] < b[0]
    else NameLess(a[1..], b[1..])
  }

  lemma {:induction false} NameLessIrreflexive(a: string)
    ensures !NameLess(a, a)
  {
    if a != [] {
      NameLessIrreflexive(a[1..]);
    }
  }

  lemma {:induction false} NameLessAsymmetric(a: string, b: string)
    ensures NameLess(a, b) ==> !NameLess(b, a)
  {
    if a != [] && b != [] && a[0] == b[0] {
      NameLessAsymmetric(a[1..], b[1..]);
    }
  }

  lemma {:induction false} NameLessTransitive(a: string, b: string, c: string)
    ensures NameLess(a, b) && NameLess(b, c) ==> NameLess(a, c)
  {
    if a != [] && b != [] && c != [] && a[0] == b[0] && b[0] == c[0] {
      NameLessTransitive(a[1..], b[1..], c[1..]);
    }
  }

  lemma {:induction false} NameLessTotal(a: string, b: string)
    ensures a == b || NameLess(a, b) || NameLess(b, a)
  {
    if a != [] && b != [] && a[0] == b[0] {
      NameLessTotal(a[1..], b[1..]);
      if a[1..] == b[1..] {
        assert a == [a[0]] + a[1..] && b == [b[0]] + b[1..];
      }
    }
  }

  /** "А" < "Б" < "Ц", and a proper prefix comes first. */
  lemma NameLessExamples()
    ensures NameLess("А", "Б") && NameLess("Б", "Ц") && NameLess("А", "Ц")
    ensures NameLess("Dish", "Dish 1") && !NameLess("Dish 1", "Dish")
  {
    assert "Dish"[1..] == "ish" && "Dish 1"[1..] == "ish 1";
    assert "ish"[1..] == "sh" && "ish 1"[1..] == "sh 1";
    assert "sh"[1..] == "h" && "sh 1"[1..] == "h 1";
    assert "h"[1..] == "" && "h 1"[1..] == " 1";
  }

  /** The three orders MenuSorter sorts by. */
  datatype SortKey = ByName | ByPriceDesc | ByTimeAsc

  /** The comparator each sort hands to std::sort: x goes strictly before y. */
  predicate Before(key: SortKey, x: Dish, y: Dish) {
    match key
    case ByName => NameLess(x.name, y.name)
    case ByPriceDesc => x.price > y.price
    case ByTimeAsc => TimeLess(x.time, y.time)
  }

  /** x may stand before y in a sorted sequence. */
  predicate InOrder(key: SortKey, x: Dish, y: Dish) {
    !Before(key, y, x)
  }

  /** No later element goes strictly before an earlier one. */
  predicate SortedBy(s: seq<Dish>, key: SortKey) {
    forall i, j :: 0 <= i < j < |s| ==> InOrder(key, s[i], s[j])
  }

  /** Neighbours in order. */
  predicate AdjacentSorted(s: seq<Dish>, key: SortKey) {
    forall i :: 0 < i < |s| ==> InOrder(key, s[i - 1], s[i])
  }

  /** Each comparator is a strict weak order: asymmetric, and its "not before" is transitive. */
  lemma ComparatorStrictWeak(key: SortKey, x: Dish, y: Dish, z: Dish)
    ensures Before(key, x, y) ==> !Before(key, y, x)
    ensures InOrder(key, x, y) && InOrder(key, y, z) ==> InOrder(key, x, z)
  {
    if key == ByName {
      NameLessAsymmetric(x.name, y.name);
      if InOrder(key, x, y) && InOrder(key, y, z) {
        NameLessTotal(x.name, y.name);
        NameLessTotal(y.name, z.name);
        NameLessTransitive(x.name, y.name, z.name);
        NameLessAsymmetric(x.name, z.name);
        NameLessAsymmetric(z.name, y.name);
        NameLessAsymmetric(y.name, x.name);
        NameLessIrreflexive(x.name);
      }
    }
  }

  /** Order between neighbours is order between all pairs. */
  lemma {:induction false} AdjacentSortedIsSorted(s: seq<Dish>, key: SortKey)
    requires AdjacentSorted(s, key)
    ensures SortedBy(s, key)
  {
    forall i, j | 0 <= i < j < |s|
      ensures InOrder(key, s[i], s[j])
    {
      ChainInOrder(s, key, i, j);
    }
  }

  lemma {:induction false} ChainInOrder(s: seq<Dish>, key: SortKey, i: nat, j: nat)
    requires AdjacentSorted(s, key) && i < j < |s|
    ensures InOrder(key, s[i], s[j])
    decreases j - i
  {
    if i + 1 < j {
      ChainInOrder(s, key, i + 1, j);
      ComparatorStrictWeak(key, s[i], s[i + 1], s[j]);
    }
  }

  // ---------------------------------------------------------------------
  // Sorting
  // ---------------------------------------------------------------------

  /** One step of the inner loop: the new neighbours are in order. */
  lemma SwapStep(key: SortKey, x: Dish, y: Dish)
    requires Before(key, y, x)
    ensures InOrder(key, y, x)
  {
    ComparatorStrictWeak(key, y, x, x);
  }

  /**
   * std::sort with a comparator: afterwards no element goes strictly before
   * an earlier one, and the elements are those that were there.
   */
  method SortInPlace(a: array<Dish>, key: SortKey)
    modifies a
    ensures SortedBy(a[..], key)
    ensures multiset(a[..]) == multiset(old(a[..]))
  {
    if a.Length == 0 {
      return;
    }
    for i := 1 to a.Length
      invariant AdjacentSorted(a[..i], key)
      invariant multiset(a[..]) == multiset(old(a[..]))
    {
      InsertLast(a, i, key);
    }
    assert a[..a.Length] == a[..];
    AdjacentSortedIsSorted(a[..], key);
  }

  /** One pass of insertion: a[i] moves left past every element it goes before. */
  method InsertLast(a: array<Dish>, i: int, key: SortKey)
    requires 0 < i < a.Length && AdjacentSorted(a[..i], key)
    modifies a
    ensures AdjacentSorted(a[..i + 1], key)
    ensures multiset(a[..]) == multiset(old(a[..]))
  {
    var j := i;
    while j > 0 && Before(key, a[j], a[j - 1])
      invariant 0 <= j <= i
      invariant AdjacentSorted(a[..j], key)
      invariant AdjacentSorted(a[j..i + 1], key)
      invariant 0 < j < i ==> InOrder(key, a[j - 1], a[j + 1])
      invariant multiset(a[..]) == multiset(old(a[..]))
    {
      ghost var s := a[..];
      SwapKeepsInvariant(s, j, i, key);
      a[j - 1], a[j] := a[j], a[j - 1];
      assert a[..] == s[j - 1 := s[j]][j := s[j - 1]];
      j := j - 1;
    }
    JoinSorted(a[..], j, i, key);
  }

  /** Swapping s[j - 1] and s[j], when s[j] goes before s[j - 1], keeps the inner loop's invariant for j - 1. */
  lemma SwapKeepsInvariant(s: seq<Dish>, j: int, i: int, key: SortKey)
    requires 0 < j <= i < |s|
    requires AdjacentSorted(s[..j], key) && AdjacentSorted(s[j..i + 1], key)
    requires j < i ==> InOrder(key, s[j - 1], s[j + 1])
    requires Before(key, s[j], s[j - 1])
    ensures var t := s[j - 1 := s[j]][j := s[j - 1]];
            && AdjacentSorted(t[..j - 1], key)
            && AdjacentSorted(t[j - 1..i + 1], key)
            && (0 < j - 1 < i ==> InOrder(key, t[j - 2], t[j]))
            && multiset(t) == multiset(s)
  {
    var t := s[j - 1 := s[j]][j := s[j - 1]];
    assert t[..j - 1] == s[..j][..j - 1];
    SortedPrefix(s[..j], j - 1, key);
    SwapStep(key, s[j - 1], s[j]);
    SwappedRun(s, t, j, i, key);
    if 0 < j - 1 {
      assert s[..j][j - 2] == s[j - 2] && s[..j][j - 1] == s[j - 1];
    }
  }

  lemma SortedPrefix(s: seq<Dish>, n: int, key: SortKey)
    requires 0 <= n <= |s| && AdjacentSorted(s, key)
    ensures AdjacentSorted(s[..n], key)
  {
    var p := s[..n];
    forall k | 0 < k < |p|
      ensures InOrder(key, p[k - 1], p[k])
    {
      assert p[k - 1] == s[k - 1] && p[k] == s[k];
    }
  }

  /** The run from j - 1 after the swap: the moved element, then the old run. */
  lemma SwappedRun(s: seq<Dish>, t: seq<Dish>, j: int, i: int, key: SortKey)
    requires 0 < j <= i < |s| && t == s[j - 1 := s[j]][j := s[j - 1]]
    requires AdjacentSorted(s[j..i + 1], key)
    requires j < i ==> InOrder(key, s[j - 1], s[j + 1])
    requires InOrder(key, s[j], s[j - 1])
    ensures AdjacentSorted(t[j - 1..i + 1], key)
  {
    var r := s[j..i + 1];
    var q := t[j - 1..i + 1];
    assert |q| == |r| + 1;
    forall k | 0 < k < |q|
      ensures InOrder(key, q[k - 1], q[k])
    {
      if k > 2 {
        assert q[k - 1] == r[k - 2] && q[k] == r[k - 1];
      } else if k == 2 {
        assert q[1] == s[j - 1] && q[2] == s[j + 1];
      }
    }
  }

  /** When the inner loop stops, the two sorted runs join into one. */
  lemma JoinSorted(s: seq<Dish>, j: int, i: int, key: SortKey)
    requires 0 <= j <= i < |s|
    requires AdjacentSorted(s[..j], key) && AdjacentSorted(s[j..i + 1], key)
    requires j > 0 ==> InOrder(key, s[j - 1], s[j])
    ensures AdjacentSorted(s[..i + 1], key)
  {
    var p := s[..i + 1];
    var lo := s[..j];
    var hi := s[j..i + 1];
    forall k | 0 < k < |p|
      ensures InOrder(key, p[k - 1], p[k])
    {
      if k < j {
        assert p[k - 1] == lo[k - 1] && p[k] == lo[k];
      } else if k > j {
        assert p[k - 1] == hi[k - 1 - j] && p[k] == hi[k - j];
      }
    }
  }

  /** sortAlphabetically: names in lexicographic order. */
  method SortAlphabetically(dishes: array<Dish>)
    modifies dishes
    ensures SortedBy(dishes[..], ByName)
    ensures multiset(dishes[..]) == multiset(old(dishes[..]))
  {
    SortInPlace(dishes, ByName);
  }

  /** sortByPriceDesc: dearest first. */
  method SortByPriceDesc(dishes: array<Dish>)
    modifies dishes
    ensures SortedBy(dishes[..], ByPriceDesc)
    ensures multiset(dishes[..]) == multiset(old(dishes[..]))
  {
    SortInPlace(dishes, ByPriceDesc);
  }

  /** sortByTimeAsc: quickest first. */
  method SortByTimeAsc(dishes: array<Dish>)
    modifies dishes
    ensures SortedBy(dishes[..], ByTimeAsc)
    ensures multiset(dishes[..]) == multiset(old(dishes[..]))
  {
    SortInPlace(dishes, ByTimeAsc);
  }

  /** What sortedness means for each key, pair by pair. */
  lemma SortedMeaning(s: seq<Dish>, key: SortKey, i: int, j: int)
    requires SortedBy(s, key) && 0 <= i < j < |s|
    ensures key == ByName ==> s[i].name == s[j].name || NameLess(s[i].name, s[j].name)
    ensures key == ByPriceDesc ==> s[i].price >= s[j].price
    ensures key == ByTimeAsc ==> TotalMinutes(s[i].time) <= TotalMinutes(s[j].time)
  {
    NameLessTotal(s[i].name, s[j].name);
  }

  // ---------------------------------------------------------------------
  // Filtering
  // ---------------------------------------------------------------------

  /** What a filter keeps: cheaper than a price, quicker than a number of minutes, or both. */
  datatype Criterion = BelowPrice(maxPrice: real) | QuickerThan(maxMinutes: int) | Both(price: real, minutes: int)

  predicate Matches(c: Criterion, d: Dish) {
    match c
    case BelowPrice(p) => d.price < p
    case QuickerThan(m) => DishMinutes(d) < m
    case Both(p, m) => d.price < p && DishMinutes(d) < m
  }

  /** The matching dishes, in input order. */
  function Keep(s: seq<Dish>, c: Criterion): seq<Dish> {
    if s == [] then [] else Keep(s[..|s| - 1], c) + (if Matches(c, s[|s| - 1]) then [s[|s| - 1]] else [])
  }

  /**
   * Keep takes every copy of a matching dish and no copy of any other:
   * a sub-multiset of the input, exactly the matching part.
   */
  lemma {:induction false} KeepCounts(s: seq<Dish>, c: Criterion, x: Dish)
    ensures multiset(Keep(s, c))[x] == if Matches(c, x) then multiset(s)[x] else 0
  {
    if s != [] {
      var init := s[..|s| - 1];
      KeepCounts(init, c, x);
      assert s == init + [s[|s| - 1]];
    }
  }

  /** Membership: a dish is kept exactly when it is in the input and matches. */
  lemma KeepMembers(s: seq<Dish>, c: Criterion, x: Dish)
    ensures x in Keep(s, c) <==> x in s && Matches(c, x)
  {
    KeepCounts(s, c, x);
  }

  /** C++'s conversion of a `long long` to `int`: the value modulo 2^32, in [-2^31, 2^31). */
  function Narrow32(n: int): (r: int)
    ensures -0x8000_0000 <= r < 0x8000_0000
    ensures (r - n) % 0x1_0000_0000 == 0
  {
    (n + 0x8000_0000) % 0x1_0000_0000 - 0x8000_0000
  }

  /** The narrowing changes nothing for a value that fits, so for any Time normalisation produces. */
  lemma Narrow32Fits(n: int)
    requires -0x8000_0000 <= n < 0x8000_0000
    ensures Narrow32(n) == n
  {
  }

  /** The copy loop shared by the filters: push_back of each matching dish. */
  method CollectMatching(dishes: seq<Dish>, c: Criterion) returns (result: seq<Dish>)
    ensures result == Keep(dishes, c)
  {
    result := [];
    for i := 0 to |dishes|
      invariant result == Keep(dishes[..i], c)
    {
      assert dishes[..i + 1][..i] == dishes[..i];
      if Matches(c, dishes[i]) {
        result := result + [dishes[i]];
      }
    }
    assert dishes[..|dishes|] == dishes;
  }

  /** Copy, sort by key, and hand back the sorted copy. */
  method SortedCopy(s: seq<Dish>, key: SortKey) returns (r: seq<Dish>)
    ensures SortedBy(r, key) && multiset(r) == multiset(s)
  {
    var a := new Dish[|s|](i requires 0 <= i < |s| => s[i]);
    assert a[..] == s;
    SortInPlace(a, key);
    r := a[..];
  }

  /** filterByPrice: the dishes cheaper than maxPrice, dearest first. */
  method FilterByPrice(dishes: seq<Dish>, maxPrice: real) returns (result: seq<Dish>)
    ensures multiset(result) == multiset(Keep(dishes, BelowPrice(maxPrice)))
    ensures SortedBy(result, ByPriceDesc)
  {
    var kept := CollectMatching(dishes, BelowPrice(maxPrice));
    result := SortedCopy(kept, ByPriceDesc);
  }

  /** filterByTime: the dishes quicker than maxTime (its total narrowed to int), quickest first. */
  method FilterByTime(dishes: seq<Dish>, maxTime: Time) returns (result: seq<Dish>)
    ensures multiset(result) == multiset(Keep(dishes, QuickerThan(Narrow32(TotalMinutes(maxTime)))))
    ensures SortedBy(result, ByTimeAsc)
  {
    var maxTotalMinutes := Narrow32(TotalMinutes(maxTime));
    var kept := CollectMatching(dishes, QuickerThan(maxTotalMinutes));
    result := SortedCopy(kept, ByTimeAsc);
  }

  /** filterByPriceAndTime: the dishes both cheaper and quicker, in name order. */
  method FilterByPriceAndTime(dishes: seq<Dish>, maxPrice: real, maxTime: Time) returns (result: seq<Dish>)
    ensures multiset(result) == multiset(Keep(dishes, Both(maxPrice, Narrow32(TotalMinutes(maxTime)))))
    ensures SortedBy(result, ByName)
  {
    var maxTotalMinutes := Narrow32(TotalMinutes(maxTime));
    var kept := CollectMatching(dishes, Both(maxPrice, maxTotalMinutes));
    result := SortedCopy(kept, ByName);
  }

  /**
   * For a normalised maximum the int narrowing is harmless: a dish passes
   * the time filter exactly when its time is less than the maximum.
   */
  lemma TimeFilterMeaning(maxTime: Time, d: Dish, maxPrice: real)
    requires InRange(maxTime) && maxTime.year <= 999
    ensures Matches(QuickerThan(Narrow32(TotalMinutes(maxTime))), d) <==> TimeLess(d.time, maxTime)
    ensures Matches(Both(maxPrice, Narrow32(TotalMinutes(maxTime))), d) <==> d.price < maxPrice && TimeLess(d.time, maxTime)
  {
    InRangeIsFromTotal(maxTime);
    FromTotalInRange(TotalMinutes(maxTime));
    Narrow32Fits(TotalMinutes(maxTime));
  }

  /** A dish is in a filter's result exactly when it is in the input and passes, as often as in the input. */
  lemma FilterResultMembers(dishes: seq<Dish>, result: seq<Dish>, c: Criterion, x: Dish)
    requires multiset(result) == multiset(Keep(dishes, c))
    ensures multiset(result)[x] == if Matches(c, x) then multiset(dishes)[x] else 0
    ensures x in result <==> x in dishes && Matches(c, x)
  {
    KeepCounts(dishes, c, x);
  }
}
