/**
 * The list the app displays: the stored records, sorted when a sort option is
 * chosen (`getSortedData`, src/App.js), then filtered by the search term
 * (`filteredData`). Also how the search box and the sort selector turn their
 * raw input into that state (`handleSearch`, `handleSort`).
 */
module View {
  import opened Optional
  import opened Strings
  import opened Arrays
  import opened People

  // ------------------------------------------------------------ search

  /** What `handleSearch` stores: the input trimmed and lower-cased. */
  function NormalizeSearch(value: string): string {
    ToLower(Trim(value))
  }

  /** The stored term has no upper-case letter and no surrounding blanks, and
   *  normalising it again changes nothing. */
  lemma NormalizeSearchSpec(value: string)
    ensures forall i :: 0 <= i < |NormalizeSearch(value)| ==> !IsUpper(NormalizeSearch(value)[i])
    ensures |NormalizeSearch(value)| <= |value|
    ensures Trim(NormalizeSearch(value)) == NormalizeSearch(value)
    ensures NormalizeSearch(NormalizeSearch(value)) == NormalizeSearch(value)
  {
    var t := Trim(value);
    var n := ToLower(t);
    TrimSlice(value);
    ToLowerIdempotent(t);
    if n != [] {
      assert !IsWhitespace(n[0]) && !IsWhitespace(n[|n| - 1]);
      assert TrimStart(n) == n;
      assert TrimEnd(n) == n;
    }
  }

  /** The test the displayed list applies to each record. */
  function Matches(term: string): Person -> bool {
    (p: Person) => Includes(ToLower(p.name), term)
  }

  /** `filter((item) => item.name.toLowerCase().includes(searchTerm))`. */
  function SearchFilter(xs: seq<Person>, term: string): seq<Person> {
    Filter(xs, Matches(term))
  }

  /** The search keeps exactly the records whose lower-cased name contains the
   *  term, in their original relative order; the empty term keeps everything;
   *  searching the result again changes nothing. */
  lemma SearchFilterSpec(xs: seq<Person>, term: string)
    ensures forall x :: x in SearchFilter(xs, term) <==> x in xs && Includes(ToLower(x.name), term)
    ensures IsSubsequence(SearchFilter(xs, term), xs)
    ensures term == "" ==> SearchFilter(xs, term) == xs
    ensures SearchFilter(SearchFilter(xs, term), term) == SearchFilter(xs, term)
  {
    FilterIsSubsequence(xs, Matches(term));
    FilterIdempotent(xs, Matches(term));
    if term == "" {
      forall x | x in xs ensures Matches(term)(x) {
        IncludesEmpty(ToLower(x.name));
      }
      FilterKeepsAll(xs, Matches(term));
    }
  }

  // ----------------------------------------------------- sort selector

  /** The four values the sort selector accepts. */
  const ValidSortOptions: seq<string> := ["name-asc", "name-desc", "age-asc", "age-desc"]

  function KeyName(k: SortKey): string {
    match k
    case Name => "name"
    case Age => "age"
  }

  function OrderName(o: SortOrder): string {
    match o
    case Asc => "asc"
    case Desc => "desc"
  }

  /** `handleSort`'s reading of a selector value: None for a value outside the
   *  four valid ones, otherwise the key and the direction on either side of `-`. */
  function SortChoice(value: string): (r: Option<(SortKey, SortOrder)>)
    ensures r.Some? <==> value in ValidSortOptions
    ensures r.Some? ==> value == KeyName(r.value.0) + "-" + OrderName(r.value.1)
  {
    if value !in ValidSortOptions then None
    else
      SplitSortOption(value);
      var parts := Split(value, '-');
      Some((if parts[0] == "name" then Name else Age, if parts[1] == "asc" then Asc else Desc))
  }

  /** Each valid selector value splits at its `-` into a key name and a direction name. */
  lemma SplitSortOption(value: string)
    requires value in ValidSortOptions
    ensures exists k, o :: Split(value, '-') == [KeyName(k), OrderName(o)] && value == KeyName(k) + "-" + OrderName(o)
  {
    if value == "name-asc" {
      assert value == "name" + "-" + "asc";
      SplitPair("name", "asc", '-');
      assert Split(value, '-') == [KeyName(Name), OrderName(Asc)];
    } else if value == "name-desc" {
      assert value == "name" + "-" + "desc";
      SplitPair("name", "desc", '-');
      assert Split(value, '-') == [KeyName(Name), OrderName(Desc)];
    } else if value == "age-asc" {
      assert value == "age" + "-" + "asc";
      SplitPair("age", "asc", '-');
      assert Split(value, '-') == [KeyName(Age), OrderName(Asc)];
    } else {
      assert value == "age" + "-" + "desc";
      SplitPair("age", "desc", '-');
      assert Split(value, '-') == [KeyName(Age), OrderName(Desc)];
    }
  }

  // -------------------------------------------------------------- sort

  /** The comparator of `getSortedData` answers 1 for (a, b): `a` goes after `b`.
   *  Ascending, that is when a's key is greater; descending, when it is smaller. */
  predicate After(a: Person, b: Person, key: SortKey, order: SortOrder) {
    match (key, order)
    case (Name, Asc) => StrLess(b.name, a.name)
    case (Name, Desc) => StrLess(a.name, b.name)
    case (Age, Asc) => a.age > b.age
    case (Age, Desc) => a.age < b.age
  }

  /** Every record is at or before every later one in the chosen order: keys
   *  non-decreasing for `Asc`, non-increasing for `Desc`. */
  predicate Sorted(s: seq<Person>, key: SortKey, order: SortOrder) {
    forall i, j :: 0 <= i < j < |s| ==> !After(s[i], s[j], key, order)
  }

  /** No neighbour goes after its successor. */
  predicate AdjacentSorted(s: seq<Person>, key: SortKey, order: SortOrder) {
    forall k :: 0 < k < |s| ==> !After(s[k - 1], s[k], key, order)
  }

  lemma AfterAsymmetric(a: Person, b: Person, key: SortKey, order: SortOrder)
    ensures !(After(a, b, key, order) && After(b, a, key, order))
  {
    StrLessAsymmetric(a.name, b.name);
  }

  /** "At or before" is transitive. */
  lemma NotAfterTransitive(a: Person, b: Person, c: Person, key: SortKey, order: SortOrder)
    requires !After(a, b, key, order) && !After(b, c, key, order)
    ensures !After(a, c, key, order)
  {
    if key == Name {
      StrLessTotal(a.name, b.name);
      StrLessTotal(b.name, c.name);
      if order == Asc {
        if StrLess(c.name, a.name) {
          if a.name != b.name && b.name != c.name {
            StrLessTransitive(a.name, b.name, c.name);
            StrLessAsymmetric(a.name, c.name);
          }
        }
      } else {
        if StrLess(a.name, c.name) {
          if a.name != b.name && b.name != c.name {
            StrLessTransitive(c.name, b.name, a.name);
            StrLessAsymmetric(a.name, c.name);
          }
        }
      }
    }
  }

  /** With neighbours in order, the whole sequence is in order. */
  lemma {:induction false} AdjacentToSorted(s: seq<Person>, key: SortKey, order: SortOrder)
    requires AdjacentSorted(s, key, order)
    ensures Sorted(s, key, order)
  {
    if |s| > 1 {
      var t := s[..|s| - 1];
      assert AdjacentSorted(t, key, order);
      AdjacentToSorted(t, key, order);
      forall i | 0 <= i < |s| - 1 ensures !After(s[i], s[|s| - 1], key, order) {
        if i < |s| - 2 {
          assert !After(t[i], t[|t| - 1], key, order);
          NotAfterTransitive(s[i], s[|s| - 2], s[|s| - 1], key, order);
        }
      }
    }
  }

  /** Dropping records from a sorted list leaves it sorted. */
  lemma SortedSubsequence(r: seq<Person>, s: seq<Person>, key: SortKey, order: SortOrder)
    requires IsSubsequence(r, s) && Sorted(s, key, order)
    ensures Sorted(r, key, order)
  {
    SubsequenceKeepsOrder(r, s, (a: Person, b: Person) => !After(a, b, key, order));
  }

  /** Exchanges `a[i]` and `a[j]`. */
  method Swap(a: array<Person>, i: nat, j: nat)
    requires i < j < a.Length
    modifies a
    ensures a[i] == old(a[j]) && a[j] == old(a[i])
    ensures forall m :: 0 <= m < a.Length && m != i && m != j ==> a[m] == old(a[m])
    ensures multiset(a[..]) == old(multiset(a[..]))
  {
    a[i], a[j] := a[j], a[i];
  }

  /** `Array.prototype.sort` with the comparator of `getSortedData`, here as an
   *  insertion sort: it moves each record down past the ones it goes before. */
  method SortInPlace(a: array<Person>, key: SortKey, order: SortOrder)
    modifies a
    ensures Sorted(a[..], key, order)
    ensures multiset(a[..]) == old(multiset(a[..]))
  {
    var i := 1;
    while i < a.Length
      invariant 1 <= i
      invariant a.Length == 0 || i <= a.Length
      invariant forall k :: 0 < k < i && k < a.Length ==> !After(a[k - 1], a[k], key, order)
      invariant multiset(a[..]) == old(multiset(a[..]))
    {
      var j := i;
      while j > 0 && After(a[j - 1], a[j], key, order)
        invariant 0 <= j <= i < a.Length
        invariant forall k :: 0 < k < j ==> !After(a[k - 1], a[k], key, order)
        invariant forall k :: j < k <= i ==> !After(a[k - 1], a[k], key, order)
        invariant 0 < j < i ==> !After(a[j - 1], a[j + 1], key, order)
        invariant multiset(a[..]) == old(multiset(a[..]))
      {
        AfterAsymmetric(a[j - 1], a[j], key, order);
        Swap(a, j - 1, j);
        j := j - 1;
      }
      i := i + 1;
    }
    AdjacentToSorted(a[..], key, order);
  }

  /** `[...data].sort(…)`: a sorted permutation of `xs`; `xs` itself is a value
   *  and stays as it was. */
  method SortedCopy(xs: seq<Person>, key: SortKey, order: SortOrder) returns (r: seq<Person>)
    ensures Sorted(r, key, order)
    ensures multiset(r) == multiset(xs)
    ensures |r| == |xs|
  {
    var a := new Person[|xs|](i requires 0 <= i < |xs| => xs[i]);
    assert a[..] == xs;
    SortInPlace(a, key, order);
    r := a[..];
    assert |r| == |multiset(r)| == |multiset(xs)| == |xs|;
  }

  /** Sorting by a key is a total order on the displayed list: any two records
   *  of a sorted list compare in list order by that key. */
  lemma SortedMeaning(s: seq<Person>, key: SortKey, order: SortOrder, i: int, j: int)
    requires Sorted(s, key, order) && 0 <= i < j < |s|
    ensures key == Age && order == Asc ==> s[i].age <= s[j].age
    ensures key == Age && order == Desc ==> s[i].age >= s[j].age
    ensures key == Name && order == Asc ==> s[i].name == s[j].name || StrLess(s[i].name, s[j].name)
    ensures key == Name && order == Desc ==> s[i].name == s[j].name || StrLess(s[j].name, s[i].name)
  {
    assert !After(s[i], s[j], key, order);
    StrLessTotal(s[i].name, s[j].name);
  }
}
