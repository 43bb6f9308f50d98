/**
 * One age column of the page (src/AgeGroup.js): it shows the records of the
 * displayed list whose age lies in its range string `"lower-upper"`. The page
 * has four columns, for the ranges 1-18, 19-24, 25-45 and 46-100.
 */
module AgeGroup {
  import opened Optional
  import opened Strings
  import opened Arrays
  import opened People

  /** `ageRange.split('-').map(Number)`: the two bounds, None when either is NaN
   *  (a missing second part is `undefined`, which `Number` also turns into NaN). */
  function Bounds(ageRange: string): Option<(int, int)> {
    var parts := Split(ageRange, '-');
    if |parts| < 2 then None
    else
      match (NumberValue(parts[0]), NumberValue(parts[1]))
      case (Some(lo), Some(hi)) => Some((lo, hi))
      case _ => None
  }

  /** The column's test: `age >= lowerBound && age <= upperBound`; any
   *  comparison with NaN is false, so an unreadable range admits nobody. */
  function InGroup(ageRange: string): Person -> bool {
    (p: Person) => var b := Bounds(ageRange); b.Some? && b.value.0 <= p.age <= b.value.1
  }

  /** The records a column shows, in the order of the list it is given. */
  function Members(data: seq<Person>, ageRange: string): seq<Person> {
    Filter(data, InGroup(ageRange))
  }

  /** A column keeps exactly the records whose age lies between its bounds, as
   *  a subsequence of its input in the same relative order. */
  lemma MembersSpec(data: seq<Person>, ageRange: string)
    ensures forall x :: x in Members(data, ageRange) <==>
      x in data && Bounds(ageRange).Some? && Bounds(ageRange).value.0 <= x.age <= Bounds(ageRange).value.1
    ensures IsSubsequence(Members(data, ageRange), data)
    ensures Bounds(ageRange).None? ==> Members(data, ageRange) == []
    ensures |Members(data, ageRange)| <= |data|
  {
    FilterIsSubsequence(data, InGroup(ageRange));
    var r := Members(data, ageRange);
    if Bounds(ageRange).None? && |r| > 0 {
      assert r[0] in r;
    }
  }

  /** A range written as two decimal numbers around a `-` reads back as those numbers. */
  lemma BoundsOfDecimals(lo: nat, hi: nat)
    ensures Bounds(DecimalString(lo) + "-" + DecimalString(hi)) == Some((lo, hi))
  {
    var a, b := DecimalString(lo), DecimalString(hi);
    assert '-' !in a && '-' !in b;
    SplitPair(a, b, '-');
    ReadDecimal(lo);
    ReadDecimal(hi);
  }

  /** The range strings of the four columns, left to right. */
  const GroupRanges: seq<string> := ["1-18", "19-24", "25-45", "46-100"]

  /** The bounds of the four columns. */
  const GroupLows: seq<nat> := [1, 19, 25, 46]
  const GroupHighs: seq<nat> := [18, 24, 45, 100]

  /** Column `i`'s range string is its two bounds in decimal around a `-`. */
  lemma ColumnRange(i: int)
    requires 0 <= i < 4
    ensures GroupRanges[i] == DecimalString(GroupLows[i]) + "-" + DecimalString(GroupHighs[i])
  {
  }

  /** Column `i`'s range string reads as its two bounds. */
  lemma ColumnBounds(i: int)
    requires 0 <= i < 4
    ensures Bounds(GroupRanges[i]) == Some((GroupLows[i], GroupHighs[i]))
  {
    ColumnRange(i);
    BoundsOfDecimals(GroupLows[i], GroupHighs[i]);
  }

  /** A record is shown by a column exactly when its age is within that column's bounds. */
  lemma InColumn(data: seq<Person>, x: Person, i: int)
    requires 0 <= i < 4
    ensures x in Members(data, GroupRanges[i]) <==> x in data && GroupLows[i] <= x.age <= GroupHighs[i]
  {
    ColumnBounds(i);
    MembersSpec(data, GroupRanges[i]);
  }

  /** Every record of the list with an age in [1, 100] is shown by exactly one
   *  column; a record with any other age is shown by none. */
  lemma Partition(data: seq<Person>, x: Person)
    requires x in data
    ensures 1 <= x.age <= 100 <==> exists i :: 0 <= i < 4 && x in Members(data, GroupRanges[i])
    ensures forall i, j :: 0 <= i < 4 && 0 <= j < 4 && x in Members(data, GroupRanges[i]) && x in Members(data, GroupRanges[j]) ==> i == j
  {
    forall i | 0 <= i < 4 && x in Members(data, GroupRanges[i])
      ensures 1 <= x.age <= 100 && i == ColumnOf(x.age)
    {
      OnlyColumn(data, x, i);
    }
    if 1 <= x.age <= 100 {
      InColumn(data, x, ColumnOf(x.age));
    }
  }

  /** A record shown by column `i` has an age in [1, 100] whose column is `i`. */
  lemma OnlyColumn(data: seq<Person>, x: Person, i: int)
    requires 0 <= i < 4 && x in Members(data, GroupRanges[i])
    ensures 1 <= x.age <= 100 && i == ColumnOf(x.age)
  {
    InColumn(data, x, i);
    assert GroupLows[i] <= x.age <= GroupHighs[i];
    AgeInBounds(x.age, i);
  }

  /** An age within column `i`'s bounds is in [1, 100] and belongs to column `i`. */
  lemma AgeInBounds(age: int, i: int)
    requires 0 <= i < 4 && GroupLows[i] <= age <= GroupHighs[i]
    ensures 1 <= age <= 100 && i == ColumnOf(age)
  {
  }

  /** The column an age in [1, 100] belongs to. */
  function ColumnOf(age: int): (i: int)
    requires 1 <= age <= 100
    ensures 0 <= i < 4 && GroupLows[i] <= age <= GroupHighs[i]
    ensures forall j :: 0 <= j < 4 && GroupLows[j] <= age <= GroupHighs[j] ==> j == i
  {
    if age <= 18 then 0 else if age <= 24 then 1 else if age <= 45 then 2 else 3
  }

  /** The ages the four columns cover. */
  function Shown(): Person -> bool {
    (p: Person) => 1 <= p.age <= 100
  }

  /** Counting duplicates too: the four columns together hold exactly the
   *  records of the list whose age is in [1, 100], each as often as the list does. */
  lemma PartitionCounts(data: seq<Person>)
    ensures multiset(Members(data, GroupRanges[0])) + multiset(Members(data, GroupRanges[1]))
          + multiset(Members(data, GroupRanges[2])) + multiset(Members(data, GroupRanges[3]))
         == multiset(Filter(data, Shown()))
  {
    forall x ensures multiset(Members(data, GroupRanges[0]))[x] + multiset(Members(data, GroupRanges[1]))[x]
                   + multiset(Members(data, GroupRanges[2]))[x] + multiset(Members(data, GroupRanges[3]))[x]
                  == multiset(Filter(data, Shown()))[x]
    {
      ColumnCount(data, x, 0);
      ColumnCount(data, x, 1);
      ColumnCount(data, x, 2);
      ColumnCount(data, x, 3);
      FilterCount(data, Shown(), x);
    }
  }

  /** How many copies of `x` column `i` shows: all of the list's, or none. */
  lemma ColumnCount(data: seq<Person>, x: Person, i: int)
    requires 0 <= i < 4
    ensures multiset(Members(data, GroupRanges[i]))[x]
         == if GroupLows[i] <= x.age <= GroupHighs[i] then multiset(data)[x] else 0
  {
    ColumnBounds(i);
    FilterCount(data, InGroup(GroupRanges[i]), x);
  }
}
