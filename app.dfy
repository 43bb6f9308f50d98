/**
 * The App component (src/App.js): the record list, the interface state kept
 * beside it, and the event handlers that change them. Each handler is one
 * atomic update of the fields it sets.
 */
module AppState {
  import opened Optional
  import opened Strings
  import opened Arrays
  import opened People
  import opened View
  import opened AgeGroup

  // ------------------------------------------------------------ delete

  function HasId(id: string): Person -> bool {
    (p: Person) => p.id == id
  }

  function LacksId(id: string): Person -> bool {
    (p: Person) => p.id != id
  }

  /** `handleDelete`: `data.filter((item) => item.id !== id)`. */
  function DeleteRecords(data: seq<Person>, id: string): seq<Person> {
    Filter(data, LacksId(id))
  }

  /** Deleting removes every record with the id, keeps every other record in
   *  its original order, and shortens the list by the number of removed
   *  records; a later lookup of the id finds nothing; an id no record has
   *  leaves the list as it was. */
  lemma DeleteSpec(data: seq<Person>, id: string)
    ensures forall x :: x in DeleteRecords(data, id) <==> x in data && x.id != id
    ensures IsSubsequence(DeleteRecords(data, id), data)
    ensures |DeleteRecords(data, id)| == |data| - |Filter(data, HasId(id))|
    ensures Find(DeleteRecords(data, id), HasId(id)) == None
    ensures (forall x :: x in data ==> x.id != id) ==> DeleteRecords(data, id) == data
  {
    FilterIsSubsequence(data, LacksId(id));
    FilterComplement(data, LacksId(id), HasId(id));
    if forall x :: x in data ==> x.id != id {
      FilterKeepsAll(data, LacksId(id));
    }
  }

  // -------------------------------------------------------------- edit

  /** `{ ...person, ...values }`: the form's fields over the record's, the id kept. */
  function Merge(p: Person, v: FormValues): Person {
    Person(p.id, v.name, v.age, v.email, v.phone)
  }

  /** The edit branch of `handleOk`: every record with the id is merged with
   *  the form values, every other record is kept. */
  function EditRecords(data: seq<Person>, id: string, v: FormValues): seq<Person> {
    seq(|data|, i requires 0 <= i < |data| => if data[i].id == id then Merge(data[i], v) else data[i])
  }

  /** An edit keeps the length, every id and every record with another id; a
   *  record with the id takes every field of the form; looking the id up
   *  afterwards gives the first such record with the form applied. Editing
   *  twice with the same values is editing once, and deleting after an edit
   *  of the same id is deleting. */
  lemma EditSpec(data: seq<Person>, id: string, v: FormValues)
    ensures |EditRecords(data, id, v)| == |data|
    ensures forall i :: 0 <= i < |data| ==> EditRecords(data, id, v)[i].id == data[i].id
    ensures forall i :: 0 <= i < |data| && data[i].id != id ==> EditRecords(data, id, v)[i] == data[i]
    ensures forall i :: 0 <= i < |data| && data[i].id == id ==>
      var p := EditRecords(data, id, v)[i];
      p.name == v.name && p.age == v.age && p.email == v.email && p.phone == v.phone
    ensures Find(data, HasId(id)).Some? ==>
      Find(EditRecords(data, id, v), HasId(id)) == Some(Merge(Find(data, HasId(id)).value, v))
    ensures Find(data, HasId(id)).None? ==> EditRecords(data, id, v) == data
    ensures EditRecords(EditRecords(data, id, v), id, v) == EditRecords(data, id, v)
    ensures DeleteRecords(EditRecords(data, id, v), id) == DeleteRecords(data, id)
  {
    var r := EditRecords(data, id, v);
    FindIndexSamePattern(r, data, HasId(id));
    FilterSameSurvivors(r, data, LacksId(id));
    if Find(data, HasId(id)).None? {
      forall i | 0 <= i < |data| ensures r[i] == data[i] {
        assert data[i] in data;
      }
    }
  }

  // --------------------------------------------------------------- add

  /** The record the add branch of `handleOk` appends: the form values with
   *  the id `(data.length + 1).toString()`. */
  function NewRecord(data: seq<Person>, v: FormValues): Person {
    Person(DecimalString(|data| + 1), v.name, v.age, v.email, v.phone)
  }

  /** The add branch of `handleOk`: `[...data, { ...values, id }]`. */
  function AddRecords(data: seq<Person>, v: FormValues): seq<Person> {
    data + [NewRecord(data, v)]
  }

  /** Adding appends exactly one record, with the form's fields and the id
   *  "length + 1", and keeps every earlier record in place. Looking the new id
   *  up afterwards gives the new record when no earlier record had that id,
   *  and the earlier record when one had. */
  lemma AddSpec(data: seq<Person>, v: FormValues)
    ensures |AddRecords(data, v)| == |data| + 1
    ensures AddRecords(data, v)[..|data|] == data
    ensures var p := AddRecords(data, v)[|data|];
      p.id == DecimalString(|data| + 1) && p.name == v.name && p.age == v.age
      && p.email == v.email && p.phone == v.phone
    ensures var newId := DecimalString(|data| + 1);
      (forall x :: x in data ==> x.id != newId) ==>
        Find(AddRecords(data, v), HasId(newId)) == Some(NewRecord(data, v))
    ensures var newId := DecimalString(|data| + 1);
      (exists x :: x in data && x.id == newId) ==>
        Find(AddRecords(data, v), HasId(newId)) == Find(data, HasId(newId))
  {
  }

  /** Ids are not unique: deleting the first of the two initial records and then
   *  adding one gives the new record the id "2", which the remaining record
   *  already has. */
  lemma AddAfterDeleteRepeatsId(v: FormValues)
    ensures var r := AddRecords(DeleteRecords(InitialData, "1"), v);
      |r| == 2 && r[0].id == "2" && r[1].id == "2"
  {
  }

  // -------------------------------------------------------------- drop

  /** `item.id === editingPersonId`; no record matches `null`. */
  function IsDragged(dragId: Option<string>): Person -> bool {
    (p: Person) => dragId.Some? && p.id == dragId.value
  }

  /** `targetAgeRange.split('-')` with `parseInt` on the two parts; None when
   *  either is NaN. */
  function DropBounds(targetAgeRange: string): Option<(int, int)> {
    var parts := Split(targetAgeRange, '-');
    if |parts| < 2 then None
    else
      match (ParseIntValue(parts[0]), ParseIntValue(parts[1]))
      case (Some(lo), Some(hi)) => Some((lo, hi))
      case _ => None
  }

  /** Each column's range string reads the same for the drop handler as for
   *  the column's own filter. */
  lemma ColumnDropBounds(i: int)
    requires 0 <= i < 4
    ensures DropBounds(GroupRanges[i]) == Some((GroupLows[i], GroupHighs[i]))
    ensures DropBounds(GroupRanges[i]) == Bounds(GroupRanges[i])
  {
    var a, b := DecimalString(GroupLows[i]), DecimalString(GroupHighs[i]);
    ColumnRange(i);
    ColumnBounds(i);
    assert '-' !in a && '-' !in b;
    SplitPair(a, b, '-');
    ReadDecimal(GroupLows[i]);
    ReadDecimal(GroupHighs[i]);
  }

  /** `Math.max(lo, Math.min(age, hi))`. For a range with lo <= hi the result
   *  is in the range, and it equals the age exactly when the age already is;
   *  an age below the range becomes `lo`, one above it `hi`. */
  function Clamp(age: int, lo: int, hi: int): (c: int)
    ensures lo <= hi ==> lo <= c <= hi
    ensures lo <= hi ==> (c == age <==> lo <= age <= hi)
    ensures c == age || c == lo || c == hi
    ensures age < lo ==> c == lo
    ensures lo <= hi && hi < age ==> c == hi
  {
    var m := if age < hi then age else hi;
    if lo > m then lo else m
  }

  /** Where `updatedData.splice(draggedItemIndex, 1)` removes: the first
   *  dragged record, or the last record when none matches (`findIndex` gives
   *  -1, and a negative start counts from the end). */
  function DraggedIndex(data: seq<Person>, dragId: Option<string>): (k: nat)
    ensures k <= |data|
    ensures k == |data| <==> data == []
    ensures k < |data| && (exists j :: 0 <= j < |data| && IsDragged(dragId)(data[j])) ==>
      IsDragged(dragId)(data[k]) && forall j :: 0 <= j < k ==> !IsDragged(dragId)(data[j])
    ensures data != [] && (forall j :: 0 <= j < |data| ==> !IsDragged(dragId)(data[j])) ==> k == |data| - 1
  {
    SpliceStart(|data|, FindIndex(data, IsDragged(dragId)))
  }

  /** The list `handleDrop` stores, or None when it throws: with an empty list
   *  `splice` removes nothing and reading the age of `undefined` fails before
   *  any state is set. Otherwise the dragged record is spliced out; it is put
   *  back, with the clamped age, at `index` only when the clamped age differs
   *  from its age. */
  function DropRecords(data: seq<Person>, dragId: Option<string>, index: int, lo: int, hi: int): Option<seq<Person>> {
    var k := DraggedIndex(data, dragId);
    if k == |data| then None
    else
      var rest := RemoveAt(data, k);
      var newAge := Clamp(data[k].age, lo, hi);
      if newAge != data[k].age then Some(InsertAt(rest, SpliceStart(|rest|, index), data[k].(age := newAge)))
      else Some(rest)
  }

  /** A drop changes the list only when there is one. When the dragged
   *  record's age lies outside the target range, the record moves to position
   *  `index` (clamped to the list) with its age clamped into the range, and
   *  everything else keeps its order and the list its length. When its age is
   *  already in the range, the record is removed and not put back. */
  lemma DropSpec(data: seq<Person>, dragId: Option<string>, index: int, lo: int, hi: int)
    ensures DropRecords(data, dragId, index, lo, hi).None? <==> data == []
    ensures data != [] ==>
      var k := DraggedIndex(data, dragId);
      var r := DropRecords(data, dragId, index, lo, hi).value;
      var pos := SpliceStart(|data| - 1, index);
      if lo <= data[k].age <= hi || (hi < lo && data[k].age == lo) then
        r == RemoveAt(data, k) && |r| == |data| - 1
        && multiset(r) == multiset(data) - multiset{data[k]}
      else
        |r| == |data| && r[pos] == data[k].(age := Clamp(data[k].age, lo, hi))
        && RemoveAt(r, pos) == RemoveAt(data, k)
        && (lo <= hi ==> lo <= r[pos].age <= hi)
  {
  }

  /** A record dropped on a column whose range it is outside lands in that
   *  column, at the front of the list; a record dropped on its own column
   *  disappears from the list. */
  lemma DropOnColumnSpec(data: seq<Person>, dragId: Option<string>, i: int)
    requires 0 <= i < 4 && data != []
    ensures var k := DraggedIndex(data, dragId);
      var r := DropRecords(data, dragId, 0, GroupLows[i], GroupHighs[i]).value;
      if data[k] in Members(data, GroupRanges[i]) then
        |r| == |data| - 1 && multiset(r) == multiset(data) - multiset{data[k]}
      else
        |r| == |data| && r[0] == data[k].(age := r[0].age) && r[0] in Members(r, GroupRanges[i])
        && r[0].age == (if data[k].age < GroupLows[i] then GroupLows[i] else GroupHighs[i])
  {
    var k := DraggedIndex(data, dragId);
    if data[k] in Members(data, GroupRanges[i]) {
      DropOnOwnColumn(data, dragId, i);
    } else {
      DropOnOtherColumn(data, dragId, i);
    }
  }

  /** A record dropped on the column it is already in leaves the list. */
  lemma DropOnOwnColumn(data: seq<Person>, dragId: Option<string>, i: int)
    requires 0 <= i < 4 && data != []
    requires data[DraggedIndex(data, dragId)] in Members(data, GroupRanges[i])
    ensures var k := DraggedIndex(data, dragId);
      var r := DropRecords(data, dragId, 0, GroupLows[i], GroupHighs[i]).value;
      |r| == |data| - 1 && multiset(r) == multiset(data) - multiset{data[k]}
  {
    var k := DraggedIndex(data, dragId);
    InColumn(data, data[k], i);
    DropSpec(data, dragId, 0, GroupLows[i], GroupHighs[i]);
  }

  /** A record dropped on a column it is not in goes to the front of the list
   *  with its age set to the nearer bound of that column. */
  lemma DropOnOtherColumn(data: seq<Person>, dragId: Option<string>, i: int)
    requires 0 <= i < 4 && data != []
    requires data[DraggedIndex(data, dragId)] !in Members(data, GroupRanges[i])
    ensures var k := DraggedIndex(data, dragId);
      var r := DropRecords(data, dragId, 0, GroupLows[i], GroupHighs[i]).value;
      |r| == |data| && r[0] == data[k].(age := r[0].age) && r[0] in Members(r, GroupRanges[i])
      && r[0].age == (if data[k].age < GroupLows[i] then GroupLows[i] else GroupHighs[i])
  {
    var k := DraggedIndex(data, dragId);
    var lo, hi := GroupLows[i], GroupHighs[i];
    InColumn(data, data[k], i);
    assert !(lo <= data[k].age <= hi);
    var c := Clamp(data[k].age, lo, hi);
    assert c == (if data[k].age < lo then lo else hi);
    var rest := RemoveAt(data, k);
    assert SpliceStart(|rest|, 0) == 0;
    var r := InsertAt(rest, 0, data[k].(age := c));
    assert DropRecords(data, dragId, 0, lo, hi) == Some(r);
    InColumn(r, r[0], i);
  }

  // ------------------------------------------------------------- state

  /** `if (editingPersonId)`: JavaScript truthiness, so `null` and `""` are both false. */
  predicate Truthy(id: Option<string>) {
    id.Some? && id.value != ""
  }

  /** The App component's state. */
  class App {
    var data: seq<Person>
    var isModalVisible: bool
    /** The record being edited or dragged: both handlers use this one field. */
    var editingPersonId: Option<string>
    var searchTerm: string
    var sortOption: Option<SortKey>
    var sortOrder: SortOrder

    /** The state `useState` starts with. */
    constructor ()
      ensures data == InitialData && !isModalVisible && editingPersonId == None
      ensures searchTerm == "" && sortOption == None && sortOrder == Asc
    {
      data := InitialData;
      isModalVisible := false;
      editingPersonId := None;
      searchTerm := "";
      sortOption := None;
      sortOrder := Asc;
    }

    /** Stores the search box's value, trimmed and lower-cased. */
    method HandleSearch(value: string)
      modifies this`searchTerm
      ensures searchTerm == NormalizeSearch(value)
    {
      searchTerm := NormalizeSearch(value);
    }

    /** Takes a sort selector value; an invalid one leaves the sort as it was. */
    method HandleSort(value: string)
      modifies this`sortOption, this`sortOrder
      ensures value !in ValidSortOptions ==> sortOption == old(sortOption) && sortOrder == old(sortOrder)
      ensures value in ValidSortOptions ==>
        sortOption.Some? && value == KeyName(sortOption.value) + "-" + OrderName(sortOrder)
    {
      var choice := SortChoice(value);
      if choice.None? {
        return;
      }
      sortOption := Some(choice.value.0);
      sortOrder := choice.value.1;
    }

    method HandleDelete(id: string)
      modifies this`data
      ensures data == DeleteRecords(old(data), id)
    {
      data := DeleteRecords(data, id);
    }

    /** Opens the modal to edit the record with the id. */
    method HandleEdit(id: string)
      modifies this`editingPersonId, this`isModalVisible
      ensures editingPersonId == Some(id) && isModalVisible
    {
      editingPersonId := Some(id);
      isModalVisible := true;
    }

    /** Starts dragging the record with the id. */
    method HandleDrag(id: string)
      modifies this`editingPersonId
      ensures editingPersonId == Some(id)
    {
      editingPersonId := Some(id);
    }

    /** Drops the dragged record on the column with the given range string,
     *  at `index` of the list. */
    method HandleDrop(index: nat, targetAgeRange: string)
      requires DropBounds(targetAgeRange).Some?
      modifies this`data, this`editingPersonId, this`isModalVisible
      ensures var b := DropBounds(targetAgeRange).value;
        var r := DropRecords(old(data), old(editingPersonId), index, b.0, b.1);
        if r.None? then
          data == old(data) && editingPersonId == old(editingPersonId) && isModalVisible == old(isModalVisible)
        else
          data == r.value && editingPersonId == None && !isModalVisible
    {
      // The steps of src/App.js:57-70, one by one; `DropRecords` is their specification.
      var draggedItemIndex := FindIndex(data, IsDragged(editingPersonId));
      var updatedData := data;
      var k := SpliceStart(|updatedData|, draggedItemIndex);
      if k == |updatedData| {
        // nothing was spliced out: reading the age of `undefined` throws here
        return;
      }
      var draggedItem := updatedData[k];
      updatedData := RemoveAt(updatedData, k);
      var (lo, hi) := DropBounds(targetAgeRange).value;
      var newAge := Clamp(draggedItem.age, lo, hi);
      if newAge != draggedItem.age {
        draggedItem := draggedItem.(age := newAge);
        updatedData := InsertAt(updatedData, SpliceStart(|updatedData|, index), draggedItem);
      }
      data := updatedData;
      editingPersonId := None;
      isModalVisible := false;
    }

    /** A column's drop handler (src/AgeGroup.js): it passes the drop event
     *  where the index belongs, which `splice` reads as 0, and its own range. */
    method DropOnColumn(i: nat)
      requires i < 4
      modifies this`data, this`editingPersonId, this`isModalVisible
      ensures var r := DropRecords(old(data), old(editingPersonId), 0, GroupLows[i], GroupHighs[i]);
        if r.None? then
          data == old(data) && editingPersonId == old(editingPersonId) && isModalVisible == old(isModalVisible)
        else
          data == r.value && editingPersonId == None && !isModalVisible
    {
      ColumnDropBounds(i);
      HandleDrop(0, GroupRanges[i]);
    }

    /** Opens the modal. */
    method ShowModal()
      modifies this`isModalVisible
      ensures isModalVisible
    {
      isModalVisible := true;
    }

    /** Submits the form. `valid` says whether the form library's validation
     *  succeeded, `values` are the fields it hands over. */
    method HandleOk(valid: bool, values: FormValues)
      modifies this`data, this`editingPersonId, this`isModalVisible
      ensures !valid ==>
        data == old(data) && editingPersonId == old(editingPersonId) && isModalVisible == old(isModalVisible)
      ensures valid && Truthy(old(editingPersonId)) ==>
        data == EditRecords(old(data), old(editingPersonId).value, values)
        && editingPersonId == None && !isModalVisible
      ensures valid && !Truthy(old(editingPersonId)) ==>
        data == AddRecords(old(data), values)
        && editingPersonId == old(editingPersonId) && !isModalVisible
    {
      if !valid {
        return;
      }
      if Truthy(editingPersonId) {
        data := EditRecords(data, editingPersonId.value, values);
        editingPersonId := None;
      } else {
        data := AddRecords(data, values);
      }
      isModalVisible := false;
    }

    /** Closes the modal and forgets the record being edited or dragged. */
    method HandleCancel()
      modifies this`isModalVisible, this`editingPersonId
      ensures !isModalVisible && editingPersonId == None
    {
      isModalVisible := false;
      editingPersonId := None;
    }

    /** The list itself when no sort option is set, otherwise a permutation of
     *  it ordered by the chosen key and direction; the list is not reordered. */
    method GetSortedData() returns (sorted: seq<Person>)
      ensures sortOption.None? ==> sorted == data
      ensures sortOption.Some? ==>
        multiset(sorted) == multiset(data) && Sorted(sorted, sortOption.value, sortOrder)
    {
      if sortOption.None? {
        return data;
      }
      sorted := SortedCopy(data, sortOption.value, sortOrder);
    }

    /** The displayed list: exactly the records whose lower-cased name contains
     *  the search term, each as often as in the list, in list order or sorted. */
    method FilteredData() returns (view: seq<Person>)
      ensures multiset(view) == multiset(SearchFilter(data, searchTerm))
      ensures sortOption.None? ==> view == SearchFilter(data, searchTerm)
      ensures sortOption.Some? ==> Sorted(view, sortOption.value, sortOrder)
    {
      var sorted := GetSortedData();
      view := SearchFilter(sorted, searchTerm);
      FilterPermutation(sorted, data, Matches(searchTerm));
      if sortOption.Some? {
        FilterIsSubsequence(sorted, Matches(searchTerm));
        SortedSubsequence(view, sorted, sortOption.value, sortOrder);
      }
    }

    /** The displayed list and the four columns of the page built from it: each
     *  column is the ordered subsequence of the displayed list within its bounds,
     *  and together they show every displayed record with an age in [1, 100] once. */
    method Columns() returns (view: seq<Person>, columns: seq<seq<Person>>)
      ensures multiset(view) == multiset(SearchFilter(data, searchTerm))
      ensures sortOption.None? ==> view == SearchFilter(data, searchTerm)
      ensures columns == ColumnsOf(view)
      ensures forall i :: 0 <= i < 4 ==> IsSubsequence(columns[i], view)
      ensures sortOption.None? ==> forall i :: 0 <= i < 4 ==>
        columns[i] == Members(SearchFilter(data, searchTerm), GroupRanges[i])
      ensures |columns| == 4
      ensures multiset(columns[0]) + multiset(columns[1]) + multiset(columns[2]) + multiset(columns[3])
           == multiset(Filter(SearchFilter(data, searchTerm), Shown()))
      ensures forall i :: 0 <= i < 4 ==> forall x :: x in columns[i] ==>
        GroupLows[i] <= x.age <= GroupHighs[i] && Includes(ToLower(x.name), searchTerm)
      ensures sortOption.Some? ==> forall i :: 0 <= i < 4 ==> Sorted(columns[i], sortOption.value, sortOrder)
    {
      view := FilteredData();
      columns := ColumnsOf(view);
      forall i | 0 <= i < 4 ensures IsSubsequence(columns[i], view) {
        MembersSpec(view, GroupRanges[i]);
      }
      ColumnsOfView(view, SearchFilter(data, searchTerm));
      ColumnsOfSearch(view, data, searchTerm);
      if sortOption.Some? {
        ColumnsSorted(view, sortOption.value, sortOrder);
      }
    }
  }

  /** `<AgeGroup data={filteredData} ageRange=…>` for the four ranges. */
  function ColumnsOf(view: seq<Person>): (columns: seq<seq<Person>>)
    ensures |columns| == 4
    ensures forall i :: 0 <= i < 4 ==> columns[i] == Members(view, GroupRanges[i])
  {
    [Members(view, GroupRanges[0]), Members(view, GroupRanges[1]),
     Members(view, GroupRanges[2]), Members(view, GroupRanges[3])]
  }

  /** The columns of a sorted list are sorted. */
  lemma ColumnsSorted(view: seq<Person>, key: SortKey, order: SortOrder)
    requires Sorted(view, key, order)
    ensures forall i :: 0 <= i < 4 ==> Sorted(ColumnsOf(view)[i], key, order)
  {
    forall i | 0 <= i < 4 ensures Sorted(ColumnsOf(view)[i], key, order) {
      MembersSpec(view, GroupRanges[i]);
      SortedSubsequence(Members(view, GroupRanges[i]), view, key, order);
    }
  }

  /** Every column of an arrangement of the search results holds only records
   *  within its bounds that match the search. */
  lemma ColumnsOfSearch(view: seq<Person>, data: seq<Person>, term: string)
    requires multiset(view) == multiset(SearchFilter(data, term))
    ensures forall i :: 0 <= i < 4 ==> forall x :: x in ColumnsOf(view)[i] ==>
      GroupLows[i] <= x.age <= GroupHighs[i] && Includes(ToLower(x.name), term)
  {
    forall i | 0 <= i < 4 ensures forall x :: x in ColumnsOf(view)[i] ==>
      GroupLows[i] <= x.age <= GroupHighs[i] && Includes(ToLower(x.name), term)
    {
      ColumnOfSearch(view, data, term, i);
    }
  }

  /** The columns built from any arrangement of a list show that list's
   *  records with an age in [1, 100], each as often as the list does. */
  lemma ColumnsOfView(view: seq<Person>, shown: seq<Person>)
    requires multiset(view) == multiset(shown)
    ensures multiset(Members(view, GroupRanges[0])) + multiset(Members(view, GroupRanges[1]))
          + multiset(Members(view, GroupRanges[2])) + multiset(Members(view, GroupRanges[3]))
         == multiset(Filter(shown, Shown()))
  {
    PartitionCounts(view);
    FilterPermutation(view, shown, Shown());
  }

  /** A column of an arrangement of the search results holds only records
   *  within its bounds that match the search. */
  lemma ColumnOfSearch(view: seq<Person>, data: seq<Person>, term: string, i: int)
    requires multiset(view) == multiset(SearchFilter(data, term)) && 0 <= i < 4
    ensures forall x :: x in Members(view, GroupRanges[i]) ==>
      GroupLows[i] <= x.age <= GroupHighs[i] && Includes(ToLower(x.name), term)
  {
    SearchFilterSpec(data, term);
    forall x | x in Members(view, GroupRanges[i])
      ensures GroupLows[i] <= x.age <= GroupHighs[i] && Includes(ToLower(x.name), term)
    {
      InColumn(view, x, i);
      assert x in multiset(view);
      assert x in SearchFilter(data, term);
    }
  }
}
