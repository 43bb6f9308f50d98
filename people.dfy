/** The records the directory holds and the values its controls produce. */
module People {

  /** A person record as the app stores it; `age` is kept as an integer. */
  datatype Person = Person(id: string, name: string, age: int, email: string, phone: string)

  /** What a successfully validated add/edit form yields: every field but the id. */
  datatype FormValues = FormValues(name: string, age: int, email: string, phone: string)

  /** The field the list is sorted by. */
  datatype SortKey = Name | Age

  /** The direction of the sort. */
  datatype SortOrder = Asc | Desc

  /** The two records the app starts with. */
  const InitialData: seq<Person> := [
    Person("1", "Person 1", 16, "person1@example.com", "123-456-7890"),
    Person("2", "Person 2", 18, "person2@example.com", "987-654-3210")
  ]
}
