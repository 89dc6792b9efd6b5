/** The Author entity of internal/domain/entity/authors. */
module Authors {
  import opened Wrappers

  datatype Author = Author(id: int, name: string, country: string)
  {
    /** The invariant NewAuthor establishes; the country may be empty. */
    predicate Valid() {
      name != ""
    }
  }

  /** NewAuthor: rejects an empty name, otherwise stores every argument. */
  function NewAuthor(id: int, name: string, country: string): (r: Result<Author>)
    ensures r.Err? <==> name == ""
    ensures r.Err? ==> r.error == Invalid("name cannot be empty")
    ensures r.Ok? ==> r.value.Valid()
    ensures r.Ok? ==> r.value.id == id && r.value.name == name && r.value.country == country
  {
    if name == "" then Err(Invalid("name cannot be empty"))
    else Ok(Author(id, name, country))
  }
}
