/** The Reader entity of internal/domain/entity/readers. */
module Readers {
  import opened Wrappers

  datatype Reader = Reader(id: int, name: string, phone: string, email: string, password: string, admin: bool)
  {
    /** The invariant NewReader establishes; the phone may be empty. */
    predicate Valid() {
      name != "" && password != "" && email != ""
    }

    /** Plain-text comparison: a candidate is accepted exactly when storing it as the password would change nothing. */
    function CheckPassword(plainPassword: string): (ok: bool)
      ensures ok <==> this.(password := plainPassword) == this
    {
      password == plainPassword
    }
  }

  /**
   * NewReader: checks name, then password, then email, and reports the first
   * empty one; otherwise stores every argument.
   */
  function NewReader(id: int, name: string, phone: string, email: string, password: string, admin: bool): (r: Result<Reader>)
    ensures name == "" ==> r == Err(Invalid("name cannot be empty"))
    ensures name != "" && password == "" ==> r == Err(Invalid("password cannot be empty"))
    ensures name != "" && password != "" && email == "" ==> r == Err(Invalid("email cannot be empty"))
    ensures r.Ok? <==> name != "" && password != "" && email != ""
    ensures r.Ok? ==> r.value.Valid()
    ensures r.Ok? ==> (r.value.id == id && r.value.name == name && r.value.phone == phone &&
                       r.value.email == email && r.value.password == password && r.value.admin == admin)
  {
    if name == "" then Err(Invalid("name cannot be empty"))
    else if password == "" then Err(Invalid("password cannot be empty"))
    else if email == "" then Err(Invalid("email cannot be empty"))
    else Ok(Reader(id, name, phone, email, password, admin))
  }

  /** A reader built by NewReader accepts exactly the password it was built with. */
  lemma NewReaderAcceptsOnlyItsPassword(id: int, name: string, phone: string, email: string, password: string,
                                        admin: bool, candidate: string)
    requires NewReader(id, name, phone, email, password, admin).Ok?
    ensures NewReader(id, name, phone, email, password, admin).value.CheckPassword(candidate) <==> candidate == password
  {
  }
}
