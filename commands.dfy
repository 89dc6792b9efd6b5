/** The request shapes of internal/application/commands that the services consume. */
module Commands {

  datatype CreateBookRequest = CreateBookRequest(title: string, year: int, isbn: string, genre: string, authorIDs: seq<int>)

  datatype CreateReaderRequest = CreateReaderRequest(name: string, phone: string, email: string, password: string, admin: bool)

  datatype UpdateReaderRequest = UpdateReaderRequest(name: string, phone: string, email: string, password: string, admin: bool)

  datatype CreateAuthorRequest = CreateAuthorRequest(name: string, country: string)

  datatype UpdateAuthorRequest = UpdateAuthorRequest(name: string, country: string)
}
