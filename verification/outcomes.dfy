/** What a handler hands back to the HTTP layer: a status code and a JSON body
    that is either a payload or a `{message: ...}` object. */
module Outcomes {

  datatype Option<+T> = None | Some(value: T)

  datatype Body<+T> = Json(value: T) | Message(text: string)

  datatype Reply<+T> = Reply(status: nat, body: Body<T>)

  const OK: nat := 200
  const BadRequest: nat := 400
  const NotFound: nat := 404
  const Conflict: nat := 409
  const InternalError: nat := 500

  const FieldsRequired := "Username and password are required"
  const UsernameTaken := "Username already exists"
  const UserRegistered := "User successfully registered"
  const BookNotFound := "Book not found"
  const NoBooksByAuthor := "No books found for this author"
  const NoBooksWithTitle := "No books found with this title"
  const ErrorFetchingBooks := "Error fetching books"
  const ErrorSearchingBooks := "Error searching books"
}
