/** The records exchanged between the server, its table and the client. */
module Schema {
  import opened Wrappers

  /** An error response: its HTTP status and the `error` text of its JSON body. */
  datatype HttpError = HttpError(status: int, message: string)

  /** A row of the entry table: the catalog item, when it was created (an
      integer timestamp) and the id of the user who owns it. */
  datatype Entry = Entry(
    id: int,
    title: string,
    entryType: string,
    director: string,
    budget: Option<string>,
    location: Option<string>,
    duration: Option<string>,
    yearTime: Option<string>,
    posterUrl: Option<string>,
    createdAt: int,
    userId: int)

  /** The JSON body of a create or update request; `None` is a field the
      body does not carry (`undefined` once destructured). */
  datatype EntryData = EntryData(
    title: Option<string>,
    entryType: Option<string>,
    director: Option<string>,
    budget: Option<string>,
    location: Option<string>,
    duration: Option<string>,
    yearTime: Option<string>,
    posterUrl: Option<string>)

  /** JavaScript truthiness of an optional string: present and not empty. */
  predicate Truthy(v: Option<string>)
  {
    v.Some? && v.value != ""
  }
}
