/** The entities of article/model: the Article row, the Category and Publisher rows it
    refers to by name, and the errors the model and controller packages return, with
    the messages their Error() methods print. */
module ArticleTypes {
  import opened DateTime
  import opened Decimal

  /** A Category or Publisher row: its gorm.Model primary key and its unique name
      (article/model/category.go, article/model/publisher.go). */
  datatype Named = Named(id: nat, name: string)

  /** The zero Category{} / Publisher{} an Article holds until BeforeSave resolves it. */
  const Unresolved: Named := Named(0, "")

  /** model.Article. `category` and `publisher` are the association structs BeforeSave
      fills in; they are not columns of the articles table. */
  datatype Article = Article(
    id: nat,
    title: string,
    body: string,
    category: Named,
    categoryName: string,
    publisher: Named,
    publisherName: string,
    createdAt: DateTime,
    publishedAt: DateTime,
    updatedAt: DateTime)

  /** The zero value model.Article{}. */
  const Blank: Article := Article(0, "", "", Unresolved, "", Unresolved, "", Zero, Zero, Zero)

  /** Why strconv.Atoi refused its input. */
  datatype NumFailure = Syntax | Range

  datatype Error =
    | DecoderError(reason: string)            // encoding/json: the body is not one JSON value
    | UnableToDecode(reason: string)          // UnmarshalJSON: the body does not decode into five strings
    | InvalidFormat                           // UnmarshalJSON: published_at is not in the layout
    | UndecodableRequest(cause: Error)        // Serialize wraps UnmarshalJSON's error
    | FieldsRequired(fields: seq<string>)     // Validate: the fields failing the 'required' tag
    | TitleExists                             // CreateArticle
    | ArticleNotFound                         // ErrArticleNotFound
    | CategoryUnresolved(cause: Error)        // BeforeSave, for the category and the publisher alike
    | NoSuchTable(table: string)              // the store cannot reach a table
    | UniqueTitle                             // the store's UNIQUE constraint on articles.title
    | InvalidId(id: int)                      // Get and Put: the path id is not an integer
    | InvalidIdCause(id: int, input: string, failure: NumFailure)  // Delete also prints Atoi's error
    | WrongDateFormat                         // GetAll: a date in the query is not in the layout
    | UploadFailed(cause: Error)              // Put wraps UpdateArticle's error

  /** The field names validator reports, in the struct's declaration order. */
  const RequiredFields: seq<string> := ["Title", "Body", "CategoryName", "PublisherName"]

  function FieldError(field: string): string {
    "Key: 'Article." + field + "' Error:Field validation for '" + field + "' failed on the 'required' tag"
  }

  function JoinLines(lines: seq<string>): string {
    if |lines| == 0 then ""
    else if |lines| == 1 then lines[0]
    else lines[0] + "\n" + JoinLines(lines[1..])
  }

  function NumFailureText(f: NumFailure): string {
    match f
    case Syntax => "invalid syntax"
    case Range => "value out of range"
  }

  /** err.Error(). Where the source appends the text of a library error (encoding/json,
      time.Parse) only the fixed part the source writes is kept, except for the
      decoder's reason, which the body carries. */
  function Message(e: Error): string {
    match e
    case DecoderError(reason) => reason
    case UnableToDecode(reason) => "unable to decode " + reason
    case InvalidFormat => "invalid format use (" + Layout + " format) : "
    case UndecodableRequest(cause) => "unable to decode json request body: " + Message(cause)
    case FieldsRequired(fields) => JoinLines(seq(|fields|, i requires 0 <= i < |fields| => FieldError(fields[i])))
    case TitleExists => "title aleady exists"
    case ArticleNotFound => "article not found"
    case CategoryUnresolved(cause) => "could not reference category got: " + Message(cause)
    case NoSuchTable(table) => "no such table: " + table
    case UniqueTitle => "UNIQUE constraint failed: articles.title"
    case InvalidId(id) => "invalid Id got: " + Show(id)
    case InvalidIdCause(id, input, failure) =>
      "invalid Id got: " + Show(id) + ", strconv.Atoi: parsing \"" + input + "\": " + NumFailureText(failure)
    case WrongDateFormat => "wrong format of date "
    case UploadFailed(cause) => "unable to upload article got: " + Message(cause)
  }
}
