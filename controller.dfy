/** The handlers of article/controller/article.go. A handler returns (data, status,
    err); here each one is a function of the request's parts and the database that
    also returns the database afterwards. */
module ArticleController {
  import opened Wrappers
  import opened DateTime
  import opened ArticleTypes
  import opened ArticleCodec
  import opened ArticleStore
  import opened IntParse

  const StatusOK: int := 200
  const StatusCreated: int := 201
  const StatusNoContent: int := 204
  const StatusBadRequest: int := 400

  /** The `interface{}` a handler returns: nil, one article or a list of them. */
  datatype Data = Null | One(article: Article) | Many(articles: seq<Article>)

  /** A handler's result and the database afterwards. */
  datatype Outcome = Outcome(data: Data, status: int, err: Option<Error>, db: Db)

  /** The query string, by the first value of each key. */
  type Query = map<string, string>

  /** r.FormValue(key): the empty string for an absent key. */
  function FormValue(q: Query, key: string): string {
    if key in q then q[key] else ""
  }

  /** The keys GetAll reads. */
  const FilterKeys: set<string> := {"category", "publisher", "created_at", "published_at"}

  /** Whether a date parameter is present and not in the layout. */
  predicate BadDate(q: Query, key: string) {
    FormValue(q, key) != "" && Parse(FormValue(q, key)).None?
  }

  /** The date a parameter constrains to; the zero time when it is empty. */
  function DateOf(q: Query, key: string): (t: DateTime)
    requires !BadDate(q, key)
    ensures FormValue(q, key) == "" ==> t == Zero
    ensures FormValue(q, key) != "" ==> Writable(t) && Format(t) == FormValue(q, key)
  {
    var v := FormValue(q, key);
    if v == "" then Zero
    else
      FormatParse(v);
      Parse(v).value
  }

  /** The condition GetAll queries with: the two names and the two dates of the query,
      nothing else; or the date error when a date is not in the layout. */
  function QueryFilter(q: Query): (r: Result<Article, Error>)
    ensures r.Failure? <==> BadDate(q, "created_at") || BadDate(q, "published_at")
    ensures r.Failure? ==> r.error == WrongDateFormat
    ensures r.Success? ==>
              && r.value.id == 0 && r.value.title == "" && r.value.body == ""
              && r.value.updatedAt == Zero
              && r.value.categoryName == FormValue(q, "category")
              && r.value.publisherName == FormValue(q, "publisher")
              && r.value.createdAt == DateOf(q, "created_at")
              && r.value.publishedAt == DateOf(q, "published_at")
  {
    if BadDate(q, "created_at") || BadDate(q, "published_at") then Failure(WrongDateFormat)
    else Success(Blank.(categoryName := FormValue(q, "category"),
                        publisherName := FormValue(q, "publisher"),
                        createdAt := DateOf(q, "created_at"),
                        publishedAt := DateOf(q, "published_at")))
  }

  /** GetAll's filter construction: a field of the local Article is set only when
      its parameter is non-empty, and a date is parsed before it is set. */
  method BuildFilter(q: Query) returns (r: Result<Article, Error>)
    ensures r == QueryFilter(q)
  {
    var article := Blank;
    var category := FormValue(q, "category");
    if category != "" {
      article := article.(categoryName := category);
    }
    var publisher := FormValue(q, "publisher");
    if publisher != "" {
      article := article.(publisherName := publisher);
    }
    var createdAt := FormValue(q, "created_at");
    if createdAt != "" {
      var t := Parse(createdAt);
      if t.None? {
        return Failure(WrongDateFormat);
      }
      article := article.(createdAt := t.value);
    }
    var publishedAt := FormValue(q, "published_at");
    if publishedAt != "" {
      var t := Parse(publishedAt);
      if t.None? {
        return Failure(WrongDateFormat);
      }
      article := article.(publishedAt := t.value);
    }
    return Success(article);
  }

  /** GET /article: a malformed date is rejected before the store is queried. */
  function GetAll(db: Db, q: Query): (o: Outcome)
    ensures o.db == db
    ensures QueryFilter(q).Failure? ==> o == Outcome(Null, StatusBadRequest, Some(WrongDateFormat), db)
    ensures o.err.None? <==> QueryFilter(q).Success? && db.reachable
    ensures o.err.None? ==> o.status == StatusOK && o.data.Many?
    ensures o.err.None? ==>
              forall a :: a in o.data.articles <==> a in db.articles && Matches(a, QueryFilter(q).value)
    ensures o.err.Some? ==> o.status == StatusBadRequest && o.data == Null
  {
    match QueryFilter(q)
    case Failure(e) => Outcome(Null, StatusBadRequest, Some(e), db)
    case Success(f) =>
      match GetArticles(db, f)
      case Failure(e) => Outcome(Null, StatusBadRequest, Some(e), db)
      case Success(s) => Outcome(Many(s), StatusOK, None, db)
  }

  /** POST /article: decode, then validate, then create; each failure is a 400. */
  function Create(db: Db, body: Body, now: DateTime): (o: Outcome)
    ensures Serialize(body).Failure? ==> o == Outcome(Null, StatusBadRequest, Some(Serialize(body).error), db)
    ensures var s := Serialize(body);
      s.Success? && Validate(s.value).Some? ==> o == Outcome(Null, StatusBadRequest, Validate(s.value), db)
    ensures o.err.None? <==> o.status == StatusCreated
    ensures o.err.Some? ==> o.status == StatusBadRequest && o.data == Null
    ensures o.err.Some? ==> o.db.articles == db.articles
    ensures o.err.None? ==>
              && o.data.One? && o.data.article.id == db.nextId
              && o.db.articles == db.articles + [Columns(o.data.article)]
              && Validate(o.data.article).None?
  {
    match Serialize(body)
    case Failure(e) => Outcome(Null, StatusBadRequest, Some(e), db)
    case Success(a) =>
      match Validate(a)
      case Some(e) => Outcome(Null, StatusBadRequest, Some(e), db)
      case None =>
        var r := CreateArticle(db, a, now);
        if r.err.Some? then Outcome(Null, StatusBadRequest, r.err, r.db)
        else Outcome(One(r.article), StatusCreated, None, r.db)
  }

  /** GET /article/{id}. */
  function Get(db: Db, idText: string): (o: Outcome)
    ensures o.db == db
    ensures Atoi(idText).failure.Some? ==>
              o == Outcome(Null, StatusBadRequest, Some(InvalidId(Atoi(idText).value)), db)
    ensures o.err.None? <==> o.status == StatusOK
    ensures o.err.Some? ==> o.status == StatusBadRequest && o.data == Null
    ensures o.err.None? ==>
              && o.data.One? && o.data.article in db.articles
              && Matches(o.data.article, Blank.(id := ToUint(Atoi(idText).value)))
  {
    var n := Atoi(idText);
    if n.failure.Some? then Outcome(Null, StatusBadRequest, Some(InvalidId(n.value)), db)
    else
      match GetArticle(db, Blank.(id := ToUint(n.value)))
      case Failure(e) => Outcome(Null, StatusBadRequest, Some(e), db)
      case Success(a) => Outcome(One(a), StatusOK, None, db)
  }

  /** DELETE /article/{id}: nil data in every case; 204 on success. */
  function Delete(db: Db, idText: string): (o: Outcome)
    ensures var n := Atoi(idText);
      n.failure.Some? ==>
        o == Outcome(Null, StatusBadRequest, Some(InvalidIdCause(n.value, idText, n.failure.value)), db)
    ensures o.data == Null
    ensures o.err.None? <==> o.status == StatusNoContent
    ensures o.err.Some? ==> o.status == StatusBadRequest && o.db == db
    ensures o.db.categories == db.categories && o.db.publishers == db.publishers
  {
    var n := Atoi(idText);
    if n.failure.Some? then
      Outcome(Null, StatusBadRequest, Some(InvalidIdCause(n.value, idText, n.failure.value)), db)
    else
      var r := DeleteArticle(db, n.value);
      if r.err.Some? then Outcome(Null, StatusBadRequest, r.err, r.db)
      else Outcome(Null, StatusNoContent, None, r.db)
  }

  /** PUT /article/{id}: no required-field check; the decoded payload is what comes
      back on success, and an update error is wrapped. */
  function Put(db: Db, idText: string, body: Body, now: DateTime): (o: Outcome)
    ensures Atoi(idText).failure.Some? ==>
              o == Outcome(Null, StatusBadRequest, Some(InvalidId(Atoi(idText).value)), db)
    ensures Atoi(idText).failure.None? && Serialize(body).Failure? ==>
              o == Outcome(Null, StatusBadRequest, Some(Serialize(body).error), db)
    ensures o.err.None? <==> o.status == StatusOK
    ensures o.err.Some? ==> o.status == StatusBadRequest && o.data == Null
    ensures o.err.Some? ==> o.db.articles == db.articles
    ensures o.err.None? ==> Serialize(body).Success? && o.data == One(Serialize(body).value)
    ensures Atoi(idText).failure.None? && Serialize(body).Success? && o.err.Some? ==>
              o.err.value.UploadFailed?
  {
    var n := Atoi(idText);
    if n.failure.Some? then Outcome(Null, StatusBadRequest, Some(InvalidId(n.value)), db)
    else
      match Serialize(body)
      case Failure(e) => Outcome(Null, StatusBadRequest, Some(e), db)
      case Success(a) =>
        var r := UpdateArticle(db, n.value, a, now);
        if r.err.Some? then Outcome(Null, StatusBadRequest, Some(UploadFailed(r.err.value)), r.db)
        else Outcome(One(a), StatusOK, None, r.db)
  }
}
