/** The package-level handle `Db` and the *Article receivers of
    article/model/article.go as objects updated in place. Each method makes the change
    that the function of the same name in ArticleStore or ArticleCodec describes, and
    keeps the database consistent. */
module StoreImpl {
  import opened Wrappers
  import opened DateTime
  import opened ArticleTypes
  import opened ArticleCodec
  import opened ArticleStore
  import StoreProperties

  /** An *Article: a record its methods overwrite field by field. */
  class ArticleRef {
    var value: Article

    constructor (a: Article)
      ensures value == a
    {
      value := a;
    }

    /** (*Article).UnmarshalJSON: the four strings are copied one by one, then the
        publication date, if there is one, is parsed and stored. */
    method UnmarshalJSON(data: Body) returns (err: Option<Error>)
      modifies this
      ensures Decoded(value, err) == ArticleCodec.UnmarshalJSON(old(value), data)
    {
      if !data.Fields? {
        return Some(UnableToDecode(data.reason));
      }
      value := value.(title := Text(data.title));
      value := value.(body := Text(data.body));
      value := value.(categoryName := Text(data.category));
      value := value.(publisherName := Text(data.publisher));
      var date := Text(data.publishedAt);
      if date != "" {
        var t := Parse(date);
        if t.None? {
          return Some(InvalidFormat);
        }
        value := value.(publishedAt := t.value);
      }
      return None;
    }
  }

  /** The categories or the publishers table. */
  class NameTable {
    const name: string
    var rows: seq<Named>
    var nextId: nat
    var reachable: bool

    function Value(): Table
      reads this
    {
      Table(name, rows, nextId, reachable)
    }

    constructor (name: string)
      ensures Value() == EmptyTable(name)
    {
      this.name := name;
      rows := [];
      nextId := 1;
      reachable := true;
    }

    /** Db.FirstOrCreate(&row, T{Name: key}). */
    method FirstOrCreate(key: string) returns (r: Result<Named, Error>)
      modifies this
      ensures var spec := ArticleStore.FirstOrCreate(old(Value()), key);
        && (r.Success? <==> spec.Success?)
        && (spec.Success? ==> r.value == spec.value.row && Value() == spec.value.table)
        && (spec.Failure? ==> r.error == spec.error && Value() == old(Value()))
    {
      if !reachable {
        return Failure(NoSuchTable(name));
      }
      match FirstNamed(rows, key) {
        case Some(row) =>
          return Success(row);
        case None =>
          var row := Named(nextId, key);
          rows := rows + [row];
          nextId := nextId + 1;
          return Success(row);
      }
    }
  }

  /** The database: the articles table and the two name tables. */
  class Store {
    var articles: seq<Article>
    var nextId: nat
    var reachable: bool
    const categories: NameTable
    const publishers: NameTable

    function State(): Db
      reads this, categories, publishers
    {
      Db(articles, nextId, reachable, categories.Value(), publishers.Value())
    }

    /** The two name tables are different objects. */
    predicate Separate()
      reads this
    {
      categories != publishers
    }

    /** A freshly migrated database. */
    constructor ()
      ensures State() == Empty && Separate() && Consistent(State())
    {
      articles := [];
      nextId := 1;
      reachable := true;
      categories := new NameTable("categories");
      publishers := new NameTable("publishers");
    }

    /** (*Article).BeforeSave on `a`: resolves its category, then its publisher. */
    method BeforeSave(a: ArticleRef) returns (err: Option<Error>)
      requires Separate()
      modifies a, categories, publishers
      ensures Saved(a.value, err, State()) == ArticleStore.BeforeSave(old(State()), old(a.value))
    {
      var c := categories.FirstOrCreate(a.value.categoryName);
      if c.Failure? {
        return Some(CategoryUnresolved(c.error));
      }
      a.value := a.value.(category := c.value);
      var p := publishers.FirstOrCreate(a.value.publisherName);
      if p.Failure? {
        return Some(CategoryUnresolved(p.error));
      }
      a.value := a.value.(publisher := p.value);
      return None;
    }

    /** model.CreateArticle(a) at time `now`; on success `a` holds its new key. */
    method CreateArticle(a: ArticleRef, now: DateTime) returns (err: Option<Error>)
      requires Separate()
      modifies this, a, categories, publishers
      ensures Saved(a.value, err, State()) == ArticleStore.CreateArticle(old(State()), old(a.value), now)
      ensures Consistent(old(State())) ==> Consistent(State())
    {
      if Consistent(State()) {
        StoreProperties.CreatePreservesValid(State(), a.value, now);
      }
      if ArticleStore.GetArticle(State(), Blank.(title := a.value.title)).Success? {
        return Some(TitleExists);
      }
      err := BeforeSave(a);
      if err.Some? {
        return;
      }
      a.value := Stamped(a.value, now);
      if !reachable {
        return Some(NoSuchTable(ArticlesTable));
      }
      a.value := a.value.(id := nextId);
      articles := articles + [Columns(a.value)];
      nextId := nextId + 1;
      assert State() == ArticleStore.CreateArticle(old(State()), old(a.value), now).db;
    }

    /** model.UpdateArticle(id, payload) at time `now`. */
    method UpdateArticle(id: int, payload: Article, now: DateTime) returns (err: Option<Error>)
      requires Separate()
      modifies this, categories, publishers
      ensures Changed(err, State()) == ArticleStore.UpdateArticle(old(State()), id, payload, now)
      ensures Consistent(old(State())) ==> Consistent(State())
    {
      if Consistent(State()) {
        StoreProperties.UpdatePreservesValid(State(), id, payload, now);
      }
      var found := ArticleStore.GetArticle(State(), Blank.(id := ToUint(id)));
      if found.Failure? {
        return Some(found.error);
      }
      if !HasUpdate(payload) {
        return None;
      }
      var row := new ArticleRef(Merge(found.value, payload));
      err := BeforeSave(row);
      if err.Some? {
        return;
      }
      if payload.title != "" && TitleHeldByOther(articles, payload.title, found.value.id) {
        return Some(UniqueTitle);
      }
      articles := ReplaceRow(articles, found.value.id, Columns(row.value).(updatedAt := now));
    }

    /** model.DeleteArticle(id). */
    method DeleteArticle(id: int) returns (err: Option<Error>)
      modifies this
      ensures Changed(err, State()) == ArticleStore.DeleteArticle(old(State()), id)
      ensures Consistent(old(State())) ==> Consistent(State())
    {
      if Consistent(State()) {
        StoreProperties.DeletePreservesValid(State(), id);
      }
      var found := ArticleStore.GetArticle(State(), Blank.(id := ToUint(id)));
      if found.Failure? {
        return Some(found.error);
      }
      articles := RemoveRow(articles, found.value.id);
      err := None;
    }
  }
}
