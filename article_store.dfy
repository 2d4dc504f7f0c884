/** The database behind the model package's global handle `Db`, as a value, and the
    model functions of article/model/article.go that query and change it: GetArticles,
    GetArticle, BeforeSave (with gorm's FirstOrCreate), CreateArticle, UpdateArticle and
    DeleteArticle. The class in store.dfy performs the same changes in place. */
module ArticleStore {
  import opened Wrappers
  import opened DateTime
  import opened ArticleTypes

  /** A name-unique table (categories, publishers): rows in primary-key order, the key
      the next insert receives, and whether statements can reach the table (a missing
      table or a lost connection makes every statement on it fail). */
  datatype Table = Table(name: string, rows: seq<Named>, nextId: nat, reachable: bool)

  /** The articles table with its key counter and reachability, and the two name tables. */
  datatype Db = Db(articles: seq<Article>, nextId: nat, reachable: bool,
                   categories: Table, publishers: Table)

  const ArticlesTable: string := "articles"

  function EmptyTable(name: string): Table {
    Table(name, [], 1, true)
  }

  /** A freshly migrated database. */
  const Empty: Db := Db([], 1, true, EmptyTable("categories"), EmptyTable("publishers"))

  /** uint(id) for a Go int: two's-complement wrap-around into 64 bits. */
  function ToUint(id: int): nat {
    id % 0x1_0000_0000_0000_0000
  }

  // ---------------------------------------------------------------------------
  // Struct conditions: gorm turns every non-zero field of the condition struct into
  // an equality predicate and ignores the zero ones.

  predicate Matches(a: Article, f: Article) {
    && (f.id == 0 || a.id == f.id)
    && (f.title == "" || a.title == f.title)
    && (f.body == "" || a.body == f.body)
    && (f.categoryName == "" || a.categoryName == f.categoryName)
    && (f.publisherName == "" || a.publisherName == f.publisherName)
    && (f.createdAt == Zero || a.createdAt == f.createdAt)
    && (f.publishedAt == Zero || a.publishedAt == f.publishedAt)
    && (f.updatedAt == Zero || a.updatedAt == f.updatedAt)
  }

  /** The rows that satisfy the condition, in table order. */
  function Filter(s: seq<Article>, f: Article): (r: seq<Article>)
    ensures |r| <= |s|
    ensures forall a :: a in r <==> a in s && Matches(a, f)
    // every matching row as often as the table holds it, and no other
    ensures forall a :: multiset(r)[a] == if Matches(a, f) then multiset(s)[a] else 0
  {
    if s == [] then []
    else
      var rest := Filter(s[1..], f);
      var head := if Matches(s[0], f) then [s[0]] else [];
      FilterCounts(s, head, rest, f);
      head + rest
  }

  lemma FilterCounts(s: seq<Article>, head: seq<Article>, rest: seq<Article>, f: Article)
    requires s != [] && head == (if Matches(s[0], f) then [s[0]] else [])
    requires forall a :: multiset(rest)[a] == if Matches(a, f) then multiset(s[1..])[a] else 0
    ensures forall a :: multiset(head + rest)[a] == if Matches(a, f) then multiset(s)[a] else 0
  {
    assert s == [s[0]] + s[1..];
    assert multiset(s) == multiset([s[0]]) + multiset(s[1..]);
    assert multiset(head + rest) == multiset(head) + multiset(rest);
  }

  /** The rows stand in ascending primary-key order. */
  predicate KeysAscending(s: seq<Article>) {
    forall i, j :: 0 <= i < j < |s| ==> s[i].id < s[j].id
  }

  /** A table in key order yields its matches in key order. */
  lemma {:induction false} FilterAscending(s: seq<Article>, f: Article)
    requires KeysAscending(s)
    ensures KeysAscending(Filter(s, f))
  {
    if s != [] {
      AscendingTail(s);
      FilterAscending(s[1..], f);
      var rest := Filter(s[1..], f);
      if Matches(s[0], f) {
        assert Filter(s, f) == [s[0]] + rest;
        assert forall a :: a in rest ==> a in s[1..];
        AscendingCons(s, rest);
      } else {
        assert Filter(s, f) == rest;
      }
    }
  }

  lemma AscendingTail(s: seq<Article>)
    requires s != [] && KeysAscending(s)
    ensures KeysAscending(s[1..])
  {
    forall i, j | 0 <= i < j < |s[1..]| ensures s[1..][i].id < s[1..][j].id {
      assert s[1..][i] == s[i + 1] && s[1..][j] == s[j + 1];
    }
  }

  /** The first row of a table in key order, before rows drawn from the rest, keeps the order. */
  lemma AscendingCons(s: seq<Article>, rest: seq<Article>)
    requires s != [] && KeysAscending(s) && KeysAscending(rest)
    requires forall a :: a in rest ==> a in s[1..]
    ensures KeysAscending([s[0]] + rest)
  {
    var r := [s[0]] + rest;
    forall i, j | 0 <= i < j < |r| ensures r[i].id < r[j].id {
      if i == 0 {
        assert r[j] == rest[j - 1] && rest[j - 1] in s[1..];
        var k :| 0 <= k < |s[1..]| && s[1..][k] == rest[j - 1];
        assert s[k + 1] == r[j];
      } else {
        assert r[i] == rest[i - 1] && r[j] == rest[j - 1];
      }
    }
  }

  /** The first row, in primary-key order, that satisfies the condition. */
  function FirstMatch(s: seq<Article>, f: Article): (r: Option<Article>)
    ensures r.None? <==> forall a :: a in s ==> !Matches(a, f)
    ensures r.Some? ==> r.value in s && Matches(r.value, f)
  {
    if s == [] then None
    else if Matches(s[0], f) then Some(s[0])
    else FirstMatch(s[1..], f)
  }

  /** What FirstMatch finds has no matching row before it. */
  lemma {:induction false} FirstMatchIsFirst(s: seq<Article>, f: Article)
    requires FirstMatch(s, f).Some?
    ensures exists i :: 0 <= i < |s| && s[i] == FirstMatch(s, f).value
                        && forall j :: 0 <= j < i ==> !Matches(s[j], f)
  {
    if !Matches(s[0], f) {
      FirstMatchIsFirst(s[1..], f);
      var i :| 0 <= i < |s[1..]| && s[1..][i] == FirstMatch(s[1..], f).value
               && forall j :: 0 <= j < i ==> !Matches(s[1..][j], f);
      assert s[i + 1] == FirstMatch(s, f).value;
      forall j | 0 <= j < i + 1 ensures !Matches(s[j], f) {
        if j > 0 { assert s[j] == s[1..][j - 1]; }
      }
    } else {
      assert s[0] == FirstMatch(s, f).value;
    }
  }

  /** model.GetArticles: Db.Find(&articles, filter). */
  function GetArticles(db: Db, filter: Article): (r: Result<seq<Article>, Error>)
    ensures r.Success? <==> db.reachable
    ensures r.Failure? ==> r.error == NoSuchTable(ArticlesTable)
    ensures r.Success? ==> forall a :: a in r.value <==> a in db.articles && Matches(a, filter)
  {
    if db.reachable then Success(Filter(db.articles, filter)) else Failure(NoSuchTable(ArticlesTable))
  }

  /** model.GetArticle: Db.First(&article, query); every failure, a store error as
      much as an empty result, becomes ErrArticleNotFound. */
  function GetArticle(db: Db, query: Article): (r: Result<Article, Error>)
    ensures r.Failure? ==> r.error == ArticleNotFound
    ensures r.Success? <==> db.reachable && exists a :: a in db.articles && Matches(a, query)
    ensures r.Success? ==> r.value in db.articles && Matches(r.value, query)
  {
    if !db.reachable then Failure(ArticleNotFound)
    else match FirstMatch(db.articles, query)
      case None => Failure(ArticleNotFound)
      case Some(a) => Success(a)
  }

  // ---------------------------------------------------------------------------
  // Find-or-create on a name table (gorm's FirstOrCreate with Category{Name: name}).

  /** The condition Category{Name: name}: an empty name is a zero field and
      constrains nothing. */
  predicate NameMatches(row: Named, name: string) {
    name == "" || row.name == name
  }

  function FirstNamed(rows: seq<Named>, name: string): (r: Option<Named>)
    ensures r.None? <==> forall row :: row in rows ==> !NameMatches(row, name)
    ensures r.Some? ==> r.value in rows && NameMatches(r.value, name)
  {
    if rows == [] then None
    else if NameMatches(rows[0], name) then Some(rows[0])
    else FirstNamed(rows[1..], name)
  }

  datatype Resolved = Resolved(row: Named, table: Table)

  /** Db.FirstOrCreate(&row, T{Name: name}): the first row satisfying the condition,
      or a new row with that name under the next key. */
  function FirstOrCreate(t: Table, name: string): (r: Result<Resolved, Error>)
    ensures r.Failure? <==> !t.reachable
    ensures r.Failure? ==> r.error == NoSuchTable(t.name)
    ensures r.Success? ==> r.value.row in r.value.table.rows && NameMatches(r.value.row, name)
    ensures r.Success? ==> r.value.table.name == t.name && r.value.table.reachable
  {
    if !t.reachable then Failure(NoSuchTable(t.name))
    else match FirstNamed(t.rows, name)
      case Some(row) => Success(Resolved(row, t))
      case None =>
        var row := Named(t.nextId, name);
        Success(Resolved(row, t.(rows := t.rows + [row], nextId := t.nextId + 1)))
  }

  /** The article after a save hook, the error the hook returned, and the database. */
  datatype Saved = Saved(article: Article, err: Option<Error>, db: Db)

  /** (*Article).BeforeSave: resolves the category, then the publisher, through the
      global handle. Those statements run outside the transaction of the save that
      triggered the hook, so rows they create stay even when that save fails. A
      failure on either table is reported with the same "category" message. */
  function BeforeSave(db: Db, a: Article): (r: Saved)
    ensures r.db.articles == db.articles && r.db.nextId == db.nextId && r.db.reachable == db.reachable
    ensures r.err.None? <==> db.categories.reachable && db.publishers.reachable
    ensures !db.categories.reachable ==>
              r == Saved(a, Some(CategoryUnresolved(NoSuchTable(db.categories.name))), db)
    // the publisher's failure carries the category message, and the category row
    // resolved (or created) just before stays
    ensures db.categories.reachable && !db.publishers.reachable ==>
              && r.err == Some(CategoryUnresolved(NoSuchTable(db.publishers.name)))
              && r.article == a.(category := FirstOrCreate(db.categories, a.categoryName).value.row)
              && r.db.categories == FirstOrCreate(db.categories, a.categoryName).value.table
              && r.db.publishers == db.publishers
    ensures r.err.None? ==>
              && r.article == a.(category := r.article.category, publisher := r.article.publisher)
              && r.article.category in r.db.categories.rows
              && NameMatches(r.article.category, a.categoryName)
              && r.article.publisher in r.db.publishers.rows
              && NameMatches(r.article.publisher, a.publisherName)
  {
    match FirstOrCreate(db.categories, a.categoryName)
    case Failure(e) => Saved(a, Some(CategoryUnresolved(e)), db)
    case Success(c) =>
      var a1 := a.(category := c.row);
      var db1 := db.(categories := c.table);
      match FirstOrCreate(db1.publishers, a.publisherName)
      case Failure(e) => Saved(a1, Some(CategoryUnresolved(e)), db1)
      case Success(p) => Saved(a1.(publisher := p.row), None, db1.(publishers := p.table))
  }

  /** What the articles table stores of an article: its columns, not the associations. */
  function Columns(a: Article): Article {
    a.(category := Unresolved, publisher := Unresolved)
  }

  /** gorm's create: a zero CreatedAt or UpdatedAt is set to the current time. */
  function Stamped(a: Article, now: DateTime): Article {
    a.(createdAt := if a.createdAt == Zero then now else a.createdAt,
       updatedAt := if a.updatedAt == Zero then now else a.updatedAt)
  }

  /** model.CreateArticle: rejects the article if GetArticle finds one with its title
      (with an empty title, any article at all); otherwise Db.Create runs BeforeSave,
      stamps the times and inserts the row under the next key. The caller's article
      comes back with its id, times and associations set. */
  function CreateArticle(db: Db, a: Article, now: DateTime): (r: Saved)
    ensures r.err == Some(TitleExists) <==> GetArticle(db, Blank.(title := a.title)).Success?
    ensures r.err == Some(TitleExists) ==> r.db == db && r.article == a
    ensures r.err.Some? ==> r.db.articles == db.articles && r.db.nextId == db.nextId
    ensures r.err.None? ==>
              && r.article.id == db.nextId
              && r.db.articles == db.articles + [Columns(r.article)]
              && r.db.nextId == db.nextId + 1
    ensures r.err.None? ==>
              && r.article.title == a.title && r.article.body == a.body
              && r.article.categoryName == a.categoryName && r.article.publisherName == a.publisherName
              && r.article.publishedAt == a.publishedAt
              && r.article.createdAt == (if a.createdAt == Zero then now else a.createdAt)
  {
    if GetArticle(db, Blank.(title := a.title)).Success? then Saved(a, Some(TitleExists), db)
    else
      var s := BeforeSave(db, a);
      if s.err.Some? then s
      else
        var stamped := Stamped(s.article, now);
        if !s.db.reachable then Saved(stamped, Some(NoSuchTable(ArticlesTable)), s.db)
        else
          var stored := stamped.(id := s.db.nextId);
          Saved(stored, None, s.db.(articles := s.db.articles + [Columns(stored)], nextId := s.db.nextId + 1))
  }

  /** Whether an update carries any non-zero column (gorm skips an update that does
      not). The payload's id is not a column an update may set here. */
  predicate HasUpdate(p: Article) {
    || p.title != "" || p.body != "" || p.categoryName != "" || p.publisherName != ""
    || p.createdAt != Zero || p.publishedAt != Zero || p.updatedAt != Zero
  }

  /** Db.Model(row).Update(payload): the payload's non-zero fields overwrite the row's. */
  function Merge(row: Article, p: Article): Article {
    row.(title := if p.title != "" then p.title else row.title,
         body := if p.body != "" then p.body else row.body,
         categoryName := if p.categoryName != "" then p.categoryName else row.categoryName,
         publisherName := if p.publisherName != "" then p.publisherName else row.publisherName,
         createdAt := if p.createdAt != Zero then p.createdAt else row.createdAt,
         publishedAt := if p.publishedAt != Zero then p.publishedAt else row.publishedAt,
         updatedAt := if p.updatedAt != Zero then p.updatedAt else row.updatedAt)
  }

  /** Some row other than the one with key `id` has this title. */
  predicate TitleHeldByOther(s: seq<Article>, title: string, id: nat) {
    exists i :: 0 <= i < |s| && s[i].title == title && s[i].id != id
  }

  /** The table with the row keyed `id` replaced. */
  function ReplaceRow(s: seq<Article>, id: nat, row: Article): (r: seq<Article>)
    ensures |r| == |s|
    ensures forall i :: 0 <= i < |s| ==> r[i] == if s[i].id == id then row else s[i]
  {
    if s == [] then [] else [if s[0].id == id then row else s[0]] + ReplaceRow(s[1..], id, row)
  }

  /** The table without the row keyed `id`. */
  function RemoveRow(s: seq<Article>, id: nat): (r: seq<Article>)
    ensures forall a :: a in r <==> a in s && a.id != id
  {
    if s == [] then [] else (if s[0].id == id then [] else [s[0]]) + RemoveRow(s[1..], id)
  }

  /** An error, if any, and the database afterwards. */
  datatype Changed = Changed(err: Option<Error>, db: Db)

  /** model.UpdateArticle: GetArticle(Article{ID: uint(id)}), then Update with the
      payload inside a transaction; the BeforeSave hook resolves the merged names, and
      the UNIQUE constraint on the title can still reject the row. */
  function UpdateArticle(db: Db, id: int, p: Article, now: DateTime): (r: Changed)
    ensures GetArticle(db, Blank.(id := ToUint(id))).Failure? ==> r == Changed(Some(ArticleNotFound), db)
    ensures r.err.Some? ==> r.db.articles == db.articles
    ensures !HasUpdate(p) ==> r.db == db
    ensures r.db.nextId == db.nextId && r.db.reachable == db.reachable
  {
    match GetArticle(db, Blank.(id := ToUint(id)))
    case Failure(e) => Changed(Some(e), db)
    case Success(row) =>
      if !HasUpdate(p) then Changed(None, db)
      else
        var merged := Merge(row, p);
        var s := BeforeSave(db, merged);
        if s.err.Some? then Changed(s.err, s.db)
        else if p.title != "" && TitleHeldByOther(s.db.articles, p.title, row.id) then
          Changed(Some(UniqueTitle), s.db)
        else
          Changed(None, s.db.(articles := ReplaceRow(s.db.articles, row.id, Columns(merged).(updatedAt := now))))
  }

  /** model.DeleteArticle: GetArticle(Article{ID: uint(id)}), then a hard delete of that
      row by its key (Article has no DeletedAt). Categories and publishers stay. */
  function DeleteArticle(db: Db, id: int): (r: Changed)
    ensures GetArticle(db, Blank.(id := ToUint(id))).Failure? ==> r == Changed(Some(ArticleNotFound), db)
    ensures r.db.categories == db.categories && r.db.publishers == db.publishers
    ensures r.db.nextId == db.nextId && r.db.reachable == db.reachable
  {
    match GetArticle(db, Blank.(id := ToUint(id)))
    case Failure(e) => Changed(Some(e), db)
    case Success(row) => Changed(None, db.(articles := RemoveRow(db.articles, row.id)))
  }

  // ---------------------------------------------------------------------------
  // What the schema and the hooks keep true of the database.

  /** Keys from 1 and below the counter, in ascending order, and unique names (the
      UNIQUE constraint on name). */
  predicate TableValid(t: Table) {
    && 1 <= t.nextId
    && (forall i :: 0 <= i < |t.rows| ==> 1 <= t.rows[i].id < t.nextId)
    && (forall i, j :: 0 <= i < j < |t.rows| ==> t.rows[i].id < t.rows[j].id)
    && (forall i, j :: 0 <= i < j < |t.rows| ==> t.rows[i].name != t.rows[j].name)
  }

  predicate HasName(rows: seq<Named>, name: string) {
    exists j :: 0 <= j < |rows| && rows[j].name == name
  }

  /** Auto-increment keys: from 1, below the counter, ascending. */
  predicate KeysBelow(s: seq<Article>, next: nat) {
    && 1 <= next
    && (forall i :: 0 <= i < |s| ==> 1 <= s[i].id < next)
    && (forall i, j :: 0 <= i < j < |s| ==> s[i].id < s[j].id)
  }

  /** The UNIQUE constraint on title. */
  predicate TitlesUnique(s: seq<Article>) {
    forall i, j :: 0 <= i < j < |s| ==> s[i].title != s[j].title
  }

  /** Stored rows hold columns, not associations. */
  predicate ColumnsOnly(s: seq<Article>) {
    forall a :: a in s ==> a.category == Unresolved && a.publisher == Unresolved
  }

  /** Every non-empty category or publisher name of an article has its row. */
  predicate Resolvable(s: seq<Article>, categories: Table, publishers: Table) {
    && (forall a :: a in s && a.categoryName != "" ==> HasName(categories.rows, a.categoryName))
    && (forall a :: a in s && a.publisherName != "" ==> HasName(publishers.rows, a.publisherName))
  }

  /** What the schema and the hooks keep true of the whole database. */
  predicate Consistent(db: Db) {
    && KeysBelow(db.articles, db.nextId) && TitlesUnique(db.articles) && ColumnsOnly(db.articles)
    && TableValid(db.categories) && TableValid(db.publishers)
    && Resolvable(db.articles, db.categories, db.publishers)
  }
}
