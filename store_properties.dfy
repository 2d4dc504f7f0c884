/** Properties of the model functions in article_store.dfy: the invariant Consistent that
    every store operation keeps, find-or-create yielding exactly one row per name,
    and what create, update and delete do to the articles table. */
module StoreProperties {
  import opened Wrappers
  import opened DateTime
  import opened ArticleTypes
  import opened ArticleStore

  /** `b` is `a` with rows appended. */
  predicate Extends<T(==)>(a: seq<T>, b: seq<T>) {
    |a| <= |b| && b[..|a|] == a
  }

  function CountName(rows: seq<Named>, name: string): nat {
    if rows == [] then 0 else (if rows[0].name == name then 1 else 0) + CountName(rows[1..], name)
  }

  /** With unique names, a name occurs once if present and not at all otherwise. */
  lemma {:induction false} CountUnique(rows: seq<Named>, name: string)
    requires forall i, j :: 0 <= i < j < |rows| ==> rows[i].name != rows[j].name
    ensures CountName(rows, name) == if HasName(rows, name) then 1 else 0
  {
    if rows != [] {
      var tl := rows[1..];
      CountUnique(tl, name);
      if rows[0].name == name {
        forall j | 0 <= j < |tl| ensures tl[j].name != name {
          assert tl[j] == rows[j + 1];
        }
      } else if HasName(rows, name) {
        var j :| 0 <= j < |rows| && rows[j].name == name;
        assert tl[j - 1].name == name;
      } else {
        forall j | 0 <= j < |tl| ensures tl[j].name != name {
          assert tl[j] == rows[j + 1];
        }
      }
    }
  }

  lemma ExtendsHasName(a: seq<Named>, b: seq<Named>, name: string)
    requires Extends(a, b) && HasName(a, name)
    ensures HasName(b, name)
  {
    var j :| 0 <= j < |a| && a[j].name == name;
    assert b[j] == a[j];
  }

  lemma MemberHasName(rows: seq<Named>, row: Named)
    requires row in rows
    ensures HasName(rows, row.name)
  {
    var j :| 0 <= j < |rows| && rows[j] == row;
  }

  // ---------------------------------------------------------------------------
  // Find-or-create.

  /** FirstOrCreate keeps a name table valid and only ever appends to it. */
  lemma FirstOrCreateValid(t: Table, name: string)
    requires TableValid(t) && t.reachable
    ensures TableValid(FirstOrCreate(t, name).value.table)
    ensures Extends(t.rows, FirstOrCreate(t, name).value.table.rows)
  {
    if FirstNamed(t.rows, name).None? {
      forall i | 0 <= i < |t.rows| ensures t.rows[i].name != name {
        assert t.rows[i] in t.rows;
      }
      assert (t.rows + [Named(t.nextId, name)])[..|t.rows|] == t.rows;
    } else {
      assert t.rows[..|t.rows|] == t.rows;
    }
  }

  /** Resolving a non-empty name leaves exactly one row with that name: the existing
      row, with the table untouched, or a new row under the next key. */
  lemma FirstOrCreateExactlyOnce(t: Table, name: string)
    requires TableValid(t) && t.reachable && name != ""
    ensures FirstOrCreate(t, name).value.row.name == name
    ensures CountName(FirstOrCreate(t, name).value.table.rows, name) == 1
    ensures HasName(t.rows, name) ==> FirstOrCreate(t, name).value.table == t
    ensures !HasName(t.rows, name) ==>
              && FirstOrCreate(t, name).value.table.rows == t.rows + [Named(t.nextId, name)]
              && FirstOrCreate(t, name).value.table.nextId == t.nextId + 1
  {
    var r := FirstOrCreate(t, name).value;
    FirstOrCreateValid(t, name);
    MemberHasName(r.table.rows, r.row);
    CountUnique(r.table.rows, name);
    if HasName(t.rows, name) {
      var j :| 0 <= j < |t.rows| && t.rows[j].name == name;
      assert t.rows[j] in t.rows && NameMatches(t.rows[j], name);
    }
  }

  /** The hook keeps both name tables valid, only appends to them, and on success has
      the non-empty names of the article present in their tables. */
  lemma BeforeSaveValid(db: Db, a: Article)
    requires TableValid(db.categories) && TableValid(db.publishers)
    ensures var s := BeforeSave(db, a);
      && TableValid(s.db.categories) && TableValid(s.db.publishers)
      && Extends(db.categories.rows, s.db.categories.rows)
      && Extends(db.publishers.rows, s.db.publishers.rows)
      && (s.err.None? && a.categoryName != "" ==> HasName(s.db.categories.rows, a.categoryName))
      && (s.err.None? && a.publisherName != "" ==> HasName(s.db.publishers.rows, a.publisherName))
  {
    var s := BeforeSave(db, a);
    assert db.categories.rows[..|db.categories.rows|] == db.categories.rows;
    assert db.publishers.rows[..|db.publishers.rows|] == db.publishers.rows;
    if db.categories.reachable {
      FirstOrCreateValid(db.categories, a.categoryName);
      if db.publishers.reachable {
        FirstOrCreateValid(db.publishers, a.publisherName);
        if a.categoryName != "" { MemberHasName(s.db.categories.rows, s.article.category); }
        if a.publisherName != "" { MemberHasName(s.db.publishers.rows, s.article.publisher); }
      }
    }
  }

  /** Appending to the name tables keeps every article's names resolvable. */
  lemma ReferencesKept(s: seq<Article>, c: Table, p: Table, c': Table, p': Table)
    requires Resolvable(s, c, p)
    requires Extends(c.rows, c'.rows) && Extends(p.rows, p'.rows)
    ensures Resolvable(s, c', p')
  {
    forall x | x in s && x.categoryName != "" ensures HasName(c'.rows, x.categoryName) {
      ExtendsHasName(c.rows, c'.rows, x.categoryName);
    }
    forall x | x in s && x.publisherName != "" ensures HasName(p'.rows, x.publisherName) {
      ExtendsHasName(p.rows, p'.rows, x.publisherName);
    }
  }

  // ---------------------------------------------------------------------------
  // Queries.

  /** The empty condition selects every row, in table order. */
  lemma {:induction false} FilterBlank(s: seq<Article>)
    ensures Filter(s, Blank) == s
  {
    if s != [] {
      FilterBlank(s[1..]);
      assert Matches(s[0], Blank);
    }
  }

  /** GET /article without a query lists the whole table. */
  lemma GetArticlesAll(db: Db)
    requires db.reachable
    ensures GetArticles(db, Blank) == Success(db.articles)
  {
    FilterBlank(db.articles);
  }

  /** First, by primary key: the article found has the smallest key of all matches. */
  lemma GetArticleSmallestKey(db: Db, q: Article)
    requires KeysBelow(db.articles, db.nextId) && GetArticle(db, q).Success?
    ensures forall x :: x in db.articles && Matches(x, q) ==> GetArticle(db, q).value.id <= x.id
  {
    FirstMatchIsFirst(db.articles, q);
    var i :| 0 <= i < |db.articles| && db.articles[i] == GetArticle(db, q).value
             && forall j :: 0 <= j < i ==> !Matches(db.articles[j], q);
    FirstHasSmallestKey(db.articles, q, i);
  }

  lemma FirstHasSmallestKey(s: seq<Article>, q: Article, i: int)
    requires forall k, l :: 0 <= k < l < |s| ==> s[k].id < s[l].id
    requires 0 <= i < |s| && forall j :: 0 <= j < i ==> !Matches(s[j], q)
    ensures forall x :: x in s && Matches(x, q) ==> s[i].id <= x.id
  {
    forall x | x in s && Matches(x, q) ensures s[i].id <= x.id {
      var k :| 0 <= k < |s| && s[k] == x;
    }
  }

  /** The key 0 is a zero field and constrains nothing: it addresses the first row. */
  lemma ZeroIdTargetsFirst(db: Db)
    requires db.reachable && |db.articles| > 0
    ensures GetArticle(db, Blank.(id := ToUint(0))) == Success(db.articles[0])
  {
    assert Matches(db.articles[0], Blank);
  }

  /** uint(id) of a negative key wraps around to a key no row can have below 2^63. */
  lemma NegativeIdWraps(id: int)
    requires -0x8000_0000_0000_0000 <= id < 0
    ensures ToUint(id) == id + 0x1_0000_0000_0000_0000 && ToUint(id) >= 0x8000_0000_0000_0000
  {
  }

  /** With ascending keys, the only row with key s[k].id is s[k]. */
  lemma KeyIdentifies(s: seq<Article>, k: int, x: Article)
    requires forall i, j :: 0 <= i < j < |s| ==> s[i].id < s[j].id
    requires 0 <= k < |s| && x in s && x.id == s[k].id
    ensures x == s[k]
  {
    var m :| 0 <= m < |s| && s[m] == x;
  }

  // ---------------------------------------------------------------------------
  // Create.

  /** Appending a row under the next key, with a new title, its columns only and its
      names resolvable, keeps the articles table consistent. */
  lemma AppendKeeps(s: seq<Article>, next: nat, row: Article, c: Table, p: Table)
    requires KeysBelow(s, next) && TitlesUnique(s) && ColumnsOnly(s) && Resolvable(s, c, p)
    requires row.id == next
    requires forall x :: x in s ==> x.title != row.title
    requires row.category == Unresolved && row.publisher == Unresolved
    requires row.categoryName != "" ==> HasName(c.rows, row.categoryName)
    requires row.publisherName != "" ==> HasName(p.rows, row.publisherName)
    ensures KeysBelow(s + [row], next + 1) && TitlesUnique(s + [row])
    ensures ColumnsOnly(s + [row]) && Resolvable(s + [row], c, p)
  {
    var s' := s + [row];
    forall i, j | 0 <= i < j < |s'| ensures s'[i].title != s'[j].title {
      if j == |s| { assert s'[i] == s[i] && s[i] in s; }
    }
  }

  /** CreateArticle keeps the database consistent, whatever its outcome. */
  lemma CreatePreservesValid(db: Db, a: Article, now: DateTime)
    requires Consistent(db)
    ensures Consistent(CreateArticle(db, a, now).db)
  {
    var r := CreateArticle(db, a, now);
    if GetArticle(db, Blank.(title := a.title)).Failure? {
      var s := BeforeSave(db, a);
      BeforeSaveValid(db, a);
      ReferencesKept(db.articles, db.categories, db.publishers, s.db.categories, s.db.publishers);
      if s.err.Some? || !s.db.reachable {
        assert r.db == s.db;
      } else {
        var row := Columns(Stamped(s.article, now).(id := s.db.nextId));
        forall x | x in db.articles ensures x.title != row.title {
          assert !Matches(x, Blank.(title := a.title));
        }
        AppendKeeps(db.articles, db.nextId, row, s.db.categories, s.db.publishers);
        assert r.db == s.db.(articles := db.articles + [row], nextId := db.nextId + 1);
      }
    }
  }

  /** On a valid, reachable database, an article whose title is not taken is stored:
      under a fresh key, once, and with its names resolved to exactly one row each. */
  lemma CreateStores(db: Db, a: Article, now: DateTime)
    requires Consistent(db) && db.reachable && db.categories.reachable && db.publishers.reachable
    requires forall x :: x in db.articles ==> x.title != a.title
    requires a.title != ""
    ensures var r := CreateArticle(db, a, now);
      && r.err.None?
      && (forall x :: x in db.articles ==> x.id < r.article.id)
      && (a.categoryName != "" ==> CountName(r.db.categories.rows, a.categoryName) == 1)
      && (a.publisherName != "" ==> CountName(r.db.publishers.rows, a.publisherName) == 1)
  {
    var r := CreateArticle(db, a, now);
    assert GetArticle(db, Blank.(title := a.title)).Failure?;
    CreateSucceeds(db, a, now);
    var s := BeforeSave(db, a);
    BeforeSaveValid(db, a);
    if a.categoryName != "" {
      CountUnique(s.db.categories.rows, a.categoryName);
    }
    if a.publisherName != "" {
      CountUnique(s.db.publishers.rows, a.publisherName);
    }
    KeysBelowNext(db.articles, db.nextId);
  }

  /** Past the title check, with every table reachable, the create goes through and
      keeps the name tables the hook left. */
  lemma CreateSucceeds(db: Db, a: Article, now: DateTime)
    requires db.reachable && db.categories.reachable && db.publishers.reachable
    requires GetArticle(db, Blank.(title := a.title)).Failure?
    ensures var r := CreateArticle(db, a, now);
      var s := BeforeSave(db, a);
      && r.err.None? && r.article.id == db.nextId
      && r.db.categories == s.db.categories && r.db.publishers == s.db.publishers
  {
  }

  lemma KeysBelowNext(s: seq<Article>, next: nat)
    requires KeysBelow(s, next)
    ensures forall x :: x in s ==> x.id < next
  {
    forall x | x in s ensures x.id < next {
      var k :| 0 <= k < |s| && s[k] == x;
    }
  }

  /** Once an article is stored, a second create with its title is rejected and
      changes nothing. */
  lemma CreateThenDuplicate(db: Db, a: Article, b: Article, now: DateTime, later: DateTime)
    requires CreateArticle(db, a, now).err.None?
    requires b.title == a.title
    ensures var r := CreateArticle(db, a, now);
      CreateArticle(r.db, b, later) == Saved(b, Some(TitleExists), r.db)
  {
    var r := CreateArticle(db, a, now);
    assert Columns(r.article) in r.db.articles;
    assert Matches(Columns(r.article), Blank.(title := b.title));
  }

  /** A stored article can be fetched back by the key it was given. */
  lemma CreateThenGet(db: Db, a: Article, now: DateTime)
    requires Consistent(db) && CreateArticle(db, a, now).err.None?
    ensures var r := CreateArticle(db, a, now);
      GetArticle(r.db, Blank.(id := r.article.id)) == Success(Columns(r.article))
  {
    var r := CreateArticle(db, a, now);
    var q := Blank.(id := r.article.id);
    assert r.db.articles == db.articles + [Columns(r.article)];
    assert Matches(Columns(r.article), q);
    forall x | x in r.db.articles && Matches(x, q) ensures x == Columns(r.article) {
      var k :| 0 <= k < |r.db.articles| && r.db.articles[k] == x;
    }
  }

  // ---------------------------------------------------------------------------
  // Update.

  /** An update with no new values leaves the row as it is; one with values puts them
      in and keeps the key. */
  lemma MergeProperties(row: Article, p: Article)
    ensures Merge(row, Blank) == row
    ensures Merge(row, p).id == row.id
    ensures Matches(Merge(row, p), p.(id := 0))
    ensures Merge(Merge(row, p), p) == Merge(row, p)
  {
  }

  /** With unique keys, replacing the row keyed s[k].id replaces row k alone. */
  lemma ReplaceAt(s: seq<Article>, k: int, row: Article)
    requires forall i, j :: 0 <= i < j < |s| ==> s[i].id < s[j].id
    requires 0 <= k < |s|
    ensures ReplaceRow(s, s[k].id, row) == s[k := row]
  {
    var r := ReplaceRow(s, s[k].id, row);
    forall i | 0 <= i < |s| ensures r[i] == s[k := row][i] {
      if i < k { assert s[i].id < s[k].id; } else if i > k { assert s[k].id < s[i].id; }
    }
  }

  /** ErrArticleNotFound comes back exactly when there is no row to update, and then
      nothing has changed. */
  lemma UpdateNotFound(db: Db, id: int, p: Article, now: DateTime)
    ensures var r := UpdateArticle(db, id, p, now);
      r.err == Some(ArticleNotFound) <==> GetArticle(db, Blank.(id := ToUint(id))).Failure?
  {
  }

  /** A successful update with new values overwrites the addressed row with the merged
      columns and the current time, and only that row. */
  lemma UpdateReplacesTarget(db: Db, id: int, p: Article, now: DateTime)
    requires KeysBelow(db.articles, db.nextId) && HasUpdate(p)
    requires UpdateArticle(db, id, p, now).err.None?
    ensures GetArticle(db, Blank.(id := ToUint(id))).Success?
    ensures var row := GetArticle(db, Blank.(id := ToUint(id))).value;
      exists k :: 0 <= k < |db.articles| && db.articles[k] == row
        && UpdateArticle(db, id, p, now).db.articles
           == db.articles[k := Columns(Merge(row, p)).(updatedAt := now)]
  {
    UpdateIsReplace(db, id, p, now);
    var row := GetArticle(db, Blank.(id := ToUint(id))).value;
    var k :| 0 <= k < |db.articles| && db.articles[k] == row;
    ReplaceAt(db.articles, k, Columns(Merge(row, p)).(updatedAt := now));
  }

  lemma UpdateIsReplace(db: Db, id: int, p: Article, now: DateTime)
    requires HasUpdate(p) && UpdateArticle(db, id, p, now).err.None?
    ensures GetArticle(db, Blank.(id := ToUint(id))).Success?
    ensures var row := GetArticle(db, Blank.(id := ToUint(id))).value;
      UpdateArticle(db, id, p, now).db.articles
        == ReplaceRow(db.articles, row.id, Columns(Merge(row, p)).(updatedAt := now))
  {
  }

  /** Overwriting row k with a row of the same key, a title no other row has, its
      columns only and resolvable names keeps the articles table consistent. */
  lemma SetKeeps(s: seq<Article>, next: nat, k: int, v: Article, c: Table, p: Table)
    requires KeysBelow(s, next) && TitlesUnique(s) && ColumnsOnly(s) && Resolvable(s, c, p)
    requires 0 <= k < |s| && v.id == s[k].id
    requires forall i :: 0 <= i < |s| && i != k ==> s[i].title != v.title
    requires v.category == Unresolved && v.publisher == Unresolved
    requires v.categoryName != "" ==> HasName(c.rows, v.categoryName)
    requires v.publisherName != "" ==> HasName(p.rows, v.publisherName)
    ensures KeysBelow(s[k := v], next) && TitlesUnique(s[k := v])
    ensures ColumnsOnly(s[k := v]) && Resolvable(s[k := v], c, p)
  {
    var s' := s[k := v];
    forall x | x in s' ensures x == v || x in s {
      var i :| 0 <= i < |s'| && s'[i] == x;
    }
  }

  /** The merged title is held by no other row once the UNIQUE check has passed. */
  lemma MergedTitleFree(s: seq<Article>, next: nat, k: int, p: Article)
    requires KeysBelow(s, next) && TitlesUnique(s) && 0 <= k < |s|
    requires !(p.title != "" && TitleHeldByOther(s, p.title, s[k].id))
    ensures forall i :: 0 <= i < |s| && i != k ==> s[i].title != Merge(s[k], p).title
  {
    forall i | 0 <= i < |s| && i != k ensures s[i].title != Merge(s[k], p).title {
      if p.title != "" {
        assert s[i].id != s[k].id by {
          if i < k { assert s[i].id < s[k].id; } else { assert s[k].id < s[i].id; }
        }
      }
    }
  }

  /** The row written by a successful update keeps the database consistent. */
  lemma UpdatedRowKeeps(db: Db, k: int, p: Article, now: DateTime)
    requires Consistent(db) && 0 <= k < |db.articles|
    requires var s := BeforeSave(db, Merge(db.articles[k], p));
      s.err.None? && !(p.title != "" && TitleHeldByOther(s.db.articles, p.title, db.articles[k].id))
    ensures var merged := Merge(db.articles[k], p);
      var s := BeforeSave(db, merged);
      Consistent(s.db.(articles := ReplaceRow(s.db.articles, db.articles[k].id, Columns(merged).(updatedAt := now))))
  {
    var merged := Merge(db.articles[k], p);
    var s := BeforeSave(db, merged);
    BeforeSaveValid(db, merged);
    ReferencesKept(db.articles, db.categories, db.publishers, s.db.categories, s.db.publishers);
    var v := Columns(merged).(updatedAt := now);
    ReplaceAt(db.articles, k, v);
    MergedTitleFree(db.articles, db.nextId, k, p);
    SetKeeps(db.articles, db.nextId, k, v, s.db.categories, s.db.publishers);
  }

  /** UpdateArticle keeps the database consistent, whatever its outcome. */
  lemma UpdatePreservesValid(db: Db, id: int, p: Article, now: DateTime)
    requires Consistent(db)
    ensures Consistent(UpdateArticle(db, id, p, now).db)
  {
    var g := GetArticle(db, Blank.(id := ToUint(id)));
    if g.Success? && HasUpdate(p) {
      var k :| 0 <= k < |db.articles| && db.articles[k] == g.value;
      var s := BeforeSave(db, Merge(g.value, p));
      if s.err.Some? || (p.title != "" && TitleHeldByOther(s.db.articles, p.title, g.value.id)) {
        BeforeSaveValid(db, Merge(g.value, p));
        ReferencesKept(db.articles, db.categories, db.publishers, s.db.categories, s.db.publishers);
      } else {
        UpdatedRowKeeps(db, k, p, now);
      }
    }
  }

  // ---------------------------------------------------------------------------
  // Delete.

  lemma {:induction false} RemoveAbsent(s: seq<Article>, id: nat)
    requires forall x :: x in s ==> x.id != id
    ensures RemoveRow(s, id) == s
  {
    if s != [] {
      RemoveAbsent(s[1..], id);
      assert s == [s[0]] + s[1..];
    }
  }

  /** With ascending keys, removing the row keyed s[k].id removes row k alone. */
  lemma {:induction false} RemoveAt(s: seq<Article>, k: int)
    requires forall i, j :: 0 <= i < j < |s| ==> s[i].id < s[j].id
    requires 0 <= k < |s|
    ensures RemoveRow(s, s[k].id) == s[..k] + s[k + 1..]
  {
    if k == 0 {
      RemoveFirst(s);
    } else {
      var t := s[1..];
      RemoveKept(s, s[k].id);
      AscendingTail(s);
      assert t[k - 1] == s[k];
      RemoveAt(t, k - 1);
      Splice(s, k);
    }
  }

  lemma Splice<T>(s: seq<T>, k: int)
    requires 0 < k < |s|
    ensures s[..k] + s[k + 1..] == [s[0]] + (s[1..][..k - 1] + s[1..][k..])
  {
    assert s[..k] == [s[0]] + s[1..][..k - 1];
    assert s[k + 1..] == s[1..][k..];
  }

  lemma RemoveFirst(s: seq<Article>)
    requires s != [] && forall i, j :: 0 <= i < j < |s| ==> s[i].id < s[j].id
    ensures RemoveRow(s, s[0].id) == s[1..]
  {
    forall x | x in s[1..] ensures x.id != s[0].id {
      var m :| 0 <= m < |s[1..]| && s[1..][m] == x;
      assert s[0].id < s[m + 1].id;
    }
    RemoveAbsent(s[1..], s[0].id);
    assert RemoveRow(s, s[0].id) == [] + RemoveRow(s[1..], s[0].id);
  }

  lemma RemoveKept(s: seq<Article>, id: nat)
    requires s != [] && s[0].id != id
    ensures RemoveRow(s, id) == [s[0]] + RemoveRow(s[1..], id)
  {
  }

  lemma AscendingTail(s: seq<Article>)
    requires s != [] && forall i, j :: 0 <= i < j < |s| ==> s[i].id < s[j].id
    ensures forall i, j :: 0 <= i < j < |s| - 1 ==> s[1..][i].id < s[1..][j].id
  {
    forall i, j | 0 <= i < j < |s| - 1 ensures s[1..][i].id < s[1..][j].id {
      assert s[1..][i] == s[i + 1] && s[1..][j] == s[j + 1];
    }
  }

  /** A successful delete removes the addressed row and keeps the others in order. */
  lemma DeleteRemovesTarget(db: Db, id: int)
    requires Consistent(db) && GetArticle(db, Blank.(id := ToUint(id))).Success?
    ensures var row := GetArticle(db, Blank.(id := ToUint(id))).value;
      exists k :: 0 <= k < |db.articles| && db.articles[k] == row
        && DeleteArticle(db, id).err.None?
        && DeleteArticle(db, id).db.articles == db.articles[..k] + db.articles[k + 1..]
  {
    var row := GetArticle(db, Blank.(id := ToUint(id))).value;
    var k :| 0 <= k < |db.articles| && db.articles[k] == row;
    RemoveAt(db.articles, k);
  }

  /** Once a non-zero key is deleted it is gone: a lookup, and a second delete, report
      ErrArticleNotFound. */
  lemma DeleteThenGetFails(db: Db, id: int)
    requires ToUint(id) != 0 && DeleteArticle(db, id).err.None?
    ensures var r := DeleteArticle(db, id);
      && GetArticle(r.db, Blank.(id := ToUint(id))) == Failure(ArticleNotFound)
      && DeleteArticle(r.db, id) == Changed(Some(ArticleNotFound), r.db)
  {
  }

  /** Dropping row k keeps the articles table consistent. */
  lemma DropKeeps(s: seq<Article>, next: nat, k: int, c: Table, p: Table)
    requires KeysBelow(s, next) && TitlesUnique(s) && ColumnsOnly(s) && Resolvable(s, c, p)
    requires 0 <= k < |s|
    ensures var s' := s[..k] + s[k + 1..];
      KeysBelow(s', next) && TitlesUnique(s') && ColumnsOnly(s') && Resolvable(s', c, p)
  {
    var s' := s[..k] + s[k + 1..];
    assert forall i :: 0 <= i < |s'| ==> s'[i] == s[if i < k then i else i + 1];
    forall x | x in s' ensures x in s {
      var i :| 0 <= i < |s'| && s'[i] == x;
    }
  }

  /** DeleteArticle keeps the database consistent. */
  lemma DeletePreservesValid(db: Db, id: int)
    requires Consistent(db)
    ensures Consistent(DeleteArticle(db, id).db)
  {
    var g := GetArticle(db, Blank.(id := ToUint(id)));
    if g.Success? {
      var k :| 0 <= k < |db.articles| && db.articles[k] == g.value;
      RemoveAt(db.articles, k);
      DropKeeps(db.articles, db.nextId, k, db.categories, db.publishers);
    }
  }
}
