/** Properties of the handlers: which query values reach the filter, what a bad path
    id does, and how create, get, put and delete combine. */
module ControllerProperties {
  import opened Wrappers
  import opened DateTime
  import opened Decimal
  import opened ArticleTypes
  import opened ArticleCodec
  import opened ArticleStore
  import opened IntParse
  import opened ArticleController
  import StoreProperties

  /** Only category, publisher, created_at and published_at reach the filter: queries
      that agree on those four list the same articles. */
  lemma OtherParametersIgnored(db: Db, q: Query, q': Query)
    requires forall k :: k in FilterKeys ==> FormValue(q, k) == FormValue(q', k)
    ensures QueryFilter(q) == QueryFilter(q')
    ensures GetAll(db, q) == GetAll(db, q')
  {
    assert "category" in FilterKeys && "publisher" in FilterKeys;
    assert "created_at" in FilterKeys && "published_at" in FilterKeys;
  }

  /** A query naming a category and a publisher lists exactly the articles with those
      names; an empty value constrains nothing. */
  lemma ListByNames(db: Db, category: string, publisher: string)
    requires db.reachable
    ensures var o := GetAll(db, map["category" := category, "publisher" := publisher]);
      && o.status == StatusOK && o.err.None? && o.data.Many?
      && forall a :: a in o.data.articles <==>
           && a in db.articles
           && (category == "" || a.categoryName == category)
           && (publisher == "" || a.publisherName == publisher)
  {
    var q := map["category" := category, "publisher" := publisher];
    assert FormValue(q, "created_at") == "" && FormValue(q, "published_at") == "";
    assert FormValue(q, "category") == category && FormValue(q, "publisher") == publisher;
  }

  /** A path id with ')' passes the route pattern but not Atoi: Get, Put and Delete
      answer 400 with the invalid-id error and leave the database alone. */
  lemma ParenIdRejected(db: Db, idText: string, i: int, body: Body, now: DateTime)
    requires 0 <= i < |idText| && idText[i] == ')'
    ensures Get(db, idText) == Outcome(Null, StatusBadRequest, Some(InvalidId(Atoi(idText).value)), db)
    ensures Put(db, idText, body, now) == Outcome(Null, StatusBadRequest, Some(InvalidId(Atoi(idText).value)), db)
    ensures Delete(db, idText).status == StatusBadRequest && Delete(db, idText).db == db
    ensures Delete(db, idText).err.value.InvalidIdCause?
  {
    AtoiRejectsParen(idText, i);
  }

  /** Posting the same article twice: the second post is a 400 with "title aleady
      exists" that changes nothing, and exactly one row carries the title. */
  lemma CreateTwiceRejected(db: Db, body: Body, now: DateTime, later: DateTime)
    requires Consistent(db) && Create(db, body, now).err.None?
    ensures var o := Create(db, body, now);
      Create(o.db, body, later) == Outcome(Null, StatusBadRequest, Some(TitleExists), o.db)
    ensures var o := Create(db, body, now);
      exists k :: 0 <= k < |o.db.articles| && o.db.articles[k].title == o.data.article.title
        && forall j :: 0 <= j < |o.db.articles| && o.db.articles[j].title == o.data.article.title ==> j == k
  {
    var a := Serialize(body).value;
    var o := Create(db, body, now);
    StoreProperties.CreateThenDuplicate(db, a, a, now, later);
    StoreProperties.CreatePreservesValid(db, a, now);
    var k := |o.db.articles| - 1;
    assert o.db.articles[k] == Columns(o.data.article);
  }

  /** The key a create returns fetches the stored article, which encodes to the same
      JSON as the create's response. */
  lemma CreateThenGetById(db: Db, body: Body, now: DateTime)
    requires Consistent(db) && db.nextId <= MaxInt64
    requires Create(db, body, now).err.None?
    ensures var o := Create(db, body, now);
      var x := o.data.article;
      && Get(o.db, Show(x.id)) == Outcome(One(Columns(x)), StatusOK, None, o.db)
      && MarshalJSON(Columns(x)) == MarshalJSON(x)
  {
    var a := Serialize(body).value;
    CreateIsStore(db, body, now);
    var r := CreateArticle(db, a, now);
    var x := r.article;
    StoreProperties.CreateThenGet(db, a, now);
    AtoiShow(x.id);
    GetById(r.db, Show(x.id), x.id, Columns(x));
    MarshalHidesInternals(Columns(x), x);
  }

  /** A create that succeeds is the store's create of the decoded article. */
  lemma CreateIsStore(db: Db, body: Body, now: DateTime)
    requires Create(db, body, now).err.None?
    ensures Serialize(body).Success?
    ensures var r := CreateArticle(db, Serialize(body).value, now);
      r.err.None? && Create(db, body, now) == Outcome(One(r.article), StatusCreated, None, r.db)
  {
  }

  /** An id text that reads as a key fetches the row with that key. */
  lemma GetById(db: Db, idText: string, id: nat, x: Article)
    requires Atoi(idText) == Parsed(id, None) && GetArticle(db, Blank.(id := id)) == Success(x)
    ensures Get(db, idText) == Outcome(One(x), StatusOK, None, db)
  {
    assert ToUint(id) == id;
  }

  /** After a delete by a non-zero id succeeds, a get by the same id is a 400 with
      "article not found". */
  lemma DeleteThenGetNotFound(db: Db, idText: string)
    requires Delete(db, idText).err.None? && ToUint(Atoi(idText).value) != 0
    ensures var o := Delete(db, idText);
      Get(o.db, idText) == Outcome(Null, StatusBadRequest, Some(ArticleNotFound), o.db)
  {
    StoreProperties.DeleteThenGetFails(db, Atoi(idText).value);
  }

  /** Put answers with the decoded payload, which never carries a key or a creation
      time: not with the stored row. */
  lemma PutEchoesPayload(db: Db, idText: string, body: Body, now: DateTime)
    requires Put(db, idText, body, now).err.None?
    ensures var x := Put(db, idText, body, now).data.article;
      x.id == 0 && x.createdAt == Zero && x.updatedAt == Zero
  {
  }

  /** No handler breaks the consistency of the database. */
  lemma HandlersKeepConsistent(db: Db, q: Query, idText: string, body: Body, now: DateTime)
    requires Consistent(db)
    ensures Consistent(GetAll(db, q).db) && Consistent(Get(db, idText).db)
    ensures Consistent(Create(db, body, now).db)
    ensures Consistent(Put(db, idText, body, now).db)
    ensures Consistent(Delete(db, idText).db)
  {
    CreateKeepsConsistent(db, body, now);
    PutKeepsConsistent(db, idText, body, now);
    DeleteKeepsConsistent(db, idText);
  }

  lemma CreateKeepsConsistent(db: Db, body: Body, now: DateTime)
    requires Consistent(db)
    ensures Consistent(Create(db, body, now).db)
  {
    if Serialize(body).Success? && Validate(Serialize(body).value).None? {
      var r := CreateArticle(db, Serialize(body).value, now);
      assert Create(db, body, now).db == r.db;
      StoreProperties.CreatePreservesValid(db, Serialize(body).value, now);
    }
  }

  lemma PutKeepsConsistent(db: Db, idText: string, body: Body, now: DateTime)
    requires Consistent(db)
    ensures Consistent(Put(db, idText, body, now).db)
  {
    if Atoi(idText).failure.None? && Serialize(body).Success? {
      var r := UpdateArticle(db, Atoi(idText).value, Serialize(body).value, now);
      assert Put(db, idText, body, now).db == r.db;
      StoreProperties.UpdatePreservesValid(db, Atoi(idText).value, Serialize(body).value, now);
    }
  }

  lemma DeleteKeepsConsistent(db: Db, idText: string)
    requires Consistent(db)
    ensures Consistent(Delete(db, idText).db)
  {
    if Atoi(idText).failure.None? {
      var r := DeleteArticle(db, Atoi(idText).value);
      assert Delete(db, idText).db == r.db;
      StoreProperties.DeletePreservesValid(db, Atoi(idText).value);
    }
  }
}
