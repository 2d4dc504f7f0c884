/** One session against a freshly migrated database, request by request through the
    router: create an article, post it again, list its category, delete it and fetch
    it once more. */
module Scenario {
  import opened Wrappers
  import opened Decimal
  import opened DateTime
  import opened ArticleTypes
  import opened ArticleCodec
  import opened ArticleStore
  import opened IntParse
  import opened ArticleController
  import opened Router
  import StoreProperties
  import ControllerProperties

  const Tommy: Body := Fields(Some("Tommy test"), Some("Andela is the best office to work in ajjfdsfdfskjfv "),
                              Some("Extras"), Some("Femonofsky"), None)

  /** An empty database is consistent. */
  lemma EmptyConsistent()
    ensures Consistent(Empty)
  {
  }

  /** The article the body decodes to. */
  const TommyArticle: Article :=
    Blank.(title := "Tommy test", body := "Andela is the best office to work in ajjfdsfdfskjfv ",
           categoryName := "Extras", publisherName := "Femonofsky")

  /** The article as the first post returns it: key 1, both names resolved to new
      rows with key 1, stamped with the current time. */
  function Stored(now: DateTime): Article {
    TommyArticle.(id := 1, category := Named(1, "Extras"), publisher := Named(1, "Femonofsky"),
                  createdAt := now, updatedAt := now)
  }

  /** The database after the first post. */
  function AfterPost(now: DateTime): Db {
    Db([Columns(Stored(now))], 2, true,
       Table("categories", [Named(1, "Extras")], 2, true),
       Table("publishers", [Named(1, "Femonofsky")], 2, true))
  }

  lemma DecodeTommy()
    ensures Serialize(Tommy) == Success(TommyArticle) && Validate(TommyArticle).None?
  {
  }

  /** The hook creates the category and the publisher. */
  lemma BeforeSaveTommy()
    ensures BeforeSave(Empty, TommyArticle) ==
              Saved(TommyArticle.(category := Named(1, "Extras"), publisher := Named(1, "Femonofsky")), None,
                    Empty.(categories := AfterPost(Zero).categories, publishers := AfterPost(Zero).publishers))
  {
    assert [] + [Named(1, "Extras")] == [Named(1, "Extras")];
    assert [] + [Named(1, "Femonofsky")] == [Named(1, "Femonofsky")];
    assert FirstOrCreate(Empty.categories, "Extras") ==
             Success(Resolved(Named(1, "Extras"), AfterPost(Zero).categories));
    assert FirstOrCreate(Empty.publishers, "Femonofsky") ==
             Success(Resolved(Named(1, "Femonofsky"), AfterPost(Zero).publishers));
  }

  lemma CreateTommy(now: DateTime)
    ensures CreateArticle(Empty, TommyArticle, now) == Saved(Stored(now), None, AfterPost(now))
  {
    assert GetArticle(Empty, Blank.(title := TommyArticle.title)).Failure?;
    BeforeSaveTommy();
  }

  /** The database afterwards is consistent. */
  lemma AfterPostConsistent(now: DateTime)
    ensures Consistent(AfterPost(now))
  {
    var db := AfterPost(now);
    assert db.categories.rows[0].name == "Extras" && db.publishers.rows[0].name == "Femonofsky";
    assert HasName(db.categories.rows, "Extras") && HasName(db.publishers.rows, "Femonofsky");
  }

  /** POST /article/ with the article: 201, success, and the article under key 1. */
  lemma PostServed(now: DateTime)
    ensures Serve(Empty, Request("POST", "/article/", map[], Tommy), now) ==
              Some((Response(StatusCreated, Headers, Envelope(true, JsonObject(MarshalJSON(Stored(now))))),
                    AfterPost(now)))
    ensures MarshalJSON(Stored(now))[0] == ("id", JNum(1))
    ensures MarshalJSON(Stored(now))[1] == ("title", JStr("Tommy test"))
  {
    DecodeTommy();
    CreateTommy(now);
    assert Create(Empty, Tommy, now) == Outcome(One(Stored(now)), StatusCreated, None, AfterPost(now));
    assert Route("POST", "/article/") == Some(Match(CreateHandler, ""));
  }

  /** A reachable database holding exactly the article `x`. */
  predicate HoldsOnly(db: Db, x: Article) {
    db.reachable && db.articles == [x]
  }

  /** The same POST again: 400 with success false and the duplicate-title message. */
  lemma SecondPostServed(db: Db, x: Article, later: DateTime)
    requires HoldsOnly(db, x) && x.title == "Tommy test"
    ensures var r := Serve(db, Request("POST", "/article/", map[], Tommy), later);
      && r.Some? && r.value.1 == db
      && r.value.0 == Response(StatusBadRequest, Headers, Envelope(false, JsonString("title aleady exists")))
  {
    var a := Serialize(Tommy).value;
    assert a.title == "Tommy test" && a.body != "" && a.categoryName != "" && a.publisherName != "";
    assert Matches(x, Blank.(title := a.title));
    assert GetArticle(db, Blank.(title := a.title)).Success?;
    assert Route("POST", "/article/") == Some(Match(CreateHandler, ""));
  }

  /** GET /article?category=Extras lists the one stored article. */
  lemma ListServed(db: Db, x: Article)
    requires HoldsOnly(db, x) && x.categoryName == "Extras"
    ensures var r := Serve(db, Request("GET", "/article", map["category" := "Extras"], Unreadable("EOF")), x.createdAt);
      && r.Some? && r.value.1 == db
      && r.value.0 == Response(StatusOK, Headers, Envelope(true, JsonArray([MarshalJSON(x)])))
  {
    var q := map["category" := "Extras"];
    assert FormValue(q, "category") == "Extras" && FormValue(q, "publisher") == "";
    assert FormValue(q, "created_at") == "" && FormValue(q, "published_at") == "";
    var f := QueryFilter(q).value;
    assert Matches(x, f);
    assert Filter(db.articles, f) == [x];
    assert Route("GET", "/article") == Some(Match(GetAllHandler, ""));
  }

  /** A routed request is answered by its handler's outcome. */
  lemma Served(db: Db, req: Request, now: DateTime, m: Match)
    requires Route(req.verb, req.path) == Some(m)
    ensures var o := Dispatch(db, m, req, now);
      Serve(db, req, now) == Some((Response(o.status, Headers, EnvelopeOf(o.data, o.err)), o.db))
  {
  }

  lemma ShowOne()
    ensures Show(1) == "1" && Atoi("1") == Parsed(1, None)
  {
    PadIntFits(1, 1);
    AtoiShow(1);
  }

  lemma IdRoutes(verb: string)
    requires verb in {"GET", "PUT", "DELETE"}
    ensures Route(verb, "/article/1").Some? && Route(verb, "/article/1").value.id == "1"
    ensures verb == "GET" ==> Route(verb, "/article/1") == Some(Match(GetHandler, "1"))
    ensures verb == "DELETE" ==> Route(verb, "/article/1") == Some(Match(DeleteHandler, "1"))
  {
    assert IdChar("1"[0]);
    RouteTable("1");
    assert Prefix + "1" == "/article/1";
    assert "/article/1" in {Prefix + "1", Prefix + "1" + "/"};
  }

  /** DELETE /article/1: 204 with success, and the table is empty again. */
  lemma DeleteServed(db: Db, x: Article)
    requires HoldsOnly(db, x) && x.id == 1
    ensures var d := Serve(db, Request("DELETE", "/article/1", map[], Unreadable("EOF")), x.createdAt);
      && d.Some? && d.value.1 == db.(articles := [])
      && d.value.0 == Response(StatusNoContent, Headers, Envelope(true, JsonNull))
  {
    IdRoutes("DELETE");
    DeleteOne(db, x);
    Served(db, Request("DELETE", "/article/1", map[], Unreadable("EOF")), x.createdAt, Match(DeleteHandler, "1"));
  }

  /** The handler behind it removes the one row. */
  lemma DeleteOne(db: Db, x: Article)
    requires HoldsOnly(db, x) && x.id == 1
    ensures Delete(db, "1") == Outcome(Null, StatusNoContent, None, db.(articles := []))
  {
    ShowOne();
    assert Matches(x, Blank.(id := ToUint(1)));
    assert GetArticle(db, Blank.(id := ToUint(1))) == Success(x);
    assert RemoveRow(db.articles, 1) == [];
    assert DeleteArticle(db, 1) == Changed(None, db.(articles := []));
  }

  /** Then GET /article/1 is a 400 with success false and "article not found". */
  lemma GetAfterDeleteServed(db: Db, t: DateTime)
    requires db.articles == []
    ensures var g := Serve(db, Request("GET", "/article/1", map[], Unreadable("EOF")), t);
      && g.Some? && g.value.1 == db
      && g.value.0 == Response(StatusBadRequest, Headers, Envelope(false, JsonString("article not found")))
  {
    ShowOne();
    IdRoutes("GET");
    Served(db, Request("GET", "/article/1", map[], Unreadable("EOF")), t, Match(GetHandler, "1"));
    assert GetArticle(db, Blank.(id := ToUint(1))) == Failure(ArticleNotFound);
  }

  /** A POST without a title, or without a body, fails validation: 400 with the
      validator's message naming the missing field, and nothing stored. */
  lemma MissingFieldServed(db: Db, now: DateTime)
    ensures var noTitle := Fields(None, Tommy.body, Tommy.category, Tommy.publisher, None);
      Serve(db, Request("POST", "/article/", map[], noTitle), now) ==
        Some((Response(StatusBadRequest, Headers,
                       Envelope(false, JsonString(Message(FieldsRequired(["Title"]))))), db))
    ensures var noBody := Fields(Tommy.title, None, Tommy.category, Tommy.publisher, None);
      Serve(db, Request("POST", "/article/", map[], noBody), now) ==
        Some((Response(StatusBadRequest, Headers,
                       Envelope(false, JsonString(Message(FieldsRequired(["Body"]))))), db))
  {
    assert Route("POST", "/article/") == Some(Match(CreateHandler, ""));
    var a := TommyArticle.(title := "");
    var b := TommyArticle.(body := "");
    assert Serialize(Fields(None, Tommy.body, Tommy.category, Tommy.publisher, None)) == Success(a);
    assert Serialize(Fields(Tommy.title, None, Tommy.category, Tommy.publisher, None)) == Success(b);
    assert Missing(a) == ["Title"] && Missing(b) == ["Body"];
  }

  /** A POST with an empty body: the decoder's end-of-input reaches the client behind
      the one prefix Serialize writes, and nothing is stored. */
  lemma EmptyPostServed(db: Db, now: DateTime)
    ensures Serve(db, Request("POST", "/article/", map[], Unreadable("EOF")), now) ==
              Some((Response(StatusBadRequest, Headers,
                             Envelope(false, JsonString("unable to decode json request body: EOF"))), db))
  {
    assert Route("POST", "/article/") == Some(Match(CreateHandler, ""));
    var e := UndecodableRequest(DecoderError("EOF"));
    assert Serialize(Unreadable("EOF")) == Failure(e);
    assert Create(db, Unreadable("EOF"), now) == Outcome(Null, StatusBadRequest, Some(e), db);
    assert Message(e) == "unable to decode json request body: EOF";
  }

  /** GET /article?published_at=Tommy: 400 with the date-format message, before the
      store is asked. */
  lemma BadDateServed(db: Db, t: DateTime)
    ensures Serve(db, Request("GET", "/article", map["published_at" := "Tommy"], Unreadable("EOF")), t) ==
              Some((Response(StatusBadRequest, Headers, Envelope(false, JsonString("wrong format of date "))), db))
  {
    var q := map["published_at" := "Tommy"];
    assert FormValue(q, "published_at") == "Tommy" && FormValue(q, "created_at") == "";
    assert !Shaped("Tommy");
    assert Route("GET", "/article") == Some(Match(GetAllHandler, ""));
  }
}
