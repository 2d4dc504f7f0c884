/** The wire side of model.Article (article/model/article.go): the required-field check,
    the custom JSON decoding and encoding, and Serialize, which decodes a request body
    into a fresh Article. */
module ArticleCodec {
  import opened Wrappers
  import opened DateTime
  import opened ArticleTypes

  /** A request body as encoding/json sees it. Either the outer decoder rejects it
      before any UnmarshalJSON runs (an empty body, broken syntax); or it is one JSON
      value that does not decode into UnmarshalJSON's auxiliary struct; or each of
      the five keys is absent or holds a string. */
  datatype Body =
    | Unreadable(reason: string)
    | Malformed(reason: string)
    | Fields(title: Option<string>, body: Option<string>, category: Option<string>,
             publisher: Option<string>, publishedAt: Option<string>)

  /** A key the body leaves out decodes to the empty string. */
  function Text(o: Option<string>): string {
    match o
    case Some(s) => s
    case None => ""
  }

  /** The receiver after UnmarshalJSON, and the error it returned. */
  datatype Decoded = Decoded(article: Article, err: Option<Error>)

  /** (*Article).UnmarshalJSON: overwrites title, body, category and publisher with the
      body's strings, then, if published_at is non-empty, parses it in the layout. */
  function UnmarshalJSON(article: Article, data: Body): (r: Decoded)
    // never set from the body
    ensures && r.article.id == article.id && r.article.createdAt == article.createdAt
            && r.article.updatedAt == article.updatedAt
            && r.article.category == article.category && r.article.publisher == article.publisher
    ensures !data.Fields? ==> r == Decoded(article, Some(UnableToDecode(data.reason)))
    // copied verbatim, before the date is looked at
    ensures data.Fields? ==>
              && r.article.title == Text(data.title) && r.article.body == Text(data.body)
              && r.article.categoryName == Text(data.category)
              && r.article.publisherName == Text(data.publisher)
    ensures r.err.None? <==>
              data.Fields? && (Text(data.publishedAt) == "" || Parse(Text(data.publishedAt)).Some?)
    ensures r.err.Some? && data.Fields? ==> r.err == Some(InvalidFormat)
    // an empty or absent date, or a rejected one, leaves the receiver's date alone
    ensures data.Fields? && (Text(data.publishedAt) == "" || r.err.Some?) ==>
              r.article.publishedAt == article.publishedAt
    // an accepted date is the time that text spells
    ensures data.Fields? && Text(data.publishedAt) != "" && r.err.None? ==>
              Writable(r.article.publishedAt) && Format(r.article.publishedAt) == Text(data.publishedAt)
  {
    match data
    case Unreadable(reason) => Decoded(article, Some(UnableToDecode(reason)))
    case Malformed(reason) => Decoded(article, Some(UnableToDecode(reason)))
    case Fields(title, body, category, publisher, publishedAt) =>
      var copied := article.(title := Text(title), body := Text(body),
                             categoryName := Text(category), publisherName := Text(publisher));
      if Text(publishedAt) == "" then Decoded(copied, None)
      else
        match Parse(Text(publishedAt))
        case None => Decoded(copied, Some(InvalidFormat))
        case Some(t) =>
          FormatParse(Text(publishedAt));
          Decoded(copied.(publishedAt := t), None)
  }

  /** A JSON value as json.Marshal writes the fields of MarshalJSON's struct. */
  datatype Json = JNum(n: int) | JStr(s: string)

  /** (*Article).MarshalJSON: the members id, title, body, category, publisher,
      created_at and published_at, in that order, both dates in the layout. */
  function MarshalJSON(a: Article): (m: seq<(string, Json)>)
    ensures |m| == 7
    ensures m[0] == ("id", JNum(a.id))
    ensures m[1] == ("title", JStr(a.title)) && m[2] == ("body", JStr(a.body))
    ensures m[3] == ("category", JStr(a.categoryName)) && m[4] == ("publisher", JStr(a.publisherName))
    ensures m[5] == ("created_at", JStr(Format(a.createdAt)))
    ensures m[6] == ("published_at", JStr(Format(a.publishedAt)))
  {
    [("id", JNum(a.id)),
     ("title", JStr(a.title)),
     ("body", JStr(a.body)),
     ("category", JStr(a.categoryName)),
     ("publisher", JStr(a.publisherName)),
     ("created_at", JStr(Format(a.createdAt))),
     ("published_at", JStr(Format(a.publishedAt)))]
  }

  /** The keys UnmarshalJSON's auxiliary struct declares. */
  predicate AuxKey(key: string) {
    key == "title" || key == "body" || key == "category" || key == "publisher" || key == "published_at"
  }

  /** The string the last member named `key` holds, as json.Decoder leaves it in a
      struct field (a later member overwrites an earlier one). */
  function LastString(m: seq<(string, Json)>, key: string): Option<string> {
    if m == [] then None
    else if m[|m| - 1].0 == key && m[|m| - 1].1.JStr? then Some(m[|m| - 1].1.s)
    else LastString(m[..|m| - 1], key)
  }

  /** Decoding a JSON object into the auxiliary struct: a number under one of its keys
      cannot be stored in a string field and fails the decoding; keys it does not
      declare (id, created_at) are skipped. */
  function DecodeObject(m: seq<(string, Json)>): Body {
    if exists i :: 0 <= i < |m| && AuxKey(m[i].0) && m[i].1.JNum? then
      Malformed("json: cannot unmarshal number into Go struct field of type string")
    else
      Fields(LastString(m, "title"), LastString(m, "body"), LastString(m, "category"),
             LastString(m, "publisher"), LastString(m, "published_at"))
  }

  /** Decoding what encoding wrote restores title, body, category, publisher and the
      published date (to the second) into any receiver, with no error. Identity and
      creation time stay the receiver's. */
  lemma EncodeDecode(a: Article, into: Article)
    requires Writable(a.publishedAt)
    ensures var r := UnmarshalJSON(into, DecodeObject(MarshalJSON(a)));
      && r.err == None
      && r.article.title == a.title && r.article.body == a.body
      && r.article.categoryName == a.categoryName && r.article.publisherName == a.publisherName
      && r.article.publishedAt == a.publishedAt
      && r.article.id == into.id && r.article.createdAt == into.createdAt
  {
    ParseFormat(a.publishedAt);
    DecodeEncoded(a.id, a.title, a.body, a.categoryName, a.publisherName,
                  Format(a.createdAt), Format(a.publishedAt));
  }

  lemma DecodeEncoded(id: int, title: string, body: string, category: string, publisher: string,
                      created: string, published: string)
    ensures DecodeObject([("id", JNum(id)), ("title", JStr(title)), ("body", JStr(body)),
                          ("category", JStr(category)), ("publisher", JStr(publisher)),
                          ("created_at", JStr(created)), ("published_at", JStr(published))])
            == Fields(Some(title), Some(body), Some(category), Some(publisher), Some(published))
  {
    var m := [("id", JNum(id)), ("title", JStr(title)), ("body", JStr(body)),
              ("category", JStr(category)), ("publisher", JStr(publisher)),
              ("created_at", JStr(created)), ("published_at", JStr(published))];
    assert !AuxKey("id");
    assert forall i :: 0 <= i < |m| && AuxKey(m[i].0) ==> m[i].1.JStr?;
    var m6, m5, m4, m3 := m[..6], m[..5], m[..4], m[..3];
    assert m6[..5] == m5 && m5[..4] == m4 && m4[..3] == m3 && m3[..2] == m[..2];
    assert LastString(m, "published_at") == Some(published);
    assert LastString(m, "publisher") == LastString(m6, "publisher") == Some(publisher);
    assert LastString(m, "category") == LastString(m6, "category") == LastString(m5, "category")
           == Some(category);
    assert LastString(m, "body") == LastString(m6, "body") == LastString(m5, "body")
           == LastString(m4, "body") == Some(body);
    assert LastString(m, "title") == LastString(m6, "title") == LastString(m5, "title")
           == LastString(m4, "title") == LastString(m3, "title") == Some(title);
  }

  /** The encoding depends on nothing but the seven emitted fields: the Category and
      Publisher associations and UpdatedAt never reach the wire. */
  lemma MarshalHidesInternals(a: Article, b: Article)
    requires a.id == b.id && a.title == b.title && a.body == b.body
    requires a.categoryName == b.categoryName && a.publisherName == b.publisherName
    requires a.createdAt == b.createdAt && a.publishedAt == b.publishedAt
    ensures MarshalJSON(a) == MarshalJSON(b)
  {
  }

  /** model.Serialize: decodes the request body into a fresh model.Article{}. A body
      the outer decoder rejects fails with the decoder's own error, UnmarshalJSON never
      having run; any other body goes through UnmarshalJSON, whose error is wrapped. */
  function Serialize(data: Body): (r: Result<Article, Error>)
    ensures r.Success? ==>
              && r.value.id == 0 && r.value.createdAt == Zero && r.value.updatedAt == Zero
              && r.value.category == Unresolved && r.value.publisher == Unresolved
    ensures r.Success? <==> UnmarshalJSON(Blank, data).err.None?
    ensures r.Success? ==> r.value == UnmarshalJSON(Blank, data).article
    ensures data.Unreadable? ==> r == Failure(UndecodableRequest(DecoderError(data.reason)))
    ensures r.Failure? && !data.Unreadable? ==>
              r.error == UndecodableRequest(UnmarshalJSON(Blank, data).err.value)
  {
    if data.Unreadable? then Failure(UndecodableRequest(DecoderError(data.reason)))
    else
      var d := UnmarshalJSON(Blank, data);
      if d.err.Some? then Failure(UndecodableRequest(d.err.value)) else Success(d.article)
  }

  /** The message a rejected body gets: the outer decoder's error alone, after
      Serialize's prefix, or UnmarshalJSON's "unable to decode" before the reason. */
  lemma SerializeMessages(reason: string)
    ensures Message(Serialize(Unreadable(reason)).error) == "unable to decode json request body: " + reason
    ensures Message(Serialize(Malformed(reason)).error) ==
              "unable to decode json request body: unable to decode " + reason
  {
  }

  /** The value of a required field, by the name validator reports. */
  function RequiredValue(a: Article, field: string): string {
    if field == "Title" then a.title
    else if field == "Body" then a.body
    else if field == "CategoryName" then a.categoryName
    else a.publisherName
  }

  /** The required fields that are empty, in declaration order. */
  function Missing(a: Article): seq<string> {
    (if a.title == "" then ["Title"] else [])
      + (if a.body == "" then ["Body"] else [])
      + (if a.categoryName == "" then ["CategoryName"] else [])
      + (if a.publisherName == "" then ["PublisherName"] else [])
  }

  /** (*Article).Validate: validator's 'required' tag on Title, Body, CategoryName and
      PublisherName; the id and the dates are never required. */
  function Validate(a: Article): (r: Option<Error>)
    ensures r.None? <==>
              a.title != "" && a.body != "" && a.categoryName != "" && a.publisherName != ""
    ensures r.Some? ==> r.value.FieldsRequired?
    ensures r.Some? ==>
              forall f :: f in r.value.fields <==> f in RequiredFields && RequiredValue(a, f) == ""
  {
    var missing := Missing(a);
    if missing == [] then None else Some(FieldsRequired(missing))
  }

  /** Only the four strings matter to validation: the id, the dates and the
      associations can be anything. */
  lemma ValidateIgnoresIdAndDates(a: Article, b: Article)
    requires a.title == b.title && a.body == b.body
    requires a.categoryName == b.categoryName && a.publisherName == b.publisherName
    ensures Validate(a) == Validate(b)
  {
  }
}
