# articleMaker in Dafny

A model of the two programs in the articleMaker repository.

**The article service.** This is a small REST API over a relational store.
- Clients create, list, fetch, update and delete articles.
- Every article names a category and a publisher. A save hook resolves each name to a row of its own table, creating the row the first time the name is seen.
- Titles are unique.
- Dates travel in the one layout `2006-01-02 15:04:05`.
- Every response is the envelope `{"success": ..., "data": ...}`, with a CORS header. On an error the data is the error's message.

**The word counter.** This command-line tool reads a JSON feed of comments. It lowercases and splits every body on white space, tallies the words in a map, copies the tallies into a slice and sorts the slice by ascending count. It then keeps the first `n` entries.

How the model is laid out:

- **Pure values.** The database behind gorm's global handle is a value, `ArticleStore.Db`: the articles table with its key counter, plus the categories and publishers tables. Every store operation is a function from a database to a result and a new database (`article_store.dfy`).
- **State that changes in place.** Where the Go code assigns through pointers, `store.dfy` has classes:
  - `ArticleRef` is the `*Article` receiver;
  - `NameTable` is a lookup table;
  - `Store` is the database handle.

  Each method of these classes is proved equal to the function that specifies it, and to keep the invariant `Consistent`.
- **Codec and handlers.** The JSON codec (`article_codec.dfy`), the date layout (`datetime.dfy`, `decimal.dfy`), `strconv.Atoi` (`int_parse.dfy`) and the five handlers (`controller.dfy`) are functions. GetAll's filter is also built imperatively by `BuildFilter`.
- **Routing.** The route table and `responseHandler` are in `router.dfy`. The latter is a method that writes to a `ResponseWriter` object.
- **Properties.** Lemmas about the store are in `store_properties.dfy`, and lemmas about the handlers in `controller_properties.dfy`. `scenario.dfy` follows the controller test's session request by request through the router.
- **The word counter.** `wordcounter.dfy` expresses `Counter` as methods over a map, a sequence and an array sorted in place through `Swap`.

Some behaviours of the code that a reader of a REST service might not expect, all kept by the model:

- `PUT` runs no required-field check. It answers with the decoded payload, not with the merged row.
- A path id is accepted by the route pattern `[0-9)]+` and then read by `strconv.Atoi`. So `/article/0` addresses the first row, because a zero key is no condition, and an id containing `)` gets past the router but fails as a 400.
- Not-found, duplicate title and store failures are all 400.
- A delete removes the row: `Article` has no `DeletedAt` column.
- A failure to resolve the publisher is reported with the category's message, as the code does.

## Model

| member | source | states |
|---|---|---|
| ArticleCodec.UnmarshalJSON | article/model/article.go:27-53 | The four strings are copied verbatim from the body, absent ones as "". The id, creation/update times and associations are untouched. A body that is not the auxiliary struct fails with "unable to decode" and the decoder's reason. The call succeeds iff the published date is empty or parses, and an accepted date formats back to its text. |
| ArticleCodec.MarshalJSON | article/model/article.go:56-74 | Exactly seven members, in order: id, title, body, category, publisher, then created_at and published_at in the layout. |
| ArticleCodec.EncodeDecode | article/model/article.go:27-74 | Decoding what MarshalJSON wrote restores title, body, category, publisher and the published date into any receiver, with no error. The receiver's id and creation time survive. |
| ArticleCodec.DecodeEncoded | article/model/article.go:28-37 | Decoding the encoder's object into the auxiliary struct skips id and created_at and keeps the five strings. |
| ArticleCodec.MarshalHidesInternals | article/model/article.go:17-23 | The encoding depends on none of Category, Publisher or UpdatedAt. |
| ArticleCodec.Serialize | article/model/article.go:151-162 | A body the outer decoder rejects, such as an empty one, fails with the decoder's own error, and UnmarshalJSON never runs. Any other body is decoded into a fresh Article, so on success the id, times and associations are zero. It then succeeds iff UnmarshalJSON does, and otherwise wraps that error. |
| ArticleCodec.SerializeMessages | article/model/article.go:151-162 | An empty body's message is "unable to decode json request body: " and the decoder's reason. A body that UnmarshalJSON rejects adds UnmarshalJSON's own "unable to decode " between the two. |
| ArticleCodec.Validate | article/model/article.go:77-80 | It passes iff title, body, category and publisher are all non-empty. Otherwise it reports exactly the empty required fields. |
| ArticleCodec.ValidateIgnoresIdAndDates | article/model/article.go:13-24 | Only the four required strings affect validation. |
| ArticleStore.Filter | article/model/article.go:105-111 | It keeps exactly the rows satisfying gorm's struct condition, where zero fields are ignored. Each kept row appears as often as in the table, and no other row appears. |
| ArticleStore.FilterAscending | article/model/article.go:105-111 | A table in ascending key order yields its matches in ascending key order. |
| ArticleStore.FirstMatch | article/model/article.go:168-175 | It finds nothing iff no row matches, and otherwise a matching row of the table. |
| ArticleStore.FirstMatchIsFirst | article/model/article.go:168-175 | What it finds has no matching row before it. |
| ArticleStore.GetArticles | article/model/article.go:105-111 | It succeeds iff the table is reachable, listing exactly the matching articles. Otherwise it returns the store error. |
| ArticleStore.GetArticle | article/model/article.go:165-175 | It succeeds iff the table is reachable and some row matches, returning a matching row. Every failure is ErrArticleNotFound. |
| ArticleStore.FirstNamed | article/model/article.go:85 | It finds nothing iff no row satisfies `Name: name`, where an empty name matches any row. |
| ArticleStore.FirstOrCreate | article/model/article.go:84-95 | It fails iff the table is unreachable. Otherwise the row returned is in the updated table and satisfies the condition. |
| ArticleStore.BeforeSave | article/model/article.go:83-99 | It fails iff a name table is unreachable, and a category failure returns before the publisher is looked at. On success only the two associations change, each resolved to a row with the article's name. The articles table is untouched. When the publisher table fails, the error still carries the category message. The category row resolved or created just before stays, on the article and in its table, and the publisher table is unchanged. |
| ArticleStore.CreateArticle | article/model/article.go:114-123 | It refuses with "title aleady exists" iff GetArticle finds the title, changing nothing. On success the article gets the next key and keeps its strings and published date. A zero CreatedAt becomes the current time, and exactly its columns are appended. |
| ArticleStore.ReplaceRow | article/model/article.go:132 | Position by position, the row with the key is replaced and every other row is kept. |
| ArticleStore.RemoveRow | article/model/article.go:144 | It holds exactly the rows without the key. |
| ArticleStore.UpdateArticle | article/model/article.go:126-136 | A missing row gives ErrArticleNotFound with no change. A payload with no non-zero field changes nothing. Errors leave the articles alone, and the key counter is never touched. |
| ArticleStore.DeleteArticle | article/model/article.go:139-148 | A missing row gives ErrArticleNotFound with no change. The name tables are never touched. |
| DateTime.DaysIn | article/model/model.go:56 | Every month has 28 to 31 days, with Gregorian leap years. |
| DateTime.Parse | article/model/model.go:56 | Only text of the layout's shape is accepted, and what is accepted is a writable calendar time. |
| DateTime.ParseFormat | article/model/model.go:56 | Parsing the formatted text of any writable time gives that time back. |
| DateTime.FormatParse | article/model/model.go:56 | Every accepted text is the formatting of the time it denotes. |
| DateTime.ZeroFormat | article/model/article.go:71-72 | The zero time.Time formats as `0001-01-01 00:00:00`. |
| Decimal.PadIntFits | article/model/article.go:71-72 | A value that fits is written as exactly that many zero-padded digits and reads back as itself. |
| Decimal.ValueOfFixed | article/model/article.go:71-72 | Reading a fixed-width rendering of a value that fits gives the value. |
| Decimal.FixedOfValue | article/model/model.go:56 | Rendering a digit string's value at its width gives the string. |
| IntParse.ScanDigits | article/controller/article.go:74 | The 64-bit digit loop never yields a value above the unsigned 64-bit maximum. |
| IntParse.ScanDigitsValue | article/controller/article.go:74 | The loop succeeds iff the text is all digits and the value fits, and then it returns that value. |
| IntParse.Atoi | article/controller/article.go:74-77 | A syntax error gives 0 and a range error the clamped bound. Success gives an int64, and a text that is empty after its sign is a syntax error. |
| IntParse.AtoiAccepts | article/controller/article.go:74-77 | Atoi succeeds iff the text is a sign and then digits whose value is an int64, and then it returns that value with the sign. |
| IntParse.AtoiShow | article/controller/article.go:74-77 | Atoi reads back every int64 that fmt prints. |
| IntParse.AtoiRejectsParen | article/controller/controller.go:30 | An id with `)` is never an integer. |
| ArticleController.DateOf | article/controller/article.go:31-42 | An empty parameter gives the zero time, and any other valid one the time it spells. |
| ArticleController.QueryFilter | article/controller/article.go:21-43 | It fails iff a date parameter is present but not in the layout. Otherwise the condition carries exactly the category, publisher and the two dates. |
| ArticleController.BuildFilter | article/controller/article.go:21-43 | The imperative construction returns QueryFilter's result. |
| ArticleController.GetAll | article/controller/article.go:20-49 | A bad date is a 400 before the store is asked. It succeeds iff the filter is good and the store is reachable, with 200 and exactly the matching articles. It never changes the database. |
| ArticleController.Create | article/controller/article.go:52-69 | Decode, validation and store errors are 400 with no new article. Success is 201 with a valid article under the next key, whose columns are appended. |
| ArticleController.Get | article/controller/article.go:72-85 | A bad id is a 400 with the invalid-id error. Success is 200 with a stored row matching `ID: uint(id)`. It never changes the database. |
| ArticleController.Delete | article/controller/article.go:88-99 | It returns nil data in every case and 204 iff no error. A bad id is a 400 carrying the id text's cause. The name tables are untouched. |
| ArticleController.Put | article/controller/article.go:102-119 | A bad id or bad body is a 400 with no change. Success is 200 carrying the decoded payload, and an update error comes back wrapped as UploadFailed. |
| Router.IdSegment | article/controller/controller.go:30-31 | A found id matches `[0-9)]+`, and the path is the prefix plus the id, with or without a trailing slash. |
| Router.Route | article/controller/controller.go:18-49 | Only the four methods route. The collection handlers are reached only by /article and /article/, and the id handlers only by a path whose id segment is the matched id. |
| Router.IdSegmentOf | article/controller/controller.go:30-31 | Every id of the pattern is found, with and without the trailing slash. |
| Router.RouteTable | article/controller/controller.go:18-49 | GET and POST reach GetAll and Create on both collection paths. GET, PUT and DELETE reach Get, Put and Delete on both id paths, and every other combination does not route. |
| Router.Encode | article/controller/controller.go:62 | nil becomes null, one article becomes its MarshalJSON object, and a list becomes an array with each element's MarshalJSON. |
| Router.EnvelopeOf | article/controller/controller.go:56-62 | success is true iff there is no error. An error replaces the data by its message, and otherwise the data is encoded. |
| Router.ResponseWriter.SetHeader | article/controller/controller.go:55-60 | One header is set and the rest of the writer is unchanged. |
| Router.ResponseWriter.WriteHeader | article/controller/controller.go:61 | The status is written and the rest of the writer is unchanged. |
| Router.ResponseWriter.Write | article/controller/controller.go:62 | One envelope is appended to the body. |
| Router.ResponseHandler | article/controller/controller.go:52-68 | The handler sets the CORS and content-type headers, writes the handler's status, and appends exactly EnvelopeOf(data, err). |
| Router.Serve | article/controller/controller.go:18-68 | It answers iff the request routes, with the two headers. success holds iff the status is 200, 201 or 204, and every failure is a 400. |
| StoreImpl.ArticleRef.UnmarshalJSON | article/model/article.go:27-53 | The field-by-field assignments leave the receiver, and return the error, that the UnmarshalJSON function describes. |
| StoreImpl.NameTable.constructor | article/model/model.go:48-54 | A migrated name table is empty, with keys from 1. |
| StoreImpl.NameTable.FirstOrCreate | article/model/article.go:84-95 | The method returns the row, or the error, of the FirstOrCreate function, and leaves the table it describes. |
| StoreImpl.Store.constructor | article/model/model.go:48-54 | A freshly migrated database is empty and consistent. |
| StoreImpl.Store.BeforeSave | article/model/article.go:83-99 | The hook's assignments, and its calls on the two tables, give the state and error of the BeforeSave function. |
| StoreImpl.Store.CreateArticle | article/model/article.go:114-123 | The method gives the state, article and error of the CreateArticle function, and keeps Consistent. |
| StoreImpl.Store.UpdateArticle | article/model/article.go:126-136 | The method gives the state and error of the UpdateArticle function, and keeps Consistent. |
| StoreImpl.Store.DeleteArticle | article/model/article.go:139-148 | The method gives the state and error of the DeleteArticle function, and keeps Consistent. |
| StoreProperties.CountUnique | article/model/category.go:8 | With unique names, a name occurs once if present and otherwise not at all. |
| StoreProperties.FirstOrCreateValid | article/model/article.go:84-95 | FirstOrCreate keeps a name table valid, with unique names and ascending keys below the counter, and only appends. |
| StoreProperties.FirstOrCreateExactlyOnce | article/model/article.go:84-95 | After resolving a non-empty name exactly one row has it. An existing name changes nothing, and a new one is appended under the next key. |
| StoreProperties.BeforeSaveValid | article/model/article.go:83-99 | The hook keeps both name tables valid and only appends to them. On success the article's non-empty names have rows. |
| StoreProperties.ReferencesKept | article/model/article.go:17-20 | Appending to the name tables keeps every article's names resolvable. |
| StoreProperties.FilterBlank | article/model/article.go:105-111 | The empty condition lists the whole table in order. |
| StoreProperties.GetArticlesAll | article/model/article_test.go:219-258 | A reachable store lists every article for the blank filter. |
| StoreProperties.GetArticleSmallestKey | article/model/article.go:168-175 | First: the article found has the smallest key of all matches. |
| StoreProperties.ZeroIdTargetsFirst | article/model/article.go:127 | `ID: uint(0)` is no condition, so it addresses the first row. |
| StoreProperties.NegativeIdWraps | article/model/article.go:127 | `uint(id)` of a negative int wraps to at least 2^63. |
| StoreProperties.CreatePreservesValid | article/model/article.go:114-123 | CreateArticle keeps the database consistent whatever its outcome. |
| StoreProperties.CreateStores | article/model/article.go:114-123 | An untaken title on a reachable store is stored under a key above every existing one. Each of its names then has exactly one row. |
| StoreProperties.CreateSucceeds | article/model/article.go:114-123 | Past the title check with every table reachable, the create succeeds under the next key, and the name tables are those the hook left. |
| StoreProperties.CreateThenDuplicate | article/model/article_test.go:125-150 | After a create, a second create with the same title is refused with "title aleady exists" and changes nothing. |
| StoreProperties.CreateThenGet | article/model/article.go:114-123 | The stored columns come back by the key the create assigned. |
| StoreProperties.MergeProperties | article/model/article.go:132 | An empty payload keeps the row. The key is kept, the payload's non-zero fields are taken, and merging twice is merging once. |
| StoreProperties.ReplaceAt | article/model/article.go:132 | With unique keys, replacing by a row's key replaces that position alone. |
| StoreProperties.UpdateNotFound | article/model/article.go:126-130 | ErrArticleNotFound comes back iff no row has the key. |
| StoreProperties.UpdateReplacesTarget | article/model/article.go:126-136 | A successful update overwrites the addressed row, in its position, with its merge with the payload, stamped with the update time. |
| StoreProperties.UpdateIsReplace | article/model/article.go:126-136 | The same, stated through ReplaceRow by the row's key. |
| StoreProperties.UpdatePreservesValid | article/model/article.go:126-136 | UpdateArticle keeps the database consistent whatever its outcome. |
| StoreProperties.RemoveAt | article/model/article.go:144 | With ascending keys, removing by a row's key removes that position alone. |
| StoreProperties.DeleteRemovesTarget | article/model/article.go:139-148 | A delete of a present key succeeds and removes exactly the addressed row, keeping the others in order. |
| StoreProperties.DeleteThenGetFails | article/model/article_test.go:152-181 | After deleting a non-zero key, a lookup by it, and a second delete, report ErrArticleNotFound. |
| StoreProperties.DropKeeps | article/model/article.go:144 | Dropping a row keeps keys, titles, columns and names consistent. |
| StoreProperties.DeletePreservesValid | article/model/article.go:139-148 | DeleteArticle keeps the database consistent. |
| ControllerProperties.OtherParametersIgnored | article/controller/article.go:21-43 | Queries that agree on the four filter keys list the same articles, so `?title=` is ignored. |
| ControllerProperties.ListByNames | article/controller/article.go:20-49 | A query naming a category and a publisher lists exactly the articles with those names, and an empty value constrains nothing. |
| ControllerProperties.ParenIdRejected | article/controller/article.go:72-107 | An id with `)` makes Get, Put and Delete answer 400 with the invalid-id error and no change. |
| ControllerProperties.CreateTwiceRejected | article/controller/controller_test.go:129-132 | The second identical post is a 400 "title aleady exists" that changes nothing, and exactly one row has the title. |
| ControllerProperties.CreateThenGetById | article/controller/article.go:52-85 | The key a create returns fetches the stored row, whose encoding equals the create's response. |
| ControllerProperties.CreateIsStore | article/controller/article.go:52-69 | A successful create is the store's create of the decoded article. |
| ControllerProperties.GetById | article/controller/article.go:72-85 | An id that reads as a key fetches the stored row with that key. |
| ControllerProperties.DeleteThenGetNotFound | article/controller/article.go:72-99 | After deleting a non-zero id, GET of it is a 400 "article not found". |
| ControllerProperties.PutEchoesPayload | article/controller/article.go:102-119 | Put answers with the decoded payload, which has no key and no times. |
| ControllerProperties.HandlersKeepConsistent | article/controller/article.go:20-119 | No handler breaks the consistency of the database. |
| ControllerProperties.CreateKeepsConsistent | article/controller/article.go:52-69 | Create keeps the database consistent. |
| ControllerProperties.PutKeepsConsistent | article/controller/article.go:102-119 | Put keeps the database consistent. |
| ControllerProperties.DeleteKeepsConsistent | article/controller/article.go:88-99 | Delete keeps the database consistent. |
| Scenario.EmptyConsistent | article/model/model.go:48-54 | A freshly migrated database is consistent. |
| Scenario.DecodeTommy | article/controller/controller_test.go:129-130 | The test's body decodes and validates. |
| Scenario.BeforeSaveTommy | article/model/article.go:83-99 | On an empty database the hook creates category "Extras" and publisher "Femonofsky" under key 1. |
| Scenario.CreateTommy | article/model/article.go:114-123 | The first create stores the article under key 1, stamped with the current time. |
| Scenario.AfterPostConsistent | article/model/article.go:114-123 | The database after the first post is consistent. |
| Scenario.PostServed | article/controller/controller_test.go:129-142 | POST /article/ is a 201 with success, id 1 and title "Tommy test". |
| Scenario.SecondPostServed | article/controller/controller_test.go:131-132 | The same post again is a 400 with success false and "title aleady exists", and nothing changes. |
| Scenario.MissingFieldServed | article/controller/controller_test.go:133-135 | A post without a title, or without a body, is a 400 naming that field, and nothing changes. |
| Scenario.ListServed | article/controller/controller_test.go:170 | GET /article?category=Extras is a 200 listing the one article. |
| Scenario.EmptyPostServed | article/controller/article.go:52-57 | A POST with an empty body is a 400 with "unable to decode json request body: EOF", and nothing changes. |
| Scenario.BadDateServed | article/controller/controller_test.go:172 | GET /article?published_at=Tommy is a 400 with the date-format message, and nothing changes. |
| Scenario.Served | article/controller/controller.go:52-68 | A routed request is answered with its handler's status and envelope. |
| Scenario.IdRoutes | article/controller/controller.go:30-46 | /article/1 routes GET, PUT and DELETE with id "1". |
| Scenario.DeleteOne | article/controller/article.go:88-99 | Deleting id 1 from a table holding only that article empties it, with 204. |
| Scenario.DeleteServed | article/controller/article.go:88-99 | DELETE /article/1 is a 204 with success, and the table is empty again. |
| Scenario.GetAfterDeleteServed | article/controller/article.go:72-85 | GET /article/1 afterwards is a 400 "article not found". |
| WordCounter.ToLower | wordcounter/counter.go:142 | It keeps the length and lowercases each ASCII letter in place. |
| WordCounter.Fields | wordcounter/counter.go:144 | Every field is a non-empty run without white space. |
| WordCounter.FieldsCover | wordcounter/counter.go:144 | Joined back together, the fields are the text with its white space removed. |
| WordCounter.BlankHasNoFields | wordcounter/counter.go:144 | White space alone has no fields. |
| WordCounter.FieldsOfWord | wordcounter/counter.go:144 | A non-empty text without white space is a single field. |
| WordCounter.FieldsSplit | wordcounter/counter.go:144 | A white-space character splits the text: the fields are those of the part before it, then those of the part after it. With the two lemmas above, this fixes every field boundary. |
| WordCounter.Occurrences | wordcounter/counter.go:147 | A count is at most the number of words, and positive iff the word occurs. |
| WordCounter.CountsStep | wordcounter/counter.go:147 | `wordC[w]++` keeps the map equal to the occurrence counts of the words seen. |
| WordCounter.LessOrders | wordcounter/counter.go:63-65 | Less is irreflexive, transitive and asymmetric, and two entries are unordered iff their counts tie. |
| WordCounter.Swap | wordcounter/counter.go:68-70 | It exchanges exactly the two entries. |
| WordCounter.Sort | wordcounter/counter.go:154 | The slice ends sorted by ascending count and is a permutation of what it held. |
| WordCounter.Counter | wordcounter/counter.go:136-156 | The result holds one entry per distinct word, with its exact number of occurrences in the lowercased bodies, sorted by ascending count. |
| WordCounter.CountsAddUp | wordcounter/counter.go:136-156 | The counts of the result add up to the number of words. |
| WordCounter.TallyLength | wordcounter/counter.go:150-153 | The result has one entry per distinct word. |
| WordCounter.SortedTallyUnique | wordcounter/counter_test.go:16-38 | When no two words tie, the result is fully determined regardless of the map's order, which is why the test can compare it whole. |
| WordCounter.CaseInsensitive | wordcounter/counter.go:142 | Bodies that agree once lowercased give the same words and the same tallies. |
| WordCounter.LowerTwice | wordcounter/counter_test.go:16-38 | Lowercasing is idempotent, so "God" and "god" are one word. |
| WordCounter.BlankCommentsNoCounts | wordcounter/counter.go:136-156 | No comments, or only blank ones, give an empty result. |
| WordCounter.PrefixLeastFrequent | wordcounter/counter.go:132 | Any prefix of the sorted tally consists of distinct words with their counts, ascending. No word left out occurs less often than any word kept. |
| WordCounter.ProcessComment | wordcounter/counter.go:118-134 | A feed that does not decode fails with "unable to decode json: ...". Otherwise the result has exactly upperLimit entries, the least frequent words with their counts. |
| WordCounter.StringReadsBack | wordcounter/counter.go:53-55 | The line is the count in at least three right-aligned columns, three spaces and the word, and the count reads back. |

## Left out

- Library error texts. `Message` keeps the validator's full per-field text and the JSON decoder's reason, which the `Body` value carries. For a body the outer decoder rejects, that reason follows Serialize's prefix directly. It drops time.Parse's message after the fixed text of "invalid format use (...)" and "wrong format of date ". gorm's errors get fixed texts of the sqlite driver's form, "no such table: ..." and "UNIQUE constraint failed: articles.title".
- `time.Parse` accepts some texts that are not in the fixed-width layout, such as a one-digit hour for `15`, and fractional seconds. The model accepts only the exact layout. Times are kept to the second, with no zone and no monotonic clock.
- The current time is a parameter `now` of the create and update operations. No clock is read.
- CreateArticle: an incoming non-zero `ID` is not modelled. Decoding always yields zero, and the store always assigns the next key.
- UpdateArticle: the payload's `ID` is ignored, and the `Category`/`Publisher` associations take no part in filters or in the merge. Decoding leaves them zero on every path the handlers reach.
- gorm's association autosave of Category and Publisher on update is not modelled beyond the BeforeSave hook.
- encoding/json matches keys case-insensitively and decodes escapes. The request body is already a decoded `Body` value, and `DecodeObject` compares keys exactly.
- Quoting and escaping of strings in the encoder's output are not modelled. The response is the structured `Envelope`.
- Routing covers only the registered routes. gorilla/mux's 404/405 pages and path-cleaning redirects are one `None`.
- Store failures are modelled as one reachability flag per table. Transient failures of a single statement, and constraint violations other than the title check, are not modelled.
- Concurrency is out of scope: requests are handled one at a time. The atomicity of FirstOrCreate under concurrent callers is therefore not modelled.
- WordCounter.ToLower: only ASCII letters are lowercased. `strings.ToLower`'s full Unicode case mapping is not modelled.
- WordCounter.ProcessComment: it requires `0 <= upperLimit <= ` the number of distinct words. In Go, a negative limit or one beyond the slice's capacity panics, and one between the length and the capacity returns zero-valued entries. Neither the panic nor the capacity is modelled.
- WordCounter.Sort: `sort.Sort`'s pattern-defeating quicksort is modelled by an insertion sort through the same Less and Swap. Both leave equal counts in unspecified order, like Go's map iteration order; `SortedTallyUnique` shows the result does not depend on either when no counts tie.
- WordCounter.Len and WordCounter.Less have no contract of their own. Less's ordering facts are in `LessOrders`.
- WordCounter.String has no ensures. Its properties are in `StringReadsBack`.
- The configuration loader, `main` of both programs, the DB connection in `model.New`, the HTTP fetch of the feed and the logging are left out as I/O. `Migrate` is the empty database.
- The feed's JSON decoding is a `Feed` parameter: either the comments or the decoder's error text.
- Router.ResponseHandler: the body written on a 204 and the logging of encoder errors are not modelled.
- Router.ResponseWriter.WriteHeader: net/http ignores a second call, which the model does not capture. Every response path calls it once.
- `r.FormValue` is modelled as a map from key to first value. Form-encoded bodies are not modelled.
- IntParse.Atoi: only the general path of `strconv.Atoi` (ParseInt over ParseUint) is modelled. Its fast path for short inputs gives the same value and error kind on those inputs.
- The `logger` field of ArticleController and `newArticle` are not modelled.
