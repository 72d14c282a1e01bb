# Superbook publisher — a Dafny model

This project models the core of `superbook-src/publish.js`, a one-off
migration script that publishes two books of *You Don't Know JS Yet* into a
document store. It reads each chapter's markdown and rewrites relative image
URLs against the book's raw GitHub folder. It then upserts three kinds of
documents (books, chapters, topics), looking each one up by a natural key:
a book by its `sourceName`, a chapter by its `name`.

Files:

- `wrappers.dfy` (`Wrappers`): the `Option` type the lookups return.
- `image_urls.dfy` (`ImageUrls`): the `<img src="…"` rewriter, modelled as
  `content.replace(/<img src="([^"]+)"/g, …)`. It is a recursive function over
  `seq<char>`. It is also described a second way: read the text into
  characters and matches (`Scan`, `LeftmostParse`), then replace every match
  (`Emit`).
- `store.dfy` (`Store`): the `Book`, `Chapter` and `Topic` records and the
  store `Db`. The store holds three maps from id to record and an id counter.
  It also defines `findOne` (`FindFirst`) and `$addToSet` (`AddToSet`).
- `upsert.dfy` (`Upsert`): `createOrUpdateBook` and `createOrUpdateChapter`
  as pure transitions `Db -> (Db, id)`.
- `publish.dfy` (`Publish`): one book's sequential pipeline. It upserts the
  book, then reads, rewrites and upserts each chapter in catalog order. The
  file also holds the re-run idempotence proof.
- `catalog.dfy` (`Catalog`): the two catalog books, used as example data for
  the chapters the two books share.

Modelling choices:

- A document id is a `nat`. `new ObjectId()` and the id `insertOne` generates
  both take the store's counter `nextId`. `Valid(db)`, meaning every id in use
  is below `nextId`, stands for the driver's guarantee that generated ids are
  unique. The upserts require it and preserve it.
- Ids grow in insertion order. So `findOne` returns the least matching id,
  which is the first match in natural order.
- Timestamps are the single `now` value the script takes at start-up. It is
  passed in as a `Time` value, which the model only copies into documents.
- `readFile` is a lookup in a map from path to text. A missing path is a
  failed read: the book's pipeline stops at that chapter (`ReadFailed`), and
  every write made before it stays, exactly as if the catalog had ended
  there. Re-running after such a failure is proved idempotent too.
- An `updateOne` whose filter matches nothing changes nothing. This covers an
  unknown `bookId` in `$addToSet`, and `topics[0]` of a chapter whose topic
  list is empty or points at a missing topic.
- For an image tag whose source is already absolute, the callback returns
  the bare `src` (line 175), not the whole match. So `<img src="` and the
  closing quote disappear. The pipeline model follows the code as written,
  because that is what the script stores. The intended callback is modelled
  next to it (see "## Findings").

## Model

| member | source | states |
|---|---|---|
| `ImageUrls.QuoteFreeRun` | superbook-src/publish.js:170 | `[^"]+` stops at the first quote: the run has no quote and is followed by one, or reaches the end |
| `ImageUrls.MatchAt` | superbook-src/publish.js:170 | the match of `/<img src="([^"]+)"/` at the start of the text, if any. Its capture is non-empty and the match fits in the text. `MatchAtSound` and `MatchAtFindsTag` pin it down in both directions |
| `ImageUrls.Replacement` | superbook-src/publish.js:171-175 | the callback: an absolute source comes back bare. A relative one becomes a tag whose source is absolute and ends with the original source and the closing quote |
| `ImageUrls.Rewrite` | superbook-src/publish.js:170-176 | the global replace. A text with no `<` comes back unchanged. Its full meaning is given by `RewriteTag`, `RewriteFollowsParse` and `LeftmostParseUnique` |
| `ImageUrls.MatchAtSound` | superbook-src/publish.js:170 | a match at the start of the text is a non-empty, quote-free source wrapped in `<img src="` and a closing quote |
| `ImageUrls.MatchNeedsQuote` | superbook-src/publish.js:170 | a text without a quote character holds no match, because the closing quote belongs to the match |
| `ImageUrls.MatchAtFindsTag` | superbook-src/publish.js:170 | every complete tag with a valid source at the start of the text is the match found there, so the capture is determined |
| `ImageUrls.EmptySrcIsNoTag` | superbook-src/publish.js:170 | `<img src=""` is not a match |
| `ImageUrls.UnterminatedIsNoTag` | superbook-src/publish.js:170 | `<img src="…` with no closing quote is not a match |
| `ImageUrls.RewriteTag` | superbook-src/publish.js:171-176 | a match at the head is replaced by the callback's result, and scanning resumes after the closing quote (no overlap) |
| `ImageUrls.RewriteRelativeTag` | superbook-src/publish.js:172-173 | a source not starting with `http://`/`https://` becomes `<img src="https://raw.githubusercontent.com/getify/You-Dont-Know-JS/2nd-ed/{sourceName}/{src}"` |
| `ImageUrls.RewriteAbsoluteTag` | superbook-src/publish.js:172-175 | a source starting with `http://`/`https://` replaces the whole match by the bare source, which differs from the original tag |
| `ImageUrls.UpperCaseSchemeIsRelative` | superbook-src/publish.js:172-173 | the scheme test is case-sensitive: a `HTTP://…` source is rewritten as a relative one |
| `ImageUrls.SchemeRelativeIsRelative` | superbook-src/publish.js:172-173 | the scheme test needs `http:`/`https:`: a `//cdn…` source is rewritten as a relative one |
| `ImageUrls.AbsoluteTagExample` | superbook-src/publish.js:175 | as written, `<img src="http://x/a.png" alt="y">` becomes `http://x/a.png alt="y">` |
| `ImageUrls.IntendedReplacement` | superbook-src/publish.js:169-175 | the callback the comment "Convert relative URLs to absolute" describes: relative sources are treated as in `Replacement`, and an absolute source gives back its whole tag |
| `ImageUrls.RewriteIntendedKeepsAbsoluteTag` | superbook-src/publish.js:169-175 | with the intended callback an absolute tag is kept exactly, and scanning resumes after it |
| `ImageUrls.RewriteIntendedKeepsAbsoluteText` | superbook-src/publish.js:169-176 | with the intended callback, a text whose every image tag is absolute comes back unchanged |
| `ImageUrls.RewriteIntended` | superbook-src/publish.js:169-175 | the global replace with the intended callback; like `Rewrite`, it returns a text without `<` unchanged |
| `ImageUrls.RewriteIntendedLength` | superbook-src/publish.js:169-175 | the intended rewrite is longer than the as-written one by the prefix `<img src="` and the closing quote for each tag with an absolute source |
| `ImageUrls.RewriteIntendedAgreesIff` | superbook-src/publish.js:169-175 | the intended and the as-written rewrite give the same text if and only if the text has no tag with an absolute source |
| `ImageUrls.AbsoluteTagIntendedExample` | superbook-src/publish.js:169-175 | with the intended callback, `<img src="http://x/a.png" alt="y">` is kept as it is |
| `ImageUrls.FigureExample` | superbook-src/publish.js:173 | `<img src="images/fig1.png">` in get-started gets the get-started raw folder prefix, and the `>` is kept |
| `ImageUrls.RewriteCopiesPlainText` | superbook-src/publish.js:170-171 | text containing no `<` is copied unchanged and in order before the rest is rewritten |
| `ImageUrls.RewriteQuoteFree` | superbook-src/publish.js:170-171 | a text without any quote is returned unchanged |
| `ImageUrls.RewriteEmptySrc` | superbook-src/publish.js:170-171 | `<img src=""` is copied through unchanged |
| `ImageUrls.RewriteUnterminated` | superbook-src/publish.js:170-171 | an unterminated `<img src="…` at the end is copied through unchanged |
| `ImageUrls.RewriteUnchangedIff` | superbook-src/publish.js:170-176 | the rewrite returns its input exactly when no position of the input starts a match |
| `ImageUrls.RewriteNoTag` | superbook-src/publish.js:170-171 | input containing no match is returned unchanged |
| `ImageUrls.Scan` | superbook-src/publish.js:170-171 | every text has a leftmost, non-overlapping reading into characters and matches that spells out the text |
| `ImageUrls.LeftmostParseUnique` | superbook-src/publish.js:170 | that reading is unique: the global regex leaves no choice |
| `ImageUrls.RewriteFollowsParse` | superbook-src/publish.js:170-176 | for any leftmost reading, the rewrite keeps every character outside matches in order and replaces each match |
| `ImageUrls.RewriteIsEmitOfScan` | superbook-src/publish.js:170-176 | the rewrite of any text equals its unique leftmost reading with every match replaced |
| `Store.FindFirst` | superbook-src/publish.js:31 | `findOne` returns a matching document, and no earlier document in insertion order matches; it returns nothing only when no document with an id below the id bound matches |
| `Store.FindFirstStable` | superbook-src/publish.js:68 | a lookup that found a document keeps finding it when later writes keep the key fields and only add later ids |
| `Store.FindFirstNoneAll` | superbook-src/publish.js:31 | a `findOne` that finds nothing means that no document below the id bound matches |
| `Store.AddToSet` | superbook-src/publish.js:83-85 | `$addToSet` keeps the old list as a prefix, adds exactly the new id, grows by one only if the id was absent, and never creates a duplicate |
| `Store.AddToSetIdempotent` | superbook-src/publish.js:111-113 | adding the same id twice equals adding it once |
| `Store.AddToSetTwiceOneCopy` | superbook-src/publish.js:111-113 | after two additions of a new id the list holds it exactly once, at the end |
| `Upsert.UpsertBook` | superbook-src/publish.js:28-64 | found by `sourceName`: nothing inserted, the found id is returned, and only name, sourceName, username, generatedTopics = totalTopics = chapter count and updatedAt change. Not found: exactly one book is inserted with a new id, status COMPLETED, empty interests and chapters, level = size = 1, and createdAt = updatedAt = now. Either way chapters and topics are untouched and the key then resolves to the returned id |
| `Upsert.FindBook` | superbook-src/publish.js:31 | `books.findOne({ sourceName })` returns a book carrying the source name, and no earlier book carries it. In a valid store it returns nothing only when no book carries it |
| `Upsert.FindChapter` | superbook-src/publish.js:68 | `chapters.findOne({ name })`, unscoped by book, returns a chapter with that name, and no earlier chapter has it. In a valid store it returns nothing only when no chapter has it |
| `Upsert.SetTopicContent` | superbook-src/publish.js:72-76 | the `$set` on `topics[0]` gives that topic the new name, answer and updatedAt. Every other field and every other document is kept, and a missing id changes nothing |
| `Upsert.LinkChapter` | superbook-src/publish.js:83-85 | `$addToSet` on the book's `chapters` changes only that list, by `AddToSet`, and afterwards the chapter is in it. A missing book changes nothing |
| `Upsert.UpsertBookKeepsKeyUnique` | superbook-src/publish.js:31-62 | the set of books carrying the source name becomes exactly the returned book if it was empty, and is otherwise unchanged |
| `Upsert.UpsertBookTwice` | superbook-src/publish.js:31-44 | a second book upsert returns the first one's id and inserts nothing |
| `Upsert.RefreshChapter` | superbook-src/publish.js:70-88 | a found chapter keeps its topics and gets a new updatedAt. Only its first topic gets the new name, answer and updatedAt, keeping its bookId, chapterId and subtopics. No ids are added, and the book gets the chapter by `$addToSet` |
| `Upsert.CreateChapter` | superbook-src/publish.js:89-117 | exactly one topic (empty subtopics, chapterId = the new chapter, bookId = the owner, answer = content) and one chapter with `topics = [that topic]` are inserted under new ids, and the book gets the new chapter by `$addToSet` |
| `Upsert.UpsertChapter` | superbook-src/publish.js:66-118 | the name is looked up across all books. The found or new chapter is returned, linked into the owning book, and the name then resolves to it. Existing chapters keep every field except `updatedAt`, existing topics every field except name, answer and updatedAt, and no book other than the owner changes |
| `Upsert.FindChapterStable` | superbook-src/publish.js:68 | once a chapter name resolves, later chapter upserts never change what it resolves to |
| `Upsert.UpsertChapterKeepsKeyUnique` | superbook-src/publish.js:68-117 | the set of chapters carrying the name becomes exactly the returned chapter if it was empty, and is otherwise unchanged |
| `Upsert.UpsertChapterTwice` | superbook-src/publish.js:68-88 | a second upsert of the same name, from the same book or another one, returns the same chapter and inserts nothing. When both books exist, the chapter is then in both books' lists. For a new name, exactly one chapter with one topic remains, holding the latest content |
| `Publish.AddAllToSetExtends` | superbook-src/publish.js:111-113 | repeated `$addToSet` keeps the old list as a prefix, holds exactly the old and added ids, and never adds a repeat |
| `Publish.ImportChapter` | superbook-src/publish.js:167-178 | one loop iteration stores the REWRITTEN file text as the `answer` of the chapter's first topic, and writes nothing else to any topic. It links the chapter into the book by `$addToSet`, changes no other book field, and leaves existing chapters as they were except for `updatedAt` |
| `Publish.ImportChapters` | superbook-src/publish.js:166-179 | the loop completes exactly when every chapter file can be read. Otherwise it reports the first unreadable chapter, and every earlier chapter was readable |
| `Publish.ImportChaptersFrame` | superbook-src/publish.js:166-179 | the loop changes only the owning book's chapter list, and only by appending. Chapters keep every field except `updatedAt`, and topics every field except name, answer and updatedAt |
| `Publish.ReadCount` | superbook-src/publish.js:166-167 | the loop gets through every chapter exactly when every file can be read; otherwise it gets through those before the first unreadable one, which is the position the failure reports |
| `Publish.ImportChaptersStopsAtFailure` | superbook-src/publish.js:166-178 | a loop stopped by a failed read leaves the same store as the completed loop over the chapters before the failure: every write before it is kept and nothing after it happens |
| `Publish.ImportChaptersLinksInOrder` | superbook-src/publish.js:166-179 | a completed loop appends, in catalog order, the chapters the catalog names resolve to |
| `Publish.ImportChaptersKeepsNoDuplicates` | superbook-src/publish.js:166-179 | the loop never puts a chapter id twice into the book's list, whatever its outcome |
| `Publish.ImportChaptersWrites` | superbook-src/publish.js:166-178 | after a loop over readable files, each topic holds the name and rewritten text of the last catalog chapter whose first topic it is. A topic the loop never wrote to is unchanged |
| `Publish.LastWriteAgrees` | superbook-src/publish.js:68-76 | what the loop writes depends on the store only through the first topics the catalog names resolve to |
| `Publish.ImportBook` | superbook-src/publish.js:163-179 | one book's pipeline keeps ids unique and completes exactly when every chapter file can be read |
| `Publish.ImportBookKeepsKeyUnique` | superbook-src/publish.js:165 | after the pipeline, the source name resolves to the upserted book, and exactly one book carries it if none did before |
| `Publish.ImportBookLinksChapters` | superbook-src/publish.js:165-179 | the book's chapter list starts from the found book's list (or empty for a new book), keeps a list without duplicates free of them, and on completion gains the catalog's chapters in order |
| `Publish.ImportChaptersWhenLinked` | superbook-src/publish.js:166-179 | when every catalog chapter is already linked into the book, the loop inserts nothing and leaves every book unchanged, whether or not every file can be read |
| `Publish.ReadChaptersAreLinked` | superbook-src/publish.js:165-179 | whatever the outcome, every catalog chapter the loop got through (after a completed pipeline, every catalog chapter) has a name that resolves to a chapter in the book's list |
| `Publish.UpsertBookKeepsLinks` | superbook-src/publish.js:35-44 | refreshing a found book's metadata keeps all of its chapter links |
| `Publish.ReimportSecondLoop` | superbook-src/publish.js:163-179 | on a re-run after a completed or a failed first run, the book upsert finds the first run's book, and the chapter loop ends the same way, inserts nothing and changes no book |
| `Publish.FirstRunBook` | superbook-src/publish.js:35-62 | after the first run, whatever its outcome, the book carries the catalog's name, source name, author and chapter counts |
| `Publish.ReimportBooksAndChapters` | superbook-src/publish.js:35-85 | a re-run, after a completed or a failed first run, changes books and chapters only in `updatedAt` |
| `Publish.ReimportTopics` | superbook-src/publish.js:72-76 | a re-run, after a completed or a failed first run, writes every topic's name and answer just as the first run did, so topics change only in `updatedAt` |
| `Publish.ReimportBookIsIdempotent` | superbook-src/publish.js:163-179 | re-running a book pipeline at any later time, whether the first run completed or stopped at a failed read, ends with the same outcome and finds the same book. It inserts no book, chapter or topic. Every book, chapter and topic equals the first run's, field for field, except `updatedAt`, so every chapter list and its length are unchanged |
| `Catalog.SharedTitles` | superbook-src/publish.js:126-151 | both catalog books list "Preface" and "Appendix A: Exploring Further" |
| `Catalog.SharedChapters` | superbook-src/publish.js:68-88 | upserting "Preface" or "Appendix A: Exploring Further" for get-started and then for scope-closures yields one chapter document linked into both books |
| `Catalog.OneChapterScenario` | superbook-src/publish.js:163-179 | a get-started book with one chapter whose file holds `<img src="images/fig1.png">`, published into an empty store, completes. It gives a book with exactly one chapter, whose topic holds the tag re-anchored on the get-started raw folder |

## Left out

- Reading files (`readFile`, `fs`, `path`, lines 8-19) is file-system I/O. A chapter's text is a lookup in a map from path to text, and path resolution is not modelled.
- `MongoClient`, `dotenv`, connecting, the database and collection handles, and `client.close()` (lines 1-6, 22-24, 190) belong to the external driver. Only the map semantics of `findOne`, `insertOne`, `updateOne`, `$set` and `$addToSet` are kept.
- `Promise.all` over the two books (lines 157, 181-184) runs the book pipelines concurrently, and the model runs one book sequentially. The interleaving of the two pipelines, for example both books racing to create the shared "Preface" chapter, is not modelled.
- `try`/`catch`/`finally` and all logging (lines 27, 43, 61, 87, 115, 164, 186-191) have no stateable effect beyond stopping the pipeline. A failed read is modelled as that stop. Failures of the store itself are not modelled.
- `new Date()` is a `now` parameter, and `new ObjectId()` is the id counter. `new ObjectId(bookId)` (line 97) is a type conversion, modelled as the identity.
- The unused `test` helper (lines 158-162) is not modelled.
- The catalog (lines 120-155) is only example data for the shared chapter names. No lemma runs the whole catalog.
- Upsert.UpsertBook: requires `Valid(db)`, the uniqueness of generated ids, which the driver guarantees and the script never checks.
- `findOne` with several matching documents returns the one with the least id. MongoDB's natural order is only approximately insertion order.

## Findings

| source | as written | input that shows it | evidently intended | confidence | as-written member | corrected member |
|---|---|---|---|---|---|---|
| superbook-src/publish.js:169-175 | the callback returns the bare `src` for an absolute source, so the whole match `<img src="…"` becomes the URL alone | `<img src="http://x/a.png" alt="y">` becomes `http://x/a.png alt="y">` | return the whole match, so that only relative URLs change, as the comment on line 169 says | medium; not executed | `ImageUrls.RewriteAbsoluteTag` (with `ImageUrls.AbsoluteTagExample`) | `ImageUrls.RewriteIntendedKeepsAbsoluteTag` (with `ImageUrls.RewriteIntendedKeepsAbsoluteText`) |

The pipeline model (`Publish.ImportChapter`) keeps the as-written
`ImageUrls.Rewrite`, because that is the text the script stores.
