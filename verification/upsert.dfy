/**
 * `createOrUpdateBook` and `createOrUpdateChapter`
 * (superbook-src/publish.js, lines 28-118) as pure transitions of the
 * document store: each takes the store before the call and returns the store
 * after it together with the id the function in `publish.js` returns.
 */
module Upsert {
  import opened Wrappers
  import opened Store

  /** The status every inserted book gets. */
  const StatusCompleted: string := "COMPLETED"

  /** The store after an upsert and the id of the document it found or inserted. */
  datatype Upserted = Upserted(db: Db, id: Id)

  /** The filter `{ sourceName }`. */
  function HasSource(sourceName: string): Book -> bool {
    (b: Book) => b.sourceName == sourceName
  }

  /** The filter `{ name }` on chapters. */
  function HasName(name: string): Chapter -> bool {
    (c: Chapter) => c.name == name
  }

  /** `books.findOne({ sourceName })`: the earliest book carrying the source name, if any. */
  function FindBook(db: Db, sourceName: string): (r: Option<Id>)
    ensures r.Some? ==> r.value in db.books && db.books[r.value].sourceName == sourceName
    ensures r.Some? ==> forall id :: id in db.books && id < r.value ==> db.books[id].sourceName != sourceName
    ensures Valid(db) && r.None? ==> forall id :: id in db.books ==> db.books[id].sourceName != sourceName
  {
    FindFirstNoneAll(db.books, HasSource(sourceName), db.nextId);
    FindFirst(db.books, HasSource(sourceName), 0, db.nextId)
  }

  /** `chapters.findOne({ name })`: the earliest chapter with that name, looked up across all books. */
  function FindChapter(db: Db, name: string): (r: Option<Id>)
    ensures r.Some? ==> r.value in db.chapters && db.chapters[r.value].name == name
    ensures r.Some? ==> forall id :: id in db.chapters && id < r.value ==> db.chapters[id].name != name
    ensures Valid(db) && r.None? ==> forall id :: id in db.chapters ==> db.chapters[id].name != name
  {
    FindFirstNoneAll(db.chapters, HasName(name), db.nextId);
    FindFirst(db.chapters, HasName(name), 0, db.nextId)
  }

  /** The books that carry a given natural key. */
  function BooksWithSource(db: Db, sourceName: string): set<Id> {
    set id | id in db.books && db.books[id].sourceName == sourceName
  }

  /** The chapters that carry a given natural key. */
  function ChaptersNamed(db: Db, name: string): set<Id> {
    set id | id in db.chapters && db.chapters[id].name == name
  }

  // ---------------------------------------------------------------------------
  // createOrUpdateBook
  // ---------------------------------------------------------------------------

  /** The `$set` of an existing book: metadata refreshed, everything else kept. */
  predicate BookRefreshed(before: Book, after: Book, schema: CatalogBook, now: Time) {
    && after.name == schema.name
    && after.sourceName == schema.sourceName
    && after.username == schema.author
    && after.generatedTopics == |schema.chapters|
    && after.totalTopics == |schema.chapters|
    && after.updatedAt == now
    && after.status == before.status
    && after.interests == before.interests
    && after.chapters == before.chapters
    && after.level == before.level
    && after.size == before.size
    && after.createdAt == before.createdAt
  }

  /** The document `insertOne` creates for a book seen for the first time. */
  predicate BookCreated(b: Book, schema: CatalogBook, now: Time) {
    && b.name == schema.name
    && b.sourceName == schema.sourceName
    && b.username == schema.author
    && b.status == StatusCompleted
    && b.interests == []
    && b.chapters == []
    && b.level == 1
    && b.size == 1
    && b.generatedTopics == |schema.chapters|
    && b.totalTopics == |schema.chapters|
    && b.createdAt == now
    && b.updatedAt == now
  }

  function UpsertBook(db: Db, schema: CatalogBook, now: Time): (r: Upserted)
    requires Valid(db)
    ensures Valid(r.db)
    ensures r.db.chapters == db.chapters && r.db.topics == db.topics
    ensures FindBook(r.db, schema.sourceName) == Some(r.id)
    ensures forall id :: id in db.books && id != r.id ==> id in r.db.books && r.db.books[id] == db.books[id]
    ensures FindBook(db, schema.sourceName).Some? ==>
              && r.id == FindBook(db, schema.sourceName).value
              && r.db.books.Keys == db.books.Keys
              && r.db.nextId == db.nextId
              && BookRefreshed(db.books[r.id], r.db.books[r.id], schema, now)
    ensures FindBook(db, schema.sourceName).None? ==>
              && r.id !in db.books
              && r.db.books.Keys == db.books.Keys + {r.id}
              && BookCreated(r.db.books[r.id], schema, now)
  {
    var count := |schema.chapters|;
    match FindBook(db, schema.sourceName)
    case Some(id) =>
      var b := db.books[id];
      var b' := b.(name := schema.name, sourceName := schema.sourceName, username := schema.author,
                   generatedTopics := count, totalTopics := count, updatedAt := now);
      var db' := db.(books := db.books[id := b']);
      FindFirstStable(db.books, db'.books, HasSource(schema.sourceName), db.nextId, db'.nextId);
      Upserted(db', id)
    case None =>
      var id := db.nextId;
      var b := Book(schema.name, schema.sourceName, schema.author, StatusCompleted, [], [], 1, 1,
                    count, count, now, now);
      var db' := db.(books := db.books[id := b], nextId := id + 1);
      forall j | j in db'.books && j < id ensures !HasSource(schema.sourceName)(db'.books[j]) {
        FindFirstNone(db.books, HasSource(schema.sourceName), db.nextId, j);
      }
      FindFirstIs(db'.books, HasSource(schema.sourceName), db'.nextId, id);
      Upserted(db', id)
  }

  /**
   * The natural key stays unique: a book upsert creates a book with that
   * source name only when there was none, and never adds a second one.
   */
  lemma UpsertBookKeepsKeyUnique(db: Db, schema: CatalogBook, now: Time)
    requires Valid(db)
    ensures var after := BooksWithSource(UpsertBook(db, schema, now).db, schema.sourceName);
            var before := BooksWithSource(db, schema.sourceName);
            if before == {} then after == {UpsertBook(db, schema, now).id} else after == before
  {
    var r := UpsertBook(db, schema, now);
    var sn := schema.sourceName;
    var before := BooksWithSource(db, sn);
    var after := BooksWithSource(r.db, sn);
    if FindBook(db, sn).Some? {
      forall id ensures id in after <==> id in before {
        if id in db.books && id != r.id {
          assert r.db.books[id] == db.books[id];
        }
      }
      assert before != {} by {
        assert r.id in before;
      }
    } else {
      forall id | id in db.books ensures id !in before {
        FindFirstNone(db.books, HasSource(sn), db.nextId, id);
      }
      assert before == {};
      forall id ensures id in after <==> id == r.id {
        if id in db.books && id != r.id {
          assert r.db.books[id] == db.books[id];
        }
      }
    }
  }

  /** Running the book upsert again finds the book the first run returned and inserts nothing. */
  lemma UpsertBookTwice(db: Db, schema: CatalogBook, now: Time, later: Time)
    requires Valid(db)
    ensures var first := UpsertBook(db, schema, now);
            var second := UpsertBook(first.db, schema, later);
            && second.id == first.id
            && second.db.books.Keys == first.db.books.Keys
            && second.db.nextId == first.db.nextId
  {
  }
  
  // ---------------------------------------------------------------------------
  // createOrUpdateChapter
  // ---------------------------------------------------------------------------

  /**
   * `topics.updateOne({ _id: id }, { $set: { name, answer, updatedAt } })`;
   * when no topic has that id the update matches nothing.
   */
  function SetTopicContent(db: Db, id: Id, name: string, content: string, now: Time): (db': Db)
    ensures db'.books == db.books && db'.chapters == db.chapters && db'.nextId == db.nextId
    ensures db'.topics.Keys == db.topics.Keys
    ensures forall t :: t in db.topics && t != id ==> db'.topics[t] == db.topics[t]
    ensures id in db.topics ==>
              && db'.topics[id].name == name && db'.topics[id].answer == content && db'.topics[id].updatedAt == now
              && db'.topics[id].(name := db.topics[id].name, answer := db.topics[id].answer,
                                 updatedAt := db.topics[id].updatedAt) == db.topics[id]
  {
    if id in db.topics then
      db.(topics := db.topics[id := db.topics[id].(name := name, answer := content, updatedAt := now)])
    else
      db
  }

  /**
   * `books.updateOne({ _id: bookId }, { $addToSet: { chapters: chapterId } })`;
   * when no book has that id the update matches nothing.
   */
  function LinkChapter(db: Db, bookId: Id, chapterId: Id): (db': Db)
    ensures db'.chapters == db.chapters && db'.topics == db.topics && db'.nextId == db.nextId
    ensures ChapterLinked(db, db', bookId, chapterId)
    ensures bookId in db.books ==> chapterId in db'.books[bookId].chapters
  {
    if bookId in db.books then
      db.(books := db.books[bookId := db.books[bookId].(chapters := AddToSet(db.books[bookId].chapters, chapterId))])
    else
      db
  }

  /** The book side of a chapter upsert: only the owning book's chapter list changes, by `$addToSet`. */
  predicate ChapterLinked(db: Db, db': Db, bookId: Id, chapterId: Id) {
    && db'.books.Keys == db.books.Keys
    && (forall id :: id in db.books && id != bookId ==> db'.books[id] == db.books[id])
    && (bookId in db.books ==>
          db'.books[bookId] == db.books[bookId].(chapters := AddToSet(db.books[bookId].chapters, chapterId)))
  }

  /**
   * Existing chapters keep their ids and every field but `updatedAt` (so
   * their names and topic lists), and new chapters get ids not handed out
   * before.
   */
  predicate ChaptersKept(db: Db, db': Db) {
    && db.nextId <= db'.nextId
    && (forall id :: id in db.chapters ==>
          id in db'.chapters && db'.chapters[id] == db.chapters[id].(updatedAt := db'.chapters[id].updatedAt))
    && (forall id :: id in db'.chapters && id !in db.chapters ==> db.nextId <= id)
  }

  /** Existing topics keep their ids and every field but `name`, `answer` and `updatedAt`. */
  predicate TopicsKept(db: Db, db': Db) {
    forall id :: id in db.topics ==>
      && id in db'.topics
      && db'.topics[id] == db.topics[id].(name := db'.topics[id].name, answer := db'.topics[id].answer,
                                          updatedAt := db'.topics[id].updatedAt)
  }

  /**
   * The update of a found chapter: its first topic (if it exists) gets the
   * new name, content and timestamp; no other topic changes, and the chapter
   * only gets a new timestamp.
   */
  predicate ChapterRefreshed(db: Db, db': Db, chapterId: Id, name: string, content: string, now: Time)
    requires chapterId in db.chapters
  {
    var c := db.chapters[chapterId];
    && db'.chapters.Keys == db.chapters.Keys
    && db'.topics.Keys == db.topics.Keys
    && db'.nextId == db.nextId
    && db'.chapters[chapterId] == c.(updatedAt := now)
    && (forall id :: id in db.chapters && id != chapterId ==> db'.chapters[id] == db.chapters[id])
    && (forall id :: id in db.topics ==>
          db'.topics[id] == if |c.topics| > 0 && id == c.topics[0]
                            then db.topics[id].(name := name, answer := content, updatedAt := now)
                            else db.topics[id])
  }

  /**
   * The insertion of a chapter seen for the first time: one new topic
   * holding the content and one new chapter pointing at it, both with new
   * ids; nothing else in those collections changes.
   */
  predicate ChapterCreated(db: Db, db': Db, chapterId: Id, bookId: Id, name: string, content: string, now: Time) {
    && chapterId !in db.chapters
    && db'.chapters.Keys == db.chapters.Keys + {chapterId}
    && (forall id :: id in db.chapters ==> db'.chapters[id] == db.chapters[id])
    && |db'.chapters[chapterId].topics| == 1
    && var topicId := db'.chapters[chapterId].topics[0];
       && topicId !in db.topics
       && topicId != chapterId
       && db'.topics.Keys == db.topics.Keys + {topicId}
       && (forall id :: id in db.topics ==> db'.topics[id] == db.topics[id])
       && db'.chapters[chapterId] == Chapter(name, [topicId], now, now)
       && db'.topics[topicId] == Topic(name, [], chapterId, bookId, content, now, now)
  }

  /** The branch for a chapter name already in the store (lines 70-88). */
  function RefreshChapter(db: Db, chapterId: Id, bookId: Id, name: string, content: string, now: Time): (db': Db)
    requires Valid(db)
    requires chapterId in db.chapters && db.chapters[chapterId].name == name
    ensures Valid(db')
    ensures ChapterRefreshed(db, db', chapterId, name, content, now)
    ensures ChapterLinked(db, db', bookId, chapterId)
  {
    var c := db.chapters[chapterId];
    var db1 := if |c.topics| > 0 then SetTopicContent(db, c.topics[0], name, content, now) else db;
    var db2 := db1.(chapters := db1.chapters[chapterId := c.(name := name, updatedAt := now)]);
    LinkChapter(db2, bookId, chapterId)
  }

  /** The branch for a chapter name not in the store yet (lines 89-117). */
  function CreateChapter(db: Db, bookId: Id, name: string, content: string, now: Time): (r: Upserted)
    requires Valid(db)
    ensures Valid(r.db)
    ensures r.id == db.nextId
    ensures ChapterCreated(db, r.db, r.id, bookId, name, content, now)
    ensures ChapterLinked(db, r.db, bookId, r.id)
    ensures ChaptersKept(db, r.db)
  {
    var chapterId := db.nextId;
    var topicId := db.nextId + 1;
    var db1 := db.(topics := db.topics[topicId := Topic(name, [], chapterId, bookId, content, now, now)],
                   nextId := db.nextId + 2);
    var db2 := db1.(chapters := db1.chapters[chapterId := Chapter(name, [topicId], now, now)]);
    Upserted(LinkChapter(db2, bookId, chapterId), chapterId)
  }

  function UpsertChapter(db: Db, bookId: Id, chapterName: string, content: string, now: Time): (r: Upserted)
    requires Valid(db)
    ensures Valid(r.db)
    ensures FindChapter(r.db, chapterName) == Some(r.id)
    ensures ChapterLinked(db, r.db, bookId, r.id)
    ensures ChaptersKept(db, r.db)
    ensures TopicsKept(db, r.db)
    ensures FindChapter(db, chapterName).Some? ==>
              r.id == FindChapter(db, chapterName).value && ChapterRefreshed(db, r.db, r.id, chapterName, content, now)
    ensures FindChapter(db, chapterName).None? ==>
              ChapterCreated(db, r.db, r.id, bookId, chapterName, content, now)
  {
    var named := HasName(chapterName);
    match FindChapter(db, chapterName)
    case Some(id) =>
      var db' := RefreshChapter(db, id, bookId, chapterName, content, now);
      FindFirstStable(db.chapters, db'.chapters, named, db.nextId, db'.nextId);
      Upserted(db', id)
    case None =>
      var r := CreateChapter(db, bookId, chapterName, content, now);
      forall j | j in r.db.chapters && j < r.id ensures !named(r.db.chapters[j]) {
        FindFirstNone(db.chapters, named, db.nextId, j);
      }
      FindFirstIs(r.db.chapters, named, r.db.nextId, r.id);
      r
  }

  // ---------------------------------------------------------------------------
  // Chapter names as a global natural key
  // ---------------------------------------------------------------------------

  /** Chapter lookups that succeeded keep their answer across any change that keeps chapter names. */
  lemma FindChapterStable(db: Db, db': Db, name: string)
    requires Valid(db) && ChaptersKept(db, db')
    requires FindChapter(db, name).Some?
    ensures FindChapter(db', name) == FindChapter(db, name)
  {
    FindFirstStable(db.chapters, db'.chapters, HasName(name), db.nextId, db'.nextId);
  }

  /** Keeping chapter names and ids is transitive. */
  lemma ChaptersKeptTrans(db1: Db, db2: Db, db3: Db)
    requires ChaptersKept(db1, db2) && ChaptersKept(db2, db3)
    ensures ChaptersKept(db1, db3)
  {
  }

  /**
   * A chapter upsert creates a chapter with that name only when there was
   * none, and never adds a second one.
   */
  lemma UpsertChapterKeepsKeyUnique(db: Db, bookId: Id, name: string, content: string, now: Time)
    requires Valid(db)
    ensures var r := UpsertChapter(db, bookId, name, content, now);
            var before := ChaptersNamed(db, name);
            var after := ChaptersNamed(r.db, name);
            if before == {} then after == {r.id} else after == before
  {
    var r := UpsertChapter(db, bookId, name, content, now);
    var before := ChaptersNamed(db, name);
    var after := ChaptersNamed(r.db, name);
    if FindChapter(db, name).Some? {
      forall id ensures id in after <==> id in before {
        if id in r.db.chapters {
          assert id in db.chapters;
        }
      }
      assert r.id in before;
    } else {
      forall id | id in db.chapters ensures id !in before {
        FindFirstNone(db.chapters, HasName(name), db.nextId, id);
      }
      forall id ensures id in after <==> id == r.id {
        if id in r.db.chapters && id != r.id {
          assert id in db.chapters;
        }
      }
    }
  }

  /**
   * Two upserts of the same chapter name, from the same book or from two
   * books, resolve to one chapter document: the second inserts nothing,
   * returns the first one's id, stores its own content in the chapter's
   * topic, and leaves the chapter linked into both books.
   */
  lemma UpsertChapterTwice(db: Db, bookA: Id, bookB: Id, name: string, first: string, second: string,
                           now: Time, later: Time)
    requires Valid(db)
    ensures var r1 := UpsertChapter(db, bookA, name, first, now);
            var r2 := UpsertChapter(r1.db, bookB, name, second, later);
            && r2.id == r1.id
            && r2.db.chapters.Keys == r1.db.chapters.Keys
            && r2.db.topics.Keys == r1.db.topics.Keys
            && (bookA in db.books ==> r1.id in r2.db.books[bookA].chapters)
            && (bookB in db.books ==> r1.id in r2.db.books[bookB].chapters)
            && (FindChapter(db, name).None? ==>
                  && ChaptersNamed(r2.db, name) == {r1.id}
                  && |r2.db.chapters[r1.id].topics| == 1
                  && r2.db.topics[r2.db.chapters[r1.id].topics[0]].answer == second)
  {
    var r1 := UpsertChapter(db, bookA, name, first, now);
    var r2 := UpsertChapter(r1.db, bookB, name, second, later);
    UpsertChapterKeepsKeyUnique(db, bookA, name, first, now);
    UpsertChapterKeepsKeyUnique(r1.db, bookB, name, second, later);
    if bookA in db.books && bookA != bookB {
      assert r2.db.books[bookA] == r1.db.books[bookA];
    }
  }
}
