/**
 * One book's pipeline (superbook-src/publish.js, lines 163-179): upsert the
 * book once, then for every catalog chapter in order read its file, rewrite
 * its image URLs against the book's source name and upsert the chapter.
 *
 * File contents are an input map from path to text; a path missing from it
 * is a failed `readFile`, which ends the pipeline at that chapter and keeps
 * every write made before it.
 */
module Publish {
  import opened Wrappers
  import opened Store
  import opened Upsert
  import ImageUrls

  /** How a book's pipeline ended; a failed read names the catalog position and path. */
  datatype Outcome = Completed | ReadFailed(index: nat, path: string)

  /** The store after a pipeline and how it ended. */
  datatype Run = Run(db: Db, outcome: Outcome)

  /** `$addToSet` applied for each id in turn. */
  function AddAllToSet(xs: seq<Id>, ids: seq<Id>): seq<Id>
    decreases |ids|
  {
    if |ids| == 0 then xs else AddAllToSet(AddToSet(xs, ids[0]), ids[1..])
  }

  /** Adding ids one at a time keeps the old list as a prefix and never adds a repeat. */
  lemma {:induction false} AddAllToSetExtends(xs: seq<Id>, ids: seq<Id>)
    ensures xs <= AddAllToSet(xs, ids)
    ensures forall y :: y in AddAllToSet(xs, ids) <==> y in xs || y in ids
    ensures NoDuplicates(xs) ==> NoDuplicates(AddAllToSet(xs, ids))
    decreases |ids|
  {
    if |ids| > 0 {
      AddAllToSetExtends(AddToSet(xs, ids[0]), ids[1..]);
      assert ids == [ids[0]] + ids[1..];
    }
  }

  /** Every catalog chapter's name resolves to some chapter document. */
  predicate AllFound(db: Db, chapters: seq<CatalogChapter>) {
    forall i :: 0 <= i < |chapters| ==> FindChapter(db, chapters[i].name).Some?
  }

  /** The chapter documents the catalog chapters' names resolve to, in catalog order. */
  function FoundIds(db: Db, chapters: seq<CatalogChapter>): (ids: seq<Id>)
    requires AllFound(db, chapters)
    ensures |ids| == |chapters|
    ensures forall i :: 0 <= i < |chapters| ==> Some(ids[i]) == FindChapter(db, chapters[i].name)
    decreases |chapters|
  {
    if |chapters| == 0 then []
    else [FindChapter(db, chapters[0].name).value] + FoundIds(db, chapters[1..])
  }

  /** The chapter `name` resolves to is in the chapter list of book `bookId`. */
  predicate Linked(db: Db, bookId: Id, name: string) {
    && bookId in db.books
    && FindChapter(db, name).Some?
    && FindChapter(db, name).value in db.books[bookId].chapters
  }

  /** Every path of the catalog chapters can be read. */
  predicate AllReadable(files: map<string, string>, chapters: seq<CatalogChapter>) {
    forall i :: 0 <= i < |chapters| ==> chapters[i].path in files
  }

  /** Books keep their ids and every field except the chapter list of `bookId`. */
  predicate OnlyChapterListChanged(db: Db, db': Db, bookId: Id) {
    && db'.books.Keys == db.books.Keys
    && (forall id :: id in db.books && id != bookId ==> db'.books[id] == db.books[id])
    && (bookId in db.books ==> db'.books[bookId] == db.books[bookId].(chapters := db'.books[bookId].chapters))
  }

  /** The topic an upsert of chapter `name` writes to: the first topic of the chapter the name resolves to. */
  function FirstTopic(db: Db, name: string): Option<Id> {
    match FindChapter(db, name)
    case Some(c) => if |db.chapters[c].topics| > 0 then Some(db.chapters[c].topics[0]) else None
    case None => None
  }

  /** The `name` and `answer` a chapter upsert stores in a topic. */
  datatype Write = Write(name: string, answer: string)

  /**
   * Topic `t` of `db'` holds the write `w` stamped `now`, or, when nothing
   * was written to it, is `db`'s topic unchanged.
   */
  predicate TopicSettled(db: Db, db': Db, t: Id, w: Option<Write>, now: Time)
    requires t in db'.topics
  {
    match w
    case Some(w) => db'.topics[t].name == w.name && db'.topics[t].answer == w.answer && db'.topics[t].updatedAt == now
    case None => t in db.topics && db'.topics[t] == db.topics[t]
  }

  /** What one chapter upsert writes to topic `t` of the store after it. */
  function StepWrite(db': Db, name: string, content: string, t: Id): Option<Write> {
    if FirstTopic(db', name) == Some(t) then Some(Write(name, content)) else None
  }

  /**
   * One iteration of the loop: rewrite the chapter's text, then upsert it
   * into book `bookId`. The rewritten text is what the chapter's first
   * topic holds afterwards; no other topic changes.
   */
  function ImportChapter(db: Db, bookId: Id, text: string, sourceName: string, name: string, now: Time): (r: Upserted)
    requires Valid(db)
    ensures Valid(r.db)
    ensures ChaptersKept(db, r.db) && TopicsKept(db, r.db)
    ensures OnlyChapterListChanged(db, r.db, bookId)
    ensures FindChapter(r.db, name) == Some(r.id)
    ensures bookId in db.books ==> r.db.books[bookId].chapters == AddToSet(db.books[bookId].chapters, r.id)
    ensures r.id in r.db.chapters
    ensures |r.db.chapters[r.id].topics| > 0 && r.db.chapters[r.id].topics[0] in r.db.topics ==>
              r.db.topics[r.db.chapters[r.id].topics[0]].answer == ImageUrls.Rewrite(text, sourceName)
    ensures forall t :: t in r.db.topics ==>
              TopicSettled(db, r.db, t, StepWrite(r.db, name, ImageUrls.Rewrite(text, sourceName), t), now)
  {
    var content := ImageUrls.Rewrite(text, sourceName);
    UpsertChapter(db, bookId, name, content, now)
  }

  lemma OnlyChapterListChangedTrans(db1: Db, db2: Db, db3: Db, bookId: Id)
    requires OnlyChapterListChanged(db1, db2, bookId) && OnlyChapterListChanged(db2, db3, bookId)
    ensures OnlyChapterListChanged(db1, db3, bookId)
  {
  }

  /** The position of the first catalog chapter whose file cannot be read, if any. */
  function FirstUnreadable(files: map<string, string>, chapters: seq<CatalogChapter>): (r: Option<nat>)
    ensures r.None? <==> AllReadable(files, chapters)
    ensures r.Some? ==>
              && r.value < |chapters|
              && chapters[r.value].path !in files
              && forall j :: 0 <= j < r.value ==> chapters[j].path in files
    decreases |chapters|
  {
    if |chapters| == 0 then None
    else if chapters[0].path !in files then Some(0)
    else
      match FirstUnreadable(files, chapters[1..])
      case None => None
      case Some(i) => Some(i + 1)
  }

  /** How the loop ends: completed, or stopped at the first unreadable chapter. */
  function ExpectedOutcome(files: map<string, string>, chapters: seq<CatalogChapter>): Outcome {
    match FirstUnreadable(files, chapters)
    case None => Completed
    case Some(i) => ReadFailed(i, chapters[i].path)
  }

  /**
   * How many catalog chapters the loop gets through: all of them when every
   * file can be read, otherwise those before the first unreadable one.
   */
  function ReadCount(files: map<string, string>, chapters: seq<CatalogChapter>): (n: nat)
    ensures n <= |chapters|
    ensures AllReadable(files, chapters[..n])
    ensures n == |chapters| <==> AllReadable(files, chapters)
    ensures n < |chapters| ==> chapters[n].path !in files && ExpectedOutcome(files, chapters) == ReadFailed(n, chapters[n].path)
  {
    match FirstUnreadable(files, chapters)
    case None => |chapters|
    case Some(i) =>
      assert AllReadable(files, chapters[..i]) by {
        forall j | 0 <= j < i ensures chapters[..i][j].path in files {
          assert chapters[..i][j] == chapters[j];
        }
      }
      i
  }

  /** The loop `for (const chapter of bookSchema.chapters)` of one book. */
  function ImportChapters(db: Db, bookId: Id, files: map<string, string>, sourceName: string,
                          chapters: seq<CatalogChapter>, now: Time): (r: Run)
    requires Valid(db)
    ensures Valid(r.db)
    ensures r.outcome == ExpectedOutcome(files, chapters)
    decreases |chapters|
  {
    if |chapters| == 0 then Run(db, Completed)
    else
      var chapter := chapters[0];
      if chapter.path !in files then
        Run(db, ReadFailed(0, chapter.path))
      else
        var step := ImportChapter(db, bookId, files[chapter.path], sourceName, chapter.name, now);
        var rest := ImportChapters(step.db, bookId, files, sourceName, chapters[1..], now);
        if rest.outcome.Completed? then rest
        else
          var i := rest.outcome.index;
          Run(rest.db, ReadFailed(i + 1, rest.outcome.path))
  }

  /**
   * The loop changes no book but `bookId`, and of that one only the chapter
   * list, which it extends at the end; chapters keep their ids and names.
   */
  lemma {:induction false} ImportChaptersFrame(db: Db, bookId: Id, files: map<string, string>,
                                               sourceName: string, chapters: seq<CatalogChapter>, now: Time)
    requires Valid(db)
    ensures var r := ImportChapters(db, bookId, files, sourceName, chapters, now);
            && OnlyChapterListChanged(db, r.db, bookId)
            && ChaptersKept(db, r.db)
            && TopicsKept(db, r.db)
            && (bookId in db.books ==> db.books[bookId].chapters <= r.db.books[bookId].chapters)
    decreases |chapters|
  {
    if |chapters| > 0 && chapters[0].path in files {
      var chapter := chapters[0];
      var step := ImportChapter(db, bookId, files[chapter.path], sourceName, chapter.name, now);
      var rest := ImportChapters(step.db, bookId, files, sourceName, chapters[1..], now);
      ImportChaptersFrame(step.db, bookId, files, sourceName, chapters[1..], now);
      ChaptersKeptTrans(db, step.db, rest.db);
      OnlyChapterListChangedTrans(db, step.db, rest.db, bookId);
    }
  }

  /**
   * A completed loop leaves every catalog chapter resolvable by name and
   * the book's chapter list extended, in catalog order and without
   * repetition, by the chapters those names resolve to.
   */
  lemma {:induction false} ImportChaptersLinksInOrder(db: Db, bookId: Id, files: map<string, string>,
                                                      sourceName: string, chapters: seq<CatalogChapter>, now: Time)
    requires Valid(db) && bookId in db.books
    requires ImportChapters(db, bookId, files, sourceName, chapters, now).outcome.Completed?
    ensures var r := ImportChapters(db, bookId, files, sourceName, chapters, now);
            && AllFound(r.db, chapters)
            && bookId in r.db.books
            && r.db.books[bookId].chapters == AddAllToSet(db.books[bookId].chapters, FoundIds(r.db, chapters))
    decreases |chapters|
  {
    if |chapters| > 0 {
      var chapter := chapters[0];
      assert chapter.path in files;
      var step := ImportChapter(db, bookId, files[chapter.path], sourceName, chapter.name, now);
      var rest := ImportChapters(step.db, bookId, files, sourceName, chapters[1..], now);
      assert ImportChapters(db, bookId, files, sourceName, chapters, now) == rest;
      ImportChaptersLinksInOrder(step.db, bookId, files, sourceName, chapters[1..], now);
      ImportChaptersFrame(step.db, bookId, files, sourceName, chapters[1..], now);
      FindChapterStable(step.db, rest.db, chapter.name);
      FoundIdsCons(rest.db, chapters);
    }
  }

  /**
   * A loop stopped by a failed read leaves the store the completed loop over
   * the chapters before the failure leaves.
   */
  lemma {:induction false} ImportChaptersStopsAtFailure(db: Db, bookId: Id, files: map<string, string>,
                                                        sourceName: string, chapters: seq<CatalogChapter>, now: Time)
    requires Valid(db)
    ensures var n := ReadCount(files, chapters);
            ImportChapters(db, bookId, files, sourceName, chapters, now).db
            == ImportChapters(db, bookId, files, sourceName, chapters[..n], now).db
    decreases |chapters|
  {
    var n := ReadCount(files, chapters);
    if |chapters| > 0 && chapters[0].path in files {
      var ch := chapters[0];
      var step := ImportChapter(db, bookId, files[ch.path], sourceName, ch.name, now);
      var tail := chapters[1..];
      var m := ReadCount(files, tail);
      var prefix := chapters[..n];
      assert |prefix| > 0 && prefix[0] == ch && prefix[1..] == tail[..m] by {
        ReadCountCons(files, chapters);
      }
      calc {
        ImportChapters(db, bookId, files, sourceName, chapters, now).db;
      == { ImportChaptersCons(db, bookId, files, sourceName, chapters, now); }
        ImportChapters(step.db, bookId, files, sourceName, tail, now).db;
      == { ImportChaptersStopsAtFailure(step.db, bookId, files, sourceName, tail, now); }
        ImportChapters(step.db, bookId, files, sourceName, tail[..m], now).db;
      ==
        ImportChapters(step.db, bookId, files, sourceName, prefix[1..], now).db;
      == { ImportChaptersCons(db, bookId, files, sourceName, prefix, now); }
        ImportChapters(db, bookId, files, sourceName, prefix, now).db;
      }
    } else {
      ImportChaptersHeadUnreadable(db, bookId, files, sourceName, chapters, now);
    }
  }

  /** With no chapter left, or an unreadable first one, the loop writes nothing and gets through none. */
  lemma ImportChaptersHeadUnreadable(db: Db, bookId: Id, files: map<string, string>,
                                     sourceName: string, chapters: seq<CatalogChapter>, now: Time)
    requires Valid(db) && (|chapters| == 0 || chapters[0].path !in files)
    ensures ReadCount(files, chapters) == 0
    ensures ImportChapters(db, bookId, files, sourceName, chapters, now).db == db
  {
  }

  /** A readable first chapter is imported, then the loop goes on with the rest. */
  lemma ImportChaptersCons(db: Db, bookId: Id, files: map<string, string>,
                           sourceName: string, chapters: seq<CatalogChapter>, now: Time)
    requires Valid(db) && |chapters| > 0 && chapters[0].path in files
    ensures var step := ImportChapter(db, bookId, files[chapters[0].path], sourceName, chapters[0].name, now);
            ImportChapters(db, bookId, files, sourceName, chapters, now).db
            == ImportChapters(step.db, bookId, files, sourceName, chapters[1..], now).db
  {
  }

  /** A readable first chapter adds one to the count of the rest. */
  lemma ReadCountCons(files: map<string, string>, chapters: seq<CatalogChapter>)
    requires |chapters| > 0 && chapters[0].path in files
    ensures ReadCount(files, chapters) == ReadCount(files, chapters[1..]) + 1
  {
  }

  /** A found head and a found tail make a found list, whose ids are the head's id then the tail's. */
  lemma FoundIdsCons(db: Db, chapters: seq<CatalogChapter>)
    requires |chapters| > 0 && FindChapter(db, chapters[0].name).Some? && AllFound(db, chapters[1..])
    ensures AllFound(db, chapters)
    ensures FoundIds(db, chapters) == [FindChapter(db, chapters[0].name).value] + FoundIds(db, chapters[1..])
  {
    forall i | 0 <= i < |chapters| ensures FindChapter(db, chapters[i].name).Some? {
      if i > 0 {
        assert chapters[i] == chapters[1..][i - 1];
      }
    }
  }

  // ---------------------------------------------------------------------------
  // One book
  // ---------------------------------------------------------------------------

  /** The pipeline `fun` of one catalog book: one book upsert, then the chapter loop. */
  function ImportBook(db: Db, files: map<string, string>, book: CatalogBook, now: Time): (r: Run)
    requires Valid(db)
    ensures Valid(r.db)
    ensures r.outcome.Completed? <==> AllReadable(files, book.chapters)
  {
    var up := UpsertBook(db, book, now);
    ImportChapters(up.db, up.id, files, book.sourceName, book.chapters, now)
  }

  /** The chapter list the loop starts from: the found book's, or the empty list of a new one. */
  function InitialChapters(db: Db, sourceName: string): seq<Id> {
    match FindBook(db, sourceName)
    case Some(id) => db.books[id].chapters
    case None => []
  }

  /**
   * After a book's pipeline, whatever its outcome, the source name resolves
   * to the book the upsert returned and is carried by exactly one book when
   * none carried it before (otherwise by the same books as before).
   */
  lemma ImportBookKeepsKeyUnique(db: Db, files: map<string, string>, book: CatalogBook, now: Time)
    requires Valid(db)
    ensures var up := UpsertBook(db, book, now);
            var r := ImportBook(db, files, book, now);
            var before := BooksWithSource(db, book.sourceName);
            && FindBook(r.db, book.sourceName) == Some(up.id)
            && (if before == {} then BooksWithSource(r.db, book.sourceName) == {up.id}
                else BooksWithSource(r.db, book.sourceName) == before)
  {
    var up := UpsertBook(db, book, now);
    var r := ImportBook(db, files, book, now);
    var sn := book.sourceName;
    ImportChaptersFrame(up.db, up.id, files, sn, book.chapters, now);
    ChapterListChangeKeepsSources(up.db, r.db, up.id, sn);
    UpsertBookKeepsKeyUnique(db, book, now);
  }

  /** Changing one book's chapter list changes neither which books carry a source name nor which one it finds. */
  lemma ChapterListChangeKeepsSources(db: Db, db': Db, bookId: Id, sourceName: string)
    requires Valid(db) && OnlyChapterListChanged(db, db', bookId) && db.nextId <= db'.nextId
    requires FindBook(db, sourceName).Some?
    ensures BooksWithSource(db', sourceName) == BooksWithSource(db, sourceName)
    ensures FindBook(db', sourceName) == FindBook(db, sourceName)
  {
    forall id | id in db.books ensures db'.books[id].sourceName == db.books[id].sourceName {
      if id == bookId {
        assert db'.books[id] == db.books[id].(chapters := db'.books[id].chapters);
      }
    }
    FindFirstStable(db.books, db'.books, HasSource(sourceName), db.nextId, db'.nextId);
  }

  /**
   * A book's pipeline never repeats an id in the book's chapter list; when
   * it completes, it has appended, in catalog order, the chapters the
   * catalog names resolve to.
   */
  lemma ImportBookLinksChapters(db: Db, files: map<string, string>, book: CatalogBook, now: Time)
    requires Valid(db)
    ensures var up := UpsertBook(db, book, now);
            var r := ImportBook(db, files, book, now);
            && up.id in r.db.books
            && (NoDuplicates(InitialChapters(db, book.sourceName)) ==> NoDuplicates(r.db.books[up.id].chapters))
            && (r.outcome.Completed? ==>
                  && AllFound(r.db, book.chapters)
                  && r.db.books[up.id].chapters
                     == AddAllToSet(InitialChapters(db, book.sourceName), FoundIds(r.db, book.chapters)))
  {
    var up := UpsertBook(db, book, now);
    var r := ImportBook(db, files, book, now);
    var sn := book.sourceName;
    ImportChaptersFrame(up.db, up.id, files, sn, book.chapters, now);
    var xs := up.db.books[up.id].chapters;
    assert xs == InitialChapters(db, sn);
    if r.outcome.Completed? {
      ImportChaptersLinksInOrder(up.db, up.id, files, sn, book.chapters, now);
      AddAllToSetExtends(xs, FoundIds(r.db, book.chapters));
    } else if NoDuplicates(xs) {
      ImportChaptersKeepsNoDuplicates(up.db, up.id, files, sn, book.chapters, now);
    }
  }

  /** Whatever its outcome, the loop never puts an id twice into the book's chapter list. */
  lemma {:induction false} ImportChaptersKeepsNoDuplicates(db: Db, bookId: Id, files: map<string, string>,
                                                           sourceName: string, chapters: seq<CatalogChapter>, now: Time)
    requires Valid(db) && bookId in db.books
    requires NoDuplicates(db.books[bookId].chapters)
    ensures var r := ImportChapters(db, bookId, files, sourceName, chapters, now);
            bookId in r.db.books && NoDuplicates(r.db.books[bookId].chapters)
    decreases |chapters|
  {
    ImportChaptersFrame(db, bookId, files, sourceName, chapters, now);
    if |chapters| > 0 && chapters[0].path in files {
      var chapter := chapters[0];
      var step := ImportChapter(db, bookId, files[chapter.path], sourceName, chapter.name, now);
      ImportChaptersKeepsNoDuplicates(step.db, bookId, files, sourceName, chapters[1..], now);
    }
  }

  // ---------------------------------------------------------------------------
  // Re-running a book
  // ---------------------------------------------------------------------------

  /**
   * When every catalog chapter is already linked into the book, the loop
   * inserts nothing and leaves every book, including its chapter list, as
   * it was.
   */
  lemma {:induction false} ImportChaptersWhenLinked(db: Db, bookId: Id, files: map<string, string>,
                                                    sourceName: string, chapters: seq<CatalogChapter>, now: Time)
    requires Valid(db) && bookId in db.books
    requires forall i :: 0 <= i < |chapters| ==> Linked(db, bookId, chapters[i].name)
    ensures var r := ImportChapters(db, bookId, files, sourceName, chapters, now);
            && r.db.books == db.books
            && r.db.chapters.Keys == db.chapters.Keys
            && r.db.topics.Keys == db.topics.Keys
            && r.db.nextId == db.nextId
    decreases |chapters|
  {
    if |chapters| > 0 && chapters[0].path in files {
      var chapter := chapters[0];
      var step := UpsertChapter(db, bookId, chapter.name, ImageUrls.Rewrite(files[chapter.path], sourceName), now);
      assert Linked(db, bookId, chapter.name);
      var b := db.books[bookId];
      assert step.db.books[bookId] == b;
      assert step.db.books == db.books;
      forall i | 0 <= i < |chapters[1..]| ensures Linked(step.db, bookId, chapters[1..][i].name) {
        assert Linked(db, bookId, chapters[i + 1].name);
        FindChapterStable(db, step.db, chapters[i + 1].name);
      }
      ImportChaptersWhenLinked(step.db, bookId, files, sourceName, chapters[1..], now);
    }
  }

  /**
   * After a book's pipeline, whatever its outcome, every catalog chapter
   * the loop got through is linked into the book the upsert returned; after
   * a completed pipeline that is every catalog chapter.
   */
  lemma ReadChaptersAreLinked(db: Db, files: map<string, string>, book: CatalogBook, now: Time)
    requires Valid(db)
    ensures var id := UpsertBook(db, book, now).id;
            var first := ImportBook(db, files, book, now);
            forall i :: 0 <= i < ReadCount(files, book.chapters) ==> Linked(first.db, id, book.chapters[i].name)
  {
    var sn := book.sourceName;
    var up := UpsertBook(db, book, now);
    var id := up.id;
    var first := ImportBook(db, files, book, now);
    var prefix := book.chapters[..ReadCount(files, book.chapters)];
    ImportChaptersStopsAtFailure(up.db, id, files, sn, book.chapters, now);
    var r := ImportChapters(up.db, id, files, sn, prefix, now);
    assert first.db == r.db;
    ImportChaptersLinksInOrder(up.db, id, files, sn, prefix, now);
    var xs := up.db.books[id].chapters;
    var ids := FoundIds(r.db, prefix);
    AddAllToSetExtends(xs, ids);
    forall i | 0 <= i < |prefix| ensures Linked(first.db, id, book.chapters[i].name) {
      assert prefix[i] == book.chapters[i];
      assert Some(ids[i]) == FindChapter(r.db, prefix[i].name);
      assert ids[i] in ids;
    }
  }

  /** Refreshing a book's metadata keeps every chapter link of it. */
  lemma UpsertBookKeepsLinks(db: Db, book: CatalogBook, now: Time, name: string)
    requires Valid(db)
    requires FindBook(db, book.sourceName).Some?
    requires Linked(db, FindBook(db, book.sourceName).value, name)
    ensures Linked(UpsertBook(db, book, now).db, FindBook(db, book.sourceName).value, name)
  {
  }

  /**
   * The write the loop over `chapters` leaves in topic `t` of its final
   * store `db`: that of the last catalog chapter whose name resolves to a
   * chapter whose first topic is `t`.
   */
  function LastWrite(db: Db, files: map<string, string>, sourceName: string, chapters: seq<CatalogChapter>, t: Id): Option<Write>
    requires AllReadable(files, chapters)
    decreases |chapters|
  {
    if |chapters| == 0 then None
    else
      var later := LastWrite(db, files, sourceName, chapters[1..], t);
      if later.Some? then later
      else StepWrite(db, chapters[0].name, ImageUrls.Rewrite(files[chapters[0].path], sourceName), t)
  }

  /** Every topic of `final` holds the last write the loop over `chapters` made to it, or is as in `start`. */
  predicate WritesSettled(start: Db, final: Db, files: map<string, string>, sourceName: string,
                          chapters: seq<CatalogChapter>, now: Time) {
    && AllReadable(files, chapters)
    && forall t :: t in final.topics ==> TopicSettled(start, final, t, LastWrite(final, files, sourceName, chapters, t), now)
  }

  /** Every catalog name resolves, in both stores, to chapters with the same first topic. */
  predicate SameFirstTopics(db: Db, db': Db, chapters: seq<CatalogChapter>) {
    forall i :: 0 <= i < |chapters| ==> FirstTopic(db', chapters[i].name) == FirstTopic(db, chapters[i].name)
  }

  /** Dropping the first catalog chapter keeps every path readable. */
  lemma AllReadableTail(files: map<string, string>, chapters: seq<CatalogChapter>)
    requires AllReadable(files, chapters) && |chapters| > 0
    ensures AllReadable(files, chapters[1..])
  {
    forall i | 0 <= i < |chapters[1..]| ensures chapters[1..][i].path in files {
      assert chapters[1..][i] == chapters[i + 1];
    }
  }

  /** A chapter name that resolved keeps resolving to a chapter with the same first topic. */
  lemma FirstTopicStable(db: Db, db': Db, name: string)
    requires Valid(db) && ChaptersKept(db, db')
    requires FindChapter(db, name).Some?
    ensures FirstTopic(db', name) == FirstTopic(db, name)
  {
    FindChapterStable(db, db', name);
    var c := FindChapter(db, name).value;
    assert db'.chapters[c].topics == db.chapters[c].topics;
  }

  /**
   * After a loop whose every file can be read, each topic holds the last
   * write the loop made to it, stamped `now`; a topic the loop never wrote
   * to is as it was before, and every topic the loop inserted was written.
   */
  lemma {:induction false} ImportChaptersWrites(db: Db, bookId: Id, files: map<string, string>,
                                                sourceName: string, chapters: seq<CatalogChapter>, now: Time)
    requires Valid(db) && AllReadable(files, chapters)
    ensures WritesSettled(db, ImportChapters(db, bookId, files, sourceName, chapters, now).db, files, sourceName, chapters, now)
    decreases |chapters|
  {
    if |chapters| > 0 {
      var ch := chapters[0];
      var content := ImageUrls.Rewrite(files[ch.path], sourceName);
      var step := ImportChapter(db, bookId, files[ch.path], sourceName, ch.name, now);
      AllReadableTail(files, chapters);
      var r := ImportChapters(step.db, bookId, files, sourceName, chapters[1..], now);
      assert ImportChapters(db, bookId, files, sourceName, chapters, now).db == r.db;
      ImportChaptersWrites(step.db, bookId, files, sourceName, chapters[1..], now);
      assert WritesSettled(step.db, r.db, files, sourceName, chapters[1..], now);
      ImportChaptersFrame(step.db, bookId, files, sourceName, chapters[1..], now);
      FirstTopicStable(step.db, r.db, ch.name);
      forall t | t in r.db.topics
        ensures TopicSettled(db, r.db, t, LastWrite(r.db, files, sourceName, chapters, t), now)
      {
        if LastWrite(r.db, files, sourceName, chapters[1..], t).None? {
          assert t in step.db.topics && r.db.topics[t] == step.db.topics[t];
          assert TopicSettled(db, step.db, t, StepWrite(step.db, ch.name, content, t), now);
        }
      }
    }
  }

  /** The last writes depend on the store only through the first topics the catalog names resolve to. */
  lemma {:induction false} LastWriteAgrees(db: Db, db': Db, files: map<string, string>, sourceName: string,
                                           chapters: seq<CatalogChapter>, t: Id)
    requires AllReadable(files, chapters)
    requires SameFirstTopics(db, db', chapters)
    ensures LastWrite(db', files, sourceName, chapters, t) == LastWrite(db, files, sourceName, chapters, t)
    decreases |chapters|
  {
    if |chapters| > 0 {
      AllReadableTail(files, chapters);
      assert SameFirstTopics(db, db', chapters[1..]) by {
        forall i | 0 <= i < |chapters[1..]|
          ensures FirstTopic(db', chapters[1..][i].name) == FirstTopic(db, chapters[1..][i].name)
        {
          assert chapters[1..][i] == chapters[i + 1];
        }
      }
      LastWriteAgrees(db, db', files, sourceName, chapters[1..], t);
      assert FirstTopic(db', chapters[0].name) == FirstTopic(db, chapters[0].name);
    }
  }

  /**
   * The second run's book upsert finds the book the first run returned,
   * its chapter loop ends as the first run's did, inserts nothing and
   * changes no book.
   */
  lemma ReimportSecondLoop(db: Db, files: map<string, string>, book: CatalogBook, now: Time, later: Time)
    requires Valid(db)
    ensures var id := UpsertBook(db, book, now).id;
            var first := ImportBook(db, files, book, now);
            var up2 := UpsertBook(first.db, book, later);
            var second := ImportBook(first.db, files, book, later);
            && up2.id == id
            && second == ImportChapters(up2.db, id, files, book.sourceName, book.chapters, later)
            && second.outcome == first.outcome
            && second.db.books == up2.db.books
            && second.db.chapters.Keys == first.db.chapters.Keys
            && second.db.topics.Keys == first.db.topics.Keys
            && second.db.nextId == first.db.nextId
            && FindBook(second.db, book.sourceName) == FindBook(first.db, book.sourceName)
  {
    var sn := book.sourceName;
    var id := UpsertBook(db, book, now).id;
    var first := ImportBook(db, files, book, now);
    var prefix := book.chapters[..ReadCount(files, book.chapters)];
    ImportBookKeepsKeyUnique(db, files, book, now);
    ReadChaptersAreLinked(db, files, book, now);
    var up2 := UpsertBook(first.db, book, later);
    forall i | 0 <= i < |prefix| ensures Linked(up2.db, id, prefix[i].name) {
      assert prefix[i] == book.chapters[i];
      UpsertBookKeepsLinks(first.db, book, later, book.chapters[i].name);
    }
    ImportChaptersWhenLinked(up2.db, id, files, sn, prefix, later);
    ImportChaptersStopsAtFailure(up2.db, id, files, sn, book.chapters, later);
    var second := ImportChapters(up2.db, id, files, sn, book.chapters, later);
    assert second == ImportBook(first.db, files, book, later);
    assert second.db.books == up2.db.books;
    assert FindBook(second.db, sn) == FindBook(up2.db, sn);
  }

  /** Whatever its outcome, the first run leaves a book that carries the catalog's metadata. */
  lemma FirstRunBook(db: Db, files: map<string, string>, book: CatalogBook, now: Time)
    requires Valid(db)
    ensures var id := UpsertBook(db, book, now).id;
            var first := ImportBook(db, files, book, now);
            && id in first.db.books
            && first.db.books[id].name == book.name
            && first.db.books[id].sourceName == book.sourceName
            && first.db.books[id].username == book.author
            && first.db.books[id].generatedTopics == |book.chapters|
            && first.db.books[id].totalTopics == |book.chapters|
  {
    var up := UpsertBook(db, book, now);
    ImportChaptersFrame(up.db, up.id, files, book.sourceName, book.chapters, now);
  }

  /** The second run changes chapters and books only in their `updatedAt`. */
  lemma ReimportBooksAndChapters(db: Db, files: map<string, string>, book: CatalogBook, now: Time, later: Time)
    requires Valid(db)
    ensures var first := ImportBook(db, files, book, now);
            var second := ImportBook(first.db, files, book, later);
            && BooksSameButUpdatedAt(first.db, second.db)
            && ChaptersSameButUpdatedAt(first.db, second.db)
  {
    var id := UpsertBook(db, book, now).id;
    var first := ImportBook(db, files, book, now);
    var up2 := UpsertBook(first.db, book, later);
    ReimportSecondLoop(db, files, book, now, later);
    FirstRunBook(db, files, book, now);
    ImportChaptersFrame(up2.db, id, files, book.sourceName, book.chapters, later);
  }

  /**
   * Names that resolve in `first` resolve to chapters with the same first
   * topic in any store that starts from `first`'s chapters and keeps them.
   */
  lemma FirstTopicsAgree(first: Db, start: Db, second: Db, chapters: seq<CatalogChapter>)
    requires Valid(start) && start.chapters == first.chapters && start.nextId == first.nextId
    requires ChaptersKept(start, second)
    requires forall i :: 0 <= i < |chapters| ==> FindChapter(first, chapters[i].name).Some?
    ensures SameFirstTopics(first, second, chapters)
  {
    forall i | 0 <= i < |chapters|
      ensures FirstTopic(second, chapters[i].name) == FirstTopic(first, chapters[i].name)
    {
      assert FindChapter(start, chapters[i].name) == FindChapter(first, chapters[i].name);
      FirstTopicStable(start, second, chapters[i].name);
    }
  }

  /**
   * In the second run every catalog chapter the loop gets through resolves
   * to a chapter with the same first topic as after the first run.
   */
  lemma ReimportFirstTopics(db: Db, files: map<string, string>, book: CatalogBook, now: Time, later: Time)
    requires Valid(db)
    ensures var first := ImportBook(db, files, book, now);
            SameFirstTopics(first.db, ImportBook(first.db, files, book, later).db,
                            book.chapters[..ReadCount(files, book.chapters)])
  {
    var id := UpsertBook(db, book, now).id;
    var first := ImportBook(db, files, book, now);
    var up2 := UpsertBook(first.db, book, later);
    var prefix := book.chapters[..ReadCount(files, book.chapters)];
    ReimportSecondLoop(db, files, book, now, later);
    ReadChaptersAreLinked(db, files, book, now);
    forall i | 0 <= i < |prefix| ensures FindChapter(first.db, prefix[i].name).Some? {
      assert prefix[i] == book.chapters[i];
    }
    ImportChaptersFrame(up2.db, id, files, book.sourceName, book.chapters, later);
    FirstTopicsAgree(first.db, up2.db, ImportBook(first.db, files, book, later).db, prefix);
  }

  /**
   * A topic that two runs leave holding the same write (or, both times,
   * untouched), where the second run starts from the first one's topics,
   * differs between the two at most in `updatedAt`.
   */
  lemma SettledTwice(before1: Db, after1: Db, before2: Db, after2: Db, t: Id, w: Option<Write>, now: Time, later: Time)
    requires before2.topics == after1.topics && TopicsKept(before2, after2)
    requires t in after1.topics && t in after2.topics
    requires TopicSettled(before1, after1, t, w, now) && TopicSettled(before2, after2, t, w, later)
    ensures after2.topics[t].(updatedAt := after1.topics[t].updatedAt) == after1.topics[t]
  {
  }

  /** Two complete runs of the same loop whose names resolve alike leave every topic with the same write. */
  lemma TopicsAgree(start1: Db, first: Db, start2: Db, second: Db, files: map<string, string>, sourceName: string,
                    chapters: seq<CatalogChapter>, now: Time, later: Time)
    requires start2.topics == first.topics && TopicsKept(start2, second)
    requires SameFirstTopics(first, second, chapters)
    requires WritesSettled(start1, first, files, sourceName, chapters, now)
    requires WritesSettled(start2, second, files, sourceName, chapters, later)
    ensures TopicsSameButUpdatedAt(first, second)
  {
    forall t | t in first.topics
      ensures t in second.topics && second.topics[t].(updatedAt := first.topics[t].updatedAt) == first.topics[t]
    {
      LastWriteAgrees(first, second, files, sourceName, chapters, t);
      SettledTwice(start1, first, start2, second, t, LastWrite(first, files, sourceName, chapters, t), now, later);
    }
  }

  /** The second run writes to every topic what the first run wrote, and leaves the other topics alone. */
  lemma ReimportTopics(db: Db, files: map<string, string>, book: CatalogBook, now: Time, later: Time)
    requires Valid(db)
    ensures var first := ImportBook(db, files, book, now);
            TopicsSameButUpdatedAt(first.db, ImportBook(first.db, files, book, later).db)
  {
    var sn := book.sourceName;
    var up1 := UpsertBook(db, book, now);
    var first := ImportBook(db, files, book, now);
    var up2 := UpsertBook(first.db, book, later);
    var second := ImportBook(first.db, files, book, later);
    var prefix := book.chapters[..ReadCount(files, book.chapters)];
    ReimportSecondLoop(db, files, book, now, later);
    ReimportFirstTopics(db, files, book, now, later);
    ImportChaptersStopsAtFailure(up1.db, up1.id, files, sn, book.chapters, now);
    ImportChaptersStopsAtFailure(up2.db, up1.id, files, sn, book.chapters, later);
    var r1 := ImportChapters(up1.db, up1.id, files, sn, prefix, now);
    var r2 := ImportChapters(up2.db, up1.id, files, sn, prefix, later);
    assert r1.db == first.db && r2.db == second.db;
    assert up2.db.topics == first.db.topics;
    ImportChaptersWrites(up1.db, up1.id, files, sn, prefix, now);
    ImportChaptersWrites(up2.db, up1.id, files, sn, prefix, later);
    ImportChaptersFrame(up2.db, up1.id, files, sn, prefix, later);
    TopicsAgree(up1.db, r1.db, up2.db, r2.db, files, sn, prefix, now, later);
  }

  /**
   * Re-running a book's pipeline with the same files, at any later time and
   * whether the first run completed or stopped at a failed read, ends the
   * same way, finds the same book, inserts no book, chapter or topic, and
   * leaves every document as it was except for `updatedAt` stamps; in
   * particular every chapter list, and so its length, is unchanged.
   */
  lemma ReimportBookIsIdempotent(db: Db, files: map<string, string>, book: CatalogBook, now: Time, later: Time)
    requires Valid(db)
    ensures var first := ImportBook(db, files, book, now);
            var second := ImportBook(first.db, files, book, later);
            && second.outcome == first.outcome
            && FindBook(second.db, book.sourceName) == FindBook(first.db, book.sourceName)
            && SameButUpdatedAt(first.db, second.db)
            && (forall id :: id in first.db.books ==> second.db.books[id].chapters == first.db.books[id].chapters)
  {
    ReimportSecondLoop(db, files, book, now, later);
    ReimportBooksAndChapters(db, files, book, now, later);
    ReimportTopics(db, files, book, now, later);
  }
}
