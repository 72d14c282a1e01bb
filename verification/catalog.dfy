/**
 * The two books the migration publishes (superbook-src/publish.js,
 * lines 120-155), kept as example data for the chapter-name key.
 */
module Catalog {
  import opened Store
  import opened Upsert
  import opened Publish
  import ImageUrls

  /** The chapter titles both books list. */
  const PrefaceName := "Preface"
  const AppendixAName := "Appendix A: Exploring Further"

  const GetStarted: CatalogBook := CatalogBook(
    "You Don't Know JS Yet: Get Started - 2nd Edition",
    "get-started",
    "Kyle Simpson",
    [ CatalogChapter("../get-started/foreword.md", "Foreword"),
      CatalogChapter("../preface.md", PrefaceName),
      CatalogChapter("../get-started/ch1.md", "Chapter 1: What Is JavaScript?"),
      CatalogChapter("../get-started/ch2.md", "Chapter 2: Surveying JS"),
      CatalogChapter("../get-started/ch3.md", "Chapter 3: Digging to the Roots of JS"),
      CatalogChapter("../get-started/ch4.md", "Chapter 4: The Bigger Picture"),
      CatalogChapter("../get-started/apA.md", AppendixAName),
      CatalogChapter("../get-started/apB.md", "Appendix B: Practice, Practice, Practice!") ])

  const ScopeClosures: CatalogBook := CatalogBook(
    "You Don't Know JS Yet: Scope & Closures - 2nd Edition",
    "scope-closures",
    "Kyle Simpson",
    [ CatalogChapter("../scope-closures/foreword.md", "Foreword (by Sarah Drasner)"),
      CatalogChapter("../preface.md", PrefaceName),
      CatalogChapter("../scope-closures/ch1.md", "Chapter 1: What's the Scope?"),
      CatalogChapter("../scope-closures/ch2.md", "Chapter 2: Illustrating Lexical Scope"),
      CatalogChapter("../scope-closures/ch3.md", "Chapter 3: The Scope Chain"),
      CatalogChapter("../scope-closures/ch4.md", "Chapter 4: Around the Global Scope"),
      CatalogChapter("../scope-closures/ch5.md", "Chapter 5: The (Not So) Secret Lifecycle of Variables"),
      CatalogChapter("../scope-closures/ch6.md", "Chapter 6: Limiting Scope Exposure"),
      CatalogChapter("../scope-closures/ch7.md", "Chapter 7: Using Closures"),
      CatalogChapter("../scope-closures/ch8.md", "Chapter 8: The Module Pattern"),
      CatalogChapter("../scope-closures/apA.md", AppendixAName),
      CatalogChapter("../scope-closures/apB.md", "Appendix B: Practice") ])

  /** Both books list a "Preface" (positions 1 and 1) and an "Appendix A: Exploring Further" (positions 6 and 10). */
  lemma SharedTitles()
    ensures GetStarted.chapters[1].name == PrefaceName == ScopeClosures.chapters[1].name
    ensures GetStarted.chapters[6].name == AppendixAName == ScopeClosures.chapters[10].name
  {
  }

  /**
   * Because the chapter lookup is not scoped to the book, upserting a title
   * both books list, first for get-started and then for scope-closures,
   * resolves to one chapter document, which ends up linked into both books.
   */
  predicate LinkedIntoBoth(db: Db, getStarted: Id, scopeClosures: Id, name: string, first: string, second: string, now: Time)
    requires Valid(db) && getStarted in db.books && scopeClosures in db.books
  {
    var r1 := UpsertChapter(db, getStarted, name, first, now);
    var r2 := UpsertChapter(r1.db, scopeClosures, name, second, now);
    && r2.id == r1.id
    && r1.id in r2.db.books[getStarted].chapters
    && r1.id in r2.db.books[scopeClosures].chapters
  }

  /** The two shared titles each become one chapter document linked into both books. */
  lemma SharedChapters(db: Db, getStarted: Id, scopeClosures: Id, first: string, second: string, now: Time)
    requires Valid(db) && getStarted in db.books && scopeClosures in db.books
    ensures GetStarted.chapters[1].name == PrefaceName == ScopeClosures.chapters[1].name
    ensures GetStarted.chapters[6].name == AppendixAName == ScopeClosures.chapters[10].name
    ensures LinkedIntoBoth(db, getStarted, scopeClosures, PrefaceName, first, second, now)
    ensures LinkedIntoBoth(db, getStarted, scopeClosures, AppendixAName, first, second, now)
  {
    SharedTitles();
    UpsertChapterTwice(db, getStarted, scopeClosures, PrefaceName, first, second, now, now);
    UpsertChapterTwice(db, getStarted, scopeClosures, AppendixAName, first, second, now, now);
  }

  /** A store with no documents. */
  const EmptyStore: Db := Db(map[], map[], map[], 0)

  /** A get-started book with one chapter whose file holds a relative figure. */
  const OneChapterBook: CatalogBook :=
    CatalogBook(GetStarted.name, "get-started", "Kyle Simpson", [CatalogChapter("ch1.md", "Chapter 1")])

  /** The file contents of that chapter. */
  const Ch1Text: string := ImageUrls.TagText("images/fig1.png") + ">"

  /**
   * Publishing that book into an empty store completes, creates a book with
   * exactly one chapter, and that chapter's topic holds the figure tag
   * re-anchored on the get-started raw folder.
   */
  lemma OneChapterScenario(now: Time)
    ensures var r := ImportBook(EmptyStore, map["ch1.md" := Ch1Text], OneChapterBook, now);
            var b := UpsertBook(EmptyStore, OneChapterBook, now).id;
            && r.outcome.Completed?
            && b in r.db.books
            && |r.db.books[b].chapters| == 1
            && var c := r.db.books[b].chapters[0];
               && c in r.db.chapters
               && |r.db.chapters[c].topics| == 1
               && r.db.chapters[c].topics[0] in r.db.topics
               && r.db.topics[r.db.chapters[c].topics[0]].answer
                  == ImageUrls.TagText(ImageUrls.RawBase + "get-started" + "/" + "images/fig1.png") + ">"
  {
    var files := map["ch1.md" := Ch1Text];
    var up := UpsertBook(EmptyStore, OneChapterBook, now);
    var chapter := OneChapterBook.chapters[0];
    assert chapter.path in files;
    var step := ImportChapter(up.db, up.id, files[chapter.path], "get-started", chapter.name, now);
    assert up.db.chapters == map[];
    assert FindChapter(up.db, chapter.name).None?;
    assert up.db.books[up.id].chapters == [];
    assert step.db.books[up.id].chapters == [step.id];
    assert ImportChapters(step.db, up.id, files, "get-started", OneChapterBook.chapters[1..], now) == Run(step.db, Completed);
    assert ImportBook(EmptyStore, files, OneChapterBook, now) == Run(step.db, Completed);
    ImageUrls.FigureExample();
  }
}
