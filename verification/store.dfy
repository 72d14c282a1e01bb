/**
 * The three document collections the migration writes (`books`, `chapters`,
 * `topics`), the catalog entries it reads, and the two driver primitives
 * whose semantics the upserts rely on: `findOne` and `$addToSet`
 * (superbook-src/publish.js).
 *
 * A collection is a map from document id to record. `new ObjectId()` and
 * the id `insertOne` generates are modelled by a counter: every id in use is
 * below `nextId`, and a new document takes `nextId`. Ids therefore grow with
 * insertion order, which is the natural order `findOne` returns the first
 * match in.
 */
module Store {
  import opened Wrappers

  type Id = nat

  /** The single `new Date()` taken when the job starts; the model only copies it into documents. */
  type Time = int

  datatype Book = Book(
    name: string,
    sourceName: string,
    username: string,
    status: string,
    interests: seq<string>,
    chapters: seq<Id>,
    level: int,
    size: int,
    generatedTopics: nat,
    totalTopics: nat,
    createdAt: Time,
    updatedAt: Time)

  datatype Chapter = Chapter(
    name: string,
    topics: seq<Id>,
    createdAt: Time,
    updatedAt: Time)

  datatype Topic = Topic(
    name: string,
    subtopics: seq<Id>,
    chapterId: Id,
    bookId: Id,
    answer: string,
    createdAt: Time,
    updatedAt: Time)

  datatype Db = Db(
    books: map<Id, Book>,
    chapters: map<Id, Chapter>,
    topics: map<Id, Topic>,
    nextId: Id)

  /** One `{ path, name }` entry of a catalog book. */
  datatype CatalogChapter = CatalogChapter(path: string, name: string)

  /** One catalog book (the `bookSchema` the upserts receive). */
  datatype CatalogBook = CatalogBook(
    name: string,
    sourceName: string,
    author: string,
    chapters: seq<CatalogChapter>)

  /** Every book of `db` is in `db'` with the same fields except possibly `updatedAt`. */
  predicate BooksSameButUpdatedAt(db: Db, db': Db) {
    forall id :: id in db.books ==> id in db'.books && db'.books[id].(updatedAt := db.books[id].updatedAt) == db.books[id]
  }

  /** Every chapter of `db` is in `db'` with the same fields except possibly `updatedAt`. */
  predicate ChaptersSameButUpdatedAt(db: Db, db': Db) {
    forall id :: id in db.chapters ==>
      id in db'.chapters && db'.chapters[id].(updatedAt := db.chapters[id].updatedAt) == db.chapters[id]
  }

  /** Every topic of `db` is in `db'` with the same fields except possibly `updatedAt`. */
  predicate TopicsSameButUpdatedAt(db: Db, db': Db) {
    forall id :: id in db.topics ==>
      id in db'.topics && db'.topics[id].(updatedAt := db.topics[id].updatedAt) == db.topics[id]
  }

  /** Two stores hold the same documents, field for field, except for their `updatedAt` stamps. */
  predicate SameButUpdatedAt(db: Db, db': Db) {
    && db'.books.Keys == db.books.Keys
    && db'.chapters.Keys == db.chapters.Keys
    && db'.topics.Keys == db.topics.Keys
    && db'.nextId == db.nextId
    && BooksSameButUpdatedAt(db, db')
    && ChaptersSameButUpdatedAt(db, db')
    && TopicsSameButUpdatedAt(db, db')
  }

  /** Every id in use in any collection was handed out before `nextId`. */
  predicate Valid(db: Db) {
    && (forall id :: id in db.books ==> id < db.nextId)
    && (forall id :: id in db.chapters ==> id < db.nextId)
    && (forall id :: id in db.topics ==> id < db.nextId)
  }

  /**
   * `findOne`: the first document, in insertion (= id) order, among the ids
   * `from .. bound - 1`, that satisfies `matches`.
   */
  function FindFirst<V>(m: map<Id, V>, matches: V -> bool, from: nat, bound: nat): (r: Option<Id>)
    ensures r.Some? ==> from <= r.value < bound && r.value in m && matches(m[r.value])
    ensures forall id :: from <= id < bound && id in m && matches(m[id]) ==> r.Some? && r.value <= id
    decreases bound - from
  {
    if bound <= from then None
    else if from in m && matches(m[from]) then Some(from)
    else FindFirst(m, matches, from + 1, bound)
  }

  /**
   * The first match stays the first match when existing documents keep
   * whether they match and every new document gets a later id.
   */
  lemma FindFirstStable<V>(m: map<Id, V>, m': map<Id, V>, matches: V -> bool, bound: nat, bound': nat)
    requires FindFirst(m, matches, 0, bound).Some?
    requires bound <= bound'
    requires forall id :: id in m ==> id in m' && matches(m'[id]) == matches(m[id])
    requires forall id :: id in m' && id !in m ==> bound <= id
    ensures FindFirst(m', matches, 0, bound') == FindFirst(m, matches, 0, bound)
  {
    var x := FindFirst(m, matches, 0, bound).value;
    var r := FindFirst(m', matches, 0, bound');
    assert r.Some? && r.value <= x;
    assert r.value in m;
  }

  /** When the search finds nothing, a given document below the bound does not match. */
  lemma FindFirstNone<V>(m: map<Id, V>, matches: V -> bool, bound: nat, id: Id)
    requires FindFirst(m, matches, 0, bound).None?
    requires id in m && id < bound
    ensures !matches(m[id])
  {
  }

  /** When the search finds nothing, no document below the bound matches. */
  lemma FindFirstNoneAll<V>(m: map<Id, V>, matches: V -> bool, bound: nat)
    ensures FindFirst(m, matches, 0, bound).None? ==> forall id :: id in m && id < bound ==> !matches(m[id])
  {
    if FindFirst(m, matches, 0, bound).None? {
      forall id | id in m && id < bound ensures !matches(m[id]) {
        FindFirstNone(m, matches, bound, id);
      }
    }
  }

  /** A matching document with no earlier match is the one the search finds. */
  lemma FindFirstIs<V>(m: map<Id, V>, matches: V -> bool, bound: nat, x: Id)
    requires x in m && x < bound && matches(m[x])
    requires forall id :: id in m && id < x ==> !matches(m[id])
    ensures FindFirst(m, matches, 0, bound) == Some(x)
  {
    var r := FindFirst(m, matches, 0, bound);
    assert r.Some? && r.value <= x;
  }

  /** No id occurs twice. */
  predicate NoDuplicates(xs: seq<Id>) {
    forall i, j :: 0 <= i < j < |xs| ==> xs[i] != xs[j]
  }

  /** `$addToSet` on an array field: append `x` unless it is already there. */
  function AddToSet(xs: seq<Id>, x: Id): (r: seq<Id>)
    ensures xs <= r
    ensures forall y :: y in r <==> y in xs || y == x
    ensures |r| == if x in xs then |xs| else |xs| + 1
    ensures NoDuplicates(xs) ==> NoDuplicates(r)
  {
    if x in xs then xs else xs + [x]
  }

  /** Adding the same element twice is the same as adding it once. */
  lemma AddToSetIdempotent(xs: seq<Id>, x: Id)
    ensures AddToSet(AddToSet(xs, x), x) == AddToSet(xs, x)
  {
  }

  /** Adding an element twice leaves exactly one copy of it. */
  lemma AddToSetTwiceOneCopy(xs: seq<Id>, x: Id)
    requires x !in xs
    ensures var r := AddToSet(AddToSet(xs, x), x);
            |r| == |xs| + 1 && r[|xs|] == x && forall i :: 0 <= i < |xs| ==> r[i] != x
  {
  }
}
