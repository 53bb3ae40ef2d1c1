/** The two collections the controllers and the autosave handler work on,
    the invariants the schemas' indexes and validators maintain, and the
    HTTP outcomes of a controller call. */
module Store {
  import opened Wrappers
  import opened Documents
  import C = ChapterModel
  import N = NovelModel

  datatype Db = Db(novels: map<NovelId, N.Novel>, chapters: map<ChapterId, C.Chapter>)

  /** What the schemas guarantee of every stored document. */
  ghost predicate Consistent(db: Db) {
    && C.NumbersUnique(db.chapters)
    && N.SlugsUnique(db.novels)
    && (forall k :: k in db.chapters ==> C.Valid(db.chapters[k]))
    && (forall k :: k in db.novels ==> N.Valid(db.novels[k]))
  }

  /** The error statuses a controller answers with. */
  datatype HttpError = BadRequest | Unauthorized | Forbidden | NotFound | ServerError {
    function Status(): nat {
      match this
      case BadRequest => 400
      case Unauthorized => 401
      case Forbidden => 403
      case NotFound => 404
      case ServerError => 500
    }
  }

  /** The collections after a call, and its response. */
  datatype Reply<T> = Reply(db: Db, response: Result<T, HttpError>)

  /** `Chapter.findById(id).populate('novel', 'author')`: no chapter, a
      chapter whose novel is gone (populated as `null`), or both. */
  datatype ChapterLookup = NoChapter | NoNovel(chapter: C.Chapter) | Found(chapter: C.Chapter, novel: N.Novel)

  function LookupChapter(db: Db, id: ChapterId): (r: ChapterLookup)
    ensures r.NoChapter? <==> id !in db.chapters
    ensures !r.NoChapter? ==> r.chapter == db.chapters[id]
    ensures r.NoNovel? <==> id in db.chapters && db.chapters[id].novel !in db.novels
    ensures r.Found? ==> r.novel == db.novels[r.chapter.novel]
  {
    if id !in db.chapters then NoChapter
    else
      var c := db.chapters[id];
      if c.novel !in db.novels then NoNovel(c) else Found(c, db.novels[c.novel])
  }

  /** A chapter write that `save()` accepted keeps the store consistent. */
  lemma ChapterSaveKeepsConsistent(db: Db, id: ChapterId, c: C.Chapter, now: int)
    requires Consistent(db)
    requires C.Save(db.chapters, id, c, now).Ok?
    ensures Consistent(db.(chapters := C.Save(db.chapters, id, c, now).value))
  {
  }

  /** A novel write that `save()` accepted keeps the store consistent. */
  lemma NovelSaveKeepsConsistent(db: Db, id: NovelId, n: N.Novel, titleModified: bool, now: int)
    requires Consistent(db)
    requires N.Save(db.novels, id, n, titleModified, now).Ok?
    ensures Consistent(db.(novels := N.Save(db.novels, id, n, titleModified, now).value))
  {
    var novels := N.Save(db.novels, id, n, titleModified, now).value;
    assert N.Valid(novels[id]);
  }
}
