/** The decision logic of the chapter endpoints: which check answers first,
    what each success writes, and that every refusal writes nothing. */
module ChapterController {
  import opened Wrappers
  import opened JsText
  import opened Documents
  import opened Store
  import C = ChapterModel
  import N = NovelModel

  /** `createChapter`: the novel must exist (404), belong to the caller
      (403), and not already have a chapter with this number (400); then the
      chapter is saved and its id appended to the novel's list. `newId` is the
      identifier the database assigns. */
  function CreateChapter(db: Db, user: UserId, novelId: NovelId, f: C.ChapterFields, newId: ChapterId, now: int)
    : (r: Reply<C.Chapter>)
    requires newId !in db.chapters
    ensures novelId !in db.novels ==> r == Reply(db, Err(NotFound))
    ensures novelId in db.novels && db.novels[novelId].author != user ==> r == Reply(db, Err(Forbidden))
    ensures (novelId in db.novels && db.novels[novelId].author == user && f.chapterNumber.Some?
             && C.NumberTaken(db.chapters, newId, novelId, f.chapterNumber.value)) ==> r == Reply(db, Err(BadRequest))
    ensures r.response.Ok? ==>
              && novelId in db.novels && db.novels[novelId].author == user
              && r.db.chapters == db.chapters[newId := r.response.value]
              && f.title.Some? && f.content.Some? && f.chapterNumber.Some?
              && r.response.value == C.Chapter(novelId, Trim(f.title.value), f.content.value,
                                               f.chapterNumber.value, C.Draft, now, now)
              && novelId in r.db.novels
              && r.db.novels[novelId].chapters == db.novels[novelId].chapters + [newId]
              && (forall k :: k in r.db.novels && k != novelId ==> k in db.novels && r.db.novels[k] == db.novels[k])
  {
    if novelId !in db.novels then Reply(db, Err(NotFound))
    else
      var novel := db.novels[novelId];
      if novel.author != user then Reply(db, Err(Forbidden))
      else if f.chapterNumber.Some? && C.NumberTaken(db.chapters, newId, novelId, f.chapterNumber.value) then
        Reply(db, Err(BadRequest))
      else match C.NewChapter(novelId, f, now)
        case Err(_) => Reply(db, Err(ServerError))
        case Ok(c) =>
          match C.Save(db.chapters, newId, c, now)
          case Err(_) => Reply(db, Err(ServerError))
          case Ok(chapters) =>
            var listed := novel.(chapters := novel.chapters + [newId]);
            match N.Save(db.novels, novelId, listed, false, now)
            case Err(_) => Reply(db.(chapters := chapters), Err(ServerError))
            case Ok(novels) => Reply(Db(novels, chapters), Ok(chapters[newId]))
  }

  /** In a consistent store, an author adding a chapter whose fields pass
      validation and whose number is free always succeeds. */
  lemma CreateChapterSucceeds(db: Db, user: UserId, novelId: NovelId, f: C.ChapterFields, newId: ChapterId, now: int)
    requires newId !in db.chapters && Consistent(db)
    requires novelId in db.novels && db.novels[novelId].author == user
    requires C.NewChapter(novelId, f, now).Ok?
    requires !C.NumberTaken(db.chapters, newId, novelId, f.chapterNumber.value)
    ensures CreateChapter(db, user, novelId, f, newId, now).response.Ok?
  {
    var novel := db.novels[novelId];
    assert N.Valid(novel.(chapters := novel.chapters + [newId]));
  }

  /** `updateChapter`: 404 for a missing chapter before any ownership check,
      403 for a caller who is not the novel's author, then the partial
      update is saved. */
  function UpdateChapter(db: Db, user: UserId, id: ChapterId, f: C.ChapterFields, now: int): (r: Reply<C.Chapter>)
    ensures id !in db.chapters ==> r == Reply(db, Err(NotFound))
    ensures r.response.Err? ==> r.db == db
    ensures (id in db.chapters && db.chapters[id].novel in db.novels
             && db.novels[db.chapters[id].novel].author != user) ==> r.response == Err(Forbidden)
    ensures r.response.Ok? ==>
              var before := db.chapters[id];
              var c := r.response.value;
              && id in db.chapters && before.novel in db.novels && db.novels[before.novel].author == user
              && r.db.novels == db.novels
              && r.db.chapters == db.chapters[id := c]
              && c.novel == before.novel && c.status == before.status && c.updatedAt == now
              && c.title == (if Truthy(f.title) then Trim(f.title.value) else before.title)
              && c.content == (if Truthy(f.content) then f.content.value else before.content)
              && c.chapterNumber == (if TruthyNumber(f.chapterNumber) then f.chapterNumber.value else before.chapterNumber)
    ensures id in db.chapters && db.chapters[id].novel in db.novels && db.novels[db.chapters[id].novel].author == user ==>
              var merged := C.Merge(db.chapters[id], f);
              (r.response.Ok? <==> C.Valid(merged) && !C.NumberTaken(db.chapters, id, merged.novel, merged.chapterNumber))
  {
    match LookupChapter(db, id)
    case NoChapter => Reply(db, Err(NotFound))
    case NoNovel(_) => Reply(db, Err(ServerError))
    case Found(c, novel) =>
      if novel.author != user then Reply(db, Err(Forbidden))
      else match C.Save(db.chapters, id, C.Merge(c, f), now)
        case Err(_) => Reply(db, Err(ServerError))
        case Ok(chapters) => Reply(db.(chapters := chapters), Ok(chapters[id]))
  }

  /** `publishChapter`: the same 404-then-403 order; on success only the
      status changes, to published (and the save stamps `updatedAt`). */
  function PublishChapter(db: Db, user: UserId, id: ChapterId, now: int): (r: Reply<C.Chapter>)
    ensures id !in db.chapters ==> r == Reply(db, Err(NotFound))
    ensures r.response.Err? ==> r.db == db
    ensures (id in db.chapters && db.chapters[id].novel in db.novels
             && db.novels[db.chapters[id].novel].author != user) ==> r.response == Err(Forbidden)
    ensures r.response.Ok? ==>
              && id in db.chapters && r.db.novels == db.novels
              && r.db.chapters == db.chapters[id := r.response.value]
              && r.response.value == db.chapters[id].(status := C.Published, updatedAt := now)
  {
    match LookupChapter(db, id)
    case NoChapter => Reply(db, Err(NotFound))
    case NoNovel(_) => Reply(db, Err(ServerError))
    case Found(c, novel) =>
      if novel.author != user then Reply(db, Err(Forbidden))
      else match C.Save(db.chapters, id, c.(status := C.Published), now)
        case Err(_) => Reply(db, Err(ServerError))
        case Ok(chapters) => Reply(db.(chapters := chapters), Ok(chapters[id]))
  }

  /** In a consistent store the author can always publish a chapter. */
  lemma PublishSucceeds(db: Db, user: UserId, id: ChapterId, now: int)
    requires Consistent(db)
    requires id in db.chapters && db.chapters[id].novel in db.novels
    requires db.novels[db.chapters[id].novel].author == user
    ensures PublishChapter(db, user, id, now).response.Ok?
  {
    var c := db.chapters[id];
    assert !C.NumberTaken(db.chapters, id, c.novel, c.chapterNumber);
  }

  /** `deleteChapter`: a caller who is not the author gets 401 (not 403);
      on success every occurrence of the id leaves the novel's list and the
      chapter leaves the collection. */
  function DeleteChapter(db: Db, user: UserId, id: ChapterId, now: int): (r: Reply<()>)
    ensures id !in db.chapters ==> r == Reply(db, Err(NotFound))
    ensures r.response.Err? ==> r.db == db
    ensures (id in db.chapters && db.chapters[id].novel in db.novels
             && db.novels[db.chapters[id].novel].author != user) ==> r.response == Err(Unauthorized)
    ensures r.response.Ok? ==>
              var novelId := db.chapters[id].novel;
              && id in db.chapters && novelId in db.novels && db.novels[novelId].author == user
              && r.db.chapters == db.chapters - {id}
              && novelId in r.db.novels
              && r.db.novels[novelId].chapters == Without(db.novels[novelId].chapters, id)
              && (forall k :: k in r.db.novels && k != novelId ==> k in db.novels && r.db.novels[k] == db.novels[k])
    ensures (id in db.chapters && db.chapters[id].novel in db.novels
             && db.novels[db.chapters[id].novel].author == user
             && N.Valid(db.novels[db.chapters[id].novel]) && N.SlugsUnique(db.novels)) ==> r.response.Ok?
  {
    match LookupChapter(db, id)
    case NoChapter => Reply(db, Err(NotFound))
    case NoNovel(_) => Reply(db, Err(ServerError))
    case Found(c, novel) =>
      if novel.author != user then Reply(db, Err(Unauthorized))
      else
        var unlisted := novel.(chapters := Without(novel.chapters, id));
        match N.Save(db.novels, c.novel, unlisted, false, now)
        case Err(_) => Reply(db, Err(ServerError))
        case Ok(novels) => Reply(Db(novels, db.chapters - {id}), Ok(()))
  }

  /** Every outcome of `createChapter`, successful or not, leaves a
      consistent store consistent: the `(novel, chapterNumber)` index still
      holds and every document still passes validation. */
  lemma CreateChapterKeepsConsistent(db: Db, user: UserId, novelId: NovelId, f: C.ChapterFields, newId: ChapterId, now: int)
    requires newId !in db.chapters && Consistent(db)
    ensures Consistent(CreateChapter(db, user, novelId, f, newId, now).db)
  {
    var r := CreateChapter(db, user, novelId, f, newId, now);
    if r.db != db {
      var c := C.NewChapter(novelId, f, now).value;
      assert C.Save(db.chapters, newId, c, now).Ok?;
      ChapterSaveKeepsConsistent(db, newId, c, now);
      var db1 := db.(chapters := C.Save(db.chapters, newId, c, now).value);
      var novel := db.novels[novelId];
      var listed := novel.(chapters := novel.chapters + [newId]);
      if N.Save(db.novels, novelId, listed, false, now).Ok? {
        assert r.db == db1.(novels := N.Save(db.novels, novelId, listed, false, now).value);
        NovelSaveKeepsConsistent(db1, novelId, listed, false, now);
      } else {
        assert r.db == db1;
      }
    }
  }

  lemma UpdateChapterKeepsConsistent(db: Db, user: UserId, id: ChapterId, f: C.ChapterFields, now: int)
    requires Consistent(db)
    ensures Consistent(UpdateChapter(db, user, id, f, now).db)
  {
    var r := UpdateChapter(db, user, id, f, now);
    if r.db != db {
      var c := C.Merge(db.chapters[id], f);
      assert C.Save(db.chapters, id, c, now).Ok?;
      assert r.db == db.(chapters := C.Save(db.chapters, id, c, now).value);
      ChapterSaveKeepsConsistent(db, id, c, now);
    }
  }

  lemma PublishChapterKeepsConsistent(db: Db, user: UserId, id: ChapterId, now: int)
    requires Consistent(db)
    ensures Consistent(PublishChapter(db, user, id, now).db)
  {
    var r := PublishChapter(db, user, id, now);
    if r.db != db {
      var c := db.chapters[id].(status := C.Published);
      assert C.Save(db.chapters, id, c, now).Ok?;
      assert r.db == db.(chapters := C.Save(db.chapters, id, c, now).value);
      ChapterSaveKeepsConsistent(db, id, c, now);
    }
  }

  lemma DeleteChapterKeepsConsistent(db: Db, user: UserId, id: ChapterId, now: int)
    requires Consistent(db)
    ensures Consistent(DeleteChapter(db, user, id, now).db)
  {
    var r := DeleteChapter(db, user, id, now);
    if r.db != db {
      var novelId := db.chapters[id].novel;
      var novel := db.novels[novelId];
      var unlisted := novel.(chapters := Without(novel.chapters, id));
      assert N.Save(db.novels, novelId, unlisted, false, now).Ok?;
      var novels := N.Save(db.novels, novelId, unlisted, false, now).value;
      assert r.db == Db(novels, db.chapters - {id});
      NovelSaveKeepsConsistent(db, novelId, unlisted, false, now);
    }
  }
}
