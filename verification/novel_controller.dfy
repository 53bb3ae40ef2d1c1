/** The novel endpoints: the page arithmetic of `getAllNovels` and the
    ownership checks and partial update of `createNovel`, `updateNovel` and
    `deleteNovel`. */
module NovelController {
  import opened Wrappers
  import opened JsText
  import opened Documents
  import opened Store
  import C = ChapterModel
  import N = NovelModel

  const DefaultPage: int := 1
  const DefaultLimit: int := 10

  // ---------------------------------------------------------------------
  // getAllNovels
  // ---------------------------------------------------------------------

  /** `parseInt(x) || default`: a missing, unparsable (`NaN`) or zero value
      takes the default; any other value, negative ones included, is kept. */
  function ParamOr(parsed: Option<int>, default: int): (r: int)
    ensures parsed.None? || parsed.value == 0 ==> r == default
    ensures parsed.Some? && parsed.value != 0 ==> r == parsed.value
    ensures default != 0 ==> r != 0
  {
    if TruthyNumber(parsed) then parsed.value else default
  }

  /** `Math.ceil(total / limit)` for the non-zero limits the handler can
      hold. */
  function TotalPages(total: nat, limit: int): (r: int)
    requires limit != 0
    ensures limit > 0 ==> (total == 0 <==> r == 0)
    ensures limit > 0 && total > 0 ==> r >= 1 && (r - 1) * limit < total <= r * limit
    ensures limit < 0 ==> r <= 0 && r * limit <= total < (r - 1) * limit
  {
    if limit > 0 then CeilDiv(total, limit) else -(total / -limit)
  }

  function CeilDiv(total: nat, limit: nat): (r: nat)
    requires limit > 0
    ensures total == 0 <==> r == 0
    ensures total > 0 ==> (r - 1) * limit < total <= r * limit
  {
    var q := (total + limit - 1) / limit;
    assert q * limit <= total + limit - 1 < q * limit + limit;
    q
  }

  /** The `pagination` block of the response. */
  datatype Pagination = Pagination(total: nat, totalPages: int, currentPage: int, limit: int)

  /** The page of novels and the pagination block. */
  datatype Listing<T> = Listing(novels: seq<T>, pagination: Pagination)

  /** The number of documents `.skip(skip).limit(limit)` passes over. */
  function Skip(page: int, limit: int): int {
    (page - 1) * limit
  }

  /** The documents `.skip(skip).limit(limit)` returns from the sorted
      collection; a negative limit returns at most its magnitude. */
  function Window<T>(sorted: seq<T>, skip: nat, limit: int): (r: seq<T>)
    ensures |r| <= (if limit < 0 then -limit else limit)
    ensures skip >= |sorted| ==> r == []
    ensures forall k :: 0 <= k < |r| ==> skip + k < |sorted| && r[k] == sorted[skip + k]
    ensures skip < |sorted| ==>
              var n := if limit < 0 then -limit else limit;
              |r| == (if skip + n <= |sorted| then n else |sorted| - skip)
  {
    var n := if limit < 0 then -limit else limit;
    if skip >= |sorted| then [] else if skip + n <= |sorted| then sorted[skip..skip + n] else sorted[skip..]
  }

  /** `getAllNovels` over the collection already sorted by creation time,
      newest first. A negative skip is rejected by the database: 500. */
  function GetAllNovels<T>(sorted: seq<T>, pageParam: Option<int>, limitParam: Option<int>): (r: Result<Listing<T>, HttpError>)
    ensures var page := ParamOr(pageParam, DefaultPage);
            var limit := ParamOr(limitParam, DefaultLimit);
            var skip := (page - 1) * limit;
            && (r.Err? <==> skip < 0)
            && (r.Err? ==> r.error == ServerError)
            && (r.Ok? ==>
                  && r.value.pagination.total == |sorted|
                  && r.value.pagination.currentPage == page
                  && r.value.pagination.limit == limit
                  && r.value.pagination.totalPages == TotalPages(|sorted|, limit)
                  && r.value.novels == Window(sorted, skip, limit))
  {
    var page := ParamOr(pageParam, DefaultPage);
    var limit := ParamOr(limitParam, DefaultLimit);
    var skip := Skip(page, limit);
    if skip < 0 then Err(ServerError)
    else Ok(Listing(Window(sorted, skip, limit), Pagination(|sorted|, TotalPages(|sorted|, limit), page, limit)))
  }

  /** With a positive limit, the pages 1 to `totalPages` cover the sorted
      collection exactly: the novel at position `k` is entry `k % limit` of
      page `k / limit + 1`, and every later page is empty. */
  lemma {:induction false} PagesCoverCollection<T>(sorted: seq<T>, limit: int, k: nat)
    requires limit > 0 && k < |sorted|
    ensures var page := k / limit + 1;
            var w := Window(sorted, (page - 1) * limit, limit);
            && 1 <= page <= TotalPages(|sorted|, limit)
            && k % limit < |w| && w[k % limit] == sorted[k]
  {
    var page := k / limit + 1;
    var tp := TotalPages(|sorted|, limit);
    assert (page - 1) * limit + k % limit == k;
    assert (page - 1) * limit <= k;
    if page > tp {
      assert tp <= page - 1;
      MulMonotone(tp, page - 1, limit);
      assert false;
    }
    var w := Window(sorted, (page - 1) * limit, limit);
    if (page - 1) * limit + limit > |sorted| {
      assert |w| == |sorted| - (page - 1) * limit;
    }
  }

  lemma PagesPastTheEndAreEmpty<T>(sorted: seq<T>, limit: int, page: int)
    requires limit > 0 && page > TotalPages(|sorted|, limit)
    ensures Window(sorted, (page - 1) * limit, limit) == []
  {
    var tp := TotalPages(|sorted|, limit);
    MulMonotone(tp, page - 1, limit);
  }

  lemma MulMonotone(a: int, b: int, c: int)
    requires a <= b && c > 0
    ensures a * c <= b * c
  {
  }

  // ---------------------------------------------------------------------
  // createNovel, updateNovel, deleteNovel
  // ---------------------------------------------------------------------

  /** `createNovel`: the author is the authenticated user, whatever the
      body says; the new document is validated and gets its slug on save.
      `newId` is the identifier the database assigns. */
  function CreateNovel(db: Db, user: UserId, f: N.NovelFields, newId: NovelId, now: int): (r: Reply<N.Novel>)
    requires newId !in db.novels
    ensures r.response.Err? ==> r.db == db && r.response.error == ServerError
    ensures r.response.Ok? ==>
              && r.response.value.author == user
              && r.db.chapters == db.chapters
              && r.db.novels == db.novels[newId := r.response.value]
              && r.response.value.slug.Some?
              && (forall k :: k in db.novels ==> db.novels[k].slug != r.response.value.slug)
    ensures r.response.Ok? ==>
              var n := r.response.value;
              && n.title == Trim(f.title.GetOr("")) && n.description == f.description.GetOr("")
              && n.coverImage == (if f.coverImage.Some? then f.coverImage.value else N.DefaultCoverImage)
              && n.tags == (if f.tags.Some? then N.TrimTags(f.tags.value) else [])
              && n.chapters == [] && n.createdAt == now && n.updatedAt == now
              && n.slug == Some(N.ChooseSlug(N.GenerateSlug(n.title), N.TakenSlugs(db.novels, newId)))
    ensures !N.Valid(N.NewNovel(user, f, now)) ==> r.response.Err?
    ensures N.Valid(N.NewNovel(user, f, now)) && N.SlugsUnique(db.novels) ==> r.response.Ok?
  {
    var n := N.NewNovel(user, f, now);
    var saved := N.Save(db.novels, newId, n, true, now);
    if saved.Err? then Reply(db, Err(ServerError))
    else
      var novels := saved.value;
      assert N.NeedsSlug(n, true);
      assert !N.SlugHeld(db.novels, newId, novels[newId].slug);
      Reply(db.(novels := novels), Ok(novels[newId]))
  }

  /** `title || old`, `description || old`, `coverImage || old` and
      `tags || old` (an empty tag list is truthy and replaces). */
  function MergeNovel(n: N.Novel, f: N.NovelFields): (r: N.Novel)
    ensures r.title == (if Truthy(f.title) then Trim(f.title.value) else n.title)
    ensures r.description == OrElse(f.description, n.description)
    ensures r.coverImage == OrElse(f.coverImage, n.coverImage)
    ensures r.tags == (if f.tags.Some? then N.TrimTags(f.tags.value) else n.tags)
    ensures r.(title := n.title, description := n.description, coverImage := n.coverImage, tags := n.tags) == n
  {
    n.(title := if Truthy(f.title) then Trim(f.title.value) else n.title,
       description := OrElse(f.description, n.description),
       coverImage := OrElse(f.coverImage, n.coverImage),
       tags := if f.tags.Some? then N.TrimTags(f.tags.value) else n.tags)
  }

  /** `updateNovel`: 404 before 403, then the merge; the title counts as
      modified only when its value changed, and only then is the slug
      recomputed. */
  function UpdateNovel(db: Db, user: UserId, id: NovelId, f: N.NovelFields, now: int): (r: Reply<N.Novel>)
    ensures id !in db.novels ==> r == Reply(db, Err(NotFound))
    ensures id in db.novels && db.novels[id].author != user ==> r == Reply(db, Err(Forbidden))
    ensures r.response.Err? ==> r.db == db
    ensures r.response.Ok? ==>
              var before := db.novels[id];
              var after := r.response.value;
              && id in db.novels && before.author == user
              && r.db.chapters == db.chapters
              && r.db.novels == db.novels[id := after]
              && after.(slug := before.slug, updatedAt := before.updatedAt) == MergeNovel(before, f)
              && after.updatedAt == now
              && (after.title == before.title && before.slug.Some? && before.slug.value != "" ==> after.slug == before.slug)
              && (after.title != before.title || N.NeedsSlug(before, false) ==>
                    after.slug == Some(N.ChooseSlug(N.GenerateSlug(after.title), N.TakenSlugs(db.novels, id))))
    ensures id in db.novels && db.novels[id].author == user && !N.Valid(MergeNovel(db.novels[id], f)) ==> r == Reply(db, Err(ServerError))
    ensures (id in db.novels && db.novels[id].author == user
             && N.Valid(MergeNovel(db.novels[id], f)) && N.SlugsUnique(db.novels)) ==> r.response.Ok?
  {
    if id !in db.novels then Reply(db, Err(NotFound))
    else
      var n := db.novels[id];
      if n.author != user then Reply(db, Err(Forbidden))
      else
        var merged := MergeNovel(n, f);
        match N.Save(db.novels, id, merged, merged.title != n.title, now)
        case Err(_) => Reply(db, Err(ServerError))
        case Ok(novels) => Reply(db.(novels := novels), Ok(novels[id]))
  }

  /** `deleteNovel`: 401 (not 403) for a caller who is not the author; on
      success every chapter of the novel goes, then the novel. */
  function DeleteNovel(db: Db, user: UserId, id: NovelId): (r: Reply<()>)
    ensures id !in db.novels ==> r == Reply(db, Err(NotFound))
    ensures id in db.novels && db.novels[id].author != user ==> r == Reply(db, Err(Unauthorized))
    ensures r.response.Err? ==> r.db == db
    ensures id in db.novels && db.novels[id].author == user ==> r.response.Ok?
    ensures r.response.Ok? ==>
              && id in db.novels && db.novels[id].author == user
              && r.db.novels == db.novels - {id}
              && (forall k :: k in r.db.chapters <==> k in db.chapters && db.chapters[k].novel != id)
              && (forall k :: k in r.db.chapters ==> r.db.chapters[k] == db.chapters[k])
  {
    if id !in db.novels then Reply(db, Err(NotFound))
    else if db.novels[id].author != user then Reply(db, Err(Unauthorized))
    else
      var chapters := map k | k in db.chapters && db.chapters[k].novel != id :: db.chapters[k];
      Reply(Db(db.novels - {id}, chapters), Ok(()))
  }

  lemma CreateNovelKeepsConsistent(db: Db, user: UserId, f: N.NovelFields, newId: NovelId, now: int)
    requires newId !in db.novels && Consistent(db)
    ensures Consistent(CreateNovel(db, user, f, newId, now).db)
  {
    var n := N.NewNovel(user, f, now);
    if N.Save(db.novels, newId, n, true, now).Ok? {
      NovelSaveKeepsConsistent(db, newId, n, true, now);
    }
  }

  lemma UpdateNovelKeepsConsistent(db: Db, user: UserId, id: NovelId, f: N.NovelFields, now: int)
    requires Consistent(db)
    ensures Consistent(UpdateNovel(db, user, id, f, now).db)
  {
    var r := UpdateNovel(db, user, id, f, now);
    if r.db != db {
      var n := db.novels[id];
      var merged := MergeNovel(n, f);
      assert N.Save(db.novels, id, merged, merged.title != n.title, now).Ok?;
      NovelSaveKeepsConsistent(db, id, merged, merged.title != n.title, now);
    }
  }

  lemma DeleteNovelKeepsConsistent(db: Db, user: UserId, id: NovelId)
    requires Consistent(db)
    ensures Consistent(DeleteNovel(db, user, id).db)
  {
  }
}
