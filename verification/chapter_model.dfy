/** The Chapter document: its fields, the schema's validation, the unique
    `(novel, chapterNumber)` index and the pre-save hook. */
module ChapterModel {
  import opened Wrappers
  import opened JsText
  import opened Documents

  /** The schema's `status` enum. */
  datatype Status = Draft | Published | Pending

  /** A stored chapter. Times are milliseconds supplied by the caller. */
  datatype Chapter = Chapter(
    novel: NovelId,
    title: string,
    content: string,
    chapterNumber: int,
    status: Status,
    createdAt: int,
    updatedAt: int)

  /** The optional `title`, `content` and `chapterNumber` of a request body. */
  datatype ChapterFields = ChapterFields(
    title: Option<string>,
    content: Option<string>,
    chapterNumber: Option<int>)

  /** The schema's required-field rules on a chapter whose fields are set:
      `title` is trimmed on assignment and a required string may not be "". */
  predicate Valid(c: Chapter) {
    c.title != "" && Trim(c.title) == c.title && c.content != ""
  }

  /** `new Chapter({novel, title, content, chapterNumber})` followed by
      validation: the required fields must be present (and non-empty for
      strings); the status takes its default. */
  function NewChapter(novel: NovelId, f: ChapterFields, now: int): (r: Result<Chapter, SaveFailure>)
    ensures r.Ok? <==> f.title.Some? && Trim(f.title.value) != "" && f.content.Some?
                       && f.content.value != "" && f.chapterNumber.Some?
    ensures r.Err? ==> r.error == ValidationFailed
    ensures r.Ok? ==> Valid(r.value) && r.value.status == Draft && r.value.novel == novel
                      && r.value.title == Trim(f.title.value) && r.value.content == f.content.value
                      && r.value.chapterNumber == f.chapterNumber.value
  {
    if f.title.None? || f.content.None? || f.chapterNumber.None? then Err(ValidationFailed)
    else
      var c := Chapter(novel, Trim(f.title.value), f.content.value, f.chapterNumber.value, Draft, now, now);
      TrimIdempotent(f.title.value);
      if Valid(c) then Ok(c) else Err(ValidationFailed)
  }

  /** The partial update shared by `updateChapter` and the autosave handler:
      `title = title || old`, `content = content || old`, and the number only
      when truthy. The title setter trims the assigned value. */
  function Merge(c: Chapter, f: ChapterFields): (r: Chapter)
    ensures r.novel == c.novel && r.status == c.status
    ensures r.createdAt == c.createdAt && r.updatedAt == c.updatedAt
    ensures r.title == (if Truthy(f.title) then Trim(f.title.value) else c.title)
    ensures r.content == (if Truthy(f.content) then f.content.value else c.content)
    ensures r.chapterNumber == (if TruthyNumber(f.chapterNumber) then f.chapterNumber.value else c.chapterNumber)
  {
    var number := if TruthyNumber(f.chapterNumber) then f.chapterNumber.value else c.chapterNumber;
    var title := if Truthy(f.title) then Trim(f.title.value) else c.title;
    c.(title := title, content := OrElse(f.content, c.content), chapterNumber := number)
  }

  /** The unique index on `(novel, chapterNumber)`. */
  ghost predicate NumbersUnique(chapters: map<ChapterId, Chapter>) {
    forall a, b :: a in chapters && b in chapters && a != b && chapters[a].novel == chapters[b].novel
      ==> chapters[a].chapterNumber != chapters[b].chapterNumber
  }

  /** Whether a chapter other than `id` already holds `(novel, number)`. */
  predicate NumberTaken(chapters: map<ChapterId, Chapter>, id: ChapterId, novel: NovelId, number: int) {
    exists k :: k in chapters && k != id && chapters[k].novel == novel && chapters[k].chapterNumber == number
  }

  /** `chapter.save()`: validation first, then the pre-save hook stamps
      `updatedAt`, then the unique index decides whether the write lands. */
  function Save(chapters: map<ChapterId, Chapter>, id: ChapterId, c: Chapter, now: int)
    : (r: Result<map<ChapterId, Chapter>, SaveFailure>)
    ensures r.Err? <==> !Valid(c) || NumberTaken(chapters, id, c.novel, c.chapterNumber)
    ensures r.Err? && !Valid(c) ==> r.error == ValidationFailed
    ensures r.Ok? ==> r.value == chapters[id := c.(updatedAt := now)]
    ensures r.Ok? && NumbersUnique(chapters) ==> NumbersUnique(r.value)
    ensures r.Ok? ==> forall k :: k in r.value ==> (k == id || (k in chapters && r.value[k] == chapters[k]))
  {
    if !Valid(c) then Err(ValidationFailed)
    else if NumberTaken(chapters, id, c.novel, c.chapterNumber) then Err(DuplicateKey)
    else Ok(chapters[id := PreSave(c, now)])
  }

  /** The pre-save hook: refreshes `updatedAt` and nothing else. */
  function PreSave(c: Chapter, now: int): (r: Chapter)
    ensures r.updatedAt == now
    ensures r.(updatedAt := c.updatedAt) == c
  {
    c.(updatedAt := now)
  }
}
