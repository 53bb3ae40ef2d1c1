/** Identifiers and the failures of the document layer shared by the Novel
    and Chapter models. Identifiers are the strings `toString()` yields. */
module Documents {
  type UserId = string
  type NovelId = string
  type ChapterId = string

  /** Why `save()` refused to write a document: a schema validator rejected
      it, or a unique index already holds its key. */
  datatype SaveFailure = ValidationFailed | DuplicateKey
}
