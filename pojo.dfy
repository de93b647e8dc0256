/** Plain records of the client: accounts, repositories, directory entries,
    the tagged result of a remote call and a user-facing message. */
module Pojo {

  datatype Option<+T> = None | Some(value: T)

  /** Progress of a search, a loader, a download or one tree row's spinner. */
  datatype SearchStatus = Loading | Idle | Error

  /** An account as the search endpoint lists it. */
  datatype UserData = UserData(login: string, avatarUrl: string, defaultBranch: string)

  /** `UserData.empty`: every field at its default. */
  const EmptyUser := UserData("", "", "")

  /** An account counts as "no account" when its login has no characters. */
  predicate UserIsEmpty(u: UserData) {
    |u.login| == 0
  }

  /** A repository as the repository listing gives it. */
  datatype RepositoryData = RepositoryData(name: string, htmlUrl: string)

  /** `RepositoryData.empty`. */
  const EmptyRepository := RepositoryData("", "")

  predicate RepositoryIsEmpty(r: RepositoryData) {
    |r.name| == 0
  }

  /** Kind of a directory entry, in declaration order; a listing is sorted by this order. */
  datatype ContentType = Directory | File | Unknown

  /** Position of a kind in the declaration order (its ordinal). */
  function Ordinal(t: ContentType): nat {
    match t
    case Directory => 0
    case File => 1
    case Unknown => 2
  }

  /** The serialised part of a directory entry (the fields a listing carries).
      `kind` is the entry's `type` field; the runtime fields (`content`, `level`,
      `loadingState`) live in the node arena of module ContentNodes. */
  datatype ContentRecord = ContentRecord(
    name: string,
    path: Option<string>,
    kind: ContentType,
    size: int,
    sha: string,
    downloadUrl: string)

  /** `RepositoryContentData.empty`: the defaults of every field. */
  const EmptyContent := ContentRecord("", None, ContentType.Unknown, -1, "", "")

  predicate ContentIsEmpty(d: ContentRecord) {
    |d.name| == 0
  }

  /** The three defaults are "empty", and a record with any character in its
      identifying field is not. */
  lemma EmptyDefaults(u: UserData, r: RepositoryData, d: ContentRecord)
    ensures UserIsEmpty(EmptyUser) && RepositoryIsEmpty(EmptyRepository) && ContentIsEmpty(EmptyContent)
    ensures EmptyContent.size == -1 && EmptyContent.kind == ContentType.Unknown && EmptyContent.path == None
    ensures UserIsEmpty(u) <==> u.login == ""
    ensures RepositoryIsEmpty(r) <==> r.name == ""
    ensures ContentIsEmpty(d) <==> d.name == ""
  {
  }

  /** Status of a `GOResult`; `Unknown` is the default and is never produced by the client. */
  datatype Status = OK | Error | Unknown

  /** Tagged result of a remote call: `data` is null (None) on error. */
  datatype GOResult<+T> = GOResult(data: Option<T>, status: Status, error: string)

  datatype MessageType = Info | Error

  /** One message on the user-facing message channel. */
  datatype MessageObject = MessageObject(kind: MessageType, data: string)
}
