/** `Repo`: turns the outcome of each remote call into a `GOResult`, never
    letting a failure escape, and orders a directory listing by kind. */
module Repo {
  import opened Pojo
  import opened Decimal
  import opened Utils

  // ---------------------------------------------------------------------------
  // Outcomes of a remote call

  /** A failure raised by a call; `message` is `None` where the exception
      carries a null message. */
  datatype Fault = HttpFault(message: Option<string>) | OtherFault(message: Option<string>)

  /** What a remote call yields: an HTTP response (`body` is `None` where the
      response has no body, as for every non-2xx response), or a raised fault. */
  datatype Call<T> = Response(code: int, body: Option<T>) | Raised(fault: Fault)

  /** A step that either produces a value or raises a fault. */
  datatype Attempt<T> = Done(value: T) | Fails(fault: Fault)

  /** `Response.isSuccessful`: the code is in 200..299. */
  predicate Successful(code: int) {
    200 <= code < 300
  }

  /** `"${e.message}"`: a null message renders as `null`. */
  function MessageText(m: Option<string>): string {
    match m
    case None => "null"
    case Some(s) => s
  }

  /** The two `catch` clauses every call of `Repo` ends with. */
  function Caught<T>(f: Fault): (r: GOResult<T>)
    ensures r.status == Status.Error && r.data == None
    ensures f.HttpFault? ==> r.error == "Network exception: " + MessageText(f.message)
    ensures f.OtherFault? ==> r.error == "General exception: " + MessageText(f.message)
  {
    match f
    case HttpFault(m) => AsError("Network exception: " + MessageText(m))
    case OtherFault(m) => AsError("General exception: " + MessageText(m))
  }

  /** `try { ... } catch ...`: a step's value, or its fault caught. */
  function Guard<T>(a: Attempt<GOResult<T>>): GOResult<T> {
    match a
    case Done(r) => r
    case Fails(f) => Caught(f)
  }

  /** `body()!!` on a missing body raises a `NullPointerException` without a
      message. */
  const NullBody := OtherFault(None)

  /** `"Code: ${code()}"`. */
  function CodeError(code: int): string {
    "Code: " + IntText(code)
  }

  /** `Response<T>.toGOResult()`: a 2xx response's body as a success (raising
      when there is none), any other response as the error `Code: <code>`. */
  function ToGOResult<T>(code: int, body: Option<T>): (a: Attempt<GOResult<T>>)
    ensures Successful(code) && body.Some? ==> a == Done(AsOk(body.value))
    ensures Successful(code) && body.None? ==> a == Fails(NullBody)
    ensures !Successful(code) ==> a == Done(AsError(CodeError(code)))
  {
    if Successful(code) then
      if body.Some? then Done(AsOk(body.value)) else Fails(NullBody)
    else Done(AsError(CodeError(code)))
  }

  /** `searchUser` and `getRepositories`: the same mapping, for a list of
      accounts and for a list of repositories. */
  function Fetch<T>(call: Call<T>): (r: GOResult<T>)
    ensures WellTagged(r)
    ensures call.Response? && Successful(call.code) && call.body.Some? ==> r == AsOk(call.body.value)
    ensures call.Response? && Successful(call.code) && call.body.None? ==> r.error == "General exception: " + "null"
    ensures call.Response? && !Successful(call.code) ==> r.error == CodeError(call.code)
    ensures call.Raised? ==> r == Caught(call.fault)
  {
    match call
    case Response(code, body) => Guard(ToGOResult(code, body))
    case Raised(f) => Caught(f)
  }

  // ---------------------------------------------------------------------------
  // Ordering a listing

  /** Kinds never decrease along the listing. */
  predicate SortedByKind(s: seq<ContentRecord>) {
    forall i, j :: 0 <= i < j < |s| ==> Ordinal(s[i].kind) <= Ordinal(s[j].kind)
  }

  /** The entries of one kind, in listing order. */
  function OfKind(s: seq<ContentRecord>, k: ContentType): (r: seq<ContentRecord>)
    ensures forall i :: 0 <= i < |r| ==> r[i].kind == k
    decreases |s|
  {
    if s == [] then []
    else (if s[0].kind == k then [s[0]] else []) + OfKind(s[1..], k)
  }

  lemma OfKindCons(a: ContentRecord, t: seq<ContentRecord>, k: ContentType)
    ensures OfKind([a] + t, k) == (if a.kind == k then [a] else []) + OfKind(t, k)
  {
    assert ([a] + t)[1..] == t;
  }

  /** Places `x` before the first entry whose kind is not earlier than its own. */
  function InsertByKind(x: ContentRecord, s: seq<ContentRecord>): (r: seq<ContentRecord>)
    ensures multiset(r) == multiset(s) + multiset{x}
    decreases |s|
  {
    if s == [] || Ordinal(x.kind) <= Ordinal(s[0].kind) then [x] + s
    else
      assert s == [s[0]] + s[1..];
      [s[0]] + InsertByKind(x, s[1..])
  }

  /** `sortedBy { it.type }`: a stable sort by kind in declaration order
      (Directory, File, Unknown), here as an insertion sort. */
  function SortByKind(s: seq<ContentRecord>): (r: seq<ContentRecord>)
    decreases |s|
  {
    if s == [] then [] else InsertByKind(s[0], SortByKind(s[1..]))
  }

  /** A listing whose kinds are all at least `m` keeps that bound when `x`,
      whose kind is at least `m` too, is inserted. */
  lemma {:induction false} InsertBound(x: ContentRecord, s: seq<ContentRecord>, m: nat)
    requires m <= Ordinal(x.kind) && forall i :: 0 <= i < |s| ==> m <= Ordinal(s[i].kind)
    ensures forall i :: 0 <= i < |InsertByKind(x, s)| ==> m <= Ordinal(InsertByKind(x, s)[i].kind)
    decreases |s|
  {
    if s != [] && Ordinal(s[0].kind) < Ordinal(x.kind) {
      InsertBound(x, s[1..], m);
    }
  }

  lemma SortedCons(a: ContentRecord, t: seq<ContentRecord>)
    requires SortedByKind(t) && forall i :: 0 <= i < |t| ==> Ordinal(a.kind) <= Ordinal(t[i].kind)
    ensures SortedByKind([a] + t)
  {
    forall i, j | 0 <= i < j < |[a] + t| ensures Ordinal(([a] + t)[i].kind) <= Ordinal(([a] + t)[j].kind) {
      if i > 0 {
        assert ([a] + t)[i] == t[i - 1];
      }
      assert ([a] + t)[j] == t[j - 1];
    }
  }

  /** The head of a sorted listing bounds its tail, which is sorted. */
  lemma SortedTail(s: seq<ContentRecord>)
    requires SortedByKind(s) && s != []
    ensures SortedByKind(s[1..]) && forall i :: 0 <= i < |s[1..]| ==> Ordinal(s[0].kind) <= Ordinal(s[1..][i].kind)
  {
    forall i | 0 <= i < |s[1..]| ensures Ordinal(s[0].kind) <= Ordinal(s[1..][i].kind) {
      assert s[1..][i] == s[i + 1];
    }
  }

  lemma {:induction false} InsertSorted(x: ContentRecord, s: seq<ContentRecord>)
    requires SortedByKind(s)
    ensures SortedByKind(InsertByKind(x, s))
    decreases |s|
  {
    if s == [] || Ordinal(x.kind) <= Ordinal(s[0].kind) {
      forall i | 0 <= i < |s| ensures Ordinal(x.kind) <= Ordinal(s[i].kind) {
        assert Ordinal(s[0].kind) <= Ordinal(s[i].kind) || i == 0;
      }
      SortedCons(x, s);
    } else {
      SortedTail(s);
      InsertSorted(x, s[1..]);
      InsertBound(x, s[1..], Ordinal(s[0].kind));
      SortedCons(s[0], InsertByKind(x, s[1..]));
    }
  }

  /** Inserting `x` adds it to the front of its own kind and leaves the
      entries of every other kind as they were. */
  lemma {:induction false} InsertOfKind(x: ContentRecord, s: seq<ContentRecord>, k: ContentType)
    ensures OfKind(InsertByKind(x, s), k) == (if x.kind == k then [x] else []) + OfKind(s, k)
    decreases |s|
  {
    if s == [] || Ordinal(x.kind) <= Ordinal(s[0].kind) {
      OfKindCons(x, s, k);
    } else {
      var t := InsertByKind(x, s[1..]);
      var rest := OfKind(s[1..], k);
      OfKindCons(s[0], t, k);
      InsertOfKind(x, s[1..], k);
      OfKindCons(s[0], s[1..], k);
      assert s == [s[0]] + s[1..];
      if s[0].kind == k {
        assert x.kind != k;
        assert OfKind(t, k) == rest;
      } else if x.kind == k {
        assert OfKind(t, k) == [x] + rest;
      } else {
        assert OfKind(t, k) == [] + rest;
      }
    }
  }

  /** The sort keeps, for each kind, the entries of that kind in their
      original order: it is stable. */
  lemma {:induction false} SortKeepsKinds(s: seq<ContentRecord>, k: ContentType)
    ensures OfKind(SortByKind(s), k) == OfKind(s, k)
    decreases |s|
  {
    if s != [] {
      SortKeepsKinds(s[1..], k);
      InsertOfKind(s[0], SortByKind(s[1..]), k);
    }
  }

  lemma {:induction false} SortSorted(s: seq<ContentRecord>)
    ensures SortedByKind(SortByKind(s))
    decreases |s|
  {
    if s != [] {
      SortSorted(s[1..]);
      InsertSorted(s[0], SortByKind(s[1..]));
    }
  }

  lemma {:induction false} SortPermutes(s: seq<ContentRecord>)
    ensures multiset(SortByKind(s)) == multiset(s)
    decreases |s|
  {
    if s != [] {
      SortPermutes(s[1..]);
      assert s == [s[0]] + s[1..];
    }
  }

  /** A listing sorted by kind is its directories, then its files, then the
      rest, each group in its own order. */
  lemma {:induction false} SortedGroups(s: seq<ContentRecord>)
    requires SortedByKind(s)
    ensures s == OfKind(s, Directory) + OfKind(s, File) + OfKind(s, ContentType.Unknown)
    decreases |s|
  {
    if s != [] {
      SortedTail(s);
      SortedGroups(s[1..]);
      GroupsCons(s[0], s[1..]);
      assert s == [s[0]] + s[1..];
    }
  }

  /** One more head, no later in kind than the rest, joins its own group. */
  lemma GroupsCons(a: ContentRecord, rest: seq<ContentRecord>)
    requires rest == OfKind(rest, Directory) + OfKind(rest, File) + OfKind(rest, ContentType.Unknown)
    requires forall i :: 0 <= i < |rest| ==> Ordinal(a.kind) <= Ordinal(rest[i].kind)
    ensures [a] + rest == OfKind([a] + rest, Directory) + OfKind([a] + rest, File) + OfKind([a] + rest, ContentType.Unknown)
  {
    var d, f, u := OfKind(rest, Directory), OfKind(rest, File), OfKind(rest, ContentType.Unknown);
    var s := [a] + rest;
    OfKindCons(a, rest, Directory);
    OfKindCons(a, rest, File);
    OfKindCons(a, rest, ContentType.Unknown);
    if a.kind == Directory {
      assert OfKind(s, Directory) == [a] + d && OfKind(s, File) == [] + f && OfKind(s, ContentType.Unknown) == [] + u;
      Regroup3([a], d, f, u);
    } else if a.kind == File {
      NoneOfKind(rest, Directory);
      assert OfKind(s, Directory) == [] + d && OfKind(s, File) == [a] + f && OfKind(s, ContentType.Unknown) == [] + u;
      Regroup3([a], d, f, u);
    } else {
      NoneOfKind(rest, Directory);
      NoneOfKind(rest, File);
      assert OfKind(s, Directory) == [] + d && OfKind(s, File) == [] + f && OfKind(s, ContentType.Unknown) == [a] + u;
      Regroup3([a], d, f, u);
    }
  }

  lemma Regroup3(a: seq<ContentRecord>, d: seq<ContentRecord>, f: seq<ContentRecord>, u: seq<ContentRecord>)
    ensures a + (d + f + u) == (a + d) + ([] + f) + ([] + u)
    ensures d == [] ==> a + (d + f + u) == ([] + d) + (a + f) + ([] + u)
    ensures d == [] && f == [] ==> a + (d + f + u) == ([] + d) + ([] + f) + (a + u)
  {
  }

  /** No entry of a sorted listing after its head has an earlier kind than
      the head. */
  lemma NoneOfKind(s: seq<ContentRecord>, k: ContentType)
    requires forall i :: 0 <= i < |s| ==> Ordinal(k) < Ordinal(s[i].kind)
    ensures OfKind(s, k) == []
    decreases |s|
  {
    if s != [] {
      NoneOfKind(s[1..], k);
    }
  }

  /** The sorted listing is a permutation of the listing, ordered by kind,
      and is exactly its directories, then its files, then the rest, each
      group in listing order. */
  lemma SortByKindCorrect(s: seq<ContentRecord>)
    ensures var r := SortByKind(s);
            && multiset(r) == multiset(s)
            && SortedByKind(r)
            && r == OfKind(s, Directory) + OfKind(s, File) + OfKind(s, ContentType.Unknown)
  {
    var r := SortByKind(s);
    SortSorted(s);
    SortPermutes(s);
    SortedGroups(r);
    SortKeepsKinds(s, Directory);
    SortKeepsKinds(s, File);
    SortKeepsKinds(s, ContentType.Unknown);
  }

  /** `getRepositoryContent`: a 2xx listing sorted by kind, the error
      `Code: <code>` for any other response, and caught faults. */
  function GetRepositoryContent(call: Call<seq<ContentRecord>>): (r: GOResult<seq<ContentRecord>>)
    ensures WellTagged(r)
    ensures call.Response? && Successful(call.code) && call.body.Some? ==> r == AsOk(SortByKind(call.body.value))
    ensures call.Response? && Successful(call.code) && call.body.None? ==> r.error == "General exception: " + "null"
    ensures call.Response? && !Successful(call.code) ==> r.error == CodeError(call.code)
    ensures call.Raised? ==> r == Caught(call.fault)
  {
    match call
    case Response(code, body) =>
      Guard(if Successful(code) then
              (if body.Some? then Done(AsOk(SortByKind(body.value))) else Fails(NullBody))
            else Done(AsError(CodeError(code))))
    case Raised(f) => Caught(f)
  }

  // ---------------------------------------------------------------------------
  // Downloading an archive

  /** `downloadZip`: with a body, the archive is written to a new file named
      from the owner, the repository and the clock reading `millis`, and the
      result is that file (here, its name); a failed copy (`copy`) is caught
      like any other fault. Without a body, whatever the code, the call fails
      with `failed to download: <repoName>`. */
  function DownloadZip<B>(owner: string, repoName: string, millis: int, call: Call<B>, copy: Option<Fault>): (r: GOResult<string>)
    ensures WellTagged(r)
    ensures call.Response? && call.body.Some? && copy.None? ==> r == AsOk(FileName(owner, repoName, millis, ".zip"))
    ensures call.Response? && call.body.Some? && copy.Some? ==> r == Caught(copy.value)
    ensures call.Response? && call.body.None? ==> r.error == "General exception: " + ("failed to download: " + repoName)
    ensures call.Raised? ==> r == Caught(call.fault)
  {
    match call
    case Response(_, body) =>
      Guard(if body.None? then Fails(OtherFault(Some("failed to download: " + repoName)))
            else if copy.Some? then Fails(copy.value)
            else Done(AsOk(FileName(owner, repoName, millis, ".zip"))))
    case Raised(f) => Caught(f)
  }
}
