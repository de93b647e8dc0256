/** The small helpers of the client: the result constructors, the click
    throttle, the keyed cancel-and-replace job registry and the name of a
    downloaded archive. */
module Utils {
  import opened Pojo
  import opened Decimal

  // ---------------------------------------------------------------------------
  // Result constructors

  /** `x.asOk()`: a success carrying `x` and no error text. */
  function AsOk<T>(x: T): (r: GOResult<T>)
    ensures r.status == OK && r.data == Some(x) && r.error == ""
  {
    GOResult(Some(x), OK, "")
  }

  /** `s.asError()`: a failure with no data and `s` as its error text. */
  function AsError<T>(s: string): (r: GOResult<T>)
    ensures r.status == Status.Error && r.data == None && r.error == s
  {
    GOResult(None, Status.Error, s)
  }

  /** The two shapes a result of the client takes: a success with data and
      no error text, or an error without data. */
  predicate WellTagged<T>(r: GOResult<T>) {
    || (r.status == OK && r.data.Some? && r.error == "")
    || (r.status == Status.Error && r.data.None?)
  }

  /** A success gives back what it carries; an error gives back its text; the
      two never coincide. */
  lemma ResultsTagged<T>(x: T, s: string)
    ensures WellTagged(AsOk(x)) && WellTagged(AsError<T>(s))
    ensures AsOk(x).data.value == x && AsError<T>(s).error == s
    ensures AsOk(x) != AsError<T>(s)
  {
  }

  // ---------------------------------------------------------------------------
  // Click throttle

  /** One click on a throttled control: it goes through iff more than `delay`
      milliseconds separate `now` from the last accepted click, and an accepted
      click records the clock as read a second time (`later`). */
  function Throttle(last: int, delay: int, now: int, later: int): (r: (bool, int))
    ensures r.0 <==> now - last > delay
    ensures r.1 == (if r.0 then later else last)
  {
    if now - last > delay then (true, later) else (false, last)
  }

  /** `lastClickTime` and `clickDelay`. */
  class ClickThrottle {
    var lastClickTime: int

    constructor()
      ensures lastClickTime == 0
    {
      lastClickTime := 0;
    }

    /** `clickDelay(delay, block)`: returns whether `block` runs. The clock is
        read twice, for the comparison (`now`) and for the record (`later`). */
    method ClickDelay(delay: int, now: int, later: int) returns (ran: bool)
      modifies this
      ensures (ran, lastClickTime) == Throttle(old(lastClickTime), delay, now, later)
    {
      var diff := now - lastClickTime;
      ran := false;
      if diff > delay {
        lastClickTime := later;
        ran := true;
      }
    }
  }

  /** Once a click went through, a click no more than `delay` after it (by
      the recorded clock) is dropped and leaves the record alone; a click long
      enough after it goes through. */
  lemma ThrottleWindow(last: int, delay: int, now: int, later: int, next: int, nextLater: int)
    requires Throttle(last, delay, now, later).0
    ensures var t := Throttle(last, delay, now, later).1;
            && (next - later <= delay ==> Throttle(t, delay, next, nextLater) == (false, later))
            && (next - later > delay ==> Throttle(t, delay, next, nextLater) == (true, nextLater))
  {
  }

  // ---------------------------------------------------------------------------
  // Delayed jobs

  /** `delayedJobs` and `invokeDelayed`. A job is an id handed out once; the
      registry keeps the job scheduled under each key and the set of ids that
      were cancelled. The delay and the block run later are not modelled. */
  class JobRegistry {
    var delayedJobs: map<string, nat>
    var cancelled: set<nat>
    /** Every id below this one has been handed out. */
    var nextJob: nat

    ghost predicate Valid()
      reads this
    {
      && (forall k :: k in delayedJobs ==> delayedJobs[k] < nextJob && delayedJobs[k] !in cancelled)
      && (forall j :: j in cancelled ==> j < nextJob)
      && (forall k, k' :: k in delayedJobs && k' in delayedJobs && k != k' ==> delayedJobs[k] != delayedJobs[k'])
    }

    constructor()
      ensures Valid() && delayedJobs == map[] && cancelled == {}
    {
      delayedJobs := map[];
      cancelled := {};
      nextJob := 0;
    }

    /** `invokeDelayed(key, ...)`: cancels and drops the job under `key`, if
        any, then schedules a new job under `key`. */
    method InvokeDelayed(key: string) returns (job: nat)
      requires Valid()
      modifies this
      ensures Valid()
      ensures job !in old(delayedJobs.Values) && job !in old(cancelled)
      ensures delayedJobs == old(delayedJobs)[key := job]
      ensures cancelled == old(cancelled) + (if key in old(delayedJobs) then {old(delayedJobs)[key]} else {})
      ensures nextJob == old(nextJob) + 1
    {
      if key in delayedJobs {
        cancelled := cancelled + {delayedJobs[key]};
        delayedJobs := delayedJobs - {key};
      }
      job := nextJob;
      nextJob := nextJob + 1;
      delayedJobs := delayedJobs[key := job];
    }
  }

  // ---------------------------------------------------------------------------
  // Name of a downloaded archive

  /** `getNewFileInDownloads`: `<owner>_<repoName>_<millis><ext>`. */
  function FileName(owner: string, repoName: string, millis: int, ext: string): (name: string)
    ensures |name| == |owner| + |repoName| + |IntText(millis)| + |ext| + 2
    ensures name[..|owner|] == owner && name[|owner|] == '_'
    ensures name[|owner| + 1..|owner| + 1 + |repoName|] == repoName && name[|owner| + 1 + |repoName|] == '_'
    ensures name[|name| - |ext|..] == ext
  {
    owner + "_" + repoName + "_" + IntText(millis) + ext
  }

  /** The position of the last `c` in `s`, if any. */
  function LastIndex(s: string, c: char): (r: Option<nat>)
    ensures r.Some? ==> r.value < |s| && s[r.value] == c && forall i :: r.value < i < |s| ==> s[i] != c
    ensures r.None? ==> forall i :: 0 <= i < |s| ==> s[i] != c
    decreases |s|
  {
    if s == [] then None
    else if s[|s| - 1] == c then Some(|s| - 1)
    else LastIndex(s[..|s| - 1], c)
  }

  /** The time stamp of an archive name: the text between the last `_` and
      the extension, which is `extLen` characters long. */
  function StampOf(name: string, extLen: nat): Option<int> {
    if |name| < extLen then None
    else
      var stem := name[..|name| - extLen];
      match LastIndex(stem, '_')
      case None => None
      case Some(i) => Some(ReadInt(stem[i + 1..]))
  }

  /** The time stamp can be read back from an archive name, whatever `_` the
      owner or repository names hold. */
  lemma StampOfFileName(owner: string, repoName: string, millis: int, ext: string)
    ensures StampOf(FileName(owner, repoName, millis, ext), |ext|) == Some(millis)
  {
    var head := owner + "_" + repoName + "_";
    var stamp := IntText(millis);
    assert FileName(owner, repoName, millis, ext) == head + stamp + ext;
    DropSuffix(head + stamp, ext);
    AfterLastSeparator(head, stamp);
    ReadIntText(millis);
  }

  lemma DropSuffix(s: string, t: string)
    ensures (s + t)[..|s|] == s
  {
  }

  /** In `head + stamp`, where `head` ends with `_` and `stamp` is the text of
      an integer, the last `_` is the one that ends `head`. */
  lemma AfterLastSeparator(head: string, stamp: string)
    requires |head| > 0 && head[|head| - 1] == '_'
    requires forall k :: 0 <= k < |stamp| ==> IsDigit(stamp[k]) || stamp[k] == '-'
    ensures LastIndex(head + stamp, '_') == Some(|head| - 1)
    ensures (head + stamp)[|head|..] == stamp
  {
    var s := head + stamp;
    forall j | |head| - 1 < j < |s| ensures s[j] != '_' {
      assert s[j] == stamp[j - |head|];
    }
    LastIndexOf(s, '_', |head| - 1);
  }

  lemma LastIndexOf(s: string, c: char, i: nat)
    requires i < |s| && s[i] == c && forall j :: i < j < |s| ==> s[j] != c
    ensures LastIndex(s, c) == Some(i)
    decreases |s|
  {
    if s[|s| - 1] != c {
      LastIndexOf(s[..|s| - 1], c, i);
    }
  }
}
