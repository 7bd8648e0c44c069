/** The playlist branch of `download_video` (python/scripts/yt2mp4.py:62-73):
    each member is tried up to three times while its attempts fail with a
    request error; an exception of any other kind leaves the loop and ends
    the whole playlist at the handler on line 76. The outcome of each
    attempt is an input: `attempt(m, k)` is how try `k` of member `m` ends. */
module Retry {

  const MaxRetries: nat := 3

  /** How one call of `download_single_video` ends. */
  datatype Attempt = Succeeded | RequestFailed | OtherFailed

  /** What one member's loop ends with: a download after `attempts` tries;
      the "Max retries reached" message; or an exception that escapes the
      loop after `attempts` tries. */
  datatype ItemReport = Downloaded(attempts: nat) | MaxRetriesReached | Raised(attempts: nat)

  /** The outcome of the retry loop entered with `retry_count == k`. */
  function RetryOutcome(attempt: nat -> Attempt, k: nat): (r: ItemReport)
    requires k <= MaxRetries
    ensures r.Downloaded? ==> k < r.attempts <= MaxRetries
    ensures r.Raised? ==> k < r.attempts <= MaxRetries
    decreases MaxRetries - k
  {
    if k == MaxRetries then MaxRetriesReached
    else
      match attempt(k)
      case Succeeded => Downloaded(k + 1)
      case OtherFailed => Raised(k + 1)
      case RequestFailed => RetryOutcome(attempt, k + 1)
  }

  /** The "Max retries reached" message appears exactly when every one of
      the remaining tries fails with a request error. */
  lemma {:induction false} GivesUpIffAllFail(attempt: nat -> Attempt, k: nat)
    requires k <= MaxRetries
    ensures RetryOutcome(attempt, k) == MaxRetriesReached <==>
      forall j :: k <= j < MaxRetries ==> attempt(j) == RequestFailed
    decreases MaxRetries - k
  {
    if k < MaxRetries {
      GivesUpIffAllFail(attempt, k + 1);
    }
  }

  /** The loop stops at the first success: it downloads after `j + 1` tries
      exactly when try `j` succeeds and every earlier one failed with a
      request error. */
  lemma {:induction false} StopsAtFirstSuccess(attempt: nat -> Attempt, k: nat, j: nat)
    requires k <= j < MaxRetries
    ensures RetryOutcome(attempt, k) == Downloaded(j + 1) <==>
      attempt(j) == Succeeded && forall i :: k <= i < j ==> attempt(i) == RequestFailed
    decreases j - k
  {
    if k < j {
      StopsAtFirstSuccess(attempt, k + 1, j);
    }
  }

  /** An exception other than a request error ends the loop at once: the
      item raises after `j + 1` tries exactly when try `j` ends that way and
      every earlier one failed with a request error. */
  lemma {:induction false} RaisesAtFirstOtherError(attempt: nat -> Attempt, k: nat, j: nat)
    requires k <= j < MaxRetries
    ensures RetryOutcome(attempt, k) == Raised(j + 1) <==>
      attempt(j) == OtherFailed && forall i :: k <= i < j ==> attempt(i) == RequestFailed
    decreases j - k
  {
    if k < j {
      RaisesAtFirstOtherError(attempt, k + 1, j);
    }
  }

  /** The loop of lines 63-73, with the 5-second pause between tries
      taken to succeed. */
  method RetryItem(attempt: nat -> Attempt) returns (report: ItemReport)
    ensures report == RetryOutcome(attempt, 0)
  {
    var retryCount := 0;
    while retryCount < MaxRetries
      invariant retryCount <= MaxRetries
      invariant RetryOutcome(attempt, retryCount) == RetryOutcome(attempt, 0)
    {
      match attempt(retryCount)
      case Succeeded =>
        break;
      case OtherFailed =>
        return Raised(retryCount + 1);
      case RequestFailed =>
        retryCount := retryCount + 1;
    }
    if retryCount == MaxRetries {
      report := MaxRetriesReached;
    } else {
      report := Downloaded(retryCount + 1);
    }
  }

  /** The loop as the script has it: `time` is never imported, so the pause
      on line 71 raises NameError after the first request error, and that
      exception, not a request error, leaves the loop. */
  function RetryOutcomeAsWritten(attempt: nat -> Attempt): (r: ItemReport)
    ensures r != MaxRetriesReached && r.attempts == 1
    ensures r.Downloaded? <==> attempt(0) == Succeeded
  {
    match attempt(0)
    case Succeeded => Downloaded(1)
    case OtherFailed => Raised(1)
    case RequestFailed => Raised(1)   // retry_count becomes 1, then time.sleep raises NameError
  }

  /** One request error followed by a success: the intended loop downloads
      on the second try, the loop as written ends the playlist instead. */
  lemma AsWrittenAbortsOnFirstRequestError()
    ensures var attempt := (k: nat) => if k == 0 then RequestFailed else Succeeded;
      && RetryOutcomeAsWritten(attempt) == Raised(1)
      && RetryOutcome(attempt, 0) == Downloaded(2)
  {
  }

  /** Member `m`'s tries as a function of the try number. */
  function MemberAttempts(attempt: (nat, nat) -> Attempt, m: nat): nat -> Attempt {
    (k: nat) => attempt(m, k)
  }

  /** The reports of members `m` onward: each member runs its retry loop;
      a member whose loop raises is the last one processed. */
  function PlaylistReports(attempt: (nat, nat) -> Attempt, count: nat, m: nat): (reports: seq<ItemReport>)
    requires m <= count
    ensures |reports| <= count - m
    decreases count - m
  {
    if m == count then []
    else
      var r := RetryOutcome(MemberAttempts(attempt, m), 0);
      if r.Raised? then [r] else [r] + PlaylistReports(attempt, count, m + 1)
  }

  /** Members are reported in order, each by its own retry loop; only the
      last report can be an exception that escaped, and the playlist ends
      early only because of one. */
  lemma {:induction false} PlaylistReportsInOrder(attempt: (nat, nat) -> Attempt, count: nat, m: nat)
    requires m <= count
    ensures var reports := PlaylistReports(attempt, count, m);
      && |reports| <= count - m
      && (forall i :: 0 <= i < |reports| ==> reports[i] == RetryOutcome(MemberAttempts(attempt, m + i), 0))
      && (forall i :: 0 <= i < |reports| - 1 ==> !reports[i].Raised?)
      && (|reports| < count - m ==> reports != [] && reports[|reports| - 1].Raised?)
    decreases count - m
  {
    if m < count && !RetryOutcome(MemberAttempts(attempt, m), 0).Raised? {
      PlaylistReportsInOrder(attempt, count, m + 1);
      var rest := PlaylistReports(attempt, count, m + 1);
      var reports := PlaylistReports(attempt, count, m);
      assert reports[1..] == rest;
      forall i | 1 <= i < |reports|
        ensures reports[i] == RetryOutcome(MemberAttempts(attempt, m + i), 0)
      {
        assert reports[i] == rest[i - 1];
      }
    }
  }

  /** The loop over the members of a playlist of `count` videos. */
  method DownloadPlaylist(attempt: (nat, nat) -> Attempt, count: nat) returns (reports: seq<ItemReport>)
    ensures reports == PlaylistReports(attempt, count, 0)
  {
    reports := [];
    var m := 0;
    while m < count
      invariant m <= count
      invariant reports + PlaylistReports(attempt, count, m) == PlaylistReports(attempt, count, 0)
    {
      var report := RetryItem(MemberAttempts(attempt, m));
      ghost var rest := PlaylistReports(attempt, count, m);
      assert rest == if report.Raised? then [report] else [report] + PlaylistReports(attempt, count, m + 1);
      reports := reports + [report];
      if report.Raised? {
        return;
      }
      m := m + 1;
    }
  }

  /** Members that only give up after their retries do not stop the
      playlist: unless some member raises, every member gets its report. */
  lemma PlaylistContinuesPastFailures(attempt: (nat, nat) -> Attempt, count: nat)
    requires forall m :: 0 <= m < count ==> !RetryOutcome(MemberAttempts(attempt, m), 0).Raised?
    ensures |PlaylistReports(attempt, count, 0)| == count
  {
    PlaylistReportsInOrder(attempt, count, 0);
  }
}
