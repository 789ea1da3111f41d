/**
 * The collector: fetching the profile with exponential backoff on
 * authorization failures, and collecting at most `amount` post rows from the
 * profile's post iterator.
 *
 * The remote service is a parameter. A profile fetch is the function
 * `fetch`, whose value at `i` is the outcome of the i-th call; the post
 * iterator is a `PostSource`. Sleeps are not performed: each method returns
 * the durations it would have slept, in order.
 */
module Scraper {
  import opened Common
  import opened Text

  // ---------------------------------------------------------------------
  // Profile fetch with backoff
  // ---------------------------------------------------------------------

  /** The profile the collaborator returns; only its handle matters here. */
  datatype Profile = Profile(username: string)

  /** What one call of the profile fetch did: returned a profile, or raised an error with this text. */
  datatype Attempt = Fetched(profile: Profile) | Failed(message: string)

  /** How the backoff loop ended. */
  datatype FetchOutcome =
    | Found(profile: Profile)          // a fetch succeeded and the profile is returned
    | Reraised(message: string)        // a failure that is not authorization-like, raised again as is
    | ExceededRetries(maxRetries: int) // the terminal "Exceeded maximum retries" error

  /** The loop's outcome together with the sleeps it performed, in order. */
  datatype FetchRun = FetchRun(outcome: FetchOutcome, sleeps: seq<nat>)

  /** The first backoff, in seconds. */
  const InitialBackoff: nat := 60

  /** The default bound on authorization failures. */
  const DefaultMaxRetries: int := 5

  /** A failure is retried when its text mentions a 401, `login_required` or `ConnectionException`. */
  predicate IsAuthError(message: string)
  {
    Contains(message, "401") || Contains(message, "login_required")
    || Contains(message, "ConnectionException")
  }

  predicate IsAuthFailure(a: Attempt)
  {
    a.Failed? && IsAuthError(a.message)
  }

  /** Calls `from` up to (excluding) `to` all failed with an authorization-like error. */
  ghost predicate AuthFailuresBetween(fetch: nat -> Attempt, from: nat, to: nat)
  {
    forall j: nat :: from <= j < to ==> IsAuthFailure(fetch(j))
  }

  /** 2 to the power `n`. */
  function Pow2(n: nat): (p: nat)
    ensures p >= 1
  {
    if n == 0 then 1 else 2 * Pow2(n - 1)
  }

  /** `n` sleeps starting at `b` seconds, each twice the one before. */
  function Doubling(b: nat, n: nat): seq<nat>
    decreases n
  {
    if n == 0 then [] else [b] + Doubling(2 * b, n - 1)
  }

  function Sum(s: seq<nat>): nat
  {
    if |s| == 0 then 0 else s[0] + Sum(s[1..])
  }

  /**
   * The backoff loop as a function of its state: `retries` authorization
   * failures so far, and the `backoff` the next failure sleeps for.
   */
  function BackoffFrom(fetch: nat -> Attempt, maxRetries: int, retries: nat, backoff: nat): FetchRun
    decreases maxRetries - retries
  {
    if retries >= maxRetries then FetchRun(ExceededRetries(maxRetries), [])
    else match fetch(retries)
      case Fetched(p) => FetchRun(Found(p), [])
      case Failed(m) =>
        if IsAuthError(m) then
          var rest := BackoffFrom(fetch, maxRetries, retries + 1, 2 * backoff);
          FetchRun(rest.outcome, [backoff] + rest.sleeps)
        else FetchRun(Reraised(m), [])
  }

  /** `get_profile_with_backoff` from its initial state. */
  function BackoffSpec(fetch: nat -> Attempt, maxRetries: int): FetchRun
  {
    BackoffFrom(fetch, maxRetries, 0, InitialBackoff)
  }

  /** How many times the loop calls the fetch: once per sleep, plus the final call unless retries ran out. */
  function Attempts(run: FetchRun): nat
  {
    |run.sleeps| + (if run.outcome.ExceededRetries? then 0 else 1)
  }

  /** Non-negative part of an integer bound. */
  function Clip(n: int): nat
  {
    if n < 0 then 0 else n
  }

  /**
   * The loop of `get_profile_with_backoff`: try, and on an authorization-like
   * failure sleep `backoff`, double it and count the retry; re-raise any
   * other failure; give up after `maxRetries` retries.
   */
  method GetProfileWithBackoff(fetch: nat -> Attempt, maxRetries: int)
    returns (outcome: FetchOutcome, sleeps: seq<nat>, attempts: nat)
    ensures FetchRun(outcome, sleeps) == BackoffSpec(fetch, maxRetries)
    ensures attempts == Attempts(BackoffSpec(fetch, maxRetries))
  {
    var retries: nat := 0;
    var backoff: nat := InitialBackoff;
    sleeps := [];
    attempts := 0;
    while retries < maxRetries
      invariant |sleeps| == retries == attempts
      invariant BackoffSpec(fetch, maxRetries)
        == FetchRun(BackoffFrom(fetch, maxRetries, retries, backoff).outcome,
                    sleeps + BackoffFrom(fetch, maxRetries, retries, backoff).sleeps)
      decreases maxRetries - retries
    {
      attempts := attempts + 1;
      match fetch(retries)
      case Fetched(p) =>
        outcome := Found(p);
        return;
      case Failed(m) =>
        if IsAuthError(m) {
          ghost var before := sleeps;
          sleeps := sleeps + [backoff];
          assert BackoffFrom(fetch, maxRetries, retries, backoff).sleeps
              == [backoff] + BackoffFrom(fetch, maxRetries, retries + 1, 2 * backoff).sleeps;
          assert before + ([backoff] + BackoffFrom(fetch, maxRetries, retries + 1, 2 * backoff).sleeps)
              == sleeps + BackoffFrom(fetch, maxRetries, retries + 1, 2 * backoff).sleeps;
          backoff := 2 * backoff;
          retries := retries + 1;
        } else {
          outcome := Reraised(m);
          return;
        }
    }
    outcome := ExceededRetries(maxRetries);
  }

  /**
   * Everything the loop can do, from any state: it sleeps only after
   * authorization failures, the sleeps double, it stops at the first
   * success (returning that profile) or first other failure (re-raising its
   * text), and it never makes a call past `maxRetries`.
   */
  lemma {:induction false} BackoffFromFacts(fetch: nat -> Attempt, maxRetries: int, retries: nat, backoff: nat)
    ensures var run := BackoffFrom(fetch, maxRetries, retries, backoff);
      && run.sleeps == Doubling(backoff, |run.sleeps|)
      && AuthFailuresBetween(fetch, retries, retries + |run.sleeps|)
      && (run.outcome.Found? ==>
            retries + |run.sleeps| < maxRetries
            && fetch(retries + |run.sleeps|) == Fetched(run.outcome.profile))
      && (run.outcome.Reraised? ==>
            retries + |run.sleeps| < maxRetries
            && fetch(retries + |run.sleeps|) == Failed(run.outcome.message)
            && !IsAuthError(run.outcome.message))
      && (run.outcome.ExceededRetries? ==>
            run.outcome.maxRetries == maxRetries
            && retries + |run.sleeps| == (if retries < maxRetries then maxRetries else retries))
    decreases maxRetries - retries
  {
    if retries < maxRetries && IsAuthFailure(fetch(retries)) {
      BackoffFromFacts(fetch, maxRetries, retries + 1, 2 * backoff);
    }
  }

  /**
   * The loop's decision table from the start: at most `maxRetries` calls
   * (none when it is not positive), the i-th sleep is 60·2^i, the number of
   * sleeps equals the number of authorization failures before the last
   * call, and the last call decides the outcome.
   */
  lemma BackoffSpecFacts(fetch: nat -> Attempt, maxRetries: int)
    ensures var run := BackoffSpec(fetch, maxRetries);
      && Attempts(run) <= Clip(maxRetries)
      && (forall i :: 0 <= i < |run.sleeps| ==> run.sleeps[i] == InitialBackoff * Pow2(i))
      && AuthFailuresBetween(fetch, 0, |run.sleeps|)
      && (run.outcome.Found? ==> fetch(|run.sleeps|) == Fetched(run.outcome.profile))
      && (run.outcome.Reraised? ==>
            fetch(|run.sleeps|) == Failed(run.outcome.message) && !IsAuthError(run.outcome.message))
      && (run.outcome.ExceededRetries? ==>
            run.outcome.maxRetries == maxRetries && |run.sleeps| == Clip(maxRetries))
  {
    var run := BackoffSpec(fetch, maxRetries);
    BackoffFromFacts(fetch, maxRetries, 0, InitialBackoff);
    forall i | 0 <= i < |run.sleeps| ensures run.sleeps[i] == InitialBackoff * Pow2(i) {
      DoublingAt(InitialBackoff, |run.sleeps|, i);
    }
  }

  /** The i-th of `n` doubling sleeps starting at `b` is b·2^i. */
  lemma {:induction false} DoublingAt(b: nat, n: nat, i: nat)
    requires i < n
    ensures |Doubling(b, n)| == n && Doubling(b, n)[i] == b * Pow2(i)
    decreases n
  {
    DoublingLength(b, n);
    if i > 0 {
      DoublingAt(2 * b, n - 1, i - 1);
      calc {
        Doubling(b, n)[i];
        Doubling(2 * b, n - 1)[i - 1];
        (2 * b) * Pow2(i - 1);
        b * (2 * Pow2(i - 1));
      }
    }
  }

  lemma {:induction false} DoublingLength(b: nat, n: nat)
    ensures |Doubling(b, n)| == n
    decreases n
  {
    if n > 0 {
      DoublingLength(2 * b, n - 1);
    }
  }

  /** n doubling sleeps from b add up to b·(2^n − 1). */
  lemma {:induction false} DoublingSum(b: nat, n: nat)
    ensures Sum(Doubling(b, n)) == b * (Pow2(n) - 1)
    decreases n
  {
    if n > 0 {
      DoublingSum(2 * b, n - 1);
      calc {
        Sum(Doubling(b, n));
        b + Sum(Doubling(2 * b, n - 1));
        b + (2 * b) * (Pow2(n - 1) - 1);
        b * (2 * Pow2(n - 1) - 1);
      }
    }
  }

  /**
   * k authorization failures followed by a success, within the bound: the
   * profile is returned after exactly k sleeps of 60, 120, 240, ... seconds,
   * 60·(2^k − 1) seconds in all, and k + 1 calls.
   */
  lemma {:induction false} SuccessAfterAuthFailures(fetch: nat -> Attempt, maxRetries: int, k: nat)
    requires k < maxRetries
    requires AuthFailuresBetween(fetch, 0, k)
    requires fetch(k).Fetched?
    ensures BackoffSpec(fetch, maxRetries) == FetchRun(Found(fetch(k).profile), Doubling(InitialBackoff, k))
    ensures Sum(BackoffSpec(fetch, maxRetries).sleeps) == InitialBackoff * (Pow2(k) - 1)
    ensures Attempts(BackoffSpec(fetch, maxRetries)) == k + 1
  {
    StopsAt(fetch, maxRetries, 0, InitialBackoff, k);
    DoublingSum(InitialBackoff, k);
    DoublingLength(InitialBackoff, k);
  }

  /**
   * With the default bound of 5 retries the loop sleeps at most
   * 60 + 120 + 240 + 480 + 960 = 1860 seconds in all.
   */
  lemma DefaultBackoffTotal(fetch: nat -> Attempt)
    ensures Sum(BackoffSpec(fetch, DefaultMaxRetries).sleeps) <= 1860
  {
    var run := BackoffSpec(fetch, DefaultMaxRetries);
    var k := |run.sleeps|;
    BackoffFromFacts(fetch, DefaultMaxRetries, 0, InitialBackoff);
    DoublingSum(InitialBackoff, k);
    assert k <= 5;
    assert Pow2(k) <= 32 by {
      assert Pow2(0) == 1 && Pow2(1) == 2 && Pow2(2) == 4 && Pow2(3) == 8 && Pow2(4) == 16 && Pow2(5) == 32;
    }
  }

  /**
   * k authorization failures followed by any other failure, within the
   * bound: that failure's text is raised after exactly k sleeps; with k = 0
   * it is raised at once, with no sleep and no further call.
   */
  lemma {:induction false} FatalAfterAuthFailures(fetch: nat -> Attempt, maxRetries: int, k: nat)
    requires k < maxRetries
    requires AuthFailuresBetween(fetch, 0, k)
    requires fetch(k).Failed? && !IsAuthError(fetch(k).message)
    ensures BackoffSpec(fetch, maxRetries) == FetchRun(Reraised(fetch(k).message), Doubling(InitialBackoff, k))
    ensures Attempts(BackoffSpec(fetch, maxRetries)) == k + 1
  {
    StopsAt(fetch, maxRetries, 0, InitialBackoff, k);
    DoublingLength(InitialBackoff, k);
  }

  /** `maxRetries` authorization failures in a row end in the terminal error, after `maxRetries` sleeps. */
  lemma {:induction false} ExhaustedAfterAuthFailures(fetch: nat -> Attempt, maxRetries: nat)
    requires AuthFailuresBetween(fetch, 0, maxRetries)
    ensures BackoffSpec(fetch, maxRetries)
         == FetchRun(ExceededRetries(maxRetries), Doubling(InitialBackoff, maxRetries))
    ensures Attempts(BackoffSpec(fetch, maxRetries)) == maxRetries
  {
    StopsAt(fetch, maxRetries, 0, InitialBackoff, maxRetries);
    DoublingLength(InitialBackoff, maxRetries);
  }

  /** The backoff after `n` doublings of `b`. */
  function NthBackoff(b: nat, n: nat): nat
    decreases n
  {
    if n == 0 then b else NthBackoff(2 * b, n - 1)
  }

  /** From state `retries`, with only authorization failures until call `k`, the loop reaches call `k` having slept the doubling sequence. */
  lemma {:induction false} StopsAt(fetch: nat -> Attempt, maxRetries: int, retries: nat, backoff: nat, k: nat)
    requires retries <= k && k <= maxRetries
    requires AuthFailuresBetween(fetch, retries, k)
    ensures var run := BackoffFrom(fetch, maxRetries, retries, backoff);
      var at := BackoffFrom(fetch, maxRetries, k, NthBackoff(backoff, k - retries));
      run.sleeps == Doubling(backoff, k - retries) + at.sleeps && run.outcome == at.outcome
    decreases k - retries
  {
    if retries < k {
      assert IsAuthFailure(fetch(retries));
      StopsAt(fetch, maxRetries, retries + 1, 2 * backoff, k);
      var rest := BackoffFrom(fetch, maxRetries, retries + 1, 2 * backoff);
      assert BackoffFrom(fetch, maxRetries, retries, backoff) == FetchRun(rest.outcome, [backoff] + rest.sleeps);
      assert Doubling(backoff, k - retries) == [backoff] + Doubling(2 * backoff, k - (retries + 1));
      assert NthBackoff(backoff, k - retries) == NthBackoff(2 * backoff, k - (retries + 1));
    }
  }

  // ---------------------------------------------------------------------
  // Post collection
  // ---------------------------------------------------------------------

  /** A post as the collaborator exposes it; likes and comments may be hidden. */
  datatype Post = Post(
    mediaId: int,
    shortcode: string,
    ownerUsername: string,
    likes: Option<int>,
    comments: Option<int>,
    date: Stamp,
    caption: Option<string>)

  /** One item the iterator yields: a post whose fields read, or one whose row cannot be built. */
  datatype PostItem = Readable(post: Post) | Unreadable(shortcode: string, error: string)

  /**
   * The lazy, forward-only post iterator: it yields `items` in order and
   * then either ends (`failure` is None) or raises an error with this text.
   */
  datatype PostSource = PostSource(items: seq<PostItem>, failure: Option<string>)

  /** One output record, with the columns of the raw CSV file. */
  datatype Row = Row(
    mediaId: int,
    urlCode: string,
    link: string,
    user: string,
    likes: Option<int>,
    comments: Option<int>,
    date: Stamp,
    caption: string)

  /** How the iteration ended. */
  datatype Ending =
    | Exhausted                  // the iterator ran out
    | Stopped                    // `amount` rows were collected and the next item was pulled
    | RateLimited(message: string)  // the iterator raised a 401/429 error: rows so far are kept
    | Propagated(message: string)   // the iterator raised any other error

  /** The rows appended, in order, and how the iteration ended. */
  datatype ScrapeRun = ScrapeRun(rows: seq<Row>, ending: Ending)

  /** What `perform_scrape` gives its caller. */
  datatype ScrapeResult = Returned(rows: seq<Row>) | Raised(message: string)

  const PermalinkPrefix: string := "https://www.instagram.com/p/"

  /** Seconds slept after an iteration failure that is rate-limit-like. */
  const LoopBackoff: nat := 60
  /** Seconds of the extra break after every tenth row. */
  const PeriodicBreak: nat := 60
  /** Bounds of the random pause after each row. */
  const MinJitter: nat := 15
  const MaxJitter: nat := 30

  /** An iteration failure ends the run quietly when its text mentions 401 or 429. */
  predicate IsRateLimitError(message: string)
  {
    Contains(message, "401") || Contains(message, "429")
  }

  /** The caption column: missing means empty; newlines become spaces; outer whitespace is stripped. */
  function NormalizeCaption(caption: Option<string>): (r: string)
    ensures '\n' !in r
    ensures r == [] || (!IsSpace(r[0]) && !IsSpace(r[|r| - 1]))
    ensures |r| <= |caption.GetOr("")|
    ensures caption.None? ==> r == ""
    ensures exists a: nat :: SliceAfterTrim(ReplaceNewlines(caption.GetOr("")), r, a)
  {
    var s := ReplaceNewlines(caption.GetOr(""));
    var r := Strip(s);
    StripSlice(s);
    SliceWithoutNewlines(s, r, LeadingSpaces(s));
    r
  }

  /** A slice of a string without newlines has none either. */
  lemma SliceWithoutNewlines(s: string, r: string, a: nat)
    requires SliceAfterTrim(s, r, a)
    requires forall i :: 0 <= i < |s| ==> s[i] != '\n'
    ensures '\n' !in r
  {
    forall k | 0 <= k < |r| ensures r[k] != '\n' {
      assert r[k] == s[a + k];
    }
  }

  /** Normalizing an already normalized caption changes nothing. */
  lemma NormalizeCaptionIdempotent(caption: Option<string>)
    ensures NormalizeCaption(Some(NormalizeCaption(caption))) == NormalizeCaption(caption)
  {
    var r := NormalizeCaption(caption);
    ReplaceWithoutNewlines(r);
    StripOfStripped(r);
  }

  /** The permalink of a shortcode. */
  function Permalink(shortcode: string): string
  {
    PermalinkPrefix + shortcode + "/"
  }

  /** Reads the shortcode back out of a permalink, if it is one. */
  function ShortcodeOfLink(link: string): Option<string>
  {
    if |PermalinkPrefix| + 1 <= |link| && PermalinkPrefix <= link && link[|link| - 1] == '/'
    then Some(link[|PermalinkPrefix|..|link| - 1])
    else None
  }

  /** The row built from one post (the dictionary built in `perform_scrape`'s inner `try`). */
  function MakeRow(p: Post): (r: Row)
    ensures r.urlCode == p.shortcode
    ensures ShortcodeOfLink(r.link) == Some(r.urlCode)
    ensures r.mediaId == p.mediaId && r.user == p.ownerUsername && r.date == p.date
    ensures r.likes == p.likes && r.comments == p.comments
    ensures r.caption == NormalizeCaption(p.caption)
    ensures '\n' !in r.caption
    ensures p.caption.None? ==> r.caption == ""
  {
    var link := Permalink(p.shortcode);
    assert link[|PermalinkPrefix|..|link| - 1] == p.shortcode;
    Row(p.mediaId, p.shortcode, link, p.ownerUsername, p.likes, p.comments, p.date,
        NormalizeCaption(p.caption))
  }

  /** The row an item contributes: its row if it can be built, none if it is skipped. */
  function RowOf(item: PostItem): seq<Row>
  {
    match item
    case Readable(p) => [MakeRow(p)]
    case Unreadable(_, _) => []
  }

  /** The rows of the items, skipping those that cannot be built; in iterator order. */
  function AllRows(items: seq<PostItem>): seq<Row>
  {
    if |items| == 0 then [] else RowOf(items[0]) + AllRows(items[1..])
  }

  /** The first `n` elements of `s` (all of them when there are fewer, none when `n` is not positive). */
  function TakeUpTo<T>(s: seq<T>, n: int): (r: seq<T>)
    ensures |r| <= Clip(n) && |r| <= |s|
    ensures r == s[..|r|]
    ensures |r| == (if Clip(n) <= |s| then Clip(n) else |s|)
  {
    if n <= 0 then [] else if n >= |s| then s else s[..n]
  }

  /**
   * The loop of `perform_scrape` as a function of its state: the items not
   * yet pulled and the rows appended so far. Each pass pulls one item; a
   * pull that finds nothing ends or raises; a pull with `amount` rows
   * already collected breaks; otherwise the row is appended or the item
   * skipped.
   */
  function CollectFrom(items: seq<PostItem>, failure: Option<string>, amount: int, rows: seq<Row>): ScrapeRun
    decreases |items|
  {
    if |items| == 0 then ScrapeRun(rows, EndingOf(failure))
    else if |rows| >= amount then ScrapeRun(rows, Stopped)
    else CollectFrom(items[1..], failure, amount, rows + RowOf(items[0]))
  }

  /** How the iteration ends when the iterator has no further item. */
  function EndingOf(failure: Option<string>): Ending
  {
    match failure
    case None => Exhausted
    case Some(m) => if IsRateLimitError(m) then RateLimited(m) else Propagated(m)
  }

  function ScrapeSpec(source: PostSource, amount: int): ScrapeRun
  {
    CollectFrom(source.items, source.failure, amount, [])
  }

  /** Only a non-rate-limit iteration error reaches the caller; every other ending returns the rows. */
  function ResultOf(run: ScrapeRun): ScrapeResult
  {
    match run.ending
    case Propagated(m) => Raised(m)
    case _ => Returned(run.rows)
  }

  /**
   * The sleeps of the pacing policy for rows paused with `jitters`: after
   * each row its random pause, and after every tenth row a further break.
   */
  function PaceLog(jitters: seq<nat>): seq<nat>
  {
    if |jitters| == 0 then []
    else PaceLog(jitters[..|jitters| - 1]) + [jitters[|jitters| - 1]]
         + (if |jitters| % 10 == 0 then [PeriodicBreak] else [])
  }

  /** One pull of the loop: below `amount`, the item's row (if any) is appended. */
  lemma CollectStep(items: seq<PostItem>, i: nat, failure: Option<string>, amount: int, rows: seq<Row>)
    requires i < |items| && |rows| < amount
    ensures CollectFrom(items[i..], failure, amount, rows)
            == CollectFrom(items[i + 1..], failure, amount, rows + RowOf(items[i]))
  {
    assert items[i..][1..] == items[i + 1..] && items[i..][0] == items[i];
  }

  /** Where the loop leaves off: a break below the last item, or the iterator's own end. */
  lemma CollectDone(items: seq<PostItem>, i: nat, failure: Option<string>, amount: int, rows: seq<Row>)
    requires i <= |items| && (i == |items| || |rows| >= amount)
    ensures CollectFrom(items[i..], failure, amount, rows)
            == if i < |items| then ScrapeRun(rows, Stopped) else ScrapeRun(rows, EndingOf(failure))
  {
  }

  /** Pausing after one more row adds its pause, and a break after every tenth row. */
  lemma PaceLogSnoc(jitters: seq<nat>, pause: nat)
    ensures PaceLog(jitters + [pause])
            == PaceLog(jitters) + [pause] + (if (|jitters| + 1) % 10 == 0 then [PeriodicBreak] else [])
  {
    assert (jitters + [pause])[..|jitters|] == jitters;
  }

  /**
   * `perform_scrape`: pulls items until the iterator ends or `amount` rows
   * are collected, appending a row per readable post and pausing after each;
   * an iteration failure mentioning 401 or 429 sleeps once and returns the
   * rows so far, any other is raised. `jitters` are the random pauses drawn.
   */
  method PerformScrape(source: PostSource, amount: int)
    returns (result: ScrapeResult, jitters: seq<nat>, sleeps: seq<nat>)
    ensures result == ResultOf(ScrapeSpec(source, amount))
    ensures |jitters| == |ScrapeSpec(source, amount).rows|
    ensures forall k :: 0 <= k < |jitters| ==> MinJitter <= jitters[k] <= MaxJitter
    ensures sleeps == PaceLog(jitters)
                      + (if ScrapeSpec(source, amount).ending.RateLimited? then [LoopBackoff] else [])
  {
    var items := source.items;
    var rows: seq<Row> := [];
    var count := 0;
    jitters, sleeps := [], [];
    var i := 0;
    while i < |items| && count < amount
      invariant 0 <= i <= |items|
      invariant count == |rows| == |jitters|
      invariant ScrapeSpec(source, amount) == CollectFrom(items[i..], source.failure, amount, rows)
      invariant forall k :: 0 <= k < |jitters| ==> MinJitter <= jitters[k] <= MaxJitter
      invariant sleeps == PaceLog(jitters)
    {
      var item := items[i];
      CollectStep(items, i, source.failure, amount, rows);
      if item.Readable? {
        rows := rows + [MakeRow(item.post)];
        count := count + 1;
        var pause: nat :| MinJitter <= pause <= MaxJitter;
        PaceLogSnoc(jitters, pause);
        jitters := jitters + [pause];
        sleeps := sleeps + [pause];
        if count % 10 == 0 {
          sleeps := sleeps + [PeriodicBreak];
        }
      } else {
        assert rows + RowOf(item) == rows;
      }
      i := i + 1;
    }
    CollectDone(items, i, source.failure, amount, rows);
    if i < |items| {
      result := Returned(rows);
    } else {
      match source.failure
      case None =>
        result := Returned(rows);
      case Some(m) =>
        if IsRateLimitError(m) {
          sleeps := sleeps + [LoopBackoff];
          result := Returned(rows);
        } else {
          result := Raised(m);
        }
    }
  }

  lemma {:induction false} AllRowsAppend(a: seq<PostItem>, b: seq<PostItem>)
    ensures AllRows(a + b) == AllRows(a) + AllRows(b)
  {
    if |a| > 0 {
      assert (a + b)[1..] == a[1..] + b;
      AllRowsAppend(a[1..], b);
    } else {
      assert a + b == b;
    }
  }

  /**
   * From any state reachable from the start, the rows are those already
   * collected followed by the first rows of the remaining items, up to
   * `amount` in all.
   */
  lemma {:induction false} CollectRows(items: seq<PostItem>, failure: Option<string>, amount: int, acc: seq<Row>)
    requires acc == [] || |acc| <= amount
    ensures CollectFrom(items, failure, amount, acc).rows == acc + TakeUpTo(AllRows(items), amount - |acc|)
    decreases |items|
  {
    if |items| > 0 && |acc| < amount {
      var next := acc + RowOf(items[0]);
      CollectRows(items[1..], failure, amount, next);
      assert TakeUpTo(AllRows(items), amount - |acc|)
          == RowOf(items[0]) + TakeUpTo(AllRows(items[1..]), amount - |next|);
    } else if |items| > 0 {
      assert TakeUpTo(AllRows(items), amount - |acc|) == [];
    }
  }

  /** The rows of all items but the last, split at the first item. */
  lemma AllRowsButLast(items: seq<PostItem>)
    requires |items| > 1
    ensures AllRows(items[..|items| - 1]) == RowOf(items[0]) + AllRows(items[1..][..|items| - 2])
  {
    var front := items[..|items| - 1];
    assert front[0] == items[0];
    assert front[1..] == items[1..][..|items| - 2];
  }

  /**
   * From any state reachable from the start, the loop breaks exactly when
   * `amount` rows stand collected before the last item is pulled; otherwise
   * the iterator's own end decides the ending.
   */
  lemma {:induction false} CollectEnding(items: seq<PostItem>, failure: Option<string>, amount: int, acc: seq<Row>)
    requires acc == [] || |acc| <= amount
    ensures var run := CollectFrom(items, failure, amount, acc);
      && (run.ending == Stopped <==> |items| > 0 && |acc| + |AllRows(items[..|items| - 1])| >= amount)
      && (run.ending != Stopped ==> run.ending == EndingOf(failure))
    decreases |items|
  {
    if |items| > 0 && |acc| < amount {
      var next := acc + RowOf(items[0]);
      CollectEnding(items[1..], failure, amount, next);
      if |items| > 1 {
        AllRowsButLast(items);
      } else {
        assert items[..|items| - 1] == [];
      }
    } else if |items| > 0 && acc != [] {
      assert |acc| == amount;
    }
  }

  /**
   * What `perform_scrape` collects: the first rows of the readable posts in
   * iterator order, at most `amount` of them (none for a non-positive
   * amount). Skipped posts do not count towards `amount`, and each row
   * carries its post's shortcode and permalink.
   */
  lemma ScrapeRows(source: PostSource, amount: int)
    ensures var run := ScrapeSpec(source, amount);
      && run.rows == TakeUpTo(AllRows(source.items), amount)
      && |run.rows| <= Clip(amount)
      && forall k :: 0 <= k < |run.rows| ==> PermalinkOf(run.rows[k])
  {
    CollectRows(source.items, source.failure, amount, []);
    AllRowsLinks(source.items);
  }

  /** The row's link is the permalink of its shortcode. */
  predicate PermalinkOf(r: Row)
  {
    ShortcodeOfLink(r.link) == Some(r.urlCode)
  }

  /** Every row built from the items carries the permalink of its own shortcode. */
  lemma {:induction false} AllRowsLinks(items: seq<PostItem>)
    ensures forall k :: 0 <= k < |AllRows(items)| ==> PermalinkOf(AllRows(items)[k])
  {
    if |items| > 0 {
      AllRowsLinks(items[1..]);
    }
  }

  /**
   * How `perform_scrape` ends: with `amount` rows collected and one more
   * item pulled it returns them; otherwise the iterator's end returns the
   * rows, a 401/429 error returns all the rows collected so far (nothing is
   * lost, and at most `amount` of them), and any other error is raised.
   */
  lemma ScrapeEnding(source: PostSource, amount: int)
    ensures var run := ScrapeSpec(source, amount);
      var items := source.items;
      && (run.ending == Stopped <==> |items| > 0 && |AllRows(items[..|items| - 1])| >= amount)
      && (run.ending == Exhausted <==> run.ending != Stopped && source.failure.None?)
      && (run.ending.RateLimited? <==>
            run.ending != Stopped && source.failure.Some? && IsRateLimitError(source.failure.value))
      && (run.ending.Propagated? <==>
            run.ending != Stopped && source.failure.Some? && !IsRateLimitError(source.failure.value))
      && (run.ending.RateLimited? ==> run.rows == AllRows(items) && |run.rows| <= Clip(amount))
      && (ResultOf(run).Raised? <==> run.ending.Propagated?)
      && (ResultOf(run).Raised? ==> ResultOf(run).message == source.failure.value)
  {
    var items := source.items;
    var run := ScrapeSpec(source, amount);
    CollectRows(items, source.failure, amount, []);
    CollectEnding(items, source.failure, amount, []);
    if run.ending.RateLimited? && |items| > 0 {
      var last := items[|items| - 1..];
      assert items == items[..|items| - 1] + last;
      AllRowsAppend(items[..|items| - 1], last);
      assert |AllRows(last)| <= 1;
    }
  }

  lemma {:induction false} SumAppend(a: seq<nat>, b: seq<nat>)
    ensures Sum(a + b) == Sum(a) + Sum(b)
  {
    if |a| > 0 {
      assert (a + b)[1..] == a[1..] + b;
      SumAppend(a[1..], b);
    } else {
      assert a + b == b;
    }
  }

  /**
   * The pacing log: one pause per row plus one break per ten rows, and its
   * total is the sum of the pauses plus 60 seconds per ten rows.
   */
  lemma {:induction false} PaceLogTotals(jitters: seq<nat>)
    ensures |PaceLog(jitters)| == |jitters| + |jitters| / 10
    ensures Sum(PaceLog(jitters)) == Sum(jitters) + PeriodicBreak * (|jitters| / 10)
    decreases |jitters|
  {
    var n := |jitters|;
    if n > 0 {
      var front := jitters[..n - 1];
      var last := jitters[n - 1];
      var extra: seq<nat> := if n % 10 == 0 then [PeriodicBreak] else [];
      PaceLogTotals(front);
      assert jitters == front + [last];
      SumAppend(PaceLog(front) + [last], extra);
      SumAppend(PaceLog(front), [last]);
      SumAppend(front, [last]);
      assert n / 10 == (n - 1) / 10 + (if n % 10 == 0 then 1 else 0);
    }
  }

  lemma {:induction false} SumBounds(s: seq<nat>, lo: nat, hi: nat)
    requires forall k :: 0 <= k < |s| ==> lo <= s[k] <= hi
    ensures lo * |s| <= Sum(s) <= hi * |s|
  {
    if |s| > 0 {
      SumBounds(s[1..], lo, hi);
      var n := |s| - 1;
      assert lo * |s| == lo + lo * n && hi * |s| == hi + hi * n;
    }
  }

  /**
   * With every random pause in 15..30, collecting n rows sleeps between
   * 15·n and 30·n seconds plus 60 for every ten rows.
   */
  lemma PaceLogBounds(jitters: seq<nat>)
    requires forall k :: 0 <= k < |jitters| ==> MinJitter <= jitters[k] <= MaxJitter
    ensures MinJitter * |jitters| + PeriodicBreak * (|jitters| / 10)
            <= Sum(PaceLog(jitters))
            <= MaxJitter * |jitters| + PeriodicBreak * (|jitters| / 10)
  {
    PaceLogTotals(jitters);
    SumBounds(jitters, MinJitter, MaxJitter);
  }
}
