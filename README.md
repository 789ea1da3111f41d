# Instagram profile scraper and training-table builder, modelled in Dafny

This project models the two parts of the scraper repository that contain real
sequential logic.

- **The collector** (`scraper.py`).
  - `get_profile_with_backoff` fetches a profile. It retries authorization-like
    failures after a backoff that doubles each time (60, 120, 240, ... seconds).
    After `max_retries` such failures it raises a terminal error. Any other
    failure is raised again at once.
  - `perform_scrape` pulls posts from a forward-only iterator and builds up to
    `amount` CSV rows. A post whose row cannot be built is skipped. If the
    iteration fails with a 401/429 error, the rows collected so far are
    returned after one 60-second pause. Any other iteration error propagates.
- **The aggregator** (`src/process_data.py`).
  - It reads every raw CSV file, skipping the ones that cannot be read. It
    fails when no file is found, or when none can be read.
  - It concatenates the rows and deduplicates them on `URL Code`, keeping the
    first occurrence.
  - It derives `caption_length` and `hashtag_count` from the caption and takes
    `post_hour` and `post_day_of_week` from the date.
  - It projects to six columns and fills the missing cells with 0.

Files:

- `common.dfy` (module `Common`): `Option`, `Result`, and the parsed timestamp `Stamp`.
- `text.dfy` (module `Text`): the Python string operations the code uses.
  These are the substring test `in`, `str.strip`, `replace('\n', ' ')` and `count('#')`.
- `scraper.dfy` (module `Scraper`): the collector.
- `process_data.dfy` (module `Aggregator`): the aggregator.

How the outside world is represented:

- **Profile fetch.** The function `fetch: nat -> Attempt` gives the outcome of
  the i-th call of `Profile.from_username`. Each outcome is a profile or an
  error text.
- **Post iterator.** A `PostSource` is the items the iterator yields, in
  order. After them the iterator either ends or raises an error with a given
  text.
- **Sleeps.** Nothing sleeps. The methods return the list of durations they
  would have slept.
- **Random pause.** `random.randint(15, 30)` is a nondeterministic choice in
  15..30. `PerformScrape` returns the pauses it chose as `jitters`.
- **Raw CSV files.** Each file arrives already read: either its parsed rows
  or a read error. A cell that pandas reads as NaN is `None`.
- **Dates.** The date arrives already parsed, as its hour (0..23) and its day
  of week (0..6, Monday first).

Two behaviours of the code are modelled exactly as written:

- **An extra pull.** `perform_scrape` pulls the next item before it checks
  `count >= amount`. So after `amount` rows have been collected, one more item
  is pulled when the iterator still has one. If the iterator instead raises
  at that pull, the error path is taken: a 401/429 error returns the rows, and
  any other error propagates and loses them. `ScrapeEnding` states this case
  split exactly.
- **Missing URL codes.** `drop_duplicates` treats rows whose `URL Code` is
  missing (NaN) as duplicates of each other. The model keys on
  `Option<string>`, so all `None` keys are one value too.

The code matches the exact substrings `"401"`, `"login_required"` and
`"ConnectionException"`, and the model follows it.

## Model

| member | source | states |
|---|---|---|
| `Text.Contains` | scraper.py:44 | defines Python's substring test `sub in s`: `sub` is a prefix of `s` or occurs in `s` without its first character |
| `Text.ContainsIffOccurs` | scraper.py:44 | Python's substring test `sub in s`, as used to classify errors, holds exactly when `sub` occurs in `s` at some index |
| `Text.TrimLeft` | scraper.py:103 | the result is a suffix of the input; everything dropped is whitespace; the result does not start with whitespace |
| `Text.TrimRight` | scraper.py:103 | the result is a prefix of the input; everything dropped is whitespace; the result does not end with whitespace |
| `Text.Strip` | scraper.py:103 | `str.strip()` returns a contiguous slice of its input; only whitespace is removed, at both ends; the result neither starts nor ends with whitespace |
| `Text.StripIdempotent` | scraper.py:103 | stripping an already stripped string changes nothing |
| `Text.ReplaceNewlines` | scraper.py:103 | `replace('\n', ' ')` keeps the length; each newline becomes a space and every other character stays |
| `Text.CountChar` | src/process_data.py:50 | `s.count(c)` is at most `len(s)`; it is 0 exactly when `c` does not occur; it is `len(s)` exactly when every character is `c` |
| `Text.CountCharAppend` | src/process_data.py:50 | the count over a concatenation is the sum of the counts over its two parts |
| `Scraper.IsAuthError` | scraper.py:44 | defines an authorization-like failure: its text contains `"401"`, `"login_required"` or `"ConnectionException"` |
| `Scraper.GetProfileWithBackoff` | scraper.py:26-53 | the retry loop returns the outcome, the sleeps and the number of fetch calls given by the backoff specification `BackoffSpec` |
| `Scraper.BackoffFromFacts` | scraper.py:34-51 | from any loop state: the sleeps double from the current backoff; every call that led to a sleep failed with an authorization-like error; the loop stops at the first success (returning that profile) or at the first other failure (re-raising its text); it never calls past `max_retries` |
| `Scraper.BackoffSpecFacts` | scraper.py:26-53 | from the start: at most `max_retries` fetch calls; the i-th sleep is 60·2^i; the sleeps count the authorization failures before the last call; the terminal "exceeded" error comes after exactly `max_retries` sleeps |
| `Scraper.DoublingAt` | scraper.py:32-47 | the i-th sleep of a doubling schedule that starts at b is b·2^i |
| `Scraper.DoublingSum` | scraper.py:32-47 | n doubling sleeps from b add up to b·(2^n − 1) |
| `Scraper.SuccessAfterAuthFailures` | scraper.py:34-48 | k authorization failures and then a success, with k below the bound: that profile is returned after k sleeps of 60, 120, ... seconds (60·(2^k − 1) in all) and k + 1 calls, so `retries` equals k |
| `Scraper.FatalAfterAuthFailures` | scraper.py:44-51 | k authorization failures and then any other failure: that failure is re-raised after exactly k sleeps and k + 1 calls; with k = 0 it is raised at once, with no sleep and no second call |
| `Scraper.ExhaustedAfterAuthFailures` | scraper.py:34-53 | `max_retries` authorization failures in a row end in the "Exceeded maximum retries" error, after `max_retries` calls and sleeps |
| `Scraper.DefaultBackoffTotal` | scraper.py:26-48 | with the default bound of 5 retries the loop sleeps at most 1860 seconds in all |
| `Scraper.NormalizeCaption` | scraper.py:103 | the caption cell is the contiguous slice of the caption (newlines turned into spaces, missing read as `""`) left after dropping whitespace at both ends: every character outside the slice is whitespace; it never contains a newline; it neither starts nor ends with whitespace; it is no longer than the caption; a missing caption gives `""` |
| `Scraper.NormalizeCaptionIdempotent` | scraper.py:103 | normalizing an already normalized caption changes nothing |
| `Scraper.MakeRow` | scraper.py:95-104 | `URL Code` is the post's shortcode; the shortcode can be read back out of `Link` as a permalink; the other fields are the post's own; the caption is the post's caption normalized by `NormalizeCaption`, so it has no newline and is `""` when missing |
| `Scraper.IsRateLimitError` | scraper.py:124 | defines the iteration error that ends the scrape quietly: its text contains `"401"` or `"429"` |
| `Scraper.PerformScrape` | scraper.py:78-131 | the loop returns the result given by `ScrapeSpec`; it draws one pause in 15..30 per appended row; it sleeps those pauses, with a 60 s break after every tenth row and one 60 s backoff when a 401/429 error stops the iteration |
| `Scraper.CollectRows` | scraper.py:88-118 | from any loop state: the rows are the ones already collected, followed by the first rows of the remaining readable posts, up to `amount` in all |
| `Scraper.CollectEnding` | scraper.py:87-129 | from any loop state: the loop breaks exactly when `amount` rows are collected before the last item is pulled; otherwise the iterator's end decides how it ends |
| `Scraper.ScrapeRows` | scraper.py:88-106 | `perform_scrape` collects the first rows of the readable posts, in iterator order, at most `amount` of them; skipped posts do not count; each row's link is the permalink of its shortcode |
| `Scraper.AllRowsLinks` | scraper.py:96-98 | every row built from the posts carries the permalink of its own shortcode |
| `Scraper.ScrapeEnding` | scraper.py:120-129 | the decision table of how the scrape ends: a break, the end of the iterator, a 401/429 error (all rows collected so far are returned, at most `amount`), or any other error (raised with its own text) |
| `Scraper.PaceLog` | scraper.py:108-114 | defines the pacing sleeps of the appended rows: row k sleeps its random pause, followed by 60 s when k is a multiple of ten |
| `Scraper.PaceLogTotals` | scraper.py:108-114 | the pacing log holds one pause per row plus one 60 s break per ten rows; its total is the sum of the pauses plus 60 s per ten rows |
| `Scraper.PaceLogBounds` | scraper.py:109-114 | with every pause in 15..30, n rows sleep between 15·n and 30·n seconds, plus 60 s per ten rows |
| `Aggregator.ReadableFrames` | src/process_data.py:23-29 | defines the frames loaded: those of the files that parse, in file order |
| `Aggregator.ReadableFramesEmpty` | src/process_data.py:23-33 | no frame is loaded exactly when every file fails to read |
| `Aggregator.LoadFrames` | src/process_data.py:23-29 | the loading loop keeps the frames of the readable files, in file order, and skips the others |
| `Aggregator.Concat` | src/process_data.py:35 | defines `pd.concat`: the rows of every frame, frame after frame |
| `Aggregator.KeepFirst` | src/process_data.py:41 | defines `drop_duplicates(subset=['URL Code'])`: a row is kept exactly when no earlier row has its URL code (missing codes counting as one value) |
| `Aggregator.KeepFirstKeys` | src/process_data.py:41 | deduplication keeps every URL code of its input, and keeps as many rows as there are distinct codes |
| `Aggregator.KeepFirstUnique` | src/process_data.py:41 | after deduplication no two rows share a URL code |
| `Aggregator.KeepFirstOrder` | src/process_data.py:41 | the kept rows are a subsequence of the input, and they are ordered by the index of their code's first occurrence: their relative order is unchanged |
| `Aggregator.KeepFirstFirst` | src/process_data.py:41 | the row kept for each URL code is the first row of the input with that code |
| `Aggregator.KeepFirstFacts` | src/process_data.py:35-41 | the deduplication facts together: same codes, unique codes, input order (as a subsequence and by first-occurrence index), one row per code, first occurrence kept |
| `Aggregator.KeepFirstOfUnique` | src/process_data.py:41 | rows whose URL codes are already distinct come out of deduplication unchanged |
| `Aggregator.KeepFirstIdempotent` | src/process_data.py:41 | deduplicating a deduplicated table changes nothing |
| `Aggregator.DropDuplicates` | src/process_data.py:41 | the one-pass deduplication returns exactly the keep-first result |
| `Aggregator.Features` | src/process_data.py:43-62 | `caption_length` is the length of the caption and `hashtag_count` is its number of `#`, with a missing caption counted as `""` (so both are 0); 0 ≤ `hashtag_count` ≤ `caption_length`; the hour and weekday are the date's, or 0 when the date is missing, so they lie in 0..23 and 0..6; missing likes or comments become 0 and present ones are unchanged |
| `Aggregator.Cells` | src/process_data.py:60 | a training row is written as six cells; cell k holds the value of the column named `Columns[k]` (`Likes, Comments, caption_length, hashtag_count, post_hour, post_day_of_week`) |
| `Aggregator.ProcessData` | src/process_data.py:6-62 | the stage returns the result given by `ProcessSpec`: the two terminal failures, or the table built from the readable files |
| `Aggregator.ProcessFailures` | src/process_data.py:15-33 | the stage fails with "no raw data" exactly when no file is found; it fails with "no valid data" exactly when files exist but none can be read; it succeeds exactly when some file is readable |
| `Aggregator.ProcessTable` | src/process_data.py:35-62 | on success: the header is the six columns in order; there is one row per distinct URL code of the readable files; each row holds the features of the first raw row with its code, and its cells are in range |
| `Aggregator.ReprocessDeduped` | src/process_data.py:35-62 | running the stage again on one file that holds its own deduplicated rows gives the same table |

## Left out

- `get_instaloader_instance` and all of instaloader are left out. These are the session settings, the user agent, the request timeout, the three low-level connection attempts, and the network. They appear only as the outcome function `fetch` and the post source.
- `time.sleep` and `random.randint` do not run. Sleeps are returned as a list of durations, and the random pause is a nondeterministic choice in 15..30.
- Reading the shortcode for the progress message at `scraper.py:92` sits outside the inner `try`. The model assumes that read never fails, so an item whose row cannot be built is always skipped, never raised.
- `save_to_csv` and all CSV file I/O are left out. This includes directory creation, timestamped file names, `glob` file discovery and its order, `read_csv`, and `to_csv`. A raw file's parse result is an input.
- `post.date_local.strftime` and `pd.to_datetime` are left out. A date arrives parsed as its hour and weekday, so a date string that fails to parse, which would crash the aggregator, is not modelled.
- Columns are assumed present. A raw file that lacks one of the used columns would make pandas raise a `KeyError`; this is not modelled.
- Column types are assumed textual where the code treats them as text. `read_csv` guesses each column's type. If a file's captions all look numeric (a post captioned `2024`, say), its `Caption` column holds numbers, and `apply(len)` and `count('#')` then raise; that crash of the whole stage is not modelled. Likewise an all-digit `URL Code` column is read as integers, and such a code no longer equals the same code read as text from another file; the model compares codes as strings.
- Likes and comments are integers. pandas stores a column that has NaN cells as floats; that conversion is not modelled.
- `main_scraper` is left out. It is glue: it dispatches on instaloader exception types, prints, calls `sys.exit`, and reads environment variables. It also calls `save_to_csv` only when rows were collected.
- Console printing is left out.
- `ExceededRetries` is a datatype variant that carries `max_retries`. The model does not build the error's formatted message text.
- `src/train_model.py` is not part of this model. It is a scikit-learn regression over floating-point data, plus pickling.
