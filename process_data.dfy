/**
 * The aggregator: merge the raw CSV files into one training table.
 *
 * The files are given already read: each is either the rows pandas parsed
 * from it or the error reading it raised. A cell pandas reads as NaN is
 * `None`. The date column arrives parsed.
 */
module Aggregator {
  import opened Common
  import opened Text

  /** One row of a raw file, as far as the table uses it. */
  datatype RawRow = RawRow(
    urlCode: Option<string>,
    likes: Option<int>,
    comments: Option<int>,
    date: Option<Stamp>,
    caption: Option<string>)

  /** One raw file: the rows it parsed to, or the error reading it raised. */
  datatype RawFile = Parsed(rows: seq<RawRow>) | Unreadable(error: string)

  /** The two terminal conditions of the stage. */
  datatype StageError =
    | NoRawData    // no raw file was found
    | NoValidData  // no raw file could be read

  /** One row of the training table; the fields are in the order of `Columns`. */
  datatype TrainingRow = TrainingRow(
    likes: int,
    comments: int,
    captionLength: nat,
    hashtagCount: nat,
    postHour: int,
    postDayOfWeek: int)

  /** The header of the training table. */
  const Columns: seq<string> :=
    ["Likes", "Comments", "caption_length", "hashtag_count", "post_hour", "post_day_of_week"]

  /** The training table: its header and its rows. */
  datatype Table = Table(header: seq<string>, rows: seq<TrainingRow>)

  // ---------------------------------------------------------------------
  // Loading
  // ---------------------------------------------------------------------

  /** The frames of the files that could be read, in file order. */
  function ReadableFrames(files: seq<RawFile>): seq<seq<RawRow>>
  {
    if |files| == 0 then []
    else ReadableFrames(files[..|files| - 1])
         + (match files[|files| - 1]
            case Parsed(rows) => [rows]
            case Unreadable(_) => [])
  }

  /** No frame is read exactly when every file fails to read. */
  lemma {:induction false} ReadableFramesEmpty(files: seq<RawFile>)
    ensures ReadableFrames(files) == [] <==> forall k :: 0 <= k < |files| ==> files[k].Unreadable?
  {
    if |files| > 0 {
      ReadableFramesEmpty(files[..|files| - 1]);
    }
  }

  /** The loading loop: try each file, keep what parses, skip what does not. */
  method LoadFrames(files: seq<RawFile>) returns (frames: seq<seq<RawRow>>)
    ensures frames == ReadableFrames(files)
  {
    frames := [];
    var i := 0;
    while i < |files|
      invariant 0 <= i <= |files|
      invariant frames == ReadableFrames(files[..i])
    {
      assert files[..i + 1][..i] == files[..i];
      match files[i] {
        case Parsed(rows) => frames := frames + [rows];
        case Unreadable(_) =>
      }
      i := i + 1;
    }
    assert files[..|files|] == files;
  }

  /** `pd.concat`: the rows of all frames, frame after frame. */
  function Concat(frames: seq<seq<RawRow>>): seq<RawRow>
  {
    if |frames| == 0 then [] else frames[0] + Concat(frames[1..])
  }

  // ---------------------------------------------------------------------
  // Deduplication on the URL code, keeping the first occurrence
  // ---------------------------------------------------------------------

  /** The URL codes occurring in `rows` (a missing code is one value, as pandas compares NaN keys). */
  function KeySet(rows: seq<RawRow>): set<Option<string>>
  {
    if |rows| == 0 then {} else KeySet(rows[..|rows| - 1]) + {rows[|rows| - 1].urlCode}
  }

  /** `drop_duplicates(subset=['URL Code'])`: a row stays unless an earlier row has its URL code. */
  function KeepFirst(rows: seq<RawRow>): seq<RawRow>
  {
    if |rows| == 0 then []
    else
      var front := rows[..|rows| - 1];
      var last := rows[|rows| - 1];
      KeepFirst(front) + (if last.urlCode in KeySet(front) then [] else [last])
  }

  /** Index of the first row carrying URL code `k`. */
  function FirstIndex(rows: seq<RawRow>, k: Option<string>): (i: nat)
    requires k in KeySet(rows)
    ensures i < |rows| && rows[i].urlCode == k
    ensures forall j :: 0 <= j < i ==> rows[j].urlCode != k
  {
    var front := rows[..|rows| - 1];
    if k in KeySet(front) then
      var i := FirstIndex(front, k);
      assert forall j :: 0 <= j < i ==> rows[j] == front[j];
      i
    else
      KeySetHas(front);
      |rows| - 1
  }

  /** No two rows share a URL code. */
  ghost predicate UniqueKeys(rows: seq<RawRow>)
  {
    forall i, j :: 0 <= i < j < |rows| ==> rows[i].urlCode != rows[j].urlCode
  }

  /** `a` is `b` with some rows left out, the rest in their order. */
  ghost predicate Subsequence(a: seq<RawRow>, b: seq<RawRow>)
    decreases |b|
  {
    if |a| == 0 then true
    else if |b| == 0 then false
    else (a[|a| - 1] == b[|b| - 1] && Subsequence(a[..|a| - 1], b[..|b| - 1]))
         || Subsequence(a, b[..|b| - 1])
  }

  lemma KeySetSnoc(rows: seq<RawRow>, r: RawRow)
    ensures KeySet(rows + [r]) == KeySet(rows) + {r.urlCode}
  {
    assert (rows + [r])[..|rows|] == rows;
  }

  /** Every row's URL code is in the key set. */
  lemma {:induction false} KeySetHas(rows: seq<RawRow>)
    ensures forall i :: 0 <= i < |rows| ==> rows[i].urlCode in KeySet(rows)
  {
    if |rows| > 0 {
      KeySetHas(rows[..|rows| - 1]);
      assert forall i :: 0 <= i < |rows| - 1 ==> rows[i] == rows[..|rows| - 1][i];
    }
  }

  /** Deduplication keeps every URL code of its input, one row per distinct code. */
  lemma {:induction false} KeepFirstKeys(rows: seq<RawRow>)
    ensures KeySet(KeepFirst(rows)) == KeySet(rows)
    ensures |KeepFirst(rows)| == |KeySet(rows)|
  {
    if |rows| > 0 {
      var front := rows[..|rows| - 1];
      var last := rows[|rows| - 1];
      KeepFirstKeys(front);
      assert rows == front + [last];
      KeySetSnoc(front, last);
      if last.urlCode !in KeySet(front) {
        assert KeepFirst(rows) == KeepFirst(front) + [last];
        KeySetSnoc(KeepFirst(front), last);
      } else {
        assert KeepFirst(rows) == KeepFirst(front);
        assert KeySet(rows) == KeySet(front);
      }
    }
  }

  /** After deduplication no two rows share a URL code. */
  lemma {:induction false} KeepFirstUnique(rows: seq<RawRow>)
    ensures UniqueKeys(KeepFirst(rows))
  {
    if |rows| > 0 {
      var front := rows[..|rows| - 1];
      var last := rows[|rows| - 1];
      var kf := KeepFirst(front);
      KeepFirstUnique(front);
      if last.urlCode !in KeySet(front) {
        KeepFirstKeys(front);
        KeySetHas(kf);
        var kept := kf + [last];
        forall i, j | 0 <= i < j < |kept| ensures kept[i].urlCode != kept[j].urlCode {
          if j < |kf| {
            assert kept[i] == kf[i] && kept[j] == kf[j];
          } else {
            assert kept[i] == kf[i];
          }
        }
      }
    }
  }

  /** A code already present before the last row has its first index there. */
  lemma FirstIndexOfFront(rows: seq<RawRow>, k: Option<string>)
    requires |rows| > 0 && k in KeySet(rows[..|rows| - 1])
    ensures k in KeySet(rows)
    ensures FirstIndex(rows, k) == FirstIndex(rows[..|rows| - 1], k)
  {
  }

  /** The kept rows are a subsequence of the input. */
  lemma {:induction false} KeepFirstSubsequence(rows: seq<RawRow>)
    ensures Subsequence(KeepFirst(rows), rows)
  {
    if |rows| > 0 {
      var front := rows[..|rows| - 1];
      var last := rows[|rows| - 1];
      var kf := KeepFirst(front);
      KeepFirstSubsequence(front);
      if last.urlCode in KeySet(front) {
        assert KeepFirst(rows) == kf;
        if |kf| > 0 {
          assert Subsequence(kf, rows[..|rows| - 1]);
        }
      } else {
        var kept := kf + [last];
        assert kept[..|kept| - 1] == kf;
        assert Subsequence(kept, rows);
      }
    }
  }

  /** Kept rows are ordered by the index of their code's first occurrence in the input. */
  lemma {:induction false} KeepFirstIndexOrder(rows: seq<RawRow>)
    ensures forall i, j :: 0 <= i < j < |KeepFirst(rows)| ==>
      KeepFirst(rows)[i].urlCode in KeySet(rows) && KeepFirst(rows)[j].urlCode in KeySet(rows)
      && FirstIndex(rows, KeepFirst(rows)[i].urlCode) < FirstIndex(rows, KeepFirst(rows)[j].urlCode)
  {
    if |rows| > 0 {
      var front := rows[..|rows| - 1];
      var last := rows[|rows| - 1];
      var kf := KeepFirst(front);
      var kept := KeepFirst(rows);
      KeepFirstIndexOrder(front);
      KeepFirstKeys(front);
      KeySetHas(kf);
      KeySetHas(rows);
      assert last.urlCode in KeySet(rows) by {
        assert rows[|rows| - 1] == last;
      }
      assert kept == kf + (if last.urlCode in KeySet(front) then [] else [last]);
      forall m | 0 <= m < |kf|
        ensures kf[m].urlCode in KeySet(rows)
        ensures FirstIndex(rows, kf[m].urlCode) == FirstIndex(front, kf[m].urlCode) < |front|
      {
        assert kf[m].urlCode in KeySet(front);
        FirstIndexOfFront(rows, kf[m].urlCode);
      }
      forall i, j | 0 <= i < j < |kept|
        ensures kept[i].urlCode in KeySet(rows) && kept[j].urlCode in KeySet(rows)
        ensures FirstIndex(rows, kept[i].urlCode) < FirstIndex(rows, kept[j].urlCode)
      {
        assert kept[i] == kf[i];
        if j < |kf| {
          assert kept[j] == kf[j];
          assert FirstIndex(front, kf[i].urlCode) < FirstIndex(front, kf[j].urlCode);
        } else {
          assert kept[j] == last && last.urlCode !in KeySet(front);
          assert FirstIndex(rows, last.urlCode) == |rows| - 1;
        }
      }
    } else {
      assert KeepFirst(rows) == [];
    }
  }

  /**
   * The kept rows appear in the order they had in the input: as a
   * subsequence, and ordered by the index of each code's first occurrence.
   */
  lemma KeepFirstOrder(rows: seq<RawRow>)
    ensures Subsequence(KeepFirst(rows), rows)
    ensures forall i, j :: 0 <= i < j < |KeepFirst(rows)| ==>
      KeepFirst(rows)[i].urlCode in KeySet(rows) && KeepFirst(rows)[j].urlCode in KeySet(rows)
      && FirstIndex(rows, KeepFirst(rows)[i].urlCode) < FirstIndex(rows, KeepFirst(rows)[j].urlCode)
  {
    KeepFirstSubsequence(rows);
    KeepFirstIndexOrder(rows);
  }

  /** The row kept for a URL code is the first row of the input with that code. */
  lemma {:induction false} KeepFirstFirst(rows: seq<RawRow>)
    ensures forall j :: 0 <= j < |KeepFirst(rows)| ==>
      KeepFirst(rows)[j].urlCode in KeySet(rows)
      && KeepFirst(rows)[j] == rows[FirstIndex(rows, KeepFirst(rows)[j].urlCode)]
  {
    KeepFirstKeys(rows);
    KeySetHas(KeepFirst(rows));
    if |rows| > 0 {
      var front := rows[..|rows| - 1];
      var last := rows[|rows| - 1];
      var kf := KeepFirst(front);
      KeepFirstFirst(front);
      KeepFirstKeys(front);
      KeySetHas(kf);
      var kept := KeepFirst(rows);
      forall j | 0 <= j < |kept|
        ensures kept[j].urlCode in KeySet(rows) && kept[j] == rows[FirstIndex(rows, kept[j].urlCode)]
      {
        if j < |kf| {
          assert kept[j] == kf[j];
          assert kf[j].urlCode in KeySet(front);
          assert rows[FirstIndex(front, kf[j].urlCode)] == front[FirstIndex(front, kf[j].urlCode)];
        }
      }
    }
  }

  /**
   * What deduplication keeps: every URL code of the input exactly once, the
   * row kept for a code is the first row with that code, the kept rows are
   * in their input order (ordered by first occurrence), and there is one
   * kept row per distinct code.
   */
  lemma KeepFirstFacts(rows: seq<RawRow>)
    ensures var kept := KeepFirst(rows);
      && KeySet(kept) == KeySet(rows)
      && UniqueKeys(kept)
      && Subsequence(kept, rows)
      && (forall i, j :: 0 <= i < j < |kept| ==>
            kept[i].urlCode in KeySet(rows) && kept[j].urlCode in KeySet(rows)
            && FirstIndex(rows, kept[i].urlCode) < FirstIndex(rows, kept[j].urlCode))
      && |kept| == |KeySet(rows)|
      && forall j :: 0 <= j < |kept| ==>
           kept[j].urlCode in KeySet(rows) && kept[j] == rows[FirstIndex(rows, kept[j].urlCode)]
  {
    KeepFirstKeys(rows);
    KeepFirstUnique(rows);
    KeepFirstOrder(rows);
    KeepFirstFirst(rows);
  }

  /** A sequence whose URL codes are all distinct is its own deduplication. */
  lemma {:induction false} KeepFirstOfUnique(rows: seq<RawRow>)
    requires UniqueKeys(rows)
    ensures KeepFirst(rows) == rows
  {
    if |rows| > 0 {
      var front := rows[..|rows| - 1];
      var last := rows[|rows| - 1];
      KeepFirstOfUnique(front);
      if last.urlCode in KeySet(front) {
        var i := FirstIndex(front, last.urlCode);
        assert false;
      }
      assert rows == front + [last];
    }
  }

  /** Deduplication is idempotent. */
  lemma KeepFirstIdempotent(rows: seq<RawRow>)
    ensures KeepFirst(KeepFirst(rows)) == KeepFirst(rows)
  {
    KeepFirstFacts(rows);
    KeepFirstOfUnique(KeepFirst(rows));
  }

  /** `drop_duplicates(subset=['URL Code'], inplace=True)`: one pass remembering the codes seen. */
  method DropDuplicates(rows: seq<RawRow>) returns (kept: seq<RawRow>)
    ensures kept == KeepFirst(rows)
  {
    kept := [];
    var seen: set<Option<string>> := {};
    var i := 0;
    while i < |rows|
      invariant 0 <= i <= |rows|
      invariant kept == KeepFirst(rows[..i])
      invariant seen == KeySet(rows[..i])
    {
      assert rows[..i + 1][..i] == rows[..i];
      if rows[i].urlCode !in seen {
        kept := kept + [rows[i]];
      }
      seen := seen + {rows[i].urlCode};
      i := i + 1;
    }
    assert rows[..|rows|] == rows;
  }

  // ---------------------------------------------------------------------
  // Features
  // ---------------------------------------------------------------------

  /** The caption with a missing value filled by the empty string. */
  function CaptionOf(row: RawRow): string
  {
    row.caption.GetOr("")
  }

  /**
   * The training row of one deduplicated raw row: caption length and `#`
   * count from the filled caption, hour and weekday from the parsed date,
   * and every cell still missing after the projection set to 0.
   */
  function Features(row: RawRow): (t: TrainingRow)
    ensures t.captionLength == |CaptionOf(row)|
    ensures t.hashtagCount == CountChar(CaptionOf(row), '#') <= t.captionLength
    ensures row.caption.None? ==> t.captionLength == 0 && t.hashtagCount == 0
    ensures t.postHour == (match row.date case Some(d) => d.hour case None => 0)
    ensures t.postDayOfWeek == (match row.date case Some(d) => d.dayOfWeek case None => 0)
    ensures 0 <= t.postHour < 24 && 0 <= t.postDayOfWeek < 7
    ensures t.likes == row.likes.GetOr(0) && t.comments == row.comments.GetOr(0)
  {
    var caption := CaptionOf(row);
    TrainingRow(
      row.likes.GetOr(0),
      row.comments.GetOr(0),
      |caption|,
      CountChar(caption, '#'),
      match row.date case Some(d) => d.hour case None => 0,
      match row.date case Some(d) => d.dayOfWeek case None => 0)
  }

  /** The cell of a training row under a column name. */
  function Cell(t: TrainingRow, column: string): Option<int>
  {
    if column == "Likes" then Some(t.likes)
    else if column == "Comments" then Some(t.comments)
    else if column == "caption_length" then Some(t.captionLength)
    else if column == "hashtag_count" then Some(t.hashtagCount)
    else if column == "post_hour" then Some(t.postHour)
    else if column == "post_day_of_week" then Some(t.postDayOfWeek)
    else None
  }

  /** A training row as written to the CSV file: one cell per column, in header order. */
  function Cells(t: TrainingRow): (cells: seq<int>)
    ensures |cells| == |Columns|
    ensures forall k :: 0 <= k < |Columns| ==> Cell(t, Columns[k]) == Some(cells[k])
  {
    [t.likes, t.comments, t.captionLength, t.hashtagCount, t.postHour, t.postDayOfWeek]
  }

  /** The deduplicated rows of all readable files. */
  function DedupedRows(files: seq<RawFile>): seq<RawRow>
  {
    KeepFirst(Concat(ReadableFrames(files)))
  }

  /** `process_data` as a function of the raw files found. */
  function ProcessSpec(files: seq<RawFile>): Result<Table, StageError>
  {
    if |files| == 0 then Failure(NoRawData)
    else if ReadableFrames(files) == [] then Failure(NoValidData)
    else
      var kept := DedupedRows(files);
      Success(Table(Columns, seq(|kept|, i requires 0 <= i < |kept| => Features(kept[i]))))
  }

  /**
   * `process_data`: fail when no file was found, load the readable files,
   * fail when none was readable, concatenate, deduplicate and derive the
   * training rows.
   */
  method ProcessData(files: seq<RawFile>) returns (result: Result<Table, StageError>)
    ensures result == ProcessSpec(files)
  {
    if |files| == 0 {
      return Failure(NoRawData);
    }
    var frames := LoadFrames(files);
    if |frames| == 0 {
      return Failure(NoValidData);
    }
    var raw := Concat(frames);
    var kept := DropDuplicates(raw);
    var rows := seq(|kept|, i requires 0 <= i < |kept| => Features(kept[i]));
    result := Success(Table(Columns, rows));
  }

  /**
   * The stage fails exactly when no file is found (no raw data) or no file
   * can be read (no valid data); unreadable files are otherwise skipped.
   */
  lemma ProcessFailures(files: seq<RawFile>)
    ensures ProcessSpec(files) == Failure(NoRawData) <==> |files| == 0
    ensures ProcessSpec(files) == Failure(NoValidData)
            <==> |files| > 0 && forall k :: 0 <= k < |files| ==> files[k].Unreadable?
    ensures ProcessSpec(files).Success? <==> exists k :: 0 <= k < |files| && files[k].Parsed?
  {
    ReadableFramesEmpty(files);
  }

  /**
   * A successful run writes the six columns in order and one row per
   * distinct URL code of the readable files; each row holds the features of
   * the first raw row with its code, and its cells are in range.
   */
  lemma ProcessTable(files: seq<RawFile>)
    requires ProcessSpec(files).Success?
    ensures var table := ProcessSpec(files).value;
      && table.header == Columns
      && |table.rows| == |KeySet(Concat(ReadableFrames(files)))|
      && forall j :: 0 <= j < |table.rows| ==>
           var raw := Concat(ReadableFrames(files));
           var code := DedupedRows(files)[j].urlCode;
           && code in KeySet(raw)
           && table.rows[j] == Features(raw[FirstIndex(raw, code)])
           && 0 <= table.rows[j].hashtagCount <= table.rows[j].captionLength
           && 0 <= table.rows[j].postHour < 24
           && 0 <= table.rows[j].postDayOfWeek < 7
  {
    var raw := Concat(ReadableFrames(files));
    var kept := DedupedRows(files);
    var table := ProcessSpec(files).value;
    assert table.rows == seq(|kept|, i requires 0 <= i < |kept| => Features(kept[i]));
    KeepFirstKeys(raw);
    KeepFirstFirst(raw);
    forall j | 0 <= j < |table.rows|
      ensures kept[j].urlCode in KeySet(raw) && table.rows[j] == Features(raw[FirstIndex(raw, kept[j].urlCode)])
    {
      assert table.rows[j] == Features(kept[j]);
    }
  }

  /**
   * Running the stage on a single file holding its own deduplicated rows
   * gives the same table: deduplication is idempotent at the stage level.
   */
  lemma ReprocessDeduped(files: seq<RawFile>)
    requires ProcessSpec(files).Success?
    ensures ProcessSpec([Parsed(DedupedRows(files))]) == ProcessSpec(files)
  {
    var kept := DedupedRows(files);
    var single := [Parsed(kept)];
    assert single[..0] == [];
    assert ReadableFrames(single) == [kept];
    assert Concat([kept]) == kept;
    KeepFirstIdempotent(Concat(ReadableFrames(files)));
  }
}
