/** One page of the "read" bookshelf: the table rows, already located in the
    HTML, become `BookReview` records. The header row is skipped; a row with
    neither a started nor a read date is dropped; a date that does not parse
    stops the whole page with that date's error, as the `ValueError` raised
    by `date_str_to_iso` does. */
module Shelf {
  import opened Wrappers
  import opened Text
  import opened Dates
  import opened Covers
  import opened Seqs

  /** The `BookReview` dataclass. A missing date is `None`. */
  datatype BookReview = BookReview(
    title: string,
    author: string,
    coverUrl: string,
    rating: nat,
    dateStarted: Option<string>,
    dateRead: Option<string>)

  /** A table row, as the values the HTML lookups find in it: the title
      link's text, the author link's text, the first image's `src`, the class
      list of every span in the rating cell, and the text of the started and
      read date spans when those spans exist. */
  datatype Row = Row(
    titleText: string,
    authorText: string,
    imgSrc: string,
    ratingSpans: seq<seq<string>>,
    startedText: Option<string>,
    readText: Option<string>)

  /** A rating-cell span that draws a filled star. */
  predicate IsStar(classes: seq<string>)
  {
    "p10" in classes
  }

  /** `len(cell.find_all('span', class_='p10'))`. */
  function Rating(spans: seq<seq<string>>): (n: nat)
    ensures n <= |spans|
  {
    |Filter(IsStar, spans)|
  }

  /** The positions of the star spans in the rating cell. */
  function StarPositions(spans: seq<seq<string>>): set<int>
  {
    set i | 0 <= i < |spans| && IsStar(spans[i])
  }

  /** The rating is the number of spans that carry the `p10` class. */
  lemma {:induction false} RatingCountsStars(spans: seq<seq<string>>)
    ensures Rating(spans) == |StarPositions(spans)|
    decreases |spans|
  {
    if spans != [] {
      var init, last := spans[..|spans| - 1], spans[|spans| - 1];
      RatingCountsStars(init);
      var extra: set<int> := if IsStar(last) then {|spans| - 1} else {};
      assert StarPositions(spans) == StarPositions(init) + extra by {
        forall i | i in StarPositions(spans)
          ensures i in StarPositions(init) + extra
        {
          if i < |spans| - 1 {
            assert spans[i] == init[i];
          }
        }
        forall i | i in StarPositions(init)
          ensures i in StarPositions(spans)
        {
          assert spans[i] == init[i];
        }
      }
      assert |spans| - 1 !in StarPositions(init);
    }
  }

  /** Whether the row shows a started or a read date. */
  predicate HasDateMarker(row: Row)
  {
    row.startedText.Some? || row.readText.Some?
  }

  /** Every date the row shows converts without error. */
  predicate DatesConvert(row: Row)
  {
    && (row.startedText.Some? ==> DateStrToIso(row.startedText.value).Ok?)
    && (row.readText.Some? ==> DateStrToIso(row.readText.value).Ok?)
  }

  /** A well-formed date field: absent, or an ISO date of a real day. */
  predicate IsIsoDateField(d: Option<string>)
  {
    d.Some? ==> IsIsoShape(d.value) && ValidDate(IsoFields(d.value))
  }

  /** What every record on the shelf satisfies. */
  predicate WellFormed(b: BookReview)
  {
    && NoSurroundingSpace(b.title)
    && (b.dateStarted.Some? || b.dateRead.Some?)
    && IsIsoDateField(b.dateStarted)
    && IsIsoDateField(b.dateRead)
  }

  /** The record `b` is the one the row describes. */
  predicate RecordOf(row: Row, b: BookReview)
  {
    && b.title == Strip(row.titleText)
    && b.author == row.authorText
    && b.coverUrl == RewriteCover(row.imgSrc)
    && b.rating == Rating(row.ratingSpans)
    && (b.dateStarted.Some? <==> row.startedText.Some?)
    && (b.dateRead.Some? <==> row.readText.Some?)
    && (b.dateStarted.Some? ==> Ok(b.dateStarted.value) == DateStrToIso(row.startedText.value))
    && (b.dateRead.Some? ==> Ok(b.dateRead.value) == DateStrToIso(row.readText.value))
  }

  /** A date span, if present, converted by `date_str_to_iso`. */
  function ConvertDate(text: Option<string>): (r: Result<Option<string>, DateError>)
    ensures r.Ok? <==> (text.Some? ==> DateStrToIso(text.value).Ok?)
    ensures r.Ok? ==> (r.value.Some? <==> text.Some?) && IsIsoDateField(r.value)
    ensures r.Err? ==> text.Some? && DateStrToIso(text.value) == Err(r.error)
  {
    match text
    case None => Ok(None)
    case Some(t) =>
      match DateStrToIso(t)
      case Err(e) => Err(e)
      case Ok(iso) => Ok(Some(iso))
  }

  /** What one row of the loop produces: a record, nothing (the row is
      skipped), or the error of its first date that does not convert. */
  function RowRecord(row: Row): (r: Result<Option<BookReview>, DateError>)
    ensures r == Ok(None) <==> !HasDateMarker(row)
  {
    var title := Strip(row.titleText);
    var coverUrl := if row.imgSrc != "" then RewriteCover(row.imgSrc) else row.imgSrc;
    var rating := Rating(row.ratingSpans);
    match ConvertDate(row.startedText)
    case Err(e) => Err(e)
    case Ok(started) =>
      match ConvertDate(row.readText)
      case Err(e) => Err(e)
      case Ok(read) =>
        if started.None? && read.None? then Ok(None)
        else Ok(Some(BookReview(title, row.authorText, coverUrl, rating, started, read)))
  }

  /** A row fails exactly when one of its dates does not convert, and then
      with the error `date_str_to_iso` gives for the started date if that
      one fails, for the read date otherwise. */
  lemma RowRecordFails(row: Row)
    ensures RowRecord(row).Ok? <==> DatesConvert(row)
    ensures row.startedText.Some? && DateStrToIso(row.startedText.value).Err? ==>
      RowRecord(row) == Err(DateStrToIso(row.startedText.value).error)
    ensures
      && !(row.startedText.Some? && DateStrToIso(row.startedText.value).Err?)
      && row.readText.Some? && DateStrToIso(row.readText.value).Err?
      ==> RowRecord(row) == Err(DateStrToIso(row.readText.value).error)
  {
  }

  /** A row whose dates convert yields a record exactly when it shows a date,
      and the record is the row's, well formed. */
  lemma RowRecordKept(row: Row)
    requires RowRecord(row).Ok?
    ensures RowRecord(row).value.Some? <==> HasDateMarker(row)
    ensures RowRecord(row).value.Some? ==>
      WellFormed(RowRecord(row).value.value) && RecordOf(row, RowRecord(row).value.value)
  {
  }

  /** The loop over the body rows, one row at a time from the front: the
      records of the rows that yield one, or the first error met. */
  function ExtractRows(rows: seq<Row>): (r: Result<seq<BookReview>, DateError>)
    ensures r.Ok? ==> |r.value| <= |rows|
    decreases |rows|
  {
    if rows == [] then Ok([])
    else
      match ExtractRows(rows[..|rows| - 1])
      case Err(e) => Err(e)
      case Ok(books) =>
        match RowRecord(rows[|rows| - 1])
        case Err(e) => Err(e)
        case Ok(None) => Ok(books)
        case Ok(Some(b)) => Ok(books + [b])
  }

  /** `process_bookshelf_page`: the first row is the table header and is
      skipped. */
  function PageRecords(rows: seq<Row>): (r: Result<seq<BookReview>, DateError>)
    ensures r.Ok? ==> |r.value| < |rows| || |rows| == 0 == |r.value|
  {
    ExtractRows(if |rows| == 0 then [] else rows[1..])
  }

  /** An error in a prefix of the rows is the error of all of them. */
  lemma {:induction false} ErrorStops(rows: seq<Row>, i: nat)
    requires i <= |rows| && ExtractRows(rows[..i]).Err?
    ensures ExtractRows(rows) == ExtractRows(rows[..i])
    decreases |rows| - i
  {
    if i == |rows| {
      assert rows[..i] == rows;
    } else {
      assert rows[..i + 1][..i] == rows[..i];
      ErrorStops(rows, i + 1);
    }
  }

  /** A row that yields nothing leaves the records as they were. */
  lemma SkipStep(rows: seq<Row>, i: nat, books: seq<BookReview>)
    requires i < |rows| && ExtractRows(rows[..i]) == Ok(books) && RowRecord(rows[i]) == Ok(None)
    ensures ExtractRows(rows[..i + 1]) == Ok(books)
  {
    assert rows[..i + 1][..i] == rows[..i];
  }

  /** A row that yields a record appends it. */
  lemma KeepStep(rows: seq<Row>, i: nat, books: seq<BookReview>, b: BookReview)
    requires i < |rows| && ExtractRows(rows[..i]) == Ok(books) && RowRecord(rows[i]) == Ok(Some(b))
    ensures ExtractRows(rows[..i + 1]) == Ok(books + [b])
  {
    assert rows[..i + 1][..i] == rows[..i];
  }

  /** A row that fails ends the loop with its error. */
  lemma FailStep(rows: seq<Row>, i: nat, books: seq<BookReview>, e: DateError)
    requires i < |rows| && ExtractRows(rows[..i]) == Ok(books) && RowRecord(rows[i]) == Err(e)
    ensures ExtractRows(rows[..i + 1]) == Err(e)
  {
    assert rows[..i + 1][..i] == rows[..i];
  }

  /** The body of `process_bookshelf_page`'s loop for one row: strip the
      title, rewrite the cover URL when there is one, count the stars, convert
      each date span that exists, and give a record unless both dates are
      missing. */
  method ProcessRow(row: Row) returns (o: Result<Option<BookReview>, DateError>)
    ensures o == RowRecord(row)
  {
    var title := Strip(row.titleText);
    var author := row.authorText;
    var coverUrl := row.imgSrc;
    if coverUrl != "" {
      coverUrl := RewriteCover(coverUrl);
    }
    var rating := Rating(row.ratingSpans);

    var dateStarted: Option<string> := None;
    if row.startedText.Some? {
      var iso := DateStrToIso(row.startedText.value);
      if iso.Err? {
        return Err(iso.error);
      }
      dateStarted := Some(iso.value);
    }

    var dateRead: Option<string> := None;
    if row.readText.Some? {
      var iso := DateStrToIso(row.readText.value);
      if iso.Err? {
        return Err(iso.error);
      }
      dateRead := Some(iso.value);
    }

    if dateStarted.None? && dateRead.None? {
      return Ok(None);
    }
    return Ok(Some(BookReview(title, author, coverUrl, rating, dateStarted, dateRead)));
  }

  /** `process_bookshelf_page` as the source writes it: a loop over the rows
      after the header that appends a record for every row with a date and
      stops at the first date that does not convert. */
  method ProcessBookshelfPage(rows: seq<Row>) returns (r: Result<seq<BookReview>, DateError>)
    ensures r == PageRecords(rows)
  {
    var body := if |rows| == 0 then [] else rows[1..];
    var books: seq<BookReview> := [];
    for i := 0 to |body|
      invariant ExtractRows(body[..i]) == Ok(books)
    {
      var o := ProcessRow(body[i]);
      match o
      case Err(e) =>
        FailStep(body, i, books, e);
        ErrorStops(body, i + 1);
        return Err(e);
      case Ok(None) =>
        SkipStep(body, i, books);
      case Ok(Some(book)) =>
        KeepStep(body, i, books, book);
        books := books + [book];
    }
    assert body[..|body|] == body;
    return Ok(books);
  }

  /** Every date on every row converts. */
  predicate AllDatesConvert(rows: seq<Row>)
  {
    forall k :: 0 <= k < |rows| ==> DatesConvert(rows[k])
  }

  /** Every date of the rows converts exactly when every date of all but the
      last converts and so does every date of the last. */
  lemma AllDatesConvertLast(rows: seq<Row>)
    requires rows != []
    ensures AllDatesConvert(rows) <==>
      AllDatesConvert(rows[..|rows| - 1]) && DatesConvert(rows[|rows| - 1])
  {
    var init := rows[..|rows| - 1];
    assert forall k :: 0 <= k < |init| ==> init[k] == rows[k];
  }

  /** The rows convert as a whole exactly when every date on them does. */
  lemma {:induction false} ExtractRowsOk(rows: seq<Row>)
    ensures ExtractRows(rows).Ok? <==> AllDatesConvert(rows)
    decreases |rows|
  {
    if rows != [] {
      ExtractRowsOk(rows[..|rows| - 1]);
      RowRecordFails(rows[|rows| - 1]);
      AllDatesConvertLast(rows);
    }
  }

  /** An error is the error of the first row whose dates do not convert. */
  lemma {:induction false} ExtractRowsFirstError(rows: seq<Row>)
    requires ExtractRows(rows).Err?
    ensures exists k ::
              && 0 <= k < |rows|
              && RowRecord(rows[k]) == Err(ExtractRows(rows).error)
              && forall j :: 0 <= j < k ==> DatesConvert(rows[j])
    decreases |rows|
  {
    var init := rows[..|rows| - 1];
    var e := ExtractRows(rows).error;
    if ExtractRows(init).Err? {
      ExtractRowsFirstError(init);
      var k :|
        && 0 <= k < |init|
        && RowRecord(init[k]) == Err(ExtractRows(init).error)
        && forall j :: 0 <= j < k ==> DatesConvert(init[j]);
      assert init[k] == rows[k];
      assert forall j :: 0 <= j < k ==> init[j] == rows[j];
    } else {
      ExtractRowsOk(init);
      assert forall j :: 0 <= j < |init| ==> init[j] == rows[j];
      assert RowRecord(rows[|rows| - 1]) == Err(e);
    }
  }

  /** The records are those of the rows with a date marker, one each, in row
      order. */
  lemma {:induction false} ExtractRowsKept(rows: seq<Row>)
    requires ExtractRows(rows).Ok?
    ensures |ExtractRows(rows).value| == |Filter(HasDateMarker, rows)|
    ensures forall k :: 0 <= k < |Filter(HasDateMarker, rows)| ==>
      RowRecord(Filter(HasDateMarker, rows)[k]) == Ok(Some(ExtractRows(rows).value[k]))
    decreases |rows|
  {
    if rows != [] {
      var init, last := rows[..|rows| - 1], rows[|rows| - 1];
      ExtractRowsKept(init);
      var books := ExtractRows(init).value;
      var kept := Filter(HasDateMarker, init);
      assert RowRecord(last).Ok?;
      RowRecordKept(last);
      if HasDateMarker(last) {
        var b := RowRecord(last).value.value;
        assert ExtractRows(rows).value == books + [b];
        assert Filter(HasDateMarker, rows) == kept + [last];
      } else {
        assert ExtractRows(rows).value == books;
        assert Filter(HasDateMarker, rows) == kept;
      }
    }
  }

  /** Every record has a stripped title, at least one date, and ISO dates. */
  lemma {:induction false} ExtractRowsWellFormed(rows: seq<Row>)
    requires ExtractRows(rows).Ok?
    ensures forall b :: b in ExtractRows(rows).value ==> WellFormed(b)
    decreases |rows|
  {
    if rows != [] {
      ExtractRowsWellFormed(rows[..|rows| - 1]);
      RowRecordKept(rows[|rows| - 1]);
    }
  }

  /** A page yields one record per row after the header that shows a date. */
  lemma PageRecordsCount(rows: seq<Row>)
    requires PageRecords(rows).Ok?
    ensures |PageRecords(rows).value| == |Filter(HasDateMarker, if |rows| == 0 then [] else rows[1..])|
  {
    ExtractRowsKept(if |rows| == 0 then [] else rows[1..]);
  }

  /** The header row never yields a record: whatever it holds, the page's
      result is the same. */
  lemma HeaderIgnored(rows: seq<Row>, header: Row)
    requires |rows| > 0
    ensures PageRecords(rows[0 := header]) == PageRecords(rows)
  {
    assert rows[0 := header][1..] == rows[1..];
  }
}
