/**
 * Parsing the caller's `"start|end,start|end"` list into validated time
 * ranges (`buildTimeRanges` and `parseDate`). Reading one date-time literal
 * is the parameter `parse`; with every time taken as UTC, `parseDate` is
 * exactly `parse`.
 */
module TimeRanges {
  import opened Models
  import opened Strings
  import opened DateUtil

  /**
   * The date a piece's field denotes: a missing field is `undefined`, and
   * `new Date(undefined)` is the invalid date.
   */
  function ParseField(field: Option<string>, parse: string -> Time): (t: Time)
    ensures field.None? ==> t.Invalid?
  {
    match field
    case None => Invalid
    case Some(f) => parse(f)
  }

  /** `const [startTime, endTime] = piece.split('|')`: extra fields are ignored. */
  function StartField(piece: string): (f: string)
    ensures '|' !in f
    ensures f <= piece
    ensures |f| < |piece| ==> piece[|f|] == '|'
  {
    FirstPiece(piece, '|');
    Split(piece, '|')[0]
  }

  function EndField(piece: string): (f: Option<string>)
    ensures f.None? <==> '|' !in piece
  {
    var fields := Split(piece, '|');
    CountZero(piece, '|');
    if |fields| >= 2 then Some(fields[1]) else None
  }

  /** One piece of the list: its two dates, validated. */
  function RangeOfPiece(piece: string, parse: string -> Time): (r: Result<TimeRange>)
    ensures var start := parse(StartField(piece));
            var end := ParseField(EndField(piece), parse);
            && (r.Ok? <==> ValidateTimeRange(start, end).Pass?)
            && (r.Ok? ==> At(r.value.start) == start && At(r.value.end) == end
                          && r.value.start < r.value.end)
            && (r.Err? ==> Fail(r.error) == ValidateTimeRange(start, end))
  {
    var start := parse(StartField(piece));
    var end := ParseField(EndField(piece), parse);
    match ValidateTimeRange(start, end)
    case Fail(e) => Err(e)
    case Pass => Ok(TimeRange(start.ms, end.ms))
  }

  /** Every piece passes validation. */
  predicate AllPiecesValid(pieces: seq<string>, parse: string -> Time) {
    forall i :: 0 <= i < |pieces| ==> RangeOfPiece(pieces[i], parse).Ok?
  }

  /**
   * The pieces mapped in order; the first piece that fails validation aborts
   * the whole list with its error.
   */
  function RangesOfPieces(pieces: seq<string>, parse: string -> Time): (r: Result<seq<TimeRange>>)
    ensures r.Ok? <==> AllPiecesValid(pieces, parse)
    ensures r.Ok? ==> |r.value| == |pieces|
    ensures r.Ok? ==> forall i :: 0 <= i < |pieces| ==> RangeOfPiece(pieces[i], parse) == Ok(r.value[i])
  {
    if |pieces| == 0 then Ok([])
    else
      match RangeOfPiece(pieces[0], parse)
      case Err(e) => Err(e)
      case Ok(range) =>
        match RangesOfPieces(pieces[1..], parse)
        case Err(e) => Err(e)
        case Ok(rest) => Ok([range] + rest)
  }

  /** Piece `i` is the first of `pieces` that fails validation. */
  predicate FirstFailure(pieces: seq<string>, parse: string -> Time, i: int) {
    && 0 <= i < |pieces|
    && RangeOfPiece(pieces[i], parse).Err?
    && forall j :: 0 <= j < i ==> RangeOfPiece(pieces[j], parse).Ok?
  }

  /** A failed list reports the error of its first failing piece. */
  lemma {:induction false} RangesOfPiecesFirstError(pieces: seq<string>, parse: string -> Time)
    requires RangesOfPieces(pieces, parse).Err?
    ensures exists i :: FirstFailure(pieces, parse, i)
                        && RangeOfPiece(pieces[i], parse).error == RangesOfPieces(pieces, parse).error
  {
    if RangeOfPiece(pieces[0], parse).Err? {
      assert FirstFailure(pieces, parse, 0);
    } else {
      RangesOfPiecesFirstError(pieces[1..], parse);
      var k :| FirstFailure(pieces[1..], parse, k)
               && RangeOfPiece(pieces[1..][k], parse).error == RangesOfPieces(pieces[1..], parse).error;
      assert FirstFailure(pieces, parse, k + 1);
    }
  }

  /**
   * `buildTimeRanges`: one validated range per comma-separated piece, in
   * input order, each with its start strictly before its end; otherwise the
   * error of the first piece that fails.
   */
  function BuildTimeRanges(timeRanges: string, parse: string -> Time): (r: Result<seq<TimeRange>>)
    ensures r.Ok? <==> AllPiecesValid(Split(timeRanges, ','), parse)
    ensures r.Ok? ==> |r.value| == Count(timeRanges, ',') + 1
    ensures r.Ok? ==> forall i :: 0 <= i < |r.value| ==>
                        RangeOfPiece(Split(timeRanges, ',')[i], parse) == Ok(r.value[i])
    ensures r.Ok? ==> forall i :: 0 <= i < |r.value| ==> r.value[i].start < r.value[i].end
  {
    var pieces := Split(timeRanges, ',');
    RangesOfPieces(pieces, parse)
  }

  /** A piece without a `|` has no end date and fails as an invalid date. */
  lemma MissingSeparatorFails(piece: string, parse: string -> Time)
    requires '|' !in piece
    ensures RangeOfPiece(piece, parse) == Err(InvalidDateFormat)
  {
  }

  /** Fields after the second are never read. */
  lemma ExtraFieldsIgnored(a: string, b: string, c: string, parse: string -> Time)
    requires '|' !in a && '|' !in b
    ensures RangeOfPiece(a + "|" + b + "|" + c, parse) == RangeOfPiece(a + "|" + b, parse)
  {
    var long := a + "|" + (b + "|" + c);
    assert a + "|" + b + "|" + c == long;
    BarredFields(a, b + "|" + c);
    BarredFields(b, c);
    BarredFields(a, b);
    SoleField(b);
    SameFieldsSameRange(long, a + "|" + b, parse);
  }

  /** A piece is judged by its first two fields alone. */
  lemma SameFieldsSameRange(p: string, q: string, parse: string -> Time)
    requires StartField(p) == StartField(q) && EndField(p) == EndField(q)
    ensures RangeOfPiece(p, parse) == RangeOfPiece(q, parse)
  {
  }

  /** A string without `|` splits into itself alone. */
  lemma SoleField(b: string)
    requires '|' !in b
    ensures Split(b, '|') == [b]
  {
    SplitPrefix(b, "", '|');
    assert Split("", '|') == [""];
    assert b + "" == b;
  }

  /** In `a|y` with `a` free of `|`, the start field is `a` and the end field is `y`'s first field. */
  lemma BarredFields(a: string, y: string)
    requires '|' !in a
    ensures StartField(a + "|" + y) == a
    ensures EndField(a + "|" + y) == Some(Split(y, '|')[0])
  {
    var fields := Split(a + "|" + y, '|');
    assert a + "|" + y == a + ("|" + y);
    SplitBar(y);
    SplitPrefix(a, "|" + y, '|');
    assert fields == [a + ""] + ([""] + Split(y, '|'))[1..];
    assert a + "" == a;
    assert fields == [a] + Split(y, '|');
    assert fields[0] == a && fields[1] == Split(y, '|')[0];
  }

  lemma SplitBar(t: string)
    ensures Split("|" + t, '|') == [""] + Split(t, '|')
  {
    assert ("|" + t)[1..] == t;
  }

  /** The list rendering of `ranges`, printing each date with `show`. */
  function FormatTimeRanges(ranges: seq<TimeRange>, show: int -> string): string {
    Join(FormatPieces(ranges, show), ',')
  }

  function FormatPieces(ranges: seq<TimeRange>, show: int -> string): (pieces: seq<string>)
    ensures |pieces| == |ranges|
  {
    if |ranges| == 0 then []
    else [show(ranges[0].start) + "|" + show(ranges[0].end)] + FormatPieces(ranges[1..], show)
  }

  /**
   * Parsing a rendered non-empty list of valid ranges gives the ranges back,
   * when `parse` reads what `show` prints and printed dates contain neither
   * separator.
   */
  lemma {:induction false} BuildFormatRoundTrip(ranges: seq<TimeRange>, show: int -> string,
                                                parse: string -> Time)
    requires |ranges| >= 1
    requires forall i :: 0 <= i < |ranges| ==> ranges[i].start < ranges[i].end
    requires forall t :: parse(show(t)) == At(t)
    requires forall t :: ',' !in show(t) && '|' !in show(t)
    ensures BuildTimeRanges(FormatTimeRanges(ranges, show), parse) == Ok(ranges)
  {
    var pieces := FormatPieces(ranges, show);
    forall i | 0 <= i < |pieces|
      ensures ',' !in pieces[i]
      ensures pieces[i] == show(ranges[i].start) + "|" + show(ranges[i].end)
    {
      FormatPiecesAt(ranges, show, i);
    }
    SplitJoin(pieces, ',');
    forall i | 0 <= i < |pieces|
      ensures RangeOfPiece(pieces[i], parse) == Ok(ranges[i])
    {
      var a, b := show(ranges[i].start), show(ranges[i].end);
      SplitJoin([a, b], '|');
      assert Join([a, b], '|') == a + "|" + b;
    }
    var r := RangesOfPieces(pieces, parse);
    assert r.Ok?;
    assert r.value == ranges;
  }

  lemma {:induction false} FormatPiecesAt(ranges: seq<TimeRange>, show: int -> string, i: int)
    requires 0 <= i < |ranges|
    requires forall t :: ',' !in show(t) && '|' !in show(t)
    ensures FormatPieces(ranges, show)[i] == show(ranges[i].start) + "|" + show(ranges[i].end)
    ensures ',' !in FormatPieces(ranges, show)[i]
  {
    if i > 0 {
      FormatPiecesAt(ranges[1..], show, i - 1);
    }
  }
}
