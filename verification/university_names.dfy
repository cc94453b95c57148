/**
 * UniversityNames: the candidate feed, read row by row. The Scanner over the
 * CSV text is modelled by the sequence of its rows and a cursor (the index of
 * the next row to read). Opening the feed consumes the header row; each
 * getNextName call consumes one row and yields the text before its first
 * comma.
 */
module Candidates {

  /**
   * String.split(",")[0] on a row that is not made only of commas: the text
   * before the first comma, or the whole row when it has none.
   */
  function BeforeComma(row: string): (r: string)
    ensures ',' !in r
    ensures r <= row
    ensures |r| < |row| ==> row[|r|] == ','
    ensures ',' !in row ==> r == row
  {
    if row == [] || row[0] == ',' then [] else [row[0]] + BeforeComma(row[1..])
  }

  /**
   * A non-empty row of commas only: split(",") drops every (empty) field, so
   * taking field 0 fails with an index-out-of-bounds exception.
   */
  predicate CommaOnly(row: string) {
    row != [] && forall i :: 0 <= i < |row| ==> row[i] == ','
  }

  /** What one getNextName call gives back. */
  datatype Fetched =
    | Name(name: string)   // the first field of the row just read
    | Exhausted            // no row left: getNextName returns null
    | CommaOnlyRow         // the row just read has no field: split(",")[0] throws

  /** The outcome of reading row i of the feed. */
  function FetchAt(rows: seq<string>, i: nat): (r: Fetched)
    ensures r.Exhausted? <==> i >= |rows|
    ensures r.CommaOnlyRow? <==> i < |rows| && CommaOnly(rows[i])
    ensures r.Name? ==> ',' !in r.name && r.name <= rows[i]
  {
    if i < |rows| then
      if CommaOnly(rows[i]) then CommaOnlyRow else Name(BeforeComma(rows[i]))
    else Exhausted
  }

  /** Where reading starts after readFromCSV: past the header row, if there is one. */
  function HeaderEnd(feed: seq<string>): nat {
    if feed == [] then 0 else 1
  }

  /** The index of the first comma-only row, or the number of rows when there is none. */
  function FirstCommaOnly(rows: seq<string>): (p: nat)
    ensures p <= |rows|
    ensures forall k :: 0 <= k < p ==> !CommaOnly(rows[k])
    ensures p < |rows| ==> CommaOnly(rows[p])
  {
    if rows == [] || CommaOnly(rows[0]) then 0 else 1 + FirstCommaOnly(rows[1..])
  }

  /** The first field of each row, in row order. */
  function FirstFields(rows: seq<string>): seq<string> {
    seq(|rows|, i requires 0 <= i < |rows| => BeforeComma(rows[i]))
  }

  /** The names a reader of the rows yields before it runs out or meets a comma-only row. */
  function StreamNames(rows: seq<string>): seq<string> {
    FirstFields(rows[..FirstCommaOnly(rows)])
  }

  /** What the next read gives, when pending holds the rows not yet read. */
  function FetchFirst(pending: seq<string>): Fetched {
    FetchAt(pending, 0)
  }

  /** The rows still unread after the next read: one fewer, unless none is left. */
  function AfterFirst(pending: seq<string>): seq<string> {
    if pending == [] then [] else pending[1..]
  }

  /** The names still to come once a read has given next and the rows pending are unread. */
  function StreamFrom(next: Fetched, pending: seq<string>): seq<string> {
    if next.Name? then [next.name] + StreamNames(pending) else []
  }

  /** Once a read has given next, the reader still gets to the end of the rows. */
  predicate ReadsOnFrom(next: Fetched, pending: seq<string>) {
    next.Exhausted? || (next.Name? && FirstCommaOnly(pending) == |pending|)
  }

  /** The stream of a row that is not comma-only is its first field followed by the stream of the rows after it. */
  lemma {:induction false} StreamUnfold(pending: seq<string>)
    ensures StreamNames(pending) == StreamFrom(FetchFirst(pending), AfterFirst(pending))
    ensures (FirstCommaOnly(pending) == |pending|) <==> ReadsOnFrom(FetchFirst(pending), AfterFirst(pending))
  {
    if pending != [] && !CommaOnly(pending[0]) {
      var tail := pending[1..];
      var p := FirstCommaOnly(tail);
      var a, b := StreamNames(pending), [BeforeComma(pending[0])] + StreamNames(tail);
      assert |a| == |b| == p + 1;
      forall k | 0 <= k < |a| ensures a[k] == b[k] {
        if k > 0 {
          assert pending[..p + 1][k] == tail[..p][k - 1];
        }
      }
    }
  }

  /** The candidate names of a whole feed: the stream after the header row. */
  function CandidateNames(feed: seq<string>): (names: seq<string>)
    ensures |names| <= |feed| - HeaderEnd(feed)
    ensures forall k :: 0 <= k < |names| ==> names[k] == BeforeComma(feed[HeaderEnd(feed) + k])
  {
    StreamNames(feed[HeaderEnd(feed)..])
  }

  /** The feed can be read to its end: no row after the header is comma-only. */
  predicate ReadsToEnd(feed: seq<string>) {
    forall k :: HeaderEnd(feed) <= k < |feed| ==> !CommaOnly(feed[k])
  }

  /** A feed reads to its end exactly when the first comma-only row after the header is past the last row. */
  lemma ReadsToEndIff(feed: seq<string>)
    ensures ReadsToEnd(feed) <==> FirstCommaOnly(feed[HeaderEnd(feed)..]) == |feed| - HeaderEnd(feed)
  {
    var body := feed[HeaderEnd(feed)..];
    if !ReadsToEnd(feed) {
      var k :| HeaderEnd(feed) <= k < |feed| && CommaOnly(feed[k]);
      assert CommaOnly(body[k - HeaderEnd(feed)]);
    }
  }

  /** A feed with no row, or with a header only, yields no candidate. */
  lemma HeaderOnlyFeedHasNoNames(feed: seq<string>)
    requires |feed| <= 1
    ensures CandidateNames(feed) == []
  {
  }

  /**
   * The candidates of a readable feed are the first fields of the rows after
   * the header, one per row, in row order.
   */
  lemma CandidatesOfReadableFeed(feed: seq<string>)
    requires ReadsToEnd(feed)
    ensures |CandidateNames(feed)| == |feed| - HeaderEnd(feed)
    ensures forall k :: HeaderEnd(feed) <= k < |feed| ==> CandidateNames(feed)[k - HeaderEnd(feed)] == BeforeComma(feed[k])
  {
    var body := feed[HeaderEnd(feed)..];
    var p := FirstCommaOnly(body);
    assert forall k :: 0 <= k < |body| ==> !CommaOnly(body[k]);
    assert body[..p] == body;
  }

  class UniversityNames {
    /** The rows of the CSV feed, header first. */
    var rows: seq<string>
    /** The index of the next row the Scanner will read. */
    var cursor: nat

    ghost predicate Valid()
      reads this
    {
      cursor <= |rows|
    }

    /** The rows the Scanner has not read yet. */
    ghost function Pending(): seq<string>
      reads this
      requires Valid()
    {
      rows[cursor..]
    }

    /** The constructor opens the feed through readFromCSV. */
    constructor (feed: seq<string>)
      ensures Valid()
      ensures rows == feed && cursor == HeaderEnd(feed)
    {
      rows, cursor := [], 0;
      new;
      ReadFromCSV(feed);
    }

    /**
     * readFromCSV: opens the feed and consumes its first row, the header; an
     * empty feed is left as it is.
     */
    method ReadFromCSV(feed: seq<string>)
      modifies this
      ensures Valid()
      ensures rows == feed && cursor == HeaderEnd(feed)
    {
      rows := feed;
      cursor := 0;
      if cursor < |rows| {
        cursor := cursor + 1;
      }
    }

    /**
     * getNextName: reads the next row and gives its first field; once the rows
     * are used up it gives Exhausted and leaves the cursor where it is, so
     * every later call gives Exhausted too.
     */
    method GetNextName() returns (next: Fetched)
      requires Valid()
      modifies this`cursor
      ensures Valid()
      ensures old(cursor) < |rows| ==> cursor == old(cursor) + 1
      ensures old(cursor) == |rows| ==> cursor == old(cursor)
      ensures next == FetchAt(rows, old(cursor))
      ensures next == FetchFirst(old(Pending())) && Pending() == AfterFirst(old(Pending()))
    {
      if cursor < |rows| {
        var row := rows[cursor];
        cursor := cursor + 1;
        if CommaOnly(row) {
          next := CommaOnlyRow;
        } else {
          next := Name(BeforeComma(row));
        }
      } else {
        next := Exhausted;
      }
    }
  }
}
