/**
 * The merge script: it reads the provider's daily export, normalises each row, drops the
 * rows whose date key gas.csv already holds, and appends the rest after the existing rows.
 */
module CleanGas {
  import opened Wrappers
  import opened Dates

  /** A cell of a pandas frame: missing (NaN or None), or a Python str, int or float. */
  datatype Value = Missing | Str(text: string) | Int(n: int) | Float(x: real)

  /** A row of gas.csv, in its fixed column order Year, Month, Date, Hdd, Gas (kWh). */
  datatype Row = Row(year: Value, month: Value, date: Value, hdd: Value, gas: Value)

  /** A row of the export, read with every column as text; a missing cell is None. */
  datatype SourceRow = SourceRow(date: Option<string>, hdd: Option<string>, gas: Option<string>)

  /**
   * The library conversions the script calls: Python's `float(text)` (None where it
   * raises), and what `pd.to_datetime` makes of the texts that ParseDayFirst leaves to it.
   */
  datatype Conversions = Conversions(toFloat: string -> Option<real>, lenientDate: string -> Option<Timestamp>)

  /** A numeric cell conversion: a value, or the exception it raised. */
  datatype Conversion = Raised | Converted(value: Value)

  /** Why a source row is not appended; the script drops all of them alike. */
  datatype SkipReason = NotDateText | UnparsableDate | AlreadyPresent | BadHdd | BadGas

  datatype RowOutcome = Accept(row: Row) | Skip(reason: SkipReason)

  /** The line the script prints at the end. */
  datatype Summary = Appended(count: nat) | NoNewRows

  /** The Date cell is text and starts with the `dd/dd/dddd` pattern. */
  predicate IsDateText(cell: Option<string>)
  {
    cell.Some? && StartsWithDatePattern(cell.value)
  }

  /** The gas text with every comma removed and the other characters kept in order. */
  function StripCommas(s: string): (r: string)
    ensures ',' !in r
    ensures forall c :: c != ',' ==> multiset(r)[c] == multiset(s)[c]
    ensures ',' !in s ==> r == s
  {
    if s == [] then []
    else
      var rest := StripCommas(s[1..]);
      assert s == [s[0]] + s[1..];
      if s[0] == ',' then rest else [s[0]] + rest
  }

  /** Removing commas works character by character: a comma goes, any other character stays. */
  lemma StripCommasOfChar(c: char)
    ensures StripCommas([c]) == if c == ',' then [] else [c]
  {
  }

  /**
   * Removing commas commutes with concatenation, so the characters that remain keep
   * their order (with StripCommasOfChar this fixes the result of every text).
   */
  lemma {:induction false} StripCommasConcat(a: string, b: string)
    ensures StripCommas(a + b) == StripCommas(a) + StripCommas(b)
  {
    if a == [] {
      assert a + b == b;
    } else {
      assert (a + b)[1..] == a[1..] + b;
      assert (a + b)[0] == a[0];
      StripCommasConcat(a[1..], b);
    }
  }

  /** A thousands separator: "1,234.5" becomes "1234.5". */
  lemma StripCommasExample()
    ensures StripCommas("1,234.5") == "1234.5"
  {
    StripCommasConcat("1,", "234.5");
    StripCommasConcat("1", ",");
    StripCommasOfChar('1');
    StripCommasOfChar(',');
    assert "1," == "1" + ",";
    assert "1,234.5" == "1," + "234.5";
  }

  /** The HDD cell as a float; missing stays missing, and a text `float` rejects raises. */
  function ConvertHdd(hdd: Option<string>, toFloat: string -> Option<real>): (c: Conversion)
    ensures c == Raised ==> hdd.Some? && toFloat(hdd.value).None?
    ensures hdd.Some? ==> (c == Raised <==> toFloat(hdd.value).None?)
    ensures hdd.Some? && c.Converted? ==> c.value == Float(toFloat(hdd.value).value)
    ensures c.Converted? ==> (c.value.Missing? <==> hdd.None?) && (c.value.Missing? || c.value.Float?)
  {
    match hdd
    case None => Converted(Missing)
    case Some(text) =>
      match toFloat(text)
      case None => Raised
      case Some(x) => Converted(Float(x))
  }

  /**
   * The gas cell as a float after removing thousands separators; missing, "" and "nan"
   * stay missing, and a text `float` rejects raises.
   */
  function ConvertGas(gas: Option<string>, toFloat: string -> Option<real>): (c: Conversion)
    ensures c == Raised ==> gas.Some? && gas.value != "" && gas.value != "nan"
    ensures gas.None? || gas.value == "" || gas.value == "nan" ==> c == Converted(Missing)
    ensures c.Converted? ==> c.value.Missing? || c.value.Float?
    ensures gas.Some? && gas.value != "" && gas.value != "nan" ==>
      && (c == Raised <==> toFloat(StripCommas(gas.value)).None?)
      && (c.Converted? ==> c.value == Float(toFloat(StripCommas(gas.value)).value))
  {
    match gas
    case None => Converted(Missing)
    case Some(text) =>
      if text == "" || text == "nan" then Converted(Missing)
      else
        match toFloat(StripCommas(text))
        case None => Raised
        case Some(x) => Converted(Float(x))
  }

  /**
   * Thousands separators do not change a gas reading: "1,234.5" converts as "1234.5"
   * does. (A cell of commas only is not blank, so it reaches `float("")` and raises.)
   */
  lemma ThousandsSeparatorsIgnored(text: string, toFloat: string -> Option<real>)
    requires text != "" && text != "nan"
    requires StripCommas(text) != "" && StripCommas(text) != "nan"
    ensures ConvertGas(Some(text), toFloat) == ConvertGas(Some(StripCommas(text)), toFloat)
  {
  }

  /** The date a source row parses to, when it passes the pattern test and parses. */
  function RowDate(src: SourceRow, conv: Conversions): Option<Timestamp>
  {
    if IsDateText(src.date) then ParseDayFirst(src.date.value, conv.lenientDate) else None
  }

  /** One iteration of the loop over the export: the row it appends, or why it appends none. */
  function CleanRow(existingDates: set<Value>, src: SourceRow, conv: Conversions): (r: RowOutcome)
    ensures r.Accept? ==> RowDate(src, conv).Some? && r.row.date == Str(Canonical(RowDate(src, conv).value))
    ensures r.Accept? ==> r.row.date !in existingDates
  {
    if !IsDateText(src.date) then Skip(NotDateText)
    else
      match ParseDayFirst(src.date.value, conv.lenientDate)
      case None => Skip(UnparsableDate)
      case Some(d) =>
        var key := Canonical(d);
        if Str(key) in existingDates then Skip(AlreadyPresent)
        else
          match ConvertHdd(src.hdd, conv.toFloat)
          case Raised => Skip(BadHdd)
          case Converted(hdd) =>
            match ConvertGas(src.gas, conv.toFloat)
            case Raised => Skip(BadGas)
            case Converted(gas) => Accept(Row(Int(d.year), Str(MonthAbbr(d.month)), Str(key), hdd, gas))
  }

  /**
   * An appended row is the normalised form of its source row: its Date is the canonical
   * key of the parsed date and is not among the existing dates, its Year and Month come
   * from that date, and its Hdd and Gas are the converted cells.
   */
  lemma AcceptedRowIsNormalised(existingDates: set<Value>, src: SourceRow, conv: Conversions)
    requires CleanRow(existingDates, src, conv).Accept?
    ensures RowDate(src, conv).Some?
    ensures var d, row := RowDate(src, conv).value, CleanRow(existingDates, src, conv).row;
      && row.date == Str(Canonical(d)) && row.date !in existingDates
      && row.year == Int(d.year) && row.month == Str(MonthAbbr(d.month))
      && ConvertHdd(src.hdd, conv.toFloat) == Converted(row.hdd)
      && ConvertGas(src.gas, conv.toFloat) == Converted(row.gas)
  {
  }

  /**
   * A row is appended exactly when its date text matches and parses to a key that is not
   * among the existing dates and both numeric cells convert; a conversion that raises
   * drops the whole row.
   */
  lemma AcceptIff(existingDates: set<Value>, src: SourceRow, conv: Conversions)
    ensures CleanRow(existingDates, src, conv).Accept? <==>
      && RowDate(src, conv).Some?
      && Str(Canonical(RowDate(src, conv).value)) !in existingDates
      && ConvertHdd(src.hdd, conv.toFloat).Converted?
      && ConvertGas(src.gas, conv.toFloat).Converted?
  {
  }

  /** Rows missing a date, or whose date text fails the pattern, are skipped. */
  lemma NonDateTextSkipped(existingDates: set<Value>, src: SourceRow, conv: Conversions)
    requires src.date.None? || !StartsWithDatePattern(src.date.value)
    ensures CleanRow(existingDates, src, conv) == Skip(NotDateText)
  {
  }

  /**
   * What a row does depends on the existing dates only through its own key: against more
   * existing dates, a row is appended only if it was appended before, as the same row.
   */
  lemma {:induction false} CleanRowAgainstMore(fewer: set<Value>, more: set<Value>, src: SourceRow, conv: Conversions)
    requires fewer <= more
    requires CleanRow(more, src, conv).Accept?
    ensures CleanRow(fewer, src, conv) == CleanRow(more, src, conv)
  {
    AcceptedRowIsNormalised(more, src, conv);
  }

  /** A row that was appended against `fewer` dates is skipped once its date is recorded. */
  lemma RecordedRowSkipped(fewer: set<Value>, more: set<Value>, src: SourceRow, conv: Conversions)
    requires fewer <= more
    requires CleanRow(fewer, src, conv).Accept? ==> CleanRow(fewer, src, conv).row.date in more
    ensures !CleanRow(more, src, conv).Accept?
  {
  }

  /** The accepted rows of a batch, in source order: `cleaned_rows` after the loop. */
  function Accepted(existingDates: set<Value>, source: seq<SourceRow>, conv: Conversions): seq<Row>
  {
    if source == [] then []
    else
      var prior := Accepted(existingDates, source[..|source| - 1], conv);
      match CleanRow(existingDates, source[|source| - 1], conv)
      case Accept(row) => prior + [row]
      case Skip(_) => prior
  }

  /** No appended row collides with a date gas.csv already held. */
  lemma {:induction false} AcceptedAvoidExistingDates(existingDates: set<Value>, source: seq<SourceRow>, conv: Conversions)
    ensures forall row :: row in Accepted(existingDates, source, conv) ==> row.date.Str? && row.date !in existingDates
    decreases |source|
  {
    if source != [] {
      AcceptedAvoidExistingDates(existingDates, source[..|source| - 1], conv);
      var last := CleanRow(existingDates, source[|source| - 1], conv);
      if last.Accept? {
        AcceptedRowIsNormalised(existingDates, source[|source| - 1], conv);
      }
    }
  }

  /** Every appended row is what CleanRow made of some source row. */
  lemma {:induction false} AcceptedComeFromSource(existingDates: set<Value>, source: seq<SourceRow>, conv: Conversions)
    ensures forall row :: row in Accepted(existingDates, source, conv) ==>
      exists i :: 0 <= i < |source| && CleanRow(existingDates, source[i], conv) == Accept(row)
    ensures |Accepted(existingDates, source, conv)| <= |source|
    decreases |source|
  {
    if source != [] {
      var init := source[..|source| - 1];
      AcceptedComeFromSource(existingDates, init, conv);
      forall row | row in Accepted(existingDates, init, conv)
        ensures exists i :: 0 <= i < |source| && CleanRow(existingDates, source[i], conv) == Accept(row)
      {
        var i :| 0 <= i < |init| && CleanRow(existingDates, init[i], conv) == Accept(row);
        assert source[i] == init[i];
      }
    }
  }

  /**
   * The loop keeps source order: the rows accepted from a batch split in two are those of
   * the first part followed by those of the second.
   */
  lemma {:induction false} AcceptedSplit(existingDates: set<Value>, first: seq<SourceRow>, second: seq<SourceRow>, conv: Conversions)
    ensures Accepted(existingDates, first + second, conv)
         == Accepted(existingDates, first, conv) + Accepted(existingDates, second, conv)
    decreases |second|
  {
    if second == [] {
      assert first + second == first;
    } else {
      var init := second[..|second| - 1];
      assert (first + second)[..|first + second| - 1] == first + init;
      assert (first + second)[|first + second| - 1] == second[|second| - 1];
      AcceptedSplit(existingDates, first, init, conv);
    }
  }

  /**
   * The existing dates are collected once, before the loop, and never updated in it: any
   * two rows that are each accepted on their own are both appended, even when they carry
   * the same new date.
   */
  lemma BatchDuplicatesBothAppended(existingDates: set<Value>, a: SourceRow, b: SourceRow, conv: Conversions)
    requires CleanRow(existingDates, a, conv).Accept?
    requires CleanRow(existingDates, b, conv).Accept?
    ensures var rowA := CleanRow(existingDates, a, conv).row;
      var rowB := CleanRow(existingDates, b, conv).row;
      Accepted(existingDates, [a, b], conv) == [rowA, rowB]
  {
    var rowA := CleanRow(existingDates, a, conv).row;
    assert [a][..0] == [];
    assert Accepted(existingDates, [a], conv) == [rowA];
    assert [a, b][..1] == [a];
    assert [a, b][1] == b;
  }

  /** The loop of the script: `cleaned_rows` built from the export. */
  method CleanRows(existingDates: set<Value>, source: seq<SourceRow>, conv: Conversions) returns (cleaned: seq<Row>)
    ensures cleaned == Accepted(existingDates, source, conv)
  {
    cleaned := [];
    for i := 0 to |source|
      invariant cleaned == Accepted(existingDates, source[..i], conv)
    {
      assert source[..i + 1][..i] == source[..i];
      match CleanRow(existingDates, source[i], conv)
      case Accept(row) =>
        cleaned := cleaned + [row];
      case Skip(_) =>
    }
    assert source[..|source|] == source;
  }

  /** The Date values already in gas.csv, collected once before the loop. */
  function DateSet(rows: seq<Row>): (dates: set<Value>)
    ensures forall v :: v in dates <==> exists i :: 0 <= i < |rows| && rows[i].date == v
  {
    set row | row in rows :: row.date
  }

  /** The frame the script writes: the existing rows, then the accepted ones. */
  function Merged(existing: seq<Row>, source: seq<SourceRow>, conv: Conversions): seq<Row>
  {
    existing + Accepted(DateSet(existing), source, conv)
  }

  /** After a merge, every appended date is among the destination's Date values. */
  lemma AcceptedDatesRecorded(existing: seq<Row>, source: seq<SourceRow>, conv: Conversions)
    ensures DateSet(existing) <= DateSet(Merged(existing, source, conv))
    ensures forall row :: row in Accepted(DateSet(existing), source, conv) ==>
      row.date in DateSet(Merged(existing, source, conv))
  {
  }

  /**
   * Against existing dates that include every date a batch accepted before, the same
   * batch has nothing left to accept.
   */
  lemma {:induction false} NothingLeftToAccept(before: set<Value>, after: set<Value>, source: seq<SourceRow>, conv: Conversions)
    requires before <= after
    requires forall row :: row in Accepted(before, source, conv) ==> row.date in after
    ensures Accepted(after, source, conv) == []
    decreases |source|
  {
    if source != [] {
      var init := source[..|source| - 1];
      var last := source[|source| - 1];
      assert forall row :: row in Accepted(before, init, conv) ==> row in Accepted(before, source, conv);
      NothingLeftToAccept(before, after, init, conv);
      if CleanRow(before, last, conv).Accept? {
        assert CleanRow(before, last, conv).row in Accepted(before, source, conv);
      }
      RecordedRowSkipped(before, after, last, conv);
    }
  }

  /**
   * A second run with the same export appends nothing. `reread` is gas.csv as the second
   * run reads it back: whatever the CSV round trip does to the other columns, it keeps the
   * Date texts.
   */
  lemma SecondRunAppendsNothing(existing: seq<Row>, source: seq<SourceRow>, reread: seq<Row>, conv: Conversions)
    requires DateSet(reread) == DateSet(Merged(existing, source, conv))
    ensures Accepted(DateSet(reread), source, conv) == []
  {
    AcceptedDatesRecorded(existing, source, conv);
    NothingLeftToAccept(DateSet(existing), DateSet(reread), source, conv);
  }

  /** Merging the same export into a merge result changes nothing. */
  lemma MergeIdempotent(existing: seq<Row>, source: seq<SourceRow>, conv: Conversions)
    ensures Merged(Merged(existing, source, conv), source, conv) == Merged(existing, source, conv)
  {
    SecondRunAppendsNothing(existing, source, Merged(existing, source, conv), conv);
  }

  /** Each Date value appears at most once. */
  predicate UniqueDates(rows: seq<Row>)
  {
    forall i, j :: 0 <= i < j < |rows| ==> rows[i].date != rows[j].date
  }

  /**
   * The merge keeps gas.csv's dates unique when the batch itself brings each new date
   * once; BatchDuplicatesBothAppended shows the batch is not checked against itself.
   */
  lemma MergeKeepsDatesUnique(existing: seq<Row>, source: seq<SourceRow>, conv: Conversions)
    requires UniqueDates(existing)
    requires UniqueDates(Accepted(DateSet(existing), source, conv))
    ensures UniqueDates(Merged(existing, source, conv))
  {
    var added := Accepted(DateSet(existing), source, conv);
    AcceptedAvoidExistingDates(DateSet(existing), source, conv);
    var merged := Merged(existing, source, conv);
    forall i, j | 0 <= i < j < |merged| ensures merged[i].date != merged[j].date {
      if i < |existing| && j >= |existing| {
        assert merged[i] == existing[i];
        assert merged[j] == added[j - |existing|];
        assert existing[i].date in DateSet(existing);
      } else if j < |existing| {
        assert merged[i] == existing[i] && merged[j] == existing[j];
      } else {
        assert merged[i] == added[i - |existing|] && merged[j] == added[j - |existing|];
      }
    }
  }

  /** gas.csv on disk. */
  class GasCsv {
    var present: bool
    var rows: seq<Row>

    constructor (present: bool, rows: seq<Row>)
      ensures this.present == present && this.rows == rows
    {
      this.present := present;
      this.rows := rows;
    }

    /** The frame the script starts from: the file's rows, or an empty frame when it is missing. */
    function Existing(): seq<Row>
      reads this
    {
      if present then rows else []
    }
  }

  /**
   * The whole script against gas.csv: the file is rewritten with the existing rows followed
   * by the accepted ones when there are any, and left as it was (missing or not) otherwise.
   */
  method RunMerge(dest: GasCsv, source: seq<SourceRow>, conv: Conversions) returns (summary: Summary)
    modifies dest
    ensures var added := Accepted(DateSet(old(dest.Existing())), source, conv);
      if added == [] then
        summary == NoNewRows && dest.present == old(dest.present) && dest.rows == old(dest.rows)
      else
        && summary == Appended(|added|)
        && dest.present
        && dest.rows == Merged(old(dest.Existing()), source, conv)
  {
    var existing := dest.Existing();
    var existingDates := DateSet(existing);
    var cleaned := CleanRows(existingDates, source, conv);
    if cleaned != [] {
      dest.rows := existing + cleaned;
      dest.present := true;
      summary := Appended(|cleaned|);
    } else {
      summary := NoNewRows;
    }
  }
}
