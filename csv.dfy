/** Reading the `origen;destino;tiempo` CSV format line by line: which lines
    become edges, and what edge each one becomes. */
module Csv {
  import opened Options
  import opened Seqs
  import opened Text
  import opened Graphs

  /** What the reader hands over: the decoded lines, and whether `readLine`
      then throws an `IOException` instead of signalling the end. */
  datatype Source = Source(lines: seq<string>, readFails: bool)

  /** The lines after the header; the first line is skipped whatever it holds. */
  function DataLines(lines: seq<string>): (r: seq<string>)
    ensures |lines| > 0 ==> |r| == |lines| - 1 && forall i :: 0 <= i < |r| ==> r[i] == lines[i + 1]
    ensures |lines| == 0 ==> r == []
  {
    if lines == [] then [] else lines[1..]
  }

  /** One data line: split on ';', exactly three fields, the ids trimmed and
      the trimmed third field read with `Integer.parseInt`; `None` for a line
      the loop counts as an error. */
  function ParseLine(line: string): (r: Option<Edge>)
    ensures r.Some? ==> IsTrimmed(r.value.locStart) && IsTrimmed(r.value.locEnd)
    ensures r.Some? ==> INT_MIN <= r.value.time <= INT_MAX
  {
    var fields := Split(line);
    if |fields| == 3 then
      match ParseInt(Trim(fields[2]))
      case Some(t) => Some(Edge(Trim(fields[0]), Trim(fields[1]), t))
      case None => None
    else None
  }

  /** The values `parse` gives for the items it accepts, in order. */
  function Collect<A, B>(parse: A -> Option<B>, xs: seq<A>): seq<B>
  {
    if xs == [] then []
    else
      var last := parse(xs[|xs| - 1]);
      Collect(parse, xs[..|xs| - 1]) + (if last.Some? then [last.value] else [])
  }

  /** The edges the accepted lines of `rows` yield, in line order. */
  function ValidEdges(rows: seq<string>): seq<Edge>
  {
    Collect(ParseLine, rows)
  }

  /** The number of rejected lines among `rows`. */
  function ErrorCount(rows: seq<string>): nat
  {
    if rows == [] then 0
    else ErrorCount(rows[..|rows| - 1]) + (if ParseLine(rows[|rows| - 1]).None? then 1 else 0)
  }

  /** Reading one more line after the header adds it to the data lines. */
  lemma DataLinesStep(lines: seq<string>, i: nat)
    requires 1 <= i < |lines|
    ensures DataLines(lines[..i + 1]) == DataLines(lines[..i]) + [lines[i]]
  {
    assert lines[..i + 1][1..] == lines[..i][1..] + [lines[i]];
  }

  /** One more line either adds its edge or counts one more error. */
  lemma ParseStep(rows: seq<string>, line: string)
    ensures ParseLine(line).Some? ==> ValidEdges(rows + [line]) == ValidEdges(rows) + [ParseLine(line).value]
    ensures ParseLine(line).None? ==> ValidEdges(rows + [line]) == ValidEdges(rows)
    ensures ErrorCount(rows + [line]) == ErrorCount(rows) + (if ParseLine(line).None? then 1 else 0)
  {
    assert (rows + [line])[..|rows|] == rows;
    AppendNil(ValidEdges(rows));
  }

  /** A line of record shape is accepted exactly when its trimmed third field
      is an `int`, and then yields the trimmed ids and that number. */
  lemma RecordLineParses(line: string, a: string, b: string, c: string, k: nat)
    requires IsRecordShape(line, a, b, c, k)
    ensures ParseLine(line) ==
              match ParseInt(Trim(c))
              case Some(t) => Some(Edge(Trim(a), Trim(b), t))
              case None => None
  {
    SplitRecord(line, a, b, c, k);
  }

  /** Every accepted line is of record shape: three separator-free fields, the
      last non-empty, then nothing but separators. */
  lemma AcceptedLineIsRecord(line: string) returns (a: string, b: string, c: string, k: nat)
    requires ParseLine(line).Some?
    ensures IsRecordShape(line, a, b, c, k)
    ensures ParseInt(Trim(c)).Some?
    ensures ParseLine(line) == Some(Edge(Trim(a), Trim(b), ParseInt(Trim(c)).value))
  {
    var fields := Split(line);
    a, b, c := fields[0], fields[1], fields[2];
    k := SplitThreeIsRecord(line);
  }

  /** The line written for an edge. */
  function FormatLine(e: Edge): string
  {
    e.locStart + ";" + e.locEnd + ";" + IntToString(e.time)
  }

  /** Writing an edge as a record line and reading it back gives the edge,
      whenever its ids hold no separator and no surrounding space and its time
      fits an `int`. */
  lemma ParseFormatLine(e: Edge)
    requires ';' !in e.locStart && ';' !in e.locEnd
    requires IsTrimmed(e.locStart) && IsTrimmed(e.locEnd)
    requires INT_MIN <= e.time <= INT_MAX
    ensures ParseLine(FormatLine(e)) == Some(e)
  {
    var line := FormatLine(e);
    var c := IntToString(e.time);
    assert IsRecordShape(line, e.locStart, e.locEnd, c, 0) by {
      assert line + Semicolons(0) == line;
    }
    RecordLineParses(line, e.locStart, e.locEnd, c, 0);
    TrimOfTrimmed(e.locStart);
    TrimOfTrimmed(e.locEnd);
    TrimOfTrimmed(c);
    ParseIntToString(e.time);
  }

  /** Every line is either accepted or counted as an error, never both. */
  lemma {:induction false} LinesAccountedFor(rows: seq<string>)
    ensures |ValidEdges(rows)| + ErrorCount(rows) == |rows|
  {
    if rows != [] {
      LinesAccountedFor(rows[..|rows| - 1]);
      assert ValidEdges(rows) == Collect(ParseLine, rows);
    }
  }

  /** Every collected value comes from some accepted item. */
  lemma {:induction false} CollectFrom<A, B>(parse: A -> Option<B>, xs: seq<A>)
    ensures forall y :: y in Collect(parse, xs) ==> exists i :: 0 <= i < |xs| && parse(xs[i]) == Some(y)
  {
    if xs != [] {
      var init, last := xs[..|xs| - 1], xs[|xs| - 1];
      CollectFrom(parse, init);
      forall y | y in Collect(parse, xs)
        ensures exists i :: 0 <= i < |xs| && parse(xs[i]) == Some(y)
      {
        if y in Collect(parse, init) {
          var i :| 0 <= i < |init| && parse(init[i]) == Some(y);
          assert xs[i] == init[i];
        } else {
          assert xs[|xs| - 1] == last;
        }
      }
    }
  }

  /** Every accepted item contributes its value. */
  lemma {:induction false} CollectAll<A, B>(parse: A -> Option<B>, xs: seq<A>)
    ensures forall i :: 0 <= i < |xs| && parse(xs[i]).Some? ==> parse(xs[i]).value in Collect(parse, xs)
  {
    if xs != [] {
      var init := xs[..|xs| - 1];
      CollectAll(parse, init);
      forall i | 0 <= i < |xs| && parse(xs[i]).Some?
        ensures parse(xs[i]).value in Collect(parse, xs)
      {
        if i < |init| {
          assert init[i] == xs[i];
        }
      }
    }
  }

  /** The parsed edges are exactly the results of the accepted lines. */
  lemma ValidEdgesFromLines(rows: seq<string>)
    ensures forall e :: e in ValidEdges(rows) <==> exists i :: 0 <= i < |rows| && ParseLine(rows[i]) == Some(e)
  {
    CollectFrom(ParseLine, rows);
    CollectAll(ParseLine, rows);
  }
}
