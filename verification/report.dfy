/**
 * The collision report: the table `check_collisions` builds, as
 * `collision_df.to_csv(path, index=False)` writes it, and a reader that
 * takes the text back apart.
 */
module Report {
  import opened Wrappers
  import opened Text
  import opened Ledger

  /** One record of the collision table, in its column order. */
  datatype Collision = Collision(network1: string, container1: string, network2: string, container2: string)

  /** The column names, in the order the records' keys were inserted. */
  const Columns: seq<string> := ["network1", "container1", "network2", "container2"]

  /** The four cells of a record. */
  function Cells(c: Collision): (cells: seq<string>)
    ensures |cells| == |Columns|
  {
    [c.network1, c.container1, c.network2, c.container2]
  }

  /** A record whose cells need no quoting. */
  predicate PlainRecord(c: Collision) {
    PlainField(c.network1) && PlainField(c.container1) && PlainField(c.network2) && PlainField(c.container2)
  }

  /** The header line and the record lines, without their line breaks. */
  function ReportLines(cs: seq<Collision>): (lines: seq<string>)
    ensures |lines| == |cs| + 1
  {
    if |cs| == 0 then [Join(Columns, ',')]
    else ReportLines(cs[..|cs| - 1]) + [Join(Cells(cs[|cs| - 1]), ',')]
  }

  /** `to_csv(index=False)`: the header line, then one line per record, each ended by a line break. */
  function ReportText(cs: seq<Collision>): string {
    if |cs| == 0 then Join(Columns, ',') + "\n"
    else ReportText(cs[..|cs| - 1]) + Join(Cells(cs[|cs| - 1]), ',') + "\n"
  }

  /** One record line: exactly four comma-separated cells. */
  function ParseRecord(line: string): Option<Collision> {
    var cells := Split(line, ',');
    if |cells| == 4 then Some(Collision(cells[0], cells[1], cells[2], cells[3])) else None
  }

  /** The records of the lines, in order; any line that is not four cells fails. */
  function ParseRecords(lines: seq<string>): Option<seq<Collision>> {
    if |lines| == 0 then Some([])
    else
      var init, last := ParseRecords(lines[..|lines| - 1]), ParseRecord(lines[|lines| - 1]);
      if init.None? || last.None? then None else Some(init.value + [last.value])
  }

  /** A report file read back: the header line first, the records, then the final line break. */
  function ReadReport(text: string): Option<seq<Collision>> {
    var lines := Split(text, '\n');
    if |lines| < 2 || lines[0] != Join(Columns, ',') || lines[|lines| - 1] != "" then None
    else ParseRecords(lines[1..|lines| - 1])
  }

  // ---------------------------------------------------------- lemmas

  /** The header has no line break in it. */
  lemma {:induction false} HeaderPlain()
    ensures '\n' !in Join(Columns, ',')
  {
    forall k | 0 <= k < |Columns|
      ensures '\n' !in Columns[k]
    {
      assert forall c :: c in Columns[k] ==> 'a' <= c <= 'z' || '0' <= c <= '9';
    }
    NotInJoin(Columns, ',', '\n');
  }

  /** A record line splits back into its cells, and has no line break in it. */
  lemma {:induction false} RecordLine(c: Collision)
    requires PlainRecord(c)
    ensures '\n' !in Join(Cells(c), ',')
    ensures ParseRecord(Join(Cells(c), ',')) == Some(c)
  {
    NotInJoin(Cells(c), ',', '\n');
    SplitJoin(Cells(c), ',');
  }

  /** The report text, followed by whatever comes after it, splits into its lines. */
  lemma {:induction false} SplitReport(cs: seq<Collision>, tail: string)
    requires forall k :: 0 <= k < |cs| ==> PlainRecord(cs[k])
    ensures Split(ReportText(cs) + tail, '\n') == ReportLines(cs) + Split(tail, '\n')
    decreases |cs|
  {
    assert "\n" == ['\n'];
    if |cs| == 0 {
      HeaderPlain();
      var header := Join(Columns, ',');
      assert ReportText(cs) + tail == header + ['\n'] + tail;
      SplitAround(header, tail, '\n');
      SplitNoSeparator(header, '\n');
    } else {
      var init, last := cs[..|cs| - 1], cs[|cs| - 1];
      var line := Join(Cells(last), ',');
      RecordLine(last);
      assert ReportText(cs) + tail == ReportText(init) + (line + ['\n'] + tail);
      SplitReport(init, line + ['\n'] + tail);
      SplitAround(line, tail, '\n');
      SplitNoSeparator(line, '\n');
      assert ReportLines(init) + ([line] + Split(tail, '\n')) == ReportLines(cs) + Split(tail, '\n');
    }
  }

  /** The record lines read back as the records. */
  lemma {:induction false} ParseReportLines(cs: seq<Collision>)
    requires forall k :: 0 <= k < |cs| ==> PlainRecord(cs[k])
    ensures ParseRecords(ReportLines(cs)[1..]) == Some(cs)
    decreases |cs|
  {
    if |cs| > 0 {
      var init, last := cs[..|cs| - 1], cs[|cs| - 1];
      ParseReportLines(init);
      RecordLine(last);
      var lines := ReportLines(cs)[1..];
      assert lines[..|lines| - 1] == ReportLines(init)[1..];
      assert init + [last] == cs;
    } else {
      assert ReportLines(cs)[1..] == [];
    }
  }

  /** Reading a written report gives back exactly the records, in order. */
  lemma {:induction false} ReportRoundTrip(cs: seq<Collision>)
    requires forall k :: 0 <= k < |cs| ==> PlainRecord(cs[k])
    ensures ReadReport(ReportText(cs)) == Some(cs)
  {
    SplitReport(cs, "");
    assert ReportText(cs) + "" == ReportText(cs);
    assert Split("", '\n') == [""];
    var lines := ReportLines(cs) + [""];
    assert lines[0] == Join(Columns, ',') by {
      HeaderFirst(cs);
    }
    assert lines[1..|lines| - 1] == ReportLines(cs)[1..];
    ParseReportLines(cs);
  }

  /** The header line comes first. */
  lemma {:induction false} HeaderFirst(cs: seq<Collision>)
    ensures ReportLines(cs)[0] == Join(Columns, ',')
    decreases |cs|
  {
    if |cs| > 0 {
      HeaderFirst(cs[..|cs| - 1]);
    }
  }
}
