/**
 * The shared ledger file: one `owner,range` line per published range, as
 * `save_ip_ranges` appends them, and the two-column table `check_collisions`
 * reads back from it.
 */
module Ledger {
  import opened Wrappers
  import opened Text

  /** One row of the table: the `container_id` and `ip_range` columns. */
  datatype Row = Row(container: string, range: string)

  /** `f"{POD_NAME},{ip_range}\n"`. */
  function Line(owner: string, range: string): string {
    owner + "," + range + "\n"
  }

  /** The lines written for ranges, in order. */
  function LedgerText(owner: string, ranges: seq<string>): string {
    if |ranges| == 0 then ""
    else LedgerText(owner, ranges[..|ranges| - 1]) + Line(owner, ranges[|ranges| - 1])
  }

  /** The rows those lines stand for. */
  function RowsOf(owner: string, ranges: seq<string>): (rows: seq<Row>)
    ensures |rows| == |ranges|
    ensures forall k :: 0 <= k < |ranges| ==> rows[k] == Row(owner, ranges[k])
  {
    seq(|ranges|, k requires 0 <= k < |ranges| => Row(owner, ranges[k]))
  }

  /** A field that can be written on a line and read back: no comma, no line break. */
  predicate PlainField(s: string) {
    ',' !in s && '\n' !in s
  }

  /** One line of the file: exactly two comma-separated fields. */
  function ParseLine(line: string): Option<Row> {
    var fields := Split(line, ',');
    if |fields| == 2 then Some(Row(fields[0], fields[1])) else None
  }

  /**
   * The rows of the lines, blank lines skipped; any line that is not two
   * fields makes the whole read fail.
   */
  function ParseRows(lines: seq<string>): Option<seq<Row>> {
    if |lines| == 0 then Some([])
    else
      var init, last := ParseRows(lines[..|lines| - 1]), lines[|lines| - 1];
      if init.None? then None
      else if last == "" then init
      else
        var row := ParseLine(last);
        if row.None? then None else Some(init.value + [row.value])
  }

  /**
   * `pd.read_csv(path, header=None, names=["container_id", "ip_range"])`:
   * the rows of the file's lines. An empty or blank file is an empty table;
   * the fields of every row are plain, since the split removed every comma
   * and line break.
   */
  function ReadLedger(text: string): (r: Option<seq<Row>>)
    ensures text == "" ==> r == Some([])
    ensures r.Some? ==> forall k :: 0 <= k < |r.value| ==> PlainField(r.value[k].container) && PlainField(r.value[k].range)
  {
    var lines := Split(text, '\n');
    assert text == "" ==> lines == [""] && lines[..0] == [] && ParseRows(lines) == ParseRows(lines[..0]);
    ParseRowsPlain(lines);
    ParseRows(lines)
  }

  // ---------------------------------------------------------- lemmas

  /** A written line is one line: two plain fields joined by a comma. */
  lemma {:induction false} LineRoundTrip(owner: string, range: string)
    requires PlainField(owner) && PlainField(range)
    ensures '\n' !in owner + "," + range
    ensures ParseLine(owner + "," + range) == Some(Row(owner, range))
  {
    assert "," == [','];
    SplitAround(owner, range, ',');
    SplitNoSeparator(owner, ',');
    SplitNoSeparator(range, ',');
    assert owner + "," + range == owner + [','] + range;
  }

  /** The lines of the ledger text, followed by whatever comes after it. */
  lemma {:induction false} SplitLedger(owner: string, ranges: seq<string>, tail: string)
    requires PlainField(owner) && forall k :: 0 <= k < |ranges| ==> PlainField(ranges[k])
    ensures Split(LedgerText(owner, ranges) + tail, '\n') == LinesOf(owner, ranges) + Split(tail, '\n')
    decreases |ranges|
  {
    if |ranges| > 0 {
      var init, last := ranges[..|ranges| - 1], ranges[|ranges| - 1];
      var body := owner + "," + last;
      LineRoundTrip(owner, last);
      assert "\n" == ['\n'];
      assert LedgerText(owner, ranges) + tail == LedgerText(owner, init) + (body + ['\n'] + tail);
      SplitLedger(owner, init, body + ['\n'] + tail);
      SplitAround(body, tail, '\n');
      SplitNoSeparator(body, '\n');
      assert LinesOf(owner, ranges) == LinesOf(owner, init) + [body];
      assert LinesOf(owner, init) + ([body] + Split(tail, '\n')) == LinesOf(owner, ranges) + Split(tail, '\n');
    } else {
      assert LedgerText(owner, ranges) + tail == tail;
    }
  }

  /** The line bodies, without their line breaks. */
  function LinesOf(owner: string, ranges: seq<string>): (lines: seq<string>)
    ensures |lines| == |ranges|
  {
    if |ranges| == 0 then []
    else LinesOf(owner, ranges[..|ranges| - 1]) + [owner + "," + ranges[|ranges| - 1]]
  }

  /** Reading the bodies of written lines gives one row per range. */
  lemma {:induction false} ParseLinesOf(owner: string, ranges: seq<string>)
    requires PlainField(owner) && forall k :: 0 <= k < |ranges| ==> PlainField(ranges[k])
    ensures ParseRows(LinesOf(owner, ranges)) == Some(RowsOf(owner, ranges))
    decreases |ranges|
  {
    if |ranges| > 0 {
      var init, last := ranges[..|ranges| - 1], ranges[|ranges| - 1];
      ParseLinesOf(owner, init);
      LineRoundTrip(owner, last);
      var lines := LinesOf(owner, ranges);
      assert lines[..|lines| - 1] == LinesOf(owner, init);
      assert owner + "," + last != "" by {
        assert (owner + "," + last)[|owner|] == ',';
      }
      assert RowsOf(owner, ranges) == RowsOf(owner, init) + [Row(owner, last)];
    }
  }

  /** Skipped blank lines and failed lines both carry over to a longer file. */
  lemma {:induction false} ParseRowsAppend(a: seq<string>, b: seq<string>)
    requires ParseRows(a).Some? && ParseRows(b).Some?
    ensures ParseRows(a + b) == Some(ParseRows(a).value + ParseRows(b).value)
    decreases |b|
  {
    if |b| == 0 {
      assert a + b == a;
      assert ParseRows(a).value + [] == ParseRows(a).value;
    } else {
      var init := b[..|b| - 1];
      assert (a + b)[..|a + b| - 1] == a + init;
      assert (a + b)[|a + b| - 1] == b[|b| - 1];
      ParseRowsAppend(a, init);
      var x, y := ParseRows(a).value, ParseRows(init).value;
      if b[|b| - 1] != "" {
        var row := ParseLine(b[|b| - 1]).value;
        assert (x + y) + [row] == x + (y + [row]);
      }
    }
  }

  /** The lines written for a list of ranges, from nothing, read back as one row per range, in order. */
  lemma {:induction false} LedgerRoundTrip(owner: string, ranges: seq<string>)
    requires PlainField(owner) && forall k :: 0 <= k < |ranges| ==> PlainField(ranges[k])
    ensures ReadLedger(LedgerText(owner, ranges)) == Some(RowsOf(owner, ranges))
  {
    SplitLedger(owner, ranges, "");
    assert LedgerText(owner, ranges) + "" == LedgerText(owner, ranges);
    assert Split("", '\n') == [""];
    ParseLinesOf(owner, ranges);
    ParseRowsAppend(LinesOf(owner, ranges), [""]);
    assert ParseRows([""]) == Some([]) by {
      assert [""][..0] == [];
    }
    assert RowsOf(owner, ranges) + [] == RowsOf(owner, ranges);
  }

  /**
   * Appending lines to a ledger that ends in a line break (or is empty)
   * keeps its rows and adds one row per range after them.
   */
  lemma {:induction false} AppendKeepsRows(existing: string, owner: string, ranges: seq<string>)
    requires existing == "" || existing[|existing| - 1] == '\n'
    requires ParseRows(Split(existing, '\n')).Some?
    requires PlainField(owner) && forall k :: 0 <= k < |ranges| ==> PlainField(ranges[k])
    ensures ParseRows(Split(existing + LedgerText(owner, ranges), '\n'))
         == Some(ParseRows(Split(existing, '\n')).value + RowsOf(owner, ranges))
  {
    var added := LedgerText(owner, ranges);
    LedgerRoundTrip(owner, ranges);
    if existing == "" {
      assert existing + added == added;
      assert Split(existing, '\n') == [""];
      assert ParseRows([""]) == Some([]) by {
        assert [""][..0] == [];
      }
      assert [] + RowsOf(owner, ranges) == RowsOf(owner, ranges);
    } else {
      var front := existing[..|existing| - 1];
      assert existing == front + ['\n'];
      BreakThenText(front, added);
    }
  }

  /** Text after a line break starts new lines: the rows of both parts, in order. */
  lemma {:induction false} BreakThenText(front: string, added: string)
    requires ParseRows(Split(front + ['\n'], '\n')).Some? && ParseRows(Split(added, '\n')).Some?
    ensures ParseRows(Split(front + ['\n'] + added, '\n'))
         == Some(ParseRows(Split(front + ['\n'], '\n')).value + ParseRows(Split(added, '\n')).value)
  {
    var before := Split(front, '\n');
    assert front + ['\n'] == front + ['\n'] + [];
    SplitAround(front, [], '\n');
    assert Split([], '\n') == [""];
    assert (before + [""])[..|before|] == before;
    assert ParseRows(Split(front + ['\n'], '\n')) == ParseRows(before);
    SplitAround(front, added, '\n');
    ParseRowsAppend(before, Split(added, '\n'));
  }

  /** Rows read from lines without line breaks have plain fields: the split removed every comma. */
  lemma {:induction false} ParseRowsPlain(lines: seq<string>)
    requires forall k :: 0 <= k < |lines| ==> '\n' !in lines[k]
    ensures ParseRows(lines).Some? ==>
      forall k :: 0 <= k < |ParseRows(lines).value| ==>
        PlainField(ParseRows(lines).value[k].container) && PlainField(ParseRows(lines).value[k].range)
    decreases |lines|
  {
    if |lines| > 0 {
      var init, last := lines[..|lines| - 1], lines[|lines| - 1];
      assert forall k :: 0 <= k < |init| ==> init[k] == lines[k];
      ParseRowsPlain(init);
      if ParseRows(lines).Some? && last != "" {
        var front, row := ParseRows(init).value, ParseLine(last).value;
        assert ParseRows(lines).value == front + [row];
        var fields := Split(last, ',');
        assert row == Row(fields[0], fields[1]);
        SplitKeepsOut(last, ',', '\n');
      }
    }
  }
}
