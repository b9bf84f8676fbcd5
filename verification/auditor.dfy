/**
 * The auditing half of the tool: `check_collisions` reads the ledger back,
 * turns every range into a network, compares every two rows once, and
 * writes a report of the pairs whose networks overlap.
 */
module Auditor {
  import opened Wrappers
  import opened Text
  import opened Ipv4
  import opened Ledger
  import opened Report

  /** The ledger file as `read_csv` finds it. */
  datatype LedgerFile = Missing | Present(text: string)

  /** A row with its `network` column: `ip_network(ip_range, strict=False)`. */
  datatype Entry = Entry(container: string, network: Network)

  /** Two row positions, the first row of the pair and the second. */
  datatype Pair = Pair(i: nat, j: nat)

  /** One row with its network, None when `ip_network` refuses the range. */
  function EntryOf(row: Row): (r: Option<Entry>)
    ensures r.Some? <==> ParseNetwork(row.range).Some?
    ensures r.Some? ==> r.value == Entry(row.container, ParseNetwork(row.range).value)
    ensures r.Some? ==> r.value.network.prefix <= MaxPrefixLen
  {
    match ParseNetwork(row.range)
    case None => None
    case Some(n) => Some(Entry(row.container, n))
  }

  /** Every network of the column has a prefix of at most 32 bits, as `ip_network` builds them. */
  predicate Parsed(es: seq<Entry>) {
    forall k :: 0 <= k < |es| ==> es[k].network.prefix <= MaxPrefixLen
  }

  /** `df["ip_range"].apply(lambda x: ip_network(x, strict=False))`, row by row. */
  function Column(rows: seq<Row>): (col: seq<Option<Entry>>)
    ensures |col| == |rows|
    ensures forall k :: 0 <= k < |rows| ==> col[k] == EntryOf(rows[k])
  {
    seq(|rows|, k requires 0 <= k < |rows| => EntryOf(rows[k]))
  }

  /** The entries of a column, or None as soon as one row has none: the first refused range raises. */
  function AllPresent(col: seq<Option<Entry>>): Option<seq<Entry>> {
    if |col| == 0 then Some([])
    else
      var init, e := AllPresent(col[..|col| - 1]), col[|col| - 1];
      if init.None? || e.None? then None else Some(init.value + [e.value])
  }

  /** The `network` column; any range `ip_network` refuses makes the whole column fail. */
  function ParseNetworks(rows: seq<Row>): (r: Option<seq<Entry>>)
    ensures r.Some? ==> |r.value| == |rows| && Parsed(r.value)
  {
    var col := Column(rows);
    AllPresentMeaning(col);
    AllPresent(col)
  }

  /** The pairs (i, j) for i < j' < j, in the order the inner loop of `combinations` takes them. */
  function RowPairs(i: nat, j: nat): (ps: seq<Pair>)
    ensures |ps| == if j <= i then 0 else j - i - 1
    ensures forall k :: 0 <= k < |ps| ==> ps[k] == Pair(i, i + 1 + k)
  {
    if j <= i + 1 then [] else RowPairs(i, j - 1) + [Pair(i, j - 1)]
  }

  /** The pairs of n rows whose first row comes before row i. */
  function AllPairs(n: nat, i: nat): (ps: seq<Pair>)
    ensures forall k :: 0 <= k < |ps| ==> ps[k].i < i && ps[k].i < ps[k].j < n
  {
    if i == 0 then [] else AllPairs(n, i - 1) + RowPairs(i - 1, n)
  }

  /** `combinations(range(n), 2)`. */
  function PairsOf(n: nat): seq<Pair> {
    AllPairs(n, n)
  }

  /** Every pair names two rows of es. */
  predicate InRange(es: seq<Entry>, ps: seq<Pair>) {
    forall k :: 0 <= k < |ps| ==> ps[k].i < |es| && ps[k].j < |es|
  }

  /** `row1["network"].overlaps(row2["network"])`. */
  predicate Overlapping(es: seq<Entry>, p: Pair)
    requires Parsed(es)
  {
    p.i < |es| && p.j < |es| && Overlaps(es[p.i].network, es[p.j].network)
  }

  /** The pairs of ps that overlap, in the order of ps. */
  function Hits(es: seq<Entry>, ps: seq<Pair>): (hs: seq<Pair>)
    requires Parsed(es) && InRange(es, ps)
    ensures |hs| <= |ps| && InRange(es, hs)
  {
    if |ps| == 0 then []
    else
      var init, p := Hits(es, ps[..|ps| - 1]), ps[|ps| - 1];
      if Overlapping(es, p) then init + [p] else init
  }

  /** The record of a pair: the network texts and containers of its first row, then of its second. */
  function RecordOf(es: seq<Entry>, p: Pair): Collision
    requires p.i < |es| && p.j < |es|
  {
    Collision(FormatNetwork(es[p.i].network), es[p.i].container,
              FormatNetwork(es[p.j].network), es[p.j].container)
  }

  /** One record per pair, in order. */
  function Records(es: seq<Entry>, hs: seq<Pair>): (cs: seq<Collision>)
    requires InRange(es, hs)
    ensures |cs| == |hs|
    ensures forall k :: 0 <= k < |hs| ==> cs[k] == RecordOf(es, hs[k])
  {
    seq(|hs|, k requires 0 <= k < |hs| => RecordOf(es, hs[k]))
  }

  /** The collision table of a parsed ledger. */
  function Collisions(es: seq<Entry>): seq<Collision>
    requires Parsed(es)
  {
    Records(es, Hits(es, PairsOf(|es|)))
  }

  /**
   * The table `check_collisions(file_path)` builds: empty when the file is
   * missing, has a line that is not two fields, or has a range `ip_network`
   * refuses; an empty ledger has no pairs and so no collisions.
   */
  function Audit(file: LedgerFile): seq<Collision> {
    match file
    case Missing => []
    case Present(text) =>
      match ReadLedger(text)
      case None => []
      case Some(rows) =>
        match ParseNetworks(rows)
        case None => []
        case Some(es) => Collisions(es)
  }

  /**
   * `check_collisions(file_path)`: the table it returns, and the text it
   * writes to the report file, if it writes one. reportFails says that
   * writing the report raises; the exception is caught and the result is
   * empty.
   */
  method CheckCollisions(file: LedgerFile, reportFails: bool)
    returns (result: seq<Collision>, report: Option<string>)
    ensures report.Some? <==> Audit(file) != [] && !reportFails
    ensures report.Some? ==> report.value == ReportText(Audit(file))
    ensures result == if reportFails then [] else Audit(file)
  {
    result, report := [], None;
    if file.Missing? {
      return;
    }
    var rows := ReadLedger(file.text);
    if rows.None? {
      return;
    }
    var column := ParseNetworks(rows.value);
    if column.None? {
      return;
    }
    var found := FindCollisions(column.value);
    if |found| > 0 {
      if reportFails {
        return [], None;
      }
      report := Some(ReportText(found));
    }
    result := found;
  }

  /** The loop of `check_collisions` over `combinations(df.iterrows(), 2)`. */
  method FindCollisions(es: seq<Entry>) returns (found: seq<Collision>)
    requires Parsed(es)
    ensures found == Collisions(es)
  {
    var pairs := PairsOf(|es|);
    found := [];
    var k := 0;
    while k < |pairs|
      invariant 0 <= k <= |pairs|
      invariant found == Records(es, Hits(es, pairs[..k]))
    {
      var p := pairs[k];
      assert pairs[..k + 1] == pairs[..k] + [p];
      HitsSnoc(es, pairs[..k], p);
      if Overlapping(es, p) {
        RecordsSnoc(es, Hits(es, pairs[..k]), p);
        found := found + [RecordOf(es, p)];
      }
      k := k + 1;
    }
    assert pairs[..k] == pairs;
  }

  // ---------------------------------------------------------- lemmas

  /** A column is complete exactly when every row has an entry, and then it lists them in order. */
  lemma {:induction false} AllPresentMeaning(col: seq<Option<Entry>>)
    ensures AllPresent(col).Some? <==> forall k :: 0 <= k < |col| ==> col[k].Some?
    ensures AllPresent(col).Some? ==>
      |AllPresent(col).value| == |col| && forall k :: 0 <= k < |col| ==> AllPresent(col).value[k] == col[k].value
    decreases |col|
  {
    if |col| > 0 {
      var init := col[..|col| - 1];
      AllPresentMeaning(init);
      assert forall k :: 0 <= k < |init| ==> init[k] == col[k];
    }
  }

  /** Filtering one more pair adds it at the end exactly when it overlaps. */
  lemma {:induction false} HitsSnoc(es: seq<Entry>, ps: seq<Pair>, p: Pair)
    requires Parsed(es) && InRange(es, ps) && p.i < |es| && p.j < |es|
    ensures InRange(es, ps + [p])
    ensures Hits(es, ps + [p]) == if Overlapping(es, p) then Hits(es, ps) + [p] else Hits(es, ps)
  {
    assert (ps + [p])[..|ps|] == ps;
  }

  /** The record list grows with the pair list. */
  lemma {:induction false} RecordsSnoc(es: seq<Entry>, hs: seq<Pair>, p: Pair)
    requires InRange(es, hs) && p.i < |es| && p.j < |es|
    ensures InRange(es, hs + [p])
    ensures Records(es, hs + [p]) == Records(es, hs) + [RecordOf(es, p)]
  {
  }

  /** Lexicographic order on pairs. */
  predicate Before(p: Pair, q: Pair) {
    p.i < q.i || (p.i == q.i && p.j < q.j)
  }

  /** Each pair strictly before the next: in particular no pair twice. */
  predicate StrictlyOrdered(ps: seq<Pair>) {
    forall k, l :: 0 <= k < l < |ps| ==> Before(ps[k], ps[l])
  }

  /** The pairs before row i are exactly those whose first row is before i. */
  lemma {:induction false} AllPairsMembership(n: nat, i: nat, a: nat, b: nat)
    ensures Pair(a, b) in AllPairs(n, i) <==> a < i && a < b < n
    decreases i
  {
    if i > 0 {
      AllPairsMembership(n, i - 1, a, b);
      var row := RowPairs(i - 1, n);
      if a == i - 1 && a < b < n {
        assert row[b - i] == Pair(a, b);
      }
    }
  }

  /** `combinations(range(n), 2)` yields exactly the pairs a < b < n. */
  lemma {:induction false} PairsMembership(n: nat, a: nat, b: nat)
    ensures Pair(a, b) in PairsOf(n) <==> a < b < n
  {
    AllPairsMembership(n, n, a, b);
  }

  /** The pairs before row i come in lexicographic order. */
  lemma {:induction false} AllPairsOrdered(n: nat, i: nat)
    ensures StrictlyOrdered(AllPairs(n, i))
    decreases i
  {
    if i > 0 {
      AllPairsOrdered(n, i - 1);
      var front, row := AllPairs(n, i - 1), RowPairs(i - 1, n);
      var ps := front + row;
      forall k, l | 0 <= k < l < |ps|
        ensures Before(ps[k], ps[l])
      {
        if l < |front| {
          assert ps[k] == front[k] && ps[l] == front[l];
        } else if k < |front| {
          assert ps[k] == front[k] && ps[l] == row[l - |front|];
        } else {
          assert ps[k] == row[k - |front|] && ps[l] == row[l - |front|];
        }
      }
    }
  }

  /** `combinations` takes the pairs in lexicographic order, each once. */
  lemma {:induction false} PairsOrdered(n: nat)
    ensures StrictlyOrdered(PairsOf(n))
  {
    AllPairsOrdered(n, n);
  }

  /** There are i * (2n - i - 1) / 2 pairs whose first row is before i. */
  lemma {:induction false} AllPairsCount(n: nat, i: nat)
    requires i <= n
    ensures 2 * |AllPairs(n, i)| == i * (2 * n - i - 1)
    decreases i
  {
    if i > 0 {
      AllPairsCount(n, i - 1);
      CountStep(n, i);
    }
  }

  /** Row i - 1 adds n - i pairs to the (i - 1)(2n - i)/2 before it. */
  lemma {:induction false} CountStep(n: int, i: int)
    ensures (i - 1) * (2 * n - i) + 2 * (n - i) == i * (2 * n - i - 1)
  {
    assert (i - 1) * (2 * n - i) == i * (2 * n - i) - (2 * n - i);
    assert i * (2 * n - i) == i * (2 * n - i - 1) + i;
  }

  /** n rows give n(n - 1)/2 pairs. */
  lemma {:induction false} PairsCount(n: nat)
    ensures 2 * |PairsOf(n)| == n * (n - 1)
  {
    AllPairsCount(n, n);
  }

  /** The hits of ps are the pairs of ps that overlap. */
  lemma {:induction false} HitsMembership(es: seq<Entry>, ps: seq<Pair>, p: Pair)
    requires Parsed(es) && InRange(es, ps)
    ensures p in Hits(es, ps) <==> p in ps && Overlapping(es, p)
    decreases |ps|
  {
    if |ps| > 0 {
      var init := ps[..|ps| - 1];
      HitsMembership(es, init, p);
      assert ps == init + [ps[|ps| - 1]];
    }
  }

  /** Filtering keeps the order of the pairs. */
  lemma {:induction false} HitsOrdered(es: seq<Entry>, ps: seq<Pair>)
    requires Parsed(es) && InRange(es, ps) && StrictlyOrdered(ps)
    ensures StrictlyOrdered(Hits(es, ps))
    decreases |ps|
  {
    if |ps| > 0 {
      var init, p := ps[..|ps| - 1], ps[|ps| - 1];
      assert StrictlyOrdered(init) by {
        assert forall k :: 0 <= k < |init| ==> init[k] == ps[k];
      }
      HitsOrdered(es, init);
      var hs := Hits(es, init);
      forall k | 0 <= k < |hs|
        ensures Before(hs[k], p)
      {
        HitsMembership(es, init, hs[k]);
        var m :| 0 <= m < |init| && init[m] == hs[k];
        assert ps[m] == hs[k];
      }
    }
  }

  /** The pairs `check_collisions` reports: every two rows i < j whose networks overlap. */
  lemma {:induction false} ReportedPairs(es: seq<Entry>, a: nat, b: nat)
    requires Parsed(es)
    ensures Pair(a, b) in Hits(es, PairsOf(|es|)) <==> a < b < |es| && Overlapping(es, Pair(a, b))
  {
    PairsMembership(|es|, a, b);
    HitsMembership(es, PairsOf(|es|), Pair(a, b));
  }

  /** Each reported pair once, in lexicographic order, at most n(n - 1)/2 of them. */
  lemma {:induction false} ReportedOrder(es: seq<Entry>)
    requires Parsed(es)
    ensures StrictlyOrdered(Hits(es, PairsOf(|es|)))
    ensures 2 * |Hits(es, PairsOf(|es|))| <= |es| * (|es| - 1)
  {
    PairsOrdered(|es|);
    HitsOrdered(es, PairsOf(|es|));
    PairsCount(|es|);
  }

  /** Every record names two overlapping rows i < j, the `1` fields from row i and the `2` fields from row j. */
  lemma {:induction false} CollisionsSound(es: seq<Entry>, c: Collision)
    requires Parsed(es) && c in Collisions(es)
    ensures exists a: nat, b: nat :: a < b < |es| && Overlapping(es, Pair(a, b)) && c == RecordOf(es, Pair(a, b))
  {
    var hs := Hits(es, PairsOf(|es|));
    var cs := Collisions(es);
    var k :| 0 <= k < |cs| && cs[k] == c;
    var p := hs[k];
    assert p in hs;
    ReportedPairs(es, p.i, p.j);
    assert c == RecordOf(es, Pair(p.i, p.j));
  }

  /** Every two overlapping rows i < j have their record. */
  lemma {:induction false} CollisionsComplete(es: seq<Entry>, a: nat, b: nat)
    requires Parsed(es) && a < b < |es| && Overlapping(es, Pair(a, b))
    ensures RecordOf(es, Pair(a, b)) in Collisions(es)
  {
    var hs := Hits(es, PairsOf(|es|));
    ReportedPairs(es, a, b);
    var k :| 0 <= k < |hs| && hs[k] == Pair(a, b);
    assert Collisions(es)[k] == RecordOf(es, Pair(a, b));
  }

  /** At most n(n - 1)/2 records: one per pair at most. */
  lemma {:induction false} CollisionsBound(es: seq<Entry>)
    requires Parsed(es)
    ensures 2 * |Collisions(es)| <= |es| * (|es| - 1)
  {
    ReportedOrder(es);
  }

  /** Two rows: one record when their networks overlap, none otherwise. */
  lemma {:induction false} TwoRows(x: Entry, y: Entry)
    requires ValidNetwork(x.network) && ValidNetwork(y.network)
    ensures Parsed([x, y])
    ensures Collisions([x, y])
         == if Overlaps(x.network, y.network)
            then [Collision(FormatNetwork(x.network), x.container, FormatNetwork(y.network), y.container)]
            else []
  {
    var es := [x, y];
    assert RowPairs(0, 2) == [Pair(0, 1)] by {
      assert RowPairs(0, 1) == [];
    }
    assert RowPairs(1, 2) == [];
    assert PairsOf(2) == [Pair(0, 1)] by {
      assert AllPairs(2, 1) == [] + [Pair(0, 1)];
      assert AllPairs(2, 2) == [Pair(0, 1)] + [];
    }
    var ps := [Pair(0, 1)];
    assert ps[..0] == [];
    if Overlaps(x.network, y.network) {
      assert Hits(es, ps) == [] + [Pair(0, 1)];
    } else {
      assert Hits(es, ps) == [];
    }
  }

  /** 192.168.1.0/24 next to 192.168.1.128/25: one collision, the /24 first. */
  lemma {:induction false} NestedCollisionExample(c1: string, c2: string)
    ensures var x, y := Network(FromOctets(192, 168, 1, 0), 24), Network(FromOctets(192, 168, 1, 128), 25);
      Parsed([Entry(c1, x), Entry(c2, y)]) &&
      Collisions([Entry(c1, x), Entry(c2, y)]) == [Collision(FormatNetwork(x), c1, FormatNetwork(y), c2)]
  {
    NestedOverlapExample();
    TwoRows(Entry(c1, Network(FromOctets(192, 168, 1, 0), 24)), Entry(c2, Network(FromOctets(192, 168, 1, 128), 25)));
  }

  /** 10.0.0.0/24 next to 10.0.1.0/24: no collision. */
  lemma {:induction false} AdjacentNoCollisionExample(c1: string, c2: string)
    ensures var x, y := Network(FromOctets(10, 0, 0, 0), 24), Network(FromOctets(10, 0, 1, 0), 24);
      Parsed([Entry(c1, x), Entry(c2, y)]) && Collisions([Entry(c1, x), Entry(c2, y)]) == []
  {
    AdjacentBlocksExample();
    TwoRows(Entry(c1, Network(FromOctets(10, 0, 0, 0), 24)), Entry(c2, Network(FromOctets(10, 0, 1, 0), 24)));
  }

  /** A single range `ip_network` refuses empties the whole table. */
  lemma {:induction false} MalformedRangeEmptiesAudit(text: string, k: nat)
    requires ReadLedger(text).Some? && k < |ReadLedger(text).value|
    requires ParseNetwork(ReadLedger(text).value[k].range).None?
    ensures Audit(Present(text)) == []
  {
    var rows := ReadLedger(text).value;
    AllPresentMeaning(Column(rows));
  }

  /**
   * Two pods that save the same range to one ledger collide: the audit
   * reports exactly that pair, the first pod first.
   */
  lemma {:induction false} SameRangeCollides(pod1: string, pod2: string, range: string, n: Network)
    requires PlainField(pod1) && PlainField(pod2) && PlainField(range)
    requires ParseNetwork(range) == Some(n)
    ensures Audit(Present(LedgerText(pod1, [range]) + LedgerText(pod2, [range])))
         == [Collision(FormatNetwork(n), pod1, FormatNetwork(n), pod2)]
  {
    TwoSaves(pod1, pod2, range, range);
    TwoRowsParse(Row(pod1, range), Row(pod2, range), n, n);
    OverlapsReflexive(n);
    TwoRows(Entry(pod1, n), Entry(pod2, n));
  }

  /** Two pods saving one range each: the ledger reads back as their two rows, in save order. */
  lemma {:induction false} TwoSaves(pod1: string, pod2: string, range1: string, range2: string)
    requires PlainField(pod1) && PlainField(pod2) && PlainField(range1) && PlainField(range2)
    ensures ReadLedger(LedgerText(pod1, [range1]) + LedgerText(pod2, [range2])) == Some([Row(pod1, range1), Row(pod2, range2)])
  {
    var first := LedgerText(pod1, [range1]);
    assert [range1][..0] == [];
    assert LedgerText(pod1, [range1][..0]) == "";
    assert first == "" + Line(pod1, range1);
    assert first[|first| - 1] == '\n';
    LedgerRoundTrip(pod1, [range1]);
    assert ParseRows(Split(first, '\n')) == Some(RowsOf(pod1, [range1]));
    AppendKeepsRows(first, pod2, [range2]);
    assert RowsOf(pod1, [range1]) + RowsOf(pod2, [range2]) == [Row(pod1, range1), Row(pod2, range2)];
  }

  /** Two rows whose ranges parse give two entries with those networks. */
  lemma {:induction false} TwoRowsParse(x: Row, y: Row, n: Network, m: Network)
    requires ParseNetwork(x.range) == Some(n) && ParseNetwork(y.range) == Some(m)
    ensures ParseNetworks([x, y]) == Some([Entry(x.container, n), Entry(y.container, m)])
  {
    assert Column([x, y]) == [Some(Entry(x.container, n)), Some(Entry(y.container, m))];
    TwoPresent(Entry(x.container, n), Entry(y.container, m));
  }

  /** The ledger of the collision test: container1 saved 192.168.1.0/24, then container2 saved 192.168.1.128/25. */
  function TestLedger(): string {
    LedgerText("container1", ["192.168.1.0/24"]) + LedgerText("container2", ["192.168.1.128/25"])
  }

  /** That ledger reads back as the two rows, in save order. */
  lemma {:induction false} TestLedgerRows()
    ensures ReadLedger(TestLedger()) == Some([Row("container1", "192.168.1.0/24"), Row("container2", "192.168.1.128/25")])
  {
    assert PlainField("container1") && PlainField("container2");
    assert PlainField("192.168.1.0/24") && PlainField("192.168.1.128/25");
    TwoSaves("container1", "container2", "192.168.1.0/24", "192.168.1.128/25");
  }

  /** The two rows of that ledger parse to 192.168.1.0/24 and 192.168.1.128/25. */
  lemma {:induction false} TestLedgerEntries()
    ensures ParseNetworks([Row("container1", "192.168.1.0/24"), Row("container2", "192.168.1.128/25")])
         == Some([Entry("container1", Network(FromOctets(192, 168, 1, 0), 24)),
                  Entry("container2", Network(FromOctets(192, 168, 1, 128), 25))])
  {
    assert "192.168.1.0/24" == "192" + "." + "168" + "." + "1" + "." + "0" + "/" + "24";
    assert "192.168.1.128/25" == "192" + "." + "168" + "." + "1" + "." + "128" + "/" + "25";
    ClassCRangeExample();
    UpperHalfRangeExample();
    TwoRowsParse(Row("container1", "192.168.1.0/24"), Row("container2", "192.168.1.128/25"),
                 Network(FromOctets(192, 168, 1, 0), 24), Network(FromOctets(192, 168, 1, 128), 25));
  }

  /** Auditing that ledger finds exactly one collision: the /24 of container1, then the /25 of container2. */
  lemma {:induction false} LedgerCollisionExample()
    ensures Audit(Present(TestLedger()))
         == [Collision(FormatNetwork(Network(FromOctets(192, 168, 1, 0), 24)), "container1",
                       FormatNetwork(Network(FromOctets(192, 168, 1, 128), 25)), "container2")]
  {
    TestLedgerRows();
    TestLedgerEntries();
    NestedCollisionExample("container1", "container2");
  }

  /** `check_collisions` on that ledger: one record, container1 then container2, and the report is written. */
  method CheckCollisionsExample() returns (result: seq<Collision>, report: Option<string>)
    ensures |result| == 1 && result[0].container1 == "container1" && result[0].container2 == "container2"
    ensures report.Some? && ReadReport(report.value) == Some(result)
  {
    LedgerCollisionExample();
    AuditReportReadsBack(Present(TestLedger()));
    result, report := CheckCollisions(Present(TestLedger()), false);
  }

  /** A column of two present entries collects to those two. */
  lemma {:induction false} TwoPresent(a: Entry, b: Entry)
    ensures AllPresent([Some(a), Some(b)]) == Some([a, b])
  {
    var col := [Some(a), Some(b)];
    assert col[..1] == [Some(a)] && col[..1][..0] == [];
    assert AllPresent(col[..1]) == Some([] + [a]);
    assert [] + [a] + [b] == [a, b];
  }

  /** Every container of the column is a plain field. */
  predicate PlainContainers(es: seq<Entry>) {
    forall k :: 0 <= k < |es| ==> PlainField(es[k].container)
  }

  /** Containers read from plain rows stay plain. */
  lemma {:induction false} ColumnPlain(rows: seq<Row>)
    requires forall k :: 0 <= k < |rows| ==> PlainField(rows[k].container)
    ensures ParseNetworks(rows).Some? ==> PlainContainers(ParseNetworks(rows).value)
  {
    AllPresentMeaning(Column(rows));
  }

  /** Records of plain containers have plain cells: network texts never hold a comma or a line break. */
  lemma {:induction false} RecordsPlain(es: seq<Entry>, hs: seq<Pair>)
    requires InRange(es, hs) && PlainContainers(es)
    ensures forall k :: 0 <= k < |hs| ==> PlainRecord(Records(es, hs)[k])
  {
    forall k | 0 <= k < |hs|
      ensures PlainRecord(Records(es, hs)[k])
    {
      NetworkTextPlain(es[hs[k].i].network);
      NetworkTextPlain(es[hs[k].j].network);
    }
  }

  /** The report file `check_collisions` writes reads back as the table it returns. */
  lemma {:induction false} AuditReportReadsBack(file: LedgerFile)
    ensures ReadReport(ReportText(Audit(file))) == Some(Audit(file))
  {
    if file.Present? {
      var rows := ReadLedger(file.text);
      if rows.Some? {
        ColumnPlain(rows.value);
        var column := ParseNetworks(rows.value);
        if column.Some? {
          RecordsPlain(column.value, Hits(column.value, PairsOf(|column.value|)));
        }
      }
    }
    ReportRoundTrip(Audit(file));
  }
}
