/**
 * The publishing half of the tool: `get_ip_ranges` collects the IPv4
 * address/prefix text of every interface, and `save_ip_ranges` appends one
 * ledger line per range to the shared file.
 */
module Publisher {
  import opened Wrappers
  import opened Text
  import opened Ipv4
  import Cidr
  import opened Ledger

  /**
   * One entry of `netifaces.ifaddresses(interface)[AF_INET]`: the values of
   * its 'addr' and 'netmask' keys, None where the key is absent.
   */
  datatype AddrEntry = AddrEntry(addr: Option<string>, netmask: Option<string>)

  /** An interface and its AF_INET entries, None when it has no AF_INET family. */
  datatype Interface = Interface(name: string, inet: Option<seq<AddrEntry>>)

  /** Why `get_ip_ranges` raises. */
  datatype Failure =
    | MissingKey(key: string)           // `addr['addr']` or `addr['netmask']`: KeyError
    | BadNetmask(cause: Cidr.Failure)   // `netmask_to_cidr`: ValueError from `int()`

  /** An entry whose address and netmask are both present and non-empty (`if ip and netmask`). */
  predicate Qualifies(e: AddrEntry) {
    e.addr.Some? && e.netmask.Some? && e.addr.value != "" && e.netmask.value != ""
  }

  /** An entry the loop passes without raising. */
  predicate EntryOk(e: AddrEntry) {
    e.addr.Some? && e.netmask.Some? && (Qualifies(e) ==> Cidr.NetmaskToCidr(e.netmask.value).Ok?)
  }

  /** `f"{ip}/{netmask_to_cidr(netmask)}"` for an entry that qualifies. */
  function Publish(e: AddrEntry): string
    requires Qualifies(e) && EntryOk(e)
  {
    e.addr.value + "/" + NatToString(Cidr.NetmaskToCidr(e.netmask.value).value)
  }

  /** What the loop body does with one entry: raise, skip it (None), or append a range. */
  function RangeOf(e: AddrEntry): (r: Result<Option<string>, Failure>)
    ensures r.Ok? <==> EntryOk(e)
    ensures r.Ok? ==> (r.value.Some? <==> Qualifies(e))
    ensures r.Ok? && r.value.Some? ==> r.value.value == Publish(e)
  {
    if e.addr.None? then Err(MissingKey("addr"))
    else if e.netmask.None? then Err(MissingKey("netmask"))
    else if e.addr.value == "" || e.netmask.value == "" then Ok(None)
    else
      match Cidr.NetmaskToCidr(e.netmask.value)
      case Err(cause) => Err(BadNetmask(cause))
      case Ok(cidr) => Ok(Some(e.addr.value + "/" + NatToString(cidr)))
  }

  /** The ranges of a list of entries, in order; the first raising entry ends it. */
  function EntryRanges(entries: seq<AddrEntry>): Result<seq<string>, Failure> {
    if |entries| == 0 then Ok([])
    else
      var init, r := EntryRanges(entries[..|entries| - 1]), RangeOf(entries[|entries| - 1]);
      if init.Err? then init
      else if r.Err? then Err(r.error)
      else if r.value.None? then init
      else Ok(init.value + [r.value.value])
  }

  /** An interface without the AF_INET family contributes nothing. */
  function InterfaceRanges(iface: Interface): Result<seq<string>, Failure> {
    match iface.inet
    case None => Ok([])
    case Some(entries) => EntryRanges(entries)
  }

  /** The ranges of all interfaces, interface by interface. */
  function AllRanges(ifaces: seq<Interface>): Result<seq<string>, Failure> {
    if |ifaces| == 0 then Ok([])
    else
      var init, r := AllRanges(ifaces[..|ifaces| - 1]), InterfaceRanges(ifaces[|ifaces| - 1]);
      if init.Err? then init
      else if r.Err? then r
      else Ok(init.value + r.value)
  }

  /** `get_ip_ranges()` over the interfaces `netifaces` reports, in its order. */
  method GetIpRanges(ifaces: seq<Interface>) returns (r: Result<seq<string>, Failure>)
    ensures r == AllRanges(ifaces)
  {
    var ranges: seq<string> := [];
    var i := 0;
    while i < |ifaces|
      invariant 0 <= i <= |ifaces|
      invariant AllRanges(ifaces[..i]) == Ok(ranges)
    {
      assert ifaces[..i + 1][..i] == ifaces[..i];
      var iface := ifaces[i];
      if iface.inet.Some? {
        var entries := iface.inet.value;
        ghost var before := ranges;
        var j := 0;
        while j < |entries|
          invariant 0 <= j <= |entries|
          invariant EntryRanges(entries[..j]).Ok?
          invariant ranges == before + EntryRanges(entries[..j]).value
        {
          assert entries[..j + 1][..j] == entries[..j];
          var e := entries[j];
          if e.addr.None? {
            r := Err(MissingKey("addr"));
            RaiseEnds(ifaces, i, entries, j);
            return;
          }
          if e.netmask.None? {
            r := Err(MissingKey("netmask"));
            RaiseEnds(ifaces, i, entries, j);
            return;
          }
          var ip, netmask := e.addr.value, e.netmask.value;
          if ip != "" && netmask != "" {
            var cidr := Cidr.NetmaskToCidr(netmask);
            if cidr.Err? {
              r := Err(BadNetmask(cidr.error));
              RaiseEnds(ifaces, i, entries, j);
              return;
            }
            ranges := ranges + [ip + "/" + NatToString(cidr.value)];
          }
          j := j + 1;
        }
        assert entries[..j] == entries;
      } else {
        assert ranges + [] == ranges;
      }
      i := i + 1;
    }
    assert ifaces[..i] == ifaces;
    r := Ok(ranges);
  }

  /** An entry that raises ends the whole walk with its error. */
  lemma {:induction false} RaiseEnds(ifaces: seq<Interface>, i: nat, entries: seq<AddrEntry>, j: nat)
    requires i < |ifaces| && ifaces[i].inet == Some(entries) && j < |entries|
    requires AllRanges(ifaces[..i]).Ok? && EntryRanges(entries[..j]).Ok?
    requires RangeOf(entries[j]).Err?
    ensures AllRanges(ifaces) == Err(RangeOf(entries[j]).error)
  {
    assert entries[..j + 1][..j] == entries[..j];
    EntryErrorSticks(entries, j + 1);
    assert ifaces[..i + 1][..i] == ifaces[..i];
    AllErrorSticks(ifaces, i + 1);
  }

  /** Once a prefix of the entries raises, the whole list raises the same error. */
  lemma {:induction false} EntryErrorSticks(entries: seq<AddrEntry>, j: nat)
    requires j <= |entries| && EntryRanges(entries[..j]).Err?
    ensures EntryRanges(entries) == EntryRanges(entries[..j])
    decreases |entries| - j
  {
    if j < |entries| {
      assert entries[..j + 1][..j] == entries[..j];
      EntryErrorSticks(entries, j + 1);
    } else {
      assert entries[..j] == entries;
    }
  }

  /** Once a prefix of the interfaces raises, the whole walk raises the same error. */
  lemma {:induction false} AllErrorSticks(ifaces: seq<Interface>, i: nat)
    requires i <= |ifaces| && AllRanges(ifaces[..i]).Err?
    ensures AllRanges(ifaces) == AllRanges(ifaces[..i])
    decreases |ifaces| - i
  {
    if i < |ifaces| {
      assert ifaces[..i + 1][..i] == ifaces[..i];
      AllErrorSticks(ifaces, i + 1);
    } else {
      assert ifaces[..i] == ifaces;
    }
  }

  // ------------------------------------------------- the reference list

  /** The AF_INET entries of all interfaces, in interface order and then entry order. */
  function Inet4Entries(ifaces: seq<Interface>): seq<AddrEntry> {
    if |ifaces| == 0 then []
    else
      var last := ifaces[|ifaces| - 1];
      Inet4Entries(ifaces[..|ifaces| - 1]) + (if last.inet.Some? then last.inet.value else [])
  }

  /** The published text of every entry that qualifies, in order: the loops without their errors. */
  function PublishAll(entries: seq<AddrEntry>): seq<string>
    requires forall k :: 0 <= k < |entries| ==> EntryOk(entries[k])
  {
    if |entries| == 0 then []
    else
      var last := entries[|entries| - 1];
      PublishAll(entries[..|entries| - 1]) + (if Qualifies(last) then [Publish(last)] else [])
  }

  /** How many entries qualify. */
  function CountQualifying(entries: seq<AddrEntry>): nat {
    if |entries| == 0 then 0
    else CountQualifying(entries[..|entries| - 1]) + (if Qualifies(entries[|entries| - 1]) then 1 else 0)
  }

  /** Walking two runs of entries is walking each run; the first error wins. */
  lemma {:induction false} EntryRangesAppend(a: seq<AddrEntry>, b: seq<AddrEntry>)
    ensures EntryRanges(a + b)
         == (if EntryRanges(a).Err? then EntryRanges(a)
             else if EntryRanges(b).Err? then EntryRanges(b)
             else Ok(EntryRanges(a).value + EntryRanges(b).value))
    decreases |b|
  {
    if |b| == 0 {
      assert a + b == a;
      if EntryRanges(a).Ok? {
        assert EntryRanges(a).value + [] == EntryRanges(a).value;
      }
    } else {
      var init := b[..|b| - 1];
      assert (a + b)[..|a + b| - 1] == a + init;
      assert (a + b)[|a + b| - 1] == b[|b| - 1];
      EntryRangesAppend(a, init);
      if EntryRanges(a).Ok? && EntryRanges(init).Ok? {
        var x, y := EntryRanges(a).value, EntryRanges(init).value;
        var r := RangeOf(b[|b| - 1]);
        if r.Ok? && r.value.Some? {
          assert (x + y) + [r.value.value] == x + (y + [r.value.value]);
        }
      }
    }
  }

  /** The walk over the interfaces is the walk over their AF_INET entries, flattened. */
  lemma {:induction false} AllRangesFlatten(ifaces: seq<Interface>)
    ensures AllRanges(ifaces) == EntryRanges(Inet4Entries(ifaces))
    decreases |ifaces|
  {
    if |ifaces| > 0 {
      var init, last := ifaces[..|ifaces| - 1], ifaces[|ifaces| - 1];
      AllRangesFlatten(init);
      EntryRangesAppend(Inet4Entries(init), if last.inet.Some? then last.inet.value else []);
    }
  }

  /** The walk succeeds exactly when no entry raises, and then it lists the reference texts. */
  lemma {:induction false} EntryRangesMeaning(entries: seq<AddrEntry>)
    ensures EntryRanges(entries).Ok? <==> forall k :: 0 <= k < |entries| ==> EntryOk(entries[k])
    ensures EntryRanges(entries).Ok? ==> EntryRanges(entries).value == PublishAll(entries)
    ensures EntryRanges(entries).Ok? ==> |EntryRanges(entries).value| == CountQualifying(entries)
    decreases |entries|
  {
    if |entries| > 0 {
      var init := entries[..|entries| - 1];
      EntryRangesMeaning(init);
      assert forall k :: 0 <= k < |init| ==> init[k] == entries[k];
    }
  }

  /**
   * `get_ip_ranges` returns one "addr/cidr" text per AF_INET entry with a
   * non-empty address and netmask, in interface order and then entry order,
   * and raises exactly when some AF_INET entry lacks a key or has a netmask
   * `int()` refuses.
   */
  lemma {:induction false} GetIpRangesMeaning(ifaces: seq<Interface>)
    ensures var es := Inet4Entries(ifaces);
      && (AllRanges(ifaces).Ok? <==> forall k :: 0 <= k < |es| ==> EntryOk(es[k]))
      && (AllRanges(ifaces).Ok? ==> AllRanges(ifaces).value == PublishAll(es))
      && (AllRanges(ifaces).Ok? ==> |AllRanges(ifaces).value| == CountQualifying(es))
  {
    AllRangesFlatten(ifaces);
    EntryRangesMeaning(Inet4Entries(ifaces));
  }

  /** Flattening two runs of interfaces is flattening each run. */
  lemma {:induction false} Inet4EntriesAppend(xs: seq<Interface>, ys: seq<Interface>)
    ensures Inet4Entries(xs + ys) == Inet4Entries(xs) + Inet4Entries(ys)
    decreases |ys|
  {
    if |ys| == 0 {
      assert xs + ys == xs;
    } else {
      var init, last := ys[..|ys| - 1], ys[|ys| - 1];
      assert (xs + ys)[..|xs + ys| - 1] == xs + init;
      assert (xs + ys)[|xs + ys| - 1] == last;
      Inet4EntriesAppend(xs, init);
    }
  }

  /** Adding an interface without AF_INET anywhere in the list changes nothing. */
  lemma {:induction false} NoInetNoRanges(xs: seq<Interface>, name: string, ys: seq<Interface>)
    ensures AllRanges(xs + [Interface(name, None)] + ys) == AllRanges(xs + ys)
  {
    Inet4EntriesAppend(xs + [Interface(name, None)], ys);
    Inet4EntriesAppend(xs, [Interface(name, None)]);
    Inet4EntriesAppend(xs, ys);
    assert Inet4Entries([Interface(name, None)]) == [] by {
      assert [Interface(name, None)][..0] == [];
    }
    assert Inet4Entries(xs) + [] == Inet4Entries(xs);
    AllRangesFlatten(xs + [Interface(name, None)] + ys);
    AllRangesFlatten(xs + ys);
  }

  // ------------------------------------------------- what a range means

  /**
   * A range published for a dotted-quad address and a contiguous netmask is
   * read back by `ip_network(..., strict=False)` as the network holding the
   * address, its host bits cleared.
   */
  lemma {:induction false} PublishedRangeParses(addr: string, netmask: string, a: nat, p: nat)
    requires ParseAddress(addr) == Some(a) && '/' !in addr
    requires p <= MaxPrefixLen && ParseAddress(netmask) == Some(Netmask(p))
    ensures addr != "" && netmask != ""
    ensures RangeOf(AddrEntry(Some(addr), Some(netmask))) == Ok(Some(addr + "/" + NatToString(p)))
    ensures ParseNetwork(addr + "/" + NatToString(p)) == Some(NetworkOf(a, p))
  {
    Cidr.AgreesWithIpaddress(netmask, p);
    PrefixFromDigits(p);
    DigitsOnly(NatToString(p), '/');
    ParseJoinedParts(addr, NatToString(p), a, p);
  }

  /**
   * eth0 with one address and a netmask counting to 24, next to an eth1
   * without AF_INET: one range, "addr/24".
   */
  lemma {:induction false} TwoInterfacesExample(addr: string, netmask: string)
    requires addr != "" && Cidr.NetmaskToCidr(netmask) == Ok(24)
    ensures AllRanges([Interface("eth0", Some([AddrEntry(Some(addr), Some(netmask))])), Interface("eth1", None)])
         == Ok([addr + "/" + NatToString(24)])
  {
    var eth0 := Interface("eth0", Some([AddrEntry(Some(addr), Some(netmask))]));
    assert netmask != "" by {
      assert Split("", '.') == [""];
    }
    NoInetNoRanges([eth0], "eth1", []);
    assert [eth0] + [Interface("eth1", None)] + [] == [eth0, Interface("eth1", None)];
    assert [eth0] + [] == [eth0];
    var es := [AddrEntry(Some(addr), Some(netmask))];
    assert es[..0] == [];
    assert RangeOf(es[0]) == Ok(Some(addr + "/" + NatToString(24)));
    assert EntryRanges(es) == Ok([] + [addr + "/" + NatToString(24)]);
    assert InterfaceRanges(eth0) == EntryRanges(es);
    var one := [eth0];
    assert one[..0] == [];
    assert AllRanges(one[..0]) == Ok([]);
    assert one[|one| - 1] == eth0;
    assert InterfaceRanges(one[|one| - 1]) == Ok([] + [addr + "/" + NatToString(24)]);
    assert AllRanges(one) == Ok([] + ([] + [addr + "/" + NatToString(24)]));
    assert [] + ([] + [addr + "/" + NatToString(24)]) == [addr + "/" + NatToString(24)];
    assert AllRanges([eth0] + [Interface("eth1", None)] + []) == AllRanges(one);
  }

  /** The same with the texts of 192.168.1.1 and 255.255.255.0. */
  lemma {:induction false} InterfacesTextExample()
    ensures AllRanges([Interface("eth0", Some([AddrEntry(Some("192" + "." + "168" + "." + "1" + "." + "1"),
                                                         Some("255" + "." + "255" + "." + "255" + "." + "0"))])),
                       Interface("eth1", None)])
         == Ok(["192" + "." + "168" + "." + "1" + "." + "1" + "/" + "24"])
  {
    Cidr.ClassCExample();
    assert NatToString(24) == "24";
    TwoInterfacesExample("192" + "." + "168" + "." + "1" + "." + "1", "255" + "." + "255" + "." + "255" + "." + "0");
  }

  // ------------------------------------------------- saving

  /** What can go wrong writing the ledger file. */
  datatype IoFault =
    | NoFault
    | OpenFails              // `open(path, "a")` raises: nothing is written
    | WriteFails(line: nat)  // the write of that line (counting from 0) raises

  /** How many of n lines reach the file under a fault. */
  function Written(fault: IoFault, n: nat): (w: nat)
    ensures w <= n
  {
    match fault
    case NoFault => n
    case OpenFails => 0
    case WriteFails(k) => if k < n then k else n
  }

  /**
   * `save_ip_ranges(ip_ranges)` appending to a file that holds existing:
   * the lines before a failing write stay in the file; an error is reported
   * rather than raised.
   */
  method SaveIpRanges(existing: string, owner: string, ranges: seq<string>, fault: IoFault)
    returns (content: string, saved: bool)
    ensures content == existing + LedgerText(owner, ranges[..Written(fault, |ranges|)])
    ensures saved <==> Written(fault, |ranges|) == |ranges| && fault != OpenFails
  {
    content := existing;
    if fault == OpenFails {
      assert ranges[..0] == [];
      return content, false;
    }
    var i := 0;
    while i < |ranges|
      invariant 0 <= i <= |ranges|
      invariant fault.WriteFails? ==> i <= fault.line
      invariant content == existing + LedgerText(owner, ranges[..i])
    {
      if fault == WriteFails(i) {
        return content, false;
      }
      assert ranges[..i + 1][..i] == ranges[..i];
      content := content + Line(owner, ranges[i]);
      i := i + 1;
    }
    assert ranges[..i] == ranges;
    saved := true;
  }

  /**
   * A complete save onto a ledger that ends in a line break (or is empty)
   * keeps every row already there and adds one row per range, owned by
   * the saving pod.
   */
  lemma {:induction false} SaveThenRead(existing: string, owner: string, ranges: seq<string>)
    requires existing == "" || existing[|existing| - 1] == '\n'
    requires ParseRows(Split(existing, '\n')).Some?
    requires PlainField(owner) && forall k :: 0 <= k < |ranges| ==> PlainField(ranges[k])
    ensures var content := existing + LedgerText(owner, ranges[..Written(NoFault, |ranges|)]);
      ParseRows(Split(content, '\n')) == Some(ParseRows(Split(existing, '\n')).value + RowsOf(owner, ranges))
  {
    assert ranges[..|ranges|] == ranges;
    AppendKeepsRows(existing, owner, ranges);
  }

  /** Saving two ranges as POD_NAME onto an empty file writes one `owner,range` line for each, in order. */
  method SaveIpRangesExample() returns (content: string, saved: bool)
    ensures content == "POD_NAME,192.168.1.1/24\n" + "POD_NAME,10.0.0.1/16\n"
    ensures saved
  {
    var ranges := ["192.168.1.1/24", "10.0.0.1/16"];
    assert ranges[..2] == ranges;
    TwoLinesText();
    content, saved := SaveIpRanges("", "POD_NAME", ranges, NoFault);
    assert "" + LedgerText("POD_NAME", ranges) == LedgerText("POD_NAME", ranges);
  }

  /** The ledger text of those two ranges: the line of the first, then the line of the second. */
  lemma {:induction false} TwoLinesText()
    ensures LedgerText("POD_NAME", ["192.168.1.1/24", "10.0.0.1/16"])
         == "POD_NAME,192.168.1.1/24\n" + "POD_NAME,10.0.0.1/16\n"
  {
    TwoLines("POD_NAME", "192.168.1.1/24", "10.0.0.1/16");
    FirstTestLine();
    SecondTestLine();
  }

  lemma {:induction false} FirstTestLine()
    ensures Line("POD_NAME", "192.168.1.1/24") == "POD_NAME,192.168.1.1/24\n"
  {
  }

  lemma {:induction false} SecondTestLine()
    ensures Line("POD_NAME", "10.0.0.1/16") == "POD_NAME,10.0.0.1/16\n"
  {
  }

  /** Two ranges give two lines, the first range's first. */
  lemma {:induction false} TwoLines(owner: string, r1: string, r2: string)
    ensures LedgerText(owner, [r1, r2]) == Line(owner, r1) + Line(owner, r2)
  {
    var ranges := [r1, r2];
    assert ranges[..1] == [r1] && ranges[..1][..0] == [];
    assert LedgerText(owner, ranges[..1]) == "" + Line(owner, r1);
    assert "" + Line(owner, r1) == Line(owner, r1);
  }
}
