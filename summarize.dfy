/** summarize_ip_ranges of backend/utils/ip_tools.py: every non-blank entry
    is read as a network, every address of every network is collected, the
    collection is deduplicated and sorted, and a walk over the sorted
    addresses prints each maximal run of consecutive addresses as "a" or
    "a-b". */
module Summarize {
  import opened Outcome
  import opened PyText
  import opened Radix
  import opened Dotted
  import opened Network

  /** An address object of the ipaddress module: its family and its value. */
  datatype Address = Address(family: Family, value: nat)

  /** The consecutive addresses lo, lo + 1, ..., hi. */
  datatype Run = Run(lo: nat, hi: nat)

  /** The deduplicated, sorted addresses of one family. */
  datatype SortedAddresses = SortedAddresses(family: Family, values: seq<nat>)

  /** The runs of one family that the walk prints. */
  datatype RunList = RunList(family: Family, runs: seq<Run>)

  // ------------------------------------------------------ reading entries

  /** How a non-blank entry is read as a network: the source calls
      ip_network(entry.strip(), strict=False), which NetworkReader supplies
      from Network.ParseNetwork. The reader is given the entry as it stands
      and strips it itself. The walk only relies on every network read
      being a block of its family's address space. */
  type Reader = string -> Option<IpNetwork>

  ghost predicate ValidReader(read: Reader) {
    forall t :: read(t).Some? ==> Valid(read(t).value)
  }

  /** ip_network(entry.strip(), strict=False) as the ipaddress module reads it. */
  function NetworkReader(parse6: string -> Option<V6Value>): (read: Reader)
    ensures ValidReader(read)
  {
    entry => ParseNetwork(Strip(entry), parse6)
  }

  /** Reading one entry; any failure is reported as an invalid network. */
  function EntryNetwork(read: Reader): string -> Result<IpNetwork>
  {
    s => match read(s)
         case None => Err(InvalidNetwork)
         case Some(n) => Ok(n)
  }

  predicate AllValid(nets: seq<IpNetwork>) {
    forall k :: 0 <= k < |nets| ==> Valid(nets[k])
  }

  /** Every non-blank entry is read as a network. */
  predicate Reads(ranges: seq<string>, read: Reader) {
    forall i :: 0 <= i < |ranges| && !IsBlank(ranges[i]) ==> read(ranges[i]).Some?
  }

  /** Some non-blank entry is read as a network of family f. */
  predicate HasEntryOf(ranges: seq<string>, read: Reader, f: Family) {
    exists i :: 0 <= i < |ranges| && !IsBlank(ranges[i]) &&
      read(ranges[i]).Some? && read(ranges[i]).value.family == f
  }

  /** The networks of the non-blank entries, in order; the first entry that
      cannot be read makes the whole batch fail. */
  function ReadEntries(ranges: seq<string>, read: Reader): (r: Result<seq<IpNetwork>>)
    requires ValidReader(read)
    ensures r.Err? ==> r.error == InvalidNetwork
    ensures r.Ok? ==> AllValid(r.value)
  {
    ReadEntriesIsBatch(ranges, read);
    ReadFails(ranges, read);
    ReadValues(ranges, read);
    MapEntries(ranges, |ranges|, EntryNetwork(read))
  }

  /** Reading entry after entry is the batch over the non-blank entries. */
  lemma ReadEntriesIsBatch(ranges: seq<string>, read: Reader)
    ensures MapEntries(ranges, |ranges|, EntryNetwork(read)) == MapAll(NonBlank(ranges), EntryNetwork(read))
  {
    MapEntriesIsMapAll(ranges, |ranges|, EntryNetwork(read));
    assert ranges[..|ranges|] == ranges;
  }

  /** The batch succeeds exactly when every non-blank entry is a network,
      and then holds the network of each non-blank entry, in order. */
  lemma ReadEntriesMeaning(ranges: seq<string>, read: Reader)
    requires ValidReader(read)
    ensures ReadEntries(ranges, read).Ok? <==> Reads(ranges, read)
    ensures var r := ReadEntries(ranges, read);
      r.Ok? ==> && |r.value| == |NonBlank(ranges)|
                && forall k :: 0 <= k < |r.value| ==> read(NonBlank(ranges)[k]) == Some(r.value[k])
  {
    ReadEntriesIsBatch(ranges, read);
    NonBlankAll(ranges, EntryNetwork(read));
    ReadValues(ranges, read);
  }

  /** A successful batch holds the network of each non-blank entry. */
  lemma ReadValues(ranges: seq<string>, read: Reader)
    requires ValidReader(read)
    ensures var r := MapAll(NonBlank(ranges), EntryNetwork(read));
      r.Ok? ==> && |r.value| == |NonBlank(ranges)|
                && (forall k :: 0 <= k < |r.value| ==> read(NonBlank(ranges)[k]) == Some(r.value[k]))
                && AllValid(r.value)
  {
    var kept, f := NonBlank(ranges), EntryNetwork(read);
    var r := MapAll(kept, f);
    if r.Ok? {
      forall k | 0 <= k < |r.value|
        ensures read(kept[k]) == Some(r.value[k])
      {
        assert r.value[k] == f(kept[k]).value;
        assert f(kept[k]).Ok?;
      }
    }
  }

  /** A failed batch failed on an entry that is not a network. */
  lemma ReadFails(ranges: seq<string>, read: Reader)
    ensures var r := MapAll(NonBlank(ranges), EntryNetwork(read));
      r.Err? ==> r.error == InvalidNetwork
  {
    var kept, f := NonBlank(ranges), EntryNetwork(read);
    var r := MapAll(kept, f);
    if r.Err? {
      var i :| 0 <= i < |kept| && f(kept[i]).Err? && r.error == f(kept[i]).error;
      assert read(kept[i]).None?;
    }
  }

  /** An address belongs to a network of the same family. */
  predicate InBlock(n: IpNetwork, a: Address) {
    Valid(n) && a.family == n.family && n.address <= a.value <= Broadcast(n)
  }

  /** list(network): its addresses from the network address up to the
      broadcast address. */
  function Members(n: IpNetwork): seq<Address>
    requires Valid(n)
  {
    seq(BlockSize(n), k requires 0 <= k < BlockSize(n) => Address(n.family, n.address + k))
  }

  lemma MembersMeaning(n: IpNetwork, a: Address)
    requires Valid(n)
    ensures a in Members(n) <==> InBlock(n, a)
  {
    if InBlock(n, a) {
      assert Members(n)[a.value - n.address] == a;
    }
  }

  /** address_list after the first loop has handled the first n networks:
      the members of each, network after network. */
  function ExpandOf(nets: seq<IpNetwork>, n: nat): seq<Address>
    requires n <= |nets| && AllValid(nets)
  {
    if n == 0 then [] else ExpandOf(nets, n - 1) + Members(nets[n - 1])
  }

  /** address_list after the first loop. */
  function Expand(nets: seq<IpNetwork>): seq<Address>
    requires AllValid(nets)
  {
    ExpandOf(nets, |nets|)
  }

  /** The first m networks alone decide the first m expansions. */
  lemma {:induction false} ExpandOfPrefix(longer: seq<IpNetwork>, nets: seq<IpNetwork>, m: nat)
    requires AllValid(longer) && AllValid(nets) && m <= |nets| <= |longer|
    requires forall k :: 0 <= k < |nets| ==> longer[k] == nets[k]
    ensures ExpandOf(longer, m) == ExpandOf(nets, m)
  {
    if m > 0 {
      ExpandOfPrefix(longer, nets, m - 1);
    }
  }

  /** Appending one more block appends its members. */
  lemma ExpandSnoc(nets: seq<IpNetwork>, n: IpNetwork)
    requires AllValid(nets) && Valid(n)
    ensures AllValid(nets + [n])
    ensures Expand(nets + [n]) == Expand(nets) + Members(n)
  {
    ExpandOfPrefix(nets + [n], nets, |nets|);
  }

  /** One of the first n networks holds a. */
  predicate Covers(nets: seq<IpNetwork>, n: nat, a: Address)
    requires n <= |nets|
  {
    n > 0 && (Covers(nets, n - 1, a) || InBlock(nets[n - 1], a))
  }

  lemma {:induction false} CoversMeaning(nets: seq<IpNetwork>, n: nat, a: Address)
    requires n <= |nets|
    ensures Covers(nets, n, a) <==> exists k :: 0 <= k < n && InBlock(nets[k], a)
  {
    if n > 0 {
      CoversMeaning(nets, n - 1, a);
    }
  }

  /** The collected addresses are exactly those of the blocks read. */
  lemma {:induction false} ExpandMeaning(nets: seq<IpNetwork>, n: nat, a: Address)
    requires n <= |nets| && AllValid(nets)
    ensures a in ExpandOf(nets, n) <==> Covers(nets, n, a)
  {
    if n > 0 {
      ExpandMeaning(nets, n - 1, a);
      MembersMeaning(nets[n - 1], a);
    }
  }

  // ------------------------------------------------- sorted(set(...))

  predicate Increasing(s: seq<nat>) {
    forall i, j :: 0 <= i < j < |s| ==> s[i] < s[j]
  }

  /** Puts x into its place in an increasing sequence, unless already there. */
  function Insert(s: seq<nat>, x: nat): (t: seq<nat>)
    requires Increasing(s)
    ensures Increasing(t)
    ensures forall v :: v in t <==> v in s || v == x
  {
    if s == [] then [x]
    else if x < s[0] then [x] + s
    else if x == s[0] then s
    else
      assert forall v :: v in s[1..] ==> s[0] < v;
      var t := Insert(s[1..], x);
      assert forall j :: 0 <= j < |t| ==> s[0] < t[j] by {
        forall j | 0 <= j < |t| ensures s[0] < t[j] {
          assert t[j] in t;
        }
      }
      [s[0]] + t
  }

  /** sorted(set(xs)) for numbers: increasing, with the same elements. */
  function SortedDistinct(xs: seq<nat>): (s: seq<nat>)
    ensures Increasing(s)
    ensures forall v :: v in s <==> v in xs
  {
    if xs == [] then []
    else
      assert xs == xs[..|xs| - 1] + [xs[|xs| - 1]];
      Insert(SortedDistinct(xs[..|xs| - 1]), xs[|xs| - 1])
  }

  predicate HasFamily(addrs: seq<Address>, f: Family) {
    exists i :: 0 <= i < |addrs| && addrs[i].family == f
  }

  function Values(addrs: seq<Address>): seq<nat> {
    seq(|addrs|, i requires 0 <= i < |addrs| => addrs[i].value)
  }

  /** sorted(set(address_list)): the addresses of one family in increasing
      order without repetition. An IPv4 and an IPv6 address cannot be
      compared, so a list holding both makes sorting fail. */
  function SortAddresses(addrs: seq<Address>): (r: Result<SortedAddresses>)
    ensures r.Err? <==> HasFamily(addrs, V4) && HasFamily(addrs, V6)
    ensures r.Err? ==> r.error == MixedFamilies
    ensures r.Ok? ==> Increasing(r.value.values)
    ensures r.Ok? ==> forall a :: a in addrs ==> a.family == r.value.family
    ensures r.Ok? ==> forall v :: v in r.value.values <==> Address(r.value.family, v) in addrs
  {
    if HasFamily(addrs, V4) && HasFamily(addrs, V6) then Err(MixedFamilies)
    else
      var f := if HasFamily(addrs, V6) then V6 else V4;
      var values := Values(addrs);
      assert forall a :: a in addrs ==> a.family == f;
      assert forall v :: v in values <==> Address(f, v) in addrs by {
        forall v ensures v in values <==> Address(f, v) in addrs {
          if v in values {
            var i :| 0 <= i < |values| && values[i] == v;
            assert addrs[i] == Address(f, v);
          }
          if Address(f, v) in addrs {
            var i :| 0 <= i < |addrs| && addrs[i] == Address(f, v);
            assert values[i] == v;
          }
        }
      }
      Ok(SortedAddresses(f, SortedDistinct(values)))
  }

  // ----------------------------------------------------------- the walk

  /** The runs the walk has formed after the first n addresses: each
      address either extends the current run, when it is one past the run's
      end, or starts a new run. */
  function RunsOf(xs: seq<nat>, n: nat): (rs: seq<Run>)
    requires n <= |xs|
    ensures n == 0 <==> rs == []
    ensures forall k :: 0 <= k < |rs| ==> rs[k].lo <= rs[k].hi
    ensures n > 0 ==> rs[|rs| - 1].hi == xs[n - 1]
  {
    if n == 0 then []
    else
      var rs, x := RunsOf(xs, n - 1), xs[n - 1];
      if rs != [] && x == rs[|rs| - 1].hi + 1 then rs[..|rs| - 1] + [Run(rs[|rs| - 1].lo, x)]
      else rs + [Run(x, x)]
  }

  /** The runs of the whole walk. */
  function Runs(xs: seq<nat>): seq<Run> {
    RunsOf(xs, |xs|)
  }

  /** Processing address n: it extends the last run when it is one past
      that run's end, and otherwise starts a new run. */
  lemma RunsStep(xs: seq<nat>, n: nat, done: seq<Run>, start: nat, end: nat)
    requires n < |xs| && RunsOf(xs, n) == done + [Run(start, end)]
    ensures RunsOf(xs, n + 1) ==
      if xs[n] == end + 1 then done + [Run(start, xs[n])] else done + [Run(start, end), Run(xs[n], xs[n])]
  {
    assert (done + [Run(start, end)])[..|done|] == done;
  }

  /** Runs in increasing order, each ending more than one address before the
      next begins: disjoint and not adjacent. */
  predicate Separated(rs: seq<Run>) {
    forall k :: 0 < k < |rs| ==> rs[k - 1].hi + 1 < rs[k].lo
  }

  /** Separated runs are in increasing order and pairwise disjoint: every
      run ends more than one address before any later run begins. */
  lemma {:induction false} SeparatedOrdered(rs: seq<Run>, k: nat, l: nat)
    requires Separated(rs) && forall i :: 0 <= i < |rs| ==> rs[i].lo <= rs[i].hi
    requires k < l < |rs|
    ensures rs[k].hi + 1 < rs[l].lo
  {
    if k + 1 < l {
      SeparatedOrdered(rs, k, l - 1);
    }
  }

  predicate InRuns(rs: seq<Run>, v: nat) {
    exists k :: 0 <= k < |rs| && rs[k].lo <= v <= rs[k].hi
  }

  /** A run added at the end covers its own range besides the others. */
  lemma InRunsSnoc(rs: seq<Run>, r: Run, v: nat)
    ensures InRuns(rs + [r], v) <==> InRuns(rs, v) || r.lo <= v <= r.hi
  {
    var rs' := rs + [r];
    if InRuns(rs', v) {
      var k :| 0 <= k < |rs'| && rs'[k].lo <= v <= rs'[k].hi;
      if k < |rs| {
        assert rs'[k] == rs[k];
      }
    }
    if InRuns(rs, v) {
      var k :| 0 <= k < |rs| && rs[k].lo <= v <= rs[k].hi;
      assert rs'[k] == rs[k];
    }
    if r.lo <= v <= r.hi {
      assert rs'[|rs|] == r;
    }
  }

  /** One of the first n addresses is v. */
  predicate Walked(xs: seq<nat>, n: nat, v: nat)
    requires n <= |xs|
  {
    n > 0 && (Walked(xs, n - 1, v) || xs[n - 1] == v)
  }

  lemma {:induction false} WalkedMeaning(xs: seq<nat>, n: nat, v: nat)
    requires n <= |xs|
    ensures Walked(xs, n, v) <==> v in xs[..n]
  {
    if n > 0 {
      WalkedMeaning(xs, n - 1, v);
      assert xs[..n] == xs[..n - 1] + [xs[n - 1]];
    }
  }

  /** The runs cover exactly the addresses walked: the walk loses none and
      adds none, whatever their order. */
  lemma {:induction false} RunsCover(xs: seq<nat>, n: nat, v: nat)
    requires n <= |xs|
    ensures InRuns(RunsOf(xs, n), v) <==> Walked(xs, n, v)
  {
    if n > 0 {
      RunsCover(xs, n - 1, v);
      CoverStep(xs, n, v);
    }
  }

  /** One more address walked covers that address besides the others. */
  lemma CoverStep(xs: seq<nat>, n: nat, v: nat)
    requires 0 < n <= |xs|
    ensures InRuns(RunsOf(xs, n), v) <==> InRuns(RunsOf(xs, n - 1), v) || v == xs[n - 1]
  {
    var rs, x := RunsOf(xs, n - 1), xs[n - 1];
    if rs != [] && x == rs[|rs| - 1].hi + 1 {
      var m := |rs| - 1;
      var done, last := rs[..m], rs[m];
      assert rs == done + [last];
      assert RunsOf(xs, n) == done + [Run(last.lo, x)];
      CoverMerge(done, last, x, v);
    } else {
      assert RunsOf(xs, n) == rs + [Run(x, x)];
      InRunsSnoc(rs, Run(x, x), v);
    }
  }

  /** Growing the last run by the address just above it covers that address
      besides the others. */
  lemma CoverMerge(done: seq<Run>, last: Run, x: nat, v: nat)
    requires last.lo <= last.hi && x == last.hi + 1
    ensures InRuns(done + [Run(last.lo, x)], v) <==> InRuns(done + [last], v) || v == x
  {
    InRunsSnoc(done, last, v);
    InRunsSnoc(done, Run(last.lo, x), v);
  }

  /** Over increasing addresses the runs are in increasing order, each
      ending more than one address before the next begins. */
  lemma {:induction false} RunsSeparated(xs: seq<nat>, n: nat)
    requires Increasing(xs) && n <= |xs|
    ensures Separated(RunsOf(xs, n))
  {
    if n > 1 {
      RunsSeparated(xs, n - 1);
      assert xs[n - 2] < xs[n - 1];
      SeparatedNext(xs, n - 1);
    }
  }

  /** An address above the previous one keeps the runs separated. */
  lemma SeparatedNext(xs: seq<nat>, n: nat)
    requires 0 < n < |xs| && xs[n - 1] < xs[n] && Separated(RunsOf(xs, n))
    ensures Separated(RunsOf(xs, n + 1))
  {
    var rs := RunsOf(xs, n);
    var m := |rs| - 1;
    assert rs == rs[..m] + [rs[m]];
    SeparatedAfter(xs, n, rs[..m], rs[m]);
  }

  /** The next address, above the end of the last run, keeps the runs
      separated. */
  lemma SeparatedAfter(xs: seq<nat>, n: nat, done: seq<Run>, last: Run)
    requires n < |xs| && RunsOf(xs, n) == done + [last]
    requires Separated(done + [last]) && last.hi < xs[n]
    ensures Separated(RunsOf(xs, n + 1))
  {
    var rs := done + [last];
    assert rs[|done|] == last;
    assert forall k :: 0 <= k < |done| ==> done[k] == rs[k];
    SeparatedStep(done, last, xs[n]);
    RunsStep(xs, n, done, last.lo, last.hi);
  }

  /** The runs after one more address, above the end of the last run, are
      still separated. */
  lemma SeparatedStep(done: seq<Run>, last: Run, x: nat)
    requires Separated(done + [last]) && last.hi < x
    requires forall k :: 0 <= k < |done| ==> done[k].lo <= done[k].hi
    requires last.lo <= last.hi
    ensures x == last.hi + 1 ==> Separated(done + [Run(last.lo, x)])
    ensures x != last.hi + 1 ==> Separated(done + [Run(last.lo, last.hi), Run(x, x)])
  {
    if x == last.hi + 1 {
      SeparatedExtend(done, last, x);
    } else {
      var rs := done + [last];
      assert forall k :: 0 <= k < |rs| ==> rs[k].lo <= rs[k].hi;
      SeparatedAppend(rs, Run(x, x));
      assert done + [Run(last.lo, last.hi), Run(x, x)] == rs + [Run(x, x)];
    }
  }

  /** Extending the last run to the right keeps the runs separated. */
  lemma SeparatedExtend(done: seq<Run>, last: Run, x: nat)
    requires Separated(done + [last])
    ensures Separated(done + [Run(last.lo, x)])
  {
    var rs, rs' := done + [last], done + [Run(last.lo, x)];
    forall k | 0 < k < |rs'| ensures rs'[k - 1].hi + 1 < rs'[k].lo {
      assert rs[k - 1].hi + 1 < rs[k].lo;
    }
  }

  /** A run starting more than one past the end of the last run can follow it. */
  lemma SeparatedAppend(rs: seq<Run>, r: Run)
    requires Separated(rs) && rs != [] && rs[|rs| - 1].hi + 1 < r.lo
    ensures Separated(rs + [r])
  {
    var rs' := rs + [r];
    forall k | 0 < k < |rs'| ensures rs'[k - 1].hi + 1 < rs'[k].lo {
      if k < |rs| {
        assert rs[k - 1].hi + 1 < rs[k].lo;
      }
    }
  }

  /** Runs whose ends are addresses of the family, the start first. */
  predicate Printable(f: Family, rs: seq<Run>) {
    forall k :: 0 <= k < |rs| ==> rs[k].lo <= rs[k].hi < Pow2(Width(f))
  }

  /** The runs of addresses of a family end at addresses of the family. */
  lemma RunsPrintable(f: Family, xs: seq<nat>, n: nat)
    requires n <= |xs| && forall k :: 0 <= k < |xs| ==> xs[k] < Pow2(Width(f))
    ensures Printable(f, RunsOf(xs, n))
  {
    var rs := RunsOf(xs, n);
    forall k | 0 <= k < |rs| ensures rs[k].hi < Pow2(Width(f)) {
      RunsCover(xs, n, rs[k].hi);
      WalkedMeaning(xs, n, rs[k].hi);
      assert rs[k].hi in xs[..n];
    }
  }

  /** How an address of a family is printed: str() of the address object. */
  type Printer = (Family, nat) -> string

  /** str(address): dotted decimal for IPv4, show6 for IPv6. Only addresses
      of the family's space are ever printed (see Printable); others get no
      text. */
  function AddressPrinter(show6: V6Value -> string): Printer {
    (f: Family, v: nat) => if v < Pow2(Width(f)) then ShowAddress(f, v, show6) else []
  }

  /** The printer prints an address of the family as str() does. */
  lemma AddressPrinterShows(show6: V6Value -> string, f: Family, v: nat)
    requires v < Pow2(Width(f))
    ensures AddressPrinter(show6)(f, v) == ShowAddress(f, v, show6)
  {
  }

  /** One printed run: the bare address for a run of one address, otherwise
      "start-end". */
  function RunText(f: Family, r: Run, show: Printer): string {
    if r.hi == r.lo then show(f, r.lo) else show(f, r.lo) + "-" + show(f, r.hi)
  }

  /** The texts of the runs, in order. */
  function RunTexts(f: Family, rs: seq<Run>, show: Printer): (texts: seq<string>)
    ensures |texts| == |rs|
  {
    if rs == [] then [] else RunTexts(f, rs[..|rs| - 1], show) + [RunText(f, rs[|rs| - 1], show)]
  }

  /** The text of one more run follows the texts of the earlier runs. */
  lemma RunTextsSnoc(f: Family, rs: seq<Run>, r: Run, show: Printer)
    ensures RunTexts(f, rs + [r], show) == RunTexts(f, rs, show) + [RunText(f, r, show)]
  {
    assert (rs + [r])[..|rs|] == rs;
  }

  /** The walk over the sorted addresses (lines 41-59): the current run is
      start..end; an address one past end extends it, any other address
      closes it and starts the next. */
  method MergeRuns(f: Family, addresses: seq<nat>, show: Printer) returns (result: seq<string>)
    ensures result == RunTexts(f, Runs(addresses), show)
  {
    result := [];
    if |addresses| > 0 {
      var start: nat := addresses[0];
      var end: nat := start;
      ghost var done: seq<Run> := [];
      var i := 1;
      while i < |addresses|
        invariant 1 <= i <= |addresses|
        invariant RunsOf(addresses, i) == done + [Run(start, end)]
        invariant result == RunTexts(f, done, show)
      {
        var address := addresses[i];
        RunsStep(addresses, i, done, start, end);
        if address == end + 1 {
          end := address;
        } else {
          RunTextsSnoc(f, done, Run(start, end), show);
          result := result + [RunText(f, Run(start, end), show)];
          done := done + [Run(start, end)];
          start := address;
          end := start;
        }
        i := i + 1;
      }
      RunTextsSnoc(f, done, Run(start, end), show);
      result := result + [RunText(f, Run(start, end), show)];
    }
  }

  // ------------------------------------------------------ the whole call

  /** The addresses of the blocks read, sorted, lie in their family's space. */
  lemma SortedWithin(nets: seq<IpNetwork>)
    requires AllValid(nets) && SortAddresses(Expand(nets)).Ok?
    ensures var s := SortAddresses(Expand(nets)).value;
      forall i :: 0 <= i < |s.values| ==> s.values[i] < Pow2(Width(s.family))
  {
    var s := SortAddresses(Expand(nets)).value;
    forall i | 0 <= i < |s.values| ensures s.values[i] < Pow2(Width(s.family)) {
      assert s.values[i] in s.values;
      ExpandMeaning(nets, |nets|, Address(s.family, s.values[i]));
      CoversMeaning(nets, |nets|, Address(s.family, s.values[i]));
      var k :| 0 <= k < |nets| && InBlock(nets[k], Address(s.family, s.values[i]));
    }
  }

  /** The runs summarize_ip_ranges prints, before they become text. */
  function SummaryRuns(ranges: seq<string>, read: Reader): (r: Result<RunList>)
    requires ValidReader(read)
    ensures r.Ok? ==> Printable(r.value.family, r.value.runs)
  {
    match ReadEntries(ranges, read)
    case Err(e) => Err(e)
    case Ok(nets) =>
      match SortAddresses(Expand(nets))
      case Err(e) => Err(e)
      case Ok(s) =>
        SortedWithin(nets);
        RunsPrintable(s.family, s.values, |s.values|);
        Ok(RunList(s.family, Runs(s.values)))
  }

  /** summarize_ip_ranges(ip_ranges), reading entries with `read` and
      printing IPv6 addresses with show6. */
  function Summary(ranges: seq<string>, read: Reader, show6: V6Value -> string): Result<seq<string>>
    requires ValidReader(read)
  {
    match SummaryRuns(ranges, read)
    case Err(e) => Err(e)
    case Ok(l) => Ok(RunTexts(l.family, l.runs, AddressPrinter(show6)))
  }

  /** Some non-blank entry among the first n is read as a network holding a. */
  predicate EntriesHold(ranges: seq<string>, read: Reader, n: nat, a: Address)
    requires n <= |ranges|
  {
    n > 0 &&
      (EntriesHold(ranges, read, n - 1, a) ||
       (!IsBlank(ranges[n - 1]) && read(ranges[n - 1]).Some? && InBlock(read(ranges[n - 1]).value, a)))
  }

  lemma {:induction false} EntriesHoldMeaning(ranges: seq<string>, read: Reader, n: nat, a: Address)
    requires n <= |ranges|
    ensures EntriesHold(ranges, read, n, a) <==>
      exists i :: 0 <= i < n && !IsBlank(ranges[i]) && read(ranges[i]).Some? && InBlock(read(ranges[i]).value, a)
  {
    if n > 0 {
      EntriesHoldMeaning(ranges, read, n - 1, a);
    }
  }

  /** Networks beyond the first m do not change whether the first m hold a. */
  lemma {:induction false} CoversPrefix(longer: seq<IpNetwork>, nets: seq<IpNetwork>, m: nat, a: Address)
    requires m <= |nets| <= |longer|
    requires forall k :: 0 <= k < |nets| ==> longer[k] == nets[k]
    ensures Covers(longer, m, a) == Covers(nets, m, a)
  {
    if m > 0 {
      CoversPrefix(longer, nets, m - 1, a);
    }
  }

  /** The networks read from the first n entries hold exactly the addresses
      that some non-blank entry among them holds. */
  lemma {:induction false} EntriesCover(ranges: seq<string>, read: Reader, n: nat, nets: seq<IpNetwork>, a: Address)
    requires n <= |ranges| && MapEntries(ranges, n, EntryNetwork(read)) == Ok(nets)
    ensures Covers(nets, |nets|, a) <==> EntriesHold(ranges, read, n, a)
  {
    if n > 0 {
      var before := MapEntries(ranges, n - 1, EntryNetwork(read)).value;
      EntriesCover(ranges, read, n - 1, before, a);
      if !IsBlank(ranges[n - 1]) {
        var x := read(ranges[n - 1]).value;
        assert EntryNetwork(read)(ranges[n - 1]) == Ok(x);
        assert nets == before + [x];
        CoversPrefix(nets, before, |before|, a);
      }
    }
  }

  /** The collected addresses hold one of family f exactly when some
      non-blank entry is read as a network of family f. */
  lemma ExpandFamily(ranges: seq<string>, read: Reader, nets: seq<IpNetwork>, f: Family)
    requires ValidReader(read) && AllValid(nets)
    requires MapEntries(ranges, |ranges|, EntryNetwork(read)) == Ok(nets)
    ensures HasFamily(Expand(nets), f) <==> HasEntryOf(ranges, read, f)
  {
    if HasFamily(Expand(nets), f) {
      var i :| 0 <= i < |Expand(nets)| && Expand(nets)[i].family == f;
      FamilyFromAddress(ranges, read, nets, Expand(nets)[i]);
    }
    if HasEntryOf(ranges, read, f) {
      var j :| 0 <= j < |ranges| && !IsBlank(ranges[j]) && read(ranges[j]).Some? && read(ranges[j]).value.family == f;
      AddressFromEntry(ranges, read, nets, j);
    }
  }

  /** A collected address comes from an entry of its family. */
  lemma FamilyFromAddress(ranges: seq<string>, read: Reader, nets: seq<IpNetwork>, a: Address)
    requires AllValid(nets) && MapEntries(ranges, |ranges|, EntryNetwork(read)) == Ok(nets)
    requires a in Expand(nets)
    ensures HasEntryOf(ranges, read, a.family)
  {
    ExpandMeaning(nets, |nets|, a);
    EntriesCover(ranges, read, |ranges|, nets, a);
    EntriesHoldMeaning(ranges, read, |ranges|, a);
    var j :| 0 <= j < |ranges| && !IsBlank(ranges[j]) && read(ranges[j]).Some? && InBlock(read(ranges[j]).value, a);
  }

  /** The network address of an entry's network is collected. */
  lemma AddressFromEntry(ranges: seq<string>, read: Reader, nets: seq<IpNetwork>, j: nat)
    requires ValidReader(read) && AllValid(nets)
    requires MapEntries(ranges, |ranges|, EntryNetwork(read)) == Ok(nets)
    requires j < |ranges| && !IsBlank(ranges[j]) && read(ranges[j]).Some?
    ensures HasFamily(Expand(nets), read(ranges[j]).value.family)
  {
    var net := read(ranges[j]).value;
    var a := Address(net.family, net.address);
    assert InBlock(net, a);
    EntriesHoldMeaning(ranges, read, |ranges|, a);
    EntriesCover(ranges, read, |ranges|, nets, a);
    ExpandMeaning(nets, |nets|, a);
    var i :| 0 <= i < |Expand(nets)| && Expand(nets)[i] == a;
  }

  /** summarize_ip_ranges fails exactly when a non-blank entry is not a
      network (InvalidNetwork), or else when entries of both families were
      given (MixedFamilies: sorting cannot compare an IPv4 with an IPv6
      address). */
  lemma SummaryErrors(ranges: seq<string>, read: Reader, show6: V6Value -> string)
    requires ValidReader(read)
    ensures Summary(ranges, read, show6).Err? <==>
      !Reads(ranges, read) || (HasEntryOf(ranges, read, V4) && HasEntryOf(ranges, read, V6))
    ensures Summary(ranges, read, show6).Err? ==>
      Summary(ranges, read, show6).error == if Reads(ranges, read) then MixedFamilies else InvalidNetwork
  {
    ReadEntriesMeaning(ranges, read);
    var r := ReadEntries(ranges, read);
    if r.Ok? {
      ExpandFamily(ranges, read, r.value, V4);
      ExpandFamily(ranges, read, r.value, V6);
    }
  }

  /** On success every non-blank entry names a network of the family the
      summary is printed in. */
  lemma SummaryFamily(ranges: seq<string>, read: Reader, i: nat)
    requires ValidReader(read) && SummaryRuns(ranges, read).Ok?
    requires i < |ranges| && !IsBlank(ranges[i])
    ensures read(ranges[i]).Some?
    ensures read(ranges[i]).value.family == SummaryRuns(ranges, read).value.family
  {
    ReadEntriesMeaning(ranges, read);
    var nets := ReadEntries(ranges, read).value;
    var f := read(ranges[i]).value.family;
    assert HasEntryOf(ranges, read, f);
    ExpandFamily(ranges, read, nets, f);
    var k :| 0 <= k < |Expand(nets)| && Expand(nets)[k].family == f;
    assert Expand(nets)[k] in Expand(nets);
  }

  /** On success the runs are increasing, disjoint and not adjacent, and an
      address lies in one of them exactly when some non-blank entry's network
      holds it. */
  lemma SummaryCoverage(ranges: seq<string>, read: Reader, v: nat)
    requires ValidReader(read) && SummaryRuns(ranges, read).Ok?
    ensures Separated(SummaryRuns(ranges, read).value.runs)
    ensures var l := SummaryRuns(ranges, read).value;
      InRuns(l.runs, v) <==> EntriesHold(ranges, read, |ranges|, Address(l.family, v))
  {
    var nets := ReadEntries(ranges, read).value;
    var s := SortAddresses(Expand(nets)).value;
    var a := Address(s.family, v);
    RunsSeparated(s.values, |s.values|);
    RunsCover(s.values, |s.values|, v);
    WalkedMeaning(s.values, |s.values|, v);
    assert s.values[..|s.values|] == s.values;
    ExpandMeaning(nets, |nets|, a);
    EntriesCover(ranges, read, |ranges|, nets, a);
  }

  /** The k-th text is the text of the k-th run. */
  lemma {:induction false} RunTextsAt(f: Family, rs: seq<Run>, show: Printer, k: nat)
    requires k < |rs|
    ensures RunTexts(f, rs, show)[k] == RunText(f, rs[k], show)
  {
    if k < |rs| - 1 {
      RunTextsAt(f, rs[..|rs| - 1], show, k);
    }
  }

  /** The text of an IPv4 run names its ends: split at '-', it is the first
      address alone, or the first and the last address, each in dotted
      decimal that reads back as that address. */
  lemma RunTextV4(r: Run, show6: V6Value -> string)
    requires r.lo <= r.hi < V4Count
    ensures var parts := Split(RunText(V4, r, AddressPrinter(show6)), '-');
      && |parts| == (if r.lo == r.hi then 1 else 2)
      && ParseV4(parts[0]) == Some(r.lo)
      && ParseV4(parts[|parts| - 1]) == Some(r.hi)
  {
    var first, last := FormatV4(r.lo), FormatV4(r.hi);
    PrintsV4(show6, r.lo);
    PrintsV4(show6, r.hi);
    FormatV4Parses(r.lo);
    FormatV4Parses(r.hi);
    FormatV4NoChar(r.lo, '-');
    FormatV4NoChar(r.hi, '-');
    if r.lo != r.hi {
      assert RunText(V4, r, AddressPrinter(show6)) == first + ['-'] + last;
      SplitPair(first, last, '-');
    }
  }

  /** The printer prints an IPv4 address in dotted decimal. */
  lemma PrintsV4(show6: V6Value -> string, v: nat)
    requires v < V4Count
    ensures AddressPrinter(show6)(V4, v) == FormatV4(v)
  {
    V4CountPow2();
    AddressPrinterShows(show6, V4, v);
  }

  /** On success summarize_ip_ranges prints one text per run, in order. */
  lemma SummaryTexts(ranges: seq<string>, read: Reader, show6: V6Value -> string, k: nat)
    requires ValidReader(read) && SummaryRuns(ranges, read).Ok?
    ensures var l := SummaryRuns(ranges, read).value;
      && Summary(ranges, read, show6).Ok?
      && |Summary(ranges, read, show6).value| == |l.runs|
      && (k < |l.runs| ==> Summary(ranges, read, show6).value[k] == RunText(l.family, l.runs[k], AddressPrinter(show6)))
  {
    var l := SummaryRuns(ranges, read).value;
    if k < |l.runs| {
      RunTextsAt(l.family, l.runs, AddressPrinter(show6), k);
    }
  }

  /** summarize_ip_ranges returns the empty list exactly when every entry
      is blank: every network read holds at least its own address. */
  lemma SummaryEmpty(ranges: seq<string>, read: Reader, show6: V6Value -> string)
    requires ValidReader(read)
    ensures Summary(ranges, read, show6) == Ok([]) <==> forall i :: 0 <= i < |ranges| ==> IsBlank(ranges[i])
  {
    if forall i :: 0 <= i < |ranges| ==> IsBlank(ranges[i]) {
      BlankSummary(ranges, read, show6);
    } else {
      var j :| 0 <= j < |ranges| && !IsBlank(ranges[j]);
      EntrySummary(ranges, read, show6, j);
    }
  }

  lemma BlankSummary(ranges: seq<string>, read: Reader, show6: V6Value -> string)
    requires ValidReader(read) && forall i :: 0 <= i < |ranges| ==> IsBlank(ranges[i])
    ensures Summary(ranges, read, show6) == Ok([])
  {
    SummaryErrors(ranges, read, show6);
    assert !HasEntryOf(ranges, read, V4);
    var l := SummaryRuns(ranges, read).value;
    SummaryTexts(ranges, read, show6, 0);
    if l.runs != [] {
      var v := l.runs[0].lo;
      SummaryCoverage(ranges, read, v);
      EntriesHoldMeaning(ranges, read, |ranges|, Address(l.family, v));
      assert false;
    }
  }

  lemma EntrySummary(ranges: seq<string>, read: Reader, show6: V6Value -> string, j: nat)
    requires ValidReader(read) && j < |ranges| && !IsBlank(ranges[j])
    ensures Summary(ranges, read, show6) != Ok([])
  {
    if Summary(ranges, read, show6).Ok? {
      var l := SummaryRuns(ranges, read).value;
      SummaryFamily(ranges, read, j);
      var n := read(ranges[j]).value;
      Membership(n, n.address);
      EntriesHoldMeaning(ranges, read, |ranges|, Address(l.family, n.address));
      SummaryCoverage(ranges, read, n.address);
      SummaryTexts(ranges, read, show6, 0);
    }
  }

  /** The first loop of summarize_ip_ranges (lines 31-36): every
      non-blank entry is read as a network and its addresses are appended
      to the list; the first entry that cannot be read ends the call. */
  method CollectAddresses(ipRanges: seq<string>, read: Reader) returns (r: Result<seq<Address>>)
    requires ValidReader(read)
    ensures r.Ok? <==> ReadEntries(ipRanges, read).Ok?
    ensures r.Err? ==> r.error == ReadEntries(ipRanges, read).error
    ensures r.Ok? ==> r.value == Expand(ReadEntries(ipRanges, read).value)
  {
    var addressList: seq<Address> := [];
    ghost var nets: seq<IpNetwork> := [];
    var i := 0;
    while i < |ipRanges|
      invariant 0 <= i <= |ipRanges|
      invariant MapEntries(ipRanges, i, EntryNetwork(read)) == Ok(nets)
      invariant AllValid(nets)
      invariant addressList == Expand(nets)
    {
      CollectStep(ipRanges, i, nets, read);
      var ipRange := ipRanges[i];
      if IsBlank(ipRange) {
        i := i + 1;
        continue;
      }
      var network := read(ipRange);
      if network.None? {
        return Err(InvalidNetwork);
      }
      var n := network.value;
      addressList := AppendMembers(addressList, n);
      ExpandSnoc(nets, n);
      nets := nets + [n];
      i := i + 1;
    }
    r := Ok(addressList);
  }

  /** One turn of the first loop: a blank entry changes nothing, an entry
      that is not a network fails the whole batch, and any other entry adds
      its network. */
  lemma CollectStep(ranges: seq<string>, i: nat, nets: seq<IpNetwork>, read: Reader)
    requires ValidReader(read)
    requires i < |ranges| && MapEntries(ranges, i, EntryNetwork(read)) == Ok(nets)
    ensures IsBlank(ranges[i]) ==> MapEntries(ranges, i + 1, EntryNetwork(read)) == Ok(nets)
    ensures !IsBlank(ranges[i]) && read(ranges[i]).None? ==>
      ReadEntries(ranges, read) == Err(InvalidNetwork)
    ensures !IsBlank(ranges[i]) && read(ranges[i]).Some? ==>
      && Valid(read(ranges[i]).value)
      && MapEntries(ranges, i + 1, EntryNetwork(read)) == Ok(nets + [read(ranges[i]).value])
  {
    if !IsBlank(ranges[i]) && read(ranges[i]).None? {
      assert EntryNetwork(read)(ranges[i]) == Err(InvalidNetwork);
      MapEntriesFailed(ranges, i + 1, |ranges|, EntryNetwork(read));
    }
  }

  /** The inner loop at lines 35-36, which appends the addresses of a network
      one at a time: from the network address up to the broadcast address,
      in order. */
  method AppendMembers(addressList: seq<Address>, n: IpNetwork) returns (extended: seq<Address>)
    requires Valid(n)
    ensures extended == addressList + Members(n)
  {
    extended := addressList;
    var k := 0;
    while k < BlockSize(n)
      invariant 0 <= k <= BlockSize(n)
      invariant extended == addressList + Members(n)[..k]
    {
      assert Members(n)[..k + 1] == Members(n)[..k] + [Address(n.family, n.address + k)];
      extended := extended + [Address(n.family, n.address + k)];
      k := k + 1;
    }
    assert Members(n)[..k] == Members(n);
  }

  /** summarize_ip_ranges: collect the members of every non-blank entry's
      network, sort them without repetition, then walk them. */
  method SummarizeIpRanges(ipRanges: seq<string>, read: Reader, show6: V6Value -> string)
    returns (r: Result<seq<string>>)
    requires ValidReader(read)
    ensures r == Summary(ipRanges, read, show6)
  {
    var collected := CollectAddresses(ipRanges, read);
    if collected.Err? {
      return Err(collected.error);
    }
    var sorted := SortAddresses(collected.value);
    if sorted.Err? {
      return Err(sorted.error);
    }
    var result := MergeRuns(sorted.value.family, sorted.value.values, AddressPrinter(show6));
    r := Ok(result);
  }
}
