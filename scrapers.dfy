/**
 * The `get_counter` scrapers of the update-watcher for FRR, BIRD and OpenBGPD. Each command's
 * output arrives already classified: a line of `vtysh` or `birdc` output is given by what its
 * regular expressions capture, and a neighbour of `bgpctl -j` by its JSON fields. A captured
 * number or address that does not parse is `Unparsable`; the source unwraps it and panics.
 */
module Scrapers {
  import opened Values
  import opened Counters
  import opened Backends

  /** A captured field after `parse`/`from_str`/`as_i64`: its value, or a failure to parse. */
  datatype Capture<T> = Parsed(value: T) | Unparsable

  /** The panics of the scrapers. */
  datatype ScrapeError =
    | NeighborWhilePending    // FRR: `assert_eq!(addr.is_none(), true)` fails
    | UpdatesWithoutNeighbor  // FRR: `assert_eq!(addr.is_some(), true)` fails
    | ExportWithoutNeighbor   // BIRD: `addr.take().unwrap()` on None
    | BadAddress              // `Ipv4Addr::from_str(..).unwrap()` fails
    | BadCount                // `parse::<u64>().unwrap()` or `as_i64().unwrap()` fails

  datatype Result<T> = Ok(value: T) | Err(error: ScrapeError)

  // ---------------------------------------------------------------- FRR

  /**
   * A line of `show bgp neighbors`: the address captured by `^BGP neighbor\D+([\d\.]+)`, if
   * it matched, and the two numbers captured by `Updates:\D+(\d+)\D+(\d+)`, if it matched.
   */
  datatype FrrLine = FrrLine(neighbor: Option<Capture<Ipv4Addr>>, updates: Option<(Capture<u64>, Capture<u64>)>)

  /** The locals of `Frr::get_counter`: the pending neighbour address and the table built so far. */
  datatype FrrState = FrrState(addr: Option<Ipv4Addr>, table: map<Ipv4Addr, PeerCounter>)

  const FRR_START: FrrState := FrrState(None, map[])

  /** The first `if let`: a neighbour line sets the pending address, which must be empty. */
  function FrrNeighbor(st: FrrState, neighbor: Option<Capture<Ipv4Addr>>): Result<FrrState> {
    match neighbor
    case None => Ok(st)
    case Some(c) =>
      if st.addr.Some? then Err(NeighborWhilePending)
      else if c.Unparsable? then Err(BadAddress)
      else Ok(st.(addr := Some(c.value)))
  }

  /** The second `if let`: an updates line records the pending address, which must be set, and clears it. */
  function FrrUpdates(st: FrrState, updates: Option<(Capture<u64>, Capture<u64>)>): Result<FrrState> {
    match updates
    case None => Ok(st)
    case Some((tx, rx)) =>
      if st.addr.None? then Err(UpdatesWithoutNeighbor)
      else if tx.Unparsable? || rx.Unparsable? then Err(BadCount)
      else Ok(FrrState(None, st.table[st.addr.value := PeerCounter(tx.value, rx.value)]))
  }

  /** One iteration of the loop over the lines. */
  function FrrStep(st: FrrState, line: FrrLine): Result<FrrState> {
    match FrrNeighbor(st, line.neighbor)
    case Err(e) => Err(e)
    case Ok(st') => FrrUpdates(st', line.updates)
  }

  /** The loop over all lines, stopping at the first panic. */
  function FrrRun(lines: seq<FrrLine>): Result<FrrState> {
    if |lines| == 0 then Ok(FRR_START)
    else
      match FrrRun(lines[..|lines| - 1])
      case Err(e) => Err(e)
      case Ok(st) => FrrStep(st, lines[|lines| - 1])
  }

  /** What `Frr::get_counter` returns: the table, whatever address is left pending. */
  function FrrScrape(lines: seq<FrrLine>): Result<Counter> {
    match FrrRun(lines)
    case Err(e) => Err(e)
    case Ok(st) => Ok(Counter(st.table))
  }

  /** After a panic the later lines are never read. */
  lemma {:induction false} FrrErrorSticks(lines: seq<FrrLine>, i: nat)
    requires i <= |lines| && FrrRun(lines[..i]).Err?
    ensures FrrRun(lines) == FrrRun(lines[..i])
  {
    if i < |lines| {
      var n := |lines| - 1;
      assert lines[..n][..i] == lines[..i];
      FrrErrorSticks(lines[..n], i);
      assert lines[..|lines|] == lines;
    } else {
      assert lines[..i] == lines;
    }
  }

  /** `Frr::get_counter` as a loop over the lines, updating `addr` and `m` in place. */
  method FrrGetCounter(lines: seq<FrrLine>) returns (r: Result<Counter>)
    ensures r == FrrScrape(lines)
  {
    var m: map<Ipv4Addr, PeerCounter> := map[];
    var addr: Option<Ipv4Addr> := None;
    for i := 0 to |lines|
      invariant FrrRun(lines[..i]) == Ok(FrrState(addr, m))
    {
      assert lines[..i + 1][..i] == lines[..i];
      var s := lines[i];
      if s.neighbor.Some? {
        var c := s.neighbor.value;
        if addr.Some? || c.Unparsable? {
          FrrErrorSticks(lines, i + 1);
          return Err(if addr.Some? then NeighborWhilePending else BadAddress);
        }
        addr := Some(c.value);
      }
      if s.updates.Some? {
        var (tx, rx) := s.updates.value;
        if addr.None? || tx.Unparsable? || rx.Unparsable? {
          FrrErrorSticks(lines, i + 1);
          return Err(if addr.None? then UpdatesWithoutNeighbor else BadCount);
        }
        var peer := addr.value;
        addr := None;
        m := m[peer := PeerCounter(tx.value, rx.value)];
      }
    }
    assert lines[..|lines|] == lines;
    return Ok(Counter(m));
  }

  /** A second neighbour line before the first neighbour's updates line makes the scrape panic. */
  lemma FrrNeighborWhilePendingFails(lines: seq<FrrLine>, i: nat)
    requires i < |lines| && FrrRun(lines[..i]).Ok? && FrrRun(lines[..i]).value.addr.Some?
    requires lines[i].neighbor.Some?
    ensures FrrScrape(lines) == Err(NeighborWhilePending)
  {
    assert lines[..i + 1][..i] == lines[..i];
    FrrErrorSticks(lines, i + 1);
  }

  /** An updates line with no neighbour pending (and none on the line itself) makes the scrape panic. */
  lemma FrrUpdatesWithoutNeighborFails(lines: seq<FrrLine>, i: nat)
    requires i < |lines| && FrrRun(lines[..i]).Ok? && FrrRun(lines[..i]).value.addr.None?
    requires lines[i].neighbor.None? && lines[i].updates.Some?
    ensures FrrScrape(lines) == Err(UpdatesWithoutNeighbor)
  {
    assert lines[..i + 1][..i] == lines[..i];
    FrrErrorSticks(lines, i + 1);
  }

  /** Every recorded peer, and the pending one, was named by some neighbour line. */
  lemma {:induction false} FrrPeersFromNeighborLines(lines: seq<FrrLine>)
    requires FrrRun(lines).Ok?
    ensures forall k :: k in FrrRun(lines).value.table ==>
              exists i :: 0 <= i < |lines| && lines[i].neighbor == Some(Parsed(k))
    ensures FrrRun(lines).value.addr.Some? ==>
              exists i :: 0 <= i < |lines| && lines[i].neighbor == Some(Parsed(FrrRun(lines).value.addr.value))
  {
    if |lines| > 0 {
      var n := |lines| - 1;
      var init := lines[..n];
      FrrPeersFromNeighborLines(init);
      var st := FrrRun(init).value;
      var line := lines[n];
      forall k | k in FrrRun(lines).value.table
        ensures exists i :: 0 <= i < |lines| && lines[i].neighbor == Some(Parsed(k))
      {
        if k in st.table {
          var i :| 0 <= i < |init| && init[i].neighbor == Some(Parsed(k));
          assert lines[i] == init[i];
        } else if line.neighbor.Some? {
          assert lines[n].neighbor == Some(Parsed(k));
        } else {
          var i :| 0 <= i < |init| && init[i].neighbor == Some(Parsed(st.addr.value));
          assert lines[i] == init[i];
        }
      }
      if FrrRun(lines).value.addr.Some? {
        if line.neighbor.None? {
          var i :| 0 <= i < |init| && init[i].neighbor == Some(Parsed(st.addr.value));
          assert lines[i] == init[i];
        }
      }
    }
  }

  /** One neighbour's stanza of well-formed output: its address, then its sent and received update counts. */
  datatype FrrStanza = FrrStanza(peer: Ipv4Addr, tx: u64, rx: u64)

  /** The two matching lines of each stanza, in order (lines that match neither pattern change nothing). */
  function FrrRender(stanzas: seq<FrrStanza>): (lines: seq<FrrLine>)
    ensures |lines| == 2 * |stanzas|
  {
    if |stanzas| == 0 then []
    else
      var s := stanzas[|stanzas| - 1];
      FrrRender(stanzas[..|stanzas| - 1]) +
        [FrrLine(Some(Parsed(s.peer)), None), FrrLine(None, Some((Parsed(s.tx), Parsed(s.rx))))]
  }

  function FrrPeers(stanzas: seq<FrrStanza>): (ks: seq<Ipv4Addr>)
    ensures |ks| == |stanzas|
  {
    seq(|stanzas|, i requires 0 <= i < |stanzas| => stanzas[i].peer)
  }

  function FrrCounters(stanzas: seq<FrrStanza>): (vs: seq<PeerCounter>)
    ensures |vs| == |stanzas|
  {
    seq(|stanzas|, i requires 0 <= i < |stanzas| => PeerCounter(stanzas[i].tx, stanzas[i].rx))
  }

  /**
   * On well-formed output the scrape succeeds with every stanza's peer written in order, so
   * a later stanza for the same peer overwrites an earlier one; nothing is left pending.
   */
  lemma {:induction false} FrrScrapesStanzas(stanzas: seq<FrrStanza>)
    ensures FrrRun(FrrRender(stanzas)) == Ok(FrrState(None, Assign(FrrPeers(stanzas), FrrCounters(stanzas))))
  {
    if |stanzas| > 0 {
      var n := |stanzas| - 1;
      var init := stanzas[..n];
      FrrScrapesStanzas(init);
      var s := stanzas[n];
      var xs := FrrRender(init);
      var l1, l2 := FrrLine(Some(Parsed(s.peer)), None), FrrLine(None, Some((Parsed(s.tx), Parsed(s.rx))));
      assert FrrRender(stanzas) == xs + [l1, l2];
      assert (xs + [l1, l2])[..|xs| + 1] == xs + [l1];
      assert (xs + [l1])[..|xs|] == xs;
      assert FrrPeers(stanzas)[..n] == FrrPeers(init);
      assert FrrCounters(stanzas)[..n] == FrrCounters(init);
    }
  }

  /** On well-formed output, the peers scraped are the stanzas' peers, each with the counts of its last stanza. */
  lemma FrrLastStanzaWins(stanzas: seq<FrrStanza>, i: nat)
    requires i < |stanzas| && forall j :: i < j < |stanzas| ==> stanzas[j].peer != stanzas[i].peer
    ensures FrrScrape(FrrRender(stanzas)).Ok?
    ensures FrrScrape(FrrRender(stanzas)).value.inner.Keys == KeySet(FrrPeers(stanzas))
    ensures stanzas[i].peer in FrrScrape(FrrRender(stanzas)).value.inner
    ensures FrrScrape(FrrRender(stanzas)).value.inner[stanzas[i].peer] == PeerCounter(stanzas[i].tx, stanzas[i].rx)
  {
    FrrScrapesStanzas(stanzas);
    AssignKeys(FrrPeers(stanzas), FrrCounters(stanzas));
    AssignLastWins(FrrPeers(stanzas), FrrCounters(stanzas), i);
  }

  // ---------------------------------------------------------------- BIRD

  /**
   * A line of `show protocols all`, by the first of its three patterns that matches, as the
   * `if let … else if let` chain tests them: `Neighbor address:`, `Import updates:`,
   * `Export updates:`, or none.
   */
  datatype BirdLine =
    | NeighborAddress(addr: Capture<Ipv4Addr>)
    | ImportUpdates(count: Capture<u64>)
    | ExportUpdates(count: Capture<u64>)
    | OtherLine

  /** The locals of `Bird::get_counter`: the pending address, the `rx` accumulator and the table. */
  datatype BirdState = BirdState(addr: Option<Ipv4Addr>, rx: u64, table: map<Ipv4Addr, PeerCounter>)

  const BIRD_START: BirdState := BirdState(None, 0, map[])

  /**
   * One iteration of the loop. An export line takes the pending address (panicking when there
   * is none) and, only if the import count is non-zero, parses its own count and records
   * the peer; either way `rx` goes back to 0.
   */
  function BirdStep(st: BirdState, line: BirdLine): Result<BirdState> {
    match line
    case NeighborAddress(c) => if c.Unparsable? then Err(BadAddress) else Ok(st.(addr := Some(c.value)))
    case ImportUpdates(c) => if c.Unparsable? then Err(BadCount) else Ok(st.(rx := c.value))
    case ExportUpdates(c) =>
      if st.addr.None? then Err(ExportWithoutNeighbor)
      else if st.rx == 0 then Ok(BirdState(None, 0, st.table))
      else if c.Unparsable? then Err(BadCount)
      else Ok(BirdState(None, 0, st.table[st.addr.value := PeerCounter(c.value, st.rx)]))
    case OtherLine => Ok(st)
  }

  function BirdRun(lines: seq<BirdLine>): Result<BirdState> {
    if |lines| == 0 then Ok(BIRD_START)
    else
      match BirdRun(lines[..|lines| - 1])
      case Err(e) => Err(e)
      case Ok(st) => BirdStep(st, lines[|lines| - 1])
  }

  /** What `Bird::get_counter` returns. */
  function BirdScrape(lines: seq<BirdLine>): Result<Counter> {
    match BirdRun(lines)
    case Err(e) => Err(e)
    case Ok(st) => Ok(Counter(st.table))
  }

  lemma {:induction false} BirdErrorSticks(lines: seq<BirdLine>, i: nat)
    requires i <= |lines| && BirdRun(lines[..i]).Err?
    ensures BirdRun(lines) == BirdRun(lines[..i])
  {
    if i < |lines| {
      var n := |lines| - 1;
      assert lines[..n][..i] == lines[..i];
      BirdErrorSticks(lines[..n], i);
      assert lines[..|lines|] == lines;
    } else {
      assert lines[..i] == lines;
    }
  }

  /** `Bird::get_counter` as a loop over the lines, updating `addr`, `rx` and `m` in place. */
  method BirdGetCounter(lines: seq<BirdLine>) returns (r: Result<Counter>)
    ensures r == BirdScrape(lines)
  {
    var m: map<Ipv4Addr, PeerCounter> := map[];
    var addr: Option<Ipv4Addr> := None;
    var rx: u64 := 0;
    for i := 0 to |lines|
      invariant BirdRun(lines[..i]) == Ok(BirdState(addr, rx, m))
    {
      assert lines[..i + 1][..i] == lines[..i];
      var s := lines[i];
      if s.NeighborAddress? {
        if s.addr.Unparsable? {
          BirdErrorSticks(lines, i + 1);
          return Err(BadAddress);
        }
        addr := Some(s.addr.value);
      } else if s.ImportUpdates? {
        if s.count.Unparsable? {
          BirdErrorSticks(lines, i + 1);
          return Err(BadCount);
        }
        rx := s.count.value;
      } else if s.ExportUpdates? {
        if addr.None? {
          BirdErrorSticks(lines, i + 1);
          return Err(ExportWithoutNeighbor);
        }
        var peer := addr.value;
        addr := None;
        if rx != 0 {
          if s.count.Unparsable? {
            BirdErrorSticks(lines, i + 1);
            return Err(BadCount);
          }
          m := m[peer := PeerCounter(s.count.value, rx)];
        }
        rx := 0;
      }
    }
    assert lines[..|lines|] == lines;
    return Ok(Counter(m));
  }

  /** Only peers with a non-zero import count are ever recorded. */
  lemma {:induction false} BirdRecordsStartedImports(lines: seq<BirdLine>)
    requires BirdRun(lines).Ok?
    ensures forall k :: k in BirdRun(lines).value.table ==> BirdRun(lines).value.table[k].rx != 0
  {
    if |lines| > 0 {
      BirdRecordsStartedImports(lines[..|lines| - 1]);
    }
  }

  /**
   * An export line without a pending address makes the scrape panic; otherwise it consumes
   * the address and resets `rx`, and it leaves the table alone when the import count was 0.
   */
  lemma BirdExportConsumes(lines: seq<BirdLine>, i: nat)
    requires i < |lines| && BirdRun(lines[..i]).Ok? && lines[i].ExportUpdates?
    ensures BirdRun(lines[..i]).value.addr.None? ==> BirdScrape(lines) == Err(ExportWithoutNeighbor)
    ensures BirdRun(lines[..i + 1]).Ok? ==>
              BirdRun(lines[..i + 1]).value.addr.None? && BirdRun(lines[..i + 1]).value.rx == 0
    ensures BirdRun(lines[..i]).value.rx == 0 && BirdRun(lines[..i]).value.addr.Some? ==>
              BirdRun(lines[..i + 1]).Ok? &&
              BirdRun(lines[..i + 1]).value.table == BirdRun(lines[..i]).value.table
  {
    assert lines[..i + 1][..i] == lines[..i];
    if BirdRun(lines[..i]).value.addr.None? {
      BirdErrorSticks(lines, i + 1);
    }
  }

  /** One protocol's stanza of well-formed output: its neighbour address, then import and export update counts. */
  datatype BirdStanza = BirdStanza(peer: Ipv4Addr, imported: u64, exported: u64)

  /** The three matching lines of each stanza, in order. */
  function BirdRender(stanzas: seq<BirdStanza>): (lines: seq<BirdLine>)
    ensures |lines| == 3 * |stanzas|
  {
    if |stanzas| == 0 then []
    else
      var s := stanzas[|stanzas| - 1];
      BirdRender(stanzas[..|stanzas| - 1]) +
        [NeighborAddress(Parsed(s.peer)), ImportUpdates(Parsed(s.imported)), ExportUpdates(Parsed(s.exported))]
  }

  /** The table the stanzas describe: each peer with a non-zero import count, a later stanza winning. */
  function BirdTable(stanzas: seq<BirdStanza>): map<Ipv4Addr, PeerCounter> {
    if |stanzas| == 0 then map[]
    else
      var s := stanzas[|stanzas| - 1];
      var t := BirdTable(stanzas[..|stanzas| - 1]);
      if s.imported != 0 then t[s.peer := PeerCounter(s.exported, s.imported)] else t
  }

  /** On well-formed output the scrape succeeds with the stanzas' table, nothing pending and `rx` at 0. */
  lemma {:induction false} BirdScrapesStanzas(stanzas: seq<BirdStanza>)
    ensures BirdRun(BirdRender(stanzas)) == Ok(BirdState(None, 0, BirdTable(stanzas)))
  {
    if |stanzas| > 0 {
      var n := |stanzas| - 1;
      BirdScrapesStanzas(stanzas[..n]);
      var s := stanzas[n];
      var xs := BirdRender(stanzas[..n]);
      var l1, l2, l3 := NeighborAddress(Parsed(s.peer)), ImportUpdates(Parsed(s.imported)), ExportUpdates(Parsed(s.exported));
      var t := BirdTable(stanzas[..n]);
      assert BirdRender(stanzas) == xs + [l1, l2, l3];
      assert BirdRun(xs + [l1]) == Ok(BirdState(Some(s.peer), 0, t)) by {
        assert (xs + [l1])[..|xs|] == xs;
      }
      assert BirdRun(xs + [l1, l2]) == Ok(BirdState(Some(s.peer), s.imported, t)) by {
        assert (xs + [l1, l2])[..|xs| + 1] == xs + [l1];
      }
      assert (xs + [l1, l2, l3])[..|xs| + 2] == xs + [l1, l2];
    }
  }

  /** A peer appears in the stanzas' table exactly when one of its stanzas has a non-zero import count. */
  lemma {:induction false} BirdTablePeers(stanzas: seq<BirdStanza>, k: Ipv4Addr)
    ensures k in BirdTable(stanzas) <==>
              exists i :: 0 <= i < |stanzas| && stanzas[i].peer == k && stanzas[i].imported != 0
  {
    if |stanzas| > 0 {
      var n := |stanzas| - 1;
      var init := stanzas[..n];
      var s := stanzas[n];
      BirdTablePeers(init, k);
      if s.imported != 0 && s.peer == k {
        assert k in BirdTable(stanzas);
        assert stanzas[n].peer == k && stanzas[n].imported != 0;
      } else {
        assert k in BirdTable(stanzas) <==> k in BirdTable(init);
        if k in BirdTable(init) {
          var i :| 0 <= i < n && init[i].peer == k && init[i].imported != 0;
          assert stanzas[i] == init[i];
        }
        if exists i :: 0 <= i < |stanzas| && stanzas[i].peer == k && stanzas[i].imported != 0 {
          var i :| 0 <= i < |stanzas| && stanzas[i].peer == k && stanzas[i].imported != 0;
          assert i < n;
          assert init[i] == stanzas[i];
        }
      }
    }
  }

  // ---------------------------------------------------------------- OpenBGPD

  /**
   * One entry of `neighbors` in `bgpctl -j show neighbor`: the `remote_addr` text, that text
   * parsed as an address, and the sent and received update counts read with `as_i64`.
   */
  datatype BgpctlNeighbor = BgpctlNeighbor(
    remoteAddr: string,
    addr: Capture<Ipv4Addr>,
    sentUpdates: Capture<i64>,
    receivedUpdates: Capture<i64>)

  /** A configured network such as "172.0.0.0/8" rather than a session: skipped. */
  predicate Skipped(n: BgpctlNeighbor) {
    '/' in n.remoteAddr
  }

  /** A recorded neighbour whose fields all parse. */
  predicate Parses(n: BgpctlNeighbor) {
    n.addr.Parsed? && n.sentUpdates.Parsed? && n.receivedUpdates.Parsed?
  }

  /** The counter a recorded neighbour contributes: the counts cast from `i64` to `u64`. */
  function NeighborCounter(n: BgpctlNeighbor): PeerCounter
    requires Parses(n)
  {
    PeerCounter(WrapToU64(n.sentUpdates.value), WrapToU64(n.receivedUpdates.value))
  }

  /** One iteration: skip, or read the counts, then parse the address and insert. */
  function OpenBgpdStep(m: map<Ipv4Addr, PeerCounter>, n: BgpctlNeighbor): Result<map<Ipv4Addr, PeerCounter>> {
    if Skipped(n) then Ok(m)
    else if n.sentUpdates.Unparsable? || n.receivedUpdates.Unparsable? then Err(BadCount)
    else if n.addr.Unparsable? then Err(BadAddress)
    else Ok(m[n.addr.value := NeighborCounter(n)])
  }

  function OpenBgpdRun(ns: seq<BgpctlNeighbor>): Result<map<Ipv4Addr, PeerCounter>> {
    if |ns| == 0 then Ok(map[])
    else
      match OpenBgpdRun(ns[..|ns| - 1])
      case Err(e) => Err(e)
      case Ok(m) => OpenBgpdStep(m, ns[|ns| - 1])
  }

  /** What `OpenBgpd::get_counter` returns. */
  function OpenBgpdScrape(ns: seq<BgpctlNeighbor>): Result<Counter> {
    match OpenBgpdRun(ns)
    case Err(e) => Err(e)
    case Ok(m) => Ok(Counter(m))
  }

  lemma {:induction false} OpenBgpdErrorSticks(ns: seq<BgpctlNeighbor>, i: nat)
    requires i <= |ns| && OpenBgpdRun(ns[..i]).Err?
    ensures OpenBgpdRun(ns) == OpenBgpdRun(ns[..i])
  {
    if i < |ns| {
      var n := |ns| - 1;
      assert ns[..n][..i] == ns[..i];
      OpenBgpdErrorSticks(ns[..n], i);
      assert ns[..|ns|] == ns;
    } else {
      assert ns[..i] == ns;
    }
  }

  /** `OpenBgpd::get_counter` as the loop over `neighbors`, with `continue` on a configured network. */
  method OpenBgpdGetCounter(ns: seq<BgpctlNeighbor>) returns (r: Result<Counter>)
    ensures r == OpenBgpdScrape(ns)
  {
    var m: map<Ipv4Addr, PeerCounter> := map[];
    for i := 0 to |ns|
      invariant OpenBgpdRun(ns[..i]) == Ok(m)
    {
      assert ns[..i + 1][..i] == ns[..i];
      var n := ns[i];
      if '/' in n.remoteAddr {
        continue;
      }
      if n.sentUpdates.Unparsable? || n.receivedUpdates.Unparsable? {
        OpenBgpdErrorSticks(ns, i + 1);
        return Err(BadCount);
      }
      var tx := WrapToU64(n.sentUpdates.value);
      var rx := WrapToU64(n.receivedUpdates.value);
      if n.addr.Unparsable? {
        OpenBgpdErrorSticks(ns, i + 1);
        return Err(BadAddress);
      }
      m := m[n.addr.value := PeerCounter(tx, rx)];
    }
    assert ns[..|ns|] == ns;
    return Ok(Counter(m));
  }

  /** Every neighbour that is not skipped parses, checked from the last one back. */
  predicate KeptParse(ns: seq<BgpctlNeighbor>) {
    |ns| == 0 || (KeptParse(ns[..|ns| - 1]) && (Skipped(ns[|ns| - 1]) || Parses(ns[|ns| - 1])))
  }

  /** `KeptParse` says that each neighbour that is not skipped parses. */
  lemma {:induction false} KeptParseAll(ns: seq<BgpctlNeighbor>)
    ensures KeptParse(ns) <==> forall i :: 0 <= i < |ns| && !Skipped(ns[i]) ==> Parses(ns[i])
  {
    if |ns| > 0 {
      var n := |ns| - 1;
      var init := ns[..n];
      KeptParseAll(init);
      if forall i :: 0 <= i < |ns| && !Skipped(ns[i]) ==> Parses(ns[i]) {
        forall i | 0 <= i < n && !Skipped(init[i]) ensures Parses(init[i]) {
          assert init[i] == ns[i];
        }
      }
      if KeptParse(ns) {
        forall i | 0 <= i < |ns| && !Skipped(ns[i]) ensures Parses(ns[i]) {
          if i < n {
            assert init[i] == ns[i];
          }
        }
      }
    }
  }

  /** The addresses of the neighbours that are not skipped, in order. */
  function KeptPeers(ns: seq<BgpctlNeighbor>): (peers: seq<Ipv4Addr>)
    requires KeptParse(ns)
    ensures |peers| == |KeptCounters(ns)|
  {
    if |ns| == 0 then []
    else
      var n := ns[|ns| - 1];
      KeptPeers(ns[..|ns| - 1]) + (if Skipped(n) then [] else [n.addr.value])
  }

  /** The counters of the neighbours that are not skipped, in order. */
  function KeptCounters(ns: seq<BgpctlNeighbor>): seq<PeerCounter>
    requires KeptParse(ns)
  {
    if |ns| == 0 then []
    else
      var n := ns[|ns| - 1];
      KeptCounters(ns[..|ns| - 1]) + (if Skipped(n) then [] else [NeighborCounter(n)])
  }

  /** The scrape succeeds exactly when every neighbour that is not skipped parses. */
  lemma {:induction false} OpenBgpdOkIffKeptParse(ns: seq<BgpctlNeighbor>)
    ensures OpenBgpdRun(ns).Ok? <==> KeptParse(ns)
  {
    if |ns| > 0 {
      OpenBgpdOkIffKeptParse(ns[..|ns| - 1]);
    }
  }

  /**
   * When it succeeds, its table is what writing the neighbours that are not skipped gives,
   * in order: skipped ones leave no trace and a later neighbour with the same address wins.
   */
  lemma {:induction false} OpenBgpdRecordsKept(ns: seq<BgpctlNeighbor>)
    requires KeptParse(ns)
    ensures OpenBgpdRun(ns) == Ok(Assign(KeptPeers(ns), KeptCounters(ns)))
  {
    if |ns| > 0 {
      var n := |ns| - 1;
      var init := ns[..n];
      assert KeptParse(init);
      OpenBgpdRecordsKept(init);
      var ks, vs := KeptPeers(init), KeptCounters(init);
      var m := Assign(ks, vs);
      assert OpenBgpdRun(ns) == OpenBgpdStep(m, ns[n]);
      if Skipped(ns[n]) {
        assert OpenBgpdStep(m, ns[n]) == Ok(m);
        assert KeptPeers(ns) == ks;
        assert KeptCounters(ns) == vs;
      } else {
        var a, v := ns[n].addr.value, NeighborCounter(ns[n]);
        assert OpenBgpdStep(m, ns[n]) == Ok(m[a := v]);
        assert KeptPeers(ns) == ks + [a];
        assert KeptCounters(ns) == vs + [v];
        AssignAppend(ks, vs, a, v);
      }
    }
  }

  /** A peer is recorded exactly when some neighbour that is not skipped has its address. */
  lemma {:induction false} KeptPeersAreUnskipped(ns: seq<BgpctlNeighbor>, k: Ipv4Addr)
    requires KeptParse(ns)
    ensures k in KeptPeers(ns) <==> exists i :: 0 <= i < |ns| && !Skipped(ns[i]) && ns[i].addr == Parsed(k)
  {
    if |ns| > 0 {
      var n := |ns| - 1;
      var init := ns[..n];
      KeptPeersAreUnskipped(init, k);
      assert KeptPeers(ns) == KeptPeers(init) + (if Skipped(ns[n]) then [] else [ns[n].addr.value]);
      if exists i :: 0 <= i < n && !Skipped(init[i]) && init[i].addr == Parsed(k) {
        var i :| 0 <= i < n && !Skipped(init[i]) && init[i].addr == Parsed(k);
        assert ns[i] == init[i];
      }
      if exists i :: 0 <= i < |ns| && !Skipped(ns[i]) && ns[i].addr == Parsed(k) {
        var i :| 0 <= i < |ns| && !Skipped(ns[i]) && ns[i].addr == Parsed(k);
        if i < n {
          assert init[i] == ns[i];
        }
      }
    }
  }

  /**
   * The scrape succeeds exactly when each neighbour that is not skipped parses, and then
   * its peers are exactly the addresses of those neighbours.
   */
  lemma OpenBgpdPeers(ns: seq<BgpctlNeighbor>, k: Ipv4Addr)
    ensures OpenBgpdScrape(ns).Ok? <==> forall i :: 0 <= i < |ns| && !Skipped(ns[i]) ==> Parses(ns[i])
    ensures OpenBgpdScrape(ns).Ok? ==>
              (k in OpenBgpdScrape(ns).value.inner <==>
                 exists i :: 0 <= i < |ns| && !Skipped(ns[i]) && ns[i].addr == Parsed(k))
  {
    OpenBgpdOkIffKeptParse(ns);
    KeptParseAll(ns);
    if KeptParse(ns) {
      OpenBgpdRecordsKept(ns);
      AssignKeys(KeptPeers(ns), KeptCounters(ns));
      KeptPeersAreUnskipped(ns, k);
    }
  }
}
