/**
  The diff engine: from the controller's monitors and the declared host
  records, the monitors to delete and the records that need a monitor.
  Hosts are compared as strings, a monitor's host being the canonical host
  of its URL.
 */
module Diff {
  import opened Seqs
  import opened Urls
  import opened Ingress
  import opened Monitors

  /** The host a monitor stands for: the last '/'-separated segment of its
      URL, so a suffix of it with no '/', preceded by '/' unless it is all of
      it (the contract of `LastSegment`). */
  function HostOf(m: Monitor): (host: string)
    ensures host == LastSegment(m.url)
  {
    StripUrlComponents(m.url)
  }

  /** Every declared host, whatever its flags. */
  function KnownHosts(hosts: set<HostRecord>): (known: set<string>)
    ensures known == WatchedHosts(hosts) + IgnoredHosts(hosts)
  {
    set r | r in hosts :: r.host
  }

  /** The hosts declared by some ignored record. */
  function IgnoredHosts(hosts: set<HostRecord>): set<string>
  {
    set r | r in hosts && r.ignore :: r.host
  }

  /** A monitor is to be deleted when no record declares its host, or when
      an ignored record does. */
  predicate IsPrunable(m: Monitor, hosts: set<HostRecord>)
  {
    || (forall r :: r in hosts ==> r.host != HostOf(m))
    || (exists r :: r in hosts && r.ignore && r.host == HostOf(m))
  }

  /** The monitors of `ms` to delete, in input order. */
  function PrunableOf(ms: seq<Monitor>, hosts: set<HostRecord>): seq<Monitor>
  {
    Filter(ms, m => IsPrunable(m, hosts))
  }

  /** The prune rule read over the two host sets. */
  lemma PrunableByHostSets(m: Monitor, hosts: set<HostRecord>)
    ensures IsPrunable(m, hosts) <==> HostOf(m) !in KnownHosts(hosts) || HostOf(m) in IgnoredHosts(hosts)
  {
  }

  /** One more monitor extends the prunable list by itself exactly when its
      host is unknown or ignored. */
  lemma PrunableSnoc(ms: seq<Monitor>, m: Monitor, hosts: set<HostRecord>)
    ensures var host := StripUrlComponents(m.url);
            PrunableOf(ms + [m], hosts) ==
            PrunableOf(ms, hosts) + if host !in KnownHosts(hosts) || host in IgnoredHosts(hosts) then [m] else []
  {
    FilterSnoc(ms, m, m => IsPrunable(m, hosts));
    PrunableByHostSets(m, hosts);
  }

  /** `filter_prunable_monitors`: the monitors to delete, each input entry
      kept at most once and in input order. */
  method FilterPrunableMonitors(monitors: seq<Monitor>, hosts: set<HostRecord>) returns (prunable: seq<Monitor>)
    ensures prunable == PrunableOf(monitors, hosts)
    ensures forall m :: m in prunable <==> m in monitors && IsPrunable(m, hosts)
    ensures IsSubsequence(prunable, monitors)
  {
    var known := KnownHosts(hosts);
    var ignored := IgnoredHosts(hosts);
    prunable := [];
    for i := 0 to |monitors|
      invariant prunable == PrunableOf(monitors[..i], hosts)
    {
      var monitor := monitors[i];
      var host := StripUrlComponents(monitor.url);
      assert monitors[..i + 1] == monitors[..i] + [monitor];
      PrunableSnoc(monitors[..i], monitor, hosts);
      if host !in known {
        prunable := prunable + [monitor];
      } else if host in ignored {
        prunable := prunable + [monitor];
      }
    }
    assert monitors[..|monitors|] == monitors;
    FilterIsSubsequence(monitors, m => IsPrunable(m, hosts));
  }

  /** A record needs a monitor when it is not ignored and no monitor of `ms`
      stands for its host. */
  predicate IsMissing(r: HostRecord, ms: seq<Monitor>)
  {
    !r.ignore && forall m :: m in ms ==> HostOf(m) != r.host
  }

  /** The records of `hosts` that need a monitor. */
  ghost function MissingOf(ms: seq<Monitor>, hosts: set<HostRecord>): set<HostRecord>
  {
    set r | r in hosts && IsMissing(r, ms)
  }

  /** The canonical hosts of `ms`. */
  function MonitoredHosts(ms: seq<Monitor>): set<string>
  {
    set m | m in ms :: HostOf(m)
  }

  /** `filter_missing_monitors`: exactly the records that need a monitor,
      each once, in the (unspecified) order the record set is visited. */
  method FilterMissingMonitors(monitors: seq<Monitor>, hosts: set<HostRecord>) returns (missing: seq<HostRecord>)
    ensures forall r :: r in missing <==> r in hosts && IsMissing(r, monitors)
    ensures forall i, j :: 0 <= i < j < |missing| ==> missing[i] != missing[j]
  {
    var monitored := MonitoredHosts(monitors);
    missing := [];
    var rest := hosts;
    while rest != {}
      invariant rest <= hosts
      invariant forall r :: r in missing <==> r in hosts - rest && IsMissing(r, monitors)
      invariant forall i, j :: 0 <= i < j < |missing| ==> missing[i] != missing[j]
      decreases |rest|
    {
      var r :| r in rest;
      if r.host !in monitored && !r.ignore {
        assert r !in missing;
        missing := missing + [r];
      }
      rest := rest - {r};
    }
  }

  /** The hosts declared by some record that is not ignored. */
  function WatchedHosts(hosts: set<HostRecord>): set<string>
  {
    set r | r in hosts && !r.ignore :: r.host
  }

  /** A watched host holding a '/' never settles: no monitor's canonical
      host can equal it, so whatever the monitors, its record is missing and
      they do not match the declared hosts. */
  lemma SlashedHostNeverSettles(ms: seq<Monitor>, hosts: set<HostRecord>, r: HostRecord)
    requires r in hosts && !r.ignore && '/' in r.host
    ensures r in MissingOf(ms, hosts)
    ensures !Consistent(ms, hosts)
  {
    assert r.host in WatchedHosts(hosts);
    assert r.host !in MonitoredHosts(ms);
  }

  /** A host is both watched and ignored exactly when one record declares it
      ignored and another declares it not ignored. */
  lemma WatchedIgnoredOverlap(hosts: set<HostRecord>)
    ensures (exists h :: h in WatchedHosts(hosts) && h in IgnoredHosts(hosts)) <==>
            (exists r1, r2 :: r1 in hosts && r2 in hosts && r1.host == r2.host && r1.ignore && !r2.ignore)
  {
    if exists h :: h in WatchedHosts(hosts) && h in IgnoredHosts(hosts) {
      var h :| h in WatchedHosts(hosts) && h in IgnoredHosts(hosts);
      var r1 :| r1 in hosts && r1.ignore && r1.host == h;
      var r2 :| r2 in hosts && !r2.ignore && r2.host == h;
    }
    if exists r1, r2 :: r1 in hosts && r2 in hosts && r1.host == r2.host && r1.ignore && !r2.ignore {
      var r1, r2 :| r1 in hosts && r2 in hosts && r1.host == r2.host && r1.ignore && !r2.ignore;
      assert r1.host in WatchedHosts(hosts) && r1.host in IgnoredHosts(hosts);
    }
  }

  /** The missing rule read over the list of monitored hosts, as the loop
      tests it. */
  lemma MissingByMonitoredHosts(r: HostRecord, ms: seq<Monitor>)
    ensures IsMissing(r, ms) <==> !r.ignore && r.host !in MonitoredHosts(ms)
  {
    if r.host in MonitoredHosts(ms) {
      var m :| m in ms && HostOf(m) == r.host;
    }
  }

  /** The controller's monitors match the declared hosts: they stand for
      exactly the hosts of the records that are not ignored, and for no host
      an ignored record declares. */
  ghost predicate Consistent(ms: seq<Monitor>, hosts: set<HostRecord>)
  {
    MonitoredHosts(ms) == WatchedHosts(hosts) && MonitoredHosts(ms) !! IgnoredHosts(hosts)
  }

  /** Over matching monitors, no monitor is to be deleted. */
  lemma ConsistentNothingPrunable(ms: seq<Monitor>, hosts: set<HostRecord>)
    requires Consistent(ms, hosts)
    ensures PrunableOf(ms, hosts) == []
  {
    forall m | m in ms ensures !IsPrunable(m, hosts) {
      ConsistentMonitorIsKept(ms, hosts, m);
    }
    NoElementsIsEmpty(PrunableOf(ms, hosts));
  }

  /** Over matching monitors, each monitor's host is declared and not
      ignored. */
  lemma ConsistentMonitorIsKept(ms: seq<Monitor>, hosts: set<HostRecord>, m: Monitor)
    requires Consistent(ms, hosts) && m in ms
    ensures !IsPrunable(m, hosts)
  {
    HostOfIsMonitored(ms, m);
    ConsistentHostIsWatched(ms, hosts, HostOf(m));
  }

  /** Over matching monitors, a monitored host is declared by a record that
      is not ignored and by no ignored one. */
  lemma ConsistentHostIsWatched(ms: seq<Monitor>, hosts: set<HostRecord>, host: string)
    requires Consistent(ms, hosts) && host in MonitoredHosts(ms)
    ensures exists r :: r in hosts && r.host == host
    ensures forall r :: r in hosts && r.ignore ==> r.host != host
  {
    assert host in WatchedHosts(hosts);
    var r :| r in hosts && !r.ignore && r.host == host;
    forall r' | r' in hosts && r'.ignore ensures r'.host != host {
      assert r'.host in IgnoredHosts(hosts);
    }
  }

  /** The host of a monitor of `ms` is among the monitored hosts. */
  lemma HostOfIsMonitored(ms: seq<Monitor>, m: Monitor)
    requires m in ms
    ensures HostOf(m) in MonitoredHosts(ms)
  {
  }

  /** Over matching monitors, no record needs a monitor. */
  lemma ConsistentNothingMissing(ms: seq<Monitor>, hosts: set<HostRecord>)
    requires Consistent(ms, hosts)
    ensures MissingOf(ms, hosts) == {}
  {
    forall r | r in hosts && !r.ignore ensures !IsMissing(r, ms) {
      assert r.host in WatchedHosts(hosts);
      var m :| m in ms && HostOf(m) == r.host;
    }
    assert forall r :: r !in MissingOf(ms, hosts);
  }

  /** A cycle over monitors that match the declared hosts deletes nothing
      and creates nothing. */
  lemma ConsistentDiffIsEmpty(ms: seq<Monitor>, hosts: set<HostRecord>)
    requires Consistent(ms, hosts)
    ensures PrunableOf(ms, hosts) == []
    ensures MissingOf(ms, hosts) == {}
  {
    ConsistentNothingPrunable(ms, hosts);
    ConsistentNothingMissing(ms, hosts);
  }

  /** A cycle that deletes nothing and creates nothing saw monitors that
      match the declared hosts. */
  lemma EmptyDiffIsConsistent(ms: seq<Monitor>, hosts: set<HostRecord>)
    requires PrunableOf(ms, hosts) == []
    requires MissingOf(ms, hosts) == {}
    ensures Consistent(ms, hosts)
  {
    var prunable := PrunableOf(ms, hosts);
    forall h | h in MonitoredHosts(ms) ensures h in WatchedHosts(hosts) && h !in IgnoredHosts(hosts) {
      var m :| m in ms && HostOf(m) == h;
      assert m !in prunable;
    }
    forall h | h in WatchedHosts(hosts) ensures h in MonitoredHosts(ms) {
      var r :| r in hosts && !r.ignore && r.host == h;
      assert r !in MissingOf(ms, hosts);
    }
  }

  /** A cycle deletes nothing and creates nothing exactly when the monitors
      already match the declared hosts. */
  lemma DiffEmptyIffConsistent(ms: seq<Monitor>, hosts: set<HostRecord>)
    ensures PrunableOf(ms, hosts) == [] && MissingOf(ms, hosts) == {} <==> Consistent(ms, hosts)
  {
    if Consistent(ms, hosts) {
      ConsistentDiffIsEmpty(ms, hosts);
    }
    if PrunableOf(ms, hosts) == [] && MissingOf(ms, hosts) == {} {
      EmptyDiffIsConsistent(ms, hosts);
    }
  }

  /** A host declared both ignored and not ignored never settles: whatever
      the monitors, a cycle either deletes its monitor or creates one. */
  lemma ConflictingHostNeverSettles(ms: seq<Monitor>, hosts: set<HostRecord>, host: string, s1: bool, s2: bool)
    requires HostRecord(host, true, s1) in hosts && HostRecord(host, false, s2) in hosts
    ensures !Consistent(ms, hosts)
    ensures PrunableOf(ms, hosts) != [] || MissingOf(ms, hosts) != {}
  {
    assert host in WatchedHosts(hosts) && host in IgnoredHosts(hosts);
    DiffEmptyIffConsistent(ms, hosts);
  }
}
