/**
  One reconciliation cycle against the monitoring service: ensure the
  controller's tag, read the tagged monitors and the declared hosts, delete
  the prunable monitors, then create and tag a monitor for each missing
  record. Under two conditions on the declared hosts, the monitors left
  behind match them, so the next cycle over the same hosts does nothing.
 */
module Cycle {
  import opened Wrappers
  import opened Seqs
  import opened Urls
  import opened Ingress
  import opened Monitors
  import opened Diff
  import opened Kuma

  /** The monitor the cycle creates for `r`: named after the host, its URL
      built from the host and the record's scheme, carrying `ref`. */
  function NewMonitor(r: HostRecord, id: nat, ref: MonitorTag): Monitor
  {
    Monitor(id, MonitorUrl(r.host, r.secure), r.host, [ref])
  }

  /** The monitors created for `missing`, numbered from `base`. */
  function Created(missing: seq<HostRecord>, base: nat, ref: MonitorTag): (r: seq<Monitor>)
    ensures |r| == |missing|
    ensures forall k :: 0 <= k < |missing| ==> r[k] == NewMonitor(missing[k], base + k, ref)
  {
    seq(|missing|, k requires 0 <= k < |missing| => NewMonitor(missing[k], base + k, ref))
  }

  /** No host is declared both ignored and not ignored. */
  ghost predicate NoConflict(hosts: set<HostRecord>)
  {
    forall r1, r2 :: r1 in hosts && r2 in hosts && r1.host == r2.host ==> r1.ignore == r2.ignore
  }

  /** No declared host holds a '/'. */
  ghost predicate NoSlash(hosts: set<HostRecord>)
  {
    forall r :: r in hosts ==> '/' !in r.host
  }

  /** Tag scoping: a monitor without the controller's tag is never deleted,
      whatever the declared hosts, because identifiers are unique. */
  lemma UntaggedMonitorIsKept(ms: seq<Monitor>, hosts: set<HostRecord>, tagName: string, prunable: seq<Monitor>, m: Monitor)
    requires UniqueIds(ms)
    requires prunable == PrunableOf(ByTag(ms, tagName), hosts)
    requires m in ms && !HasTag(m, tagName)
    ensures m in Surviving(ms, IdsOf(prunable))
  {
    if m.id in IdsOf(prunable) {
      var p :| p in prunable && p.id == m.id;
      ByTagMembership(ms, tagName, p);
      SameIdSameMonitor(ms, p, m);
    }
  }

  /** A tagged monitor that survives deletion stands for a watched host. */
  lemma KeptMonitorIsWatched(ms: seq<Monitor>, hosts: set<HostRecord>, tagName: string, prunable: seq<Monitor>, m: Monitor)
    requires prunable == PrunableOf(ByTag(ms, tagName), hosts)
    requires m in Surviving(ms, IdsOf(prunable)) && HasTag(m, tagName)
    ensures HostOf(m) in WatchedHosts(hosts) && HostOf(m) !in IgnoredHosts(hosts)
  {
    ByTagMembership(ms, tagName, m);
    assert m !in prunable;
    var r :| r in hosts && r.host == HostOf(m);
    assert !r.ignore;
  }

  /** A created monitor stands for a watched host. */
  lemma CreatedMonitorIsWatched(hosts: set<HostRecord>, missing: seq<HostRecord>, base: nat, ref: MonitorTag, k: nat)
    requires NoConflict(hosts) && NoSlash(hosts)
    requires forall r :: r in missing ==> r in hosts && !r.ignore
    requires k < |missing|
    ensures HostOf(Created(missing, base, ref)[k]) == missing[k].host
    ensures missing[k].host in WatchedHosts(hosts) && missing[k].host !in IgnoredHosts(hosts)
  {
    assert missing[k] in missing;
    StripRecoversHost(missing[k].host, missing[k].secure);
  }

  /** A watched host whose tagged monitor survives deletion: no monitor
      deleted by identifier is that monitor. */
  lemma WatchedMonitorIsKept(ms: seq<Monitor>, hosts: set<HostRecord>, tagName: string, prunable: seq<Monitor>, m: Monitor)
    requires UniqueIds(ms) && NoConflict(hosts)
    requires prunable == PrunableOf(ByTag(ms, tagName), hosts)
    requires m in ByTag(ms, tagName) && HostOf(m) in WatchedHosts(hosts)
    ensures m in Surviving(ms, IdsOf(prunable)) && HasTag(m, tagName)
  {
    ByTagMembership(ms, tagName, m);
    var r :| r in hosts && !r.ignore && r.host == HostOf(m);
    assert !IsPrunable(m, hosts);
    if m.id in IdsOf(prunable) {
      var p :| p in prunable && p.id == m.id;
      ByTagMembership(ms, tagName, p);
      SameIdSameMonitor(ms, p, m);
    }
  }

  /** After the sync, every tagged monitor stands for a watched host. */
  lemma SyncedMonitorsAreWatched(
    ms: seq<Monitor>, hosts: set<HostRecord>, tagName: string,
    prunable: seq<Monitor>, missing: seq<HostRecord>, base: nat, ref: MonitorTag)
    requires NoConflict(hosts) && NoSlash(hosts)
    requires prunable == PrunableOf(ByTag(ms, tagName), hosts)
    requires forall r :: r in missing ==> r in hosts && !r.ignore
    ensures
      var after := ByTag(Surviving(ms, IdsOf(prunable)) + Created(missing, base, ref), tagName);
      forall h :: h in MonitoredHosts(after) ==> h in WatchedHosts(hosts) && h !in IgnoredHosts(hosts)
  {
    var kept := Surviving(ms, IdsOf(prunable));
    var created := Created(missing, base, ref);
    var after := ByTag(kept + created, tagName);
    forall h | h in MonitoredHosts(after) ensures h in WatchedHosts(hosts) && h !in IgnoredHosts(hosts) {
      var m :| m in after && HostOf(m) == h;
      ByTagMembership(kept + created, tagName, m);
      if m in kept {
        KeptMonitorIsWatched(ms, hosts, tagName, prunable, m);
      } else {
        var k :| 0 <= k < |created| && created[k] == m;
        CreatedMonitorIsWatched(hosts, missing, base, ref, k);
      }
    }
  }

  /** After the sync, every watched host has a tagged monitor. */
  lemma WatchedHostsAreSynced(
    ms: seq<Monitor>, hosts: set<HostRecord>, tagName: string,
    prunable: seq<Monitor>, missing: seq<HostRecord>, base: nat, ref: MonitorTag)
    requires UniqueIds(ms)
    requires NoConflict(hosts) && NoSlash(hosts)
    requires prunable == PrunableOf(ByTag(ms, tagName), hosts)
    requires forall r :: r in missing <==> r in hosts && IsMissing(r, ByTag(ms, tagName))
    requires ref.name == tagName
    ensures
      var after := ByTag(Surviving(ms, IdsOf(prunable)) + Created(missing, base, ref), tagName);
      forall h :: h in WatchedHosts(hosts) ==> h in MonitoredHosts(after)
  {
    var tagged := ByTag(ms, tagName);
    var kept := Surviving(ms, IdsOf(prunable));
    var created := Created(missing, base, ref);
    var after := ByTag(kept + created, tagName);
    forall h | h in WatchedHosts(hosts) ensures h in MonitoredHosts(after) {
      var r :| r in hosts && !r.ignore && r.host == h;
      var m;
      if IsMissing(r, tagged) {
        var k :| 0 <= k < |missing| && missing[k] == r;
        m := created[k];
        assert HasTag(m, tagName) by { assert m.tags[0] == ref; }
        CreatedMonitorIsWatched(hosts, missing, base, ref, k);
      } else {
        m :| m in tagged && HostOf(m) == h;
        WatchedMonitorIsKept(ms, hosts, tagName, prunable, m);
      }
      ByTagMembership(kept + created, tagName, m);
      assert m in after;
    }
  }

  /** After deleting the prunable monitors and creating one for each
      missing record, the tagged monitors match the declared hosts. */
  lemma SyncedInventoryIsConsistent(
    ms: seq<Monitor>, hosts: set<HostRecord>, tagName: string,
    prunable: seq<Monitor>, missing: seq<HostRecord>, base: nat, ref: MonitorTag)
    requires UniqueIds(ms)
    requires NoConflict(hosts) && NoSlash(hosts)
    requires prunable == PrunableOf(ByTag(ms, tagName), hosts)
    requires forall r :: r in missing <==> r in hosts && IsMissing(r, ByTag(ms, tagName))
    requires ref.name == tagName
    ensures Consistent(ByTag(Surviving(ms, IdsOf(prunable)) + Created(missing, base, ref), tagName), hosts)
  {
    SyncedMonitorsAreWatched(ms, hosts, tagName, prunable, missing, base, ref);
    WatchedHostsAreSynced(ms, hosts, tagName, prunable, missing, base, ref);
  }

  /** Lines 81-86 of the controller's main routine: delete each prunable
      monitor by identifier. */
  method DeletePrunable(store: Store, prunable: seq<Monitor>)
    requires store.Valid()
    modifies store
    ensures store.Valid()
    ensures store.monitors == Surviving(old(store.monitors), IdsOf(prunable))
    ensures store.tags == old(store.tags) && store.nextTagId == old(store.nextTagId)
    ensures store.nextMonitorId == old(store.nextMonitorId)
  {
    ghost var before := store.monitors;
    SurvivingNone(before, {});
    assert IdsOf(prunable[..0]) == {} by { assert prunable[..0] == []; }
    for i := 0 to |prunable|
      invariant store.Valid()
      invariant store.monitors == Surviving(before, IdsOf(prunable[..i]))
      invariant store.tags == old(store.tags) && store.nextTagId == old(store.nextTagId)
      invariant store.nextMonitorId == old(store.nextMonitorId)
    {
      IdsOfSnoc(prunable, i);
      SurvivingTwice(before, IdsOf(prunable[..i]), {prunable[i].id});
      store.DeleteMonitor(prunable[i].id);
    }
    assert prunable[..|prunable|] == prunable;
  }

  /** Lines 89-97 of the controller's main routine, for one record: create
      its monitor, then attach `tag` to it by the returned identifier. */
  method CreateOne(store: Store, tag: Tag, record: HostRecord)
    requires store.Valid() && tag in store.tags
    modifies store
    ensures store.Valid() && store.tags == old(store.tags) && store.nextTagId == old(store.nextTagId)
    ensures store.nextMonitorId == old(store.nextMonitorId) + 1
    ensures store.monitors == old(store.monitors) + [NewMonitor(record, old(store.nextMonitorId), MonitorTag(tag.id, tag.name))]
  {
    var id := store.AddMonitor(MonitorUrl(record.host, record.secure), record.host);
    TagByIdFindsTag(store.tags, tag);
    var ok := store.AddMonitorTag(tag.id, id);
    assert ok;
    var ref := MonitorTag(tag.id, tag.name);
    var blank := Monitor(id, MonitorUrl(record.host, record.secure), record.host, []);
    AttachToNewest(old(store.monitors), blank, ref);
    assert blank.(tags := blank.tags + [ref]) == NewMonitor(record, id, ref);
  }

  /** Lines 88-97 of the controller's main routine: create a monitor for
      each missing record and attach `tag` to it. */
  method CreateMissing(store: Store, tag: Tag, missing: seq<HostRecord>)
    requires store.Valid() && tag in store.tags
    modifies store
    ensures store.Valid() && store.tags == old(store.tags) && store.nextTagId == old(store.nextTagId)
    ensures store.nextMonitorId == old(store.nextMonitorId) + |missing|
    ensures store.monitors == old(store.monitors) + Created(missing, old(store.nextMonitorId), MonitorTag(tag.id, tag.name))
  {
    ghost var base := store.nextMonitorId;
    ghost var ref := MonitorTag(tag.id, tag.name);
    for i := 0 to |missing|
      invariant store.Valid() && store.tags == old(store.tags) && store.nextTagId == old(store.nextTagId)
      invariant store.nextMonitorId == base + i
      invariant store.monitors == old(store.monitors) + Created(missing[..i], base, ref)
    {
      CreateOne(store, tag, missing[i]);
      CreatedSnoc(missing, i, base, ref);
    }
    assert missing[..|missing|] == missing;
  }

  /** Lines 81-97 of the controller's main routine: apply the diff. */
  method Sync(store: Store, tag: Tag, prunable: seq<Monitor>, missing: seq<HostRecord>)
    requires store.Valid() && tag in store.tags
    modifies store
    ensures store.Valid() && store.tags == old(store.tags) && store.nextTagId == old(store.nextTagId)
    ensures store.nextMonitorId == old(store.nextMonitorId) + |missing|
    ensures store.monitors ==
              Surviving(old(store.monitors), IdsOf(prunable))
              + Created(missing, old(store.nextMonitorId), MonitorTag(tag.id, tag.name))
  {
    DeletePrunable(store, prunable);
    CreateMissing(store, tag, missing);
  }

  lemma IdsOfSnoc(ms: seq<Monitor>, i: nat)
    requires i < |ms|
    ensures IdsOf(ms[..i + 1]) == IdsOf(ms[..i]) + {ms[i].id}
  {
    assert ms[..i + 1] == ms[..i] + [ms[i]];
  }

  lemma CreatedSnoc(missing: seq<HostRecord>, i: nat, base: nat, ref: MonitorTag)
    requires i < |missing|
    ensures Created(missing[..i + 1], base, ref) == Created(missing[..i], base, ref) + [NewMonitor(missing[i], base + i, ref)]
  {
  }

  /** Lines 75-97 of the controller's main routine: one reconciliation cycle
      of `store` against the ingresses `items`, for the controller tag
      `controllerTag`. Returns the tag used and the two halves of the diff. */
  method RunCycle(store: Store, items: seq<IngressItem>, controllerTag: string)
      returns (tag: Tag, prunable: seq<Monitor>, missing: seq<HostRecord>)
    requires store.Valid()
    modifies store
    ensures store.Valid()
    ensures tag.name == controllerTag && tag in store.tags
    ensures FindTag(old(store.tags), controllerTag).Some? ==>
              && tag == old(store.tags)[FindTag(old(store.tags), controllerTag).value]
              && store.tags == old(store.tags) && store.nextTagId == old(store.nextTagId)
    ensures FindTag(old(store.tags), controllerTag).None? ==>
              && tag == Tag(old(store.nextTagId), controllerTag, DefaultTagColor)
              && store.tags == old(store.tags) + [tag] && store.nextTagId == old(store.nextTagId) + 1
    ensures store.nextMonitorId == old(store.nextMonitorId) + |missing|
    ensures prunable == PrunableOf(ByTag(old(store.monitors), controllerTag), HostsOf(items))
    ensures forall r :: r in missing <==> r in HostsOf(items) && IsMissing(r, ByTag(old(store.monitors), controllerTag))
    ensures forall i, j :: 0 <= i < j < |missing| ==> missing[i] != missing[j]
    ensures store.monitors ==
              Surviving(old(store.monitors), IdsOf(prunable))
              + Created(missing, old(store.nextMonitorId), MonitorTag(tag.id, tag.name))
    ensures NoConflict(HostsOf(items)) && NoSlash(HostsOf(items)) ==>
              && Consistent(ByTag(store.monitors, controllerTag), HostsOf(items))
              && PrunableOf(ByTag(store.monitors, controllerTag), HostsOf(items)) == []
              && MissingOf(ByTag(store.monitors, controllerTag), HostsOf(items)) == {}
  {
    tag := store.GetOrCreateTag(controllerTag);
    var monitors := FilterMonitorByTag(store.monitors, controllerTag);
    var hosts := GetIngressHosts(items);
    prunable := FilterPrunableMonitors(monitors, hosts);
    missing := FilterMissingMonitors(monitors, hosts);
    ghost var before, base := store.monitors, store.nextMonitorId;
    Sync(store, tag, prunable, missing);
    if NoConflict(hosts) && NoSlash(hosts) {
      SyncedInventoryIsConsistent(before, hosts, controllerTag, prunable, missing, base, MonitorTag(tag.id, tag.name));
      ConsistentDiffIsEmpty(ByTag(store.monitors, controllerTag), hosts);
    }
  }

  /** Two cycles over the same ingresses, from any service: when no host is
      declared both ignored and not ignored and no host holds a '/', the
      second cycle deletes nothing, creates nothing, and leaves the tags and
      monitors exactly as the first cycle left them. */
  method SecondCycleIsNoOp(store: Store, items: seq<IngressItem>, controllerTag: string)
      returns (inventory: seq<Monitor>, tags: seq<Tag>, secondPruned: seq<Monitor>, secondMissing: seq<HostRecord>)
    requires store.Valid()
    requires NoConflict(HostsOf(items)) && NoSlash(HostsOf(items))
    modifies store
    ensures Consistent(ByTag(inventory, controllerTag), HostsOf(items))
    ensures secondPruned == [] && secondMissing == []
    ensures store.monitors == inventory && store.tags == tags
  {
    var tag, firstPruned, firstMissing := RunCycle(store, items, controllerTag);
    inventory, tags := store.monitors, store.tags;
    var k :| 0 <= k < |tags| && tags[k] == tag;
    assert FindTag(tags, controllerTag).Some?;
    tag, secondPruned, secondMissing := RunCycle(store, items, controllerTag);
    assert forall r :: r in secondMissing ==> r in MissingOf(ByTag(inventory, controllerTag), HostsOf(items));
    NoElementsIsEmpty(secondMissing);
    assert IdsOf(secondPruned) == {};
    SurvivingNone(inventory, {});
  }

  /** A tag in a list with unique identifiers is the one found by its identifier. */
  lemma TagByIdFindsTag(tags: seq<Tag>, tag: Tag)
    requires UniqueTagIds(tags) && tag in tags
    ensures TagById(tags, tag.id) == Some(tag)
  {
    var found := TagById(tags, tag.id);
    var i :| 0 <= i < |tags| && tags[i] == found.value;
    var j :| 0 <= j < |tags| && tags[j] == tag;
    assert !(i < j) && !(j < i);
  }

  /** Tagging the newest monitor by its fresh identifier tags it alone. */
  lemma AttachToNewest(prev: seq<Monitor>, newest: Monitor, ref: MonitorTag)
    requires newest.id !in IdsOf(prev)
    ensures AttachTag(prev + [newest], newest.id, ref) == prev + [newest.(tags := newest.tags + [ref])]
  {
    var ms := prev + [newest];
    forall k | 0 <= k < |prev| ensures ms[k].id != newest.id {
      assert ms[k] in prev;
    }
  }

  /** One ingress without annotations whose single rule declares `host`. */
  function SingleIngress(host: string): seq<IngressItem>
  {
    [IngressItem(None, [Rule(host)])]
  }

  /** Creating for one record yields the one monitor built for it. */
  lemma CreatedSingle(r: HostRecord, base: nat, ref: MonitorTag)
    ensures Created([r], base, ref) == [NewMonitor(r, base, ref)]
  {
  }

  /** Over no monitors, the diff for one unannotated ingress deletes
      nothing and asks for exactly one monitor. */
  lemma SingleIngressDiffOnEmpty(host: string, controllerTag: string, pruned: seq<Monitor>, created: seq<HostRecord>)
    requires pruned == PrunableOf(ByTag([], controllerTag), HostsOf(SingleIngress(host)))
    requires forall r :: r in created <==> r in HostsOf(SingleIngress(host)) && IsMissing(r, ByTag([], controllerTag))
    requires forall i, j :: 0 <= i < j < |created| ==> created[i] != created[j]
    ensures pruned == [] && created == [HostRecord(host, false, true)]
  {
    var record := HostRecord(host, false, true);
    UnannotatedRuleRecord(host);
    assert ByTag([], controllerTag) == [];
    OnlyElement(created, record);
    assert record in created;
  }

  /** One unannotated ingress declaring a host without '/' meets both
      conditions under which a cycle settles. */
  lemma SingleIngressSettles(host: string)
    requires '/' !in host
    ensures NoConflict(HostsOf(SingleIngress(host))) && NoSlash(HostsOf(SingleIngress(host)))
  {
    UnannotatedRuleRecord(host);
  }

  /** From a service with no tags and no monitors, a first cycle over one
      unannotated ingress declaring `host` deletes nothing, creates the
      controller's tag as tag 1 and monitor 1 for `host` over HTTPS carrying
      that tag, and leaves the service such that a second cycle over the same
      ingress deletes nothing and creates nothing. */
  method FirstCycleOnEmptyService(store: Store, host: string, controllerTag: string)
      returns (pruned: seq<Monitor>, created: seq<HostRecord>)
    requires store.Valid() && store.tags == [] && store.monitors == []
    requires store.nextTagId == 1 && store.nextMonitorId == 1
    requires '/' !in host
    modifies store
    ensures store.Valid()
    ensures pruned == [] && created == [HostRecord(host, false, true)]
    ensures store.tags == [Tag(1, controllerTag, DefaultTagColor)] && store.nextTagId == 2
    ensures store.monitors == [Monitor(1, MonitorUrl(host, true), host, [MonitorTag(1, controllerTag)])]
    ensures PrunableOf(ByTag(store.monitors, controllerTag), HostsOf(SingleIngress(host))) == []
    ensures MissingOf(ByTag(store.monitors, controllerTag), HostsOf(SingleIngress(host))) == {}
  {
    SingleIngressSettles(host);
    var tag;
    tag, pruned, created := RunCycle(store, SingleIngress(host), controllerTag);
    SingleIngressDiffOnEmpty(host, controllerTag, pruned, created);
    assert tag == Tag(1, controllerTag, DefaultTagColor);
    CreatedSingle(HostRecord(host, false, true), 1, MonitorTag(1, controllerTag));
    assert Surviving([], IdsOf(pruned)) == [];
  }

  /** Two cycles over one unannotated ingress declaring `host`, from a fresh
      service: the first creates one monitor and deletes none, the second
      changes nothing. */
  method TwoCyclesFromScratch(host: string, controllerTag: string) returns (
      firstPruned: seq<Monitor>, firstCreated: seq<HostRecord>,
      secondPruned: seq<Monitor>, secondCreated: seq<HostRecord>, inventory: seq<Monitor>)
    requires '/' !in host
    ensures firstPruned == [] && firstCreated == [HostRecord(host, false, true)]
    ensures inventory == [Monitor(1, MonitorUrl(host, true), host, [MonitorTag(1, controllerTag)])]
    ensures secondPruned == [] && secondCreated == []
  {
    var store := new Store();
    firstPruned, firstCreated := FirstCycleOnEmptyService(store, host, controllerTag);
    inventory := store.monitors;
    var tag;
    tag, secondPruned, secondCreated := RunCycle(store, SingleIngress(host), controllerTag);
    NoElementsIsEmpty(secondCreated);
  }
}
