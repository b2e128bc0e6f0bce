/**
  An in-memory stand-in for the monitoring service: its tags and monitors,
  and the calls the controller makes on them. Identifiers are handed out
  in increasing order, so they are never reused.
 */
module Kuma {
  import opened Wrappers
  import opened Seqs
  import opened Monitors

  /** A tag of the monitoring service. */
  datatype Tag = Tag(id: nat, name: string, color: string)

  /** The colour of a tag the controller creates. */
  const DefaultTagColor := "green"

  /** The position of the first tag named `name`, if any. */
  function FindTag(tags: seq<Tag>, name: string): (found: Option<nat>)
    ensures found.Some? ==> found.value < |tags| && tags[found.value].name == name
    ensures found.Some? ==> forall j :: 0 <= j < found.value ==> tags[j].name != name
    ensures found.None? ==> forall j :: 0 <= j < |tags| ==> tags[j].name != name
  {
    if |tags| == 0 then None
    else if tags[0].name == name then Some(0)
    else
      match FindTag(tags[1..], name)
      case None => None
      case Some(k) => Some(k + 1)
  }

  /** The tag with identifier `id`, if any. */
  function TagById(tags: seq<Tag>, id: nat): (found: Option<Tag>)
    ensures found.Some? ==> found.value in tags && found.value.id == id
    ensures found.None? ==> forall t :: t in tags ==> t.id != id
  {
    if |tags| == 0 then None
    else if tags[0].id == id then Some(tags[0])
    else TagById(tags[1..], id)
  }

  /** No two entries share an identifier. */
  ghost predicate UniqueTagIds(tags: seq<Tag>)
  {
    forall i, j :: 0 <= i < j < |tags| ==> tags[i].id != tags[j].id
  }

  /** No two monitors share an identifier. */
  ghost predicate UniqueIds(ms: seq<Monitor>)
  {
    forall i, j :: 0 <= i < j < |ms| ==> ms[i].id != ms[j].id
  }

  /** Under unique identifiers, an identifier names one monitor. */
  lemma SameIdSameMonitor(ms: seq<Monitor>, a: Monitor, b: Monitor)
    requires UniqueIds(ms) && a in ms && b in ms && a.id == b.id
    ensures a == b
  {
    var i :| 0 <= i < |ms| && ms[i] == a;
    var j :| 0 <= j < |ms| && ms[j] == b;
    assert !(i < j) && !(j < i);
  }

  /** The identifiers of `ms`. */
  function IdsOf(ms: seq<Monitor>): set<nat>
  {
    set m | m in ms :: m.id
  }

  /** The monitors of `ms` whose identifier is not in `ids`, in order. */
  function Surviving(ms: seq<Monitor>, ids: set<nat>): seq<Monitor>
  {
    Filter(ms, (m: Monitor) => m.id !in ids)
  }

  /** Deleting by one set of identifiers and then another deletes by both. */
  lemma SurvivingTwice(ms: seq<Monitor>, first: set<nat>, second: set<nat>)
    ensures Surviving(Surviving(ms, first), second) == Surviving(ms, first + second)
  {
    var both := first + second;
    FilterTwice(ms, (m: Monitor) => m.id !in first, (m: Monitor) => m.id !in second, (m: Monitor) => m.id !in both);
  }

  /** `ms` with `ref` appended to the tags of the monitors identified by `id`. */
  function AttachTag(ms: seq<Monitor>, id: nat, ref: MonitorTag): (r: seq<Monitor>)
    ensures |r| == |ms|
    ensures forall k :: 0 <= k < |ms| && ms[k].id != id ==> r[k] == ms[k]
    ensures forall k :: 0 <= k < |ms| && ms[k].id == id ==> r[k] == ms[k].(tags := ms[k].tags + [ref])
  {
    seq(|ms|, k requires 0 <= k < |ms| => if ms[k].id == id then ms[k].(tags := ms[k].tags + [ref]) else ms[k])
  }

  class Store {
    var tags: seq<Tag>
    var monitors: seq<Monitor>
    var nextTagId: nat
    var nextMonitorId: nat

    /** Identifiers are unique and below the next one to be handed out. */
    ghost predicate Valid()
      reads this
    {
      && (forall k :: 0 <= k < |tags| ==> tags[k].id < nextTagId)
      && UniqueTagIds(tags)
      && (forall k :: 0 <= k < |monitors| ==> monitors[k].id < nextMonitorId)
      && UniqueIds(monitors)
    }

    /** A service with no tags and no monitors. */
    constructor ()
      ensures Valid()
      ensures tags == [] && monitors == []
      ensures nextTagId == 1 && nextMonitorId == 1
    {
      tags, monitors := [], [];
      nextTagId, nextMonitorId := 1, 1;
    }

    /** `add_tag`: creates a tag and returns it. */
    method AddTag(name: string, color: string) returns (tag: Tag)
      requires Valid()
      modifies this
      ensures Valid()
      ensures tag == Tag(old(nextTagId), name, color)
      ensures tags == old(tags) + [tag] && nextTagId == old(nextTagId) + 1
      ensures monitors == old(monitors) && nextMonitorId == old(nextMonitorId)
    {
      tag := Tag(nextTagId, name, color);
      tags := tags + [tag];
      nextTagId := nextTagId + 1;
    }

    /** `get_or_create_tag`: the first tag named `name`, leaving the service
        unchanged; when there is none, one new tag of that name in the
        default colour. */
    method GetOrCreateTag(name: string) returns (tag: Tag)
      requires Valid()
      modifies this
      ensures Valid()
      ensures tag.name == name && tag in tags
      ensures monitors == old(monitors) && nextMonitorId == old(nextMonitorId)
      ensures FindTag(old(tags), name).Some? ==>
                && tag == old(tags)[FindTag(old(tags), name).value]
                && tags == old(tags) && nextTagId == old(nextTagId)
      ensures FindTag(old(tags), name).None? ==>
                && tag == Tag(old(nextTagId), name, DefaultTagColor)
                && tags == old(tags) + [tag] && nextTagId == old(nextTagId) + 1
    {
      var existing := tags;
      for i := 0 to |existing|
        invariant forall j :: 0 <= j < i ==> existing[j].name != name
      {
        if existing[i].name == name {
          return existing[i];
        }
      }
      tag := AddTag(name, DefaultTagColor);
    }

    /** `add_monitor`: creates an untagged monitor and returns its identifier. */
    method AddMonitor(url: string, name: string) returns (id: nat)
      requires Valid()
      modifies this
      ensures Valid()
      ensures id == old(nextMonitorId) && id !in IdsOf(old(monitors))
      ensures monitors == old(monitors) + [Monitor(id, url, name, [])]
      ensures nextMonitorId == old(nextMonitorId) + 1
      ensures tags == old(tags) && nextTagId == old(nextTagId)
    {
      id := nextMonitorId;
      monitors := monitors + [Monitor(id, url, name, [])];
      nextMonitorId := nextMonitorId + 1;
    }

    /** `add_monitor_tag`: attaches an existing tag to an existing monitor.
        When either is unknown the service refuses (`ok` is false) and
        nothing changes. */
    method AddMonitorTag(tagId: nat, monitorId: nat) returns (ok: bool)
      requires Valid()
      modifies this
      ensures Valid()
      ensures ok <==> TagById(tags, tagId).Some? && monitorId in IdsOf(old(monitors))
      ensures ok ==> monitors == AttachTag(old(monitors), monitorId, MonitorTag(tagId, TagById(tags, tagId).value.name))
      ensures !ok ==> monitors == old(monitors)
      ensures tags == old(tags) && nextTagId == old(nextTagId) && nextMonitorId == old(nextMonitorId)
    {
      var tag := TagById(tags, tagId);
      ok := tag.Some? && monitorId in IdsOf(monitors);
      if ok {
        monitors := AttachTag(monitors, monitorId, MonitorTag(tagId, tag.value.name));
      }
    }

    /** `delete_monitor`: removes the monitor identified by `id`; an unknown
        identifier changes nothing. */
    method DeleteMonitor(id: nat)
      requires Valid()
      modifies this
      ensures Valid()
      ensures monitors == Surviving(old(monitors), {id})
      ensures id !in IdsOf(old(monitors)) ==> monitors == old(monitors)
      ensures tags == old(tags) && nextTagId == old(nextTagId) && nextMonitorId == old(nextMonitorId)
    {
      ghost var before := monitors;
      monitors := Surviving(monitors, {id});
      SurvivingKeepsIds(before, {id}, nextMonitorId);
      if id !in IdsOf(before) {
        SurvivingNone(before, {id});
      }
    }
  }

  /** Deleting keeps identifiers unique and below `next`. */
  lemma SurvivingKeepsIds(ms: seq<Monitor>, ids: set<nat>, next: nat)
    requires UniqueIds(ms) && forall k :: 0 <= k < |ms| ==> ms[k].id < next
    ensures UniqueIds(Surviving(ms, ids))
    ensures forall k :: 0 <= k < |Surviving(ms, ids)| ==> Surviving(ms, ids)[k].id < next
  {
    var kept := Surviving(ms, ids);
    FilterIsSubsequence(ms, (m: Monitor) => m.id !in ids);
    var idx := FilterIndices(ms, (m: Monitor) => m.id !in ids);
    assert forall k :: 0 <= k < |kept| ==> kept[k] == ms[idx[k]];
  }

  /** Deleting identifiers no monitor carries changes nothing. */
  lemma {:induction false} SurvivingNone(ms: seq<Monitor>, ids: set<nat>)
    requires forall m :: m in ms ==> m.id !in ids
    ensures Surviving(ms, ids) == ms
  {
    if |ms| > 0 {
      var init := ms[..|ms| - 1];
      SurvivingNone(init, ids);
      assert ms == init + [ms[|ms| - 1]];
    }
  }
}
