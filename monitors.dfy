/**
  Monitors as the monitoring service lists them, and the tag scoping that
  keeps only the monitors carrying the controller's tag.
 */
module Monitors {
  import opened Seqs

  /** A tag attached to a monitor; only its name is compared. */
  datatype MonitorTag = MonitorTag(tagId: nat, name: string)

  /** A monitor: the fields the controller reads. */
  datatype Monitor = Monitor(id: nat, url: string, name: string, tags: seq<MonitorTag>)

  /** The number of entries of `tags` named `name`. */
  function MatchCount(tags: seq<MonitorTag>, name: string): nat
  {
    if |tags| == 0 then 0
    else MatchCount(tags[..|tags| - 1], name) + (if tags[|tags| - 1].name == name then 1 else 0)
  }

  /** Some tag of `m` is named `name`. */
  predicate HasTag(m: Monitor, name: string)
  {
    exists k :: 0 <= k < |m.tags| && m.tags[k].name == name
  }

  /** A tag list has a matching entry exactly when its match count is positive. */
  lemma {:induction false} MatchCountPositive(tags: seq<MonitorTag>, name: string)
    ensures MatchCount(tags, name) > 0 <==> exists k :: 0 <= k < |tags| && tags[k].name == name
  {
    if |tags| > 0 {
      var init := tags[..|tags| - 1];
      MatchCountPositive(init, name);
      if exists k :: 0 <= k < |init| && init[k].name == name {
        var k :| 0 <= k < |init| && init[k].name == name;
        assert tags[k] == init[k];
      }
      if exists k :: 0 <= k < |tags| && tags[k].name == name {
        var k :| 0 <= k < |tags| && tags[k].name == name;
        if k < |init| {
          assert init[k] == tags[k];
        }
      }
    }
  }

  /** `n` copies of `m`. */
  function Copies(m: Monitor, n: nat): (r: seq<Monitor>)
    ensures |r| == n && forall k :: 0 <= k < n ==> r[k] == m
  {
    seq(n, _ => m)
  }

  /** The monitors kept by tag scoping: each monitor of `ms`, in order,
      once for every tag entry of its that is named `name`. */
  function ByTag(ms: seq<Monitor>, name: string): seq<Monitor>
  {
    if |ms| == 0 then []
    else
      var last := ms[|ms| - 1];
      ByTag(ms[..|ms| - 1], name) + Copies(last, MatchCount(last.tags, name))
  }

  /** `filter_monitor_by_tag`: the monitors carrying the tag `tag`. */
  method FilterMonitorByTag(monitors: seq<Monitor>, tag: string) returns (filtered: seq<Monitor>)
    ensures filtered == ByTag(monitors, tag)
    ensures forall m :: m in filtered <==> m in monitors && HasTag(m, tag)
  {
    filtered := [];
    for i := 0 to |monitors|
      invariant filtered == ByTag(monitors[..i], tag)
    {
      assert monitors[..i + 1][..i] == monitors[..i];
      var monitor := monitors[i];
      if |monitor.tags| == 0 {
        continue;
      }
      for j := 0 to |monitor.tags|
        invariant filtered == ByTag(monitors[..i], tag) + Copies(monitor, MatchCount(monitor.tags[..j], tag))
      {
        assert monitor.tags[..j + 1][..j] == monitor.tags[..j];
        if monitor.tags[j].name == tag {
          filtered := filtered + [monitor];
        }
      }
      assert monitor.tags[..|monitor.tags|] == monitor.tags;
    }
    assert monitors[..|monitors|] == monitors;
    forall m ensures m in filtered <==> m in monitors && HasTag(m, tag) {
      ByTagMembership(monitors, tag, m);
    }
  }

  /** Tag scoping keeps exactly the monitors with a matching tag: monitors
      without tags, or with only other tags, never appear. */
  lemma {:induction false} ByTagMembership(ms: seq<Monitor>, name: string, m: Monitor)
    ensures m in ByTag(ms, name) <==> m in ms && HasTag(m, name)
  {
    if |ms| > 0 {
      var init, last := ms[..|ms| - 1], ms[|ms| - 1];
      ByTagMembership(init, name, m);
      MatchCountPositive(last.tags, name);
      assert ms == init + [last];
      if m == last && HasTag(m, name) {
        assert Copies(last, MatchCount(last.tags, name))[0] == m;
      }
    }
  }

  /** Tag scoping preserves order: the monitors of an earlier part of the
      input come before those of a later part. */
  lemma {:induction false} ByTagAppend(a: seq<Monitor>, b: seq<Monitor>, name: string)
    ensures ByTag(a + b, name) == ByTag(a, name) + ByTag(b, name)
    decreases |b|
  {
    if |b| == 0 {
      assert a + b == a;
    } else {
      var initB, last := b[..|b| - 1], b[|b| - 1];
      assert (a + b)[..|a + b| - 1] == a + initB;
      ByTagAppend(a, initB, name);
    }
  }

  lemma {:induction false} CopiesCount(x: Monitor, n: nat, m: Monitor)
    ensures multiset(Copies(x, n))[m] == if x == m then n else 0
  {
    if n > 0 {
      CopiesCount(x, n - 1, m);
      assert Copies(x, n) == Copies(x, n - 1) + [x];
    }
  }

  /** A monitor appears in the result once per matching tag entry, for each
      time it appears in the input. */
  lemma {:induction false} ByTagMultiplicity(ms: seq<Monitor>, name: string, m: Monitor)
    ensures multiset(ByTag(ms, name))[m] == multiset(ms)[m] * MatchCount(m.tags, name)
  {
    if |ms| > 0 {
      var init := ms[..|ms| - 1];
      ByTagMultiplicity(init, name, m);
      ByTagCountSnoc(ms, name, m);
      CountStep(multiset(ByTag(init, name))[m], multiset(init)[m], MatchCount(m.tags, name), ms[|ms| - 1] == m);
    }
  }

  /** The last monitor of a non-empty input adds its own copies, and only
      to its own count. */
  lemma ByTagCountSnoc(ms: seq<Monitor>, name: string, m: Monitor)
    requires |ms| > 0
    ensures var init, isM := ms[..|ms| - 1], ms[|ms| - 1] == m;
      && multiset(ByTag(ms, name))[m] == multiset(ByTag(init, name))[m] + (if isM then MatchCount(m.tags, name) else 0)
      && multiset(ms)[m] == multiset(init)[m] + (if isM then 1 else 0)
  {
    var init, last := ms[..|ms| - 1], ms[|ms| - 1];
    var cl := MatchCount(last.tags, name);
    assert ByTag(ms, name) == ByTag(init, name) + Copies(last, cl);
    assert ms == init + [last];
    CopiesCount(last, cl, m);
  }

  /** The arithmetic of one step of the multiplicity induction: one more
      copy of the monitor adds its match count once more. */
  lemma CountStep(before: nat, n: nat, c: nat, isM: bool)
    requires before == n * c
    ensures before + (if isM then c else 0) == (n + (if isM then 1 else 0)) * c
  {
    if isM {
      assert (n + 1) * c == n * c + c;
    }
  }

  /** The monitors of `ms` with a tag named `name`, each kept once, in order. */
  function WithTag(ms: seq<Monitor>, name: string): seq<Monitor>
  {
    Filter(ms, m => HasTag(m, name))
  }

  /** When no monitor carries the tag twice, tag scoping keeps each matching
      monitor once, in input order: a subsequence of its input. */
  lemma {:induction false} ByTagSingleMatch(ms: seq<Monitor>, name: string)
    requires forall k :: 0 <= k < |ms| ==> MatchCount(ms[k].tags, name) <= 1
    ensures ByTag(ms, name) == WithTag(ms, name)
    ensures IsSubsequence(ByTag(ms, name), ms)
  {
    if |ms| > 0 {
      var init, last := ms[..|ms| - 1], ms[|ms| - 1];
      ByTagSingleMatch(init, name);
      MatchCountPositive(last.tags, name);
      if HasTag(last, name) {
        assert Copies(last, MatchCount(last.tags, name)) == [last];
      }
    }
    FilterIsSubsequence(ms, m => HasTag(m, name));
  }
}
