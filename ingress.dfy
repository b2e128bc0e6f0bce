/**
  The ingress normaliser: each ingress of the cluster contributes one host
  record per routing rule, carrying the ignore and secure flags read from
  the ingress's annotations.
 */
module Ingress {
  import opened Wrappers

  const IgnoreAnnotation := "uptime-kuma-controller.ignore"
  const SecureAnnotation := "uptime-kuma-controller.secure"

  /** One routing rule of an ingress; only its host name is read. */
  datatype Rule = Rule(host: string)

  /** An ingress as the cluster lists it. `annotations` is None when the
      ingress declares no annotations at all: the cluster client then hands
      over no map, rather than an empty one. */
  datatype IngressItem = IngressItem(annotations: Option<map<string, string>>, rules: seq<Rule>)

  /** One declared host name with the policy of the ingress declaring it.
      Records are equal exactly when all three fields are. */
  datatype HostRecord = HostRecord(host: string, ignore: bool, secure: bool)

  /** The two flags read from an ingress's annotations. */
  datatype Flags = Flags(ignore: bool, secure: bool)

  /** `annotations.get(key)`. */
  function Get(annotations: map<string, string>, key: string): (v: Option<string>)
    ensures v.Some? <==> key in annotations
    ensures v.Some? ==> v.value == annotations[key]
  {
    if key in annotations then Some(annotations[key]) else None
  }

  /** Python's `str` of an optional string: None prints as "None". */
  function PyStr(v: Option<string>): (s: string)
    ensures s == "true" <==> v == Some("true")
  {
    assert "None" != "true" by { assert "None"[0] != "true"[0]; }
    match v
    case None => "None"
    case Some(s) => s
  }

  /** The ignore flag: set only by the exact value "true". */
  function IgnoreFlag(annotations: map<string, string>): (ignore: bool)
    ensures ignore <==> IgnoreAnnotation in annotations && annotations[IgnoreAnnotation] == "true"
  {
    PyStr(Get(annotations, IgnoreAnnotation)) == "true"
  }

  /** The secure flag: set when the annotation is absent, and otherwise only
      by the exact value "true". */
  function SecureFlag(annotations: map<string, string>): (secure: bool)
    ensures secure <==> SecureAnnotation !in annotations || annotations[SecureAnnotation] == "true"
  {
    match Get(annotations, SecureAnnotation)
    case None => true
    case Some(v) => v == "true"
  }

  /** The flags as the source reads them: `.get` on a missing annotation map
      raises, which nothing in the normaliser catches. None stands for that
      raised error. */
  function FlagsAsWritten(annotations: Option<map<string, string>>): (flags: Option<Flags>)
    ensures flags.None? <==> annotations.None?
    ensures annotations.Some? ==> flags.value.ignore == IgnoreFlag(annotations.value)
    ensures annotations.Some? ==> flags.value.secure == SecureFlag(annotations.value)
  {
    match annotations
    case None => None
    case Some(a) => Some(Flags(IgnoreFlag(a), SecureFlag(a)))
  }

  /** The flags of an ingress, reading a missing annotation map as an empty
      one, so that an ingress without annotations gets the defaults. */
  function FlagsOf(item: IngressItem): (flags: Flags)
    ensures item.annotations.None? ==> flags == Flags(false, true)
    ensures item.annotations.Some? ==> Some(flags) == FlagsAsWritten(item.annotations)
  {
    var annotations := if item.annotations.Some? then item.annotations.value else map[];
    Flags(IgnoreFlag(annotations), SecureFlag(annotations))
  }

  /** An ingress without annotations stops the normaliser as written, where
      the defaults (not ignored, secure) were meant. */
  lemma UnannotatedIngressRaises(rules: seq<Rule>)
    ensures FlagsAsWritten(IngressItem(None, rules).annotations) == None
    ensures FlagsOf(IngressItem(None, rules)) == Flags(false, true)
  {
  }

  /** The record that one rule of `item` contributes. */
  function RecordOf(item: IngressItem, rule: Rule): (r: HostRecord)
    ensures r.host == rule.host
    ensures var a := item.annotations;
      r.ignore <==> a.Some? && IgnoreAnnotation in a.value && a.value[IgnoreAnnotation] == "true"
    ensures var a := item.annotations;
      r.secure <==> a.None? || SecureAnnotation !in a.value || a.value[SecureAnnotation] == "true"
  {
    var flags := FlagsOf(item);
    HostRecord(rule.host, flags.ignore, flags.secure)
  }

  /** The records of the first `n` rules of `item`. */
  ghost function RuleRecords(item: IngressItem, n: nat): set<HostRecord>
    requires n <= |item.rules|
  {
    set k | 0 <= k < n :: RecordOf(item, item.rules[k])
  }

  /** The records of all rules of all of `items`, built ingress by ingress. */
  ghost function HostsOf(items: seq<IngressItem>): set<HostRecord>
  {
    if |items| == 0 then {}
    else
      var last := items[|items| - 1];
      HostsOf(items[..|items| - 1]) + RuleRecords(last, |last.rules|)
  }

  /** Some rule of some ingress in `items` yields `r`. */
  ghost predicate Declares(items: seq<IngressItem>, r: HostRecord)
  {
    exists i, j :: 0 <= i < |items| && 0 <= j < |items[i].rules| && r == RecordOf(items[i], items[i].rules[j])
  }

  /** The records are exactly those some rule of some ingress yields. */
  lemma {:induction false} HostsOfDeclared(items: seq<IngressItem>, r: HostRecord)
    ensures r in HostsOf(items) <==> Declares(items, r)
  {
    if |items| > 0 {
      HostsOfDeclared(items[..|items| - 1], r);
      DeclaresSnoc(items, r);
    }
  }

  /** A record is declared by a non-empty list of ingresses exactly when the
      earlier ingresses or the last one declare it. */
  lemma DeclaresSnoc(items: seq<IngressItem>, r: HostRecord)
    requires |items| > 0
    ensures var n := |items| - 1;
      Declares(items, r) <==> Declares(items[..n], r) || r in RuleRecords(items[n], |items[n].rules|)
  {
    var n := |items| - 1;
    if r in RuleRecords(items[n], |items[n].rules|) {
      LastDeclares(items, r);
    }
    if Declares(items[..n], r) {
      EarlierDeclares(items, r);
    }
    if Declares(items, r) {
      DeclaresSplit(items, r);
    }
  }

  /** A record of the last ingress is declared by the whole list. */
  lemma LastDeclares(items: seq<IngressItem>, r: HostRecord)
    requires |items| > 0 && r in RuleRecords(items[|items| - 1], |items[|items| - 1].rules|)
    ensures Declares(items, r)
  {
    var n := |items| - 1;
    var j :| 0 <= j < |items[n].rules| && r == RecordOf(items[n], items[n].rules[j]);
  }

  /** A record declared by the earlier ingresses is declared by the whole list. */
  lemma EarlierDeclares(items: seq<IngressItem>, r: HostRecord)
    requires |items| > 0 && Declares(items[..|items| - 1], r)
    ensures Declares(items, r)
  {
    var init := items[..|items| - 1];
    var i, j :| 0 <= i < |init| && 0 <= j < |init[i].rules| && r == RecordOf(init[i], init[i].rules[j]);
    assert items[i] == init[i];
  }

  /** A record declared by the whole list comes from the earlier ingresses
      or from the last one. */
  lemma DeclaresSplit(items: seq<IngressItem>, r: HostRecord)
    requires |items| > 0 && Declares(items, r)
    ensures var n := |items| - 1;
      Declares(items[..n], r) || r in RuleRecords(items[n], |items[n].rules|)
  {
    var n := |items| - 1;
    var i, j :| 0 <= i < |items| && 0 <= j < |items[i].rules| && r == RecordOf(items[i], items[i].rules[j]);
    if i < n {
      assert items[..n][i] == items[i];
    }
  }

  /** `get_ingress_hosts`: the set of records of every rule of every ingress. */
  method GetIngressHosts(items: seq<IngressItem>) returns (hosts: set<HostRecord>)
    ensures hosts == HostsOf(items)
    ensures forall r :: r in hosts <==> Declares(items, r)
  {
    hosts := {};
    for i := 0 to |items|
      invariant hosts == HostsOf(items[..i])
    {
      var item := items[i];
      var flags := FlagsOf(item);
      for j := 0 to |item.rules|
        invariant hosts == HostsOf(items[..i]) + RuleRecords(item, j)
      {
        var record := HostRecord(item.rules[j].host, flags.ignore, flags.secure);
        assert RuleRecords(item, j + 1) == RuleRecords(item, j) + {record};
        hosts := hosts + {record};
      }
      assert items[..i + 1][..i] == items[..i];
    }
    assert items[..|items|] == items;
    forall r ensures r in hosts <==> Declares(items, r) {
      HostsOfDeclared(items, r);
    }
  }

  /** Annotation values are compared exactly: any other spelling of "true"
      clears the flag, and an explicit "false" is not needed to clear
      `secure`. */
  lemma AnnotationExamples()
    ensures IgnoreFlag(map[IgnoreAnnotation := "true"])
    ensures !IgnoreFlag(map[IgnoreAnnotation := "TRUE"]) && !IgnoreFlag(map[IgnoreAnnotation := "yes"])
    ensures !IgnoreFlag(map[])
    ensures SecureFlag(map[]) && SecureFlag(map[SecureAnnotation := "true"])
    ensures !SecureFlag(map[SecureAnnotation := "false"]) && !SecureFlag(map[SecureAnnotation := "maybe"])
  {
    assert "TRUE"[0] != "true"[0];
    assert "yes" != "true";
    assert "false" != "true";
    assert "maybe" != "true";
  }

  /** An ingress with one rule and no annotations yields one record, not
      ignored and secure. */
  lemma UnannotatedRuleRecord(host: string)
    ensures HostsOf([IngressItem(None, [Rule(host)])]) == {HostRecord(host, false, true)}
  {
    var items := [IngressItem(None, [Rule(host)])];
    var record := HostRecord(host, false, true);
    assert items[..0] == [];
    assert RecordOf(items[0], items[0].rules[0]) == record;
    assert RuleRecords(items[0], 1) == {record};
  }

  /** One host declared by two ingresses with different flags yields two
      records: records are told apart by all three fields. */
  lemma ConflictingDeclarationsExample()
    ensures
      var items := [IngressItem(Some(map[IgnoreAnnotation := "true"]), [Rule("a.example.com")]),
                    IngressItem(None, [Rule("a.example.com")])];
      HostsOf(items) == {HostRecord("a.example.com", true, true), HostRecord("a.example.com", false, true)}
  {
    var items := [IngressItem(Some(map[IgnoreAnnotation := "true"]), [Rule("a.example.com")]),
                  IngressItem(None, [Rule("a.example.com")])];
    assert items[..1][..0] == [];
    assert items[..1] == [items[0]];
    var ignored, watched := HostRecord("a.example.com", true, true), HostRecord("a.example.com", false, true);
    assert RecordOf(items[0], items[0].rules[0]) == ignored;
    assert RecordOf(items[1], items[1].rules[0]) == watched;
    assert RuleRecords(items[0], 1) == {ignored};
    assert RuleRecords(items[1], 1) == {watched};
    assert HostsOf(items[..1]) == {ignored};
    assert HostsOf(items) == HostsOf(items[..1]) + RuleRecords(items[1], 1);
  }
}
