# uptime-kuma-controller, reconciliation core

The controller keeps the HTTP monitors of an Uptime Kuma service in step with
the hosts that a Kubernetes cluster exposes through its ingresses. Each cycle
does six things:

- It ensures that the controller's tag exists.
- It reads the monitors that carry that tag.
- It turns every routing rule of every ingress into a host record
  `(host, ignore, secure)`. The flags come from the ingress's
  `uptime-kuma-controller.ignore` and `uptime-kuma-controller.secure`
  annotations.
- It deletes the tagged monitors whose host is undeclared or declared ignored.
- It creates a monitor, named after the host and with URL
  `http(s)://<host>`, for each non-ignored record that no tagged monitor
  stands for.
- It tags each monitor it creates.

A monitor "stands for" the canonical host of its URL: the last
'/'-separated segment.

The model is split into these modules:

- `Urls` (urls.dfy): the canonical host of a URL and the URL of a new monitor.
- `Ingress` (ingress.dfy): reading the annotations, and the set of host records.
- `Monitors` (monitors.dfy): scoping monitors to the controller's tag.
- `Diff` (diff.dfy): the prunable monitors, the missing records, and when both
  are empty.
- `Kuma` (store.dfy): an in-memory Uptime Kuma service as a class. Its
  `tags` and `monitors` are fields that its methods reassign. The methods
  match the client calls the cycle makes: `get_tags`/`add_tag` (together,
  `get_or_create_tag`), `add_monitor`, `add_monitor_tag` and
  `delete_monitor`.
- `Cycle` (cycle.dfy): one reconciliation cycle against that service, and
  its convergence.
- `Seqs` (seqs.dfy) and `Wrappers` (wrappers.dfy): generic filtering and
  subsequence facts, and `Option`.

The central result is `Cycle.RunCycle`. It holds when no host is declared
both ignored and not ignored, and no declared host contains a '/'. Under those
two conditions, after one cycle the tagged monitors stand for exactly the
watched hosts, and a second cycle over the same ingresses deletes nothing and
creates nothing. `Diff.ConflictingHostNeverSettles` shows that the first
condition cannot be dropped. `Diff.SlashedHostNeverSettles` shows the same
for the second: a watched host containing '/' is missing whatever the
monitors, so every cycle creates a monitor for it again.

The model follows the code, with one exception: how the annotations are
read. At main.py:107 and 110 the code calls `.get` on an ingress's annotation
map without checking it, and that map is None for an ingress that has no
annotations, so the code as written raises there and the cycle stops at
main.py:77 before any diff. `Ingress.FlagsAsWritten` models that failure
(see "## Findings"). The rest of the model is built on the corrected reading
`Ingress.FlagsOf`, which treats a missing map as an empty one: the
normaliser (`Ingress.RecordOf`, `Ingress.HostsOf`, `Ingress.GetIngressHosts`)
and, through it, every cycle in `Cycle`. For an ingress that does carry
annotations the two readings agree, so those members describe the code as
written whenever every ingress has annotations.

Two behaviours of the code may differ from what a reader expects:

- One might expect the canonical host to drop the scheme first and then split
  on '/'. The code splits first and then removes "https://" and "http://"
  from the last segment. Those removals can never match, because that segment
  has no '/'. `Urls.StripUrlComponents` keeps the code's order and proves that
  the removals change nothing.
- One might expect the tag filter to keep each tagged monitor once. The code
  appends a monitor once for every tag entry of that name. `Monitors.ByTag`
  counts those copies (`Monitors.ByTagMultiplicity`). It equals an
  order-preserving filter only when no monitor has the tag twice
  (`Monitors.ByTagSingleMatch`).

## Model

| member | source | states |
|---|---|---|
| Urls.Replace | main.py:137 | Python's `str.replace`: replacing a pattern by itself changes nothing, and a replacement no longer than the pattern never lengthens the text. |
| Urls.MonitorUrlShape | main.py:92 | The URL of a new monitor (`Urls.MonitorUrl`) is the host preceded by "https://" exactly when secure and by "http://" otherwise, so a '/' comes right before the host. |
| Urls.LastSegment | main.py:137 | `url.split("/")[-1]`: a suffix of the input without '/'. Unless it is the whole input, a '/' precedes it. |
| Urls.ReplaceWithoutOccurrence | main.py:137 | `str.replace` with a pattern containing a character the text lacks returns the text unchanged. |
| Urls.StripUrlComponents | main.py:136-137 | The canonical host is the last segment itself: a suffix of the URL with no '/', preceded by a '/' when shorter than the URL. It is the whole URL when the URL has no '/'. |
| Urls.StripRecoversHost | main.py:92 | The canonical host of a URL built as at line 92 is the host it was built from, for either scheme, whenever the host has no '/'. |
| Urls.SlashedHostIsNotRecovered | main.py:92 | A host containing '/' is not read back from the URL built for it. |
| Urls.StripHttpsExample | main.py:136-137 | "https://a.example.com" has canonical host "a.example.com". |
| Urls.StripHttpExample | main.py:136-137 | "http://a.example.com" has canonical host "a.example.com". |
| Urls.StripPathExample | main.py:136-137 | "https://a.example.com/health" has canonical host "health", the last path segment. |
| Ingress.IgnoreFlag | main.py:106-109 | Ignore is set exactly when the ignore annotation is present with the value "true". |
| Ingress.SecureFlag | main.py:110-114 | Secure is set exactly when the secure annotation is absent or has the value "true". |
| Ingress.FlagsAsWritten | main.py:105-114 | As written, reading the flags of an ingress without an annotation map fails. With a map, the flags are the two annotation flags. |
| Ingress.UnannotatedIngressRaises | main.py:107 | An ingress without annotations makes the code as written fail, whereas the corrected reading gives not ignored and secure. |
| Ingress.FlagsOf | main.py:105-114 | Corrected flags: a missing annotation map gives (not ignored, secure). Otherwise they agree with the as-written reading. |
| Ingress.HostsOfDeclared | main.py:102-128 | A record is in the host set exactly when some rule of some ingress yields it with that ingress's flags (corrected reading for an unannotated ingress). |
| Ingress.RecordOf | main.py:118-122 | The record of a rule has the rule's host. It is ignored exactly when the ingress has annotations with the ignore annotation set to "true". It is secure exactly when the ingress has no annotations, lacks the secure annotation, or sets it to "true" (corrected reading when there are no annotations). |
| Ingress.Get | main.py:107 | `dict.get`: a value exactly when the key is present, and then the stored value. |
| Ingress.PyStr | main.py:107 | `str(...)` of the looked-up value equals "true" exactly when the value is the string "true"; a missing value prints as "None", which is not "true". |
| Ingress.GetIngressHosts | main.py:102-128 | The nested loop over ingresses and rules builds exactly the set of records the rules declare. Built on the corrected flag reading: as written, an unannotated ingress makes the loop raise at line 107. |
| Ingress.AnnotationExamples | main.py:106-114 | Ignore is set only by the exact value "true": "TRUE", "yes" and absence give false. Secure is set by absence or "true": "false" and "maybe" give false. |
| Ingress.UnannotatedRuleRecord | main.py:115-123 | Under the corrected flag reading, one unannotated ingress with one rule yields the single record (host, not ignored, secure). As written, that ingress raises at line 107. |
| Ingress.ConflictingDeclarationsExample | main.py:10-17 | Records compare by all three fields, so one host declared ignored by one ingress and not by another yields two records. |
| Monitors.FilterMonitorByTag | main.py:140-150 | The loop returns `ByTag`: each monitor, in input order, repeated once per tag entry with the controller tag's name. A monitor is in the result exactly when it is in the input and has such a tag. |
| Monitors.ByTagMembership | main.py:144-149 | Membership: a monitor appears exactly when it is in the input and some tag of it has the name. Untagged monitors never appear. |
| Monitors.ByTagAppend | main.py:144-150 | Order: the result for `a + b` is the result for `a` followed by the result for `b`. |
| Monitors.ByTagMultiplicity | main.py:147-149 | Each monitor occurs (occurrences in input) × (its matching tag entries) times. |
| Monitors.ByTagSingleMatch | main.py:140-150 | When no monitor has the tag twice, the result is the order-preserving filter of tagged monitors, a subsequence of the input. |
| Diff.HostOf | main.py:160 | The host a monitor stands for is exactly the last '/'-separated segment of its URL, that is, the suffix with no '/' that is preceded by '/' or is the whole URL. |
| Diff.KnownHosts | main.py:157 | The declared host names are exactly the watched hosts together with the ignored hosts. |
| Diff.WatchedIgnoredOverlap | main.py:158 | The ignored host names (`Diff.IgnoredHosts`) overlap the watched ones exactly when one record declares a host ignored and another declares it not ignored. |
| Diff.MissingByMonitoredHosts | main.py:172-176 | Over the list of monitored hosts (`Diff.MonitoredHosts`): a record needs a monitor exactly when it is not ignored and its host is not in that list. |
| Diff.PrunableByHostSets | main.py:157-164 | A monitor is prunable exactly when its canonical host is not among the declared hosts or is among the ignored hosts. |
| Diff.FilterPrunableMonitors | main.py:153-165 | The loop returns exactly the prunable monitors, in input order, as a subsequence of the input. A monitor is in the result exactly when it is in the input and prunable. |
| Diff.FilterMissingMonitors | main.py:168-178 | A record is in the result exactly when it is declared, not ignored, and no monitor's canonical host is its host. No record appears twice. |
| Diff.SlashedHostNeverSettles | main.py:168-178 | A record that is not ignored and whose host contains '/' is missing for every list of monitors, so the monitors are never consistent with the declared hosts. |
| Diff.ConsistentDiffIsEmpty | main.py:153-178 | If the monitors stand for exactly the watched hosts and for no ignored host, nothing is prunable and nothing is missing. |
| Diff.EmptyDiffIsConsistent | main.py:153-178 | If nothing is prunable and nothing is missing, the monitors stand for exactly the watched hosts and for no ignored host. |
| Diff.DiffEmptyIffConsistent | main.py:153-178 | Both directions together: the diff is empty exactly when the monitors match the declared hosts. |
| Diff.ConflictingHostNeverSettles | main.py:153-178 | For a host declared both ignored and not ignored, every set of monitors leaves something to prune or to create. |
| Kuma.FindTag | main.py:41-43 | The index of the first tag with the name: every earlier tag has another name. When there is no match, no tag has the name. |
| Kuma.Store.GetOrCreateTag | main.py:39-44 | If some tag has the name, the first one is returned and the service is unchanged, tag counter included. Otherwise exactly one tag of that name, colour "green" and the next identifier is appended and returned, and the tag counter advances by one. Monitors are unchanged either way. |
| Kuma.Store.AddTag | main.py:44 | Appends and returns one tag with the next identifier. Monitors are unchanged. |
| Kuma.Store.AddMonitor | main.py:90-94 | Appends one untagged monitor with a new identifier and returns that identifier. Tags are unchanged. |
| Kuma.Store.AddMonitorTag | main.py:95-97 | Succeeds exactly when both the tag and the monitor exist. On success it appends the tag reference to that monitor only. On failure nothing changes. |
| Kuma.Store.DeleteMonitor | main.py:83-86 | Removes the monitors with that identifier and keeps the rest in order. An unknown identifier changes nothing. |
| Kuma.SurvivingTwice | main.py:81-86 | Deleting by one set of identifiers and then by another is deleting by their union. |
| Kuma.SurvivingNone | main.py:83-86 | Deleting identifiers that no monitor has leaves the monitors unchanged. |
| Kuma.SurvivingKeepsIds | main.py:83-86 | Deleting keeps monitor identifiers unique and below the next identifier. |
| Cycle.DeletePrunable | main.py:81-86 | After the delete loop, the monitors are the old ones minus those whose identifier a prunable monitor has, in order. Tags are unchanged. |
| Cycle.CreateOne | main.py:89-97 | Adding a monitor for a record and tagging it appends exactly one monitor: the next identifier, URL `http(s)://host`, name host, carrying the controller tag. |
| Cycle.CreateMissing | main.py:88-97 | The create loop appends one such monitor per missing record, in order, with consecutive identifiers; the monitor counter advances by the number of records, and tags are unchanged. |
| Cycle.Sync | main.py:81-97 | The new inventory is the survivors of the deletion followed by the created monitors; tags and the tag counter are unchanged, and the monitor counter advances by the number of missing records. |
| Cycle.SyncedMonitorsAreWatched | main.py:81-97 | Under the two host conditions, every tagged monitor after the sync stands for a watched host, never an ignored one. |
| Cycle.WatchedHostsAreSynced | main.py:81-97 | Under the two host conditions, every watched host has a tagged monitor after the sync. |
| Cycle.SyncedInventoryIsConsistent | main.py:75-97 | Under the two host conditions, the tagged monitors after the sync match the declared hosts. |
| Cycle.UntaggedMonitorIsKept | main.py:76-86 | With unique monitor identifiers, a monitor without the controller tag survives the deletions of a cycle: only tagged monitors are ever deleted. |
| Cycle.RunCycle | main.py:75-97 | One cycle, built on the corrected flag reading (as written, an unannotated ingress raises at line 107 before any diff): the tag is the first existing one, leaving the tags unchanged, or a new green one with the next tag identifier. The monitor counter advances by the number of missing records. Prunable is the prune filter of the old tagged monitors. Missing holds exactly the missing records, once each. The new inventory is survivors followed by created monitors. Under the two host conditions the result is consistent and the next diff is empty. |
| Cycle.SecondCycleIsNoOp | main.py:75-97 | From any service, under the two host conditions: the first cycle leaves tagged monitors that match the declared hosts, and a second cycle over the same ingresses deletes nothing, creates nothing, and leaves tags and monitors as they were. Built on the corrected flag reading. |
| Cycle.SingleIngressSettles | main.py:102-128 | Under the corrected flag reading, one unannotated ingress declaring a host without '/' meets both host conditions. |
| Cycle.SingleIngressDiffOnEmpty | main.py:153-178 | Under the corrected flag reading, over no monitors, one unannotated ingress gives nothing to prune and exactly that host's record to create. |
| Cycle.FirstCycleOnEmptyService | main.py:75-97 | On a service with no tags and no monitors, one cycle for one unannotated ingress deletes nothing. It creates tag 1, named after the controller tag and green, so that the tag list is exactly that tag and the next tag identifier is 2. It creates monitor 1 (`https://host`, named host, tagged), after which the diff is empty. Built on the corrected flag reading: as written, this ingress raises at line 107. |
| Cycle.TwoCyclesFromScratch | main.py:75-97 | The end-to-end scenario: the first cycle creates exactly one monitor and deletes none, and the second cycle creates and deletes nothing. Built on the corrected flag reading: as written, the unannotated ingress of this scenario raises at line 107 and neither cycle gets past line 77. |

## Left out

- Environment configuration and the development defaults (main.py:48-69) are not modelled. The controller tag is a parameter.
- Kubernetes client setup and Uptime Kuma login and disconnect (main.py:20-36, 71-74, 98) are left out as I/O. The cluster's ingress list is a parameter, and the service is the in-memory `Kuma.Store`.
- The outer `while True` loop with its sleeps (main.py:181-186) is not modelled. Clocks are outside the model. Repeated cycles are modelled by calling `Cycle.RunCycle` again (`Cycle.SecondCycleIsNoOp`, `Cycle.TwoCyclesFromScratch`).
- Every `print` is left out, because output has no effect on the state.
- The `try`/`except` around `hosts.add` (main.py:116-126) is not modelled. Adding a record to a set cannot fail here, since records are compared structurally.
- The `__hash__` of the record (main.py:16-17) is not modelled. Set membership in Python is decided by the `__eq__` that `@dataclass` (main.py:10) generates over host, ignore and secure, and the hash only has to agree with it. The model uses structural equality on the three fields, which is that `__eq__`.
- `Kuma.Store.DeleteMonitor`: errors that the service raises on delete and that the code swallows (main.py:83-86) are modelled as "deleting an unknown identifier changes nothing". Other service errors are not modelled.
- `Cycle.CreateOne`: network failures of `add_monitor` and `add_monitor_tag` are not modelled. `Kuma.Store.AddMonitorTag` refuses an unknown tag or monitor. The cycle never meets that refusal, because it always attaches the tag it just found or created to the monitor it just added, and `Cycle.CreateOne` proves the call succeeds. What is left out is the source's behaviour on a refusal: the exception at main.py:95-97 is not caught and ends the cycle.
- A rule without a host (`rule.host` None) is not modelled, because hosts are strings here. The source still adds a record for it at main.py:117-123. No canonical host, which is a string, equals None, so at main.py:176 that record is missing in every cycle unless it is ignored.
- An ingress without rules (`spec.rules` None) is not modelled, because rules are a list here. In the source, `for rule in None` at main.py:115 raises outside the `try`, which ends the cycle.
- `Diff.FilterMissingMonitors`: the order of the missing records is left unspecified, as Python's set iteration order is. The contract states membership and no repeats only.
- Monitor and tag dictionaries carry more fields than the model. Only `id`, `url`, `name` and `tags`, and tag `id`, `name` and `color`, are kept.
- The monitor type (`MonitorType.HTTP`) passed at main.py:91 is not modelled, because every created monitor has that type.
- `get_monitors` (main.py:131-133) appears only as its filter. Fetching the monitors is the read of `store.monitors`.

## Findings

| source | as written | input that shows it | evidently intended | confidence | as-written member | corrected member |
|---|---|---|---|---|---|---|
| main.py:107 | `ingressItem.metadata.annotations.get(...)` is called with no check. The Kubernetes client gives `annotations` as None for an ingress without annotations, so `.get` raises outside any `try` and the whole cycle stops. | An ingress with no annotations and one rule for `a.example.com` | Such an ingress gives the record (`a.example.com`, not ignored, secure), as an empty annotation map would | high, not executed | Ingress.FlagsAsWritten | Ingress.FlagsOf |
