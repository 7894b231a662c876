/** Borg security directories: their classification, and the resolution of several
    directories that record the same repository location. */
module DuplicateSecurity {
  import opened Options

  datatype Kind = Active | Orphan | Unknown | DuplicateOld

  datatype DuplicateState = NoDuplicate | Ambiguous | Newest | Older(newest: string)

  datatype FileType = Directory | SymbolicLink | OtherFile

  /** What is there under the security base, with what its two files say if it is a directory. */
  datatype Found = Found(name: string, fileType: FileType, validId: bool, location: Option<string>, stamp: Option<int>)

  /** One line of a scan. `regular` is a real directory, `validId` a Borg id as its name. */
  datatype Raw = Raw(name: string, regular: bool, validId: bool, location: Option<string>, stamp: Option<int>)

  datatype Item = Item(name: string, hasId: bool, location: Option<string>, stamp: Option<int>, kind: Kind,
                       selectable: bool, defaultSelected: bool, duplicate: DuplicateState)

  /** What the manager knows: ids of active and orphaned caches, assigned and known locations. */
  datatype Known = Known(activeIds: set<string>, orphanIds: set<string>, current: set<string>, recorded: set<string>)

  // ---- scan and classification ----

  /** The scan reads the files of directories only; of anything else it reports neither
      location nor timestamp. */
  function Scanned(found: Found): Raw {
    if found.fileType == Directory then Raw(found.name, true, found.validId, found.location, found.stamp)
    else Raw(found.name, false, found.validId, None, None)
  }

  function ClientKind(raw: Raw, k: Known): Kind {
    if raw.name in k.activeIds || (raw.location.Some? && raw.location.value in k.current) then Active
    else if raw.name in k.orphanIds || (raw.location.Some? && raw.location.value in k.recorded) then Orphan
    else Unknown
  }

  /** A client's directory; one that is not regular is never selectable by itself. */
  function ClientItem(raw: Raw, k: Known): Item {
    if !(raw.regular && raw.validId) then
      Item(raw.name, raw.validId, raw.location, raw.stamp, Unknown, false, false, NoDuplicate)
    else
      var kind := ClientKind(raw, k);
      Item(raw.name, true, raw.location, raw.stamp, kind, kind != Active, kind == Orphan, NoDuplicate)
  }

  /** The manager's own directory; one that is not regular loses them. */
  function ManagerItem(found: Found, k: Known): Item {
    if !(found.fileType == Directory && found.validId) then
      Item(found.name, found.validId, None, None, Unknown, false, false, NoDuplicate)
    else
      var active := found.name in k.activeIds || Assigned(found.location, k);
      Item(found.name, true, found.location, found.stamp, if active then Active else Orphan, !active, !active,
           NoDuplicate)
  }

  /** The manager takes an empty location for none. */
  predicate Assigned(location: Option<string>, k: Known) {
    location.Some? && location.value != "" && location.value in k.current
  }

  // ---- duplicates ----

  /** Only directories with a location, an id and a readable timestamp are compared. */
  predicate Comparable(item: Item) {
    item.location.Some? && item.location.value != "" && item.hasId && item.stamp.Some?
  }

  predicate Peers(items: seq<Item>, i: nat, j: nat) {
    && i < |items| && j < |items| && Comparable(items[i]) && Comparable(items[j])
    && items[i].location == items[j].location
  }

  predicate Alone(items: seq<Item>, i: nat) {
    forall j: nat :: j < |items| && Peers(items, i, j) ==> j == i
  }

  /** Strictly newer than every other directory with the same location. */
  predicate StrictlyNewest(items: seq<Item>, i: nat) {
    i < |items| && Comparable(items[i])
    && forall j: nat :: j < |items| && j != i && Peers(items, i, j) ==> items[j].stamp.value < items[i].stamp.value
  }

  function MarkedOlder(item: Item, newest: string, activeIds: set<string>): Item {
    if item.kind == Active && item.name in activeIds then
      item.(duplicate := Older(newest), selectable := false, defaultSelected := false)
    else
      item.(duplicate := Older(newest), kind := DuplicateOld, selectable := true, defaultSelected := true)
  }

  /** What becomes of item i, whatever the order of the items. */
  predicate ResolvesTo(items: seq<Item>, activeIds: set<string>, i: nat, after: Item)
    requires i < |items|
  {
    if !Comparable(items[i]) || Alone(items, i) then after == items[i]
    else if StrictlyNewest(items, i) then after == items[i].(duplicate := Newest)
    else if exists m: nat :: m < |items| && Peers(items, i, m) && StrictlyNewest(items, m) then
      exists m: nat :: m < |items| && Peers(items, i, m) && StrictlyNewest(items, m)
        && after == MarkedOlder(items[i], items[m].name, activeIds)
    else after == items[i].(duplicate := Ambiguous)
  }

  predicate Resolved(items: seq<Item>, activeIds: set<string>, after: seq<Item>) {
    |after| == |items| && forall i :: 0 <= i < |items| ==> ResolvesTo(items, activeIds, i, after[i])
  }

  predicate Fresh(items: seq<Item>) {
    forall i :: 0 <= i < |items| ==> items[i].duplicate == NoDuplicate
  }

  /** Each location has at most one newest directory, and an older one is strictly older than it. */
  lemma NewestAndOlder(items: seq<Item>, activeIds: set<string>, after: seq<Item>, i: nat, j: nat)
    requires Fresh(items) && Resolved(items, activeIds, after) && i < |items| && j < |items|
    ensures after[i].duplicate == Newest && after[j].duplicate == Newest && items[i].location == items[j].location ==>
      i == j
    ensures after[i].duplicate.Older? ==> exists m: nat ::
      && m < |items| && Peers(items, i, m)
      && after[m].duplicate == Newest && items[m].name == after[i].duplicate.newest
      && items[i].stamp.value < items[m].stamp.value
    ensures after[i].duplicate == Ambiguous ==> after[i] == items[i].(duplicate := Ambiguous)
  {
    StateOf(items, activeIds, after, i);
    StateOf(items, activeIds, after, j);
    hide ResolvesTo, Resolved;
    if after[i].duplicate.Older? {
      var m: nat :| m < |items| && Peers(items, i, m) && StrictlyNewest(items, m)
        && after[i] == MarkedOlder(items[i], items[m].name, activeIds);
      StateOf(items, activeIds, after, m);
      assert Peers(items, m, i);
    }
  }

  lemma StateOf(items: seq<Item>, activeIds: set<string>, after: seq<Item>, i: nat)
    requires Fresh(items) && Resolved(items, activeIds, after) && i < |items|
    ensures after[i].duplicate == Newest <==> Comparable(items[i]) && !Alone(items, i) && StrictlyNewest(items, i)
    ensures after[i].duplicate.Older? ==> !StrictlyNewest(items, i) && exists m: nat ::
      && m < |items| && Peers(items, i, m) && StrictlyNewest(items, m)
      && after[i] == MarkedOlder(items[i], items[m].name, activeIds)
    ensures after[i].duplicate == Ambiguous ==> after[i] == items[i].(duplicate := Ambiguous)
  {
    hide Comparable, Alone, StrictlyNewest, Peers;
    assert ResolvesTo(items, activeIds, i, after[i]);
  }

  /** The resolution is determined by the items alone. */
  lemma ResolvedOnce(items: seq<Item>, activeIds: set<string>, a: seq<Item>, b: seq<Item>)
    requires Resolved(items, activeIds, a) && Resolved(items, activeIds, b)
    ensures a == b
  {
    forall i | 0 <= i < |items| ensures a[i] == b[i] {
      assert ResolvesTo(items, activeIds, i, a[i]) && ResolvesTo(items, activeIds, i, b[i]);
      forall m: nat, n: nat | Peers(items, i, m) && StrictlyNewest(items, m)
        && Peers(items, i, n) && StrictlyNewest(items, n)
        ensures m == n
      {
        assert Peers(items, m, n) && Peers(items, n, m);
      }
    }
  }

  /** A strictly newer item records the same location. */
  predicate Superseded(items: seq<Item>, i: nat) {
    exists m: nat :: m < |items| && m != i && Peers(items, i, m) && StrictlyNewest(items, m)
  }

  function ClientItems(found: seq<Found>, k: Known): seq<Item> {
    seq(|found|, i requires 0 <= i < |found| => ClientItem(Scanned(found[i]), k))
  }

  function ManagerItems(found: seq<Found>, k: Known): seq<Item> {
    seq(|found|, i requires 0 <= i < |found| => ManagerItem(found[i], k))
  }

  /** A real directory named by a Borg id, with a location and a readable timestamp. */
  predicate Dated(f: Found) {
    f.fileType == Directory && f.validId && f.location.Some? && |f.location.value| > 0 && f.stamp.Some?
  }

  /** Directory m has the newest timestamp of the location, and no other has the same. */
  predicate NewestOfLocation(found: seq<Found>, location: Option<string>, m: nat) {
    && m < |found| && Dated(found[m]) && found[m].location == location
    && forall j: nat :: j < |found| && j != m && Dated(found[j]) && found[j].location == location ==>
      found[j].stamp.value < found[m].stamp.value
  }

  /** Another directory of its location has a newer timestamp than every other one there. */
  predicate Outdated(found: seq<Found>, i: nat) {
    && i < |found| && Dated(found[i])
    && exists m: nat :: m < |found| && m != i && NewestOfLocation(found, found[i].location, m)
  }

  /** The items compare like the directories they were made of. */
  ghost predicate MadeOf(items: seq<Item>, found: seq<Found>) {
    |items| == |found| && forall i :: 0 <= i < |found| ==>
      && (Comparable(items[i]) <==> Dated(found[i]))
      && (Dated(found[i]) ==> items[i].location == found[i].location && items[i].stamp == found[i].stamp)
  }

  lemma OutdatedIsSuperseded(items: seq<Item>, found: seq<Found>, i: nat)
    requires MadeOf(items, found) && i < |found|
    ensures Superseded(items, i) <==> Outdated(found, i)
  {
    forall j: nat, m: nat | j < |found| && m < |found|
      ensures Peers(items, j, m) <==> Dated(found[j]) && Dated(found[m]) && found[j].location == found[m].location
    {
    }
    forall m: nat | m < |found| && Dated(found[i])
      ensures Peers(items, i, m) && StrictlyNewest(items, m) <==> NewestOfLocation(found, found[i].location, m)
    {
      NewestIsStrict(items, found, i, m);
    }
    hide Peers, StrictlyNewest, NewestOfLocation, Comparable, Dated;
  }

  lemma NewestIsStrict(items: seq<Item>, found: seq<Found>, i: nat, m: nat)
    requires MadeOf(items, found) && i < |found| && m < |found| && Dated(found[i])
    ensures Peers(items, i, m) && StrictlyNewest(items, m) <==> NewestOfLocation(found, found[i].location, m)
  {
    hide Comparable;
    if NewestOfLocation(found, found[i].location, m) {
      assert Peers(items, i, m);
    }
    forall j: nat | j < |found| ensures Peers(items, m, j) <==>
      Dated(found[m]) && Dated(found[j]) && found[m].location == found[j].location
    {
    }
  }

  lemma ItemsAreMade(found: seq<Found>, k: Known)
    ensures MadeOf(ClientItems(found, k), found) && MadeOf(ManagerItems(found, k), found)
  {
  }

  lemma SupersededIsOlder(items: seq<Item>, activeIds: set<string>, after: seq<Item>, i: nat)
    requires Resolved(items, activeIds, after) && i < |items|
    ensures Superseded(items, i) ==> exists newest :: after[i] == MarkedOlder(items[i], newest, activeIds)
    ensures !Superseded(items, i) ==> after[i].(duplicate := items[i].duplicate) == items[i]
  {
    hide Comparable;
    assert ResolvesTo(items, activeIds, i, after[i]);
    if Superseded(items, i) {
      var m: nat :| m < |items| && m != i && Peers(items, i, m) && StrictlyNewest(items, m);
      assert Peers(items, m, i);
    }
  }

  /** After a client scan an entry may be selected exactly when it is a real directory with a
      Borg id as its name that no active cache confirms, and its location is not an assigned
      one or it is outdated; and it is selected by default exactly when it is outdated or
      belongs to a repository that is known but not assigned. */
  lemma SelectableExactly(found: seq<Found>, k: Known, after: seq<Item>, i: nat)
    requires Resolved(ClientItems(found, k), k.activeIds, after) && i < |found|
    ensures after[i].selectable <==>
      && found[i].fileType == Directory && found[i].validId && found[i].name !in k.activeIds
      && (Outdated(found, i) || found[i].location.None? || found[i].location.value !in k.current)
    ensures after[i].defaultSelected <==>
      && after[i].selectable
      && (|| Outdated(found, i) || found[i].name in k.orphanIds
          || (found[i].location.Some? && found[i].location.value in k.recorded))
    ensures after[i].kind == DuplicateOld <==> found[i].name !in k.activeIds && Outdated(found, i)
  {
    hide StrictlyNewest, Resolved, Superseded, Outdated;
    var items := ClientItems(found, k);
    ItemsAreMade(found, k);
    OutdatedIsSuperseded(items, found, i);
    SupersededIsOlder(items, k.activeIds, after, i);
    assert items[i] == ClientItem(Scanned(found[i]), k);
    OutdatedIsDated(found, i);
  }

  lemma OutdatedIsDated(found: seq<Found>, i: nat)
    ensures Outdated(found, i) ==> i < |found| && Dated(found[i])
  {
  }

  /** On the manager what may be selected is selected by default: a real directory with a Borg
      id as its name that is not confirmed, and without an assigned location or outdated. */
  lemma ManagerSelectsExactly(found: seq<Found>, k: Known, after: seq<Item>, i: nat)
    requires Resolved(ManagerItems(found, k), k.activeIds, after) && i < |found|
    ensures after[i].selectable <==>
      && found[i].fileType == Directory && found[i].validId && found[i].name !in k.activeIds
      && (|| Outdated(found, i) || found[i].location.None? || |found[i].location.value| == 0
          || found[i].location.value !in k.current)
    ensures after[i].defaultSelected <==> after[i].selectable
  {
    hide StrictlyNewest, Resolved, Superseded, Outdated;
    var items := ManagerItems(found, k);
    ItemsAreMade(found, k);
    OutdatedIsSuperseded(items, found, i);
    SupersededIsOlder(items, k.activeIds, after, i);
    assert items[i] == ManagerItem(found[i], k);
    OutdatedIsDated(found, i);
  }

  /** A directory whose Borg id an active cache confirms never becomes selectable. */
  lemma ConfirmedStaysProtected(found: seq<Found>, k: Known, after: seq<Item>, i: nat)
    requires Resolved(ClientItems(found, k), k.activeIds, after) && i < |found| && found[i].name in k.activeIds
    ensures !after[i].selectable && after[i].kind != DuplicateOld
  {
    hide Resolved, Outdated;
    SelectableExactly(found, k, after, i);
  }

  /** An assigned location alone protects a directory exactly until a strictly newer one
      records the same location. */
  lemma LocationAloneDoesNotProtect(found: seq<Found>, k: Known, after: seq<Item>, i: nat)
    requires Resolved(ClientItems(found, k), k.activeIds, after) && i < |found|
    requires found[i].fileType == Directory && found[i].validId && found[i].name !in k.activeIds
    requires found[i].location.Some? && found[i].location.value in k.current
    ensures after[i].selectable <==> Outdated(found, i)
  {
    hide Resolved, Outdated;
    SelectableExactly(found, k, after, i);
  }

  /** Two directories of one assigned location: the older is offered for removal although its
      repository is assigned, the newer is not. */
  lemma AssignedButSelectable(a: string, b: string, location: string, older: int, newer: int)
    requires a != b && location != "" && older < newer
    ensures var k := Known({b}, {}, {location}, {location});
      var found := [Found(a, Directory, true, Some(location), Some(older)),
                    Found(b, Directory, true, Some(location), Some(newer))];
      forall after: seq<Item> :: Resolved(ClientItems(found, k), k.activeIds, after) ==>
        after[0].selectable && after[0].defaultSelected && !after[1].selectable
  {
    var k := Known({b}, {}, {location}, {location});
    var found := [Found(a, Directory, true, Some(location), Some(older)),
                  Found(b, Directory, true, Some(location), Some(newer))];
    var items := ClientItems(found, k);
    forall after: seq<Item> | Resolved(items, k.activeIds, after)
      ensures after[0].selectable && after[0].defaultSelected && !after[1].selectable
    {
      assert Peers(items, 0, 1) && StrictlyNewest(items, 1);
      assert Superseded(items, 0);
      SelectableExactly(found, k, after, 0);
      SelectableExactly(found, k, after, 1);
      SupersededIsOlder(items, k.activeIds, after, 0);
    }
  }

  /** On the manager a confirmed id is protected without exception, and what is no directory
      stays as it was scanned. */
  lemma ManagerProtectsConfirmed(found: seq<Found>, k: Known, after: seq<Item>, i: nat)
    requires Resolved(ManagerItems(found, k), k.activeIds, after) && i < |found|
    ensures found[i].name in k.activeIds ==> !after[i].selectable
    ensures found[i].fileType != Directory ==> after[i] == ManagerItem(found[i], k) && !after[i].selectable
  {
    assert ResolvesTo(ManagerItems(found, k), k.activeIds, i, after[i]);
  }

  // ---- the resolution in place ----

  predicate Increasing(g: seq<nat>) {
    forall a, b :: 0 <= a < b < |g| ==> g[a] < g[b]
  }

  predicate At(items: seq<Item>, i: nat, location: string) {
    i < |items| && Comparable(items[i]) && items[i].location == Some(location)
  }

  /** The positions below n of the comparable items of one location, in order. */
  ghost predicate Group(items: seq<Item>, location: string, n: nat, g: seq<nat>) {
    Increasing(g) && forall i: nat :: i in g <==> i < n && At(items, i, location)
  }

  lemma GroupNext(items: seq<Item>, location: string, n: nat, g: seq<nat>)
    requires Group(items, location, n, g) && n < |items|
    ensures Group(items, location, n + 1, if At(items, n, location) then g + [n] else g)
  {
    hide At;
    forall a | 0 <= a < |g| ensures g[a] < n {
      assert g[a] in g;
    }
  }

  /** The groups by location, as a dictionary of lists of positions. */
  method GroupByLocation(items: seq<Item>) returns (groups: map<string, seq<nat>>)
    ensures forall l :: l in groups ==> Group(items, l, |items|, groups[l])
    ensures forall i :: 0 <= i < |items| && Comparable(items[i]) ==> items[i].location.value in groups
  {
    groups := map[];
    for i := 0 to |items|
      invariant forall l :: Group(items, l, i, if l in groups then groups[l] else [])
      invariant forall k :: 0 <= k < i && Comparable(items[k]) ==> items[k].location.value in groups
    {
      ghost var before := groups;
      if Comparable(items[i]) {
        var l := items[i].location.value;
        groups := groups[l := (if l in groups then groups[l] else []) + [i]];
      }
      forall l ensures Group(items, l, i + 1, if l in groups then groups[l] else []) {
        GroupNext(items, l, i, if l in before then before[l] else []);
        hide Group;
      }
    }
  }

  function Stamp(item: Item): int {
    if item.stamp.Some? then item.stamp.value else 0
  }

  /** Another item of the group is at least as new. */
  predicate NotOnlyNewest(items: seq<Item>, group: seq<nat>, m: nat)
    requires m < |items|
  {
    exists i :: i in group && i != m && i < |items| && Stamp(items[i]) >= Stamp(items[m])
  }

  /** The only item of the group with its newest timestamp, if there is only one. */
  method NewestOf(items: seq<Item>, group: seq<nat>) returns (only: Option<nat>)
    requires group != [] && Increasing(group) && forall a :: 0 <= a < |group| ==> group[a] < |items|
    ensures forall i :: i in group ==> i < |items|
    ensures only.Some? ==> only.value in group
    ensures only.Some? ==> forall i :: i in group && i != only.value ==> Stamp(items[i]) < Stamp(items[only.value])
    ensures only.None? ==> forall m :: m in group ==> NotOnlyNewest(items, group, m)
  {
    hide Stamp;
    var newest := Stamp(items[group[0]]);
    for k := 1 to |group|
      invariant forall a :: 0 <= a < k ==> Stamp(items[group[a]]) <= newest
      invariant exists a :: 0 <= a < k && Stamp(items[group[a]]) == newest
    {
      if Stamp(items[group[k]]) > newest {
        newest := Stamp(items[group[k]]);
      }
    }
    var found: seq<nat> := [];
    for k := 0 to |group|
      invariant forall a :: 0 <= a < k ==> (Stamp(items[group[a]]) == newest <==> group[a] in found)
      invariant forall i :: i in found ==> i in group && Stamp(items[i]) == newest
      invariant forall a :: k <= a < |group| ==> group[a] !in found
      invariant forall a, b :: 0 <= a < b < |found| ==> found[a] != found[b]
    {
      if Stamp(items[group[k]]) == newest {
        found := found + [group[k]];
      }
    }
    if |found| == 1 {
      return Some(found[0]);
    }
    only := None;
    assert |found| >= 2;
    forall m | m in group ensures NotOnlyNewest(items, group, m) {
      var i := if found[0] == m then found[1] else found[0];
      assert i in found;
    }
  }

  /** The states of a group: what `ResolvesTo` says, group-wise. */
  lemma SingleGroup(items: seq<Item>, activeIds: set<string>, location: string, group: seq<nat>, i: nat)
    requires Group(items, location, |items|, group) && |group| < 2 && i in group
    ensures ResolvesTo(items, activeIds, i, items[i])
  {
    forall j: nat | j < |items| && Peers(items, i, j) ensures j == i {
      assert At(items, j, location) && j in group;
    }
  }

  lemma AmbiguousGroup(items: seq<Item>, activeIds: set<string>, location: string, group: seq<nat>, i: nat)
    requires Group(items, location, |items|, group) && |group| >= 2 && i in group
    requires forall m :: m in group ==> NotOnlyNewest(items, group, m)
    ensures ResolvesTo(items, activeIds, i, items[i].(duplicate := Ambiguous))
  {
    hide *;
    GroupIsPeers(items, location, group, i, i);
    forall m: nat | m < |items| && Peers(items, i, m) ensures !StrictlyNewest(items, m) {
      GroupIsPeers(items, location, group, i, m);
      var _ := NotNewest(items, location, group, m);
    }
    var other := NotNewest(items, location, group, i);
    IsAmbiguous(items, activeIds, i, other);
  }

  lemma NotNewest(items: seq<Item>, location: string, group: seq<nat>, m: nat) returns (later: nat)
    requires Group(items, location, |items|, group) && m in group && m < |items| && NotOnlyNewest(items, group, m)
    ensures later != m && Peers(items, m, later) && !StrictlyNewest(items, m)
  {
    hide Group;
    later :| later in group && later != m && later < |items| && Stamp(items[later]) >= Stamp(items[m]);
    GroupIsPeers(items, location, group, m, later);
  }

  lemma GroupIsPeers(items: seq<Item>, location: string, group: seq<nat>, i: nat, j: nat)
    requires Group(items, location, |items|, group) && i in group
    ensures i < |items| && Comparable(items[i])
    ensures Peers(items, i, j) <==> j in group
  {
    assert At(items, i, location) && (j in group <==> At(items, j, location));
  }

  lemma IsAmbiguous(items: seq<Item>, activeIds: set<string>, i: nat, other: nat)
    requires i < |items| && Comparable(items[i]) && other != i && Peers(items, i, other) && !StrictlyNewest(items, i)
    requires forall m: nat :: m < |items| && Peers(items, i, m) ==> !StrictlyNewest(items, m)
    ensures ResolvesTo(items, activeIds, i, items[i].(duplicate := Ambiguous))
  {
    hide StrictlyNewest, Comparable;
  }

  lemma DatedGroup(items: seq<Item>, activeIds: set<string>, location: string, group: seq<nat>, m: nat, i: nat)
    requires Group(items, location, |items|, group) && |group| >= 2 && m in group && i in group
    requires forall j :: j in group && j != m ==> Stamp(items[j]) < Stamp(items[m])
    ensures ResolvesTo(items, activeIds, i,
      if i == m then items[i].(duplicate := Newest) else MarkedOlder(items[i], items[m].name, activeIds))
  {
    assert At(items, m, location) && At(items, i, location);
    forall j: nat | j < |items| && j != m && Peers(items, m, j) ensures Stamp(items[j]) < Stamp(items[m]) {
      assert At(items, j, location) && j in group;
    }
    assert StrictlyNewest(items, m);
    var other := if group[0] == m then group[1] else group[0];
    assert other in group && At(items, other, location);
    assert Peers(items, m, other) && Peers(items, i, m);
  }

  /** One location; the group's items are still as they were scanned. */
  method ResolveGroup(items: array<Item>, group: seq<nat>, activeIds: set<string>, ghost before: seq<Item>,
                      ghost location: string)
    requires |before| == items.Length && Group(before, location, |before|, group)
    requires forall i :: i in group ==> i < items.Length && items[i] == before[i]
    modifies items
    ensures forall i: nat :: i < items.Length ==>
      if i in group then ResolvesTo(before, activeIds, i, items[i]) else items[i] == old(items[i])
  {
    hide Group, ResolvesTo, MarkedOlder, Stamp, At, NotOnlyNewest;
    GroupIsIncreasing(before, location, group);
    if |group| < 2 {
      forall i | i in group ensures ResolvesTo(before, activeIds, i, before[i]) {
        SingleGroup(before, activeIds, location, group, i);
      }
      return;
    }
    var newest := NewestOf(items[..], group);
    SameTimestamps(items[..], before, group);
    for k := 0 to |group|
      invariant forall i: nat :: i < items.Length && i !in group ==> items[i] == old(items[i])
      invariant forall a :: k <= a < |group| ==> items[group[a]] == before[group[a]]
      invariant forall a :: 0 <= a < k ==> items[group[a]] == Marked(before, newest, activeIds, group[a])
    {
      items[group[k]] := Marked(items[..], newest, activeIds, group[k]);
    }
    forall i | i in group ensures ResolvesTo(before, activeIds, i, Marked(before, newest, activeIds, i)) {
      if newest.Some? {
        DatedGroup(before, activeIds, location, group, newest.value, i);
      } else {
        AmbiguousGroup(before, activeIds, location, group, i);
      }
    }
  }

  lemma SameTimestamps(now: seq<Item>, before: seq<Item>, group: seq<nat>)
    requires |now| == |before| && forall i :: i in group ==> i < |now| && now[i] == before[i]
    ensures forall m :: m in group && NotOnlyNewest(now, group, m) ==> NotOnlyNewest(before, group, m)
  {
    hide Stamp;
    forall m | m in group && NotOnlyNewest(now, group, m) ensures NotOnlyNewest(before, group, m) {
      var i: nat :| i in group && i != m && i < |now| && Stamp(now[i]) >= Stamp(now[m]);
      assert Stamp(before[i]) >= Stamp(before[m]);
    }
  }

  /** The mark item i of a group gets. */
  function Marked(items: seq<Item>, newest: Option<nat>, activeIds: set<string>, i: nat): Item
    requires i < |items| && (newest.Some? ==> newest.value < |items|)
  {
    match newest
    case None => items[i].(duplicate := Ambiguous)
    case Some(m) => if i == m then items[i].(duplicate := Newest) else MarkedOlder(items[i], items[m].name, activeIds)
  }

  lemma GroupIsIncreasing(items: seq<Item>, location: string, group: seq<nat>)
    requires Group(items, location, |items|, group)
    ensures Increasing(group) && forall i :: i in group ==> i < |items| && At(items, i, location)
    ensures forall a :: 0 <= a < |group| ==> group[a] in group && group[a] < |items|
    ensures forall i: nat :: At(items, i, location) ==> i in group
  {
    forall a | 0 <= a < |group| ensures group[a] in group && group[a] < |items| {
      var i := group[a];
      assert i in group && At(items, i, location);
    }
  }

  /** Location by location, in any order. */
  method Resolve(items: array<Item>, activeIds: set<string>)
    modifies items
    ensures Resolved(old(items[..]), activeIds, items[..])
  {
    hide ResolvesTo, Resolved, Group, Increasing;
    ghost var before := items[..];
    var groups := GroupByLocation(items[..]);
    var rest := groups.Keys;
    while rest != {}
      invariant rest <= groups.Keys
      invariant forall i: nat :: i < items.Length ==>
        if Comparable(before[i]) && before[i].location.value !in rest then ResolvesTo(before, activeIds, i, items[i])
        else items[i] == before[i]
    {
      var l :| l in rest;
      rest := rest - {l};
      GroupIsIncreasing(before, l, groups[l]);
      ResolveGroup(items, groups[l], activeIds, before, l);
    }
    AllResolved(before, activeIds, items[..]);
  }

  lemma AllResolved(items: seq<Item>, activeIds: set<string>, after: seq<Item>)
    requires |after| == |items|
    requires forall i: nat :: i < |items| ==>
      if Comparable(items[i]) then ResolvesTo(items, activeIds, i, after[i]) else after[i] == items[i]
    ensures Resolved(items, activeIds, after)
  {
    forall i | 0 <= i < |items| ensures ResolvesTo(items, activeIds, i, after[i]) {
    }
  }

  // ---- scans and cleanups ----

  /** The classification of a client's security directories, duplicates included. What may be
      selected depends on the directories found only: a confirmed id never, an assigned location
      only if another directory of that location is strictly the newest. */
  method ScanClient(found: seq<Found>, k: Known) returns (after: seq<Item>)
    ensures |after| == |found| && Resolved(ClientItems(found, k), k.activeIds, after)
    ensures forall i :: 0 <= i < |found| ==> (after[i].selectable <==>
      && found[i].fileType == Directory && found[i].validId && found[i].name !in k.activeIds
      && (Outdated(found, i) || found[i].location.None? || found[i].location.value !in k.current))
    ensures forall i :: 0 <= i < |found| ==> (after[i].kind == DuplicateOld <==>
      found[i].name !in k.activeIds && Outdated(found, i))
  {
    hide ResolvesTo, Resolved, Outdated, ClientItem, Scanned;
    var items := new Item[|found|](i requires 0 <= i < |found| => ClientItem(Scanned(found[i]), k));
    assert items[..] == ClientItems(found, k);
    Resolve(items, k.activeIds);
    after := items[..];
    forall i | 0 <= i < |found|
      ensures after[i].selectable <==>
        && found[i].fileType == Directory && found[i].validId && found[i].name !in k.activeIds
        && (Outdated(found, i) || found[i].location.None? || found[i].location.value !in k.current)
      ensures after[i].kind == DuplicateOld <==> found[i].name !in k.activeIds && Outdated(found, i)
    {
      SelectableExactly(found, k, after, i);
    }
  }

  /** Directory n may be removed from the manager. */
  predicate Removable(found: seq<Found>, k: Known, n: string) {
    exists i: nat :: i < |found| && found[i].name == n && found[i].fileType == Directory && found[i].validId
      && n !in k.activeIds
      && (|| Outdated(found, i) || found[i].location.None? || |found[i].location.value| == 0
          || found[i].location.value !in k.current)
  }

  predicate Wanted(requested: Option<seq<string>>, n: string) {
    requested.None? || n in requested.value
  }

  /** The directories are scanned and resolved again; of the requested ones, or of all if no
      list is given, those still selectable are removed, unless they vanished since the scan.
      A confirmed id is never removed. The request schema accepts no empty list. */
  method CleanupSecurity(found: seq<Found>, k: Known, requested: Option<seq<string>>, vanished: set<string>)
      returns (removed: set<string>, skipped: set<string>)
    requires requested.Some? ==> requested.value != []
    ensures forall n :: n in removed <==> Wanted(requested, n) && Removable(found, k, n) && n !in vanished
    ensures forall n :: n in removed ==> n !in k.activeIds
    ensures forall n :: n in skipped <==>
      if requested.Some? then n in requested.value && n !in removed else Removable(found, k, n) && n in vanished
  {
    hide ResolvesTo, Resolved, ManagerItem, Removable, Outdated;
    var items := new Item[|found|](i requires 0 <= i < |found| => ManagerItem(found[i], k));
    assert items[..] == ManagerItems(found, k);
    Resolve(items, k.activeIds);
    var candidates := set i | 0 <= i < |found| && items[i].selectable :: found[i].name;
    var selected := if requested.Some? then set n | n in requested.value else candidates;
    CandidatesAre(found, k, items[..], candidates);
    removed, skipped := {}, {};
    var rest := selected;
    while rest != {}
      invariant rest <= selected
      invariant removed == set n | n in selected - rest && n in candidates && n !in vanished
      invariant skipped == set n | n in selected - rest && (n !in candidates || n in vanished)
    {
      var n :| n in rest;
      rest := rest - {n};
      if n !in candidates || n in vanished {
        skipped := skipped + {n};
      } else {
        removed := removed + {n};
      }
    }
  }

  lemma CandidatesAre(found: seq<Found>, k: Known, after: seq<Item>, candidates: set<string>)
    requires |after| == |found| && Resolved(ManagerItems(found, k), k.activeIds, after)
    requires candidates == set i | 0 <= i < |found| && after[i].selectable :: found[i].name
    ensures forall n :: (n in candidates <==> Removable(found, k, n)) && (n in candidates ==> n !in k.activeIds)
  {
    hide Resolved, Outdated;
    forall i | 0 <= i < |found| ensures after[i].selectable ==> Removable(found, k, found[i].name) {
      ManagerSelectsExactly(found, k, after, i);
    }
    forall n | Removable(found, k, n) ensures n in candidates && n !in k.activeIds {
      var i: nat :| i < |found| && found[i].name == n && found[i].fileType == Directory && found[i].validId
        && n !in k.activeIds
        && (|| Outdated(found, i) || found[i].location.None? || |found[i].location.value| == 0
            || found[i].location.value !in k.current);
      ManagerSelectsExactly(found, k, after, i);
      assert after[i].selectable;
    }
  }
}
