/** Sampling network counters: concurrent callers with the same key share one probe.
    A call is a sequence of atomic steps; the steps of different calls interleave freely. */
module SingleFlight {
  import opened Options

  type Key = string

  datatype Counter = Counter(interface: string, address: string, rx: nat, tx: nat)

  /** What a probe returns; the scope says whether the host's interfaces were read. */
  datatype Reading = Reading(counters: seq<Counter>, scope: string)
  datatype Seen = Seen(rx: nat, tx: nat, at: real)
  datatype Sample =
    Sample(interface: string, address: string, scope: string, download: Option<real>, upload: Option<real>)
  datatype Outcome = Samples(samples: seq<Sample>) | Raised(error: string)

  /** Where the outcome of a finished call came from; a shared probe is named by its owner. */
  datatype Origin = Cached | Owned | Joined(owner: nat)

  datatype Call =
    | Probing(key: Key)
    | Computed(key: Key, outcome: Outcome)
    | Resolved(key: Key)
    | Waiting(key: Key, owner: nat)
    | Done(key: Key, outcome: Outcome, origin: Origin)

  predicate Owning(c: Call) {
    c.Probing? || c.Computed? || c.Resolved?
  }

  // ---- rates ----

  /** Bits per second since the last sample: only for a later time and counters that did not restart. */
  function Rates(earlier: Option<Seen>, item: Counter, at: real): (r: (Option<real>, Option<real>))
    ensures r.0.Some? ==> r.0.value >= 0.0
    ensures r.1.Some? ==> r.1.value >= 0.0
    ensures r.0.Some? <==>
      earlier.Some? && at > earlier.value.at && item.rx >= earlier.value.rx && item.tx >= earlier.value.tx
    ensures r.0.Some? ==>
      && r.1.Some?
      && r.0.value * (at - earlier.value.at) == 8.0 * (item.rx - earlier.value.rx) as real
      && r.1.value * (at - earlier.value.at) == 8.0 * (item.tx - earlier.value.tx) as real
    ensures r.0.None? ==> r.1.None?
  {
    if earlier.Some? && at - earlier.value.at > 0.0 && item.rx >= earlier.value.rx && item.tx >= earlier.value.tx then
      var delta := at - earlier.value.at;
      var received, sent := (item.rx - earlier.value.rx) as real * 8.0, (item.tx - earlier.value.tx) as real * 8.0;
      (Some(received / delta), Some(sent / delta))
    else (None, None)
  }

  predicate Sane(o: Outcome) {
    o.Samples? ==> forall s :: s in o.samples ==>
      && (s.download.Some? ==> s.download.value >= 0.0) && (s.upload.Some? ==> s.upload.value >= 0.0)
      && (s.download.Some? <==> s.upload.Some?)
  }

  function Lookup(remembered: map<string, Seen>, name: string): Option<Seen> {
    if name in remembered then Some(remembered[name]) else None
  }

  /** What is remembered after the counters, before stale interfaces are dropped. */
  function Remember(previous: map<string, Seen>, counters: seq<Counter>, at: real): map<string, Seen> {
    if counters == [] then previous
    else
      var last := counters[|counters| - 1];
      Remember(previous, counters[..|counters| - 1], at)[last.interface := Seen(last.rx, last.tx, at)]
  }

  function SampleAt(previous: map<string, Seen>, counters: seq<Counter>, scope: string, at: real, i: nat): Sample
    requires i < |counters|
  {
    var item := counters[i];
    var rates := Rates(Lookup(Remember(previous, counters[..i], at), item.interface), item, at);
    Sample(item.interface, item.address, scope, rates.0, rates.1)
  }

  function Names(counters: seq<Counter>): set<string> {
    set c | c in counters :: c.interface
  }

  lemma {:induction false} RememberedCounter(previous: map<string, Seen>, counters: seq<Counter>, at: real,
                                             name: string)
    ensures name !in Names(counters) ==>
      Lookup(Remember(previous, counters, at), name) == Lookup(previous, name)
    ensures name in Names(counters) ==> exists c ::
      && c in counters && c.interface == name &&
         Lookup(Remember(previous, counters, at), name) == Some(Seen(c.rx, c.tx, at))
  {
    if counters != [] {
      var last, rest := counters[|counters| - 1], counters[..|counters| - 1];
      RememberedCounter(previous, rest, at, name);
      assert forall c :: c in counters <==> c == last || c in rest;
    }
  }

  /** An interface is measured against the previous probe; listed twice, it has no second rate. */
  lemma RatesOfProbe(previous: map<string, Seen>, counters: seq<Counter>, scope: string, at: real, i: nat)
    requires i < |counters|
    ensures var sample, item := SampleAt(previous, counters, scope, at, i), counters[i];
      && sample.interface == item.interface && sample.address == item.address && sample.scope == scope
      && (sample.download, sample.upload)
      == if item.interface in Names(counters[..i]) then (None, None)
         else Rates(Lookup(previous, item.interface), item, at)
  {
    RememberedCounter(previous, counters[..i], at, counters[i].interface);
  }

  /** The samples of one probe and the counters remembered for the next. */
  method Measure(previous: map<string, Seen>, counters: seq<Counter>, scope: string, at: real)
      returns (samples: seq<Sample>, remembered: map<string, Seen>)
    ensures |samples| == |counters| &&
            forall i :: 0 <= i < |samples| ==> samples[i] == SampleAt(previous, counters, scope, at, i)
    ensures remembered.Keys == Names(counters)
    ensures forall name :: name in remembered ==> exists c ::
      && c in counters && c.interface == name && remembered[name] == Seen(c.rx, c.tx, at)
  {
    hide Rates, SampleAt, Names, Remember, Lookup;
    samples, remembered := [], previous;
    var current: set<string> := {};
    NoCounters(previous, counters, at);
    for i := 0 to |counters|
      invariant |samples| == i && remembered == Remember(previous, counters[..i], at)
      invariant current == Names(counters[..i]) && current <= remembered.Keys
      invariant forall k :: 0 <= k < i ==> samples[k] == SampleAt(previous, counters, scope, at, k)
    {
      var item := counters[i];
      NextCounter(previous, counters, scope, at, i);
      var rates := Rates(Lookup(remembered, item.interface), item, at);
      current := current + {item.interface};
      remembered := remembered[item.interface := Seen(item.rx, item.tx, at)];
      samples := samples + [Sample(item.interface, item.address, scope, rates.0, rates.1)];
    }
    assert counters[..|counters|] == counters;
    ghost var all := remembered;
    remembered := map name | name in remembered && name in current :: remembered[name];
    forall name | name in current
      ensures exists c :: c in counters && c.interface == name && all[name] == Seen(c.rx, c.tx, at)
    {
      RememberedCounter(previous, counters, at, name);
      FoundIn(all, name);
    }
  }

  lemma NoCounters(previous: map<string, Seen>, counters: seq<Counter>, at: real)
    ensures Remember(previous, counters[..0], at) == previous && Names(counters[..0]) == {}
  {
  }

  lemma NextCounter(previous: map<string, Seen>, counters: seq<Counter>, scope: string, at: real, i: nat)
    requires i < |counters|
    ensures var item := counters[i];
      var rates := Rates(Lookup(Remember(previous, counters[..i], at), item.interface), item, at);
      && Remember(previous, counters[..i + 1], at)
         == Remember(previous, counters[..i], at)[item.interface := Seen(item.rx, item.tx, at)]
      && Names(counters[..i + 1]) == Names(counters[..i]) + {item.interface}
      && SampleAt(previous, counters, scope, at, i) == Sample(item.interface, item.address, scope, rates.0, rates.1)
  {
    hide Rates;
    assert counters[..i + 1] == counters[..i] + [counters[i]] && counters[..i + 1][..i] == counters[..i];
  }

  lemma FoundIn(remembered: map<string, Seen>, name: string)
    ensures name in remembered ==> Lookup(remembered, name) == Some(remembered[name])
  {
  }

  // ---- the protocol ----

  /** A call agrees with the in-flight entries and the futures. */
  predicate CallOk(inflight: map<Key, nat>, futures: map<nat, Outcome>, calls: map<nat, Call>, c: nat)
    requires c in calls
  {
    match calls[c]
    case Probing(k) => k in inflight && inflight[k] == c && c !in futures
    case Computed(k, outcome) => k in inflight && inflight[k] == c && c !in futures && Sane(outcome)
    case Resolved(k) => k in inflight && inflight[k] == c && c in futures
    case Waiting(k, o) => c !in futures && o in calls && calls[o].key == k && (Owning(calls[o]) || o in futures)
    case Done(k, outcome, Cached) => c !in futures && Sane(outcome)
    case Done(k, outcome, Owned) => c in futures && futures[c] == outcome
    case Done(k, outcome, Joined(o)) =>
      c !in futures && o in calls && calls[o].key == k && o in futures && futures[o] == outcome
  }

  /** An in-flight entry names the active owner of its key. */
  predicate EntryOk(inflight: map<Key, nat>, calls: map<nat, Call>, k: Key) {
    k in inflight ==> inflight[k] in calls && Owning(calls[inflight[k]]) && calls[inflight[k]].key == k
  }

  ghost predicate Protocol(inflight: map<Key, nat>, futures: map<nat, Outcome>, calls: map<nat, Call>) {
    && (forall c :: c in calls ==> CallOk(inflight, futures, calls, c))
    && (forall k :: EntryOk(inflight, calls, k))
    && (forall c :: c in futures ==> c in calls && Sane(futures[c]))
  }

  /** At most one probe per key at a time, and none without an entry. */
  lemma OneProbePerKey(inflight: map<Key, nat>, futures: map<nat, Outcome>, calls: map<nat, Call>, a: nat, b: nat)
    requires Protocol(inflight, futures, calls) && a in calls && b in calls
    requires Owning(calls[a]) && Owning(calls[b]) && calls[a].key == calls[b].key
    ensures a == b
  {
    assert CallOk(inflight, futures, calls, a) && CallOk(inflight, futures, calls, b);
  }

  /** A finished owner leaves no entry behind, and no call waits for nobody: its owner is
      still at work or has given it an outcome. */
  lemma NothingLeftBehind(inflight: map<Key, nat>, futures: map<nat, Outcome>, calls: map<nat, Call>, c: nat)
    requires Protocol(inflight, futures, calls) && c in calls
    ensures calls[c].Done? ==> c !in inflight.Values
    ensures calls[c].Waiting? ==>
      calls[c].owner in calls && (Owning(calls[calls[c].owner]) || calls[c].owner in futures)
  {
    assert CallOk(inflight, futures, calls, c);
    forall k | k in inflight ensures inflight[k] in calls && Owning(calls[inflight[k]]) {
      assert EntryOk(inflight, calls, k);
    }
  }

  lemma NoEntryWithoutOwner(inflight: map<Key, nat>, futures: map<nat, Outcome>, calls: map<nat, Call>)
    requires Protocol(inflight, futures, calls)
    ensures (forall c :: c in calls ==> !Owning(calls[c])) ==> inflight == map[]
  {
    forall k | k in inflight ensures inflight[k] in calls && Owning(calls[inflight[k]]) {
      assert EntryOk(inflight, calls, k);
    }
  }

  /** What one step of call c may change: its own stage, its key's entry, its future. */
  predicate StepOf(inflight: map<Key, nat>, futures: map<nat, Outcome>, calls: map<nat, Call>, c: nat, next: Call,
                   inflight': map<Key, nat>, futures': map<nat, Outcome>)
  {
    && (c in calls ==> next.key == calls[c].key)
    && (forall k :: k in inflight && k != next.key ==> k in inflight' && inflight'[k] == inflight[k])
    && (forall k :: k in inflight' && k != next.key ==> k in inflight)
    && (next.key in inflight && inflight[next.key] != c ==>
        next.key in inflight' && inflight'[next.key] == inflight[next.key])
    && (futures' == futures || (c in calls && c !in futures && c in futures' && futures' == futures[c := futures'[c]]))
    && (c in calls && Owning(calls[c]) ==> Owning(next) || c in futures')
    && (c in futures' ==> Sane(futures'[c]))
    && CallOk(inflight', futures', calls[c := next], c) && EntryOk(inflight', calls[c := next], next.key)
  }

  lemma OtherCall(inflight: map<Key, nat>, futures: map<nat, Outcome>, calls: map<nat, Call>, c: nat, next: Call,
                  inflight': map<Key, nat>, futures': map<nat, Outcome>, d: nat)
    requires StepOf(inflight, futures, calls, c, next, inflight', futures')
    requires d != c && d in calls && CallOk(inflight, futures, calls, d)
    ensures CallOk(inflight', futures', calls[c := next], d)
  {
  }

  lemma OtherEntry(inflight: map<Key, nat>, futures: map<nat, Outcome>, calls: map<nat, Call>, c: nat, next: Call,
                   inflight': map<Key, nat>, futures': map<nat, Outcome>, k: Key)
    requires StepOf(inflight, futures, calls, c, next, inflight', futures') && EntryOk(inflight, calls, k)
    requires c in calls ==> CallOk(inflight, futures, calls, c)
    ensures EntryOk(inflight', calls[c := next], k)
  {
    hide Sane, CallOk;
  }

  /** A step of one call keeps the protocol for all. */
  lemma StepKeeps(inflight: map<Key, nat>, futures: map<nat, Outcome>, calls: map<nat, Call>, c: nat, next: Call,
                  inflight': map<Key, nat>, futures': map<nat, Outcome>)
    requires Protocol(inflight, futures, calls)
    requires StepOf(inflight, futures, calls, c, next, inflight', futures')
    ensures Protocol(inflight', futures', calls[c := next])
  {
    hide CallOk, EntryOk, Owning;
    var calls' := calls[c := next];
    forall d | d in calls' ensures CallOk(inflight', futures', calls', d) {
      if d != c {
        OtherCall(inflight, futures, calls, c, next, inflight', futures', d);
      }
    }
    forall k ensures EntryOk(inflight', calls', k) {
      OtherEntry(inflight, futures, calls, c, next, inflight', futures', k);
    }
  }

  ghost predicate SaneSamples(lastSample: map<Key, (real, Outcome)>) {
    forall k :: k in lastSample ==> Sane(lastSample[k].1)
  }

  class Sampler {
    var lastSample: map<Key, (real, Outcome)>
    var inflight: map<Key, nat>
    var previous: map<Key, map<string, Seen>>
    /** The futures that were given an outcome, by the call that owns them. */
    var futures: map<nat, Outcome>
    /** Where each call stands. */
    var calls: map<nat, Call>
    ghost predicate Valid()
      reads this
    {
      Protocol(inflight, futures, calls) && SaneSamples(lastSample)
    }

    constructor ()
      ensures Valid() && calls == map[]
    {
      lastSample, inflight, previous, futures, calls := map[], map[], map[], map[], map[];
    }

    /** The first critical section: a recent sample, a new probe, or somebody's probe. */
    method Enter(c: nat, key: Key, now: real, minimumInterval: real)
      requires Valid() && c !in calls
      modifies this
      ensures Valid() && calls.Keys == old(calls).Keys + {c} &&
        forall d :: d in old(calls) ==> calls[d] == old(calls)[d]
      ensures
        var interval := if minimumInterval > 0.2 then minimumInterval else 0.2;
        var recent := key in old(lastSample) && now - old(lastSample)[key].0 < interval;
        calls[c] == if recent then Done(key, old(lastSample)[key].1, Cached)
                    else if key in old(inflight) then Waiting(key, old(inflight)[key]) else Probing(key)
      ensures lastSample == old(lastSample) && futures == old(futures)
    {
      hide Protocol, Sane;
      NewCall(inflight, futures, calls, c, key);
      var interval := if minimumInterval > 0.2 then minimumInterval else 0.2;
      if key in lastSample && now - lastSample[key].0 < interval {
        StepKeeps(inflight, futures, calls, c, Done(key, lastSample[key].1, Cached), inflight, futures);
        calls := calls[c := Done(key, lastSample[key].1, Cached)];
      } else if key in inflight {
        StepKeeps(inflight, futures, calls, c, Waiting(key, inflight[key]), inflight, futures);
        calls := calls[c := Waiting(key, inflight[key])];
      } else {
        StepKeeps(inflight, futures, calls, c, Probing(key), inflight[key := c], futures);
        inflight := inflight[key := c];
        calls := calls[c := Probing(key)];
      }
    }

    /** The owner's probe returned and the second critical section is done, or it raised. */
    method Probed(c: nat, reading: Option<Reading>, error: string, at: real)
      requires Valid() && c in calls && calls[c].Probing?
      modifies this
      ensures Valid() && c in calls && calls == old(calls)[c := calls[c]] && calls[c].Computed?
      ensures calls[c].key == old(calls)[c].key
      ensures reading.None? ==>
        calls[c].outcome == Raised(error) && lastSample == old(lastSample) && previous == old(previous)
      ensures reading.Some? ==>
        && calls[c].key in previous && previous[calls[c].key].Keys == Names(reading.value.counters)
        && calls[c].outcome.Samples? && |calls[c].outcome.samples| == |reading.value.counters|
        && forall i :: 0 <= i < |reading.value.counters| ==> calls[c].outcome.samples[i] == SampleAt(
             if calls[c].key in old(previous) then old(previous)[calls[c].key] else map[],
             reading.value.counters, reading.value.scope, at, i)
      ensures reading.Some? ==>
        calls[c].outcome.Samples? && lastSample == old(lastSample)[calls[c].key := (at, calls[c].outcome)]
      ensures inflight == old(inflight) && futures == old(futures)
    {
      hide Protocol, Sane, SampleAt;
      CallStands(inflight, futures, calls, c);
      var key := calls[c].key;
      RaisedIsSane(error);
      if reading.None? {
        StepKeeps(inflight, futures, calls, c, Computed(key, Raised(error)), inflight, futures);
        calls := calls[c := Computed(key, Raised(error))];
        return;
      }
      var before := if key in previous then previous[key] else map[];
      var samples, remembered := Measure(before, reading.value.counters, reading.value.scope, at);
      AllSane(before, reading.value.counters, reading.value.scope, at, samples);
      previous := previous[key := remembered];
      lastSample := lastSample[key := (at, Samples(samples))];
      StepKeeps(inflight, futures, calls, c, Computed(key, Samples(samples)), inflight, futures);
      calls := calls[c := Computed(key, Samples(samples))];
    }

    /** The owner hands its outcome to the future. */
    method Resolve(c: nat)
      requires Valid() && c in calls && calls[c].Computed?
      modifies this
      ensures Valid() && calls == old(calls)[c := Resolved(old(calls)[c].key)]
      ensures futures == old(futures)[c := old(calls)[c].outcome] && inflight == old(inflight)
      ensures lastSample == old(lastSample)
    {
      hide Protocol, Sane;
      CallStands(inflight, futures, calls, c);
      StepKeeps(inflight, futures, calls, c, Resolved(calls[c].key), inflight, futures[c := calls[c].outcome]);
      futures := futures[c := calls[c].outcome];
      calls := calls[c := Resolved(calls[c].key)];
    }

    /** The last critical section: the owner takes the entry away and returns. */
    method Leave(c: nat)
      requires Valid() && c in calls && calls[c].Resolved?
      modifies this
      ensures Valid() && c in old(futures) && calls == old(calls)[c := Done(old(calls)[c].key, old(futures)[c], Owned)]
      ensures inflight == old(inflight) - {old(calls)[c].key} && futures == old(futures)
      ensures lastSample == old(lastSample)
    {
      hide Protocol, Sane;
      CallStands(inflight, futures, calls, c);
      StepKeeps(inflight, futures, calls, c, Done(calls[c].key, futures[c], Owned), inflight - {calls[c].key}, futures);
      inflight := inflight - {calls[c].key};
      calls := calls[c := Done(calls[c].key, futures[c], Owned)];
    }

    /** A waiting call is woken once the future has an outcome. */
    method Wake(c: nat)
      requires Valid() && c in calls && calls[c].Waiting? && calls[c].owner in futures
      modifies this
      ensures Valid()
      ensures calls == old(calls)[c :=
        Done(old(calls)[c].key, old(futures)[old(calls)[c].owner], Joined(old(calls)[c].owner))]
      ensures inflight == old(inflight) && futures == old(futures) && lastSample == old(lastSample)
    {
      hide Protocol, Sane;
      CallStands(inflight, futures, calls, c);
      StepKeeps(inflight, futures, calls, c,
                Done(calls[c].key, futures[calls[c].owner], Joined(calls[c].owner)), inflight, futures);
      calls := calls[c := Done(calls[c].key, futures[calls[c].owner], Joined(calls[c].owner))];
    }
  }

  lemma AllSane(previous: map<string, Seen>, counters: seq<Counter>, scope: string, at: real, samples: seq<Sample>)
    requires |samples| == |counters| &&
             forall i :: 0 <= i < |samples| ==> samples[i] == SampleAt(previous, counters, scope, at, i)
    ensures Sane(Samples(samples))
  {
  }

  lemma CallStands(inflight: map<Key, nat>, futures: map<nat, Outcome>, calls: map<nat, Call>, c: nat)
    requires Protocol(inflight, futures, calls) && c in calls
    ensures CallOk(inflight, futures, calls, c) && EntryOk(inflight, calls, calls[c].key)
    ensures c in futures ==> Sane(futures[c])
  {
  }

  lemma NewCall(inflight: map<Key, nat>, futures: map<nat, Outcome>, calls: map<nat, Call>, c: nat, key: Key)
    requires Protocol(inflight, futures, calls) && c !in calls
    ensures c !in futures && EntryOk(inflight, calls, key) && (key in inflight ==> inflight[key] != c)
  {
    assert EntryOk(inflight, calls, key);
  }

  lemma RaisedIsSane(error: string)
    ensures Sane(Raised(error))
  {
  }

  // ---- every interleaving ----

  datatype Step =
    | Enter(call: nat, key: Key, now: real, minimumInterval: real)
    | Probed(call: nat, reading: Option<Reading>, error: string, at: real)
    | Resolve(call: nat) | Leave(call: nat) | Wake(call: nat)

  /** Any steps in any order, those that cannot happen being skipped: in every state there
      is at most one probe per key; a call that shared a probe returns what its owner
      returns; and when no owner is at work no entry is left. */
  method Interleave(steps: seq<Step>)
      returns (calls: map<nat, Call>, inflight: map<Key, nat>, futures: map<nat, Outcome>)
    ensures Protocol(inflight, futures, calls)
    ensures forall a, b ::
      (a in calls && b in calls && Owning(calls[a]) && Owning(calls[b]) && calls[a].key == calls[b].key) ==> a == b
    ensures forall c :: c in calls && calls[c].Done? && calls[c].origin.Joined? ==>
      var o := calls[c].origin.owner;
      && o in calls && calls[o].key == calls[c].key
      && (calls[o].Done? ==> calls[o].outcome == calls[c].outcome)
    ensures (forall c :: c in calls ==> !Owning(calls[c])) ==> inflight == map[]
  {
    hide Protocol, SaneSamples, Rates;
    var sampler := new Sampler();
    var i := 0;
    while i < |steps|
      invariant 0 <= i <= |steps| && fresh(sampler) && sampler.Valid()
    {
      match steps[i] {
        case Enter(c, key, now, minimumInterval) =>
          if c !in sampler.calls {
            sampler.Enter(c, key, now, minimumInterval);
          }
        case Probed(c, reading, error, at) =>
          if c in sampler.calls && sampler.calls[c].Probing? {
            sampler.Probed(c, reading, error, at);
          }
        case Resolve(c) =>
          if c in sampler.calls && sampler.calls[c].Computed? {
            sampler.Resolve(c);
          }
        case Leave(c) =>
          if c in sampler.calls && sampler.calls[c].Resolved? {
            sampler.Leave(c);
          }
        case Wake(c) =>
          if c in sampler.calls && sampler.calls[c].Waiting? && sampler.calls[c].owner in sampler.futures {
            sampler.Wake(c);
          }
      }
      i := i + 1;
    }
    calls, inflight, futures := sampler.calls, sampler.inflight, sampler.futures;
    Consequences(inflight, futures, calls);
  }

  lemma Consequences(inflight: map<Key, nat>, futures: map<nat, Outcome>, calls: map<nat, Call>)
    requires Protocol(inflight, futures, calls)
    ensures forall a, b ::
      (a in calls && b in calls && Owning(calls[a]) && Owning(calls[b]) && calls[a].key == calls[b].key) ==> a == b
    ensures forall c :: c in calls && calls[c].Done? && calls[c].origin.Joined? ==>
      var o := calls[c].origin.owner;
      && o in calls && calls[o].key == calls[c].key
      && (calls[o].Done? ==> calls[o].outcome == calls[c].outcome)
    ensures (forall c :: c in calls ==> !Owning(calls[c])) ==> inflight == map[]
  {
    forall a, b | a in calls && b in calls && Owning(calls[a]) && Owning(calls[b]) && calls[a].key == calls[b].key
      ensures a == b
    {
      OneProbePerKey(inflight, futures, calls, a, b);
    }
    forall c | c in calls && calls[c].Done? && calls[c].origin.Joined?
      ensures var o := calls[c].origin.owner;
        && o in calls && calls[o].key == calls[c].key
        && (calls[o].Done? ==> calls[o].outcome == calls[c].outcome)
    {
      assert CallOk(inflight, futures, calls, c);
      assert CallOk(inflight, futures, calls, calls[c].origin.owner);
    }
    NoEntryWithoutOwner(inflight, futures, calls);
  }
}
