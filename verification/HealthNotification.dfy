/** Debounced health notifications: one message per confirmed change of state. */
module HealthNotification {
  import opened Options

  datatype Status = Ok | Degraded

  /** One call: what was observed, the settings at that time, and whether a dispatch
      reached any channel at all. */
  datatype Observation =
    Observation(status: Status, confirmations: int, enabled: bool, healthEnabled: bool, channels: bool)

  function Required(o: Observation): (n: nat)
    ensures n >= 1
  {
    if o.confirmations > 1 then o.confirmations else 1
  }

  // ---- the observations seen so far ----

  /** The length of the stretch of equal observations at the end. */
  function Stretch(seen: seq<Observation>): nat {
    if seen == [] then 0
    else if |seen| >= 2 && seen[|seen| - 2].status == seen[|seen| - 1].status then Stretch(seen[..|seen| - 1]) + 1
    else 1
  }

  lemma {:induction false} StretchIsEqual(seen: seq<Observation>)
    ensures Stretch(seen) <= |seen| && (seen != [] ==> Stretch(seen) >= 1)
    ensures forall k :: |seen| - Stretch(seen) <= k < |seen| ==> seen[k].status == seen[|seen| - 1].status
    ensures Stretch(seen) < |seen| ==> seen[|seen| - 1 - Stretch(seen)].status != seen[|seen| - 1].status
  {
    if |seen| >= 2 {
      StretchIsEqual(seen[..|seen| - 1]);
    }
  }

  lemma StretchNext(seen: seq<Observation>, o: Observation)
    ensures Stretch(seen + [o]) == if seen != [] && seen[|seen| - 1].status == o.status then Stretch(seen) + 1 else 1
  {
    assert (seen + [o])[..|seen|] == seen;
  }

  /** The last n observations were equal. */
  predicate Confirmed(seen: seq<Observation>, n: nat) {
    n <= |seen| && forall k :: |seen| - n <= k < |seen| ==> seen[k].status == seen[|seen| - 1].status
  }

  lemma ConfirmedIsStretch(seen: seq<Observation>, n: nat)
    requires seen != []
    ensures Confirmed(seen, n) <==> n <= Stretch(seen)
  {
    StretchIsEqual(seen);
  }

  // ---- the messages sent so far ----

  /** What the recipients were told last, if anything. */
  function LastTold(sent: seq<Option<Status>>): Option<Status> {
    if sent == [] then None
    else if sent[|sent| - 1].Some? then sent[|sent| - 1]
    else LastTold(sent[..|sent| - 1])
  }

  lemma ToldNext(sent: seq<Option<Status>>, message: Option<Status>)
    ensures LastTold(sent + [message]) == if message.Some? then message else LastTold(sent)
  {
    assert (sent + [message])[..|sent|] == sent;
  }

  function Messages(sent: seq<Option<Status>>): seq<Status> {
    if sent == [] then []
    else Messages(sent[..|sent| - 1]) + if sent[|sent| - 1].Some? then [sent[|sent| - 1].value] else []
  }

  /** Degraded, restored, degraded, and so on. */
  predicate Alternating(messages: seq<Status>) {
    forall i :: 0 <= i < |messages| ==> messages[i] == if i % 2 == 0 then Degraded else Ok
  }

  lemma {:induction false} LastMessage(sent: seq<Option<Status>>)
    ensures LastTold(sent) == if Messages(sent) == [] then None else Some(Messages(sent)[|Messages(sent)| - 1])
  {
    if sent != [] {
      LastMessage(sent[..|sent| - 1]);
    }
  }

  // ---- the notifier ----

  class HealthNotifier {
    var observedStatus: Option<Status>
    var observedCount: nat
    var lastNotified: Option<Status>

    constructor ()
      ensures observedStatus == None && observedCount == 0 && lastNotified == None
    {
      observedStatus, observedCount, lastNotified := None, 0, None;
    }

    /** The stored state is a summary of everything that happened. */
    predicate Summarizes(seen: seq<Observation>, sent: seq<Option<Status>>)
      reads this
    {
      && observedStatus == (if seen == [] then None else Some(seen[|seen| - 1].status))
      && observedCount == Stretch(seen) && lastNotified == LastTold(sent)
    }

    /** `notify_system_health_observation`; the result is the message that was sent. */
    method Observe(o: Observation, ghost seen: seq<Observation>, ghost sent: seq<Option<Status>>)
        returns (message: Option<Status>)
      requires Summarizes(seen, sent)
      modifies this
      ensures Summarizes(seen + [o], sent + [message])
      ensures message == if Confirmed(seen + [o], Required(o)) && o.enabled && o.healthEnabled && o.channels
                            && (o.status == Degraded <==> LastTold(sent) != Some(Degraded))
                         then Some(o.status) else None
    {
      hide Stretch, LastTold, Confirmed, Required;
      StretchNext(seen, o);
      ConfirmedIsStretch(seen + [o], Required(o));
      ToldNext(sent, None);
      ToldNext(sent, Some(o.status));
      var count := if observedStatus == Some(o.status) then observedCount + 1 else 1;
      observedStatus := Some(o.status);
      observedCount := count;
      if count < Required(o) || !o.enabled || !o.healthEnabled {
        return None;
      }
      var shouldSend := if o.status == Degraded then lastNotified != Some(Degraded) else lastNotified == Some(Degraded);
      if !shouldSend || !o.channels {
        return None;
      }
      lastNotified := Some(o.status);
      return Some(o.status);
    }
  }

  /** What holds of the newest of the observations: a message repeats it, ends a confirmed
      stretch and was allowed; and a status confirmed while messages can be sent is what the
      recipients were told last. */
  predicate Fair(seen: seq<Observation>, sent: seq<Option<Status>>)
    requires seen != [] && |sent| == |seen|
  {
    var o, message := seen[|seen| - 1], sent[|sent| - 1];
    && (message.Some? ==>
        message.value == o.status && o.enabled && o.healthEnabled && o.channels && Confirmed(seen, Required(o)))
    && (Confirmed(seen, Required(o)) && o.enabled && o.healthEnabled && o.channels ==>
        (LastTold(sent) == Some(Degraded) <==> o.status == Degraded))
  }

  predicate FairAt(observations: seq<Observation>, sent: seq<Option<Status>>, i: nat)
    requires i < |sent| <= |observations|
  {
    Fair(observations[..i + 1], sent[..i + 1])
  }

  ghost predicate AlwaysFair(observations: seq<Observation>, sent: seq<Option<Status>>)
    requires |sent| <= |observations|
  {
    forall i :: 0 <= i < |sent| ==> FairAt(observations, sent, i)
  }

  /** No stretch ever got as long as the confirmations demanded of it. */
  ghost predicate NeverConfirmed(observations: seq<Observation>) {
    forall i :: 0 <= i < |observations| ==> Stretch(observations[..i + 1]) < Required(observations[i])
  }

  lemma FairNext(observations: seq<Observation>, sent: seq<Option<Status>>, message: Option<Status>)
    requires |sent| < |observations| && AlwaysFair(observations, sent)
    requires Fair(observations[..|sent| + 1], sent + [message])
    ensures AlwaysFair(observations, sent + [message])
  {
    hide Fair;
    var more := sent + [message];
    forall i | 0 <= i < |more| ensures FairAt(observations, more, i) {
      assert i < |sent| ==> FairAt(observations, sent, i);
      assert i < |sent| ==> more[..i + 1] == sent[..i + 1];
      assert more[..|more|] == more;
    }
  }

  lemma {:induction false} MessagesNext(sent: seq<Option<Status>>, message: Option<Status>)
    requires Alternating(Messages(sent))
    requires message.Some? ==> (message.value == Degraded <==> LastTold(sent) != Some(Degraded))
    ensures Messages(sent + [message]) == Messages(sent) + if message.Some? then [message.value] else []
    ensures Alternating(Messages(sent + [message]))
  {
    LastMessage(sent);
    assert (sent + [message])[..|sent|] == sent;
  }

  /** As many observations up to i as its confirmations demand had the status of i. */
  predicate Repeated(observations: seq<Observation>, i: nat)
    requires i < |observations|
  {
    && observations[i].confirmations <= i + 1
    && forall k :: 0 <= k <= i && i - k < observations[i].confirmations ==>
      observations[k].status == observations[i].status
  }

  lemma RepeatedIsConfirmed(observations: seq<Observation>, i: nat)
    requires i < |observations|
    ensures Repeated(observations, i) <==> Confirmed(observations[..i + 1], Required(observations[i]))
  {
  }

  /** A message is what was observed, when it was allowed and repeated often enough; and once
      that is so, the recipients were told. */
  predicate Justified(observations: seq<Observation>, sent: seq<Option<Status>>, i: nat)
    requires i < |sent| == |observations|
  {
    var o := observations[i];
    && (sent[i].Some? ==>
        sent[i].value == o.status && o.enabled && o.healthEnabled && o.channels && Repeated(observations, i))
    && (Repeated(observations, i) && o.enabled && o.healthEnabled && o.channels ==>
        (LastTold(sent[..i + 1]) == Some(Degraded) <==> o.status == Degraded))
  }

  lemma FairIsJustified(observations: seq<Observation>, sent: seq<Option<Status>>, i: nat)
    requires |sent| == |observations| && AlwaysFair(observations, sent) && i < |sent|
    ensures Justified(observations, sent, i)
  {
    hide Confirmed, Repeated, Required;
    assert FairAt(observations, sent, i);
    RepeatedIsConfirmed(observations, i);
  }

  /** Over any observations and settings: messages alternate, starting with a degraded one;
      every step is fair; and where no stretch is long enough nothing is sent. */
  method ObserveAll(observations: seq<Observation>) returns (sent: seq<Option<Status>>)
    ensures |sent| == |observations|
    ensures Alternating(Messages(sent))
    ensures AlwaysFair(observations, sent)
    ensures forall i :: 0 <= i < |sent| ==> Justified(observations, sent, i)
    ensures NeverConfirmed(observations) ==> Messages(sent) == []
  {
    hide Fair, Alternating, AlwaysFair, Stretch, Messages, LastTold, Confirmed;
    var notifier := new HealthNotifier();
    sent := [];
    Silence(observations);
    var i := 0;
    while i < |observations|
      invariant 0 <= i <= |observations| && |sent| == i && fresh(notifier)
      invariant notifier.Summarizes(observations[..i], sent)
      invariant Alternating(Messages(sent)) && AlwaysFair(observations, sent)
      invariant NeverConfirmed(observations) ==> Messages(sent) == []
    {
      var o := observations[i];
      assert observations[..i + 1] == observations[..i] + [o];
      var message := notifier.Observe(o, observations[..i], sent);
      ConfirmedIsStretch(observations[..i + 1], Required(o));
      StepIsFair(observations[..i], sent, o, message);
      FairNext(observations, sent, message);
      MessagesNext(sent, message);
      sent := sent + [message];
      i := i + 1;
    }
    hide Justified;
    forall k | 0 <= k < |sent| ensures Justified(observations, sent, k) {
      FairIsJustified(observations, sent, k);
    }
  }

  lemma Silence(observations: seq<Observation>)
    ensures Messages([]) == [] && Alternating([]) && AlwaysFair(observations, [])
    ensures Stretch([]) == 0 && LastTold([]) == None && observations[..0] == []
  {
  }

  lemma StepIsFair(seen: seq<Observation>, sent: seq<Option<Status>>, o: Observation, message: Option<Status>)
    requires |sent| == |seen|
    requires message == if Confirmed(seen + [o], Required(o)) && o.enabled && o.healthEnabled && o.channels
                           && (o.status == Degraded <==> LastTold(sent) != Some(Degraded))
                        then Some(o.status) else None
    ensures Fair(seen + [o], sent + [message])
  {
    hide Confirmed;
    ToldNext(sent, message);
  }
}
