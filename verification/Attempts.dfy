/** Numbered attempts at operations of the system, some of which fail by a schedule. */
module Attempts {
  /** The failing attempts among numbers start..end. */
  function Failures(fails: nat -> bool, start: nat, end: nat): nat
    requires start <= end
    decreases end
  {
    if start == end then 0 else Failures(fails, start, end - 1) + if fails(end - 1) then 1 else 0
  }

  lemma {:induction false} NoFailures(fails: nat -> bool, start: nat, end: nat)
    requires start <= end
    ensures Failures(fails, start, end) == 0 <==> (forall k :: start <= k < end ==> !fails(k))
    decreases end
  {
    if start < end {
      NoFailures(fails, start, end - 1);
    }
  }

  lemma OneAttempt(fails: nat -> bool, n: nat)
    ensures Failures(fails, n, n + 1) == (if fails(n) then 1 else 0) && Failures(fails, n, n) == 0
  {
  }

  lemma {:induction false} FailuresAdd(fails: nat -> bool, start: nat, mid: nat, end: nat)
    requires start <= mid <= end
    ensures Failures(fails, start, end) == Failures(fails, start, mid) + Failures(fails, mid, end)
    decreases end
  {
    if mid < end {
      FailuresAdd(fails, start, mid, end - 1);
    }
  }

  lemma FailuresWithin(fails: nat -> bool, start: nat, mid: nat, end: nat)
    requires start <= mid <= end
    requires Failures(fails, start, mid) == 0 ==> mid == end
    ensures Failures(fails, start, mid) == 0 <==> forall k :: start <= k < end ==> !fails(k)
  {
    FailuresAdd(fails, start, mid, end);
    NoFailures(fails, start, end);
  }
}
