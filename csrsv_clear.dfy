/** rocsparse_csrsv_clear: release the csrsv analysis attached to a matrix
    info record. Each of the four slots is handed to the analysis destructor
    unless the sharing check says another part of the record still uses it;
    the first failing destruction is returned at once, and only when all of
    them succeed are the four slots reset to null. */
module CsrsvClear {
  import opened Types

  /** rocsparse_destroy_trm_info, a collaborator whose code is not part of
      this model: it records every pointer it is handed and returns the
      status `outcome` gives for that pointer. Nothing is assumed about what
      it does with a null pointer. */
  class TrmStore {
    /** Every pointer handed to the destructor, in call order. */
    var freed: seq<Trm>
    /** The status the destructor returns for each pointer. */
    const outcome: Trm -> Status

    constructor (outcome: Trm -> Status)
      ensures this.outcome == outcome && freed == []
    {
      this.outcome := outcome;
      freed := [];
    }

    method Destroy(t: Trm) returns (s: Status)
      modifies this
      ensures s == outcome(t)
      ensures freed == old(freed) + [t]
    {
      s := outcome(t);
      freed := freed + [t];
    }
  }

  /** One slot's share of the destroyed pointers: the slot itself unless
      the sharing check flags it. */
  function Kept(t: Trm, shared: Trm -> bool): seq<Trm> {
    if shared(t) then [] else [t]
  }

  /** The i-th slot in clear's visiting order. */
  function SlotAt(slots: Slots, i: nat): Trm
    requires i < |ClearOrder|
  {
    slots.At(ClearOrder[i])
  }

  /** The pointers clear hands to the destructor from the first i slots of
      its visiting order, when every destruction succeeds. */
  function Through(slots: Slots, shared: Trm -> bool, i: nat): (r: seq<Trm>)
    requires i <= |ClearOrder|
    ensures |r| <= i
  {
    if i == 0 then [] else Through(slots, shared, i - 1) + Kept(SlotAt(slots, i - 1), shared)
  }

  /** A pointer is handed over from the first i slots exactly when one of
      them holds it and the sharing check does not flag it. */
  lemma {:induction false} ThroughMembers(slots: Slots, shared: Trm -> bool, i: nat)
    requires i <= |ClearOrder|
    ensures forall t :: t in Through(slots, shared, i) <==>
              !shared(t) && exists j :: 0 <= j < i && SlotAt(slots, j) == t
  {
    if i > 0 {
      ThroughMembers(slots, shared, i - 1);
    }
  }

  /** Visiting fewer slots hands over a prefix of the pointers. */
  lemma {:induction false} ThroughPrefix(slots: Slots, shared: Trm -> bool, i: nat, n: nat)
    requires i <= n <= |ClearOrder|
    ensures Through(slots, shared, i) <= Through(slots, shared, n)
  {
    if i < n {
      ThroughPrefix(slots, shared, i, n - 1);
    }
  }

  /** Every slot is visited: its pointer is handed over unless it is shared. */
  lemma SlotsVisited(slots: Slots, shared: Trm -> bool)
    ensures forall v :: slots.At(v) in Through(slots, shared, |ClearOrder|) <==> !shared(slots.At(v))
  {
    ThroughMembers(slots, shared, |ClearOrder|);
    forall v ensures slots.At(v) in Through(slots, shared, |ClearOrder|) <==> !shared(slots.At(v)) {
      match v
      case Lower => assert SlotAt(slots, 0) == slots.At(v);
      case LowerT => assert SlotAt(slots, 1) == slots.At(v);
      case Upper => assert SlotAt(slots, 2) == slots.At(v);
      case UpperT => assert SlotAt(slots, 3) == slots.At(v);
    }
  }

  /** Only pointers some slot holds are handed over. */
  lemma ThroughHoldsSlots(slots: Slots, shared: Trm -> bool)
    ensures forall t :: t in Through(slots, shared, |ClearOrder|) <==>
              !shared(t) && exists v :: slots.At(v) == t
  {
    ThroughMembers(slots, shared, |ClearOrder|);
    SlotsVisited(slots, shared);
    forall t | t in Through(slots, shared, |ClearOrder|)
      ensures exists v :: slots.At(v) == t
    {
      var j :| 0 <= j < |ClearOrder| && SlotAt(slots, j) == t;
      assert slots.At(ClearOrder[j]) == t;
    }
  }

  /** The pointers clear hands to the destructor when every call succeeds:
      the slots that are not shared, in the order lower, lower-transposed,
      upper, upper-transposed. */
  function Pending(slots: Slots, shared: Trm -> bool): (r: seq<Trm>)
    ensures |r| <= |ClearOrder|
    ensures forall v :: slots.At(v) in r <==> !shared(slots.At(v))
    ensures forall t :: t in r <==> !shared(t) && exists v :: slots.At(v) == t
  {
    SlotsVisited(slots, shared);
    ThroughHoldsSlots(slots, shared);
    Through(slots, shared, |ClearOrder|)
  }

  /** Pending, slot by slot, in visiting order. */
  lemma PendingBySlot(slots: Slots, shared: Trm -> bool)
    ensures Pending(slots, shared)
         == Kept(slots.lower, shared) + Kept(slots.lowerT, shared)
          + Kept(slots.upper, shared) + Kept(slots.upperT, shared)
  {
    assert Through(slots, shared, 1) == [] + Kept(slots.lower, shared) == Kept(slots.lower, shared);
    assert Through(slots, shared, 2) == Kept(slots.lower, shared) + Kept(slots.lowerT, shared);
    assert Through(slots, shared, 3) == Through(slots, shared, 2) + Kept(slots.upper, shared);
    assert Through(slots, shared, 4) == Through(slots, shared, 3) + Kept(slots.upperT, shared);
  }

  /** The number of pointers of ts the destructor accepts before the first
      one it fails on (|ts| when it fails on none). */
  function FirstFailure(ts: seq<Trm>, outcome: Trm -> Status): (k: nat)
    ensures k <= |ts|
    ensures forall j :: 0 <= j < k ==> outcome(ts[j]) == Success
    ensures k < |ts| ==> outcome(ts[k]) != Success
  {
    if ts == [] || outcome(ts[0]) != Success then 0
    else 1 + FirstFailure(ts[1..], outcome)
  }

  /** What one call of clear does: its status, the pointers it hands to the
      destructor, and whether it resets the four slots to null. */
  datatype ClearOutcome = ClearOutcome(status: Status, destroyed: seq<Trm>, reset: bool)

  function ClearOutcomeOf(handleOk: bool, descrOk: bool, infoOk: bool, slots: Slots,
                          shared: Trm -> bool, outcome: Trm -> Status): ClearOutcome
  {
    if !handleOk then ClearOutcome(InvalidHandle, [], false)
    else if !descrOk || !infoOk then ClearOutcome(InvalidPointer, [], false)
    else
      var pending := Pending(slots, shared);
      var k := FirstFailure(pending, outcome);
      if k == |pending| then ClearOutcome(Success, pending, true)
      else ClearOutcome(outcome(pending[k]), pending[..k + 1], false)
  }

  /** What clear promises, whatever the sharing check and the destructor answer. */
  lemma ClearOutcomeSpec(handleOk: bool, descrOk: bool, infoOk: bool, slots: Slots,
                         shared: Trm -> bool, outcome: Trm -> Status)
    ensures var o := ClearOutcomeOf(handleOk, descrOk, infoOk, slots, shared, outcome);
      // argument checks come first, in the order handle, descr, info, and touch nothing
      && (!handleOk ==> o == ClearOutcome(InvalidHandle, [], false))
      && (handleOk && !(descrOk && infoOk) ==> o == ClearOutcome(InvalidPointer, [], false))
      // the slots are reset exactly when clear succeeds
      && (o.reset <==> o.status == Success)
      // only pointers the slots hold are destroyed, and never a shared one
      && (forall t :: t in o.destroyed ==> !shared(t) && exists v :: slots.At(v) == t)
      // the destroyed pointers follow the visiting order: all of it on success
      && o.destroyed <= Pending(slots, shared)
      && (o.reset ==> o.destroyed == Pending(slots, shared))
      // a failure is the destructor's status for the last pointer handed over,
      // and every earlier destruction succeeded
      && (handleOk && descrOk && infoOk && !o.reset ==>
            o.destroyed != [] && o.status == outcome(o.destroyed[|o.destroyed| - 1]) &&
            forall j :: 0 <= j < |o.destroyed| - 1 ==> outcome(o.destroyed[j]) == Success)
  {
    var pending := Pending(slots, shared);
    var k := FirstFailure(pending, outcome);
    if handleOk && descrOk && infoOk && k < |pending| {
      forall t | t in pending[..k + 1]
        ensures !shared(t) && exists v :: slots.At(v) == t
      {
        assert t in pending;
      }
    }
  }

  /** The destructor accepted every pointer handed over from the first i
      slots. */
  ghost predicate Accepted(slots: Slots, shared: Trm -> bool, outcome: Trm -> Status, i: nat)
    requires i <= |ClearOrder|
  {
    i == 0 ||
    (Accepted(slots, shared, outcome, i - 1) &&
     (shared(SlotAt(slots, i - 1)) || outcome(SlotAt(slots, i - 1)) == Success))
  }

  lemma {:induction false} AcceptedThrough(slots: Slots, shared: Trm -> bool, outcome: Trm -> Status, i: nat)
    requires i <= |ClearOrder|
    requires Accepted(slots, shared, outcome, i)
    ensures forall u :: u in Through(slots, shared, i) ==> outcome(u) == Success
  {
    if i > 0 {
      AcceptedThrough(slots, shared, outcome, i - 1);
    }
  }

  /** The outcome of a clear whose destruction of slot i fails after every
      destruction before it succeeded. */
  lemma FailsAt(slots: Slots, shared: Trm -> bool, outcome: Trm -> Status, i: nat)
    requires i < |ClearOrder|
    requires Accepted(slots, shared, outcome, i)
    requires !shared(SlotAt(slots, i)) && outcome(SlotAt(slots, i)) != Success
    ensures ClearOutcomeOf(true, true, true, slots, shared, outcome)
         == ClearOutcome(outcome(SlotAt(slots, i)), Through(slots, shared, i + 1), false)
  {
    AcceptedThrough(slots, shared, outcome, i);
    var pending := Pending(slots, shared);
    var before := Through(slots, shared, i);
    ThroughPrefix(slots, shared, i + 1, |ClearOrder|);
    assert pending[..|before| + 1] == before + [SlotAt(slots, i)];
    FirstFailureAt(pending, outcome, |before|);
  }

  /** The first failure is at k when every pointer before k is accepted and
      the one at k is not. */
  lemma FirstFailureAt(ts: seq<Trm>, outcome: Trm -> Status, k: nat)
    requires k < |ts|
    requires forall j :: 0 <= j < k ==> outcome(ts[j]) == Success
    requires outcome(ts[k]) != Success
    ensures FirstFailure(ts, outcome) == k
  {
  }

  /** The outcome of a clear whose destructions all succeed. */
  lemma AllSucceed(slots: Slots, shared: Trm -> bool, outcome: Trm -> Status)
    requires Accepted(slots, shared, outcome, |ClearOrder|)
    ensures ClearOutcomeOf(true, true, true, slots, shared, outcome)
         == ClearOutcome(Success, Pending(slots, shared), true)
  {
    AcceptedThrough(slots, shared, outcome, |ClearOrder|);
    var pending := Pending(slots, shared);
    assert FirstFailure(pending, outcome) == |pending|;
  }

  /** A destructor that accepts every slot accepts the whole run. */
  lemma AllAccepted(slots: Slots, shared: Trm -> bool, outcome: Trm -> Status)
    requires forall v :: outcome(slots.At(v)) == Success
    ensures Accepted(slots, shared, outcome, |ClearOrder|)
  {
    assert outcome(SlotAt(slots, 0)) == Success;
    assert Accepted(slots, shared, outcome, 1);
    assert outcome(SlotAt(slots, 1)) == Success;
    assert Accepted(slots, shared, outcome, 2);
    assert outcome(SlotAt(slots, 2)) == Success;
    assert Accepted(slots, shared, outcome, 3);
    assert outcome(SlotAt(slots, 3)) == Success;
  }

  /** Releasing slot i extends the pointers handed over so far. */
  lemma Step(slots: Slots, shared: Trm -> bool, freed0: seq<Trm>, freed: seq<Trm>, i: nat)
    requires i < |ClearOrder|
    requires freed == freed0 + Through(slots, shared, i) + Kept(SlotAt(slots, i), shared)
    ensures freed == freed0 + Through(slots, shared, i + 1)
  {
  }

  /** One step of clear: a slot the sharing check does not flag is handed
      to the destructor, whose status is returned; a flagged slot is skipped. */
  method Release(t: Trm, shared: Trm -> bool, store: TrmStore) returns (status: Status)
    modifies store
    ensures status == if shared(t) then Success else store.outcome(t)
    ensures store.freed == old(store.freed) + Kept(t, shared)
  {
    if !shared(t) {
      status := store.Destroy(t);
    } else {
      status := Success;
      assert store.freed + [] == store.freed;
    }
  }

  /** rocsparse_csrsv_clear. `shared` answers rocsparse_check_trm_shared for
      the record as it is on entry; `store` is the analysis destructor. */
  method Clear(handle: Handle?, descr: MatDescr?, info: MatInfo?, shared: Trm -> bool, store: TrmStore)
    returns (status: Status)
    modifies info, store
    ensures var o := ClearOutcomeOf(handle != null, descr != null, info != null,
                                    if info == null then Unanalysed else old(info.SlotValues()),
                                    shared, store.outcome);
            status == o.status &&
            store.freed == old(store.freed) + o.destroyed &&
            (info != null ==> info.SlotValues() == if o.reset then Unanalysed else old(info.SlotValues()))
    ensures info != null ==> info.zeroPivot == old(info.zeroPivot)
  {
    if handle == null {
      return InvalidHandle;
    } else if descr == null {
      return InvalidPointer;
    } else if info == null {
      return InvalidPointer;
    }
    status := ReleaseAll(info, shared, store);
  }

  /** The body of clear once its arguments are checked: release the four
      slots in order, stopping at the first failure, and reset them all to
      null when every release succeeds. */
  method ReleaseAll(info: MatInfo, shared: Trm -> bool, store: TrmStore) returns (status: Status)
    modifies info, store
    ensures var o := ClearOutcomeOf(true, true, true, old(info.SlotValues()), shared, store.outcome);
            status == o.status &&
            store.freed == old(store.freed) + o.destroyed &&
            info.SlotValues() == if o.reset then Unanalysed else old(info.SlotValues())
    ensures info.zeroPivot == old(info.zeroPivot)
  {
    ghost var slots := info.SlotValues();
    ghost var outcome := store.outcome;
    ghost var freed0 := store.freed;
    assert store.freed == freed0 + Through(slots, shared, 0);
    assert Accepted(slots, shared, outcome, 0);

    assert info.csrsvLower == SlotAt(slots, 0);
    status := Release(info.csrsvLower, shared, store);
    Step(slots, shared, freed0, store.freed, 0);
    if status != Success {
      FailsAt(slots, shared, outcome, 0);
      return;
    }
    assert Accepted(slots, shared, outcome, 1);

    assert info.csrsvtLower == SlotAt(slots, 1);
    status := Release(info.csrsvtLower, shared, store);
    Step(slots, shared, freed0, store.freed, 1);
    if status != Success {
      FailsAt(slots, shared, outcome, 1);
      return;
    }
    assert Accepted(slots, shared, outcome, 2);

    assert info.csrsvUpper == SlotAt(slots, 2);
    status := Release(info.csrsvUpper, shared, store);
    Step(slots, shared, freed0, store.freed, 2);
    if status != Success {
      FailsAt(slots, shared, outcome, 2);
      return;
    }
    assert Accepted(slots, shared, outcome, 3);

    assert info.csrsvtUpper == SlotAt(slots, 3);
    status := Release(info.csrsvtUpper, shared, store);
    Step(slots, shared, freed0, store.freed, 3);
    if status != Success {
      FailsAt(slots, shared, outcome, 3);
      return;
    }
    assert Accepted(slots, shared, outcome, 4);
    AllSucceed(slots, shared, outcome);

    info.csrsvLower := Null;
    info.csrsvtLower := Null;
    info.csrsvUpper := Null;
    info.csrsvtUpper := Null;

    return Success;
  }

  /** The sharing check flags every pointer that two of the four slots hold:
      the behaviour assumed of rocsparse_check_trm_shared for the no-double-free
      property. */
  ghost predicate FlagsAliases(slots: Slots, shared: Trm -> bool) {
    forall v, w :: v != w && slots.At(v) == slots.At(w) && slots.At(v) != Null ==> shared(slots.At(v))
  }

  /** No analysis record appears twice. */
  predicate NoDuplicates(ts: seq<Trm>) {
    forall i, j :: 0 <= i < j < |ts| && ts[i] != Null ==> ts[i] != ts[j]
  }

  lemma {:induction false} ThroughNoDuplicates(slots: Slots, shared: Trm -> bool, i: nat)
    requires i <= |ClearOrder|
    requires FlagsAliases(slots, shared)
    ensures NoDuplicates(Through(slots, shared, i))
  {
    if i > 0 {
      ThroughNoDuplicates(slots, shared, i - 1);
      ThroughMembers(slots, shared, i - 1);
      var before := Through(slots, shared, i - 1);
      var t := SlotAt(slots, i - 1);
      if !shared(t) && t != Null {
        assert t !in before;
      }
    }
  }

  /** If the sharing check flags every aliased slot, clear never hands the
      same analysis record to the destructor twice. */
  lemma NoDoubleFree(handleOk: bool, descrOk: bool, infoOk: bool, slots: Slots,
                     shared: Trm -> bool, outcome: Trm -> Status)
    requires FlagsAliases(slots, shared)
    ensures NoDuplicates(ClearOutcomeOf(handleOk, descrOk, infoOk, slots, shared, outcome).destroyed)
  {
    ThroughNoDuplicates(slots, shared, |ClearOrder|);
    var o := ClearOutcomeOf(handleOk, descrOk, infoOk, slots, shared, outcome);
    var pending := Pending(slots, shared);
    assert forall i :: 0 <= i < |o.destroyed| ==> o.destroyed[i] == pending[i];
  }

  /** With no sharing and no failure, clear hands the four slots over in
      the order lower, lower-transposed, upper, upper-transposed. */
  lemma VisitingOrder(slots: Slots, outcome: Trm -> Status)
    requires forall t :: outcome(t) == Success
    ensures ClearOutcomeOf(true, true, true, slots, t => false, outcome)
         == ClearOutcome(Success, [slots.lower, slots.lowerT, slots.upper, slots.upperT], true)
  {
    PendingBySlot(slots, t => false);
    AllAccepted(slots, t => false, outcome);
    AllSucceed(slots, t => false, outcome);
  }

  /** Clearing a record with no analysis attached succeeds and hands nothing
      but null pointers to the destructor, provided it accepts a null pointer. */
  lemma ClearUnanalysed(shared: Trm -> bool, outcome: Trm -> Status)
    requires outcome(Null) == Success
    ensures var o := ClearOutcomeOf(true, true, true, Unanalysed, shared, outcome);
            o.status == Success && o.reset && forall t :: t in o.destroyed ==> t == Null
  {
    PendingBySlot(Unanalysed, shared);
    AllAccepted(Unanalysed, shared, outcome);
    AllSucceed(Unanalysed, shared, outcome);
  }
}
