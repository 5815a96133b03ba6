/** The hardware bus: device handlers register and receive the smallest free id. */
module HandlerRegistry {
  import opened Words
  import opened Pigeonhole

  const MAX_HANDLER_CLASSES := 2147483640
  const SLOT_BYTES := 4

  // ---------------------------------------------------------------- the smallest free id

  ghost predicate AllBelow(ids: seq<nat>, v: nat)
    requires 1 <= v
  {
    Covers(ids, 1, v - 1)
  }

  lemma NoneBelow(ids: seq<nat>)
    ensures AllBelow(ids, 1)
  {
  }

  lemma NextBelow(ids: seq<nat>, v: nat)
    requires 1 <= v && AllBelow(ids, v) && v in ids
    ensures AllBelow(ids, v + 1) && v <= |ids|
  {
    CoverNeeds(ids, 1, v);
  }

  /** The least number from `v` on that is not an id. */
  function LeastFrom(ids: seq<nat>, v: nat): (r: nat)
    requires 1 <= v && AllBelow(ids, v)
    ensures v <= r && r !in ids && AllBelow(ids, r)
    decreases |ids| + 1 - v
  {
    CoverNeeds(ids, 1, v - 1);
    if v in ids then
      CoverNeeds(ids, 1, v);
      LeastFrom(ids, v + 1)
    else v
  }

  function LeastFree(ids: seq<nat>): (r: nat)
    ensures 1 <= r && r !in ids && AllBelow(ids, r)
  {
    LeastFrom(ids, 1)
  }

  /** It is the only positive number with these two properties. */
  lemma LeastFreeUnique(ids: seq<nat>, r: nat)
    requires 1 <= r && r !in ids && AllBelow(ids, r)
    ensures r == LeastFree(ids) && r <= |ids| + 1
  {
    CoverNeeds(ids, 1, r - 1);
  }

  /** An id 0 in the list changes nothing. */
  lemma ZeroIsNoId(ids: seq<nat>)
    ensures LeastFree(ids + [0]) == LeastFree(ids) <= |ids| + 1
  {
    var r := LeastFree(ids + [0]);
    forall w | 1 <= w < r
      ensures w in ids
    {
      assert w in ids + [0];
    }
    assert r !in ids by { assert forall w | w in ids :: w in ids + [0]; }
    LeastFreeUnique(ids, r);
  }

  // ---------------------------------------------------------------- over a run

  /** The ids after a sequence of registrations of fresh records, each of which is
      accepted or not. */
  function AfterRegistrations(accepted: seq<bool>): seq<nat> {
    if accepted == [] then []
    else
      var ids := AfterRegistrations(accepted[..|accepted| - 1]);
      if accepted[|accepted| - 1] then ids + [LeastFree(ids + [0])] else ids
  }

  /** Over any run the k-th accepted handler gets id k: the ids are 1, 2, 3, ... */
  lemma {:induction false} IdsAreConsecutive(accepted: seq<bool>)
    ensures var ids := AfterRegistrations(accepted);
      (forall i | 0 <= i < |ids| :: ids[i] == i + 1) && Distinct(ids)
  {
    if accepted != [] {
      var before := accepted[..|accepted| - 1];
      IdsAreConsecutive(before);
      var ids := AfterRegistrations(before);
      ZeroIsNoId(ids);
      forall w | 1 <= w < |ids| + 1
        ensures w in ids
      {
        assert ids[w - 1] == w;
      }
      LeastFreeUnique(ids, |ids| + 1);
    }
  }

  // ---------------------------------------------------------------- the bus

  lemma FreeIsNew(ids: seq<nat>, id: nat)
    ensures LeastFree(ids + [id]) !in ids && LeastFree(ids + [id]) > 0
  {
    assert forall w | w in ids :: w in ids + [id];
  }

  lemma NewStaysDistinct(ids: seq<nat>, id: nat)
    requires Distinct(ids) && 0 !in ids && id !in ids && id > 0
    ensures Distinct(ids + [id]) && 0 !in ids + [id]
  {
  }

  lemma Clash(ids: seq<nat>, i: nat, j: nat)
    requires i < j < |ids| && ids[i] == ids[j]
    ensures !Distinct(ids)
  {
  }

  /** A handler's registration record. */
  class Registration {
    var id: nat
    constructor (id: nat)
      ensures this.id == id
    {
      this.id := id;
    }
  }

  function IdsOf(rs: seq<Registration>): seq<nat>
    reads rs
  {
    seq(|rs|, i requires 0 <= i < |rs| reads rs => rs[i].id)
  }

  /** What the system answers to one registration: the free internal memory, whether the
      list could be allocated, and whether the task of the handler could be created. */
  datatype Answer = Answer(freeHeap: Word32, memory: bool, taskCreated: bool)

  /** How a registration ends: it returns an id or 0, or the list could not be allocated and
      the record is written through a null pointer. */
  datatype Outcome = Returned(id: nat) | NullWrite

  /** After `n` handlers, the next one passes the checks for a slot and for memory. */
  predicate PassesAfter(n: nat, answer: Answer) {
    n < MAX_HANDLER_CLASSES && SLOT_BYTES * (n + 1) % 0x1_0000_0000 <= answer.freeHeap
  }

  predicate AcceptsAfter(n: nat, answer: Answer) {
    PassesAfter(n, answer) && answer.memory && answer.taskCreated
  }

  predicate CrashesAfter(n: nat, answer: Answer) {
    PassesAfter(n, answer) && !answer.memory
  }

  /** There is memory for all of the list, and every task is created. */
  predicate Ample(answers: seq<Answer>) {
    && 4 * |answers| < 0x1_0000_0000
    && forall i | 0 <= i < |answers| ::
         4 * |answers| <= answers[i].freeHeap && answers[i].memory && answers[i].taskCreated
  }

  lemma OneMore(accepted: seq<bool>, more: bool)
    ensures AfterRegistrations([]) == []
    ensures var ids := AfterRegistrations(accepted);
      AfterRegistrations(accepted + [more]) == if more then ids + [LeastFree(ids + [0])] else ids
  {
    assert (accepted + [more])[..|accepted|] == accepted;
  }

  lemma AmpleAccepts(n: nat, answers: seq<Answer>)
    requires Ample(answers) && n < |answers|
    ensures AcceptsAfter(n, answers[n]) && !CrashesAfter(n, answers[n])
  {
    assert 4 * (n + 1) <= 4 * |answers|;
  }

  lemma {:induction false} AmpleRun(accepted: seq<bool>, answers: seq<Answer>)
    requires Ample(answers) && |accepted| <= |answers|
    requires forall i | 0 <= i < |accepted| ::
      accepted[i] == AcceptsAfter(|AfterRegistrations(accepted[..i])|, answers[i])
    ensures (forall i | 0 <= i < |accepted| :: accepted[i]) && |AfterRegistrations(accepted)| == |accepted|
  {
    hide AcceptsAfter, CrashesAfter, Ample, LeastFree, AfterRegistrations;
    OneMore([], true);
    if accepted != [] {
      var n := |accepted| - 1;
      var before := accepted[..n];
      assert forall i | 0 <= i < n :: before[..i] == accepted[..i];
      AmpleRun(before, answers);
      AmpleAccepts(n, answers);
      OneMore(before, accepted[n]);
      assert accepted == before + [accepted[n]];
    }
  }

  lemma AmpleEnds(accepted: seq<bool>, answers: seq<Answer>)
    requires |accepted| <= |answers|
    requires forall i | 0 <= i < |accepted| ::
      accepted[i] == AcceptsAfter(|AfterRegistrations(accepted[..i])|, answers[i])
    ensures Ample(answers) ==>
      && accepted == seq(|accepted|, _ => true) && AfterRegistrations(accepted) == seq(|accepted|, i => i + 1)
      && (|accepted| < |answers| ==> !CrashesAfter(|AfterRegistrations(accepted)|, answers[|accepted|]))
  {
    hide AcceptsAfter, CrashesAfter, Ample, LeastFree, AfterRegistrations;
    if Ample(answers) {
      AmpleRun(accepted, answers);
      IdsAreConsecutive(accepted);
      if |accepted| < |answers| { AmpleAccepts(|accepted|, answers); }
    }
  }

  class Hardware {
    /** The slots; a failed registration may leave one behind the registered ones. */
    var handlerClasses: seq<Registration>
    var numberOfHandlerClasses: nat

    ghost function Registered(): seq<Registration>
      reads this
      requires numberOfHandlerClasses <= |handlerClasses|
    {
      handlerClasses[..numberOfHandlerClasses]
    }

    ghost function Ids(): seq<nat>
      reads this, handlerClasses
      requires numberOfHandlerClasses <= |handlerClasses|
    {
      IdsOf(Registered())
    }

    predicate Counted()
      reads this
    {
      numberOfHandlerClasses <= |handlerClasses| && numberOfHandlerClasses <= MAX_HANDLER_CLASSES
    }

    /** The ids of registered handlers are positive and pairwise distinct. */
    ghost predicate Valid()
      reads this, handlerClasses
    {
      Counted() && Distinct(Ids()) && 0 !in Ids()
    }

    predicate Accepts(answer: Answer)
      reads this
    {
      AcceptsAfter(numberOfHandlerClasses, answer)
    }

    predicate Crashes(answer: Answer)
      reads this
    {
      CrashesAfter(numberOfHandlerClasses, answer)
    }

    constructor ()
      ensures Valid() && Registered() == []
    {
      handlerClasses, numberOfHandlerClasses := [], 0;
    }

    /** The scan of `registerType`, which starts over each time it meets `tmpMin`. */
    method ScanIds() returns (tmpMin: nat)
      requires Counted()
      ensures tmpMin == LeastFree(Ids())
    {
      hide LeastFree, AllBelow;
      ghost var ids := Ids();
      var n := numberOfHandlerClasses;
      assert forall j | 0 <= j < n :: handlerClasses[j].id == ids[j];
      var tmpId := 0;
      tmpMin := 1;
      NoneBelow(ids);
      while tmpId <= MAX_HANDLER_CLASSES && tmpId < n
        invariant 0 <= tmpId <= n && 1 <= tmpMin <= n + 1
        invariant AllBelow(ids, tmpMin)
        invariant forall j | 0 <= j < tmpId :: ids[j] != tmpMin
        decreases n + 1 - tmpMin, n - tmpId
      {
        tmpId := tmpId + 1;
        if handlerClasses[tmpId - 1].id == tmpMin {
          assert ids[tmpId - 1] == tmpMin;
          NextBelow(ids, tmpMin);
          tmpMin := tmpMin + 1;
          tmpId := 0;
        }
      }
      LeastFreeUnique(ids, tmpMin);
    }

    /** `registerType`, for any record: a record that is registered already ends up twice
        in the list, and only then do the ids clash.  When the list cannot be allocated, its
        pointer is lost. */
    method RegisterType(reg: Registration, answer: Answer) returns (outcome: Outcome)
      requires Valid()
      modifies this, reg
      ensures outcome == NullWrite <==> old(Crashes(answer))
      ensures outcome == NullWrite ==>
        handlerClasses == [] && numberOfHandlerClasses == old(numberOfHandlerClasses) && reg.id == old(reg.id)
      ensures outcome.Returned? ==> Counted()
      ensures outcome.Returned? ==>
        if old(Accepts(answer)) then
          && outcome.id == reg.id == LeastFree(old(Ids()) + [old(reg.id)])
          && Registered() == old(Registered()) + [reg]
        else outcome.id == 0 && reg.id == old(reg.id) && Registered() == old(Registered())
      ensures outcome.Returned? && reg !in old(Registered()) ==>
        Valid() && Ids() == old(Ids()) + if old(Accepts(answer)) then [outcome.id] else []
      ensures outcome.Returned? ==> (Valid() <==> !(old(Accepts(answer)) && reg in old(Registered())))
      // in plain numbers, as long as the size of the list is a 32-bit number
      ensures var need := 4 * (old(numberOfHandlerClasses) + 1);
        && (need <= answer.freeHeap ==> (outcome == NullWrite <==> !answer.memory))
        && (need <= answer.freeHeap && answer.memory ==> (outcome.id > 0 <==> answer.taskCreated))
        && (answer.freeHeap < need < 0x1_0000_0000 ==>
              outcome == Returned(0) && reg.id == old(reg.id) && Registered() == old(Registered()))
    {
      if numberOfHandlerClasses >= MAX_HANDLER_CLASSES {
        return Returned(0);
      }
      if answer.freeHeap < SLOT_BYTES * (numberOfHandlerClasses + 1) % 0x1_0000_0000 {
        return Returned(0);
      }
      if !answer.memory {
        handlerClasses := [];
        return NullWrite;
      }
      hide LeastFree, Distinct;
      ghost var before, rs := Ids(), Registered();
      handlerClasses := handlerClasses[..numberOfHandlerClasses] + [reg];
      assert handlerClasses[..numberOfHandlerClasses] == rs;
      if answer.taskCreated {
        numberOfHandlerClasses := numberOfHandlerClasses + 1;
        assert Ids() == before + [reg.id];
        var tmpMin := ScanIds();
        reg.id := tmpMin;
        assert Registered() == rs + [reg];
        if reg in rs {
          ghost var j :| 0 <= j < |rs| && rs[j] == reg;
          Clash(Ids(), j, |rs|);
        } else {
          FreeIsNew(before, old(reg.id));
          NewStaysDistinct(before, tmpMin);
          assert Ids() == before + [tmpMin];
        }
        return Returned(reg.id);
      }
      return Returned(0);
    }

    /** Handlers that register one after the other on a new bus, each with a record of its
        own whose id is 0, until one writes through a null pointer. */
    method RegisterAll(regs: seq<Registration>, answers: seq<Answer>) returns (accepted: seq<bool>, crashed: bool)
      requires Valid() && Registered() == []
      requires |answers| == |regs|
      requires forall i, j | 0 <= i < j < |regs| :: regs[i] != regs[j]
      requires forall i | 0 <= i < |regs| :: regs[i].id == 0
      modifies this, regs
      ensures |accepted| <= |regs| && (crashed <==> |accepted| < |regs|)
      ensures crashed ==> CrashesAfter(|AfterRegistrations(accepted)|, answers[|accepted|])
      ensures !crashed ==> Valid() && Ids() == AfterRegistrations(accepted)
      ensures forall i | 0 <= i < |accepted| ::
        var n := |AfterRegistrations(accepted[..i])|;
        accepted[i] == AcceptsAfter(n, answers[i]) && !CrashesAfter(n, answers[i])
      // with memory for the whole list, and every task created, they all get their ids
      ensures Ample(answers) ==>
        !crashed && accepted == seq(|regs|, _ => true) && Ids() == seq(|regs|, i => i + 1)
    {
      hide AfterRegistrations, Ample, LeastFree, Distinct, AcceptsAfter, CrashesAfter;
      OneMore([], true);
      accepted, crashed := [], false;
      for i := 0 to |regs|
        invariant Valid() && |accepted| == i && Ids() == AfterRegistrations(accepted) && !crashed
        invariant forall j | i <= j < |regs| :: regs[j].id == 0
        invariant forall r | r in Registered() :: exists j :: 0 <= j < i && regs[j] == r
        invariant forall j | 0 <= j < i ::
          var n := |AfterRegistrations(accepted[..j])|;
          accepted[j] == AcceptsAfter(n, answers[j]) && !CrashesAfter(n, answers[j])
      {
        ghost var before := accepted;
        var accepts := Accepts(answers[i]);
        var outcome := RegisterType(regs[i], answers[i]);
        if outcome == NullWrite {
          crashed := true;
          AmpleEnds(accepted, answers);
          return;
        }
        OneMore(accepted, accepts);
        accepted := accepted + [accepts];
        assert accepted[..i] == before && forall j | 0 <= j < i :: accepted[..j] == before[..j];
      }
      AmpleEnds(accepted, answers);
    }
  }
}
