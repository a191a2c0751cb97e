/** What more holds where requests do not overlap, and what overlapping requests can break. Whether
    they overlap is asked one set, or one identity, at a time; the rest of the service may do
    anything. */
module Serial {
  import opened Wrappers
  import opened Model
  import opened Records
  import opened Client
  import opened Protocol
  import opened Safety

  // ----- requests on one set -----------------------------------------------------------------

  /** The set a request in flight works on; a preauthorization has none before its insertion. */
  function SetOf(t: Task): Option<string> {
    match t
    case CallStatus(dev) => Some(dev.id)
    case WriteStatus(dev) => Some(dev.id)
    case WritePreAccept(id) => Some(id)
    case CallDelete(dev) => Some(dev.id)
    case RemoveRecord(_, id) => Some(id)
    case WriteInsert(_) => None
    case CallPreauth(dev) => Some(dev.id)
  }

  function On(tasks: map<nat, Task>, id: string): map<nat, Task> {
    map rid | rid in tasks && SetOf(tasks[rid]) == Some(id) :: tasks[rid]
  }

  /** The requests in flight on a set. */
  function TasksOn(s: State, id: string): map<nat, Task> {
    On(s.tasks, id)
  }

  /** The action is the first step of a request on this set, or a request of one step. */
  predicate Starts(a: Action, id: string) {
    match a
    case Submit(dev, _) => dev.id == id
    case BeginStatus(_, i, _) => i == id
    case BeginPreAccept(_, i) => i == id
    case BeginDelete(_, i) => i == id
    case RemoveInternal(i) => i == id
    case RemoveByDevice(_, spared) => id !in spared
    case _ => false
  }

  /** Requests on this set do not overlap: none starts while another is in flight. */
  predicate ApartStep(s: State, a: Action, id: string) {
    Starts(a, id) ==> TasksOn(s, id) == map[]
  }

  ghost predicate ApartRun(s: State, actions: seq<Action>, id: string)
    decreases |actions|
  {
    actions == [] || (ApartStep(s, actions[0], id) && ApartRun(Apply(s, actions[0]), actions[1..], id))
  }

  /** No required field is empty. */
  predicate Complete(r: DeviceAuth) {
    && r.id != "" && r.deviceId != "" && r.deviceIdentity != "" && r.key != ""
    && KnownStatus(r.status) && r.attributes != map[] && r.requestTime.Some?
  }

  /** What a request captured still describes the stored record. */
  predicate Fits(r: DeviceAuth, t: Task) {
    match t
    case CallStatus(dev) => dev == r.(status := dev.status)
    case WriteStatus(dev) => dev == r.(status := dev.status)
    case WritePreAccept(_) => r.status == PREAUTHORIZED
    case CallDelete(dev) => dev == r
    case RemoveRecord(deviceId, _) => deviceId == r.deviceId
    case WriteInsert(_) => true
    case CallPreauth(dev) => dev == r && r.status == PREAUTHORIZED
  }

  /** The set is complete if stored, has at most one request in flight, and that request describes it. */
  ghost predicate SetInv(s: State, id: string) {
    && (id in s.store ==> Complete(s.store[id]))
    && (forall rid :: rid in TasksOn(s, id) ==> id in s.store && Fits(s.store[id], TasksOn(s, id)[rid]))
    && (forall r1, r2 :: r1 in TasksOn(s, id) && r2 in TasksOn(s, id) ==> r1 == r2)
  }

  /** What a preauthorization is about to insert lacks only its ids. */
  ghost predicate InsertsFilled(s: State) {
    forall rid :: rid in s.tasks && s.tasks[rid].WriteInsert? ==>
                    var dev := s.tasks[rid].dev;
                    dev.key != "" && dev.attributes != map[] && dev.requestTime.Some?
  }

  lemma InsertsStayFilled(s: State, a: Action)
    requires InsertsFilled(s)
    ensures InsertsFilled(Apply(s, a))
  {
  }

  /** The action is a step of a request in flight on this set, or inserts the set. */
  predicate Continues(s: State, a: Action, id: string) {
    && (a.DevauthReplies? || a.Write? || a.Crash?) && a.rid in s.tasks
    && if a.Write? && s.tasks[a.rid].WriteInsert? then a.newId == id && id !in s.store else SetOf(s.tasks[a.rid]) == Some(id)
  }

  // ----- a step on another set ---------------------------------------------------------------

  lemma OthersLeaveRecord(s: State, a: Action, id: string)
    requires Inv(s) && !Starts(a, id) && !Continues(s, a, id)
    ensures var s' := Apply(s, a);
            && (id in s'.store <==> id in s.store) && (id in s.store ==> s'.store[id] == s.store[id])
            && (id in s'.decided ==> id in s.decided)
  {
  }

  predicate HasRequest(a: Action) {
    !a.Submit? && !a.RemoveInternal? && !a.RemoveByDevice?
  }

  /** A step changes at most its own request. */
  lemma OneTaskMoves(s: State, a: Action)
    requires HasRequest(a)
    ensures var after := TasksAfter(s, a);
            after == if a.rid in after then s.tasks[a.rid := after[a.rid]] else s.tasks - {a.rid}
  {
  }

  lemma OwnTaskKeepsSet(s: State, a: Action, id: string)
    requires Inv(s) && !Starts(a, id) && !Continues(s, a, id) && Enabled(s, a) && HasRequest(a)
    ensures a.rid in TasksAfter(s, a) ==> SetOf(TasksAfter(s, a)[a.rid]) != Some(id)
  {
    if a.BeginStatus? || a.BeginDelete? || a.BeginPreAccept? {
      assert RecordOk(s.log, a.id, s.store[a.id]);
    }
  }

  lemma OthersLeaveTasks(s: State, a: Action, id: string)
    requires Inv(s) && !Starts(a, id) && !Continues(s, a, id)
    ensures TasksOn(Apply(s, a), id) == TasksOn(s, id)
  {
    if Enabled(s, a) && HasRequest(a) {
      OneTaskMoves(s, a);
      OwnTaskKeepsSet(s, a, id);
      OnMoves(s.tasks, TasksAfter(s, a), a.rid, id);
    }
  }

  /** How the requests on a set follow from all requests when one of these changes. */
  lemma OnMoves(tasks: map<nat, Task>, after: map<nat, Task>, rid: nat, id: string)
    requires after == if rid in after then tasks[rid := after[rid]] else tasks - {rid}
    ensures On(after, id) == if rid in after && SetOf(after[rid]) == Some(id) then On(tasks, id)[rid := after[rid]] else On(tasks, id) - {rid}
  {
  }

  lemma OthersLeaveDevauth(s: State, a: Action, id: string, d: string)
    requires !Continues(s, a, id)
    ensures var s' := Apply(s, a);
            && ((d, id) in s'.devauth <==> (d, id) in s.devauth)
            && ((d, id) in s.devauth ==> s'.devauth[(d, id)] == s.devauth[(d, id)])
  {
  }

  // ----- complete records --------------------------------------------------------------------

  lemma StartKeepsSet(s: State, a: Action, id: string)
    requires Inv(s) && SetInv(s, id) && Enabled(s, a) && Starts(a, id) && TasksOn(s, id) == map[]
    ensures SetInv(Apply(s, a), id)
  {
    StatusesDistinct();
    if HasRequest(a) {
      OneTaskMoves(s, a);
      OnMoves(s.tasks, TasksAfter(s, a), a.rid, id);
      assert RecordOk(s.log, id, s.store[id]);
    }
  }

  /** A request of one set alone in flight: its step keeps or ends it. */
  lemma OwnStepKeepsAlone(s: State, a: Action, id: string)
    requires SetInv(s, id) && Enabled(s, a) && Continues(s, a, id)
    ensures forall rid :: rid in TasksOn(Apply(s, a), id) ==> rid == a.rid
  {
    OneTaskMoves(s, a);
    OnMoves(s.tasks, TasksAfter(s, a), a.rid, id);
    forall rid | rid in TasksOn(Apply(s, a), id) ensures rid == a.rid {
      assert rid == a.rid || rid in TasksOn(s, id);
      assert rid in TasksOn(s, id) ==> id in s.store;
      assert SetOf(s.tasks[a.rid]) == Some(id) ==> a.rid in TasksOn(s, id);
    }
  }

  lemma ReplyKeepsSet(s: State, a: Action, id: string)
    requires SetInv(s, id) && Enabled(s, a) && Continues(s, a, id) && !a.Write?
    ensures SetInv(Apply(s, a), id)
  {
    OwnStepKeepsAlone(s, a, id);
    assert a.rid in TasksOn(s, id);
  }

  lemma WriteKeepsSet(s: State, a: Action, id: string)
    requires Inv(s) && InsertsFilled(s) && SetInv(s, id) && Enabled(s, a) && Continues(s, a, id) && a.Write?
    ensures SetInv(Apply(s, a), id)
  {
    StatusesDistinct();
    OwnStepKeepsAlone(s, a, id);
    if s.tasks[a.rid].WriteInsert? {
      assert TaskOk(s.log, s.tasks[a.rid]);
    } else {
      assert a.rid in TasksOn(s, id);
    }
  }

  lemma StepKeepsSet(s: State, a: Action, id: string)
    requires Inv(s) && InsertsFilled(s) && SetInv(s, id) && ApartStep(s, a, id)
    ensures SetInv(Apply(s, a), id)
  {
    if !Enabled(s, a) {
      assert TasksOn(Apply(s, a), id) == TasksOn(s, id);
    } else if Starts(a, id) {
      StartKeepsSet(s, a, id);
    } else if Continues(s, a, id) && a.Write? {
      WriteKeepsSet(s, a, id);
    } else if Continues(s, a, id) {
      ReplyKeepsSet(s, a, id);
    } else {
      OthersLeaveRecord(s, a, id);
      OthersLeaveTasks(s, a, id);
    }
  }

  lemma {:induction false} RunKeepsSet(s: State, actions: seq<Action>, id: string)
    requires Inv(s) && InsertsFilled(s) && SetInv(s, id) && ApartRun(s, actions, id)
    ensures SetInv(Run(s, actions), id)
    decreases |actions|
  {
    if actions != [] {
      StepKeepsInv(s, actions[0]);
      InsertsStayFilled(s, actions[0]);
      StepKeepsSet(s, actions[0], id);
      RunKeepsSet(Apply(s, actions[0]), actions[1..], id);
    }
  }

  /** As long as the requests on one set do not overlap, whatever happens to other sets, whatever is
      dropped and however devauth answers: the set's record, if stored, has every required field
      and a known status. */
  lemma RecordsAreComplete(actions: seq<Action>, id: string)
    requires ApartRun(INIT, actions, id) && id in Run(INIT, actions).store
    ensures Complete(Run(INIT, actions).store[id])
  {
    RunKeepsSet(INIT, actions, id);
  }

  // ----- agreement with devauth --------------------------------------------------------------

  /** For the requests of this set: devauth changes only when it acknowledges, and an acknowledged
      change is written down. */
  predicate ReliableStep(s: State, a: Action, id: string) {
    (a.DevauthReplies? || a.Crash?) && a.rid in TasksOn(s, id) ==>
      && (a.DevauthReplies? && a.applied ==> Acks(s.tasks[a.rid], a.reply))
      && (a.Crash? ==> !s.tasks[a.rid].WriteStatus? && !s.tasks[a.rid].RemoveRecord?)
  }

  ghost predicate ReliableRun(s: State, actions: seq<Action>, id: string)
    decreases |actions|
  {
    actions == [] || (ReliableStep(s, actions[0], id) && ReliableRun(Apply(s, actions[0]), actions[1..], id))
  }

  /** devauth holds for this set the status the store holds. */
  predicate AgreesOn(s: State, id: string) {
    id in s.store && (s.store[id].deviceId, id) in s.devauth && s.devauth[(s.store[id].deviceId, id)] == s.store[id].status
  }

  /** devauth has acknowledged a change of this set and its write is still to come. */
  predicate Pending(s: State, id: string) {
    exists rid :: rid in TasksOn(s, id) && (s.tasks[rid].WriteStatus? || s.tasks[rid].RemoveRecord?)
  }

  ghost predicate AgreementInv(s: State, id: string) {
    && (id in s.decided ==> id in s.store && s.store[id].status != PREAUTHORIZED)
    && (id in s.decided && !Pending(s, id) ==> AgreesOn(s, id))
    && (forall rid :: rid in TasksOn(s, id) && s.tasks[rid].WriteStatus? ==>
          var dev := s.tasks[rid].dev;
          (dev.deviceId, id) in s.devauth && s.devauth[(dev.deviceId, id)] == dev.status)
  }

  lemma StartKeepsAgreement(s: State, a: Action, id: string)
    requires Inv(s) && AgreementInv(s, id) && Enabled(s, a) && Starts(a, id) && TasksOn(s, id) == map[]
    ensures AgreementInv(Apply(s, a), id)
  {
    if HasRequest(a) {
      OneTaskMoves(s, a);
      OnMoves(s.tasks, TasksAfter(s, a), a.rid, id);
    }
  }

  lemma AckKeepsAgreement(s: State, a: Action, id: string)
    requires SetInv(s, id) && AgreementInv(s, id) && Enabled(s, a) && Continues(s, a, id) && a.DevauthReplies?
    requires Acks(s.tasks[a.rid], a.reply)
    ensures AgreementInv(Apply(s, a), id)
  {
    OwnStepKeepsAlone(s, a, id);
    assert a.rid in TasksOn(s, id);
    var s' := Apply(s, a);
    if s.tasks[a.rid].CallPreauth? {
      assert id !in s.decided;
    } else {
      assert a.rid in TasksOn(s', id);
    }
  }

  /** A request that ends without devauth's acknowledgement had none before. */
  lemma EndKeepsAgreement(s: State, a: Action, id: string)
    requires SetInv(s, id) && AgreementInv(s, id) && Enabled(s, a) && Continues(s, a, id) && ReliableStep(s, a, id)
    requires a.Crash? || (a.DevauthReplies? && !Acks(s.tasks[a.rid], a.reply))
    ensures AgreementInv(Apply(s, a), id)
  {
    OwnStepKeepsAlone(s, a, id);
    assert a.rid in TasksOn(s, id);
    assert !Pending(s, id);
    assert Apply(s, a).store == s.store && Apply(s, a).devauth == s.devauth;
  }

  lemma WriteKeepsAgreement(s: State, a: Action, id: string)
    requires Inv(s) && SetInv(s, id) && AgreementInv(s, id) && Enabled(s, a) && Continues(s, a, id) && a.Write?
    ensures AgreementInv(Apply(s, a), id)
  {
    StatusesDistinct();
    OwnStepKeepsAlone(s, a, id);
    if s.tasks[a.rid].WriteInsert? {
      assert id !in s.decided;
    } else {
      assert a.rid in TasksOn(s, id);
    }
  }

  lemma OtherStepKeepsAgreement(s: State, a: Action, id: string)
    requires Inv(s) && AgreementInv(s, id) && !Starts(a, id) && !Continues(s, a, id)
    ensures AgreementInv(Apply(s, a), id)
  {
    OthersLeaveRecord(s, a, id);
    OthersLeaveTasks(s, a, id);
    forall d ensures var s' := Apply(s, a); ((d, id) in s'.devauth <==> (d, id) in s.devauth) && ((d, id) in s.devauth ==> s'.devauth[(d, id)] == s.devauth[(d, id)]) {
      OthersLeaveDevauth(s, a, id, d);
    }
  }

  lemma StepKeepsAgreement(s: State, a: Action, id: string)
    requires Inv(s) && SetInv(s, id) && AgreementInv(s, id) && ApartStep(s, a, id) && ReliableStep(s, a, id)
    ensures AgreementInv(Apply(s, a), id)
  {
    if !Enabled(s, a) {
      assert TasksOn(Apply(s, a), id) == TasksOn(s, id);
      assert Pending(Apply(s, a), id) <==> Pending(s, id);
    } else if Starts(a, id) {
      StartKeepsAgreement(s, a, id);
    } else if Continues(s, a, id) && a.Write? {
      WriteKeepsAgreement(s, a, id);
    } else if Continues(s, a, id) && a.DevauthReplies? && Acks(s.tasks[a.rid], a.reply) {
      AckKeepsAgreement(s, a, id);
    } else if Continues(s, a, id) {
      EndKeepsAgreement(s, a, id);
    } else {
      OtherStepKeepsAgreement(s, a, id);
    }
  }

  lemma {:induction false} RunKeepsAgreement(s: State, actions: seq<Action>, id: string)
    requires Inv(s) && InsertsFilled(s) && SetInv(s, id) && AgreementInv(s, id)
    requires ApartRun(s, actions, id) && ReliableRun(s, actions, id)
    ensures AgreementInv(Run(s, actions), id)
    decreases |actions|
  {
    if actions != [] {
      StepKeepsInv(s, actions[0]);
      InsertsStayFilled(s, actions[0]);
      StepKeepsSet(s, actions[0], id);
      StepKeepsAgreement(s, actions[0], id);
      RunKeepsAgreement(Apply(s, actions[0]), actions[1..], id);
    }
  }

  /** As long as the requests on one set do not overlap and its acknowledged changes are written
      down, whatever happens to other sets: devauth and the store agree on the set whenever it was
      last decided through the management API and no acknowledged change of it is still to be
      written. */
  lemma ServicesAgree(actions: seq<Action>, id: string)
    requires ApartRun(INIT, actions, id) && ReliableRun(INIT, actions, id)
    requires id in Run(INIT, actions).decided && !Pending(Run(INIT, actions), id)
    ensures AgreesOn(Run(INIT, actions), id)
  {
    RunKeepsAgreement(INIT, actions, id);
  }

  // ----- one preauthorized record per identity -----------------------------------------------

  predicate IsPreauthorizedAs(r: DeviceAuth, identity: string) {
    r.status == PREAUTHORIZED && r.deviceIdentity == identity
  }

  ghost predicate Unique(s: Store, identity: string) {
    forall i, j :: i in s && j in s && IsPreauthorizedAs(s[i], identity) && IsPreauthorizedAs(s[j], identity) ==> i == j
  }

  /** A preauthorization of this identity has made its query and not yet inserted. */
  predicate Preauthorizes(t: Task, identity: string) {
    t.WriteInsert? && t.dev.deviceIdentity == identity
  }

  /** Preauthorizations of this identity do not overlap between query and insertion. */
  predicate ApartIdentityStep(s: State, a: Action, identity: string) {
    a.BeginPreauth? && a.identity == identity ==> forall rid :: rid in s.tasks ==> !Preauthorizes(s.tasks[rid], identity)
  }

  ghost predicate ApartIdentityRun(s: State, actions: seq<Action>, identity: string)
    decreases |actions|
  {
    actions == [] || (ApartIdentityStep(s, actions[0], identity) && ApartIdentityRun(Apply(s, actions[0]), actions[1..], identity))
  }

  ghost predicate IdentityInv(s: State, identity: string) {
    && Unique(s.store, identity)
    && (forall r1, r2 :: r1 in s.tasks && r2 in s.tasks && Preauthorizes(s.tasks[r1], identity) && Preauthorizes(s.tasks[r2], identity) ==> r1 == r2)
    && (forall rid, id :: rid in s.tasks && Preauthorizes(s.tasks[rid], identity) && id in s.store ==>
          !IsPreauthorizedAs(s.store[id], identity))
  }

  predicate Inserts(s: State, a: Action) {
    Enabled(s, a) && a.Write? && s.tasks[a.rid].WriteInsert? && a.newId !in s.store
  }

  lemma InsertKeepsIdentity(s: State, a: Action, identity: string)
    requires Inv(s) && IdentityInv(s, identity) && Inserts(s, a)
    ensures IdentityInv(Apply(s, a), identity)
  {
  }

  lemma OtherStepKeepsIdentity(s: State, a: Action, identity: string)
    requires Inv(s) && IdentityInv(s, identity) && ApartIdentityStep(s, a, identity) && !Inserts(s, a)
    ensures IdentityInv(Apply(s, a), identity)
  {
    var s' := Apply(s, a);
    forall id | id in s'.store && s'.store[id].status == PREAUTHORIZED
      ensures id in s.store && s.store[id] == s'.store[id]
    {
      NoNewPreauthorized(s, a, id);
    }
    forall rid | rid in s'.tasks && Preauthorizes(s'.tasks[rid], identity)
      ensures (rid in s.tasks && s.tasks[rid] == s'.tasks[rid]) || (Enabled(s, a) && a.BeginPreauth? && a.rid == rid && a.identity == identity)
    {
    }
  }

  lemma {:induction false} RunKeepsIdentity(s: State, actions: seq<Action>, identity: string)
    requires Inv(s) && IdentityInv(s, identity) && ApartIdentityRun(s, actions, identity)
    ensures IdentityInv(Run(s, actions), identity)
    decreases |actions|
  {
    if actions != [] {
      StepKeepsInv(s, actions[0]);
      if Inserts(s, actions[0]) {
        InsertKeepsIdentity(s, actions[0], identity);
      } else {
        OtherStepKeepsIdentity(s, actions[0], identity);
      }
      RunKeepsIdentity(Apply(s, actions[0]), actions[1..], identity);
    }
  }

  /** As long as preauthorizations of one identity do not overlap, whatever else does, at most one
      preauthorized record has it. */
  lemma IdentitiesAreUnique(actions: seq<Action>, identity: string)
    requires ApartIdentityRun(INIT, actions, identity)
    ensures Unique(Run(INIT, actions).store, identity)
  {
    RunKeepsIdentity(INIT, actions, identity);
  }

  // ----- no overlap at all -------------------------------------------------------------------

  /** Nothing is in flight, or the action continues or drops a request that is. */
  predicate SerialStep(s: State, a: Action) {
    s.tasks == map[] || a.DevauthReplies? || a.Write? || a.Crash?
  }

  ghost predicate SerialRun(s: State, actions: seq<Action>)
    decreases |actions|
  {
    actions == [] || (SerialStep(s, actions[0]) && SerialRun(Apply(s, actions[0]), actions[1..]))
  }

  lemma {:induction false} SerialIsApart(s: State, actions: seq<Action>, id: string, identity: string)
    requires SerialRun(s, actions)
    ensures ApartRun(s, actions, id) && ApartIdentityRun(s, actions, identity)
    decreases |actions|
  {
    if actions != [] {
      SerialIsApart(Apply(s, actions[0]), actions[1..], id, identity);
    }
  }

  /** Without any overlap, whatever is dropped and however devauth answers: every record is complete
      and has a known status, and one identity has at most one preauthorized record. */
  lemma SerialStoresAreGood(actions: seq<Action>)
    requires SerialRun(INIT, actions)
    ensures var s := Run(INIT, actions).store;
            (forall id :: id in s ==> Complete(s[id])) && (forall identity :: Unique(s, identity))
  {
    var s := Run(INIT, actions).store;
    forall id | id in s ensures Complete(s[id]) {
      SerialIsApart(INIT, actions, id, "");
      RecordsAreComplete(actions, id);
    }
    forall identity ensures Unique(s, identity) {
      SerialIsApart(INIT, actions, "", identity);
      IdentitiesAreUnique(actions, identity);
    }
  }

  // ----- exactly what overlap breaks ---------------------------------------------------------

  /** A description becomes empty exactly when the upsert of a status change finds its record gone. */
  lemma PartialRecordIff(s: State, a: Action, id: string)
    requires Inv(s) && (id in s.store ==> !SameDescription(s.store[id], ZERO))
    ensures (id in Apply(s, a).store && SameDescription(Apply(s, a).store[id], ZERO)) <==>
            (a.Write? && a.rid in s.tasks && s.tasks[a.rid].WriteStatus? && s.tasks[a.rid].dev.id == id && id !in s.store)
  {
    StatusesDistinct();
    if Enabled(s, a) && a.Write? {
      assert TaskOk(s.log, s.tasks[a.rid]);
    }
  }

  /** One preauthorized record per identity is lost exactly when an insertion goes ahead although
      its identity has been preauthorized since its query. */
  lemma DuplicateIdentityIff(s: State, a: Action, identity: string)
    requires Inv(s) && Unique(s.store, identity)
    ensures Unique(Apply(s, a).store, identity) <==>
            !(Inserts(s, a) && Preauthorizes(s.tasks[a.rid], identity)
              && exists id :: id in s.store && IsPreauthorizedAs(s.store[id], identity))
  {
    var s' := Apply(s, a);
    if Inserts(s, a) {
      assert TaskOk(s.log, s.tasks[a.rid]);
      assert s'.store[a.newId].status == PREAUTHORIZED;
      if id :| id in s.store && IsPreauthorizedAs(s.store[id], identity) {
        assert s'.store[id] == s.store[id];
      }
    } else {
      forall id | id in s'.store && s'.store[id].status == PREAUTHORIZED
        ensures id in s.store && s.store[id] == s'.store[id]
      {
        NoNewPreauthorized(s, a, id);
      }
    }
  }

  /** Two preauthorizations of one identity that both query before either inserts. */
  function TwoPreauthorizations(identity: string, key: string, attributes: Attributes, now: int,
                                id1: string, device1: string, id2: string, device2: string): seq<Action>
  {
    ([BeginPreauth(1, identity, key, attributes, now)] + [BeginPreauth(2, identity, key, attributes, now)])
    + ([Write(1, id1, device1)] + [Write(2, id2, device2)])
  }

  /** From any quiescent state, for any identity the store does not have: both insertions go ahead,
      and two preauthorized records share the identity. */
  lemma OverlapSharesIdentity(s: State, identity: string, key: string, attributes: Attributes, now: int,
                              id1: string, device1: string, id2: string, device2: string)
    requires Inv(s) && s.tasks == map[] && identity != "" && key != "" && attributes != map[]
    requires forall id :: id in s.store ==> s.store[id].deviceIdentity != identity
    requires IsObjectIdHex(id1) && IsObjectIdHex(device1) && IsObjectIdHex(id2) && IsObjectIdHex(device2)
    requires id1 !in s.store && id2 !in s.store && id1 != id2
    ensures var s' := Run(s, TwoPreauthorizations(identity, key, attributes, now, id1, device1, id2, device2));
            && Unique(s.store, identity) && !Unique(s'.store, identity)
            && id1 in s'.store && IsPreauthorizedAs(s'.store[id1], identity)
            && id2 in s'.store && IsPreauthorizedAs(s'.store[id2], identity)
  {
    var dev := PreauthRecord(identity, key, attributes, now);
    var begins := [BeginPreauth(1, identity, key, attributes, now)] + [BeginPreauth(2, identity, key, attributes, now)];
    var r1, r2 := dev.(id := id1, deviceId := device1), dev.(id := id2, deviceId := device2);
    BothQuery(s, identity, key, attributes, now);
    BothInsert(Run(s, begins), dev, id1, device1, id2, device2);
    RunConcat(s, begins, [Write(1, id1, device1)] + [Write(2, id2, device2)]);
    TwoAreNotUnique(s.store, r1, r2, identity);
  }

  lemma TwoAreNotUnique(s: Store, r1: DeviceAuth, r2: DeviceAuth, identity: string)
    requires r1.id != r2.id && IsPreauthorizedAs(r1, identity) && IsPreauthorizedAs(r2, identity)
    ensures !Unique(s[r1.id := r1][r2.id := r2], identity)
  {
    var s' := s[r1.id := r1][r2.id := r2];
    assert r1.id in s' && r2.id in s';
  }

  lemma BothQuery(s: State, identity: string, key: string, attributes: Attributes, now: int)
    requires s.tasks == map[] && identity != "" && key != "" && attributes != map[]
    requires forall id :: id in s.store ==> s.store[id].deviceIdentity != identity
    ensures var begins := [BeginPreauth(1, identity, key, attributes, now)] + [BeginPreauth(2, identity, key, attributes, now)];
            var dev := PreauthRecord(identity, key, attributes, now);
            Run(s, begins).store == s.store && Run(s, begins).tasks == map[1 := WriteInsert(dev), 2 := WriteInsert(dev)]
  {
    var b1, b2 := BeginPreauth(1, identity, key, attributes, now), BeginPreauth(2, identity, key, attributes, now);
    RunConcat(s, [b1], [b2]);
    RunOne(s, b1);
    RunOne(Apply(s, b1), b2);
  }

  lemma BothInsert(s: State, dev: DeviceAuth, id1: string, device1: string, id2: string, device2: string)
    requires s.tasks == map[1 := WriteInsert(dev), 2 := WriteInsert(dev)]
    requires IsObjectIdHex(id1) && IsObjectIdHex(device1) && IsObjectIdHex(id2) && IsObjectIdHex(device2)
    requires id1 !in s.store && id2 !in s.store && id1 != id2
    ensures Run(s, [Write(1, id1, device1)] + [Write(2, id2, device2)]).store ==
            s.store[id1 := dev.(id := id1, deviceId := device1)][id2 := dev.(id := id2, deviceId := device2)]
  {
    var w1, w2 := Write(1, id1, device1), Write(2, id2, device2);
    RunConcat(s, [w1], [w2]);
    RunOne(s, w1);
    RunOne(Apply(s, w1), w2);
  }

  lemma NoNewPreauthorized(s: State, a: Action, id: string)
    requires Inv(s) && id in Apply(s, a).store && Apply(s, a).store[id].status == PREAUTHORIZED
    requires !Inserts(s, a)
    ensures id in s.store && s.store[id] == Apply(s, a).store[id]
  {
    if Enabled(s, a) && a.Submit? {
      SubmissionIsNotPreauthorized(s.store, SubmittedRecord(a.dev, a.now));
    } else if Enabled(s, a) && a.Write? && s.tasks[a.rid].WriteStatus? {
      assert TaskOk(s.log, s.tasks[a.rid]);
      DecisionIsNotPreauthorized(s.store, s.tasks[a.rid].dev);
    } else if Enabled(s, a) && a.Write? && s.tasks[a.rid].WritePreAccept? {
      StatusesDistinct();
    }
  }

  lemma SubmissionIsNotPreauthorized(s: Store, u: DeviceAuth)
    requires u.status == PENDING
    ensures Put(s, u)[u.id].status != PREAUTHORIZED
  {
    StatusesDistinct();
  }

  lemma DecisionIsNotPreauthorized(s: Store, dev: DeviceAuth)
    requires dev.status == ACCEPTED || dev.status == REJECTED
    ensures Put(s, StatusUpdate(dev))[dev.id].status == dev.status != PREAUTHORIZED
  {
    StatusesDistinct();
  }

  // ----- exactly when the services agree -----------------------------------------------------

  function Entry(s: State, deviceId: string, id: string): Option<string> {
    if (deviceId, id) in s.devauth then Some(s.devauth[(deviceId, id)]) else None
  }

  predicate CallsOn(t: Task, deviceId: string, id: string) {
    (t.CallStatus? || t.CallDelete? || t.CallPreauth?) && t.dev.deviceId == deviceId && t.dev.id == id
  }

  /** The entry a call leaves at devauth, none after a deletion. */
  function Leaves(t: Task): Option<string> {
    match t
    case CallStatus(dev) => Some(dev.status)
    case CallPreauth(_) => Some(PREAUTHORIZED)
    case _ => None
  }

  /** A call on this entry takes effect, acknowledged or not. */
  predicate TakesEffect(s: State, a: Action, deviceId: string, id: string) {
    a.DevauthReplies? && a.rid in s.tasks && CallsOn(s.tasks[a.rid], deviceId, id) && (a.applied || Acks(s.tasks[a.rid], a.reply))
  }

  /** The call on this entry that took effect last. */
  function LastCall(s: State, actions: seq<Action>, deviceId: string, id: string): Option<Task>
    decreases |actions|
  {
    if actions == [] then None
    else
      var later := LastCall(Apply(s, actions[0]), actions[1..], deviceId, id);
      if later.None? && TakesEffect(s, actions[0], deviceId, id) then Some(s.tasks[actions[0].rid]) else later
  }

  predicate WritesDecision(s: State, a: Action, id: string) {
    a.Write? && a.rid in TasksOn(s, id) && s.tasks[a.rid].WriteStatus?
  }

  /** The record whose status a management decision wrote last. */
  function LastDecision(s: State, actions: seq<Action>, id: string): Option<DeviceAuth>
    decreases |actions|
  {
    if actions == [] then None
    else
      var later := LastDecision(Apply(s, actions[0]), actions[1..], id);
      if later.None? && WritesDecision(s, actions[0], id) then Some(s.tasks[actions[0].rid].dev) else later
  }

  lemma CallSetsEntry(s: State, a: Action, deviceId: string, id: string)
    ensures Entry(Apply(s, a), deviceId, id) ==
            if TakesEffect(s, a, deviceId, id) then Leaves(s.tasks[a.rid]) else Entry(s, deviceId, id)
  {
  }

  lemma {:induction false} LastCallSetsEntry(s: State, actions: seq<Action>, deviceId: string, id: string)
    ensures var call := LastCall(s, actions, deviceId, id);
            Entry(Run(s, actions), deviceId, id) == if call.Some? then Leaves(call.value) else Entry(s, deviceId, id)
    decreases |actions|
  {
    if actions != [] {
      CallSetsEntry(s, actions[0], deviceId, id);
      LastCallSetsEntry(Apply(s, actions[0]), actions[1..], deviceId, id);
    }
  }

  /** The device id and status a record was left with. */
  predicate SameDecision(r: DeviceAuth, dev: DeviceAuth) {
    r.deviceId == dev.deviceId && r.status == dev.status
  }

  lemma StatusUpdateDecides(s: Store, dev: DeviceAuth)
    requires dev.deviceId != "" && dev.status != ""
    ensures dev.id in Put(s, StatusUpdate(dev)) && SameDecision(Put(s, StatusUpdate(dev))[dev.id], dev)
  {
  }

  lemma DecisionIsLeft(s: State, a: Action, id: string)
    requires Inv(s) && WritesDecision(s, a, id)
    ensures var dev := s.tasks[a.rid].dev;
            dev.id == id && id in Apply(s, a).store && SameDecision(Apply(s, a).store[id], dev)
  {
    var dev := s.tasks[a.rid].dev;
    assert TaskOk(s.log, s.tasks[a.rid]);
    assert Apply(s, a).store == Put(s.store, StatusUpdate(dev));
    StatusesDistinct();
    StatusUpdateDecides(s.store, dev);
  }

  lemma WriteLeavesDecision(s: State, a: Action, id: string)
    requires (id in s.decided ==> id in s.store) && id in Apply(s, a).decided && !WritesDecision(s, a, id) && Enabled(s, a) && a.Write?
    ensures id in s.decided && id in Apply(s, a).store && Apply(s, a).store[id] == s.store[id]
  {
    assert a.rid in TasksOn(s, id) <==> SetOf(s.tasks[a.rid]) == Some(id);
  }

  lemma DecisionStays(s: State, a: Action, id: string)
    requires (id in s.decided ==> id in s.store) && id in Apply(s, a).decided && !WritesDecision(s, a, id)
    ensures id in s.decided && id in Apply(s, a).store && Apply(s, a).store[id] == s.store[id]
  {
    if Enabled(s, a) && a.Write? {
      WriteLeavesDecision(s, a, id);
    }
  }

  /** A decided set is stored, as its last decision left it or, without one, as it was. */
  lemma {:induction false} LastDecisionStays(s: State, actions: seq<Action>, id: string)
    requires Inv(s) && (id in s.decided ==> id in s.store) && id in Run(s, actions).decided
    ensures var last := LastDecision(s, actions, id);
            && id in Run(s, actions).store
            && if last.Some? then last.value.id == id && SameDecision(Run(s, actions).store[id], last.value)
               else id in s.decided && SameDecision(Run(s, actions).store[id], s.store[id])
    decreases |actions|
  {
    if actions != [] {
      var s' := Apply(s, actions[0]);
      StepKeepsInv(s, actions[0]);
      if WritesDecision(s, actions[0], id) {
        DecisionIsLeft(s, actions[0], id);
      } else if id in s'.decided {
        DecisionStays(s, actions[0], id);
      }
      LastDecisionStays(s', actions[1..], id);
    }
  }

  /** From any state: after a management decision of a set, the services agree on it exactly when the
      last call on its entry that took effect, or else the entry as it was, has the decided status. */
  lemma AgreesAfterDecisionIff(s: State, actions: seq<Action>, id: string)
    requires Inv(s) && (id in s.decided ==> id in s.store) && id in Run(s, actions).decided
    requires LastDecision(s, actions, id).Some?
    ensures var dev := LastDecision(s, actions, id).value;
            var call := LastCall(s, actions, dev.deviceId, id);
            AgreesOn(Run(s, actions), id) <==>
            (if call.Some? then Leaves(call.value) else Entry(s, dev.deviceId, id)) == Some(dev.status)
  {
    LastDecisionStays(s, actions, id);
    LastCallSetsEntry(s, actions, LastDecision(s, actions, id).value.deviceId, id);
  }

  /** In every interleaving, with requests dropped anywhere, deletions, submissions and unseen devauth
      changes included: devauth and the store agree on a set that was last decided through the
      management API exactly when the last call on the decided entry that took effect at devauth,
      acknowledged or not, left the decided status there. */
  lemma ServicesAgreeIff(actions: seq<Action>, id: string)
    requires id in Run(INIT, actions).decided
    ensures LastDecision(INIT, actions, id).Some?
    ensures var dev := LastDecision(INIT, actions, id).value;
            var call := LastCall(INIT, actions, dev.deviceId, id);
            dev.id == id && (AgreesOn(Run(INIT, actions), id) <==> call.Some? && Leaves(call.value) == Some(dev.status))
  {
    LastDecisionStays(INIT, actions, id);
    AgreesAfterDecisionIff(INIT, actions, id);
  }

  // ----- overlapping decisions ---------------------------------------------------------------

  /** Nothing but status changes work on this set, each request asking for one status, and devauth
      changes it only when it acknowledges. */
  predicate DecidesStep(s: State, a: Action, id: string, asked: nat -> string) {
    match a
    case BeginStatus(rid, i, status) => i == id ==> status == asked(rid)
    case DevauthReplies(rid, reply, applied) => rid in TasksOn(s, id) && applied ==> Acks(s.tasks[rid], reply)
    case _ => !Starts(a, id)
  }

  ghost predicate DecidesRun(s: State, actions: seq<Action>, id: string, asked: nat -> string)
    decreases |actions|
  {
    actions == [] || (DecidesStep(s, actions[0], id, asked) && DecidesRun(Apply(s, actions[0]), actions[1..], id, asked))
  }

  predicate AcksDecision(s: State, a: Action, id: string) {
    a.DevauthReplies? && a.rid in TasksOn(s, id) && s.tasks[a.rid].CallStatus? && Acks204(a.reply)
  }

  /** The request whose status change of this set devauth acknowledged last. */
  function LastAcked(s: State, actions: seq<Action>, id: string): Option<nat>
    decreases |actions|
  {
    if actions == [] then None
    else
      var later := LastAcked(Apply(s, actions[0]), actions[1..], id);
      if later.None? && AcksDecision(s, actions[0], id) then Some(actions[0].rid) else later
  }

  /** The request whose status change of this set was written last. */
  function LastWritten(s: State, actions: seq<Action>, id: string): Option<nat>
    decreases |actions|
  {
    if actions == [] then None
    else
      var later := LastWritten(Apply(s, actions[0]), actions[1..], id);
      if later.None? && WritesDecision(s, actions[0], id) then Some(actions[0].rid) else later
  }

  predicate IsDecision(t: Task, deviceId: string, status: string) {
    (t.CallStatus? || t.WriteStatus?) && t.dev.deviceId == deviceId && t.dev.status == status
  }

  /** The set is stored and only status changes of it are in flight. */
  ghost predicate OnlyDecisions(s: State, id: string, deviceId: string, asked: nat -> string) {
    && id in s.store && s.store[id].deviceId == deviceId
    && forall rid :: rid in TasksOn(s, id) ==> IsDecision(TasksOn(s, id)[rid], deviceId, asked(rid))
  }

  lemma DecisionBegins(s: State, a: Action, id: string, deviceId: string, asked: nat -> string)
    requires Inv(s) && OnlyDecisions(s, id, deviceId, asked) && DecidesStep(s, a, id, asked) && Enabled(s, a) && Starts(a, id)
    ensures var s' := Apply(s, a); OnlyDecisions(s', id, deviceId, asked) && s'.decided == s.decided
  {
    OneTaskMoves(s, a);
    OnMoves(s.tasks, TasksAfter(s, a), a.rid, id);
  }

  lemma DecisionIsReplied(s: State, a: Action, id: string, deviceId: string, asked: nat -> string)
    requires OnlyDecisions(s, id, deviceId, asked) && DecidesStep(s, a, id, asked) && Enabled(s, a) && Continues(s, a, id) && !a.Write?
    ensures var s' := Apply(s, a); OnlyDecisions(s', id, deviceId, asked) && s'.decided == s.decided
  {
    assert a.rid in TasksOn(s, id);
    OneTaskMoves(s, a);
    OnMoves(s.tasks, TasksAfter(s, a), a.rid, id);
  }

  lemma DecisionIsWritten(s: State, a: Action, id: string, deviceId: string, asked: nat -> string)
    requires Inv(s) && OnlyDecisions(s, id, deviceId, asked) && Enabled(s, a) && Continues(s, a, id) && a.Write?
    ensures var s' := Apply(s, a); OnlyDecisions(s', id, deviceId, asked) && id in s'.decided
  {
    StatusesDistinct();
    assert a.rid in TasksOn(s, id);
    assert TaskOk(s.log, s.tasks[a.rid]);
    OneTaskMoves(s, a);
    OnMoves(s.tasks, TasksAfter(s, a), a.rid, id);
  }

  lemma OthersLeaveDecided(s: State, a: Action, id: string)
    requires Inv(s) && id in s.store && !Starts(a, id) && !Continues(s, a, id) && id in s.decided
    ensures id in Apply(s, a).decided
  {
    OthersLeaveRecord(s, a, id);
  }

  lemma DecisionStep(s: State, a: Action, id: string, deviceId: string, asked: nat -> string)
    requires Inv(s) && OnlyDecisions(s, id, deviceId, asked) && DecidesStep(s, a, id, asked)
    ensures OnlyDecisions(Apply(s, a), id, deviceId, asked)
    ensures id in s.decided || WritesDecision(s, a, id) ==> id in Apply(s, a).decided
  {
    if !Enabled(s, a) {
      assert TasksOn(Apply(s, a), id) == TasksOn(s, id);
    } else if Starts(a, id) {
      DecisionBegins(s, a, id, deviceId, asked);
    } else if Continues(s, a, id) && a.Write? {
      DecisionIsWritten(s, a, id, deviceId, asked);
    } else if Continues(s, a, id) {
      DecisionIsReplied(s, a, id, deviceId, asked);
    } else {
      OthersLeaveRecord(s, a, id);
      OthersLeaveTasks(s, a, id);
      if id in s.decided {
        OthersLeaveDecided(s, a, id);
      }
    }
  }

  /** The calls that take effect on such a set are the acknowledged decisions, and calls and writes
      are for the status their request asks for. */
  lemma DecisionsAreAsked(s: State, a: Action, id: string, deviceId: string, asked: nat -> string)
    requires OnlyDecisions(s, id, deviceId, asked) && DecidesStep(s, a, id, asked)
    ensures TakesEffect(s, a, deviceId, id) <==> AcksDecision(s, a, id)
    ensures AcksDecision(s, a, id) ==> Leaves(s.tasks[a.rid]) == Some(asked(a.rid))
    ensures WritesDecision(s, a, id) ==> s.tasks[a.rid].dev.deviceId == deviceId && s.tasks[a.rid].dev.status == asked(a.rid)
  {
    if (a.DevauthReplies? || a.Write?) && a.rid in s.tasks && SetOf(s.tasks[a.rid]) == Some(id) {
      assert a.rid in TasksOn(s, id);
    }
  }

  /** The last write is of the last decision, for the status its request asks for. */
  lemma {:induction false} WritesFollow(s: State, actions: seq<Action>, id: string, deviceId: string, asked: nat -> string)
    requires Inv(s) && OnlyDecisions(s, id, deviceId, asked) && DecidesRun(s, actions, id, asked)
    ensures var written, last := LastWritten(s, actions, id), LastDecision(s, actions, id);
            && (written.Some? <==> last.Some?)
            && (written.Some? ==> last.value.deviceId == deviceId && last.value.status == asked(written.value))
    ensures LastWritten(s, actions, id).Some? || id in s.decided ==> id in Run(s, actions).decided
    decreases |actions|
  {
    if actions != [] {
      StepKeepsInv(s, actions[0]);
      DecisionStep(s, actions[0], id, deviceId, asked);
      DecisionsAreAsked(s, actions[0], id, deviceId, asked);
      WritesFollow(Apply(s, actions[0]), actions[1..], id, deviceId, asked);
    }
  }

  /** The last call to take effect is the last acknowledged one, for the status its request asks for. */
  lemma {:induction false} CallsFollow(s: State, actions: seq<Action>, id: string, deviceId: string, asked: nat -> string)
    requires Inv(s) && OnlyDecisions(s, id, deviceId, asked) && DecidesRun(s, actions, id, asked)
    ensures var acked, call := LastAcked(s, actions, id), LastCall(s, actions, deviceId, id);
            (acked.Some? <==> call.Some?) && (acked.Some? ==> Leaves(call.value) == Some(asked(acked.value)))
    decreases |actions|
  {
    if actions != [] {
      StepKeepsInv(s, actions[0]);
      DecisionStep(s, actions[0], id, deviceId, asked);
      DecisionsAreAsked(s, actions[0], id, deviceId, asked);
      CallsFollow(Apply(s, actions[0]), actions[1..], id, deviceId, asked);
    }
  }

  lemma NoWriteUnacked(s: State, a: Action, id: string, rid: nat)
    requires rid in TasksOn(s, id) ==> !TasksOn(s, id)[rid].WriteStatus?
    requires !AcksDecision(s, a, id) && rid in TasksOn(Apply(s, a), id)
    ensures !TasksOn(Apply(s, a), id)[rid].WriteStatus?
  {
    var t := Apply(s, a).tasks[rid];
    if t.WriteStatus? && !Holds(s, rid, t) {
      GetsToWrite(s, a, rid, t);
    }
  }

  /** Only an acknowledged request writes. */
  lemma {:induction false} WrittenWasAcked(s: State, actions: seq<Action>, id: string)
    requires Inv(s) && (forall rid :: rid in TasksOn(s, id) ==> !TasksOn(s, id)[rid].WriteStatus?)
    requires LastWritten(s, actions, id).Some?
    ensures LastAcked(s, actions, id).Some?
    decreases |actions|
  {
    var s' := Apply(s, actions[0]);
    if !AcksDecision(s, actions[0], id) {
      StepKeepsInv(s, actions[0]);
      forall rid | rid in TasksOn(s', id) ensures !TasksOn(s', id)[rid].WriteStatus? {
        NoWriteUnacked(s, actions[0], id, rid);
      }
      WrittenWasAcked(s', actions[1..], id);
    }
  }

  /** For any number of overlapping status changes of one stored set, among any other requests: the
      services agree on the set afterwards exactly when the last write and the last acknowledgement
      are of requests that ask for the same status; so for requests that ask for different ones,
      exactly when the last write belongs to the request that was acknowledged last. */
  lemma OverlappingDecisionsAgreeIff(s: State, actions: seq<Action>, id: string, asked: nat -> string)
    requires Inv(s) && id in s.store && TasksOn(s, id) == map[]
    requires DecidesRun(s, actions, id, asked) && LastWritten(s, actions, id).Some?
    ensures var written, acked := LastWritten(s, actions, id), LastAcked(s, actions, id);
            && acked.Some?
            && (AgreesOn(Run(s, actions), id) <==> asked(written.value) == asked(acked.value))
  {
    WritesFollow(s, actions, id, s.store[id].deviceId, asked);
    CallsFollow(s, actions, id, s.store[id].deviceId, asked);
    WrittenWasAcked(s, actions, id);
    AgreesAfterDecisionIff(s, actions, id);
  }

  // ----- other ways in which the services part ------------------------------------------------

  /** From any quiescent state in which the services agree on a decided set: a decision for the other
      status that devauth acknowledges and that is dropped before its write leaves them disagreeing. */
  lemma DroppedDecisionDisagrees(s: State, id: string, status: string, reply: HttpResult)
    requires Inv(s) && s.tasks == map[] && id in s.decided && AgreesOn(s, id)
    requires (status == ACCEPTED || status == REJECTED) && status != s.store[id].status && Acks204(reply)
    ensures var s' := Run(s, BeginAndReply(1, id, status, reply, false) + [Crash(1)]);
            s'.tasks == map[] && id in s'.decided && !AgreesOn(s', id)
  {
    assert RecordOk(s.log, id, s.store[id]);
    var s1 := Run(s, BeginAndReply(1, id, status, reply, false));
    BeginsAndIsAcked(s, 1, id, status, reply, false);
    RunConcat(s, BeginAndReply(1, id, status, reply, false), [Crash(1)]);
    RunOne(s1, Crash(1));
  }

  /** So does one that devauth applies although its reply is lost. */
  lemma UnseenDecisionDisagrees(s: State, id: string, status: string, reply: HttpResult)
    requires Inv(s) && s.tasks == map[] && id in s.decided && AgreesOn(s, id)
    requires (status == ACCEPTED || status == REJECTED) && status != s.store[id].status && !Acks204(reply)
    ensures var s' := Run(s, BeginAndReply(1, id, status, reply, true));
            s'.tasks == map[] && id in s'.decided && !AgreesOn(s', id)
  {
    assert RecordOk(s.log, id, s.store[id]);
    BeginsAndIsRefused(s, 1, id, status, reply, true);
  }

  /** A management delete during an accept: both have read the record, devauth acknowledges the accept
      and then the deletion, the record is removed, and the accept writes. */
  function AcceptThenDelete(reply: HttpResult): seq<Action> {
    [DevauthReplies(2, reply, false)] + ([Write(2, "", "")] + [Write(1, "", "")])
  }

  /** From any quiescent state: it leaves an accepted record that devauth does not know. */
  lemma OverlappingDeleteDisagrees(s: State, id: string, reply: HttpResult)
    requires Inv(s) && s.tasks == map[] && id in s.store && Acks204(reply)
    ensures var s' := Run(s, [BeginDelete(2, id)] + (BeginAndReply(1, id, ACCEPTED, reply, false) + AcceptThenDelete(reply)));
            && s'.tasks == map[] && id in s'.decided && id in s'.store && s'.store[id].status == ACCEPTED
            && !AgreesOn(s', id)
  {
    StatusesDistinct();
    assert RecordOk(s.log, id, s.store[id]);
    var s1 := Apply(s, BeginDelete(2, id));
    RunOne(s, BeginDelete(2, id));
    RunConcat(s, [BeginDelete(2, id)], BeginAndReply(1, id, ACCEPTED, reply, false) + AcceptThenDelete(reply));
    BeginsAndIsAcked(s1, 1, id, ACCEPTED, reply, false);
    RunConcat(s1, BeginAndReply(1, id, ACCEPTED, reply, false), AcceptThenDelete(reply));
    DeletedThenWritten(Run(s1, BeginAndReply(1, id, ACCEPTED, reply, false)), s.store[id].(status := ACCEPTED), s.store[id], reply);
  }

  lemma DeletedThenWritten(s: State, accept: DeviceAuth, read: DeviceAuth, reply: HttpResult)
    requires s.tasks == map[2 := CallDelete(read), 1 := WriteStatus(accept)] && Acks204(reply)
    requires accept.id == read.id && accept.deviceId == read.deviceId != "" && accept.status != ""
    ensures var s' := Run(s, AcceptThenDelete(reply));
            && s'.tasks == map[] && accept.id in s'.decided && accept.id in s'.store
            && s'.store[accept.id].status == accept.status && !AgreesOn(s', accept.id)
  {
    var s1 := Apply(s, DevauthReplies(2, reply, false));
    RunConcat(s, [DevauthReplies(2, reply, false)], [Write(2, "", "")] + [Write(1, "", "")]);
    RunOne(s, DevauthReplies(2, reply, false));
    assert s1.tasks == map[2 := RemoveRecord(read.deviceId, read.id), 1 := WriteStatus(accept)];
    var s2 := Apply(s1, Write(2, "", ""));
    RunConcat(s1, [Write(2, "", "")], [Write(1, "", "")]);
    RunOne(s1, Write(2, "", ""));
    assert s2.tasks == map[1 := WriteStatus(accept)];
    StatusIsWritten(s2, 1);
  }

  /** From any quiescent state: a deletion that falls between the acknowledgement and the upsert of
      an accept is undone, but only in part: the record comes back without its description. */
  lemma OverlapLeavesPartialRecord(s: State, id: string, reply: HttpResult)
    requires Inv(s) && s.tasks == map[] && id in s.store && Acks204(reply)
    ensures var s' := Run(s, BeginAndReply(1, id, ACCEPTED, reply, false) + ([RemoveInternal(id)] + [Write(1, "", "")]));
            s'.tasks == map[] && id in s'.store && s'.store[id].status == ACCEPTED && SameDescription(s'.store[id], ZERO)
  {
    assert RecordOk(s.log, id, s.store[id]);
    BeginsAndIsAcked(s, 1, id, ACCEPTED, reply, false);
    var s1 := Run(s, BeginAndReply(1, id, ACCEPTED, reply, false));
    RunConcat(s, BeginAndReply(1, id, ACCEPTED, reply, false), [RemoveInternal(id)] + [Write(1, "", "")]);
    RunConcat(s1, [RemoveInternal(id)], [Write(1, "", "")]);
    RunOne(s1, RemoveInternal(id));
    StatusIsWritten(Run(s1, [RemoveInternal(id)]), 1);
    StatusesDistinct();
  }

  lemma {:induction false} NoCrashIsReliable(s: State, actions: seq<Action>, id: string)
    requires forall k :: 0 <= k < |actions| ==> !actions[k].Crash? && (actions[k].DevauthReplies? ==> !actions[k].applied)
    ensures ReliableRun(s, actions, id)
    decreases |actions|
  {
    if actions != [] {
      NoCrashIsReliable(Apply(s, actions[0]), actions[1..], id);
    }
  }

  /** An accept and a reject of one set whose writes come in the order opposite to their
      acknowledgements. */
  function Overlapping(id: string, reply: HttpResult): seq<Action> {
    BeginAndReply(1, id, ACCEPTED, reply, false)
    + (BeginAndReply(2, id, REJECTED, reply, false) + ([Write(2, "", "")] + [Write(1, "", "")]))
  }

  lemma WritesInOppositeOrder(s: State, accept: DeviceAuth, reject: DeviceAuth)
    requires s.tasks == map[1 := WriteStatus(accept), 2 := WriteStatus(reject)]
    requires accept.id == reject.id && accept.deviceId == reject.deviceId != "" && accept.status != ""
    ensures var s' := Run(s, [Write(2, "", "")] + [Write(1, "", "")]);
            && s'.tasks == map[] && s'.devauth == s.devauth && accept.id in s'.decided && accept.id in s'.store
            && s'.store[accept.id].status == accept.status && s'.store[accept.id].deviceId == accept.deviceId
  {
    StatusIsWritten(s, 2);
    StatusIsWritten(Run(s, [Write(2, "", "")]), 1);
    RunConcat(s, [Write(2, "", "")], [Write(1, "", "")]);
  }

  /** From any quiescent state and for any stored set, that overlap leaves the store accepting what
      devauth rejects, although every step was reliable. */
  lemma OverlapBreaksAgreement(s: State, id: string, reply: HttpResult)
    requires Inv(s) && s.tasks == map[] && id in s.store && Acks204(reply)
    ensures ReliableRun(s, Overlapping(id, reply), id)
    ensures var s' := Run(s, Overlapping(id, reply));
            && s'.tasks == map[] && id in s'.decided && id in s'.store
            && s'.store[id].status == ACCEPTED && (s'.store[id].deviceId, id) in s'.devauth
            && s'.devauth[(s'.store[id].deviceId, id)] == REJECTED
  {
    NoCrashIsReliable(s, Overlapping(id, reply), id);
    assert RecordOk(s.log, id, s.store[id]);
    var accept, reject := s.store[id].(status := ACCEPTED), s.store[id].(status := REJECTED);
    var first, second := BeginAndReply(1, id, ACCEPTED, reply, false), BeginAndReply(2, id, REJECTED, reply, false);
    var writes := [Write(2, "", "")] + [Write(1, "", "")];
    BeginsAndIsAcked(s, 1, id, ACCEPTED, reply, false);
    BeginsAndIsAcked(Run(s, first), 2, id, REJECTED, reply, false);
    WritesInOppositeOrder(Run(Run(s, first), second), accept, reject);
    RunConcat(s, first, second + writes);
    RunConcat(Run(s, first), second, writes);
  }
}
