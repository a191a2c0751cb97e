/** The admission protocol of `DevAdm` as a transition system over one tenant's store and devauth.
    A request is a short program: read the record, call devauth, write or delete. Nothing locks
    between the steps, so any step of any request may come next, and a request may be dropped
    after any of its steps. `Apply` is total: an action that does not fit the state changes
    nothing, so the sequences of actions are exactly the interleavings. */
module Protocol {
  import opened Wrappers
  import opened Model
  import opened Records
  import opened Client

  /** What a request in flight has captured and what it does next. */
  datatype Task =
    | CallStatus(dev: DeviceAuth)        // record read, its status replaced by the requested one
    | WriteStatus(dev: DeviceAuth)       // devauth acknowledged the status
    | WritePreAccept(id: string)         // internal accept, record read as preauthorized
    | CallDelete(dev: DeviceAuth)        // management delete, record read
    | RemoveRecord(deviceId: string, id: string)   // devauth acknowledged the deletion
    | WriteInsert(dev: DeviceAuth)       // preauthorization, no record with this identity read
    | CallPreauth(dev: DeviceAuth)       // preauthorized record stored, devauth not yet told

  /** The history, in order: what was handed to the store, what devauth acknowledged, and what the
      requests that change a status read first. */
  datatype Event =
    | Submitted(dev: DeviceAuth)
    | Inserted(dev: DeviceAuth)
    | StatusAcked(deviceId: string, id: string, status: string)
    | SawPreauthorized(id: string)
    | DeleteAcked(deviceId: string, id: string)
    | StatusRead(dev: DeviceAuth)

  /** `decided`: the ids whose stored status a management status change wrote last. */
  datatype State = State(
    store: Store,
    devauth: map<(string, string), string>,
    tasks: map<nat, Task>,
    decided: set<string>,
    log: seq<Event>)

  const INIT := State(map[], map[], map[], {}, [])

  /** `rid` names a request. A devauth reply that is not an acknowledgement may still hide a
      change (`applied`); `spared` is what a multi-document removal does not get to in
      this step. */
  datatype Action =
    | Submit(dev: DeviceAuth, now: int)
    | BeginStatus(rid: nat, id: string, status: string)
    | BeginPreAccept(rid: nat, id: string)
    | BeginDelete(rid: nat, id: string)
    | BeginPreauth(rid: nat, identity: string, key: string, attributes: Attributes, now: int)
    | DevauthReplies(rid: nat, reply: HttpResult, applied: bool)
    | Write(rid: nat, newId: string, newDeviceId: string)
    | Crash(rid: nat)
    | RemoveInternal(id: string)
    | RemoveByDevice(deviceId: string, spared: set<string>)

  // ----- the gates in front of the protocol --------------------------------------------------

  /** What `parseDevice` lets through. */
  predicate Acceptable(dev: DeviceAuth) {
    dev.id != "" && dev.deviceId != "" && dev.deviceIdentity != "" && dev.key != "" && dev.attributes != map[]
  }

  predicate Enabled(s: State, a: Action) {
    match a
    case Submit(dev, _) => Acceptable(dev)
    case BeginStatus(rid, id, status) =>
      rid !in s.tasks && (status == ACCEPTED || status == REJECTED) && id in s.store
    case BeginPreAccept(rid, id) => rid !in s.tasks && id in s.store && s.store[id].status == PREAUTHORIZED
    case BeginDelete(rid, id) => rid !in s.tasks && id in s.store
    case BeginPreauth(rid, identity, key, attributes, _) =>
      && rid !in s.tasks && identity != "" && key != "" && attributes != map[]
      && forall id :: id in s.store ==> s.store[id].deviceIdentity != identity
    case DevauthReplies(rid, _, _) =>
      rid in s.tasks && (s.tasks[rid].CallStatus? || s.tasks[rid].CallDelete? || s.tasks[rid].CallPreauth?)
    case Write(rid, newId, newDeviceId) =>
      && rid in s.tasks
      && (s.tasks[rid].WriteStatus? || s.tasks[rid].WritePreAccept? || s.tasks[rid].RemoveRecord? || s.tasks[rid].WriteInsert?)
      && (s.tasks[rid].WriteInsert? ==> IsObjectIdHex(newId) && IsObjectIdHex(newDeviceId))
    case Crash(rid) => rid in s.tasks
    case RemoveInternal(_) => true
    case RemoveByDevice(deviceId, _) => deviceId != ""
  }

  // ----- one step ----------------------------------------------------------------------------

  /** The record `SubmitDeviceHandler` and `SubmitDeviceAuth` hand to the store. */
  function SubmittedRecord(dev: DeviceAuth, now: int): DeviceAuth {
    dev.(status := PENDING, requestTime := Some(now))
  }

  function PreauthRecord(identity: string, key: string, attributes: Attributes, now: int): DeviceAuth {
    ZERO.(deviceIdentity := identity, status := PREAUTHORIZED, attributes := attributes, key := key,
          requestTime := Some(now))
  }

  /** The update `updateDeviceAuthStatus` puts: id, device id and status only. */
  function StatusUpdate(dev: DeviceAuth): DeviceAuth {
    ZERO.(id := dev.id, deviceId := dev.deviceId, status := dev.status)
  }

  function PreAcceptUpdate(id: string): DeviceAuth {
    ZERO.(id := id, status := ACCEPTED)
  }

  /** Whether a reply acknowledges the call a task makes. */
  predicate Acks(t: Task, reply: HttpResult) {
    if t.CallPreauth? then Acks201(reply) else Acks204(reply)
  }

  /** devauth's view after it carried a call out. */
  function DevauthAfter(devauth: map<(string, string), string>, t: Task): map<(string, string), string> {
    match t
    case CallStatus(dev) => devauth[(dev.deviceId, dev.id) := dev.status]
    case CallDelete(dev) => devauth - {(dev.deviceId, dev.id)}
    case CallPreauth(dev) => devauth[(dev.deviceId, dev.id) := PREAUTHORIZED]
    case _ => devauth
  }

  /** What an action adds to the history. */
  function Emitted(s: State, a: Action): seq<Event> {
    if !Enabled(s, a) then []
    else match a
      case Submit(dev, now) => [Submitted(SubmittedRecord(dev, now))]
      case BeginStatus(_, id, _) => [StatusRead(s.store[id])]
      case BeginPreAccept(_, id) => [SawPreauthorized(id)]
      case DevauthReplies(rid, reply, _) =>
        if !Acks(s.tasks[rid], reply) then []
        else (match s.tasks[rid]
              case CallStatus(dev) => [StatusAcked(dev.deviceId, dev.id, dev.status)]
              case CallDelete(dev) => [DeleteAcked(dev.deviceId, dev.id)]
              case _ => [])
      case Write(rid, newId, newDeviceId) =>
        (match s.tasks[rid]
         case WriteInsert(dev) =>
           if newId in s.store then [] else [Inserted(dev.(id := newId, deviceId := newDeviceId))]
         case _ => [])
      case _ => []
  }

  function StoreAfter(s: State, a: Action): Store {
    if !Enabled(s, a) then s.store
    else match a
      case Submit(dev, now) => Put(s.store, SubmittedRecord(dev, now))
      case Write(rid, newId, newDeviceId) =>
        (match s.tasks[rid]
         case WriteStatus(dev) => Put(s.store, StatusUpdate(dev))
         case WritePreAccept(id) => Update(s.store, PreAcceptUpdate(id))
         case RemoveRecord(_, id) => Delete(s.store, id)
         case WriteInsert(dev) => Insert(s.store, dev.(id := newId, deviceId := newDeviceId))
         case _ => s.store)
      case RemoveInternal(id) => Delete(s.store, id)
      case RemoveByDevice(deviceId, spared) => DeleteByDevice(s.store, deviceId, spared)
      case _ => s.store
  }

  function TasksAfter(s: State, a: Action): map<nat, Task> {
    if !Enabled(s, a) then s.tasks
    else match a
      case BeginStatus(rid, id, status) => s.tasks[rid := CallStatus(s.store[id].(status := status))]
      case BeginPreAccept(rid, id) => s.tasks[rid := WritePreAccept(s.store[id].id)]
      case BeginDelete(rid, id) => s.tasks[rid := CallDelete(s.store[id])]
      case BeginPreauth(rid, identity, key, attributes, now) =>
        s.tasks[rid := WriteInsert(PreauthRecord(identity, key, attributes, now))]
      case DevauthReplies(rid, reply, _) =>
        if !Acks(s.tasks[rid], reply) then s.tasks - {rid}
        else (match s.tasks[rid]
              case CallStatus(dev) => s.tasks[rid := WriteStatus(dev)]
              case CallDelete(dev) => s.tasks[rid := RemoveRecord(dev.deviceId, dev.id)]
              case _ => s.tasks - {rid})
      case Write(rid, newId, newDeviceId) =>
        if s.tasks[rid].WriteInsert? && newId !in s.store
        then s.tasks[rid := CallPreauth(s.tasks[rid].dev.(id := newId, deviceId := newDeviceId))]
        else s.tasks - {rid}
      case Crash(rid) => s.tasks - {rid}
      case _ => s.tasks
  }

  /** A write by anyone but a management status change takes the id out of the decided ones. */
  function DecidedAfter(s: State, a: Action): set<string> {
    if !Enabled(s, a) then s.decided
    else match a
      case Submit(dev, _) => s.decided - {dev.id}
      case Write(rid, newId, _) =>
        (match s.tasks[rid]
         case WriteStatus(dev) => s.decided + {dev.id}
         case WritePreAccept(id) => s.decided - {id}
         case RemoveRecord(_, id) => s.decided - {id}
         case WriteInsert(_) => if newId in s.store then s.decided else s.decided - {newId}
         case _ => s.decided)
      case RemoveInternal(id) => s.decided - {id}
      case RemoveByDevice(_, _) => s.decided * StoreAfter(s, a).Keys
      case _ => s.decided
  }

  function Apply(s: State, a: Action): State {
    State(
      StoreAfter(s, a),
      if Enabled(s, a) && a.DevauthReplies? && (a.applied || Acks(s.tasks[a.rid], a.reply))
      then DevauthAfter(s.devauth, s.tasks[a.rid]) else s.devauth,
      TasksAfter(s, a),
      DecidedAfter(s, a),
      s.log + Emitted(s, a))
  }

  function Run(s: State, actions: seq<Action>): State
    decreases |actions|
  {
    if actions == [] then s else Run(Apply(s, actions[0]), actions[1..])
  }

  lemma {:induction false} RunConcat(s: State, first: seq<Action>, second: seq<Action>)
    ensures Run(s, first + second) == Run(Run(s, first), second)
    decreases |first|
  {
    if first == [] {
      assert first + second == second;
    } else {
      assert (first + second)[1..] == first[1..] + second;
      RunConcat(Apply(s, first[0]), first[1..], second);
    }
  }

  lemma RunOne(s: State, a: Action)
    ensures Run(s, [a]) == Apply(s, a)
  {
    assert [a][1..] == [];
  }

  /** The history records real steps: an event was emitted by the action at some position, in the
      state the run had reached there. */
  lemma {:induction false} HistoryIsReal(s: State, actions: seq<Action>, e: Event)
    requires e in Run(s, actions).log && e !in s.log
    ensures exists k :: 0 <= k < |actions| && e in Emitted(Run(s, actions[..k]), actions[k])
    decreases |actions|
  {
    if e in Emitted(s, actions[0]) {
      assert Run(s, actions[..0]) == s;
    } else {
      var s' := Apply(s, actions[0]);
      HistoryIsReal(s', actions[1..], e);
      var k :| 0 <= k < |actions| - 1 && e in Emitted(Run(s', actions[1..][..k]), actions[1..][k]);
      assert actions[..k + 1][1..] == actions[1..][..k];
      assert e in Emitted(Run(s, actions[..k + 1]), actions[k + 1]);
    }
  }

  // ----- closed forms of undisturbed stretches -----------------------------------------------

  /** A status change up to devauth's reply, which may hide that devauth applied the change. */
  function BeginAndReply(rid: nat, id: string, status: string, reply: HttpResult, applied: bool): seq<Action> {
    [BeginStatus(rid, id, status)] + [DevauthReplies(rid, reply, applied)]
  }

  lemma BeginsAndIsAcked(s: State, rid: nat, id: string, status: string, reply: HttpResult, applied: bool)
    requires id in s.store && rid !in s.tasks && Acks204(reply) && (status == ACCEPTED || status == REJECTED)
    ensures var dev := s.store[id].(status := status);
            var acked := s.log + [StatusRead(s.store[id]), StatusAcked(dev.deviceId, dev.id, status)];
            Run(s, BeginAndReply(rid, id, status, reply, applied)) ==
            State(s.store, s.devauth[(dev.deviceId, dev.id) := status], s.tasks[rid := WriteStatus(dev)], s.decided, acked)
  {
    var dev := s.store[id].(status := status);
    RunOne(s, BeginStatus(rid, id, status));
    var s1 := Apply(s, BeginStatus(rid, id, status));
    RunOne(s1, DevauthReplies(rid, reply, applied));
    RunConcat(s, [BeginStatus(rid, id, status)], [DevauthReplies(rid, reply, applied)]);
    assert s1.tasks[rid] == CallStatus(dev);
  }

  lemma StatusIsWritten(s: State, rid: nat)
    requires rid in s.tasks && s.tasks[rid].WriteStatus?
    ensures var dev := s.tasks[rid].dev;
            Run(s, [Write(rid, "", "")]) ==
            State(Put(s.store, StatusUpdate(dev)), s.devauth, s.tasks - {rid}, s.decided + {dev.id}, s.log)
  {
    RunOne(s, Write(rid, "", ""));
  }

  /** A call that devauth does not acknowledge leaves the store and the requests in flight as they
      were, and devauth too unless it applied the change unseen. */
  lemma BeginsAndIsRefused(s: State, rid: nat, id: string, status: string, reply: HttpResult, applied: bool)
    requires id in s.store && rid !in s.tasks && !Acks204(reply) && (status == ACCEPTED || status == REJECTED)
    ensures var s' := Run(s, BeginAndReply(rid, id, status, reply, applied));
            && s'.store == s.store && s'.tasks == s.tasks && s'.decided == s.decided && s'.log == s.log + [StatusRead(s.store[id])]
            && s'.devauth == if applied then s.devauth[(s.store[id].deviceId, s.store[id].id) := status] else s.devauth
  {
    RunOne(s, BeginStatus(rid, id, status));
    var s1 := Apply(s, BeginStatus(rid, id, status));
    RunOne(s1, DevauthReplies(rid, reply, applied));
    RunConcat(s, [BeginStatus(rid, id, status)], [DevauthReplies(rid, reply, applied)]);
    assert s1.tasks[rid] == CallStatus(s.store[id].(status := status));
  }

  /** Actions that do not fit change nothing. */
  lemma BeginsOnNothing(s: State, rid: nat, id: string, status: string, reply: HttpResult, applied: bool)
    requires id !in s.store && rid !in s.tasks
    ensures Run(s, BeginAndReply(rid, id, status, reply, applied)) == s
  {
    RunOne(s, BeginStatus(rid, id, status));
    RunOne(s, DevauthReplies(rid, reply, applied));
    RunConcat(s, [BeginStatus(rid, id, status)], [DevauthReplies(rid, reply, applied)]);
    assert s.log + [] == s.log;
  }
}
