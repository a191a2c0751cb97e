/** One database per tenant, named after the tenant, and a whole service made of them. */
module Tenants {
  import opened Wrappers
  import opened Records
  import opened Protocol

  const DB_NAME := "deviceadm"

  function DbNameForTenant(tenant: string): string {
    if tenant == "" then DB_NAME else DB_NAME + "-" + tenant
  }

  /** The way back, which the start-up migration uses to find the tenant of a database. */
  function TenantFromDbName(name: string): string {
    var prefix := DB_NAME + "-";
    if |prefix| <= |name| && name[..|prefix|] == prefix then name[|prefix|..] else ""
  }

  lemma TenantNameRoundTrip(tenant: string)
    ensures TenantFromDbName(DbNameForTenant(tenant)) == tenant
    ensures DbNameForTenant("") == "deviceadm" && (tenant != "" ==> DbNameForTenant(tenant) == "deviceadm-" + tenant)
  {
    var name := DB_NAME + "-" + tenant;
    assert name[|DB_NAME| + 1..] == tenant && name[..|DB_NAME| + 1] == DB_NAME + "-";
  }

  // ----- one service -------------------------------------------------------------------------

  /** A request in flight, with the tenant that its context named when it arrived. */
  datatype Request = Request(tenant: string, task: Task)

  /** One database server, one devauth and one pool of requests for all tenants. */
  datatype World = World(databases: map<string, Store>, devauth: map<(string, string), string>, requests: map<nat, Request>)

  const EMPTY := World(map[], map[], map[])

  /** The first step of a request comes with the tenant's identity; the later ones have only what
      the request captured. */
  datatype Step = Arrives(tenant: string, action: Action) | Continues(action: Action)

  predicate IsLater(a: Action) {
    a.DevauthReplies? || a.Write? || a.Crash?
  }

  /** A first step that puts a request into the pool. */
  predicate IsBegin(a: Action) {
    a.BeginStatus? || a.BeginPreAccept? || a.BeginDelete? || a.BeginPreauth?
  }

  /** The tenant a step works for: none if its request is not there, or its number is taken. */
  function TenantOf(w: World, step: Step): Option<string> {
    match step
    case Arrives(tenant, a) => if IsLater(a) || (IsBegin(a) && a.rid in w.requests) then None else Some(tenant)
    case Continues(a) => if IsLater(a) && a.rid in w.requests then Some(w.requests[a.rid].tenant) else None
  }

  function StoreOf(w: World, tenant: string): Store {
    var name := DbNameForTenant(tenant);
    if name in w.databases then w.databases[name] else map[]
  }

  /** What a step for a tenant works on: the store found by the tenant's name, devauth, and the
      requests that captured this tenant. */
  function Part(w: World, tenant: string): State {
    State(StoreOf(w, tenant), w.devauth,
          map rid | rid in w.requests && w.requests[rid].tenant == tenant :: w.requests[rid].task, {}, [])
  }

  /** The world once a tenant's part has become s. */
  function WithPart(w: World, tenant: string, s: State): World {
    World(
      w.databases[DbNameForTenant(tenant) := s.store],
      s.devauth,
      (map rid | rid in w.requests && w.requests[rid].tenant != tenant :: w.requests[rid])
      + (map rid | rid in s.tasks :: Request(tenant, s.tasks[rid])))
  }

  function StepWorld(w: World, step: Step): World {
    var tenant := TenantOf(w, step);
    if tenant.None? then w else WithPart(w, tenant.value, Apply(Part(w, tenant.value), step.action))
  }

  function RunWorld(w: World, steps: seq<Step>): World
    decreases |steps|
  {
    if steps == [] then w else RunWorld(StepWorld(w, steps[0]), steps[1..])
  }

  /** The same records and the same requests in flight. */
  predicate Alike(s: State, t: State) {
    s.store == t.store && s.tasks == t.tasks
  }

  lemma AlikeStaysAlike(s: State, t: State, a: Action)
    requires Alike(s, t)
    ensures Alike(Apply(s, a), Apply(t, a))
  {
  }

  /** A step adds no request but its own. */
  lemma OnlyOwnRequest(s: State, a: Action, rid: nat)
    requires rid in Apply(s, a).tasks && rid !in s.tasks
    ensures IsBegin(a) && rid == a.rid
  {
  }

  /** Replacing one tenant's part leaves the others' records and requests, as long as it takes no
      request of theirs. */
  lemma PartsAreApart(w: World, acting: string, s: State, tenant: string)
    requires forall rid :: rid in s.tasks && rid in w.requests ==> w.requests[rid].tenant == acting
    ensures Alike(Part(WithPart(w, acting, s), tenant), if acting == tenant then s else Part(w, tenant))
  {
    TenantNameRoundTrip(acting);
    TenantNameRoundTrip(tenant);
    var tasks := Part(WithPart(w, acting, s), tenant).tasks;
    var after := if acting == tenant then s.tasks else Part(w, tenant).tasks;
    forall rid ensures rid in tasks <==> rid in after {
    }
    assert tasks == after;
  }

  /** A step for one tenant is a step of that tenant's part of the world and leaves every other
      tenant's part as it was, devauth aside, which all share. */
  lemma StepStaysInside(w: World, step: Step, tenant: string)
    ensures Alike(Part(StepWorld(w, step), tenant),
                  if TenantOf(w, step) == Some(tenant) then Apply(Part(w, tenant), step.action) else Part(w, tenant))
  {
    var acting := TenantOf(w, step);
    if acting.Some? {
      var s := Apply(Part(w, acting.value), step.action);
      forall rid | rid in s.tasks && rid in w.requests ensures w.requests[rid].tenant == acting.value {
        if rid !in Part(w, acting.value).tasks {
          OnlyOwnRequest(Part(w, acting.value), step.action, rid);
        }
      }
      PartsAreApart(w, acting.value, s, tenant);
    }
  }

  // ----- whose step it is --------------------------------------------------------------------

  /** A request of one step acts on the store of the tenant it arrives for, and on nothing else. */
  lemma OneStepRequestStaysInside(w: World, tenant: string, a: Action, other: string)
    requires a.Submit? || a.RemoveInternal? || a.RemoveByDevice?
    ensures var w' := StepWorld(w, Arrives(tenant, a));
            && StoreOf(w', tenant) == Apply(Part(w, tenant), a).store
            && (other != tenant ==> StoreOf(w', other) == StoreOf(w, other))
            && (forall t :: Part(w', t).tasks == Part(w, t).tasks) && w'.devauth == w.devauth
  {
    StepStaysInside(w, Arrives(tenant, a), tenant);
    StepStaysInside(w, Arrives(tenant, a), other);
    forall t ensures Part(StepWorld(w, Arrives(tenant, a)), t).tasks == Part(w, t).tasks {
      StepStaysInside(w, Arrives(tenant, a), t);
    }
  }

  /** A longer request enters the pool with the tenant it arrives for, having read that tenant's
      store; no store changes. */
  lemma NewRequestKeepsItsTenant(w: World, tenant: string, a: Action, other: string)
    requires IsBegin(a) && a.rid !in w.requests && Enabled(Part(w, tenant), a)
    ensures var w' := StepWorld(w, Arrives(tenant, a));
            && a.rid in w'.requests && w'.requests[a.rid].tenant == tenant
            && w'.requests[a.rid].task == TasksAfter(Part(w, tenant), a)[a.rid]
            && StoreOf(w', other) == StoreOf(w, other)
  {
    StepStaysInside(w, Arrives(tenant, a), tenant);
    StepStaysInside(w, Arrives(tenant, a), other);
    assert a.rid in Part(StepWorld(w, Arrives(tenant, a)), tenant).tasks;
  }

  /** A later step acts on the store and the request of the tenant stored with that request. */
  lemma LaterStepStaysWithItsRequest(w: World, a: Action, other: string)
    requires IsLater(a) && a.rid in w.requests
    ensures var w', tenant := StepWorld(w, Continues(a)), w.requests[a.rid].tenant;
            && Alike(Part(w', tenant), Apply(Part(w, tenant), a))
            && (other != tenant ==> Alike(Part(w', other), Part(w, other)))
            && w'.devauth == Apply(Part(w, tenant), a).devauth
  {
    StepStaysInside(w, Continues(a), w.requests[a.rid].tenant);
    StepStaysInside(w, Continues(a), other);
  }

  // ----- isolation ---------------------------------------------------------------------------

  /** The tenant named by the arrival of a request. */
  function LabelOf(steps: seq<Step>, rid: nat): Option<string> {
    if steps == [] then None
    else if Announces(steps[0], rid) then Some(steps[0].tenant)
    else LabelOf(steps[1..], rid)
  }

  predicate Announces(step: Step, rid: nat) {
    step.Arrives? && IsBegin(step.action) && step.action.rid == rid
  }

  /** Every request has a number of its own. */
  predicate Numbered(steps: seq<Step>) {
    forall i, j :: 0 <= i < j < |steps| && steps[i].Arrives? && IsBegin(steps[i].action) ==> !Announces(steps[j], steps[i].action.rid)
  }

  /** A step is a tenant's own if it arrives for that tenant or continues a request that did. */
  predicate IsOwn(all: seq<Step>, step: Step, tenant: string) {
    match step
    case Arrives(t, a) => t == tenant && !IsLater(a)
    case Continues(a) => IsLater(a) && LabelOf(all, a.rid) == Some(tenant)
  }

  /** The tenant's own steps among `steps`, by the labels of the arrivals in `all`. */
  function OwnSteps(all: seq<Step>, steps: seq<Step>, tenant: string): seq<Action> {
    if steps == [] then []
    else (if IsOwn(all, steps[0], tenant) then [steps[0].action] else []) + OwnSteps(all, steps[1..], tenant)
  }

  lemma {:induction false} LabelIs(steps: seq<Step>, k: nat)
    requires Numbered(steps) && k < |steps| && steps[k].Arrives? && IsBegin(steps[k].action)
    ensures LabelOf(steps, steps[k].action.rid) == Some(steps[k].tenant)
  {
    if k > 0 {
      assert !Announces(steps[0], steps[k].action.rid);
      LabelIs(steps[1..], k - 1);
    }
  }

  /** Requests in the pool have their labels' tenants, and those still to arrive are not there. */
  ghost predicate PoolOk(w: World, all: seq<Step>, done: nat) {
    && (forall rid :: rid in w.requests ==> LabelOf(all, rid) == Some(w.requests[rid].tenant))
    && (forall k :: done <= k < |all| && all[k].Arrives? && IsBegin(all[k].action) ==> all[k].action.rid !in w.requests)
  }

  lemma PoolStaysOk(w: World, all: seq<Step>, done: nat)
    requires Numbered(all) && done < |all| && PoolOk(w, all, done)
    ensures PoolOk(StepWorld(w, all[done]), all, done + 1)
  {
    var step := all[done];
    var w', acting := StepWorld(w, step), TenantOf(w, step);
    if acting.Some? {
      forall rid | rid in w'.requests && rid !in w.requests ensures IsBegin(step.action) && rid == step.action.rid && w'.requests[rid].tenant == acting.value {
        OnlyOwnRequest(Part(w, acting.value), step.action, rid);
      }
      forall rid | rid in w'.requests && rid in w.requests ensures w'.requests[rid].tenant == w.requests[rid].tenant {
        if rid in Apply(Part(w, acting.value), step.action).tasks && rid !in Part(w, acting.value).tasks {
          OnlyOwnRequest(Part(w, acting.value), step.action, rid);
        }
      }
      if step.Arrives? && IsBegin(step.action) {
        LabelIs(all, done);
      }
    }
  }

  /** A step that is a tenant's own by its label acts on that tenant's part, any other does not. */
  lemma OwnStepIsTaken(w: World, all: seq<Step>, done: nat, tenant: string)
    requires Numbered(all) && done < |all| && PoolOk(w, all, done)
    ensures Alike(Part(StepWorld(w, all[done]), tenant),
                  if IsOwn(all, all[done], tenant) then Apply(Part(w, tenant), all[done].action) else Part(w, tenant))
  {
    StepStaysInside(w, all[done], tenant);
    if all[done].Continues? && IsLater(all[done].action) && all[done].action.rid !in w.requests {
      assert !Enabled(Part(w, tenant), all[done].action);
    }
  }

  /** The law for what is left of a run after its first steps. */
  lemma {:induction false} RestDoesNotInterfere(w: World, all: seq<Step>, done: nat, tenant: string, alone: State)
    requires Numbered(all) && done <= |all| && PoolOk(w, all, done) && Alike(Part(w, tenant), alone)
    ensures Alike(Part(RunWorld(w, all[done..]), tenant), Run(alone, OwnSteps(all, all[done..], tenant)))
    decreases |all| - done
  {
    if done < |all| {
      var step, rest := all[done], OwnSteps(all, all[done + 1..], tenant);
      assert all[done..][0] == step && all[done..][1..] == all[done + 1..];
      PoolStaysOk(w, all, done);
      OwnStepIsTaken(w, all, done, tenant);
      if IsOwn(all, step, tenant) {
        AlikeStaysAlike(Part(w, tenant), alone, step.action);
        RestDoesNotInterfere(StepWorld(w, step), all, done + 1, tenant, Apply(alone, step.action));
        assert ([step.action] + rest)[1..] == rest;
      } else {
        RestDoesNotInterfere(StepWorld(w, step), all, done + 1, tenant, alone);
        assert [] + rest == rest;
      }
    }
  }

  /** Whatever the other tenants do in between, a tenant's store and its requests in flight end as if
      only the steps had run that arrive for it or continue requests that did, with the same replies
      and generated ids. So every tenant's store is one that the protocol alone reaches from an
      empty store, and all that holds of those holds of it. */
  lemma TenantsDoNotInterfere(steps: seq<Step>, tenant: string)
    requires Numbered(steps)
    ensures var alone := Run(INIT, OwnSteps(steps, steps, tenant));
            StoreOf(RunWorld(EMPTY, steps), tenant) == alone.store && Part(RunWorld(EMPTY, steps), tenant).tasks == alone.tasks
  {
    assert steps[0..] == steps;
    RestDoesNotInterfere(EMPTY, steps, 0, tenant, INIT);
  }
}
