/**
  Controller leases over whole runs: clients read the activation record, compute
  a change against it later, and store it later still, checked by its version
  (configuration/activation_store.py and configuration/activation_sqlite.py).
 */
module ActivationLease {
  import opened Wrappers
  import opened Activation

  datatype Pc =
    | Idle
    | HasRead(base: Record)
    | Prepared(base: Record, op: Operation, at: int, result: Record)

  /** `clock` never goes back. */
  datatype World = World(record: Record, clock: int, clients: map<nat, Pc>)

  datatype Event =
    | Tick(delta: nat)
    | Read(client: nat)
    | Prepare(client: nat, op: Operation)
    | Commit(client: nat)
    | Crash(client: nat)

  function PcOf(w: World, client: nat): Pc {
    if client in w.clients then w.clients[client] else Idle
  }

  /** The update is stored only over the version that it was computed from, as the next version. */
  predicate Stores(w: World, event: Event) {
    && event.Commit? && PcOf(w, event.client).Prepared?
    && w.record.version == PcOf(w, event.client).base.version
    && PcOf(w, event.client).result.version == PcOf(w, event.client).base.version + 1
  }

  function Next(w: World, event: Event): World {
    match event
    case Tick(delta) => w.(clock := w.clock + delta)
    case Read(client) => w.(clients := w.clients[client := HasRead(w.record)])
    case Prepare(client, op) =>
      if PcOf(w, client).HasRead? && Apply(PcOf(w, client).base, op, w.clock).Success? then
        w.(clients := w.clients[client :=
          Prepared(PcOf(w, client).base, op, w.clock, Apply(PcOf(w, client).base, op, w.clock).value)])
      else
        w.(clients := w.clients[client := Idle])
    case Commit(client) =>
      (if Stores(w, event) then w.(record := PcOf(w, client).result) else w).(clients := w.clients[client := Idle])
    case Crash(client) => w.(clients := w.clients[client := Idle])
  }

  function Run(w: World, events: seq<Event>): World
    decreases |events|
  {
    if events == [] then w else Run(Next(w, events[0]), events[1..])
  }

  // ---------------------------------------------------------------- the invariant

  /** A version identifies the record that a client read, as long as the store still has it. */
  predicate TrueBase(w: World, base: Record) {
    Sound(base) && base.version <= w.record.version && (base.version == w.record.version ==> base == w.record)
  }

  predicate TruePc(w: World, pc: Pc) {
    match pc
    case Idle => true
    case HasRead(base) => TrueBase(w, base)
    case Prepared(base, op, at, result) =>
      TrueBase(w, base) && at <= w.clock && Apply(base, op, at) == Success(result)
  }

  ghost predicate Invariant(w: World) {
    Sound(w.record) && forall c {:trigger PcOf(w, c)} :: TruePc(w, PcOf(w, c))
  }

  lemma NextKeeps(w: World, event: Event)
    requires Invariant(w)
    ensures Invariant(Next(w, event)) && w.clock <= Next(w, event).clock
    ensures Stores(w, event) || Next(w, event).record == w.record
  {
    var w' := Next(w, event);
    if Stores(w, event) {
      var pc := PcOf(w, event.client);
      assert TruePc(w, pc);
      ApplyKeepsSound(pc.base, pc.op, pc.at);
    }
    forall c ensures TruePc(w', PcOf(w', c)) {
      assert TruePc(w, PcOf(w, c));
    }
  }

  // ---------------------------------------------------------------- mutual exclusion

  predicate HasLease(r: Record, owner: string, expires: int) {
    r.leaseOwner == Some(owner) && r.leaseExpires == Some(expires)
  }

  /** The stored changes that may end a lease early: the owner's own, and a releasing transition. */
  predicate GivesUp(op: Operation, owner: string) {
    || (op.AcquireLease? && op.owner == owner)
    || (op.ReleaseLease? && op.owner == owner)
    || (op.Transit? && op.releaseLease)
  }

  predicate GivesUpAt(w: World, event: Event, owner: string) {
    Stores(w, event) && GivesUp(PcOf(w, event.client).op, owner)
  }

  predicate NeverGivesUp(w: World, events: seq<Event>, owner: string)
    decreases |events|
  {
    events == [] || (!GivesUpAt(w, events[0], owner) && NeverGivesUp(Next(w, events[0]), events[1..], owner))
  }

  /** One stored change takes a lease away early only if its owner or a releasing transition did it. */
  lemma LeaseOutlivesStep(w: World, event: Event, owner: string, expires: int)
    requires Invariant(w) && HasLease(w.record, owner, expires)
    requires !GivesUpAt(w, event, owner) && w.clock < expires
    ensures HasLease(Next(w, event).record, owner, expires)
  {
    if Stores(w, event) {
      assert TruePc(w, PcOf(w, event.client));
    }
  }

  /**
    Mutual exclusion over whole runs: until a stored lease expires, no other
    owner's acquisition can be stored, unless the owner gave the lease up or a
    releasing transition was stored.
   */
  lemma {:induction false} LeaseHoldsUntilExpiry(w: World, events: seq<Event>, owner: string, expires: int)
    requires Invariant(w) && HasLease(w.record, owner, expires)
    requires NeverGivesUp(w, events, owner) && Run(w, events).clock < expires
    ensures HasLease(Run(w, events).record, owner, expires)
    decreases |events|
  {
    if events != [] {
      ClockIsMonotone(w, events);
      NextKeeps(w, events[0]);
      LeaseOutlivesStep(w, events[0], owner, expires);
      LeaseHoldsUntilExpiry(Next(w, events[0]), events[1..], owner, expires);
    }
  }

  lemma {:induction false} ClockIsMonotone(w: World, events: seq<Event>)
    ensures w.clock <= Run(w, events).clock
    decreases |events|
  {
    if events != [] {
      ClockIsMonotone(Next(w, events[0]), events[1..]);
    }
  }

  /** Seen from the taker: another owner's lease replaces a stored one only at or after its expiry. */
  lemma TakeoverOnlyAfterExpiry(w: World, event: Event, owner: string, expires: int)
    requires Invariant(w) && HasLease(w.record, owner, expires)
    requires Next(w, event).record.leaseOwner.Some? && Next(w, event).record.leaseOwner.value != owner
    ensures w.clock >= expires
  {
    if w.clock < expires && !GivesUpAt(w, event, owner) {
      LeaseOutlivesStep(w, event, owner, expires);
    } else if Stores(w, event) {
      assert TruePc(w, PcOf(w, event.client));
    }
  }

  /** Every run from a fresh record keeps the invariant that the results above start from. */
  lemma {:induction false} EveryRunKeeps(w: World, events: seq<Event>)
    requires Invariant(w)
    ensures Invariant(Run(w, events))
    decreases |events|
  {
    if events != [] {
      NextKeeps(w, events[0]);
      EveryRunKeeps(Next(w, events[0]), events[1..]);
    }
  }

  lemma FreshWorldIsInvariant(scope: string, plan: Plan, now: int)
    requires plan.scope == scope
    ensures Invariant(World(Fresh(scope, plan, now), now, map[]))
  {
    FreshIsSound(scope, plan, now);
  }

  /**
    The same for every run from a fresh record: whatever happened before, a lease
    once stored excludes every other owner until it expires or is given up.
   */
  lemma LeaseExcludesOthersFromFresh(
    scope: string, plan: Plan, now: int, before: seq<Event>, after: seq<Event>, owner: string, expires: int)
    requires plan.scope == scope
    requires
      var w := Run(World(Fresh(scope, plan, now), now, map[]), before);
      HasLease(w.record, owner, expires) && NeverGivesUp(w, after, owner) && Run(w, after).clock < expires
    ensures HasLease(Run(Run(World(Fresh(scope, plan, now), now, map[]), before), after).record, owner, expires)
  {
    var start := World(Fresh(scope, plan, now), now, map[]);
    FreshWorldIsInvariant(scope, plan, now);
    EveryRunKeeps(start, before);
    LeaseHoldsUntilExpiry(Run(start, before), after, owner, expires);
  }
}
