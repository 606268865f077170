/** Breakpoints: actions that request a halt, kept by one client of the action point manager. */
module Breakpoints {
  import opened Status
  import opened ActionPoints

  /** The callback of all breakpoints; other clients of the action points use other callbacks. */
  const BREAKPOINT: nat := 0

  datatype BreakpointInfo = BreakpointInfo(address: nat, id: nat, isActive: bool)

  type BreakpointMap = map<nat, BreakpointInfo>

  datatype Debugger = Debugger(machine: State, breakpoints: BreakpointMap)

  datatype Reply = Reply(next: Debugger, status: Result<()>)

  // ----- the operations -----

  function SetBreakpoint(d: Debugger, failing: set<nat>, address: nat): Reply {
    if address in d.breakpoints then Reply(d, Err(AlreadyExists))
    else
      var r := Set(d.machine, failing, address, BREAKPOINT);
      match r.status
      case Err(e) => Reply(d.(machine := r.next), Err(e))
      case Ok(id) => Reply(Debugger(r.next, d.breakpoints[address := BreakpointInfo(address, id, true)]), Ok(()))
  }

  /** The breakpoint is forgotten only if clearing its action reports success. */
  function ClearBreakpoint(d: Debugger, failing: set<nat>, address: nat): Reply {
    if address !in d.breakpoints then Reply(d, Err(NotFound))
    else
      var r := Clear(d.machine, failing, address, d.breakpoints[address].id);
      if r.status.Err? then Reply(d.(machine := r.next), r.status)
      else Reply(Debugger(r.next, d.breakpoints - {address}), Ok(()))
  }

  function DisableBreakpoint(d: Debugger, failing: set<nat>, address: nat): Reply {
    if address !in d.breakpoints then Reply(d, Err(NotFound))
    else
      var r := Disable(d.machine, failing, address, d.breakpoints[address].id);
      Reply(d.(machine := r.next), r.status)
  }

  function EnableBreakpoint(d: Debugger, failing: set<nat>, address: nat): Reply {
    if address !in d.breakpoints then Reply(d, Err(NotFound))
    else
      var r := Enable(d.machine, failing, address, d.breakpoints[address].id);
      Reply(d.(machine := r.next), r.status)
  }

  predicate IsBreak(d: Debugger, address: nat) {
    address in d.breakpoints && IsEnabled(d.machine, address, d.breakpoints[address].id)
  }

  /** The machine after the actions of the breakpoints at the addresses in done have been cleared. */
  function ClearedFor(m: State, failing: set<nat>, bps: BreakpointMap, done: set<nat>): State {
    State(map a | a in m.points :: if a in done && a in bps then Clear(m, failing, a, bps[a].id).next.points[a] else m.points[a],
          set a | a in m.patched && (a in done && a in bps ==> a in Clear(m, failing, a, bps[a].id).next.patched))
  }

  /** All breakpoints are forgotten, whether clearing their actions reports success or not. */
  function ClearAllBreakpoints(d: Debugger, failing: set<nat>): Debugger {
    Debugger(ClearedFor(d.machine, failing, d.breakpoints, d.breakpoints.Keys), map[])
  }

  // ----- ownership -----

  /** An action of the breakpoints. */
  predicate IsOwn(m: State, a: nat, id: nat) {
    HasAction(m, a, id) && m.points[a].actionMap[id].callback == BREAKPOINT
  }

  /** The breakpoint has its action, at its own address. */
  predicate Backed(d: Debugger, a: nat) {
    a in d.breakpoints ==> IsOwn(d.machine, a, d.breakpoints[a].id)
  }

  /** The action, if it is one of the breakpoints', belongs to the breakpoint of its address. */
  predicate Accounted(d: Debugger, a: nat, id: nat) {
    IsOwn(d.machine, a, id) ==> a in d.breakpoints && d.breakpoints[a].id == id
  }

  /** Every breakpoint has a live action of its own, and the breakpoint actions are no more than these. */
  ghost predicate Owned(d: Debugger) {
    (forall a: nat :: Backed(d, a)) && (forall a: nat, id: nat :: Accounted(d, a, id))
  }

  /** What a client other than the breakpoints sees of an action. */
  function OthersAction(m: State, a: nat, id: nat): Option<ActionInfo> {
    if HasAction(m, a, id) && !IsOwn(m, a, id) then Some(m.points[a].actionMap[id]) else None
  }

  predicate SameAction(m: State, n: State, a: nat, id: nat) {
    OthersAction(m, a, id) == OthersAction(n, a, id)
  }

  /** No action of another client has come, gone or changed. */
  ghost predicate SameOthers(m: State, n: State) {
    forall a: nat, id: nat :: SameAction(m, n, a, id)
  }

  datatype Command =
    | SetAt(address: nat)
    | ClearAt(address: nat)
    | EnableAt(address: nat)
    | DisableAt(address: nat)
    | ClearEverything

  function Execute(d: Debugger, failing: set<nat>, c: Command): Reply {
    match c
    case SetAt(a) => SetBreakpoint(d, failing, a)
    case ClearAt(a) => ClearBreakpoint(d, failing, a)
    case EnableAt(a) => EnableBreakpoint(d, failing, a)
    case DisableAt(a) => DisableBreakpoint(d, failing, a)
    case ClearEverything => Reply(ClearAllBreakpoints(d, failing), Ok(()))
  }

  /** A breakpoint is cleared whose instruction cannot be restored, although nothing but the breakpoint keeps its
      address active. */
  predicate ClearFails(d: Debugger, failing: set<nat>, c: Command) {
    && c.ClearAt? && c.address in d.breakpoints && c.address in failing && c.address in d.machine.points
    && d.machine.points[c.address].numActive == if IsBreak(d, c.address) then 1 else 0
  }

  /** That is when clearing a breakpoint with an action reports an error. */
  lemma {:induction false} ClearFailsIff(d: Debugger, failing: set<nat>, c: Command)
    requires c.ClearAt? && c.address in d.breakpoints && Backed(d, c.address)
    ensures ClearFails(d, failing, c) <==> ClearBreakpoint(d, failing, c.address).status.Err?
  {
  }

  /** A new action takes an id that no action at the address has, and no other action changes. */
  lemma {:induction false} SetEffect(m: State, failing: set<nat>, address: nat, callback: nat, a: nat, i: nat)
    requires AllCounted(m) && Set(m, failing, address, callback).status.Ok?
    ensures var r := Set(m, failing, address, callback);
            && !HasAction(m, address, r.status.value)
            && (HasAction(r.next, a, i) <==> HasAction(m, a, i) || (a == address && i == r.status.value))
            && (HasAction(m, a, i) ==> r.next.points[a].actionMap[i] == m.points[a].actionMap[i])
            && HasAction(r.next, address, r.status.value)
            && r.next.points[address].actionMap[r.status.value] == ActionInfo(callback, true)
  {
    if address in m.points { assert Counted(m.points[address]); }
  }

  lemma {:induction false} ClearEffect(m: State, failing: set<nat>, address: nat, id: nat, a: nat, i: nat)
    ensures var n := Clear(m, failing, address, id).next;
            && (HasAction(n, a, i) <==> HasAction(m, a, i) && !(a == address && i == id))
            && (HasAction(n, a, i) ==> n.points[a].actionMap[i] == m.points[a].actionMap[i])
  {
  }

  lemma {:induction false} EnableEffect(m: State, failing: set<nat>, address: nat, id: nat, a: nat, i: nat)
    ensures var n := Enable(m, failing, address, id).next;
            && (HasAction(n, a, i) <==> HasAction(m, a, i))
            && (HasAction(m, a, i) ==>
                  n.points[a].actionMap[i] == m.points[a].actionMap[i].(isEnabled := (a == address && i == id) || m.points[a].actionMap[i].isEnabled))
  {
  }

  lemma {:induction false} DisableEffect(m: State, failing: set<nat>, address: nat, id: nat, a: nat, i: nat)
    ensures var n := Disable(m, failing, address, id).next;
            && (HasAction(n, a, i) <==> HasAction(m, a, i))
            && (HasAction(m, a, i) ==>
                  n.points[a].actionMap[i] == m.points[a].actionMap[i].(isEnabled := !(a == address && i == id) && m.points[a].actionMap[i].isEnabled))
  {
  }

  lemma {:induction false} ClearedEffect(m: State, failing: set<nat>, bps: BreakpointMap, a: nat, id: nat)
    ensures var n := ClearedFor(m, failing, bps, bps.Keys);
            && (HasAction(n, a, id) <==> HasAction(m, a, id) && !(a in bps && bps[a].id == id))
            && (HasAction(n, a, id) ==> n.points[a].actionMap[id] == m.points[a].actionMap[id])
  {
    if a in bps { ClearEffect(m, failing, a, bps[a].id, a, id); }
  }

  /** One action, and the breakpoint of its address, after a command. */
  lemma {:induction false} ExecuteAt(d: Debugger, failing: set<nat>, c: Command, a: nat, id: nat)
    requires AllCounted(d.machine) && Backed(d, a) && Accounted(d, a, id)
    requires a in d.breakpoints ==> Accounted(d, a, d.breakpoints[a].id)
    ensures SameAction(d.machine, Execute(d, failing, c).next.machine, a, id)
    ensures Accounted(Execute(d, failing, c).next, a, id)
  {
    match c
    case SetAt(b) =>
      if b !in d.breakpoints && Set(d.machine, failing, b, BREAKPOINT).status.Ok? { SetEffect(d.machine, failing, b, BREAKPOINT, a, id); }
    case ClearAt(b) => if b in d.breakpoints { ClearEffect(d.machine, failing, b, d.breakpoints[b].id, a, id); }
    case EnableAt(b) => if b in d.breakpoints { EnableEffect(d.machine, failing, b, d.breakpoints[b].id, a, id); }
    case DisableAt(b) => if b in d.breakpoints { DisableEffect(d.machine, failing, b, d.breakpoints[b].id, a, id); }
    case ClearEverything => ClearedEffect(d.machine, failing, d.breakpoints, a, id);
  }

  /** A breakpoint loses its action only when clearing it fails halfway. */
  lemma {:induction false} ExecuteBacked(d: Debugger, failing: set<nat>, c: Command, a: nat)
    requires AllCounted(d.machine) && Backed(d, a)
    ensures Backed(Execute(d, failing, c).next, a) <==> !(ClearFails(d, failing, c) && c.address == a)
  {
    var id := if a in d.breakpoints then d.breakpoints[a].id else 0;
    match c
    case SetAt(b) =>
      if b !in d.breakpoints && Set(d.machine, failing, b, BREAKPOINT).status.Ok? { SetEffect(d.machine, failing, b, BREAKPOINT, a, id); }
    case ClearAt(b) => if b in d.breakpoints { ClearEffect(d.machine, failing, b, d.breakpoints[b].id, a, id); }
    case EnableAt(b) => if b in d.breakpoints { EnableEffect(d.machine, failing, b, d.breakpoints[b].id, a, id); }
    case DisableAt(b) => if b in d.breakpoints { DisableEffect(d.machine, failing, b, d.breakpoints[b].id, a, id); }
    case ClearEverything =>
  }

  /** The breakpoint operations leave the actions of other clients alone, and keep each breakpoint with its own
      action, except that clearing one whose instruction cannot be restored leaves a breakpoint without action. */
  lemma {:induction false} ExecuteOwned(d: Debugger, failing: set<nat>, c: Command)
    requires AllCounted(d.machine) && Owned(d)
    ensures Owned(Execute(d, failing, c).next) <==> !ClearFails(d, failing, c)
    ensures SameOthers(d.machine, Execute(d, failing, c).next.machine)
  {
    var e := Execute(d, failing, c).next;
    forall a: nat
      ensures Backed(e, a) <==> !(ClearFails(d, failing, c) && c.address == a)
    {
      ExecuteBacked(d, failing, c, a);
    }
    forall a: nat, id: nat
      ensures SameAction(d.machine, e.machine, a, id) && Accounted(e, a, id)
    {
      ExecuteAt(d, failing, c, a, id);
    }
    if ClearFails(d, failing, c) { assert !Backed(e, c.address); }
  }

  // ----- what the operations mean -----

  /** Setting, enabling, disabling and clearing do what they say whenever they report success. */
  lemma {:induction false} ExecuteMeans(d: Debugger, failing: set<nat>, c: Command)
    requires AllCounted(d.machine) && Owned(d) && Execute(d, failing, c).status.Ok?
    ensures var e := Execute(d, failing, c).next;
            match c
            case SetAt(a) => a !in d.breakpoints && IsBreak(e, a)
            case ClearAt(a) => a in d.breakpoints && a !in e.breakpoints
            case EnableAt(a) => a in d.breakpoints && IsBreak(e, a)
            case DisableAt(a) => a in d.breakpoints && a in e.breakpoints && !IsBreak(e, a)
            case ClearEverything => e.breakpoints == map[] && forall a: nat, id: nat :: !IsOwn(e.machine, a, id)
  {
    match c
    case SetAt(a) => SetEffect(d.machine, failing, a, BREAKPOINT, a, 0);
    case ClearAt(a) =>
    case EnableAt(a) =>
      assert Backed(d, a);
      EnableEffect(d.machine, failing, a, d.breakpoints[a].id, a, d.breakpoints[a].id);
    case DisableAt(a) =>
      assert Backed(d, a);
      DisableEffect(d.machine, failing, a, d.breakpoints[a].id, a, d.breakpoints[a].id);
    case ClearEverything =>
      ExecuteOwned(d, failing, c);
      var e := Execute(d, failing, c).next;
      forall a: nat, id: nat
        ensures !IsOwn(e.machine, a, id)
      {
        assert Accounted(e, a, id);
      }
  }

  /** The answer to a command, read off the state before it. A breakpoint is set exactly when there is none at the address, and
      the address is active already or can be written. An existing one is cleared, enabled or disabled exactly when the memory
      write that this takes, if any, succeeds. */
  lemma {:induction false} ExecuteStatus(d: Debugger, failing: set<nat>, c: Command)
    requires AllCounted(d.machine) && Owned(d)
    ensures Execute(d, failing, c).status ==
            match c
            case SetAt(a) =>
              if a in d.breakpoints then Err(AlreadyExists)
              else if a in failing && !exists i :: IsEnabled(d.machine, a, i) then Err(Internal) else Ok(())
            case ClearAt(a) =>
              if a !in d.breakpoints then Err(NotFound)
              else if a in failing && !OthersEnabled(d.machine, a, d.breakpoints[a].id) then Err(Internal) else Ok(())
            case EnableAt(a) =>
              if a !in d.breakpoints then Err(NotFound)
              else if a in failing && !exists i :: IsEnabled(d.machine, a, i) then Err(Internal) else Ok(())
            case DisableAt(a) =>
              if a !in d.breakpoints then Err(NotFound)
              else if a in failing && IsBreak(d, a) && !OthersEnabled(d.machine, a, d.breakpoints[a].id) then Err(Internal) else Ok(())
            case ClearEverything => Ok(())
  {
    match c
    case SetAt(a) => if a !in d.breakpoints { SetIff(d.machine, failing, a, BREAKPOINT); }
    case ClearAt(a) => if a in d.breakpoints { assert Backed(d, a); ClearIff(d.machine, failing, a, d.breakpoints[a].id); }
    case EnableAt(a) => if a in d.breakpoints { assert Backed(d, a); EnableIff(d.machine, failing, a, d.breakpoints[a].id); }
    case DisableAt(a) => if a in d.breakpoints { assert Backed(d, a); DisableIff(d.machine, failing, a, d.breakpoints[a].id); }
    case ClearEverything =>
  }

  /** Setting adds one breakpoint, clearing removes it, and nothing else changes the breakpoints; what is refused changes
      nothing at all, except that a failing write leaves the action changed. */
  lemma {:induction false} ExecuteKeepsOthers(d: Debugger, failing: set<nat>, c: Command)
    requires AllCounted(d.machine) && Owned(d)
    ensures var r := Execute(d, failing, c);
            match c
            case SetAt(a) =>
              if r.status.Err? then r.next == d
              else r.next.breakpoints == d.breakpoints[a := BreakpointInfo(a, PointAt(d.machine, a).nextId, true)]
            case ClearAt(a) => r.next.breakpoints == if r.status.Ok? then d.breakpoints - {a} else d.breakpoints
            case EnableAt(a) => r.next.breakpoints == d.breakpoints && (a in d.breakpoints ==> IsBreak(r.next, a))
            case DisableAt(a) => r.next.breakpoints == d.breakpoints && !IsBreak(r.next, a)
            case ClearEverything => r.next.breakpoints == map[]
    ensures Execute(d, failing, c).status == Err(NotFound) ==> Execute(d, failing, c).next == d
  {
    match c
    case SetAt(a) => SetIff(d.machine, failing, a, BREAKPOINT);
    case ClearAt(a) => if a in d.breakpoints { ClearIff(d.machine, failing, a, d.breakpoints[a].id); }
    case EnableAt(a) =>
      if a in d.breakpoints {
        assert Backed(d, a);
        EnableEffect(d.machine, failing, a, d.breakpoints[a].id, a, d.breakpoints[a].id);
      }
    case DisableAt(a) =>
      if a in d.breakpoints {
        assert Backed(d, a);
        DisableEffect(d.machine, failing, a, d.breakpoints[a].id, a, d.breakpoints[a].id);
      }
    case ClearEverything =>
  }

  /** Forgetting all breakpoints restores the instructions at their addresses, except where an action of another client is
      enabled or the write fails. */
  lemma {:induction false} ClearEverythingMemory(d: Debugger, failing: set<nat>, a: nat)
    requires AllCounted(d.machine) && Owned(d)
    ensures a in ClearAllBreakpoints(d, failing).machine.patched <==>
            a in d.machine.patched &&
            !(a in d.breakpoints && a !in failing && !OthersEnabled(d.machine, a, d.breakpoints[a].id))
  {
    if a in d.breakpoints {
      assert Backed(d, a);
      ClearIff(d.machine, failing, a, d.breakpoints[a].id);
    }
  }

  /** The actions performed at an address request a halt exactly when the address is an enabled breakpoint. */
  lemma {:induction false} HaltIff(d: Debugger, a: nat)
    requires Owned(d) && a in d.machine.points
    ensures (exists id :: id in Enabled(d.machine.points[a].actionMap) && d.machine.points[a].actionMap[id].callback == BREAKPOINT) <==>
            IsBreak(d, a)
  {
    assert Backed(d, a);
    if IsBreak(d, a) {
      assert d.breakpoints[a].id in Enabled(d.machine.points[a].actionMap);
    }
    if id :| id in Enabled(d.machine.points[a].actionMap) && d.machine.points[a].actionMap[id].callback == BREAKPOINT {
      assert Accounted(d, a, id);
    }
  }

  /** A breakpoint whose action is gone can be neither cleared again nor set anew; only forgetting all
      breakpoints gets rid of it. */
  lemma {:induction false} Dangling(d: Debugger, failing: set<nat>, a: nat, later: set<nat>)
    requires ClearFails(d, failing, ClearAt(a)) && Backed(d, a)
    ensures var e := ClearBreakpoint(d, failing, a).next;
            && a in e.breakpoints && !IsBreak(e, a)
            && ClearBreakpoint(e, later, a) == Reply(e, Err(NotFound))
            && EnableBreakpoint(e, later, a) == Reply(e, Err(NotFound))
            && SetBreakpoint(e, later, a) == Reply(e, Err(AlreadyExists))
            && a !in ClearAllBreakpoints(e, later).breakpoints
  {
    ClearEffect(d.machine, failing, a, d.breakpoints[a].id, a, d.breakpoints[a].id);
  }

  // ----- other clients -----

  /** An operation of another client: it uses its own callback and touches no action of the breakpoints. */
  predicate Foreign(m: State, op: Operation) {
    match op
    case SetAction(_, callback) => callback != BREAKPOINT
    case ClearAction(a, id) => !IsOwn(m, a, id)
    case EnableAction(a, id) => !IsOwn(m, a, id)
    case DisableAction(a, id) => !IsOwn(m, a, id)
    case ClearAllActionPoints => false
  }

  lemma {:induction false} ForeignAt(m: State, failing: set<nat>, op: Operation, a: nat, id: nat)
    requires AllCounted(m) && Foreign(m, op)
    ensures IsOwn(After(m, failing, op), a, id) <==> IsOwn(m, a, id)
    ensures IsOwn(m, a, id) ==> (IsEnabled(After(m, failing, op), a, id) <==> IsEnabled(m, a, id))
  {
    match op
    case SetAction(b, callback) =>
      if Set(m, failing, b, callback).status.Ok? { SetEffect(m, failing, b, callback, a, id); }
    case ClearAction(b, i) => ClearEffect(m, failing, b, i, a, id);
    case EnableAction(b, i) => EnableEffect(m, failing, b, i, a, id);
    case DisableAction(b, i) => DisableEffect(m, failing, b, i, a, id);
  }

  /** Other clients do not disturb the breakpoints. */
  lemma {:induction false} ForeignOwned(d: Debugger, failing: set<nat>, op: Operation)
    requires AllCounted(d.machine) && Owned(d) && Foreign(d.machine, op)
    ensures var e := d.(machine := After(d.machine, failing, op));
            Owned(e) && forall a: nat :: IsBreak(e, a) <==> IsBreak(d, a)
  {
    var e := d.(machine := After(d.machine, failing, op));
    forall a: nat
      ensures Backed(e, a) && (IsBreak(e, a) <==> IsBreak(d, a))
    {
      assert Backed(d, a);
      if a in d.breakpoints { ForeignAt(d.machine, failing, op, a, d.breakpoints[a].id); }
    }
    forall a: nat, id: nat
      ensures Accounted(e, a, id)
    {
      assert Accounted(d, a, id);
      ForeignAt(d.machine, failing, op, a, id);
    }
  }

  /** Clearing all action points is safe for the breakpoints exactly when there are none. */
  lemma {:induction false} ClearAllActionPointsIff(d: Debugger, failing: set<nat>)
    requires Owned(d)
    ensures Owned(d.(machine := ClearAll(d.machine, failing))) <==> d.breakpoints == map[]
  {
    var e := d.(machine := ClearAll(d.machine, failing));
    if d.breakpoints != map[] {
      var a :| a in d.breakpoints;
      assert !Backed(e, a);
    }
  }

  /** After all action points were cleared, ids start again: clearing the stale breakpoint removes the action
      that another client has set since. */
  lemma {:induction false} StaleBreakpoint(address: nat, callback: nat)
    requires callback != BREAKPOINT
    ensures var d := SetBreakpoint(Debugger(State(map[], {}), map[]), {}, address).next;
            var e := d.(machine := After(After(d.machine, {}, ClearAllActionPoints), {}, SetAction(address, callback)));
            var f := ClearBreakpoint(e, {}, address);
            && OthersAction(e.machine, address, 0) == Some(ActionInfo(callback, true))
            && f.status == Ok(()) && OthersAction(f.next.machine, address, 0) == None
  {
  }

  // ----- runs -----

  /** A step of the breakpoints or of another client, with the addresses that cannot be written then. */
  datatype Event = Own(command: Command, failing: set<nat>) | Other(op: Operation, failing: set<nat>)

  function Next(d: Debugger, e: Event): Debugger {
    match e
    case Own(c, failing) => Execute(d, failing, c).next
    case Other(op, failing) => d.(machine := After(d.machine, failing, op))
  }

  /** Other clients keep to their own actions, and no breakpoint is cleared while its instruction cannot be restored. */
  predicate Allowed(d: Debugger, e: Event) {
    match e
    case Own(c, failing) => !ClearFails(d, failing, c)
    case Other(op, _) => Foreign(d.machine, op)
  }

  function Run(d: Debugger, events: seq<Event>): Debugger
    decreases events
  {
    if events == [] then d else Run(Next(d, events[0]), events[1..])
  }

  predicate AllAllowed(d: Debugger, events: seq<Event>)
    decreases events
  {
    events == [] || (Allowed(d, events[0]) && AllAllowed(Next(d, events[0]), events[1..]))
  }

  lemma {:induction false} ExecuteCounted(d: Debugger, failing: set<nat>, c: Command)
    requires AllCounted(d.machine)
    ensures AllCounted(Execute(d, failing, c).next.machine)
  {
    match c
    case SetAt(a) => StepCounted(d.machine, failing, SetAction(a, BREAKPOINT));
    case ClearAt(a) => if a in d.breakpoints { StepCounted(d.machine, failing, ClearAction(a, d.breakpoints[a].id)); }
    case EnableAt(a) => if a in d.breakpoints { StepCounted(d.machine, failing, EnableAction(a, d.breakpoints[a].id)); }
    case DisableAt(a) => if a in d.breakpoints { StepCounted(d.machine, failing, DisableAction(a, d.breakpoints[a].id)); }
    case ClearEverything =>
      forall a | a in d.machine.points
        ensures Counted(Execute(d, failing, c).next.machine.points[a])
      {
        if a in d.breakpoints { StepCounted(d.machine, failing, ClearAction(a, d.breakpoints[a].id)); }
      }
  }

  /** In every reachable state each breakpoint has a live action of its own. */
  lemma {:induction false} RunOwned(d: Debugger, events: seq<Event>)
    requires AllCounted(d.machine) && Owned(d) && AllAllowed(d, events)
    ensures AllCounted(Run(d, events).machine) && Owned(Run(d, events))
    decreases events
  {
    if events != [] {
      match events[0] {
        case Own(c, failing) =>
          ExecuteCounted(d, failing, c);
          ExecuteOwned(d, failing, c);
        case Other(op, failing) =>
          StepCounted(d.machine, failing, op);
          ForeignOwned(d, failing, op);
      }
      RunOwned(Next(d, events[0]), events[1..]);
    }
  }

  // ----- the manager -----

  lemma {:induction false} ClearedNone(m: State, failing: set<nat>, bps: BreakpointMap)
    ensures ClearedFor(m, failing, bps, {}) == m
  {
  }

  /** Clearing the action of one more breakpoint. */
  lemma {:induction false} ClearedMore(m: State, failing: set<nat>, bps: BreakpointMap, done: set<nat>, a: nat)
    requires a in bps && a !in done
    ensures Clear(ClearedFor(m, failing, bps, done), failing, a, bps[a].id).next == ClearedFor(m, failing, bps, done + {a})
  {
    var n, more := ClearedFor(m, failing, bps, done), ClearedFor(m, failing, bps, done + {a});
    var next := Clear(n, failing, a, bps[a].id).next;
    assert HasAction(n, a, bps[a].id) <==> HasAction(m, a, bps[a].id);
    assert next.points.Keys == more.points.Keys;
    forall b | b in more.points
      ensures next.points[b] == more.points[b]
    {
    }
    assert next.patched == more.patched;
  }

  class BreakpointManager {
    const actionPointManager: ActionPointManager
    var breakpointMap: BreakpointMap

    constructor (actionPointManager: ActionPointManager)
      ensures this.actionPointManager == actionPointManager && breakpointMap == map[]
    {
      this.actionPointManager := actionPointManager;
      breakpointMap := map[];
    }

    function GetDebugger(): Debugger
      reads this, actionPointManager, actionPointManager.memory
    {
      Debugger(actionPointManager.GetState(), breakpointMap)
    }

    method SetBreakpoint(address: nat) returns (status: Result<()>)
      modifies `breakpointMap, actionPointManager`actionPointMap, actionPointManager.memory`patched
      ensures Reply(GetDebugger(), status) == Execute(old(GetDebugger()), actionPointManager.memory.failing, SetAt(address))
    {
      if address in breakpointMap {
        return Err(AlreadyExists);
      }
      var result := actionPointManager.SetAction(address, BREAKPOINT);
      if result.Err? {
        return Err(result.error);
      }
      breakpointMap := breakpointMap[address := BreakpointInfo(address, result.value, true)];
      return Ok(());
    }

    method ClearBreakpoint(address: nat) returns (status: Result<()>)
      modifies `breakpointMap, actionPointManager`actionPointMap, actionPointManager.memory`patched
      ensures Reply(GetDebugger(), status) == Execute(old(GetDebugger()), actionPointManager.memory.failing, ClearAt(address))
    {
      if address !in breakpointMap {
        return Err(NotFound);
      }
      status := actionPointManager.ClearAction(address, breakpointMap[address].id);
      if status.Err? {
        return;
      }
      breakpointMap := breakpointMap - {address};
      return Ok(());
    }

    method DisableBreakpoint(address: nat) returns (status: Result<()>)
      modifies actionPointManager`actionPointMap, actionPointManager.memory`patched
      ensures Reply(GetDebugger(), status) == Execute(old(GetDebugger()), actionPointManager.memory.failing, DisableAt(address))
    {
      if address !in breakpointMap {
        return Err(NotFound);
      }
      status := actionPointManager.DisableAction(address, breakpointMap[address].id);
    }

    method EnableBreakpoint(address: nat) returns (status: Result<()>)
      modifies actionPointManager`actionPointMap, actionPointManager.memory`patched
      ensures Reply(GetDebugger(), status) == Execute(old(GetDebugger()), actionPointManager.memory.failing, EnableAt(address))
    {
      if address !in breakpointMap {
        return Err(NotFound);
      }
      status := actionPointManager.EnableAction(address, breakpointMap[address].id);
    }

    /** Clears the actions of all breakpoints, in any order. */
    method ClearAllBreakpoints()
      modifies `breakpointMap, actionPointManager`actionPointMap, actionPointManager.memory`patched
      ensures GetDebugger() == Execute(old(GetDebugger()), actionPointManager.memory.failing, ClearEverything).next
    {
      ghost var m := actionPointManager.GetState();
      ClearedNone(m, actionPointManager.memory.failing, breakpointMap);
      var todo := breakpointMap.Keys;
      while todo != {}
        invariant todo <= breakpointMap.Keys && breakpointMap == old(breakpointMap)
        invariant actionPointManager.GetState() == ClearedFor(m, actionPointManager.memory.failing, breakpointMap, breakpointMap.Keys - todo)
        decreases todo
      {
        var address :| address in todo;
        ClearedMore(m, actionPointManager.memory.failing, breakpointMap, breakpointMap.Keys - todo, address);
        assert (breakpointMap.Keys - todo) + {address} == breakpointMap.Keys - (todo - {address});
        todo := todo - {address};
        var _ := actionPointManager.ClearAction(address, breakpointMap[address].id);
      }
      assert breakpointMap.Keys - {} == breakpointMap.Keys;
      breakpointMap := map[];
    }

    method IsBreakpoint(address: nat) returns (found: bool)
      ensures found == IsBreak(GetDebugger(), address)
    {
      if address !in breakpointMap {
        return false;
      }
      found := actionPointManager.IsActionEnabled(address, breakpointMap[address].id);
    }
  }
}
