/** Action points: addresses where a breakpoint instruction is kept in memory as long as an action is enabled. */
module ActionPoints {
  import opened Status

  /** What is to be done at an address; the callback stands for the function to call. */
  datatype ActionInfo = ActionInfo(callback: nat, isEnabled: bool)

  datatype ActionPointInfo = ActionPointInfo(nextId: nat, numActive: int, actionMap: map<nat, ActionInfo>)

  type PointMap = map<nat, ActionPointInfo>

  /** The action points, and the addresses at which memory holds a breakpoint instruction. */
  datatype State = State(points: PointMap, patched: set<nat>)

  datatype Outcome<T> = Outcome(next: State, status: Result<T>)

  // ----- the operations; writes to the failing addresses do not succeed -----

  function WriteBreakpoint(patched: set<nat>, failing: set<nat>, address: nat): set<nat> {
    if address in failing then patched else patched + {address}
  }

  function WriteOriginal(patched: set<nat>, failing: set<nat>, address: nat): set<nat> {
    if address in failing then patched else patched - {address}
  }

  function WriteStatus(failing: set<nat>, address: nat): Result<()> {
    if address in failing then Err(Internal) else Ok(())
  }

  /** A new enabled action with the next id. */
  function WithAction(ap: ActionPointInfo, callback: nat): ActionPointInfo {
    ActionPointInfo(ap.nextId + 1, ap.numActive + 1, ap.actionMap[ap.nextId := ActionInfo(callback, true)])
  }

  function PointAt(s: State, address: nat): ActionPointInfo {
    if address in s.points then s.points[address] else ActionPointInfo(0, 0, map[])
  }

  /** The breakpoint instruction is written first; if that fails, nothing is set. */
  function Set(s: State, failing: set<nat>, address: nat, callback: nat): Outcome<nat> {
    var ap := PointAt(s, address);
    if ap.numActive == 0 && address in failing then Outcome(s, Err(Internal))
    else
      Outcome(State(s.points[address := WithAction(ap, callback)],
                    if ap.numActive == 0 then WriteBreakpoint(s.patched, failing, address) else s.patched),
              Ok(ap.nextId))
  }

  predicate HasAction(s: State, address: nat, id: nat) {
    address in s.points && id in s.points[address].actionMap
  }

  /** The action goes away even if the original instruction cannot be written back. */
  function Clear(s: State, failing: set<nat>, address: nat, id: nat): Outcome<()> {
    if !HasAction(s, address, id) then Outcome(s, Err(NotFound))
    else
      var ap := s.points[address];
      var left := ap.(actionMap := ap.actionMap - {id}, numActive := ap.numActive - if ap.actionMap[id].isEnabled then 1 else 0);
      var points := s.points[address := left];
      if left.numActive == 0 then Outcome(State(points, WriteOriginal(s.patched, failing, address)), WriteStatus(failing, address))
      else Outcome(State(points, s.patched), Ok(()))
  }

  function Enable(s: State, failing: set<nat>, address: nat, id: nat): Outcome<()> {
    if !HasAction(s, address, id) then Outcome(s, Err(NotFound))
    else
      var ap := s.points[address];
      if ap.actionMap[id].isEnabled then Outcome(s, Ok(()))
      else
        var next := ap.(actionMap := ap.actionMap[id := ap.actionMap[id].(isEnabled := true)], numActive := ap.numActive + 1);
        var points := s.points[address := next];
        if next.numActive == 1 then Outcome(State(points, WriteBreakpoint(s.patched, failing, address)), WriteStatus(failing, address))
        else Outcome(State(points, s.patched), Ok(()))
  }

  function Disable(s: State, failing: set<nat>, address: nat, id: nat): Outcome<()> {
    if !HasAction(s, address, id) then Outcome(s, Err(NotFound))
    else
      var ap := s.points[address];
      if !ap.actionMap[id].isEnabled then Outcome(s, Ok(()))
      else
        var next := ap.(actionMap := ap.actionMap[id := ap.actionMap[id].(isEnabled := false)], numActive := ap.numActive - 1);
        var points := s.points[address := next];
        if next.numActive == 0 then Outcome(State(points, WriteOriginal(s.patched, failing, address)), WriteStatus(failing, address))
        else Outcome(State(points, s.patched), Ok(()))
  }

  function ClearAll(s: State, failing: set<nat>): State {
    State(map[], s.patched - (s.points.Keys - failing))
  }

  predicate IsActive(s: State, address: nat) {
    address in s.points && s.points[address].numActive > 0
  }

  predicate IsEnabled(s: State, address: nat, id: nat) {
    HasAction(s, address, id) && s.points[address].actionMap[id].isEnabled
  }

  // ----- what every operation keeps -----

  function Enabled(actions: map<nat, ActionInfo>): set<nat> {
    set id | id in actions && actions[id].isEnabled
  }

  /** The counter counts the enabled actions and every id is older than the next one. */
  predicate Counted(ap: ActionPointInfo) {
    ap.numActive == |Enabled(ap.actionMap)| && forall id | id in ap.actionMap :: id < ap.nextId
  }

  predicate AllCounted(s: State) {
    forall a | a in s.points :: Counted(s.points[a])
  }

  /** Memory holds a breakpoint instruction exactly where some action is enabled. */
  ghost predicate InSync(s: State) {
    forall a: nat :: SyncAt(s, a)
  }

  ghost predicate SyncAt(s: State, a: nat) {
    a in s.patched <==> exists id :: IsEnabled(s, a, id)
  }

  datatype Operation =
    | SetAction(address: nat, callback: nat)
    | ClearAction(address: nat, id: nat)
    | EnableAction(address: nat, id: nat)
    | DisableAction(address: nat, id: nat)
    | ClearAllActionPoints

  function After(s: State, failing: set<nat>, op: Operation): State {
    match op
    case SetAction(a, callback) => Set(s, failing, a, callback).next
    case ClearAction(a, id) => Clear(s, failing, a, id).next
    case EnableAction(a, id) => Enable(s, failing, a, id).next
    case DisableAction(a, id) => Disable(s, failing, a, id).next
    case ClearAllActionPoints => ClearAll(s, failing)
  }

  lemma {:induction false} CountedUpdates(ap: ActionPointInfo, id: nat, callback: nat)
    requires Counted(ap)
    ensures Counted(WithAction(ap, callback))
    ensures id in ap.actionMap && ap.actionMap[id].isEnabled ==>
              && |Enabled(ap.actionMap - {id})| == |Enabled(ap.actionMap)| - 1
              && |Enabled(ap.actionMap[id := ap.actionMap[id].(isEnabled := false)])| == |Enabled(ap.actionMap)| - 1
    ensures id in ap.actionMap && !ap.actionMap[id].isEnabled ==>
              && |Enabled(ap.actionMap - {id})| == |Enabled(ap.actionMap)|
              && |Enabled(ap.actionMap[id := ap.actionMap[id].(isEnabled := true)])| == |Enabled(ap.actionMap)| + 1
  {
    var actions := ap.actionMap;
    assert ap.nextId !in actions;
    assert Enabled(actions[ap.nextId := ActionInfo(callback, true)]) == Enabled(actions) + {ap.nextId};
    if id in actions {
      assert Enabled(actions - {id}) == Enabled(actions) - {id};
      assert Enabled(actions[id := actions[id].(isEnabled := false)]) == Enabled(actions) - {id};
      assert Enabled(actions[id := actions[id].(isEnabled := true)]) == Enabled(actions) + {id};
    }
  }

  /** Counters and ids stay right in every operation, whether writes succeed or fail. */
  lemma {:induction false} StepCounted(s: State, failing: set<nat>, op: Operation)
    requires AllCounted(s)
    ensures AllCounted(After(s, failing, op))
  {
    match op
    case SetAction(a, callback) =>
      assert Counted(ActionPointInfo(0, 0, map[])) by { assert Enabled(map[]) == {}; }
      CountedUpdates(PointAt(s, a), 0, callback);
    case ClearAction(a, id) => if HasAction(s, a, id) { CountedUpdates(s.points[a], id, 0); }
    case EnableAction(a, id) => if HasAction(s, a, id) { CountedUpdates(s.points[a], id, 0); }
    case DisableAction(a, id) => if HasAction(s, a, id) { CountedUpdates(s.points[a], id, 0); }
    case ClearAllActionPoints =>
  }

  lemma {:induction false} ActiveIff(s: State, a: nat)
    requires AllCounted(s)
    ensures IsActive(s, a) <==> exists id :: IsEnabled(s, a, id)
  {
    if a in s.points {
      var enabled := Enabled(s.points[a].actionMap);
      if id :| IsEnabled(s, a, id) { assert id in enabled; }
      if enabled != {} {
        var id :| id in enabled;
        assert IsEnabled(s, a, id);
      }
    }
  }

  /** The operation ends or begins the activity of the address, whether its write succeeds or not. Setting an
      action is no such operation: it is given up when the write fails. */
  predicate Switches(s: State, op: Operation, a: nat) {
    match op
    case SetAction(_, _) => false
    case ClearAction(b, id) => a == b && IsEnabled(s, a, id) && s.points[a].numActive == 1
    case EnableAction(b, id) => a == b && HasAction(s, a, id) && !IsEnabled(s, a, id) && s.points[a].numActive == 0
    case DisableAction(b, id) => a == b && IsEnabled(s, a, id) && s.points[a].numActive == 1
    case ClearAllActionPoints => IsActive(s, a)
  }

  /** Memory after an operation: where activity has to change, the write decides; elsewhere nothing changes that
      was right. */
  lemma {:induction false} MemoryAfter(s: State, failing: set<nat>, op: Operation, a: nat)
    requires AllCounted(s) && (a in s.patched <==> IsActive(s, a))
    ensures (a in After(s, failing, op).patched <==> IsActive(After(s, failing, op), a)) <==>
            !(Switches(s, op, a) && a in failing)
  {
    StepCounted(s, failing, op);
    match op
    case SetAction(b, callback) => CountNotNegative(s, b);
    case ClearAction(b, id) => CountNotNegative(s, b);
    case EnableAction(b, id) => CountNotNegative(s, b);
    case DisableAction(b, id) => CountNotNegative(s, b);
    case ClearAllActionPoints =>
  }

  lemma {:induction false} CountNotNegative(s: State, a: nat)
    requires AllCounted(s)
    ensures PointAt(s, a).numActive >= 0
    ensures forall id :: IsEnabled(s, a, id) ==> PointAt(s, a).numActive >= 1
  {
    forall id | IsEnabled(s, a, id)
      ensures PointAt(s, a).numActive >= 1
    {
      ActiveIff(s, a);
    }
  }

  /** An operation keeps memory and action points in step exactly when no write fails where it ends or begins
      activity. */
  lemma {:induction false} StepSyncIff(s: State, failing: set<nat>, op: Operation)
    requires AllCounted(s) && InSync(s)
    ensures InSync(After(s, failing, op)) <==> forall a | a in failing :: !Switches(s, op, a)
  {
    var t := After(s, failing, op);
    StepCounted(s, failing, op);
    forall a: nat
      ensures SyncAt(t, a) <==> !(Switches(s, op, a) && a in failing)
    {
      assert SyncAt(s, a);
      ActiveIff(s, a);
      ActiveIff(t, a);
      MemoryAfter(s, failing, op, a);
    }
  }

  // ----- when an operation succeeds, and what it writes -----

  /** Some action other than the given one is enabled. */
  ghost predicate OthersEnabled(s: State, a: nat, id: nat) {
    exists i :: i != id && IsEnabled(s, a, i)
  }

  lemma {:induction false} OthersCount(s: State, a: nat, id: nat)
    requires AllCounted(s)
    ensures OthersEnabled(s, a, id) <==> PointAt(s, a).numActive > if IsEnabled(s, a, id) then 1 else 0
  {
    if a in s.points {
      var others := Enabled(s.points[a].actionMap) - {id};
      if i :| i != id && IsEnabled(s, a, i) { assert i in others; }
      if others != {} {
        var i :| i in others;
        assert IsEnabled(s, a, i);
      }
      if IsEnabled(s, a, id) { assert Enabled(s.points[a].actionMap) == others + {id}; } else { assert Enabled(s.points[a].actionMap) == others; }
    }
  }

  /** Setting an action succeeds exactly when the address is active already or can be written; the ids at an address are
      given out one after the other, and without success nothing changes. */
  lemma {:induction false} SetIff(s: State, failing: set<nat>, a: nat, callback: nat)
    requires AllCounted(s)
    ensures var r := Set(s, failing, a, callback);
            && (r.status == Err(Internal) <==> a in failing && !exists i :: IsEnabled(s, a, i))
            && (if r.status.Err? then r == Outcome(s, Err(Internal))
                else
                  && r.status.value == (if a in s.points then s.points[a].nextId else 0)
                  && a in r.next.points && r.next.points[a].nextId == r.status.value + 1
                  && forall b: nat :: b in r.next.patched <==> b in s.patched || (b == a && !exists i :: IsEnabled(s, a, i)))
  {
    ActiveIff(s, a);
    CountNotNegative(s, a);
  }

  /** Clearing succeeds exactly when the action exists, and another one is enabled or the instruction can be restored, which
      happens then. */
  lemma {:induction false} ClearIff(s: State, failing: set<nat>, a: nat, id: nat)
    requires AllCounted(s)
    ensures var r := Clear(s, failing, a, id);
            && (r.status == Err(NotFound) <==> !HasAction(s, a, id))
            && (r.status == Err(Internal) <==> HasAction(s, a, id) && a in failing && !OthersEnabled(s, a, id))
            && (r.status.Err? ==> r.status.error == NotFound || r.status.error == Internal)
            && forall b: nat :: b in r.next.patched <==>
                  b in s.patched && !(b == a && a !in failing && HasAction(s, a, id) && !OthersEnabled(s, a, id))
  {
    OthersCount(s, a, id);
    CountNotNegative(s, a);
  }

  /** Enabling succeeds exactly when the action exists, and some action at the address is enabled or it can be written, which
      happens then. */
  lemma {:induction false} EnableIff(s: State, failing: set<nat>, a: nat, id: nat)
    requires AllCounted(s)
    ensures var r := Enable(s, failing, a, id);
            && (r.status == Err(NotFound) <==> !HasAction(s, a, id))
            && (r.status == Err(Internal) <==> HasAction(s, a, id) && a in failing && !exists i :: IsEnabled(s, a, i))
            && (r.status.Err? ==> r.status.error == NotFound || r.status.error == Internal)
            && forall b: nat :: b in r.next.patched <==>
                  b in s.patched || (b == a && a !in failing && HasAction(s, a, id) && !exists i :: IsEnabled(s, a, i))
  {
    if IsEnabled(s, a, id) { assert exists i :: IsEnabled(s, a, i); }
    ActiveIff(s, a);
    CountNotNegative(s, a);
  }

  /** Disabling succeeds exactly when the action exists, and it is disabled already, another one is enabled, or the instruction
      can be restored, which happens then. */
  lemma {:induction false} DisableIff(s: State, failing: set<nat>, a: nat, id: nat)
    requires AllCounted(s)
    ensures var r := Disable(s, failing, a, id);
            && (r.status == Err(NotFound) <==> !HasAction(s, a, id))
            && (r.status == Err(Internal) <==> a in failing && IsEnabled(s, a, id) && !OthersEnabled(s, a, id))
            && (r.status.Err? ==> r.status.error == NotFound || r.status.error == Internal)
            && forall b: nat :: b in r.next.patched <==>
                  b in s.patched && !(b == a && a !in failing && IsEnabled(s, a, id) && !OthersEnabled(s, a, id))
  {
    OthersCount(s, a, id);
    CountNotNegative(s, a);
  }

  /** Clearing everything restores the instructions of all known addresses that can be written, active or not. */
  lemma {:induction false} ClearAllIff(s: State, failing: set<nat>)
    ensures ClearAll(s, failing).points == map[]
    ensures forall b: nat :: b in ClearAll(s, failing).patched <==> b in s.patched && !(b in s.points && b !in failing)
  {
  }

  /** An operation, and the addresses at which memory cannot be written when it happens. */
  datatype Event = Event(op: Operation, failing: set<nat>)

  function Run(s: State, events: seq<Event>): State
    decreases events
  {
    if events == [] then s else Run(After(s, events[0].failing, events[0].op), events[1..])
  }

  predicate WritesSucceed(s: State, events: seq<Event>)
    decreases events
  {
    events == [] ||
    (&& (forall a | a in events[0].failing :: !Switches(s, events[0].op, a))
     && WritesSucceed(After(s, events[0].failing, events[0].op), events[1..]))
  }

  /** In every reachable state the counters are right; if the writes that matter succeed, so is memory. */
  lemma {:induction false} RunKeeps(s: State, events: seq<Event>)
    requires AllCounted(s)
    ensures AllCounted(Run(s, events))
    ensures InSync(s) && WritesSucceed(s, events) ==> InSync(Run(s, events))
    decreases events
  {
    if events != [] {
      var e := events[0];
      StepCounted(s, e.failing, e.op);
      if InSync(s) { StepSyncIff(s, e.failing, e.op); }
      RunKeeps(After(s, e.failing, e.op), events[1..]);
    }
  }

  // ----- the manager -----

  /** Program memory; a write fails at the addresses in failing, which may change from call to call. */
  class ActionPointMemory {
    var patched: set<nat>
    var failing: set<nat>

    constructor ()
      ensures patched == {} && failing == {}
    {
      patched, failing := {}, {};
    }

    method WriteBreakpointInstruction(address: nat) returns (status: Result<()>)
      modifies `patched
      ensures patched == WriteBreakpoint(old(patched), failing, address) && status == WriteStatus(failing, address)
    {
      if address in failing {
        return Err(Internal);
      }
      patched := patched + {address};
      return Ok(());
    }

    method WriteOriginalInstruction(address: nat) returns (status: Result<()>)
      modifies `patched
      ensures patched == WriteOriginal(old(patched), failing, address) && status == WriteStatus(failing, address)
    {
      if address in failing {
        return Err(Internal);
      }
      patched := patched - {address};
      return Ok(());
    }
  }

  class ActionPointManager {
    const memory: ActionPointMemory
    var actionPointMap: PointMap

    constructor (memory: ActionPointMemory)
      ensures this.memory == memory && actionPointMap == map[]
    {
      this.memory := memory;
      actionPointMap := map[];
    }

    function GetState(): State
      reads this, memory
    {
      State(actionPointMap, memory.patched)
    }

    method SetAction(address: nat, callback: nat) returns (status: Result<nat>)
      modifies `actionPointMap, memory`patched
      ensures Outcome(GetState(), status) == Set(old(GetState()), memory.failing, address, callback)
    {
      if address !in actionPointMap {
        var write := memory.WriteBreakpointInstruction(address);
        if write.Err? {
          return Err(write.error);
        }
        actionPointMap := actionPointMap[address := ActionPointInfo(0, 0, map[])];
      } else if actionPointMap[address].numActive == 0 {
        var write := memory.WriteBreakpointInstruction(address);
        if write.Err? {
          return Err(write.error);
        }
      }
      var ap := actionPointMap[address];
      var id := ap.nextId;
      ap := ap.(nextId := id + 1);
      ap := ap.(actionMap := ap.actionMap[id := ActionInfo(callback, true)]);
      ap := ap.(numActive := ap.numActive + 1);
      actionPointMap := actionPointMap[address := ap];
      return Ok(id);
    }

    method ClearAction(address: nat, id: nat) returns (status: Result<()>)
      modifies `actionPointMap, memory`patched
      ensures Outcome(GetState(), status) == Clear(old(GetState()), memory.failing, address, id)
    {
      if address !in actionPointMap {
        return Err(NotFound);
      }
      var ap := actionPointMap[address];
      if id !in ap.actionMap {
        return Err(NotFound);
      }
      var actionInfo := ap.actionMap[id];
      ap := ap.(actionMap := ap.actionMap - {id});
      ap := ap.(numActive := ap.numActive - if actionInfo.isEnabled then 1 else 0);
      actionPointMap := actionPointMap[address := ap];
      if ap.numActive == 0 {
        status := memory.WriteOriginalInstruction(address);
        return;
      }
      return Ok(());
    }

    method EnableAction(address: nat, id: nat) returns (status: Result<()>)
      modifies `actionPointMap, memory`patched
      ensures Outcome(GetState(), status) == Enable(old(GetState()), memory.failing, address, id)
    {
      if address !in actionPointMap {
        return Err(NotFound);
      }
      var ap := actionPointMap[address];
      if id !in ap.actionMap {
        return Err(NotFound);
      }
      if ap.actionMap[id].isEnabled {
        return Ok(());
      }
      ap := ap.(actionMap := ap.actionMap[id := ap.actionMap[id].(isEnabled := true)]);
      ap := ap.(numActive := ap.numActive + 1);
      actionPointMap := actionPointMap[address := ap];
      if ap.numActive == 1 {
        status := memory.WriteBreakpointInstruction(address);
        return;
      }
      return Ok(());
    }

    method DisableAction(address: nat, id: nat) returns (status: Result<()>)
      modifies `actionPointMap, memory`patched
      ensures Outcome(GetState(), status) == Disable(old(GetState()), memory.failing, address, id)
    {
      if address !in actionPointMap {
        return Err(NotFound);
      }
      var ap := actionPointMap[address];
      if id !in ap.actionMap {
        return Err(NotFound);
      }
      if !ap.actionMap[id].isEnabled {
        return Ok(());
      }
      ap := ap.(actionMap := ap.actionMap[id := ap.actionMap[id].(isEnabled := false)]);
      ap := ap.(numActive := ap.numActive - 1);
      actionPointMap := actionPointMap[address := ap];
      if ap.numActive == 0 {
        status := memory.WriteOriginalInstruction(address);
        return;
      }
      return Ok(());
    }

    method IsActionPointActive(address: nat) returns (active: bool)
      ensures active == IsActive(GetState(), address)
      ensures AllCounted(GetState()) ==> (active <==> exists id :: IsEnabled(GetState(), address, id))
    {
      if AllCounted(GetState()) { ActiveIff(GetState(), address); }
      if address !in actionPointMap {
        return false;
      }
      return actionPointMap[address].numActive > 0;
    }

    method IsActionEnabled(address: nat, id: nat) returns (enabled: bool)
      ensures enabled == IsEnabled(GetState(), address, id)
    {
      if address !in actionPointMap {
        return false;
      }
      if id !in actionPointMap[address].actionMap {
        return false;
      }
      return actionPointMap[address].actionMap[id].isEnabled;
    }

    /** Restores the instructions of all action points; failing writes are not reported. */
    method ClearAllActionPoints()
      modifies `actionPointMap, memory`patched
      ensures GetState() == ClearAll(old(GetState()), memory.failing)
    {
      var todo := actionPointMap.Keys;
      while todo != {}
        invariant todo <= actionPointMap.Keys && actionPointMap == old(actionPointMap)
        invariant memory.patched == old(memory.patched) - ((actionPointMap.Keys - todo) - memory.failing)
        decreases todo
      {
        var address :| address in todo;
        todo := todo - {address};
        var _ := memory.WriteOriginalInstruction(address);
      }
      actionPointMap := map[];
    }

    /** The actions performed at an action point: the enabled ones. At other addresses the source logs an error and
        goes on to use the missing entry. */
    method PerformActions(address: nat) returns (result: Result<set<nat>>)
      ensures result == Err(NotFound) <==> address !in actionPointMap
      ensures result.Err? ==> result == Err(NotFound)
      ensures result.Ok? ==> forall id: nat :: id in result.value <==> IsEnabled(GetState(), address, id)
    {
      if address !in actionPointMap {
        return Err(NotFound);
      }
      var actions := actionPointMap[address].actionMap;
      var performed := {};
      var todo := actions.Keys;
      while todo != {}
        invariant todo <= actions.Keys
        invariant performed == Enabled(actions) - todo
        decreases todo
      {
        var id :| id in todo;
        todo := todo - {id};
        if actions[id].isEnabled {
          performed := performed + {id};
        }
      }
      return Ok(performed);
    }
  }
}
