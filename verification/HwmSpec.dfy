/** What `ApplyCommand` and `ReadStatus` do to the joint values, stated per interface. */
module HwmSpec {
  import opened Messages
  import opened InterfaceLayout

  /** `num_dofs` joints with `stride` interfaces each. The velocity component exists exactly
      when the stride exceeds one, as `on_configure` sets it. */
  datatype Layout = Layout(numDofs: nat, stride: nat)
  {
    function Width(): nat { if stride > 1 then 2 else 1 }
    function Size(): nat { numDofs * stride }
  }

  datatype JointCommand = JointCommand(position: seq<Value>, velocity: seq<Value>)

  /** The strict command handle: a value only in the cycle that updated it. */
  datatype Handle = Updated(command: JointCommand) | NotUpdated(error: ErrorCode)

  /** One `ApplyCommand` call: whether `try_get` got the box, the handle, and the
      interfaces whose `set_value` fails in this cycle. */
  datatype CommandCall = CommandCall(gotBox: bool, handle: Handle, refusing: set<nat>)

  function Gate(box: OperationalStatus, gotBox: bool): StatusCode {
    if gotBox && (box.state == DISABLED || box.state == FAULTED) then FAILED_PRECONDITION else OK
  }

  /** The checks before the first write. */
  function Admission(l: Layout, box: OperationalStatus, call: CommandCall, size: nat): StatusCode {
    if Gate(box, call.gotBox) != OK then Gate(box, call.gotBox)
    else if call.handle.NotUpdated? then call.handle.error
    else if |call.handle.command.position| != l.numDofs then INTERNAL
    else if |call.handle.command.velocity| != l.numDofs then INTERNAL
    else if size == 0 then UNAVAILABLE
    else OK
  }

  /** Interface `k` is commanded: it is the position or the velocity component of its joint. */
  predicate Commanded(l: Layout, k: nat)
    requires l.stride > 0
  {
    k % l.stride < l.Width()
  }

  ghost predicate AcceptedBelow(l: Layout, refusing: set<nat>, n: nat)
    requires l.stride > 0
  {
    forall j :: 0 <= j < n && Commanded(l, j) ==> j !in refusing
  }

  /** The command's value for interface `k`. */
  function CommandedValue(l: Layout, command: JointCommand, k: nat): Value
    requires l.stride > 0 && k < l.Size()
    requires |command.position| == |command.velocity| == l.numDofs
  {
    DivBounds(l.numDofs, l.stride, k);
    if k % l.stride == 0 then command.position[k / l.stride] else command.velocity[k / l.stride]
  }

  ghost function Target(l: Layout, call: CommandCall, before: seq<Value>, k: nat): Value
    requires l.stride > 0 && k < |before| == l.Size()
    requires call.handle.Updated?
    requires |call.handle.command.position| == |call.handle.command.velocity| == l.numDofs
  {
    if Commanded(l, k) && AcceptedBelow(l, call.refusing, k + 1) then
      CommandedValue(l, call.handle.command, k)
    else
      before[k]
  }

  ghost function AfterCommand(l: Layout, box: OperationalStatus, call: CommandCall, before: seq<Value>)
    : (after: seq<Value>)
    requires l.stride > 0 && (|before| == 0 || |before| == l.Size())
    ensures |after| == |before|
    ensures Admission(l, box, call, |before|) != OK ==> after == before
  {
    if Admission(l, box, call, |before|) != OK then before
    else seq(|before|, k requires 0 <= k < |before| => Target(l, call, before, k))
  }

  ghost function CommandCode(l: Layout, box: OperationalStatus, call: CommandCall, size: nat): StatusCode
    requires l.stride > 0
  {
    var admission := Admission(l, box, call, size);
    if admission != OK then admission
    else if AcceptedBelow(l, call.refusing, size) then OK
    else INTERNAL
  }

  /** The code in the fields of the call: the gate comes first, then the handle's own error, the
      two sizes, the missing interfaces, and last a refused write. */
  lemma {:induction false} CommandCodeExactly(l: Layout, box: OperationalStatus, call: CommandCall, size: nat)
    requires l.stride > 0 && (size == 0 || size == l.numDofs * l.stride)
    ensures var code := CommandCode(l, box, call, size);
            if call.gotBox && (box.state == DISABLED || box.state == FAULTED) then code == FAILED_PRECONDITION
            else if call.handle.NotUpdated? then code == call.handle.error
            else if |call.handle.command.position| != l.numDofs || |call.handle.command.velocity| != l.numDofs then
              code == INTERNAL
            else if size == 0 then code == UNAVAILABLE
            else
              && code in {OK, INTERNAL}
              && (code == OK <==>
                  forall i, c :: 0 <= i < l.numDofs && 0 <= c < l.stride && c < 2 ==>
                    Slot(l.stride, i, c) !in call.refusing)
  {
    if Admission(l, box, call, size) == OK {
      forall i, c | 0 <= i < l.numDofs && 0 <= c < l.stride && c < 2
        ensures Slot(l.stride, i, c) < size && Commanded(l, Slot(l.stride, i, c))
      {
        SlotBounds(l.numDofs, l.stride, i, c);
        SlotDivMod(l.stride, i, c);
      }
      forall k | 0 <= k < size && Commanded(l, k)
        ensures k / l.stride < l.numDofs && k % l.stride < 2 && Slot(l.stride, k / l.stride, k % l.stride) == k
      {
        DivBounds(l.numDofs, l.stride, k);
      }
    }
  }

  /** On success each joint's position and feedforward land on the interfaces that carry its
      name, and nothing else changes. */
  lemma {:induction false} CommandLandsByName(
      names: seq<string>, dofNames: seq<string>, types: seq<string>,
      box: OperationalStatus, call: CommandCall, before: seq<Value>)
    requires IsLayout(names, dofNames, types) && types != []
    requires |before| == |names|
    requires CommandCode(Layout(|dofNames|, |types|), box, call, |before|) == OK
    ensures var after := AfterCommand(Layout(|dofNames|, |types|), box, call, before);
            forall i, c :: 0 <= i < |dofNames| && 0 <= c < |types| ==>
              var k := Slot(|types|, i, c);
              && k < |after|
              && names[k] == FullName(dofNames[i], types[c])
              && after[k] == (if c == 0 then call.handle.command.position[i]
                              else if c == 1 then call.handle.command.velocity[i]
                              else before[k])
  {
    var l := Layout(|dofNames|, |types|);
    var after := AfterCommand(l, box, call, before);
    forall i, c | 0 <= i < |dofNames| && 0 <= c < |types|
      ensures var k := Slot(|types|, i, c);
              && k < |after|
              && after[k] == (if c == 0 then call.handle.command.position[i]
                              else if c == 1 then call.handle.command.velocity[i]
                              else before[k])
    {
      SlotDivMod(|types|, i, c);
      SlotBounds(|dofNames|, |types|, i, c);
      var k := Slot(|types|, i, c);
      assert AcceptedBelow(l, call.refusing, k + 1);
      assert after[k] == Target(l, call, before, k);
    }
  }

  /** A refused write at interface `f` leaves the commanded interfaces below `f` written and
      everything from `f` on unchanged. */
  lemma {:induction false} FailureKeepsExactPrefix(
      l: Layout, box: OperationalStatus, call: CommandCall, before: seq<Value>, f: nat)
    requires l.stride > 0 && |before| == l.Size() && f < |before|
    requires Admission(l, box, call, |before|) == OK
    requires Commanded(l, f) && f in call.refusing && AcceptedBelow(l, call.refusing, f)
    ensures CommandCode(l, box, call, |before|) == INTERNAL
    ensures var after := AfterCommand(l, box, call, before);
            && (forall k :: f <= k < |before| ==> after[k] == before[k])
            && forall k :: 0 <= k < f ==>
                 after[k] == (if Commanded(l, k) then CommandedValue(l, call.handle.command, k) else before[k])
  {
    var after := AfterCommand(l, box, call, before);
    forall k | 0 <= k < |before| ensures after[k] == Target(l, call, before, k) {}
  }

  /** Exactly when no command at all can change the interfaces: when the box was read and holds
      DISABLED or FAULTED. A box that `try_get` could not read does not block anything. */
  lemma {:induction false} GateBlocksExactly(l: Layout, box: OperationalStatus, gotBox: bool, before: seq<Value>)
    requires l.numDofs > 0 && l.stride > 0 && |before| == l.Size()
    ensures (forall call: CommandCall :: call.gotBox == gotBox ==> AfterCommand(l, box, call, before) == before)
            <==> gotBox && (box.state == DISABLED || box.state == FAULTED)
  {
    if Gate(box, gotBox) == OK {
      SlotBounds(l.numDofs, l.stride, 0, 0);
      var other := seq(l.numDofs, _ => before[0] + 1.0);
      var call := CommandCall(gotBox, Updated(JointCommand(other, other)), {});
      var after := AfterCommand(l, box, call, before);
      assert after[0] == Target(l, call, before, 0) == before[0] + 1.0;
    }
  }

  /** The joint state that ICON reads, with the two update stamps. */
  datatype JointState = JointState(position: seq<Value>, velocity: seq<Value>, positionStamp: nat, velocityStamp: nat)
  {
    predicate Valid(l: Layout) { |position| == |velocity| == l.numDofs }
  }

  /** One `ReadStatus` call: its time and what `get_optional` gives for each interface. */
  datatype ReadCycle = ReadCycle(now: nat, readings: seq<Option<Value>>)
  {
    predicate Valid(l: Layout) { l.stride > 0 && (|readings| == 0 || |readings| == l.Size()) }
  }

  /** Component `c` of joint `i` can be read in this cycle. */
  predicate Readable(l: Layout, cycle: ReadCycle, c: nat, i: nat)
    requires cycle.Valid(l) && cycle.readings != [] && c < l.stride && i < l.numDofs
  {
    SlotBounds(l.numDofs, l.stride, i, c);
    cycle.readings[Slot(l.stride, i, c)].Some?
  }

  ghost predicate AllReadable(l: Layout, cycle: ReadCycle, c: nat, n: nat)
    requires cycle.Valid(l) && cycle.readings != [] && c < l.stride && n <= l.numDofs
  {
    forall i :: 0 <= i < n ==> Readable(l, cycle, c, i)
  }

  function Reading(l: Layout, cycle: ReadCycle, c: nat, i: nat): Value
    requires cycle.Valid(l) && cycle.readings != [] && c < l.stride && i < l.numDofs
    requires Readable(l, cycle, c, i)
  {
    SlotBounds(l.numDofs, l.stride, i, c);
    cycle.readings[Slot(l.stride, i, c)].value
  }

  /** The joint values after copying component `c`: new up to the first unreadable joint. */
  ghost function Copied(l: Layout, cycle: ReadCycle, c: nat, before: seq<Value>): (after: seq<Value>)
    requires cycle.Valid(l) && cycle.readings != [] && c < l.stride && |before| == l.numDofs
    ensures |after| == |before|
  {
    seq(|before|, i requires 0 <= i < |before| =>
      if AllReadable(l, cycle, c, i + 1) then Reading(l, cycle, c, i) else before[i])
  }

  /** Whether the call succeeds. */
  ghost predicate ReadSucceeds(l: Layout, cycle: ReadCycle)
    requires cycle.Valid(l)
  {
    && cycle.readings != []
    && AllReadable(l, cycle, 0, l.numDofs)
    && (l.stride > 1 ==> AllReadable(l, cycle, 1, l.numDofs))
  }

  ghost function AfterRead(l: Layout, js: JointState, cycle: ReadCycle): (after: JointState)
    requires js.Valid(l) && cycle.Valid(l)
    ensures after.Valid(l)
  {
    if cycle.readings == [] then js
    else
      var position := Copied(l, cycle, 0, js.position);
      if !AllReadable(l, cycle, 0, l.numDofs) then js.(position := position)
      else
        var velocity := if l.stride > 1 then Copied(l, cycle, 1, js.velocity) else js.velocity;
        if ReadSucceeds(l, cycle) then JointState(position, velocity, cycle.now, cycle.now)
        else js.(position := position, velocity := velocity)
  }

  /** A successful read leaves, for every joint, the values of the interfaces that carry its
      name, stamped with the time of the call. */
  lemma {:induction false} ReadTakesByName(
      names: seq<string>, dofNames: seq<string>, types: seq<string>, js: JointState, cycle: ReadCycle)
    requires IsLayout(names, dofNames, types) && types != []
    requires js.Valid(Layout(|dofNames|, |types|)) && cycle.Valid(Layout(|dofNames|, |types|))
    requires ReadSucceeds(Layout(|dofNames|, |types|), cycle)
    ensures var after := AfterRead(Layout(|dofNames|, |types|), js, cycle);
            && after.positionStamp == after.velocityStamp == cycle.now
            && (forall i :: 0 <= i < |dofNames| ==>
                  var k := Slot(|types|, i, 0);
                  && k < |names| && names[k] == FullName(dofNames[i], types[0])
                  && cycle.readings[k] == Some(after.position[i]))
            && (|types| > 1 ==> forall i :: 0 <= i < |dofNames| ==>
                  var k := Slot(|types|, i, 1);
                  && k < |names| && names[k] == FullName(dofNames[i], types[1])
                  && cycle.readings[k] == Some(after.velocity[i]))
            && (|types| == 1 ==> after.velocity == js.velocity)
  {
    var l := Layout(|dofNames|, |types|);
    var after := AfterRead(l, js, cycle);
    forall i | 0 <= i < |dofNames|
      ensures Slot(|types|, i, 0) < |names| && cycle.readings[Slot(|types|, i, 0)] == Some(after.position[i])
    {
      SlotBounds(|dofNames|, |types|, i, 0);
      assert Readable(l, cycle, 0, i) && AllReadable(l, cycle, 0, i + 1);
    }
    if |types| > 1 {
      forall i | 0 <= i < |dofNames|
        ensures Slot(|types|, i, 1) < |names| && cycle.readings[Slot(|types|, i, 1)] == Some(after.velocity[i])
      {
        SlotBounds(|dofNames|, |types|, i, 1);
        assert Readable(l, cycle, 1, i) && AllReadable(l, cycle, 1, i + 1);
      }
    }
  }

  /** Component `c` of the joints below `n` can be read, in terms of the readings. */
  ghost predicate ReadingsBelow(l: Layout, cycle: ReadCycle, c: nat, n: nat) {
    forall i :: 0 <= i < n ==>
      Slot(l.stride, i, c) < |cycle.readings| && cycle.readings[Slot(l.stride, i, c)].Some?
  }

  /** `values` are the readings of component `c` below `n`, and `before` from there on. */
  ghost predicate TakenBelow(l: Layout, cycle: ReadCycle, c: nat, n: nat, before: seq<Value>, values: seq<Value>) {
    && |values| == |before|
    && (forall i :: 0 <= i < n && i < |values| ==>
          Slot(l.stride, i, c) < |cycle.readings| && cycle.readings[Slot(l.stride, i, c)] == Some(values[i]))
    && forall i :: n <= i < |values| ==> values[i] == before[i]
  }

  lemma {:induction false} ReadingsAreReadable(l: Layout, cycle: ReadCycle, c: nat, n: nat)
    requires cycle.Valid(l) && cycle.readings != [] && c < l.stride && n <= l.numDofs
    ensures ReadingsBelow(l, cycle, c, n) <==> AllReadable(l, cycle, c, n)
  {
    forall i | 0 <= i < n
      ensures Slot(l.stride, i, c) < |cycle.readings|
      ensures Readable(l, cycle, c, i) <==> cycle.readings[Slot(l.stride, i, c)].Some?
    {
      SlotBounds(l.numDofs, l.stride, i, c);
    }
    if AllReadable(l, cycle, c, n) {
      forall i | 0 <= i < n
        ensures Slot(l.stride, i, c) < |cycle.readings| && cycle.readings[Slot(l.stride, i, c)].Some?
      {
        assert Readable(l, cycle, c, i);
      }
    }
  }

  /** Whether a call succeeds, in terms of the readings. */
  lemma {:induction false} ReadSucceedsExactly(l: Layout, cycle: ReadCycle)
    requires cycle.Valid(l)
    ensures ReadSucceeds(l, cycle) <==>
            && cycle.readings != [] && ReadingsBelow(l, cycle, 0, l.numDofs)
            && (l.stride > 1 ==> ReadingsBelow(l, cycle, 1, l.numDofs))
  {
    if cycle.readings != [] {
      ReadingsAreReadable(l, cycle, 0, l.numDofs);
      if l.stride > 1 {
        ReadingsAreReadable(l, cycle, 1, l.numDofs);
      }
    }
  }

  lemma {:induction false} CopiedBelow(l: Layout, cycle: ReadCycle, c: nat, n: nat, before: seq<Value>)
    requires cycle.Valid(l) && cycle.readings != [] && c < l.stride && n <= l.numDofs == |before|
    requires AllReadable(l, cycle, c, n) && (n < l.numDofs ==> !Readable(l, cycle, c, n))
    ensures TakenBelow(l, cycle, c, n, before, Copied(l, cycle, c, before))
  {
    var after := Copied(l, cycle, c, before);
    forall i | 0 <= i < n
      ensures Slot(l.stride, i, c) < |cycle.readings| && cycle.readings[Slot(l.stride, i, c)] == Some(after[i])
    {
      SlotBounds(l.numDofs, l.stride, i, c);
      assert Readable(l, cycle, c, i) && AllReadable(l, cycle, c, i + 1);
    }
    forall i | n <= i < l.numDofs ensures after[i] == before[i] {
      assert !Readable(l, cycle, c, n) && !AllReadable(l, cycle, c, i + 1);
    }
  }

  /** A call without interfaces changes nothing. When position `k` is the first that cannot be
      read, exactly the positions below it are new; when velocity `k` is, all positions and exactly
      the velocities below it; and in no case are the stamps. */
  lemma {:induction false} ReadFailureKeepsExactPrefix(l: Layout, js: JointState, cycle: ReadCycle, c: nat, k: nat)
    requires js.Valid(l) && cycle.Valid(l)
    requires cycle.readings != [] ==>
               && c < l.stride && c < 2 && k < l.numDofs
               && (c == 1 ==> ReadingsBelow(l, cycle, 0, l.numDofs))
               && ReadingsBelow(l, cycle, c, k) && !ReadingsBelow(l, cycle, c, k + 1)
    ensures var after := AfterRead(l, js, cycle);
            && after.positionStamp == js.positionStamp && after.velocityStamp == js.velocityStamp
            && (cycle.readings == [] ==> after.position == js.position && after.velocity == js.velocity)
            && (cycle.readings != [] && c == 0 ==>
                  && TakenBelow(l, cycle, 0, k, js.position, after.position)
                  && after.velocity == js.velocity)
            && (cycle.readings != [] && c == 1 ==>
                  && TakenBelow(l, cycle, 0, l.numDofs, js.position, after.position)
                  && TakenBelow(l, cycle, 1, k, js.velocity, after.velocity))
  {
    if cycle.readings != [] {
      ReadingsAreReadable(l, cycle, c, k);
      ReadingsAreReadable(l, cycle, c, k + 1);
      assert !Readable(l, cycle, c, k);
      if c == 0 {
        CopiedBelow(l, cycle, 0, k, js.position);
      } else {
        ReadingsAreReadable(l, cycle, 0, l.numDofs);
        CopiedBelow(l, cycle, 0, l.numDofs, js.position);
        CopiedBelow(l, cycle, 1, k, js.velocity);
      }
    }
  }

  /** The joint state after a run of calls. */
  ghost function AfterReads(l: Layout, js: JointState, cycles: seq<ReadCycle>): (after: JointState)
    requires js.Valid(l) && forall k :: 0 <= k < |cycles| ==> cycles[k].Valid(l)
    ensures after.Valid(l)
  {
    if cycles == [] then js
    else
      var n := |cycles| - 1;
      AfterRead(l, AfterReads(l, js, cycles[..n]), cycles[n])
  }

  /** `v` is the value of component `c` of joint `i` either initially or in one of the
      calls numbered `from` or later (0 stands for the initial state). */
  ghost predicate StoredSince(l: Layout, cycles: seq<ReadCycle>, from: nat, c: nat, i: nat, v: Value, initial: Value)
    requires forall k :: 0 <= k < |cycles| ==> cycles[k].Valid(l)
    requires c < l.stride && i < l.numDofs
  {
    || (from == 0 && v == initial)
    || exists k :: 0 <= k < |cycles| && from <= k + 1 && StoredFrom(l, cycles[k], c, i, v)
  }

  ghost predicate StoredFrom(l: Layout, cycle: ReadCycle, c: nat, i: nat, v: Value)
    requires cycle.Valid(l) && c < l.stride && i < l.numDofs
  {
    cycle.readings != [] && Readable(l, cycle, c, i) && Reading(l, cycle, c, i) == v
  }

  /** `last` is the number of the last successful call of the run (0 if there is none). */
  ghost predicate LastSuccess(l: Layout, cycles: seq<ReadCycle>, last: nat)
    requires forall k :: 0 <= k < |cycles| ==> cycles[k].Valid(l)
  {
    && last <= |cycles|
    && (last > 0 ==> ReadSucceeds(l, cycles[last - 1]))
    && forall k :: last <= k < |cycles| ==> !ReadSucceeds(l, cycles[k])
  }

  lemma {:induction false} KeepsStored(
      l: Layout, cycles: seq<ReadCycle>, next: ReadCycle, from: nat, c: nat, i: nat, v: Value, initial: Value)
    requires next.Valid(l) && forall k :: 0 <= k < |cycles| ==> cycles[k].Valid(l)
    requires c < l.stride && i < l.numDofs
    requires StoredSince(l, cycles, from, c, i, v, initial)
    ensures StoredSince(l, cycles + [next], from, c, i, v, initial)
  {
    if !(from == 0 && v == initial) {
      var k :| 0 <= k < |cycles| && from <= k + 1 && StoredFrom(l, cycles[k], c, i, v);
      assert (cycles + [next])[k] == cycles[k];
    }
  }

  /** A call either reads a value or keeps it, and it keeps none if it succeeds. */
  lemma {:induction false} ReadOrKept(l: Layout, js: JointState, cycle: ReadCycle, i: nat)
    requires js.Valid(l) && cycle.Valid(l) && i < l.numDofs
    ensures var after := AfterRead(l, js, cycle);
            && (|| StoredFrom(l, cycle, 0, i, after.position[i])
                || (after.position[i] == js.position[i] && !ReadSucceeds(l, cycle)))
            && (l.stride > 1 ==>
                  || StoredFrom(l, cycle, 1, i, after.velocity[i])
                  || (after.velocity[i] == js.velocity[i] && !ReadSucceeds(l, cycle)))
  {
    if ReadSucceeds(l, cycle) {
      assert AllReadable(l, cycle, 0, i + 1);
      assert l.stride > 1 ==> AllReadable(l, cycle, 1, i + 1);
    }
  }

  lemma {:induction false} StoredStep(
      l: Layout, cycles: seq<ReadCycle>, next: ReadCycle, from: nat, c: nat, i: nat, v: Value, w: Value, initial: Value)
    requires next.Valid(l) && forall k :: 0 <= k < |cycles| ==> cycles[k].Valid(l)
    requires c < l.stride && i < l.numDofs && from <= |cycles|
    requires StoredSince(l, cycles, from, c, i, v, initial)
    requires StoredFrom(l, next, c, i, w) || (w == v && !ReadSucceeds(l, next))
    ensures StoredSince(l, cycles + [next], if ReadSucceeds(l, next) then |cycles| + 1 else from, c, i, w, initial)
  {
    if StoredFrom(l, next, c, i, w) {
      assert (cycles + [next])[|cycles|] == next;
    } else {
      KeepsStored(l, cycles, next, from, c, i, v, initial);
    }
  }

  /** After any run the two stamps agree and are the time of the last successful call, and
      every stored value was read in that call or a later (failed) one. */
  lemma {:induction false} ReadRunInvariant(l: Layout, js: JointState, cycles: seq<ReadCycle>) returns (last: nat)
    requires js.Valid(l) && js.positionStamp == js.velocityStamp && l.stride > 0
    requires forall k :: 0 <= k < |cycles| ==> cycles[k].Valid(l)
    ensures LastSuccess(l, cycles, last)
    ensures var after := AfterReads(l, js, cycles);
            && after.positionStamp == after.velocityStamp
            && after.positionStamp == (if last == 0 then js.positionStamp else cycles[last - 1].now)
            && (forall i :: 0 <= i < l.numDofs ==>
                  StoredSince(l, cycles, last, 0, i, after.position[i], js.position[i]))
            && (l.stride > 1 ==> forall i :: 0 <= i < l.numDofs ==>
                  StoredSince(l, cycles, last, 1, i, after.velocity[i], js.velocity[i]))
    decreases |cycles|
  {
    hide Copied, Readable;
    if cycles == [] {
      last := 0;
      return;
    }
    var n := |cycles| - 1;
    var prefix, next := cycles[..n], cycles[n];
    assert cycles == prefix + [next];
    var before := AfterReads(l, js, prefix);
    var after := AfterReads(l, js, cycles);
    var previous := ReadRunInvariant(l, js, prefix);
    last := if ReadSucceeds(l, next) then n + 1 else previous;
    forall i | 0 <= i < l.numDofs
      ensures StoredSince(l, cycles, last, 0, i, after.position[i], js.position[i])
      ensures l.stride > 1 ==> StoredSince(l, cycles, last, 1, i, after.velocity[i], js.velocity[i])
    {
      ReadOrKept(l, before, next, i);
      StoredStep(l, prefix, next, previous, 0, i, before.position[i], after.position[i], js.position[i]);
      if l.stride > 1 {
        StoredStep(l, prefix, next, previous, 1, i, before.velocity[i], after.velocity[i], js.velocity[i]);
      }
    }
  }

  /** No stored value is older than the stamps, when the clock does not run backwards: joint
      `i`'s component `c` was read in call `source`, no earlier than the last success. */
  lemma {:induction false} StoredNotOlderThanStamp(l: Layout, js: JointState, cycles: seq<ReadCycle>, c: nat, i: nat)
      returns (source: nat)
    requires js.Valid(l) && js.positionStamp == js.velocityStamp && l.stride > 0 && c < l.Width() && i < l.numDofs
    requires forall k :: 0 <= k < |cycles| ==> cycles[k].Valid(l)
    requires forall j, k :: 0 <= j < k < |cycles| ==> cycles[j].now <= cycles[k].now
    requires exists k :: 0 <= k < |cycles| && ReadSucceeds(l, cycles[k])
    ensures var after := AfterReads(l, js, cycles);
            && source < |cycles|
            && cycles[source].now >= after.positionStamp == after.velocityStamp
            && StoredFrom(l, cycles[source], c, i, if c == 0 then after.position[i] else after.velocity[i])
  {
    var last := ReadRunInvariant(l, js, cycles);
    var after := AfterReads(l, js, cycles);
    assert last > 0;
    var v := if c == 0 then after.position[i] else after.velocity[i];
    source :| 0 <= source < |cycles| && last <= source + 1 && StoredFrom(l, cycles[source], c, i, v);
  }
}
