/** The "matrix changed" flag between the scan callback and the keyboard task: every interleaving of their byte
    accesses. */
module MatrixHandoff {
  import opened Wrappers

  datatype Write = Write(cell: nat, value: byte)

  datatype Producer = Resting | Publishing(writes: seq<Write>)

  datatype Consumer =
    | Waiting
    | Tested          // flag seen set, not yet cleared
    | Reading(k: nat) // k cells read
    | Late            // all cells read, flag still to be cleared (old order only)

  /** `snapshot` holds, for each cell, the consumer's last read of it. */
  datatype State = State(flag: bool, cells: seq<byte>, producer: Producer, consumer: Consumer, snapshot: seq<byte>)

  datatype Step = StartCallback(writes: seq<Write>) | WriteCell | Signal | Test | Clear | ReadCell

  /** Clear-before-read is the order `matrix_flag_take` imposes; read-before-clear is what it replaced. */
  datatype Order = ClearFirst | ReadFirst

  function Next(order: Order, s: State, step: Step): (t: State)
    requires |s.snapshot| == |s.cells|
    ensures |t.snapshot| == |t.cells| == |s.cells|
  {
    match step
    case StartCallback(writes) => if s.producer.Resting? then s.(producer := Publishing(writes)) else s
    case WriteCell =>
      if s.producer.Resting? || s.producer.writes == [] then s
      else
        var w := s.producer.writes[0];
        s.(cells := if w.cell < |s.cells| then s.cells[w.cell := w.value] else s.cells,
           producer := Publishing(s.producer.writes[1..]))
    case Signal =>
      if s.producer.Publishing? && s.producer.writes == [] then s.(flag := true, producer := Resting) else s
    case Test =>
      if s.consumer.Waiting? && s.flag then s.(consumer := if order.ClearFirst? then Tested else Reading(0)) else s
    case Clear =>
      if s.consumer.Tested? then s.(flag := false, consumer := Reading(0))
      else if s.consumer.Late? then s.(flag := false, consumer := Waiting)
      else s
    case ReadCell =>
      if !s.consumer.Reading? then s
      else if s.consumer.k >= |s.cells| then s.(consumer := if order.ClearFirst? then Waiting else Late)
      else s.(snapshot := s.snapshot[s.consumer.k := s.cells[s.consumer.k]], consumer := Reading(s.consumer.k + 1))
  }

  function Exec(order: Order, s: State, steps: seq<Step>): (t: State)
    requires |s.snapshot| == |s.cells|
    ensures |t.snapshot| == |t.cells| == |s.cells|
    decreases |steps|
  {
    if steps == [] then s else Exec(order, Next(order, s, steps[0]), steps[1..])
  }

  function Start(cells: seq<byte>): State { State(false, cells, Resting, Waiting, cells) }

  // Nothing announced and nothing under way: what was read is up to date.
  ghost predicate Inv(s: State) {
    && |s.snapshot| == |s.cells|
    && !s.consumer.Late?
    && (s.consumer.Tested? ==> s.flag)
    && (s.consumer.Reading? ==> s.consumer.k <= |s.cells|)
    && (!s.flag && s.producer.Resting? ==>
          match s.consumer
          case Waiting => s.snapshot == s.cells
          case Reading(k) => s.snapshot[..k] == s.cells[..k]
          case _ => true)
  }

  lemma StepKeepsInv(s: State, step: Step)
    requires Inv(s)
    ensures Inv(Next(ClearFirst, s, step))
  {
    if step.ReadCell? && s.consumer.Reading? && s.consumer.k < |s.cells| {
      var k, t := s.consumer.k, Next(ClearFirst, s, step);
      assert t.snapshot[..k + 1] == s.snapshot[..k] + [s.cells[k]];
      assert s.cells[..k + 1] == s.cells[..k] + [s.cells[k]];
    }
    if step.ReadCell? && s.consumer.Reading? && s.consumer.k == |s.cells| {
      assert s.snapshot[..|s.cells|] == s.snapshot && s.cells[..|s.cells|] == s.cells;
    }
  }

  lemma {:induction false} ExecKeepsInv(s: State, steps: seq<Step>)
    requires Inv(s)
    ensures Inv(Exec(ClearFirst, s, steps))
    decreases |steps|
  {
    if steps != [] {
      hide Next;
      hide Inv;
      StepKeepsInv(s, steps[0]);
      ExecKeepsInv(Next(ClearFirst, s, steps[0]), steps[1..]);
    }
  }

  /** No final state is lost or torn, in any interleaving, the signal racing the clear included. */
  lemma NothingIsLost(cells: seq<byte>, steps: seq<Step>)
    ensures var s := Exec(ClearFirst, Start(cells), steps);
            !s.flag && s.producer.Resting? && s.consumer.Waiting? ==> s.snapshot == s.cells
  {
    ExecKeepsInv(Start(cells), steps);
  }

  lemma First(order: Order, s: State, step: Step, rest: seq<Step>)
    requires |s.snapshot| == |s.cells|
    ensures Exec(order, s, [step] + rest) == Exec(order, Next(order, s, step), rest)
  {
    assert ([step] + rest)[1..] == rest;
  }

  predicate ConsumerStep(step: Step) { step.Test? || step.Clear? || step.ReadCell? }

  // Consumer steps still needed to be waiting with the flag down.
  function Remaining(s: State): nat {
    var n := |s.cells|;
    match s.consumer
    case Waiting => if s.flag then n + 3 else 0
    case Tested => n + 2
    case Reading(k) => (if k <= n then n - k else 0) + 1 + (if s.flag then n + 3 else 0)
    case Late => 1
  }

  /** Once the callback rests, the keyboard task alone catches up within 2n + 4 accesses. */
  lemma {:induction false} CatchesUp(s: State) returns (steps: seq<Step>)
    requires Inv(s) && s.producer.Resting?
    ensures |steps| == Remaining(s) <= 2 * |s.cells| + 4 && forall st :: st in steps ==> ConsumerStep(st)
    ensures var t := Exec(ClearFirst, s, steps);
            t.cells == s.cells == t.snapshot && !t.flag && t.consumer.Waiting? && t.producer.Resting?
    decreases Remaining(s)
  {
    steps := [];
    if !(s.consumer.Waiting? && !s.flag) {
      var step := if s.consumer.Waiting? then Test else if s.consumer.Tested? then Clear else ReadCell;
      StepKeepsInv(s, step);
      hide Inv;
      var rest := CatchesUp(Next(ClearFirst, s, step));
      First(ClearFirst, s, step, rest);
      steps := [step] + rest;
    }
  }

  /** The order it replaced loses an edge: a signal that falls between the last read and the clear is wiped. */
  lemma ReadFirstLoses(before: byte, after: byte) returns (steps: seq<Step>)
    requires before != after
    ensures var s := Exec(ReadFirst, Start([before]), steps);
            !s.flag && s.producer.Resting? && s.consumer.Waiting? && s.snapshot == [before] && s.cells == [after]
  {
    hide Exec;
    var b, a := [before], [after];
    var clear := [Clear] + [];
    var signal := [Signal] + clear;
    var write := [WriteCell] + signal;
    var publish := [StartCallback([Write(0, after)])] + write;
    var lastRead := [ReadCell] + publish;
    var firstRead := [ReadCell] + lastRead;
    var test := [Test] + firstRead;
    var edge := [Signal] + test;
    steps := [StartCallback([])] + edge;
    assert b[0 := after] == a && [Write(0, after)][1..] == [];
    Goes(Start(b), StartCallback([]), State(false, b, Publishing([]), Waiting, b), edge);
    Goes(State(false, b, Publishing([]), Waiting, b), Signal, State(true, b, Resting, Waiting, b), test);
    Goes(State(true, b, Resting, Waiting, b), Test, State(true, b, Resting, Reading(0), b), firstRead);
    Goes(State(true, b, Resting, Reading(0), b), ReadCell, State(true, b, Resting, Reading(1), b), lastRead);
    Goes(State(true, b, Resting, Reading(1), b), ReadCell, State(true, b, Resting, Late, b), publish);
    Goes(State(true, b, Resting, Late, b), StartCallback([Write(0, after)]),
         State(true, b, Publishing([Write(0, after)]), Late, b), write);
    Goes(State(true, b, Publishing([Write(0, after)]), Late, b), WriteCell,
         State(true, a, Publishing([]), Late, b), signal);
    Goes(State(true, a, Publishing([]), Late, b), Signal, State(true, a, Resting, Late, b), clear);
    Goes(State(true, a, Resting, Late, b), Clear, State(false, a, Resting, Waiting, b), []);
    ExecNothing(State(false, a, Resting, Waiting, b));
  }

  lemma ExecNothing(s: State)
    requires |s.snapshot| == |s.cells|
    ensures Exec(ReadFirst, s, []) == s
  {
  }

  lemma Goes(s: State, step: Step, t: State, rest: seq<Step>)
    requires |s.snapshot| == |s.cells| && Next(ReadFirst, s, step) == t
    ensures Exec(ReadFirst, s, [step] + rest) == Exec(ReadFirst, t, rest)
  {
    First(ReadFirst, s, step, rest);
  }
}
