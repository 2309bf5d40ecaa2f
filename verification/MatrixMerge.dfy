/** The merge of the remote half, run from the keyboard loop, against the scan callback that preempts it. */
module MatrixMerge {
  import opened Wrappers
  import opened MatrixScan

  type Cells = s: seq<Option<Pos>> | |s| == MAX_REPORT_KEYS witness seq(MAX_REPORT_KEYS, _ => None)

  /** Where the loop's merge stands: it read `kept` local keys, and goes on at cell `at`. */
  datatype Merge =
    | Outside
    | Blanking(kept: nat, at: nat, remote: seq<Pos>)
    | Writing(kept: nat, at: nat, remote: seq<Pos>)

  /**
   * `display` says whether the build has a display: only then does the callback merge, and tell the merge how many
   * keys are local. `local` is what the last callback found, `filled` what the merge is told.
   */
  datatype State = State(display: bool, cells: Cells, filled: nat, merge: Merge, local: seq<Pos>)

  datatype Step =
    | Callback(local: seq<Pos>, remote: seq<Pos>)   // runs whole: it preempts the loop
    | Begin(remote: seq<Pos>)                        // the loop reads the number of local keys
    | Access                                         // one write of the loop's merge

  /** The cells that list exactly these keys. */
  function Listing(keys: seq<Pos>): Cells {
    seq(MAX_REPORT_KEYS, i => if 0 <= i < |keys| then Some(keys[i]) else None)
  }

  function Next(s: State, step: Step): State {
    match step
    case Callback(local, remote) =>
      var l := FirstSix(local);
      if s.display then s.(cells := Listing(FirstSix(l + remote)), filled := |l|, local := l)
      else s.(cells := Listing(l), local := l)
    case Begin(remote) =>
      if s.merge.Outside? then s.(merge := Blanking(s.filled, s.filled, remote)) else s
    case Access =>
      match s.merge
      case Outside => s
      case Blanking(kept, at, remote) =>
        if at < MAX_REPORT_KEYS then s.(cells := s.cells[at := None], merge := Blanking(kept, at + 1, remote))
        else s.(merge := Writing(kept, kept, remote))
      case Writing(kept, at, remote) =>
        if remote == [] || at >= MAX_REPORT_KEYS then s.(merge := Outside)
        else s.(cells := s.cells[at := Some(remote[0])], merge := Writing(kept, at + 1, remote[1..]))
  }

  function Exec(s: State, steps: seq<Step>): State
    decreases |steps|
  {
    if steps == [] then s else Exec(Next(s, steps[0]), steps[1..])
  }

  function Start(display: bool): State { State(display, Listing([]), 0, Outside, []) }

  /** The last callback's local keys stand at the front of the arrays. */
  predicate Shown(s: State) { |s.local| <= MAX_REPORT_KEYS && s.cells[..|s.local|] == Listing(s.local)[..|s.local|] }

  /** The merge left to itself until its end. */
  function Finish(s: State): State
    decreases match s.merge
              case Outside => 0
              case Blanking(_, at, _) =>
                2 * MAX_REPORT_KEYS + 2 + (if at < MAX_REPORT_KEYS then MAX_REPORT_KEYS - at else 0)
              case Writing(_, at, _) => 1 + if at < MAX_REPORT_KEYS then MAX_REPORT_KEYS - at else 0
  {
    if s.merge.Outside? then s else Finish(Next(s, Access))
  }

  // ---- Local and remote keys ----

  /** The remote half's columns follow the local ones. */
  predicate Near(keys: seq<Pos>, cols: byte) { forall k :: k in keys ==> k.col < cols }

  predicate Far(keys: seq<Pos>, cols: byte) { forall k :: k in keys ==> k.col >= cols }

  predicate StepApart(step: Step, cols: byte) {
    match step
    case Callback(local, remote) => Near(local, cols) && Far(remote, cols)
    case Begin(remote) => Far(remote, cols)
    case Access => true
  }

  predicate Apart(steps: seq<Step>, cols: byte) { forall step :: step in steps ==> StepApart(step, cols) }

  predicate Waiting(m: Merge, cols: byte) { m.Outside? || Far(m.remote, cols) }

  /** What holds in every run: the merge is told the number of local keys on builds with a display, and 0 on others. */
  ghost predicate Inv(s: State, cols: byte) {
    && |s.local| <= MAX_REPORT_KEYS && Near(s.local, cols) && Waiting(s.merge, cols)
    && s.filled == (if s.display then |s.local| else 0)
    && (!s.merge.Outside? ==> s.merge.kept <= s.merge.at <= MAX_REPORT_KEYS)
    && (!s.merge.Outside? && !s.display ==> s.merge.kept == 0)
  }

  lemma StepKeepsInv(s: State, step: Step, cols: byte)
    requires Inv(s, cols) && StepApart(step, cols)
    ensures Inv(Next(s, step), cols)
  {
  }

  lemma {:induction false} ExecKeepsInv(s: State, steps: seq<Step>, cols: byte)
    requires Inv(s, cols) && Apart(steps, cols)
    ensures Inv(Exec(s, steps), cols)
    decreases |steps|
  {
    if steps != [] {
      assert steps[0] in steps && forall step :: step in steps[1..] ==> step in steps;
      StepKeepsInv(s, steps[0], cols);
      hide Next, Inv, StepApart;
      ExecKeepsInv(Next(s, steps[0]), steps[1..], cols);
    }
  }

  // ---- What a merge leaves ----

  /** From cell `at` on the merge writes its own keys, and leaves what else it finds. */
  lemma {:induction false} FinishWrites(s: State)
    requires s.merge.Writing? && s.merge.at <= MAX_REPORT_KEYS
    ensures var t, at, remote := Finish(s), s.merge.at, s.merge.remote;
            && t.local == s.local
            && forall i :: 0 <= i < MAX_REPORT_KEYS ==>
                 t.cells[i] == if 0 <= i - at < |remote| then Some(remote[i - at]) else s.cells[i]
    decreases MAX_REPORT_KEYS - s.merge.at
  {
    var t := Next(s, Access);
    if s.merge.remote != [] && s.merge.at < MAX_REPORT_KEYS {
      FinishWrites(t);
    } else {
      assert t.merge.Outside?;
    }
  }

  /** Past the local keys it was told of, the merge leaves its own keys; then what it had blanked before, and blanks. */
  lemma {:induction false} FinishBlanks(s: State)
    requires s.merge.Blanking? && s.merge.kept <= s.merge.at <= MAX_REPORT_KEYS
    ensures var t, kept, at, remote := Finish(s), s.merge.kept, s.merge.at, s.merge.remote;
            && t.local == s.local
            && forall i :: 0 <= i < MAX_REPORT_KEYS ==>
                 t.cells[i] == if 0 <= i - kept < |remote| then Some(remote[i - kept])
                               else if i < at then s.cells[i] else None
    decreases MAX_REPORT_KEYS - s.merge.at
  {
    var t := Next(s, Access);
    if s.merge.at < MAX_REPORT_KEYS { FinishBlanks(t); } else { FinishWrites(t); }
  }

  lemma ShownAt(s: State)
    ensures Shown(s) <==> |s.local| <= MAX_REPORT_KEYS
                          && forall i :: 0 <= i < |s.local| ==> s.cells[i] == Some(s.local[i])
  {
    if |s.local| <= MAX_REPORT_KEYS {
      assert Shown(s) ==> forall i :: 0 <= i < |s.local| ==>
                            s.cells[i] == s.cells[..|s.local|][i] == Listing(s.local)[..|s.local|][i];
    }
  }

  /** A merge left alone, on a build with a display: the local keys and then the remote ones, six in all. */
  lemma MergeAlone(s: State, remote: seq<Pos>)
    requires s.display && s.merge.Outside? && s.filled == |s.local| && Shown(s)
    ensures Finish(Next(s, Begin(remote))).cells == Listing(FirstSix(s.local + remote))
  {
    ShownAt(s);
    FinishBlanks(Next(s, Begin(remote)));
  }

  /** A merge left alone, on a build without a display: the remote keys and nothing else. So every remote change wipes
      the local keys held, with no race at all. */
  lemma MergeWithoutDisplay(s: State, remote: seq<Pos>, cols: byte)
    requires Inv(s, cols) && !s.display && s.merge.Outside? && Far(remote, cols)
    ensures var t := Finish(Next(s, Begin(remote)));
            t.cells == Listing(FirstSix(remote)) && (Shown(t) <==> s.local == [])
  {
    var t := Finish(Next(s, Begin(remote)));
    FinishBlanks(Next(s, Begin(remote)));
    ShownAt(t);
    if s.local != [] {
      assert s.local[0] in s.local;
      assert remote != [] ==> remote[0] in remote;
    }
  }

  /** The callback lists both halves if and only if the build has a display, or there is nothing or no room to add. */
  lemma CallbackListsBoth(s: State, local: seq<Pos>, remote: seq<Pos>)
    ensures Next(s, Callback(local, remote)).cells == Listing(FirstSix(FirstSix(local) + remote))
            <==> s.display || remote == [] || |local| >= MAX_REPORT_KEYS
  {
    var l := FirstSix(local);
    if |l| < MAX_REPORT_KEYS && remote != [] {
      assert FirstSix(l + remote)[|l|] == remote[0];
      assert Listing(l)[|l|] == None && Listing(FirstSix(l + remote))[|l|] == Some(remote[0]);
    }
    if |local| >= MAX_REPORT_KEYS { assert FirstSix(l + remote) == l; }
  }

  // ---- A callback in the middle of a merge ----

  /** A callback that finds n local keys while the merge stands at m leaves them to be shown when it ends. */
  predicate InTime(m: Merge, n: nat) {
    match m
    case Outside => true
    case Blanking(kept, at, remote) => n <= kept || (remote == [] && n <= at)
    case Writing(_, at, remote) => n <= at || remote == []
  }

  /** At every point of a merge: when it ends, the local keys of a callback are shown if and only if it came in time. */
  lemma LateCallback(s: State, local: seq<Pos>, remote: seq<Pos>, cols: byte)
    requires Inv(s, cols) && Near(local, cols)
    ensures Shown(Finish(Next(s, Callback(local, remote)))) <==> InTime(s.merge, |FirstSix(local)|)
  {
    var c, l := Next(s, Callback(local, remote)), FirstSix(local);
    var t := Finish(c);
    assert forall i :: 0 <= i < |l| ==> c.cells[i] == Some(l[i]) && l[i] in local;
    assert forall i :: !s.merge.Outside? && 0 <= i < |s.merge.remote| ==> s.merge.remote[i] in s.merge.remote;
    match s.merge {
      case Outside =>
      case Blanking(kept, at, stale) =>
        FinishBlanks(c);
        if kept < |l| && !InTime(s.merge, |l|) {
          var i := if stale == [] then at else kept;
          assert t.cells[i] != Some(l[i]);
        }
      case Writing(_, at, stale) =>
        FinishWrites(c);
        if !InTime(s.merge, |l|) { assert t.cells[at] != Some(l[at]); }
    }
    ShownAt(t);
  }

  // ---- Every run ----

  /** What one step does to keys that were to be shown before it, or not. */
  predicate Keeps(s: State, was: bool, step: Step) {
    match step
    case Callback(local, _) => InTime(s.merge, |FirstSix(local)|)
    case Begin(_) => was && (s.display || s.local == [] || !s.merge.Outside?)
    case Access => was
  }

  predicate KeptThrough(s: State, was: bool, steps: seq<Step>)
    decreases |steps|
  {
    if steps == [] then was else KeptThrough(Next(s, steps[0]), Keeps(s, was, steps[0]), steps[1..])
  }

  lemma BeginKeeps(s: State, remote: seq<Pos>, cols: byte)
    requires Inv(s, cols) && Far(remote, cols)
    ensures Shown(Finish(Next(s, Begin(remote)))) <==> Keeps(s, Shown(Finish(s)), Begin(remote))
  {
    if s.merge.Outside? {
      if s.display {
        var t := Finish(Next(s, Begin(remote)));
        FinishBlanks(Next(s, Begin(remote)));
        ShownAt(s);
        ShownAt(t);
      } else {
        MergeWithoutDisplay(s, remote, cols);
      }
    }
  }

  lemma StepKeeps(s: State, step: Step, cols: byte)
    requires Inv(s, cols) && StepApart(step, cols)
    ensures Shown(Finish(Next(s, step))) <==> Keeps(s, Shown(Finish(s)), step)
  {
    match step
    case Callback(local, remote) => LateCallback(s, local, remote, cols);
    case Begin(remote) => BeginKeeps(s, remote, cols);
    case Access =>
  }

  lemma {:induction false} RunKeeps(s: State, steps: seq<Step>, cols: byte)
    requires Inv(s, cols) && Apart(steps, cols)
    ensures Shown(Finish(Exec(s, steps))) <==> KeptThrough(s, Shown(Finish(s)), steps)
    decreases |steps|
  {
    if steps != [] {
      assert steps[0] in steps && forall step :: step in steps[1..] ==> step in steps;
      StepKeepsInv(s, steps[0], cols);
      StepKeeps(s, steps[0], cols);
      hide Inv, Shown, Finish, Next, Keeps, StepApart;
      RunKeeps(Next(s, steps[0]), steps[1..], cols);
    }
  }

  /** In every run, on either build: when the merge at hand ends the local keys are shown if and only if the last
      callback came in time and, without a display, no merge has begun since while they were held. */
  lemma ShownIffKept(display: bool, steps: seq<Step>, cols: byte)
    requires Apart(steps, cols)
    ensures Shown(Finish(Exec(Start(display), steps))) <==> KeptThrough(Start(display), true, steps)
  {
    ShownAt(Start(display));
    RunKeeps(Start(display), steps, cols);
  }

  // ---- Throughout ----

  /** A callback in the middle of a merge is harmless if it finds no more local keys than the merge has read. */
  predicate Harmless(s: State, step: Step) {
    step.Callback? && !s.merge.Outside? ==> |FirstSix(step.local)| <= s.merge.kept
  }

  predicate AllHarmless(s: State, steps: seq<Step>)
    decreases |steps|
  {
    steps == [] || (Harmless(s, steps[0]) && AllHarmless(Next(s, steps[0]), steps[1..]))
  }

  ghost predicate Ahead(s: State) {
    && s.display && Shown(s) && s.filled == |s.local|
    && (!s.merge.Outside? ==> |s.local| <= s.merge.kept <= s.merge.at && s.merge.kept <= MAX_REPORT_KEYS)
  }

  lemma StepKeepsAhead(s: State, step: Step)
    requires Ahead(s) && Harmless(s, step)
    ensures Ahead(Next(s, step))
  {
    ShownAt(s);
    ShownAt(Next(s, step));
  }

  lemma {:induction false} RunKeepsAhead(s: State, steps: seq<Step>)
    requires Ahead(s) && AllHarmless(s, steps)
    ensures Ahead(Exec(s, steps))
    decreases |steps|
  {
    if steps != [] {
      hide Next, Ahead, Harmless;
      StepKeepsAhead(s, steps[0]);
      RunKeepsAhead(Next(s, steps[0]), steps[1..]);
    }
  }

  /** On a build with a display, in every run whose callbacks never add a local key in the middle of a merge, the local
      keys are shown throughout. */
  lemma LocalKeysStay(steps: seq<Step>)
    requires AllHarmless(Start(true), steps)
    ensures Shown(Exec(Start(true), steps))
  {
    ShownAt(Start(true));
    RunKeepsAhead(Start(true), steps);
  }

  // ---- What is lost stays lost ----

  predicate Wrong(s: State, i: nat) { i < |s.local| <= MAX_REPORT_KEYS && s.cells[i] != Some(s.local[i]) }

  lemma {:induction false} WrongStays(s: State, i: nat, steps: seq<Step>, cols: byte)
    requires Inv(s, cols) && Wrong(s, i) && Apart(steps, cols) && forall step :: step in steps ==> !step.Callback?
    ensures Wrong(Exec(s, steps), i)
    decreases |steps|
  {
    if steps != [] {
      assert steps[0] in steps && forall step :: step in steps[1..] ==> step in steps;
      StepKeepsInv(s, steps[0], cols);
      assert s.local[i] in s.local;
      assert s.merge.Writing? && s.merge.remote != [] ==> s.merge.remote[0] in s.merge.remote;
      WrongStays(Next(s, steps[0]), i, steps[1..], cols);
    }
  }

  /** On either build, nothing brings the local keys back but another callback. */
  lemma LostUntilCallback(s: State, steps: seq<Step>, cols: byte)
    requires Inv(s, cols) && !Shown(s) && Apart(steps, cols) && forall step :: step in steps ==> !step.Callback?
    ensures !Shown(Exec(s, steps))
  {
    ShownAt(s);
    var i :| 0 <= i < |s.local| && s.cells[i] != Some(s.local[i]);
    WrongStays(s, i, steps, cols);
    ShownAt(Exec(s, steps));
  }

  /** On a build with a display, a key pressed right after the merge has read the number of local keys is lost. */
  lemma KeyIsLost(k: Pos)
    ensures var t := Finish(Next(Next(Start(true), Begin([])), Callback([k], [])));
            t.local == [k] && t.cells == Listing([])
  {
    FinishBlanks(Next(Next(Start(true), Begin([])), Callback([k], [])));
  }

  /** On a build without a display, any key held is lost to the next remote change, even one that releases a key. */
  lemma KeyIsWiped(k: Pos)
    ensures var t := Finish(Next(Next(Start(false), Callback([k], [])), Begin([])));
            t.local == [k] && t.cells == Listing([])
  {
    FinishBlanks(Next(Next(Start(false), Callback([k], [])), Begin([])));
  }
}
