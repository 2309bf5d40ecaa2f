/** The press arrays the scan callback publishes, and the merge of the remote half into them. */
module MatrixScan {
  import opened HalfBitmap
  import opened Wrappers

  const MAX_REPORT_KEYS := 6
  const INVALID_KEY_POS: byte := 0xFF
  const TEST_TIMEOUT_MS := 30000

  datatype Pos = Pos(row: byte, col: byte)

  /** The keys of a report that lie inside the matrix, in press order. */
  function InGrid(keys: seq<Pos>, rows: nat, cols: nat): seq<Pos> {
    if keys == [] then []
    else
      var last := keys[|keys| - 1];
      InGrid(keys[..|keys| - 1], rows, cols) + (if last.row < rows && last.col < cols then [last] else [])
  }

  /** The remote half's keys in row-major order up to cell (r, c), its columns following the local ones. */
  function RemoteUpTo(remote: set<Pos>, cols: byte, r: nat, c: nat): seq<Pos>
    requires c <= cols && r <= 256 && 2 * cols <= 256
    decreases r, c
  {
    if c > 0 then
      RemoteUpTo(remote, cols, r, c - 1)
      + (if r < 256 && Pos(r, c - 1) in remote then [Pos(r, c - 1 + cols)] else [])
    else if r > 0 then RemoteUpTo(remote, cols, r - 1, cols)
    else []
  }

  /** The cells of the matrix that a report presses. */
  function Pressed(keys: seq<Pos>, rows: nat, cols: nat): set<Pos> {
    set k | k in keys && k.row < rows && k.col < cols
  }

  lemma PressedGrows(keys: seq<Pos>, rows: nat, cols: nat)
    requires keys != []
    ensures var last := keys[|keys| - 1];
            Pressed(keys, rows, cols)
            == Pressed(keys[..|keys| - 1], rows, cols) + if last.row < rows && last.col < cols then {last} else {}
  {
    var front, last := keys[..|keys| - 1], keys[|keys| - 1];
    assert keys == front + [last];
  }

  function FirstSix(keys: seq<Pos>): seq<Pos> {
    if |keys| <= MAX_REPORT_KEYS then keys else keys[..MAX_REPORT_KEYS]
  }

  /** How many of these keys were not pressed before. */
  function CountNew(keys: seq<Pos>, before: set<Pos>): nat {
    if keys == [] then 0
    else CountNew(keys[..|keys| - 1], before) + if keys[|keys| - 1] in before then 0 else 1
  }

  /** A cell that changed, and its new level. */
  datatype Change = Change(at: Pos, pressed: bool)

  /** The changes in row-major order up to cell (r, c). */
  function ChangesUpTo(before: set<Pos>, after: set<Pos>, cols: byte, r: nat, c: nat): seq<Change>
    requires c <= cols && r <= 256
    decreases r, c
  {
    if c > 0 then
      ChangesUpTo(before, after, cols, r, c - 1)
      + (if r < 256 && (Pos(r, c - 1) in before) != (Pos(r, c - 1) in after)
         then [Change(Pos(r, c - 1), Pos(r, c - 1) in after)] else [])
    else if r > 0 then ChangesUpTo(before, after, cols, r - 1, cols)
    else []
  }

  /** The changes told are the cells whose level differs, with their new level. */
  lemma {:induction false} ChangesAreDifferences(before: set<Pos>, after: set<Pos>, cols: byte, r: nat, c: nat)
    requires c <= cols && r <= 255
    ensures forall x :: x in ChangesUpTo(before, after, cols, r, c) <==>
              && (x.at.row < r || (x.at.row == r && x.at.col < c)) && x.at.col < cols
              && (x.at in before) != (x.at in after) && x.pressed == (x.at in after)
    decreases r, c
  {
    if c > 0 {
      ChangesAreDifferences(before, after, cols, r, c - 1);
    } else if r > 0 {
      ChangesAreDifferences(before, after, cols, r - 1, cols);
    }
  }

  lemma {:induction false} InGridGrows(keys: seq<Pos>, rows: nat, cols: nat, i: nat)
    requires i <= |keys|
    ensures InGrid(keys[..i], rows, cols) <= InGrid(keys, rows, cols)
    decreases |keys|
  {
    if i < |keys| {
      assert keys[..|keys| - 1][..i] == keys[..i];
      InGridGrows(keys[..|keys| - 1], rows, cols, i);
    } else {
      assert keys[..i] == keys;
    }
  }

  ghost predicate Increasing(s: seq<nat>) { forall i, j :: 0 <= i < j < |s| ==> s[i] < s[j] }

  predicate Inside(k: Pos, rows: nat, cols: nat) { k.row < rows && k.col < cols }

  /** Entry i of `shown` is key `at[i]` of the report. */
  ghost predicate PickedAt(keys: seq<Pos>, shown: seq<Pos>, at: seq<nat>) {
    |at| == |shown| && forall i :: 0 <= i < |at| ==> at[i] < |keys| && shown[i] == keys[at[i]]
  }

  ghost predicate NoneLeftOut(keys: seq<Pos>, rows: nat, cols: nat, at: seq<nat>) {
    forall k :: 0 <= k < |keys| ==> (k in at <==> Inside(keys[k], rows, cols))
  }

  lemma PickedGrows(keys: seq<Pos>, shown: seq<Pos>, at: seq<nat>)
    requires keys != [] && PickedAt(keys[..|keys| - 1], shown, at) && Increasing(at)
    ensures PickedAt(keys, shown, at) && |keys| - 1 !in at
    ensures PickedAt(keys, shown + [keys[|keys| - 1]], at + [|keys| - 1]) && Increasing(at + [|keys| - 1])
  {
  }

  lemma LeftOutGrows(keys: seq<Pos>, rows: nat, cols: nat, at: seq<nat>)
    requires keys != [] && NoneLeftOut(keys[..|keys| - 1], rows, cols, at) && |keys| - 1 !in at
    ensures NoneLeftOut(keys, rows, cols, if Inside(keys[|keys| - 1], rows, cols) then at + [|keys| - 1] else at)
  {
    hide Inside;
    assert forall k :: 0 <= k < |keys| - 1 ==> keys[..|keys| - 1][k] == keys[k];
  }

  /** What is published are the reported keys inside the matrix, in the order of the report and none left out. */
  lemma {:induction false} InGridIsFilter(keys: seq<Pos>, rows: nat, cols: nat) returns (at: seq<nat>)
    ensures PickedAt(keys, InGrid(keys, rows, cols), at) && Increasing(at) && NoneLeftOut(keys, rows, cols, at)
  {
    hide PickedAt, Increasing, NoneLeftOut;
    at := [];
    if keys == [] {
      NothingPicked(rows, cols);
    } else {
      var n := |keys| - 1;
      at := InGridIsFilter(keys[..n], rows, cols);
      PickedGrows(keys, InGrid(keys[..n], rows, cols), at);
      LeftOutGrows(keys, rows, cols, at);
      if Inside(keys[n], rows, cols) {
        at := at + [n];
      } else {
        assert InGrid(keys, rows, cols) == InGrid(keys[..n], rows, cols);
      }
    }
  }

  lemma NothingPicked(rows: nat, cols: nat)
    ensures PickedAt([], [], []) && Increasing([]) && NoneLeftOut([], rows, cols, [])
  {
  }

  /** The number newly pressed counts the places of the keys that were not pressed before. */
  lemma {:induction false} CountsNewKeys(keys: seq<Pos>, before: set<Pos>)
    ensures CountNew(keys, before) == |set i | 0 <= i < |keys| && keys[i] !in before|
  {
    var unpressed := set i | 0 <= i < |keys| && keys[i] !in before;
    if keys != [] {
      var n := |keys| - 1;
      CountsNewKeys(keys[..n], before);
      var less := set i | 0 <= i < n && keys[..n][i] !in before;
      assert unpressed == less + if keys[n] in before then {} else {n};
    } else {
      assert unpressed == {};
    }
  }

  ghost predicate RowMajor(s: seq<Pos>) {
    forall i, j :: 0 <= i < j < |s| ==> s[i].row < s[j].row || (s[i].row == s[j].row && s[i].col < s[j].col)
  }

  /** A key of the remote half before cell (r, c), shown `cols` columns further. */
  predicate Shifted(remote: set<Pos>, cols: byte, r: nat, c: nat, k: Pos) {
    && cols <= k.col < 2 * cols && (k.row < r || (k.row == r && k.col < cols + c))
    && Pos(k.row, k.col - cols) in remote
  }

  lemma ShiftedNext(remote: set<Pos>, cols: byte, r: nat, c: nat, k: Pos)
    requires c < cols && r <= 255 && 2 * cols <= 256
    ensures Shifted(remote, cols, r, c + 1, k) <==>
            Shifted(remote, cols, r, c, k) || (k == Pos(r, c + cols) && Pos(r, c) in remote)
    ensures Shifted(remote, cols, r, c, k) ==> k.row < r || (k.row == r && k.col < c + cols)
  {
  }

  lemma ShiftedRowEnds(remote: set<Pos>, cols: byte, r: nat, k: Pos)
    ensures Shifted(remote, cols, r + 1, 0, k) <==> Shifted(remote, cols, r, cols, k)
  {
  }

  lemma RowMajorSnoc(s: seq<Pos>, k: Pos)
    requires RowMajor(s) && forall x :: x in s ==> x.row < k.row || (x.row == k.row && x.col < k.col)
    ensures RowMajor(s + [k])
  {
    assert forall i :: 0 <= i < |s| ==> s[i] in s;
  }

  /** The merged keys are the remote half's inside the matrix, each shown `cols` columns further, in row-major order. */
  lemma {:induction false} RemoteInOrder(remote: set<Pos>, cols: byte, r: nat, c: nat)
    requires c <= cols && r <= 255 && 2 * cols <= 256
    ensures RowMajor(RemoteUpTo(remote, cols, r, c))
    ensures forall k :: k in RemoteUpTo(remote, cols, r, c) <==> Shifted(remote, cols, r, c, k)
    decreases r, c
  {
    hide Shifted;
    if c > 0 {
      RemoteInOrder(remote, cols, r, c - 1);
      var front, k := RemoteUpTo(remote, cols, r, c - 1), Pos(r, c - 1 + cols);
      forall x
        ensures Shifted(remote, cols, r, c, x) <==>
                Shifted(remote, cols, r, c - 1, x) || (x == k && Pos(r, c - 1) in remote)
        ensures x in front ==> x.row < k.row || (x.row == k.row && x.col < k.col)
      {
        ShiftedNext(remote, cols, r, c - 1, x);
      }
      RowMajorSnoc(front, k);
      hide RowMajor;
    } else if r > 0 {
      RemoteInOrder(remote, cols, r - 1, cols);
      forall k
        ensures Shifted(remote, cols, r, 0, k) <==> Shifted(remote, cols, r - 1, cols, k)
      {
        ShiftedRowEnds(remote, cols, r - 1, k);
      }
      hide RowMajor;
    } else {
      NothingShifted(remote, cols);
    }
  }

  lemma NothingShifted(remote: set<Pos>, cols: byte)
    ensures forall k :: !Shifted(remote, cols, 0, 0, k)
  {
  }

  lemma NothingYet(rows: nat, cols: nat, before: set<Pos>)
    ensures InGrid([], rows, cols) == [] && CountNew([], before) == 0
  {
  }

  lemma InGridNext(keys: seq<Pos>, rows: nat, cols: nat, i: nat)
    requires i < |keys|
    ensures InGrid(keys[..i + 1], rows, cols)
            == InGrid(keys[..i], rows, cols) + if keys[i].row < rows && keys[i].col < cols then [keys[i]] else []
    ensures !(keys[i].row < rows && keys[i].col < cols) ==>
              InGrid(keys[..i + 1], rows, cols) == InGrid(keys[..i], rows, cols)
  {
    assert keys[..i + 1][..i] == keys[..i];
  }

  lemma CountNext(keys: seq<Pos>, k: Pos, before: set<Pos>)
    ensures CountNew(keys + [k], before) == CountNew(keys, before) + if k in before then 0 else 1
  {
    assert (keys + [k])[..|keys|] == keys;
  }

  lemma SixReached(keys: seq<Pos>, rows: nat, cols: nat, i: nat)
    requires i <= |keys| && |InGrid(keys[..i], rows, cols)| <= MAX_REPORT_KEYS
    requires i == |keys| || |InGrid(keys[..i], rows, cols)| == MAX_REPORT_KEYS
    ensures InGrid(keys[..i], rows, cols) == FirstSix(InGrid(keys, rows, cols))
  {
    InGridGrows(keys, rows, cols, i);
    assert keys[..|keys|] == keys;
  }

  lemma {:induction false} RemoteGrows(remote: set<Pos>, cols: byte, r: nat, c: nat, r2: nat, c2: nat)
    requires c <= cols && c2 <= cols && r <= 256 && r2 <= 256 && 2 * cols <= 256
    requires r < r2 || (r == r2 && c <= c2)
    ensures RemoteUpTo(remote, cols, r, c) <= RemoteUpTo(remote, cols, r2, c2)
    decreases r2, c2
  {
    if r == r2 && c == c2 {
    } else if c2 > 0 {
      RemoteGrows(remote, cols, r, c, r2, c2 - 1);
    } else {
      RemoteGrows(remote, cols, r, c, r2 - 1, cols);
    }
  }

  /** The bitmap is read back as exactly these keys, cell by cell. */
  ghost predicate Carries(bitmap: seq<bv8>, state: set<Pos>) {
    && |bitmap| == BITMAP_BYTES
    && (forall r: byte, c: byte :: InHalf(r, c) ==> (Held(bitmap, r, c) <==> Pos(r, c) in state))
    && forall k :: k in state ==> InHalf(k.row, k.col)
  }

  class Scanner {
    const rows: byte
    const cols: byte
    const display: bool          // the build has a display
    const remoteHalf: bool       // the build receives the other half
    const transmits: bool        // the build is the half that sends its keys
    const row: array<byte>
    const col: array<byte>
    const stat: array<byte>
    var filledLocal: nat
    var flag: byte
    var matrix: set<Pos>
    var previous: set<Pos>
    var testMode: bool
    var testActivity: u32

    ghost predicate Valid()
      reads this
    {
      && row.Length == col.Length == stat.Length == MAX_REPORT_KEYS
      && row != col && row != stat && col != stat
      && 2 * cols <= 256 && filledLocal <= MAX_REPORT_KEYS
      && (transmits ==> rows <= HALF_ROWS && cols <= HALF_COLS)
    }

    /** The arrays list exactly `keys`; the other entries are blank. */
    ghost predicate Shows(keys: seq<Pos>)
      requires Valid()
      reads this, row, col, stat
    {
      && |keys| <= MAX_REPORT_KEYS
      && (forall i :: 0 <= i < |keys| ==> row[i] == keys[i].row && col[i] == keys[i].col && stat[i] == 1)
      && (forall i :: |keys| <= i < MAX_REPORT_KEYS ==>
            row[i] == INVALID_KEY_POS && col[i] == INVALID_KEY_POS && stat[i] == 0)
    }

    constructor (rows: byte, cols: byte, display: bool, remoteHalf: bool, transmits: bool)
      requires 2 * cols <= 256 && (transmits ==> rows <= HALF_ROWS && cols <= HALF_COLS)
      ensures Valid() && this.rows == rows && this.cols == cols
      ensures this.display == display && this.remoteHalf == remoteHalf && this.transmits == transmits
      ensures Shows([]) && flag == 0 && matrix == previous == {} && !testMode && filledLocal == 0
      ensures fresh(row) && fresh(col) && fresh(stat)
    {
      this.rows, this.cols := rows, cols;
      this.display, this.remoteHalf, this.transmits := display, remoteHalf, transmits;
      filledLocal, flag, matrix, previous, testMode, testActivity := 0, 0, {}, {}, false, 0;
      row := new byte[MAX_REPORT_KEYS](_ => INVALID_KEY_POS);
      col := new byte[MAX_REPORT_KEYS](_ => INVALID_KEY_POS);
      stat := new byte[MAX_REPORT_KEYS](_ => 0);
    }

    method Blank(start: nat)
      requires Valid() && start <= MAX_REPORT_KEYS
      modifies row, col, stat
      ensures forall i :: start <= i < MAX_REPORT_KEYS ==>
                row[i] == INVALID_KEY_POS && col[i] == INVALID_KEY_POS && stat[i] == 0
      ensures forall i :: 0 <= i < start ==> row[i] == old(row[i]) && col[i] == old(col[i]) && stat[i] == old(stat[i])
    {
      for i := start to MAX_REPORT_KEYS
        invariant forall j :: start <= j < i ==> row[j] == INVALID_KEY_POS && col[j] == INVALID_KEY_POS && stat[j] == 0
        invariant forall j :: 0 <= j < start ==>
                    row[j] == old(row[j]) && col[j] == old(col[j]) && stat[j] == old(stat[j])
      {
        row[i], col[i], stat[i] := INVALID_KEY_POS, INVALID_KEY_POS, 0;
      }
    }

    method Append(filled: nat, k: Pos, ghost shown: seq<Pos>)
      requires Valid() && Shows(shown) && filled == |shown| < MAX_REPORT_KEYS
      modifies row, col, stat
      ensures Shows(shown + [k])
      ensures forall i :: 0 <= i < filled ==> row[i] == old(row[i]) && col[i] == old(col[i]) && stat[i] == old(stat[i])
    {
      row[filled], col[filled], stat[filled] := k.row, k.col, 1;
    }

    /** `matrix_flag_signal`. */
    method Signal()
      modifies this`flag
      ensures flag == 1
    {
      flag := 1;
    }

    /** `matrix_flag_take`: test and clear. */
    method Take() returns (work: bool)
      modifies this`flag
      ensures work == (old(flag) != 0) && flag == 0
    {
      if flag == 0 { return false; }
      flag := 0;
      return true;
    }

    /** The matrix as the report gives it; keys outside the grid are ignored. */
    method ReadReport(keys: seq<Pos>) returns (state: set<Pos>)
      ensures state == Pressed(keys, rows, cols)
    {
      state := {};
      for i := 0 to |keys|
        invariant state == Pressed(keys[..i], rows, cols)
      {
        assert keys[..i + 1][..i] == keys[..i];
        PressedGrows(keys[..i + 1], rows, cols);
        if keys[i].row < rows && keys[i].col < cols { state := state + {keys[i]}; }
      }
      assert keys[..|keys|] == keys;
    }

    /** The keys of this half as a bitmap. */
    method Pack(state: set<Pos>) returns (bitmap: seq<bv8>)
      requires rows <= HALF_ROWS && cols <= HALF_COLS && forall k :: k in state ==> k.row < rows && k.col < cols
      ensures Carries(bitmap, state)
    {
      hide Held;
      var bm := new bv8[BITMAP_BYTES](_ => 0);
      assert bm[..] == [0, 0, 0, 0];
      NothingHeld(bm[..]);
      for r := 0 to rows
        invariant forall x: byte, y: byte :: InHalf(x, y) ==> (Held(bm[..], x, y) <==> x < r && Pos(x, y) in state)
      {
        for c := 0 to cols
          invariant forall x: byte, y: byte :: InHalf(x, y) ==>
                      (Held(bm[..], x, y) <==> (x < r || (x == r && y < c)) && Pos(x, y) in state)
        {
          if Pos(r, c) in state { Press(bm, r, c); }
        }
      }
      bitmap := bm[..];
    }

    /** Test mode: every changed cell is told to the host, and nothing else happens. */
    method TellChanges(state: set<Pos>) returns (changes: seq<Change>)
      ensures changes == ChangesUpTo(previous, state, cols, rows, 0)
    {
      changes := [];
      for r := 0 to rows
        invariant changes == ChangesUpTo(previous, state, cols, r, 0)
      {
        for c := 0 to cols
          invariant changes == ChangesUpTo(previous, state, cols, r, c)
        {
          if (Pos(r, c) in previous) != (Pos(r, c) in state) {
            changes := changes + [Change(Pos(r, c), Pos(r, c) in state)];
          }
        }
      }
    }

    /** The first six keys inside the matrix, and how many of them are newly pressed. */
    method Publish(keys: seq<Pos>) returns (filled: nat, pressed: nat)
      requires Valid()
      modifies row, col, stat
      ensures Valid() && Shows(FirstSix(InGrid(keys, rows, cols))) && filled == |FirstSix(InGrid(keys, rows, cols))|
      ensures pressed == CountNew(FirstSix(InGrid(keys, rows, cols)), previous)
    {
      hide InGrid, CountNew;
      Blank(0);
      filled, pressed := 0, 0;
      var i := 0;
      NothingYet(rows, cols, previous);
      assert keys[..0] == [];
      while i < |keys| && filled < MAX_REPORT_KEYS
        invariant Valid() && 0 <= i <= |keys| && filled == |InGrid(keys[..i], rows, cols)| <= MAX_REPORT_KEYS
        invariant Shows(InGrid(keys[..i], rows, cols)) && pressed == CountNew(InGrid(keys[..i], rows, cols), previous)
      {
        var k := keys[i];
        ghost var shown := InGrid(keys[..i], rows, cols);
        InGridNext(keys, rows, cols, i);
        if k.row < rows && k.col < cols {
          CountNext(shown, k, previous);
          if k !in previous { pressed := pressed + 1; }
          Append(filled, k, shown);
          filled := filled + 1;
        }
        i := i + 1;
      }
      SixReached(keys, rows, cols, i);
    }

    /** Normal mode: the local keys, and behind them the remote ones on builds with a remote half and a display. */
    method ListKeys(keys: seq<Pos>, remote: set<Pos>) returns (pressed: nat)
      requires Valid()
      modifies this`filledLocal, row, col, stat
      ensures var local := FirstSix(InGrid(keys, rows, cols));
              && Valid() && pressed == CountNew(local, previous)
              && (display && remoteHalf ==>
                    filledLocal == |local| && Shows(FirstSix(local + RemoteUpTo(remote, cols, rows, 0))))
              && (!(display && remoteHalf) ==> filledLocal == old(filledLocal) && Shows(local))
    {
      hide InGrid, RemoteUpTo, CountNew;
      var filled;
      filled, pressed := Publish(keys);
      if display && remoteHalf {
        filledLocal := filled;
        LocalIsShown(FirstSix(InGrid(keys, rows, cols)));
        ApplyRemote(remote);
      }
    }

    method Transmit(ghost keys: seq<Pos>, state: set<Pos>) returns (sent: Option<seq<bv8>>)
      requires Valid() && state == Pressed(keys, rows, cols)
      ensures sent.Some? <==> transmits && state != previous
      ensures sent.Some? ==> Carries(sent.value, state)
    {
      if !transmits || state == previous { return None; }
      var bitmap := Pack(state);
      return Some(bitmap);
    }

    /** The scan callback. The transmitting half sends its keys whenever they changed. In test mode, until it has been
        idle for 30 s, changes only go to the host. Otherwise the keys are published, the remote half is merged in on
        builds that have one and a display, and the signal comes last. */
    method Callback(keys: seq<Pos>, remote: set<Pos>, now: u32)
        returns (sent: Option<seq<bv8>>, changes: seq<Change>, pressed: nat)
      requires Valid()
      modifies this`filledLocal, this`flag, this`matrix, this`previous, this`testMode, this`testActivity, row, col, stat
      ensures Valid() && previous == Pressed(keys, rows, cols)
      ensures sent.Some? <==> transmits && previous != old(previous)
      ensures sent.Some? ==> Carries(sent.value, previous)
      ensures testMode == (old(testMode) && Elapsed(now, old(testActivity)) <= TEST_TIMEOUT_MS)
      ensures testMode ==>
                && changes == ChangesUpTo(old(previous), previous, cols, rows, 0) && pressed == 0
                && row[..] == old(row[..]) && col[..] == old(col[..]) && stat[..] == old(stat[..])
                && flag == old(flag) && matrix == old(matrix) && filledLocal == old(filledLocal)
                && testActivity == if changes == [] then old(testActivity) else now
      ensures !testMode ==>
                var local := FirstSix(InGrid(keys, rows, cols));
                && changes == [] && pressed == CountNew(local, old(previous)) && matrix == previous && flag == 1
                && (display && remoteHalf ==>
                      filledLocal == |local| && Shows(FirstSix(local + RemoteUpTo(remote, cols, rows, 0))))
                && (!(display && remoteHalf) ==> filledLocal == old(filledLocal) && Shows(local))
    {
      hide InGrid, RemoteUpTo, ChangesUpTo, CountNew, Carries, Pressed;
      changes, pressed := [], 0;
      var state := ReadReport(keys);
      sent := Transmit(keys, state);
      if testMode {
        if Elapsed(now, testActivity) > TEST_TIMEOUT_MS {
          testMode := false;
        } else {
          changes := TellChanges(state);
          if changes != [] { testActivity := now; }
          previous := state;
          return;
        }
      }
      matrix := state;
      pressed := ListKeys(keys, remote);
      previous := state;
      Signal();
    }

    ghost function Local(): seq<Pos>
      requires Valid()
      reads this, row, col
    {
      seq(filledLocal, i requires 0 <= i < filledLocal reads this, row, col
                       requires row.Length == col.Length == MAX_REPORT_KEYS && filledLocal <= MAX_REPORT_KEYS
                       => Pos(row[i], col[i]))
    }

    lemma LocalIsShown(keys: seq<Pos>)
      requires Valid() && Shows(keys) && filledLocal == |keys|
      ensures Local() == keys
    {
    }

    /** One row of the merge, up to six keys in all. */
    method ApplyRow(remote: set<Pos>, r: byte, filled: nat, ghost local: seq<Pos>)
        returns (newFilled: nat, ghost c: nat)
      requires Valid() && r < rows && filled == |local| + |RemoteUpTo(remote, cols, r, 0)| < MAX_REPORT_KEYS
      requires Shows(local + RemoteUpTo(remote, cols, r, 0))
      modifies row, col, stat
      ensures Valid() && c <= cols && newFilled == |local| + |RemoteUpTo(remote, cols, r, c)| <= MAX_REPORT_KEYS
      ensures Shows(local + RemoteUpTo(remote, cols, r, c)) && (c < cols ==> newFilled == MAX_REPORT_KEYS)
    {
      hide RemoteUpTo;
      newFilled, c := filled, 0;
      var j := 0;
      while j < cols && newFilled < MAX_REPORT_KEYS
        invariant c == j <= cols && newFilled == |local| + |RemoteUpTo(remote, cols, r, c)| <= MAX_REPORT_KEYS
        invariant Shows(local + RemoteUpTo(remote, cols, r, c))
      {
        ghost var before := RemoteUpTo(remote, cols, r, c);
        RemoteNext(remote, cols, r, c);
        if Pos(r, j) in remote {
          Append(newFilled, Pos(r, j + cols), local + before);
          assert local + before + [Pos(r, j + cols)] == local + (before + [Pos(r, j + cols)]);
          newFilled := newFilled + 1;
        } else {
          assert before + [] == before;
        }
        j, c := j + 1, c + 1;
      }
    }

    /** The merge of the remote half. It rebuilds everything past the local keys, so it may be called at any rate. */
    method ApplyRemote(remote: set<Pos>)
      requires Valid() && forall i :: 0 <= i < filledLocal ==> stat[i] == 1
      modifies row, col, stat
      ensures Valid() && Local() == old(Local()) && forall i :: 0 <= i < filledLocal ==> stat[i] == 1
      ensures Shows(FirstSix(old(Local()) + RemoteUpTo(remote, cols, rows, 0)))
    {
      hide RemoteUpTo, FirstSix;
      ghost var local := Local();
      RemoteNothing(remote, cols);
      var filled := filledLocal;
      Blank(filled);
      assert Shows(local) && local + [] == local;
      var r := 0;
      while r < rows && filled < MAX_REPORT_KEYS
        invariant 0 <= r <= rows && filled == |local| + |RemoteUpTo(remote, cols, r, 0)| <= MAX_REPORT_KEYS
        invariant Shows(local + RemoteUpTo(remote, cols, r, 0))
      {
        ghost var c;
        filled, c := ApplyRow(remote, r, filled, local);
        if filled == MAX_REPORT_KEYS {
          RemoteGrows(remote, cols, r, c, rows, 0);
          StopsAtSix(local, RemoteUpTo(remote, cols, r, c), RemoteUpTo(remote, cols, rows, 0));
          return;
        }
        RemoteRowEnds(remote, cols, r);
        r := r + 1;
      }
      RemoteGrows(remote, cols, r, 0, rows, 0);
      AllUnlessSix(local, RemoteUpTo(remote, cols, r, 0), RemoteUpTo(remote, cols, rows, 0), r == rows);
    }
  }

  lemma AllUnlessSix(local: seq<Pos>, part: seq<Pos>, all: seq<Pos>, done: bool)
    requires part <= all && |local| + |part| <= MAX_REPORT_KEYS
    requires if done then part == all else |local| + |part| == MAX_REPORT_KEYS
    ensures FirstSix(local + all) == local + part
  {
  }

  lemma RemoteNothing(remote: set<Pos>, cols: byte)
    requires 2 * cols <= 256
    ensures RemoteUpTo(remote, cols, 0, 0) == []
  {
  }

  lemma RemoteNext(remote: set<Pos>, cols: byte, r: nat, c: nat)
    requires r < 256 && c < cols && 2 * cols <= 256
    ensures RemoteUpTo(remote, cols, r, c + 1)
            == RemoteUpTo(remote, cols, r, c) + if Pos(r, c) in remote then [Pos(r, c + cols)] else []
  {
  }

  lemma RemoteRowEnds(remote: set<Pos>, cols: byte, r: nat)
    requires r < 256 && 2 * cols <= 256
    ensures RemoteUpTo(remote, cols, r + 1, 0) == RemoteUpTo(remote, cols, r, cols)
  {
  }

  lemma StopsAtSix(local: seq<Pos>, part: seq<Pos>, all: seq<Pos>)
    requires part <= all && |local| + |part| == MAX_REPORT_KEYS
    ensures FirstSix(local + all) == local + part
  {
  }
}
