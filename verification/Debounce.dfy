/** The debouncing scan: the level of every cell, and the compact list of pressed keys kept beside it. */
module Debounce {
  import opened Wrappers

  // ---- One cell ----

  datatype Cell = Cell(level: bool, cnt: byte)

  /** Increment of an eight-bit counter. */
  function Inc8(n: byte): byte { if n == 255 then 0 else n + 1 }

  /** One read of a cell. */
  function Tick(c: Cell, pressed: bool, ticks: nat): Cell {
    if pressed == c.level then c.(cnt := 0)
    else if Inc8(c.cnt) >= ticks then Cell(!c.level, 0)
    else c.(cnt := Inc8(c.cnt))
  }

  function After(samples: seq<bool>, ticks: nat): Cell {
    if samples == [] then Cell(false, 0)
    else Tick(After(samples[..|samples| - 1], ticks), samples[|samples| - 1], ticks)
  }

  // The cell once `t` reads are in.
  function At(samples: seq<bool>, ticks: nat, t: nat): Cell
    requires t <= |samples|
  {
    After(samples[..t], ticks)
  }

  /** Over the last `n` reads before time `t` the level stood still and every read disagreed with it. */
  ghost predicate Disagrees(samples: seq<bool>, ticks: nat, t: nat, n: nat)
    requires n <= t <= |samples|
  {
    forall u :: t - n <= u < t ==>
      At(samples, ticks, u).level == At(samples, ticks, t - n).level && samples[u] != At(samples, ticks, t - n).level
  }

  lemma OneRead(samples: seq<bool>, ticks: nat, t: nat)
    requires 0 < t <= |samples|
    ensures At(samples, ticks, t) == Tick(At(samples, ticks, t - 1), samples[t - 1], ticks)
  {
    assert samples[..t][..t - 1] == samples[..t - 1];
  }

  /** The counter is the length of the longest run of disagreement that ends at time `t`. */
  ghost predicate CounterIsRun(samples: seq<bool>, ticks: nat, t: nat)
    requires t <= |samples|
  {
    var c := At(samples, ticks, t);
    && c.cnt <= t && c.cnt < ticks
    && Disagrees(samples, ticks, t, c.cnt)
    && At(samples, ticks, t - c.cnt).level == c.level
    && (c.cnt < t ==> At(samples, ticks, t - c.cnt - 1).level != c.level || samples[t - c.cnt - 1] == c.level)
  }

  lemma RunContinues(samples: seq<bool>, ticks: nat, t: nat)
    requires 0 < t <= |samples| && 1 <= ticks <= 255 && CounterIsRun(samples, ticks, t - 1)
    requires At(samples, ticks, t).cnt > 0
    ensures CounterIsRun(samples, ticks, t)
  {
    OneRead(samples, ticks, t);
    hide At;
    hide Disagrees;
    var p, c := At(samples, ticks, t - 1), At(samples, ticks, t);
    assert c.cnt == p.cnt + 1 && c.level == p.level != samples[t - 1] && t - c.cnt == t - 1 - p.cnt;
    RunGrows(samples, ticks, t - 1, p.cnt);
  }

  lemma {:induction false} CounterFollowsRun(samples: seq<bool>, ticks: nat, t: nat)
    requires t <= |samples| && 1 <= ticks <= 255
    ensures CounterIsRun(samples, ticks, t)
    decreases t
  {
    if t == 0 {
      NoRun(samples, ticks, t);
    } else {
      CounterFollowsRun(samples, ticks, t - 1);
      if At(samples, ticks, t).cnt > 0 {
        RunContinues(samples, ticks, t);
      } else {
        OneRead(samples, ticks, t);
        NoRun(samples, ticks, t);
      }
    }
  }

  lemma NoRun(samples: seq<bool>, ticks: nat, t: nat)
    requires t <= |samples|
    ensures Disagrees(samples, ticks, t, 0)
  {
  }

  lemma RunGrows(samples: seq<bool>, ticks: nat, t: nat, n: nat)
    requires n <= t < |samples| && Disagrees(samples, ticks, t, n)
    requires At(samples, ticks, t).level == At(samples, ticks, t - n).level != samples[t]
    ensures Disagrees(samples, ticks, t + 1, n + 1)
  {
    hide At;
    assert t + 1 - (n + 1) == t - n;
  }

  lemma DisagreesAt(samples: seq<bool>, ticks: nat, t: nat, n: nat, u: int)
    requires n <= t <= |samples| && Disagrees(samples, ticks, t, n) && t - n <= u < t
    ensures At(samples, ticks, u).level == At(samples, ticks, t - n).level != samples[u]
  {
    hide At;
  }

  // A stable disagreement of `ticks` reads ends with a full counter.
  lemma FullCounter(samples: seq<bool>, ticks: nat, t: nat)
    requires ticks <= t <= |samples| && 1 <= ticks <= 255 && Disagrees(samples, ticks, t, ticks)
    ensures At(samples, ticks, t - 1).cnt + 1 == ticks && samples[t - 1] != At(samples, ticks, t - 1).level
  {
    hide At;
    CounterFollowsRun(samples, ticks, t - 1);
    DisagreesAt(samples, ticks, t, ticks, t - 1);
    var cnt := At(samples, ticks, t - 1).cnt;
    if cnt + 1 < ticks {
      DisagreesAt(samples, ticks, t, ticks, t - 2 - cnt);
      assert false;
    }
  }

  /** A cell flips exactly when the last `ticks` reads all disagreed with a level that stood still meanwhile. */
  lemma FlipsAfterStableDisagreement(samples: seq<bool>, ticks: nat, t: nat)
    requires 0 < t <= |samples| && 1 <= ticks <= 255
    ensures At(samples, ticks, t).level != At(samples, ticks, t - 1).level <==>
            ticks <= t && Disagrees(samples, ticks, t, ticks)
  {
    OneRead(samples, ticks, t);
    CounterFollowsRun(samples, ticks, t - 1);
    hide At;
    hide Disagrees;
    if ticks <= t && Disagrees(samples, ticks, t, ticks) {
      FullCounter(samples, ticks, t);
    } else if At(samples, ticks, t).level != At(samples, ticks, t - 1).level {
      RunGrows(samples, ticks, t - 1, At(samples, ticks, t - 1).cnt);
      assert false;
    }
  }

  /** Past 255 the eight-bit counter can never reach the threshold: the keyboard would be dead. */
  lemma {:induction false} LargeThresholdFreezes(samples: seq<bool>, ticks: nat)
    requires ticks >= 256
    ensures !After(samples, ticks).level
  {
    if samples != [] { LargeThresholdFreezes(samples[..|samples| - 1], ticks); }
  }

  // ---- The whole matrix ----

  /** Cells in scan order, the pressed keys in press order, and the keys released by the current scan. */
  datatype Board = Board(cells: seq<Cell>, keys: seq<nat>, released: seq<nat>)

  function Without(keys: seq<nat>, k: nat): seq<nat> {
    if keys == [] then []
    else if keys[0] == k then keys[1..]
    else [keys[0]] + Without(keys[1..], k)
  }

  function Visit(b: Board, k: nat, pressed: bool, ticks: nat): Board
    requires k < |b.cells|
  {
    var c := Tick(b.cells[k], pressed, ticks);
    var d := b.(cells := b.cells[k := c]);
    if c.level == b.cells[k].level then d
    else if c.level then d.(keys := b.keys + [k])
    else d.(keys := Without(b.keys, k), released := b.released + [k])
  }

  function ScanUpTo(b: Board, samples: seq<bool>, ticks: nat, k: nat): (r: Board)
    requires k <= |samples| == |b.cells|
    ensures |r.cells| == |b.cells|
  {
    if k == 0 then b.(released := []) else Visit(ScanUpTo(b, samples, ticks, k - 1), k - 1, samples[k - 1], ticks)
  }

  /** One scan of every cell. */
  function Scan(b: Board, samples: seq<bool>, ticks: nat): (r: Board)
    requires |samples| == |b.cells|
    ensures |r.cells| == |b.cells|
  {
    ScanUpTo(b, samples, ticks, |samples|)
  }

  /** The list holds exactly the cells at level 1, each once. */
  ghost predicate Listed(b: Board) {
    Distinct(b.keys) && forall k :: k in b.keys <==> 0 <= k < |b.cells| && b.cells[k].level
  }

  /** Keys of `keys` that are not in `gone`, in the same order. */
  function Surviving(keys: seq<nat>, gone: set<nat>): seq<nat> {
    if keys == [] then []
    else (if keys[0] in gone then [] else [keys[0]]) + Surviving(keys[1..], gone)
  }

  // The cells below `n` whose level became `up`, in scan order.
  function Changed(before: seq<Cell>, after: seq<Cell>, up: bool, n: nat): seq<nat>
    requires n <= |before| == |after|
  {
    if n == 0 then []
    else
      Changed(before, after, up, n - 1)
      + (if before[n - 1].level != up && after[n - 1].level == up then [n - 1] else [])
  }

  lemma {:induction false} SurvivingMembers(keys: seq<nat>, gone: set<nat>)
    ensures forall x :: x in Surviving(keys, gone) <==> x in keys && x !in gone
    ensures Distinct(keys) ==> Distinct(Surviving(keys, gone))
  {
    if keys != [] {
      SurvivingMembers(keys[1..], gone);
      assert keys == [keys[0]] + keys[1..];
    }
  }

  lemma {:induction false} SurvivingConcat(a: seq<nat>, b: seq<nat>, gone: set<nat>)
    ensures Surviving(a + b, gone) == Surviving(a, gone) + Surviving(b, gone)
  {
    if a == [] {
      assert a + b == b;
    } else {
      assert (a + b)[1..] == a[1..] + b;
      SurvivingConcat(a[1..], b, gone);
    }
  }

  lemma {:induction false} SurvivingTwice(keys: seq<nat>, g: set<nat>, h: set<nat>)
    ensures Surviving(Surviving(keys, g), h) == Surviving(keys, g + h)
  {
    if keys != [] {
      SurvivingTwice(keys[1..], g, h);
      SurvivingConcat(if keys[0] in g then [] else [keys[0]], Surviving(keys[1..], g), h);
    }
  }

  lemma {:induction false} AllSurvive(keys: seq<nat>, gone: set<nat>)
    requires forall x :: x in keys ==> x !in gone
    ensures Surviving(keys, gone) == keys
  {
    if keys != [] {
      assert forall x :: x in keys[1..] ==> x in keys;
      AllSurvive(keys[1..], gone);
    }
  }

  lemma {:induction false} WithoutIsSurviving(keys: seq<nat>, k: nat)
    requires Distinct(keys)
    ensures Without(keys, k) == Surviving(keys, {k})
  {
    if keys != [] {
      if keys[0] == k {
        AllSurvive(keys[1..], {k});
      } else {
        WithoutIsSurviving(keys[1..], k);
      }
    }
  }

  lemma VisitKeepsListed(b: Board, k: nat, pressed: bool, ticks: nat)
    requires Listed(b) && k < |b.cells|
    ensures Listed(Visit(b, k, pressed, ticks))
  {
    hide Tick;
    WithoutIsSurviving(b.keys, k);
    SurvivingMembers(b.keys, {k});
  }

  function ToSet(s: seq<nat>): set<nat> { set x | x in s }

  lemma ChangedAgree(before: seq<Cell>, after: seq<Cell>, later: seq<Cell>, up: bool, n: nat)
    requires n <= |before| == |after| == |later|
    requires forall i :: 0 <= i < n ==> after[i] == later[i]
    ensures Changed(before, after, up, n) == Changed(before, later, up, n)
  {
  }

  lemma ChangedBelow(before: seq<Cell>, after: seq<Cell>, up: bool, n: nat)
    requires n <= |before| == |after|
    ensures forall x :: x in Changed(before, after, up, n) <==>
              0 <= x < n && before[x].level != up && after[x].level == up
  {
  }

  // What the first `k` visits of a scan have done to the cells, and to the lists.
  ghost predicate CellsScanned(b: Board, r: Board, samples: seq<bool>, ticks: nat, k: nat)
    requires k <= |samples| == |b.cells|
  {
    && |r.cells| == |b.cells| && Listed(r)
    && (forall i :: 0 <= i < k ==> r.cells[i] == Tick(b.cells[i], samples[i], ticks))
    && (forall i :: k <= i < |b.cells| ==> r.cells[i] == b.cells[i])
  }

  ghost predicate ListsScanned(b: Board, r: Board, k: nat)
    requires k <= |b.cells| == |r.cells|
  {
    && r.released == Changed(b.cells, r.cells, false, k)
    && r.keys == Surviving(b.keys, ToSet(r.released)) + Changed(b.cells, r.cells, true, k)
  }

  ghost predicate Scanned(b: Board, r: Board, samples: seq<bool>, ticks: nat, k: nat)
    requires k <= |samples| == |b.cells|
  {
    CellsScanned(b, r, samples, ticks, k) && ListsScanned(b, r, k)
  }

  lemma ReleaseAdvances(b: Board, r: Board, k: nat)
    requires k < |b.cells| == |r.cells| && ListsScanned(b, r, k) && Distinct(r.keys)
    ensures var gone := r.released + [k];
            Without(r.keys, k) == Surviving(b.keys, ToSet(gone)) + Changed(b.cells, r.cells, true, k)
  {
    var risen := Changed(b.cells, r.cells, true, k);
    ChangedBelow(b.cells, r.cells, true, k);
    WithoutIsSurviving(r.keys, k);
    SurvivingConcat(Surviving(b.keys, ToSet(r.released)), risen, {k});
    SurvivingTwice(b.keys, ToSet(r.released), {k});
    AllSurvive(risen, {k});
    assert ToSet(r.released + [k]) == ToSet(r.released) + {k};
  }

  lemma CellsAdvance(b: Board, r: Board, samples: seq<bool>, ticks: nat, k: nat)
    requires k < |samples| == |b.cells| && CellsScanned(b, r, samples, ticks, k)
    ensures CellsScanned(b, Visit(r, k, samples[k], ticks), samples, ticks, k + 1)
  {
    VisitKeepsListed(r, k, samples[k], ticks);
    hide Tick;
    hide Listed;
  }

  lemma ListsAdvance(b: Board, r: Board, pressed: bool, ticks: nat, k: nat)
    requires k < |b.cells| == |r.cells| && ListsScanned(b, r, k) && Distinct(r.keys) && r.cells[k] == b.cells[k]
    ensures ListsScanned(b, Visit(r, k, pressed, ticks), k + 1)
  {
    hide Tick;
    var t := Visit(r, k, pressed, ticks);
    ChangedAgree(b.cells, r.cells, t.cells, false, k);
    ChangedAgree(b.cells, r.cells, t.cells, true, k);
    ReleaseAdvances(b, r, k);
    hide Surviving;
    hide Without;
  }

  lemma VisitAdvances(b: Board, r: Board, samples: seq<bool>, ticks: nat, k: nat)
    requires k < |samples| == |b.cells| && Scanned(b, r, samples, ticks, k)
    ensures Scanned(b, Visit(r, k, samples[k], ticks), samples, ticks, k + 1)
  {
    CellsAdvance(b, r, samples, ticks, k);
    ListedIsDistinct(r);
    ListsAdvance(b, r, samples[k], ticks, k);
  }

  lemma ListedIsDistinct(b: Board)
    requires Listed(b)
    ensures Distinct(b.keys)
  {
  }

  lemma NothingScanned(b: Board, samples: seq<bool>, ticks: nat)
    requires |samples| == |b.cells| && Listed(b)
    ensures Scanned(b, b.(released := []), samples, ticks, 0)
  {
    ListedIsDistinct(b);
    AllSurvive(b.keys, {});
    assert ToSet([]) == {};
  }

  lemma {:induction false} ScanIsScanned(b: Board, samples: seq<bool>, ticks: nat, k: nat)
    requires k <= |samples| == |b.cells| && Listed(b)
    ensures Scanned(b, ScanUpTo(b, samples, ticks, k), samples, ticks, k)
    decreases k
  {
    hide Visit, Scanned, Listed;
    if k == 0 {
      NothingScanned(b, samples, ticks);
    } else {
      ScanIsScanned(b, samples, ticks, k - 1);
      VisitAdvances(b, ScanUpTo(b, samples, ticks, k - 1), samples, ticks, k - 1);
    }
  }

  /** After a scan: the list agrees with the levels; the keys still held keep their order and the newly pressed follow
      in scan order; the release list is exactly the cells that dropped in this scan. */
  lemma OneScan(b: Board, samples: seq<bool>, ticks: nat)
    requires |samples| == |b.cells| && Listed(b)
    ensures var r := Scan(b, samples, ticks); var n := |samples|;
            && Listed(r)
            && r.released == Changed(b.cells, r.cells, false, n)
            && r.keys == Surviving(b.keys, ToSet(r.released)) + Changed(b.cells, r.cells, true, n)
            && forall i :: 0 <= i < n ==> r.cells[i] == Tick(b.cells[i], samples[i], ticks)
  {
    ScanIsScanned(b, samples, ticks, |samples|);
  }

  // ---- Every run ----

  const RELEASED := Cell(false, 0)

  function Blank(n: nat): Board { Board(seq(n, _ => RELEASED), [], []) }

  function Exec(n: nat, scans: seq<seq<bool>>, ticks: nat): (b: Board)
    requires forall s :: s in scans ==> |s| == n
    ensures |b.cells| == n
  {
    if scans == [] then Blank(n)
    else
      assert scans[|scans| - 1] in scans && forall s :: s in scans[..|scans| - 1] ==> s in scans;
      Scan(Exec(n, scans[..|scans| - 1], ticks), scans[|scans| - 1], ticks)
  }

  /** The reads of one cell over the scans. */
  function Column(scans: seq<seq<bool>>, i: nat): seq<bool>
    requires forall s :: s in scans ==> i < |s|
  {
    if scans == [] then []
    else
      assert scans[|scans| - 1] in scans && forall s :: s in scans[..|scans| - 1] ==> s in scans;
      Column(scans[..|scans| - 1], i) + [scans[|scans| - 1][i]]
  }

  lemma {:induction false} ColumnLength(scans: seq<seq<bool>>, i: nat)
    requires forall s :: s in scans ==> i < |s|
    ensures |Column(scans, i)| == |scans|
  {
    if scans != [] {
      var front := scans[..|scans| - 1];
      assert forall s :: s in front ==> s in scans;
      ColumnLength(front, i);
    }
  }

  /** The last scan, counted from 1, in which the reads of one cell brought it to level 1; 0 if none has. */
  function RoseAt(column: seq<bool>, ticks: nat): nat {
    if column == [] then 0
    else
      var front := column[..|column| - 1];
      if !After(front, ticks).level && After(column, ticks).level then |column| else RoseAt(front, ticks)
  }

  function Rises(n: nat, scans: seq<seq<bool>>, ticks: nat): (r: seq<nat>)
    requires forall s :: s in scans ==> |s| == n
    ensures |r| == n
  {
    seq(n, i requires 0 <= i < n => RoseAt(Column(scans, i), ticks))
  }

  /** Key x rose before key y, or in the same scan and stands before it in the grid. */
  predicate RoseFirst(rises: seq<nat>, x: nat, y: nat) {
    x < |rises| && y < |rises| && (rises[x] < rises[y] || (rises[x] == rises[y] && x < y))
  }

  ghost predicate InPressOrder(keys: seq<nat>, rises: seq<nat>) {
    forall a, b :: 0 <= a < b < |keys| ==> RoseFirst(rises, keys[a], keys[b])
  }

  lemma {:induction false} SurvivingInOrder(keys: seq<nat>, gone: set<nat>, rises: seq<nat>)
    requires InPressOrder(keys, rises)
    ensures InPressOrder(Surviving(keys, gone), rises)
  {
    if keys != [] {
      hide RoseFirst;
      var tail := keys[1..];
      var rest := Surviving(tail, gone);
      assert forall a :: 0 <= a < |tail| ==> tail[a] == keys[a + 1];
      SurvivingInOrder(tail, gone, rises);
      SurvivingMembers(tail, gone);
      forall b | 0 <= b < |rest|
        ensures RoseFirst(rises, keys[0], rest[b])
      {
        assert rest[b] in rest;
        var c :| 0 <= c < |tail| && tail[c] == rest[b];
      }
    }
  }

  ghost predicate Ascending(s: seq<nat>) { forall a, b :: 0 <= a < b < |s| ==> s[a] < s[b] }

  lemma {:induction false} ChangedAscends(before: seq<Cell>, after: seq<Cell>, up: bool, n: nat)
    requires n <= |before| == |after|
    ensures Ascending(Changed(before, after, up, n))
  {
    if n > 0 {
      var c := Changed(before, after, up, n - 1);
      ChangedAscends(before, after, up, n - 1);
      ChangedBelow(before, after, up, n - 1);
      assert forall a :: 0 <= a < |c| ==> c[a] in c;
    }
  }

  /** Keys that rose before this scan, then those that rose in it. */
  lemma OrderAfterScan(held: seq<nat>, risen: seq<nat>, rises: seq<nat>, now: nat)
    requires InPressOrder(held, rises) && forall k :: k in held ==> k < |rises| && rises[k] < now
    requires forall k :: k in risen ==> k < |rises| && rises[k] == now
    requires Ascending(risen)
    ensures InPressOrder(held + risen, rises)
  {
    var keys := held + risen;
    forall a, b | 0 <= a < b < |keys|
      ensures RoseFirst(rises, keys[a], keys[b])
    {
      assert a < |held| ==> keys[a] in held;
      assert b >= |held| ==> keys[b] in risen;
      assert a >= |held| ==> keys[a] in risen;
    }
  }

  /** In every run each cell has the level its own reads give it, and the list agrees with the levels. */
  lemma {:induction false} LevelsFollowReads(n: nat, scans: seq<seq<bool>>, ticks: nat)
    requires forall s :: s in scans ==> |s| == n
    ensures var b := Exec(n, scans, ticks);
            Listed(b) && forall i :: 0 <= i < n ==> b.cells[i] == After(Column(scans, i), ticks)
    decreases |scans|
  {
    if scans != [] {
      var front, last := scans[..|scans| - 1], scans[|scans| - 1];
      assert last in scans && forall s :: s in front ==> s in scans;
      LevelsFollowReads(n, front, ticks);
      OneScan(Exec(n, front, ticks), last, ticks);
      forall i | 0 <= i < n
        ensures Exec(n, scans, ticks).cells[i] == After(Column(scans, i), ticks)
      {
        ColumnGrows(scans, i);
      }
    }
  }

  lemma ColumnGrows(scans: seq<seq<bool>>, i: nat)
    requires scans != [] && forall s :: s in scans ==> i < |s|
    ensures var front, column := scans[..|scans| - 1], Column(scans, i);
            && (forall s :: s in front ==> i < |s|) && scans[|scans| - 1] in scans && |column| == |scans|
            && column[..|column| - 1] == Column(front, i) && column[|column| - 1] == scans[|scans| - 1][i]
  {
    assert forall s :: s in scans[..|scans| - 1] ==> s in scans;
    ColumnLength(scans, i);
  }

  lemma {:induction false} RoseBefore(column: seq<bool>, ticks: nat)
    ensures RoseAt(column, ticks) <= |column|
  {
    if column != [] { RoseBefore(column[..|column| - 1], ticks); }
  }

  /** What one scan does to the time a cell rose. */
  lemma RisesAdvance(n: nat, scans: seq<seq<bool>>, ticks: nat, i: nat)
    requires scans != [] && i < n && forall s :: s in scans ==> |s| == n
    ensures var front := scans[..|scans| - 1];
            && (forall s :: s in front ==> |s| == n)
            && var p, q := Exec(n, front, ticks).cells[i].level, Exec(n, scans, ticks).cells[i].level;
               var r, t := Rises(n, front, ticks)[i], Rises(n, scans, ticks)[i];
               t == (if !p && q then |scans| else r) && r < |scans|
  {
    assert forall s :: s in scans[..|scans| - 1] ==> s in scans;
    ColumnGrows(scans, i);
    LevelsFollowReads(n, scans, ticks);
    LevelsFollowReads(n, scans[..|scans| - 1], ticks);
    RoseBefore(Column(scans[..|scans| - 1], i), ticks);
  }

  lemma KeysKnown(n: nat, scans: seq<seq<bool>>, ticks: nat, k: nat)
    requires forall s :: s in scans ==> |s| == n
    requires k in Exec(n, scans, ticks).keys
    ensures k < n && Exec(n, scans, ticks).cells[k].level
  {
    LevelsFollowReads(n, scans, ticks);
  }

  /** In every run the keys stand in the order in which their own reads brought them up. */
  lemma {:induction false} PressOrder(n: nat, scans: seq<seq<bool>>, ticks: nat)
    requires forall s :: s in scans ==> |s| == n
    ensures InPressOrder(Exec(n, scans, ticks).keys, Rises(n, scans, ticks))
    decreases |scans|
  {
    if scans != [] {
      var front, last := scans[..|scans| - 1], scans[|scans| - 1];
      assert last in scans && forall s :: s in front ==> s in scans;
      var p, q := Exec(n, front, ticks), Exec(n, scans, ticks);
      var before, after := Rises(n, front, ticks), Rises(n, scans, ticks);
      PressOrder(n, front, ticks);
      LevelsFollowReads(n, front, ticks);
      OneScan(p, last, ticks);
      var gone, risen := ToSet(q.released), Changed(p.cells, q.cells, true, n);
      var held := Surviving(p.keys, gone);
      SurvivingInOrder(p.keys, gone, before);
      SurvivingMembers(p.keys, gone);
      ChangedBelow(p.cells, q.cells, true, n);
      ChangedAscends(p.cells, q.cells, true, n);
      forall k | k in held
        ensures k < n && after[k] == before[k] < |scans|
      {
        KeysKnown(n, front, ticks, k);
        RisesAdvance(n, scans, ticks, k);
      }
      forall k | k in risen
        ensures k < n && after[k] == |scans|
      {
        RisesAdvance(n, scans, ticks, k);
      }
      SameOrder(held, before, after);
      hide Exec, Surviving, Changed, Rises, InPressOrder;
      OrderAfterScan(held, risen, after, |scans|);
    }
  }

  lemma SameOrder(keys: seq<nat>, rises: seq<nat>, later: seq<nat>)
    requires InPressOrder(keys, rises) && |later| == |rises|
    requires forall k :: k in keys ==> k < |rises| && later[k] == rises[k]
    ensures InPressOrder(keys, later)
  {
    assert forall a :: 0 <= a < |keys| ==> keys[a] in keys;
  }

  /** In every run, the list agrees with the levels, each cell once and in press order, and each cell has the level its
      own reads give it. */
  lemma EveryRun(n: nat, scans: seq<seq<bool>>, ticks: nat)
    requires forall s :: s in scans ==> |s| == n
    ensures var b := Exec(n, scans, ticks);
            && Listed(b) && InPressOrder(b.keys, Rises(n, scans, ticks))
            && forall i :: 0 <= i < n ==> b.cells[i] == After(Column(scans, i), ticks)
  {
    LevelsFollowReads(n, scans, ticks);
    PressOrder(n, scans, ticks);
  }
}
