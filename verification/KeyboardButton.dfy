/** The matrix driver's arrays, scanned in place. */
module KeyboardButton {
  import opened Debounce
  import opened Wrappers

  datatype Pos = Pos(output: nat, input: nat)

  function Flat(p: Pos, inputs: nat): nat { p.output * inputs + p.input }

  lemma RowsApart(a: nat, b: nat, inputs: nat)
    requires a < b
    ensures a * inputs + inputs <= b * inputs
  {
    assert (a + 1) * inputs <= b * inputs;
  }

  lemma FlatInjective(p: Pos, q: Pos, inputs: nat)
    requires p.input < inputs && q.input < inputs && Flat(p, inputs) == Flat(q, inputs)
    ensures p == q
  {
    if p.output < q.output {
      RowsApart(p.output, q.output, inputs);
    } else if q.output < p.output {
      RowsApart(q.output, p.output, inputs);
    }
  }

  lemma FlatInGrid(p: Pos, outputs: nat, inputs: nat)
    requires p.output < outputs && p.input < inputs
    ensures Flat(p, inputs) < outputs * inputs
  {
    RowsApart(p.output, outputs, inputs);
  }

  function Flats(s: seq<Pos>, inputs: nat): seq<nat> {
    seq(|s|, i requires 0 <= i < |s| => Flat(s[i], inputs))
  }

  lemma {:induction false} WithoutAt(keys: seq<nat>, k: nat)
    requires k < |keys| && forall i :: 0 <= i < k ==> keys[i] != keys[k]
    ensures Without(keys, keys[k]) == keys[..k] + keys[k + 1..]
  {
    if k > 0 {
      var rest := keys[1..];
      assert rest[k - 1] == keys[k] && forall i :: 0 <= i < k - 1 ==> rest[i] == keys[i + 1];
      WithoutAt(rest, k - 1);
      assert [keys[0]] + rest[..k - 1] == keys[..k] && rest[k..] == keys[k + 1..];
    }
  }

  lemma FlatsWithout(s: seq<Pos>, inputs: nat, k: nat)
    requires k < |s| && forall i :: 0 <= i < |s| ==> s[i].input < inputs
    requires forall i :: 0 <= i < k ==> s[i] != s[k]
    ensures Without(Flats(s, inputs), Flat(s[k], inputs)) == Flats(s[..k] + s[k + 1..], inputs)
  {
    var f := Flats(s, inputs);
    forall i | 0 <= i < k
      ensures f[i] != f[k]
    {
      if f[i] == f[k] { FlatInjective(s[i], s[k], inputs); }
    }
    hide Flat;
    WithoutAt(f, k);
    assert Flats(s[..k] + s[k + 1..], inputs) == f[..k] + f[k + 1..];
  }

  lemma FlatsMember(s: seq<Pos>, p: Pos, inputs: nat)
    requires p.input < inputs && forall i :: 0 <= i < |s| ==> s[i].input < inputs
    requires Flat(p, inputs) in Flats(s, inputs)
    ensures p in s
  {
    var i :| 0 <= i < |s| && Flats(s, inputs)[i] == Flat(p, inputs);
    FlatInjective(s[i], p, inputs);
  }

  lemma {:induction false} DistinctSize(keys: seq<nat>, s: set<nat>)
    requires Distinct(keys) && forall x :: x in keys ==> x in s
    ensures |keys| <= |s|
  {
    if keys != [] {
      assert keys[0] in s && forall x :: x in keys[1..] ==> x in keys;
      DistinctSize(keys[1..], s - {keys[0]});
    }
  }

  class Keyboard {
    const outputs: nat
    const inputs: nat
    const ticks: nat
    const activeHigh: bool
    const level: array<bool>
    const cnt: array<byte>
    const keyData: array<Pos>      // one spare slot: the shift reads one entry past the list
    const releaseData: array<Pos>
    var pressedNum: nat
    var canSleep: bool             // no cell has disagreed with its level

    ghost function Cells(): nat { outputs * inputs }

    ghost predicate Valid()
      reads this, keyData
    {
      && level.Length == cnt.Length == releaseData.Length == Cells() <= 256
      && keyData.Length == Cells() + 1 && keyData != releaseData
      && pressedNum <= Cells()
      && forall i :: 0 <= i < pressedNum ==> keyData[i].input < inputs
    }

    ghost function View(releaseNum: nat): Board
      requires Valid() && releaseNum <= Cells()
      reads this, level, cnt, keyData, releaseData
    {
      Board(seq(Cells(), i requires 0 <= i < Cells() && level.Length == cnt.Length == Cells()
                           reads level, cnt => Cell(level[i], cnt[i])),
            Flats(keyData[..pressedNum], inputs), Flats(releaseData[..releaseNum], inputs))
    }

    constructor (outputs: nat, inputs: nat, ticks: nat, activeHigh: bool)
      requires outputs * inputs <= 256
      ensures Valid() && View(0) == Blank(outputs * inputs) && Listed(View(0))
      ensures this.outputs == outputs && this.inputs == inputs && this.ticks == ticks && this.activeHigh == activeHigh
    {
      this.outputs, this.inputs, this.ticks, this.activeHigh := outputs, inputs, ticks, activeHigh;
      level := new bool[outputs * inputs](_ => false);
      cnt := new byte[outputs * inputs](_ => 0);
      keyData := new Pos[outputs * inputs + 1](_ => Pos(0, 0));
      releaseData := new Pos[outputs * inputs](_ => Pos(0, 0));
      pressedNum, canSleep := 0, false;
    }

    /** Move the entries after `k` forward by one. */
    method Shift(k: nat)
      requires k < pressedNum < keyData.Length
      modifies keyData
      ensures keyData[..pressedNum - 1] == old(keyData[..k]) + old(keyData[k + 1..pressedNum])
    {
      ghost var s := keyData[..];
      var l := k;
      while l < pressedNum
        invariant k <= l <= pressedNum
        invariant forall i :: 0 <= i < k ==> keyData[i] == s[i]
        invariant forall i :: k <= i < l ==> keyData[i] == s[i + 1]
        invariant forall i :: l <= i < keyData.Length ==> keyData[i] == s[i]
      {
        keyData[l] := keyData[l + 1];
        l := l + 1;
      }
    }

    /** Remove one key and move the later ones forward. */
    method Forget(p: Pos)
      requires Valid() && p.input < inputs && Flat(p, inputs) in Flats(keyData[..pressedNum], inputs)
      modifies this`pressedNum, keyData
      ensures Valid()
      ensures Flats(keyData[..pressedNum], inputs)
              == Without(old(Flats(keyData[..pressedNum], inputs)), Flat(p, inputs))
    {
      hide Flats, Without;
      ghost var s := keyData[..pressedNum];
      FlatsMember(s, p, inputs);
      var k := Locate(p);
      FlatsWithout(s, inputs, k);
      Shift(k);
      assert keyData[..pressedNum - 1] == s[..k] + s[k + 1..];
      assert forall i :: 0 <= i < pressedNum - 1 ==> keyData[i] == keyData[..pressedNum - 1][i];
      pressedNum := pressedNum - 1;
    }

    method Locate(p: Pos) returns (k: nat)
      requires Valid() && p in keyData[..pressedNum]
      ensures k < pressedNum && keyData[k] == p && forall i :: 0 <= i < k ==> keyData[i] != p
    {
      k := 0;
      while keyData[k] != p
        invariant 0 <= k < pressedNum && forall i :: 0 <= i < k ==> keyData[i] != p
        decreases pressedNum - k
      {
        assert k + 1 < pressedNum by { assert p in keyData[..pressedNum]; }
        k := k + 1;
      }
    }

    lemma RoomForOneMore(releaseNum: nat, k: nat)
      requires Valid() && releaseNum <= Cells() && Listed(View(releaseNum)) && k < Cells() && !level[k]
      ensures pressedNum < Cells()
    {
      var b := View(releaseNum);
      assert !b.cells[k].level && k in Below(Cells());
      DistinctSize(b.keys, Below(Cells()) - {k});
    }

    method SetCell(k: nat, lv: bool, c: byte, ghost releaseNum: nat)
      requires Valid() && releaseNum <= Cells() && k < Cells()
      modifies level, cnt
      ensures Valid()
      ensures View(releaseNum) == old(View(releaseNum)).(cells := old(View(releaseNum)).cells[k := Cell(lv, c)])
      ensures level[k] == lv && cnt[k] == c
    {
      level[k], cnt[k] := lv, c;
    }

    method AppendPressed(p: Pos, ghost releaseNum: nat)
      requires Valid() && p.input < inputs && releaseNum <= Cells() && pressedNum < Cells()
      modifies this`pressedNum, keyData
      ensures Valid()
      ensures View(releaseNum) == old(View(releaseNum)).(keys := old(View(releaseNum)).keys + [Flat(p, inputs)])
    {
      ghost var s := keyData[..pressedNum];
      keyData[pressedNum] := p;
      pressedNum := pressedNum + 1;
      assert keyData[..pressedNum] == s + [p];
    }

    method AppendReleased(p: Pos, releaseNum: nat)
      requires Valid() && releaseNum < Cells()
      modifies releaseData
      ensures Valid()
      ensures var b := old(View(releaseNum)); View(releaseNum + 1) == b.(released := b.released + [Flat(p, inputs)])
    {
      ghost var s := releaseData[..releaseNum];
      releaseData[releaseNum] := p;
      assert releaseData[..releaseNum + 1] == s + [p];
    }

    /** The lists follow a cell that has just flipped. */
    method FollowFlip(p: Pos, releaseNum: nat) returns (newReleaseNum: nat)
      requires Valid() && p.output < outputs && p.input < inputs && releaseNum < Cells() && Flat(p, inputs) < Cells()
      requires if level[Flat(p, inputs)] then pressedNum < Cells() else Flat(p, inputs) in View(releaseNum).keys
      modifies this`pressedNum, keyData, releaseData
      ensures Valid() && releaseNum <= newReleaseNum <= releaseNum + 1 <= Cells()
      ensures var b := old(View(releaseNum)); var k := Flat(p, inputs);
              View(newReleaseNum) == if level[k] then b.(keys := b.keys + [k])
                                     else b.(keys := Without(b.keys, k), released := b.released + [k])
    {
      if level[Flat(p, inputs)] {
        AppendPressed(p, releaseNum);
        newReleaseNum := releaseNum;
      } else {
        Forget(p);
        AppendReleased(p, releaseNum);
        newReleaseNum := releaseNum + 1;
      }
    }

    /** One cell of the scan; `releaseNum` counts the entries of the release list. */
    method ReadCell(p: Pos, raw: bool, releaseNum: nat) returns (changed: bool, newReleaseNum: nat)
      requires Valid() && p.output < outputs && p.input < inputs
      requires releaseNum <= Flat(p, inputs) < Cells() && Listed(View(releaseNum))
      modifies this`pressedNum, this`canSleep, level, cnt, keyData, releaseData
      ensures Valid() && releaseNum <= newReleaseNum <= releaseNum + 1 <= Cells()
      ensures canSleep == (old(canSleep) && (raw == activeHigh) == old(level[Flat(p, inputs)]))
      ensures View(newReleaseNum) == Visit(old(View(releaseNum)), Flat(p, inputs), raw == activeHigh, ticks)
      ensures changed == (level[Flat(p, inputs)] != old(level[Flat(p, inputs)]))
    {
      hide Flats, Without;
      changed, newReleaseNum := false, releaseNum;
      var n := Flat(p, inputs);
      ghost var b := View(releaseNum);
      assert b.cells[n] == Cell(level[n], cnt[n]);
      var buttonLevel := if activeHigh then level[n] else !level[n];
      if raw != buttonLevel {
        canSleep := false;
        var count := Inc8(cnt[n]);
        if count >= ticks {
          if !level[n] { RoomForOneMore(releaseNum, n); }
          SetCell(n, if activeHigh then raw else !raw, 0, releaseNum);
          changed := true;
          newReleaseNum := FollowFlip(p, releaseNum);
        } else {
          SetCell(n, level[n], count, releaseNum);
        }
      } else {
        SetCell(n, level[n], 0, releaseNum);
      }
    }

    ghost function Samples(raw: seq<bool>): seq<bool> { seq(|raw|, i requires 0 <= i < |raw| => raw[i] == activeHigh) }

    // The state after the first `k` cells of a scan that started from `b` and `quiet`.
    ghost predicate Reached(b: Board, quiet: bool, raw: seq<bool>, k: nat, releaseNum: nat, changed: bool)
      reads this, level, cnt, keyData, releaseData
    {
      && Valid() && releaseNum <= k <= Cells() == |raw| == |b.cells|
      && View(releaseNum) == ScanUpTo(b, Samples(raw), ticks, k)
      && (changed <==> Flipped(b.cells, View(releaseNum).cells, k))
      && (canSleep <==> quiet && Steady(b.cells, Samples(raw), k))
    }

    method NextCell(p: Pos, raw: seq<bool>, ghost b: Board, ghost quiet: bool, releaseNum: nat, changed: bool)
        returns (newReleaseNum: nat, newChanged: bool)
      requires p.output < outputs && p.input < inputs && Flat(p, inputs) < Cells()
      requires Reached(b, quiet, raw, Flat(p, inputs), releaseNum, changed) && Listed(b)
      modifies this`pressedNum, this`canSleep, level, cnt, keyData, releaseData
      ensures Reached(b, quiet, raw, Flat(p, inputs) + 1, newReleaseNum, newChanged)
    {
      hide Flat;
      hide ScanUpTo;
      hide Visit;
      hide Flipped;
      hide Listed;
      ghost var n, before := Flat(p, inputs), View(releaseNum);
      ScanKeepsListed(b, Samples(raw), ticks, n);
      ScanLeavesCell(b, Samples(raw), ticks, n);
      var flip: bool;
      flip, newReleaseNum := ReadCell(p, raw[Flat(p, inputs)], releaseNum);
      newChanged := changed || flip;
      assert View(newReleaseNum).cells[n].level == level[n] && before.cells[n].level == old(level[n]);
      OneMoreCell(b, before, View(newReleaseNum), Samples(raw), ticks, n, flip);
    }

    /** One output line driven, its inputs read. */
    method Row(i: nat, raw: seq<bool>, ghost b: Board, ghost quiet: bool, releaseNum: nat, changed: bool)
        returns (newReleaseNum: nat, newChanged: bool)
      requires i < outputs && Reached(b, quiet, raw, i * inputs, releaseNum, changed) && Listed(b)
      modifies this`pressedNum, this`canSleep, level, cnt, keyData, releaseData
      ensures Reached(b, quiet, raw, (i + 1) * inputs, newReleaseNum, newChanged)
    {
      hide Reached;
      newReleaseNum, newChanged := releaseNum, changed;
      for j := 0 to inputs
        invariant Reached(b, quiet, raw, i * inputs + j, newReleaseNum, newChanged)
      {
        FlatInGrid(Pos(i, j), outputs, inputs);
        newReleaseNum, newChanged := NextCell(Pos(i, j), raw, b, quiet, newReleaseNum, newChanged);
      }
      assert i * inputs + inputs == (i + 1) * inputs;
    }

    /** One scan of the matrix; `raw` holds the input levels row by row. Listeners are told when anything changed. */
    method Handler(raw: seq<bool>) returns (changed: bool, releaseNum: nat)
      requires Valid() && |raw| == Cells() && Listed(View(0))
      modifies this`pressedNum, this`canSleep, level, cnt, keyData, releaseData
      ensures canSleep <==> old(canSleep) && Steady(old(View(0)).cells, Samples(raw), |raw|)
      ensures Valid() && releaseNum <= Cells() && View(releaseNum) == Scan(old(View(0)), Samples(raw), ticks)
      ensures changed <==> Flipped(old(View(0)).cells, View(releaseNum).cells, Cells())
      ensures Listed(View(0))
    {
      ghost var b, quiet := View(0), canSleep;
      ScanKeepsListed(b, Samples(raw), ticks, Cells());
      changed, releaseNum := false, 0;
      assert View(0).released == [];
      for i := 0 to outputs
        invariant Reached(b, quiet, raw, i * inputs, releaseNum, changed)
      {
        releaseNum, changed := Row(i, raw, b, quiet, releaseNum, changed);
      }
    }

    /** The registered combinations that are exactly the keys pressed, in the same order. */
    method Combinations(combos: seq<seq<Pos>>) returns (fired: seq<nat>)
      requires Valid()
      ensures fired == Matching(combos, keyData[..pressedNum])
    {
      fired := [];
      assert combos[..0] == [];
      for i := 0 to |combos|
        invariant fired == Matching(combos[..i], keyData[..pressedNum])
      {
        assert combos[..i + 1][..i] == combos[..i];
        if |combos[i]| == pressedNum {
          var same, j := true, 0;
          while j < pressedNum && same
            invariant 0 <= j <= pressedNum
            invariant same ==> combos[i][..j] == keyData[..j]
            invariant !same ==> j < pressedNum && combos[i][j] != keyData[j]
            decreases pressedNum - j, same
          {
            if combos[i][j] != keyData[j] { same := false; } else { j := j + 1; }
          }
          assert same ==> combos[i] == combos[i][..pressedNum];
          assert !same ==> combos[i][j] != keyData[..pressedNum][j];
          if same { fired := fired + [i]; }
        }
      }
      assert combos[..|combos|] == combos;
    }

    /** After the scan loops: the report if anything flipped, and the combinations if a key was pressed. */
    method Tell(combos: seq<seq<Pos>>, lastNum: nat, releaseNum: nat, changed: bool, ghost b: Board)
        returns (report: Option<Report>, fired: seq<nat>)
      requires Valid() && releaseNum <= Cells() && lastNum == |b.keys| && |View(releaseNum).cells| == |b.cells|
      requires changed <==> Flipped(b.cells, View(releaseNum).cells, |b.cells|)
      requires pressedNum + releaseNum == lastNum + |Changed(b.cells, View(releaseNum).cells, true, |b.cells|)|
      ensures Told(b, View(releaseNum), keyData[..pressedNum], releaseData[..releaseNum], combos, report, fired)
    {
      report, fired := None, [];
      if changed {
        report := Some(Report(keyData[..pressedNum], releaseData[..releaseNum], pressedNum - lastNum));
        if pressedNum + releaseNum > lastNum { fired := Combinations(combos); }
      } else {
        NothingChanged(b.cells, View(releaseNum).cells, true, |b.cells|);
      }
    }

    /** One timer period: the scan, what the listeners get, and whether the matrix is put to sleep. */
    method Period(raw: seq<bool>, combos: seq<seq<Pos>>, powerSave: bool)
        returns (report: Option<Report>, fired: seq<nat>, sleep: bool, ghost releaseNum: nat)
      requires Valid() && |raw| == Cells() && Listed(View(0))
      modifies this`pressedNum, this`canSleep, level, cnt, keyData, releaseData
      ensures Valid() && Listed(View(0))
      ensures releaseNum <= Cells() && View(releaseNum) == Scan(old(View(0)), Samples(raw), ticks)
      ensures Told(old(View(0)), View(releaseNum), keyData[..pressedNum], releaseData[..releaseNum],
                   combos, report, fired)
      ensures sleep <==> powerSave && pressedNum == 0 && Steady(old(View(0)).cells, Samples(raw), |raw|)
    {
      hide Scan, Flipped, Changed, Listed, Steady, Matching, Flats, Told;
      ghost var b := View(0);
      var lastNum := pressedNum;
      FlatsLength(keyData[..pressedNum], inputs);
      if powerSave { canSleep := true; }
      assert View(0) == b;
      var changed, n := Handler(raw);
      releaseNum := n;
      PressesCounted(b, Samples(raw), ticks);
      FlatsLength(keyData[..pressedNum], inputs);
      FlatsLength(releaseData[..n], inputs);
      report, fired := Tell(combos, lastNum, n, changed, b);
      sleep := powerSave && pressedNum == 0 && canSleep;
    }
  }

  ghost predicate Told(b: Board, r: Board, keys: seq<Pos>, gone: seq<Pos>, combos: seq<seq<Pos>>,
                       report: Option<Report>, fired: seq<nat>)
  {
    && |r.cells| == |b.cells|
    && (report.Some? <==> Flipped(b.cells, r.cells, |b.cells|))
    && (report.Some? ==> report.value == Report(keys, gone, |keys| - |b.keys|))
    && fired == if Changed(b.cells, r.cells, true, |b.cells|) == [] then [] else Matching(combos, keys)
  }

  /** What the listeners get: the keys pressed, those released in this scan, and by how many the keys have grown. */
  datatype Report = Report(pressed: seq<Pos>, released: seq<Pos>, changeNum: int)

  /** Which combinations are exactly these keys. */
  function Matching(combos: seq<seq<Pos>>, keys: seq<Pos>): seq<nat> {
    if combos == [] then []
    else
      var n := |combos| - 1;
      Matching(combos[..n], keys) + if combos[n] == keys then [n] else []
  }

  lemma AscendingSnoc(s: seq<nat>, n: nat)
    requires Ascending(s) && forall x :: x in s ==> x < n
    ensures Ascending(s + [n])
  {
    assert forall a :: 0 <= a < |s| ==> s[a] in s;
  }

  /** A combination is called exactly if it is these keys, each once and in the order of registration. */
  lemma {:induction false} MatchingMeans(combos: seq<seq<Pos>>, keys: seq<Pos>)
    ensures Ascending(Matching(combos, keys))
    ensures forall i :: i in Matching(combos, keys) <==> 0 <= i < |combos| && combos[i] == keys
  {
    if combos != [] {
      var n := |combos| - 1;
      MatchingMeans(combos[..n], keys);
      AscendingSnoc(Matching(combos[..n], keys), n);
    }
  }

  /** The first k cells were read as they stood. */
  predicate Steady(cells: seq<Cell>, samples: seq<bool>, k: nat)
    requires k <= |cells| && k <= |samples|
  {
    k == 0 || (Steady(cells, samples, k - 1) && samples[k - 1] == cells[k - 1].level)
  }

  lemma FlatsLength(s: seq<Pos>, inputs: nat)
    ensures |Flats(s, inputs)| == |s|
  {
  }

  lemma ScanLeavesCell(b: Board, samples: seq<bool>, ticks: nat, k: nat)
    requires k < |samples| == |b.cells| && Listed(b)
    ensures ScanUpTo(b, samples, ticks, k).cells[k] == b.cells[k]
  {
    ScanIsScanned(b, samples, ticks, k);
  }

  ghost predicate Flipped(before: seq<Cell>, after: seq<Cell>, n: nat)
    requires n <= |before| == |after|
  {
    exists i :: 0 <= i < n && before[i].level != after[i].level
  }

  lemma OneMoreCell(b: Board, r: Board, t: Board, samples: seq<bool>, ticks: nat, k: nat, flip: bool)
    requires k < |samples| == |b.cells| && Listed(b) && r == ScanUpTo(b, samples, ticks, k)
    requires t == Visit(r, k, samples[k], ticks) && flip == (t.cells[k].level != r.cells[k].level)
    ensures t == ScanUpTo(b, samples, ticks, k + 1)
    ensures Flipped(b.cells, t.cells, k + 1) <==> Flipped(b.cells, r.cells, k) || flip
  {
    ScanIsScanned(b, samples, ticks, k);
    hide Visit;
    assert r.cells[k] == b.cells[k];
    VisitTouchesOne(r, k, samples[k], ticks);
    if Flipped(b.cells, r.cells, k) {
      var i :| 0 <= i < k && b.cells[i].level != r.cells[i].level;
      assert b.cells[i].level != t.cells[i].level;
    }
  }

  lemma ScanKeepsListed(b: Board, samples: seq<bool>, ticks: nat, k: nat)
    requires k <= |samples| == |b.cells| && Listed(b)
    ensures Listed(ScanUpTo(b, samples, ticks, k))
  {
    ScanIsScanned(b, samples, ticks, k);
  }

  lemma VisitTouchesOne(b: Board, k: nat, pressed: bool, ticks: nat)
    requires k < |b.cells|
    ensures var t := Visit(b, k, pressed, ticks);
            |t.cells| == |b.cells| && forall i :: 0 <= i < |b.cells| && i != k ==> t.cells[i] == b.cells[i]
  {
  }

  // ---- Counting ----

  lemma {:induction false} SurvivingCount(keys: seq<nat>, gone: set<nat>)
    requires Distinct(keys) && forall x :: x in gone ==> x in keys
    ensures |Surviving(keys, gone)| == |keys| - |gone|
  {
    if keys == [] {
      assert gone == {};
    } else {
      var rest := keys[1..];
      assert keys == [keys[0]] + rest;
      if keys[0] in gone {
        SurvivingCount(rest, gone - {keys[0]});
        SurvivesWithout(rest, gone, keys[0]);
      } else {
        SurvivingCount(rest, gone);
      }
    }
  }

  lemma {:induction false} SurvivesWithout(keys: seq<nat>, gone: set<nat>, k: nat)
    requires k !in keys
    ensures Surviving(keys, gone) == Surviving(keys, gone - {k})
  {
    if keys != [] {
      assert keys[0] in keys && forall x :: x in keys[1..] ==> x in keys;
      SurvivesWithout(keys[1..], gone, k);
    }
  }

  lemma {:induction false} SetOfDistinct(keys: seq<nat>)
    requires Distinct(keys)
    ensures |ToSet(keys)| == |keys|
  {
    if keys != [] {
      var front, last := keys[..|keys| - 1], keys[|keys| - 1];
      assert keys == front + [last];
      SetOfDistinct(front);
      assert ToSet(keys) == ToSet(front) + {last};
    }
  }

  lemma {:induction false} NothingChanged(before: seq<Cell>, after: seq<Cell>, up: bool, n: nat)
    requires n <= |before| == |after| && forall i :: 0 <= i < n ==> before[i].level == after[i].level
    ensures Changed(before, after, up, n) == []
  {
    if n > 0 { NothingChanged(before, after, up, n - 1); }
  }

  lemma {:induction false} ChangedDistinct(before: seq<Cell>, after: seq<Cell>, up: bool, n: nat)
    requires n <= |before| == |after|
    ensures Distinct(Changed(before, after, up, n)) && forall x :: x in Changed(before, after, up, n) ==> x < n
  {
    if n > 0 {
      ChangedDistinct(before, after, up, n - 1);
      var front := Changed(before, after, up, n - 1);
      assert forall i :: 0 <= i < |front| ==> front[i] in front;
      assert Distinct(front + [n - 1]);
      assert front + [] == front;
    }
  }

  /** The list grows by the keys pressed and shrinks by those released. */
  lemma PressesCounted(b: Board, samples: seq<bool>, ticks: nat)
    requires |samples| == |b.cells| && Listed(b)
    ensures var r := Scan(b, samples, ticks);
            |r.keys| + |r.released| == |b.keys| + |Changed(b.cells, r.cells, true, |samples|)|
  {
    var r, n := Scan(b, samples, ticks), |samples|;
    OneScan(b, samples, ticks);
    ChangedDistinct(b.cells, r.cells, false, n);
    ChangedBelow(b.cells, r.cells, false, n);
    SetOfDistinct(r.released);
    SurvivingCount(b.keys, ToSet(r.released));
  }
}
