/** The most frequent key pairs: selection with a cached minimum, insertion sort, and the streamed reply. */
module Bigrams {
  import opened Wrappers
  import KsProtocol
  import KsResponse

  type count = x: int | 0 <= x < 0x10000

  datatype Pair = Pair(prev: byte, curr: byte, n: count)

  // ---- Selection ----

  /** Index of the first smallest entry. */
  function ArgMin(list: seq<Pair>): (m: nat)
    requires list != []
    ensures m < |list| && forall k :: 0 <= k < |list| ==> list[m].n <= list[k].n
    ensures forall k :: 0 <= k < m ==> list[m].n < list[k].n
  {
    if |list| == 1 then 0
    else
      var m := ArgMin(list[..|list| - 1]);
      if list[|list| - 1].n < list[m].n then |list| - 1 else m
  }

  /** Offer one cell to a list of at most `cap`: it replaces the smallest entry if it is larger. */
  function Offer(list: seq<Pair>, c: Pair, cap: nat): (r: seq<Pair>)
    requires |list| <= cap
    ensures |list| <= |r| <= cap
  {
    if c.n == 0 then list
    else if |list| < cap then list + [c]
    else if list == [] then list
    else if c.n > list[ArgMin(list)].n then list[ArgMin(list) := c]
    else list
  }

  function Select(cells: seq<Pair>, cap: nat): (r: seq<Pair>)
    ensures |r| <= cap
  {
    if cells == [] then [] else Offer(Select(cells[..|cells| - 1], cap), cells[|cells| - 1], cap)
  }

  /** The list holds the `cap` largest nonzero cells, each once. */
  ghost predicate TopOf(list: seq<Pair>, cells: seq<Pair>, cap: nat) {
    && Distinct(list) && |list| <= cap
    && (forall c :: c in list ==> c in cells && c.n > 0)
    && (forall c :: c in cells && c.n > 0 && c !in list ==> |list| == cap && forall d :: d in list ==> c.n <= d.n)
  }

  lemma ReplaceMembers(list: seq<Pair>, m: nat, c: Pair)
    requires m < |list| && Distinct(list) && c !in list
    ensures Distinct(list[m := c])
    ensures forall x :: x in list[m := c] <==> x == c || (x in list && x != list[m])
  {
    var r := list[m := c];
    forall x | x in list && x != list[m]
      ensures x in r
    {
      var k :| 0 <= k < |list| && list[k] == x;
      assert r[k] == x;
    }
    assert r[m] == c;
  }

  lemma OfferKeepsTop(list: seq<Pair>, cells: seq<Pair>, c: Pair, cap: nat)
    requires TopOf(list, cells, cap) && c !in cells
    ensures TopOf(Offer(list, c, cap), cells + [c], cap)
  {
    if c.n > 0 && |list| == cap && list != [] && c.n > list[ArgMin(list)].n {
      ReplaceMembers(list, ArgMin(list), c);
    }
    var all, r := cells + [c], Offer(list, c, cap);
    assert forall x :: x in all <==> x in cells || x == c;
    if c.n > 0 && |list| < cap {
      assert forall x :: x in r <==> x in list || x == c;
    } else if c.n > 0 && list != [] {
      assert forall d :: d in list ==> list[ArgMin(list)].n <= d.n;
    }
  }

  /** In a full list a cell replaces another only if it occurs more often. */
  lemma EqualNeverDisplaces(list: seq<Pair>, c: Pair, cap: nat)
    requires |list| == cap && forall d :: d in list ==> c.n <= d.n
    ensures Offer(list, c, cap) == list
  {
    assert list != [] ==> list[ArgMin(list)] in list;
  }

  /** The reply contains the most frequent pairs: none omitted exceeds any included, and none is omitted while there
      is room. */
  lemma {:induction false} SelectIsTop(cells: seq<Pair>, cap: nat)
    requires Distinct(cells)
    ensures TopOf(Select(cells, cap), cells, cap)
  {
    if cells != [] {
      var front, last := cells[..|cells| - 1], cells[|cells| - 1];
      assert cells == front + [last];
      SelectIsTop(front, cap);
      OfferKeepsTop(Select(front, cap), front, last, cap);
    }
  }

  function Nonzero(cells: seq<Pair>): seq<Pair> {
    if cells == [] then []
    else
      var last := cells[|cells| - 1];
      Nonzero(cells[..|cells| - 1]) + (if last.n > 0 then [last] else [])
  }

  /** With room for all, all nonzero cells are kept, in order. */
  lemma {:induction false} AllFit(cells: seq<Pair>, cap: nat)
    requires |Nonzero(cells)| <= cap
    ensures Select(cells, cap) == Nonzero(cells)
  {
    if cells != [] { AllFit(cells[..|cells| - 1], cap); }
  }

  // ---- Sorting ----

  ghost predicate Descending(s: seq<Pair>) { forall i, j :: 0 <= i < j < |s| ==> s[i].n >= s[j].n }

  /** Insert from the end, past the smaller entries only. */
  function Insert(s: seq<Pair>, c: Pair): (r: seq<Pair>)
    ensures |r| == |s| + 1
  {
    if s == [] || s[|s| - 1].n >= c.n then s + [c] else Insert(s[..|s| - 1], c) + [s[|s| - 1]]
  }

  function Sort(s: seq<Pair>): (r: seq<Pair>)
    ensures |r| == |s|
  {
    if s == [] then [] else Insert(Sort(s[..|s| - 1]), s[|s| - 1])
  }

  lemma {:induction false} InsertMembers(s: seq<Pair>, c: Pair)
    ensures multiset(Insert(s, c)) == multiset(s) + multiset{c}
    ensures forall x :: x in Insert(s, c) ==> x in s || x == c
  {
    if s != [] && s[|s| - 1].n < c.n {
      var front, last := s[..|s| - 1], s[|s| - 1];
      assert s == front + [last];
      InsertMembers(front, c);
    }
  }

  lemma DescendingSnoc(s: seq<Pair>, c: Pair)
    requires Descending(s) && forall x :: x in s ==> x.n >= c.n
    ensures Descending(s + [c])
  {
    var r := s + [c];
    forall i, j | 0 <= i < j < |r|
      ensures r[i].n >= r[j].n
    {
      assert r[i] == s[i];
      if j < |s| { assert r[j] == s[j]; }
    }
  }

  lemma {:induction false} InsertSorts(s: seq<Pair>, c: Pair)
    requires Descending(s)
    ensures Descending(Insert(s, c))
  {
    if s == [] {
    } else if s[|s| - 1].n < c.n {
      var front, last := s[..|s| - 1], s[|s| - 1];
      InsertSorts(front, c);
      InsertMembers(front, c);
      forall x | x in front
        ensures x.n >= last.n
      {
        var k :| 0 <= k < |front| && front[k] == x;
        assert s[k].n >= last.n;
      }
      DescendingSnoc(Insert(front, c), last);
    } else {
      forall x | x in s
        ensures x.n >= c.n
      {
        var k :| 0 <= k < |s| && s[k] == x;
        assert k == |s| - 1 || s[k].n >= s[|s| - 1].n;
      }
      DescendingSnoc(s, c);
    }
  }

  /** The sort is one: descending, and a permutation. */
  lemma {:induction false} SortSorts(s: seq<Pair>)
    ensures Descending(Sort(s)) && multiset(Sort(s)) == multiset(s)
  {
    if s != [] {
      assert s == s[..|s| - 1] + [s[|s| - 1]];
      SortSorts(s[..|s| - 1]);
      InsertSorts(Sort(s[..|s| - 1]), s[|s| - 1]);
      InsertMembers(Sort(s[..|s| - 1]), s[|s| - 1]);
    }
  }

  /** The entries that occur n times, in the order of the list. */
  function Counting(s: seq<Pair>, n: count): seq<Pair> {
    if s == [] then []
    else Counting(s[..|s| - 1], n) + (if s[|s| - 1].n == n then [s[|s| - 1]] else [])
  }

  lemma {:induction false} InsertIsStable(s: seq<Pair>, c: Pair, n: count)
    ensures Counting(Insert(s, c), n) == Counting(s, n) + if c.n == n then [c] else []
  {
    if s == [] || s[|s| - 1].n >= c.n {
      assert (s + [c])[..|s|] == s;
    } else {
      var front, last := s[..|s| - 1], s[|s| - 1];
      InsertIsStable(front, c, n);
      assert (Insert(front, c) + [last])[..|Insert(front, c)|] == Insert(front, c);
    }
  }

  /** Pairs that occur equally often keep their order. */
  lemma {:induction false} SortIsStable(s: seq<Pair>, n: count)
    ensures Counting(Sort(s), n) == Counting(s, n)
  {
    if s != [] {
      hide Insert;
      SortIsStable(s[..|s| - 1], n);
      InsertIsStable(Sort(s[..|s| - 1]), s[|s| - 1], n);
    }
  }

  // ---- In place ----

  /** The counters in row-major order, up to cell (i, j). */
  ghost function CellsUpTo(stats: array2<count>, i: nat, j: nat): seq<Pair>
    requires stats.Length0 == stats.Length1 <= 256 && i <= stats.Length0 && j <= stats.Length1
    requires i == stats.Length0 ==> j == 0
    reads stats
    decreases i, j
  {
    if j > 0 then CellsUpTo(stats, i, j - 1) + [Pair(i, j - 1, stats[i, j - 1])]
    else if i > 0 then CellsUpTo(stats, i - 1, stats.Length1)
    else []
  }

  ghost function Cells(stats: array2<count>): seq<Pair>
    requires stats.Length0 == stats.Length1 <= 256
    reads stats
  {
    CellsUpTo(stats, stats.Length0, 0)
  }

  lemma {:induction false} CellsDistinct(stats: array2<count>, i: nat, j: nat)
    requires stats.Length0 == stats.Length1 <= 256 && i <= stats.Length0 && j <= stats.Length1
    requires i == stats.Length0 ==> j == 0
    ensures Distinct(CellsUpTo(stats, i, j))
    ensures forall c :: c in CellsUpTo(stats, i, j) ==> c.prev < i || (c.prev == i && c.curr < j)
    decreases i, j
  {
    if j > 0 {
      CellsDistinct(stats, i, j - 1);
    } else if i > 0 {
      CellsDistinct(stats, i - 1, stats.Length1);
    }
  }

  lemma SelectNext(stats: array2<count>, i: nat, j: nat, cap: nat)
    requires stats.Length0 == stats.Length1 <= 256 && i < stats.Length0 && j < stats.Length1
    ensures Select(CellsUpTo(stats, i, j + 1), cap)
            == Offer(Select(CellsUpTo(stats, i, j), cap), Pair(i, j, stats[i, j]), cap)
  {
    var next := CellsUpTo(stats, i, j + 1);
    assert next[..|next| - 1] == CellsUpTo(stats, i, j);
  }

  lemma RowEnds(stats: array2<count>, i: nat)
    requires stats.Length0 == stats.Length1 <= 256 && i < stats.Length0
    ensures CellsUpTo(stats, i + 1, 0) == CellsUpTo(stats, i, stats.Length1)
  {
  }

  method IndexOfMin(entries: array<Pair>, n: nat) returns (m: nat)
    requires 0 < n <= entries.Length
    ensures m == ArgMin(entries[..n])
  {
    m := 0;
    for k := 1 to n
      invariant m == ArgMin(entries[..k])
    {
      assert entries[..k + 1][..k] == entries[..k];
      if entries[k].n < entries[m].n { m := k; }
    }
  }

  /** The selection of the binary reply: the smallest count of a full table is remembered between replacements. */
  method SelectCached(stats: array2<count>, entries: array<Pair>) returns (n: nat)
    requires stats.Length0 == stats.Length1 <= 256 && entries.Length > 0
    modifies entries
    ensures n <= entries.Length && entries[..n] == Select(Cells(stats), entries.Length)
  {
    hide Select, Offer, CachedMin, CellsUpTo;
    n := 0;
    var minIn: count := 0;
    NothingSelected(stats, entries.Length);
    for i := 0 to stats.Length0
      invariant n <= entries.Length && entries[..n] == Select(CellsUpTo(stats, i, 0), entries.Length)
      invariant CachedMin(entries[..n], minIn)
    {
      for j := 0 to stats.Length1
        invariant n <= entries.Length && entries[..n] == Select(CellsUpTo(stats, i, j), entries.Length)
        invariant CachedMin(entries[..n], minIn)
      {
        SelectNext(stats, i, j, entries.Length);
        n, minIn := OfferCached(entries, n, Pair(i, j, stats[i, j]), minIn);
      }
      RowEnds(stats, i);
    }
  }

  lemma NothingSelected(stats: array2<count>, cap: nat)
    requires stats.Length0 == stats.Length1 <= 256
    ensures Select(CellsUpTo(stats, 0, 0), cap) == [] && CachedMin([], 0)
  {
  }

  /** The cache is 0 while the table is empty, and the smallest count in it otherwise. */
  ghost predicate CachedMin(list: seq<Pair>, minIn: count) {
    && (forall c :: c in list ==> c.n > 0)
    && minIn == if list == [] then 0 else list[ArgMin(list)].n
  }

  lemma AppendKeepsCache(list: seq<Pair>, c: Pair, minIn: count)
    requires CachedMin(list, minIn) && c.n > 0
    ensures CachedMin(list + [c], if c.n < minIn || minIn == 0 then c.n else minIn)
  {
    assert (list + [c])[..|list|] == list;
  }

  lemma ReplaceKeepsCache(list: seq<Pair>, m: nat, c: Pair, minIn: count)
    requires CachedMin(list, minIn) && m < |list| && c.n > 0
    ensures CachedMin(list[m := c], list[m := c][ArgMin(list[m := c])].n)
  {
    hide ArgMin;
  }

  method OfferCached(entries: array<Pair>, n: nat, c: Pair, minIn: count) returns (n': nat, minIn': count)
    requires n <= entries.Length && CachedMin(entries[..n], minIn) && entries.Length > 0
    modifies entries
    ensures n' <= entries.Length && entries[..n'] == Offer(old(entries[..n]), c, entries.Length)
    ensures CachedMin(entries[..n'], minIn')
  {
    hide ArgMin;
    n', minIn' := n, minIn;
    ghost var was := entries[..n];
    if c.n == 0 { return; }
    if n < entries.Length {
      AppendKeepsCache(was, c, minIn);
      entries[n] := c;
      n' := n + 1;
      assert entries[..n'] == was + [c];
      if c.n < minIn || minIn == 0 { minIn' := c.n; }
    } else if c.n > minIn {
      var m := IndexOfMin(entries, n);
      ReplaceKeepsCache(was, m, c, minIn);
      entries[m] := c;
      assert entries[..n] == was[m := c];
      var k := IndexOfMin(entries, n);
      minIn' := entries[k].n;
    }
  }

  /** The selection of the text reply: the table is searched for every cell. */
  method SelectUncached(stats: array2<count>, entries: array<Pair>) returns (n: nat)
    requires stats.Length0 == stats.Length1 <= 256 && entries.Length > 0
    modifies entries
    ensures n <= entries.Length && entries[..n] == Select(Cells(stats), entries.Length)
  {
    hide Select, CellsUpTo;
    n := 0;
    NothingSelected(stats, entries.Length);
    for i := 0 to stats.Length0
      invariant n <= entries.Length && entries[..n] == Select(CellsUpTo(stats, i, 0), entries.Length)
    {
      for j := 0 to stats.Length1
        invariant n <= entries.Length && entries[..n] == Select(CellsUpTo(stats, i, j), entries.Length)
      {
        var c := Pair(i, j, stats[i, j]);
        SelectNext(stats, i, j, entries.Length);
        ghost var was := entries[..n];
        if c.n != 0 {
          if n < entries.Length {
            entries[n] := c;
            n := n + 1;
            assert entries[..n] == was + [c];
          } else {
            var m := IndexOfMin(entries, n);
            if c.n > entries[m].n {
              entries[m] := c;
              assert entries[..n] == was[m := c];
            }
          }
        }
        assert entries[..n] == Offer(was, c, entries.Length);
      }
      RowEnds(stats, i);
    }
  }

  /** Everything behind a hole at j is smaller than c, so c goes where it would in the part before the hole. */
  lemma {:induction false} InsertBefore(s: seq<Pair>, c: Pair, j: nat)
    requires j <= |s| && forall k :: j <= k < |s| ==> s[k].n < c.n
    ensures Insert(s, c) == Insert(s[..j], c) + s[j..]
  {
    if j == |s| {
      assert s[..j] == s && s[j..] == [];
    } else {
      var front, last := s[..|s| - 1], s[|s| - 1];
      InsertBefore(front, c, j);
      assert front[..j] == s[..j] && front[j..] + [last] == s[j..];
    }
  }

  lemma InsertLast(s: seq<Pair>, c: Pair)
    requires s == [] || s[|s| - 1].n >= c.n
    ensures Insert(s, c) == s + [c]
  {
  }

  method InsertInPlace(a: array<Pair>, i: nat)
    requires i < a.Length
    modifies a
    ensures a[..i + 1] == Insert(old(a[..i]), old(a[i])) && a[i + 1..] == old(a[i + 1..])
  {
    hide Insert;
    var tmp := a[i];
    var j := i;
    ghost var s := a[..i];
    while j > 0 && a[j - 1].n < tmp.n
      invariant 0 <= j <= i
      invariant forall k :: 0 <= k < j ==> a[k] == s[k]
      invariant forall k :: j < k <= i ==> a[k] == s[k - 1]
      invariant forall k :: j <= k < i ==> s[k].n < tmp.n
      invariant a[i + 1..] == old(a[i + 1..])
    {
      a[j] := a[j - 1];
      j := j - 1;
    }
    a[j] := tmp;
    InsertBefore(s, tmp, j);
    assert Insert(s[..j], tmp) == s[..j] + [tmp] by { InsertLast(s[..j], tmp); }
    assert a[..i + 1] == s[..j] + [tmp] + s[j..];
  }

  method SortInPlace(a: array<Pair>, n: nat)
    requires n <= a.Length
    modifies a
    ensures a[..n] == Sort(old(a[..n])) && a[n..] == old(a[n..])
  {
    if n == 0 { return; }
    ghost var s := a[..];
    SortOne(s[0]);
    assert a[..1] == [s[0]] && s[..1] == [s[0]];
    var i := 1;
    while i < n
      invariant 1 <= i <= n && a[..i] == Sort(s[..i]) && a[i..] == s[i..]
    {
      hide Sort, Insert;
      assert a[i] == a[i..][0] == s[i] && s[i + 1..] == s[i..][1..] == a[i + 1..];
      SortSnoc(s, i);
      InsertInPlace(a, i);
      i := i + 1;
    }
    assert s[n..] == old(a[n..]) && s[..n] == old(a[..n]);
  }

  lemma SortOne(c: Pair)
    ensures Sort([c]) == [c]
  {
    assert [c][..0] == [];
  }

  lemma SortSnoc(s: seq<Pair>, i: nat)
    requires i < |s|
    ensures Sort(s[..i + 1]) == Insert(Sort(s[..i]), s[i])
  {
    assert s[..i + 1][..i] == s[..i];
  }

  // ---- The reply ----

  function PieceOf(c: Pair): seq<byte> { [c.prev, c.curr, c.n % 256, c.n / 256] }

  function Pieces(list: seq<Pair>): seq<seq<byte>> {
    if list == [] then [] else [PieceOf(list[0])] + Pieces(list[1..])
  }

  lemma {:induction false} PiecesLength(list: seq<Pair>)
    ensures |Concat(Pieces(list))| == 4 * |list|
  {
    if list != [] {
      PiecesLength(list[1..]);
      assert Pieces(list)[1..] == Pieces(list[1..]);
    }
  }

  /** What the host reads back: four bytes a pair, the count with its low byte first. */
  lemma {:induction false} HostReadsPairs(list: seq<Pair>, i: nat)
    requires i < |list|
    ensures var b := Concat(Pieces(list));
            && |b| == 4 * |list| && b[4 * i] == list[i].prev && b[4 * i + 1] == list[i].curr
            && b[4 * i + 2] + 256 * b[4 * i + 3] as int == list[i].n
  {
    PiecesLength(list);
    PiecesFrom(list);
    hide Concat, Pieces;
    if i > 0 { HostReadsPairs(list[1..], i - 1); }
  }

  lemma PiecesFrom(list: seq<Pair>)
    requires list != []
    ensures Concat(Pieces(list)) == PieceOf(list[0]) + Concat(Pieces(list[1..]))
  {
    assert Pieces(list)[1..] == Pieces(list[1..]);
  }

  /** The length announced before streaming is the number of bytes streamed, so the reply equals the one-shot
      response. */
  lemma DeclaredLengthIsExact(ch: KsResponse.Channel, cmd: byte, header: seq<byte>, list: seq<Pair>)
    requires |header| == 8 && |ch.captured| <= KsResponse.REDIRECT_MAX
    ensures var pieces := [header] + Pieces(list);
            KsResponse.Streamed(ch, cmd, 0, 8 + 4 * |list|, pieces)
            == KsResponse.Sent(ch, KsResponse.Reply(cmd, 0, Concat(pieces)))
  {
    hide KsResponse.Streamed, KsResponse.Sent, KsResponse.Reply, Concat, Pieces;
    var pieces := [header] + Pieces(list);
    ReplyLength(header, list);
    KsResponse.StreamingIsOneShot(ch, cmd, 0, pieces);
  }

  lemma ReplyLength(header: seq<byte>, list: seq<Pair>)
    ensures |Concat([header] + Pieces(list))| == |header| + 4 * |list|
  {
    hide Pieces;
    assert ([header] + Pieces(list))[1..] == Pieces(list);
    PiecesLength(list);
  }

  /** What the host reads: descending, distinct, nonzero, and the largest counts there are. */
  lemma ReplyIsTopDescending(stats: array2<count>, cap: nat)
    requires stats.Length0 == stats.Length1 <= 256
    ensures var cells := Cells(stats); var list := Sort(Select(cells, cap));
            Descending(list) && TopOf(list, cells, cap)
            && (|Nonzero(cells)| <= cap ==> multiset(list) == multiset(Nonzero(cells)))
  {
    var cells := Cells(stats);
    CellsDistinct(stats, stats.Length0, 0);
    SelectIsTop(cells, cap);
    SortSorts(Select(cells, cap));
    SameMembers(Select(cells, cap), Sort(Select(cells, cap)));
    if |Nonzero(cells)| <= cap { AllFit(cells, cap); }
  }

  lemma SameMembers(s: seq<Pair>, t: seq<Pair>)
    requires multiset(s) == multiset(t) && Distinct(s)
    ensures |s| == |t| && Distinct(t) && forall x :: x in s <==> x in t
  {
    assert |s| == |multiset(s)| && |t| == |multiset(t)|;
    forall x
      ensures x in s <==> x in t
    {
      assert x in s <==> x in multiset(s);
      assert x in t <==> x in multiset(t);
    }
    forall i, j | 0 <= i < j < |t|
      ensures t[i] != t[j]
    {
      if t[i] == t[j] {
        assert t == t[..i] + [t[i]] + t[i + 1..j] + [t[j]] + t[j + 1..];
        assert multiset(t)[t[i]] >= 2;
        CountOfDistinct(s, t[i]);
      }
    }
  }

  lemma {:induction false} CountOfDistinct(s: seq<Pair>, x: Pair)
    requires Distinct(s)
    ensures multiset(s)[x] <= 1
  {
    if s != [] {
      assert s == [s[0]] + s[1..];
      CountOfDistinct(s[1..], x);
    }
  }
}
