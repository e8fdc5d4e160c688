/**
 * The checkerboard remover: pixels that look like a light-grey generated
 * backdrop are flood-filled from the image border (4-connectivity) and every
 * pixel the fill reaches is made fully transparent.
 *
 * The fill is modelled as the source runs it: flag arrays indexed by
 * `y * width + x`, a worklist of (x, y) cells, and a push helper that refuses
 * cells outside the image, non-candidates and cells already marked. Its
 * specification is plain reachability over candidate cells.
 */
module Segmenter {
  import opened Raster

  function Max3(r: int, g: int, b: int): (m: int)
    ensures m >= r && m >= g && m >= b && (m == r || m == g || m == b)
  {
    if r >= g && r >= b then r else if g >= b then g else b
  }

  function Min3(r: int, g: int, b: int): (m: int)
    ensures m <= r && m <= g && m <= b && (m == r || m == g || m == b)
  {
    if r <= g && r <= b then r else if g <= b then g else b
  }

  /** The candidate test: visible, bright (max channel at least 220) and nearly grey (chroma at most 8). */
  predicate LightGrey(r: byte, g: byte, b: byte, a: byte) {
    a != 0 && Max3(r, g, b) >= 220 && Max3(r, g, b) - Min3(r, g, b) <= 8
  }

  /** Whether pixel `p` of a flat RGBA buffer passes the candidate test. */
  predicate CandidateAt(px: seq<byte>, p: int)
    requires 0 <= p && 4 * p + 3 < |px|
  {
    LightGrey(px[4 * p], px[4 * p + 1], px[4 * p + 2], px[4 * p + 3])
  }

  /** The candidate flags of the first `n` pixels. */
  ghost function CandidateMask(px: seq<byte>, n: nat): seq<bool>
    requires |px| == n * 4
  {
    seq(n, p requires 0 <= p < n => CandidateAt(px, p))
  }

  // ---------------------------------------------------------------------------
  // Reachability: the specification of the fill
  // ---------------------------------------------------------------------------

  /** The cells whose flag is set in a row-major flag sequence. */
  ghost function FlagCells(flags: seq<bool>, w: nat, h: nat): (cells: set<Cell>)
    requires |flags| == w * h
    ensures forall c :: c in cells ==> InGrid(w, h, c.0, c.1)
  {
    set x, y | 0 <= x < w && 0 <= y < h && flags[Idx(w, h, x, y)] :: (x, y)
  }

  /** The cells a candidate mask selects. */
  ghost function CandidateCells(px: seq<byte>, w: nat, h: nat): set<Cell>
    requires |px| == w * h * 4
  {
    FlagCells(CandidateMask(px, w * h), w, h)
  }

  /** The flag array `flags` is set at exactly the cells of `cells`. */
  ghost predicate FlagsHold(flags: array<bool>, w: nat, h: nat, cells: set<Cell>)
    reads flags
  {
    && flags.Length == w * h
    && (forall c :: c in cells ==> InGrid(w, h, c.0, c.1))
    && (forall x, y {:trigger flags[Idx(w, h, x, y)]} ::
          InGrid(w, h, x, y) ==> (flags[Idx(w, h, x, y)] <==> (x, y) in cells))
  }

  lemma FlagCellsHold(flags: array<bool>, w: nat, h: nat)
    requires flags.Length == w * h
    ensures FlagsHold(flags, w, h, FlagCells(flags[..], w, h))
  {
    var cells := FlagCells(flags[..], w, h);
    forall x, y | InGrid(w, h, x, y)
      ensures flags[Idx(w, h, x, y)] <==> (x, y) in cells
    {
      assert flags[..][Idx(w, h, x, y)] == flags[Idx(w, h, x, y)];
    }
  }

  predicate OnBorder(w: int, h: int, c: Cell) {
    c.0 == 0 || c.0 == w - 1 || c.1 == 0 || c.1 == h - 1
  }

  /** `d` is one of the four neighbours of `c`. */
  predicate Adjacent(c: Cell, d: Cell) {
    || (d.0 == c.0 + 1 && d.1 == c.1)
    || (d.0 == c.0 - 1 && d.1 == c.1)
    || (d.0 == c.0 && d.1 == c.1 + 1)
    || (d.0 == c.0 && d.1 == c.1 - 1)
  }

  /** A walk through candidate cells that starts on the border and moves between neighbours. */
  ghost predicate IsFillPath(cands: set<Cell>, w: int, h: int, path: seq<Cell>) {
    && |path| > 0
    && OnBorder(w, h, path[0])
    && (forall i :: 0 <= i < |path| ==> path[i] in cands)
    && (forall i :: 0 < i < |path| ==> Adjacent(path[i - 1], path[i]))
  }

  /** Cell `c` is connected to the border through candidate cells. */
  ghost predicate Reachable(cands: set<Cell>, w: int, h: int, c: Cell) {
    exists path :: IsFillPath(cands, w, h, path) && path[|path| - 1] == c
  }

  lemma SeedReachable(cands: set<Cell>, w: int, h: int, c: Cell)
    requires OnBorder(w, h, c)
    ensures c in cands ==> Reachable(cands, w, h, c)
  {
    if c in cands {
      assert IsFillPath(cands, w, h, [c]);
    }
  }

  lemma StepReachable(cands: set<Cell>, w: int, h: int, c: Cell, d: Cell)
    requires Reachable(cands, w, h, c) && Adjacent(c, d)
    ensures d in cands ==> Reachable(cands, w, h, d)
  {
    if d in cands {
      var path: seq<Cell> :| IsFillPath(cands, w, h, path) && path[|path| - 1] == c;
      var longer := path + [d];
      assert longer[|longer| - 1] == d;
      assert IsFillPath(cands, w, h, longer);
    }
  }

  lemma ReachableIsCandidate(cands: set<Cell>, w: int, h: int, c: Cell)
    requires Reachable(cands, w, h, c)
    ensures c in cands
  {
    var path: seq<Cell> :| IsFillPath(cands, w, h, path) && path[|path| - 1] == c;
    assert path[|path| - 1] in cands;
  }

  // ---------------------------------------------------------------------------
  // State of the fill
  // ---------------------------------------------------------------------------

  ghost predicate Distinct(s: seq<Cell>) {
    forall i, j :: 0 <= i < j < |s| ==> s[i] != s[j]
  }

  /**
   * The flag array `bg` is set at exactly the cells pushed so far; every
   * pushed cell was pushed once, lies in the image and is border-reachable.
   */
  ghost predicate Tracks(cands: set<Cell>, bg: array<bool>, w: nat, h: nat, pushed: seq<Cell>)
    reads bg
  {
    && bg.Length == w * h
    && Distinct(pushed)
    && (forall k :: 0 <= k < |pushed| ==> InGrid(w, h, pushed[k].0, pushed[k].1))
    && (forall k :: 0 <= k < |pushed| ==> Reachable(cands, w, h, pushed[k]))
    && (forall x, y {:trigger bg[Idx(w, h, x, y)]} ::
          InGrid(w, h, x, y) ==> (bg[Idx(w, h, x, y)] <==> (x, y) in pushed))
  }

  /** If `c` is a candidate it has been pushed. */
  ghost predicate Absorbed(cands: set<Cell>, pushed: seq<Cell>, c: Cell) {
    c in cands ==> c in pushed
  }

  /** All four neighbours of `c` have been offered to the worklist. */
  ghost predicate Closed(cands: set<Cell>, pushed: seq<Cell>, c: Cell) {
    && Absorbed(cands, pushed, (c.0 + 1, c.1))
    && Absorbed(cands, pushed, (c.0 - 1, c.1))
    && Absorbed(cands, pushed, (c.0, c.1 + 1))
    && Absorbed(cands, pushed, (c.0, c.1 - 1))
  }

  /** Both ends of row `y` have been offered. */
  ghost predicate EndsOfRowAbsorbed(cands: set<Cell>, w: int, pushed: seq<Cell>, y: int) {
    Absorbed(cands, pushed, (0, y)) && Absorbed(cands, pushed, (w - 1, y))
  }

  /** Both ends of column `x` have been offered. */
  ghost predicate EndsOfColumnAbsorbed(cands: set<Cell>, h: int, pushed: seq<Cell>, x: int) {
    Absorbed(cands, pushed, (x, 0)) && Absorbed(cands, pushed, (x, h - 1))
  }

  /** Every border candidate has been pushed. */
  ghost predicate BorderAbsorbed(cands: set<Cell>, w: int, h: int, pushed: seq<Cell>) {
    forall c :: c in cands && OnBorder(w, h, c) ==> c in pushed
  }

  /** Growing the pushed history keeps what was absorbed and closed. */
  lemma HistoryGrows(cands: set<Cell>, w: int, h: int, p: seq<Cell>, q: seq<Cell>, head: int)
    requires |p| <= |q| && q[..|p|] == p && 0 <= head <= |p|
    requires BorderAbsorbed(cands, w, h, p)
    requires forall k :: 0 <= k < head ==> Closed(cands, p, p[k])
    ensures BorderAbsorbed(cands, w, h, q)
    ensures forall k :: 0 <= k < head ==> Closed(cands, q, q[k])
  {
    forall c | c in p ensures c in q {
      var k :| 0 <= k < |p| && p[k] == c;
      assert q[k] == c;
    }
  }

  /**
   * The worklist `q'` is `q` followed by the cells pushed since history `p`,
   * and history `p'` extends `p`.
   */
  ghost predicate Extends(q: seq<Cell>, p: seq<Cell>, q': seq<Cell>, p': seq<Cell>) {
    |p| <= |p'| && p'[..|p|] == p && q' == q + p'[|p|..]
  }

  lemma ExtendsTransitive(q0: seq<Cell>, p0: seq<Cell>, q1: seq<Cell>, p1: seq<Cell>, q2: seq<Cell>, p2: seq<Cell>)
    requires Extends(q0, p0, q1, p1) && Extends(q1, p1, q2, p2)
    ensures Extends(q0, p0, q2, p2)
  {
    assert p2[..|p0|] == p2[..|p1|][..|p0|];
    assert p2[|p0|..] == p1[|p0|..] + p2[|p1|..] by {
      assert p2 == p1 + p2[|p1|..];
    }
  }

  /** A worklist that is a suffix of the history stays a suffix of the extended history. */
  lemma SuffixExtends(p: seq<Cell>, head: int, q': seq<Cell>, p': seq<Cell>)
    requires 0 <= head <= |p| && Extends(p[head..], p, q', p')
    ensures head <= |p'| && q' == p'[head..]
  {
    assert p' == p + p'[|p|..];
    assert p'[head..] == p[head..] + p'[|p|..];
  }

  /** Distinct pushed cells are at most as many as the image has pixels. */
  lemma PushedBound(w: nat, h: nat, pushed: seq<Cell>)
    requires Distinct(pushed)
    requires forall k :: 0 <= k < |pushed| ==> InGrid(w, h, pushed[k].0, pushed[k].1)
    ensures |pushed| <= w * h
  {
    var ids := seq(|pushed|, k requires 0 <= k < |pushed| => Idx(w, h, pushed[k].0, pushed[k].1));
    forall i, j | 0 <= i < j < |ids| ensures ids[i] != ids[j] {
      assert pushed[i] != pushed[j];
    }
    DistinctIndicesBounded(ids, w * h);
  }

  lemma {:induction false} DistinctIndicesBounded(s: seq<int>, n: nat)
    requires forall k :: 0 <= k < |s| ==> 0 <= s[k] < n
    requires forall i, j :: 0 <= i < j < |s| ==> s[i] != s[j]
    ensures |s| <= n
    decreases n
  {
    if |s| > 0 {
      assert 0 <= s[0] < n;
      var rest := s;
      var j := 0;
      while j < |s| && s[j] != n - 1
        invariant 0 <= j <= |s|
        invariant forall k :: 0 <= k < j ==> s[k] != n - 1
      {
        j := j + 1;
      }
      if j < |s| {
        rest := s[..j] + s[j + 1..];
        assert forall k :: 0 <= k < |rest| ==> rest[k] == (if k < j then s[k] else s[k + 1]);
      }
      forall k | 0 <= k < |rest| ensures rest[k] < n - 1 {
        if j == |s| {
          assert rest[k] != n - 1;
        } else if k < j {
          assert rest[k] == s[k] != s[j];
        } else {
          assert rest[k] == s[k + 1] != s[j];
        }
      }
      DistinctIndicesBounded(rest, n - 1);
    }
  }

  /** A history that holds the border candidates and is closed holds every reachable cell. */
  lemma ClosedHistoryComplete(cands: set<Cell>, w: int, h: int, pushed: seq<Cell>, c: Cell)
    requires BorderAbsorbed(cands, w, h, pushed)
    requires forall k :: 0 <= k < |pushed| ==> Closed(cands, pushed, pushed[k])
    requires Reachable(cands, w, h, c)
    ensures c in pushed
  {
    var path: seq<Cell> :| IsFillPath(cands, w, h, path) && path[|path| - 1] == c;
    assert path[0] in cands;
    var i := 0;
    while i < |path| - 1
      invariant 0 <= i < |path|
      invariant path[i] in pushed
    {
      var k :| 0 <= k < |pushed| && pushed[k] == path[i];
      assert Closed(cands, pushed, pushed[k]);
      assert Adjacent(path[i], path[i + 1]) && path[i + 1] in cands;
      i := i + 1;
    }
  }

  // ---------------------------------------------------------------------------
  // The three passes
  // ---------------------------------------------------------------------------

  /** Pass 1: flag every near-white, low-chroma, visible pixel. */
  method MarkCandidates(pixels: array<byte>, w: nat, h: nat) returns (cand: array<bool>)
    requires pixels.Length == w * h * 4
    ensures cand.Length == w * h
    ensures forall p :: 0 <= p < w * h ==> cand[p] == CandidateAt(pixels[..], p)
  {
    cand := new bool[w * h](_ => false);
    ghost var px := pixels[..];
    for y := 0 to h
      invariant forall p :: 0 <= p < w * h ==> cand[p] == (p < y * w && CandidateAt(px, p))
    {
      ghost var rowStart := y * w;
      for x := 0 to w
        invariant forall p :: 0 <= p < w * h ==> cand[p] == (p < rowStart + x && CandidateAt(px, p))
      {
        var id := Idx(w, h, x, y);
        var pIdx := id * 4;
        var r, g, b, a := pixels[pIdx], pixels[pIdx + 1], pixels[pIdx + 2], pixels[pIdx + 3];
        if a == 0 {
          continue;
        }
        var maxc := Max3(r, g, b);
        var minc := Min3(r, g, b);
        var chroma := maxc - minc;
        var lightGrey := maxc >= 220 && chroma <= 8;
        if lightGrey {
          cand[id] := true;
        }
      }
      assert (y + 1) * w == rowStart + w;
    }
  }

  /**
   * Push cell (x, y) when it lies in the image, is a candidate and is not yet
   * marked; marking happens at push time, so no cell is pushed twice.
   */
  method PushIfCandidate(cand: array<bool>, bg: array<bool>, w: nat, h: nat, x: int, y: int,
                         queue: seq<Cell>, ghost pushed: seq<Cell>, ghost cands: set<Cell>)
    returns (queue': seq<Cell>, ghost pushed': seq<Cell>)
    requires cand != bg && FlagsHold(cand, w, h, cands)
    requires Tracks(cands, bg, w, h, pushed)
    requires (x, y) in cands ==> Reachable(cands, w, h, (x, y))
    modifies bg
    ensures Tracks(cands, bg, w, h, pushed') && |pushed'| <= w * h
    ensures pushed' == pushed + (if (x, y) in cands && (x, y) !in pushed then [(x, y)] else [])
    ensures Extends(queue, pushed, queue', pushed')
  {
    queue', pushed' := queue, pushed;
    if x < 0 || y < 0 || x >= w || y >= h {
      PushedBound(w, h, pushed);
      return;
    }
    var id := Idx(w, h, x, y);
    if cand[id] && !bg[id] {
      bg[id] := true;
      queue' := queue + [(x, y)];
      pushed' := pushed + [(x, y)];
      forall x', y' | InGrid(w, h, x', y') && (x', y') != (x, y)
        ensures Idx(w, h, x', y') != id
      {
      }
    }
    PushedBound(w, h, pushed');
  }

  /** Pass 2a: offer every cell of the top and bottom rows. */
  method SeedRows(cand: array<bool>, bg: array<bool>, w: nat, h: nat, ghost cands: set<Cell>)
    returns (queue: seq<Cell>, ghost pushed: seq<Cell>)
    requires cand != bg && FlagsHold(cand, w, h, cands) && bg.Length == w * h
    requires forall i :: 0 <= i < bg.Length ==> !bg[i]
    modifies bg
    ensures Tracks(cands, bg, w, h, pushed) && queue == pushed
    ensures forall x :: 0 <= x < w ==> EndsOfColumnAbsorbed(cands, h, pushed, x)
  {
    queue := [];
    pushed := [];
    for x := 0 to w
      invariant Tracks(cands, bg, w, h, pushed) && queue == pushed
      invariant forall x' :: 0 <= x' < x ==> EndsOfColumnAbsorbed(cands, h, pushed, x')
    {
      SeedReachable(cands, w, h, (x, 0));
      SeedReachable(cands, w, h, (x, h - 1));
      ghost var p0 := pushed;
      queue, pushed := PushIfCandidate(cand, bg, w, h, x, 0, queue, pushed, cands);
      ghost var p1 := pushed;
      queue, pushed := PushIfCandidate(cand, bg, w, h, x, h - 1, queue, pushed, cands);
      assert Absorbed(cands, pushed, (x, 0)) by {
        assert Absorbed(cands, p1, (x, 0));
      }
      forall x' | 0 <= x' < x
        ensures EndsOfColumnAbsorbed(cands, h, pushed, x')
      {
        assert EndsOfColumnAbsorbed(cands, h, p0, x');
      }
    }
  }

  /** Pass 2a, continued: offer every cell of the left and right columns. */
  method SeedColumns(cand: array<bool>, bg: array<bool>, w: nat, h: nat, queue: seq<Cell>,
                     ghost pushed: seq<Cell>, ghost cands: set<Cell>)
    returns (queue': seq<Cell>, ghost pushed': seq<Cell>)
    requires cand != bg && FlagsHold(cand, w, h, cands)
    requires Tracks(cands, bg, w, h, pushed) && queue == pushed
    modifies bg
    ensures Tracks(cands, bg, w, h, pushed') && queue' == pushed'
    ensures |pushed| <= |pushed'| && pushed'[..|pushed|] == pushed
    ensures forall y :: 0 <= y < h ==> EndsOfRowAbsorbed(cands, w, pushed', y)
  {
    queue', pushed' := queue, pushed;
    for y := 0 to h
      invariant Tracks(cands, bg, w, h, pushed') && queue' == pushed'
      invariant |pushed| <= |pushed'| && pushed'[..|pushed|] == pushed
      invariant forall y' :: 0 <= y' < y ==> EndsOfRowAbsorbed(cands, w, pushed', y')
    {
      SeedReachable(cands, w, h, (0, y));
      SeedReachable(cands, w, h, (w - 1, y));
      ghost var p0 := pushed';
      queue', pushed' := PushIfCandidate(cand, bg, w, h, 0, y, queue', pushed', cands);
      ghost var p1 := pushed';
      queue', pushed' := PushIfCandidate(cand, bg, w, h, w - 1, y, queue', pushed', cands);
      assert Absorbed(cands, pushed', (0, y)) by {
        assert Absorbed(cands, p1, (0, y));
      }
      forall y' | 0 <= y' < y
        ensures EndsOfRowAbsorbed(cands, w, pushed', y')
      {
        assert EndsOfRowAbsorbed(cands, w, p0, y');
      }
      assert pushed'[..|pushed|] == p0[..|pushed|];
    }
  }

  /** Offer two cells, in order, that are each reachable if they are candidates. */
  method OfferTwo(cand: array<bool>, bg: array<bool>, w: nat, h: nat, d: Cell, e: Cell,
                  queue: seq<Cell>, ghost pushed: seq<Cell>, ghost cands: set<Cell>)
    returns (queue': seq<Cell>, ghost pushed': seq<Cell>)
    requires cand != bg && FlagsHold(cand, w, h, cands)
    requires Tracks(cands, bg, w, h, pushed)
    requires d in cands ==> Reachable(cands, w, h, d)
    requires e in cands ==> Reachable(cands, w, h, e)
    modifies bg
    ensures Tracks(cands, bg, w, h, pushed') && |pushed'| <= w * h
    ensures Extends(queue, pushed, queue', pushed')
    ensures Absorbed(cands, pushed', d) && Absorbed(cands, pushed', e)
  {
    queue', pushed' := PushIfCandidate(cand, bg, w, h, d.0, d.1, queue, pushed, cands);
    ghost var q1, p1 := queue', pushed';
    queue', pushed' := PushIfCandidate(cand, bg, w, h, e.0, e.1, queue', pushed', cands);
    ExtendsTransitive(queue, pushed, q1, p1, queue', pushed');
    assert Absorbed(cands, pushed', d) by {
      assert Absorbed(cands, p1, d);
    }
  }

  /** Offer the four neighbours of a reachable cell, in the source's order: right, left, down, up. */
  method OfferNeighbours(cand: array<bool>, bg: array<bool>, w: nat, h: nat, c: Cell,
                         queue: seq<Cell>, ghost pushed: seq<Cell>, ghost cands: set<Cell>)
    returns (queue': seq<Cell>, ghost pushed': seq<Cell>)
    requires cand != bg && FlagsHold(cand, w, h, cands)
    requires Tracks(cands, bg, w, h, pushed)
    requires Reachable(cands, w, h, c)
    modifies bg
    ensures Tracks(cands, bg, w, h, pushed') && |pushed'| <= w * h
    ensures Extends(queue, pushed, queue', pushed')
    ensures Closed(cands, pushed', c)
  {
    var x, y := c.0, c.1;
    StepReachable(cands, w, h, c, (x + 1, y));
    StepReachable(cands, w, h, c, (x - 1, y));
    StepReachable(cands, w, h, c, (x, y + 1));
    StepReachable(cands, w, h, c, (x, y - 1));
    queue', pushed' := OfferTwo(cand, bg, w, h, (x + 1, y), (x - 1, y), queue, pushed, cands);
    ghost var q1, p1 := queue', pushed';
    queue', pushed' := OfferTwo(cand, bg, w, h, (x, y + 1), (x, y - 1), queue', pushed', cands);
    ExtendsTransitive(queue, pushed, q1, p1, queue', pushed');
    assert Absorbed(cands, pushed', (x + 1, y)) && Absorbed(cands, pushed', (x - 1, y)) by {
      assert Absorbed(cands, p1, (x + 1, y)) && Absorbed(cands, p1, (x - 1, y));
    }
  }

  /** The worklist is the unprocessed tail of the history; every processed cell is closed. */
  ghost predicate Draining(cands: set<Cell>, bg: array<bool>, w: nat, h: nat,
                           queue: seq<Cell>, pushed: seq<Cell>, head: int)
    reads bg
  {
    && Tracks(cands, bg, w, h, pushed)
    && 0 <= head <= |pushed| <= w * h && queue == pushed[head..]
    && BorderAbsorbed(cands, w, h, pushed)
    && (forall k :: 0 <= k < head ==> Closed(cands, pushed, pushed[k]))
  }

  /** One turn of pass 2b: take the front cell of the worklist and offer its neighbours. */
  method DrainOne(cand: array<bool>, bg: array<bool>, w: nat, h: nat, queue: seq<Cell>,
                  ghost pushed: seq<Cell>, ghost head: int, ghost cands: set<Cell>)
    returns (queue': seq<Cell>, ghost pushed': seq<Cell>)
    requires cand != bg && FlagsHold(cand, w, h, cands)
    requires Draining(cands, bg, w, h, queue, pushed, head) && |queue| > 0
    modifies bg
    ensures Draining(cands, bg, w, h, queue', pushed', head + 1)
    ensures |pushed| <= |pushed'|
  {
    var c := queue[0];
    assert c == pushed[head];
    queue', pushed' := OfferNeighbours(cand, bg, w, h, c, queue[1..], pushed, cands);
    SuffixExtends(pushed, head + 1, queue', pushed');
    HistoryGrows(cands, w, h, pushed, pushed', head);
    assert pushed'[head] == c;
  }

  /** When every pushed cell is closed, the history is exactly the reachable cells. */
  lemma DrainedIsReachable(cands: set<Cell>, bg: array<bool>, w: nat, h: nat, pushed: seq<Cell>)
    requires Draining(cands, bg, w, h, [], pushed, |pushed|)
    ensures forall c :: c in pushed <==> Reachable(cands, w, h, c)
  {
    forall c | Reachable(cands, w, h, c) ensures c in pushed {
      ClosedHistoryComplete(cands, w, h, pushed, c);
    }
    forall c | c in pushed ensures Reachable(cands, w, h, c) {
      var k :| 0 <= k < |pushed| && pushed[k] == c;
    }
  }

  /**
   * Pass 2b: take cells from the front of the worklist and offer their four
   * neighbours until the worklist is empty. On return the pushed history holds
   * exactly the border-reachable cells.
   */
  method DrainQueue(cand: array<bool>, bg: array<bool>, w: nat, h: nat, queue: seq<Cell>,
                    ghost pushed: seq<Cell>, ghost cands: set<Cell>)
    returns (ghost pushed': seq<Cell>)
    requires cand != bg && FlagsHold(cand, w, h, cands)
    requires Tracks(cands, bg, w, h, pushed) && queue == pushed
    requires BorderAbsorbed(cands, w, h, pushed)
    modifies bg
    ensures Tracks(cands, bg, w, h, pushed') && |pushed'| <= w * h
    ensures forall c :: c in pushed' <==> Reachable(cands, w, h, c)
  {
    var queue := queue;
    pushed' := pushed;
    PushedBound(w, h, pushed');
    ghost var head := 0;
    while |queue| > 0
      invariant Draining(cands, bg, w, h, queue, pushed', head)
      decreases w * h - |pushed'|, |queue|
    {
      queue, pushed' := DrainOne(cand, bg, w, h, queue, pushed', head, cands);
      head := head + 1;
    }
    DrainedIsReachable(cands, bg, w, h, pushed');
  }

  /**
   * Pass 2: seed the worklist with every border candidate, then drain it. The
   * flags returned are exactly the border-reachable cells, and no cell was
   * ever enqueued twice, so the worklist held at most `w * h` cells in all.
   */
  method FloodFromBorder(cand: array<bool>, w: nat, h: nat) returns (bg: array<bool>, ghost pushed: seq<Cell>)
    requires cand.Length == w * h
    ensures bg.Length == w * h
    ensures forall x, y :: InGrid(w, h, x, y) ==>
      (bg[Idx(w, h, x, y)] <==> Reachable(FlagCells(cand[..], w, h), w, h, (x, y)))
    ensures Distinct(pushed) && |pushed| <= w * h
    ensures forall c :: c in pushed <==> Reachable(FlagCells(cand[..], w, h), w, h, c)
  {
    bg := new bool[w * h](_ => false);
    ghost var cands := FlagCells(cand[..], w, h);
    FlagCellsHold(cand, w, h);
    var queue;
    queue, pushed := SeedRows(cand, bg, w, h, cands);
    ghost var rows := pushed;
    queue, pushed := SeedColumns(cand, bg, w, h, queue, pushed, cands);
    forall c | c in cands && OnBorder(w, h, c)
      ensures c in pushed
    {
      if c.0 == 0 || c.0 == w - 1 {
        assert EndsOfRowAbsorbed(cands, w, pushed, c.1);
      } else {
        assert EndsOfColumnAbsorbed(cands, h, rows, c.0);
        if c.1 == 0 {
          assert Absorbed(cands, rows, (c.0, 0));
        } else {
          assert Absorbed(cands, rows, (c.0, h - 1));
        }
        assert c in rows;
        var k :| 0 <= k < |rows| && rows[k] == c;
        assert pushed[k] == c;
      }
    }
    pushed := DrainQueue(cand, bg, w, h, queue, pushed, cands);
  }

  /** Pass 3: zero the alpha byte of every background pixel. */
  method ClearBackground(pixels: array<byte>, bg: array<bool>, w: nat, h: nat)
    requires pixels.Length == w * h * 4 && bg.Length == w * h
    modifies pixels
    ensures forall i :: 0 <= i < pixels.Length ==>
      pixels[i] == (if i % 4 == 3 && bg[i / 4] then 0 else old(pixels[i]))
  {
    ghost var px := pixels[..];
    for y := 0 to h
      invariant ClearedUpTo(pixels, bg, px, y * w)
    {
      ClearRow(pixels, bg, w, h, y, px);
    }
    assert h * w == w * h;
  }

  /** The pixels before index `n` have their alpha cleared where flagged; everything else still holds `px`. */
  ghost predicate ClearedUpTo(pixels: array<byte>, bg: array<bool>, px: seq<byte>, n: int)
    reads pixels, bg
  {
    && pixels.Length == |px| == bg.Length * 4
    && forall i :: 0 <= i < |px| ==>
         pixels[i] == (if i % 4 == 3 && i / 4 < n && bg[i / 4] then 0 else px[i])
  }

  /** One pass of the row loop: clear the flagged pixels of row `y`. */
  method ClearRow(pixels: array<byte>, bg: array<bool>, w: nat, h: nat, y: nat, ghost px: seq<byte>)
    requires bg.Length == w * h && y < h
    requires ClearedUpTo(pixels, bg, px, y * w)
    modifies pixels
    ensures ClearedUpTo(pixels, bg, px, (y + 1) * w)
  {
    ghost var rowStart := y * w;
    for x := 0 to w
      invariant ClearedUpTo(pixels, bg, px, rowStart + x)
    {
      ClearPixel(pixels, bg, w, h, x, y, px);
    }
    assert (y + 1) * w == rowStart + w;
  }

  /** One step of the pixel loop: clear the alpha of (x, y) if it is flagged as background. */
  method ClearPixel(pixels: array<byte>, bg: array<bool>, w: nat, h: nat, x: nat, y: nat, ghost px: seq<byte>)
    requires bg.Length == w * h && InGrid(w, h, x, y)
    requires ClearedUpTo(pixels, bg, px, Idx(w, h, x, y))
    modifies pixels
    ensures ClearedUpTo(pixels, bg, px, Idx(w, h, x, y) + 1)
  {
    var id := Idx(w, h, x, y);
    if !bg[id] {
      return;
    }
    var pIdx := id * 4;
    assert (pIdx + 3) / 4 == id;
    pixels[pIdx + 3] := 0;
  }

  // ---------------------------------------------------------------------------
  // The whole remover
  // ---------------------------------------------------------------------------

  /** Pixel `p` of a `w`-wide image is border-reachable through the candidate cells `cands`. */
  ghost predicate IsBackground(cands: set<Cell>, w: nat, h: nat, p: int) {
    w > 0 && p >= 0 && Reachable(cands, w, h, (p % w, p / w))
  }

  /**
   * The remover's result: every border-reachable candidate pixel gets alpha 0,
   * every other byte is kept. Only alpha bytes change, and none grows.
   */
  ghost function BackgroundRemoved(px: seq<byte>, w: nat, h: nat): (r: seq<byte>)
    requires |px| == w * h * 4
    ensures |r| == |px|
    ensures forall i :: 0 <= i < |px| && i % 4 != 3 ==> r[i] == px[i]
    ensures forall i :: 0 <= i < |px| ==> r[i] <= px[i]
  {
    var cands := CandidateCells(px, w, h);
    seq(|px|, i requires 0 <= i < |px| =>
      if i % 4 == 3 && IsBackground(cands, w, h, i / 4) then 0 else px[i])
  }

  /**
   * Remove the border-connected light-grey backdrop of a decoded RGBA buffer
   * in place.
   */
  method RemoveCheckerboardBackground(pixels: array<byte>, w: nat, h: nat)
    requires pixels.Length == w * h * 4
    modifies pixels
    ensures pixels[..] == BackgroundRemoved(old(pixels[..]), w, h)
  {
    ghost var px := pixels[..];
    var cand := MarkCandidates(pixels, w, h);
    assert cand[..] == CandidateMask(px, w * h);
    ghost var cands := CandidateCells(px, w, h);
    var bg, _ := FloodFromBorder(cand, w, h);
    forall p | 0 <= p < w * h ensures bg[p] == IsBackground(cands, w, h, p) {
      IdxOfIndex(w, h, p);
    }
    ClearBackground(pixels, bg, w, h);
  }

  // ---------------------------------------------------------------------------
  // What the remover promises
  // ---------------------------------------------------------------------------

  /** Cell (x, y) is a candidate cell exactly when its pixel passes the candidate test. */
  lemma CandidateCell(px: seq<byte>, w: nat, h: nat, x: int, y: int)
    requires |px| == w * h * 4 && InGrid(w, h, x, y)
    ensures (x, y) in CandidateCells(px, w, h) <==> CandidateAt(px, Idx(w, h, x, y))
  {
    var mask := CandidateMask(px, w * h);
    if CandidateAt(px, Idx(w, h, x, y)) {
      assert mask[Idx(w, h, x, y)];
    }
  }

  /** The alpha byte of cell (x, y) after removal is 0 when the cell is border-reachable, else unchanged. */
  lemma RemovedAlpha(px: seq<byte>, w: nat, h: nat, x: int, y: int)
    requires |px| == w * h * 4 && InGrid(w, h, x, y)
    ensures 4 * Idx(w, h, x, y) + 3 < |px|
    ensures BackgroundRemoved(px, w, h)[4 * Idx(w, h, x, y) + 3] ==
      if Reachable(CandidateCells(px, w, h), w, h, (x, y)) then 0 else px[4 * Idx(w, h, x, y) + 3]
  {
    var p := Idx(w, h, x, y);
    var i := 4 * p + 3;
    assert i % 4 == 3 && i / 4 == p;
    var r := BackgroundRemoved(px, w, h);
    assert r[i] == if IsBackground(CandidateCells(px, w, h), w, h, p) then 0 else px[i];
  }

  /** Only the alpha byte of a candidate pixel can change, and then it becomes 0. */
  lemma OnlyCandidatesCleared(px: seq<byte>, w: nat, h: nat, i: int)
    requires |px| == w * h * 4 && 0 <= i < |px|
    requires BackgroundRemoved(px, w, h)[i] != px[i]
    ensures i % 4 == 3 && CandidateAt(px, i / 4) && BackgroundRemoved(px, w, h)[i] == 0
  {
    var p := i / 4;
    var cands := CandidateCells(px, w, h);
    assert IsBackground(cands, w, h, p);
    IdxOfIndex(w, h, p);
    ReachableIsCandidate(cands, w, h, (p % w, p / w));
    CandidateCell(px, w, h, p % w, p / w);
  }

  /** A candidate pixel on the image border always loses its alpha. */
  lemma BorderCandidateCleared(px: seq<byte>, w: nat, h: nat, x: int, y: int)
    requires |px| == w * h * 4 && InGrid(w, h, x, y) && OnBorder(w, h, (x, y))
    requires CandidateAt(px, Idx(w, h, x, y))
    ensures BackgroundRemoved(px, w, h)[4 * Idx(w, h, x, y) + 3] == 0
  {
    CandidateCell(px, w, h, x, y);
    SeedReachable(CandidateCells(px, w, h), w, h, (x, y));
    RemovedAlpha(px, w, h, x, y);
  }

  /** Clearing spreads: a candidate next to a cleared pixel is cleared too. */
  lemma ClearingSpreads(px: seq<byte>, w: nat, h: nat, c: Cell, d: Cell)
    requires |px| == w * h * 4 && InGrid(w, h, c.0, c.1) && InGrid(w, h, d.0, d.1) && Adjacent(c, d)
    requires BackgroundRemoved(px, w, h)[4 * Idx(w, h, c.0, c.1) + 3] != px[4 * Idx(w, h, c.0, c.1) + 3]
    requires CandidateAt(px, Idx(w, h, d.0, d.1))
    ensures BackgroundRemoved(px, w, h)[4 * Idx(w, h, d.0, d.1) + 3] == 0
  {
    var cands := CandidateCells(px, w, h);
    ChangedIsReachable(px, w, h, c);
    CandidateCell(px, w, h, d.0, d.1);
    StepReachable(cands, w, h, c, d);
    RemovedAlpha(px, w, h, d.0, d.1);
  }

  /** A pixel whose alpha the removal changes is border-reachable. */
  lemma ChangedIsReachable(px: seq<byte>, w: nat, h: nat, c: Cell)
    requires |px| == w * h * 4 && InGrid(w, h, c.0, c.1)
    requires BackgroundRemoved(px, w, h)[4 * Idx(w, h, c.0, c.1) + 3] != px[4 * Idx(w, h, c.0, c.1) + 3]
    ensures Reachable(CandidateCells(px, w, h), w, h, c)
  {
    RemovedAlpha(px, w, h, c.0, c.1);
  }

  /**
   * `region` lies strictly inside the image and is walled off: every
   * neighbour outside it that lies in the image fails the candidate test.
   */
  ghost predicate Enclosed(px: seq<byte>, w: nat, h: nat, region: set<Cell>)
    requires |px| == w * h * 4
  {
    && (forall c :: c in region ==> InGrid(w, h, c.0, c.1) && !OnBorder(w, h, c))
    && (forall c, d :: c in region && Adjacent(c, d) && d !in region && InGrid(w, h, d.0, d.1) ==>
          !CandidateAt(px, Idx(w, h, d.0, d.1)))
  }

  /** No fill path reaches into an enclosed region. */
  lemma {:induction false} EnclosedUnreachable(px: seq<byte>, w: nat, h: nat, region: set<Cell>, c: Cell)
    requires |px| == w * h * 4 && Enclosed(px, w, h, region) && c in region
    ensures !Reachable(CandidateCells(px, w, h), w, h, c)
  {
    var cands := CandidateCells(px, w, h);
    if Reachable(cands, w, h, c) {
      var path: seq<Cell> :| IsFillPath(cands, w, h, path) && path[|path| - 1] == c;
      var i := 0;
      while i < |path| - 1
        invariant 0 <= i < |path| && path[i] !in region
      {
        var d, e := path[i], path[i + 1];
        assert Adjacent(d, e) && d in cands;
        if e in region {
          assert Adjacent(e, d);
          CandidateCell(px, w, h, d.0, d.1);
          assert false;
        }
        i := i + 1;
      }
    }
  }

  /** Light pixels walled off from the border by non-candidates keep their alpha: enclosed highlights survive. */
  lemma EnclosedRegionKept(px: seq<byte>, w: nat, h: nat, region: set<Cell>, x: int, y: int)
    requires |px| == w * h * 4 && Enclosed(px, w, h, region) && (x, y) in region
    ensures InGrid(w, h, x, y)
    ensures BackgroundRemoved(px, w, h)[4 * Idx(w, h, x, y) + 3] == px[4 * Idx(w, h, x, y) + 3]
  {
    EnclosedUnreachable(px, w, h, region, (x, y));
    RemovedAlpha(px, w, h, x, y);
  }

  /** When every pixel passes the candidate test, every pixel is cleared. */
  lemma AllCandidatesCleared(px: seq<byte>, w: nat, h: nat)
    requires |px| == w * h * 4
    requires forall p :: 0 <= p < w * h ==> CandidateAt(px, p)
    ensures forall i :: 0 <= i < |px| && i % 4 == 3 ==> BackgroundRemoved(px, w, h)[i] == 0
  {
    var cands := CandidateCells(px, w, h);
    forall i | 0 <= i < |px| && i % 4 == 3
      ensures BackgroundRemoved(px, w, h)[i] == 0
    {
      var p := i / 4;
      IdxOfIndex(w, h, p);
      var x, y := p % w, p / w;
      var column := seq(y + 1, k requires 0 <= k <= y => (x, k));
      forall k | 0 <= k <= y ensures column[k] in cands {
        CandidateCell(px, w, h, x, k);
      }
      assert IsFillPath(cands, w, h, column) && column[y] == (x, y);
      assert IsBackground(cands, w, h, p);
    }
  }
}
