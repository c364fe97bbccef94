/** The mask penalty, as the source scores it (packages/designer-runtime/src/qr.ts:300-341). */
module Penalties {
  import opened SymbolLayout
  import opened SymbolPicture
  import opened Grids

  // ----- what is scored -----

  /** Row `y` of a symbol, or its column `y`. */
  function LineOf(dark: seq<bool>, size: nat, horizontal: bool, y: nat): (line: seq<bool>)
    requires |dark| == size * size && y < size
    ensures |line| == size
    ensures forall i :: 0 <= i < size ==> line[i] == if horizontal then At(dark, size, i, y) else At(dark, size, y, i)
  {
    seq(size, i requires 0 <= i < size => if horizontal then At(dark, size, i, y) else At(dark, size, y, i))
  }

  /** The length of the run of equal modules that starts a line. */
  function RunLength(line: seq<bool>): (n: nat)
    requires line != []
    ensures 1 <= n <= |line|
    ensures forall k :: 0 <= k < n ==> line[k] == line[0]
    ensures n < |line| ==> line[n] != line[0]
  {
    if |line| == 1 || line[1] != line[0] then 1 else 1 + RunLength(line[1..])
  }

  function Credit(run: nat): nat { if run >= 5 then run - 2 else 0 }

  /** The runs of five or more in a line, each worth its length less two. */
  function LineScore(line: seq<bool>): nat {
    if line == [] then 0 else Credit(RunLength(line)) + LineScore(line[RunLength(line)..])
  }

  function LinesScore(dark: seq<bool>, size: nat, n: nat): nat
    requires |dark| == size * size && n <= size
  {
    if n == 0 then 0
    else
      LinesScore(dark, size, n - 1)
      + LineScore(LineOf(dark, size, true, n - 1)) + LineScore(LineOf(dark, size, false, n - 1))
  }

  /** The two-by-two square whose top-left module is `(x, y)` is of one colour. */
  predicate Square(dark: seq<bool>, size: nat, x: nat, y: nat)
    requires |dark| == size * size && x + 1 < size && y + 1 < size
  {
    At(dark, size, x, y) == At(dark, size, x + 1, y) == At(dark, size, x, y + 1) == At(dark, size, x + 1, y + 1)
  }

  function SquaresInRow(dark: seq<bool>, size: nat, y: nat, n: nat): nat
    requires |dark| == size * size && y + 1 < size && n < size
  {
    if n == 0 then 0 else SquaresInRow(dark, size, y, n - 1) + if Square(dark, size, n - 1, y) then 1 else 0
  }

  function Squares(dark: seq<bool>, size: nat, n: nat): nat
    requires |dark| == size * size && n < size
  {
    if n == 0 then 0 else Squares(dark, size, n - 1) + SquaresInRow(dark, size, n - 1, size - 1)
  }

  const FINDER_LIKE := [true, false, true, true, true, false, true, false, false, false, false]

  /** The lengths of the runs of a line, from its start. */
  function Runs(line: seq<bool>): seq<nat> {
    if line == [] then [] else [RunLength(line)] + Runs(line[RunLength(line)..])
  }

  lemma SameRun(u: seq<bool>, v: seq<bool>)
    requires u != [] && v != [] && u[0] == v[0] && RunLength(u) == RunLength(v)
    ensures var n := RunLength(u);
      u[..n] == v[..n] && (u[n..] != [] && v[n..] != [] ==> u[n..][0] == v[n..][0])
  {
    hide RunLength;
  }

  lemma RunsOf(line: seq<bool>)
    requires line != []
    ensures Runs(line) == [RunLength(line)] + Runs(line[RunLength(line)..])
  {
    hide RunLength;
  }

  lemma SameHead(a: nat, s: seq<nat>, b: nat, t: seq<nat>)
    requires [a] + s == [b] + t
    ensures a == b && s == t
  {
    assert ([a] + s)[0] == a && ([b] + t)[0] == b;
    assert ([a] + s)[1..] == s && ([b] + t)[1..] == t;
  }

  lemma {:induction false} RunsDetermine(u: seq<bool>, v: seq<bool>)
    requires Runs(u) == Runs(v) && (u != [] && v != [] ==> u[0] == v[0])
    ensures u == v
  {
    hide RunLength;
    if u == [] || v == [] {
    } else {
      RunsOf(u);
      RunsOf(v);
      hide Runs;
      SameHead(RunLength(u), Runs(u[RunLength(u)..]), RunLength(v), Runs(v[RunLength(v)..]));
      var n := RunLength(u);
      SameRun(u, v);
      RunsDetermine(u[n..], v[n..]);
      assert u == u[..n] + u[n..] && v == v[..n] + v[n..];
    }
  }

  lemma RunThen(line: seq<bool>, n: nat, rest: seq<bool>)
    requires 0 < n <= |line| && line[n..] == rest
    requires (forall k :: 0 <= k < n ==> line[k] == line[0]) && (rest != [] ==> rest[0] != line[0])
    ensures Runs(line) == [n] + Runs(rest)
  {
    assert n < |line| ==> line[n] == rest[0];
    RunLengthIs(line, n);
  }

  lemma FinderLikeHasRuns()
    ensures Runs(FINDER_LIKE) == [1, 1, 3, 1, 1, 4]
  {
    InnerRuns();
    OuterRuns();
    hide *;
  }

  lemma OuterRuns()
    ensures Runs([false, true, false, false, false, false]) == [1, 1, 4]
  {
    assert Runs([]) == [];
    hide Runs, RunLength;
    var light := [false, false, false, false];
    RunThen(light, 4, []);
    RunThen([true] + light, 1, light);
    RunThen([false] + ([true] + light), 1, [true] + light);
    assert [false] + ([true] + light) == [false, true, false, false, false, false];
  }

  lemma InnerRuns()
    ensures var rest := [false, true, false, false, false, false];
      Runs(FINDER_LIKE) == [1, 1, 3] + Runs(rest)
  {
    hide Runs, RunLength;
    var rest := [false, true, false, false, false, false];
    RunThen([true, true, true] + rest, 3, rest);
    RunThen([false] + ([true, true, true] + rest), 1, [true, true, true] + rest);
    RunThen(FINDER_LIKE, 1, [false] + ([true, true, true] + rest));
  }

  /** A window counts exactly when it starts dark and its runs are those of a finder, 1:1:3:1:1, and four
      light modules more. */
  lemma FinderLikeRuns(window: seq<bool>)
    ensures window == FINDER_LIKE <==> window != [] && window[0] && Runs(window) == [1, 1, 3, 1, 1, 4]
  {
    FinderLikeHasRuns();
    if window != [] && window[0] && Runs(window) == [1, 1, 3, 1, 1, 4] {
      RunsDetermine(window, FINDER_LIKE);
    }
  }

  function Finders(line: seq<bool>, n: nat): nat
    requires n + 10 <= |line|
  {
    if n == 0 then 0 else Finders(line, n - 1) + if line[n - 1..n + 10] == FINDER_LIKE then 1 else 0
  }

  function FindersInLines(dark: seq<bool>, size: nat, n: nat): nat
    requires |dark| == size * size && n <= size && size >= 11
  {
    if n == 0 then 0
    else
      FindersInLines(dark, size, n - 1)
      + Finders(LineOf(dark, size, true, n - 1), size - 10) + Finders(LineOf(dark, size, false, n - 1), size - 10)
  }

  function DarkCount(dark: seq<bool>): nat {
    if dark == [] then 0 else DarkCount(dark[..|dark| - 1]) + if dark[|dark| - 1] then 1 else 0
  }

  /** Ten for every whole 5% that the dark share is away from half. */
  function Imbalance(count: nat, total: nat): nat
    requires total > 0
  {
    Quotient(Abs(100 * count - 50 * total), 5 * total) * 10
  }

  /** The source divides in fractions: 100 * count / total against 50, in whole steps of five. */
  lemma ImbalanceSteps(count: nat, total: nat, steps: nat)
    requires total > 0
    ensures var share := 100.0 * count as real / total as real - 50.0;
      Imbalance(count, total) == 10 * steps <==>
      5.0 * steps as real <= (if share < 0.0 then -share else share) < 5.0 * (steps + 1) as real
  {
    var share := 100.0 * count as real / total as real - 50.0;
    var size, away := if share < 0.0 then -share else share, Abs(100 * count - 50 * total);
    AwayIs(count, total);
    Steps(size, away, total, steps);
    Steps(size, away, total, steps + 1);
    QuotientIs(away, 5 * total, steps);
    hide Quotient;
  }

  lemma Steps(size: real, away: nat, total: nat, steps: nat)
    requires total > 0 && size * total as real == away as real
    ensures 5.0 * steps as real <= size <==> 5 * total * steps <= away
  {
    Compare(5.0 * steps as real, size, total as real);
    Fives(steps, total);
  }

  lemma AwayIs(count: nat, total: nat)
    requires total > 0
    ensures var share := 100.0 * count as real / total as real - 50.0;
      (if share < 0.0 then -share else share) * total as real == Abs(100 * count - 50 * total) as real
  {
    var share := 100.0 * count as real / total as real - 50.0;
    assert share * total as real == (100 * count - 50 * total) as real;
    assert share < 0.0 <==> share * total as real < 0.0;
  }

  lemma Compare(a: real, b: real, k: real)
    requires k > 0.0
    ensures a <= b <==> a * k <= b * k
  {
    assert (b - a) * k == b * k - a * k;
  }

  lemma Fives(steps: nat, total: nat)
    ensures 5.0 * steps as real * total as real == (5 * total * steps) as real
  {
    assert (5 * total * steps) as real == 5.0 * (total * steps) as real == 5.0 * (total as real * steps as real);
  }

  lemma QuotientIs(a: nat, b: nat, q: nat)
    requires b > 0
    ensures Quotient(a, b) == q <==> b * q <= a < b * (q + 1)
  {
    var d := a / b - q;
    assert a == b * (a / b) + a % b;
    assert b * d == b * (a / b) - b * q;
    assert (d > 0 ==> b * d >= b) && (d < 0 ==> b * d + b <= 0);
  }

  function Quotient(a: nat, b: nat): nat
    requires b > 0
  {
    a / b
  }

  function Penalty(dark: seq<bool>, size: nat): nat
    requires |dark| == size * size && size >= 11
  {
    LinesScore(dark, size, size) + 3 * Squares(dark, size, size - 1) + 40 * FindersInLines(dark, size, size)
    + Imbalance(DarkCount(dark), |dark|)
  }

  // ----- the source's loops -----

  lemma {:induction false} RunLengthIs(line: seq<bool>, n: nat)
    requires 1 <= n <= |line| && (forall k :: 0 <= k < n ==> line[k] == line[0])
    requires n < |line| ==> line[n] != line[0]
    ensures RunLength(line) == n
  {
    if n == 1 {
    } else {
      assert line[1] == line[0];
      forall k | 0 <= k < n - 1 ensures line[1..][k] == line[1..][0] {
        assert line[k + 1] == line[0];
      }
      RunLengthIs(line[1..], n - 1);
    }
  }

  lemma RunEnds(line: seq<bool>, from: nat, to: nat)
    requires from < to <= |line| && (forall k :: from <= k < to ==> line[k] == line[to - 1])
    requires to < |line| ==> line[to] != line[to - 1]
    ensures LineScore(line[from..]) == Credit(to - from) + LineScore(line[to..])
  {
    RunLengthIs(line[from..], to - from);
    assert line[from..][to - from..] == line[to..];
  }

  predicate Module(g: Grid, horizontal: bool, y: nat, i: nat)
    requires g.Valid() && y < g.size && i < g.size
    reads g.modules
  {
    if horizontal then g.Dark(i, y) else g.Dark(y, i)
  }

  method ScoreLine(g: Grid, horizontal: bool, y: nat) returns (score: nat)
    requires g.Valid() && y < g.size
    ensures score == LineScore(LineOf(g.Picture(), g.size, horizontal, y))
  {
    hide LineScore, At;
    ghost var line := LineOf(g.Picture(), g.size, horizontal, y);
    score := 0;
    var run := 1;
    assert line[0..] == line;
    for i := 1 to g.size
      invariant 1 <= run <= i && forall k :: i - run <= k < i ==> line[k] == line[i - 1]
      invariant LineScore(line) == score + LineScore(line[i - run..])
    {
      if Module(g, horizontal, y, i) == Module(g, horizontal, y, i - 1) {
        run := run + 1;
      } else {
        RunEnds(line, i - run, i);
        if run >= 5 {
          score := score + run - 2;
        }
        run := 1;
      }
    }
    RunEnds(line, g.size - run, g.size);
    NoScore(line);
    if run >= 5 {
      score := score + run - 2;
    }
  }

  lemma NoScore(line: seq<bool>)
    ensures LineScore(line[|line|..]) == 0
  {}

  method ScoreSquares(g: Grid) returns (score: nat)
    requires g.Valid() && g.size >= 1
    ensures score == 3 * Squares(g.Picture(), g.size, g.size - 1)
  {
    hide At;
    ghost var dark := g.Picture();
    score := 0;
    for y := 0 to g.size - 1
      invariant score == 3 * Squares(dark, g.size, y)
    {
      for x := 0 to g.size - 1
        invariant score == 3 * Squares(dark, g.size, y) + 3 * SquaresInRow(dark, g.size, y, x)
      {
        var v := g.Dark(x, y);
        if v == g.Dark(x + 1, y) && v == g.Dark(x, y + 1) && v == g.Dark(x + 1, y + 1) {
          score := score + 3;
        }
      }
    }
  }

  lemma ModuleOfLine(g: Grid, horizontal: bool, y: nat, i: nat)
    requires g.Valid() && y < g.size && i < g.size
    ensures Module(g, horizontal, y, i) == LineOf(g.Picture(), g.size, horizontal, y)[i]
  {
    hide At;
  }

  method Matches(g: Grid, horizontal: bool, y: nat, start: nat) returns (all: bool)
    requires g.Valid() && y < g.size && start + 11 <= g.size
    ensures all == (LineOf(g.Picture(), g.size, horizontal, y)[start..start + 11] == FINDER_LIKE)
  {
    hide At, Module, LineOf;
    ghost var line := LineOf(g.Picture(), g.size, horizontal, y);
    for i := 0 to 11
      invariant forall k :: 0 <= k < i ==> line[start..start + 11][k] == FINDER_LIKE[k]
    {
      ModuleOfLine(g, horizontal, y, start + i);
      assert line[start..start + 11][i] == line[start + i];
      if Module(g, horizontal, y, start + i) != FINDER_LIKE[i] {
        return false;
      }
    }
    return true;
  }

  lemma NextWindow(line: seq<bool>, x: nat)
    requires x + 11 <= |line|
    ensures Finders(line, 0) == 0
    ensures Finders(line, x + 1) == Finders(line, x) + if line[x..x + 11] == FINDER_LIKE then 1 else 0
  {}

  lemma NextLines(dark: seq<bool>, size: nat, y: nat)
    requires |dark| == size * size && y < size && size >= 11
    ensures FindersInLines(dark, size, 0) == 0
    ensures FindersInLines(dark, size, y + 1) == FindersInLines(dark, size, y)
      + Finders(LineOf(dark, size, true, y), size - 10) + Finders(LineOf(dark, size, false, y), size - 10)
  {
    hide LineOf, Finders;
  }

  method ScoreFinders(g: Grid) returns (score: nat)
    requires g.Valid() && g.size >= 11
    ensures score == 40 * FindersInLines(g.Picture(), g.size, g.size)
  {
    hide At, Finders, FindersInLines, LineOf;
    ghost var dark := g.Picture();
    score := 0;
    NextLines(dark, g.size, 0);
    for y := 0 to g.size
      invariant score == 40 * FindersInLines(dark, g.size, y)
    {
      ghost var row, column := LineOf(dark, g.size, true, y), LineOf(dark, g.size, false, y);
      NextLines(dark, g.size, y);
      NextWindow(row, 0);
      NextWindow(column, 0);
      for x := 0 to g.size - 10
        invariant score == 40 * (FindersInLines(dark, g.size, y) + Finders(row, x) + Finders(column, x))
      {
        NextWindow(row, x);
        NextWindow(column, x);
        var across := Matches(g, true, y, x);
        if across {
          score := score + 40;
        }
        var down := Matches(g, false, y, x);
        if down {
          score := score + 40;
        }
      }
    }
  }

  method CountDark(g: Grid) returns (count: nat)
    requires g.Valid()
    ensures count == DarkCount(Darks(g.modules[..]))
  {
    ghost var dark := Darks(g.modules[..]);
    count := 0;
    for i := 0 to g.modules.Length
      invariant count == DarkCount(dark[..i])
    {
      assert dark[..i + 1][..i] == dark[..i];
      if g.modules[i] == 1 {
        count := count + 1;
      }
    }
    assert dark[..|dark|] == dark;
  }

  method ScorePenalty(g: Grid) returns (score: nat)
    requires g.Valid() && g.size >= 11
    ensures score == Penalty(g.Picture(), g.size)
  {
    hide At, LineScore, Squares, FindersInLines, DarkCount, Imbalance;
    ghost var dark := g.Picture();
    score := 0;
    for y := 0 to g.size
      invariant score == LinesScore(dark, g.size, y)
    {
      var row := ScoreLine(g, true, y);
      var column := ScoreLine(g, false, y);
      score := score + row + column;
    }
    var squares := ScoreSquares(g);
    var finders := ScoreFinders(g);
    var count := CountDark(g);
    score := score + squares + finders + Imbalance(count, g.modules.Length);
  }
}
