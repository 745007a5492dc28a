/** Module statistics and prioritisation: status filtering, the importance/urgency
    (Eisenhower) matrix, the progress percentage and the overall statistics. */
module ModuleStats {
  import opened Text
  import opened Seqs
  import opened Types

  /** The modules with the given status, in input order. */
  function FilterModulesByStatus(modules: seq<Module>, status: Status): (r: seq<Module>)
    ensures Subsequence(r, modules)
    ensures forall i :: 0 <= i < |r| ==> r[i].status == status
    ensures forall m :: multiset(r)[m] == if m.status == status then multiset(modules)[m] else 0
  {
    FilterMultiset(modules, (m: Module) => m.status == status);
    Filter(modules, (m: Module) => m.status == status)
  }

  datatype Quadrant = DoFirst | Schedule | Delegate | Eliminate

  /** The quadrant of a module: decided only by whether importance and urgency are high. */
  function QuadrantOf(m: Module): (q: Quadrant)
    ensures q == DoFirst <==> m.importance == High && m.urgency == High
    ensures q == Schedule <==> m.importance == High && m.urgency != High
    ensures q == Delegate <==> m.importance != High && m.urgency == High
    ensures q == Eliminate <==> m.importance != High && m.urgency != High
  {
    if m.importance == High then (if m.urgency == High then DoFirst else Schedule)
    else (if m.urgency == High then Delegate else Eliminate)
  }

  datatype Matrix = Matrix(doFirst: seq<Module>, schedule: seq<Module>,
                           delegate: seq<Module>, eliminate: seq<Module>)
  {
    function Quadrant(q: Quadrant): seq<Module> {
      match q
      case DoFirst => doFirst
      case Schedule => schedule
      case Delegate => delegate
      case Eliminate => eliminate
    }
  }

  /** `modules.filter(...)` with the condition of quadrant `q`. */
  function QuadrantFilter(modules: seq<Module>, q: Quadrant): (r: seq<Module>)
    ensures Subsequence(r, modules)
    ensures forall m :: multiset(r)[m] == if QuadrantOf(m) == q then multiset(modules)[m] else 0
  {
    FilterMultiset(modules, (m: Module) => QuadrantOf(m) == q);
    Filter(modules, (m: Module) => QuadrantOf(m) == q)
  }

  function GetEisenhowerMatrix(modules: seq<Module>): (r: Matrix)
    ensures forall q: Quadrant :: Subsequence(r.Quadrant(q), modules)
    ensures forall q: Quadrant, m :: multiset(r.Quadrant(q))[m] ==
              if QuadrantOf(m) == q then multiset(modules)[m] else 0
  {
    var r := Matrix(QuadrantFilter(modules, DoFirst), QuadrantFilter(modules, Schedule),
                    QuadrantFilter(modules, Delegate), QuadrantFilter(modules, Eliminate));
    assert forall q: Quadrant :: r.Quadrant(q) == QuadrantFilter(modules, q);
    r
  }

  /** Every module lands in exactly one quadrant: together the quadrants hold each module
      exactly as often as the input does, and their lengths add up to the input length. */
  lemma EisenhowerPartition(modules: seq<Module>)
    ensures var r := GetEisenhowerMatrix(modules);
      && multiset(r.doFirst) + multiset(r.schedule) + multiset(r.delegate) + multiset(r.eliminate)
         == multiset(modules)
      && |r.doFirst| + |r.schedule| + |r.delegate| + |r.eliminate| == |modules|
  {
    var r := GetEisenhowerMatrix(modules);
    assert r.doFirst == QuadrantFilter(modules, DoFirst);
    assert r.schedule == QuadrantFilter(modules, Schedule);
    assert r.delegate == QuadrantFilter(modules, Delegate);
    assert r.eliminate == QuadrantFilter(modules, Eliminate);
    QuadrantsCover(modules, r.doFirst, r.schedule, r.delegate, r.eliminate);
  }

  /** Four selections, one per quadrant, that each keep exactly their quadrant's modules add
      up to the whole input. */
  lemma QuadrantsCover(modules: seq<Module>, a: seq<Module>, b: seq<Module>, c: seq<Module>, d: seq<Module>)
    requires forall m :: multiset(a)[m] == if QuadrantOf(m) == DoFirst then multiset(modules)[m] else 0
    requires forall m :: multiset(b)[m] == if QuadrantOf(m) == Schedule then multiset(modules)[m] else 0
    requires forall m :: multiset(c)[m] == if QuadrantOf(m) == Delegate then multiset(modules)[m] else 0
    requires forall m :: multiset(d)[m] == if QuadrantOf(m) == Eliminate then multiset(modules)[m] else 0
    ensures multiset(a) + multiset(b) + multiset(c) + multiset(d) == multiset(modules)
    ensures |a| + |b| + |c| + |d| == |modules|
  {
    var u := multiset(a) + multiset(b) + multiset(c) + multiset(d);
    forall m ensures u[m] == multiset(modules)[m] {
    }
    assert u == multiset(modules);
    assert |u| == |multiset(modules)|;
  }

  /** The number of modules whose status is `final`. */
  function CountFinal(modules: seq<Module>): (n: nat)
    ensures n <= |modules|
    ensures n == |FilterModulesByStatus(modules, Final)|
  {
    |Filter(modules, (m: Module) => m.status == Final)|
  }

  lemma MulStep(d: nat, a: nat, b: nat)
    requires a < b
    ensures d * a + d <= d * b
  {
    var k := b - a - 1;
    assert d * b == d * a + d * k + d;
  }

  /** Integer division is determined by its bounds. */
  lemma DivisionByBounds(x: nat, d: nat, p: nat)
    requires d > 0 && d * p <= x < d * p + d
    ensures x / d == p
  {
    var q, r := x / d, x % d;
    assert x == d * q + r && 0 <= r < d;
    assert q >= p by {
      if q < p {
        MulStep(d, q, p);
        assert false;
      }
    }
    assert q <= p by {
      if q > p {
        MulStep(d, p, q);
        assert false;
      }
    }
  }

  lemma RoundingFacts(completed: nat, total: nat)
    requires 0 < total && completed <= total
    ensures var p := (200 * completed + total) / (2 * total);
      && p <= 100
      && 2 * total * p <= 200 * completed + total < 2 * total * p + 2 * total
      && (completed == total ==> p == 100)
      && (completed == 0 ==> p == 0)
  {
    var x, d := 200 * completed + total, 2 * total;
    var p := x / d;
    assert x == d * p + x % d && 0 <= x % d < d;
    assert d * p == 2 * total * p;
    assert p <= 100 by {
      if p > 100 {
        MulStep(d, 100, p);
        assert false;
      }
    }
    if completed == total {
      DivisionByBounds(x, d, 100);
    }
    if completed == 0 {
      DivisionByBounds(x, d, 0);
    }
  }

  /** `Math.round(100 * completed / total)` for `total > 0`, in integers: rounding half up is
      `floor((200 * completed + total) / (2 * total))`. The result is the integer nearest to
      `100 * completed / total`, halves rounded up. */
  function RoundPercent(completed: nat, total: nat): (p: nat)
    requires 0 < total && completed <= total
    ensures p <= 100
    ensures 2 * total * p <= 200 * completed + total < 2 * total * p + 2 * total
    ensures completed == total ==> p == 100
    ensures completed == 0 ==> p == 0
  {
    RoundingFacts(completed, total);
    (200 * completed + total) / (2 * total)
  }

  datatype Progress = Progress(total: nat, completed: nat, percentage: nat)

  function CalculateProgress(modules: seq<Module>): (r: Progress)
    ensures r.total == |modules| && r.completed == CountFinal(modules)
    ensures r.completed <= r.total && r.percentage <= 100
    ensures modules == [] ==> r == Progress(0, 0, 0)
    ensures r.total > 0 ==>
      2 * r.total * r.percentage <= 200 * r.completed + r.total < 2 * r.total * r.percentage + 2 * r.total
    ensures r.total > 0 && r.completed == r.total ==> r.percentage == 100
    ensures r.completed == 0 ==> r.percentage == 0
  {
    var total := |modules|;
    if total == 0 then Progress(0, 0, 0)
    else
      var completed := CountFinal(modules);
      Progress(total, completed, RoundPercent(completed, total))
  }

  /** The total of the per-module word counts (`content.trim().split(/\s+/).length`). */
  function TotalWords(modules: seq<Module>): (n: nat)
    ensures n >= |modules|
  {
    if modules == [] then 0 else WordCount(modules[0].content) + TotalWords(modules[1..])
  }

  datatype Stats = Stats(totalWords: nat, totalModules: nat, completedModules: nat, progress: nat)

  function GetStats(modules: seq<Module>): (r: Stats)
    ensures r.totalModules == |modules| && r.completedModules == CountFinal(modules)
    ensures r.totalWords == TotalWords(modules)
    ensures r.totalWords >= r.totalModules
    ensures r.progress <= 100
  {
    var completed := CountFinal(modules);
    var total := |modules|;
    Stats(TotalWords(modules), total, completed,
          if total > 0 then RoundPercent(completed, total) else 0)
  }

  /** The statistics agree with the progress bar: same completed count, same percentage. */
  lemma StatsAgreeWithProgress(modules: seq<Module>)
    ensures GetStats(modules).progress == CalculateProgress(modules).percentage
    ensures GetStats(modules).completedModules == CalculateProgress(modules).completed
    ensures GetStats(modules).totalModules == CalculateProgress(modules).total
  {
  }
}
