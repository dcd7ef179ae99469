/** The must-written dataflow of the stack-slot probe: which stack bytes every
    path of an activation has written before a block, and which reads of a call's
    result may see a byte nobody wrote. */
module MustWritten {
  import opened Wrappers

  const RESULT_WINDOW := 256
  const ADDRESS_TAKEN_WINDOW := 256

  /** What one instruction does to the stack area. Instructions of an exit
      sequence, and those that touch no stack byte, are `Quiet`. */
  datatype Unit =
    | Quiet
    | CallResult(slot: int)
    | AddressTaken(slot: int)
    | Store(at: int, width: nat)
    | Load(at: int, width: nat)

  /** Basic blocks and, for each, the blocks control may go to next. Block 0 is
      the entry. */
  datatype Graph = Graph(blocks: seq<seq<Unit>>, successors: seq<seq<nat>>)
  {
    ghost predicate Valid() {
      && |blocks| > 0 && |successors| == |blocks|
      && forall n | 0 <= n < |blocks| :: forall m | m in successors[n] :: m < |blocks|
    }
  }

  function Span(at: int, width: nat): (bytes: set<int>)
    ensures forall b :: b in bytes <==> at <= b < at + width
  {
    if width == 0 then {} else Span(at, width - 1) + {at + width - 1}
  }

  /** The bytes an instruction writes. */
  function Gen(u: Unit): (bytes: set<int>)
    ensures forall b :: b in bytes <==>
              match u
              case CallResult(slot) => slot <= b < slot + 256
              case AddressTaken(slot) => slot <= b < slot + 256
              case Store(at, width) => at <= b < at + width
              case Load(_, _) => false
              case Quiet => false
  {
    match u
    case CallResult(slot) => Span(slot, RESULT_WINDOW)
    case AddressTaken(slot) => Span(slot, ADDRESS_TAKEN_WINDOW)
    case Store(at, width) => Span(at, width)
    case _ => {}
  }

  function GenAll(units: seq<Unit>): set<int> {
    if units == [] then {} else GenAll(units[..|units| - 1]) + Gen(units[|units| - 1])
  }

  // ---- Paths ----

  ghost predicate IsPath(g: Graph, p: seq<nat>)
    requires g.Valid()
  {
    && p != [] && p[0] == 0
    && (forall i | 0 <= i < |p| :: p[i] < |g.blocks|)
    && forall i | 0 <= i < |p| - 1 :: p[i + 1] in g.successors[p[i]]
  }

  ghost predicate To(g: Graph, p: seq<nat>, n: nat)
    requires g.Valid()
  {
    IsPath(g, p) && p[|p| - 1] == n
  }

  /** The bytes written on a path before its last block. */
  ghost function Written(g: Graph, p: seq<nat>): set<int>
    requires g.Valid() && IsPath(g, p)
  {
    if |p| == 1 then {}
    else
      PathPrefix(g, p);
      Written(g, p[..|p| - 1]) + GenAll(g.blocks[p[|p| - 2]])
  }

  lemma PathPrefix(g: Graph, p: seq<nat>)
    requires g.Valid() && IsPath(g, p) && |p| > 1
    ensures To(g, p[..|p| - 1], p[|p| - 2])
  {
    var q := p[..|p| - 1];
    forall i | 0 <= i < |q| - 1 ensures q[i + 1] in g.successors[q[i]] {
      assert p[i + 1] in g.successors[p[i]];
    }
  }

  ghost predicate Reached(g: Graph, n: nat)
    requires g.Valid()
  {
    exists p :: To(g, p, n)
  }

  /** Some path to block `n` leaves byte `b` unwritten. */
  ghost predicate Avoids(g: Graph, n: nat, b: int)
    requires g.Valid()
  {
    exists p :: To(g, p, n) && b !in Written(g, p)
  }

  lemma ExtendPath(g: Graph, p: seq<nat>, n: nat, m: nat)
    requires g.Valid() && To(g, p, n) && m in g.successors[n]
    ensures To(g, p + [m], m) && Written(g, p + [m]) == Written(g, p) + GenAll(g.blocks[n])
  {
    var q := p + [m];
    forall i | 0 <= i < |q| - 1 ensures q[i + 1] in g.successors[q[i]] {
      if i + 1 < |p| {
        assert p[i + 1] in g.successors[p[i]];
      }
    }
    assert q[..|q| - 1] == p;
  }

  // ---- The state of the iteration ----

  type Solution = seq<Option<set<int>>>

  /** Every value so far comes from real paths: a byte it lacks is one that some
      path leaves unwritten. */
  ghost predicate Witnessed(g: Graph, n: nat, value: Option<set<int>>)
    requires g.Valid()
  {
    value.Some? ==> n < |g.blocks| && Reached(g, n) && forall b | b !in value.value :: Avoids(g, n, b)
  }

  ghost predicate AllWitnessed(g: Graph, into: Solution)
    requires g.Valid()
  {
    |into| == |g.blocks| && forall n | 0 <= n < |into| :: Witnessed(g, n, into[n])
  }

  /** Block `n`'s value has been passed on to every successor. */
  ghost predicate Settled(g: Graph, into: Solution, n: nat)
    requires g.Valid() && |into| == |g.blocks| && n < |into|
  {
    into[n].Some? ==>
      forall m | m in g.successors[n] :: PassedOn(g, into, n, m)
  }

  ghost predicate PassedOn(g: Graph, into: Solution, n: nat, m: nat)
    requires g.Valid() && |into| == |g.blocks| && n < |into|
  {
    into[n].Some? ==>
      m < |into| && into[m].Some? && into[m].value <= into[n].value + GenAll(g.blocks[n])
  }

  /** The bytes written on every path to each block. */
  ghost predicate Exact(g: Graph, into: Solution)
    requires g.Valid()
  {
    && |into| == |g.blocks|
    && (forall n | 0 <= n < |into| :: into[n].Some? <==> Reached(g, n))
    && (forall n, b | 0 <= n < |into| && into[n].Some? :: b !in into[n].value <==> Avoids(g, n, b))
  }

  lemma WitnessStep(g: Graph, n: nat, m: nat, value: set<int>, old_m: Option<set<int>>)
    requires g.Valid() && Witnessed(g, n, Some(value)) && m in g.successors[n] && Witnessed(g, m, old_m)
    ensures var out := value + GenAll(g.blocks[n]);
            Witnessed(g, m, Some(if old_m.None? then out else old_m.value * out))
  {
    var out := value + GenAll(g.blocks[n]);
    var p :| To(g, p, n);
    ExtendPath(g, p, n, m);
    forall b | b !in out ensures Avoids(g, m, b) {
      var q :| To(g, q, n) && b !in Written(g, q);
      ExtendPath(g, q, n, m);
    }
  }

  /** At a fixpoint no path writes less than the value says. */
  lemma {:induction false} FixpointCovers(g: Graph, into: Solution, p: seq<nat>)
    requires g.Valid() && IsPath(g, p) && |into| == |g.blocks| && into[0] == Some({})
    requires forall n | 0 <= n < |into| :: Settled(g, into, n)
    ensures into[p[|p| - 1]].Some? && into[p[|p| - 1]].value <= Written(g, p)
    decreases |p|
  {
    if |p| > 1 {
      PathPrefix(g, p);
      FixpointCovers(g, into, p[..|p| - 1]);
      var n, m := p[|p| - 2], p[|p| - 1];
      assert p[|p| - 2 + 1] in g.successors[n];
      assert Settled(g, into, n);
      assert PassedOn(g, into, n, m);
    }
  }

  lemma FixpointExact(g: Graph, into: Solution)
    requires g.Valid() && AllWitnessed(g, into) && into[0] == Some({})
    requires forall n | 0 <= n < |into| :: Settled(g, into, n)
    ensures Exact(g, into)
  {
    forall n | 0 <= n < |into| && Reached(g, n) ensures into[n].Some? {
      var p :| To(g, p, n);
      FixpointCovers(g, into, p);
    }
    forall n, b | 0 <= n < |into| && into[n].Some? && Avoids(g, n, b) ensures b !in into[n].value {
      var p :| To(g, p, n) && b !in Written(g, p);
      FixpointCovers(g, into, p);
    }
    forall n | 0 <= n < |into| && into[n].Some? ensures Reached(g, n) {
      assert Witnessed(g, n, into[n]);
    }
    forall n, b | 0 <= n < |into| && into[n].Some? && b !in into[n].value ensures Avoids(g, n, b) {
      assert Witnessed(g, n, into[n]);
    }
  }

  // ---- Termination ----

  ghost function AllBytes(blocks: seq<seq<Unit>>): set<int> {
    if blocks == [] then {} else GenAll(blocks[0]) + AllBytes(blocks[1..])
  }

  lemma {:induction false} BlockBytes(blocks: seq<seq<Unit>>, n: nat)
    requires n < |blocks|
    ensures GenAll(blocks[n]) <= AllBytes(blocks)
  {
    if n > 0 {
      BlockBytes(blocks[1..], n - 1);
    }
  }

  ghost predicate Bounded(into: Solution, all: set<int>) {
    forall n | 0 <= n < |into| && into[n].Some? :: into[n].value <= all
  }

  ghost function Weight(into: Solution, bound: nat): nat {
    if into == [] then 0
    else (if into[0].None? then bound + 1 else |into[0].value|) + Weight(into[1..], bound)
  }

  /** Filling in a block, or shrinking its value, brings the end nearer. */
  lemma {:induction false} WeightFalls(into: Solution, m: nat, value: set<int>, all: set<int>)
    requires m < |into| && Bounded(into, all) && value <= all
    requires into[m].Some? ==> value < into[m].value
    ensures Weight(into[m := Some(value)], |all|) < Weight(into, |all|)
  {
    if m == 0 {
      assert into[0 := Some(value)][1..] == into[1..];
      Smaller(value, all);
      if into[0].Some? {
        Smaller(value, into[0].value);
      }
    } else {
      WeightFalls(into[1..], m - 1, value, all);
      assert into[m := Some(value)][1..] == into[1..][m - 1 := Some(value)];
    }
  }

  lemma Smaller(a: set<int>, b: set<int>)
    requires a <= b
    ensures |a| <= |b| && (a != b ==> |a| < |b|)
  {
    assert b == a + (b - a);
  }

  // ---- The iteration ----

  lemma GenPrefix(units: seq<Unit>, k: nat)
    requires k < |units|
    ensures GenAll(units[..k + 1]) == GenAll(units[..k]) + Gen(units[k])
  {
    assert units[..k + 1][..k] == units[..k];
  }

  /** Run one block's instructions over the bytes written before it. */
  method Transfer(units: seq<Unit>, before: set<int>) returns (written: set<int>)
    ensures written == before + GenAll(units)
  {
    written := before;
    assert units[..0] == [];
    for k := 0 to |units|
      invariant written == before + GenAll(units[..k])
    {
      GenPrefix(units, k);
      written := written + Gen(units[k]);
    }
    assert units[..|units|] == units;
  }

  /** One edge of the iteration. */
  method Merge(g: Graph, into: Solution, n: nat, m: nat, out: set<int>, changed: bool)
    returns (into': Solution, changed': bool)
    requires g.Valid() && AllWitnessed(g, into) && n < |into| && into[n].Some? && m in g.successors[n]
    requires Bounded(into, AllBytes(g.blocks)) && into[0] == Some({})
    requires exists v :: Witnessed(g, n, Some(v)) && v <= AllBytes(g.blocks) && out == v + GenAll(g.blocks[n])
    ensures AllWitnessed(g, into') && Bounded(into', AllBytes(g.blocks)) && into'[0] == Some({})
    ensures changed ==> changed'
    ensures if changed' && !changed then Weight(into', |AllBytes(g.blocks)|) < Weight(into, |AllBytes(g.blocks)|)
            else Weight(into', |AllBytes(g.blocks)|) <= Weight(into, |AllBytes(g.blocks)|)
    ensures !changed' ==> into' == into
    ensures into'[m].Some? && into'[m].value <= out
    ensures forall k | 0 <= k < |into| && into[k].Some? :: into'[k].Some? && into'[k].value <= into[k].value
  {
    hide Witnessed, Weight;
    ghost var v :| Witnessed(g, n, Some(v)) && v <= AllBytes(g.blocks) && out == v + GenAll(g.blocks[n]);
    into', changed' := into, changed;
    BlockBytes(g.blocks, n);
    var merged := if into[m].None? then out else into[m].value * out;
    if into[m].None? || merged != into[m].value {
      WitnessStep(g, n, m, v, into[m]);
      WeightFalls(into, m, merged, AllBytes(g.blocks));
      into' := into[m := Some(merged)];
      changed' := true;
    }
  }

  /** Pass block `n`'s value on to its successors. */
  method Visit(g: Graph, into: Solution, n: nat) returns (into': Solution, changed: bool)
    requires g.Valid() && AllWitnessed(g, into) && n < |into|
    requires Bounded(into, AllBytes(g.blocks)) && into[0] == Some({})
    ensures AllWitnessed(g, into') && Bounded(into', AllBytes(g.blocks)) && into'[0] == Some({})
    ensures !changed ==> into' == into
    ensures changed ==> Weight(into', |AllBytes(g.blocks)|) < Weight(into, |AllBytes(g.blocks)|)
    ensures !changed ==> Settled(g, into, n)
  {
    hide Witnessed, Weight, AllBytes, GenAll;
    into', changed := into, false;
    if into[n].None? {
      return;
    }
    var out := Transfer(g.blocks[n], into[n].value);
    assert Witnessed(g, n, Some(into[n].value));
    var next := g.successors[n];
    assert forall j | 0 <= j < |next| :: next[j] in next && next[j] < |into|;
    for i := 0 to |next|
      invariant AllWitnessed(g, into') && Bounded(into', AllBytes(g.blocks)) && into'[0] == Some({}) && into'[n].Some?
      invariant !changed ==> into' == into
      invariant changed ==> Weight(into', |AllBytes(g.blocks)|) < Weight(into, |AllBytes(g.blocks)|)
      invariant forall j | 0 <= j < i :: into'[next[j]].Some? && into'[next[j]].value <= out
    {
      into', changed := Merge(g, into', n, next[i], out, changed);
    }
    if !changed {
      forall m | m in next ensures PassedOn(g, into, n, m) {
        var j :| 0 <= j < |next| && next[j] == m;
      }
    }
  }

  /** The must-written fixpoint terminates on every graph, and is exact: for each
      reachable block, the intersection over all entry paths of the bytes written
      on the path. */
  method Solve(g: Graph) returns (into: Solution)
    requires g.Valid()
    ensures Exact(g, into)
  {
    hide Witnessed, Weight, Settled;
    ghost var bound := |AllBytes(g.blocks)|;
    into := seq(|g.blocks|, i => None)[0 := Some({})];
    Start(g, into);
    var changed := true;
    while changed
      invariant AllWitnessed(g, into) && Bounded(into, AllBytes(g.blocks)) && into[0] == Some({})
      invariant !changed ==> forall n | 0 <= n < |into| :: Settled(g, into, n)
      decreases Weight(into, bound), if changed then 1 else 0
    {
      changed := false;
      ghost var start := into;
      for n := 0 to |g.blocks|
        invariant AllWitnessed(g, into) && Bounded(into, AllBytes(g.blocks)) && into[0] == Some({})
        invariant if changed then Weight(into, bound) < Weight(start, bound) else into == start
        invariant !changed ==> forall k | 0 <= k < n :: Settled(g, into, k)
      {
        var moved;
        into, moved := Visit(g, into, n);
        changed := changed || moved;
      }
    }
    FixpointExact(g, into);
  }

  lemma Start(g: Graph, into: Solution)
    requires g.Valid() && |into| == |g.blocks| && into[0] == Some({})
    requires forall n | 0 < n < |into| :: into[n] == None
    ensures AllWitnessed(g, into) && Bounded(into, AllBytes(g.blocks))
  {
    assert To(g, [0], 0) && Written(g, [0]) == {};
  }

  // ---- The report ----

  /** A read the probe names: block and position. */
  datatype Finding = Finding(block: nat, index: nat)

  ghost predicate InWindow(watched: seq<int>, b: int) {
    exists low | low in watched :: low <= b < low + RESULT_WINDOW
  }

  ghost predicate Touches(watched: seq<int>, at: int, width: nat) {
    exists low | low in watched :: at < low + RESULT_WINDOW && at + width > low
  }

  /** Instruction `k` of block `n` reads byte `b`, and some path reaches it without
      having written it. */
  ghost predicate ReadsUnwritten(g: Graph, n: nat, k: nat, b: int)
    requires g.Valid()
  {
    && n < |g.blocks| && k < |g.blocks[n]| && g.blocks[n][k].Load?
    && b in Span(g.blocks[n][k].at, g.blocks[n][k].width)
    && Avoids(g, n, b) && b !in GenAll(g.blocks[n][..k])
  }

  /** Where the windows overlap a read. */
  method Overlaps(watched: seq<int>, at: int, width: nat) returns (hit: bool)
    ensures hit == Touches(watched, at, width)
  {
    hit := false;
    for i := 0 to |watched|
      invariant !hit && forall j | 0 <= j < i :: !(at < watched[j] + RESULT_WINDOW && at + width > watched[j])
    {
      var low := watched[i];
      if at < low + RESULT_WINDOW && at + width > low {
        assert low in watched;
        return true;
      }
    }
  }

  /** Everything unwritten and watched that was read before `k` is named. */
  ghost predicate Complete(g: Graph, watched: seq<int>, found: seq<Finding>, n: nat, k: nat)
    requires g.Valid()
  {
    forall j: nat, b | j < k && ReadsUnwritten(g, n, j, b) && InWindow(watched, b) :: ReportedBy(g, found, n, j, b)
  }

  /** So is every watched byte an earlier uncovered read excused. */
  ghost predicate Excused(g: Graph, watched: seq<int>, found: seq<Finding>, n: nat, k: nat, excused: set<int>)
    requires g.Valid()
  {
    forall b | b in excused && InWindow(watched, b) :: ReportedBy(g, found, n, k, b)
  }

  lemma ReportStays(g: Graph, found: seq<Finding>, found': seq<Finding>, n: nat, k: nat, k': nat, b: int)
    requires g.Valid() && ReportedBy(g, found, n, k, b) && k <= k' && forall f | f in found :: f in found'
    ensures ReportedBy(g, found', n, k', b)
  {
  }

  /** A read that is covered leaves nothing to name. */
  lemma CoveredRead(g: Graph, watched: seq<int>, found: seq<Finding>, n: nat, k: nat, before: set<int>, excused: set<int>)
    requires g.Valid() && n < |g.blocks| && k < |g.blocks[n]|
    requires forall b :: b !in before <==> Avoids(g, n, b)
    requires g.blocks[n][k].Load? ==>
               Span(g.blocks[n][k].at, g.blocks[n][k].width) <= before + GenAll(g.blocks[n][..k]) + excused
    requires Complete(g, watched, found, n, k) && Excused(g, watched, found, n, k, excused)
    ensures Complete(g, watched, found, n, k + 1) && Excused(g, watched, found, n, k + 1, excused)
  {
    hide Avoids, InWindow, GenAll, Span;
    forall b | b in excused && InWindow(watched, b) ensures ReportedBy(g, found, n, k + 1, b) {
      ReportStays(g, found, found, n, k, k + 1, b);
    }
    forall j: nat, b | j < k + 1 && ReadsUnwritten(g, n, j, b) && InWindow(watched, b)
      ensures ReportedBy(g, found, n, j, b)
    {
      if j == k {
        assert b in excused;
      }
    }
  }

  /** One that is not is named, when it touches a window. */
  lemma UncoveredRead(g: Graph, watched: seq<int>, found: seq<Finding>, found': seq<Finding>, n: nat, k: nat,
                      excused: set<int>)
    requires g.Valid() && n < |g.blocks| && k < |g.blocks[n]| && g.blocks[n][k].Load?
    requires Complete(g, watched, found, n, k) && Excused(g, watched, found, n, k, excused)
    requires found' == if Touches(watched, g.blocks[n][k].at, g.blocks[n][k].width) then found + [Finding(n, k)] else found
    ensures Complete(g, watched, found', n, k + 1)
    ensures Excused(g, watched, found', n, k + 1, excused + Span(g.blocks[n][k].at, g.blocks[n][k].width))
  {
    hide Avoids, GenAll, ReadsUnwritten;
    var span := Span(g.blocks[n][k].at, g.blocks[n][k].width);
    forall b | b in span && InWindow(watched, b) ensures ReportedBy(g, found', n, k, b) {
      assert Finding(n, k) in found';
    }
    forall b | b in excused + span && InWindow(watched, b) ensures ReportedBy(g, found', n, k + 1, b) {
      ReportStays(g, if b in span then found' else found, found', n, k, k + 1, b);
    }
    forall j: nat, b | j < k + 1 && ReadsUnwritten(g, n, j, b) && InWindow(watched, b)
      ensures ReportedBy(g, found', n, j, b)
    {
      if j < k {
        ReportStays(g, found, found', n, j, j, b);
      } else {
        assert b in span by { ReadIsInSpan(g, n, k, b); }
      }
    }
  }

  lemma ReadIsInSpan(g: Graph, n: nat, k: nat, b: int)
    requires g.Valid() && ReadsUnwritten(g, n, k, b)
    ensures b in Span(g.blocks[n][k].at, g.blocks[n][k].width)
  {
  }

  /** Run a block again with its reads checked. A read that is not covered is
      reported when it touches a watched window, and then counts as written. */
  method Check(g: Graph, n: nat, before: set<int>, watched: seq<int>) returns (found: seq<Finding>)
    requires g.Valid() && n < |g.blocks|
    requires forall b :: b !in before <==> Avoids(g, n, b)
    ensures forall f | f in found :: f.block == n && RealFinding(g, watched, f)
    ensures Complete(g, watched, found, n, |g.blocks[n]|)
  {
    hide Avoids, Complete, Excused, InWindow, Touches;
    found := [];
    var units := g.blocks[n];
    var written := before;
    ghost var excused: set<int> := {};
    assert units[..0] == [];
    assert Complete(g, watched, found, n, 0) && Excused(g, watched, found, n, 0, excused) by {
      NothingReadYet(g, watched, n);
    }
    for k := 0 to |units|
      invariant written == before + GenAll(units[..k]) + excused
      invariant forall f | f in found :: f.block == n && RealFinding(g, watched, f)
      invariant Complete(g, watched, found, n, k) && Excused(g, watched, found, n, k, excused)
    {
      GenPrefix(units, k);
      var u := units[k];
      if u.Load? && !(Span(u.at, u.width) <= written) {
        ghost var b :| b in Span(u.at, u.width) && b !in written;
        assert ReadsUnwritten(g, n, k, b);
        var hit := Overlaps(watched, u.at, u.width);
        ghost var found0 := found;
        if hit {
          assert RealFinding(g, watched, Finding(n, k));
          found := found + [Finding(n, k)];
        }
        UncoveredRead(g, watched, found0, found, n, k, excused);
        written := written + Span(u.at, u.width);
        excused := excused + Span(u.at, u.width);
      } else {
        CoveredRead(g, watched, found, n, k, before, excused);
        written := written + Gen(u);
      }
    }
  }

  lemma NothingReadYet(g: Graph, watched: seq<int>, n: nat)
    requires g.Valid()
    ensures Complete(g, watched, [], n, 0) && Excused(g, watched, [], n, 0, {})
  {
  }

  /** The audit: solve, then check every reachable block. Every finding is real,
      and every read of a watched byte that some path leaves unwritten is named,
      there or at an earlier read of that byte in its block. */
  method Audit(g: Graph, watched: seq<int>) returns (found: seq<Finding>)
    requires g.Valid()
    ensures forall f | f in found :: RealFinding(g, watched, f)
    ensures forall n: nat, k: nat, b | n < |g.blocks| && ReadsUnwritten(g, n, k, b) && InWindow(watched, b) ::
              ReportedBy(g, found, n, k, b)
  {
    hide Avoids, InWindow, Reached, Touches, RealFinding, ReportedBy, ReadsUnwritten;
    if watched == [] {
      assert forall b :: !InWindow(watched, b) by { NoWindow(watched); }
      return [];
    }
    var into := Solve(g);
    found := [];
    for n := 0 to |g.blocks|
      invariant forall f | f in found :: RealFinding(g, watched, f)
      invariant forall m: nat, k: nat, b | m < n && ReadsUnwritten(g, m, k, b) && InWindow(watched, b) ::
                  ReportedBy(g, found, m, k, b)
    {
      var here := [];
      if into[n].Some? {
        here := Check(g, n, into[n].value, watched);
      }
      forall m: nat, k: nat, b | m < n + 1 && ReadsUnwritten(g, m, k, b) && InWindow(watched, b)
        ensures ReportedBy(g, found + here, m, k, b)
      {
        ReadIsReachable(g, m, k, b);
        ReportStays(g, if m < n then found else here, found + here, m, k, k, b);
      }
      found := found + here;
    }
  }

  lemma NoWindow(watched: seq<int>)
    requires watched == []
    ensures forall b :: !InWindow(watched, b)
  {
  }

  lemma ReadIsReachable(g: Graph, n: nat, k: nat, b: int)
    requires g.Valid() && ReadsUnwritten(g, n, k, b)
    ensures Reached(g, n) && n < |g.blocks| && k < |g.blocks[n]|
  {
  }

  /** A finding is a read of a call's result window with a real path that leaves
      one of its bytes unwritten. */
  ghost predicate RealFinding(g: Graph, watched: seq<int>, f: Finding)
    requires g.Valid()
  {
    && f.block < |g.blocks| && f.index < |g.blocks[f.block]| && g.blocks[f.block][f.index].Load?
    && Touches(watched, g.blocks[f.block][f.index].at, g.blocks[f.block][f.index].width)
    && exists b :: ReadsUnwritten(g, f.block, f.index, b)
  }

  /** Byte `b`, read at `k`, is named at `k` or at an earlier read of it. */
  ghost predicate ReportedBy(g: Graph, found: seq<Finding>, n: nat, k: nat, b: int)
    requires g.Valid()
  {
    exists f :: && f in found && f.block == n && f.index <= k && n < |g.blocks| && f.index < |g.blocks[n]|
                && g.blocks[n][f.index].Load?
                && b in Span(g.blocks[n][f.index].at, g.blocks[n][f.index].width)
  }
}
