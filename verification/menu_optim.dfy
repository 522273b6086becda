/** The menu optimizer of the ComplX app: an exhaustive backtracking search over
    every ordered sub-menu of a base menu for the smallest calorie overshoot at
    or above a target.

    The optimizer has two phases. `PendingMenuOptimizer` is what `New` builds and
    what the search works on; `ReadyMenuOptimizer` is produced only by
    `FindOptimalMenu`, and only it has a report. The working menu that the source
    pushes to and pops from is a value here: each branch receives the menu
    extended by one dish and the caller keeps its own, which is exactly what the
    matching push/pop pair restores. */
module MenuOptim {
  import opened Wrappers

  const U32_MAX: int := 0xFFFF_FFFF

  /** A dish of the menu: its name and its calories (a `u32` in the source). */
  datatype Dish = Dish(name: string, calories: nat)

  datatype PendingMenuOptimizer = PendingMenuOptimizer(optimalMenu: Option<seq<Dish>>, minDiff: int)

  datatype ReadyMenuOptimizer = ReadyMenuOptimizer(optimalMenu: Option<seq<Dish>>, minDiff: int)

  /** Which of the two report texts is chosen. */
  datatype MenuMessage = OptimalMenuFound(dishes: seq<Dish>, totalCalories: nat) | NoOptimalMenu

  /** Total calories of a menu. */
  function Calories(menu: seq<Dish>): nat
  {
    if menu == [] then 0 else menu[0].calories + Calories(menu[1..])
  }

  /** Every index of the selection `c` addresses a dish of a menu of length `n`. */
  predicate InRange(c: seq<nat>, n: nat)
  {
    forall k :: 0 <= k < |c| ==> c[k] < n
  }

  predicate AllInRange(cs: seq<seq<nat>>, n: nat)
  {
    forall k :: 0 <= k < |cs| ==> InRange(cs[k], n)
  }

  /** `c` lists positions of a menu of length `n`, all at or after `lo`, in
      strictly increasing order: an ordered sub-menu using each dish at most once. */
  ghost predicate IsSelection(c: seq<nat>, lo: nat, n: nat)
  {
    && (forall k :: 0 <= k < |c| ==> lo <= c[k] < n)
    && (forall j, k :: 0 <= j < k < |c| ==> c[j] < c[k])
  }

  /** The dishes at the selected positions, in selection order. */
  function Pick(base: seq<Dish>, c: seq<nat>): (m: seq<Dish>)
    requires InRange(c, |base|)
    ensures |m| == |c|
  {
    if c == [] then [] else [base[c[0]]] + Pick(base, c[1..])
  }

  /** A fresh optimizer: no menu yet, and the overshoot sentinel `u32::MAX`. */
  function New(): (p: PendingMenuOptimizer)
    ensures p.optimalMenu.None? && p.minDiff == U32_MAX
  {
    PendingMenuOptimizer(None, U32_MAX)
  }

  /** The visit of one search node: the working menu replaces the best one when
      it reaches the target with a strictly smaller overshoot. */
  function Check(p: PendingMenuOptimizer, target: nat, cals: nat, menu: seq<Dish>): (r: PendingMenuOptimizer)
    ensures r.minDiff <= p.minDiff
    ensures r != p ==> cals >= target && r == PendingMenuOptimizer(Some(menu), cals - target) && cals - target < p.minDiff
    ensures r == p ==> cals < target || cals - target >= p.minDiff
  {
    if cals >= target && cals - target < p.minDiff then
      PendingMenuOptimizer(Some(menu), cals - target)
    else
      p
  }

  /** `backtrack`: visit the node, then extend the working menu by each dish at
      position `entry` or later, one at a time. */
  function Backtrack(p: PendingMenuOptimizer, target: nat, base: seq<Dish>, entry: nat, cals: nat, menu: seq<Dish>): PendingMenuOptimizer
    requires entry <= |base|
    decreases |base| - entry, 1
  {
    ForEachDish(Check(p, target, cals, menu), target, base, entry, cals, menu)
  }

  /** The `for_each` over positions `i..base.len()` of `backtrack`. */
  function ForEachDish(p: PendingMenuOptimizer, target: nat, base: seq<Dish>, i: nat, cals: nat, menu: seq<Dish>): PendingMenuOptimizer
    requires i <= |base|
    decreases |base| - i, 0
  {
    if i == |base| then p
    else
      var p' := Backtrack(p, target, base, i + 1, cals + base[i].calories, menu + [base[i]]);
      ForEachDish(p', target, base, i + 1, cals, menu)
  }

  // ---------------------------------------------------------------------------
  // Reference enumeration: the selections in the order the search visits them.
  // ---------------------------------------------------------------------------

  function Prefixed(i: nat, cs: seq<seq<nat>>): (r: seq<seq<nat>>)
    ensures |r| == |cs|
    ensures forall k :: 0 <= k < |cs| ==> r[k] == [i] + cs[k]
  {
    seq(|cs|, k requires 0 <= k < |cs| => [i] + cs[k])
  }

  /** The selections below a node whose next free position is `entry`, in
      include-first depth-first order: the node itself, then everything that
      starts with `entry`, then everything that starts with `entry + 1`, ... */
  function CandidatesFrom(n: nat, entry: nat): seq<seq<nat>>
    requires entry <= n
    decreases n - entry, 1
  {
    [[]] + CandidatesLoop(n, entry)
  }

  function CandidatesLoop(n: nat, i: nat): seq<seq<nat>>
    requires i <= n
    decreases n - i, 0
  {
    if i == n then [] else Prefixed(i, CandidatesFrom(n, i + 1)) + CandidatesLoop(n, i + 1)
  }

  /** Calories of the working menu extended by selection `c`. */
  function Total(base: seq<Dish>, cals: nat, c: seq<nat>): nat
    requires InRange(c, |base|)
  {
    cals + Calories(Pick(base, c))
  }

  /** Visiting the selections `cs` one after the other. */
  function Scan(p: PendingMenuOptimizer, target: nat, base: seq<Dish>, cals: nat, menu: seq<Dish>, cs: seq<seq<nat>>): PendingMenuOptimizer
    requires AllInRange(cs, |base|)
    decreases |cs|
  {
    if cs == [] then p
    else
      assert InRange(cs[0], |base|);
      Scan(Check(p, target, Total(base, cals, cs[0]), menu + Pick(base, cs[0])), target, base, cals, menu, cs[1..])
  }

  lemma {:induction false} CandidatesAreSelections(n: nat, entry: nat)
    requires entry <= n
    ensures forall k :: 0 <= k < |CandidatesFrom(n, entry)| ==> IsSelection(CandidatesFrom(n, entry)[k], entry, n)
    ensures AllInRange(CandidatesFrom(n, entry), n)
    decreases n - entry, 1
  {
    LoopAreSelections(n, entry);
  }

  lemma {:induction false} LoopAreSelections(n: nat, i: nat)
    requires i <= n
    ensures forall k :: 0 <= k < |CandidatesLoop(n, i)| ==> IsSelection(CandidatesLoop(n, i)[k], i, n)
    ensures AllInRange(CandidatesLoop(n, i), n)
    decreases n - i, 0
  {
    if i < n {
      CandidatesAreSelections(n, i + 1);
      LoopAreSelections(n, i + 1);
      var a := Prefixed(i, CandidatesFrom(n, i + 1));
      var b := CandidatesLoop(n, i + 1);
      forall k | 0 <= k < |a + b|
        ensures IsSelection((a + b)[k], i, n)
      {
        if k < |a| {
          var c := CandidatesFrom(n, i + 1)[k];
          assert (a + b)[k] == [i] + c;
          assert IsSelection(c, i + 1, n);
        } else {
          assert (a + b)[k] == b[k - |a|];
        }
      }
    }
  }

  /** Every ordered sub-menu of the positions `entry..n` is visited. */
  lemma {:induction false} SelectionsAreCandidates(n: nat, entry: nat, c: seq<nat>)
    requires entry <= n
    requires IsSelection(c, entry, n)
    ensures c in CandidatesFrom(n, entry)
    decreases n - entry
  {
    if c == [] {
      assert CandidatesFrom(n, entry)[0] == c;
    } else {
      var i := c[0];
      assert IsSelection(c[1..], i + 1, n) by {
        forall k | 0 <= k < |c[1..]|
          ensures i + 1 <= c[1..][k]
        {
          assert c[1..][k] == c[k + 1];
        }
      }
      SelectionsAreCandidates(n, i + 1, c[1..]);
      LoopContains(n, entry, i, c[1..]);
      assert [i] + c[1..] == c;
    }
  }

  lemma {:induction false} LoopContains(n: nat, j: nat, i: nat, c: seq<nat>)
    requires j <= i < n
    requires c in CandidatesFrom(n, i + 1)
    ensures [i] + c in CandidatesLoop(n, j)
    ensures [i] + c in CandidatesFrom(n, j)
    decreases i - j
  {
    if j == i {
      var cs := CandidatesFrom(n, i + 1);
      var k :| 0 <= k < |cs| && cs[k] == c;
      assert Prefixed(i, cs)[k] == [i] + c;
    } else {
      LoopContains(n, j + 1, i, c);
    }
    assert CandidatesFrom(n, j) == [[]] + CandidatesLoop(n, j);
  }

  lemma {:induction false} ScanAppend(p: PendingMenuOptimizer, target: nat, base: seq<Dish>, cals: nat, menu: seq<Dish>, a: seq<seq<nat>>, b: seq<seq<nat>>)
    requires AllInRange(a, |base|) && AllInRange(b, |base|)
    ensures AllInRange(a + b, |base|)
    ensures Scan(p, target, base, cals, menu, a + b)
         == Scan(Scan(p, target, base, cals, menu, a), target, base, cals, menu, b)
    decreases |a|
  {
    assert AllInRange(a + b, |base|) by {
      forall k | 0 <= k < |a + b|
        ensures InRange((a + b)[k], |base|)
      {
        if k < |a| { assert (a + b)[k] == a[k]; } else { assert (a + b)[k] == b[k - |a|]; }
      }
    }
    if a != [] {
      assert (a + b)[0] == a[0];
      assert (a + b)[1..] == a[1..] + b;
      assert InRange(a[0], |base|);
      var p' := Check(p, target, Total(base, cals, a[0]), menu + Pick(base, a[0]));
      ScanAppend(p', target, base, cals, menu, a[1..], b);
    } else {
      assert a + b == b;
    }
  }

  /** Scanning the selections that all start with dish `i` is scanning the rest
      of each selection with dish `i` already in the working menu. */
  lemma {:induction false} ScanPrefixed(p: PendingMenuOptimizer, target: nat, base: seq<Dish>, cals: nat, menu: seq<Dish>, i: nat, cs: seq<seq<nat>>)
    requires i < |base|
    requires AllInRange(cs, |base|)
    ensures AllInRange(Prefixed(i, cs), |base|)
    ensures Scan(p, target, base, cals, menu, Prefixed(i, cs))
         == Scan(p, target, base, cals + base[i].calories, menu + [base[i]], cs)
    decreases |cs|
  {
    var ps := Prefixed(i, cs);
    assert AllInRange(ps, |base|) by {
      forall k | 0 <= k < |ps|
        ensures InRange(ps[k], |base|)
      {
        assert ps[k] == [i] + cs[k];
        assert InRange(cs[k], |base|);
      }
    }
    if cs != [] {
      var c := cs[0];
      assert InRange(c, |base|);
      assert ps[0] == [i] + c;
      assert ([i] + c)[1..] == c;
      assert Pick(base, [i] + c) == [base[i]] + Pick(base, c);
      assert Total(base, cals, [i] + c) == Total(base, cals + base[i].calories, c);
      assert menu + Pick(base, [i] + c) == (menu + [base[i]]) + Pick(base, c);
      assert ps[1..] == Prefixed(i, cs[1..]);
      var p' := Check(p, target, Total(base, cals, [i] + c), menu + Pick(base, [i] + c));
      ScanPrefixed(p', target, base, cals, menu, i, cs[1..]);
    }
  }

  /** The recursive search visits exactly the reference enumeration, in order. */
  lemma {:induction false} BacktrackIsScan(p: PendingMenuOptimizer, target: nat, base: seq<Dish>, entry: nat, cals: nat, menu: seq<Dish>)
    requires entry <= |base|
    ensures AllInRange(CandidatesFrom(|base|, entry), |base|)
    ensures Backtrack(p, target, base, entry, cals, menu)
         == Scan(p, target, base, cals, menu, CandidatesFrom(|base|, entry))
    decreases |base| - entry, 1
  {
    CandidatesAreSelections(|base|, entry);
    LoopAreSelections(|base|, entry);
    ForEachIsScan(Check(p, target, cals, menu), target, base, entry, cals, menu);
    assert AllInRange([[]], |base|);
    assert Pick(base, []) == [];
    assert menu + [] == menu;
    assert Scan(p, target, base, cals, menu, [[]]) == Check(p, target, cals, menu);
    ScanAppend(p, target, base, cals, menu, [[]], CandidatesLoop(|base|, entry));
  }

  lemma {:induction false} ForEachIsScan(p: PendingMenuOptimizer, target: nat, base: seq<Dish>, i: nat, cals: nat, menu: seq<Dish>)
    requires i <= |base|
    ensures AllInRange(CandidatesLoop(|base|, i), |base|)
    ensures ForEachDish(p, target, base, i, cals, menu)
         == Scan(p, target, base, cals, menu, CandidatesLoop(|base|, i))
    decreases |base| - i, 0
  {
    LoopAreSelections(|base|, i);
    if i < |base| {
      var cals' := cals + base[i].calories;
      var menu' := menu + [base[i]];
      BacktrackIsScan(p, target, base, i + 1, cals', menu');
      var p' := Backtrack(p, target, base, i + 1, cals', menu');
      ForEachIsScan(p', target, base, i + 1, cals, menu);
      ScanPrefixed(p, target, base, cals, menu, i, CandidatesFrom(|base|, i + 1));
      LoopAreSelections(|base|, i + 1);
      ScanAppend(p, target, base, cals, menu, Prefixed(i, CandidatesFrom(|base|, i + 1)), CandidatesLoop(|base|, i + 1));
    }
  }

  /** No selection that reaches the target overshoots less than the result, and
      the result never overshoots more than the state it started from. */
  lemma {:induction false} ScanLower(p: PendingMenuOptimizer, target: nat, base: seq<Dish>, cals: nat, menu: seq<Dish>, cs: seq<seq<nat>>)
    requires AllInRange(cs, |base|)
    ensures Scan(p, target, base, cals, menu, cs).minDiff <= p.minDiff
    ensures forall k :: 0 <= k < |cs| && Total(base, cals, cs[k]) >= target ==>
              Total(base, cals, cs[k]) - target >= Scan(p, target, base, cals, menu, cs).minDiff
    decreases |cs|
  {
    if cs != [] {
      assert InRange(cs[0], |base|);
      var p' := Check(p, target, Total(base, cals, cs[0]), menu + Pick(base, cs[0]));
      ScanLower(p', target, base, cals, menu, cs[1..]);
      forall k | 0 < k < |cs|
        ensures cs[k] == cs[1..][k - 1]
      {
      }
    }
  }

  /** The result is the starting state, or the FIRST selection of `cs` that
      attains the smallest overshoot below the starting one. */
  /** Selection `k` of `cs` is the one whose menu the scan from `p` ended
      with: it reaches the target, its overshoot is the scan's `minDiff`,
      below the one of `p`, and every earlier selection reaching the target
      overshoots strictly more. */
  ghost predicate Hit(p: PendingMenuOptimizer, r: PendingMenuOptimizer, target: nat, base: seq<Dish>, cals: nat, menu: seq<Dish>, cs: seq<seq<nat>>, k: int)
    requires AllInRange(cs, |base|)
  {
    && 0 <= k < |cs|
    && Total(base, cals, cs[k]) >= target
    && r.optimalMenu == Some(menu + Pick(base, cs[k]))
    && r.minDiff == Total(base, cals, cs[k]) - target
    && r.minDiff < p.minDiff
    && (forall j :: 0 <= j < k && Total(base, cals, cs[j]) >= target ==>
          Total(base, cals, cs[j]) - target > r.minDiff)
  }

  lemma {:induction false} ScanWitness(p: PendingMenuOptimizer, target: nat, base: seq<Dish>, cals: nat, menu: seq<Dish>, cs: seq<seq<nat>>)
    requires AllInRange(cs, |base|)
    ensures var r := Scan(p, target, base, cals, menu, cs);
            r == p || exists k :: Hit(p, r, target, base, cals, menu, cs, k)
    decreases |cs|
  {
    if cs != [] {
      assert InRange(cs[0], |base|);
      var p' := Check(p, target, Total(base, cals, cs[0]), menu + Pick(base, cs[0]));
      var r := Scan(p, target, base, cals, menu, cs);
      assert r == Scan(p', target, base, cals, menu, cs[1..]);
      ScanWitness(p', target, base, cals, menu, cs[1..]);
      if r == p' {
        if p' != p {
          assert Hit(p, r, target, base, cals, menu, cs, 0);
        }
      } else {
        var k' :| Hit(p', r, target, base, cals, menu, cs[1..], k');
        var k := k' + 1;
        assert cs[k] == cs[1..][k'];
        forall j | 0 <= j < k && Total(base, cals, cs[j]) >= target
          ensures Total(base, cals, cs[j]) - target > r.minDiff
        {
          if j > 0 {
            assert cs[j] == cs[1..][j - 1];
          }
        }
        assert Hit(p, r, target, base, cals, menu, cs, k);
      }
    }
  }

  /** `m` is the menu of the FIRST selection, in search order, that reaches the
      target with overshoot `minDiff`, and every earlier selection that reaches
      the target overshoots strictly more. */
  ghost predicate FirstBest(base: seq<Dish>, target: nat, m: seq<Dish>, minDiff: int)
  {
    exists k :: BestAt(base, CandidatesFrom(|base|, 0), target, m, minDiff, k)
  }

  /** Selection `k` of the search order `cs` is the one `FirstBest` speaks
      of. */
  ghost predicate BestAt(base: seq<Dish>, cs: seq<seq<nat>>, target: nat, m: seq<Dish>, minDiff: int, k: int)
  {
    && 0 <= k < |cs|
    && IsSelection(cs[k], 0, |base|) && InRange(cs[k], |base|)
    && m == Pick(base, cs[k])
    && Calories(m) >= target && minDiff == Calories(m) - target
    && (forall j :: 0 <= j < k && InRange(cs[j], |base|) && Calories(Pick(base, cs[j])) >= target ==>
          Calories(Pick(base, cs[j])) - target > minDiff)
  }

  /** `find_optimal_menu` on a fresh optimizer. The result holds a menu exactly
      when some ordered sub-menu reaches the target; that menu is the first, in
      include-first depth-first order, of the ordered sub-menus reaching the
      target with the smallest overshoot, and `minDiff` is its overshoot. */
  function FindOptimalMenu(p: PendingMenuOptimizer, target: nat, base: seq<Dish>): (r: ReadyMenuOptimizer)
    requires p.optimalMenu.None? && p.minDiff == U32_MAX
    requires target <= U32_MAX && Calories(base) <= U32_MAX
    ensures r.optimalMenu.Some? ==> FirstBest(base, target, r.optimalMenu.value, r.minDiff)
    ensures r.optimalMenu.None? <==>
              forall c :: IsSelection(c, 0, |base|) ==> Calories(Pick(base, c)) < target
    ensures forall c :: IsSelection(c, 0, |base|) && Calories(Pick(base, c)) >= target ==>
              Calories(Pick(base, c)) - target >= r.minDiff
  {
    MenuSearchBound(p, target, base);
    MenuSearchFound(p, target, base);
    MenuSearchNone(p, target, base);
    var s := Backtrack(p, target, base, 0, 0, []);
    ReadyMenuOptimizer(s.optimalMenu, s.minDiff)
  }

  /** A selection never has more calories than the positions it picks from. */
  lemma {:induction false} SelectionCalories(base: seq<Dish>, lo: nat, c: seq<nat>)
    requires lo <= |base|
    requires IsSelection(c, lo, |base|)
    ensures InRange(c, |base|)
    ensures Calories(Pick(base, c)) <= Calories(base[lo..])
    decreases |base| - lo
  {
    if c != [] {
      var i := c[0];
      assert IsSelection(c[1..], i + 1, |base|) by {
        forall k | 0 <= k < |c[1..]|
          ensures i + 1 <= c[1..][k]
        {
          assert c[1..][k] == c[k + 1];
        }
      }
      SelectionCalories(base, i + 1, c[1..]);
      SuffixCaloriesShrink(base, lo, i);
      assert base[i..][1..] == base[i + 1..];
    }
  }

  lemma {:induction false} SuffixCaloriesShrink(base: seq<Dish>, lo: nat, i: nat)
    requires lo <= i <= |base|
    ensures Calories(base[i..]) <= Calories(base[lo..])
    decreases i - lo
  {
    if lo < i {
      assert base[lo..][1..] == base[lo + 1..];
      SuffixCaloriesShrink(base, lo + 1, i);
    }
  }

  /** The search's overshoot is at most that of every ordered sub-menu
      reaching the target. */
  lemma MenuSearchBound(p: PendingMenuOptimizer, target: nat, base: seq<Dish>)
    requires p.optimalMenu.None? && p.minDiff == U32_MAX
    requires target <= U32_MAX && Calories(base) <= U32_MAX
    ensures var s := Backtrack(p, target, base, 0, 0, []);
            forall c :: IsSelection(c, 0, |base|) && Calories(Pick(base, c)) >= target ==>
              Calories(Pick(base, c)) - target >= s.minDiff
  {
    var n := |base|;
    var cs := CandidatesFrom(n, 0);
    var s := Backtrack(p, target, base, 0, 0, []);
    BacktrackIsScan(p, target, base, 0, 0, []);
    CandidatesAreSelections(n, 0);
    ScanLower(p, target, base, 0, [], cs);
    forall c | IsSelection(c, 0, n) && Calories(Pick(base, c)) >= target
      ensures Calories(Pick(base, c)) - target >= s.minDiff
    {
      SelectionsAreCandidates(n, 0, c);
      var k :| 0 <= k < |cs| && cs[k] == c;
      assert Total(base, 0, cs[k]) == Calories(Pick(base, c));
    }
  }

  /** A menu the search finds is the first best one. */
  lemma MenuSearchFound(p: PendingMenuOptimizer, target: nat, base: seq<Dish>)
    requires p.optimalMenu.None? && p.minDiff == U32_MAX
    requires target <= U32_MAX && Calories(base) <= U32_MAX
    ensures var s := Backtrack(p, target, base, 0, 0, []);
            s.optimalMenu.Some? ==> FirstBest(base, target, s.optimalMenu.value, s.minDiff)
  {
    var n := |base|;
    var cs := CandidatesFrom(n, 0);
    var s := Backtrack(p, target, base, 0, 0, []);
    BacktrackIsScan(p, target, base, 0, 0, []);
    CandidatesAreSelections(n, 0);
    ScanWitness(p, target, base, 0, [], cs);
    if s.optimalMenu.Some? {
      assert s != p;
      var k :| Hit(p, s, target, base, 0, [], cs, k);
      WitnessIsFirstBest(p, s, target, base, cs, k);
    }
  }

  /** The scan's witness, for a search from the root, is the first best
      menu. */
  lemma WitnessIsFirstBest(p: PendingMenuOptimizer, r: PendingMenuOptimizer, target: nat, base: seq<Dish>, cs: seq<seq<nat>>, k: int)
    requires cs == CandidatesFrom(|base|, 0) && AllInRange(cs, |base|)
    requires Hit(p, r, target, base, 0, [], cs, k)
    requires IsSelection(cs[k], 0, |base|)
    ensures r.optimalMenu.Some? && FirstBest(base, target, r.optimalMenu.value, r.minDiff)
  {
    assert InRange(cs[k], |base|);
    var m := Pick(base, cs[k]);
    assert [] + m == m;
    EarlierOvershootMore(p, r, target, base, cs, k);
    assert BestAt(base, cs, target, m, r.minDiff, k);
  }

  /** The order condition of `Hit`, stated over menus rather than totals. */
  lemma EarlierOvershootMore(p: PendingMenuOptimizer, r: PendingMenuOptimizer, target: nat, base: seq<Dish>, cs: seq<seq<nat>>, k: int)
    requires AllInRange(cs, |base|) && Hit(p, r, target, base, 0, [], cs, k)
    ensures forall j :: 0 <= j < k && InRange(cs[j], |base|) && Calories(Pick(base, cs[j])) >= target ==>
              Calories(Pick(base, cs[j])) - target > r.minDiff
  {
    forall j | 0 <= j < k && InRange(cs[j], |base|) && Calories(Pick(base, cs[j])) >= target
      ensures Calories(Pick(base, cs[j])) - target > r.minDiff
    {
      assert Total(base, 0, cs[j]) == Calories(Pick(base, cs[j]));
    }
  }

  /** The search finds nothing exactly when no ordered sub-menu reaches the
      target. */
  lemma MenuSearchNone(p: PendingMenuOptimizer, target: nat, base: seq<Dish>)
    requires p.optimalMenu.None? && p.minDiff == U32_MAX
    requires target <= U32_MAX && Calories(base) <= U32_MAX
    ensures var s := Backtrack(p, target, base, 0, 0, []);
            s.optimalMenu.None? <==> forall c :: IsSelection(c, 0, |base|) ==> Calories(Pick(base, c)) < target
  {
    var n := |base|;
    var cs := CandidatesFrom(n, 0);
    var s := Backtrack(p, target, base, 0, 0, []);
    BacktrackIsScan(p, target, base, 0, 0, []);
    CandidatesAreSelections(n, 0);
    ScanWitness(p, target, base, 0, [], cs);
    if s.optimalMenu.Some? {
      assert s != p;
      var k :| Hit(p, s, target, base, 0, [], cs, k);
      assert IsSelection(cs[k], 0, n) && Calories(Pick(base, cs[k])) >= target;
    } else {
      assert IsSelection([], 0, n) && Pick(base, []) == [];
      MenuSearchBound(p, target, base);
      assert s == p;
      forall c | IsSelection(c, 0, n)
        ensures Calories(Pick(base, c)) < target
      {
        SelectionCalories(base, 0, c);
        assert base[0..] == base;
      }
    }
  }

  /** `report`: the "not possible" text exactly when no menu was found. */
  function Report(r: ReadyMenuOptimizer): (msg: MenuMessage)
    ensures msg.NoOptimalMenu? <==> r.optimalMenu.None?
    ensures msg.OptimalMenuFound? ==> msg.dishes == r.optimalMenu.value && msg.totalCalories == Calories(msg.dishes)
  {
    match r.optimalMenu
    case Some(menu) => OptimalMenuFound(menu, Calories(menu))
    case None => NoOptimalMenu
  }

  /** With a zero target the root node, the empty menu, is visited first and
      wins: nothing later can overshoot strictly less than 0. */
  lemma ZeroTargetYieldsEmptyMenu(base: seq<Dish>)
    requires Calories(base) <= U32_MAX
    ensures FindOptimalMenu(New(), 0, base).optimalMenu == Some([])
  {
    var r := FindOptimalMenu(New(), 0, base);
    assert IsSelection([], 0, |base|) && Calories(Pick(base, [])) >= 0;
    FirstBestOfZeroTarget(base, r.optimalMenu.value, r.minDiff);
  }

  lemma FirstBestOfZeroTarget(base: seq<Dish>, m: seq<Dish>, minDiff: int)
    requires FirstBest(base, 0, m, minDiff)
    ensures m == []
  {
    var cs := CandidatesFrom(|base|, 0);
    var k :| BestAt(base, cs, 0, m, minDiff, k);
    assert cs[0] == [] && InRange(cs[0], |base|);
    assert Calories(Pick(base, cs[0])) == 0;
    assert k == 0;
  }

  /** The six dishes of the source's tests. */
  function TestMenu(): seq<Dish>
  {
    [ Dish("Chicken", 300), Dish("Salad", 200), Dish("Soup", 150),
      Dish("WaterMelon", 80), Dish("Apple", 70), Dish("Fish", 400) ]
  }

  /** A target of 9999 is out of reach of the 1200 calories of the test menu. */
  lemma UnreachableTargetFindsNoMenu()
    ensures FindOptimalMenu(New(), 9999, TestMenu()).optimalMenu.None?
    ensures Report(FindOptimalMenu(New(), 9999, TestMenu())).NoOptimalMenu?
  {
    var base := TestMenu();
    assert Calories(base) == 1200;
    forall c | IsSelection(c, 0, |base|)
      ensures Calories(Pick(base, c)) < 9999
    {
      SelectionCalories(base, 0, c);
      assert base[0..] == base;
    }
  }

  /** A target of 1000 is met exactly: Chicken, Soup, WaterMelon, Apple and Fish
      add up to 1000, so the chosen menu has overshoot 0 and 1000 calories. */
  lemma ExactTargetIsMet()
    ensures var r := FindOptimalMenu(New(), 1000, TestMenu());
            r.optimalMenu.Some? && r.minDiff == 0 && Calories(r.optimalMenu.value) == 1000
  {
    var base := TestMenu();
    ExactSelection(base);
    var r := FindOptimalMenu(New(), 1000, base);
    FirstBestOvershoot(base, 1000, r.optimalMenu.value, r.minDiff);
  }

  /** Chicken, Soup, WaterMelon, Apple and Fish: an ordered sub-menu of the
      test menu with exactly 1000 calories. */
  lemma ExactSelection(base: seq<Dish>)
    requires base == TestMenu()
    ensures Calories(base) == 1200
    ensures IsSelection([0, 2, 3, 4, 5], 0, |base|) && Calories(Pick(base, [0, 2, 3, 4, 5])) == 1000
  {
    CaloriesOf6(base, base[0], base[1], base[2], base[3], base[4], base[5]);
    Selection5([0, 2, 3, 4, 5], 0, 2, 3, 4, 5, |base|);
    Pick5(base, [0, 2, 3, 4, 5], 0, 2, 3, 4, 5);
    CaloriesOf5(Pick(base, [0, 2, 3, 4, 5]), base[0], base[2], base[3], base[4], base[5]);
  }

  lemma Selection5(c: seq<nat>, i0: nat, i1: nat, i2: nat, i3: nat, i4: nat, n: nat)
    requires c == [i0, i1, i2, i3, i4] && i0 < i1 < i2 < i3 < i4 < n
    ensures IsSelection(c, 0, n) && InRange(c, n)
  {
  }

  /** The dishes a five-position selection picks. */
  lemma Pick5(base: seq<Dish>, c: seq<nat>, i0: nat, i1: nat, i2: nat, i3: nat, i4: nat)
    requires c == [i0, i1, i2, i3, i4] && i0 < |base| && i1 < |base| && i2 < |base| && i3 < |base| && i4 < |base|
    ensures InRange(c, |base|) && Pick(base, c) == [base[i0], base[i1], base[i2], base[i3], base[i4]]
  {
    PickCons(base, i4, []);
    PickCons(base, i3, [i4]);
    PickCons(base, i2, [i3, i4]);
    PickCons(base, i1, [i2, i3, i4]);
    PickCons(base, i0, [i1, i2, i3, i4]);
    assert [i0] + [i1, i2, i3, i4] == c;
  }

  lemma PickCons(base: seq<Dish>, i: nat, c: seq<nat>)
    requires i < |base| && InRange(c, |base|)
    ensures InRange([i] + c, |base|) && Pick(base, [i] + c) == [base[i]] + Pick(base, c)
  {
    assert ([i] + c)[1..] == c;
  }

  /** The calories of short literal menus, one dish at a time. */
  lemma CaloriesOf2(m: seq<Dish>, a: Dish, b: Dish)
    requires m == [a, b]
    ensures Calories(m) == a.calories + b.calories
  {
    assert m[1..] == [b];
    assert m[1..][1..] == [];
    assert Calories(m[1..]) == b.calories + Calories(m[1..][1..]);
  }

  lemma CaloriesOf3(m: seq<Dish>, a: Dish, b: Dish, c: Dish)
    requires m == [a, b, c]
    ensures Calories(m) == a.calories + b.calories + c.calories
  {
    assert m[1..] == [b, c];
    CaloriesOf2(m[1..], b, c);
  }

  lemma CaloriesOf4(m: seq<Dish>, a: Dish, b: Dish, c: Dish, d: Dish)
    requires m == [a, b, c, d]
    ensures Calories(m) == a.calories + b.calories + c.calories + d.calories
  {
    assert m[1..] == [b, c, d];
    CaloriesOf3(m[1..], b, c, d);
  }

  lemma CaloriesOf5(m: seq<Dish>, a: Dish, b: Dish, c: Dish, d: Dish, e: Dish)
    requires m == [a, b, c, d, e]
    ensures Calories(m) == a.calories + b.calories + c.calories + d.calories + e.calories
  {
    assert m[1..] == [b, c, d, e];
    CaloriesOf4(m[1..], b, c, d, e);
  }

  lemma CaloriesOf6(m: seq<Dish>, a: Dish, b: Dish, c: Dish, d: Dish, e: Dish, f: Dish)
    requires m == [a, b, c, d, e, f]
    ensures Calories(m) == a.calories + b.calories + c.calories + d.calories + e.calories + f.calories
  {
    assert m[1..] == [b, c, d, e, f];
    CaloriesOf5(m[1..], b, c, d, e, f);
  }

  /** The menu of `FirstBest` reaches the target with overshoot `minDiff`. */
  lemma FirstBestOvershoot(base: seq<Dish>, target: nat, m: seq<Dish>, minDiff: int)
    requires FirstBest(base, target, m, minDiff)
    ensures Calories(m) >= target && minDiff == Calories(m) - target
  {
  }
}
