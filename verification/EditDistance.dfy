// gtest.cc: the edit script that failure messages show. The script is always valid and costs what
// the table says. It is not always the cheapest: it is so exactly when some cheapest script keeps clear
// of the entries at which the table's strict comparisons miss a tie.
module EditDistance {

  datatype EditType = Match | Add | Remove | Replace

  const REPLACE_COST: real := 1.00001

  function Init<T>(s: seq<T>): seq<T>
    requires s != []
  {
    s[..|s| - 1]
  }

  function Last<T>(s: seq<T>): T
    requires s != []
  {
    s[|s| - 1]
  }

  // ---- scripts ----

  /** The script turns left into right, consuming all of one and producing all of the other. */
  ghost predicate Edits(es: seq<EditType>, left: seq<int>, right: seq<int>)
    decreases |es|
  {
    if es == [] then left == [] && right == []
    else
      match Last(es)
      case Match => left != [] && right != [] && Last(left) == Last(right) && Edits(Init(es), Init(left), Init(right))
      case Add => right != [] && Edits(Init(es), left, Init(right))
      case Remove => left != [] && Edits(Init(es), Init(left), right)
      case Replace => left != [] && right != [] && Edits(Init(es), Init(left), Init(right))
  }

  function EditCost(e: EditType): real {
    match e
    case Match => 0.0
    case Add => 1.0
    case Remove => 1.0
    case Replace => REPLACE_COST
  }

  ghost function ScriptCost(es: seq<EditType>): real {
    if es == [] then 0.0 else ScriptCost(Init(es)) + EditCost(Last(es))
  }

  ghost predicate IsCheapest(es: seq<EditType>, left: seq<int>, right: seq<int>) {
    Edits(es, left, right) && forall other :: Edits(other, left, right) ==> ScriptCost(es) <= ScriptCost(other)
  }

  // ---- the table ----

  /** The entry for the prefixes left and right: its move and its cost. */
  ghost function Entry(left: seq<int>, right: seq<int>): (EditType, real)
    decreases |left| + |right|
  {
    if right == [] then (Remove, |left| as real)
    else if left == [] then (Add, |right| as real)
    else if Last(left) == Last(right) then (Match, Entry(Init(left), Init(right)).1)
    else
      var add := Entry(left, Init(right)).1;
      var remove := Entry(Init(left), right).1;
      var replace := Entry(Init(left), Init(right)).1;
      if add < remove && add < replace then (Add, add + 1.0)
      else if remove < add && remove < replace then (Remove, remove + 1.0)
      else (Replace, replace + REPLACE_COST)
  }

  ghost function Cost(left: seq<int>, right: seq<int>): real {
    Entry(left, right).1
  }

  /** The path read off the table from the far corner. */
  ghost function Path(left: seq<int>, right: seq<int>): seq<EditType>
    decreases |left| + |right|
  {
    if left == [] && right == [] then [] else
      var move := Entry(left, right).0;
      Path(if move == Add then left else Init(left), if move == Remove then right else Init(right)) + [move]
  }

  /** Where the path comes from, one move before its end. */
  ghost function Before(left: seq<int>, right: seq<int>): (seq<int>, seq<int>)
    requires left != [] || right != []
  {
    var move := Entry(left, right).0;
    (if move == Add then left else Init(left), if move == Remove then right else Init(right))
  }

  lemma CostSteps(left: seq<int>, right: seq<int>)
    requires left != [] || right != []
    ensures Cost(left, right) == Cost(Before(left, right).0, Before(left, right).1) + EditCost(Entry(left, right).0)
  {
    if right == [] {
      assert |left| as real == |Init(left)| as real + 1.0;
    } else if left == [] {
      assert |right| as real == |Init(right)| as real + 1.0;
    }
  }

  lemma PathSteps(left: seq<int>, right: seq<int>)
    requires left != [] || right != []
    ensures var l, r := Before(left, right).0, Before(left, right).1;
            && Path(left, right) == Path(l, r) + [Entry(left, right).0]
            && Cost(left, right) == Cost(l, r) + EditCost(Entry(left, right).0)
  {
    CostSteps(left, right);
    hide Entry, Cost, EditCost;
  }

  lemma ScriptSnoc(es: seq<EditType>, e: EditType)
    ensures Init(es + [e]) == es && Last(es + [e]) == e
    ensures ScriptCost(es + [e]) == ScriptCost(es) + EditCost(e)
  {
  }

  lemma StepIsEdit(es: seq<EditType>, left: seq<int>, right: seq<int>)
    requires left != [] || right != []
    requires Edits(es, Before(left, right).0, Before(left, right).1)
    ensures Edits(es + [Entry(left, right).0], left, right)
  {
    ScriptSnoc(es, Entry(left, right).0);
  }

  /** The path is a valid script, and its cost is the one recorded in the table. */
  lemma {:induction false} PathIsScript(left: seq<int>, right: seq<int>)
    ensures Edits(Path(left, right), left, right)
    ensures ScriptCost(Path(left, right)) == Cost(left, right)
    decreases |left| + |right|
  {
    if left != [] || right != [] {
      var l, r := Before(left, right).0, Before(left, right).1;
      PathIsScript(l, r);
      PathSteps(left, right);
      ScriptSnoc(Path(l, r), Entry(left, right).0);
      StepIsEdit(Path(l, r), left, right);
      hide Edits, Path, ScriptCost, Entry, Before;
    }
  }

  // ---- the least cost ----

  ghost function Min(a: real, b: real): real {
    if a < b then a else b
  }

  /** The least cost of a script, by the full three-way minimum. */
  ghost function Least(left: seq<int>, right: seq<int>): real
    decreases |left| + |right|
  {
    if right == [] then |left| as real
    else if left == [] then |right| as real
    else Min(Min(Least(left, Init(right)) + 1.0, Least(Init(left), right) + 1.0),
             Least(Init(left), Init(right)) + if Last(left) == Last(right) then 0.0 else REPLACE_COST)
  }

  lemma LeastGrowsByOne(left: seq<int>, right: seq<int>)
    ensures left != [] ==> Least(left, right) <= Least(Init(left), right) + 1.0
    ensures right != [] ==> Least(left, right) <= Least(left, Init(right)) + 1.0
  {
  }

  lemma {:induction false} LeastDropsByOne(left: seq<int>, right: seq<int>)
    ensures left != [] ==> Least(Init(left), right) <= Least(left, right) + 1.0
    ensures right != [] ==> Least(left, Init(right)) <= Least(left, right) + 1.0
    decreases |left| + |right|
  {
    if left != [] && right != [] {
      LeastDropsByOne(Init(left), right);
      LeastDropsByOne(left, Init(right));
      LeastGrowsByOne(left, Init(right));
      LeastGrowsByOne(Init(left), right);
    }
  }

  lemma {:induction false} LeastIsLowerBound(es: seq<EditType>, left: seq<int>, right: seq<int>)
    requires Edits(es, left, right)
    ensures Least(left, right) <= ScriptCost(es)
    decreases |es|
  {
    if es != [] {
      LeastGrowsByOne(left, right);
      match Last(es)
      case Match => LeastIsLowerBound(Init(es), Init(left), Init(right));
      case Add => LeastIsLowerBound(Init(es), left, Init(right));
      case Remove => LeastIsLowerBound(Init(es), Init(left), right);
      case Replace => LeastIsLowerBound(Init(es), Init(left), Init(right));
    }
  }

  lemma {:induction false} LeastIsReached(left: seq<int>, right: seq<int>) returns (es: seq<EditType>)
    ensures Edits(es, left, right) && ScriptCost(es) == Least(left, right)
    decreases |left| + |right|
  {
    if left == [] && right == [] {
      return [];
    }
    var move :=
      if right == [] then Remove
      else if left == [] then Add
      else if Least(left, right) == Least(left, Init(right)) + 1.0 then Add
      else if Least(left, right) == Least(Init(left), right) + 1.0 then Remove
      else if Last(left) == Last(right) then Match else Replace;
    var l, r := if move == Add then left else Init(left), if move == Remove then right else Init(right);
    var before := LeastIsReached(l, r);
    es := before + [move];
    assert Init(es) == before && Last(es) == move;
  }

  // ---- when the table is minimal ----

  /**
   * The entry falls through to a replacement on a tie: the last elements differ, and of the three entries
   * next to it none is strictly the least. The comparisons are strict, so they miss the addition or removal.
   */
  ghost predicate FallsThrough(left: seq<int>, right: seq<int>) {
    left != [] && right != [] && Last(left) != Last(right) &&
    var add, remove, replace := Cost(left, Init(right)), Cost(Init(left), right), Cost(Init(left), Init(right));
    && !(add < remove && add < replace) && !(remove < add && remove < replace) && !(replace < add && replace < remove)
  }

  /** Costs come in steps of 0.00001. */
  lemma {:induction false} CostInUnits(left: seq<int>, right: seq<int>) returns (units: int)
    ensures Cost(left, right) == units as real * 0.00001
    decreases |left| + |right|
  {
    if left == [] && right == [] {
      return 0;
    }
    PathSteps(left, right);
    var l, r := Before(left, right).0, Before(left, right).1;
    var before := CostInUnits(l, r);
    units := before + match Entry(left, right).0
                      case Match => 0
                      case Add => 100000
                      case Remove => 100000
                      case Replace => 100001;
  }

  lemma CostsApart(l: seq<int>, r: seq<int>, l': seq<int>, r': seq<int>)
    requires Cost(l, r) < Cost(l', r')
    ensures Cost(l, r) + 0.00001 <= Cost(l', r')
  {
    var k := CostInUnits(l, r);
    var k' := CostInUnits(l', r');
    hide Cost;
    assert k < k';
  }

  /** At unequal last elements the entry is the least that its neighbours allow, unless it falls through; then it is more. */
  lemma FallingThroughIsDearer(left: seq<int>, right: seq<int>)
    requires left != [] && right != [] && Last(left) != Last(right)
    ensures var least := Min(Min(Cost(left, Init(right)), Cost(Init(left), right)) + 1.0,
                             Cost(Init(left), Init(right)) + REPLACE_COST);
            if FallsThrough(left, right) then Cost(left, right) > least else Cost(left, right) == least
  {
    var add, remove, replace := Cost(left, Init(right)), Cost(Init(left), right), Cost(Init(left), Init(right));
    if replace < add {
      CostsApart(Init(left), Init(right), left, Init(right));
    }
    if replace < remove {
      CostsApart(Init(left), Init(right), Init(left), right);
    }
  }

  ghost predicate NeverFallsThrough(left: seq<int>, right: seq<int>) {
    forall l, r :: l <= left && r <= right ==> !FallsThrough(l, r)
  }

  ghost predicate TableIsMinimal(left: seq<int>, right: seq<int>) {
    forall l, r :: l <= left && r <= right ==> Cost(l, r) == Least(l, r)
  }

  lemma {:induction false} EntryIsMinimal(left: seq<int>, right: seq<int>, l: seq<int>, r: seq<int>)
    requires l <= left && r <= right && NeverFallsThrough(left, right)
    ensures Cost(l, r) == Least(l, r)
    decreases |l| + |r|
  {
    if l != [] && r != [] {
      EntryIsMinimal(left, right, Init(l), Init(r));
      EntryIsMinimal(left, right, l, Init(r));
      EntryIsMinimal(left, right, Init(l), r);
      assert !FallsThrough(l, r);
      if Last(l) != Last(r) {
        FallingThroughIsDearer(l, r);
      }
      LeastDropsByOne(l, Init(r));
      LeastDropsByOne(Init(l), r);
    }
  }

  /** All entries for prefixes hold the least cost exactly when none of them falls through. */
  lemma TableIsMinimalIff(left: seq<int>, right: seq<int>)
    ensures TableIsMinimal(left, right) <==> NeverFallsThrough(left, right)
  {
    if NeverFallsThrough(left, right) {
      forall l, r | l <= left && r <= right ensures Cost(l, r) == Least(l, r) {
        EntryIsMinimal(left, right, l, r);
      }
    }
    if TableIsMinimal(left, right) {
      forall l, r | l <= left && r <= right ensures !FallsThrough(l, r) {
        if l != [] && r != [] && Last(l) != Last(r) {
          FallingThroughIsDearer(l, r);
          assert Cost(l, r) == Least(l, r);
          assert Cost(l, Init(r)) == Least(l, Init(r));
          assert Cost(Init(l), r) == Least(Init(l), r);
          assert Cost(Init(l), Init(r)) == Least(Init(l), Init(r));
        }
      }
    }
  }

  // ---- when the script is a cheapest one ----

  /** Along the script no entry falls through, and it takes every match that offers itself at its end. */
  ghost predicate Avoids(es: seq<EditType>, left: seq<int>, right: seq<int>)
    requires Edits(es, left, right)
    decreases |es|
  {
    es == [] ||
    (&& !FallsThrough(left, right)
     && (left != [] && right != [] && Last(left) == Last(right) ==> Last(es) == Match)
     && match Last(es)
        case Add => Avoids(Init(es), left, Init(right))
        case Remove => Avoids(Init(es), Init(left), right)
        case _ => Avoids(Init(es), Init(left), Init(right)))
  }

  /** The table is no dearer than any script that keeps clear of the entries that fall through. */
  lemma {:induction false} NoDearerThanAvoiding(es: seq<EditType>, left: seq<int>, right: seq<int>)
    requires Edits(es, left, right) && Avoids(es, left, right)
    ensures Cost(left, right) <= ScriptCost(es)
    decreases |es|
  {
    if es != [] {
      match Last(es) {
        case Add => NoDearerThanAvoiding(Init(es), left, Init(right));
        case Remove => NoDearerThanAvoiding(Init(es), Init(left), right);
        case _ => NoDearerThanAvoiding(Init(es), Init(left), Init(right));
      }
      if left != [] && right != [] && Last(left) != Last(right) {
        FallingThroughIsDearer(left, right);
      }
    }
  }

  lemma LeastIsNoDearer(left: seq<int>, right: seq<int>)
    ensures Least(left, right) <= Cost(left, right)
  {
    PathIsScript(left, right);
    LeastIsLowerBound(Path(left, right), left, right);
  }

  lemma CheapEntryHolds(left: seq<int>, right: seq<int>)
    requires Cost(left, right) == Least(left, right)
    ensures !FallsThrough(left, right)
  {
    if FallsThrough(left, right) {
      FallingThroughIsDearer(left, right);
      LeastIsNoDearer(left, Init(right));
      LeastIsNoDearer(Init(left), right);
      LeastIsNoDearer(Init(left), Init(right));
    }
  }

  /** A path as cheap as can be keeps clear of them all. */
  lemma {:induction false} CheapPathAvoids(left: seq<int>, right: seq<int>)
    requires Cost(left, right) == Least(left, right)
    ensures Edits(Path(left, right), left, right) && Avoids(Path(left, right), left, right)
    decreases |left| + |right|
  {
    PathIsScript(left, right);
    if left != [] || right != [] {
      var l, r := Before(left, right).0, Before(left, right).1;
      PathSteps(left, right);
      LeastIsNoDearer(l, r);
      LeastGrowsByOne(left, right);
      CheapPathAvoids(l, r);
      CheapEntryHolds(left, right);
      ScriptSnoc(Path(l, r), Entry(left, right).0);
      hide FallsThrough, Path, Cost, Least, Edits;
    }
  }

  ghost predicate SomeCheapestAvoids(left: seq<int>, right: seq<int>) {
    exists es :: IsCheapest(es, left, right) && Avoids(es, left, right)
  }

  /** The path is a cheapest script exactly when its own entry is minimal. */
  lemma PathIsCheapestIff(left: seq<int>, right: seq<int>)
    ensures IsCheapest(Path(left, right), left, right) <==> Cost(left, right) == Least(left, right)
  {
    PathIsScript(left, right);
    var best := LeastIsReached(left, right);
    forall other | Edits(other, left, right) ensures Least(left, right) <= ScriptCost(other) {
      LeastIsLowerBound(other, left, right);
    }
  }

  /** The script is optimal exactly when some cheapest script keeps clear of the entries that fall through. */
  lemma OptimalIff(left: seq<int>, right: seq<int>)
    ensures IsCheapest(Path(left, right), left, right) <==> SomeCheapestAvoids(left, right)
  {
    PathIsCheapestIff(left, right);
    if IsCheapest(Path(left, right), left, right) {
      CheapPathAvoids(left, right);
    }
    if es :| IsCheapest(es, left, right) && Avoids(es, left, right) {
      NoDearerThanAvoiding(es, left, right);
      PathIsScript(left, right);
    }
  }

  ghost predicate PathsAreCheapest(left: seq<int>, right: seq<int>) {
    forall l, r :: l <= left && r <= right ==> IsCheapest(Path(l, r), l, r)
  }

  /** So the paths for all prefixes are cheapest exactly when no entry falls through. */
  lemma PathsAreCheapestIff(left: seq<int>, right: seq<int>)
    ensures PathsAreCheapest(left, right) <==> NeverFallsThrough(left, right)
  {
    TableIsMinimalIff(left, right);
    hide IsCheapest, NeverFallsThrough, Cost, Least, Path;
    if TableIsMinimal(left, right) {
      forall l, r | l <= left && r <= right ensures IsCheapest(Path(l, r), l, r) {
        assert Cost(l, r) == Least(l, r);
        PathIsCheapestIff(l, r);
      }
      assert PathsAreCheapest(left, right);
    }
    if PathsAreCheapest(left, right) {
      forall l, r | l <= left && r <= right ensures Cost(l, r) == Least(l, r) {
        assert IsCheapest(Path(l, r), l, r);
        PathIsCheapestIff(l, r);
      }
      assert TableIsMinimal(left, right);
    }
  }

  // ---- the method ----

  /** A move and a cost are the entry for the prefixes of lengths i and j. */
  ghost predicate IsEntry(left: seq<int>, right: seq<int>, i: int, j: int, move: EditType, cost: real) {
    && 0 <= i <= |left| && 0 <= j <= |right|
    && (move, cost) == Entry(left[..i], right[..j])
  }

  method FillEdges(costs: array2<real>, bestMove: array2<EditType>, left: seq<int>, right: seq<int>)
    requires costs.Length0 == bestMove.Length0 == |left| + 1 && costs.Length1 == bestMove.Length1 == |right| + 1
    modifies costs, bestMove
    ensures forall i :: 0 <= i <= |left| ==> IsEntry(left, right, i, 0, bestMove[i, 0], costs[i, 0])
    ensures forall j :: 0 <= j <= |right| ==> IsEntry(left, right, 0, j, bestMove[0, j], costs[0, j])
  {
    for l := 0 to |left| + 1
      invariant forall i :: 0 <= i < l ==> IsEntry(left, right, i, 0, bestMove[i, 0], costs[i, 0])
    {
      costs[l, 0] := l as real;
      bestMove[l, 0] := Remove;
    }
    for r := 1 to |right| + 1
      invariant forall i :: 0 <= i <= |left| ==> IsEntry(left, right, i, 0, bestMove[i, 0], costs[i, 0])
      invariant forall j :: 0 <= j < r ==> IsEntry(left, right, 0, j, bestMove[0, j], costs[0, j])
    {
      costs[0, r] := r as real;
      bestMove[0, r] := Add;
    }
  }

  /** Fills a row from the row above it. */
  method FillRow(costs: array2<real>, bestMove: array2<EditType>, left: seq<int>, right: seq<int>, row: nat)
    requires costs.Length0 == bestMove.Length0 == |left| + 1 && costs.Length1 == bestMove.Length1 == |right| + 1
    requires 1 <= row <= |left| && IsEntry(left, right, row, 0, bestMove[row, 0], costs[row, 0])
    requires forall i, j :: 0 <= i < row && 0 <= j <= |right| ==> IsEntry(left, right, i, j, bestMove[i, j], costs[i, j])
    modifies costs, bestMove
    ensures forall i, j :: 0 <= i <= row && 0 <= j <= |right| ==> IsEntry(left, right, i, j, bestMove[i, j], costs[i, j])
    ensures forall i, j :: row < i <= |left| && 0 <= j <= |right| ==> costs[i, j] == old(costs[i, j])
    ensures forall i, j :: row < i <= |left| && 0 <= j <= |right| ==> bestMove[i, j] == old(bestMove[i, j])
  {
    var l := row - 1;
    for r := 0 to |right|
      invariant forall i, j :: 0 <= i < row && 0 <= j <= |right| ==> IsEntry(left, right, i, j, bestMove[i, j], costs[i, j])
      invariant forall j :: 0 <= j <= r ==> IsEntry(left, right, row, j, bestMove[row, j], costs[row, j])
      invariant forall i, j :: row < i <= |left| && 0 <= j <= |right| ==> costs[i, j] == old(costs[i, j])
      invariant forall i, j :: row < i <= |left| && 0 <= j <= |right| ==> bestMove[i, j] == old(bestMove[i, j])
    {
      PrefixInit(left, l);
      PrefixInit(right, r);
      assert IsEntry(left, right, l, r, bestMove[l, r], costs[l, r]);
      assert IsEntry(left, right, l, r + 1, bestMove[l, r + 1], costs[l, r + 1]);
      if left[l] == right[r] {
        costs[l + 1, r + 1] := costs[l, r];
        bestMove[l + 1, r + 1] := Match;
        continue;
      }
      var add, remove, replace := costs[l + 1, r], costs[l, r + 1], costs[l, r];
      if add < remove && add < replace {
        costs[l + 1, r + 1] := add + 1.0;
        bestMove[l + 1, r + 1] := Add;
      } else if remove < add && remove < replace {
        costs[l + 1, r + 1] := remove + 1.0;
        bestMove[l + 1, r + 1] := Remove;
      } else {
        costs[l + 1, r + 1] := replace + REPLACE_COST;
        bestMove[l + 1, r + 1] := Replace;
      }
    }
  }

  /** Collects the path from its end, and reverses it. */
  method ReadPath(costs: array2<real>, bestMove: array2<EditType>, left: seq<int>, right: seq<int>)
    returns (bestPath: seq<EditType>)
    requires costs.Length0 == bestMove.Length0 == |left| + 1 && costs.Length1 == bestMove.Length1 == |right| + 1
    requires forall i, j :: 0 <= i <= |left| && 0 <= j <= |right| ==> IsEntry(left, right, i, j, bestMove[i, j], costs[i, j])
    ensures bestPath == Path(left, right)
  {
    hide Entry, Path, Reversed, Init, Last;
    var l, r := |left|, |right|;
    var reversed: seq<EditType> := [];
    assert left[..l] == left && right[..r] == right && Reversed(reversed) == [];
    while l > 0 || r > 0
      invariant 0 <= l <= |left| && 0 <= r <= |right|
      invariant Path(left, right) == Path(left[..l], right[..r]) + Reversed(reversed)
      decreases l + r
    {
      var move := bestMove[l, r];
      assert IsEntry(left, right, l, r, bestMove[l, r], costs[l, r]);
      PathSteps(left[..l], right[..r]);
      MovesFit(left[..l], right[..r]);
      ReversedSnoc(reversed, move);
      if l > 0 {
        PrefixInit(left, l - 1);
      }
      if r > 0 {
        PrefixInit(right, r - 1);
      }
      reversed := reversed + [move];
      l := if move != Add then l - 1 else l;
      r := if move != Remove then r - 1 else r;
    }
    EmptyPath();
    return Reversed(reversed);
  }

  method CalculateOptimalEdits(left: seq<int>, right: seq<int>) returns (bestPath: seq<EditType>)
    ensures bestPath == Path(left, right)
    ensures Edits(bestPath, left, right) && ScriptCost(bestPath) == Cost(left, right)
    ensures IsCheapest(bestPath, left, right) <==> SomeCheapestAvoids(left, right)
  {
    var costs := new real[|left| + 1, |right| + 1];
    var bestMove := new EditType[|left| + 1, |right| + 1];
    hide *;
    FillEdges(costs, bestMove, left, right);
    for l := 0 to |left|
      invariant forall i :: l < i <= |left| ==> IsEntry(left, right, i, 0, bestMove[i, 0], costs[i, 0])
      invariant forall i, j :: 0 <= i <= l && 0 <= j <= |right| ==> IsEntry(left, right, i, j, bestMove[i, j], costs[i, j])
    {
      FillRow(costs, bestMove, left, right, l + 1);
    }
    bestPath := ReadPath(costs, bestMove, left, right);
    PathIsScript(left, right);
    OptimalIff(left, right);
  }

  lemma EmptyPath()
    ensures Path([], []) == []
  {
  }

  lemma MovesFit(left: seq<int>, right: seq<int>)
    requires left != [] || right != []
    ensures Entry(left, right).0 != Add ==> left != []
    ensures Entry(left, right).0 != Remove ==> right != []
  {
  }

  function Reversed<T>(s: seq<T>): (r: seq<T>)
    ensures |r| == |s| && forall i :: 0 <= i < |s| ==> r[i] == s[|s| - 1 - i]
  {
    if s == [] then [] else [Last(s)] + Reversed(Init(s))
  }

  lemma ReversedSnoc<T>(s: seq<T>, x: T)
    ensures Reversed(s + [x]) == [x] + Reversed(s)
  {
    assert Init(s + [x]) == s;
  }

  lemma PrefixInit(s: seq<int>, n: nat)
    requires n < |s|
    ensures s[..n + 1] != [] && Init(s[..n + 1]) == s[..n] && Last(s[..n + 1]) == s[n]
  {
  }

  // ---- the script need not be the cheapest ----

  lemma SmallEntries()
    ensures Entry([0], [1]) == (Replace, 1.00001)
    ensures Entry([0, 1], [1, 0]) == (Replace, 2.00002)
    ensures Entry([0, 1], [1, 0, 1]) == (Match, 1.0) && Entry([0, 1, 0], [1, 0]) == (Match, 1.0)
  {
    assert Init([0, 1, 0]) == [0, 1] && Init([0, 1]) == [0] && Init([0]) == [];
    assert Init([1, 0, 1]) == [1, 0] && Init([1, 0]) == [1] && Init([1]) == [];
    assert Entry([0], [1, 0]) == (Match, 1.0);
    assert Entry([0, 1], [1]) == (Match, 1.0);
  }

  lemma ThreeReplacements()
    ensures Path([0, 1, 0], [1, 0, 1]) == [Replace, Replace, Replace]
  {
    var left, right := [0, 1, 0], [1, 0, 1];
    SmallEntries();
    assert Init(left) == [0, 1] && Init([0, 1]) == [0] && Init([0]) == [];
    assert Init(right) == [1, 0] && Init([1, 0]) == [1] && Init([1]) == [];
    assert Entry(left, right).0 == Replace;
    hide Entry;
    assert Path([], []) == [];
    assert Path([0], [1]) == Path([], []) + [Replace];
    assert Path([0, 1], [1, 0]) == Path([0], [1]) + [Replace];
  }

  lemma TwoEditsDo()
    ensures Edits([Remove, Match, Match, Add], [0, 1, 0], [1, 0, 1])
    ensures ScriptCost([Remove, Match, Match, Add]) == 2.0
  {
    assert Init([0, 1, 0]) == [0, 1] && Init([0, 1]) == [0] && Init([0]) == [];
    assert Init([1, 0, 1]) == [1, 0] && Init([1, 0]) == [1] && Init([1]) == [];
    var es := [Remove, Match, Match, Add];
    assert Init(es) == [Remove, Match, Match] && Init([Remove, Match, Match]) == [Remove, Match];
    assert Init([Remove, Match]) == [Remove] && Init([Remove]) == [];
    assert Edits([Remove], [0], []) && Edits([Remove, Match], [0, 1], [1]);
    assert Edits([Remove, Match, Match], [0, 1, 0], [1, 0]);
    assert ScriptCost([Remove]) == 1.0 && ScriptCost([Remove, Match]) == 1.0 && ScriptCost([Remove, Match, Match]) == 1.0;
  }

  /** Turning 0 1 0 into 1 0 1 takes two edits; the table settles for three replacements. */
  lemma NotAlwaysCheapest()
    ensures !IsCheapest(Path([0, 1, 0], [1, 0, 1]), [0, 1, 0], [1, 0, 1])
    ensures Path([0, 1, 0], [1, 0, 1]) == [Replace, Replace, Replace]
  {
    ThreeReplacements();
    TwoEditsDo();
    ScriptSnoc([], Replace);
    ScriptSnoc([Replace], Replace);
    ScriptSnoc([Replace, Replace], Replace);
    assert [] + [Replace] == [Replace] && [Replace] + [Replace] == [Replace, Replace];
    assert [Replace, Replace] + [Replace] == [Replace, Replace, Replace];
    assert ScriptCost([Replace, Replace, Replace]) > 2.0;
    hide ScriptCost;
  }

  lemma {:induction false} LeastCoversLengths(left: seq<int>, right: seq<int>)
    ensures Least(left, right) >= (|right| - |left|) as real
    decreases |left| + |right|
  {
    if left != [] && right != [] {
      LeastCoversLengths(left, Init(right));
      LeastCoversLengths(Init(left), right);
      LeastCoversLengths(Init(left), Init(right));
    }
  }

  lemma TieAtThree()
    ensures FallsThrough([0, 1, 0], [1, 0, 1])
    ensures Cost([0, 1, 0], [1, 0, 1, 0]) == 1.0
  {
    SmallEntries();
    assert Init([0, 1, 0]) == [0, 1] && Init([1, 0, 1]) == [1, 0] && Init([1, 0, 1, 0]) == [1, 0, 1];
    assert Entry([0, 1, 0], [1, 0, 1, 0]) == (Match, 1.0);
    hide Entry;
  }

  /** A tie off the path does no harm: 0 1 0 becomes 1 0 1 0 by the one addition it takes. */
  lemma CheapestInSpiteOfATie()
    ensures IsCheapest(Path([0, 1, 0], [1, 0, 1, 0]), [0, 1, 0], [1, 0, 1, 0])
    ensures !NeverFallsThrough([0, 1, 0], [1, 0, 1, 0])
  {
    var left, right := [0, 1, 0], [1, 0, 1, 0];
    TieAtThree();
    assert left <= left && [1, 0, 1] <= right;
    hide Cost, FallsThrough, IsCheapest, Least, Path;
    LeastCoversLengths(left, right);
    LeastIsNoDearer(left, right);
    PathIsCheapestIff(left, right);
  }
}
