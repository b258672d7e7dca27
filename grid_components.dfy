// Connected components of GridOps: labelling, counting and sizing the
// 4-connected regions of cells that hold a target value.
//
// The reference definition: a cell's component LEADER is the lowest-index
// target cell connected to it; components are numbered 1, 2, ... in the
// order of their leaders, which is the order in which the row-major scan
// of label_connected_components meets them.
module GridComponents {
  import opened Common
  import opened Grid
  import opened GridFill

  // ----------------------------------------------------------- connectivity

  /** Cell `c` of a grid `width` wide and `height` tall holds `target`. */
  predicate IsTarget(grid: seq<int>, width: int, height: int, target: int, c: int)
  {
    0 <= c < width * height && c < |grid| && grid[c] == target
  }

  /** Step `k` of `p` goes to a 4-neighbour. */
  ghost predicate Linked(width: int, height: int, p: seq<int>, k: int)
    requires width > 0 && 0 < k < |p|
  {
    p[k] in Around(p[k - 1], width, height)
  }

  /** A walk between 4-neighbours through target cells. */
  ghost predicate IsPath(grid: seq<int>, width: int, height: int, target: int, p: seq<int>)
    requires width > 0
  {
    |p| >= 1 &&
    (forall k :: 0 <= k < |p| ==> IsTarget(grid, width, height, target, p[k])) &&
    (forall k :: 0 < k < |p| ==> Linked(width, height, p, k))
  }

  /** Target cells `a` and `b` are joined by a walk through target cells. */
  ghost predicate Connected(grid: seq<int>, width: int, height: int, target: int, a: int, b: int)
    requires width > 0
  {
    exists p :: IsPath(grid, width, height, target, p) && p[0] == a && p[|p| - 1] == b
  }

  lemma ConnectedRefl(grid: seq<int>, width: int, height: int, target: int, a: int)
    requires width > 0 && IsTarget(grid, width, height, target, a)
    ensures Connected(grid, width, height, target, a, a)
  {
    assert IsPath(grid, width, height, target, [a]);
  }

  /** A walk extends by one step into a target neighbour. */
  lemma ConnectedStep(grid: seq<int>, width: int, height: int, target: int, a: int, b: int, n: int)
    requires width > 0 && Connected(grid, width, height, target, a, b)
    requires n in Around(b, width, height) && IsTarget(grid, width, height, target, n)
    ensures Connected(grid, width, height, target, a, n)
  {
    var p :| IsPath(grid, width, height, target, p) && p[0] == a && p[|p| - 1] == b;
    var q := p + [n];
    forall k | 0 < k < |q|
      ensures Linked(width, height, q, k)
    {
      if k < |p| {
        assert Linked(width, height, p, k);
      }
    }
    assert IsPath(grid, width, height, target, q);
  }

  /** Walks can be reversed, since 4-adjacency is symmetric inside the grid. */
  lemma ConnectedSym(grid: seq<int>, width: int, height: int, target: int, a: int, b: int)
    requires width > 0 && Connected(grid, width, height, target, a, b)
    ensures Connected(grid, width, height, target, b, a)
  {
    var p :| IsPath(grid, width, height, target, p) && p[0] == a && p[|p| - 1] == b;
    var q := seq(|p|, k requires 0 <= k < |p| => p[|p| - 1 - k]);
    forall k | 0 < k < |q|
      ensures Linked(width, height, q, k)
    {
      var j := |p| - k;
      assert Linked(width, height, p, j);
      assert IsTarget(grid, width, height, target, p[j]) && IsTarget(grid, width, height, target, p[j - 1]);
      AroundSymmetric(p[j - 1], p[j], width, height);
    }
    assert IsPath(grid, width, height, target, q);
  }

  /** Walks compose. */
  lemma ConnectedTrans(grid: seq<int>, width: int, height: int, target: int, a: int, b: int, c: int)
    requires width > 0
    requires Connected(grid, width, height, target, a, b) && Connected(grid, width, height, target, b, c)
    ensures Connected(grid, width, height, target, a, c)
  {
    var p :| IsPath(grid, width, height, target, p) && p[0] == a && p[|p| - 1] == b;
    var q :| IsPath(grid, width, height, target, q) && q[0] == b && q[|q| - 1] == c;
    var w := p + q[1..];
    forall k | 0 < k < |w|
      ensures Linked(width, height, w, k)
    {
      if k < |p| {
        assert Linked(width, height, p, k);
      } else {
        assert Linked(width, height, q, k - |p| + 1);
      }
    }
    assert IsPath(grid, width, height, target, w);
  }

  // ---------------------------------------------------------------- leaders

  /** The first target cell from `j` on that is connected to `k` (`k` itself at the latest). */
  ghost function FirstConnected(grid: seq<int>, width: int, height: int, target: int, k: int, j: int): (l: int)
    requires width > 0 && 0 <= j <= k
    ensures j <= l <= k
    decreases k - j
  {
    if j == k then k
    else if IsTarget(grid, width, height, target, j) && Connected(grid, width, height, target, j, k) then j
    else FirstConnected(grid, width, height, target, k, j + 1)
  }

  /** The leader of cell `k`: the lowest-index target cell connected to it. */
  ghost function LeaderOf(grid: seq<int>, width: int, height: int, target: int, k: int): (l: int)
    requires width > 0 && 0 <= k
    ensures 0 <= l <= k
  {
    FirstConnected(grid, width, height, target, k, 0)
  }

  lemma {:induction false} FirstConnectedIsFirst(grid: seq<int>, width: int, height: int, target: int, k: int, j: int)
    requires width > 0 && 0 <= j <= k && IsTarget(grid, width, height, target, k)
    requires forall i :: 0 <= i < j && IsTarget(grid, width, height, target, i) ==> !Connected(grid, width, height, target, i, k)
    ensures var l := FirstConnected(grid, width, height, target, k, j);
      j <= l <= k && IsTarget(grid, width, height, target, l) && Connected(grid, width, height, target, l, k) &&
      forall i :: 0 <= i < l && IsTarget(grid, width, height, target, i) ==> !Connected(grid, width, height, target, i, k)
    decreases k - j
  {
    if j == k {
      ConnectedRefl(grid, width, height, target, k);
    } else if !(IsTarget(grid, width, height, target, j) && Connected(grid, width, height, target, j, k)) {
      FirstConnectedIsFirst(grid, width, height, target, k, j + 1);
    }
  }

  /**
   * The leader of a target cell is a target cell at or before it, connected
   * to it, and no earlier target cell is connected to it.
   */
  lemma LeaderOfIsLeast(grid: seq<int>, width: int, height: int, target: int, k: int)
    requires width > 0 && IsTarget(grid, width, height, target, k)
    ensures var l := LeaderOf(grid, width, height, target, k);
      0 <= l <= k && IsTarget(grid, width, height, target, l) && Connected(grid, width, height, target, l, k) &&
      forall i :: 0 <= i < l && IsTarget(grid, width, height, target, i) ==> !Connected(grid, width, height, target, i, k)
  {
    FirstConnectedIsFirst(grid, width, height, target, k, 0);
  }

  /** Connected cells have the same leader. */
  lemma SameLeader(grid: seq<int>, width: int, height: int, target: int, a: int, b: int)
    requires width > 0 && IsTarget(grid, width, height, target, a) && IsTarget(grid, width, height, target, b)
    requires Connected(grid, width, height, target, a, b)
    ensures LeaderOf(grid, width, height, target, a) == LeaderOf(grid, width, height, target, b)
  {
    var la, lb := LeaderOf(grid, width, height, target, a), LeaderOf(grid, width, height, target, b);
    LeaderOfIsLeast(grid, width, height, target, a);
    LeaderOfIsLeast(grid, width, height, target, b);
    ConnectedSym(grid, width, height, target, a, b);
    ConnectedTrans(grid, width, height, target, la, a, b);
    ConnectedTrans(grid, width, height, target, lb, b, a);
  }

  /** Cell `i` is the leader of its component. */
  ghost predicate IsLeader(grid: seq<int>, width: int, height: int, target: int, i: int)
    requires width > 0
  {
    IsTarget(grid, width, height, target, i) && LeaderOf(grid, width, height, target, i) == i
  }

  /** Number of component leaders among cells 0 .. n-1. */
  ghost function LeadersBelow(grid: seq<int>, width: int, height: int, target: int, n: int): nat
    requires width > 0
    decreases n
  {
    if n <= 0 then 0
    else LeadersBelow(grid, width, height, target, n - 1) + (if IsLeader(grid, width, height, target, n - 1) then 1 else 0)
  }

  /** The count only grows with n. */
  lemma {:induction false} LeadersBelowMono(grid: seq<int>, width: int, height: int, target: int, m: int, n: int)
    requires width > 0 && m <= n
    ensures LeadersBelow(grid, width, height, target, m) <= LeadersBelow(grid, width, height, target, n)
    decreases n - m
  {
    if m < n {
      LeadersBelowMono(grid, width, height, target, m, n - 1);
    }
  }

  /**
   * The label a cell receives: 0 off target, otherwise the number of the
   * component, that is how many leaders come no later than its own.
   */
  ghost function LabelOf(grid: seq<int>, width: int, height: int, target: int, k: int): int
    requires width > 0 && 0 <= k
  {
    if IsTarget(grid, width, height, target, k) then LeadersBelow(grid, width, height, target, LeaderOf(grid, width, height, target, k) + 1)
    else 0
  }

  /** The leader of a cell is its own leader. */
  lemma LeaderIsLeader(grid: seq<int>, width: int, height: int, target: int, k: int)
    requires width > 0 && IsTarget(grid, width, height, target, k)
    ensures IsLeader(grid, width, height, target, LeaderOf(grid, width, height, target, k))
  {
    var l := LeaderOf(grid, width, height, target, k);
    LeaderOfIsLeast(grid, width, height, target, k);
    SameLeader(grid, width, height, target, l, k);
  }

  /** A cell that is not a leader leads no cell. */
  lemma NoFollower(grid: seq<int>, width: int, height: int, target: int, i: int, k: int)
    requires width > 0 && !IsLeader(grid, width, height, target, i) && IsTarget(grid, width, height, target, k)
    ensures LeaderOf(grid, width, height, target, k) != i
  {
    if LeaderOf(grid, width, height, target, k) == i {
      LeaderIsLeader(grid, width, height, target, k);
    }
  }

  /** A walk from `a` connects `a` to every cell along it. */
  lemma {:induction false} PathPrefix(grid: seq<int>, width: int, height: int, target: int, p: seq<int>, s: int)
    requires width > 0 && IsPath(grid, width, height, target, p) && 0 <= s < |p|
    ensures Connected(grid, width, height, target, p[0], p[s])
  {
    var q := p[..s + 1];
    forall k | 0 < k < |q|
      ensures Linked(width, height, q, k)
    {
      assert Linked(width, height, p, k);
    }
    assert IsPath(grid, width, height, target, q);
  }

  /** Cells recorded with an earlier neighbour are connected to the first one. */
  lemma {:induction false} OrderConnected(grid: seq<int>, width: int, height: int, target: int, order: seq<int>, t: int)
    requires width > 0 && 0 <= t < |order|
    requires forall u :: 0 <= u < |order| ==> IsTarget(grid, width, height, target, order[u])
    requires forall u :: 0 < u < |order| ==> exists j :: 0 <= j < u && order[u] in Around(order[j], width, height)
    ensures Connected(grid, width, height, target, order[0], order[t])
    decreases t
  {
    if t == 0 {
      ConnectedRefl(grid, width, height, target, order[0]);
    } else {
      var j :| 0 <= j < t && order[t] in Around(order[j], width, height);
      OrderConnected(grid, width, height, target, order, j);
      ConnectedStep(grid, width, height, target, order[0], order[j], order[t]);
    }
  }

  /**
   * A BFS from leader `i` through cells that no earlier leader claimed, and
   * closed up to such claimed cells, has visited exactly i's component.
   */
  lemma ExploredComponent(grid: seq<int>, width: int, height: int, target: int, i: int, order: seq<int>)
    requires width > 0 && IsLeader(grid, width, height, target, i) && |order| >= 1 && order[0] == i
    requires forall t :: 0 <= t < |order| ==>
      IsTarget(grid, width, height, target, order[t]) && LeaderOf(grid, width, height, target, order[t]) >= i
    requires forall t :: 0 < t < |order| ==> exists j :: 0 <= j < t && order[t] in Around(order[j], width, height)
    requires forall t, n :: 0 <= t < |order| && n in Around(order[t], width, height) && IsTarget(grid, width, height, target, n) ==>
      n in order || LeaderOf(grid, width, height, target, n) < i
    ensures forall k :: IsTarget(grid, width, height, target, k) ==> (k in order <==> LeaderOf(grid, width, height, target, k) == i)
  {
    forall k | IsTarget(grid, width, height, target, k)
      ensures k in order <==> LeaderOf(grid, width, height, target, k) == i
    {
      if k in order {
        var t :| 0 <= t < |order| && order[t] == k;
        OrderConnected(grid, width, height, target, order, t);
        SameLeader(grid, width, height, target, i, k);
      }
      if LeaderOf(grid, width, height, target, k) == i {
        LeaderOfIsLeast(grid, width, height, target, k);
        var p :| IsPath(grid, width, height, target, p) && p[0] == i && p[|p| - 1] == k;
        var s := 0;
        while s < |p| - 1
          invariant 0 <= s < |p| && p[s] in order
        {
          assert Linked(width, height, p, s + 1);
          PathPrefix(grid, width, height, target, p, s + 1);
          SameLeader(grid, width, height, target, i, p[s + 1]);
          s := s + 1;
        }
      }
    }
  }

  // ------------------------------------------------------------- labelling

  /** The labels after the scan has passed cells 0 .. i-1: components led before i are numbered. */
  ghost predicate LabelledBefore(grid: seq<int>, width: int, height: int, target: int, i: int, lab: seq<int>)
    requires width > 0
  {
    |lab| == width * height &&
    forall k :: 0 <= k < |lab| ==>
      lab[k] == (if IsTarget(grid, width, height, target, k) && LeaderOf(grid, width, height, target, k) < i
                 then LeadersBelow(grid, width, height, target, LeaderOf(grid, width, height, target, k) + 1) else 0)
  }

  /** Every label the scan has given is positive, so an unlabelled target cell has no earlier leader. */
  lemma UnlabelledIsLater(grid: seq<int>, width: int, height: int, target: int, i: int, lab: seq<int>)
    requires width > 0 && LabelledBefore(grid, width, height, target, i, lab)
    ensures forall k :: IsTarget(grid, width, height, target, k) && lab[k] == 0 ==> LeaderOf(grid, width, height, target, k) >= i
  {
    forall k | IsTarget(grid, width, height, target, k) && lab[k] == 0
      ensures LeaderOf(grid, width, height, target, k) >= i
    {
      LeaderIsLeader(grid, width, height, target, k);
    }
  }

  /** Labelling the component of leader `i` with the next number advances the scan past `i`. */
  lemma LabelLeaderStep(grid: seq<int>, width: int, height: int, target: int, i: int,
                        lab: seq<int>, next: seq<int>, order: seq<int>)
    requires width > 0 && IsLeader(grid, width, height, target, i) && LabelledBefore(grid, width, height, target, i, lab)
    requires forall t :: 0 <= t < |order| ==> IsTarget(grid, width, height, target, order[t])
    requires forall k :: IsTarget(grid, width, height, target, k) ==> (k in order <==> LeaderOf(grid, width, height, target, k) == i)
    requires |next| == |lab| && forall k :: 0 <= k < |next| ==>
      next[k] == (if k in order then LeadersBelow(grid, width, height, target, i + 1) else lab[k])
    ensures LabelledBefore(grid, width, height, target, i + 1, next)
  {
  }

  /** Passing a cell that leads no component changes no label. */
  lemma LabelOtherStep(grid: seq<int>, width: int, height: int, target: int, i: int, lab: seq<int>)
    requires width > 0 && 0 <= i && !IsLeader(grid, width, height, target, i)
    requires LabelledBefore(grid, width, height, target, i, lab)
    ensures LabelledBefore(grid, width, height, target, i + 1, lab)
  {
    forall k | IsTarget(grid, width, height, target, k)
      ensures LeaderOf(grid, width, height, target, k) != i
    {
      NoFollower(grid, width, height, target, i, k);
    }
  }

  /** One BFS of the labelling scan: cell `i` is a leader not yet labelled, and its whole component gets `tag`. */
  method LabelComponent(grid: seq<int>, width: int, height: int, target: int, lab: array<int>, i: int, tag: int)
    requires width > 0 && height >= 0 && width * height <= |grid| && lab.Length == width * height
    requires 0 <= i < lab.Length && grid[i] == target && lab[i] == 0
    requires IsLeader(grid, width, height, target, i) && tag == LeadersBelow(grid, width, height, target, i + 1)
    requires LabelledBefore(grid, width, height, target, i, lab[..])
    modifies lab
    ensures LabelledBefore(grid, width, height, target, i + 1, lab[..])
  {
    ghost var before := lab[..];
    UnlabelledIsLater(grid, width, height, target, i, before);
    var order := Explore(grid, width, height, target, lab, 0, tag, i);
    forall t | 0 <= t < |order|
      ensures IsTarget(grid, width, height, target, order[t]) && LeaderOf(grid, width, height, target, order[t]) >= i
    {
      assert before[order[t]] == 0;
    }
    ExploredComponent(grid, width, height, target, i, order);
    LabelLeaderStep(grid, width, height, target, i, before, lab[..], order);
  }

  /**
   * label_connected_components: a row-major scan that starts a BFS, with
   * the next label, from every target cell still unlabelled.
   */
  method LabelConnectedComponents(grid: seq<int>, width: int, height: int, target: int) returns (labels: seq<int>)
    requires width * height <= |grid|
    ensures |labels| == if width * height < 0 then 0 else width * height
    ensures width > 0 && height >= 0 ==>
      forall k :: 0 <= k < |labels| ==> labels[k] == LabelOf(grid, width, height, target, k)
    ensures width < 0 && height < 0 ==>
      forall k :: 0 <= k < |labels| ==> labels[k] == if grid[k] == target then Count(grid[..k + 1], target) else 0
  {
    if width < 0 && height < 0 {
      labels := LabelIsolated(grid, width, height, target);
      return;
    }
    if width <= 0 || height < 0 {
      // no cells, or a negative size that leaves the labels empty: the scan runs zero times
      SizeSign(width, height);
      return [];
    }
    var size := width * height;
    var lab := new int[size](_ => 0);
    var currentLabel := 0;
    var i := 0;
    while i < size
      invariant 0 <= i <= size
      invariant currentLabel == LeadersBelow(grid, width, height, target, i)
      invariant LabelledBefore(grid, width, height, target, i, lab[..])
    {
      if grid[i] == target && lab[i] == 0 {
        LeaderIsLeader(grid, width, height, target, i);
        currentLabel := currentLabel + 1;
        LabelComponent(grid, width, height, target, lab, i, currentLabel);
      } else {
        if grid[i] == target {
          LeaderIsLeader(grid, width, height, target, i);
        }
        LabelOtherStep(grid, width, height, target, i, lab[..]);
      }
      i := i + 1;
    }
    labels := lab[..];
  }

  /** count_connected_components: the same scan, counting BFS starts instead of labelling. */
  method CountConnectedComponents(grid: seq<int>, width: int, height: int, target: int) returns (count: int)
    requires 0 <= width * height <= |grid|
    ensures width * height == 0 ==> count == 0
    ensures width > 0 && height >= 0 ==> count == LeadersBelow(grid, width, height, target, width * height)
    ensures width < 0 && height < 0 ==> count == Count(grid[..width * height], target)
  {
    if width < 0 && height < 0 {
      count := CountIsolated(grid, width, height, target);
      return;
    }
    if width <= 0 || height <= 0 {
      // no cells: the scan runs zero times
      SizeSign(width, height);
      return 0;
    }
    var size := width * height;
    var visited := new bool[size](_ => false);
    count := 0;
    var i := 0;
    while i < size
      invariant 0 <= i <= size
      invariant count == LeadersBelow(grid, width, height, target, i)
      invariant forall k :: 0 <= k < size ==>
        (visited[k] <==> IsTarget(grid, width, height, target, k) && LeaderOf(grid, width, height, target, k) < i)
    {
      if grid[i] == target && !visited[i] {
        LeaderOfIsLeast(grid, width, height, target, i);
        assert IsLeader(grid, width, height, target, i);
        count := count + 1;
        var order := Explore(grid, width, height, target, visited, false, true, i);
        ExploredComponent(grid, width, height, target, i, order);
      } else {
        forall k | IsTarget(grid, width, height, target, k)
          ensures LeaderOf(grid, width, height, target, k) != i
        {
          if grid[i] == target {
            LeaderOfIsLeast(grid, width, height, target, i);
          }
          NoFollower(grid, width, height, target, i, k);
        }
      }
      i := i + 1;
    }
  }

  // ------------------------------------------------- what the labels mean

  /** The label of every cell, as the labelling scan assigns it. */
  ghost function Labelling(grid: seq<int>, width: int, height: int, target: int): (lab: seq<int>)
    requires width > 0 && height >= 0
    ensures |lab| == width * height
  {
    seq(width * height, k requires 0 <= k < width * height => LabelOf(grid, width, height, target, k))
  }

  /** Cells sharing a leader are connected. */
  lemma LeaderConnects(grid: seq<int>, width: int, height: int, target: int, a: int, b: int)
    requires width > 0 && IsTarget(grid, width, height, target, a) && IsTarget(grid, width, height, target, b)
    requires LeaderOf(grid, width, height, target, a) == LeaderOf(grid, width, height, target, b)
    ensures Connected(grid, width, height, target, a, b)
  {
    var l := LeaderOf(grid, width, height, target, a);
    LeaderOfIsLeast(grid, width, height, target, a);
    LeaderOfIsLeast(grid, width, height, target, b);
    ConnectedSym(grid, width, height, target, l, a);
    ConnectedTrans(grid, width, height, target, a, l, b);
  }

  /** A later leader has a strictly larger number. */
  lemma LaterLeaderHigher(grid: seq<int>, width: int, height: int, target: int, l: int, m: int)
    requires width > 0 && 0 <= l < m && IsLeader(grid, width, height, target, m)
    ensures LeadersBelow(grid, width, height, target, l + 1) < LeadersBelow(grid, width, height, target, m + 1)
  {
    LeadersBelowMono(grid, width, height, target, l + 1, m);
  }

  /**
   * Off-target cells get label 0; target cells get a label in 1 .. the
   * number of components.
   */
  lemma LabelRange(grid: seq<int>, width: int, height: int, target: int, k: int)
    requires width > 0 && height >= 0 && 0 <= k < width * height
    ensures IsTarget(grid, width, height, target, k) ==>
      1 <= LabelOf(grid, width, height, target, k) <= LeadersBelow(grid, width, height, target, width * height)
    ensures !IsTarget(grid, width, height, target, k) ==> LabelOf(grid, width, height, target, k) == 0
  {
    if IsTarget(grid, width, height, target, k) {
      var l := LeaderOf(grid, width, height, target, k);
      LeaderIsLeader(grid, width, height, target, k);
      LeadersBelowMono(grid, width, height, target, l + 1, width * height);
    }
  }

  /** Two target cells get the same label exactly when a 4-connected walk of target cells joins them. */
  lemma SameLabelIffConnected(grid: seq<int>, width: int, height: int, target: int, a: int, b: int)
    requires width > 0 && IsTarget(grid, width, height, target, a) && IsTarget(grid, width, height, target, b)
    ensures LabelOf(grid, width, height, target, a) == LabelOf(grid, width, height, target, b) <==>
      Connected(grid, width, height, target, a, b)
  {
    var la, lb := LeaderOf(grid, width, height, target, a), LeaderOf(grid, width, height, target, b);
    LeaderIsLeader(grid, width, height, target, a);
    LeaderIsLeader(grid, width, height, target, b);
    if Connected(grid, width, height, target, a, b) {
      SameLeader(grid, width, height, target, a, b);
    } else if la == lb {
      LeaderConnects(grid, width, height, target, a, b);
    } else if la < lb {
      LaterLeaderHigher(grid, width, height, target, la, lb);
    } else {
      LaterLeaderHigher(grid, width, height, target, lb, la);
    }
  }

  /** 4-adjacent target cells share a label. */
  lemma AdjacentSameLabel(grid: seq<int>, width: int, height: int, target: int, a: int, b: int)
    requires width > 0 && IsTarget(grid, width, height, target, a) && IsTarget(grid, width, height, target, b)
    requires b in Around(a, width, height)
    ensures LabelOf(grid, width, height, target, a) == LabelOf(grid, width, height, target, b)
  {
    ConnectedRefl(grid, width, height, target, a);
    ConnectedStep(grid, width, height, target, a, a, b);
    SameLabelIffConnected(grid, width, height, target, a, b);
  }

  /** Every number 1 .. LeadersBelow(n) is the label of a leader below n. */
  lemma {:induction false} LabelAttained(grid: seq<int>, width: int, height: int, target: int, n: int, m: int)
    requires width > 0 && 1 <= m <= LeadersBelow(grid, width, height, target, n)
    ensures exists l :: 0 <= l < n && IsLeader(grid, width, height, target, l) && LabelOf(grid, width, height, target, l) == m
    decreases n
  {
    if m <= LeadersBelow(grid, width, height, target, n - 1) {
      LabelAttained(grid, width, height, target, n - 1, m);
    } else {
      assert IsLeader(grid, width, height, target, n - 1);
      assert LabelOf(grid, width, height, target, n - 1) == m;
    }
  }

  // -------------------------------------------------------- component sizes

  /** The label of every cell lies in 0 .. n, and is 0 exactly off target. */
  lemma LabellingRange(grid: seq<int>, width: int, height: int, target: int)
    requires width > 0 && height >= 0 && width * height <= |grid|
    ensures var lab := Labelling(grid, width, height, target);
      forall k :: 0 <= k < |lab| ==>
        0 <= lab[k] <= LeadersBelow(grid, width, height, target, width * height) &&
        (lab[k] == 0 <==> grid[k] != target)
  {
    var lab := Labelling(grid, width, height, target);
    forall k | 0 <= k < |lab|
      ensures 0 <= lab[k] <= LeadersBelow(grid, width, height, target, width * height)
      ensures lab[k] == 0 <==> grid[k] != target
    {
      LabelRange(grid, width, height, target, k);
    }
  }

  /** Every component has at least one cell. */
  lemma ComponentsNonEmpty(grid: seq<int>, width: int, height: int, target: int)
    requires width > 0 && height >= 0 && width * height <= |grid|
    ensures var n := LeadersBelow(grid, width, height, target, width * height);
      forall j :: 0 <= j < n ==> Histogram(Labelling(grid, width, height, target), n)[j] >= 1
  {
    var n := LeadersBelow(grid, width, height, target, width * height);
    var lab := Labelling(grid, width, height, target);
    forall j | 0 <= j < n
      ensures Histogram(lab, n)[j] >= 1
    {
      LabelCounted(grid, width, height, target, j + 1);
      assert Histogram(lab, n)[j] == Count(lab, j + 1);
    }
  }

  /** A label that some leader carries occurs in the labelling. */
  lemma LabelCounted(grid: seq<int>, width: int, height: int, target: int, m: int)
    requires width > 0 && height >= 0 && width * height <= |grid|
    requires 1 <= m <= LeadersBelow(grid, width, height, target, width * height)
    ensures Count(Labelling(grid, width, height, target), m) >= 1
  {
    var lab := Labelling(grid, width, height, target);
    LabelAttained(grid, width, height, target, width * height, m);
    var l :| 0 <= l < width * height && IsLeader(grid, width, height, target, l) && LabelOf(grid, width, height, target, l) == m;
    assert lab[l] == m;
    CountPositive(lab, m, l);
  }

  /** There are no components exactly when no cell holds the target. */
  lemma NoComponentsIffNoTarget(grid: seq<int>, width: int, height: int, target: int)
    requires width > 0 && height >= 0 && width * height <= |grid|
    ensures LeadersBelow(grid, width, height, target, width * height) == 0 <==>
      forall k :: 0 <= k < width * height ==> grid[k] != target
  {
    var n := LeadersBelow(grid, width, height, target, width * height);
    if n != 0 {
      LabelAttained(grid, width, height, target, width * height, n);
    }
    forall k | 0 <= k < width * height && grid[k] == target
      ensures n != 0
    {
      LabelRange(grid, width, height, target, k);
    }
  }

  /** The component sizes add up to the number of target cells. */
  lemma ComponentSizesSum(grid: seq<int>, width: int, height: int, target: int)
    requires width > 0 && height >= 0 && width * height <= |grid|
    ensures var n := LeadersBelow(grid, width, height, target, width * height);
      Sum(Histogram(Labelling(grid, width, height, target), n)) == Count(grid[..width * height], target)
  {
    var n := LeadersBelow(grid, width, height, target, width * height);
    var lab := Labelling(grid, width, height, target);
    LabellingRange(grid, width, height, target);
    HistogramSum(lab, n);
    CountComplement(lab, 0, grid[..width * height], target);
  }

  /** The largest entry of a sequence of labels, 0 when there is none above 0. */
  method MaxLabel(labels: seq<int>) returns (m: int)
    ensures m >= 0 && forall k :: 0 <= k < |labels| ==> labels[k] <= m
    ensures m == 0 || exists k :: 0 <= k < |labels| && labels[k] == m
  {
    m := 0;
    var i := 0;
    while i < |labels|
      invariant 0 <= i <= |labels| && m >= 0
      invariant forall k :: 0 <= k < i ==> labels[k] <= m
      invariant m == 0 || exists k :: 0 <= k < i && labels[k] == m
    {
      if labels[i] > m {
        m := labels[i];
      }
      i := i + 1;
    }
  }

  /** Counts of the labels 1 .. m, through a table indexed by label. */
  method Tally(labels: seq<int>, m: int) returns (sizes: seq<int>)
    requires m >= 0 && forall k :: 0 <= k < |labels| ==> 0 <= labels[k] <= m
    ensures sizes == Histogram(labels, m)
  {
    var counts := new int[m + 1](_ => 0);
    var i := 0;
    while i < |labels|
      invariant 0 <= i <= |labels|
      invariant forall j :: 0 <= j <= m ==> counts[j] == (if j == 0 then 0 else Count(labels[..i], j))
    {
      if labels[i] > 0 {
        counts[labels[i]] := counts[labels[i]] + 1;
      }
      assert labels[..i + 1][..i] == labels[..i];
      i := i + 1;
    }
    assert labels[..|labels|] == labels;
    var result := new int[m];
    var j := 1;
    while j <= m
      invariant 1 <= j <= m + 1
      invariant forall t :: 1 <= t <= m ==> counts[t] == Count(labels, t)
      invariant forall t :: 0 <= t < j - 1 ==> result[t] == Count(labels, t + 1)
    {
      result[j - 1] := counts[j];
      j := j + 1;
    }
    sizes := result[..];
  }

  /**
   * component_sizes: labels the grid, finds the largest label, and counts
   * the cells of each label 1 .. max; empty when the largest label is 0.
   */
  method ComponentSizes(grid: seq<int>, width: int, height: int, target: int) returns (sizes: seq<int>)
    requires width * height <= |grid|
    ensures !(width > 0 && height > 0) && !(width < 0 && height < 0) ==> sizes == []
    ensures width > 0 && height >= 0 ==>
      sizes == Histogram(Labelling(grid, width, height, target), LeadersBelow(grid, width, height, target, width * height))
    ensures width < 0 && height < 0 ==> sizes == seq(Count(grid[..width * height], target), _ => 1)
  {
    var labels := LabelConnectedComponents(grid, width, height, target);
    if width < 0 && height < 0 {
      sizes := IsolatedSizes(grid, width, height, target, labels);
      return;
    }
    if width <= 0 || height <= 0 {
      // no labels, so the largest label is 0
      return [];
    }
    assert labels == Labelling(grid, width, height, target);
    ghost var n := LeadersBelow(grid, width, height, target, width * height);
    LabellingRange(grid, width, height, target);
    var maxLabel := MaxLabel(labels);
    if n >= 1 {
      LabelAttained(grid, width, height, target, width * height, n);
    }
    assert maxLabel == n;
    if maxLabel == 0 {
      return [];
    }
    sizes := Tally(labels, maxLabel);
  }

  // ------------------------------------------ both dimensions negative

  /*
   * With width < 0 and height < 0 the source's size width * height is
   * positive, but no neighbour passes `nx >= 0 && nx < width`: every BFS
   * stops at its start, so each target cell is a component of its own,
   * labelled by its rank among the target cells in scan order.
   */

  /** The labels of the first n cells when every target cell stands alone. */
  ghost function IsolatedLabels(grid: seq<int>, target: int, n: int): (lab: seq<int>)
    requires 0 <= n <= |grid|
    ensures |lab| == n
  {
    seq(n, k requires 0 <= k < n => if grid[k] == target then Count(grid[..k + 1], target) else 0)
  }

  /** Standing alone, each target cell carries its own label: labels 1 .. (number of targets) occur once each. */
  lemma {:induction false} IsolatedHistogram(grid: seq<int>, target: int, n: int, v: int)
    requires 0 <= n <= |grid| && v >= 1
    ensures Count(IsolatedLabels(grid, target, n), v) == if v <= Count(grid[..n], target) then 1 else 0
  {
    if n > 0 {
      var lab := IsolatedLabels(grid, target, n);
      assert lab[..n - 1] == IsolatedLabels(grid, target, n - 1);
      assert grid[..n][..n - 1] == grid[..n - 1];
      IsolatedHistogram(grid, target, n - 1, v);
    } else {
      assert grid[..0] == [];
    }
  }

  /** A longer prefix holds at least as many occurrences. */
  lemma {:induction false} CountPrefixMono(s: seq<int>, v: int, i: int, j: int)
    requires 0 <= i <= j <= |s|
    ensures Count(s[..i], v) <= Count(s[..j], v)
  {
    if i < j {
      assert s[..j][..j - 1] == s[..j - 1];
      CountPrefixMono(s, v, i, j - 1);
    }
  }

  /** A positive count has a witness. */
  lemma {:induction false} CountWitness(s: seq<int>, v: int) returns (k: int)
    requires Count(s, v) >= 1
    ensures 0 <= k < |s| && s[k] == v
  {
    if s[|s| - 1] == v {
      k := |s| - 1;
    } else {
      k := CountWitness(s[..|s| - 1], v);
    }
  }

  /** label_connected_components with both dimensions negative: each BFS labels only its start. */
  method LabelIsolated(grid: seq<int>, width: int, height: int, target: int) returns (labels: seq<int>)
    requires width < 0 && height < 0 && width * height <= |grid|
    ensures labels == IsolatedLabels(grid, target, width * height)
  {
    var size := width * height;
    var lab := new int[size](_ => 0);
    var currentLabel := 0;
    for i := 0 to size
      invariant currentLabel == Count(grid[..i], target)
      invariant forall k :: 0 <= k < i ==> lab[k] == if grid[k] == target then Count(grid[..k + 1], target) else 0
      invariant forall k :: i <= k < size ==> lab[k] == 0
    {
      assert grid[..i + 1][..i] == grid[..i];
      if grid[i] == target && lab[i] == 0 {
        currentLabel := currentLabel + 1;
        lab[i] := currentLabel;
      }
    }
    labels := lab[..];
  }

  /** count_connected_components with both dimensions negative: one BFS start per target cell. */
  method CountIsolated(grid: seq<int>, width: int, height: int, target: int) returns (count: int)
    requires width < 0 && height < 0 && width * height <= |grid|
    ensures count == Count(grid[..width * height], target)
  {
    var size := width * height;
    var visited := new bool[size](_ => false);
    count := 0;
    for i := 0 to size
      invariant count == Count(grid[..i], target)
      invariant forall k :: 0 <= k < size ==> (visited[k] <==> k < i && grid[k] == target)
    {
      assert grid[..i + 1][..i] == grid[..i];
      if grid[i] == target && !visited[i] {
        count := count + 1;
        visited[i] := true;
      }
    }
  }

  /** component_sizes with both dimensions negative: the largest label is the number of target cells, each of size 1. */
  method IsolatedSizes(grid: seq<int>, width: int, height: int, target: int, labels: seq<int>) returns (sizes: seq<int>)
    requires width < 0 && height < 0 && width * height <= |grid|
    requires labels == IsolatedLabels(grid, target, width * height)
    ensures sizes == seq(Count(grid[..width * height], target), _ => 1)
  {
    var size := width * height;
    ghost var n := Count(grid[..size], target);
    forall k | 0 <= k < |labels|
      ensures 0 <= labels[k] <= n
    {
      CountPrefixMono(grid, target, k + 1, size);
    }
    var maxLabel := MaxLabel(labels);
    if n >= 1 {
      IsolatedHistogram(grid, target, size, n);
      var k := CountWitness(labels, n);
    }
    assert maxLabel == n;
    if maxLabel == 0 {
      return [];
    }
    sizes := Tally(labels, maxLabel);
    forall j | 0 <= j < n
      ensures sizes[j] == 1
    {
      IsolatedHistogram(grid, target, size, j + 1);
    }
  }
}
