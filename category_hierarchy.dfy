/**
 * `category_clean` and `build_category_path` (scripts/ecommerce-full-etl.py).
 *
 * The frame of the job is a relation with one row per category; category
 * ids are taken to be unique, so the frame is a map from `category_id` to
 * the row's other two columns.
 */
module CategoryHierarchy {
  import opened Options
  import opened Casts

  /** A row of the `category_tree` catalog table; `parentid` is "" for a root. */
  datatype RawCategory = RawCategory(categoryid: int, parentid: string)

  /** A row of `category_clean`. */
  datatype CategoryEdge = CategoryEdge(categoryId: int, parentCategoryId: Option<int>)

  function CleanCategory(r: RawCategory): (e: CategoryEdge)
    ensures e.categoryId == r.categoryid
    ensures e.parentCategoryId == EmptyAsAbsent(r.parentid)
  {
    CategoryEdge(r.categoryid, EmptyAsAbsent(r.parentid))
  }

  function CleanCategories(rows: seq<RawCategory>): (es: seq<CategoryEdge>)
    ensures |es| == |rows|
    ensures forall i :: 0 <= i < |rows| ==> es[i] == CleanCategory(rows[i])
  {
    seq(|rows|, i requires 0 <= i < |rows| => CleanCategory(rows[i]))
  }

  predicate UniqueCategoryIds(es: seq<CategoryEdge>)
  {
    forall i, j :: 0 <= i < j < |es| ==> es[i].categoryId != es[j].categoryId
  }

  /** The parent relation: `category_id` to `parent_category_id`. */
  type Edges = map<int, Option<int>>

  function EdgeMap(es: seq<CategoryEdge>): (edges: Edges)
    requires UniqueCategoryIds(es)
    ensures forall e :: e in es ==> e.categoryId in edges && edges[e.categoryId] == e.parentCategoryId
    ensures forall c :: c in edges ==> exists e :: e in es && e.categoryId == c
  {
    map e | e in es :: e.categoryId := e.parentCategoryId
  }

  /** The remaining columns of a frame row: the pointer and the path built so far. */
  datatype PathRow = PathRow(parent: Option<int>, path: seq<int>)

  type Frame = map<int, PathRow>

  const MaxDepth: nat := 5

  /** `withColumn("category_path", array(col("category_id")))`. */
  function InitialFrame(edges: Edges): (f: Frame)
    ensures f.Keys == edges.Keys
    ensures forall c :: c in f ==> f[c] == PathRow(edges[c], [c])
  {
    map c | c in edges :: PathRow(edges[c], [c])
  }

  /**
   * One row `c1` of the left outer join with `lookup` on
   * `c1.parent_category_id == c2.category_id`, then the select: the pointer
   * becomes `c2.parent_category_id` (null when nothing matched), and
   * `c2.category_id` is appended to the path only when a row matched.
   */
  function JoinRow(c1: PathRow, lookup: Frame): (r: PathRow)
    ensures r.path == c1.path || (c1.parent.Some? && r.path == c1.path + [c1.parent.value])
    ensures r.path != c1.path <==> c1.parent.Some? && c1.parent.value in lookup
    ensures r.parent.Some? ==> c1.parent.Some? && c1.parent.value in lookup
    ensures c1.parent.Some? && c1.parent.value in lookup ==> r.parent == lookup[c1.parent.value].parent
    ensures !(c1.parent.Some? && c1.parent.value in lookup) ==> r.parent == None
  {
    if c1.parent.Some? && c1.parent.value in lookup then
      PathRow(lookup[c1.parent.value].parent, c1.path + [c1.parent.value])
    else
      PathRow(None, c1.path)
  }

  /** One pass of the loop as written: the frame joined with itself. */
  function SelfJoinRound(df: Frame): (r: Frame)
    ensures r.Keys == df.Keys
  {
    map c | c in df :: JoinRow(df[c], df)
  }

  function SelfJoinRounds(df: Frame, k: nat): (r: Frame)
    ensures r.Keys == df.Keys
  {
    if k == 0 then df else SelfJoinRound(SelfJoinRounds(df, k - 1))
  }

  /** `category_hierarchy`, as a function of the parent relation. */
  function CategoryPaths(edges: Edges): (r: Frame)
    ensures r.Keys == edges.Keys
  {
    SelfJoinRounds(InitialFrame(edges), MaxDepth)
  }

  // ---- the parent relation walked hop by hop ----

  function Parent(edges: Edges, x: int): Option<int>
  {
    if x in edges then edges[x] else None
  }

  /** The parent of x when that parent has a row of its own. */
  function Hop(edges: Edges, x: int): Option<int>
  {
    if Parent(edges, x).Some? && Parent(edges, x).value in edges then Parent(edges, x) else None
  }

  /** The ancestor n hops above x, or None once a hop is undefined. */
  function Up(edges: Edges, x: int, n: nat): Option<int>
  {
    if n == 0 then Some(x)
    else match Up(edges, x, n - 1)
      case None => None
      case Some(y) => Hop(edges, y)
  }

  function Pow2(k: nat): (r: nat)
    ensures r >= 1
  {
    if k == 0 then 1 else 2 * Pow2(k - 1)
  }

  /**
   * The path after k rounds of the self-join:
   * [c, Up(c, 1), Up(c, 2), Up(c, 4), ..., Up(c, 2^(k-1))], cut at the
   * first undefined entry.
   */
  function DoublingPath(edges: Edges, c: int, k: nat): seq<int>
  {
    if k == 0 then [c]
    else
      DoublingPath(edges, c, k - 1)
      + match Up(edges, c, Pow2(k - 1)) { case None => [] case Some(y) => [y] }
  }

  /** The pointer after k rounds of the self-join: the parent of Up(c, 2^k - 1). */
  function DoublingPointer(edges: Edges, c: int, k: nat): Option<int>
  {
    match Up(edges, c, Pow2(k) - 1)
    case None => None
    case Some(y) => Parent(edges, y)
  }

  lemma {:induction false} UpAdd(edges: Edges, x: int, a: nat, b: nat)
    ensures Up(edges, x, a + b) == match Up(edges, x, a) { case None => None case Some(y) => Up(edges, y, b) }
    decreases b
  {
    if b > 0 {
      UpAdd(edges, x, a, b - 1);
    }
  }

  /** Once the walk is undefined it stays undefined. */
  lemma {:induction false} UpStaysNone(edges: Edges, x: int, n: nat, m: nat)
    requires n <= m && Up(edges, x, n) == None
    ensures Up(edges, x, m) == None
    decreases m - n
  {
    if n < m {
      UpStaysNone(edges, x, n, m - 1);
    }
  }

  /** Row c of the frame after k rounds, in closed form. */
  function ClosedRow(edges: Edges, c: int, k: nat): PathRow
  {
    PathRow(DoublingPointer(edges, c, k), DoublingPath(edges, c, k))
  }

  /** Every row of `df` is the closed form after k rounds, and `df` has a row per category. */
  ghost predicate ClosedFrame(edges: Edges, df: Frame, k: nat)
  {
    df.Keys == edges.Keys && forall c {:trigger ClosedRow(edges, c, k)} :: c in edges ==> df[c] == ClosedRow(edges, c, k)
  }

  /** The frame after k rounds of the self-join is in closed form. */
  lemma {:induction false} SelfJoinRoundsClosed(edges: Edges, k: nat)
    ensures ClosedFrame(edges, SelfJoinRounds(InitialFrame(edges), k), k)
    decreases k
  {
    if k == 0 {
      forall c | c in edges
        ensures InitialFrame(edges)[c] == ClosedRow(edges, c, 0)
      {
        InitialRowClosedForm(edges, c);
      }
    } else {
      SelfJoinRoundsClosed(edges, k - 1);
      RoundKeepsClosed(edges, SelfJoinRounds(InitialFrame(edges), k - 1), k);
    }
  }

  /** A round of the self-join takes the closed form after k - 1 rounds to the closed form after k. */
  lemma RoundKeepsClosed(edges: Edges, prev: Frame, k: nat)
    requires k > 0 && ClosedFrame(edges, prev, k - 1)
    ensures ClosedFrame(edges, SelfJoinRound(prev), k)
  {
    forall c | c in edges
      ensures c in SelfJoinRound(prev) && SelfJoinRound(prev)[c] == ClosedRow(edges, c, k)
    {
      ClosedFormRound(edges, c, k, prev);
    }
  }

  /** Row c of the frame after k rounds of the self-join, in closed form. */
  lemma SelfJoinRoundsClosedForm(edges: Edges, k: nat, c: int)
    requires c in edges
    ensures c in SelfJoinRounds(InitialFrame(edges), k)
    ensures SelfJoinRounds(InitialFrame(edges), k)[c] == ClosedRow(edges, c, k)
  {
    SelfJoinRoundsClosed(edges, k);
  }

  /** Row c of the round after `prev` is in closed form, given rows c and its pointer's row of `prev`. */
  lemma ClosedFormRound(edges: Edges, c: int, k: nat, prev: Frame)
    requires k > 0 && c in edges && prev.Keys == edges.Keys
    requires prev[c] == ClosedRow(edges, c, k - 1)
    requires var p := DoublingPointer(edges, c, k - 1);
      p.Some? && p.value in edges ==> prev[p.value] == ClosedRow(edges, p.value, k - 1)
    ensures c in SelfJoinRound(prev) && SelfJoinRound(prev)[c] == ClosedRow(edges, c, k)
  {
    DoublingStep(edges, c, k, prev);
    SelfJoinRoundRow(prev, c);
  }

  lemma InitialRowClosedForm(edges: Edges, c: int)
    requires c in edges
    ensures InitialFrame(edges)[c] == ClosedRow(edges, c, 0)
  {
    assert Up(edges, c, Pow2(0) - 1) == Some(c);
  }

  /** Row c after a round is the join of row c with the frame. */
  lemma SelfJoinRoundRow(df: Frame, c: int)
    requires c in df
    ensures c in SelfJoinRound(df) && SelfJoinRound(df)[c] == JoinRow(df[c], df)
  {
  }

  /** One round of the self-join moves a row from round k to round k + 1 of the closed form. */
  lemma DoublingStep(edges: Edges, c: int, k: nat, df: Frame)
    requires k > 0
    requires c in df && df[c] == ClosedRow(edges, c, k - 1)
    requires var p := DoublingPointer(edges, c, k - 1);
      p.Some? && p.value in edges ==> p.value in df && df[p.value] == ClosedRow(edges, p.value, k - 1)
    requires df.Keys == edges.Keys
    ensures JoinRow(df[c], df) == ClosedRow(edges, c, k)
  {
    PointerReaches(edges, c, k - 1);
    PointerStep(edges, c, k - 1);
  }

  /** The round-k pointer, when it names a row, is the ancestor 2^k hops up; otherwise that ancestor is undefined. */
  lemma PointerReaches(edges: Edges, c: int, k: nat)
    ensures var p := DoublingPointer(edges, c, k);
      Up(edges, c, Pow2(k)) == if p.Some? && p.value in edges then p else None
  {
    var half := Pow2(k) - 1;
    assert Pow2(k) == half + 1;
    match Up(edges, c, half)
    case None =>
    case Some(y) =>
      assert Up(edges, c, Pow2(k)) == Hop(edges, y);
  }

  /** The round-(k+1) pointer of c is the round-k pointer of the row its round-k pointer names. */
  lemma PointerStep(edges: Edges, c: int, k: nat)
    ensures var p := DoublingPointer(edges, c, k);
      DoublingPointer(edges, c, k + 1) == if p.Some? && p.value in edges then DoublingPointer(edges, p.value, k) else None
  {
    var p := DoublingPointer(edges, c, k);
    PointerReaches(edges, c, k);
    assert Pow2(k + 1) - 1 == Pow2(k) + (Pow2(k) - 1);
    if p.Some? && p.value in edges {
      UpAdd(edges, c, Pow2(k), Pow2(k) - 1);
    } else {
      UpStaysNone(edges, c, Pow2(k), Pow2(k + 1) - 1);
    }
  }

  // ---- build_category_path, as written ----

  /**
   * `build_category_path`: five rounds, each joining the current frame with
   * itself. The pointer therefore doubles its distance every round and the
   * path is [c, p(c), p^2(c), p^4(c), p^8(c), p^16(c)], cut at the first
   * undefined step.
   */
  method BuildCategoryPath(edges: Edges) returns (df: Frame)
    ensures df == CategoryPaths(edges)
    ensures df.Keys == edges.Keys
    ensures forall c :: c in df ==> df[c] == ClosedRow(edges, c, MaxDepth)
    ensures forall c :: c in df ==> 1 <= |df[c].path| <= MaxDepth + 1 && df[c].path[0] == c
  {
    df := InitialFrame(edges);
    for round := 0 to MaxDepth
      invariant df == SelfJoinRounds(InitialFrame(edges), round)
    {
      var joined := SelfJoinRound(df);
      df := joined;
    }
    forall c | c in df
      ensures df[c] == ClosedRow(edges, c, MaxDepth)
      ensures 1 <= |df[c].path| <= MaxDepth + 1 && df[c].path[0] == c
    {
      SelfJoinRoundsClosedForm(edges, MaxDepth, c);
      DoublingPathShape(edges, c, MaxDepth);
    }
  }

  /**
   * The path after k rounds starts at c, has between 1 and k + 1 entries,
   * entry i > 0 is the ancestor 2^(i-1) hops up, and a path shorter than
   * k + 1 stops because the next doubling hop is undefined.
   */
  lemma {:induction false} DoublingPathShape(edges: Edges, c: int, k: nat)
    ensures var path := DoublingPath(edges, c, k);
      && 1 <= |path| <= k + 1
      && path[0] == c
      && (forall i :: 0 < i < |path| ==> Up(edges, c, Pow2(i - 1)) == Some(path[i]))
      && (|path| < k + 1 ==> Up(edges, c, Pow2(|path| - 1)) == None)
  {
    if k > 0 {
      DoublingPathShape(edges, c, k - 1);
      var prev := DoublingPath(edges, c, k - 1);
      if |prev| < k {
        // the walk was already undefined at 2^(|prev|-1) <= 2^(k-1)
        Pow2Monotone(|prev| - 1, k - 1);
        UpStaysNone(edges, c, Pow2(|prev| - 1), Pow2(k - 1));
      }
    }
  }

  lemma {:induction false} Pow2Monotone(a: nat, b: nat)
    requires a <= b
    ensures Pow2(a) <= Pow2(b)
    decreases b
  {
    if a < b {
      Pow2Monotone(a, b - 1);
    }
  }

  /** Each category keeps its own row, and its path starts at itself with 1 to 6 entries. */
  lemma CategoryPathsShape(edges: Edges)
    ensures CategoryPaths(edges).Keys == edges.Keys
    ensures forall c :: c in edges ==>
      1 <= |CategoryPaths(edges)[c].path| <= 6 && CategoryPaths(edges)[c].path[0] == c
  {
    forall c | c in edges
      ensures 1 <= |CategoryPaths(edges)[c].path| <= 6 && CategoryPaths(edges)[c].path[0] == c
    {
      SelfJoinRoundsClosedForm(edges, MaxDepth, c);
      DoublingPathShape(edges, c, MaxDepth);
    }
  }

  /** A round keeps each row's path or extends it by exactly the id its pointer named. */
  lemma SelfJoinRoundExtends(df: Frame)
    ensures forall c :: c in df ==>
      var p := SelfJoinRound(df)[c].path;
      p == df[c].path || (df[c].parent.Some? && p == df[c].path + [df[c].parent.value])
  {
  }

  /** A row whose pointer is null never changes again. */
  lemma {:induction false} DetachedRowIsFrozen(df: Frame, c: int, k: nat, m: nat)
    requires k <= m && c in df
    requires SelfJoinRounds(df, k)[c].parent == None
    ensures SelfJoinRounds(df, m)[c] == SelfJoinRounds(df, k)[c]
    decreases m - k
  {
    if k < m {
      DetachedRowIsFrozen(df, c, k, m - 1);
    }
  }

  /** Once Up(c, 1) is undefined, the path built after k rounds is [c]. */
  lemma {:induction false} NoHopKeepsOwnId(edges: Edges, c: int, k: nat)
    requires Up(edges, c, 1) == None
    ensures DoublingPath(edges, c, k) == [c]
  {
    if k > 0 {
      NoHopKeepsOwnId(edges, c, k - 1);
      UpStaysNone(edges, c, 1, Pow2(k - 1));
    }
  }

  /** A category with no parent, or whose parent has no row, keeps the path [c]. */
  lemma RootKeepsOwnId(edges: Edges, c: int)
    requires c in edges && (edges[c] == None || edges[c].value !in edges)
    ensures CategoryPaths(edges)[c].path == [c]
  {
    SelfJoinRoundsClosedForm(edges, MaxDepth, c);
    NoHopKeepsOwnId(edges, c, MaxDepth);
  }

  lemma {:induction false} SelfLoopStays(edges: Edges, c: int, n: nat)
    requires c in edges && edges[c] == Some(c)
    ensures Up(edges, c, n) == Some(c)
  {
    if n > 0 {
      SelfLoopStays(edges, c, n - 1);
    }
  }

  lemma {:induction false} SelfLoopRepeats(edges: Edges, c: int, k: nat)
    requires c in edges && edges[c] == Some(c)
    ensures DoublingPath(edges, c, k) == seq(k + 1, _ => c)
  {
    if k > 0 {
      SelfLoopRepeats(edges, c, k - 1);
      SelfLoopStays(edges, c, Pow2(k - 1));
    }
  }

  /** A category that is its own parent gets six copies of its id. */
  lemma SelfParentRepeats(edges: Edges, c: int)
    requires c in edges && edges[c] == Some(c)
    ensures CategoryPaths(edges)[c].path == [c, c, c, c, c, c]
  {
    SelfJoinRoundsClosedForm(edges, MaxDepth, c);
    SelfLoopRepeats(edges, c, MaxDepth);
  }

  /** The chain 4 -> 3 -> 2 -> 1 (1 is a root). */
  function Chain(): Edges
  {
    map[4 := Some(3), 3 := Some(2), 2 := Some(1), 1 := None]
  }

  /** The walk up the chain from 4: 3, 2, 1, then undefined. */
  lemma ChainWalk()
    ensures Up(Chain(), 4, 1) == Some(3) && Up(Chain(), 4, 2) == Some(2)
    ensures Up(Chain(), 4, 3) == Some(1) && Up(Chain(), 4, 4) == None
  {
    var edges := Chain();
    assert Hop(edges, 4) == Some(3) && Hop(edges, 3) == Some(2);
    assert Hop(edges, 2) == Some(1) && Hop(edges, 1) == None;
  }

  /**
   * As written, the chain D -> C -> B -> A yields [D, C, B] for D: the hop
   * after B would be p^4(D), which does not exist, so A is never appended.
   */
  lemma ChainSkipsRoot()
    ensures CategoryPaths(Chain())[4].path == [4, 3, 2]
  {
    SelfJoinRoundsClosedForm(Chain(), MaxDepth, 4);
    ChainDoublingPath();
  }

  /** The closed-form path of 4 in the chain stops after 2. */
  lemma ChainDoublingPath()
    ensures DoublingPath(Chain(), 4, MaxDepth) == [4, 3, 2]
  {
    var edges := Chain();
    ChainWalk();
    UpStaysNone(edges, 4, 4, 8);
    UpStaysNone(edges, 4, 4, 16);
    assert DoublingPath(edges, 4, 1) == [4, 3];
    assert DoublingPath(edges, 4, 2) == [4, 3, 2];
    assert DoublingPath(edges, 4, 3) == [4, 3, 2];
    assert DoublingPath(edges, 4, 4) == [4, 3, 2];
  }

  // ---- the one-hop-per-round builder the job evidently intends ----

  /** One pass of the intended loop: the frame joined with the rows of `category_clean`. */
  function AncestorRound(df: Frame, clean: Frame): (r: Frame)
    ensures r.Keys == df.Keys
  {
    map c | c in df :: JoinRow(df[c], clean)
  }

  function AncestorRounds(clean: Frame, k: nat): (r: Frame)
    ensures r.Keys == clean.Keys
  {
    if k == 0 then clean else AncestorRound(AncestorRounds(clean, k - 1), clean)
  }

  function AncestorPaths(edges: Edges): Frame
  {
    AncestorRounds(InitialFrame(edges), MaxDepth)
  }

  /** [c, Up(c, 1), ..., Up(c, k)], cut at the first undefined hop. */
  function AncestorPath(edges: Edges, c: int, k: nat): seq<int>
  {
    if k == 0 then [c]
    else AncestorPath(edges, c, k - 1) + match Up(edges, c, k) { case None => [] case Some(y) => [y] }
  }

  function AncestorRow(edges: Edges, c: int, k: nat): PathRow
  {
    PathRow(match Up(edges, c, k) { case None => None case Some(y) => Parent(edges, y) }, AncestorPath(edges, c, k))
  }

  lemma {:induction false} AncestorRoundsClosedForm(edges: Edges, k: nat, c: int)
    requires c in edges
    ensures c in AncestorRounds(InitialFrame(edges), k)
    ensures AncestorRounds(InitialFrame(edges), k)[c] == AncestorRow(edges, c, k)
    decreases k
  {
    if k > 0 {
      AncestorRoundsClosedForm(edges, k - 1, c);
      AncestorStep(edges, c, k, AncestorRounds(InitialFrame(edges), k - 1));
    }
  }

  lemma AncestorStep(edges: Edges, c: int, k: nat, df: Frame)
    requires k > 0 && c in df && df[c] == AncestorRow(edges, c, k - 1)
    ensures JoinRow(df[c], InitialFrame(edges)) == AncestorRow(edges, c, k)
  {
    match Up(edges, c, k - 1)
    case None =>
    case Some(y) =>
      assert Up(edges, c, k) == Hop(edges, y);
  }

  /** The intended builder: the same loop, joining with `category_clean`. */
  method BuildAncestorPath(edges: Edges) returns (df: Frame)
    ensures df == AncestorPaths(edges)
    ensures df.Keys == edges.Keys
    ensures forall c :: c in df ==> df[c].path == AncestorPath(edges, c, MaxDepth)
  {
    var clean := InitialFrame(edges);
    df := clean;
    for round := 0 to MaxDepth
      invariant df == AncestorRounds(clean, round)
    {
      var joined := AncestorRound(df, clean);
      df := joined;
    }
    forall c | c in df
      ensures df[c].path == AncestorPath(edges, c, MaxDepth)
    {
      AncestorRoundsClosedForm(edges, MaxDepth, c);
    }
  }

  /**
   * The intended path is the parent chain: it starts at c, each entry's
   * parent (which has a row) is the next entry, it has at most k + 1 entries,
   * and it is shorter only when its last entry has no parent with a row.
   */
  lemma {:induction false} AncestorPathIsParentChain(edges: Edges, c: int, k: nat)
    ensures var path := AncestorPath(edges, c, k);
      && 1 <= |path| <= k + 1
      && path[0] == c
      && (forall i :: 0 <= i < |path| ==> Up(edges, c, i) == Some(path[i]))
      && (forall i :: 0 <= i < |path| - 1 ==> Hop(edges, path[i]) == Some(path[i + 1]))
      && (|path| < k + 1 ==> Hop(edges, path[|path| - 1]) == None)
  {
    if k > 0 {
      AncestorPathIsParentChain(edges, c, k - 1);
      var prev := AncestorPath(edges, c, k - 1);
      if |prev| < k {
        UpStaysNone(edges, c, |prev|, k);
      }
    }
  }

  /** With one hop per round, the chain D -> C -> B -> A yields [D, C, B, A]. */
  lemma ChainReachesRoot()
    ensures AncestorPaths(Chain())[4].path == [4, 3, 2, 1]
  {
    var edges := Chain();
    AncestorRoundsClosedForm(edges, MaxDepth, 4);
    ChainWalk();
    UpStaysNone(edges, 4, 4, 5);
    assert AncestorPath(edges, 4, 1) == [4, 3];
    assert AncestorPath(edges, 4, 2) == [4, 3, 2];
    assert AncestorPath(edges, 4, 3) == [4, 3, 2, 1];
    assert AncestorPath(edges, 4, 4) == [4, 3, 2, 1];
  }
}
