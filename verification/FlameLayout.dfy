/** The flame graph's layout: every frame inside its parent, siblings side by side. */
module FlameLayout {
  import opened FlameTree

  // ----- the order of names -----

  /** The order of strings by their characters. */
  predicate Less(a: string, b: string) {
    if b == "" then false
    else if a == "" then true
    else a[0] < b[0] || (a[0] == b[0] && Less(a[1..], b[1..]))
  }

  lemma {:induction false} LessTrans(a: string, b: string, c: string)
    requires Less(a, b) && Less(b, c)
    ensures Less(a, c)
  {
    if a != "" && a[0] == b[0] == c[0] {
      LessTrans(a[1..], b[1..], c[1..]);
    }
  }

  lemma {:induction false} LessTotal(a: string, b: string)
    ensures Less(a, b) || Less(b, a) || a == b
    ensures !(Less(a, b) && Less(b, a)) && !Less(a, a)
  {
    if a != "" {
      LessTotal(a[1..], a[1..]);
    }
    if a != "" && b != "" && a[0] == b[0] {
      LessTotal(a[1..], b[1..]);
      assert a == [a[0]] + a[1..] && b == [b[0]] + b[1..];
    }
  }

  /** `a` and `b` first differ at `k`, where `a` has the smaller character. */
  predicate DifferAt(a: string, b: string, k: int) {
    0 <= k < |a| && k < |b| && a[..k] == b[..k] && a[k] < b[k]
  }

  lemma DifferNext(a: string, b: string, k: int)
    requires a != "" && b != "" && a[0] == b[0]
    ensures DifferAt(a[1..], b[1..], k) <==> k >= 0 && DifferAt(a, b, k + 1)
  {
    if 0 <= k < |a| - 1 && k < |b| - 1 {
      assert a[..k + 1] == [a[0]] + a[1..][..k] && b[..k + 1] == [b[0]] + b[1..][..k];
      assert a[1..][..k] == a[..k + 1][1..] && b[1..][..k] == b[..k + 1][1..];
    }
  }

  lemma PrefixNext(a: string, b: string)
    requires a != "" && b != ""
    ensures a < b <==> a[0] == b[0] && a[1..] < b[1..]
  {
    assert a == [a[0]] + a[1..] && b == [b[0]] + b[1..];
  }

  lemma DifferFirst(a: string, b: string, k: int)
    requires a != "" && b != "" && DifferAt(a, b, k) && k > 0
    ensures a[0] == b[0]
  {
    assert a[..k][0] == b[..k][0];
  }

  /** One string comes before another if it is a proper prefix of it, or has the smaller character where
      they first differ. */
  lemma {:induction false} LessMeans(a: string, b: string)
    ensures Less(a, b) <==> a < b || exists k :: DifferAt(a, b, k)
  {
    if a != "" && b != "" {
      LessMeans(a[1..], b[1..]);
      PrefixNext(a, b);
      if a[0] < b[0] {
        assert DifferAt(a, b, 0);
      }
      if k :| DifferAt(a, b, k) {
        if k > 0 {
          DifferFirst(a, b, k);
          DifferNext(a, b, k - 1);
        }
      }
      if k :| a[0] == b[0] && DifferAt(a[1..], b[1..], k) {
        DifferNext(a, b, k);
      }
    }
  }

  predicate Ascending(r: seq<string>) {
    forall i, j :: 0 <= i < j < |r| ==> Less(r[i], r[j])
  }

  /** The names in ascending order. */
  method Sorted(names: set<string>) returns (r: seq<string>)
    ensures Ascending(r) && forall k :: k in r <==> k in names
  {
    r := [];
    var rest := names;
    while rest != {}
      invariant Ascending(r) && rest <= names && forall k :: k in r <==> k in names - rest
      decreases |rest|
    {
      var k :| k in rest;
      rest := rest - {k};
      r := Insert(r, k);
    }
  }

  method Insert(r: seq<string>, k: string) returns (s: seq<string>)
    requires Ascending(r) && k !in r
    ensures Ascending(s) && forall x :: x in s <==> x in r || x == k
  {
    var i := 0;
    while i < |r| && Less(r[i], k)
      invariant 0 <= i <= |r| && forall j :: 0 <= j < i ==> Less(r[j], k)
    {
      i := i + 1;
    }
    forall j | i <= j < |r| ensures Less(k, r[j]) {
      LessTotal(r[i], k);
      if j > i { LessTrans(k, r[i], r[j]); }
    }
    s := r[..i] + [k] + r[i..];
    assert forall x :: x in r <==> x in r[..i] || x in r[i..] by { assert r == r[..i] + r[i..]; }
  }

  // ----- where a frame starts -----

  /** What a stack puts to the left of child `k` of `p`: its samples, when it goes on from `p` with an
      earlier name. */
  function EarlierShare(s: Stack, p: Path, k: string): nat {
    if p < s.frames && Less(s.frames[|p|], k) then s.count else 0
  }

  function Earlier(stacks: seq<Stack>, p: Path, k: string): nat {
    if stacks == [] then 0
    else Earlier(stacks[..|stacks| - 1], p, k) + EarlierShare(stacks[|stacks| - 1], p, k)
  }

  /** The first sample of a path's frame, counted from the left edge of the graph. */
  function Left(stacks: seq<Stack>, p: Path): nat {
    if p == [] then 0 else Left(stacks, p[..|p| - 1]) + Earlier(stacks, p[..|p| - 1], p[|p| - 1])
  }

  lemma {:induction false} EarlierFits(stacks: seq<Stack>, p: Path, k: string)
    ensures Earlier(stacks, p, k) + Total(stacks, p + [k]) <= Total(stacks, p)
  {
    if stacks != [] {
      EarlierFits(stacks[..|stacks| - 1], p, k);
      ShareOf(stacks[|stacks| - 1], p, k);
    }
  }

  /** A stack counts for a child exactly when it goes on from the parent with the child's name. */
  lemma ShareOf(s: Stack, p: Path, k: string)
    ensures Share(s, p + [k]) == if p < s.frames && s.frames[|p|] == k then s.count else 0
    ensures EarlierShare(s, p, k) + Share(s, p + [k]) <= Share(s, p)
  {
    LessTotal(k, k);
    assert p <= p + [k] && (p + [k])[|p|] == k;
    if p < s.frames && s.frames[|p|] == k {
      assert p + [k] == s.frames[..|p| + 1];
    }
  }

  lemma {:induction false} EarlierGrows(stacks: seq<Stack>, p: Path, j: string, k: string)
    requires Less(j, k)
    ensures Earlier(stacks, p, j) + Total(stacks, p + [j]) <= Earlier(stacks, p, k)
  {
    if stacks != [] {
      var s := stacks[|stacks| - 1];
      EarlierGrows(stacks[..|stacks| - 1], p, j, k);
      ShareOf(s, p, j);
      LessTotal(j, j);
      if p < s.frames && Less(s.frames[|p|], j) {
        LessTrans(s.frames[|p|], j, k);
      }
    }
  }

  /** A frame lies inside the frame of its parent. */
  lemma FrameInParent(stacks: seq<Stack>, p: Path, k: string)
    ensures Left(stacks, p) <= Left(stacks, p + [k])
    ensures Left(stacks, p + [k]) + Total(stacks, p + [k]) <= Left(stacks, p) + Total(stacks, p)
  {
    EarlierFits(stacks, p, k);
    assert (p + [k])[..|p|] == p;
  }

  /** Frames of the same parent do not overlap, and stand in the order of their names. */
  lemma SiblingsApart(stacks: seq<Stack>, p: Path, j: string, k: string)
    requires Less(j, k)
    ensures Left(stacks, p + [j]) + Total(stacks, p + [j]) <= Left(stacks, p + [k])
  {
    EarlierGrows(stacks, p, j, k);
    assert (p + [j])[..|p|] == p && (p + [k])[..|p|] == p;
  }

  /** A frame lies inside the frame of every path it continues. */
  lemma {:induction false} Inside(stacks: seq<Stack>, p: Path, q: Path)
    requires p <= q
    ensures Left(stacks, p) <= Left(stacks, q) && Left(stacks, q) + Total(stacks, q) <= Left(stacks,
      p) + Total(stacks, p)
    decreases |q|
  {
    if p != q {
      var n := |q| - 1;
      assert q == q[..n] + [q[n]] && p <= q[..n];
      Inside(stacks, p, q[..n]);
      FrameInParent(stacks, q[..n], q[n]);
    }
  }

  /** Frames of paths that part do not overlap. */
  lemma Apart(stacks: seq<Stack>, r: Path, j: string, k: string, p: Path, q: Path)
    requires Less(j, k) && r + [j] <= p && r + [k] <= q
    ensures Left(stacks, p) + Total(stacks, p) <= Left(stacks, q)
  {
    Inside(stacks, r + [j], p);
    Inside(stacks, r + [k], q);
    SiblingsApart(stacks, r, j, k);
  }

  // ----- drawing -----

  /** A frame as drawn: its left edge and width in the units of the picture. */
  datatype Rect = Rect(path: Path, x: real, width: real, level: nat)

  const MARGIN := 10.0
  const NARROWEST := 0.2

  /** The picture's units for `n` samples. */
  function Units(scale: real, n: nat): real {
    scale * n as real
  }

  function RectOf(stacks: seq<Stack>, scale: real, p: Path): Rect
    requires p != []
  {
    Rect(p, MARGIN + Units(scale, Left(stacks, p)), Units(scale, Total(stacks, p)), |p| - 1)
  }

  /** A frame is drawn when it is wide enough. */
  predicate Wide(stacks: seq<Stack>, scale: real, p: Path) {
    Units(scale, Total(stacks, p)) >= NARROWEST
  }

  lemma UnitsAdd(scale: real, a: nat, b: nat)
    ensures Units(scale, a + b) == Units(scale, a) + Units(scale, b)
  {
    assert (a + b) as real == a as real + b as real;
  }

  /** Among children in order, the next one starts where the last one ends. */
  lemma {:induction false} NextChild(stacks: seq<Stack>, p: Path, names: seq<string>, i: nat)
    requires Ascending(names) && i < |names|
    requires forall s: Stack :: s in stacks && p < s.frames ==> s.frames[|p|] in names
    ensures i == 0 ==> Earlier(stacks, p, names[i]) == 0
    ensures i > 0 ==>
      Earlier(stacks, p, names[i]) == Earlier(stacks, p, names[i - 1]) + Total(stacks, p + [names[i - 1]])
  {
    if stacks != [] {
      var s := stacks[|stacks| - 1];
      NextChild(stacks[..|stacks| - 1], p, names, i);
      if p < s.frames {
        var m :| 0 <= m < |names| && names[m] == s.frames[|p|];
        LessTotal(names[m], names[i]);
        if i > 0 {
          LessTotal(names[m], names[i - 1]);
        }
      }
      if i > 0 { ShareOf(s, p, names[i - 1]); }
    }
  }

  /** Below `at`, a frame is drawn when it and every frame between are wide enough. */
  ghost predicate Shown(stacks: seq<Stack>, scale: real, at: Path, p: Path) {
    at < p && WideFrom(stacks, scale, |at|, p)
  }

  ghost predicate WideFrom(stacks: seq<Stack>, scale: real, m: nat, p: Path) {
    forall n: nat :: m < n <= |p| ==> Wide(stacks, scale, p[..n])
  }

  lemma ShownStep(stacks: seq<Stack>, scale: real, at: Path, k: string, p: Path)
    ensures Shown(stacks, scale, at, p) && p[|at|] == k <==>
      at + [k] <= p && Wide(stacks, scale, at + [k]) && (p == at + [k] || Shown(stacks, scale, at + [k], p))
  {
    var q := at + [k];
    if at < p && p[|at|] == k {
      assert p[..|at| + 1] == q;
    }
    if q <= p && Wide(stacks, scale, q) {
      assert p[..|q|] == q;
    }
  }

  /** Every stack that goes on from a path goes on to one of its children. */
  lemma KidsNamed(root: FlameNode, index: map<Path, FlameNode>, stacks: seq<Stack>, p: Path)
    requires Counted(root, index, stacks) && p in index
    ensures forall s: Stack :: s in stacks && p < s.frames ==> s.frames[|p|] in index[p].children
  {
    forall s: Stack | s in stacks && p < s.frames ensures s.frames[|p|] in index[p].children {
      var q := p + [s.frames[|p|]];
      assert q == s.frames[..|p| + 1];
      var i :| 0 <= i < |stacks| && stacks[i] == s;
      assert Seen(stacks, q);
    }
  }

  /** The rectangles drawn below a node: those of the paths that are shown, each where it belongs. */
  ghost predicate Draws(rects: seq<Rect>, index: map<Path, FlameNode>, stacks: seq<Stack>, scale: real, at: Path,
                        names: set<string>) {
    && (forall r :: r in rects ==>
         r.path in index && Shown(stacks, scale, at, r.path) && r == RectOf(stacks, scale, r.path))
    && (forall p :: p in index && Shown(stacks, scale, at, p) && p[|at|] in names ==> RectOf(stacks, scale, p) in rects)
  }

  lemma DrawsNothing(index: map<Path, FlameNode>, stacks: seq<Stack>, scale: real, at: Path)
    ensures Draws([], index, stacks, scale, at, {})
  {
  }

  /** A child too narrow, or drawn with everything below it. */
  lemma DrawsChild(rects: seq<Rect>, below: seq<Rect>, index: map<Path, FlameNode>, stacks: seq<Stack>, scale: real,
                   at: Path, names: set<string>, k: string, all: set<string>)
    requires Draws(rects, index, stacks, scale, at, names) && at + [k] in index
    requires Wide(stacks, scale, at + [k]) ==> Draws(below, index, stacks, scale, at + [k], all)
    requires forall p: Path :: p in index && at + [k] < p ==> p[|at| + 1] in all
    ensures Draws(rects + (if Wide(stacks, scale, at + [k]) then [RectOf(stacks, scale, at + [k])] + below else []),
                  index, stacks, scale, at, names + {k})
  {
    hide RectOf, WideFrom, Wide;
    var q := at + [k];
    var more := if Wide(stacks, scale, q) then [RectOf(stacks, scale, q)] + below else [];
    forall p ensures Shown(stacks, scale, at, p) && p[|at|] == k <==>
      q <= p && Wide(stacks, scale, q) && (p == q || Shown(stacks, scale, q, p)) {
      ShownStep(stacks, scale, at, k, p);
    }
    forall r | r in more ensures r.path in index && Shown(stacks, scale, at, r.path)
      && r == RectOf(stacks, scale, r.path) {
      PathOfRect(stacks, scale, q);
    }
    forall p | p in index && Shown(stacks, scale, at, p) && p[|at|] in names + {k}
      ensures RectOf(stacks, scale, p) in rects + more
    {
      if p[|at|] == k && p != q {
        assert RectOf(stacks, scale, p) in below;
      }
    }
  }

  lemma PathOfRect(stacks: seq<Stack>, scale: real, p: Path)
    requires p != []
    ensures RectOf(stacks, scale, p).path == p
  {
  }

  lemma {:induction false} PrefixIn(root: FlameNode, index: map<Path, FlameNode>, q: Path, p: Path)
    requires Linked(root, index) && p in index && q <= p
    ensures q in index
    decreases |p|
  {
    if q != p {
      var n := |p| - 1;
      assert p == p[..n] + [p[n]];
      PrefixIn(root, index, q, p[..n]);
    }
  }

  /** Paths in the tree go on by the children of their nodes. */
  lemma GoesOn(root: FlameNode, index: map<Path, FlameNode>, q: Path)
    requires Linked(root, index) && q in index
    ensures forall p: Path :: p in index && q < p ==> p[|q|] in index[q].children.Keys
  {
    forall p: Path | p in index && q < p ensures p[|q|] in index[q].children.Keys {
      assert p[..|q| + 1] == q + [p[|q|]];
      PrefixIn(root, index, p[..|q| + 1], p);
    }
  }

  /** Where child `i` of a path starts, and the last one ends. */
  function Edge(stacks: seq<Stack>, scale: real, p: Path, names: seq<string>, i: nat): real
    requires i <= |names|
  {
    MARGIN + Units(scale, Left(stacks, p)
      + if i == 0 then 0 else Earlier(stacks, p, names[i - 1]) + Total(stacks, p + [names[i - 1]]))
  }

  lemma EdgeNext(stacks: seq<Stack>, scale: real, p: Path, names: seq<string>, i: nat)
    requires Ascending(names) && i < |names|
    requires forall s: Stack :: s in stacks && p < s.frames ==> s.frames[|p|] in names
    ensures var q := p + [names[i]];
      && Edge(stacks, scale, p, names, i) == MARGIN + Units(scale, Left(stacks, q))
      && Edge(stacks, scale, p, names, i + 1) == Edge(stacks, scale, p, names, i) + Units(scale, Total(stacks, q))
      && (Wide(stacks, scale, q) <==> Units(scale, Total(stacks, q)) >= NARROWEST)
      && RectOf(stacks, scale, q) == Rect(q, Edge(stacks, scale, p, names, i), Units(scale, Total(stacks, q)), |p|)
  {
    hide Units, Earlier, Total;
    var q := p + [names[i]];
    NextChild(stacks, p, names, i);
    assert q[..|p|] == p;
    UnitsAdd(scale, Left(stacks, q), Total(stacks, q));
  }

  function Taken(names: seq<string>, i: nat): set<string>
    requires i <= |names|
  {
    set k | k in names[..i]
  }

  lemma TakenNext(names: seq<string>, i: nat)
    requires i < |names|
    ensures Taken(names, i + 1) == Taken(names, i) + {names[i]}
  {
    assert names[..i + 1] == names[..i] + [names[i]];
  }

  lemma TakenAll(names: seq<string>, all: set<string>)
    requires forall k :: k in names <==> k in all
    ensures Taken(names, |names|) == all && Taken(names, 0) == {}
  {
    assert names[..|names|] == names;
  }

  /** Draw the children of a node from `x` on, in the order of their names, each with what is below it. */
  method Render(node: FlameNode, x: real, level: nat, path: Path, scale: real,
                ghost root: FlameNode, ghost index: map<Path, FlameNode>, ghost stacks: seq<Stack>, ghost bound: nat)
    returns (rects: seq<Rect>)
    requires Counted(root, index, stacks) && path in index && index[path] == node && level == |path|
    requires forall p :: p in index ==> |p| <= bound
    requires x == MARGIN + Units(scale, Left(stacks, path))
    ensures Draws(rects, index, stacks, scale, path, node.children.Keys)
    decreases bound - |path|, 1
  {
    hide Draws, Units, Left, Earlier, Total, Seen, RectOf, Wide, Taken, Ascending, Less;
    var names := Sorted(node.children.Keys);
    var childX := x;
    rects := [];
    KidsNamed(root, index, stacks, path);
    DrawsNothing(index, stacks, scale, path);
    TakenAll(names, node.children.Keys);
    for i := 0 to |names|
      invariant childX == Edge(stacks, scale, path, names, i)
      invariant Draws(rects, index, stacks, scale, path, Taken(names, i))
    {
      hide Edge;
      ghost var q := path + [names[i]];
      EdgeNext(stacks, scale, path, names, i);
      TakenNext(names, i);
      var child := node.children[names[i]];
      var more;
      ghost var below;
      more, below := RenderChild(child, childX, level, path, names[i], scale, root, index, stacks, bound);
      GoesOn(root, index, q);
      DrawsChild(rects, below, index, stacks, scale, path, Taken(names, i), names[i], child.children.Keys);
      rects := rects + more;
      childX := childX + Units(scale, child.count);
    }
  }

  /** Draw one child and what is below it, if it is wide enough. */
  method RenderChild(child: FlameNode, childX: real, level: nat, path: Path, k: string, scale: real,
                     ghost root: FlameNode, ghost index: map<Path, FlameNode>, ghost stacks: seq<Stack>,
                       ghost bound: nat)
    returns (rects: seq<Rect>, ghost below: seq<Rect>)
    requires Counted(root, index, stacks) && path + [k] in index && index[path + [k]] == child && level == |path|
    requires forall p :: p in index ==> |p| <= bound
    requires childX == MARGIN + Units(scale, Left(stacks, path + [k]))
    ensures var q := path + [k];
      && (Wide(stacks, scale, q) ==> Draws(below, index, stacks, scale, q, child.children.Keys))
      && rects == if Wide(stacks, scale, q) then [RectOf(stacks, scale, q)] + below else []
    decreases bound - |path|, 0
  {
    hide Draws, Units, Left, Total, Seen;
    rects, below := [], [];
    var width := Units(scale, child.count);
    if width >= NARROWEST {
      var inner := Render(child, childX, level + 1, path + [k], scale, root, index, stacks, bound);
      below := inner;
      rects := [Rect(path + [k], childX, width, level)] + inner;
    }
  }

  // ----- the picture -----

  /** The graph of folded stacks: every frame as wide as its samples, drawn when it and all around it
      are wide enough, and placed by direct counting. */
  method Draw(stacks: seq<Stack>, plotWidth: real) returns (rects: seq<Rect>, total: nat)
    requires plotWidth > 0.0
    ensures total == Total(stacks, [])
    ensures total == 0 ==> rects == []
    ensures total > 0 ==>
      var scale := plotWidth / total as real;
      && (forall r :: r in rects ==> Shown(stacks, scale, [], r.path) && r == RectOf(stacks, scale, r.path))
      && (forall p :: Seen(stacks, p) && Shown(stacks, scale, [], p) ==> RectOf(stacks, scale, p) in rects)
  {
    hide Shown, RectOf, Left, Units;
    var root := new FlameNode("");
    ghost var index: map<Path, FlameNode> := map[[] := root];
    assert Counted(root, index, []);
    for i := 0 to |stacks|
      invariant Counted(root, index, stacks[..i]) && fresh(index.Values)
    {
      assert stacks[..i] + [stacks[i]] == stacks[..i + 1];
      index := root.Add(stacks[i].frames, stacks[i].count, index, stacks[..i]);
    }
    assert stacks[..|stacks|] == stacks;
    total := root.count;
    rects := [];
    if total == 0 { return; }
    var scale := plotWidth / total as real;
    ghost var bound := Longest(index.Keys);
    LeftEdge(stacks, scale);
    rects := Render(root, MARGIN, 0, [], scale, root, index, stacks, bound);
    GoesOn(root, index, []);
    DrawsAll(rects, index, stacks, scale, root.children.Keys);
  }

  ghost function Longest(paths: set<Path>): (n: nat)
    ensures forall p :: p in paths ==> |p| <= n
  {
    if paths == {} then 0
    else
      var q :| q in paths;
      var n := Longest(paths - {q});
      if |q| > n then |q| else n
  }

  lemma LeftEdge(stacks: seq<Stack>, scale: real)
    ensures MARGIN + Units(scale, Left(stacks, [])) == MARGIN
  {
  }

  lemma DrawsAll(rects: seq<Rect>, index: map<Path, FlameNode>, stacks: seq<Stack>, scale: real, names: set<string>)
    requires Draws(rects, index, stacks, scale, [], names)
    requires forall p: Path :: p in index && [] < p ==> p[0] in names
    requires forall p :: p in index <==> p == [] || Seen(stacks, p)
    ensures forall r :: r in rects ==> Shown(stacks, scale, [], r.path) && r == RectOf(stacks, scale, r.path)
    ensures forall p :: Seen(stacks, p) && Shown(stacks, scale, [], p) ==> RectOf(stacks, scale, p) in rects
  {
    hide Seen, RectOf, WideFrom;
  }
}
