/** Folding the records of a dump into counted stacks, and the report drawn from them. */
module KernelFold {
  import opened Numerals
  import opened Strings
  import opened Wrappers
  import opened KernelPerf
  import opened FlameTree
  import FlameLayout

  datatype Grouping = NoGroup | ByCpu | ByTask | ByCpuTask

  /** How a dump is reported. */
  datatype Options = Options(group: Grouping, offsets: bool, users: bool)

  function TaskLabel(r: Record): string {
    if r.tid == UINT32_MAX then "tid=unknown" else "tid=" + DecText(r.tid) + "/" + DecText(r.generation)
  }

  /** The outer frames that group stacks. */
  function GroupFrames(r: Record, g: Grouping): Path {
    match g
    case NoGroup => []
    case ByCpu => ["cpu=" + DecText(r.cpu)]
    case ByTask => [TaskLabel(r)]
    case ByCpuTask => ["cpu=" + DecText(r.cpu), TaskLabel(r)]
  }

  lemma LabelIs(r: Record)
    ensures r.tid != UINT32_MAX ==>
      var text := TaskLabel(r);
      && |text| > 4 && Digit(text[4]) && Find(text, '/') == 4 + |DecText(r.tid)|
      && text[4..4 + |DecText(r.tid)|] == DecText(r.tid)
      && text[5 + |DecText(r.tid)|..] == DecText(r.generation)
  {
    if r.tid != UINT32_MAX {
      var d, text := DecText(r.tid), TaskLabel(r);
      assert text == "tid=" + d + "/" + DecText(r.generation);
      forall j | 0 <= j < 4 + |d| ensures text[j] != '/' {
        assert j >= 4 ==> text[j] == d[j - 4];
      }
      FindIs(text, '/', 4 + |d|);
      assert text[4] == d[0];
    }
  }

  /** Two tasks have the same text exactly when they are the same thread of the same generation, or both
      unknown. */
  lemma LabelsTell(r: Record, q: Record)
    ensures TaskLabel(r) == TaskLabel(q) <==> r.tid == q.tid && (r.tid == UINT32_MAX || r.generation == q.generation)
  {
    hide DecText;
    LabelIs(r);
    LabelIs(q);
    DecTextValue(r.tid);
    DecTextValue(q.tid);
    DecTextValue(r.generation);
    DecTextValue(q.generation);
    assert "tid=unknown"[4] == 'u';
  }

  /** Stacks are grouped by exactly what was asked for. */
  lemma GroupsTell(r: Record, q: Record, g: Grouping)
    ensures GroupFrames(r, g) == GroupFrames(q, g) <==>
      && (g == ByCpu || g == ByCpuTask ==> r.cpu == q.cpu)
      && (g == ByTask || g == ByCpuTask ==> r.tid == q.tid && (r.tid == UINT32_MAX || r.generation == q.generation))
  {
    hide DecText, TaskLabel;
    LabelsTell(r, q);
    CpusTell(r.cpu, q.cpu);
    assert GroupFrames(r, g) == GroupFrames(q, g) ==>
      forall i :: 0 <= i < |GroupFrames(r, g)| ==> GroupFrames(r, g)[i] == GroupFrames(q, g)[i];
  }

  lemma CpusTell(m: nat, n: nat)
    ensures "cpu=" + DecText(m) == "cpu=" + DecText(n) <==> m == n
  {
    hide DecText;
    DecTextValue(m);
    DecTextValue(n);
    assert ("cpu=" + DecText(m))[4..] == DecText(m) && ("cpu=" + DecText(n))[4..] == DecText(n);
  }

  /** The names of a stack, outermost first. */
  ghost function NamesOf(pcs: seq<nat>, s: Symbols, offsets: bool): Path
    requires s.Valid()
  {
    if pcs == [] then [] else NamesOf(pcs[1..], s, offsets) + [NameOf(s, pcs[0], offsets)]
  }

  /** A dump lists the innermost address first, a stack the outermost frame. */
  lemma {:induction false} NamesAre(pcs: seq<nat>, s: Symbols, offsets: bool)
    requires s.Valid()
    ensures |NamesOf(pcs, s, offsets)| == |pcs|
    ensures forall i :: 0 <= i < |pcs| ==> NamesOf(pcs, s, offsets)[i] == NameOf(s, pcs[|pcs| - 1 - i], offsets)
  {
    hide NameOf;
    if pcs != [] {
      NamesAre(pcs[1..], s, offsets);
    }
  }

  ghost function FramesOf(r: Record, s: Symbols, o: Options): Path
    requires s.Valid()
  {
    GroupFrames(r, o.group) + if r.kind.User? then ["[user]"] else NamesOf(r.pcs, s, o.offsets)
  }

  predicate Selected(r: Record, o: Options) {
    r.kind.Kernel? || o.users
  }

  /** The stacks of the records that are reported. */
  ghost function StacksOf(records: seq<Record>, s: Symbols, o: Options): seq<Stack>
    requires s.Valid()
  {
    if records == [] then []
    else
      var r := records[|records| - 1];
      StacksOf(records[..|records| - 1], s, o) + if Selected(r, o) then [Stack(FramesOf(r, s, o), r.count)] else []
  }

  method Frames(r: Record, s: Symbols, o: Options) returns (frames: seq<string>)
    requires s.Valid()
    ensures frames == FramesOf(r, s, o)
  {
    hide NameOf;
    if r.kind.User? {
      frames := ["[user]"];
    } else {
      frames := [];
      for i := |r.pcs| downto 0
        invariant frames == NamesOf(r.pcs[i..], s, o.offsets)
      {
        var name := Resolve(s, r.pcs[i], o.offsets);
        frames := frames + [name];
        assert r.pcs[i..][1..] == r.pcs[i + 1..];
      }
      assert r.pcs[0..] == r.pcs;
    }
    if o.group == ByCpu || o.group == ByCpuTask {
      frames := ["cpu=" + DecText(r.cpu)] + frames;
    }
    if o.group == ByTask || o.group == ByCpuTask {
      var at := if o.group == ByCpuTask then 1 else 0;
      frames := frames[..at] + [TaskLabel(r)] + frames[at..];
    }
  }

  // ----- the counter -----

  /** The stacks a counter holds, in the order its keys came in. */
  function Unfold(keys: seq<string>, folded: map<string, nat>): seq<Stack>
    requires forall k :: k in keys ==> k in folded
  {
    if keys == [] then []
    else Unfold(keys[..|keys| - 1], folded) + [Stack(Split(keys[|keys| - 1]), folded[keys[|keys| - 1]])]
  }

  predicate Distinct(keys: seq<string>) {
    forall i, j :: 0 <= i < j < |keys| ==> keys[i] != keys[j]
  }

  /** The samples of the stacks whose frames are in a family of paths. */
  ghost function Measure(stacks: seq<Stack>, at: Path -> bool): nat {
    if stacks == [] then 0 else Measure(stacks[..|stacks| - 1], at) + Weight(stacks[|stacks| - 1], at)
  }

  ghost function Weight(s: Stack, at: Path -> bool): nat {
    if at(s.frames) then s.count else 0
  }

  lemma MeasureMore(stacks: seq<Stack>, s: Stack, at: Path -> bool)
    ensures Measure(stacks + [s], at) == Measure(stacks, at) + Weight(s, at)
  {
    assert (stacks + [s])[..|stacks|] == stacks;
  }

  /** Every family of paths has as many samples in one list of stacks as in the other. */
  ghost predicate SameSamples(a: seq<Stack>, b: seq<Stack>) {
    forall at: Path -> bool :: Measure(a, at) == Measure(b, at)
  }

  /** Counting a key again adds to every family its path is in. */
  lemma {:induction false} CountAgain(keys: seq<string>, folded: map<string, nat>, key: string, n: nat,
      at: Path -> bool)
    requires Distinct(keys) && (forall k :: k in keys ==> k in folded) && key in folded
    ensures Measure(Unfold(keys, folded[key := folded[key] + n]), at) ==
      Measure(Unfold(keys, folded), at) + if key in keys then Weight(Stack(Split(key), n), at) else 0
  {
    hide Split;
    if keys != [] {
      var init, k := keys[..|keys| - 1], keys[|keys| - 1];
      var more := folded[key := folded[key] + n];
      CountAgain(init, folded, key, n, at);
      MeasureMore(Unfold(init, folded), Stack(Split(k), folded[k]), at);
      MeasureMore(Unfold(init, more), Stack(Split(k), more[k]), at);
      LastKey(keys, key);
    }
  }

  lemma LastKey(keys: seq<string>, key: string)
    requires keys != [] && Distinct(keys)
    ensures var n := |keys| - 1;
      (key in keys <==> key in keys[..n] || key == keys[n]) && keys[n] !in keys[..n]
  {
    assert keys == keys[..|keys| - 1] + [keys[|keys| - 1]];
  }

  lemma {:induction false} UnfoldFrame(keys: seq<string>, folded: map<string, nat>, key: string, n: nat)
    requires (forall k :: k in keys ==> k in folded) && key !in keys
    ensures Unfold(keys, folded[key := n]) == Unfold(keys, folded)
  {
    if keys != [] {
      UnfoldFrame(keys[..|keys| - 1], folded, key, n);
    }
  }

  /** Stacks as they come back from their folded lines. */
  function Resplit(stacks: seq<Stack>): seq<Stack> {
    if stacks == [] then []
    else
      var s := stacks[|stacks| - 1];
      Resplit(stacks[..|stacks| - 1]) + [Stack(Split(Join(s.frames)), s.count)]
  }

  /** The counter after one stack more. */
  method Count(keys: seq<string>, folded: map<string, nat>, line: string, n: nat)
    returns (keys': seq<string>, folded': map<string, nat>)
    requires Distinct(keys) && forall k :: k in keys <==> k in folded
    ensures Distinct(keys') && forall k :: k in keys' <==> k in folded'
    ensures SameSamples(Unfold(keys', folded'), Unfold(keys, folded) + [Stack(Split(line), n)])
  {
    hide Split, Measure, Weight;
    ghost var s := Stack(Split(line), n);
    if line in folded {
      keys', folded' := keys, folded[line := folded[line] + n];
      forall at: Path -> bool ensures Measure(Unfold(keys', folded'), at) == Measure(Unfold(keys, folded) + [s], at) {
        CountAgain(keys, folded, line, n, at);
        MeasureMore(Unfold(keys, folded), s, at);
      }
    } else {
      keys', folded' := keys + [line], folded[line := n];
      UnfoldFrame(keys, folded, line, n);
      assert keys'[..|keys'| - 1] == keys;
    }
  }

  /** Fold the records of a dump: the counter holds, for every family of paths, the samples of the
      records' stacks as they are split again. */
  method Fold(records: seq<Record>, s: Symbols, o: Options) returns (keys: seq<string>, folded: map<string, nat>)
    requires s.Valid()
    ensures Distinct(keys) && forall k :: k in keys <==> k in folded
    ensures SameSamples(Unfold(keys, folded), Resplit(StacksOf(records, s, o)))
  {
    hide Split, Join, Measure, FramesOf, Weight, Unfold, SameSamples, Resplit;
    keys, folded := [], map[];
    UnfoldNothing();
    for i := 0 to |records|
      invariant Distinct(keys) && forall k :: k in keys <==> k in folded
      invariant SameSamples(Unfold(keys, folded), Resplit(StacksOf(records[..i], s, o)))
    {
      assert records[..i + 1][..i] == records[..i];
      ghost var stacks, was := StacksOf(records[..i], s, o), Unfold(keys, folded);
      if Selected(records[i], o) {
        var frames := Frames(records[i], s, o);
        keys, folded := Count(keys, folded, Join(frames), records[i].count);
        SameMore(Unfold(keys, folded), was, stacks, Stack(frames, records[i].count));
      } else {
        assert stacks + [] == stacks;
      }
    }
    assert records[..|records|] == records;
  }

  lemma UnfoldNothing()
    ensures SameSamples(Unfold([], map[]), Resplit([]))
  {
  }

  /** One stack more on both sides. */
  lemma SameMore(now: seq<Stack>, was: seq<Stack>, stacks: seq<Stack>, t: Stack)
    requires SameSamples(now, was + [Stack(Split(Join(t.frames)), t.count)]) && SameSamples(was, Resplit(stacks))
    ensures SameSamples(now, Resplit(stacks + [t]))
  {
    hide Split, Join, Measure, Weight;
    var u := Stack(Split(Join(t.frames)), t.count);
    assert (stacks + [t])[..|stacks|] == stacks;
    forall at: Path -> bool ensures Measure(now, at) == Measure(Resplit(stacks + [t]), at) {
      MeasureMore(was, u, at);
      MeasureMore(Resplit(stacks), u, at);
    }
  }

  // ----- names without semicolons -----

  predicate Clean(name: string) {
    ';' !in name
  }

  predicate CleanPath(p: Path) {
    forall i :: 0 <= i < |p| ==> Clean(p[i])
  }

  predicate CleanNames(s: Symbols) {
    CleanPath(s.names)
  }

  lemma CleanHex(n: nat)
    ensures Clean(Hex(n))
  {
    var t := HexText(n);
    assert forall i :: 0 <= i < |t| ==> t[i] != ';';
  }

  lemma NameIsClean(s: Symbols, address: nat, offsets: bool)
    requires s.Valid() && CleanNames(s)
    ensures Clean(NameOf(s, address, offsets))
  {
    CleanHex(address);
    if s.textStart <= address < s.textEnd && exists i: nat :: Covers(s, i, address) {
      forall i: nat | Covers(s, i, address)
        ensures Clean(WithOffset(s.names[i], address - s.addresses[i], offsets)) {
        CleanHex(address - s.addresses[i]);
        assert Clean(s.names[i]);
      }
    }
  }

  lemma {:induction false} NamesAreClean(pcs: seq<nat>, s: Symbols, offsets: bool)
    requires s.Valid() && CleanNames(s)
    ensures CleanPath(NamesOf(pcs, s, offsets)) && |NamesOf(pcs, s, offsets)| == |pcs|
  {
    hide NameOf, Clean;
    if pcs != [] {
      NamesAreClean(pcs[1..], s, offsets);
      NameIsClean(s, pcs[0], offsets);
    }
  }

  lemma CleanNumber(n: nat)
    ensures Clean(DecText(n))
  {
  }

  lemma FramesAreClean(r: Record, s: Symbols, o: Options)
    requires s.Valid() && CleanNames(s) && r.Valid()
    ensures CleanPath(FramesOf(r, s, o)) && FramesOf(r, s, o) != []
  {
    hide NameOf;
    NamesAreClean(r.pcs, s, o.offsets);
    CleanNumber(r.cpu);
    CleanNumber(r.tid);
    CleanNumber(r.generation);
    assert Clean("cpu=" + DecText(r.cpu)) && Clean(TaskLabel(r)) && Clean("[user]");
  }

  /** Without semicolons in the symbols' names, folding loses nothing. */
  lemma {:induction false} FoldingIsFaithful(records: seq<Record>, s: Symbols, o: Options)
    requires s.Valid() && CleanNames(s) && forall i :: 0 <= i < |records| ==> records[i].Valid()
    ensures Resplit(StacksOf(records, s, o)) == StacksOf(records, s, o)
  {
    hide FramesOf, Split, Join, CleanNames;
    if records != [] {
      var init, r := records[..|records| - 1], records[|records| - 1];
      FoldingIsFaithful(init, s, o);
      FramesAreClean(r, s, o);
      SplitJoin(FramesOf(r, s, o));
      var stacks, t := StacksOf(init, s, o), Stack(FramesOf(r, s, o), r.count);
      assert (stacks + [t])[..|stacks|] == stacks;
      assert stacks + [] == stacks;
    }
  }

  /** With the user samples, every sample is under the root. */
  lemma {:induction false} AllUnderRoot(records: seq<Record>, s: Symbols, o: Options)
    requires s.Valid() && o.users
    ensures Total(StacksOf(records, s, o), []) == Recorded(records)
  {
    hide FramesOf;
    if records != [] {
      var init, r := records[..|records| - 1], records[|records| - 1];
      AllUnderRoot(init, s, o);
      TotalMore(StacksOf(init, s, o), Stack(FramesOf(r, s, o), r.count), []);
    }
  }

  /** Without them, exactly those of the kernel are. */
  function KernelRecorded(records: seq<Record>): nat {
    if records == [] then 0
    else
      var r := records[|records| - 1];
      KernelRecorded(records[..|records| - 1]) + if r.kind == Kernel then r.count else 0
  }

  lemma {:induction false} KernelUnderRoot(records: seq<Record>, s: Symbols, o: Options)
    requires s.Valid() && !o.users
    ensures Total(StacksOf(records, s, o), []) == KernelRecorded(records)
  {
    hide FramesOf;
    if records != [] {
      var init, r := records[..|records| - 1], records[|records| - 1];
      KernelUnderRoot(init, s, o);
      assert StacksOf(init, s, o) + [] == StacksOf(init, s, o);
      TotalMore(StacksOf(init, s, o), Stack(FramesOf(r, s, o), r.count), []);
    }
  }

  // ----- the picture -----

  function StartsWith(p: Path): Path -> bool {
    (f: Path) => p <= f
  }

  function TurnsOffBefore(p: Path, k: string): Path -> bool {
    (f: Path) => p < f && FlameLayout.Less(f[|p|], k)
  }

  lemma {:induction false} TotalIs(stacks: seq<Stack>, p: Path)
    ensures Total(stacks, p) == Measure(stacks, StartsWith(p))
  {
    if stacks != [] {
      TotalIs(stacks[..|stacks| - 1], p);
    }
  }

  lemma {:induction false} EarlierIs(stacks: seq<Stack>, p: Path, k: string)
    ensures FlameLayout.Earlier(stacks, p, k) == Measure(stacks, TurnsOffBefore(p, k))
  {
    if stacks != [] {
      EarlierIs(stacks[..|stacks| - 1], p, k);
    }
  }

  lemma SameTotals(a: seq<Stack>, b: seq<Stack>, p: Path)
    requires SameSamples(a, b)
    ensures Total(a, p) == Total(b, p)
  {
    TotalIs(a, p);
    TotalIs(b, p);
  }

  lemma {:induction false} SameLeft(a: seq<Stack>, b: seq<Stack>, p: Path)
    requires SameSamples(a, b)
    ensures FlameLayout.Left(a, p) == FlameLayout.Left(b, p)
    decreases |p|
  {
    hide SameSamples;
    if p != [] {
      var n := |p| - 1;
      SameLeft(a, b, p[..n]);
      SameEarlier(a, b, p[..n], p[n]);
    }
  }

  lemma SameEarlier(a: seq<Stack>, b: seq<Stack>, p: Path, k: string)
    requires SameSamples(a, b)
    ensures FlameLayout.Earlier(a, p, k) == FlameLayout.Earlier(b, p, k)
  {
    EarlierIs(a, p, k);
    EarlierIs(b, p, k);
  }

  /** Stacks with the same samples have the same picture. */
  lemma SamePicture(a: seq<Stack>, b: seq<Stack>, scale: real, p: Path)
    requires SameSamples(a, b)
    ensures p != [] ==> FlameLayout.RectOf(a, scale, p) == FlameLayout.RectOf(b, scale, p)
    ensures FlameLayout.Shown(a, scale, [], p) <==> FlameLayout.Shown(b, scale, [], p)
  {
    hide SameSamples, FlameLayout.Left, Total;
    SameTotals(a, b, p);
    SameLeft(a, b, p);
    forall n: nat | n <= |p| ensures FlameLayout.Wide(a, scale, p[..n]) <==> FlameLayout.Wide(b, scale, p[..n]) {
      SameTotals(a, b, p[..n]);
    }
  }

  /** A frame that is shown has samples. */
  lemma ShownIsSeen(stacks: seq<Stack>, scale: real, p: Path)
    requires FlameLayout.Shown(stacks, scale, [], p)
    ensures Seen(stacks, p)
  {
    hide Total, Seen;
    assert p[..|p|] == p;
    assert FlameLayout.Wide(stacks, scale, p);
    UnseenIsZero(stacks, p);
  }

  // ----- the report -----

  /** Exactly the frames that are shown, each at the place and with the width that direct counting over
      `stacks` gives it. */
  ghost predicate Pictures(rects: seq<FlameLayout.Rect>, stacks: seq<Stack>, scale: real) {
    && (forall r :: r in rects ==>
         FlameLayout.Shown(stacks, scale, [], r.path) && r == FlameLayout.RectOf(stacks, scale, r.path))
    && (forall p :: FlameLayout.Shown(stacks, scale, [], p) ==> FlameLayout.RectOf(stacks, scale, p) in rects)
  }

  /** A frame has the share of the plot's width that its samples have in all samples, its left edge is that
      share of the samples before it, and only frames of a fifth of a unit or more are drawn. */
  lemma PictureShares(rects: seq<FlameLayout.Rect>, stacks: seq<Stack>, plotWidth: real, total: nat,
      r: FlameLayout.Rect)
    requires total > 0 && Pictures(rects, stacks, plotWidth / total as real) && r in rects
    ensures r.path != [] && r.level == |r.path| - 1
    ensures r.width * total as real == plotWidth * Total(stacks, r.path) as real
    ensures (r.x - 10.0) * total as real == plotWidth * FlameLayout.Left(stacks, r.path) as real
    ensures 5.0 * r.width >= 1.0
  {
    hide FlameLayout.Left, Total;
    assert r.path[..|r.path|] == r.path;
    assert FlameLayout.Wide(stacks, plotWidth / total as real, r.path);
    OfWhole(plotWidth, total, Total(stacks, r.path));
    OfWhole(plotWidth, total, FlameLayout.Left(stacks, r.path));
  }

  /** And every frame is drawn that has a fifth of a unit or more, with all around it. */
  lemma PictureHas(rects: seq<FlameLayout.Rect>, stacks: seq<Stack>, plotWidth: real, total: nat, p: Path)
    requires total > 0 && Pictures(rects, stacks, plotWidth / total as real) && p != []
    requires forall n: nat :: 0 < n <= |p| ==> 5.0 * plotWidth * Total(stacks, p[..n]) as real >= total as real
    ensures FlameLayout.RectOf(stacks, plotWidth / total as real, p) in rects
  {
    hide Total, FlameLayout.RectOf;
    var scale := plotWidth / total as real;
    forall n: nat | 0 < n <= |p| ensures FlameLayout.Wide(stacks, scale, p[..n]) {
      OfWhole(plotWidth, total, Total(stacks, p[..n]));
      AtLeastFifth(FlameLayout.Units(scale, Total(stacks, p[..n])), total as real);
    }
    assert FlameLayout.Shown(stacks, scale, [], p);
  }

  lemma AtLeastFifth(x: real, total: real)
    requires total > 0.0 && 5.0 * (x * total) >= total
    ensures x >= 0.2
  {
    assert 5.0 * (x * total) - total == (5.0 * x - 1.0) * total;
  }

  lemma OfWhole(plotWidth: real, total: nat, n: nat)
    requires total > 0
    ensures FlameLayout.Units(plotWidth / total as real, n) * total as real == plotWidth * n as real
  {
    var scale := plotWidth / total as real;
    assert scale * total as real == plotWidth;
    assert scale * n as real * total as real == scale * total as real * n as real;
  }

  /** In a picture a frame lies inside every frame whose path it continues, with that frame drawn as
      well, and frames of paths that part lie side by side. */
  lemma PictureNests(rects: seq<FlameLayout.Rect>, stacks: seq<Stack>, scale: real, q: FlameLayout.Rect,
      r: FlameLayout.Rect)
    requires Pictures(rects, stacks, scale) && scale > 0.0 && q in rects && r in rects
    ensures q.path <= r.path ==> q.x <= r.x && r.x + r.width <= q.x + q.width && q.level <= r.level
    ensures !(q.path <= r.path) && !(r.path <= q.path) ==> q.x + q.width <= r.x || r.x + r.width <= q.x
    ensures forall n :: 0 < n <= |r.path| ==> FlameLayout.RectOf(stacks, scale, r.path[..n]) in rects
  {
    hide FlameLayout.Left, Total, FlameLayout.Less, FlameLayout.Wide;
    if q.path <= r.path {
      FlameLayout.Inside(stacks, q.path, r.path);
      EdgesKeepOrder(stacks, scale, q.path, r.path);
    } else if !(r.path <= q.path) {
      var p, j, k := Parting(q.path, r.path);
      FlameLayout.LessTotal(j, k);
      if FlameLayout.Less(j, k) {
        FlameLayout.Apart(stacks, p, j, k, q.path, r.path);
      } else {
        FlameLayout.Apart(stacks, p, k, j, r.path, q.path);
      }
      EdgesKeepOrder(stacks, scale, q.path, r.path);
    }
    forall n | 0 < n <= |r.path| ensures FlameLayout.RectOf(stacks, scale, r.path[..n]) in rects {
      assert forall m: nat :: m <= n ==> r.path[..n][..m] == r.path[..m];
      assert FlameLayout.Shown(stacks, scale, [], r.path[..n]);
    }
  }

  /** The edges of two frames, in samples and in the picture. */
  lemma EdgesKeepOrder(stacks: seq<Stack>, scale: real, p: Path, q: Path)
    requires scale > 0.0 && p != [] && q != []
    ensures var a, b, l, m := Total(stacks, p), Total(stacks, q), FlameLayout.Left(stacks, p),
      FlameLayout.Left(stacks, q);
      var f, g := FlameLayout.RectOf(stacks, scale, p), FlameLayout.RectOf(stacks, scale, q);
      && (l <= m <==> f.x <= g.x)
      && (l + a <= m <==> f.x + f.width <= g.x)
      && (m + b <= l <==> g.x + g.width <= f.x)
      && (m + b <= l + a <==> g.x + g.width <= f.x + f.width)
  {
    hide FlameLayout.Left, Total, FlameLayout.Units;
    var a, b, l, m := Total(stacks, p), Total(stacks, q), FlameLayout.Left(stacks, p), FlameLayout.Left(stacks, q);
    FlameLayout.UnitsAdd(scale, l, a);
    FlameLayout.UnitsAdd(scale, m, b);
    UnitsOrder(scale, l, m);
    UnitsOrder(scale, l + a, m);
    UnitsOrder(scale, m + b, l);
    UnitsOrder(scale, m + b, l + a);
  }

  lemma UnitsOrder(scale: real, a: nat, b: nat)
    requires scale > 0.0
    ensures a <= b <==> FlameLayout.Units(scale, a) <= FlameLayout.Units(scale, b)
  {
    var x, y := a as real, b as real;
    assert scale * y - scale * x == scale * (y - x);
    if a < b {
      assert y - x > 0.0;
    } else if a > b {
      assert y - x < 0.0;
      assert scale * (x - y) > 0.0;
    }
  }

  /** Two paths that part have a common start and different names after it. */
  lemma {:induction false} Parting(p: Path, q: Path) returns (r: Path, j: string, k: string)
    requires !(p <= q) && !(q <= p)
    ensures j != k && r + [j] <= p && r + [k] <= q
  {
    if p[0] != q[0] {
      r, j, k := [], p[0], q[0];
    } else {
      assert p == [p[0]] + p[1..] && q == [q[0]] + q[1..];
      var r1, j1, k1 := Parting(p[1..], q[1..]);
      r, j, k := [p[0]] + r1, j1, k1;
      assert r + [j] == [p[0]] + (r1 + [j]) && r + [k] == [p[0]] + (r1 + [k]);
    }
  }

  lemma PictureOf(rects: seq<FlameLayout.Rect>, a: seq<Stack>, b: seq<Stack>, scale: real)
    requires SameSamples(a, b)
    requires forall r :: r in rects ==>
      FlameLayout.Shown(a, scale, [], r.path) && r == FlameLayout.RectOf(a, scale, r.path)
    requires forall p :: Seen(a, p) && FlameLayout.Shown(a, scale, [], p) ==> FlameLayout.RectOf(a, scale, p) in rects
    ensures Pictures(rects, b, scale)
  {
    hide SameSamples, Seen, FlameLayout.RectOf, FlameLayout.WideFrom;
    forall p ensures FlameLayout.Shown(a, scale, [], p) <==> FlameLayout.Shown(b, scale, [], p) {
      SamePicture(a, b, scale, p);
    }
    forall r | r in rects ensures r == FlameLayout.RectOf(b, scale, r.path) {
      SamePicture(a, b, scale, r.path);
    }
    forall p | FlameLayout.Shown(b, scale, [], p) ensures FlameLayout.RectOf(b, scale, p) in rects {
      SamePicture(a, b, scale, p);
      ShownIsSeen(a, scale, p);
    }
  }

  /** The graph of a valid dump: the root counts the samples of the header, and the picture is that of
      the records' own stacks. It shows every frame that is wide enough, with all around it, as wide
      as the samples of the records whose stacks start with its path, and where counting puts it. */
  method Report(d: Dump, s: Symbols, o: Options, plotWidth: real) returns (rects: seq<FlameLayout.Rect>, total: nat)
    requires s.Valid() && CleanNames(s) && plotWidth > 0.0
    requires Validated(d) && forall i :: 0 <= i < |d.records| ==> d.records[i].Valid()
    ensures o.users ==> d.samples == Some(total)
    ensures total == Total(StacksOf(d.records, s, o), [])
    ensures if total == 0 then rects == [] else Pictures(rects, StacksOf(d.records, s, o), plotWidth / total as real)
  {
    hide CleanNames, Total, FramesOf, SameSamples, Pictures, Seen, FlameLayout.Shown, FlameLayout.RectOf, Unfold;
    var keys, folded := Fold(d.records, s, o);
    FoldingIsFaithful(d.records, s, o);
    if o.users {
      AllUnderRoot(d.records, s, o);
    }
    var stacks := Stacks(keys, folded);
    rects, total := FlameLayout.Draw(stacks, plotWidth);
    SameTotals(stacks, StacksOf(d.records, s, o), []);
    if total > 0 {
      PictureOf(rects, stacks, StacksOf(d.records, s, o), plotWidth / total as real);
    }
  }

  method Stacks(keys: seq<string>, folded: map<string, nat>) returns (stacks: seq<Stack>)
    requires forall k :: k in keys ==> k in folded
    ensures stacks == Unfold(keys, folded)
  {
    stacks := [];
    for i := 0 to |keys|
      invariant stacks == Unfold(keys[..i], folded)
    {
      assert keys[..i + 1][..i] == keys[..i];
      stacks := stacks + [Stack(Split(keys[i]), folded[keys[i]])];
    }
    assert keys[..|keys|] == keys;
  }
}
