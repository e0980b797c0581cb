/** The profiler's prefix tree of stacks, against direct counting. */
module FlameTree {

  type Path = seq<string>

  datatype Stack = Stack(frames: Path, count: nat)

  // ----- counting -----

  /** What a stack adds to the count of a path. */
  function Share(s: Stack, p: Path): nat {
    if p <= s.frames then s.count else 0
  }

  /** The samples of the stacks that start with a path. */
  function Total(stacks: seq<Stack>, p: Path): nat {
    if stacks == [] then 0 else Total(stacks[..|stacks| - 1], p) + Share(stacks[|stacks| - 1], p)
  }

  predicate Seen(stacks: seq<Stack>, p: Path) {
    exists i :: 0 <= i < |stacks| && p <= stacks[i].frames
  }

  lemma TotalMore(stacks: seq<Stack>, s: Stack, p: Path)
    ensures Total(stacks + [s], p) == Total(stacks, p) + Share(s, p)
  {
    assert (stacks + [s])[..|stacks|] == stacks;
  }

  lemma SeenMore(stacks: seq<Stack>, s: Stack, p: Path)
    ensures Seen(stacks + [s], p) <==> Seen(stacks, p) || p <= s.frames
  {
    if Seen(stacks, p) {
      var i :| 0 <= i < |stacks| && p <= stacks[i].frames;
      assert (stacks + [s])[i] == stacks[i];
    }
    assert (stacks + [s])[|stacks|] == s;
  }

  // ----- the tree -----

  class FlameNode {
    const name: string
    var count: nat
    var children: map<string, FlameNode>

    constructor (name: string)
      ensures this.name == name && count == 0 && children == map[]
    {
      this.name, this.count, this.children := name, 0, map[];
    }

    /** The child of this node for a frame, made if it is missing, with `n` more samples. */
    method Descend(frame: string, n: nat, ghost root: FlameNode, ghost index: map<Path, FlameNode>, ghost at: Path)
      returns (child: FlameNode, ghost index': map<Path, FlameNode>)
      requires Linked(root, index) && at in index && index[at] == this
      modifies index.Values
      ensures Linked(root, index') && at + [frame] in index' && index'[at + [frame]] == child
      ensures forall p :: p in index' <==> p in index || p == at + [frame]
      ensures forall p :: p in index ==> index'[p] == index[p]
      ensures forall v :: v in index'.Values ==> v in index.Values || fresh(v)
      ensures forall p :: p in index && p != at + [frame] ==> index[p].count == old(index[p].count)
      ensures child.count == (if at + [frame] in index then old(index[at + [frame]].count) else 0) + n
    {
      ghost var q := at + [frame];
      index' := index;
      if frame in children {
        child := children[frame];
      } else {
        child := new FlameNode(frame);
        children := children[frame := child];
        index' := index[q := child];
        ChildAdded(at, frame);
      }
      child.count := child.count + n;
    }

    /** Count a stack along its path from this node, the root, making the nodes that are missing.
        `index` finds the node of each path. */
    method Add(frames: Path, n: nat, ghost index: map<Path, FlameNode>, ghost stacks: seq<Stack>)
      returns (ghost index': map<Path, FlameNode>)
      requires Counted(this, index, stacks)
      modifies index.Values
      ensures Counted(this, index', stacks + [Stack(frames, n)])
      ensures forall v :: v in index'.Values ==> v in index.Values || fresh(v)
    {
      hide Linked, Total, Seen;
      RootIs(this, index);
      index' := index;
      count := count + n;
      var node := this;
      for i := 0 to |frames|
        invariant Linked(this, index')
        invariant frames[..i] in index' && index'[frames[..i]] == node
        invariant forall v :: v in index'.Values ==> v in index.Values || fresh(v)
        invariant forall p :: p in index' <==> p in index || Along(frames, i, p)
        invariant forall p :: p in index' ==>
          index'[p].count == (if p in index then Total(stacks, p) else 0) + (if Along(frames, i, p) then n else 0)
      {
        PrefixStep(frames, i);
        node, index' := node.Descend(frames[i], n, this, index', frames[..i]);
      }
      assert frames[..|frames|] == frames;
      CountedMore(this, index', stacks, Stack(frames, n));
    }
  }

  lemma ChildAdded(at: Path, frame: string)
    ensures forall p: Path, k: string :: p + [k] == at + [frame] <==> p == at && k == frame
  {
    forall p: Path, k: string | p + [k] == at + [frame] ensures p == at && k == frame {
      assert (p + [k])[..|p|] == p && (at + [frame])[..|at|] == at;
      assert (p + [k])[|p|] == k && (at + [frame])[|at|] == frame;
    }
  }

  /** A path is one of the first `i + 1` along `frames`. */
  predicate Along(frames: Path, i: nat, p: Path)
    requires i <= |frames|
  {
    p <= frames[..i]
  }

  lemma PrefixStep(frames: Path, i: nat)
    requires i < |frames|
    ensures frames[..i] + [frames[i]] == frames[..i + 1]
    ensures forall p: Path :: Along(frames, i + 1, p) <==> Along(frames, i, p) || p == frames[..i + 1]
  {
  }

  /** `index` holds the node of every path, each a child of the node of the path before it. */
  ghost predicate Linked(root: FlameNode, index: map<Path, FlameNode>)
    reads index.Values`children
  {
    && [] in index && index[[]] == root
    && (forall p, q :: p in index && q in index && index[p] == index[q] ==> p == q)
    && (forall p, k :: p + [k] in index ==> p in index)
    && (forall p, k :: p in index ==> (k in index[p].children <==> p + [k] in index))
    && (forall p, k :: p in index && k in index[p].children ==>
         index[p].children[k] == index[p + [k]] && index[p + [k]].name == k)
  }

  /** The tree counts exactly the stacks: a node for every path that some stack starts with, with the
      samples of those stacks. */
  ghost predicate Counted(root: FlameNode, index: map<Path, FlameNode>, stacks: seq<Stack>)
    reads index.Values
  {
    && Linked(root, index)
    && (forall p :: p in index <==> p == [] || Seen(stacks, p))
    && (forall p :: p in index ==> index[p].count == Total(stacks, p))
  }

  lemma RootIs(root: FlameNode, index: map<Path, FlameNode>)
    requires Linked(root, index)
    ensures [] in index && index[[]] == root
    ensures forall p :: p in index && p != [] ==> index[p] != root
  {
  }

  lemma CountedMore(root: FlameNode, index: map<Path, FlameNode>, stacks: seq<Stack>, s: Stack)
    requires Linked(root, index)
    requires forall p :: p in index <==> p == [] || Seen(stacks, p) || p <= s.frames
    requires forall p :: p in index ==>
      index[p].count == (if p == [] || Seen(stacks, p) then Total(stacks, p) else 0) + Share(s, p)
    ensures Counted(root, index, stacks + [s])
  {
    forall p | p in index ensures index[p].count == Total(stacks + [s], p) {
      TotalMore(stacks, s, p);
      UnseenIsZero(stacks, p);
    }
    forall p ensures Seen(stacks + [s], p) <==> Seen(stacks, p) || p <= s.frames {
      SeenMore(stacks, s, p);
    }
  }

  lemma {:induction false} UnseenIsZero(stacks: seq<Stack>, p: Path)
    ensures !Seen(stacks, p) ==> Total(stacks, p) == 0
  {
    if stacks != [] {
      var init := stacks[..|stacks| - 1];
      UnseenIsZero(init, p);
      SeenMore(init, stacks[|stacks| - 1], p);
      assert stacks == init + [stacks[|stacks| - 1]];
    }
  }
}
