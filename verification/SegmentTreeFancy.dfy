/**
  The Fancy sequence of python/segment-tree-2.py: the same operations as in cpp/fenwick-tree.cc on an explicit tree that
  grows at the root.  An update of the prefix goes to the nodes that cover it; a node that ends beyond the prefix has
  never been updated, so reading from the leaf up applies the updates in the order they were made.
*/
module SegmentTreeFancy {
  import opened FancySequence

  /** A node for the points l .. r - 1.  Its place in the tree is fixed, its map changes. */
  class Segment {
    const l: nat
    const r: nat
    const lc: Segment?
    const rc: Segment?
    var part: Seg

    constructor Leaf(l: nat)
      ensures Shape(this) && this.l == l && r == l + 1 && part == Untouched() && Nodes(this) == {this}
    {
      this.l, r, lc, rc := l, l + 1, null, null;
      part := Untouched();
    }

    constructor Join(lc: Segment, rc: Segment)
      requires Shape(lc) && Shape(rc) && lc.r == rc.l
      ensures Shape(this) && l == lc.l && r == rc.r && this.lc == lc && this.rc == rc && part == Untouched()
      ensures Nodes(this) == {this} + Nodes(lc) + Nodes(rc)
    {
      l, r := lc.l, rc.r;
      this.lc, this.rc := lc, rc;
      part := Untouched();
    }
  }

  ghost predicate Shape(seg: Segment)
    decreases seg.r - seg.l
  {
    && seg.l < seg.r && (seg.lc == null <==> seg.rc == null) && (seg.lc == null ==> seg.r == seg.l + 1)
    && (seg.lc != null ==>
          seg.lc.l == seg.l && seg.l < seg.lc.r == seg.rc.l < seg.r == seg.rc.r && Shape(seg.lc) && Shape(seg.rc))
  }

  ghost function Nodes(seg: Segment): (nodes: set<Segment>)
    requires Shape(seg)
    ensures seg in nodes && forall x :: x in nodes ==> seg.l <= x.l < x.r <= seg.r
    decreases seg.r - seg.l
  {
    if seg.lc == null then {seg} else {seg} + Nodes(seg.lc) + Nodes(seg.rc)
  }

  /** The maps of the nodes. */
  ghost function Parts(nodes: set<Segment>): map<Segment, Seg>
    reads nodes
  {
    map x | x in nodes :: x.part
  }

  /** The value at a point: that of the leaf, passed through the maps above it. */
  ghost function ValueOf(parts: map<Segment, Seg>, seg: Segment, pos: nat): (y: nat)
    requires Shape(seg) && Nodes(seg) <= parts.Keys && seg.l <= pos < seg.r
    ensures y < M
    decreases seg.r - seg.l
  {
    if seg.lc == null then Start(parts[seg])
    else Apply(parts[seg], if pos < seg.lc.r then ValueOf(parts, seg.lc, pos) else ValueOf(parts, seg.rc, pos))
  }

  /** `op` leaves the value of a node alone and follows its map with `f`. */
  ghost predicate IsUpdate(op: Seg -> Seg, f: nat -> nat) {
    Follows(op, f) && (forall part: Seg :: op(part).x == part.x) && forall z: nat :: f(z) < M
  }

  /** The nodes that together are the points seg.l .. end - 1. */
  ghost function Cover(seg: Segment, end: nat): (nodes: set<Segment>)
    requires Shape(seg) && seg.l < end
    ensures nodes <= Nodes(seg) && forall x :: x in nodes ==> x.r <= end
    decreases seg.r - seg.l
  {
    if seg.r <= end then {seg}
    else if seg.lc.r < end then {seg.lc} + Cover(seg.rc, end)
    else Cover(seg.lc, end)
  }

  /** No node that ends beyond `count` was ever updated. */
  ghost predicate UntouchedFrom(parts: map<Segment, Seg>, count: nat) {
    forall x :: x in parts && count < x.r ==> parts[x].a == 1 && parts[x].b == 0
  }

  /** The nodes of the two halves have no point in common. */
  lemma HalvesApart(seg: Segment)
    requires Shape(seg) && seg.lc != null
    ensures Nodes(seg.lc) !! Nodes(seg.rc) && seg !in Nodes(seg.lc) && seg !in Nodes(seg.rc)
    ensures Nodes(seg) == {seg} + Nodes(seg.lc) + Nodes(seg.rc)
  {}

  /** The value of a point only depends on the nodes of the subtree. */
  lemma {:induction false} SameValue(parts: map<Segment, Seg>, parts': map<Segment, Seg>, seg: Segment, pos: nat)
    requires Shape(seg) && Nodes(seg) <= parts.Keys && Nodes(seg) <= parts'.Keys && seg.l <= pos < seg.r
    requires forall x :: x in Nodes(seg) ==> parts[x] == parts'[x]
    ensures ValueOf(parts, seg, pos) == ValueOf(parts', seg, pos)
    decreases seg.r - seg.l
  {
    if seg.lc != null {
      if pos < seg.lc.r { SameValue(parts, parts', seg.lc, pos); } else { SameValue(parts, parts', seg.rc, pos); }
    }
  }

  lemma LeafIsApplied(part: Seg)
    ensures Start(part) == Apply(part, part.x)
  {
    assert part.a * part.x == part.x * part.a;
  }

  lemma OneAndZero(part: Seg, y: nat)
    requires part.a == 1 && part.b == 0 && y < M
    ensures Apply(part, y) == y
  {}

  /** An update of the nodes that cover a prefix follows the values in it with `f`, and no others. */
  lemma {:induction false} CoverUpdated(parts: map<Segment, Seg>, parts': map<Segment, Seg>, seg: Segment, end: nat, pos: nat, op: Seg -> Seg, f: nat -> nat)
    requires Shape(seg) && Nodes(seg) <= parts.Keys && Nodes(seg) <= parts'.Keys && seg.l < end && seg.l <= pos < seg.r
    requires IsUpdate(op, f) && UntouchedFrom(parts, end)
    requires forall x :: x in Nodes(seg) ==> parts'[x] == if x in Cover(seg, end) then op(parts[x]) else parts[x]
    ensures ValueOf(parts', seg, pos) == if pos < end then f(ValueOf(parts, seg, pos)) else ValueOf(parts, seg, pos)
    decreases seg.r - seg.l
  {
    hide Apply;
    if seg.r <= end {
      Covered(parts, parts', seg, pos, op, f);
    } else {
      HalvesApart(seg);
      var y, y' := ValueOf(parts, seg, pos), ValueOf(parts', seg, pos);
      var half := if pos < seg.lc.r then seg.lc else seg.rc;
      OneAndZero(parts[seg], ValueOf(parts, half, pos));
      OneAndZero(parts[seg], ValueOf(parts', half, pos));
      if seg.lc.r < end {
        if pos < seg.lc.r {
          Covered(parts, parts', seg.lc, pos, op, f);
        } else {
          CoverUpdated(parts, parts', seg.rc, end, pos, op, f);
        }
      } else if pos < seg.lc.r {
        CoverUpdated(parts, parts', seg.lc, end, pos, op, f);
      } else {
        SameValue(parts, parts', seg.rc, pos);
      }
    }
  }

  /** A node that takes the update itself, and nothing below it. */
  lemma Covered(parts: map<Segment, Seg>, parts': map<Segment, Seg>, seg: Segment, pos: nat, op: Seg -> Seg, f: nat -> nat)
    requires Shape(seg) && Nodes(seg) <= parts.Keys && Nodes(seg) <= parts'.Keys && seg.l <= pos < seg.r
    requires IsUpdate(op, f) && parts'[seg] == op(parts[seg]) && forall x :: x in Nodes(seg) && x != seg ==> parts'[x] == parts[x]
    ensures ValueOf(parts', seg, pos) == f(ValueOf(parts, seg, pos))
  {
    if seg.lc == null {
      LeafIsApplied(parts[seg]);
      LeafIsApplied(op(parts[seg]));
      hide Apply, Start;
      assert Apply(op(parts[seg]), parts[seg].x) == f(Apply(parts[seg], parts[seg].x));
    } else {
      HalvesApart(seg);
      var half := if pos < seg.lc.r then seg.lc else seg.rc;
      SameValue(parts, parts', half, pos);
    }
  }

  // ---- The program ----------------------------------------------------------------------------------------------

  /** constructSegmentTree. */
  method ConstructSegmentTree(l: nat, r: nat) returns (seg: Segment, ghost nodes: set<Segment>)
    requires l < r
    ensures Shape(seg) && seg.l == l && seg.r == r && nodes == Nodes(seg) && fresh(nodes)
    ensures forall x :: x in nodes ==> x.part == Untouched()
    decreases r - l
  {
    var mid := (l + r) / 2;
    if l == mid {
      seg := new Segment.Leaf(l);
      nodes := {seg};
    } else {
      var lc, left := ConstructSegmentTree(l, mid);
      var rc, right := ConstructSegmentTree(mid, r);
      seg := new Segment.Join(lc, rc);
      nodes := {seg} + left + right;
    }
  }

  /** The descent of opForAll: what of the cover is left is below `seg`. */
  method OpForAll(root: Segment, ghost nodes: set<Segment>, end: nat, op: Seg -> Seg)
    requires Shape(root) && nodes == Nodes(root) && root.l < end <= root.r
    modifies nodes`part
    ensures forall x :: x in nodes ==> x.part == if x in Cover(root, end) then op(old(Parts(nodes))[x]) else old(Parts(nodes))[x]
  {
    ghost var parts := Parts(nodes);
    ghost var done: set<Segment> := {};
    var seg: Segment := root;
    hide Shape, Nodes, Cover, Remains;
    RemainsAtFirst(root, end);
    while seg.r > end
      invariant Remains(root, seg, end, done) && seg in nodes && Shape(seg)
      invariant forall x :: x in nodes ==> x.part == if x in done then op(parts[x]) else parts[x]
      decreases seg.r - seg.l
    {
      RemainsBelow(root, seg, end, done);
      if end > seg.lc.r {
        seg.lc.part := op(seg.lc.part);
        done := done + {seg.lc};
        seg := seg.rc;
      } else {
        seg := seg.lc;
      }
    }
    RemainsLast(root, seg, end, done);
    seg.part := op(seg.part);
  }

  /** The nodes in `done` and the cover below `seg` are the cover of the root. */
  ghost predicate Remains(root: Segment, seg: Segment, end: nat, done: set<Segment>)
    requires Shape(root)
  {
    && root.l < end && Shape(seg) && seg in Nodes(root) && Nodes(seg) <= Nodes(root) && seg.l < end
    && Cover(root, end) == done + Cover(seg, end) && done !! Nodes(seg)
  }

  lemma RemainsAtFirst(root: Segment, end: nat)
    requires Shape(root) && root.l < end
    ensures Remains(root, root, end, {}) && root in Nodes(root)
  {}

  lemma RemainsBelow(root: Segment, seg: Segment, end: nat, done: set<Segment>)
    requires Shape(root) && Remains(root, seg, end, done) && end < seg.r
    ensures seg.lc != null && seg.rc != null && Shape(seg.lc) && Shape(seg.rc) && seg.l <= seg.lc.l < seg.lc.r == seg.rc.l < seg.rc.r == seg.r
    ensures seg.lc in Nodes(root) && seg.rc in Nodes(root) && seg.lc !in done
    ensures if seg.lc.r < end then Remains(root, seg.rc, end, done + {seg.lc}) else Remains(root, seg.lc, end, done)
  {
    HalvesApart(seg);
  }

  lemma RemainsLast(root: Segment, seg: Segment, end: nat, done: set<Segment>)
    requires Shape(root) && Remains(root, seg, end, done) && root.l < end && seg.r <= end
    ensures Cover(root, end) == done + {seg} && seg !in done
  {}

  /** The half of an inner node that a point is in. */
  ghost function Half(seg: Segment, pos: nat): (half: Segment)
    requires Shape(seg) && seg.lc != null && seg.l <= pos < seg.r
    ensures Shape(half) && half.l <= pos < half.r && half.r - half.l < seg.r - seg.l
    ensures half in Nodes(seg) && Nodes(half) <= Nodes(seg)
  {
    HalvesApart(seg);
    if pos < seg.lc.r then seg.lc else seg.rc
  }

  lemma InnerNode(seg: Segment)
    requires Shape(seg)
    ensures seg.l < seg.r && (seg.l + 1 < seg.r <==> seg.lc != null) && (seg.lc != null ==> seg.rc != null)
  {}

  /** The descent of append to the leaf of a point. */
  method FindLeaf(root: Segment, ghost nodes: set<Segment>, pos: nat) returns (seg: Segment)
    requires Shape(root) && nodes == Nodes(root) && root.l <= pos < root.r
    ensures seg in nodes && seg.l == pos && seg.r == pos + 1
  {
    seg := root;
    InnerNode(seg);
    hide Shape, Nodes;
    while seg.l + 1 < seg.r
      invariant Shape(seg) && seg in nodes && Nodes(seg) <= nodes && seg.l <= pos < seg.r
      decreases seg.r - seg.l
    {
      InnerNode(seg);
      ghost var half := Half(seg, pos);
      seg := if pos < seg.lc.r then seg.lc else seg.rc;
      assert seg == half;
    }
    InnerNode(seg);
  }

  method SetLeaf(root: Segment, ghost nodes: set<Segment>, pos: nat, value: nat)
    requires Shape(root) && nodes == Nodes(root) && root.l <= pos < root.r && UntouchedFrom(Parts(nodes), pos)
    modifies nodes`part
    ensures UntouchedFrom(Parts(nodes), pos)
    ensures forall p :: root.l <= p < root.r ==>
              ValueOf(Parts(nodes), root, p) == if p == pos then value % M else ValueOf(old(Parts(nodes)), root, p)
  {
    hide Shape, Nodes, ValueOf;
    ghost var parts := Parts(nodes);
    var seg := FindLeaf(root, nodes, pos);
    assert parts[seg] == seg.part && parts[seg].b == 0;
    seg.part := seg.part.(x := value, a := 1);
    assert Parts(nodes) == parts[seg := Seg(value, 1, 0)];
    forall p | root.l <= p < root.r ensures ValueOf(Parts(nodes), root, p) == if p == pos then value % M else ValueOf(parts, root, p) {
      LeafSet(parts, Parts(nodes), root, seg, pos, value, p);
    }
  }

  /** Only the leaf of `pos` has changed, and everything above it is untouched. */
  lemma {:induction false} LeafSet(parts: map<Segment, Seg>, parts': map<Segment, Seg>, seg: Segment, leaf: Segment, pos: nat, value: nat, p: nat)
    requires Shape(seg) && Nodes(seg) <= parts.Keys && Nodes(seg) <= parts'.Keys && seg.l <= p < seg.r
    requires leaf.l == pos && leaf.r == pos + 1 && (seg.l <= pos < seg.r ==> leaf in Nodes(seg))
    requires UntouchedFrom(parts, pos) && forall x :: x in Nodes(seg) ==> parts'[x] == if x == leaf then Seg(value, 1, 0) else parts[x]
    ensures ValueOf(parts', seg, p) == if p == pos then value % M else ValueOf(parts, seg, p)
    decreases seg.r - seg.l
  {
    if seg.lc != null {
      HalvesApart(seg);
      var half := if p < seg.lc.r then seg.lc else seg.rc;
      LeafSet(parts, parts', half, leaf, pos, value, p);
      if p == pos { OneAndZero(parts[seg], value % M); }
    }
  }

  /** The maps of the nodes above, from the lowest on. */
  ghost function Up(parts: map<Segment, Seg>, stack: seq<Segment>, y: nat): nat
    requires forall i :: 0 <= i < |stack| ==> stack[i] in parts
  {
    if stack == [] then y
    else Up(parts, stack[..|stack| - 1], Apply(parts[stack[|stack| - 1]], y))
  }

  method Query(root: Segment, ghost nodes: set<Segment>, pos: nat) returns (res: nat)
    requires Shape(root) && nodes == Nodes(root) && root.l <= pos < root.r
    ensures res == ValueOf(Parts(nodes), root, pos)
  {
    ghost var parts := Parts(nodes);
    var stack: seq<Segment> := [];
    var seg: Segment := root;
    InnerNode(seg);
    NothingUp(parts, ValueOf(parts, root, pos));
    hide Shape, Nodes, ValueOf, Up, Apply;
    while seg.l + 1 < seg.r
      invariant Shape(seg) && seg in nodes && Nodes(seg) <= nodes && seg.l <= pos < seg.r
      invariant forall i :: 0 <= i < |stack| ==> stack[i] in nodes
      invariant Up(parts, stack, ValueOf(parts, seg, pos)) == ValueOf(parts, root, pos)
      decreases seg.r - seg.l
    {
      InnerNode(seg);
      OneDown(parts, stack, seg, pos);
      ghost var half := Half(seg, pos);
      stack := stack + [seg];
      seg := if pos < seg.lc.r then seg.lc else seg.rc;
      assert seg == half;
    }
    InnerNode(seg);
    LeafValue(parts, seg, pos);
    res := (seg.part.a * seg.part.x + seg.part.b) % M;
    res := ReadUp(nodes, stack, res);
  }

  /** The way back up: the maps of the nodes passed, from the lowest on. */
  method ReadUp(ghost nodes: set<Segment>, path: seq<Segment>, value: nat) returns (res: nat)
    requires forall i :: 0 <= i < |path| ==> path[i] in nodes
    ensures res == Up(Parts(nodes), path, value)
  {
    hide Up;
    ghost var parts := Parts(nodes);
    res := value;
    var stack := path;
    while |stack| > 0
      invariant forall i :: 0 <= i < |stack| ==> stack[i] in nodes
      invariant Up(parts, stack, res) == Up(parts, path, value)
    {
      var last := stack[|stack| - 1];
      OneUp(parts, stack, res);
      res := (res * last.part.a + last.part.b) % M;
      stack := stack[..|stack| - 1];
    }
    NothingUp(parts, res);
  }

  lemma NothingUp(parts: map<Segment, Seg>, y: nat)
    ensures Up(parts, [], y) == y
  {}

  lemma OneDown(parts: map<Segment, Seg>, stack: seq<Segment>, seg: Segment, pos: nat)
    requires Shape(seg) && seg.lc != null && Nodes(seg) <= parts.Keys && seg.l <= pos < seg.r
    requires forall i :: 0 <= i < |stack| ==> stack[i] in parts
    ensures var half := if pos < seg.lc.r then seg.lc else seg.rc;
      Nodes(half) <= Nodes(seg) && Up(parts, stack + [seg], ValueOf(parts, half, pos)) == Up(parts, stack, ValueOf(parts, seg, pos))
  {
    HalvesApart(seg);
    assert (stack + [seg])[..|stack|] == stack;
  }

  lemma LeafValue(parts: map<Segment, Seg>, seg: Segment, pos: nat)
    requires Shape(seg) && seg.r == seg.l + 1 && Nodes(seg) <= parts.Keys && pos == seg.l
    ensures ValueOf(parts, seg, pos) == (parts[seg].a * parts[seg].x + parts[seg].b) % M
  {}

  lemma OneUp(parts: map<Segment, Seg>, stack: seq<Segment>, y: nat)
    requires stack != [] && forall i :: 0 <= i < |stack| ==> stack[i] in parts
    ensures var part := parts[stack[|stack| - 1]]; Up(parts, stack, y) == Up(parts, stack[..|stack| - 1], (y * part.a + part.b) % M)
  {}

  // ---- Growing --------------------------------------------------------------------------------------------------

  /** A root over the tree and an untouched one beside it gives the same values. */
  lemma GrownValues(parts: map<Segment, Seg>, root: Segment, parts': map<Segment, Seg>, newRoot: Segment, count: nat)
    requires Shape(root) && Shape(newRoot) && newRoot.lc == root && parts.Keys == Nodes(root) && parts'.Keys == Nodes(newRoot)
    requires (forall x :: x in parts ==> parts'[x] == parts[x]) && forall x :: x in parts' && x !in parts ==> parts'[x] == Untouched()
    requires UntouchedFrom(parts, count)
    ensures UntouchedFrom(parts', count)
    ensures forall pos :: root.l <= pos < root.r ==> ValueOf(parts', newRoot, pos) == ValueOf(parts, root, pos)
  {
    HalvesApart(newRoot);
    forall pos | root.l <= pos < root.r ensures ValueOf(parts', newRoot, pos) == ValueOf(parts, root, pos) {
      SameValue(parts, parts', root, pos);
      OneAndZero(parts'[newRoot], ValueOf(parts, root, pos));
    }
  }

  ghost function ValuesOf(parts: map<Segment, Seg>, root: Segment, count: nat): seq<nat>
    requires Shape(root) && Nodes(root) <= parts.Keys && root.l == 0 && count <= root.r
  {
    seq(count, pos requires 0 <= pos < count => ValueOf(parts, root, pos))
  }

  lemma LeafAppended(parts: map<Segment, Seg>, parts': map<Segment, Seg>, root: Segment, count: nat, val: nat)
    requires Shape(root) && Nodes(root) <= parts.Keys && Nodes(root) <= parts'.Keys && root.l == 0 && count < root.r
    requires UntouchedFrom(parts', count)
    requires forall p :: 0 <= p < root.r ==> ValueOf(parts', root, p) == if p == count then val % M else ValueOf(parts, root, p)
    ensures UntouchedFrom(parts', count + 1)
    ensures ValuesOf(parts', root, count + 1) == ValuesOf(parts, root, count) + [val % M]
  {
    hide ValueOf, Shape, Nodes;
  }

  lemma NothingToUpdate(parts: map<Segment, Seg>, root: Segment, f: nat -> nat)
    requires Shape(root) && Nodes(root) <= parts.Keys && root.l == 0
    ensures ValuesOf(parts, root, 0) == Map(ValuesOf(parts, root, 0), f)
  {}

  lemma AllUpdated(parts: map<Segment, Seg>, parts': map<Segment, Seg>, root: Segment, count: nat, op: Seg -> Seg, f: nat -> nat)
    requires Shape(root) && parts.Keys == parts'.Keys == Nodes(root) && root.l == 0 < count <= root.r
    requires IsUpdate(op, f) && UntouchedFrom(parts, count)
    requires forall x :: x in parts ==> parts'[x] == if x in Cover(root, count) then op(parts[x]) else parts[x]
    ensures UntouchedFrom(parts', count) && ValuesOf(parts', root, count) == Map(ValuesOf(parts, root, count), f)
  {
    hide ValueOf, IsUpdate, Shape, Nodes, Cover;
    forall pos | 0 <= pos < count ensures ValueOf(parts', root, pos) == f(ValueOf(parts, root, pos)) {
      CoverUpdated(parts, parts', root, count, pos, op, f);
    }
  }

  lemma PartsOf(nodes: set<Segment>)
    ensures Parts(nodes).Keys == nodes && forall x :: x in nodes ==> Parts(nodes)[x] == x.part
  {}

  class Fancy {
    var root: Segment
    var n: nat
    ghost var nodes: set<Segment>

    ghost predicate Valid()
      reads this, nodes
    {
      && Shape(root) && nodes == Nodes(root) && root.l == 0 && n <= root.r
      && UntouchedFrom(Parts(nodes), n)
    }

    /** The list the tree stands for. */
    ghost function Contents(): seq<nat>
      requires Valid()
      reads this, nodes
    {
      ValuesOf(Parts(nodes), root, n)
    }

    constructor ()
      ensures Valid() && fresh(nodes) && Contents() == []
    {
      var tree, all := ConstructSegmentTree(0, 10);
      root, nodes := tree, all;
      n := 0;
    }

    /** growTree. */
    method GrowTree()
      requires Valid()
      modifies this`root, this`nodes
      ensures Valid() && Contents() == old(Contents()) && fresh(nodes - old(nodes)) && root.r == 2 * old(root.r)
    {
      ghost var parts, oldRoot := Parts(nodes), root;
      InnerNode(root);
      PartsOf(nodes);
      hide ValueOf, UntouchedFrom, Shape, Nodes, Parts;
      var rc, more := ConstructSegmentTree(root.r, root.r * 2);
      root := new Segment.Join(root, rc);
      nodes := {root} + nodes + more;
      PartsOf(nodes);
      GrownValues(parts, oldRoot, Parts(nodes), root, n);
    }

    method Append(val: nat)
      requires Valid()
      modifies this, nodes
      ensures Valid() && fresh(nodes - old(nodes)) && Contents() == old(Contents()) + [val % 1_000_000_007]
    {
      InnerNode(root);
      if n + 1 > root.r {
        GrowTree();
      }
      SetNext(val);
    }

    /** The leaf behind the list gets the value. */
    method SetNext(val: nat)
      requires Valid() && n < root.r
      modifies this`n, nodes
      ensures Valid() && n == old(n) + 1 && Contents() == old(Contents()) + [val % M]
    {
      hide ValueOf, UntouchedFrom, Shape, Nodes, ValuesOf, Parts;
      ghost var parts := Parts(nodes);
      PartsOf(nodes);
      SetLeaf(root, nodes, n, val);
      PartsOf(nodes);
      LeafAppended(parts, Parts(nodes), root, n, val);
      n := n + 1;
    }

    method AddAll(inc: nat)
      requires Valid()
      modifies nodes
      ensures Valid() && |Contents()| == |old(Contents())|
      ensures forall i :: 0 <= i < |Contents()| ==> Contents()[i] == (old(Contents())[i] + inc) % 1_000_000_007
    {
      AddFollows(inc);
      UpdateAll(AddTo(inc), Plus(inc));
    }

    method MultAll(m: nat)
      requires Valid()
      modifies nodes
      ensures Valid() && |Contents()| == |old(Contents())|
      ensures forall i :: 0 <= i < |Contents()| ==> Contents()[i] == old(Contents())[i] * m % 1_000_000_007
    {
      MultiplyFollows(m);
      UpdateAll(MultiplyBy(m), Times(m));
    }

    method UpdateAll(op: Seg -> Seg, ghost f: nat -> nat)
      requires Valid() && IsUpdate(op, f)
      modifies nodes
      ensures Valid() && Contents() == Map(old(Contents()), f)
    {
      hide ValueOf, IsUpdate, UntouchedFrom, Cover, Shape, Nodes, ValuesOf, Parts;
      if n == 0 {
        PartsOf(nodes);
        NothingToUpdate(Parts(nodes), root, f);
        return;
      }
      ghost var parts := Parts(nodes);
      PartsOf(nodes);
      OpForAll(root, nodes, n, op);
      PartsOf(nodes);
      AllUpdated(parts, Parts(nodes), root, n, op, f);
    }

    /** The element, or -1 beyond the end. */
    method GetIndex(idx: nat) returns (r: int)
      requires Valid()
      ensures r == if idx < |Contents()| then Contents()[idx] else -1
    {
      if idx >= n {
        return -1;
      }
      r := Query(root, nodes, idx);
    }
  }
}
