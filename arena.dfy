/** The node graph of the tree engine, held as an arena: node `i` is `a[i]`
    and every link is an index. Pure functions over the arena give the
    meaning of the engine's pointer walks; lemmas say what the link invariant
    guarantees and how it survives the engine's updates. */
module Arena {
  import opened Nodes

  /** `o` is null or names a node of `a`. */
  predicate In(a: seq<Rec>, o: Option<nat>) { o.None? || o.value < |a| }

  /** The link discipline at node `i`: the head of its child chain names `i`
      as parent, the next node of its sibling chain has the same parent as
      `i`. Parents and next siblings have smaller indices, which makes the
      parent walk and the sibling walk finite. */
  predicate LinkedAt(a: seq<Rec>, i: nat)
    requires i < |a|
  {
    var r := a[i];
    (r.parent.Some? ==> r.parent.value < i) &&
    (r.nextSibling.Some? ==> r.nextSibling.value < i && a[r.nextSibling.value].parent == r.parent) &&
    (r.firstChild.Some? ==> r.firstChild.value < |a| && a[r.firstChild.value].parent == Some(i))
  }

  predicate Linked(a: seq<Rec>) { forall i :: 0 <= i < |a| ==> LinkedAt(a, i) }

  /** The sibling chain starting at `o`, in link order. */
  function Chain(a: seq<Rec>, o: Option<nat>): (ch: seq<nat>)
    requires Linked(a) && In(a, o)
    ensures forall k :: 0 <= k < |ch| ==> ch[k] < |a|
    decreases if o.Some? then o.value + 1 else 0
  {
    if o.None? then []
    else
      assert LinkedAt(a, o.value);
      [o.value] + Chain(a, a[o.value].nextSibling)
  }

  /** The children of `p`: its child chain, from `firstChild` on. */
  function Children(a: seq<Rec>, p: nat): (ch: seq<nat>)
    requires Linked(a) && p < |a|
    ensures forall k :: 0 <= k < |ch| ==> ch[k] < |a|
  {
    assert LinkedAt(a, p);
    Chain(a, a[p].firstChild)
  }

  /** Every parent link names a node whose child chain holds the node. */
  predicate Registered(a: seq<Rec>)
    requires Linked(a)
  {
    forall j :: 0 <= j < |a| && a[j].parent.Some? ==>
      a[j].parent.value < |a| && j in Children(a, a[j].parent.value)
  }

  /** No two children of one node share a name. */
  predicate UniqueNames(a: seq<Rec>)
    requires Linked(a)
  {
    forall p :: 0 <= p < |a| ==> DistinctNames(a, Children(a, p))
  }

  predicate DistinctNames(a: seq<Rec>, ch: seq<nat>)
    requires forall k :: 0 <= k < |ch| ==> ch[k] < |a|
  {
    forall x, y :: 0 <= x < y < |ch| ==> a[ch[x]].entry.name != a[ch[y]].entry.name
  }

  /** Every node of a chain has the parent of the chain's head. */
  lemma {:induction false} ChainParent(a: seq<Rec>, o: Option<nat>)
    requires Linked(a) && In(a, o) && o.Some?
    ensures forall k :: 0 <= k < |Chain(a, o)| ==> a[Chain(a, o)[k]].parent == a[o.value].parent
    decreases o.value
  {
    var i := o.value;
    assert LinkedAt(a, i);
    var next := a[i].nextSibling;
    if next.Some? {
      ChainParent(a, next);
    }
  }

  /** Every node on the child chain of `p` has `p` as its parent. */
  lemma ChildrenParent(a: seq<Rec>, p: nat)
    requires Linked(a) && p < |a|
    ensures forall k :: 0 <= k < |Children(a, p)| ==> a[Children(a, p)[k]].parent == Some(p)
  {
    assert LinkedAt(a, p);
    if a[p].firstChild.Some? {
      ChainParent(a, a[p].firstChild);
    }
  }

  /** Parent links and child chains describe the same relation. */
  lemma ParentIffChild(a: seq<Rec>, p: nat, j: nat)
    requires Linked(a) && Registered(a) && p < |a| && j < |a|
    ensures j in Children(a, p) <==> a[j].parent == Some(p)
  {
    ChildrenParent(a, p);
  }

  /** `findChild`'s answer: the first node of `ch` named `name`. */
  function Find(a: seq<Rec>, ch: seq<nat>, name: string): (r: Option<nat>)
    requires forall k :: 0 <= k < |ch| ==> ch[k] < |a|
    ensures r.Some? ==> r.value in ch && r.value < |a| && a[r.value].entry.name == name
  {
    if ch == [] then None
    else if a[ch[0]].entry.name == name then Some(ch[0])
    else Find(a, ch[1..], name)
  }

  /** `Find` yields null exactly when no node of `ch` carries the name, and
      otherwise the node at the earliest position that does. */
  lemma {:induction false} FindFirst(a: seq<Rec>, ch: seq<nat>, name: string)
    requires forall k :: 0 <= k < |ch| ==> ch[k] < |a|
    ensures Find(a, ch, name).None? <==> forall k :: 0 <= k < |ch| ==> a[ch[k]].entry.name != name
    ensures Find(a, ch, name).Some? ==>
              exists k :: 0 <= k < |ch| && ch[k] == Find(a, ch, name).value && a[ch[k]].entry.name == name &&
                          forall j :: 0 <= j < k ==> a[ch[j]].entry.name != name
  {
    if ch != [] && a[ch[0]].entry.name != name {
      FindFirst(a, ch[1..], name);
      if Find(a, ch[1..], name).Some? {
        var k :| 0 <= k < |ch[1..]| && ch[1..][k] == Find(a, ch[1..], name).value &&
                 a[ch[1..][k]].entry.name == name && forall j :: 0 <= j < k ==> a[ch[1..][j]].entry.name != name;
        assert ch[k + 1] == Find(a, ch, name).value;
        assert forall j :: 0 <= j < k + 1 ==> a[ch[j]].entry.name != name by {
          forall j | 0 <= j < k + 1 ensures a[ch[j]].entry.name != name {
            if j > 0 { assert ch[j] == ch[1..][j - 1]; }
          }
        }
      } else {
        forall k | 0 <= k < |ch| ensures a[ch[k]].entry.name != name {
          if k > 0 { assert ch[k] == ch[1..][k - 1]; }
        }
      }
    }
  }

  /** Number of parent links from `i` up to a node without parent. */
  function Depth(a: seq<Rec>, i: nat): (d: nat)
    requires Linked(a) && i < |a|
    ensures d <= i
    decreases i
  {
    assert LinkedAt(a, i);
    if a[i].parent.None? then 0 else 1 + Depth(a, a[i].parent.value)
  }

  /** The node without parent reached by following parent links from `i`. */
  function Top(a: seq<Rec>, i: nat): (t: nat)
    requires Linked(a) && i < |a|
    ensures t <= i && a[t].parent.None?
    decreases i
  {
    assert LinkedAt(a, i);
    if a[i].parent.None? then i else Top(a, a[i].parent.value)
  }

  /** `printPath`: a node without parent renders as `/`, any other node as its
      parent's path followed by its name and `/`. */
  function PathOf(a: seq<Rec>, i: nat): (p: string)
    requires Linked(a) && i < |a|
    ensures |p| > 0 && p[0] == '/' && p[|p| - 1] == '/'
    ensures p == "/" <==> a[i].parent.None?
    ensures |p| >= Depth(a, i) + 1
    decreases i
  {
    assert LinkedAt(a, i);
    if a[i].parent.None? then "/" else PathOf(a, a[i].parent.value) + a[i].entry.name + "/"
  }

  /** The subtree hanging from `o` through `firstChild` and `nextSibling`,
      as a value. Children are one level deeper than their parent and next
      siblings have smaller indices at the same depth. */
  function ToTree(a: seq<Rec>, o: Option<nat>): (r: Tree)
    requires Linked(a) && In(a, o)
    decreases if o.Some? then |a| - Depth(a, o.value) else 0, if o.Some? then o.value + 1 else 0
  {
    if o.None? then Nil
    else
      var i := o.value;
      assert LinkedAt(a, i);
      var r := a[i];
      assert r.firstChild.Some? ==> Depth(a, r.firstChild.value) == Depth(a, i) + 1;
      assert r.nextSibling.Some? ==> Depth(a, r.nextSibling.value) == Depth(a, i);
      N(r.entry, ToTree(a, r.firstChild), ToTree(a, r.nextSibling))
  }

  /** Following only `nextSibling` links, a chain that starts in `[lo, hi)`
      stays there; two arenas that agree on those links there have the same
      chain from it. */
  lemma {:induction false} ChainFrame(a: seq<Rec>, b: seq<Rec>, lo: nat, hi: nat, o: Option<nat>)
    requires Linked(a) && Linked(b) && hi <= |a| && hi <= |b|
    requires forall j :: lo <= j < hi ==> b[j].nextSibling == a[j].nextSibling
    requires forall j :: lo <= j < hi && a[j].nextSibling.Some? ==> lo <= a[j].nextSibling.value
    requires o.None? || lo <= o.value < hi
    ensures Chain(b, o) == Chain(a, o)
    decreases if o.Some? then o.value + 1 else 0
  {
    if o.Some? {
      assert LinkedAt(a, o.value);
      ChainFrame(a, b, lo, hi, a[o.value].nextSibling);
    }
  }

  /** Two arenas that agree on every `parent` link below `n` agree on the
      depth, the top and the rendered path of every node below `n`, provided
      they also agree on names. */
  lemma {:induction false} UpwardFrame(a: seq<Rec>, b: seq<Rec>, n: nat, i: nat)
    requires Linked(a) && Linked(b) && n <= |a| && n <= |b| && i < n
    requires forall j :: 0 <= j < n ==> b[j].parent == a[j].parent && b[j].entry == a[j].entry
    ensures Depth(b, i) == Depth(a, i) && Top(b, i) == Top(a, i) && PathOf(b, i) == PathOf(a, i)
    decreases i
  {
    assert LinkedAt(a, i);
    if a[i].parent.Some? {
      UpwardFrame(a, b, n, a[i].parent.value);
    }
  }

  /** The arena after `mkdir` or `touch` under `p`: a new node at index `|a|`
      whose parent is `p` and whose next sibling is `p`'s old first child,
      and `p`'s first child set to the new node. */
  function Prepend(a: seq<Rec>, p: nat, e: Entry): (b: seq<Rec>)
    requires p < |a|
    ensures |b| == |a| + 1
    ensures b[|a|] == Rec(e, Some(p), None, a[p].firstChild)
    ensures b[p] == a[p].(firstChild := Some(|a|))
    ensures forall j :: 0 <= j < |a| && j != p ==> b[j] == a[j]
  {
    (a + [Rec(e, Some(p), None, a[p].firstChild)])[p := a[p].(firstChild := Some(|a|))]
  }

  /** Prepending keeps the link discipline, puts the new node at the front of
      `p`'s child chain, changes no other child chain, and leaves the depth,
      top and path of every old node as they were. */
  lemma PrependLinked(a: seq<Rec>, p: nat, e: Entry)
    requires Linked(a) && p < |a|
    ensures var b := Prepend(a, p, e);
            Linked(b) &&
            Children(b, p) == [|a|] + Children(a, p) &&
            Children(b, |a|) == [] &&
            (forall q :: 0 <= q < |a| && q != p ==> Children(b, q) == Children(a, q)) &&
            (forall i :: 0 <= i < |a| ==> Top(b, i) == Top(a, i) && PathOf(b, i) == PathOf(a, i))
  {
    PrependLinks(a, p, e);
    PrependChildren(a, p, e);
    PrependUpward(a, p, e);
  }

  lemma PrependLinks(a: seq<Rec>, p: nat, e: Entry)
    requires Linked(a) && p < |a|
    ensures Linked(Prepend(a, p, e))
  {
    var b := Prepend(a, p, e);
    assert LinkedAt(a, p);
    forall i | 0 <= i < |b| ensures LinkedAt(b, i) {
      if i < |a| { assert LinkedAt(a, i); }
    }
  }

  lemma PrependChildren(a: seq<Rec>, p: nat, e: Entry)
    requires Linked(a) && p < |a|
    ensures Linked(Prepend(a, p, e))
    ensures var b := Prepend(a, p, e);
            Children(b, p) == [|a|] + Children(a, p) &&
            Children(b, |a|) == [] &&
            (forall q :: 0 <= q < |a| && q != p ==> Children(b, q) == Children(a, q))
  {
    var b := Prepend(a, p, e);
    var n := |a|;
    PrependLinks(a, p, e);
    assert LinkedAt(a, p);
    forall q | 0 <= q < n ensures Children(b, q) == (if q == p then [n] + Children(a, p) else Children(a, q)) {
      if q == p {
        ChainFrame(a, b, 0, n, a[p].firstChild);
        assert Children(b, p) == [n] + Chain(b, b[n].nextSibling);
      } else {
        assert LinkedAt(a, q);
        ChainFrame(a, b, 0, n, a[q].firstChild);
      }
    }
  }

  lemma PrependUpward(a: seq<Rec>, p: nat, e: Entry)
    requires Linked(a) && p < |a|
    ensures Linked(Prepend(a, p, e))
    ensures var b := Prepend(a, p, e);
            forall i :: 0 <= i < |a| ==> Top(b, i) == Top(a, i) && PathOf(b, i) == PathOf(a, i)
  {
    var b := Prepend(a, p, e);
    PrependLinks(a, p, e);
    forall i | 0 <= i < |a| ensures Top(b, i) == Top(a, i) && PathOf(b, i) == PathOf(a, i) {
      UpwardFrame(a, b, |a|, i);
    }
  }

  /** Prepending keeps every parent link registered in its parent's chain. */
  lemma PrependRegistered(a: seq<Rec>, p: nat, e: Entry)
    requires Linked(a) && Registered(a) && p < |a|
    ensures Linked(Prepend(a, p, e)) && Registered(Prepend(a, p, e))
  {
    var b := Prepend(a, p, e);
    PrependLinked(a, p, e);
    forall j | 0 <= j < |b| && b[j].parent.Some?
      ensures b[j].parent.value < |b| && j in Children(b, b[j].parent.value)
    {
      if j < |a| {
        var q := a[j].parent.value;
        assert j in Children(a, q);
      }
    }
  }

  /** Prepending a name no child of `p` carries keeps sibling names unique. */
  lemma PrependUnique(a: seq<Rec>, p: nat, e: Entry)
    requires Linked(a) && UniqueNames(a) && p < |a|
    requires Find(a, Children(a, p), e.name).None?
    ensures Linked(Prepend(a, p, e)) && UniqueNames(Prepend(a, p, e))
  {
    var b := Prepend(a, p, e);
    PrependLinked(a, p, e);
    assert forall j :: 0 <= j < |a| ==> b[j].entry == a[j].entry;
    forall q | 0 <= q < |b| ensures DistinctNames(b, Children(b, q)) {
      if q == p {
        FindFirst(a, Children(a, p), e.name);
        assert DistinctNames(a, Children(a, p));
        DistinctCons(a, b, Children(a, p), e.name);
      } else if q < |a| {
        assert DistinctNames(a, Children(a, q));
        DistinctSame(a, b, Children(a, q));
      }
    }
  }

  /** Distinct names stay distinct where the entries are unchanged. */
  lemma DistinctSame(a: seq<Rec>, b: seq<Rec>, ch: seq<nat>)
    requires |a| <= |b| && forall j :: 0 <= j < |a| ==> b[j].entry == a[j].entry
    requires forall k :: 0 <= k < |ch| ==> ch[k] < |a|
    requires DistinctNames(a, ch)
    ensures DistinctNames(b, ch)
  {
  }

  /** Putting a node whose name is new in front of a chain with distinct
      names gives a chain with distinct names. */
  lemma DistinctCons(a: seq<Rec>, b: seq<Rec>, ch: seq<nat>, name: string)
    requires |b| == |a| + 1 && b[|a|].entry.name == name
    requires forall j :: 0 <= j < |a| ==> b[j].entry == a[j].entry
    requires forall k :: 0 <= k < |ch| ==> ch[k] < |a|
    requires forall k :: 0 <= k < |ch| ==> a[ch[k]].entry.name != name
    requires DistinctNames(a, ch)
    ensures DistinctNames(b, [|a|] + ch)
  {
    var ch' := [|a|] + ch;
    forall x, y | 0 <= x < y < |ch'| ensures b[ch'[x]].entry.name != b[ch'[y]].entry.name {
      assert ch'[y] == ch[y - 1];
      if x > 0 {
        assert ch'[x] == ch[x - 1];
      }
    }
  }

  /** Two arenas that agree on the entries and the downward links of the
      nodes in `[lo, hi)`, where those links stay inside `[lo, hi)`, give the
      same subtree value from any node there. */
  lemma {:induction false} ToTreeFrame(a: seq<Rec>, b: seq<Rec>, lo: nat, hi: nat, o: Option<nat>)
    requires Linked(a) && Linked(b) && hi <= |a| && hi <= |b|
    requires forall j :: lo <= j < hi ==>
               b[j].entry == a[j].entry && b[j].firstChild == a[j].firstChild && b[j].nextSibling == a[j].nextSibling
    requires forall j :: lo <= j < hi ==> Inside(a[j].firstChild, lo, hi) && Inside(a[j].nextSibling, lo, hi)
    requires Inside(o, lo, hi)
    ensures ToTree(b, o) == ToTree(a, o)
    decreases if o.Some? then |a| - Depth(a, o.value) else 0, if o.Some? then o.value + 1 else 0
  {
    if o.Some? {
      var i := o.value;
      assert LinkedAt(a, i);
      var r := a[i];
      assert r.firstChild.Some? ==> Depth(a, r.firstChild.value) == Depth(a, i) + 1;
      assert r.nextSibling.Some? ==> Depth(a, r.nextSibling.value) == Depth(a, i);
      ToTreeFrame(a, b, lo, hi, r.firstChild);
      ToTreeFrame(a, b, lo, hi, r.nextSibling);
    }
  }

  /** `o` is null or an index in `[lo, hi)`. */
  predicate Inside(o: Option<nat>, lo: nat, hi: nat) { o.None? || lo <= o.value < hi }

  /** `deserializeNode`'s construction of nodes, placed in the arena after
      the nodes of `a`: the node gets the parent passed in and so does its
      sibling chain, while its child chain gets the node itself as parent.
      The result is the extended arena and the index of the head (null for
      an empty tree). The sibling chain is allocated first, so that next
      siblings keep smaller indices. */
  function Place(t: Tree, parent: Option<nat>, a: seq<Rec>): (r: (seq<Rec>, Option<nat>))
    requires In(a, parent)
    ensures |r.0| == |a| + Size(t) && r.0[..|a|] == a
    ensures r.1.Some? <==> t.N?
    ensures r.1.Some? ==> |a| <= r.1.value < |r.0| && r.0[r.1.value].parent == parent
    decreases t
  {
    match t
    case Nil => (a, None)
    case N(e, child, sib) =>
      var s := Place(sib, parent, a);
      var i := |s.0|;
      var c := Place(child, Some(i), s.0 + [Rec(e, parent, None, s.1)]);
      assert c.0[..i] == s.0 by { assert c.0[..i] == c.0[..i + 1][..i]; }
      (c.0[i := c.0[i].(firstChild := c.1)], Some(i))
  }

  /** What `Place` builds keeps the link discipline. */
  lemma {:induction false} PlaceLinked(t: Tree, parent: Option<nat>, a: seq<Rec>)
    requires Linked(a) && In(a, parent)
    ensures Linked(Place(t, parent, a).0)
    decreases t
  {
    match t
    case Nil =>
    case N(e, child, sib) =>
      var s := Place(sib, parent, a);
      PlaceLinked(sib, parent, a);
      var i := |s.0|;
      var a1 := s.0 + [Rec(e, parent, None, s.1)];
      AppendLinked(s.0, Rec(e, parent, None, s.1));
      var c := Place(child, Some(i), a1);
      PlaceLinked(child, Some(i), a1);
      assert c.0[i] == a1[i] by { assert c.0[..i + 1][i] == c.0[i]; }
      SetFirstChildLinked(c.0, i, c.1);
  }

  /** The nodes of `b` from `lo` on link only among themselves, and each has
      either `parent` or one of them as parent. */
  predicate ClosedFrom(b: seq<Rec>, lo: nat, parent: Option<nat>)
  {
    forall j :: lo <= j < |b| ==>
      (b[j].parent == parent || (b[j].parent.Some? && lo <= b[j].parent.value)) &&
      Inside(b[j].firstChild, lo, |b|) && Inside(b[j].nextSibling, lo, |b|)
  }

  lemma {:induction false} PlaceClosed(t: Tree, parent: Option<nat>, a: seq<Rec>)
    requires In(a, parent)
    ensures ClosedFrom(Place(t, parent, a).0, |a|, parent)
    decreases t
  {
    match t
    case Nil =>
    case N(e, child, sib) =>
      var s := Place(sib, parent, a);
      PlaceClosed(sib, parent, a);
      var i := |s.0|;
      var a1 := s.0 + [Rec(e, parent, None, s.1)];
      var c := Place(child, Some(i), a1);
      PlaceClosed(child, Some(i), a1);
      var b := c.0[i := c.0[i].(firstChild := c.1)];
      assert Place(t, parent, a).0 == b;
      forall j | |a| <= j < |b|
        ensures b[j].parent == parent || (b[j].parent.Some? && |a| <= b[j].parent.value)
        ensures Inside(b[j].firstChild, |a|, |b|) && Inside(b[j].nextSibling, |a|, |b|)
      {
        if j < i {
          assert b[j] == s.0[j] by { assert c.0[..i + 1][j] == c.0[j]; }
        } else if j == i {
          assert c.0[..i + 1][i] == c.0[i];
        } else {
          assert b[j] == c.0[j];
        }
      }
  }

  /** Every node of `b` from `lo` on whose parent is `parent` is on the chain
      from `h`, and every one whose parent is also from `lo` on is on that
      parent's child chain. */
  predicate RegisteredFrom(b: seq<Rec>, lo: nat, parent: Option<nat>, h: Option<nat>)
    requires Linked(b) && In(b, h)
  {
    forall j :: lo <= j < |b| ==>
      (b[j].parent == parent ==> j in Chain(b, h)) &&
      (b[j].parent.Some? && lo <= b[j].parent.value < |b| ==> j in Children(b, b[j].parent.value))
  }

  lemma {:induction false} PlaceRegistered(t: Tree, parent: Option<nat>, a: seq<Rec>)
    requires Linked(a) && In(a, parent)
    ensures Linked(Place(t, parent, a).0)
    ensures RegisteredFrom(Place(t, parent, a).0, |a|, parent, Place(t, parent, a).1)
    decreases t
  {
    PlaceLinked(t, parent, a);
    match t
    case Nil =>
    case N(e, child, sib) =>
      var s := Place(sib, parent, a);
      PlaceRegistered(sib, parent, a);
      PlaceClosed(sib, parent, a);
      var i := |s.0|;
      var a1 := s.0 + [Rec(e, parent, None, s.1)];
      AppendLinked(s.0, Rec(e, parent, None, s.1));
      var c := Place(child, Some(i), a1);
      PlaceRegistered(child, Some(i), a1);
      PlaceClosed(child, Some(i), a1);
      PlaceNode(e, child, sib, parent, a, s, c);
      JoinParts(Place(t, parent, a).0, |a|, parent, s, c);
  }

  /** The registration of the two parts `Place` builds for a node, sibling
      part `s` below index `i` and child part `c` above it, makes up the
      registration of the whole. */
  lemma JoinParts(b: seq<Rec>, lo: nat, parent: Option<nat>, s: (seq<Rec>, Option<nat>), c: (seq<Rec>, Option<nat>))
    requires Linked(s.0) && Linked(c.0) && Linked(b)
    requires lo <= |s.0| < |c.0| == |b| && In(s.0, s.1) && In(c.0, c.1)
    requires parent.None? || parent.value < lo
    requires Inside(s.1, lo, |s.0|) && Inside(c.1, |s.0| + 1, |c.0|)
    requires forall j :: 0 <= j < |s.0| ==> b[j] == s.0[j]
    requires b[|s.0|] == Rec(b[|s.0|].entry, parent, c.1, s.1)
    requires forall j :: |s.0| < j < |b| ==> b[j] == c.0[j]
    requires ClosedFrom(s.0, lo, parent) && RegisteredFrom(s.0, lo, parent, s.1)
    requires ClosedFrom(c.0, |s.0| + 1, Some(|s.0|)) && RegisteredFrom(c.0, |s.0| + 1, Some(|s.0|), c.1)
    ensures RegisteredFrom(b, lo, parent, Some(|s.0|))
  {
    LowerRegistered(s.0, b, lo, parent, s.1);
    UpperRegistered(c.0, b, |s.0|, c.1);
    RegisteredJoin(b, lo, parent, |s.0|, s.1);
  }

  /** The registration of both parts and of the node between them make up
      the registration of what `Place` builds. */
  lemma RegisteredJoin(b: seq<Rec>, lo: nat, parent: Option<nat>, i: nat, sh: Option<nat>)
    requires Linked(b) && lo <= i < |b| && In(b, sh)
    requires parent.None? || parent.value < lo
    requires b[i].parent == parent && b[i].nextSibling == sh
    requires forall j :: lo <= j < i ==>
               (b[j].parent == parent ==> j in Chain(b, sh)) &&
               (b[j].parent.Some? && lo <= b[j].parent.value < |b| ==> j in Children(b, b[j].parent.value))
    requires forall j :: i < j < |b| ==>
               b[j].parent.Some? && i <= b[j].parent.value < |b| && j in Children(b, b[j].parent.value)
    ensures RegisteredFrom(b, lo, parent, Some(i))
  {
    assert LinkedAt(b, i);
    assert Chain(b, Some(i)) == [i] + Chain(b, sh);
  }

  /** How `Place` lays out a node: its sibling part below it, the node at
      index `i`, its child part above it. */
  lemma PlaceNode(e: Entry, child: Tree, sib: Tree, parent: Option<nat>, a: seq<Rec>,
                  s: (seq<Rec>, Option<nat>), c: (seq<Rec>, Option<nat>))
    requires In(a, parent) && s == Place(sib, parent, a)
    requires c == Place(child, Some(|s.0|), s.0 + [Rec(e, parent, None, s.1)])
    ensures Place(N(e, child, sib), parent, a).1 == Some(|s.0|)
    ensures var b := Place(N(e, child, sib), parent, a).0;
            |b| == |c.0| &&
            (forall j :: 0 <= j < |s.0| ==> b[j] == s.0[j]) &&
            b[|s.0|] == Rec(e, parent, c.1, s.1) &&
            (forall j :: |s.0| < j < |b| ==> b[j] == c.0[j])
  {
    var i := |s.0|;
    var b := Place(N(e, child, sib), parent, a).0;
    assert b == c.0[i := c.0[i].(firstChild := c.1)];
    forall j | 0 <= j <= i ensures c.0[j] == (s.0 + [Rec(e, parent, None, s.1)])[j] {
      assert c.0[..i + 1][j] == c.0[j];
    }
  }

  /** A tree placed in an empty arena as a whole new tree (parent null)
      gives a well-formed arena whose head has no parent and reads back as
      the tree; an empty tree gives an empty arena. */
  lemma PlaceRoot(t: Tree)
    ensures var (b, h) := Place(t, None, []);
            Linked(b) && Registered(b) && In(b, h) && ToTree(b, h) == t &&
            (h.None? <==> t.Nil?) && (h.None? ==> b == []) &&
            (h.Some? ==> b[h.value].parent.None? && Top(b, h.value) == h.value)
  {
    var (b, h) := Place(t, None, []);
    PlaceToTree(t, None, []);
    PlaceRegistered(t, None, []);
    forall j | 0 <= j < |b| && b[j].parent.Some?
      ensures b[j].parent.value < |b| && j in Children(b, b[j].parent.value)
    {
      assert LinkedAt(b, j);
    }
    if h.Some? {
      assert LinkedAt(b, h.value);
    }
  }

  /** The registration of `Place`'s sibling part survives the later updates,
      which leave its nodes as they are. */
  lemma LowerRegistered(s: seq<Rec>, b: seq<Rec>, lo: nat, parent: Option<nat>, h: Option<nat>)
    requires Linked(s) && Linked(b) && |s| <= |b| && In(s, h) && Inside(h, lo, |s|)
    requires forall j :: 0 <= j < |s| ==> b[j] == s[j]
    requires ClosedFrom(s, lo, parent) && RegisteredFrom(s, lo, parent, h)
    ensures Chain(b, h) == Chain(s, h)
    ensures forall j :: lo <= j < |s| ==>
              (b[j].parent == parent ==> j in Chain(b, h)) &&
              (b[j].parent.Some? && lo <= b[j].parent.value < |b| ==> j in Children(b, b[j].parent.value))
  {
    ChainFrame(s, b, lo, |s|, h);
    forall j | lo <= j < |s|
      ensures b[j].parent.Some? && lo <= b[j].parent.value < |b| ==> j in Children(b, b[j].parent.value)
    {
      if b[j].parent.Some? && lo <= b[j].parent.value < |b| {
        var q := b[j].parent.value;
        assert LinkedAt(s, j) && LinkedAt(s, q);
        ChainFrame(s, b, lo, |s|, s[q].firstChild);
      }
    }
  }

  /** The registration of `Place`'s child part survives setting the first
      child of its parent node `i` to the part's head `h`. */
  lemma UpperRegistered(c: seq<Rec>, b: seq<Rec>, i: nat, h: Option<nat>)
    requires Linked(c) && Linked(b) && |b| == |c| && i < |c| && In(c, h) && Inside(h, i + 1, |c|)
    requires forall j :: i < j < |c| ==> b[j] == c[j]
    requires b[i].firstChild == h
    requires ClosedFrom(c, i + 1, Some(i)) && RegisteredFrom(c, i + 1, Some(i), h)
    ensures forall j :: i < j < |b| ==>
              b[j].parent.Some? && i <= b[j].parent.value < |b| && j in Children(b, b[j].parent.value)
  {
    ChainFrame(c, b, i + 1, |c|, h);
    forall j | i < j < |b|
      ensures b[j].parent.Some? && i <= b[j].parent.value < |b| && j in Children(b, b[j].parent.value)
    {
      assert LinkedAt(c, j);
      var q := c[j].parent.value;
      if q > i {
        assert LinkedAt(c, q);
        ChainFrame(c, b, i + 1, |c|, c[q].firstChild);
      }
    }
  }

  /** `Place` rebuilds the tree it was given: read back from the head it
      returns, the arena holds exactly `t`. */
  lemma {:induction false} PlaceToTree(t: Tree, parent: Option<nat>, a: seq<Rec>)
    requires Linked(a) && In(a, parent)
    ensures Linked(Place(t, parent, a).0)
    ensures ToTree(Place(t, parent, a).0, Place(t, parent, a).1) == t
    decreases t
  {
    PlaceLinked(t, parent, a);
    match t
    case Nil =>
    case N(e, child, sib) =>
      var s := Place(sib, parent, a);
      PlaceToTree(sib, parent, a);
      PlaceClosed(sib, parent, a);
      var i := |s.0|;
      var a1 := s.0 + [Rec(e, parent, None, s.1)];
      AppendLinked(s.0, Rec(e, parent, None, s.1));
      var c := Place(child, Some(i), a1);
      PlaceToTree(child, Some(i), a1);
      PlaceClosed(child, Some(i), a1);
      var b := Place(t, parent, a).0;
      PlaceNode(e, child, sib, parent, a, s, c);
      ToTreeFrame(s.0, b, |a|, i, s.1);
      ToTreeFrame(c.0, b, i + 1, |c.0|, c.1);
  }

  /** Appending a node whose parent and next sibling are old nodes that agree
      on the parent keeps the link discipline. */
  lemma AppendLinked(a: seq<Rec>, r: Rec)
    requires Linked(a) && r.firstChild.None?
    requires r.parent.Some? ==> r.parent.value < |a|
    requires r.nextSibling.Some? ==> r.nextSibling.value < |a| && a[r.nextSibling.value].parent == r.parent
    ensures Linked(a + [r])
  {
    var b := a + [r];
    forall j | 0 <= j < |b| ensures LinkedAt(b, j) {
      if j < |a| { assert LinkedAt(a, j); }
    }
  }

  /** Setting the first child of a childless node `i` to a node that already
      names `i` as parent keeps the link discipline. */
  lemma SetFirstChildLinked(a: seq<Rec>, i: nat, c: Option<nat>)
    requires Linked(a) && i < |a| && a[i].firstChild.None?
    requires c.Some? ==> c.value < |a| && a[c.value].parent == Some(i)
    ensures Linked(a[i := a[i].(firstChild := c)])
  {
    var b := a[i := a[i].(firstChild := c)];
    forall j | 0 <= j < |b| ensures LinkedAt(b, j) {
      assert LinkedAt(a, j);
    }
  }
}
