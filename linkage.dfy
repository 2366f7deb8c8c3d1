/** The five linkage primitives of `tree_node` in `include/tree.h`, each as
    the heap it leaves behind, with the proof that it keeps the heap well
    formed against the child lists it is meant to produce.  Every primitive
    rewrites the child list of one node `p` and touches no other list; the
    two general lemmas `AttachWF` (a detached node joins the list) and
    `DetachWF` (a node leaves it) carry the common part of the proofs. */
module Linkage {
  import opened TreeLinks

  /** The values held by the live nodes. */
  ghost function Values<T>(h: Heap<T>): map<NodeId, T> {
    map n | n in h :: h[n].value
  }

  /** `x` keeps its parent and sibling links. */
  ghost predicate SameSiblingLinks<T>(h: Heap<T>, h': Heap<T>, x: NodeId) {
    && x in h && x in h'
    && h'[x].parent == h[x].parent
    && h'[x].prevSibling == h[x].prevSibling
    && h'[x].nextSibling == h[x].nextSibling
  }

  /** `n` keeps both ends of its child list. */
  ghost predicate SameEnds<T>(h: Heap<T>, h': Heap<T>, n: NodeId) {
    && n in h && n in h'
    && h'[n].firstChild == h[n].firstChild
    && h'[n].lastChild == h[n].lastChild
  }

  /** Only the child list of `p` changed: every other node keeps its ends,
      and every node other than `c` that is not a child of `p` keeps its
      parent and siblings. */
  ghost predicate FrameKept<T>(h: Heap<T>, h': Heap<T>, p: NodeId, c: NodeId) {
    && h'.Keys == h.Keys
    && (forall n {:trigger SameEnds(h, h', n)} | n in h && n != p :: SameEnds(h, h', n))
    && (forall x {:trigger SameSiblingLinks(h, h', x)} | x in h && x != c && h[x].parent != To(p) ::
          SameSiblingLinks(h, h', x))
  }

  /** Everything a well-formed heap demands of one node. */
  ghost predicate NodeOk<T>(h: Heap<T>, sh: Shape, n: NodeId) {
    && n in sh.kids && n in sh.rank
    && sh.rank[n] < sh.bound
    && ChildList(h, n, sh.kids[n])
    && ParentLink(h, sh, n)
  }

  lemma {:induction false} WFIntro<T>(h: Heap<T>, sh: Shape)
    requires h.Keys == sh.kids.Keys && h.Keys == sh.rank.Keys
    requires forall n | n in h :: NodeOk(h, sh, n)
    ensures WF(h, sh)
  {
    forall n | n in h
      ensures ChildList(h, n, sh.kids[n]) && ParentLink(h, sh, n)
    {
      assert NodeOk(h, sh, n);
    }
  }

  /** A child list survives when the ends and the members' links do. */
  lemma {:induction false} ListKept<T>(h: Heap<T>, h': Heap<T>, n: NodeId, s: seq<NodeId>)
    requires ChildList(h, n, s) && n in h'
    requires h'[n].firstChild == h[n].firstChild && h'[n].lastChild == h[n].lastChild
    requires forall i | 0 <= i < |s| :: SameSiblingLinks(h, h', s[i])
    ensures ChildList(h', n, s)
  {
  }

  lemma {:induction false} LiftKeys<T>(h: Heap<T>, sh: Shape, kids: map<NodeId, seq<NodeId>>, c: NodeId)
    requires WF(h, sh)
    ensures Lift(h, sh, kids, c).rank.Keys == h.Keys
  {
  }

  /** Ranks after `Lift`: all below the new bound, and still growing from a
      parent to its child everywhere except at the node being hung. */
  lemma {:induction false} LiftRankAt<T>(h: Heap<T>, sh: Shape, kids: map<NodeId, seq<NodeId>>, c: NodeId, n: NodeId)
    requires WF(h, sh) && c in h && h[c].parent == Null && n in h
    ensures n in Lift(h, sh, kids, c).rank
    ensures Lift(h, sh, kids, c).rank[n] < Lift(h, sh, kids, c).bound
    ensures h[n].parent.To? && n != c ==>
              h[n].parent.id in h && Lift(h, sh, kids, c).rank[h[n].parent.id] < Lift(h, sh, kids, c).rank[n]
  {
    assert ParentLink(h, sh, n);
    if h[n].parent.To? && n != c {
      var q := h[n].parent.id;
      assert ParentLink(h, sh, q);
      assert Anc(h, sh, n, c) == Anc(h, sh, q, c);
    }
  }

  /** The lists of nodes other than `p` are untouched. */
  lemma {:induction false} OtherListKept<T>(h: Heap<T>, sh: Shape, h': Heap<T>, p: NodeId, c: NodeId, n: NodeId)
    requires WF(h, sh) && FrameKept(h, h', p, c) && c in h && n in h && n != p
    requires h[c].parent == Null || h[c].parent == To(p)
    ensures ChildList(h', n, sh.kids[n])
  {
    var t := sh.kids[n];
    assert ChildList(h, n, t);
    assert SameEnds(h, h', n);
    forall i | 0 <= i < |t|
      ensures SameSiblingLinks(h, h', t[i])
    {
      assert h[t[i]].parent == To(n);
    }
    ListKept(h, h', n, t);
  }

  /** A member of the new list of `p` other than `c` was a child of `p`. */
  lemma {:induction false} MemberWasChild<T>(h: Heap<T>, h': Heap<T>, p: NodeId, c: NodeId, s': seq<NodeId>, x: NodeId)
    requires FrameKept(h, h', p, c) && ChildList(h', p, s') && x in s' && x != c && x in h
    ensures h[x].parent == To(p) && h'[x].parent == To(p)
  {
    var j :| 0 <= j < |s'| && s'[j] == x;
    assert h'[s'[j]].parent == To(p);
    assert SameSiblingLinks(h, h', x) ==> h[x].parent == To(p);
  }

  /** The parent link of one node after the detached `c` has joined the
      children of `p`. */
  lemma {:induction false} AttachParentAt<T>(h: Heap<T>, sh: Shape, h': Heap<T>, p: NodeId, c: NodeId,
                                              s': seq<NodeId>, n: NodeId)
    requires WF(h, sh) && p in h && c in h && h[c].parent == Null && !Anc(h, sh, p, c)
    requires FrameKept(h, h', p, c) && ChildList(h', p, s') && c in s'
    requires forall x | x in sh.kids[p] && x !in s' :: x in h' && Detached(h', x)
    requires n in h
    ensures ParentLink(h', Lift(h, sh, sh.kids[p := s'], c), n)
  {
    var kids := sh.kids[p := s'];
    var sh' := Lift(h, sh, kids, c);
    LiftRankAt(h, sh, kids, c, n);
    LiftRankAt(h, sh, kids, c, p);
    LiftKeys(h, sh, kids, c);
    assert ParentLink(h, sh, n);
    if n == c {
      var j :| 0 <= j < |s'| && s'[j] == c;
      assert h'[s'[j]].parent == To(p);
      assert Anc(h, sh, c, c);
    } else if h[n].parent != To(p) {
      assert SameSiblingLinks(h, h', n);
    } else if n in s' {
      MemberWasChild(h, h', p, c, s', n);
    } else {
      assert n in sh.kids[p];
    }
  }

  /** General step: `c`, detached and not above `p`, joins the children of
      `p`, whose list becomes `s'`; the old children missing from `s'` are
      left detached, and no other list changes. */
  lemma {:induction false} AttachWF<T>(h: Heap<T>, sh: Shape, h': Heap<T>, p: NodeId, c: NodeId, s': seq<NodeId>)
    requires WF(h, sh) && p in h && c in h && h[c].parent == Null && !Anc(h, sh, p, c)
    requires FrameKept(h, h', p, c) && ChildList(h', p, s') && c in s'
    requires forall x | x in sh.kids[p] && x !in s' :: x in h' && Detached(h', x)
    ensures WF(h', Lift(h, sh, sh.kids[p := s'], c))
  {
    var kids := sh.kids[p := s'];
    var sh' := Lift(h, sh, kids, c);
    LiftKeys(h, sh, kids, c);
    forall n | n in h'
      ensures NodeOk(h', sh', n)
    {
      AttachNodeOk(h, sh, h', p, c, s', n);
    }
    WFIntro(h', sh');
  }

  lemma {:induction false} AttachNodeOk<T>(h: Heap<T>, sh: Shape, h': Heap<T>, p: NodeId, c: NodeId,
                                            s': seq<NodeId>, n: NodeId)
    requires WF(h, sh) && p in h && c in h && h[c].parent == Null && !Anc(h, sh, p, c)
    requires FrameKept(h, h', p, c) && ChildList(h', p, s') && c in s'
    requires forall x | x in sh.kids[p] && x !in s' :: x in h' && Detached(h', x)
    requires n in h
    ensures NodeOk(h', Lift(h, sh, sh.kids[p := s'], c), n)
  {
    var kids := sh.kids[p := s'];
    if n != p {
      OtherListKept(h, sh, h', p, c, n);
    }
    AttachParentAt(h, sh, h', p, c, s', n);
    LiftRankAt(h, sh, kids, c, n);
  }

  /** The parent link of one node after `c` has left the children of `p`. */
  lemma {:induction false} DetachParentAt<T>(h: Heap<T>, sh: Shape, h': Heap<T>, p: NodeId, c: NodeId,
                                              s': seq<NodeId>, n: NodeId)
    requires WF(h, sh) && p in h && c in h && h[c].parent == To(p)
    requires FrameKept(h, h', p, c) && ChildList(h', p, s') && c !in s'
    requires forall x | x in sh.kids[p] && x !in s' :: x in h' && Detached(h', x)
    requires n in h
    ensures ParentLink(h', Shape(sh.kids[p := s'], sh.rank, sh.bound), n)
  {
    assert ParentLink(h, sh, n);
    if h[n].parent != To(p) {
      assert SameSiblingLinks(h, h', n);
    } else if n in s' {
      MemberWasChild(h, h', p, c, s', n);
    } else {
      assert n in sh.kids[p];
    }
  }

  /** General step: `c` leaves the children of `p`, whose list becomes `s'`;
      the old children missing from `s'` are left detached, and no other
      list changes.  Ranks are kept. */
  lemma {:induction false} DetachWF<T>(h: Heap<T>, sh: Shape, h': Heap<T>, p: NodeId, c: NodeId, s': seq<NodeId>)
    requires WF(h, sh) && p in h && c in h && h[c].parent == To(p)
    requires FrameKept(h, h', p, c) && ChildList(h', p, s') && c !in s'
    requires forall x | x in sh.kids[p] && x !in s' :: x in h' && Detached(h', x)
    ensures WF(h', Shape(sh.kids[p := s'], sh.rank, sh.bound))
  {
    var sh' := Shape(sh.kids[p := s'], sh.rank, sh.bound);
    forall n | n in h'
      ensures NodeOk(h', sh', n)
    {
      DetachNodeOk(h, sh, h', p, c, s', n);
    }
    WFIntro(h', sh');
  }

  lemma {:induction false} DetachNodeOk<T>(h: Heap<T>, sh: Shape, h': Heap<T>, p: NodeId, c: NodeId,
                                            s': seq<NodeId>, n: NodeId)
    requires WF(h, sh) && p in h && c in h && h[c].parent == To(p)
    requires FrameKept(h, h', p, c) && ChildList(h', p, s') && c !in s'
    requires forall x | x in sh.kids[p] && x !in s' :: x in h' && Detached(h', x)
    requires n in h
    ensures NodeOk(h', Shape(sh.kids[p := s'], sh.rank, sh.bound), n)
  {
    assert ParentLink(h, sh, n);
    if n != p {
      OtherListKept(h, sh, h', p, c, n);
    }
    DetachParentAt(h, sh, h', p, c, s', n);
  }

  // push_back_child

  /** The heap after `p->push_back_child(c)`. */
  function PushBackHeap<T>(h: Heap<T>, p: NodeId, c: NodeId): Heap<T>
    requires p in h && c in h
  {
    var h1 := if h[p].firstChild == Null then h[p := h[p].(firstChild := To(c))] else h;
    var l := h1[p].lastChild;
    var h2 := if l.To? && l.id in h1 then h1[l.id := h1[l.id].(nextSibling := To(c))] else h1;
    var h3 := if l.To? && l.id in h1 then h2[c := h2[c].(prevSibling := l)] else h2;
    var h4 := h3[p := h3[p].(lastChild := To(c))];
    h4[c := h4[c].(parent := To(p))]
  }

  /** Facts about `p`, `c` and the old last child that the steps below use. */
  lemma {:induction false} PushBackSetup<T>(h: Heap<T>, sh: Shape, p: NodeId, c: NodeId)
    requires WF(h, sh) && p in h && c in h && Detached(h, c) && p != c
    ensures h[p].lastChild.To? ==> h[p].lastChild.id in h
    ensures c !in sh.kids[p]
    ensures h[p].lastChild.To? ==> |sh.kids[p]| > 0 && h[p].lastChild.id == sh.kids[p][|sh.kids[p]| - 1]
    ensures h[p].lastChild.To? ==> h[h[p].lastChild.id].parent == To(p) && h[p].lastChild.id != p && h[p].lastChild.id != c
    ensures h[p].lastChild.To? ==> h[h[p].lastChild.id].nextSibling == Null
    ensures h[p].lastChild == Null ==> sh.kids[p] == [] && h[p].firstChild == Null
  {
    var s := sh.kids[p];
    assert ChildList(h, p, s);
    assert ParentLink(h, sh, c);
    if s != [] {
      assert ParentLink(h, sh, s[|s| - 1]);
    }
  }

  lemma {:induction false} PushBackOwnList<T>(h: Heap<T>, sh: Shape, p: NodeId, c: NodeId)
    requires WF(h, sh) && p in h && c in h && Detached(h, c) && p != c
    requires h[p].lastChild.To? ==> h[p].lastChild.id in h
    ensures ChildList(PushBackHeap(h, p, c), p, sh.kids[p] + [c])
  {
    var h' := PushBackHeap(h, p, c);
    var s := sh.kids[p];
    var s' := s + [c];
    PushBackSetup(h, sh, p, c);
    assert ChildList(h, p, s);
    forall i | 0 <= i < |s'|
      ensures s'[i] in h' && h'[s'[i]].parent == To(p)
      ensures h'[s'[i]].prevSibling == Before(s', i) && h'[s'[i]].nextSibling == After(s', i)
    {
      if i < |s| {
        assert s'[i] == s[i];
        assert ParentLink(h, sh, s[i]);
      }
    }
    DistinctConcat(s, [c]);
  }

  lemma {:induction false} PushBackFrame<T>(h: Heap<T>, sh: Shape, p: NodeId, c: NodeId)
    requires WF(h, sh) && p in h && c in h && Detached(h, c) && p != c
    requires h[p].lastChild.To? ==> h[p].lastChild.id in h
    ensures FrameKept(h, PushBackHeap(h, p, c), p, c)
  {
    var h' := PushBackHeap(h, p, c);
    PushBackSetup(h, sh, p, c);
    forall n | n in h && n != p
      ensures SameEnds(h, h', n)
    {
    }
    forall x | x in h && x != c && h[x].parent != To(p)
      ensures SameSiblingLinks(h, h', x)
    {
    }
  }

  /** `push_back_child` keeps the heap well formed, with `c` appended to the
      children of `p`. */
  lemma {:induction false} PushBackWF<T>(h: Heap<T>, sh: Shape, p: NodeId, c: NodeId)
    requires WF(h, sh) && p in h && c in h && Detached(h, c) && !Anc(h, sh, p, c)
    ensures h[p].lastChild.To? ==> h[p].lastChild.id in h
    ensures WF(PushBackHeap(h, p, c), Lift(h, sh, sh.kids[p := sh.kids[p] + [c]], c))
  {
    assert Anc(h, sh, p, p);
    PushBackSetup(h, sh, p, c);
    PushBackOwnList(h, sh, p, c);
    PushBackFrame(h, sh, p, c);
    AttachWF(h, sh, PushBackHeap(h, p, c), p, c, sh.kids[p] + [c]);
  }

  /** The list of `p` with its members' parent: none of them is `p`. */
  lemma {:induction false} ListSetup<T>(h: Heap<T>, sh: Shape, p: NodeId)
    requires WF(h, sh) && p in h
    ensures ChildList(h, p, sh.kids[p])
    ensures forall j | 0 <= j < |sh.kids[p]| :: sh.kids[p][j] != p
  {
    var s := sh.kids[p];
    assert ChildList(h, p, s);
    forall j | 0 <= j < |s|
      ensures s[j] != p
    {
      assert ParentLink(h, sh, s[j]);
    }
  }

  /** `s` without its element at `i`. */
  function Without(s: seq<NodeId>, i: nat): (r: seq<NodeId>)
    requires i < |s|
    ensures |r| == |s| - 1
    ensures forall j | 0 <= j < |r| :: r[j] == if j < i then s[j] else s[j + 1]
  {
    s[..i] + s[i + 1..]
  }

  /** `s` with `x` inserted before its element at `i`. */
  function InsertAt(s: seq<NodeId>, i: nat, x: NodeId): (r: seq<NodeId>)
    requires i <= |s|
    ensures |r| == |s| + 1 && r[i] == x
    ensures forall j | 0 <= j < |r| && j != i :: r[j] == if j < i then s[j] else s[j - 1]
  {
    s[..i] + [x] + s[i..]
  }

  // push_front_child

  /** The heap after `p->push_front_child(c)`. */
  function PushFrontHeap<T>(h: Heap<T>, p: NodeId, c: NodeId): Heap<T>
    requires p in h && c in h
  {
    var h1 := if h[p].lastChild == Null then h[p := h[p].(lastChild := To(c))] else h;
    var f := h1[p].firstChild;
    var h2 := if f.To? && f.id in h1 then h1[f.id := h1[f.id].(prevSibling := To(c))] else h1;
    var h3 := if f.To? && f.id in h1 then h2[c := h2[c].(nextSibling := h2[p].firstChild)] else h2;
    var h4 := h3[p := h3[p].(firstChild := To(c))];
    h4[c := h4[c].(parent := To(p))]
  }

  lemma {:induction false} PushFrontSetup<T>(h: Heap<T>, sh: Shape, p: NodeId, c: NodeId)
    requires WF(h, sh) && p in h && c in h && Detached(h, c) && p != c
    ensures h[p].firstChild.To? ==> h[p].firstChild.id in h
    ensures c !in sh.kids[p]
    ensures h[p].firstChild.To? ==> |sh.kids[p]| > 0 && h[p].firstChild.id == sh.kids[p][0]
    ensures h[p].firstChild.To? ==> h[h[p].firstChild.id].parent == To(p) && h[p].firstChild.id != p && h[p].firstChild.id != c
    ensures h[p].firstChild == Null ==> sh.kids[p] == [] && h[p].lastChild == Null
  {
    var s := sh.kids[p];
    assert ChildList(h, p, s);
    assert ParentLink(h, sh, c);
    if s != [] {
      assert ParentLink(h, sh, s[0]);
    }
  }

  lemma {:induction false} PushFrontOwnList<T>(h: Heap<T>, sh: Shape, p: NodeId, c: NodeId)
    requires WF(h, sh) && p in h && c in h && Detached(h, c) && p != c
    requires h[p].firstChild.To? ==> h[p].firstChild.id in h
    ensures ChildList(PushFrontHeap(h, p, c), p, [c] + sh.kids[p])
  {
    var h' := PushFrontHeap(h, p, c);
    var s := sh.kids[p];
    var s' := [c] + s;
    PushFrontSetup(h, sh, p, c);
    ListSetup(h, sh, p);
    forall i | 0 <= i < |s'|
      ensures s'[i] in h' && h'[s'[i]].parent == To(p)
      ensures h'[s'[i]].prevSibling == Before(s', i) && h'[s'[i]].nextSibling == After(s', i)
    {
      if i > 0 {
        assert s'[i] == s[i - 1];
      }
    }
    DistinctConcat([c], s);
  }

  lemma {:induction false} PushFrontFrame<T>(h: Heap<T>, sh: Shape, p: NodeId, c: NodeId)
    requires WF(h, sh) && p in h && c in h && Detached(h, c) && p != c
    requires h[p].firstChild.To? ==> h[p].firstChild.id in h
    ensures FrameKept(h, PushFrontHeap(h, p, c), p, c)
  {
    var h' := PushFrontHeap(h, p, c);
    PushFrontSetup(h, sh, p, c);
    forall n | n in h && n != p
      ensures SameEnds(h, h', n)
    {
    }
    forall x | x in h && x != c && h[x].parent != To(p)
      ensures SameSiblingLinks(h, h', x)
    {
    }
  }

  /** `push_front_child` keeps the heap well formed, with `c` put before the
      children of `p`. */
  lemma {:induction false} PushFrontWF<T>(h: Heap<T>, sh: Shape, p: NodeId, c: NodeId)
    requires WF(h, sh) && p in h && c in h && Detached(h, c) && !Anc(h, sh, p, c)
    ensures h[p].firstChild.To? ==> h[p].firstChild.id in h
    ensures WF(PushFrontHeap(h, p, c), Lift(h, sh, sh.kids[p := [c] + sh.kids[p]], c))
  {
    assert Anc(h, sh, p, p);
    PushFrontSetup(h, sh, p, c);
    PushFrontOwnList(h, sh, p, c);
    PushFrontFrame(h, sh, p, c);
    AttachWF(h, sh, PushFrontHeap(h, p, c), p, c, [c] + sh.kids[p]);
  }

  // unlink_child

  /** The heap after `p->unlink_child(c)`. */
  function UnlinkHeap<T>(h: Heap<T>, p: NodeId, c: NodeId): Heap<T>
    requires p in h && c in h
  {
    var a := h[c].prevSibling;
    var h1 := if a.To? && a.id in h then h[a.id := h[a.id].(nextSibling := h[c].nextSibling)] else h;
    var b := h1[c].nextSibling;
    var h2 := if b.To? && b.id in h1 then h1[b.id := h1[b.id].(prevSibling := h1[c].prevSibling)] else h1;
    var h3 := if h2[p].firstChild == To(c) then h2[p := h2[p].(firstChild := h2[c].nextSibling)] else h2;
    var h4 := if h3[p].lastChild == To(c) then h3[p := h3[p].(lastChild := h3[c].prevSibling)] else h3;
    h4[c := h4[c].(parent := Null, prevSibling := Null, nextSibling := Null)]
  }

  lemma {:induction false} UnlinkSetup<T>(h: Heap<T>, sh: Shape, p: NodeId, c: NodeId) returns (i: nat)
    requires WF(h, sh) && c in h && h[c].parent == To(p)
    ensures p in h && i < |sh.kids[p]| && sh.kids[p][i] == c
    ensures ChildList(h, p, sh.kids[p])
    ensures forall j | 0 <= j < |sh.kids[p]| :: sh.kids[p][j] != p
    ensures h[c].prevSibling == Before(sh.kids[p], i) && h[c].nextSibling == After(sh.kids[p], i)
    ensures h[c].prevSibling.To? ==> h[c].prevSibling.id in h
    ensures h[c].nextSibling.To? ==> h[c].nextSibling.id in h
  {
    i := ChildIndex(h, sh, c);
    ListSetup(h, sh, p);
  }

  /** `c` sits at index `i` of the child list `s` of `p`, and its siblings
      are its neighbours there. */
  ghost predicate AtIndex<T>(h: Heap<T>, p: NodeId, c: NodeId, s: seq<NodeId>, i: nat) {
    && p in h && c in h && i < |s| && s[i] == c
    && ChildList(h, p, s)
    && (forall j | 0 <= j < |s| :: s[j] != p)
    && h[c].prevSibling == Before(s, i) && h[c].nextSibling == After(s, i)
  }

  lemma {:induction false} UnlinkAt<T>(h: Heap<T>, p: NodeId, c: NodeId, s: seq<NodeId>, i: nat, j: nat)
    requires AtIndex(h, p, c, s, i) && j < |s| - 1
    ensures h[c].prevSibling.To? ==> h[c].prevSibling.id in h
    ensures h[c].nextSibling.To? ==> h[c].nextSibling.id in h
    ensures Without(s, i)[j] in UnlinkHeap(h, p, c)
    ensures UnlinkHeap(h, p, c)[Without(s, i)[j]].parent == To(p)
    ensures UnlinkHeap(h, p, c)[Without(s, i)[j]].prevSibling == Before(Without(s, i), j)
    ensures UnlinkHeap(h, p, c)[Without(s, i)[j]].nextSibling == After(Without(s, i), j)
  {
    var s' := Without(s, i);
    var x := if j < i then s[j] else s[j + 1];
    assert s'[j] == x;
    assert ChildList(h, p, s);
    if j + 1 < |s'| {
      assert s'[j + 1] == if j + 1 < i then s[j + 1] else s[j + 2];
    }
    if j > 0 {
      assert s'[j - 1] == if j - 1 < i then s[j - 1] else s[j];
    }
  }

  lemma {:induction false} UnlinkEnds<T>(h: Heap<T>, p: NodeId, c: NodeId, s: seq<NodeId>, i: nat)
    requires AtIndex(h, p, c, s, i)
    ensures h[c].prevSibling.To? ==> h[c].prevSibling.id in h
    ensures h[c].nextSibling.To? ==> h[c].nextSibling.id in h
    ensures UnlinkHeap(h, p, c)[p].firstChild == Head(Without(s, i))
    ensures UnlinkHeap(h, p, c)[p].lastChild == Tail(Without(s, i))
  {
    var s' := Without(s, i);
    assert ChildList(h, p, s);
    assert s[i] in h;
    if |s'| > 0 {
      assert s'[0] == if 0 < i then s[0] else s[1];
      assert s'[|s'| - 1] == if |s'| - 1 < i then s[|s'| - 1] else s[|s'|];
    }
    if |s| > 1 {
      assert s[0] != s[|s| - 1];
    }
  }

  lemma {:induction false} WithoutDistinct(s: seq<NodeId>, i: nat)
    requires i < |s| && Distinct(s)
    ensures Distinct(Without(s, i)) && s[i] !in Without(s, i)
    ensures forall j | 0 <= j < |s| && j != i :: s[j] in Without(s, i)
  {
    var s' := Without(s, i);
    forall j, k | 0 <= j < k < |s'|
      ensures s'[j] != s'[k]
    {
      var j0 := if j < i then j else j + 1;
      var k0 := if k < i then k else k + 1;
      assert s'[j] == s[j0] && s'[k] == s[k0];
    }
    forall j | 0 <= j < |s'|
      ensures s'[j] != s[i]
    {
      if j >= i {
        assert s'[j] == s[j + 1];
      }
    }
    forall j | 0 <= j < |s| && j != i
      ensures s[j] in s'
    {
      if j < i {
        assert s'[j] == s[j];
      } else {
        assert s'[j - 1] == s[j];
      }
    }
  }

  lemma {:induction false} UnlinkOwnList<T>(h: Heap<T>, p: NodeId, c: NodeId, s: seq<NodeId>, i: nat)
    requires AtIndex(h, p, c, s, i)
    ensures h[c].prevSibling.To? ==> h[c].prevSibling.id in h
    ensures h[c].nextSibling.To? ==> h[c].nextSibling.id in h
    ensures ChildList(UnlinkHeap(h, p, c), p, Without(s, i))
  {
    assert ChildList(h, p, s);
    var s' := Without(s, i);
    forall j | 0 <= j < |s'|
      ensures s'[j] in UnlinkHeap(h, p, c) && UnlinkHeap(h, p, c)[s'[j]].parent == To(p)
      ensures UnlinkHeap(h, p, c)[s'[j]].prevSibling == Before(s', j)
      ensures UnlinkHeap(h, p, c)[s'[j]].nextSibling == After(s', j)
    {
      UnlinkAt(h, p, c, s, i, j);
    }
    WithoutDistinct(s, i);
    UnlinkEnds(h, p, c, s, i);
  }

  /** A node that is neither `c` nor a child of `p` keeps its links, and only
      `p` changes its ends. */
  lemma {:induction false} UnlinkKeeps<T>(h: Heap<T>, p: NodeId, c: NodeId, s: seq<NodeId>, i: nat, x: NodeId)
    requires AtIndex(h, p, c, s, i) && x in h
    ensures h[c].prevSibling.To? ==> h[c].prevSibling.id in h
    ensures h[c].nextSibling.To? ==> h[c].nextSibling.id in h
    ensures x != p ==> SameEnds(h, UnlinkHeap(h, p, c), x)
    ensures x != c && h[x].parent != To(p) ==> SameSiblingLinks(h, UnlinkHeap(h, p, c), x)
  {
    assert ChildList(h, p, s);
    if i > 0 {
      assert h[s[i - 1]].parent == To(p);
    }
    if i < |s| - 1 {
      assert h[s[i + 1]].parent == To(p);
    }
  }

  lemma {:induction false} UnlinkFrame<T>(h: Heap<T>, p: NodeId, c: NodeId, s: seq<NodeId>, i: nat)
    requires AtIndex(h, p, c, s, i)
    ensures h[c].prevSibling.To? ==> h[c].prevSibling.id in h
    ensures h[c].nextSibling.To? ==> h[c].nextSibling.id in h
    ensures FrameKept(h, UnlinkHeap(h, p, c), p, c)
  {
    UnlinkKeeps(h, p, c, s, i, c);
    var h' := UnlinkHeap(h, p, c);
    forall n | n in h && n != p
      ensures SameEnds(h, h', n)
    {
      UnlinkKeeps(h, p, c, s, i, n);
    }
    forall x | x in h && x != c && h[x].parent != To(p)
      ensures SameSiblingLinks(h, h', x)
    {
      UnlinkKeeps(h, p, c, s, i, x);
    }
  }

  /** `unlink_child` keeps the heap well formed, with `c` taken out of the
      children of `p` and left detached; ranks do not change. */
  lemma {:induction false} UnlinkWF<T>(h: Heap<T>, sh: Shape, p: NodeId, c: NodeId) returns (i: nat)
    requires WF(h, sh) && c in h && h[c].parent == To(p)
    ensures p in h && i < |sh.kids[p]| && sh.kids[p][i] == c
    ensures h[c].prevSibling.To? ==> h[c].prevSibling.id in h
    ensures h[c].nextSibling.To? ==> h[c].nextSibling.id in h
    ensures WF(UnlinkHeap(h, p, c), Shape(sh.kids[p := Without(sh.kids[p], i)], sh.rank, sh.bound))
    ensures Detached(UnlinkHeap(h, p, c), c)
  {
    i := UnlinkSetup(h, sh, p, c);
    var s := sh.kids[p];
    var s' := Without(s, i);
    assert AtIndex(h, p, c, s, i);
    UnlinkOwnList(h, p, c, s, i);
    UnlinkFrame(h, p, c, s, i);
    assert ChildList(h, p, s);
    WithoutDistinct(s, i);
    forall x | x in s && x !in s'
      ensures x in UnlinkHeap(h, p, c) && Detached(UnlinkHeap(h, p, c), x)
    {
      var j :| 0 <= j < |s| && s[j] == x;
      assert j == i;
    }
    DetachWF(h, sh, UnlinkHeap(h, p, c), p, c, s');
  }

  /** `s` with `x` in place of its element at `i`, for `x` not in `s`. */
  lemma {:induction false} UpdateDistinct(s: seq<NodeId>, i: nat, x: NodeId)
    requires i < |s| && Distinct(s) && x !in s
    ensures Distinct(s[i := x]) && s[i] !in s[i := x] && x in s[i := x]
    ensures forall j | 0 <= j < |s| && j != i :: s[j] in s[i := x]
  {
    var s' := s[i := x];
    assert s[i] in s && s'[i] == x;
    forall j, k | 0 <= j < k < |s'|
      ensures s'[j] != s'[k]
    {
      if j != i && k != i {
        assert s'[j] == s[j] && s'[k] == s[k];
      } else if j == i {
        assert s[k] in s;
      } else {
        assert s[j] in s;
      }
    }
    forall j | 0 <= j < |s'|
      ensures s'[j] != s[i]
    {
      if j != i {
        assert s'[j] == s[j];
      }
    }
    forall j | 0 <= j < |s| && j != i
      ensures s[j] in s'
    {
      assert s'[j] == s[j];
    }
  }

  // replace

  /** `s` with `x` in place of its element at `i`. */
  function Replaced(s: seq<NodeId>, i: nat, x: NodeId): seq<NodeId>
    requires i < |s|
  {
    s[i := x]
  }

  /** The heap after `replace(o, nw)`. */
  function ReplaceHeap<T>(h: Heap<T>, o: NodeId, nw: NodeId): Heap<T>
    requires o in h && nw in h
  {
    var P := h[o].parent;
    var h1 := h[nw := h[nw].(parent := P)];
    var h2 := if P.To? && P.id in h1 && h1[P.id].firstChild == To(o) then h1[P.id := h1[P.id].(firstChild := To(nw))] else h1;
    var h3 := if P.To? && P.id in h2 && h2[P.id].lastChild == To(o) then h2[P.id := h2[P.id].(lastChild := To(nw))] else h2;
    var h4 := h3[nw := h3[nw].(prevSibling := h3[o].prevSibling)];
    var a := h4[o].prevSibling;
    var h5 := if a.To? && a.id in h4 then h4[a.id := h4[a.id].(nextSibling := To(nw))] else h4;
    var h6 := h5[nw := h5[nw].(nextSibling := h5[o].nextSibling)];
    var b := h6[o].nextSibling;
    var h7 := if b.To? && b.id in h6 then h6[b.id := h6[b.id].(prevSibling := To(nw))] else h6;
    h7[o := h7[o].(parent := Null, prevSibling := Null, nextSibling := Null)]
  }

  /** What `replace` relies on once `o` has a parent `q`. */
  ghost predicate ReplacePre<T>(h: Heap<T>, q: NodeId, o: NodeId, nw: NodeId, s: seq<NodeId>, i: nat) {
    && AtIndex(h, q, o, s, i)
    && nw in h && Detached(h, nw) && nw != q && nw !in s
  }

  lemma {:induction false} ReplaceAt<T>(h: Heap<T>, q: NodeId, o: NodeId, nw: NodeId, s: seq<NodeId>, i: nat, j: nat)
    requires ReplacePre(h, q, o, nw, s, i) && j < |s|
    ensures h[o].parent == To(q)
    ensures h[o].prevSibling.To? ==> h[o].prevSibling.id in h
    ensures h[o].nextSibling.To? ==> h[o].nextSibling.id in h
    ensures s[i := nw][j] in ReplaceHeap(h, o, nw)
    ensures ReplaceHeap(h, o, nw)[s[i := nw][j]].parent == To(q)
    ensures ReplaceHeap(h, o, nw)[s[i := nw][j]].prevSibling == Before(s[i := nw], j)
    ensures ReplaceHeap(h, o, nw)[s[i := nw][j]].nextSibling == After(s[i := nw], j)
  {
    assert ChildList(h, q, s);
    assert s[i] in h;
    assert s[j] in h;
  }

  lemma {:induction false} ReplaceEnds<T>(h: Heap<T>, q: NodeId, o: NodeId, nw: NodeId, s: seq<NodeId>, i: nat)
    requires ReplacePre(h, q, o, nw, s, i)
    ensures h[o].parent == To(q)
    ensures h[o].prevSibling.To? ==> h[o].prevSibling.id in h
    ensures h[o].nextSibling.To? ==> h[o].nextSibling.id in h
    ensures ReplaceHeap(h, o, nw)[q].firstChild == Head(s[i := nw])
    ensures ReplaceHeap(h, o, nw)[q].lastChild == Tail(s[i := nw])
  {
    assert ChildList(h, q, s);
    assert s[i] in h;
    assert s[0] in h && s[|s| - 1] in h;
    if |s| > 1 {
      assert s[0] != s[|s| - 1];
    }
  }

  lemma {:induction false} ReplaceEach<T>(h: Heap<T>, q: NodeId, o: NodeId, nw: NodeId, s: seq<NodeId>, i: nat,
                                          s': seq<NodeId>)
    requires ReplacePre(h, q, o, nw, s, i) && s' == s[i := nw]
    ensures forall j | 0 <= j < |s'| ::
      && s'[j] in ReplaceHeap(h, o, nw) && ReplaceHeap(h, o, nw)[s'[j]].parent == To(q)
      && ReplaceHeap(h, o, nw)[s'[j]].prevSibling == Before(s', j)
      && ReplaceHeap(h, o, nw)[s'[j]].nextSibling == After(s', j)
  {
    forall j | 0 <= j < |s'|
      ensures s'[j] in ReplaceHeap(h, o, nw) && ReplaceHeap(h, o, nw)[s'[j]].parent == To(q)
      ensures ReplaceHeap(h, o, nw)[s'[j]].prevSibling == Before(s', j)
      ensures ReplaceHeap(h, o, nw)[s'[j]].nextSibling == After(s', j)
    {
      ReplaceAt(h, q, o, nw, s, i, j);
    }
  }

  lemma {:induction false} ReplaceOwnList<T>(h: Heap<T>, q: NodeId, o: NodeId, nw: NodeId, s: seq<NodeId>, i: nat)
    requires ReplacePre(h, q, o, nw, s, i)
    ensures h[o].parent == To(q)
    ensures h[o].prevSibling.To? ==> h[o].prevSibling.id in h
    ensures h[o].nextSibling.To? ==> h[o].nextSibling.id in h
    ensures ChildList(ReplaceHeap(h, o, nw), q, s[i := nw])
  {
    ReplaceEnds(h, q, o, nw, s, i);
    ReplaceEach(h, q, o, nw, s, i, s[i := nw]);
    UpdateDistinct(s, i, nw);
  }

  lemma {:induction false} ReplaceKeeps<T>(h: Heap<T>, q: NodeId, o: NodeId, nw: NodeId, s: seq<NodeId>, i: nat, x: NodeId)
    requires ReplacePre(h, q, o, nw, s, i) && x in h
    ensures h[o].parent == To(q)
    ensures h[o].prevSibling.To? ==> h[o].prevSibling.id in h
    ensures h[o].nextSibling.To? ==> h[o].nextSibling.id in h
    ensures x != q ==> SameEnds(h, ReplaceHeap(h, o, nw), x)
    ensures x != nw && h[x].parent != To(q) ==> SameSiblingLinks(h, ReplaceHeap(h, o, nw), x)
  {
    assert ChildList(h, q, s);
    assert s[i] in h;
    if i > 0 {
      assert h[s[i - 1]].parent == To(q);
    }
    if i < |s| - 1 {
      assert h[s[i + 1]].parent == To(q);
    }
  }

  lemma {:induction false} ReplaceFrame<T>(h: Heap<T>, q: NodeId, o: NodeId, nw: NodeId, s: seq<NodeId>, i: nat)
    requires ReplacePre(h, q, o, nw, s, i)
    ensures h[o].parent == To(q)
    ensures h[o].prevSibling.To? ==> h[o].prevSibling.id in h
    ensures h[o].nextSibling.To? ==> h[o].nextSibling.id in h
    ensures FrameKept(h, ReplaceHeap(h, o, nw), q, nw)
  {
    ReplaceKeeps(h, q, o, nw, s, i, o);
    var h' := ReplaceHeap(h, o, nw);
    forall n | n in h && n != q
      ensures SameEnds(h, h', n)
    {
      ReplaceKeeps(h, q, o, nw, s, i, n);
    }
    forall x | x in h && x != nw && h[x].parent != To(q)
      ensures SameSiblingLinks(h, h', x)
    {
      ReplaceKeeps(h, q, o, nw, s, i, x);
    }
  }

  /** `replace(o, nw)` for an `o` with a parent `q` keeps the heap well
      formed: `nw` takes the place of `o` among the children of `q`, and `o`
      is left detached with its own children. */
  lemma {:induction false} ReplaceWF<T>(h: Heap<T>, sh: Shape, o: NodeId, nw: NodeId) returns (i: nat)
    requires WF(h, sh) && o in h && nw in h && Detached(h, nw) && h[o].parent.To? && h[o].parent.id in h
    requires !Anc(h, sh, h[o].parent.id, nw)
    ensures h[o].parent.id in h && i < |sh.kids[h[o].parent.id]| && sh.kids[h[o].parent.id][i] == o
    ensures h[o].prevSibling.To? ==> h[o].prevSibling.id in h
    ensures h[o].nextSibling.To? ==> h[o].nextSibling.id in h
    ensures WF(ReplaceHeap(h, o, nw),
               Lift(h, sh, sh.kids[h[o].parent.id := Replaced(sh.kids[h[o].parent.id], i, nw)], nw))
    ensures Detached(ReplaceHeap(h, o, nw), o)
  {
    var q := h[o].parent.id;
    i := UnlinkSetup(h, sh, q, o);
    var s := sh.kids[q];
    assert Anc(h, sh, q, q);
    assert ParentLink(h, sh, nw);
    assert nw !in s;
    assert ReplacePre(h, q, o, nw, s, i);
    ReplaceOwnList(h, q, o, nw, s, i);
    ReplaceFrame(h, q, o, nw, s, i);
    UpdateDistinct(s, i, nw);
    forall x | x in s && x !in s[i := nw]
      ensures x in ReplaceHeap(h, o, nw) && Detached(ReplaceHeap(h, o, nw), x)
    {
      var j :| 0 <= j < |s| && s[j] == x;
      assert j == i;
    }
    AttachWF(h, sh, ReplaceHeap(h, o, nw), q, nw, Replaced(s, i, nw));
  }

  /** `replace(o, nw)` on a detached `o` and `nw` changes nothing. */
  lemma {:induction false} ReplaceDetached<T>(h: Heap<T>, o: NodeId, nw: NodeId)
    requires o in h && nw in h && Detached(h, o) && Detached(h, nw)
    ensures ReplaceHeap(h, o, nw) == h
  {
  }

  // insert_sibling

  /** The heap after `insert_sibling(o, nw)`. */
  function InsertSiblingHeap<T>(h: Heap<T>, o: NodeId, nw: NodeId): Heap<T>
    requires o in h && nw in h
  {
    var P := h[o].parent;
    var h1 := h[nw := h[nw].(parent := P)];
    var h2 := if P.To? && P.id in h1 && h1[P.id].firstChild == To(o) then h1[P.id := h1[P.id].(firstChild := To(nw))] else h1;
    var h3 := h2[nw := h2[nw].(prevSibling := h2[o].prevSibling)];
    var h4 := h3[nw := h3[nw].(nextSibling := To(o))];
    var a := h4[o].prevSibling;
    var h5 := if a.To? && a.id in h4 then h4[a.id := h4[a.id].(nextSibling := To(nw))] else h4;
    h5[o := h5[o].(prevSibling := To(nw))]
  }

  lemma {:induction false} InsertSiblingAt<T>(h: Heap<T>, q: NodeId, o: NodeId, nw: NodeId, s: seq<NodeId>, i: nat, j: nat)
    requires ReplacePre(h, q, o, nw, s, i) && j <= |s|
    ensures h[o].parent == To(q)
    ensures h[o].prevSibling.To? ==> h[o].prevSibling.id in h
    ensures InsertAt(s, i, nw)[j] in InsertSiblingHeap(h, o, nw)
    ensures InsertSiblingHeap(h, o, nw)[InsertAt(s, i, nw)[j]].parent == To(q)
    ensures InsertSiblingHeap(h, o, nw)[InsertAt(s, i, nw)[j]].prevSibling == Before(InsertAt(s, i, nw), j)
    ensures InsertSiblingHeap(h, o, nw)[InsertAt(s, i, nw)[j]].nextSibling == After(InsertAt(s, i, nw), j)
  {
    var s' := InsertAt(s, i, nw);
    assert ChildList(h, q, s);
    assert s[i] in h;
    if j < i {
      assert s'[j] == s[j] && s[j] in h && s[j] != o;
      if j > 0 {
        assert s'[j - 1] == s[j - 1];
      }
      if j + 1 < i {
        assert s'[j + 1] == s[j + 1];
      } else {
        assert s'[j + 1] == nw;
      }
    } else if j == i {
      assert s'[j] == nw && s'[j + 1] == o;
      if j > 0 {
        assert s'[j - 1] == s[j - 1];
      }
    } else if j == i + 1 {
      assert s'[j] == o && s'[j - 1] == nw;
      if j + 1 < |s'| {
        assert s'[j + 1] == s[j];
      }
    } else {
      assert s'[j] == s[j - 1] && s[j - 1] in h && s[j - 1] != o;
      assert s'[j - 1] == s[j - 2];
      if j + 1 < |s'| {
        assert s'[j + 1] == s[j];
      }
    }
  }

  lemma {:induction false} InsertDistinct(s: seq<NodeId>, i: nat, x: NodeId)
    requires i <= |s| && Distinct(s) && x !in s
    ensures Distinct(InsertAt(s, i, x)) && x in InsertAt(s, i, x)
    ensures forall j | 0 <= j < |s| :: s[j] in InsertAt(s, i, x)
  {
    var s' := InsertAt(s, i, x);
    forall j, k | 0 <= j < k < |s'|
      ensures s'[j] != s'[k]
    {
      if j != i && k != i {
        var j0 := if j < i then j else j - 1;
        var k0 := if k < i then k else k - 1;
        assert s'[j] == s[j0] && s'[k] == s[k0];
      } else if j == i {
        assert s'[k] == s[k - 1] && s[k - 1] in s;
      } else {
        assert s'[j] == s[j] && s[j] in s;
      }
    }
    forall j | 0 <= j < |s|
      ensures s[j] in s'
    {
      if j < i {
        assert s'[j] == s[j];
      } else {
        assert s'[j + 1] == s[j];
      }
    }
  }

  lemma {:induction false} InsertSiblingOwnList<T>(h: Heap<T>, q: NodeId, o: NodeId, nw: NodeId, s: seq<NodeId>, i: nat)
    requires ReplacePre(h, q, o, nw, s, i)
    ensures h[o].parent == To(q)
    ensures h[o].prevSibling.To? ==> h[o].prevSibling.id in h
    ensures ChildList(InsertSiblingHeap(h, o, nw), q, InsertAt(s, i, nw))
  {
    assert q in InsertSiblingHeap(h, o, nw);
    InsertSiblingMembers(h, q, o, nw, s, i);
    InsertDistinct(s, i, nw);
    InsertSiblingEnds(h, q, o, nw, s, i);
    ListIntro(InsertSiblingHeap(h, o, nw), q, InsertAt(s, i, nw));
  }

  lemma {:induction false} ListIntro<T>(h: Heap<T>, p: NodeId, s: seq<NodeId>)
    requires p in h && h[p].firstChild == Head(s) && h[p].lastChild == Tail(s) && Distinct(s)
    requires forall j | 0 <= j < |s| ::
               && s[j] in h
               && h[s[j]].parent == To(p)
               && h[s[j]].prevSibling == Before(s, j)
               && h[s[j]].nextSibling == After(s, j)
    ensures ChildList(h, p, s)
  {
  }

  lemma {:induction false} InsertSiblingMembers<T>(h: Heap<T>, q: NodeId, o: NodeId, nw: NodeId, s: seq<NodeId>, i: nat)
    requires ReplacePre(h, q, o, nw, s, i)
    ensures h[o].parent == To(q)
    ensures h[o].prevSibling.To? ==> h[o].prevSibling.id in h
    ensures forall j | 0 <= j < |InsertAt(s, i, nw)| ::
              && InsertAt(s, i, nw)[j] in InsertSiblingHeap(h, o, nw)
              && InsertSiblingHeap(h, o, nw)[InsertAt(s, i, nw)[j]].parent == To(q)
              && InsertSiblingHeap(h, o, nw)[InsertAt(s, i, nw)[j]].prevSibling == Before(InsertAt(s, i, nw), j)
              && InsertSiblingHeap(h, o, nw)[InsertAt(s, i, nw)[j]].nextSibling == After(InsertAt(s, i, nw), j)
  {
    InsertSiblingAt(h, q, o, nw, s, i, i);
    forall j | 0 <= j < |InsertAt(s, i, nw)|
      ensures InsertAt(s, i, nw)[j] in InsertSiblingHeap(h, o, nw)
      ensures InsertSiblingHeap(h, o, nw)[InsertAt(s, i, nw)[j]].parent == To(q)
      ensures InsertSiblingHeap(h, o, nw)[InsertAt(s, i, nw)[j]].prevSibling == Before(InsertAt(s, i, nw), j)
      ensures InsertSiblingHeap(h, o, nw)[InsertAt(s, i, nw)[j]].nextSibling == After(InsertAt(s, i, nw), j)
    {
      InsertSiblingAt(h, q, o, nw, s, i, j);
    }
  }

  lemma {:induction false} InsertSiblingEnds<T>(h: Heap<T>, q: NodeId, o: NodeId, nw: NodeId, s: seq<NodeId>, i: nat)
    requires ReplacePre(h, q, o, nw, s, i)
    ensures h[o].parent == To(q)
    ensures h[o].prevSibling.To? ==> h[o].prevSibling.id in h
    ensures InsertSiblingHeap(h, o, nw)[q].firstChild == Head(InsertAt(s, i, nw))
    ensures InsertSiblingHeap(h, o, nw)[q].lastChild == Tail(InsertAt(s, i, nw))
  {
    var s' := InsertAt(s, i, nw);
    assert ChildList(h, q, s);
    assert s[i] in h;
    assert s'[|s'| - 1] == s[|s| - 1];
    if i > 0 {
      assert s'[0] == s[0];
      assert s[0] != s[i];
    }
  }

  lemma {:induction false} InsertSiblingKeeps<T>(h: Heap<T>, q: NodeId, o: NodeId, nw: NodeId, s: seq<NodeId>, i: nat, x: NodeId)
    requires ReplacePre(h, q, o, nw, s, i) && x in h
    ensures h[o].parent == To(q)
    ensures h[o].prevSibling.To? ==> h[o].prevSibling.id in h
    ensures x != q ==> SameEnds(h, InsertSiblingHeap(h, o, nw), x)
    ensures x != nw && h[x].parent != To(q) ==> SameSiblingLinks(h, InsertSiblingHeap(h, o, nw), x)
  {
    assert ChildList(h, q, s);
    assert s[i] in h;
    if i > 0 {
      assert h[s[i - 1]].parent == To(q);
    }
  }

  lemma {:induction false} InsertSiblingFrame<T>(h: Heap<T>, q: NodeId, o: NodeId, nw: NodeId, s: seq<NodeId>, i: nat)
    requires ReplacePre(h, q, o, nw, s, i)
    ensures h[o].parent == To(q)
    ensures h[o].prevSibling.To? ==> h[o].prevSibling.id in h
    ensures FrameKept(h, InsertSiblingHeap(h, o, nw), q, nw)
  {
    InsertSiblingKeeps(h, q, o, nw, s, i, o);
    var h' := InsertSiblingHeap(h, o, nw);
    forall n | n in h && n != q
      ensures SameEnds(h, h', n)
    {
      InsertSiblingKeeps(h, q, o, nw, s, i, n);
    }
    forall x | x in h && x != nw && h[x].parent != To(q)
      ensures SameSiblingLinks(h, h', x)
    {
      InsertSiblingKeeps(h, q, o, nw, s, i, x);
    }
  }

  /** `insert_sibling(o, nw)` keeps the heap well formed: `nw` joins the
      children of the parent `q` of `o`, just before `o`. */
  lemma {:induction false} InsertSiblingWF<T>(h: Heap<T>, sh: Shape, o: NodeId, nw: NodeId) returns (i: nat)
    requires WF(h, sh) && o in h && nw in h && Detached(h, nw) && h[o].parent.To? && h[o].parent.id in h
    requires !Anc(h, sh, h[o].parent.id, nw)
    ensures h[o].parent.id in h && i < |sh.kids[h[o].parent.id]| && sh.kids[h[o].parent.id][i] == o
    ensures h[o].prevSibling.To? ==> h[o].prevSibling.id in h
    ensures WF(InsertSiblingHeap(h, o, nw),
               Lift(h, sh, sh.kids[h[o].parent.id := InsertAt(sh.kids[h[o].parent.id], i, nw)], nw))
  {
    var q := h[o].parent.id;
    i := UnlinkSetup(h, sh, q, o);
    var s := sh.kids[q];
    assert Anc(h, sh, q, q);
    assert ParentLink(h, sh, nw);
    assert nw !in s;
    assert ReplacePre(h, q, o, nw, s, i);
    InsertSiblingOwnList(h, q, o, nw, s, i);
    InsertSiblingFrame(h, q, o, nw, s, i);
    InsertDistinct(s, i, nw);
    AttachWF(h, sh, InsertSiblingHeap(h, o, nw), q, nw, InsertAt(s, i, nw));
  }

  // allocation and the rest of the state

  /** A fresh, unlinked node joins a well-formed heap as a leaf of rank 0. */
  lemma {:induction false} AddFreshWF<T>(h: Heap<T>, sh: Shape, id: NodeId, v: T)
    requires WF(h, sh) && id !in h
    ensures WF(h[id := Fresh(v)], Shape(sh.kids[id := []], sh.rank[id := 0], sh.bound + 1))
  {
    var h' := h[id := Fresh(v)];
    var sh' := Shape(sh.kids[id := []], sh.rank[id := 0], sh.bound + 1);
    forall n | n in h'
      ensures NodeOk(h', sh', n)
    {
      if n != id {
        assert ChildList(h, n, sh.kids[n]);
        assert ParentLink(h, sh, n);
        var t := sh.kids[n];
        forall i | 0 <= i < |t|
          ensures SameSiblingLinks(h, h', t[i])
        {
          assert t[i] in h;
        }
        ListKept(h, h', n, t);
      }
    }
    WFIntro(h', sh');
  }

  /** The links of a well-formed heap are fixed by its child lists: two well
      formed heaps with the same nodes, values and child lists are equal. */
  lemma {:induction false} LinksDetermined<T>(h1: Heap<T>, sh1: Shape, h2: Heap<T>, sh2: Shape)
    requires WF(h1, sh1) && WF(h2, sh2)
    requires h1.Keys == h2.Keys && Values(h1) == Values(h2) && sh1.kids == sh2.kids
    ensures h1 == h2
  {
    forall n | n in h1
      ensures h1[n] == h2[n]
    {
      LinksAt(h1, sh1, h2, sh2, n);
    }
  }

  /** A node listed among the children of `q` has `q` as its parent. */
  lemma ParentOfListed<T>(h: Heap<T>, sh: Shape, q: NodeId, n: NodeId)
    requires WF(h, sh) && q in h && n in sh.kids[q]
    ensures n in h && h[n].parent == To(q)
  {
    assert ChildList(h, q, sh.kids[q]);
    var s := sh.kids[q];
    var i :| 0 <= i < |s| && s[i] == n;
  }

  lemma {:induction false} LinksAt<T>(h1: Heap<T>, sh1: Shape, h2: Heap<T>, sh2: Shape, n: NodeId)
    requires WF(h1, sh1) && WF(h2, sh2)
    requires h1.Keys == h2.Keys && Values(h1) == Values(h2) && sh1.kids == sh2.kids
    requires n in h1
    ensures h1[n] == h2[n]
  {
    assert ChildList(h1, n, sh1.kids[n]) && ChildList(h2, n, sh2.kids[n]);
    assert ParentLink(h1, sh1, n) && ParentLink(h2, sh2, n);
    assert Values(h1)[n] == h1[n].value && Values(h2)[n] == h2[n].value;
    if h1[n].parent.To? {
      ParentOfListed(h2, sh2, h1[n].parent.id, n);
    }
    if h2[n].parent.To? {
      ParentOfListed(h1, sh1, h2[n].parent.id, n);
    }
    if h1[n].parent.To? {
      var q := h1[n].parent.id;
      var s := sh1.kids[q];
      assert ChildList(h1, q, s) && ChildList(h2, q, s);
      var i :| 0 <= i < |s| && s[i] == n;
      assert h1[s[i]].prevSibling == h2[s[i]].prevSibling;
    }
  }

  /** Two heaps with the same identities and the same value at each. */
  lemma SameValues<T>(h: Heap<T>, h': Heap<T>)
    requires h'.Keys == h.Keys && forall n | n in h :: h'[n].value == h[n].value
    ensures Values(h') == Values(h)
  {
    assert Values(h').Keys == h.Keys;
    assert forall n | n in Values(h') :: Values(h')[n] == h[n].value;
  }

  /** Freeing nodes of a heap whose values are those of `h0` leaves nodes
      of `h0` holding their values there. */
  lemma FreedValues<T>(h0: Heap<T>, h1: Heap<T>, e: set<NodeId>)
    requires h1.Keys == h0.Keys && Values(h1) == Values(h0)
    ensures forall n | n in h1 - e :: n in h0 && (h1 - e)[n].value == h0[n].value
  {
    forall n | n in h1 - e
      ensures n in h0 && (h1 - e)[n].value == h0[n].value
    {
      assert Values(h1)[n] == h1[n].value;
    }
  }

  /** A node added to the heap adds its value and changes no other. */
  lemma ValuesAdd<T>(h: Heap<T>, id: NodeId, n: Node<T>)
    ensures Values(h[id := n]) == Values(h)[id := n.value]
  {
  }

  /** The linkage operations rewrite links only: they keep every identity and
      every value, and the only parents they change are those of the nodes
      they attach or detach. */
  lemma PushBackKeeps<T>(h: Heap<T>, p: NodeId, c: NodeId)
    requires p in h && c in h
    ensures PushBackHeap(h, p, c).Keys == h.Keys && Values(PushBackHeap(h, p, c)) == Values(h)
    ensures forall n | n in h && n != c :: PushBackHeap(h, p, c)[n].parent == h[n].parent
  {
    SameValues(h, PushBackHeap(h, p, c));
  }

  lemma PushFrontKeeps<T>(h: Heap<T>, p: NodeId, c: NodeId)
    requires p in h && c in h
    ensures PushFrontHeap(h, p, c).Keys == h.Keys && Values(PushFrontHeap(h, p, c)) == Values(h)
    ensures forall n | n in h && n != c :: PushFrontHeap(h, p, c)[n].parent == h[n].parent
  {
    SameValues(h, PushFrontHeap(h, p, c));
  }

  lemma UnlinkKeepsAll<T>(h: Heap<T>, p: NodeId, c: NodeId)
    requires p in h && c in h
    ensures UnlinkHeap(h, p, c).Keys == h.Keys && Values(UnlinkHeap(h, p, c)) == Values(h)
    ensures forall n | n in h && n != c :: UnlinkHeap(h, p, c)[n].parent == h[n].parent
  {
    SameValues(h, UnlinkHeap(h, p, c));
  }

  lemma ReplaceKeepsAll<T>(h: Heap<T>, o: NodeId, nw: NodeId)
    requires o in h && nw in h
    ensures ReplaceHeap(h, o, nw).Keys == h.Keys && Values(ReplaceHeap(h, o, nw)) == Values(h)
    ensures forall n | n in h && n != o && n != nw :: ReplaceHeap(h, o, nw)[n].parent == h[n].parent
  {
    var h' := ReplaceHeap(h, o, nw);
    forall n | n in h
      ensures n in h' && h'[n].value == h[n].value
      ensures n != o && n != nw ==> h'[n].parent == h[n].parent
    {
    }
    SameValues(h, h');
  }

  lemma InsertSiblingKeepsAll<T>(h: Heap<T>, o: NodeId, nw: NodeId)
    requires o in h && nw in h
    ensures InsertSiblingHeap(h, o, nw).Keys == h.Keys && Values(InsertSiblingHeap(h, o, nw)) == Values(h)
    ensures forall n | n in h && n != nw :: InsertSiblingHeap(h, o, nw)[n].parent == h[n].parent
  {
    SameValues(h, InsertSiblingHeap(h, o, nw));
  }
}
