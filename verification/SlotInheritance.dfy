/** Inheritance of slots: each ancestor of a slot is to be reached along exactly one path. */
module SlotInheritance {
  import opened Status

  /** The direct bases of every slot. */
  type Graph<S> = map<S, set<S>>

  /** Bases are slots, and come before the slots that inherit from them. */
  ghost predicate Ranked<S>(g: Graph<S>, rank: map<S, nat>) {
    && g.Keys <= rank.Keys
    && (forall s, b | s in g && b in g[s] :: b in g && rank[b] < rank[s])
  }

  ghost predicate IsAncestor<S>(g: Graph<S>, rank: map<S, nat>, s: S, a: S)
    requires Ranked(g, rank) && s in g
    decreases rank[s]
  {
    exists p :: p in g[s] && (p == a || IsAncestor(g, rank, p, a))
  }

  ghost predicate InClosure<S>(g: Graph<S>, rank: map<S, nat>, s: S, a: S)
    requires Ranked(g, rank) && s in g
  {
    s == a || IsAncestor(g, rank, s, a)
  }

  /** The base or one of its ancestors is an ancestor of the slot already. */
  ghost predicate Meets<S>(g: Graph<S>, rank: map<S, nat>, s: S, b: S)
    requires Ranked(g, rank) && s in g && b in g
  {
    exists a :: a in g && InClosure(g, rank, b, a) && IsAncestor(g, rank, s, a)
  }

  /** No two bases of a slot share an ancestor. */
  ghost predicate TreeLike<S>(g: Graph<S>, rank: map<S, nat>)
    requires Ranked(g, rank)
  {
    forall s, p, q, a | s in g && p in g[s] && q in g[s] && a in g && InClosure(g, rank, p, a) && InClosure(g, rank, q, a) :: p == q
  }

  lemma {:induction false} AncestorBelow<S>(g: Graph<S>, rank: map<S, nat>, s: S, a: S)
    requires Ranked(g, rank) && s in g && IsAncestor(g, rank, s, a)
    ensures a in g && rank[a] < rank[s]
    decreases rank[s]
  {
    var p :| p in g[s] && (p == a || IsAncestor(g, rank, p, a));
    if p != a { AncestorBelow(g, rank, p, a); }
  }

  lemma {:induction false} Transitive<S>(g: Graph<S>, rank: map<S, nat>, s: S, b: S, a: S)
    requires Ranked(g, rank) && s in g && b in g && IsAncestor(g, rank, s, b) && InClosure(g, rank, b, a)
    ensures IsAncestor(g, rank, s, a)
    decreases rank[s]
  {
    var p :| p in g[s] && (p == b || IsAncestor(g, rank, p, b));
    if p != b { Transitive(g, rank, p, b, a); }
  }

  // ----- unique paths -----

  /** A way from s up to a; a slot alone is a way to itself. */
  ghost predicate IsPath<S>(g: Graph<S>, path: seq<S>, s: S, a: S) {
    path != [] && path[0] == s && s in g && if |path| == 1 then s == a else path[1] in g[s] && IsPath(g, path[1..], path[1], a)
  }

  lemma {:induction false} PathInClosure<S>(g: Graph<S>, rank: map<S, nat>, path: seq<S>, s: S, a: S)
    requires Ranked(g, rank) && IsPath(g, path, s, a)
    ensures InClosure(g, rank, s, a) && a in g
    ensures |path| > 1 ==> IsAncestor(g, rank, s, a)
  {
    if |path| > 1 { PathInClosure(g, rank, path[1..], path[1], a); }
  }

  lemma {:induction false} FindPath<S>(g: Graph<S>, rank: map<S, nat>, s: S, a: S) returns (path: seq<S>)
    requires Ranked(g, rank) && s in g && InClosure(g, rank, s, a)
    ensures IsPath(g, path, s, a)
    decreases rank[s]
  {
    if s == a {
      path := [s];
    } else {
      var p :| p in g[s] && (p == a || IsAncestor(g, rank, p, a));
      var rest := FindPath(g, rank, p, a);
      path := [s] + rest;
      assert path[1..] == rest;
    }
  }

  ghost predicate UniquePaths<S>(g: Graph<S>, a: seq<S>, b: seq<S>, s: S, t: S) {
    IsPath(g, a, s, t) && IsPath(g, b, s, t) ==> a == b
  }

  lemma {:induction false} TreeHasUniquePaths<S>(g: Graph<S>, rank: map<S, nat>, a: seq<S>, b: seq<S>, s: S, t: S)
    requires Ranked(g, rank) && TreeLike(g, rank) && IsPath(g, a, s, t) && IsPath(g, b, s, t)
    ensures a == b
    decreases |a|
  {
    PathInClosure(g, rank, a, s, t);
    PathInClosure(g, rank, b, s, t);
    if |a| == 1 || |b| == 1 {
      if IsAncestor(g, rank, s, t) { AncestorBelow(g, rank, s, t); }
    } else {
      PathInClosure(g, rank, a[1..], a[1], t);
      PathInClosure(g, rank, b[1..], b[1], t);
      TreeHasUniquePaths(g, rank, a[1..], b[1..], a[1], t);
      assert a == [a[0]] + a[1..] && b == [b[0]] + b[1..];
    }
  }

  /** Without shared ancestors among bases there is at most one path from any slot to any other, and conversely. */
  lemma {:induction false} TreeIffUniquePaths<S>(g: Graph<S>, rank: map<S, nat>)
    requires Ranked(g, rank)
    ensures TreeLike(g, rank) <==> forall s, t, a, b :: UniquePaths(g, a, b, s, t)
  {
    if TreeLike(g, rank) {
      forall s, t, a, b
        ensures UniquePaths(g, a, b, s, t)
      {
        if IsPath(g, a, s, t) && IsPath(g, b, s, t) { TreeHasUniquePaths(g, rank, a, b, s, t); }
      }
    } else {
      var s, p, q, t :| s in g && p in g[s] && q in g[s] && t in g && InClosure(g, rank, p, t) && InClosure(g, rank, q, t) && p != q;
      var a := FindPath(g, rank, p, t);
      var b := FindPath(g, rank, q, t);
      assert ([s] + a)[1..] == a && ([s] + b)[1..] == b;
      assert ([s] + a)[1] == p && ([s] + b)[1] == q;
      assert !UniquePaths(g, [s] + a, [s] + b, s, t);
    }
  }

  // ----- the check -----

  /** The check as it recurses: over the bases of the slot, then over those of the new base. */
  ghost predicate Rejects<S>(g: Graph<S>, rank: map<S, nat>, s: S, b: S)
    requires Ranked(g, rank) && s in g && b in g
    decreases rank[s] + rank[b]
  {
    || b in g[s]
    || (exists p :: p in g[s] && Rejects(g, rank, p, b))
    || (exists c :: c in g[b] && Rejects(g, rank, s, c))
  }

  lemma {:induction false} RejectedMeets<S>(g: Graph<S>, rank: map<S, nat>, s: S, b: S)
    requires Ranked(g, rank) && s in g && b in g && Rejects(g, rank, s, b)
    ensures Meets(g, rank, s, b)
    decreases rank[s] + rank[b]
  {
    if b in g[s] {
      assert InClosure(g, rank, b, b) && IsAncestor(g, rank, s, b);
    } else if p :| p in g[s] && Rejects(g, rank, p, b) {
      RejectedMeets(g, rank, p, b);
      var a :| a in g && InClosure(g, rank, b, a) && IsAncestor(g, rank, p, a);
      assert IsAncestor(g, rank, s, a);
    } else {
      var c :| c in g[b] && Rejects(g, rank, s, c);
      RejectedMeets(g, rank, s, c);
      var a :| a in g && InClosure(g, rank, c, a) && IsAncestor(g, rank, s, a);
      assert InClosure(g, rank, b, a);
    }
  }

  lemma {:induction false} MeetingIsRejected<S>(g: Graph<S>, rank: map<S, nat>, s: S, b: S, a: S)
    requires Ranked(g, rank) && s in g && b in g && a in g && InClosure(g, rank, b, a) && IsAncestor(g, rank, s, a)
    ensures Rejects(g, rank, s, b)
    decreases rank[s] + rank[b]
  {
    if a == b {
      var p :| p in g[s] && (p == a || IsAncestor(g, rank, p, a));
      if p != a { MeetingIsRejected(g, rank, p, b, a); }
    } else {
      var c :| c in g[b] && (c == a || IsAncestor(g, rank, c, a));
      MeetingIsRejected(g, rank, s, c, a);
    }
  }

  /** A base is rejected exactly when it or one of its ancestors is an ancestor of the slot already. */
  lemma {:induction false} RejectsIff<S>(g: Graph<S>, rank: map<S, nat>, s: S, b: S)
    requires Ranked(g, rank) && s in g && b in g
    ensures Rejects(g, rank, s, b) <==> Meets(g, rank, s, b)
  {
    if Rejects(g, rank, s, b) {
      RejectedMeets(g, rank, s, b);
    } else if Meets(g, rank, s, b) {
      var a :| a in g && InClosure(g, rank, b, a) && IsAncestor(g, rank, s, a);
      MeetingIsRejected(g, rank, s, b, a);
    }
  }

  // ----- adding a base -----

  function Extended<S>(g: Graph<S>, s: S, b: S): Graph<S>
    requires s in g
  {
    g[s := g[s] + {b}]
  }

  // ----- cycles -----

  /** Ancestors remain when bases are added, whatever the ranks. */
  lemma {:induction false} AncestorStays<S>(g: Graph<S>, rank: map<S, nat>, h: Graph<S>, r: map<S, nat>, s: S, a: S)
    requires Ranked(g, rank) && Ranked(h, r) && s in g && IsAncestor(g, rank, s, a)
    requires forall t | t in g :: t in h && g[t] <= h[t]
    ensures s in h && IsAncestor(h, r, s, a)
    decreases rank[s]
  {
    var p :| p in g[s] && (p == a || IsAncestor(g, rank, p, a));
    if p != a { AncestorStays(g, rank, h, r, p, a); }
    assert p in h[s];
  }

  /** Ranks after s has got the base b: s and what inherits from it moves above b. */
  ghost function Lifted<S>(g: Graph<S>, rank: map<S, nat>, s: S, b: S): map<S, nat>
    requires Ranked(g, rank) && s in g && b in g
  {
    map x | x in rank :: if x in g && InClosure(g, rank, x, s) then rank[x] + rank[b] + 1 else rank[x]
  }

  lemma {:induction false} LiftedRanked<S>(g: Graph<S>, rank: map<S, nat>, s: S, b: S)
    requires Ranked(g, rank) && s in g && b in g && !InClosure(g, rank, b, s)
    ensures Ranked(g, Lifted(g, rank, s, b)) && Ranked(Extended(g, s, b), Lifted(g, rank, s, b))
    ensures Lifted(g, rank, s, b)[b] < Lifted(g, rank, s, b)[s]
  {
    var r := Lifted(g, rank, s, b);
    forall t, p | t in g && p in g[t]
      ensures p in g && r[p] < r[t]
    {
      if InClosure(g, rank, p, s) { assert IsAncestor(g, rank, t, s); }
    }
  }

  /** A new base makes a cycle exactly when it is the slot itself or inherits from it. Such a base is rejected
      exactly when the slot has bases already. */
  lemma {:induction false} CycleIff<S>(g: Graph<S>, rank: map<S, nat>, s: S, b: S)
    requires Ranked(g, rank) && s in g && b in g
    ensures (forall r: map<S, nat> :: !Ranked(Extended(g, s, b), r)) <==> InClosure(g, rank, b, s)
    ensures InClosure(g, rank, b, s) ==> (Rejects(g, rank, s, b) <==> g[s] != {})
  {
    var h := Extended(g, s, b);
    if InClosure(g, rank, b, s) {
      forall r: map<S, nat>
        ensures !Ranked(h, r)
      {
        if Ranked(h, r) {
          assert b in h[s];
          if b != s {
            AncestorStays(g, rank, h, r, b, s);
            AncestorBelow(h, r, b, s);
          }
        }
      }
      RejectsIff(g, rank, s, b);
      if p :| p in g[s] {
        assert IsAncestor(g, rank, s, p);
        if b != s { Transitive(g, rank, b, s, p); }
        assert InClosure(g, rank, b, p);
      }
    } else {
      LiftedRanked(g, rank, s, b);
    }
  }

  /** A slot without bases accepts itself as base, which leaves a cycle. */
  lemma {:induction false} SelfAccepted<S>(g: Graph<S>, rank: map<S, nat>, s: S)
    requires Ranked(g, rank) && s in g
    ensures Rejects(g, rank, s, s) <==> g[s] != {}
    ensures forall r: map<S, nat> :: !Ranked(Extended(g, s, s), r)
  {
    CycleIff(g, rank, s, s);
  }

  /** Slot 0 accepts slot 1, which inherits from it. */
  lemma {:induction false} DerivedAccepted()
    ensures var g, rank := map[0 := {}, 1 := {0}], map[0 := 0, 1 := 1];
            Ranked(g, rank) && !Rejects(g, rank, 0, 1) && forall r: map<int, nat> :: !Ranked(Extended(g, 0, 1), r)
  {
    var g: Graph<int>, rank: map<int, nat> := map[0 := {}, 1 := {0}], map[0 := 0, 1 := 1];
    assert IsAncestor(g, rank, 1, 0);
    CycleIff(g, rank, 0, 1);
  }

  // ----- diamonds -----

  /** The new base adds its ancestors to the slot and to all that inherit from it. */
  lemma {:induction false} ExtendedAncestor<S>(g: Graph<S>, rank: map<S, nat>, s: S, b: S, d: S, a: S)
    requires Ranked(g, rank) && s in g && b in g && rank[b] < rank[s] && d in g
    ensures Ranked(Extended(g, s, b), rank)
    ensures IsAncestor(Extended(g, s, b), rank, d, a) <==>
            IsAncestor(g, rank, d, a) || (InClosure(g, rank, d, s) && InClosure(g, rank, b, a))
    decreases rank[d]
  {
    var h := Extended(g, s, b);
    forall p | p in h[d] && p != b
      ensures IsAncestor(h, rank, p, a) <==> IsAncestor(g, rank, p, a) || (InClosure(g, rank, p, s) && InClosure(g, rank, b, a))
    {
      ExtendedAncestor(g, rank, s, b, p, a);
    }
    if rank[b] < rank[d] {
      ExtendedAncestor(g, rank, s, b, b, a);
      if IsAncestor(g, rank, b, s) { AncestorBelow(g, rank, b, s); }
      assert IsAncestor(h, rank, b, a) <==> IsAncestor(g, rank, b, a);
    }
    if IsAncestor(g, rank, d, a) {
      var p :| p in g[d] && (p == a || IsAncestor(g, rank, p, a));
      assert p in h[d];
    }
    if InClosure(g, rank, d, s) && InClosure(g, rank, b, a) {
      if d == s {
        assert b in h[d];
      } else {
        var p :| p in g[d] && (p == s || IsAncestor(g, rank, p, s));
        assert p in h[d];
      }
    }
  }

  /** The base is accepted by the slot and by everything that inherits from the slot. */
  ghost predicate AcceptedByAll<S>(g: Graph<S>, rank: map<S, nat>, s: S, b: S)
    requires Ranked(g, rank) && s in g && b in g
  {
    forall d | d in g && InClosure(g, rank, d, s) :: !Meets(g, rank, d, b)
  }

  /** Before b became a base of s: a is above d, or will be through s. */
  ghost predicate Joins<S>(g: Graph<S>, rank: map<S, nat>, s: S, b: S, d: S, a: S)
    requires Ranked(g, rank) && b in g && d in g
  {
    InClosure(g, rank, d, a) || (InClosure(g, rank, d, s) && InClosure(g, rank, b, a))
  }

  lemma {:induction false} ExtendedClosure<S>(g: Graph<S>, rank: map<S, nat>, s: S, b: S, d: S, a: S)
    requires Ranked(g, rank) && s in g && b in g && rank[b] < rank[s] && d in g
    ensures Ranked(Extended(g, s, b), rank)
    ensures InClosure(Extended(g, s, b), rank, d, a) <==> Joins(g, rank, s, b, d, a)
  {
    ExtendedAncestor(g, rank, s, b, d, a);
  }

  /** What a slot d above or at s inherits already is no ancestor of an accepted base. */
  lemma {:induction false} Apart<S>(g: Graph<S>, rank: map<S, nat>, s: S, b: S, d: S, p: S, a: S)
    requires Ranked(g, rank) && s in g && b in g && AcceptedByAll(g, rank, s, b)
    requires d in g && InClosure(g, rank, d, s) && p in g[d] && InClosure(g, rank, p, a)
    ensures a in g && !InClosure(g, rank, b, a)
  {
    assert IsAncestor(g, rank, d, a);
    AncestorBelow(g, rank, d, a);
    assert !Meets(g, rank, d, b);
  }

  lemma {:induction false} NotAbove<S>(g: Graph<S>, rank: map<S, nat>, s: S, p: S)
    requires Ranked(g, rank) && s in g && p in g && rank[p] < rank[s]
    ensures !InClosure(g, rank, p, s)
  {
    if IsAncestor(g, rank, p, s) { AncestorBelow(g, rank, p, s); }
  }

  /** Old bases of t share nothing after s has got the new base. */
  lemma {:induction false} OldBases<S>(g: Graph<S>, rank: map<S, nat>, s: S, b: S, t: S, p: S, q: S, a: S)
    requires Ranked(g, rank) && TreeLike(g, rank) && s in g && b in g && AcceptedByAll(g, rank, s, b)
    requires t in g && p in g[t] && q in g[t] && a in g
    requires Joins(g, rank, s, b, p, a) && Joins(g, rank, s, b, q, a)
    ensures p == q
  {
    if InClosure(g, rank, p, s) || InClosure(g, rank, q, s) {
      assert InClosure(g, rank, t, s);
      if InClosure(g, rank, p, a) { Apart(g, rank, s, b, t, p, a); }
      if InClosure(g, rank, q, a) { Apart(g, rank, s, b, t, q, a); }
    }
  }

  /** The new base of s shares nothing with an old one. */
  lemma {:induction false} NewBase<S>(g: Graph<S>, rank: map<S, nat>, s: S, b: S, q: S, a: S)
    requires Ranked(g, rank) && s in g && b in g && rank[b] < rank[s] && AcceptedByAll(g, rank, s, b)
    requires q in g[s] && InClosure(g, rank, b, a)
    ensures !InClosure(g, rank, q, a) && !InClosure(g, rank, q, s)
  {
    NotAbove(g, rank, s, q);
    if InClosure(g, rank, q, a) { Apart(g, rank, s, b, s, q, a); }
  }

  lemma {:induction false} BasesApart<S>(g: Graph<S>, rank: map<S, nat>, s: S, b: S, t: S, p: S, q: S, a: S)
    requires Ranked(g, rank) && TreeLike(g, rank) && s in g && b in g && rank[b] < rank[s] && AcceptedByAll(g, rank, s, b)
    requires t in g && p in g && q in g && a in g
    requires (p in g[t] || (t == s && p == b)) && (q in g[t] || (t == s && q == b))
    requires Joins(g, rank, s, b, p, a) && Joins(g, rank, s, b, q, a)
    ensures p == q
  {
    NotAbove(g, rank, s, b);
    if p in g[t] && q in g[t] {
      OldBases(g, rank, s, b, t, p, q, a);
    } else if p in g[t] {
      NewBase(g, rank, s, b, p, a);
    } else if q in g[t] {
      NewBase(g, rank, s, b, q, a);
    }
  }

  /** What has to be shown of a graph h to call it tree-like. */
  ghost predicate TreeAt<S>(h: Graph<S>, rank: map<S, nat>, t: S, p: S, q: S, a: S)
    requires Ranked(h, rank)
  {
    t in h && p in h[t] && q in h[t] && a in h && InClosure(h, rank, p, a) && InClosure(h, rank, q, a) ==> p == q
  }

  lemma {:induction false} TreeEverywhere<S>(h: Graph<S>, rank: map<S, nat>)
    requires Ranked(h, rank) && forall t, p, q, a :: TreeAt(h, rank, t, p, q, a)
    ensures TreeLike(h, rank)
  {
    forall t, p, q, a | t in h && p in h[t] && q in h[t] && a in h && InClosure(h, rank, p, a) && InClosure(h, rank, q, a)
      ensures p == q
    {
      assert TreeAt(h, rank, t, p, q, a);
    }
  }

  lemma {:induction false} ExtendedAt<S>(g: Graph<S>, h: Graph<S>, rank: map<S, nat>, s: S, b: S, t: S, p: S, q: S, a: S)
    requires Ranked(g, rank) && TreeLike(g, rank) && s in g && b in g && rank[b] < rank[s] && AcceptedByAll(g, rank, s, b)
    requires Ranked(h, rank) && h.Keys == g.Keys
    requires t in g && p in h[t] ==> p in g && (p in g[t] || (t == s && p == b))
    requires t in g && q in h[t] ==> q in g && (q in g[t] || (t == s && q == b))
    requires p in g ==> (InClosure(h, rank, p, a) <==> Joins(g, rank, s, b, p, a))
    requires q in g ==> (InClosure(h, rank, q, a) <==> Joins(g, rank, s, b, q, a))
    ensures TreeAt(h, rank, t, p, q, a)
  {
    if t in g && p in h[t] && q in h[t] && a in g && InClosure(h, rank, p, a) && InClosure(h, rank, q, a) {
      BasesApart(g, rank, s, b, t, p, q, a);
    }
  }

  /** A base of t after s has got b: an old one, or b itself. */
  lemma {:induction false} ExtendedBase<S>(g: Graph<S>, rank: map<S, nat>, s: S, b: S, t: S, p: S, a: S)
    requires Ranked(g, rank) && s in g && b in g && rank[b] < rank[s]
    ensures Ranked(Extended(g, s, b), rank)
    ensures t in g && p in Extended(g, s, b)[t] ==> p in g && (p in g[t] || (t == s && p == b))
    ensures p in g ==> (InClosure(Extended(g, s, b), rank, p, a) <==> Joins(g, rank, s, b, p, a))
  {
    ExtendedClosure(g, rank, s, b, s, s);
    if p in g { ExtendedClosure(g, rank, s, b, p, a); }
  }

  lemma {:induction false} AcceptedKeepsTree<S>(g: Graph<S>, rank: map<S, nat>, s: S, b: S)
    requires Ranked(g, rank) && TreeLike(g, rank) && s in g && b in g && rank[b] < rank[s] && AcceptedByAll(g, rank, s, b)
    ensures Ranked(Extended(g, s, b), rank) && TreeLike(Extended(g, s, b), rank)
  {
    var h := Extended(g, s, b);
    ExtendedClosure(g, rank, s, b, s, s);
    forall t, p, q, a
      ensures TreeAt(h, rank, t, p, q, a)
    {
      ExtendedBase(g, rank, s, b, t, p, a);
      ExtendedBase(g, rank, s, b, t, q, a);
      ExtendedAt(g, h, rank, s, b, t, p, q, a);
    }
    TreeEverywhere(h, rank);
  }

  /** A slot that inherits from s and meets the new base is left with two ways to a common ancestor. */
  lemma {:induction false} MeetingBreaksTree<S>(g: Graph<S>, rank: map<S, nat>, s: S, b: S, d: S, a: S)
    requires Ranked(g, rank) && s in g && b in g && rank[b] < rank[s] && b !in g[s]
    requires d in g && InClosure(g, rank, d, s) && a in g && InClosure(g, rank, b, a) && IsAncestor(g, rank, d, a)
    ensures Ranked(Extended(g, s, b), rank) && !TreeLike(Extended(g, s, b), rank)
    decreases rank[d]
  {
    var h := Extended(g, s, b);
    var q :| q in g[d] && (q == a || IsAncestor(g, rank, q, a));
    ExtendedClosure(g, rank, s, b, q, a);
    assert rank[a] <= rank[b] by { if a != b { AncestorBelow(g, rank, b, a); } }
    if d == s {
      ExtendedClosure(g, rank, s, b, b, a);
      assert b in h[s] && q in h[s] && InClosure(h, rank, b, a) && InClosure(h, rank, q, a) && b != q;
    } else {
      var p :| p in g[d] && (p == s || IsAncestor(g, rank, p, s));
      assert rank[s] <= rank[p] by { if p != s { AncestorBelow(g, rank, p, s); } }
      if p == q {
        MeetingBreaksTree(g, rank, s, b, p, a);
      } else {
        ExtendedClosure(g, rank, s, b, p, a);
        assert p in h[d] && q in h[d] && InClosure(h, rank, p, a) && InClosure(h, rank, q, a);
      }
    }
  }

  lemma {:induction false} KeepsTreeWhenRanked<S>(g: Graph<S>, rank: map<S, nat>, s: S, b: S)
    requires Ranked(g, rank) && TreeLike(g, rank) && s in g && b in g && rank[b] < rank[s] && b !in g[s]
    ensures Ranked(Extended(g, s, b), rank)
    ensures TreeLike(Extended(g, s, b), rank) <==> AcceptedByAll(g, rank, s, b)
  {
    ExtendedClosure(g, rank, s, b, s, s);
    if AcceptedByAll(g, rank, s, b) {
      AcceptedKeepsTree(g, rank, s, b);
    } else {
      var d :| d in g && InClosure(g, rank, d, s) && Meets(g, rank, d, b);
      var a :| a in g && InClosure(g, rank, b, a) && IsAncestor(g, rank, d, a);
      MeetingBreaksTree(g, rank, s, b, d, a);
    }
  }

  /** Ranks do not matter. */
  lemma {:induction false} SameAncestors<S>(g: Graph<S>, rank: map<S, nat>, r: map<S, nat>, s: S, a: S)
    requires Ranked(g, rank) && Ranked(g, r) && s in g
    ensures IsAncestor(g, rank, s, a) <==> IsAncestor(g, r, s, a)
  {
    if IsAncestor(g, rank, s, a) { AncestorStays(g, rank, g, r, s, a); }
    if IsAncestor(g, r, s, a) { AncestorStays(g, r, g, rank, s, a); }
  }

  lemma {:induction false} SameTreeAt<S>(g: Graph<S>, rank: map<S, nat>, r: map<S, nat>, s: S, p: S, q: S, a: S)
    requires Ranked(g, rank) && Ranked(g, r) && TreeAt(g, rank, s, p, q, a)
    ensures TreeAt(g, r, s, p, q, a)
  {
    if s in g && p in g[s] && q in g[s] {
      SameAncestors(g, rank, r, p, a);
      SameAncestors(g, rank, r, q, a);
    }
  }

  lemma {:induction false} TreeHere<S>(g: Graph<S>, rank: map<S, nat>, s: S, p: S, q: S, a: S)
    requires Ranked(g, rank) && TreeLike(g, rank)
    ensures TreeAt(g, rank, s, p, q, a)
  {
  }

  lemma {:induction false} SameTrees<S>(g: Graph<S>, rank: map<S, nat>, r: map<S, nat>)
    requires Ranked(g, rank) && Ranked(g, r) && TreeLike(g, rank)
    ensures TreeLike(g, r)
  {
    forall s, p, q, a
      ensures TreeAt(g, r, s, p, q, a)
    {
      TreeHere(g, rank, s, p, q, a);
      SameTreeAt(g, rank, r, s, p, q, a);
    }
    TreeEverywhere(g, r);
  }

  lemma {:induction false} SameMeetings<S>(g: Graph<S>, rank: map<S, nat>, r: map<S, nat>, s: S, b: S)
    requires Ranked(g, rank) && Ranked(g, r) && s in g && b in g && Meets(g, rank, s, b)
    ensures Meets(g, r, s, b)
  {
    var a :| a in g && InClosure(g, rank, b, a) && IsAncestor(g, rank, s, a);
    SameAncestors(g, rank, r, b, a);
    SameAncestors(g, rank, r, s, a);
  }

  lemma {:induction false} SameAcceptance<S>(g: Graph<S>, rank: map<S, nat>, r: map<S, nat>, s: S, b: S)
    requires Ranked(g, rank) && Ranked(g, r) && s in g && b in g && AcceptedByAll(g, rank, s, b)
    ensures AcceptedByAll(g, r, s, b)
  {
    forall d | d in g && InClosure(g, r, d, s)
      ensures !Meets(g, r, d, b)
    {
      SameAncestors(g, rank, r, d, s);
      if Meets(g, r, d, b) { SameMeetings(g, r, rank, d, b); }
    }
  }

  /** The answer of the check does not depend on the ranks. */
  lemma {:induction false} SameAnswer<S>(g: Graph<S>, rank: map<S, nat>, r: map<S, nat>, s: S, b: S)
    requires Ranked(g, rank) && Ranked(g, r) && s in g && b in g
    ensures Rejects(g, rank, s, b) <==> Rejects(g, r, s, b)
  {
    RejectsIff(g, rank, s, b);
    RejectsIff(g, r, s, b);
    if Meets(g, rank, s, b) { SameMeetings(g, rank, r, s, b); }
    if Meets(g, r, s, b) { SameMeetings(g, r, rank, s, b); }
  }

  /** Adding a base keeps inheritance free of cycles and diamonds exactly when the base is not the slot itself and
      every slot that inherits from this one would accept the base too. */
  lemma {:induction false} KeepsTreeIff<S>(g: Graph<S>, rank: map<S, nat>, s: S, b: S)
    requires Ranked(g, rank) && TreeLike(g, rank) && s in g && b in g && b !in g[s]
    ensures (exists r: map<S, nat> :: Ranked(Extended(g, s, b), r) && TreeLike(Extended(g, s, b), r)) <==>
            b != s && AcceptedByAll(g, rank, s, b)
  {
    var h := Extended(g, s, b);
    if InClosure(g, rank, b, s) {
      CycleIff(g, rank, s, b);
      if b != s { assert Meets(g, rank, b, b); }
    } else {
      var r := Lifted(g, rank, s, b);
      LiftedRanked(g, rank, s, b);
      SameTrees(g, rank, r);
      KeepsTreeWhenRanked(g, r, s, b);
      if AcceptedByAll(g, rank, s, b) { SameAcceptance(g, rank, r, s, b); }
      if q: map<S, nat> :| Ranked(h, q) && TreeLike(h, q) {
        SameTrees(h, q, r);
        SameAcceptance(g, r, rank, s, b);
      }
    }
  }

  /** No slot inherits from s yet. */
  predicate Unused<S>(g: Graph<S>, s: S) {
    forall t | t in g :: s !in g[t]
  }

  /** A slot is complete before it is used as a base: then the check of the slot alone decides. */
  lemma {:induction false} UnusedKeepsTree<S>(g: Graph<S>, rank: map<S, nat>, s: S, b: S)
    requires Ranked(g, rank) && s in g && b in g && Unused(g, s)
    ensures AcceptedByAll(g, rank, s, b) <==> !Rejects(g, rank, s, b)
    ensures InClosure(g, rank, b, s) <==> b == s
  {
    if b != s { NeverAncestor(g, rank, b, s); }
    RejectsIff(g, rank, s, b);
    forall d | d in g && InClosure(g, rank, d, s)
      ensures d == s
    {
      if d != s { NeverAncestor(g, rank, d, s); }
    }
  }

  lemma {:induction false} NeverAncestor<S>(g: Graph<S>, rank: map<S, nat>, d: S, s: S)
    requires Ranked(g, rank) && d in g && Unused(g, s)
    ensures !IsAncestor(g, rank, d, s)
    decreases rank[d]
  {
    forall p | p in g[d]
      ensures p != s && !IsAncestor(g, rank, p, s)
    {
      NeverAncestor(g, rank, p, s);
    }
  }

  /** Slot 0 inherits from 1 and 2, slot 1 from 3. */
  const LATE: Graph<int> := map[0 := {1, 2}, 1 := {3}, 2 := {}, 3 := {}]
  const LATE_RANK: map<int, nat> := map[0 := 2, 1 := 1, 2 := 1, 3 := 0]

  lemma {:induction false} LateAncestors(a: int)
    ensures Ranked(LATE, LATE_RANK)
    ensures !IsAncestor(LATE, LATE_RANK, 2, a) && !IsAncestor(LATE, LATE_RANK, 3, a)
    ensures IsAncestor(LATE, LATE_RANK, 1, a) <==> a == 3
  {
  }

  lemma {:induction false} LateIsTree()
    ensures Ranked(LATE, LATE_RANK) && TreeLike(LATE, LATE_RANK)
  {
    LateAncestors(0);
    forall s, p, q, a | s in LATE && p in LATE[s] && q in LATE[s] && a in LATE && InClosure(LATE, LATE_RANK, p, a) && InClosure(LATE, LATE_RANK, q, a)
      ensures p == q
    {
      LateAncestors(a);
    }
  }

  /** The check alone does not suffice: giving base 3 to slot 2 while slot 0 inherits from it already passes
      the check and leaves two paths from slot 0 to slot 3. */
  lemma {:induction false} LateBase()
    ensures && Ranked(LATE, LATE_RANK) && TreeLike(LATE, LATE_RANK) && !Rejects(LATE, LATE_RANK, 2, 3)
            && Ranked(Extended(LATE, 2, 3), LATE_RANK) && !TreeLike(Extended(LATE, 2, 3), LATE_RANK)
  {
    LateIsTree();
    LateAncestors(3);
    assert IsAncestor(LATE, LATE_RANK, 0, 3) && InClosure(LATE, LATE_RANK, 0, 2);
    MeetingBreaksTree(LATE, LATE_RANK, 2, 3, 0, 3);
  }

  // ----- runs -----

  datatype Request<S> = Request(slot: S, base: S)

  ghost function After<S>(g: Graph<S>, rank: map<S, nat>, r: Request<S>): Graph<S>
    requires Ranked(g, rank) && r.slot in g && r.base in g
  {
    if Rejects(g, rank, r.slot, r.base) then g else Extended(g, r.slot, r.base)
  }

  ghost function RankAfter<S>(g: Graph<S>, rank: map<S, nat>, r: Request<S>): map<S, nat>
    requires Ranked(g, rank) && r.slot in g && r.base in g && r.base != r.slot && Unused(g, r.slot)
    ensures Ranked(After(g, rank, r), RankAfter(g, rank, r))
  {
    NeverAncestor(g, rank, r.base, r.slot);
    LiftedRanked(g, rank, r.slot, r.base);
    if Rejects(g, rank, r.slot, r.base) then rank else Lifted(g, rank, r.slot, r.base)
  }

  /** No slot asks for itself, and each is complete before it is used. */
  ghost predicate Disciplined<S>(g: Graph<S>, rank: map<S, nat>, rs: seq<Request<S>>)
    requires Ranked(g, rank)
    decreases rs
  {
    rs == [] ||
    (&& rs[0].slot in g && rs[0].base in g && rs[0].base != rs[0].slot && Unused(g, rs[0].slot)
     && Disciplined(After(g, rank, rs[0]), RankAfter(g, rank, rs[0]), rs[1..]))
  }

  ghost function Run<S>(g: Graph<S>, rank: map<S, nat>, rs: seq<Request<S>>): Graph<S>
    requires Ranked(g, rank) && Disciplined(g, rank, rs)
    decreases rs
  {
    if rs == [] then g else Run(After(g, rank, rs[0]), RankAfter(g, rank, rs[0]), rs[1..])
  }

  /** Ranks after the last request. */
  ghost function LastRank<S>(g: Graph<S>, rank: map<S, nat>, rs: seq<Request<S>>): map<S, nat>
    requires Ranked(g, rank) && Disciplined(g, rank, rs)
    ensures Ranked(Run(g, rank, rs), LastRank(g, rank, rs))
    decreases rs
  {
    if rs == [] then rank else LastRank(After(g, rank, rs[0]), RankAfter(g, rank, rs[0]), rs[1..])
  }

  /** Every disciplined sequence of requests, accepted or rejected, keeps inheritance free of cycles and diamonds. */
  lemma {:induction false} RunKeepsTree<S>(g: Graph<S>, rank: map<S, nat>, rs: seq<Request<S>>)
    requires Ranked(g, rank) && Disciplined(g, rank, rs) && TreeLike(g, rank)
    ensures Ranked(Run(g, rank, rs), LastRank(g, rank, rs)) && TreeLike(Run(g, rank, rs), LastRank(g, rank, rs))
    decreases rs
  {
    if rs != [] {
      var r := rs[0];
      AcceptedStep(g, rank, r.slot, r.base);
      RunKeepsTree(After(g, rank, r), RankAfter(g, rank, r), rs[1..]);
    }
  }

  /** What one request leaves to an unused slot. */
  lemma {:induction false} AcceptedStep<S>(g: Graph<S>, rank: map<S, nat>, s: S, b: S)
    requires Ranked(g, rank) && TreeLike(g, rank) && s in g && b in g && b != s && Unused(g, s)
    ensures TreeLike(After(g, rank, Request(s, b)), RankAfter(g, rank, Request(s, b)))
  {
    UnusedKeepsTree(g, rank, s, b);
    if !Rejects(g, rank, s, b) {
      var r := Lifted(g, rank, s, b);
      LiftedRanked(g, rank, s, b);
      SameTrees(g, rank, r);
      SameAcceptance(g, rank, r, s, b);
      AcceptedKeepsTree(g, r, s, b);
    }
  }

  // ----- slots -----

  /** The direct bases of some slots. */
  ghost function GraphOf(slots: set<Slot>): Graph<Slot>
    reads slots
  {
    map s | s in slots :: s.predecessorSet
  }

  class Slot {
    const name: string
    var predecessorSet: set<Slot>
    var baseSlots: seq<Slot>

    constructor (name: string)
      ensures this.name == name && predecessorSet == {} && Consistent()
    {
      this.name := name;
      predecessorSet, baseSlots := {}, [];
    }

    /** Each base is listed once, in the order in which the bases were added. */
    ghost predicate Consistent()
      reads this
    {
      && (forall b | b in predecessorSet :: b in baseSlots)
      && (forall b | b in baseSlots :: b in predecessorSet)
      && (forall i, j | 0 <= i < j < |baseSlots| :: baseSlots[i] != baseSlots[j])
    }

    /** Whether base can be added; the order in which a set is gone through does not matter. */
    method CheckPredecessors(base: Slot, ghost slots: set<Slot>, ghost g: Graph<Slot>, ghost rank: map<Slot, nat>) returns (status: Result<()>)
      requires this in slots && base in slots && g == GraphOf(slots) && Ranked(g, rank)
      ensures status == if Rejects(g, rank, this, base) then Err(AlreadyExists) else Ok(())
      decreases rank[this] + rank[base]
    {
      assert g[this] == predecessorSet && g[base] == base.predecessorSet;
      BasesInGraph(g, rank, this);
      BasesInGraph(g, rank, base);
      if base in predecessorSet {
        return Err(AlreadyExists);
      }
      var todo := predecessorSet;
      while todo != {}
        invariant todo <= predecessorSet <= slots && g == GraphOf(slots)
        invariant forall p | p in predecessorSet - todo :: !Rejects(g, rank, p, base)
        decreases todo
      {
        var pred :| pred in todo;
        todo := todo - {pred};
        status := pred.CheckPredecessors(base, slots, g, rank);
        if status.Err? {
          return;
        }
      }
      todo := base.predecessorSet;
      while todo != {}
        invariant todo <= base.predecessorSet <= slots && g == GraphOf(slots)
        invariant forall c | c in base.predecessorSet - todo :: !Rejects(g, rank, this, c)
        decreases todo
      {
        var basePred :| basePred in todo;
        todo := todo - {basePred};
        status := CheckPredecessors(basePred, slots, g, rank);
        if status.Err? {
          return;
        }
      }
      return Ok(());
    }

    /** Adds a base unless the check rejects it. */
    method AddBase(base: Slot, ghost slots: set<Slot>, ghost rank: map<Slot, nat>) returns (status: Result<()>)
      requires this in slots && base in slots && Ranked(GraphOf(slots), rank) && Consistent()
      modifies this
      ensures Consistent()
      ensures status == if Rejects(old(GraphOf(slots)), rank, this, base) then Err(AlreadyExists) else Ok(())
      ensures status.Err? ==> unchanged(this)
      ensures status.Ok? ==> GraphOf(slots) == Extended(old(GraphOf(slots)), this, base) && baseSlots == old(baseSlots) + [base]
      ensures (exists r: map<Slot, nat> :: Ranked(GraphOf(slots), r)) <==> status.Err? || !InClosure(old(GraphOf(slots)), rank, base, this)
      ensures TreeLike(old(GraphOf(slots)), rank) && Unused(old(GraphOf(slots)), this) && base != this ==>
                exists r: map<Slot, nat> :: Ranked(GraphOf(slots), r) && TreeLike(GraphOf(slots), r)
    {
      ghost var g := GraphOf(slots);
      status := CheckPredecessors(base, slots, g, rank);
      if status.Err? {
        assert GraphOf(slots) == g;
        return;
      }
      predecessorSet := predecessorSet + {base};
      baseSlots := baseSlots + [base];
      assert GraphOf(slots) == Extended(g, this, base);
      NewBaseRejected(g, rank, this, base);
      CycleIff(g, rank, this, base);
      if TreeLike(g, rank) && Unused(g, this) && base != this { AcceptedStep(g, rank, this, base); }
    }
  }

  lemma {:induction false} BasesInGraph<S>(g: Graph<S>, rank: map<S, nat>, s: S)
    requires Ranked(g, rank) && s in g
    ensures g[s] <= g.Keys
  {
  }

  lemma {:induction false} NewBaseRejected<S>(g: Graph<S>, rank: map<S, nat>, s: S, b: S)
    requires Ranked(g, rank) && s in g && b in g
    ensures b in g[s] ==> Rejects(g, rank, s, b)
  {
  }
}
