/** What removing, linking and renaming do, told by paths and data alone: which paths lead
    where afterwards, and that no file's data changes. */
module NamespaceLaws {
  import opened Wrappers
  import opened Layout
  import opened Namespace

  /** Whatever is in the tree was there before, of the same kind and with the same data. */
  ghost predicate KeepsData(ns: Nodes, m: Nodes)
  {
    forall n: nat | n in m :: n in ns && IsDir(m, n) == IsDir(ns, n) && (m[n].File? ==> m[n].data == ns[n].data)
  }

  ghost predicate SameWay(ns: Nodes, m: Nodes, q: seq<Name>) { Resolve(m, q) == Resolve(ns, q) }

  /** Path p leads nowhere any more, and every other path where it did. */
  ghost predicate PathGone(ns: Nodes, m: Nodes, p: seq<Name>)
  {
    && KeepsData(ns, m) && Resolve(m, p) == None
    && forall q: seq<Name> | Clean(q) && q != p :: SameWay(ns, m, q)
  }

  /** Path q leads where p does, and every other path where it did. */
  ghost predicate PathAdded(ns: Nodes, m: Nodes, p: seq<Name>, q: seq<Name>)
  {
    && KeepsData(ns, m) && Resolve(m, q) == Resolve(ns, p)
    && forall r: seq<Name> | Clean(r) && r != q :: SameWay(ns, m, r)
  }

  /** Whatever lay at or below p lies at or below q, nothing lies at or below p, and every
      other path leads where it did. */
  ghost predicate PathMoved(ns: Nodes, m: Nodes, p: seq<Name>, q: seq<Name>)
  {
    && KeepsData(ns, m)
    && (forall r: seq<Name> | Clean(r) :: Resolve(m, q + r) == Resolve(ns, p + r))
    && (forall r: seq<Name> | Clean(r) && p <= r && !(q <= r) :: Resolve(m, r) == None)
    && (forall r: seq<Name> | Clean(r) && !(p <= r) && !(q <= r) :: SameWay(ns, m, r))
  }

  // ----- walks -----

  /** Entries other than a of s and b of t are as they were, dots apart. */
  ghost predicate Redrawn(ns: Nodes, m: Nodes, s: nat, a: Name, t: nat, b: Name)
  {
    forall e: nat, c: Name {:trigger Names(m, e, c)} {:trigger Names(ns, e, c)} |
      !IsDot(c) && !(e == s && c == a) && !(e == t && c == b) ::
      Names(m, e, c) == Names(ns, e, c) && Child(m, e, c) == Child(ns, e, c)
  }

  ghost predicate Tree(ns: Nodes) { Dotted(ns) && Rooted(ns) }

  /** Path p leads to directory d. */
  ghost predicate LeadsTo(ns: Nodes, p: seq<Name>, d: nat)
  {
    Clean(p) && Resolve(ns, p) == Some(d) && IsDir(ns, d)
  }

  /** A path that runs through neither entry leads where it did. */
  lemma {:induction false} Elsewhere(ns: Nodes, m: Nodes, sp: seq<Name>, s: nat, a: Name, tp: seq<Name>, t: nat, b: Name, q: seq<Name>)
    requires Tree(ns) && Redrawn(ns, m, s, a, t, b) && LeadsTo(ns, sp, s) && LeadsTo(ns, tp, t)
    requires Clean(q) && !(sp + [a] <= q) && !(tp + [b] <= q)
    ensures SameWay(ns, m, q)
    decreases |q|
  {
    if q != [] {
      hide Dotted, Rooted, Walk, Clean;
      var q', l := q[..|q| - 1], q[|q| - 1];
      assert q == q' + [l];
      CleanParts(q);
      Elsewhere(ns, m, sp, s, a, tp, t, b, q');
      WalkLast(ns, ROOT, q);
      WalkLast(m, ROOT, q);
      if Resolve(ns, q').Some? {
        var e := Resolve(ns, q').value;
        if e == s && l == a { PathUnique(ns, q', sp, s); }
        if e == t && l == b { PathUnique(ns, q', tp, t); }
        assert Names(m, e, l) == Names(ns, e, l);
      }
    }
  }

  lemma CleanParts(q: seq<Name>)
    requires Clean(q) && q != []
    ensures Clean(q[..|q| - 1]) && !IsDot(q[|q| - 1])
  {
  }

  lemma CleanLonger(p: seq<Name>, r: seq<Name>)
    requires Clean(p) && Clean(r)
    ensures Clean(p + r)
  {
  }

  /** A path through one that leads nowhere leads nowhere. */
  lemma NowhereFurther(ns: Nodes, p: seq<Name>, q: seq<Name>)
    requires Resolve(ns, p) == None && p <= q
    ensures Resolve(ns, q) == None
  {
    assert q == p + q[|p|..];
    WalkSplit(ns, ROOT, p, q[|p|..]);
  }

  /** Nothing lies below a node without entries but the dots. */
  lemma NothingBelow(ns: Nodes, p: seq<Name>, n: nat, q: seq<Name>)
    requires Resolve(ns, p) == Some(n) && Clean(q) && p < q && (IsDir(ns, n) ==> Bare(ns, n))
    ensures Resolve(ns, q) == None
  {
    var rest := q[|p|..];
    assert q == p + rest && rest != [];
    WalkSplit(ns, ROOT, p, rest);
    assert !IsDot(q[|p|]) && !Names(ns, n, rest[0]);
  }

  lemma EntryPath(ns: Nodes, sp: seq<Name>, s: nat, a: Name)
    requires Resolve(ns, sp) == Some(s)
    ensures Resolve(ns, sp + [a]) == if Names(ns, s, a) then Some(Child(ns, s, a)) else None
  {
    assert (sp + [a])[..|sp|] == sp;
    WalkLast(ns, ROOT, sp + [a]);
  }

  // ----- the three changes -----

  /** An entry is cut that leads to a file or to a bare directory. */
  lemma Cut(ns: Nodes, m: Nodes, sp: seq<Name>, s: nat, a: Name)
    requires Tree(ns) && Redrawn(ns, m, s, a, s, a) && LeadsTo(ns, sp, s) && Names(ns, s, a) && !Names(m, s, a) && !IsDot(a)
    requires IsDir(ns, Child(ns, s, a)) ==> Bare(ns, Child(ns, s, a))
    requires KeepsData(ns, m)
    ensures PathGone(ns, m, sp + [a])
  {
    hide Dotted, Rooted, Walk, Redrawn, Bare, KeepsData;
    var p := sp + [a];
    Elsewhere(ns, m, sp, s, a, sp, s, a, sp);
    EntryPath(ns, sp, s, a);
    EntryPath(m, sp, s, a);
    forall q: seq<Name> | Clean(q) && q != p ensures SameWay(ns, m, q) {
      if p <= q {
        NothingBelow(ns, p, Child(ns, s, a), q);
        NowhereFurther(m, p, q);
      } else {
        Elsewhere(ns, m, sp, s, a, sp, s, a, q);
      }
    }
  }

  /** An entry is made that leads to a file. */
  lemma Grown(ns: Nodes, m: Nodes, p: seq<Name>, f: nat, tp: seq<Name>, t: nat, b: Name)
    requires Tree(ns) && Redrawn(ns, m, t, b, t, b) && LeadsTo(ns, tp, t) && !Names(ns, t, b) && !IsDot(b)
    requires Names(m, t, b) && Child(m, t, b) == f && Resolve(ns, p) == Some(f) && !IsDir(m, f)
    requires KeepsData(ns, m)
    ensures PathAdded(ns, m, p, tp + [b])
  {
    hide Dotted, Rooted, Walk, Redrawn, KeepsData;
    var q := tp + [b];
    Elsewhere(ns, m, tp, t, b, tp, t, b, tp);
    EntryPath(ns, tp, t, b);
    EntryPath(m, tp, t, b);
    forall r: seq<Name> | Clean(r) && r != q ensures SameWay(ns, m, r) {
      if q <= r {
        NothingBelow(m, q, f, r);
        NowhereFurther(ns, q, r);
      } else {
        Elsewhere(ns, m, tp, t, b, tp, t, b, r);
      }
    }
  }

  /** Entry a of s goes and entry b of t comes, leading to the same node. */
  ghost predicate Rehung(ns: Nodes, m: Nodes, sp: seq<Name>, s: nat, a: Name, tp: seq<Name>, t: nat, b: Name)
  {
    && Tree(ns) && Redrawn(ns, m, s, a, t, b) && LeadsTo(ns, sp, s) && LeadsTo(ns, tp, t)
    && Names(ns, s, a) && !Names(ns, t, b) && !IsDot(a) && !IsDot(b)
    && !Names(m, s, a) && Names(m, t, b) && Child(m, t, b) == Child(ns, s, a)
    && !(sp + [a] <= tp)
  }

  /** Both directories are still found. */
  lemma HoldersStay(ns: Nodes, m: Nodes, sp: seq<Name>, s: nat, a: Name, tp: seq<Name>, t: nat, b: Name)
    requires Rehung(ns, m, sp, s, a, tp, t, b)
    ensures Resolve(m, sp) == Some(s) && Resolve(m, tp) == Some(t) && !(tp + [b] <= sp)
  {
    hide Dotted, Rooted, Walk, Redrawn;
    EntryPath(ns, tp, t, b);
    if tp + [b] <= sp { NowhereFurther(ns, tp + [b], sp); }
    Elsewhere(ns, m, sp, s, a, tp, t, b, sp);
    Elsewhere(ns, m, sp, s, a, tp, t, b, tp);
  }

  lemma {:induction false} BelowMoved(ns: Nodes, m: Nodes, sp: seq<Name>, s: nat, a: Name, tp: seq<Name>, t: nat, b: Name, r: seq<Name>)
    requires Rehung(ns, m, sp, s, a, tp, t, b) && Clean(r)
    ensures Resolve(m, tp + [b] + r) == Resolve(ns, sp + [a] + r)
    decreases |r|
  {
    hide Dotted, Rooted, Walk, Clean;
    var p, q := sp + [a], tp + [b];
    HoldersStay(ns, m, sp, s, a, tp, t, b);
    EntryPath(ns, sp, s, a);
    EntryPath(m, tp, t, b);
    if r == [] {
      assert p + r == p && q + r == q;
    } else {
      var r', l := r[..|r| - 1], r[|r| - 1];
      CleanParts(r);
      BelowMoved(ns, m, sp, s, a, tp, t, b, r');
      StepBelow(ns, m, sp, s, a, tp, t, b, r', l);
      assert r == r' + [l] && p + r == p + r' + [l] && q + r == q + r' + [l];
    }
  }

  lemma StepBelow(ns: Nodes, m: Nodes, sp: seq<Name>, s: nat, a: Name, tp: seq<Name>, t: nat, b: Name, r: seq<Name>, l: Name)
    requires Rehung(ns, m, sp, s, a, tp, t, b) && Clean(r) && !IsDot(l)
    requires Resolve(m, tp + [b] + r) == Resolve(ns, sp + [a] + r)
    ensures Resolve(m, tp + [b] + r + [l]) == Resolve(ns, sp + [a] + r + [l])
  {
    hide Dotted, Rooted, Walk, Clean;
    var p, q := sp + [a] + r, tp + [b] + r;
    if Resolve(ns, p).Some? {
      var e := Resolve(ns, p).value;
      EntryPath(ns, p, e, l);
      EntryPath(m, q, e, l);
      OneName(a);
      CleanLonger(sp, [a]);
      CleanLonger(sp + [a], r);
      if e == s { PathUnique(ns, p, sp, s); }
      if e == t { PathUnique(ns, p, tp, t); assert sp + [a] <= p; }
      assert Names(m, e, l) == Names(ns, e, l);
    } else {
      NowhereFurther(ns, p, p + [l]);
      NowhereFurther(m, q, q + [l]);
    }
  }

  lemma OneName(a: Name)
    ensures !IsDot(a) ==> Clean([a])
  {
  }

  lemma Moved(ns: Nodes, m: Nodes, sp: seq<Name>, s: nat, a: Name, tp: seq<Name>, t: nat, b: Name)
    requires Rehung(ns, m, sp, s, a, tp, t, b) && KeepsData(ns, m)
    ensures PathMoved(ns, m, sp + [a], tp + [b])
  {
    hide Dotted, Rooted, Walk, Redrawn, KeepsData;
    var p, q := sp + [a], tp + [b];
    HoldersStay(ns, m, sp, s, a, tp, t, b);
    EntryPath(m, sp, s, a);
    forall r: seq<Name> | Clean(r) ensures Resolve(m, q + r) == Resolve(ns, p + r) {
      BelowMoved(ns, m, sp, s, a, tp, t, b, r);
    }
    forall r: seq<Name> | Clean(r) && p <= r && !(q <= r) ensures Resolve(m, r) == None {
      NowhereFurther(m, p, r);
    }
    forall r: seq<Name> | Clean(r) && !(p <= r) && !(q <= r) ensures SameWay(ns, m, r) {
      Elsewhere(ns, m, sp, s, a, tp, t, b, r);
    }
  }

  // ----- what the operations do -----

  /** The directory that holds the last name of a path. */
  lemma HolderFound(ns: Nodes, p: seq<Name>)
    requires Tree(ns) && p != [] && Clean(p) && IsDir(ns, Holder(ns, p))
    ensures LeadsTo(ns, Above(p), Holder(ns, p)) && Above(p) + [Last(p)] == p && !IsDot(Last(p))
    ensures Resolve(ns, p) == if Stands(ns, p) then Some(Standing(ns, p)) else None
  {
    hide Dotted, Rooted, Walk;
    assert Holder(ns, p) != 0 by { NoZero(ns); }
    CleanParts(p);
    EntryPath(ns, Above(p), Holder(ns, p), Last(p));
  }

  lemma NoZero(ns: Nodes)
    requires Tree(ns)
    ensures !IsDir(ns, 0)
  {
  }

  lemma UnlinkedRedraws(ns: Nodes, s: nat, a: Name)
    requires Names(ns, s, a) && Child(ns, s, a) in ns && ns[Child(ns, s, a)].File?
    ensures var m := Unlinked(ns, s, a); Redrawn(ns, m, s, a, s, a) && !Names(m, s, a) && KeepsData(ns, m)
  {
    var m := Unlinked(ns, s, a);
    forall e: nat, c: Name | !IsDot(c) && !(e == s && c == a)
      ensures Names(m, e, c) == Names(ns, e, c) && Child(m, e, c) == Child(ns, e, c)
    {
    }
    forall n: nat | n in m ensures n in ns && IsDir(m, n) == IsDir(ns, n) && (m[n].File? ==> m[n].data == ns[n].data) {
    }
  }

  /** Removing a file takes its path away and changes no other path and no file's data. */
  lemma UnlinkedPaths(ns: Nodes, m: Nodes, p: seq<Name>)
    requires TreeOK(ns) && Clean(p) && Unlinks(ns, m, p)
    ensures PathGone(ns, m, p)
  {
    hide Dotted, Rooted, Reached, Counted, Redrawn, KeepsData, Unlinked, Walk, Bare;
    HolderFound(ns, p);
    UnlinkedRedraws(ns, Holder(ns, p), Last(p));
    Cut(ns, m, Above(p), Holder(ns, p), Last(p));
  }

  lemma RemovedRedraws(ns: Nodes, s: nat, a: Name)
    requires Names(ns, s, a) && IsDir(ns, Child(ns, s, a)) && Bare(ns, Child(ns, s, a)) && Child(ns, s, a) != s && ns[s].links > 0
    ensures var m := RemovedDir(ns, s, a); Redrawn(ns, m, s, a, s, a) && !Names(m, s, a) && KeepsData(ns, m)
  {
    var m := RemovedDir(ns, s, a);
    forall e: nat, c: Name | !IsDot(c) && !(e == s && c == a)
      ensures Names(m, e, c) == Names(ns, e, c) && Child(m, e, c) == Child(ns, e, c)
    {
    }
    forall n: nat | n in m ensures n in ns && IsDir(m, n) == IsDir(ns, n) && (m[n].File? ==> m[n].data == ns[n].data) {
    }
  }

  /** ... and so does removing an empty directory. */
  lemma RemovedPaths(ns: Nodes, m: Nodes, p: seq<Name>)
    requires TreeOK(ns) && Clean(p) && RemovesDir(ns, m, p)
    ensures PathGone(ns, m, p)
  {
    hide Dotted, Rooted, Reached, Counted, Redrawn, KeepsData, RemovedDir, Walk, Bare;
    HolderFound(ns, p);
    RemovedRedraws(ns, Holder(ns, p), Last(p));
    Cut(ns, m, Above(p), Holder(ns, p), Last(p));
  }

  lemma LinkedRedraws(ns: Nodes, t: nat, b: Name, f: nat)
    requires IsDir(ns, t) && f in ns && ns[f].File?
    ensures var m := LinkedCapped(ns, t, b, f);
      Redrawn(ns, m, t, b, t, b) && Names(m, t, b) && Child(m, t, b) == f && !IsDir(m, f) && KeepsData(ns, m)
  {
    var m := LinkedCapped(ns, t, b, f);
    forall e: nat, c: Name | !IsDot(c) && !(e == t && c == b)
      ensures Names(m, e, c) == Names(ns, e, c) && Child(m, e, c) == Child(ns, e, c)
    {
    }
    forall n: nat | n in m ensures n in ns && IsDir(m, n) == IsDir(ns, n) && (m[n].File? ==> m[n].data == ns[n].data) {
    }
  }

  /** A link adds its target's path, to the same file, and changes no other path and no data. */
  lemma LinkedPaths(ns: Nodes, m: Nodes, p: seq<Name>, q: seq<Name>)
    requires TreeOK(ns) && Clean(p) && Clean(q) && Links(ns, m, p, q)
    ensures PathAdded(ns, m, p, q)
  {
    hide Dotted, Rooted, Reached, Counted, Redrawn, KeepsData, LinkedCapped, Walk;
    HolderFound(ns, p);
    HolderFound(ns, q);
    LinkedRedraws(ns, Holder(ns, q), Last(q), Standing(ns, p));
    Grown(ns, m, p, Standing(ns, p), Above(q), Holder(ns, q), Last(q));
  }

  lemma RenamedRedraws(ns: Nodes, s: nat, a: Name, t: nat, b: Name)
    requires Names(ns, s, a) && Child(ns, s, a) in ns && IsDir(ns, t) && ns[s].links > 0 && !Names(ns, t, b)
    ensures var m := RenamedCapped(ns, s, a, t, b);
      && Redrawn(ns, m, s, a, t, b) && KeepsData(ns, m)
      && !Names(m, s, a) && Names(m, t, b) && Child(m, t, b) == Child(ns, s, a)
  {
    hide RenamedCapped;
    var m := RenamedCapped(ns, s, a, t, b);
    RenamedEntry(ns, s, a, t, b, s, a);
    RenamedEntry(ns, s, a, t, b, t, b);
    forall e: nat, c: Name | !IsDot(c) && !(e == s && c == a) && !(e == t && c == b)
      ensures Names(m, e, c) == Names(ns, e, c) && Child(m, e, c) == Child(ns, e, c)
    {
      RenamedEntry(ns, s, a, t, b, e, c);
    }
    forall n: nat | n in m ensures n in ns && IsDir(m, n) == IsDir(ns, n) && (m[n].File? ==> m[n].data == ns[n].data) {
      RenamedNode(ns, s, a, t, b, n);
    }
  }

  lemma RenamedEntry(ns: Nodes, s: nat, a: Name, t: nat, b: Name, e: nat, c: Name)
    requires Names(ns, s, a) && Child(ns, s, a) in ns && IsDir(ns, t) && ns[s].links > 0 && !Names(ns, t, b)
    ensures var m := RenamedCapped(ns, s, a, t, b);
      && (e == s && c == a ==> !Names(m, e, c))
      && (e == t && c == b ==> Names(m, e, c) && Child(m, e, c) == Child(ns, s, a))
      && (!IsDot(c) && !(e == s && c == a) && !(e == t && c == b) ==> Names(m, e, c) == Names(ns, e, c) && Child(m, e, c) == Child(ns, e, c))
  {
  }

  lemma RenamedNode(ns: Nodes, s: nat, a: Name, t: nat, b: Name, n: nat)
    requires Names(ns, s, a) && Child(ns, s, a) in ns && IsDir(ns, t) && ns[s].links > 0
    requires n in RenamedCapped(ns, s, a, t, b)
    ensures var m := RenamedCapped(ns, s, a, t, b);
      n in ns && IsDir(m, n) == IsDir(ns, n) && (m[n].File? ==> m[n].data == ns[n].data)
  {
  }

  /** A rename takes along whatever lay below the old path and changes no other path and no
      data. */
  lemma RenamedPaths(ns: Nodes, m: Nodes, p: seq<Name>, q: seq<Name>)
    requires TreeOK(ns) && Clean(p) && Clean(q) && Renames(ns, m, p, q)
    ensures PathMoved(ns, m, p, q)
  {
    hide Dotted, Rooted, Reached, Counted, Redrawn, KeepsData, RenamedCapped, Walk;
    var s, a, t, b := Holder(ns, p), Last(p), Holder(ns, q), Last(q);
    HolderFound(ns, p);
    HolderFound(ns, q);
    ChildExists(ns, s, a);
    RenamedRedraws(ns, s, a, t, b);
    if p <= Above(q) {
      PrefixOfParent(p, Above(q), b);
      assert IsDir(ns, Standing(ns, p)) ==> !(p < q);
      if p < Above(q) { NothingBelow(ns, p, Standing(ns, p), Above(q)); }
    }
    assert p != Above(q) && !(p < Above(q));
    Moved(ns, m, Above(p), s, a, Above(q), t, b);
  }
}
