/** The directory tree of an image, as what each directory's names stand for. */
module Namespace {
  import opened Wrappers
  import opened Layout

  const ROOT := ROOT_INODE_NUMBER

  /** `names` holds every live entry of a directory, `.` and `..` included. */
  datatype Node = Dir(links: nat, names: map<Name, nat>) | File(links: nat, data: Bytes)

  type Nodes = map<nat, Node>

  predicate IsDot(a: Name) { a == DOT || a == DOTDOT }

  predicate IsDir(ns: Nodes, d: nat) { d in ns && ns[d].Dir? }

  predicate Names(ns: Nodes, d: nat, a: Name) { IsDir(ns, d) && a in ns[d].names }

  /** What entry a of directory d stands for; 0 when there is no such entry. */
  function Child(ns: Nodes, d: nat, a: Name): nat
  {
    if Names(ns, d, a) then ns[d].names[a] else 0
  }

  function Parent(ns: Nodes, d: nat): nat { Child(ns, d, DOTDOT) }

  /** A name that can stand in a path: neither of the dot names. */
  predicate Clean(path: seq<Name>) { forall i | 0 <= i < |path| :: !IsDot(path[i]) }

  /** Walks a path from directory d. */
  function Walk(ns: Nodes, d: nat, path: seq<Name>): Option<nat>
    decreases |path|
  {
    if path == [] then Some(d)
    else if !Names(ns, d, path[0]) then None
    else Walk(ns, ns[d].names[path[0]], path[1..])
  }

  function Resolve(ns: Nodes, path: seq<Name>): Option<nat> { Walk(ns, ROOT, path) }

  lemma {:induction false} WalkSplit(ns: Nodes, d: nat, p: seq<Name>, q: seq<Name>)
    ensures Walk(ns, d, p + q) == match Walk(ns, d, p) case None => None case Some(m) => Walk(ns, m, q)
    decreases |p|
  {
    if p == [] {
      assert p + q == q;
    } else {
      assert (p + q)[1..] == p[1..] + q;
      if Names(ns, d, p[0]) { WalkSplit(ns, ns[d].names[p[0]], p[1..], q); }
    }
  }

  lemma WalkLast(ns: Nodes, d: nat, p: seq<Name>)
    requires p != []
    ensures var m := Walk(ns, d, p[..|p| - 1]);
      Walk(ns, d, p) == if m.Some? && Names(ns, m.value, p[|p| - 1]) then Some(Child(ns, m.value, p[|p| - 1])) else None
  {
    var k := |p| - 1;
    assert p == p[..k] + [p[k]];
    WalkSplit(ns, d, p[..k], [p[k]]);
  }

  // ----- the invariant -----

  /** The entries, dots included, that name inode n. */
  ghost function Refs(ns: Nodes, n: nat): set<(nat, Name)>
  {
    set d: nat, a: Name | d in ns && ns[d].Dir? && a in ns[d].names && ns[d].names[a] == n :: (d, a)
  }

  /** Every directory starts with `.` naming itself and `..` naming a directory. */
  ghost predicate Dotted(ns: Nodes)
  {
    && 0 !in ns && IsDir(ns, ROOT) && Parent(ns, ROOT) == ROOT
    && forall d: nat {:trigger Names(ns, d, DOT)} {:trigger Names(ns, d, DOTDOT)} | IsDir(ns, d) ::
         Names(ns, d, DOT) && Child(ns, d, DOT) == d && Names(ns, d, DOTDOT) && IsDir(ns, Child(ns, d, DOTDOT))
  }

  lemma DottedAt(ns: Nodes, d: nat)
    requires Dotted(ns) && IsDir(ns, d)
    ensures Names(ns, d, DOT) && Child(ns, d, DOT) == d && Names(ns, d, DOTDOT) && IsDir(ns, Parent(ns, d))
  {
    assert Names(ns, d, DOT) || !Names(ns, d, DOT);
  }

  /** Every other entry names an inode that exists and is not the root; a directory is
      named only by its parent, and under one name only. */
  ghost predicate Rooted(ns: Nodes)
  {
    && (forall d: nat, a: Name {:trigger Names(ns, d, a)} | Names(ns, d, a) && !IsDot(a) ::
          Child(ns, d, a) in ns && Child(ns, d, a) != ROOT
          && (IsDir(ns, Child(ns, d, a)) ==> Parent(ns, Child(ns, d, a)) == d))
    && (forall d: nat, a: Name, b: Name {:trigger Names(ns, d, a), Names(ns, d, b)} |
          Names(ns, d, a) && Names(ns, d, b) && !IsDot(a) && !IsDot(b) && Child(ns, d, a) == Child(ns, d, b)
          && IsDir(ns, Child(ns, d, a)) :: a == b)
  }

  /** Every directory is reached from the root. */
  ghost predicate Reached(ns: Nodes)
  {
    forall d: nat | IsDir(ns, d) :: exists p :: Clean(p) && Resolve(ns, p) == Some(d)
  }

  /** Every link count is the number of entries that name the inode, and is not zero:
      an inode exists exactly when it is named. */
  ghost predicate Counted(ns: Nodes)
  {
    forall n | n in ns :: ns[n].links == |Refs(ns, n)| > 0
  }

  ghost predicate TreeOK(ns: Nodes)
  {
    Dotted(ns) && Rooted(ns) && Reached(ns) && Counted(ns)
  }

  /** In a tree the path to a directory is unique. */
  lemma {:induction false} PathUnique(ns: Nodes, p: seq<Name>, q: seq<Name>, d: nat)
    requires Dotted(ns) && Rooted(ns) && Clean(p) && Clean(q)
    requires Resolve(ns, p) == Some(d) && Resolve(ns, q) == Some(d) && IsDir(ns, d)
    ensures p == q
    decreases |p| + |q|
  {
    if p == [] && q == [] {
    } else if p == [] {
      LastStepNamesParent(ns, q, d);
    } else if q == [] {
      LastStepNamesParent(ns, p, d);
    } else {
      LastStepNamesParent(ns, p, d);
      LastStepNamesParent(ns, q, d);
      var p', q' := p[..|p| - 1], q[..|q| - 1];
      PathUnique(ns, p', q', Parent(ns, d));
      assert p == p' + [p[|p| - 1]] && q == q' + [q[|q| - 1]];
    }
  }

  lemma LastStepNamesParent(ns: Nodes, p: seq<Name>, d: nat)
    requires Dotted(ns) && Rooted(ns) && Clean(p) && p != []
    requires Resolve(ns, p) == Some(d) && IsDir(ns, d)
    ensures d != ROOT && Resolve(ns, p[..|p| - 1]) == Some(Parent(ns, d)) && IsDir(ns, Parent(ns, d))
    ensures Names(ns, Parent(ns, d), p[|p| - 1]) && Child(ns, Parent(ns, d), p[|p| - 1]) == d
    ensures !IsDot(p[|p| - 1])
  {
    WalkLast(ns, ROOT, p);
  }

  // ----- primitive changes -----

  function PutName(ns: Nodes, d: nat, a: Name, c: nat): Nodes
    requires IsDir(ns, d)
  {
    ns[d := Dir(ns[d].links, ns[d].names[a := c])]
  }

  function DelName(ns: Nodes, d: nat, a: Name): Nodes
    requires IsDir(ns, d)
  {
    ns[d := Dir(ns[d].links, ns[d].names - {a})]
  }

  function SetLinks(ns: Nodes, n: nat, k: nat): Nodes
    requires n in ns
  {
    ns[n := match ns[n] case Dir(_, names) => Dir(k, names) case File(_, data) => File(k, data)]
  }

  lemma PutNameRefs(ns: Nodes, d: nat, a: Name, c: nat, n: nat)
    requires IsDir(ns, d) && a !in ns[d].names
    ensures Refs(PutName(ns, d, a, c), n) == if n == c then Refs(ns, n) + {(d, a)} else Refs(ns, n)
    ensures |Refs(PutName(ns, d, a, c), n)| == |Refs(ns, n)| + if n == c then 1 else 0
  {
    var m := PutName(ns, d, a, c);
    assert (d, a) !in Refs(ns, n);
    forall e: nat, b: Name ensures (e, b) in Refs(m, n) <==> (e, b) in (if n == c then Refs(ns, n) + {(d, a)} else Refs(ns, n)) {
    }
    assert Refs(m, n) == if n == c then Refs(ns, n) + {(d, a)} else Refs(ns, n);
  }

  lemma DelNameRefs(ns: Nodes, d: nat, a: Name, n: nat)
    requires Names(ns, d, a)
    ensures Refs(DelName(ns, d, a), n) == Refs(ns, n) - {(d, a)}
    ensures |Refs(DelName(ns, d, a), n)| == |Refs(ns, n)| - if n == Child(ns, d, a) then 1 else 0
  {
    var m := DelName(ns, d, a);
    forall e: nat, b: Name ensures (e, b) in Refs(m, n) <==> (e, b) in Refs(ns, n) - {(d, a)} {
    }
    assert Refs(m, n) == Refs(ns, n) - {(d, a)};
    assert (d, a) in Refs(ns, n) <==> n == Child(ns, d, a);
  }

  lemma SetLinksRefs(ns: Nodes, k: nat, links: nat, n: nat)
    requires k in ns
    ensures Refs(SetLinks(ns, k, links), n) == Refs(ns, n)
  {
    var m := SetLinks(ns, k, links);
    forall e: nat, b: Name ensures (e, b) in Refs(m, n) <==> (e, b) in Refs(ns, n) {
    }
  }

  /** Adding or dropping a node without names leaves all references as they are. */
  lemma NamelessRefs(ns: Nodes, k: nat, node: Node, n: nat)
    requires node.File? || node.names == map[]
    requires k in ns ==> ns[k].File? || ns[k].names == map[]
    ensures Refs(ns[k := node], n) == Refs(ns, n) && Refs(ns - {k}, n) == Refs(ns, n)
  {
    forall e: nat, b: Name ensures (e, b) in Refs(ns[k := node], n) <==> (e, b) in Refs(ns, n) {
    }
    forall e: nat, b: Name ensures (e, b) in Refs(ns - {k}, n) <==> (e, b) in Refs(ns, n) {
    }
  }

  // ----- what keeps the tree -----

  /** The tree without the link counts. */
  ghost predicate Shaped(ns: Nodes) { Dotted(ns) && Rooted(ns) && Reached(ns) }

  /** Every entry that leads to a directory other than c is still there. */
  ghost predicate Leads(ns: Nodes, ns': Nodes, c: nat)
  {
    forall d: nat, a: Name {:trigger Names(ns, d, a)} {:trigger Names(ns', d, a)} |
      Names(ns, d, a) && !IsDot(a) && IsDir(ns, Child(ns, d, a)) && Child(ns, d, a) != c ::
      Names(ns', d, a) && Child(ns', d, a) == Child(ns, d, a)
  }

  /** A directory that holds nothing but its dots. */
  ghost predicate Bare(ns: Nodes, c: nat)
  {
    forall a: Name {:trigger Names(ns, c, a)} | Names(ns, c, a) :: IsDot(a)
  }

  /** Paths to directories survive when the entries that lead to directories do. */
  lemma {:induction false} WalkKept(ns: Nodes, ns': Nodes, c: nat, d: nat, path: seq<Name>, x: nat)
    requires Leads(ns, ns', c) && (IsDir(ns, c) ==> Bare(ns, c))
    requires Clean(path) && Walk(ns, d, path) == Some(x) && IsDir(ns, x) && x != c
    ensures Walk(ns', d, path) == Some(x)
    decreases |path|
  {
    if path != [] {
      var m := ns[d].names[path[0]];
      if |path| > 1 {
        assert Names(ns, m, path[1..][0]);
      }
      WalkKept(ns, ns', c, m, path[1..], x);
    }
  }

  lemma ReachedKept(ns: Nodes, ns': Nodes, c: nat)
    requires Reached(ns) && Leads(ns, ns', c) && (IsDir(ns, c) ==> Bare(ns, c))
    requires forall d: nat | IsDir(ns', d) :: IsDir(ns, d) && d != c
    ensures Reached(ns')
  {
    forall d: nat | IsDir(ns', d) ensures exists p :: Clean(p) && Resolve(ns', p) == Some(d) {
      var p :| Clean(p) && Resolve(ns, p) == Some(d);
      WalkKept(ns, ns', c, ROOT, p, d);
    }
  }

  /** From ns to m, entry b of directory e changed from `was` to `now` (0: absent), and
      no directory appeared or went. */
  ghost predicate Edit(ns: Nodes, m: Nodes, d: nat, a: Name, now: nat)
  {
    && (forall e: nat {:trigger IsDir(m, e)} {:trigger IsDir(ns, e)} :: IsDir(m, e) == IsDir(ns, e))
    && (forall e: nat, b: Name {:trigger Names(m, e, b)} {:trigger Names(ns, e, b)} ::
          !(e == d && b == a) ==> Names(m, e, b) == Names(ns, e, b))
    && (forall e: nat, b: Name {:trigger Child(m, e, b)} {:trigger Child(ns, e, b)} ::
          !(e == d && b == a) ==> Child(m, e, b) == Child(ns, e, b))
    && Child(m, d, a) == now && (Names(m, d, a) <==> now != 0)
  }

  lemma EditDotted(ns: Nodes, m: Nodes, d: nat, a: Name, now: nat)
    requires Dotted(ns) && Edit(ns, m, d, a, now) && !IsDot(a) && 0 !in m
    ensures Dotted(m)
  {
    DottedAt(ns, ROOT);
    forall e: nat | IsDir(m, e)
      ensures Names(m, e, DOT) && Child(m, e, DOT) == e && Names(m, e, DOTDOT) && IsDir(m, Child(m, e, DOTDOT))
    {
      DottedAt(ns, e);
    }
  }

  /** An edit that neither adds nor removes an entry leading to a directory. */
  lemma EditRooted(ns: Nodes, m: Nodes, d: nat, a: Name, now: nat)
    requires Dotted(ns) && Rooted(ns) && Edit(ns, m, d, a, now) && !IsDot(a)
    requires now != 0 ==> now in m && !IsDir(ns, now)
    requires forall n | n in ns :: n in m || Unnamed(m, n)
    ensures Rooted(m)
  {
  }

  ghost predicate Unnamed(ns: Nodes, n: nat)
  {
    forall d: nat, a: Name {:trigger Names(ns, d, a)} :: Names(ns, d, a) ==> Child(ns, d, a) != n
  }

  lemma EditReached(ns: Nodes, m: Nodes, d: nat, a: Name, now: nat)
    requires Dotted(ns) && Reached(ns) && Edit(ns, m, d, a, now)
    requires Names(ns, d, a) ==> !IsDir(ns, Child(ns, d, a))
    ensures Reached(m)
  {
    ReachedKept(ns, m, 0);
  }

  lemma SetLinksShaped(ns: Nodes, n: nat, k: nat)
    requires Shaped(ns) && n in ns
    ensures Shaped(SetLinks(ns, n, k))
  {
    var m := SetLinks(ns, n, k);
    assert SameEntries(ns, m);
    hide SameEntries;
    SameShape(ns, m);
  }

  lemma NoZeroChild(ns: Nodes)
    requires Dotted(ns) && Rooted(ns)
    ensures forall d: nat, a: Name {:trigger Names(ns, d, a)} :: Names(ns, d, a) ==> Child(ns, d, a) in ns && Child(ns, d, a) != 0
  {
    forall d: nat, a: Name | Names(ns, d, a) ensures Child(ns, d, a) in ns {
      DottedAt(ns, d);
    }
  }

  /** Giving a file one more name. */
  lemma PutFileShaped(ns: Nodes, d: nat, a: Name, f: nat)
    requires Shaped(ns) && IsDir(ns, d) && a !in ns[d].names && !IsDot(a)
    requires f in ns && ns[f].File?
    ensures Shaped(PutName(ns, d, a, f))
  {
    var m := PutName(ns, d, a, f);
    assert f != 0;
    PutNameEdit(ns, d, a, f);
    hide Edit;
    EditDotted(ns, m, d, a, f);
    EditRooted(ns, m, d, a, f);
    EditReached(ns, m, d, a, f);
  }

  lemma PutNameEdit(ns: Nodes, d: nat, a: Name, c: nat)
    requires IsDir(ns, d) && c != 0
    ensures Edit(ns, PutName(ns, d, a, c), d, a, c)
  {
  }

  lemma DelNameEdit(ns: Nodes, d: nat, a: Name)
    requires IsDir(ns, d)
    ensures Edit(ns, DelName(ns, d, a), d, a, 0)
  {
  }

  /** Taking one name from a file. */
  lemma DelFileShaped(ns: Nodes, d: nat, a: Name)
    requires Shaped(ns) && Names(ns, d, a) && !IsDot(a)
    requires Child(ns, d, a) in ns && ns[Child(ns, d, a)].File?
    ensures Shaped(DelName(ns, d, a))
  {
    var m := DelName(ns, d, a);
    DelNameEdit(ns, d, a);
    hide Edit;
    EditDotted(ns, m, d, a, 0);
    EditRooted(ns, m, d, a, 0);
    EditReached(ns, m, d, a, 0);
  }

  /** Two states with the same directories and entries have the same shape. */
  ghost predicate SameEntries(ns: Nodes, m: Nodes)
  {
    && (forall e: nat {:trigger IsDir(m, e)} {:trigger IsDir(ns, e)} :: IsDir(m, e) == IsDir(ns, e))
    && (forall e: nat, b: Name {:trigger Names(m, e, b)} {:trigger Names(ns, e, b)} :: Names(m, e, b) == Names(ns, e, b))
    && (forall e: nat, b: Name {:trigger Child(m, e, b)} {:trigger Child(ns, e, b)} :: Child(m, e, b) == Child(ns, e, b))
  }

  lemma SameDotted(ns: Nodes, m: Nodes)
    requires Dotted(ns) && SameEntries(ns, m) && 0 !in m
    ensures Dotted(m)
  {
    DottedAt(ns, ROOT);
    forall e: nat | IsDir(m, e)
      ensures Names(m, e, DOT) && Child(m, e, DOT) == e && Names(m, e, DOTDOT) && IsDir(m, Child(m, e, DOTDOT))
    {
      DottedAt(ns, e);
    }
  }

  lemma SameRooted(ns: Nodes, m: Nodes)
    requires Rooted(ns) && SameEntries(ns, m)
    requires forall n: nat | n in ns :: n in m || Unnamed(ns, n)
    ensures Rooted(m)
  {
  }

  lemma SameShape(ns: Nodes, m: Nodes)
    requires Shaped(ns) && SameEntries(ns, m) && 0 !in m
    requires forall n: nat | n in ns :: n in m || Unnamed(ns, n)
    ensures Shaped(m)
  {
    SameDotted(ns, m);
    SameRooted(ns, m);
    ReachedKept(ns, m, 0);
  }

  /** Adding, replacing or dropping a file node. */
  lemma FileNodeShaped(ns: Nodes, f: nat, node: Node)
    requires Shaped(ns) && node.File? && f != 0 && (f in ns ==> ns[f].File?)
    ensures Shaped(ns[f := node])
  {
    var m := ns[f := node];
    assert SameEntries(ns, m);
    hide SameEntries;
    SameShape(ns, m);
  }

  lemma DropFileShaped(ns: Nodes, f: nat)
    requires Shaped(ns) && f in ns && ns[f].File? && Refs(ns, f) == {}
    ensures Shaped(ns - {f})
  {
    var m := ns - {f};
    assert SameEntries(ns, m);
    forall d: nat, a: Name | Names(ns, d, a) ensures Child(ns, d, a) != f {
      assert Child(ns, d, a) == f ==> (d, a) in Refs(ns, f);
    }
    hide SameEntries;
    SameShape(ns, m);
  }

  lemma FreshUnnamed(ns: Nodes, n: nat)
    requires Dotted(ns) && Rooted(ns) && n !in ns
    ensures Refs(ns, n) == {}
  {
    NoZeroChild(ns);
    forall d: nat, a: Name | (d, a) in Refs(ns, n) ensures false {
      assert Names(ns, d, a);
    }
  }

  // ----- operations on files -----

  /** A new file under a new name. */
  function Created(ns: Nodes, d: nat, a: Name, n: nat, data: Bytes): Nodes
    requires IsDir(ns, d) && n !in ns
  {
    PutName(ns[n := File(1, data)], d, a, n)
  }

  lemma CreatedOK(ns: Nodes, d: nat, a: Name, n: nat, data: Bytes)
    requires TreeOK(ns) && IsDir(ns, d) && a !in ns[d].names && !IsDot(a) && n !in ns && n != 0
    ensures TreeOK(Created(ns, d, a, n, data))
  {
    hide Dotted, Rooted, Reached;
    var k := ns[n := File(1, data)];
    FileNodeShaped(ns, n, File(1, data));
    PutFileShaped(k, d, a, n);
    var m := PutName(k, d, a, n);
    FreshUnnamed(ns, n);
    forall x | x in m ensures m[x].links == |Refs(m, x)| > 0 {
      NamelessRefs(ns, n, File(1, data), x);
      PutNameRefs(k, d, a, n, x);
    }
  }

  lemma NumbersPositive(ns: Nodes, n: nat)
    requires Dotted(ns) && n in ns
    ensures n != 0
  {
  }

  lemma RewrittenCounted(ns: Nodes, f: nat, data: Bytes)
    requires Counted(ns) && f in ns && ns[f].File?
    ensures Counted(ns[f := File(ns[f].links, data)])
  {
    hide Refs;
    var m := ns[f := File(ns[f].links, data)];
    forall x: nat | x in m ensures m[x].links == |Refs(m, x)| > 0 {
      NamelessRefs(ns, f, File(ns[f].links, data), x);
    }
  }

  /** New contents for an existing file. */
  lemma RewrittenOK(ns: Nodes, f: nat, data: Bytes)
    requires TreeOK(ns) && f in ns && ns[f].File?
    ensures TreeOK(ns[f := File(ns[f].links, data)])
  {
    hide Dotted, Rooted, Reached, Refs, Counted;
    NumbersPositive(ns, f);
    FileNodeShaped(ns, f, File(ns[f].links, data));
    RewrittenCounted(ns, f, data);
  }

  /** One more hard link to a file. */
  function Linked(ns: Nodes, d: nat, a: Name, f: nat): Nodes
    requires IsDir(ns, d) && f in ns && ns[f].File?
  {
    PutName(SetLinks(ns, f, ns[f].links + 1), d, a, f)
  }

  lemma LinkedOK(ns: Nodes, d: nat, a: Name, f: nat)
    requires TreeOK(ns) && IsDir(ns, d) && a !in ns[d].names && !IsDot(a)
    requires f in ns && ns[f].File?
    ensures TreeOK(Linked(ns, d, a, f))
  {
    hide Dotted, Rooted, Reached, Refs;
    var k := SetLinks(ns, f, ns[f].links + 1);
    SetLinksShaped(ns, f, ns[f].links + 1);
    PutFileShaped(k, d, a, f);
    var m := PutName(k, d, a, f);
    forall x | x in m ensures m[x].links == |Refs(m, x)| > 0 {
      SetLinksRefs(ns, f, ns[f].links + 1, x);
      PutNameRefs(k, d, a, f, x);
    }
  }

  /** One name less for a file; the file goes with its last name. */
  function Unlinked(ns: Nodes, d: nat, a: Name): Nodes
    requires Names(ns, d, a) && Child(ns, d, a) in ns && ns[Child(ns, d, a)].File?
  {
    var f := Child(ns, d, a);
    var m := DelName(ns, d, a);
    if ns[f].links > 1 then SetLinks(m, f, ns[f].links - 1) else m - {f}
  }

  lemma UnlinkedOK(ns: Nodes, d: nat, a: Name)
    requires TreeOK(ns) && Names(ns, d, a) && !IsDot(a)
    requires Child(ns, d, a) in ns && ns[Child(ns, d, a)].File?
    ensures TreeOK(Unlinked(ns, d, a))
  {
    hide Dotted, Rooted, Reached, Refs;
    var f := Child(ns, d, a);
    var k := DelName(ns, d, a);
    DelFileShaped(ns, d, a);
    var m := Unlinked(ns, d, a);
    DelNameRefs(ns, d, a, f);
    if ns[f].links > 1 {
      SetLinksShaped(k, f, ns[f].links - 1);
    } else {
      DropFileShaped(k, f);
    }
    forall x | x in m ensures m[x].links == |Refs(m, x)| > 0 {
      DelNameRefs(ns, d, a, x);
      if ns[f].links > 1 {
        SetLinksRefs(k, f, ns[f].links - 1, x);
      } else {
        NamelessRefs(k, f, k[f], x);
      }
    }
  }

  // ----- operations on directories -----

  lemma DirReferenced(ns: Nodes, d: nat)
    requires Dotted(ns) && IsDir(ns, d)
    ensures |Refs(ns, d)| > 0
  {
    DottedAt(ns, d);
    assert (d, DOT) in Refs(ns, d);
  }

  /** Replacing the target of an existing entry. */
  lemma PutNameTwice(ns: Nodes, d: nat, a: Name, c: nat)
    requires IsDir(ns, d)
    ensures PutName(DelName(ns, d, a), d, a, c) == PutName(ns, d, a, c)
  {
    assert (ns[d].names - {a})[a := c] == ns[d].names[a := c];
  }

  lemma RetargetRefs(ns: Nodes, d: nat, a: Name, c: nat, n: nat)
    requires Names(ns, d, a)
    ensures |Refs(PutName(ns, d, a, c), n)|
         == |Refs(ns, n)| - (if n == Child(ns, d, a) then 1 else 0) + if n == c then 1 else 0
  {
    hide Refs;
    PutNameTwice(ns, d, a, c);
    DelNameRefs(ns, d, a, n);
    PutNameRefs(DelName(ns, d, a), d, a, c, n);
  }

  /** The names in an empty directory. */
  function DotNames(n: nat, parent: nat): map<Name, nat> { map[DOT := n, DOTDOT := parent] }

  /** An empty directory n below d: its record, its dots and its name. */
  function WithDir(ns: Nodes, d: nat, a: Name, n: nat): Nodes
    requires IsDir(ns, d) && n !in ns
  {
    PutName(ns[n := Dir(2, DotNames(n, d))], d, a, n)
  }

  function MadeDir(ns: Nodes, d: nat, a: Name, n: nat): Nodes
    requires IsDir(ns, d) && n !in ns
  {
    SetLinks(WithDir(ns, d, a, n), d, ns[d].links + 1)
  }

  ghost predicate Sprouts(ns: Nodes, m: Nodes, d: nat, a: Name, n: nat)
  {
    && (forall e: nat {:trigger IsDir(m, e)} {:trigger IsDir(ns, e)} :: IsDir(m, e) <==> IsDir(ns, e) || e == n)
    && (forall e: nat, b: Name {:trigger Names(m, e, b)} {:trigger Names(ns, e, b)} ::
          Names(m, e, b) <==> Names(ns, e, b) || (e == d && b == a) || (e == n && IsDot(b)))
    && (forall e: nat, b: Name {:trigger Child(m, e, b)} {:trigger Child(ns, e, b)} ::
          !(e == d && b == a) && e != n ==> Child(m, e, b) == Child(ns, e, b))
    && Child(m, d, a) == n && Child(m, n, DOT) == n && Child(m, n, DOTDOT) == d
  }

  lemma WithDirSprouts(ns: Nodes, d: nat, a: Name, n: nat)
    requires IsDir(ns, d) && n !in ns && a !in ns[d].names && !IsDot(a) && n != 0
    ensures Sprouts(ns, WithDir(ns, d, a, n), d, a, n)
  {
    assert DOT != DOTDOT;
  }

  lemma SproutsDotted(ns: Nodes, m: Nodes, d: nat, a: Name, n: nat)
    requires Dotted(ns) && Sprouts(ns, m, d, a, n) && IsDir(ns, d) && !IsDot(a) && 0 !in m && n !in ns
    ensures Dotted(m)
  {
    DottedAt(ns, ROOT);
    forall e: nat | IsDir(m, e)
      ensures Names(m, e, DOT) && Child(m, e, DOT) == e && Names(m, e, DOTDOT) && IsDir(m, Child(m, e, DOTDOT))
    {
      if e != n { DottedAt(ns, e); }
    }
  }

  lemma SproutsRooted(ns: Nodes, m: Nodes, d: nat, a: Name, n: nat)
    requires Dotted(ns) && Rooted(ns) && Sprouts(ns, m, d, a, n) && n !in ns && n in m && IsDir(ns, d) && !IsDot(a)
    requires forall x | x in ns :: x in m
    ensures Rooted(m)
  {
    NoZeroChild(ns);
    forall e: nat, b: Name | Names(m, e, b) && !IsDot(b)
      ensures Child(m, e, b) in m && Child(m, e, b) != ROOT
      ensures IsDir(m, Child(m, e, b)) ==> Parent(m, Child(m, e, b)) == e
    {
      if !(e == d && b == a) {
        assert Names(ns, e, b);
        var x := Child(ns, e, b);
        if IsDir(ns, x) { DottedAt(ns, x); }
      }
    }
  }

  lemma SproutsReached(ns: Nodes, m: Nodes, d: nat, a: Name, n: nat)
    requires Dotted(ns) && Reached(ns) && Sprouts(ns, m, d, a, n) && n !in ns && !IsDot(a) && IsDir(ns, d)
    requires a !in ns[d].names
    ensures Reached(m)
  {
    assert Leads(ns, m, 0);
    forall e: nat | IsDir(m, e) ensures exists p :: Clean(p) && Resolve(m, p) == Some(e) {
      if e == n {
        var p :| Clean(p) && Resolve(ns, p) == Some(d);
        WalkKept(ns, m, 0, ROOT, p, d);
        WalkSplit(m, ROOT, p, [a]);
        assert Walk(m, n, []) == Some(n);
        assert Clean(p + [a]) && Resolve(m, p + [a]) == Some(n);
      } else {
        var p :| Clean(p) && Resolve(ns, p) == Some(e);
        WalkKept(ns, m, 0, ROOT, p, e);
      }
    }
  }

  lemma MadeDirOK(ns: Nodes, d: nat, a: Name, n: nat)
    requires TreeOK(ns) && IsDir(ns, d) && a !in ns[d].names && !IsDot(a) && n !in ns && n != 0
    ensures TreeOK(MadeDir(ns, d, a, n))
  {
    hide Sprouts, Dotted, Reached, Rooted, Counted, Names, Child, PutName, Resolve;
    var k := WithDir(ns, d, a, n);
    WithDirSprouts(ns, d, a, n);
    WithDirKeys(ns, d, a, n);
    SproutsDotted(ns, k, d, a, n);
    SproutsRooted(ns, k, d, a, n);
    SproutsReached(ns, k, d, a, n);
    SetLinksShaped(k, d, ns[d].links + 1);
    MadeDirCounted(ns, d, a, n);
  }

  lemma WithDirKeys(ns: Nodes, d: nat, a: Name, n: nat)
    requires Dotted(ns) && IsDir(ns, d) && n !in ns && n != 0
    ensures WithDir(ns, d, a, n).Keys == ns.Keys + {n} && 0 !in WithDir(ns, d, a, n)
  {
  }

  lemma MadeDirSteps(ns: Nodes, d: nat, a: Name, n: nat)
    requires IsDir(ns, d) && n !in ns
    ensures WithDir(ns, d, a, n) == PutName(PutName(PutName(ns[n := Dir(2, map[])], n, DOT, n), n, DOTDOT, d), d, a, n)
  {
    var k := ns[n := Dir(2, map[])];
    assert PutName(PutName(k, n, DOT, n), n, DOTDOT, d) == ns[n := Dir(2, DotNames(n, d))];
  }

  lemma MadeDirRefs(ns: Nodes, d: nat, a: Name, n: nat, x: nat)
    requires IsDir(ns, d) && a !in ns[d].names && n !in ns && Refs(ns, n) == {}
    ensures |Refs(MadeDir(ns, d, a, n), x)| == |Refs(ns, x)| + (if x == n then 2 else 0) + (if x == d then 1 else 0)
    ensures Refs(ns, n) == {}
  {
    hide Refs;
    MadeDirSteps(ns, d, a, n);
    var k0 := ns[n := Dir(2, map[])];
    var k1 := PutName(k0, n, DOT, n);
    var k2 := PutName(k1, n, DOTDOT, d);
    NamelessRefs(ns, n, Dir(2, map[]), x);
    PutNameRefs(k0, n, DOT, n, x);
    PutNameRefs(k1, n, DOTDOT, d, x);
    PutNameRefs(k2, d, a, n, x);
    SetLinksRefs(WithDir(ns, d, a, n), d, ns[d].links + 1, x);
  }

  lemma MadeDirCounted(ns: Nodes, d: nat, a: Name, n: nat)
    requires Dotted(ns) && Rooted(ns) && Counted(ns) && IsDir(ns, d) && a !in ns[d].names && n !in ns
    ensures Counted(MadeDir(ns, d, a, n))
  {
    FreshUnnamed(ns, n);
    hide Dotted, Rooted, Refs;
    var m := MadeDir(ns, d, a, n);
    forall x | x in m ensures m[x].links == |Refs(m, x)| > 0 {
      MadeDirCountAt(ns, d, a, n, x);
    }
  }

  lemma MadeDirCountAt(ns: Nodes, d: nat, a: Name, n: nat, x: nat)
    requires Counted(ns) && IsDir(ns, d) && a !in ns[d].names && n !in ns && Refs(ns, n) == {}
    requires x in MadeDir(ns, d, a, n)
    ensures MadeDir(ns, d, a, n)[x].links == |Refs(MadeDir(ns, d, a, n), x)| > 0
  {
    hide Refs;
    MadeDirRefs(ns, d, a, n, x);
    MadeDirLinks(ns, d, a, n, x);
  }

  lemma MadeDirLinks(ns: Nodes, d: nat, a: Name, n: nat, x: nat)
    requires IsDir(ns, d) && n !in ns && x in MadeDir(ns, d, a, n)
    ensures x == n || x in ns
    ensures MadeDir(ns, d, a, n)[x].links == if x == n then 2 else if x == d then ns[d].links + 1 else ns[x].links
  {
  }

  /** An empty directory removed from its parent. */
  function WithoutDir(ns: Nodes, d: nat, a: Name): Nodes
    requires Names(ns, d, a)
  {
    DelName(ns, d, a) - {Child(ns, d, a)}
  }

  function RemovedDir(ns: Nodes, d: nat, a: Name): Nodes
    requires Names(ns, d, a) && Child(ns, d, a) != d && ns[d].links > 0
  {
    SetLinks(WithoutDir(ns, d, a), d, ns[d].links - 1)
  }

  ghost predicate Withers(ns: Nodes, m: Nodes, d: nat, a: Name, c: nat)
  {
    && (forall e: nat {:trigger IsDir(m, e)} {:trigger IsDir(ns, e)} :: IsDir(m, e) <==> IsDir(ns, e) && e != c)
    && (forall e: nat, b: Name {:trigger Names(m, e, b)} {:trigger Names(ns, e, b)} ::
          Names(m, e, b) <==> Names(ns, e, b) && !(e == d && b == a) && e != c)
    && (forall e: nat, b: Name {:trigger Child(m, e, b)} {:trigger Child(ns, e, b)} ::
          Names(m, e, b) ==> Child(m, e, b) == Child(ns, e, b))
    && (forall x: nat {:trigger x in m} {:trigger x in ns} :: x in m <==> x in ns && x != c)
  }

  lemma WithoutDirWithers(ns: Nodes, d: nat, a: Name)
    requires Names(ns, d, a) && Child(ns, d, a) != d
    ensures Withers(ns, WithoutDir(ns, d, a), d, a, Child(ns, d, a))
  {
  }

  /** A bare directory is nobody's parent. */
  lemma BareHasNoChildren(ns: Nodes, c: nat, e: nat)
    requires Shaped(ns) && IsDir(ns, c) && Bare(ns, c) && c != ROOT && IsDir(ns, e)
    ensures Parent(ns, e) != c
  {
    var p :| Clean(p) && Resolve(ns, p) == Some(e);
    if p == [] {
      assert e == ROOT;
    } else {
      LastStepNamesParent(ns, p, e);
    }
  }

  lemma WithersDotted(ns: Nodes, m: Nodes, d: nat, a: Name, c: nat)
    requires Shaped(ns) && Withers(ns, m, d, a, c) && IsDir(ns, c) && Bare(ns, c) && c != ROOT && !IsDot(a)
    ensures Dotted(m)
  {
    DottedAt(ns, ROOT);
    assert Names(m, ROOT, DOTDOT);
    forall e: nat | IsDir(m, e)
      ensures Names(m, e, DOT) && Child(m, e, DOT) == e && Names(m, e, DOTDOT) && IsDir(m, Child(m, e, DOTDOT))
    {
      DottedAt(ns, e);
      BareHasNoChildren(ns, c, e);
    }
  }

  /** The one entry, dots apart, that names a directory. */
  lemma OneNameOnly(ns: Nodes, d: nat, a: Name, e: nat, b: Name)
    requires Rooted(ns) && Names(ns, d, a) && Names(ns, e, b) && !IsDot(a) && !IsDot(b)
    requires IsDir(ns, Child(ns, d, a))
    ensures Child(ns, e, b) == Child(ns, d, a) <==> e == d && b == a
  {
  }

  lemma WithersRooted(ns: Nodes, m: Nodes, d: nat, a: Name, c: nat)
    requires Dotted(ns) && Rooted(ns) && Withers(ns, m, d, a, c)
    requires Names(ns, d, a) && Child(ns, d, a) == c && !IsDot(a) && IsDir(ns, c)
    ensures Rooted(m)
  {
    forall e: nat, b: Name | Names(m, e, b) && !IsDot(b)
      ensures Child(m, e, b) in m && Child(m, e, b) != ROOT
      ensures IsDir(m, Child(m, e, b)) ==> Parent(m, Child(m, e, b)) == e
    {
      assert Names(ns, e, b);
      OneNameOnly(ns, d, a, e, b);
      if IsDir(m, Child(m, e, b)) {
        DottedAt(ns, Child(ns, e, b));
        assert Names(m, Child(m, e, b), DOTDOT);
      }
    }
  }

  lemma WithersReached(ns: Nodes, m: Nodes, d: nat, a: Name, c: nat)
    requires Reached(ns) && Withers(ns, m, d, a, c) && IsDir(ns, c) && Bare(ns, c)
    requires Names(ns, d, a) && Child(ns, d, a) == c
    ensures Reached(m)
  {
    hide Reached;
    assert Leads(ns, m, c);
    ReachedKept(ns, m, c);
  }

  lemma WithoutDirShaped(ns: Nodes, d: nat, a: Name)
    requires Shaped(ns) && Names(ns, d, a) && !IsDot(a)
    requires IsDir(ns, Child(ns, d, a)) && Bare(ns, Child(ns, d, a)) && Child(ns, d, a) != d && Child(ns, d, a) != ROOT
    ensures Shaped(WithoutDir(ns, d, a))
  {
    hide Withers, Reached, Bare, Dotted, Rooted;
    var c := Child(ns, d, a);
    var k := WithoutDir(ns, d, a);
    WithoutDirWithers(ns, d, a);
    WithersReached(ns, k, d, a, c);
    WithersDotted(ns, k, d, a, c);
    WithersRooted(ns, k, d, a, c);
  }

  lemma BareChildApart(ns: Nodes, d: nat, a: Name)
    requires Shaped(ns) && Names(ns, d, a) && !IsDot(a)
    requires IsDir(ns, Child(ns, d, a)) && Bare(ns, Child(ns, d, a))
    ensures Child(ns, d, a) != d && Child(ns, d, a) != ROOT && Parent(ns, Child(ns, d, a)) == d
  {
    BareHasNoChildren(ns, Child(ns, d, a), Child(ns, d, a));
  }

  lemma LinksPositive(ns: Nodes, d: nat)
    requires Counted(ns) && IsDir(ns, d)
    ensures ns[d].links > 0
  {
  }

  lemma RemovedDirOK(ns: Nodes, d: nat, a: Name)
    requires TreeOK(ns) && Names(ns, d, a) && !IsDot(a)
    requires IsDir(ns, Child(ns, d, a)) && Bare(ns, Child(ns, d, a))
    ensures Child(ns, d, a) != d && ns[d].links > 0
    ensures TreeOK(RemovedDir(ns, d, a))
  {
    hide Reached, Bare, Dotted, Rooted, Counted;
    BareChildApart(ns, d, a);
    LinksPositive(ns, d);
    WithoutDirShaped(ns, d, a);
    SetLinksShaped(WithoutDir(ns, d, a), d, ns[d].links - 1);
    RemovedDirCounted(ns, d, a);
  }

  /** A bare directory without its dots is a node without names. */
  lemma BareEmptied(ns: Nodes, c: nat)
    requires Dotted(ns) && IsDir(ns, c) && Bare(ns, c)
    ensures ns[c].names.Keys == {DOT, DOTDOT} && Names(ns, c, DOT) && Names(ns, c, DOTDOT)
    ensures Child(ns, c, DOT) == c && Child(ns, c, DOTDOT) == Parent(ns, c)
    ensures DelName(DelName(ns, c, DOT), c, DOTDOT)[c].names == map[]
  {
    DottedAt(ns, c);
    assert DOT != DOTDOT;
    forall x | x in ns[c].names ensures x == DOT || x == DOTDOT {
      assert Names(ns, c, x);
    }
  }

  lemma RemovedDirSteps(ns: Nodes, d: nat, a: Name, c: nat)
    requires IsDir(ns, d) && IsDir(ns, c) && c != d
    ensures DelName(DelName(DelName(ns, c, DOT), c, DOTDOT), d, a) - {c} == DelName(ns, d, a) - {c}
  {
  }

  lemma RemovedDirRefs(ns: Nodes, d: nat, a: Name, x: nat)
    requires Dotted(ns) && Names(ns, d, a) && !IsDot(a)
    requires IsDir(ns, Child(ns, d, a)) && Bare(ns, Child(ns, d, a)) && Parent(ns, Child(ns, d, a)) == d
    requires Child(ns, d, a) != d && ns[d].links > 0
    ensures x != Child(ns, d, a) ==>
      |Refs(RemovedDir(ns, d, a), x)| == |Refs(ns, x)| - if x == d then 1 else 0
  {
    hide Refs, Dotted, Bare;
    var c := Child(ns, d, a);
    BareEmptied(ns, c);
    var k1 := DelName(ns, c, DOT);
    var k2 := DelName(k1, c, DOTDOT);
    var k3 := DelName(k2, d, a);
    DelNameRefs(ns, c, DOT, x);
    assert DOT != DOTDOT;
    DelNameRefs(k1, c, DOTDOT, x);
    DelNameRefs(k2, d, a, x);
    NamelessRefs(k3, c, k3[c], x);
    RemovedDirSteps(ns, d, a, c);
    SetLinksRefs(WithoutDir(ns, d, a), d, ns[d].links - 1, x);
  }

  lemma RemovedDirCounted(ns: Nodes, d: nat, a: Name)
    requires Dotted(ns) && Counted(ns) && Names(ns, d, a) && !IsDot(a)
    requires IsDir(ns, Child(ns, d, a)) && Bare(ns, Child(ns, d, a)) && Parent(ns, Child(ns, d, a)) == d
    requires Child(ns, d, a) != d && ns[d].links > 0 && Dotted(WithoutDir(ns, d, a))
    ensures Counted(RemovedDir(ns, d, a))
  {
    hide Refs, Bare, Dotted;
    var m := RemovedDir(ns, d, a);
    forall x | x in m ensures m[x].links == |Refs(m, x)| > 0 {
      RemovedDirRefs(ns, d, a, x);
      if x == d {
        DirReferenced(WithoutDir(ns, d, a), d);
        SetLinksRefs(WithoutDir(ns, d, a), d, ns[d].links - 1, d);
      }
    }
  }

  // ----- rename -----

  /** Entry a of s moves to entry b of t; a directory that changes parents has its `..`
      turned and both parents' counts follow. */
  function Renamed(ns: Nodes, s: nat, a: Name, t: nat, b: Name): Nodes
    requires Names(ns, s, a) && IsDir(ns, t) && ns[s].links > 0
  {
    var n := Child(ns, s, a);
    var named := PutName(ns, t, b, n);
    if IsDir(ns, n) && s != t then
      var turned := PutName(named, n, DOTDOT, t);
      var counted := SetLinks(turned, t, turned[t].links + 1);
      var gone := DelName(counted, s, a);
      SetLinks(gone, s, if gone[s].links > 0 then gone[s].links - 1 else 0)
    else
      DelName(named, s, a)
  }

  /** What entry c of e stands for once n is entry b of t. */
  function MovedChild(ns: Nodes, t: nat, b: Name, n: nat, e: nat, c: Name): nat
  {
    if e == t && c == b then n else if e == n && c == DOTDOT then t else Child(ns, e, c)
  }

  ghost predicate Moves(ns: Nodes, m: Nodes, s: nat, a: Name, t: nat, b: Name, n: nat)
  {
    && (forall e: nat {:trigger IsDir(m, e)} {:trigger IsDir(ns, e)} :: IsDir(m, e) == IsDir(ns, e))
    && (forall x: nat {:trigger x in m} {:trigger x in ns} :: x in m <==> x in ns)
    && (forall e: nat, c: Name {:trigger Names(m, e, c)} {:trigger Names(ns, e, c)} ::
          Names(m, e, c) <==> (Names(ns, e, c) && !(e == s && c == a)) || (e == t && c == b))
    && (forall e: nat, c: Name {:trigger Child(m, e, c)} {:trigger Child(ns, e, c)} ::
          Names(m, e, c) ==>
            Child(m, e, c) == MovedChild(ns, t, b, n, e, c))
  }

  /** Where a directory rename stands: n is entry a of s, b is free in t. */
  ghost predicate Movable(ns: Nodes, s: nat, a: Name, t: nat, b: Name, n: nat)
  {
    && Names(ns, s, a) && Child(ns, s, a) == n && IsDir(ns, n)
    && IsDir(ns, t) && b !in ns[t].names && !IsDot(a) && !IsDot(b)
  }

  lemma RenamedNames(ns: Nodes, s: nat, a: Name, t: nat, b: Name, e: nat, c: Name)
    requires Movable(ns, s, a, t, b, Child(ns, s, a)) && ns[s].links > 0
    requires Names(ns, Child(ns, s, a), DOTDOT) && Parent(ns, Child(ns, s, a)) == s
    ensures Names(Renamed(ns, s, a, t, b), e, c) <==> (Names(ns, e, c) && !(e == s && c == a)) || (e == t && c == b)
    ensures Names(Renamed(ns, s, a, t, b), e, c) ==>
      Child(Renamed(ns, s, a, t, b), e, c) == MovedChild(ns, t, b, Child(ns, s, a), e, c)
  {
  }

  lemma RenamedNodes(ns: Nodes, s: nat, a: Name, t: nat, b: Name, e: nat)
    requires Movable(ns, s, a, t, b, Child(ns, s, a)) && ns[s].links > 0
    ensures e in Renamed(ns, s, a, t, b) <==> e in ns
    ensures IsDir(Renamed(ns, s, a, t, b), e) == IsDir(ns, e)
  {
  }

  lemma RenamedMoves(ns: Nodes, s: nat, a: Name, t: nat, b: Name)
    requires Dotted(ns) && Rooted(ns) && Movable(ns, s, a, t, b, Child(ns, s, a)) && ns[s].links > 0
    ensures Moves(ns, Renamed(ns, s, a, t, b), s, a, t, b, Child(ns, s, a))
  {
    hide Renamed, Dotted, Rooted;
    ParentNames(ns, s, a);
    DottedAt(ns, Child(ns, s, a));
    var m := Renamed(ns, s, a, t, b);
    forall e: nat, c: Name
      ensures Names(m, e, c) <==> (Names(ns, e, c) && !(e == s && c == a)) || (e == t && c == b)
      ensures Names(m, e, c) ==> Child(m, e, c) == MovedChild(ns, t, b, Child(ns, s, a), e, c)
    {
      RenamedNames(ns, s, a, t, b, e, c);
    }
    forall e: nat ensures (e in m <==> e in ns) && IsDir(m, e) == IsDir(ns, e) {
      RenamedNodes(ns, s, a, t, b, e);
    }
  }

  lemma MovesDotted(ns: Nodes, m: Nodes, s: nat, a: Name, t: nat, b: Name, n: nat)
    requires Dotted(ns) && Rooted(ns) && Movable(ns, s, a, t, b, n) && Moves(ns, m, s, a, t, b, n)
    ensures Dotted(m)
  {
    assert n != ROOT;
    DottedAt(ns, ROOT);
    assert Names(m, ROOT, DOTDOT);
    forall e: nat | IsDir(m, e)
      ensures Names(m, e, DOT) && Child(m, e, DOT) == e && Names(m, e, DOTDOT) && IsDir(m, Child(m, e, DOTDOT))
    {
      DottedAt(ns, e);
    }
  }

  lemma MovesRooted(ns: Nodes, m: Nodes, s: nat, a: Name, t: nat, b: Name, n: nat)
    requires Dotted(ns) && Rooted(ns) && Movable(ns, s, a, t, b, n) && Moves(ns, m, s, a, t, b, n) && Dotted(m)
    ensures Rooted(m)
  {
    forall e: nat, c: Name | Names(m, e, c) && !IsDot(c)
      ensures Child(m, e, c) in m && Child(m, e, c) != ROOT
      ensures IsDir(m, Child(m, e, c)) ==> Parent(m, Child(m, e, c)) == e
      ensures Child(m, e, c) == n ==> e == t && c == b
    {
      MovesEntry(ns, m, s, a, t, b, n, e, c);
    }
  }

  lemma MovesEntry(ns: Nodes, m: Nodes, s: nat, a: Name, t: nat, b: Name, n: nat, e: nat, c: Name)
    requires Dotted(ns) && Rooted(ns) && Movable(ns, s, a, t, b, n) && Moves(ns, m, s, a, t, b, n) && Dotted(m)
    requires Names(m, e, c) && !IsDot(c)
    ensures Child(m, e, c) in m && Child(m, e, c) != ROOT
    ensures IsDir(m, Child(m, e, c)) ==> Parent(m, Child(m, e, c)) == e
    ensures Child(m, e, c) == n ==> e == t && c == b
  {
    if e == t && c == b {
      DottedAt(m, n);
    } else {
      assert Names(ns, e, c);
      OneNameOnly(ns, s, a, e, c);
      if IsDir(m, Child(m, e, c)) { DottedAt(m, Child(m, e, c)); }
    }
  }

  /** A path that does not run through the moved entry leads where it did. */
  lemma {:induction false} MovesElsewhere(ns: Nodes, m: Nodes, sp: seq<Name>, s: nat, a: Name, t: nat, b: Name, n: nat,
      p: seq<Name>, x: nat)
    requires Dotted(ns) && Rooted(ns) && Movable(ns, s, a, t, b, n) && Moves(ns, m, s, a, t, b, n)
    requires Clean(sp) && Resolve(ns, sp) == Some(s)
    requires Clean(p) && Resolve(ns, p) == Some(x) && IsDir(ns, x) && !(sp + [a] <= p)
    ensures Resolve(m, p) == Some(x)
    decreases |p|
  {
    if p != [] {
      hide Dotted, Rooted;
      var p', l := p[..|p| - 1], p[|p| - 1];
      LastStepNamesParent(ns, p, x);
      assert p == p' + [l];
      var e := Parent(ns, x);
      MovesElsewhere(ns, m, sp, s, a, t, b, n, p', e);
      if e == s && l == a {
        PathUnique(ns, p', sp, s);
        assert false;
      }
      assert Names(m, e, l);
      WalkLast(m, ROOT, p);
    }
  }

  /** Below the moved directory every path goes on as before. */
  lemma {:induction false} MovesBelow(ns: Nodes, m: Nodes, sp: seq<Name>, s: nat, a: Name, t: nat, b: Name, n: nat,
      q: seq<Name>, x: nat)
    requires Dotted(ns) && Rooted(ns) && Movable(ns, s, a, t, b, n) && Moves(ns, m, s, a, t, b, n)
    requires Clean(sp) && Resolve(ns, sp) == Some(s)
    requires Clean(q) && Resolve(ns, sp + [a] + q) == Some(x) && IsDir(ns, x)
    ensures Walk(m, n, q) == Some(x)
    decreases |q|
  {
    hide Dotted, Rooted;
    WalkLast(ns, ROOT, sp + [a]);
    assert (sp + [a])[..|sp|] == sp;
    if q == [] {
      assert sp + [a] + q == sp + [a];
    } else {
      var p := sp + [a] + q;
      var q', l := q[..|q| - 1], q[|q| - 1];
      LastStepNamesParent(ns, p, x);
      assert p[..|p| - 1] == sp + [a] + q';
      var e := Parent(ns, x);
      MovesBelow(ns, m, sp, s, a, t, b, n, q', e);
      if e == s && l == a {
        PathUnique(ns, sp + [a] + q', sp, s);
        assert false;
      }
      assert Names(m, e, l);
      WalkLast(m, n, q);
    }
  }

  /** The prefix test keeps every directory reachable. */
  lemma MovesReached(ns: Nodes, m: Nodes, sp: seq<Name>, s: nat, a: Name, tp: seq<Name>, t: nat, b: Name, n: nat)
    requires Shaped(ns) && Movable(ns, s, a, t, b, n) && Moves(ns, m, s, a, t, b, n)
    requires Clean(sp) && Resolve(ns, sp) == Some(s) && Clean(tp) && Resolve(ns, tp) == Some(t)
    requires !(sp + [a] <= tp)
    ensures Reached(m)
  {
    hide Dotted, Rooted, Walk;
    MovesElsewhere(ns, m, sp, s, a, t, b, n, tp, t);
    hide Movable;
    MovedEntry(ns, m, s, a, tp, t, b, n);
    forall x: nat | IsDir(m, x) ensures exists p :: Clean(p) && Resolve(m, p) == Some(x) {
      assert IsDir(ns, x);
      var p :| Clean(p) && Resolve(ns, p) == Some(x);
      hide Moves, Clean, Resolve, IsDir;
      var p' := MovedPath(ns, m, sp, s, a, tp, t, b, n, p, x);
      assert Clean(p') && Resolve(m, p') == Some(x);
    }
  }

  /** Where the moved entry is now. */
  lemma MovedEntry(ns: Nodes, m: Nodes, s: nat, a: Name, tp: seq<Name>, t: nat, b: Name, n: nat)
    requires Movable(ns, s, a, t, b, n) && Moves(ns, m, s, a, t, b, n)
    requires Clean(tp) && Resolve(m, tp) == Some(t)
    ensures Clean(tp + [b]) && Resolve(m, tp + [b]) == Some(n)
  {
    assert (tp + [b])[..|tp|] == tp;
    assert Names(m, t, b);
    WalkLast(m, ROOT, tp + [b]);
  }

  /** The new path of a directory that path p led to. */
  lemma MovedPath(ns: Nodes, m: Nodes, sp: seq<Name>, s: nat, a: Name, tp: seq<Name>, t: nat, b: Name, n: nat,
      p: seq<Name>, x: nat) returns (p': seq<Name>)
    requires Dotted(ns) && Rooted(ns) && Movable(ns, s, a, t, b, n) && Moves(ns, m, s, a, t, b, n)
    requires Clean(sp) && Resolve(ns, sp) == Some(s) && Clean(tp + [b]) && Resolve(m, tp + [b]) == Some(n)
    requires Clean(p) && Resolve(ns, p) == Some(x) && IsDir(ns, x)
    ensures Clean(p') && Resolve(m, p') == Some(x)
  {
    hide Dotted, Rooted, Movable, Moves, Walk, Resolve;
    if sp + [a] <= p {
      var q := p[|sp| + 1..];
      assert p == sp + [a] + q;
      MovesBelow(ns, m, sp, s, a, t, b, n, q, x);
      Appended(m, tp + [b], n, q, x);
      p' := tp + [b] + q;
    } else {
      MovesElsewhere(ns, m, sp, s, a, t, b, n, p, x);
      p' := p;
    }
  }

  lemma Appended(m: Nodes, p: seq<Name>, n: nat, q: seq<Name>, x: nat)
    requires Clean(p) && Clean(q) && Resolve(m, p) == Some(n) && Walk(m, n, q) == Some(x)
    ensures Clean(p + q) && Resolve(m, p + q) == Some(x)
  {
    WalkSplit(m, ROOT, p, q);
  }

  lemma LastIsEntry(ns: Nodes, sp: seq<Name>, s: nat, a: Name, r: seq<Name>)
    requires r != [] && Resolve(ns, sp) == Some(s)
    ensures sp + [a] == r ==> Resolve(ns, r[..|r| - 1]) == Some(s) && r[|r| - 1] == a
    ensures sp + [a] <= r ==> sp + [a] == r || sp + [a] <= r[..|r| - 1]
  {
    if sp + [a] == r { assert r[..|r| - 1] == sp; }
  }

  /** After a move below itself the directory and all under it are cut off from the root. */
  lemma {:induction false} MovedUnderItself(ns: Nodes, m: Nodes, sp: seq<Name>, s: nat, a: Name, tp: seq<Name>, t: nat,
      b: Name, n: nat, p: seq<Name>, x: nat, r: seq<Name>)
    requires Dotted(ns) && Rooted(ns) && Movable(ns, s, a, t, b, n) && Moves(ns, m, s, a, t, b, n)
    requires Dotted(m) && Rooted(m) && sp + [a] <= tp
    requires Clean(sp) && Resolve(ns, sp) == Some(s) && Clean(tp) && Resolve(ns, tp) == Some(t)
    requires Clean(p) && Resolve(m, p) == Some(x) && IsDir(m, x)
    requires Clean(r) && Resolve(ns, r) == Some(x)
    ensures !(sp + [a] <= r)
    decreases |p|
  {
    hide Dotted, Rooted;
    if p == [] {
      PathUnique(ns, r, [], x);
    } else if r != [] {
      var p', l := p[..|p| - 1], p[|p| - 1];
      var r', k := r[..|r| - 1], r[|r| - 1];
      LastStepNamesParent(m, p, x);
      LastStepNamesParent(ns, r, x);
      var e := Parent(m, x);
      if e == t && l == b {
        MovedUnderItself(ns, m, sp, s, a, tp, t, b, n, p', t, tp);
        assert false;
      }
      SameDirectoryEntry(ns, e, l, Parent(ns, x), k, x);
      MovedUnderItself(ns, m, sp, s, a, tp, t, b, n, p', e, r');
      assert r == r' + [k];
      LastIsEntry(ns, sp, s, a, r);
    }
  }

  lemma SameDirectoryEntry(ns: Nodes, d: nat, a: Name, e: nat, b: Name, x: nat)
    requires Rooted(ns) && Names(ns, d, a) && Names(ns, e, b) && !IsDot(a) && !IsDot(b)
    requires Child(ns, d, a) == x && Child(ns, e, b) == x && IsDir(ns, x)
    ensures d == e && a == b
  {
  }

  // link counts

  lemma RenamedRefs(ns: Nodes, s: nat, a: Name, t: nat, b: Name, x: nat)
    requires Movable(ns, s, a, t, b, Child(ns, s, a)) && ns[s].links > 0
    requires Names(ns, Child(ns, s, a), DOTDOT) && Parent(ns, Child(ns, s, a)) == s
    ensures |Refs(Renamed(ns, s, a, t, b), x)|
         == |Refs(ns, x)| + (if s != t && x == t then 1 else 0) - (if s != t && x == s then 1 else 0)
  {
    hide Refs;
    var n := Child(ns, s, a);
    var named := PutName(ns, t, b, n);
    PutNameRefs(ns, t, b, n, x);
    if s != t {
      var turned := PutName(named, n, DOTDOT, t);
      RetargetRefs(named, n, DOTDOT, t, x);
      var counted := SetLinks(turned, t, turned[t].links + 1);
      SetLinksRefs(turned, t, turned[t].links + 1, x);
      var gone := DelName(counted, s, a);
      DelNameRefs(counted, s, a, x);
      SetLinksRefs(gone, s, if gone[s].links > 0 then gone[s].links - 1 else 0, x);
    } else {
      DelNameRefs(named, s, a, x);
    }
  }

  lemma RenamedLinks(ns: Nodes, s: nat, a: Name, t: nat, b: Name, x: nat)
    requires Movable(ns, s, a, t, b, Child(ns, s, a)) && ns[s].links > 0 && x in ns
    ensures x in Renamed(ns, s, a, t, b)
    ensures Renamed(ns, s, a, t, b)[x].links
         == ns[x].links + (if s != t && x == t then 1 else 0) - (if s != t && x == s then 1 else 0)
  {
  }

  lemma RenamedCounted(ns: Nodes, s: nat, a: Name, t: nat, b: Name)
    requires Counted(ns) && Movable(ns, s, a, t, b, Child(ns, s, a)) && ns[s].links > 0
    requires Names(ns, Child(ns, s, a), DOTDOT) && Parent(ns, Child(ns, s, a)) == s
    requires Dotted(Renamed(ns, s, a, t, b))
    ensures Counted(Renamed(ns, s, a, t, b))
  {
    hide Refs, Renamed, Dotted;
    var m := Renamed(ns, s, a, t, b);
    RenamedKeys(ns, s, a, t, b);
    forall x: nat | x in m ensures m[x].links == |Refs(m, x)| > 0 {
      RenamedRefs(ns, s, a, t, b, x);
      RenamedLinks(ns, s, a, t, b, x);
      if x == s { DirReferenced(m, s); }
    }
  }

  lemma RenamedKeys(ns: Nodes, s: nat, a: Name, t: nat, b: Name)
    requires Names(ns, s, a) && IsDir(ns, t) && ns[s].links > 0
    ensures Renamed(ns, s, a, t, b).Keys == ns.Keys && IsDir(Renamed(ns, s, a, t, b), s)
  {
  }

  lemma RenamedDirOK(ns: Nodes, sp: seq<Name>, s: nat, a: Name, tp: seq<Name>, t: nat, b: Name)
    requires TreeOK(ns) && Movable(ns, s, a, t, b, Child(ns, s, a))
    requires Clean(sp) && Resolve(ns, sp) == Some(s) && Clean(tp) && Resolve(ns, tp) == Some(t)
    ensures ns[s].links > 0
    ensures TreeOK(Renamed(ns, s, a, t, b)) <==> !(sp + [a] <= tp)
  {
    hide Dotted, Rooted, Reached, Counted, Moves, Renamed;
    var n := Child(ns, s, a);
    LinksPositive(ns, s);
    var m := Renamed(ns, s, a, t, b);
    RenamedMoves(ns, s, a, t, b);
    MovesDotted(ns, m, s, a, t, b, n);
    MovesRooted(ns, m, s, a, t, b, n);
    DottedAt(ns, n);
    ParentNames(ns, s, a);
    RenamedCounted(ns, s, a, t, b);
    if sp + [a] <= tp {
      CutOff(ns, m, sp, s, a, tp, t, b, n);
    } else {
      MovesReached(ns, m, sp, s, a, tp, t, b, n);
    }
  }

  lemma ParentNames(ns: Nodes, s: nat, a: Name)
    requires Rooted(ns) && Names(ns, s, a) && !IsDot(a) && IsDir(ns, Child(ns, s, a))
    ensures Parent(ns, Child(ns, s, a)) == s && Child(ns, s, a) != ROOT
  {
  }

  lemma CutOff(ns: Nodes, m: Nodes, sp: seq<Name>, s: nat, a: Name, tp: seq<Name>, t: nat, b: Name, n: nat)
    requires Dotted(ns) && Rooted(ns) && Movable(ns, s, a, t, b, n) && Moves(ns, m, s, a, t, b, n)
    requires Dotted(m) && Rooted(m) && sp + [a] <= tp
    requires Clean(sp) && Resolve(ns, sp) == Some(s) && Clean(tp) && Resolve(ns, tp) == Some(t)
    ensures !Reached(m)
  {
    hide Dotted, Rooted;
    assert IsDir(m, n);
    WalkLast(ns, ROOT, sp + [a]);
    assert (sp + [a])[..|sp|] == sp;
    if Reached(m) {
      var p :| Clean(p) && Resolve(m, p) == Some(n);
      MovedUnderItself(ns, m, sp, s, a, tp, t, b, n, p, n, sp + [a]);
      assert false;
    }
  }

  /** A rename that the path test lets through keeps the tree. */
  lemma RenamedOK(ns: Nodes, sp: seq<Name>, a: Name, tp: seq<Name>, b: Name)
    requires TreeOK(ns) && Clean(sp) && Clean(tp) && !IsDot(a) && !IsDot(b)
    requires Resolve(ns, sp).Some? && Names(ns, Resolve(ns, sp).value, a)
    requires Resolve(ns, tp).Some? && IsDir(ns, Resolve(ns, tp).value) && !Names(ns, Resolve(ns, tp).value, b)
    ensures ns[Resolve(ns, sp).value].links > 0
    ensures var s := Resolve(ns, sp).value; var t := Resolve(ns, tp).value;
      TreeOK(Renamed(ns, s, a, t, b)) <==> !(IsDir(ns, Child(ns, s, a)) && sp + [a] < tp + [b])
  {
    hide Dotted, Rooted, Reached, Counted, Renamed;
    var s, t := Resolve(ns, sp).value, Resolve(ns, tp).value;
    LinksPositive(ns, s);
    assert sp + [a] < tp + [b] <==> sp + [a] <= tp by { PrefixOfParent(sp + [a], tp, b); }
    if IsDir(ns, Child(ns, s, a)) {
      RenamedDirOK(ns, sp, s, a, tp, t, b);
    } else {
      RenamedFileOK(ns, s, a, t, b);
    }
  }

  lemma PrefixOfParent(p: seq<Name>, tp: seq<Name>, b: Name)
    ensures p < tp + [b] <==> p <= tp
  {
    if |p| <= |tp| { assert (tp + [b])[..|p|] == tp[..|p|]; }
  }

  lemma RenamedFileOK(ns: Nodes, s: nat, a: Name, t: nat, b: Name)
    requires TreeOK(ns) && Names(ns, s, a) && !IsDir(ns, Child(ns, s, a)) && IsDir(ns, t) && b !in ns[t].names
    requires !IsDot(a) && !IsDot(b) && ns[s].links > 0
    ensures TreeOK(Renamed(ns, s, a, t, b))
  {
    hide Dotted, Rooted, Reached, Refs;
    var n := Child(ns, s, a);
    ChildExists(ns, s, a);
    var k := PutName(ns, t, b, n);
    PutFileShaped(ns, t, b, n);
    DelFileShaped(k, s, a);
    var m := DelName(k, s, a);
    forall x | x in m ensures m[x].links == |Refs(m, x)| > 0 {
      PutNameRefs(ns, t, b, n, x);
      DelNameRefs(k, s, a, x);
    }
  }

  lemma ChildExists(ns: Nodes, s: nat, a: Name)
    requires Dotted(ns) && Rooted(ns) && Names(ns, s, a)
    ensures Child(ns, s, a) in ns
  {
    NoZeroChild(ns);
  }

  // ----- what paths see -----

  /** A nameless node n appears as entry a of d. */
  ghost predicate Grafts(ns: Nodes, m: Nodes, d: nat, a: Name, n: nat)
  {
    && IsDir(ns, d) && a !in ns[d].names && !IsDot(a) && n !in ns && Bare(m, n)
    && (forall e: nat, b: Name {:trigger Names(m, e, b)} {:trigger Names(ns, e, b)} | !IsDot(b) ::
          Names(m, e, b) <==> Names(ns, e, b) || (e == d && b == a))
    && (forall e: nat, b: Name {:trigger Child(m, e, b)} {:trigger Child(ns, e, b)} | !IsDot(b) && Names(ns, e, b) ::
          Child(m, e, b) == Child(ns, e, b))
    && Child(m, d, a) == n
  }

  lemma {:induction false} GraftKeeps(ns: Nodes, m: Nodes, d: nat, a: Name, n: nat, e: nat, p: seq<Name>)
    requires Grafts(ns, m, d, a, n) && Clean(p) && Walk(ns, e, p).Some?
    ensures Walk(m, e, p) == Walk(ns, e, p)
    decreases |p|
  {
    if p != [] {
      assert Names(m, e, p[0]) && Child(m, e, p[0]) == Child(ns, e, p[0]);
      GraftKeeps(ns, m, d, a, n, Child(ns, e, p[0]), p[1..]);
    }
  }

  lemma NoWayOn(m: Nodes, n: nat, p: seq<Name>)
    requires Bare(m, n) && Clean(p) && Walk(m, n, p).Some?
    ensures p == []
  {
  }

  /** A path that is new ends in the graft. */
  lemma {:induction false} GraftShows(ns: Nodes, m: Nodes, d: nat, a: Name, n: nat, e: nat, p: seq<Name>)
    requires Dotted(ns) && Rooted(ns) && Grafts(ns, m, d, a, n) && Clean(p) && e in ns
    requires Walk(m, e, p).Some? && Walk(ns, e, p).None?
    ensures p != [] && p[|p| - 1] == a && Walk(ns, e, p[..|p| - 1]) == Some(d) && Walk(m, e, p) == Some(n)
    decreases |p|
  {
    hide Dotted, Rooted;
    var rest := p[1..];
    if Names(ns, e, p[0]) {
      ChildExists(ns, e, p[0]);
      var c := Child(ns, e, p[0]);
      assert Child(m, e, p[0]) == c;
      GraftShows(ns, m, d, a, n, c, rest);
      assert p[..|p| - 1][1..] == rest[..|rest| - 1];
    } else {
      assert Names(m, e, p[0]) && e == d && p[0] == a;
      NoWayOn(m, n, rest);
      assert p[..0] == [];
    }
  }

  /** Paths of ns lead where they led; whatever else resolves in m lies on the way to
      `path`; directories stay directories and no file of ns but `except` changed. */
  ghost predicate Extends(ns: Nodes, m: Nodes, path: seq<Name>, except: Option<nat>)
  {
    && (forall p: seq<Name> | Clean(p) && Resolve(ns, p).Some? :: Resolve(m, p) == Resolve(ns, p))
    && (forall p: seq<Name> | Clean(p) && Resolve(m, p).Some? && Resolve(ns, p).None? :: p <= path)
    && (forall n: nat | n in ns :: n in m && IsDir(m, n) == IsDir(ns, n))
    && (forall n: nat | n in ns && ns[n].File? && except != Some(n) :: m[n] == ns[n])
  }

  lemma ExtendsRefl(ns: Nodes, path: seq<Name>)
    ensures Extends(ns, ns, path, None)
  {
  }

  lemma ExtendsTrans(ns: Nodes, m: Nodes, k: Nodes, path: seq<Name>, longer: seq<Name>, except: Option<nat>)
    requires Extends(ns, m, path, None) && Extends(m, k, longer, except) && path <= longer
    ensures Extends(ns, k, longer, except)
  {
    forall p: seq<Name> | Clean(p) && Resolve(ns, p).Some? ensures Resolve(k, p) == Resolve(ns, p) {
      assert Resolve(m, p) == Resolve(ns, p);
    }
    forall p: seq<Name> | Clean(p) && Resolve(k, p).Some? && Resolve(ns, p).None? ensures p <= longer {
      if Resolve(m, p).Some? { assert p <= path; }
    }
  }

  lemma ExtendsWeaker(ns: Nodes, m: Nodes, path: seq<Name>, except: Option<nat>)
    requires Extends(ns, m, path, None)
    ensures Extends(ns, m, path, except)
  {
  }

  lemma GraftExtends(ns: Nodes, m: Nodes, q: seq<Name>, d: nat, a: Name, n: nat)
    requires Dotted(ns) && Rooted(ns) && Grafts(ns, m, d, a, n) && Clean(q) && Resolve(ns, q) == Some(d)
    requires forall x: nat | x in ns :: x in m && IsDir(m, x) == IsDir(ns, x)
    requires forall x: nat | x in ns && ns[x].File? :: m[x] == ns[x]
    ensures Extends(ns, m, q + [a], None) && Resolve(m, q + [a]) == Some(n)
  {
    hide Dotted, Rooted;
    RootExists(ns);
    forall p: seq<Name> | Clean(p) && Resolve(ns, p).Some? ensures Resolve(m, p) == Resolve(ns, p) {
      GraftKeeps(ns, m, d, a, n, ROOT, p);
    }
    forall p: seq<Name> | Clean(p) && Resolve(m, p).Some? && Resolve(ns, p).None? ensures p <= q + [a] {
      GraftShows(ns, m, d, a, n, ROOT, p);
      PathUnique(ns, p[..|p| - 1], q, d);
      assert p == p[..|p| - 1] + [a];
    }
    GraftKeeps(ns, m, d, a, n, ROOT, q);
    assert Names(m, d, a) && (q + [a])[..|q|] == q;
    WalkLast(m, ROOT, q + [a]);
  }

  lemma RootExists(ns: Nodes)
    requires Dotted(ns)
    ensures ROOT in ns
  {
  }

  lemma MadeDirGrafts(ns: Nodes, d: nat, a: Name, n: nat)
    requires IsDir(ns, d) && a !in ns[d].names && !IsDot(a) && n !in ns
    ensures Grafts(ns, MadeDir(ns, d, a, n), d, a, n)
  {
  }

  /** Making a directory adds its path and nothing else. */
  lemma MadeDirExtends(ns: Nodes, q: seq<Name>, d: nat, a: Name, n: nat)
    requires Dotted(ns) && Rooted(ns) && Clean(q) && Resolve(ns, q) == Some(d) && IsDir(ns, d)
    requires a !in ns[d].names && !IsDot(a) && n !in ns
    ensures Extends(ns, MadeDir(ns, d, a, n), q + [a], None) && Resolve(MadeDir(ns, d, a, n), q + [a]) == Some(n)
  {
    hide Dotted, Rooted, Grafts;
    MadeDirGrafts(ns, d, a, n);
    GraftExtends(ns, MadeDir(ns, d, a, n), q, d, a, n);
  }

  lemma CreatedGrafts(ns: Nodes, d: nat, a: Name, n: nat, data: Bytes)
    requires IsDir(ns, d) && a !in ns[d].names && !IsDot(a) && n !in ns
    ensures Grafts(ns, Created(ns, d, a, n, data), d, a, n)
  {
  }

  /** Creating a file adds its path and nothing else. */
  lemma CreatedExtends(ns: Nodes, q: seq<Name>, d: nat, a: Name, n: nat, data: Bytes)
    requires Dotted(ns) && Rooted(ns) && Clean(q) && Resolve(ns, q) == Some(d) && IsDir(ns, d)
    requires a !in ns[d].names && !IsDot(a) && n !in ns
    ensures Extends(ns, Created(ns, d, a, n, data), q + [a], None)
    ensures Resolve(Created(ns, d, a, n, data), q + [a]) == Some(n)
  {
    hide Dotted, Rooted, Grafts;
    CreatedGrafts(ns, d, a, n, data);
    GraftExtends(ns, Created(ns, d, a, n, data), q, d, a, n);
  }

  /** Rewriting a file adds no path. */
  lemma RewrittenExtends(ns: Nodes, f: nat, data: Bytes, path: seq<Name>)
    requires f in ns && ns[f].File?
    ensures Extends(ns, ns[f := File(ns[f].links, data)], path, Some(f))
    ensures Resolve(ns[f := File(ns[f].links, data)], path) == Resolve(ns, path)
  {
    var m := ns[f := File(ns[f].links, data)];
    forall p: seq<Name> ensures Resolve(m, p) == Resolve(ns, p) {
      SameWalk(ns, m, ROOT, p);
    }
  }

  lemma {:induction false} SameWalk(ns: Nodes, m: Nodes, d: nat, p: seq<Name>)
    requires SameEntries(ns, m)
    ensures Walk(m, d, p) == Walk(ns, d, p)
    decreases |p|
  {
    if p != [] && Names(ns, d, p[0]) {
      assert Child(m, d, p[0]) == Child(ns, d, p[0]);
      SameWalk(ns, m, Child(ns, d, p[0]), p[1..]);
    }
  }

  /** One link more, saturating at 255 as the 8-bit count does. */
  function MoreLinks(ns: Nodes, n: nat): Nodes
    requires n in ns
  {
    SetLinks(ns, n, Min(255, ns[n].links + 1))
  }

  /** A directory whose rewrite ran out of space: its entries are gone. */
  function Cleared(ns: Nodes, d: nat): Nodes
  {
    if IsDir(ns, d) then ns[d := Dir(ns[d].links, map[])] else ns
  }

  /** What a link that ran out of space leaves: the count is raised all the same. */
  ghost predicate LinkFails(ns: Nodes, m: Nodes, p: seq<Name>, q: seq<Name>)
  {
    CanLink(ns, p, q) && m == Cleared(MoreLinks(ns, Standing(ns, p)), Holder(ns, q))
  }

  /** What a new directory that ran out of space leaves: nothing, a number without a name, or
      a parent without entries. */
  ghost predicate MadeDirFails(ns: Nodes, m: Nodes, d: nat)
  {
    m == ns || m == Cleared(ns, d) || exists n: nat :: n !in ns && m == ns[n := File(0, [])]
  }

  lemma NothingMade(ns: Nodes, d: nat)
    ensures MadeDirFails(ns, ns, d)
  {
  }

  /** The stages at which making a directory can fail, and the one at which it succeeds. */
  lemma MadeDirStages(ns: Nodes, d: nat, a: Name, n: nat)
    requires IsDir(ns, d) && n !in ns
    ensures MadeDirFails(ns, ns[n := File(0, [])], d)
    ensures var began := ns[n := File(0, [])][n := Dir(2, DotNames(n, d))];
      && n in Cleared(began, d) && MadeDirFails(ns, Cleared(began, d) - {n}, d)
      && IsDir(began, d) && d in PutName(began, d, a, n)
      && MoreLinks(PutName(began, d, a, n), d) == MadeDirCapped(ns, d, a, n)
  {
    var began := ns[n := File(0, [])][n := Dir(2, DotNames(n, d))];
    assert Cleared(began, d) - {n} == Cleared(ns, d);
    assert began == ns[n := Dir(2, DotNames(n, d))];
  }

  /** What the engine leaves behind: the parent's count saturates at 255. */
  ghost function MadeDirCapped(ns: Nodes, d: nat, a: Name, n: nat): Nodes
    requires IsDir(ns, d) && n !in ns
  {
    MoreLinks(WithDir(ns, d, a, n), d)
  }

  lemma NotCapped(ns: Nodes, d: nat, a: Name, n: nat)
    requires IsDir(ns, d) && n !in ns
    ensures ns[d].links < 255 ==> MadeDirCapped(ns, d, a, n) == MadeDir(ns, d, a, n)
  {
  }

  /** A directory whose count is full: one more subdirectory and the saturated count is
      off. This is exactly when. */
  lemma SaturationMiscounts(ns: Nodes, d: nat, a: Name, n: nat)
    requires TreeOK(ns) && IsDir(ns, d) && a !in ns[d].names && !IsDot(a) && n !in ns && n != 0
    requires ns[d].links <= 255
    ensures TreeOK(MadeDirCapped(ns, d, a, n)) <==> ns[d].links < 255
  {
    hide Dotted, Rooted, Reached, Counted, MadeDir, MadeDirCapped;
    NotCapped(ns, d, a, n);
    if ns[d].links < 255 {
      MadeDirOK(ns, d, a, n);
    } else {
      MiscountAt(ns, d, a, n);
    }
  }

  lemma MiscountAt(ns: Nodes, d: nat, a: Name, n: nat)
    requires TreeOK(ns) && IsDir(ns, d) && a !in ns[d].names && !IsDot(a) && n !in ns && n != 0 && ns[d].links == 255
    ensures !Counted(MadeDirCapped(ns, d, a, n))
  {
    hide Dotted, Rooted, Reached, Counted, Refs;
    FreshUnnamed(ns, n);
    CountAt(ns, d);
    MadeDirRefs(ns, d, a, n, d);
    SetLinksRefs(WithDir(ns, d, a, n), d, ns[d].links + 1, d);
    SetLinksRefs(WithDir(ns, d, a, n), d, 255, d);
    MiscountedDir(ns, d, a, n);
  }

  lemma MiscountedDir(ns: Nodes, d: nat, a: Name, n: nat)
    requires IsDir(ns, d) && n !in ns && ns[d].links == 255
    requires |Refs(SetLinks(WithDir(ns, d, a, n), d, 255), d)| == 256
    ensures !Counted(MadeDirCapped(ns, d, a, n))
  {
    hide Refs;
    assert MadeDirCapped(ns, d, a, n) == SetLinks(WithDir(ns, d, a, n), d, 255);
    assert MadeDirCapped(ns, d, a, n)[d].links == 255;
  }

  /** One more link to a file, its count saturating. */
  ghost function LinkedCapped(ns: Nodes, d: nat, a: Name, f: nat): Nodes
    requires IsDir(ns, d) && f in ns && ns[f].File?
  {
    PutName(MoreLinks(ns, f), d, a, f)
  }

  /** A file whose count is full: one more name and the saturated count is off. */
  lemma LinkSaturation(ns: Nodes, d: nat, a: Name, f: nat)
    requires TreeOK(ns) && IsDir(ns, d) && a !in ns[d].names && !IsDot(a)
    requires f in ns && ns[f].File? && ns[f].links <= 255
    ensures TreeOK(LinkedCapped(ns, d, a, f)) <==> ns[f].links < 255
  {
    hide Dotted, Rooted, Reached, Refs;
    if ns[f].links < 255 {
      LinkedOK(ns, d, a, f);
    } else {
      CountAt(ns, f);
      SetLinksRefs(ns, f, 255, f);
      PutNameRefs(SetLinks(ns, f, 255), d, a, f, f);
      MiscountedLink(ns, d, a, f);
    }
  }

  lemma MiscountedLink(ns: Nodes, d: nat, a: Name, f: nat)
    requires IsDir(ns, d) && f in ns && ns[f].File? && ns[f].links == 255
    requires |Refs(LinkedCapped(ns, d, a, f), f)| == 256
    ensures !Counted(LinkedCapped(ns, d, a, f))
  {
    hide Refs;
    assert LinkedCapped(ns, d, a, f)[f].links == 255;
  }

  /** A rename with the new parent's count saturating. */
  ghost function RenamedCapped(ns: Nodes, s: nat, a: Name, t: nat, b: Name): Nodes
    requires Names(ns, s, a) && IsDir(ns, t) && ns[s].links > 0
  {
    if IsDir(ns, Child(ns, s, a)) && s != t && ns[t].links >= 255
    then SetLinks(Renamed(ns, s, a, t, b), t, 255) else Renamed(ns, s, a, t, b)
  }

  /** Directory n turned to a new parent, whose count saturates. */
  ghost function Reparented(ns: Nodes, n: nat, t: nat): Nodes
    requires IsDir(ns, n) && t in ns
  {
    MoreLinks(PutName(ns, n, DOTDOT, t), t)
  }

  /** The counts of a rename's two parents, written one after the other. */
  lemma CappedSteps(ns: Nodes, s: nat, a: Name, t: nat, b: Name)
    requires Names(ns, s, a) && IsDir(ns, t) && 0 < ns[s].links && ns[t].links <= 255
    ensures !(IsDir(ns, Child(ns, s, a)) && s != t) ==>
      DelName(PutName(ns, t, b, Child(ns, s, a)), s, a) == RenamedCapped(ns, s, a, t, b)
    ensures IsDir(ns, Child(ns, s, a)) && s != t ==>
      var n := Child(ns, s, a);
      var gone := DelName(Reparented(PutName(ns, t, b, n), n, t), s, a);
      SetLinks(gone, s, if gone[s].links > 0 then gone[s].links - 1 else 0) == RenamedCapped(ns, s, a, t, b)
  {
  }

  /** A rename that passes the path test miscounts exactly when a directory comes to a new
      parent whose count is full. */
  lemma RenameSaturation(ns: Nodes, sp: seq<Name>, a: Name, tp: seq<Name>, b: Name)
    requires TreeOK(ns) && Clean(sp) && Clean(tp) && !IsDot(a) && !IsDot(b)
    requires Resolve(ns, sp).Some? && Names(ns, Resolve(ns, sp).value, a)
    requires Resolve(ns, tp).Some? && IsDir(ns, Resolve(ns, tp).value) && !Names(ns, Resolve(ns, tp).value, b)
    requires ns[Resolve(ns, tp).value].links <= 255
    requires !(IsDir(ns, Child(ns, Resolve(ns, sp).value, a)) && sp + [a] < tp + [b])
    ensures ns[Resolve(ns, sp).value].links > 0
    ensures var s := Resolve(ns, sp).value; var t := Resolve(ns, tp).value;
      TreeOK(RenamedCapped(ns, s, a, t, b)) <==> !(IsDir(ns, Child(ns, s, a)) && s != t && ns[t].links == 255)
  {
    hide Dotted, Rooted, Reached, Refs, Renamed, Resolve;
    var s, t := Resolve(ns, sp).value, Resolve(ns, tp).value;
    RenamedOK(ns, sp, a, tp, b);
    if IsDir(ns, Child(ns, s, a)) && s != t && ns[t].links == 255 {
      ParentNames(ns, s, a);
      DottedAt(ns, Child(ns, s, a));
      RenamedLinks(ns, s, a, t, b, t);
      var m := Renamed(ns, s, a, t, b);
      CountAt(m, t);
      SetLinksRefs(m, t, 255, t);
      assert SetLinks(m, t, 255)[t].links == 255;
    }
  }

  /** The root with k subdirectories, and a file with k names. */
  ghost function Crowded(k: nat): Nodes
    requires k < 255
  {
    if k == 0 then map[ROOT := Dir(2, DotNames(ROOT, ROOT))]
    else
      var ns := Crowded(k - 1);
      if IsDir(ns, ROOT) && k + 1 !in ns then MadeDir(ns, ROOT, Numbered(k), k + 1) else ns
  }

  function Numbered(k: nat): Name
    requires k < 256
  {
    [97, k]
  }

  ghost predicate NumberedTo(ns: Nodes, k: nat)
  {
    && IsDir(ns, ROOT)
    && (forall a: Name | a in ns[ROOT].names :: IsDot(a) || (|a| == 2 && a[1] <= k))
    && (forall n | n in ns :: n <= k + 1)
  }

  /** Every count of subdirectories up to a full one occurs. */
  lemma {:induction false} CrowdedOK(k: nat)
    requires k < 255
    ensures TreeOK(Crowded(k)) && NumberedTo(Crowded(k), k) && Crowded(k)[ROOT].links == k + 2
  {
    hide TreeOK, NumberedTo, MadeDir;
    if k == 0 {
      RootAloneOK();
      RootNumbered();
    } else {
      var ns := Crowded(k - 1);
      CrowdedOK(k - 1);
      NumberedFree(ns, k);
      MadeDirOK(ns, ROOT, Numbered(k), k + 1);
      NumberedMade(ns, k);
    }
  }

  lemma RootNumbered()
    ensures NumberedTo(map[ROOT := Dir(2, DotNames(ROOT, ROOT))], 0)
  {
  }

  lemma NumberedFree(ns: Nodes, k: nat)
    requires 1 <= k < 256 && NumberedTo(ns, k - 1)
    ensures IsDir(ns, ROOT) && Numbered(k) !in ns[ROOT].names && !IsDot(Numbered(k)) && k + 1 !in ns
  {
    assert Numbered(k)[1] == k;
  }

  lemma NumberedMade(ns: Nodes, k: nat)
    requires 1 <= k < 255 && NumberedTo(ns, k - 1) && k + 1 !in ns && IsDir(ns, ROOT)
    ensures var m := MadeDir(ns, ROOT, Numbered(k), k + 1);
      NumberedTo(m, k) && m[ROOT].links == ns[ROOT].links + 1
  {
  }

  ghost function Aliased(k: nat): Nodes
    requires 1 <= k < 256
  {
    if k == 1 then Created(map[ROOT := Dir(2, DotNames(ROOT, ROOT))], ROOT, Numbered(1), 2, [])
    else
      var ns := Aliased(k - 1);
      if IsDir(ns, ROOT) && 2 in ns && ns[2].File? then Linked(ns, ROOT, Numbered(k), 2) else ns
  }

  /** Every link count of a file up to a full one occurs. */
  lemma {:induction false} AliasedOK(k: nat)
    requires 1 <= k < 256
    ensures TreeOK(Aliased(k)) && NumberedTo(Aliased(k), k)
    ensures 2 in Aliased(k) && Aliased(k)[2].File? && Aliased(k)[2].links == k
  {
    hide TreeOK, NumberedTo, Linked, Created;
    if k == 1 {
      var ns := map[ROOT := Dir(2, DotNames(ROOT, ROOT))];
      RootAloneOK();
      RootNumbered();
      NumberedFree(ns, 1);
      CreatedOK(ns, ROOT, Numbered(1), 2, []);
      NumberedCreated(ns);
    } else {
      var ns := Aliased(k - 1);
      AliasedOK(k - 1);
      NumberedFree(ns, k);
      LinkedOK(ns, ROOT, Numbered(k), 2);
      NumberedLinked(ns, k);
    }
  }

  lemma NumberedCreated(ns: Nodes)
    requires NumberedTo(ns, 0) && 2 !in ns && IsDir(ns, ROOT)
    ensures var m := Created(ns, ROOT, Numbered(1), 2, []);
      NumberedTo(m, 1) && 2 in m && m[2].File? && m[2].links == 1
  {
  }

  lemma NumberedLinked(ns: Nodes, k: nat)
    requires 2 <= k < 256 && NumberedTo(ns, k - 1) && IsDir(ns, ROOT) && 2 in ns && ns[2].File?
    ensures var m := Linked(ns, ROOT, Numbered(k), 2);
      NumberedTo(m, k) && 2 in m && m[2].File? && m[2].links == ns[2].links + 1
  {
  }

  lemma CountAt(ns: Nodes, d: nat)
    requires Counted(ns) && d in ns
    ensures ns[d].links == |Refs(ns, d)|
  {
  }

  // ----- requests by path -----

  /** The directory that holds the last name of a path; 0 when there is none. */
  function Holder(ns: Nodes, p: seq<Name>): nat
    requires p != []
  {
    match Resolve(ns, p[..|p| - 1]) case Some(d) => d case None => 0
  }

  function Last(p: seq<Name>): Name
    requires p != []
  {
    p[|p| - 1]
  }

  /** The path is that of an entry. */
  predicate Stands(ns: Nodes, p: seq<Name>) { p != [] && Names(ns, Holder(ns, p), Last(p)) }

  /** What a path that is no root stands for. */
  function Standing(ns: Nodes, p: seq<Name>): nat
    requires p != []
  {
    Child(ns, Holder(ns, p), Last(p))
  }

  /** An entry could be added there. */
  predicate Vacant(ns: Nodes, p: seq<Name>)
  {
    p != [] && IsDir(ns, Holder(ns, p)) && !Names(ns, Holder(ns, p), Last(p))
  }

  lemma StandsResolves(ns: Nodes, p: seq<Name>)
    requires Dotted(ns) && p != []
    ensures Stands(ns, p) <==> Resolve(ns, p).Some?
    ensures Stands(ns, p) ==> Resolve(ns, p) == Some(Standing(ns, p))
  {
    WalkLast(ns, ROOT, p);
  }

  /** The path leads to a file with that data. */
  ghost predicate Reads(ns: Nodes, p: seq<Name>, data: Bytes)
  {
    match Resolve(ns, p)
    case None => false
    case Some(f) => f in ns && ns[f].File? && ns[f].data == data
  }

  /** A path that leads nowhere yet, or to a directory. */
  ghost predicate Passable(ns: Nodes, q: seq<Name>)
  {
    match Resolve(ns, q) case None => true case Some(n) => IsDir(ns, n)
  }

  /** No name on the way stands for a file: all directories of the path can be made. */
  ghost predicate CanMake(ns: Nodes, p: seq<Name>)
  {
    forall i: nat | i <= |p| :: Passable(ns, p[..i])
  }

  /** A file can be put there: its directories can be made, and the name is new or stands
      for a file that may be overwritten. */
  ghost predicate CanPut(ns: Nodes, p: seq<Name>, overwrite: bool)
  {
    && p != [] && CanMake(ns, p[..|p| - 1])
    && match Resolve(ns, p) case None => true case Some(f) => overwrite && f in ns && ns[f].File?
  }

  /** The file could be put there and is, in a tree that gained no more than its prefixes. */
  ghost predicate FilePut(ns: Nodes, k: Nodes, p: seq<Name>, data: Bytes, overwrite: bool)
  {
    && CanPut(ns, p, overwrite) && TreeOK(k) && Reads(k, p, data) && Extends(ns, k, p, Resolve(k, p))
  }

  /** The path's last name has a directory. */
  ghost predicate DirAbove(ns: Nodes, p: seq<Name>)
  {
    Resolve(ns, Above(p)).Some? && IsDir(ns, Resolve(ns, Above(p)).value)
  }

  /** The directories above a file are made, in m if not in ns. */
  ghost predicate ReadyFor(ns: Nodes, m: Nodes, p: seq<Name>)
  {
    && TreeOK(ns) && TreeOK(m) && p != [] && Clean(p) && MadeAll(ns, m, Above(p)) && CanMake(ns, Above(p))
  }

  /** Only what can be made is. */
  lemma MadeCouldBe(ns: Nodes, m: Nodes, p: seq<Name>)
    requires TreeOK(ns) && Clean(p) && Extends(ns, m, p, None)
    requires Resolve(m, p).Some? && IsDir(m, Resolve(m, p).value)
    ensures CanMake(ns, p)
  {
    hide Dotted, Rooted, Reached, Counted, Extends, Passable, Walk, Resolve, IsDir;
    forall i: nat | i <= |p| ensures Passable(ns, p[..i]) {
      assert p == p[..i] + p[i..];
      MadePrefix(ns, m, p, p[..i], p[i..]);
    }
  }

  lemma MadePrefix(ns: Nodes, m: Nodes, p: seq<Name>, q: seq<Name>, rest: seq<Name>)
    requires TreeOK(ns) && Clean(p) && p == q + rest && Extends(ns, m, p, None)
    requires Resolve(m, p).Some? && IsDir(m, Resolve(m, p).value)
    ensures Passable(ns, q)
  {
    hide TreeOK, Extends, IsDir, Walk;
    assert forall i | 0 <= i < |q| :: q[i] == p[i];
    ResolvedExists(ns, q);
    WalkSplit(m, ROOT, q, rest);
    if Resolve(ns, q).Some? {
      var n := Resolve(ns, q).value;
      ExtendsAt(ns, m, p, q, n);
      WalksFromDir(m, n, rest);
    }
  }

  lemma ExtendsAt(ns: Nodes, m: Nodes, p: seq<Name>, q: seq<Name>, n: nat)
    requires Extends(ns, m, p, None) && Clean(q) && Resolve(ns, q) == Some(n) && n in ns
    ensures Resolve(m, q) == Some(n) && IsDir(m, n) == IsDir(ns, n)
  {
    hide Walk, IsDir;
  }

  lemma WalksFromDir(m: Nodes, n: nat, rest: seq<Name>)
    requires Walk(m, n, rest).Some? && IsDir(m, Walk(m, n, rest).value)
    ensures IsDir(m, n)
  {
  }

  lemma ResolvedExists(ns: Nodes, p: seq<Name>)
    requires TreeOK(ns)
    ensures Resolve(ns, p).Some? ==> Resolve(ns, p).value in ns
  {
    if p != [] {
      WalkLast(ns, ROOT, p);
      var d := Resolve(ns, p[..|p| - 1]);
      if d.Some? && Names(ns, d.value, p[|p| - 1]) { ChildExists(ns, d.value, p[|p| - 1]); }
    }
  }

  /** How many directories of a path are missing. */
  function Missing(ns: Nodes, p: seq<Name>): nat
    decreases |p|
  {
    if p == [] then 0 else Missing(ns, p[..|p| - 1]) + if Resolve(ns, p).None? then 1 else 0
  }

  lemma {:induction false} MissingPrefix(ns: Nodes, p: seq<Name>, i: nat)
    requires i <= |p|
    ensures Missing(ns, p[..i]) <= Missing(ns, p)
    decreases |p|
  {
    if i < |p| {
      MissingPrefix(ns, p[..|p| - 1], i);
      assert p[..|p| - 1][..i] == p[..i];
    } else {
      assert p[..i] == p;
    }
  }

  lemma MissingNext(ns: Nodes, p: seq<Name>, i: nat)
    requires i < |p|
    ensures Missing(ns, p[..i + 1]) == Missing(ns, p[..i]) + if Resolve(ns, p[..i + 1]).None? then 1 else 0
  {
    assert p[..i + 1][..i] == p[..i];
  }

  /** The deepest directory of the path that exists, if it is to get another one, has room
      for one more link in its 8-bit count. */
  ghost predicate RoomAt(ns: Nodes, p: seq<Name>, i: nat)
    requires i < |p|
  {
    match Resolve(ns, p[..i])
    case None => true
    case Some(d) => Resolve(ns, p[..i + 1]).None? && IsDir(ns, d) ==> ns[d].links < 255
  }

  ghost predicate RoomToMake(ns: Nodes, p: seq<Name>) { forall i: nat | i < |p| :: RoomAt(ns, p, i) }

  /** Every directory of the path exists, the last one bare if any had to be made. */
  ghost predicate MadeAll(ns: Nodes, m: Nodes, p: seq<Name>)
  {
    var d := Resolve(m, p);
    && Extends(ns, m, p, None)
    && d.Some? && IsDir(m, d.value) && (m == ns || Bare(m, d.value))
  }

  /** What making directories leaves when it runs out of space: the first i of them made, and
      the next one failed. */
  ghost predicate MkdirFailsAt(ns: Nodes, k: Nodes, p: seq<Name>, i: nat, m: Nodes)
  {
    && i < |p| && TreeOK(m) && Extends(ns, m, p[..i], None)
    && Resolve(m, p[..i]).Some? && MadeDirFails(m, k, Resolve(m, p[..i]).value)
  }

  ghost predicate MkdirFails(ns: Nodes, k: Nodes, p: seq<Name>) { exists i: nat, m: Nodes :: MkdirFailsAt(ns, k, p, i, m) }

  /** What putting a file into directory d leaves when it runs out of space: nothing, the
      directory without entries, a number without a name, or the old file without data. */
  ghost predicate PutFails(m: Nodes, k: Nodes, d: nat)
  {
    || k == m || k == Cleared(m, d)
    || (exists n: nat :: n !in m && k == m[n := File(1, [])])
    || (exists f: nat :: f in m && m[f].File? && k == m[f := File(m[f].links, [])])
  }

  ghost predicate PutFailsIn(ns: Nodes, k: Nodes, p: seq<Name>, m: Nodes)
  {
    TreeOK(m) && Extends(ns, m, p, None) && Resolve(m, p).Some? && PutFails(m, k, Resolve(m, p).value)
  }

  ghost predicate PutFailsBelow(ns: Nodes, k: Nodes, p: seq<Name>) { exists m: Nodes :: PutFailsIn(ns, k, p, m) }

  /** The directory part of a path. */
  function Above(p: seq<Name>): seq<Name> { if p == [] then [] else p[..|p| - 1] }

  /** What writing a file leaves when it runs out of space: the parents could not all be made,
      or they were, and the file could not be put there. */
  ghost predicate WriteFails(ns: Nodes, k: Nodes, p: seq<Name>)
  {
    MkdirFails(ns, k, Above(p)) || PutFailsBelow(ns, k, Above(p))
  }

  lemma RootResolves(ns: Nodes)
    requires TreeOK(ns)
    ensures IsDir(ns, ROOT) && Resolve(ns, []) == Some(ROOT) && Missing(ns, []) == 0
  {
  }

  lemma MissingLast(ns: Nodes, p: seq<Name>)
    requires p != []
    ensures Missing(ns, p) == Missing(ns, p[..|p| - 1]) + if Resolve(ns, p).None? then 1 else 0
  {
  }

  lemma NothingPut(m: Nodes, d: nat)
    ensures PutFails(m, m, d)
  {
  }

  lemma DataLost(m: Nodes, d: nat, f: nat)
    requires f in m && m[f].File?
    ensures PutFails(m, m[f := File(m[f].links, [])], d)
  {
  }

  /** The stages at which putting a new file can fail, and the one at which it succeeds. */
  lemma PutStages(ns: Nodes, d: nat, a: Name, n: nat, data: Bytes)
    requires IsDir(ns, d) && n !in ns
    ensures PutFails(ns, ns[n := File(0, [])][n := File(1, [])], d)
    ensures var began := ns[n := File(0, [])][n := File(1, data)];
      && n in Cleared(began, d) && PutFails(ns, Cleared(began, d) - {n}, d)
      && IsDir(began, d) && PutName(began, d, a, n) == Created(ns, d, a, n, data)
  {
    var began := ns[n := File(0, [])][n := File(1, data)];
    assert Cleared(began, d) - {n} == Cleared(ns, d);
    assert began == ns[n := File(1, data)];
    assert ns[n := File(0, [])][n := File(1, [])] == ns[n := File(1, [])];
  }

  /** What a rename leaves when one of its three rewrites runs out of space: the new
      parent, the moved directory or the old parent without entries. */
  ghost predicate RenameFails(ns: Nodes, k: Nodes, s: nat, a: Name, t: nat, b: Name)
    requires Names(ns, s, a) && IsDir(ns, t)
  {
    var n := Child(ns, s, a);
    var named := PutName(ns, t, b, n);
    || k == Cleared(ns, t)
    || (if IsDir(ns, n) && s != t then k == Cleared(named, n) || k == Cleared(Reparented(named, n, t), s)
        else k == Cleared(named, s))
  }

  /** The path names something that is no directory. */
  ghost predicate CanUnlink(ns: Nodes, p: seq<Name>)
  {
    Stands(ns, p) && Standing(ns, p) in ns && ns[Standing(ns, p)].File?
  }

  ghost predicate Unlinks(ns: Nodes, m: Nodes, p: seq<Name>)
  {
    CanUnlink(ns, p) && m == Unlinked(ns, Holder(ns, p), Last(p))
  }

  /** The path names a directory that holds nothing but its dots. */
  ghost predicate CanRemoveDir(ns: Nodes, p: seq<Name>)
  {
    Stands(ns, p) && IsDir(ns, Standing(ns, p)) && Bare(ns, Standing(ns, p))
  }

  ghost predicate RemovesDir(ns: Nodes, m: Nodes, p: seq<Name>)
  {
    && CanRemoveDir(ns, p)
    && Standing(ns, p) != Holder(ns, p) && ns[Holder(ns, p)].links > 0
    && m == RemovedDir(ns, Holder(ns, p), Last(p))
  }

  /** The first path names a file, and the second an entry that could be added. */
  ghost predicate CanLink(ns: Nodes, p: seq<Name>, q: seq<Name>) { CanUnlink(ns, p) && Vacant(ns, q) }

  ghost predicate Links(ns: Nodes, m: Nodes, p: seq<Name>, q: seq<Name>)
  {
    CanLink(ns, p, q) && m == LinkedCapped(ns, Holder(ns, q), Last(q), Standing(ns, p))
  }

  /** A directory may not move below itself: the test is on the two paths alone. */
  ghost predicate CanRename(ns: Nodes, p: seq<Name>, q: seq<Name>)
  {
    Stands(ns, p) && Vacant(ns, q) && !(IsDir(ns, Standing(ns, p)) && p < q)
  }

  ghost predicate Renames(ns: Nodes, m: Nodes, p: seq<Name>, q: seq<Name>)
  {
    && CanRename(ns, p, q) && ns[Holder(ns, p)].links > 0
    && m == RenamedCapped(ns, Holder(ns, p), Last(p), Holder(ns, q), Last(q))
  }

  /** A directory comes to a new parent whose link count is full. */
  ghost predicate Overfills(ns: Nodes, p: seq<Name>, q: seq<Name>)
    requires p != [] && q != []
  {
    && IsDir(ns, Standing(ns, p)) && Holder(ns, p) != Holder(ns, q)
    && IsDir(ns, Holder(ns, q)) && ns[Holder(ns, q)].links == 255
  }

  /** The tree with the root alone. */
  lemma RootAloneOK()
    ensures TreeOK(map[ROOT := Dir(2, DotNames(ROOT, ROOT))])
  {
    var ns := map[ROOT := Dir(2, DotNames(ROOT, ROOT))];
    assert DOT != DOTDOT;
    forall d: nat | IsDir(ns, d)
      ensures Names(ns, d, DOT) && Child(ns, d, DOT) == d && Names(ns, d, DOTDOT) && IsDir(ns, Child(ns, d, DOTDOT))
    {
      assert d == ROOT && ns[d].names == DotNames(ROOT, ROOT);
    }
    assert Clean([]) && Resolve(ns, []) == Some(ROOT);
    forall d: nat, a: Name ensures (d, a) in Refs(ns, ROOT) <==> (d, a) in {(ROOT, DOT), (ROOT, DOTDOT)} {
    }
    assert Refs(ns, ROOT) == {(ROOT, DOT), (ROOT, DOTDOT)};
  }

  lemma MadeDirNode(ns: Nodes, d: nat, a: Name, n: nat)
    requires IsDir(ns, d) && n !in ns
    ensures IsDir(MadeDir(ns, d, a, n), n) && MadeDir(ns, d, a, n)[n].links == 2 && Bare(MadeDir(ns, d, a, n), n)
  {
  }

  lemma RemovedDirOrder(ns: Nodes, d: nat, a: Name)
    requires Names(ns, d, a) && Child(ns, d, a) != d && ns[d].links > 0
    ensures SetLinks(DelName(ns, d, a), d, ns[d].links - 1) - {Child(ns, d, a)} == RemovedDir(ns, d, a)
  {
  }

}
