/** Absolute paths inside an image: their text and their components. */
module Paths {
  import opened Wrappers
  import opened Errors
  import opened Layout

  const SLASH: U8 := 47

  type ImagePath = seq<Name>

  /** What is wrong with a component, if anything. */
  function Fault(c: Name): Option<Error>
  {
    if c == [] || c == DOT || c == DOTDOT then Some(InvalidPath)
    else if |c| > NAME_LENGTH then Some(NameTooLong)
    else None
  }

  predicate ValidName(c: Name) { Fault(c) == None && SLASH !in c }

  predicate ValidPath(p: ImagePath) { forall i | 0 <= i < |p| :: ValidName(p[i]) }

  /** The pieces of a text between its slashes. */
  function Split(s: Bytes): (cs: seq<Bytes>)
    ensures cs != []
  {
    if s == [] then [[]]
    else if s[0] == SLASH then [[]] + Split(s[1..])
    else
      var r := Split(s[1..]);
      [[s[0]] + r[0]] + r[1..]
  }

  /** The pieces with slashes between them. */
  function Joined(cs: seq<Bytes>): Bytes
    requires cs != []
  {
    if |cs| == 1 then cs[0] else cs[0] + [SLASH] + Joined(cs[1..])
  }

  predicate SlashFree(cs: seq<Bytes>) { forall i | 0 <= i < |cs| :: SLASH !in cs[i] }

  lemma {:induction false} JoinedSplit(s: Bytes)
    ensures Joined(Split(s)) == s
  {
    if s == [] {
    } else {
      JoinedSplit(s[1..]);
      var r := Split(s[1..]);
      assert s == [s[0]] + s[1..];
      if s[0] == SLASH {
        JoinedAfterSlash(r);
      } else {
        JoinedPrefixed(s[0], r);
      }
    }
  }

  lemma JoinedAfterSlash(cs: seq<Bytes>)
    requires cs != []
    ensures Joined([[]] + cs) == [SLASH] + Joined(cs)
  {
    assert ([[]] + cs)[1..] == cs;
  }

  lemma JoinedPrefixed(x: U8, cs: seq<Bytes>)
    requires cs != []
    ensures Joined([[x] + cs[0]] + cs[1..]) == [x] + Joined(cs)
  {
    var r := [[x] + cs[0]] + cs[1..];
    assert r[1..] == cs[1..] && r[0] == [x] + cs[0];
    if |cs| > 1 {
      hide Joined;
      assert ([x] + cs[0]) + [SLASH] + Joined(cs[1..]) == [x] + (cs[0] + [SLASH] + Joined(cs[1..]));
    }
  }

  lemma {:induction false} SplitSlashFree(s: Bytes)
    ensures SlashFree(Split(s))
  {
    if s != [] {
      SplitSlashFree(s[1..]);
    }
  }

  /** Text that starts with a slash-free piece and a slash splits there. */
  lemma {:induction false} SplitAfter(c: Bytes, rest: Bytes)
    requires SLASH !in c
    ensures Split(c) == [c]
    ensures Split(c + [SLASH] + rest) == [c] + Split(rest)
    decreases |c|
  {
    var s := c + [SLASH] + rest;
    if c == [] {
      assert s == [SLASH] + rest && s[1..] == rest;
    } else {
      SplitAfter(c[1..], rest);
      assert s[1..] == c[1..] + [SLASH] + rest;
      assert [c[0]] + c[1..] == c;
    }
  }

  lemma {:induction false} SplitJoined(cs: seq<Bytes>)
    requires cs != [] && SlashFree(cs)
    ensures Split(Joined(cs)) == cs
  {
    if |cs| == 1 {
      SplitAfter(cs[0], []);
    } else {
      SplitAfter(cs[0], Joined(cs[1..]));
      SplitJoined(cs[1..]);
    }
  }

  /** The text of a path. */
  function Display(p: ImagePath): Bytes
  {
    if p == [] then [SLASH] else [SLASH] + Joined(p)
  }

  /** The first fault among components. */
  function FirstFault(cs: seq<Name>): Option<Error>
  {
    if cs == [] then None else if Fault(cs[0]).Some? then Fault(cs[0]) else FirstFault(cs[1..])
  }

  lemma {:induction false} NoFault(cs: seq<Name>)
    ensures FirstFault(cs) == None <==> forall i | 0 <= i < |cs| :: Fault(cs[i]) == None
  {
    if cs != [] {
      NoFault(cs[1..]);
      assert forall i | 1 <= i < |cs| :: cs[i] == cs[1..][i - 1];
    }
  }

  lemma FaultSnoc(cs: seq<Name>, k: nat)
    requires k < |cs| && FirstFault(cs[..k]) == None
    ensures Fault(cs[k]).Some? ==> FirstFault(cs) == Fault(cs[k])
    ensures Fault(cs[k]).None? ==> FirstFault(cs[..k + 1]) == None
  {
    hide Fault, FirstFault;
    NoFault(cs[..k]);
    forall i | 0 <= i < k ensures Fault(cs[i]) == None {
      assert cs[..k][i] == cs[i];
    }
    if Fault(cs[k]).Some? {
      FaultFound(cs, k);
    } else {
      NoFault(cs[..k + 1]);
    }
  }

  lemma {:induction false} FaultFound(cs: seq<Name>, k: nat)
    requires k < |cs| && Fault(cs[k]).Some? && forall i | 0 <= i < k :: Fault(cs[i]) == None
    ensures FirstFault(cs) == Fault(cs[k])
  {
    if k > 0 { FaultFound(cs[1..], k - 1); }
  }

  /** What parsing a text yields. */
  function Parsed(s: Bytes): Result<ImagePath, Error>
  {
    if s == [] || s[0] != SLASH then Err(InvalidPath)
    else if s == [SLASH] then Ok([])
    else
      match FirstFault(Split(s)[1..])
      case Some(e) => Err(e)
      case None => Ok(Split(s)[1..])
  }

  method Parse(s: Bytes) returns (r: Result<ImagePath, Error>)
    ensures r == Parsed(s)
  {
    if s == [] || s[0] != SLASH {
      return Err(InvalidPath);
    }
    if s == [SLASH] {
      return Ok([]);
    }
    var components: ImagePath := [];
    var pieces := Split(s)[1..];
    for i := 0 to |pieces|
      invariant components == pieces[..i] && FirstFault(pieces[..i]) == None
    {
      var component := pieces[i];
      FaultSnoc(pieces, i);
      if component == [] || component == DOT || component == DOTDOT {
        return Err(InvalidPath);
      }
      if |component| > NAME_LENGTH {
        return Err(NameTooLong);
      }
      components := components + [component];
      assert components == pieces[..i + 1];
    }
    assert pieces[..|pieces|] == pieces;
    return Ok(components);
  }

  lemma ParseErrors(s: Bytes)
    ensures Parsed(s).Err? ==> Parsed(s).error == InvalidPath || Parsed(s).error == NameTooLong
  {
    if s != [] && s != [SLASH] && s[0] == SLASH {
      FaultErrors(Split(s[1..]));
    }
  }

  lemma {:induction false} FaultErrors(cs: seq<Name>)
    ensures FirstFault(cs).Some? ==> FirstFault(cs).value == InvalidPath || FirstFault(cs).value == NameTooLong
  {
    if cs != [] { FaultErrors(cs[1..]); }
  }

  /** A valid path reads back from its own text. */
  lemma ParsedDisplay(p: ImagePath)
    requires ValidPath(p)
    ensures Parsed(Display(p)) == Ok(p)
  {
    if p != [] {
      var cs := [[]] + p;
      assert cs[1..] == p;
      assert Joined(cs) == [] + [SLASH] + Joined(p) == Display(p);
      SplitJoined(cs);
      NoFault(p);
      assert Joined(p) != [];
    }
  }

  /** Only normalized text parses, and only to the path it is the text of. */
  lemma DisplayParsed(s: Bytes)
    ensures Parsed(s).Ok? ==> ValidPath(Parsed(s).value) && Display(Parsed(s).value) == s
  {
    if Parsed(s).Ok? && s != [SLASH] {
      SplitAtSlash(s);
      NoFault(Split(s[1..]));
      SplitSlashFree(s[1..]);
      JoinedSplit(s[1..]);
      hide Split, Joined, FirstFault;
      assert s == [SLASH] + s[1..];
    }
  }

  lemma SplitAtSlash(s: Bytes)
    requires s != [] && s[0] == SLASH
    ensures Split(s) == [[]] + Split(s[1..]) && Split(s)[1..] == Split(s[1..])
  {
  }

  /** The texts that parse are exactly the texts of valid paths. */
  lemma ParseAccepts(s: Bytes)
    ensures Parsed(s).Ok? <==> exists p: ImagePath :: ValidPath(p) && Display(p) == s
  {
    DisplayParsed(s);
    if p: ImagePath :| ValidPath(p) && Display(p) == s {
      ParsedDisplay(p);
    }
  }

  /** One more component behind a slash. A text without a slash in front does not parse; any
      other is made in this way, so that this settles what parses, and to what. */
  lemma OneMoreComponent(t: Bytes, c: Name)
    requires SLASH !in c
    ensures var s := t + [SLASH] + c;
      var before := if t == [] then Ok([]) else if t == [SLASH] then Err(InvalidPath) else Parsed(t);
      Parsed(s) ==
        if t == [] && c == [] then Ok([])
        else if before.Err? then before
        else if |c| == 0 || c == [46] || c == [46, 46] then Err(InvalidPath)
        else if |c| > 14 then Err(NameTooLong)
        else Ok(before.value + [c])
    ensures t == [] || t[0] != SLASH ==> Parsed(t) == Err(InvalidPath)
  {
    SplitSnoc(t, c);
    var s, cs := t + [SLASH] + c, Split(t);
    assert Split(s)[1..] == cs[1..] + [c];
    FirstFaultSnoc(cs[1..], c);
    assert |s| == |t| + 1 + |c| && s[0] == if t == [] then SLASH else t[0];
    if t == [SLASH] { assert cs[1..] == [[]]; }
  }

  lemma {:induction false} SplitSnoc(t: Bytes, c: Name)
    requires SLASH !in c
    ensures Split(t + [SLASH] + c) == Split(t) + [c]
  {
    var s := t + [SLASH] + c;
    if t == [] {
      SplitAfter(c, []);
      assert s[1..] == c;
    } else {
      assert s[1..] == t[1..] + [SLASH] + c;
      SplitSnoc(t[1..], c);
    }
  }

  lemma {:induction false} FirstFaultSnoc(cs: seq<Name>, c: Name)
    ensures FirstFault(cs + [c]) == if FirstFault(cs).Some? then FirstFault(cs) else Fault(c)
  {
    if cs == [] {
      assert [c][1..] == [];
    } else {
      assert (cs + [c])[1..] == cs[1..] + [c];
      FirstFaultSnoc(cs[1..], c);
    }
  }

  function Parent(p: ImagePath): Option<ImagePath>
  {
    if p == [] then None else Some(p[..|p| - 1])
  }

  function FileName(p: ImagePath): Option<Name>
  {
    if p == [] then None else Some(p[|p| - 1])
  }

  function JoinName(p: ImagePath, name: Name): Result<ImagePath, Error>
  {
    match Fault(name)
    case Some(e) => Err(e)
    case None => Ok(p + [name])
  }

  /** Joining and taking apart are inverse. */
  lemma JoinParent(p: ImagePath, name: Name)
    ensures JoinName(p, name).Ok? ==>
      && Parent(JoinName(p, name).value) == Some(p)
      && FileName(JoinName(p, name).value) == Some(name)
    ensures ValidPath(p) && p != [] ==>
      JoinName(Parent(p).value, FileName(p).value) == Ok(p)
  {
    assert (p + [name])[..|p|] == p;
    if p != [] {
      assert p == p[..|p| - 1] + [p[|p| - 1]];
      assert ValidPath(p) ==> ValidName(p[|p| - 1]);
    }
  }

  /** Joining does not look for slashes: the joined path reads back from its text
      exactly when the name has none. */
  lemma JoinReadsBack(p: ImagePath, name: Name)
    requires ValidPath(p) && JoinName(p, name).Ok?
    ensures Parsed(Display(p + [name])) == Ok(p + [name]) <==> SLASH !in name
  {
    if SLASH !in name {
      ParsedDisplay(p + [name]);
    } else {
      DisplayParsed(Display(p + [name]));
      LastInvalid(p, name);
    }
  }

  lemma LastInvalid(p: ImagePath, name: Name)
    ensures ValidPath(p + [name]) ==> ValidName(name)
  {
    assert (p + [name])[|p|] == name;
  }

  lemma ParentValid(p: ImagePath)
    requires ValidPath(p) && p != []
    ensures ValidPath(p[..|p| - 1]) && ValidName(p[|p| - 1])
  {
  }
}
