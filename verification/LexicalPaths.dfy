/** Lexical path handling, without touching the file system.

    `lexical_normalize` and `normalize_relative` of `hashing.rs`, and the minimal path set
    of `InputSnapshot::take` (`executor/mod.rs`). */
module LexicalPaths {
  import opened Outcome
  import opened Order
  import opened Text
  import Inventory = ArtifactInventory

  datatype Component = RootDir | CurDir | ParentDir | Normal(name: string)

  /** A path under construction. */
  datatype Lexical = Lexical(absolute: bool, names: seq<string>)

  /** `push` and `pop`, neither of which leaves the root or goes above the start. */
  function Step(out: Lexical, c: Component): Lexical {
    match c
    case CurDir => out
    case ParentDir => if out.names == [] then out else out.(names := out.names[..|out.names| - 1])
    case RootDir => Lexical(true, [])
    case Normal(name) => out.(names := out.names + [name])
  }

  function NormalizeFrom(out: Lexical, cs: seq<Component>): Lexical {
    if cs == [] then out else Step(NormalizeFrom(out, cs[..|cs| - 1]), cs[|cs| - 1])
  }

  function Normalize(cs: seq<Component>): Lexical { NormalizeFrom(Lexical(false, []), cs) }

  method LexicalNormalize(path: seq<Component>) returns (out: Lexical)
    ensures out == Normalize(path)
  {
    out := Lexical(false, []);
    for i := 0 to |path|
      invariant out == Normalize(path[..i])
    {
      assert path[..i + 1][..i] == path[..i];
      match path[i]
      case CurDir =>
      case ParentDir => if out.names != [] { out := out.(names := out.names[..|out.names| - 1]); }
      case RootDir => out := Lexical(true, []);
      case Normal(name) => out := out.(names := out.names + [name]);
    }
    assert path[..|path|] == path;
  }

  function Normals(names: seq<string>): seq<Component> { seq(|names|, i requires 0 <= i < |names| => Normal(names[i])) }

  function Components(p: Lexical): seq<Component> { (if p.absolute then [RootDir] else []) + Normals(p.names) }

  lemma {:induction false} NormalizeConcat(out: Lexical, a: seq<Component>, b: seq<Component>)
    ensures NormalizeFrom(out, a + b) == NormalizeFrom(NormalizeFrom(out, a), b)
    decreases |b|
  {
    if b == [] {
      assert a + b == a;
    } else {
      var n := |b| - 1;
      assert (a + b)[..|a + b| - 1] == a + b[..n];
      NormalizeConcat(out, a, b[..n]);
    }
  }

  lemma {:induction false} NormalsAppend(out: Lexical, names: seq<string>)
    ensures NormalizeFrom(out, Normals(names)) == out.(names := out.names + names)
  {
    if names == [] {
      assert out.names + [] == out.names;
    } else {
      var n := |names| - 1;
      assert Normals(names)[..n] == Normals(names[..n]);
      NormalsAppend(out, names[..n]);
      assert out.names + names[..n] + [names[n]] == out.names + names by { assert names == names[..n] + [names[n]]; }
    }
  }

  /** Normalizing leaves a normalized path alone. */
  lemma NormalizeFixed(p: Lexical)
    ensures Normalize(Components(p)) == p
  {
    var start := Lexical(false, []);
    var head: seq<Component> := if p.absolute then [RootDir] else [];
    NormalizeConcat(start, head, Normals(p.names));
    if p.absolute {
      assert [RootDir][..0] == [];
      assert NormalizeFrom(start, head) == Lexical(true, []);
    }
    NormalsAppend(NormalizeFrom(start, head), p.names);
    assert [] + p.names == p.names;
  }

  /** A path may be normalized before or after it is joined. */
  lemma NormalizeJoin(a: seq<Component>, b: seq<Component>)
    ensures Normalize(Components(Normalize(a)) + b) == Normalize(a + b)
  {
    NormalizeFixed(Normalize(a));
    NormalizeConcat(Lexical(false, []), a, b);
    NormalizeConcat(Lexical(false, []), Components(Normalize(a)), b);
  }

  /** A part of a path that leaves every path under construction as it was drops out. */
  lemma DropsOut(a: seq<Component>, part: seq<Component>, b: seq<Component>)
    requires NormalizeFrom(Normalize(a), part) == Normalize(a)
    ensures Normalize(a + part + b) == Normalize(a + b)
  {
    var start := Lexical(false, []);
    NormalizeConcat(start, a, part);
    NormalizeConcat(start, a + part, b);
    NormalizeConcat(start, a, b);
  }

  lemma NormalizeTwo(out: Lexical, c: Component, d: Component)
    ensures NormalizeFrom(out, [c, d]) == Step(Step(out, c), d)
  {
    assert [c, d] == [c] + [d] && [c][..0] == [] && [d][..0] == [];
    NormalizeConcat(out, [c], [d]);
  }

  /** A parent takes back exactly the name before it. */
  lemma ParentCancels(a: seq<Component>, name: string, b: seq<Component>)
    ensures Normalize(a + [Normal(name), ParentDir] + b) == Normalize(a + b)
  {
    var out := Normalize(a);
    NormalizeTwo(out, Normal(name), ParentDir);
    assert (out.names + [name])[..|out.names|] == out.names;
    DropsOut(a, [Normal(name), ParentDir], b);
  }

  lemma CurrentDropsOut(a: seq<Component>, b: seq<Component>)
    ensures Normalize(a + [CurDir] + b) == Normalize(a + b)
  {
    assert [CurDir][..0] == [];
    DropsOut(a, [CurDir], b);
  }

  /** Where there is no name to take back, at the start or directly below the root, a parent is nothing. */
  lemma ParentOfNothing(a: seq<Component>, b: seq<Component>)
    requires Normalize(a).names == []
    ensures Normalize(a + [ParentDir] + b) == Normalize(a + b)
  {
    assert [ParentDir][..0] == [];
    DropsOut(a, [ParentDir], b);
  }

  /** An absolute component discards what precedes it. */
  lemma RootDiscards(a: seq<Component>, b: seq<Component>)
    ensures Normalize(a + [RootDir] + b) == Normalize([RootDir] + b)
  {
    var start := Lexical(false, []);
    assert [RootDir][..0] == [];
    NormalizeConcat(start, a, [RootDir]);
    NormalizeConcat(start, a + [RootDir], b);
    NormalizeConcat(start, [RootDir], b);
  }

  // ---------------------------------------------------------------------
  // Workspace-relative text
  // ---------------------------------------------------------------------

  /** What a file system name can be. */
  predicate IsName(name: string) { name != "" && name != "." && name != ".." && '/' !in name }

  predicate Printable(name: string) { forall c <- name :: !IsControl(c) }

  /** `parts` lead from the workspace to the normalized path, in printable names. */
  ghost predicate LeadsTo(workspace: Lexical, abs: seq<Component>, parts: seq<string>) {
    Components(Normalize(abs)) == Components(workspace) + Normals(parts) && forall p <- parts :: Printable(p)
  }

  lemma ComponentsAppend(p: Lexical, names: seq<string>)
    ensures Components(p.(names := p.names + names)) == Components(p) + Normals(names)
  {
    assert Normals(p.names + names) == Normals(p.names) + Normals(names);
  }

  /** What leads to where: the normalized path is the workspace followed by the parts. */
  lemma LeadsExactly(workspace: Lexical, abs: seq<Component>, parts: seq<string>)
    ensures LeadsTo(workspace, abs, parts) <==>
      && Normalize(abs) == workspace.(names := workspace.names + parts)
      && forall p <- parts :: Printable(p)
  {
    hide Printable;
    ComponentsAppend(workspace, parts);
    var target := workspace.(names := workspace.names + parts);
    if Components(Normalize(abs)) == Components(target) {
      NormalizeFixed(Normalize(abs));
      NormalizeFixed(target);
    }
  }

  /** A detour through any directory is no detour. */
  lemma DetourLeads(workspace: Lexical, name: string, parts: seq<string>)
    requires forall p <- parts :: Printable(p)
    ensures LeadsTo(workspace, Components(workspace) + [Normal(name), ParentDir] + Normals(parts), parts)
  {
    hide Printable, LeadsTo;
    var abs := Components(workspace) + [Normal(name), ParentDir] + Normals(parts);
    ParentCancels(Components(workspace), name, Normals(parts));
    ComponentsAppend(workspace, parts);
    NormalizeFixed(workspace.(names := workspace.names + parts));
    LeadsExactly(workspace, abs, parts);
  }

  /** The path out of the workspace and into `name` beside it. */
  function Beside(workspace: Lexical, name: string, rest: seq<string>): seq<Component> {
    Components(workspace) + [ParentDir, Normal(name)] + Normals(rest)
  }

  lemma BesideIs(workspace: Lexical, name: string, rest: seq<string>)
    ensures
      var up := Step(workspace, ParentDir);
      Normalize(Beside(workspace, name, rest)) == up.(names := up.names + [name] + rest)
  {
    var start, up := Lexical(false, []), Step(workspace, ParentDir);
    NormalizeFixed(workspace);
    NormalizeConcat(start, Components(workspace), [ParentDir, Normal(name)]);
    NormalizeTwo(workspace, ParentDir, Normal(name));
    NormalizeConcat(start, Components(workspace) + [ParentDir, Normal(name)], Normals(rest));
    NormalsAppend(up.(names := up.names + [name]), rest);
  }

  /** A step out of the workspace is refused unless it leads straight back in: the next name is the
      workspace's own, or the workspace is the root. */
  lemma EscapeRefused(workspace: Lexical, name: string, rest: seq<string>, parts: seq<string>)
    ensures
      var own := if workspace.names == [] then [] else [workspace.names[|workspace.names| - 1]];
      LeadsTo(workspace, Beside(workspace, name, rest), parts) <==>
        own + parts == [name] + rest && forall p <- parts :: Printable(p)
  {
    hide Printable, Beside;
    BesideIs(workspace, name, rest);
    LeadsExactly(workspace, Beside(workspace, name, rest), parts);
    var names, up := workspace.names, Step(workspace, ParentDir).names;
    var own := if names == [] then [] else [names[|names| - 1]];
    assert names == up + own;
    assert names + parts == up + (own + parts) && up + [name] + rest == up + ([name] + rest);
    if up + (own + parts) == up + ([name] + rest) {
      assert own + parts == (up + (own + parts))[|up|..] && [name] + rest == (up + ([name] + rest))[|up|..];
    }
  }

  lemma RestUnique(whole: seq<Component>, prefix: seq<Component>, parts: seq<string>)
    ensures whole == prefix + Normals(parts) <==> prefix <= whole && whole[|prefix|..] == Normals(parts)
  {
    if prefix <= whole { assert whole == prefix + whole[|prefix|..]; }
  }

  lemma BadPart(rel: seq<Component>, i: nat, parts: seq<string>)
    requires i < |rel| && !(rel[i].Normal? && Printable(rel[i].name)) && rel == Normals(parts)
    ensures exists p <- parts :: !Printable(p)
  {
    assert rel[i] == Normals(parts)[i];
    assert parts[i] in parts;
  }

  /** `normalize_relative`: the part below the workspace, joined by slashes. */
  method NormalizeRelative(workspace: Lexical, abs: seq<Component>) returns (text: Result<string>)
    ensures text.Ok? ==> exists parts :: LeadsTo(workspace, abs, parts) && text.value == Join(parts, '/')
    ensures text.Err? ==> forall parts :: !LeadsTo(workspace, abs, parts)
  {
    hide Printable, Components, Join;
    var normalized := LexicalNormalize(abs);
    var whole, prefix := Components(normalized), Components(workspace);
    forall parts ensures LeadsTo(workspace, abs, parts) ==> prefix <= whole && whole[|prefix|..] == Normals(parts) {
      RestUnique(whole, prefix, parts);
    }
    if !(prefix <= whole) { return Err; }
    var rel := whole[|prefix|..];
    var parts: seq<string> := [];
    for i := 0 to |rel|
      invariant |parts| == i && (forall k :: 0 <= k < i ==> rel[k] == Normal(parts[k]))
      invariant forall p <- parts :: Printable(p)
    {
      if rel[i].Normal? && Printable(rel[i].name) {
        parts := parts + [rel[i].name];
      } else {
        forall ps ensures !LeadsTo(workspace, abs, ps) { if LeadsTo(workspace, abs, ps) { BadPart(rel, i, ps); } }
        return Err;
      }
    }
    assert rel == Normals(parts);
    RestUnique(whole, prefix, parts);
    assert LeadsTo(workspace, abs, parts);
    return Ok(Join(parts, '/'));
  }

  lemma SlashFree(parts: seq<string>)
    requires parts != [] && forall p <- parts :: IsName(p)
    ensures '/' !in parts[0] && parts[0] != ""
    ensures |Join(parts, '/')| >= |parts[0]| && Join(parts, '/')[..|parts[0]|] == parts[0]
    ensures |parts| > 1 ==> |Join(parts, '/')| > |parts[0]| && Join(parts, '/')[|parts[0]|] == '/'
    ensures |parts| > 1 ==> Join(parts, '/')[|parts[0]| + 1..] == Join(parts[1..], '/')
    ensures |parts| == 1 ==> Join(parts, '/') == parts[0]
  {
    assert IsName(parts[0]);
  }

  lemma PartEndAt(part: string, t: string)
    requires '/' !in part && |part| <= |t| && t[..|part|] == part && (|t| > |part| ==> t[|part|] == '/')
    ensures Inventory.PartEnd(t) == |part|
  {
    var n := Inventory.PartEnd(t);
    assert forall i | 0 <= i < |part| :: t[i] == part[i];
    assert forall i | 0 <= i < n :: t[..n][i] == t[i];
  }

  /** Splitting at slashes undoes joining. */
  lemma PartsFirst(t: string)
    ensures
      var n := Inventory.PartEnd(t);
      Inventory.Parts(t) == if n == |t| then [t] else [t[..n]] + Inventory.Parts(t[n + 1..])
  {
    hide Inventory.PartEnd;
  }

  lemma {:induction false} SplitOfJoin(parts: seq<string>)
    requires parts != [] && forall p <- parts :: IsName(p)
    ensures Inventory.Parts(Join(parts, '/')) == parts
    decreases |parts|
  {
    hide IsName, Join, Inventory.PartEnd, Inventory.Parts;
    SlashFree(parts);
    var t := Join(parts, '/');
    PartEndAt(parts[0], t);
    PartsFirst(t);
    if |parts| == 1 {
      assert parts == [parts[0]];
    } else {
      SplitOfJoin(parts[1..]);
      assert parts == [parts[0]] + parts[1..];
    }
  }

  /** One manifest path names one place below the workspace. */
  lemma JoinInjective(parts: seq<string>, others: seq<string>)
    requires (forall p <- parts :: IsName(p)) && (forall p <- others :: IsName(p))
    requires Join(parts, '/') == Join(others, '/')
    ensures parts == others
  {
    if parts != [] { SlashFree(parts); }
    if others != [] { SlashFree(others); }
    if parts != [] && others != [] { JoinUnique(parts, others, '/'); }
  }

  predicate Plain(name: string) { '\\' !in name && ':' !in name }

  lemma {:induction false} JoinChars(parts: seq<string>, c: char)
    requires c != '/'
    ensures c in Join(parts, '/') <==> exists p <- parts :: c in p
  {
    if |parts| == 1 {
      assert parts == [parts[0]];
    } else if |parts| > 1 {
      JoinChars(parts[1..], c);
      assert parts == [parts[0]] + parts[1..];
      assert c in Join(parts, '/') <==> c in parts[0] || c in Join(parts[1..], '/');
    }
  }

  lemma EmptyJoin()
    ensures Join([], '/') == ""
  {
  }

  lemma NoControl(p: string)
    requires Printable(p)
    ensures '\n' !in p && '\r' !in p && '\0' !in p
  {
  }

  lemma NameIsSafe(p: string)
    requires IsName(p)
    ensures Inventory.SafePart(p)
  {
  }

  /** Of the paths hashing accepts, the inventory check accepts exactly those strictly
      below the workspace without backslash or colon. */
  lemma {:induction false} SafeExactly(parts: seq<string>)
    requires forall p <- parts :: IsName(p) && Printable(p)
    ensures Inventory.SafePath(Join(parts, '/')) <==> parts != [] && forall p <- parts :: Plain(p)
  {
    hide Join, Inventory.Parts, IsName, IsControl;
    if parts == [] {
      EmptyJoin();
    } else {
      assert parts[0] in parts;
      SlashFree(parts);
      SplitOfJoin(parts);
      forall p <- parts ensures Inventory.SafePart(p) { NameIsSafe(p); }
      JoinChars(parts, '\\');
      JoinChars(parts, ':');
      JoinChars(parts, '\n');
      JoinChars(parts, '\r');
      JoinChars(parts, '\0');
      forall p <- parts ensures '\n' !in p && '\r' !in p && '\0' !in p { NoControl(p); }
    }
  }

  // ---------------------------------------------------------------------
  // The minimal path set of a snapshot
  // ---------------------------------------------------------------------

  type RelPath = seq<string>

  /** `path.starts_with(parent)`, component by component. */
  predicate Above(parent: RelPath, path: RelPath) { parent <= path }

  predicate Covered(minimal: seq<RelPath>, path: RelPath) { exists parent <- minimal :: Above(parent, path) }

  predicate Antichain(minimal: seq<RelPath>) {
    forall i, j :: 0 <= i < |minimal| && 0 <= j < |minimal| && Above(minimal[i], minimal[j]) ==> i == j
  }

  /** Declared paths only, together above every declared path, none above another. */
  ghost predicate IsMinimalCover(declared: seq<RelPath>, minimal: seq<RelPath>) {
    && (forall m <- minimal :: m in declared)
    && (forall d <- declared :: Covered(minimal, d))
    && Antichain(minimal)
  }

  lemma AboveOrder(r: RelPath, q: RelPath, p: RelPath)
    requires Above(r, q) && Above(q, p)
    ensures Above(r, p)
    ensures r == p ==> q == p
  {
  }

  lemma OneOfTwo(a: seq<RelPath>, r: RelPath, p: RelPath)
    requires Antichain(a) && r in a && p in a && Above(r, p)
    ensures r == p
  {
    hide Above;
    var i :| 0 <= i < |a| && a[i] == r;
    var j :| 0 <= j < |a| && a[j] == p;
    assert Above(a[i], a[j]);
  }

  lemma InOther(declared: seq<RelPath>, a: seq<RelPath>, b: seq<RelPath>, p: RelPath)
    requires IsMinimalCover(declared, a) && IsMinimalCover(declared, b) && p in a
    ensures p in b
  {
    hide Above, Antichain;
    assert Covered(b, p);
    var q :| q in b && Above(q, p);
    assert Covered(a, q);
    var r :| r in a && Above(r, q);
    AboveOrder(r, q, p);
    OneOfTwo(a, r, p);
  }

  /** There is one minimal cover, as a set. */
  lemma MinimalCoverUnique(declared: seq<RelPath>, a: seq<RelPath>, b: seq<RelPath>)
    requires IsMinimalCover(declared, a) && IsMinimalCover(declared, b)
    ensures forall p :: p in a <==> p in b
  {
    forall p | p in a ensures p in b { InOther(declared, a, b, p); }
    forall p | p in b ensures p in a { InOther(declared, b, a, p); }
  }

  /** `push` for normal components, nothing for `.`, refusal for anything else. */
  method Relative(input: seq<Component>) returns (relative: Result<RelPath>)
    ensures relative.Ok? <==> forall c <- input :: c.Normal? || c.CurDir?
    ensures relative.Ok? ==> Lexical(false, relative.value) == Normalize(input)
  {
    var path: RelPath := [];
    for i := 0 to |input|
      invariant forall k :: 0 <= k < i ==> input[k].Normal? || input[k].CurDir?
      invariant Lexical(false, path) == Normalize(input[..i])
    {
      assert input[..i + 1][..i] == input[..i];
      match input[i]
      case Normal(part) => path := path + [part];
      case CurDir =>
      case _ =>
        assert input[i] in input;
        return Err;
    }
    assert input[..|input|] == input;
    return Ok(path);
  }

  /** `sort` and `dedup`. */
  method SortDedup(paths: seq<RelPath>) returns (sorted: seq<(RelPath, bool)>)
    ensures Sorted(PathLess(), sorted)
    ensures forall p, b :: (p, b) in sorted <==> p in paths && b
  {
    hide PathLess;
    sorted := [];
    for i := 0 to |paths|
      invariant Sorted(PathLess(), sorted)
      invariant forall p, b :: (p, b) in sorted <==> p in paths[..i] && b
    {
      StringsTotal();
      PutMembers(PathLess(), sorted, paths[i], true);
      assert paths[..i + 1] == paths[..i] + [paths[i]];
      sorted := Put(PathLess(), sorted, paths[i], true);
    }
    assert paths[..|paths|] == paths;
  }

  /** A path that comes later in the order is above nothing that came before. */
  lemma LaterNotAbove(sorted: seq<(RelPath, bool)>, i: nat, j: nat)
    requires Sorted(PathLess(), sorted) && i < j < |sorted|
    ensures !Above(sorted[j].0, sorted[i].0)
  {
    StringsTotal();
    assert PathLess()(sorted[i].0, sorted[j].0);
    if sorted[j].0 <= sorted[i].0 { PrefixFirst(StringLess(), sorted[j].0, sorted[i].0); }
  }

  lemma AntichainMore(minimal: seq<RelPath>, path: RelPath)
    requires Antichain(minimal) && !Covered(minimal, path) && forall m <- minimal :: !Above(path, m)
    ensures Antichain(minimal + [path])
  {
    var more := minimal + [path];
    forall i, j | 0 <= i < |more| && 0 <= j < |more| && Above(more[i], more[j]) ensures i == j {
      if i < |minimal| && j < |minimal| { assert Above(minimal[i], minimal[j]); }
      if i < |minimal| { assert minimal[i] in minimal; }
      if j < |minimal| { assert minimal[j] in minimal; }
    }
  }

  lemma KeyDeclared(sorted: seq<(RelPath, bool)>, paths: seq<RelPath>, i: nat)
    requires i < |sorted| && forall p, b :: (p, b) in sorted <==> p in paths && b
    ensures sorted[i].0 in paths
  {
    var (p, b) := sorted[i];
    assert (p, b) in sorted;
  }

  lemma CoveredMore(minimal: seq<RelPath>, path: RelPath, p: RelPath)
    requires Covered(minimal, p) || p == path
    ensures Covered(minimal + [path], p)
  {
    var more := minimal + [path];
    assert more[|minimal|] == path && path in more;
    if Covered(minimal, p) {
      var m :| m in minimal && Above(m, p);
      assert m in more && Above(m, p);
    } else {
      assert Above(path, p);
    }
  }

  lemma NoneYet()
    ensures Antichain([])
  {
  }

  /** The paths a snapshot copies: each declared tree once. */
  method MinimalPaths(paths: seq<RelPath>) returns (minimal: seq<RelPath>)
    ensures IsMinimalCover(paths, minimal)
  {
    hide PathLess, Antichain, Covered, Above, Sorted;
    var sorted := SortDedup(paths);
    minimal := [];
    NoneYet();
    for i := 0 to |sorted|
      invariant Antichain(minimal)
      invariant forall m <- minimal :: m in paths && exists k :: 0 <= k < i && sorted[k].0 == m
      invariant forall k :: 0 <= k < i ==> Covered(minimal, sorted[k].0)
    {
      var path := sorted[i].0;
      KeyDeclared(sorted, paths, i);
      if !Covered(minimal, path) {
        forall m <- minimal ensures !Above(path, m) {
          var k :| 0 <= k < i && sorted[k].0 == m;
          LaterNotAbove(sorted, k, i);
        }
        AntichainMore(minimal, path);
        forall k | 0 <= k <= i ensures Covered(minimal + [path], sorted[k].0) {
          CoveredMore(minimal, path, sorted[k].0);
        }
        minimal := minimal + [path];
      }
    }
    forall d <- paths ensures Covered(minimal, d) {
      assert (d, true) in sorted;
      var k :| 0 <= k < |sorted| && sorted[k] == (d, true);
    }
  }
}
