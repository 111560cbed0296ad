/** Resource names of C2SP tlog-tiles. */
module TilePaths {
  import opened Numbers
  import opened Outcome
  import opened Text

  const FULL_WIDTH: nat := 256

  /** `{:03}` for a value below 1000. */
  function Pad3(n: nat): (s: string)
    requires n < 1000
    ensures |s| == 3 && forall c <- s :: IsDigit(c)
  {
    [Digit(n / 100), Digit(n / 10 % 10), Digit(n % 10)]
  }

  lemma Pad3Value(n: nat)
    requires n < 1000
    ensures n == 100 * (Pad3(n)[0] as int - '0' as int) + 10 * (Pad3(n)[1] as int - '0' as int)
                 + (Pad3(n)[2] as int - '0' as int)
  {
    assert n / 10 / 10 == n / 100;
  }

  lemma Pad3Injective(a: nat, b: nat)
    requires a < 1000 && b < 1000 && Pad3(a) == Pad3(b)
    ensures a == b
  {
    hide Pad3;
    Pad3Value(a);
    Pad3Value(b);
  }

  /** The leading groups of an index, each marked `x` and ended by a slash. */
  function UpperGroups(index: nat): (s: string)
    ensures forall c <- s :: IsDigit(c) || c == 'x' || c == '/'
  {
    if index == 0 then "" else UpperGroups(index / 1000) + "x" + Pad3(index % 1000) + "/"
  }

  function Groups(index: nat): (s: string)
    ensures forall c <- s :: IsDigit(c) || c == 'x' || c == '/'
    ensures '.' !in s
  {
    UpperGroups(index / 1000) + Pad3(index % 1000)
  }

  function Suffix(width: nat): string {
    if width == FULL_WIDTH then "" else ".p/" + Decimal(width)
  }

  /** `tile/<level>/<groups>[.p/<width>]` */
  function TilePath(level: nat, index: nat, width: nat): string {
    "tile/" + Decimal(level) + "/" + Groups(index) + Suffix(width)
  }

  predicate ValidCoordinates(level: nat, width: nat) { level <= 63 && 1 <= width <= FULL_WIDTH }

  function Reversed(groups: seq<string>): (r: seq<string>)
    ensures |r| == |groups|
  {
    if groups == [] then [] else Reversed(groups[1..]) + [groups[0]]
  }

  lemma {:induction false} ReversedSnoc(groups: seq<string>, g: string)
    ensures Reversed(groups + [g]) == [g] + Reversed(groups)
  {
    if groups == [] {
      assert groups + [g] == [g];
    } else {
      assert (groups + [g])[1..] == groups[1..] + [g];
      ReversedSnoc(groups[1..], g);
    }
  }

  lemma UpperStep(rest: nat)
    requires rest != 0
    ensures UpperGroups(rest) == UpperGroups(rest / 1000) + ("x" + Pad3(rest % 1000) + "/")
  {
    hide Pad3;
  }

  lemma JoinCons(g: string, groups: seq<string>)
    requires groups != []
    ensures Join([g] + groups, '/') == g + "/" + Join(groups, '/')
  {
    assert ([g] + groups)[1..] == groups;
  }

  lemma PushGroup(rest: nat, groups: seq<string>)
    requires rest != 0 && groups != []
    ensures
      var g := "x" + Pad3(rest % 1000);
      UpperGroups(rest / 1000) + Join(Reversed(groups + [g]), '/') == UpperGroups(rest) + Join(Reversed(groups), '/')
  {
    hide Pad3, Join, Reversed, UpperGroups;
    var g := "x" + Pad3(rest % 1000);
    ReversedSnoc(groups, g);
    JoinCons(g, Reversed(groups));
    UpperStep(rest);
  }

  /** `tile_path`: peels groups of three digits from the low end, then reverses. */
  method MakeTilePath(level: nat, index: u64, width: nat) returns (path: Result<string>)
    ensures path == if ValidCoordinates(level, width) then Ok(TilePath(level, index, width)) else Err
  {
    if !(level <= 63 && 1 <= width <= 256) { return Err; }
    var groups := [Pad3(index % 1000)];
    var rest: nat := index / 1000;
    assert Reversed(groups) == groups;
    while rest != 0
      invariant groups != []
      invariant UpperGroups(rest) + Join(Reversed(groups), '/') == Groups(index)
    {
      PushGroup(rest, groups);
      groups := groups + ["x" + Pad3(rest % 1000)];
      rest := rest / 1000;
    }
    assert Join(Reversed(groups), '/') == Groups(index);
    var suffix := if width == 256 then "" else ".p/" + Decimal(width);
    path := Ok("tile/" + Decimal(level) + "/" + Join(Reversed(groups), '/') + suffix);
  }

  /** What three digits can say. */
  type Group = n: nat | n < 1000

  /** The number written with these groups, the most significant first. */
  function Number(groups: seq<Group>): nat {
    if groups == [] then 0 else 1000 * Number(groups[..|groups| - 1]) + groups[|groups| - 1]
  }

  /** Each group marked `x` and ended by a slash. */
  function Marked(groups: seq<Group>): string {
    if groups == [] then "" else "x" + Pad3(groups[0]) + "/" + Marked(groups[1..])
  }

  lemma {:induction false} MarkedSnoc(groups: seq<Group>, last: Group)
    ensures Marked(groups + [last]) == Marked(groups) + ("x" + Pad3(last) + "/")
  {
    hide Pad3;
    if groups == [] {
      assert [] + [last] == [last] && [last][1..] == [];
    } else {
      assert (groups + [last])[1..] == groups[1..] + [last];
      MarkedSnoc(groups[1..], last);
    }
  }

  /** The number, in groups of three digits, without a leading group of zeros. */
  predicate Writes(groups: seq<Group>, n: nat) { Number(groups) == n && (groups != [] ==> groups[0] > 0) }

  lemma WritesSnoc(upper: seq<Group>, n: nat, last: Group)
    requires Writes(upper, n) && (n > 0 || last > 0)
    ensures Writes(upper + [last], 1000 * n + last)
  {
    assert (upper + [last])[..|upper|] == upper;
  }

  lemma NothingWrites()
    ensures Writes([], 0) && Marked([]) == "" == UpperGroups(0)
  {
  }

  lemma {:induction false} UpperGroupsWrite(index: nat) returns (groups: seq<Group>)
    ensures Writes(groups, index) && UpperGroups(index) == Marked(groups)
  {
    hide Pad3, Marked, Writes;
    if index == 0 {
      groups := [];
      NothingWrites();
    } else {
      var upper := UpperGroupsWrite(index / 1000);
      MarkedSnoc(upper, index % 1000);
      WritesSnoc(upper, index / 1000, index % 1000);
      UpperStep(index);
      groups := upper + [index % 1000];
    }
  }

  /** The name holds the index in base ten, three digits a group and as few groups as that takes, all
      but the last of them marked. */
  lemma GroupsWrite(index: nat)
    ensures exists upper :: Writes(upper, index / 1000) && Groups(index) == Marked(upper) + Pad3(index % 1000)
  {
    hide Pad3, Marked, Writes;
    var upper := UpperGroupsWrite(index / 1000);
  }

  lemma {:induction false} UpperGroupsInjective(a: nat, b: nat)
    requires UpperGroups(a) == UpperGroups(b)
    ensures a == b
  {
    var s, t := UpperGroups(a), UpperGroups(b);
    if a != 0 && b != 0 {
      var p, q := UpperGroups(a / 1000), UpperGroups(b / 1000);
      assert |p| == |s| - 5 && |q| == |t| - 5;
      assert p == s[..|p|] && q == t[..|q|];
      UpperGroupsInjective(a / 1000, b / 1000);
      assert Pad3(a % 1000) == s[|p| + 1..|p| + 4] && Pad3(b % 1000) == t[|q| + 1..|q| + 4];
      Pad3Injective(a % 1000, b % 1000);
    }
  }

  lemma GroupsInjective(a: nat, b: nat)
    requires Groups(a) == Groups(b)
    ensures a == b
  {
    var s, t := Groups(a), Groups(b);
    var n := |s| - 3;
    assert UpperGroups(a / 1000) == s[..n] && UpperGroups(b / 1000) == t[..n];
    assert Pad3(a % 1000) == s[n..] && Pad3(b % 1000) == t[n..];
    UpperGroupsInjective(a / 1000, b / 1000);
    Pad3Injective(a % 1000, b % 1000);
  }

  /** What follows the first dot once one more dot is appended to a name. */
  function AfterDot(width: nat): string {
    if width == FULL_WIDTH then "" else "p/" + Decimal(width) + "."
  }

  lemma SuffixText(index: nat, width: nat)
    ensures Groups(index) + Suffix(width) + "." == Groups(index) + "." + AfterDot(width)
  {
    hide Groups, Decimal;
  }

  lemma AfterDotInjective(v: nat, w: nat)
    requires AfterDot(v) == AfterDot(w)
    ensures v == w
  {
    if v != FULL_WIDTH && w != FULL_WIDTH {
      hide Decimal;
      var s, t := AfterDot(v), AfterDot(w);
      assert s[2..|s| - 1] == Decimal(v) && t[2..|t| - 1] == Decimal(w);
      DecimalInjective(v, w);
    }
  }

  lemma NameAfterLevel(l: nat, m: nat, x: string, y: string)
    requires "tile/" + Decimal(l) + "/" + x == "tile/" + Decimal(m) + "/" + y
    ensures l == m && x == y
  {
    hide Decimal;
    var s, t := "tile/" + Decimal(l) + "/" + x, "tile/" + Decimal(m) + "/" + y;
    assert s[5..] == Decimal(l) + "/" + x && t[5..] == Decimal(m) + "/" + y;
    CutUnique(Decimal(l), x, Decimal(m), y, '/');
    DecimalInjective(l, m);
  }

  /** Distinct tiles have distinct names: a source that answers by name answers by tile. */
  lemma TilePathInjective(l: nat, i: nat, v: nat, m: nat, j: nat, w: nat)
    requires TilePath(l, i, v) == TilePath(m, j, w)
    ensures l == m && i == j && v == w
  {
    hide Groups, Decimal, Suffix, AfterDot;
    var x, y := Groups(i) + Suffix(v), Groups(j) + Suffix(w);
    assert TilePath(l, i, v) == "tile/" + Decimal(l) + "/" + x;
    assert TilePath(m, j, w) == "tile/" + Decimal(m) + "/" + y;
    NameAfterLevel(l, m, x, y);
    SuffixText(i, v);
    SuffixText(j, w);
    CutUnique(Groups(i), AfterDot(v), Groups(j), AfterDot(w), '.');
    GroupsInjective(i, j);
    AfterDotInjective(v, w);
  }
}
