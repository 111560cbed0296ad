/** `InputGuard` (`executor/mod.rs`): declared inputs lose their write bits while a step
    runs and get them back when the guard drops. */
module PermissionGuard {
  import opened Outcome

  type Mode = bv16

  /** Device and inode: what a permission belongs to. */
  type Inode = nat

  datatype Node = Symlink | Object(inode: Inode, isDir: bool)

  type Paths = map<string, Node>

  type Modes = map<Inode, Mode>

  const WRITE_BITS: Mode := 0x92

  const SETGID: Mode := 0x400

  predicate Writable(mode: Mode) { mode & WRITE_BITS != 0 }

  function Masked(mode: Mode): Mode { mode & !WRITE_BITS }

  function Bare(mode: Mode): Mode { mode & !WRITE_BITS & !SETGID }

  /** The modes as far as opening a file for reading can tell. */
  function BareAll(modes: Modes): Modes { map i <- modes :: Bare(modes[i]) }

  /** What the kernel decides apart from modes: whether a path can be opened for reading,
      whether the caller may change an object's mode, and whether it is in the object's group. */
  datatype Kernel = Kernel(readable: (string, Paths, Modes) -> bool, owned: set<Inode>, insiders: set<Inode>)

  /** The mode `chmod` sets: without rights over the group, the set-group-id bit is cleared. */
  function Chmod(kernel: Kernel, i: Inode, mode: Mode): Mode { if i in kernel.insiders then mode else mode & !SETGID }

  predicate Opens(kernel: Kernel, paths: Paths, modes: Modes, path: string) {
    path in paths && paths[path].Object? && kernel.readable(path, paths, BareAll(modes))
  }

  predicate Known(paths: Paths, modes: Modes) {
    forall p <- paths :: paths[p].Object? ==> paths[p].inode in modes
  }

  datatype Entry = Entry(path: string, mode: Mode, inode: Inode)

  lemma WriteBitLaws(mode: Mode)
    ensures !Writable(Masked(mode)) && !Writable(Masked(mode) & !SETGID)
    ensures Bare(Masked(mode)) == Bare(mode) && Bare(Masked(mode) & !SETGID) == Bare(mode)
  {
  }

  lemma GroupBitLaws(mode: Mode)
    ensures Bare(mode & !SETGID) == Bare(mode)
    ensures mode & !SETGID == mode <==> mode & SETGID == 0
  {
  }

  lemma ModeLaws(kernel: Kernel, i: Inode, mode: Mode)
    ensures !Writable(Chmod(kernel, i, Masked(mode)))
    ensures Bare(Chmod(kernel, i, Masked(mode))) == Bare(Chmod(kernel, i, mode)) == Bare(mode)
    ensures Chmod(kernel, i, mode) == mode <==> i in kernel.insiders || mode & SETGID == 0
  {
    WriteBitLaws(mode);
    GroupBitLaws(mode);
    hide Writable, Masked, Bare;
  }

  lemma BareUnseen(modes: Modes, i: Inode, mode: Mode)
    requires i in modes && Bare(mode) == Bare(modes[i])
    ensures BareAll(modes[i := mode]) == BareAll(modes)
  {
  }

  // ---------------------------------------------------------------------
  // Holding
  // ---------------------------------------------------------------------

  predicate HeldEntry(kernel: Kernel, e: Entry, before: Modes, now: Modes) {
    && e.inode in before && e.inode in now && e.inode in kernel.owned
    && e.mode == before[e.inode] && Writable(e.mode) && now[e.inode] == Chmod(kernel, e.inode, Masked(e.mode))
  }

  predicate OnceEach(restore: seq<Entry>) {
    forall j, k :: 0 <= j < k < |restore| ==> restore[j].inode != restore[k].inode
  }

  /** What a guard knows: every object whose mode it changed, once, with the mode it had. */
  ghost predicate Recorded(kernel: Kernel, restore: seq<Entry>, before: Modes, now: Modes) {
    && now.Keys == before.Keys
    && OnceEach(restore)
    && (forall e <- restore :: HeldEntry(kernel, e, before, now))
    && (forall i <- before :: (forall e <- restore :: e.inode != i) ==> now[i] == before[i])
  }

  lemma RecordedBare(kernel: Kernel, restore: seq<Entry>, before: Modes, now: Modes)
    requires Recorded(kernel, restore, before, now)
    ensures BareAll(now) == BareAll(before)
  {
    forall i <- before ensures Bare(now[i]) == Bare(before[i]) {
      if e :| e in restore && e.inode == i {
        assert HeldEntry(kernel, e, before, now);
        ModeLaws(kernel, i, before[i]);
      }
    }
  }

  /** One more object held: it cannot have been held before, because held objects have
      no write bits left. */
  lemma RecordOne(kernel: Kernel, restore: seq<Entry>, before: Modes, now: Modes, path: string, i: Inode)
    requires Recorded(kernel, restore, before, now) && i in now && i in kernel.owned && Writable(now[i])
    ensures Recorded(kernel, restore + [Entry(path, now[i], i)], before, now[i := Chmod(kernel, i, Masked(now[i]))])
  {
    var e := Entry(path, now[i], i);
    var more := restore + [e];
    var later := now[i := Chmod(kernel, i, Masked(now[i]))];
    assert forall x <- restore :: HeldEntry(kernel, x, before, now) && x.inode != i by {
      forall x <- restore ensures HeldEntry(kernel, x, before, now) && x.inode != i {
        assert HeldEntry(kernel, x, before, now);
        ModeLaws(kernel, x.inode, x.mode);
      }
    }
    forall x <- more ensures HeldEntry(kernel, x, before, later) {
      if x in restore { assert HeldEntry(kernel, x, before, now); }
    }
    forall k <- before | forall x <- more :: x.inode != k ensures later[k] == before[k] {
      assert more[|restore|] == e;
      assert forall x <- restore :: x in more;
    }
  }

  predicate Names(paths: Paths, path: string, i: Inode) {
    path in paths && paths[path].Object? && paths[path].inode == i
  }

  // ---------------------------------------------------------------------
  // Dropping
  // ---------------------------------------------------------------------

  /** One entry of the drop: only the recorded object, still at its path, changes. */
  function RestoreOne(kernel: Kernel, paths: Paths, modes: Modes, e: Entry): (after: Modes)
    requires Known(paths, modes)
    ensures after.Keys == modes.Keys
  {
    if Opens(kernel, paths, modes, e.path) && paths[e.path].inode == e.inode && e.inode in kernel.owned
    then modes[e.inode := Chmod(kernel, e.inode, e.mode)] else modes
  }

  /** The whole drop: last recorded, first restored. */
  function Dropped(kernel: Kernel, paths: Paths, modes: Modes, restore: seq<Entry>): (after: Modes)
    requires Known(paths, modes)
    ensures after.Keys == modes.Keys
    decreases |restore|
  {
    if restore == [] then modes
    else
      var n := |restore| - 1;
      Dropped(kernel, paths, RestoreOne(kernel, paths, modes, restore[n]), restore[..n])
  }

  /** Whatever the step did to paths and modes, the drop changes only objects the guard
      held, found again at the recorded path, and only to the mode they had, as `chmod` sets it. */
  lemma {:induction false} DropTouchesOnlyHeld(kernel: Kernel, paths: Paths, modes: Modes, restore: seq<Entry>,
                                               i: Inode)
    requires Known(paths, modes) && i in modes
    ensures
      var after := Dropped(kernel, paths, modes, restore)[i];
      || after == modes[i]
      || exists e <- restore :: e.inode == i && Chmod(kernel, i, e.mode) == after && Names(paths, e.path, i)
    decreases |restore|
  {
    if restore != [] {
      var n := |restore| - 1;
      var e := restore[n];
      var next := RestoreOne(kernel, paths, modes, e);
      DropTouchesOnlyHeld(kernel, paths, next, restore[..n], i);
      var after := Dropped(kernel, paths, next, restore[..n])[i];
      if after != next[i] {
        var x :| x in restore[..n] && x.inode == i && Chmod(kernel, i, x.mode) == after && Names(paths, x.path, i);
        assert x in restore;
      } else if after != modes[i] {
        assert e in restore && e.inode == i && Chmod(kernel, i, e.mode) == after;
      }
    }
  }

  /** The object still stands, openable, at its path. */
  predicate ComesBack(kernel: Kernel, paths: Paths, modes: Modes, e: Entry) {
    Opens(kernel, paths, modes, e.path) && paths[e.path].inode == e.inode && e.inode in kernel.owned
  }

  /** An object the guard did not hold keeps the mode the step left it. */
  lemma {:induction false} DropSparesOthers(kernel: Kernel, paths: Paths, modes: Modes, restore: seq<Entry>, i: Inode)
    requires Known(paths, modes) && i in modes && forall e <- restore :: e.inode != i
    ensures Dropped(kernel, paths, modes, restore)[i] == modes[i]
    decreases |restore|
  {
    hide Opens;
    if restore != [] {
      var n := |restore| - 1;
      DropSparesOthers(kernel, paths, RestoreOne(kernel, paths, modes, restore[n]), restore[..n], i);
    }
  }

  /** A held object comes back exactly when it stands, openable, at its path once all that was
      recorded after it is dropped: what a path can be opened through may be set back first. */
  lemma {:induction false} DropExactly(kernel: Kernel, paths: Paths, modes: Modes, restore: seq<Entry>, k: nat)
    requires Known(paths, modes) && OnceEach(restore) && k < |restore| && restore[k].inode in modes
    ensures
      var e := restore[k];
      Dropped(kernel, paths, modes, restore)[e.inode]
        == if ComesBack(kernel, paths, Dropped(kernel, paths, modes, restore[k + 1..]), e)
           then Chmod(kernel, e.inode, e.mode) else modes[e.inode]
    decreases |restore|
  {
    hide Opens, Chmod;
    var n := |restore| - 1;
    var next := RestoreOne(kernel, paths, modes, restore[n]);
    if k == n {
      DropSparesOthers(kernel, paths, next, restore[..n], restore[n].inode);
    } else {
      var later := restore[k + 1..];
      assert later[|later| - 1] == restore[n] && later[..|later| - 1] == restore[..n][k + 1..];
      DropExactly(kernel, paths, next, restore[..n], k);
    }
  }

  /** Held modes differ from the present ones at most in their write and set-group-id bits. */
  predicate SameBare(modes: Modes, restore: seq<Entry>) {
    forall e <- restore :: e.inode in modes && Bare(e.mode) == Bare(modes[e.inode])
  }

  lemma OneBack(kernel: Kernel, paths: Paths, modes: Modes, e: Entry)
    requires Known(paths, modes) && e.inode in modes && Bare(e.mode) == Bare(modes[e.inode])
    ensures
      var next := RestoreOne(kernel, paths, modes, e);
      && BareAll(next) == BareAll(modes)
      && next[e.inode]
           == (if ComesBack(kernel, paths, modes, e) then Chmod(kernel, e.inode, e.mode) else modes[e.inode])
      && forall i <- modes :: i != e.inode ==> next[i] == modes[i]
  {
    ModeLaws(kernel, e.inode, e.mode);
    BareUnseen(modes, e.inode, Chmod(kernel, e.inode, e.mode));
  }

  lemma SameBefore(modes: Modes, restore: seq<Entry>, next: Modes)
    requires OnceEach(restore) && SameBare(modes, restore) && restore != [] && next.Keys == modes.Keys
    requires forall i <- modes :: i != restore[|restore| - 1].inode ==> next[i] == modes[i]
    ensures SameBare(next, restore[..|restore| - 1]) && OnceEach(restore[..|restore| - 1])
    ensures forall e <- restore[..|restore| - 1] :: e.inode != restore[|restore| - 1].inode
  {
    hide Bare;
    assert forall e <- restore[..|restore| - 1] :: e in restore && e.inode != restore[|restore| - 1].inode;
  }

  /** As long as at most write and set-group-id bits changed, the order does not matter: a held
      object comes back exactly when it stands, openable, at its path as the step left things. */
  lemma {:induction false} DropInAnyOrder(kernel: Kernel, paths: Paths, modes: Modes, restore: seq<Entry>, k: nat)
    requires Known(paths, modes) && OnceEach(restore) && SameBare(modes, restore) && k < |restore|
    ensures
      var e := restore[k];
      e.inode in modes &&
      Dropped(kernel, paths, modes, restore)[e.inode]
        == if ComesBack(kernel, paths, modes, e) then Chmod(kernel, e.inode, e.mode) else modes[e.inode]
    decreases |restore|
  {
    hide Bare, Chmod, BareAll, RestoreOne;
    var n := |restore| - 1;
    assert restore[k] in restore && restore[n] in restore;
    var next := RestoreOne(kernel, paths, modes, restore[n]);
    OneBack(kernel, paths, modes, restore[n]);
    SameBefore(modes, restore, next);
    if k == n {
      DropSparesOthers(kernel, paths, next, restore[..n], restore[n].inode);
    } else {
      assert restore[..n][k] == restore[k] && restore[k] in restore[..n];
      DropInAnyOrder(kernel, paths, next, restore[..n], k);
    }
  }

  /** Every recorded object still at its recorded path, as far as opening can tell. */
  ghost predicate AllInPlace(kernel: Kernel, paths: Paths, modes: Modes, restore: seq<Entry>) {
    forall e <- restore :: ComesBack(kernel, paths, modes, e)
  }

  lemma PlaceBare(kernel: Kernel, paths: Paths, modes: Modes, modes': Modes, restore: seq<Entry>)
    requires AllInPlace(kernel, paths, modes, restore) && BareAll(modes') == BareAll(modes)
    ensures AllInPlace(kernel, paths, modes', restore)
  {
    hide BareAll;
    forall e <- restore ensures ComesBack(kernel, paths, modes', e) { assert ComesBack(kernel, paths, modes, e); }
  }

  /** The modes once the guard dropped: those it had changed are set back. */
  function SetBack(kernel: Kernel, before: Modes, held: Modes): Modes {
    map i <- before :: if i in held && held[i] != before[i] then Chmod(kernel, i, before[i]) else before[i]
  }

  /** `chmod` gives the object all of its mode back. */
  predicate Restorable(kernel: Kernel, e: Entry) { e.inode in kernel.insiders || e.mode & SETGID == 0 }

  lemma RestorableIff(kernel: Kernel, e: Entry)
    ensures Restorable(kernel, e) <==> Chmod(kernel, e.inode, e.mode) == e.mode
  {
    ModeLaws(kernel, e.inode, e.mode);
  }

  lemma HeldOrSame(kernel: Kernel, restore: seq<Entry>, before: Modes, now: Modes, i: Inode)
    requires Recorded(kernel, restore, before, now) && i in before
    ensures i in now && (now[i] == before[i] || exists e <- restore :: e.inode == i)
  {
  }

  lemma HeldFacts(kernel: Kernel, restore: seq<Entry>, before: Modes, now: Modes, e: Entry)
    requires Recorded(kernel, restore, before, now) && e in restore
    ensures e.inode in before && e.inode in now && e.mode == before[e.inode]
    ensures now[e.inode] == Chmod(kernel, e.inode, Masked(e.mode)) != e.mode
  {
    assert HeldEntry(kernel, e, before, now);
    ModeLaws(kernel, e.inode, e.mode);
  }

  lemma InPlaceOne(kernel: Kernel, paths: Paths, modes: Modes, restore: seq<Entry>, e: Entry)
    requires AllInPlace(kernel, paths, modes, restore) && e in restore
    ensures ComesBack(kernel, paths, modes, e)
  {
  }

  lemma SameBares(left: Modes, after: Modes)
    requires BareAll(after) == BareAll(left)
    ensures left.Keys == after.Keys && forall i <- left :: Bare(after[i]) == Bare(left[i])
  {
    assert BareAll(left).Keys == left.Keys && BareAll(after).Keys == after.Keys;
    forall i <- left ensures Bare(after[i]) == Bare(left[i]) { assert BareAll(left)[i] == BareAll(after)[i]; }
  }

  lemma RecordedSame(kernel: Kernel, restore: seq<Entry>, before: Modes, now: Modes)
    requires Recorded(kernel, restore, before, now)
    ensures SameBare(now, restore)
  {
    forall e <- restore ensures e.inode in now && Bare(e.mode) == Bare(now[e.inode]) {
      assert HeldEntry(kernel, e, before, now);
      ModeLaws(kernel, e.inode, e.mode);
    }
  }

  /** From the modes `left` to the step, which moved nothing and changed at most write and
      set-group-id bits, the drop sets every held mode back and no other. */
  lemma HeldComesBack(kernel: Kernel, paths: Paths, before: Modes, left: Modes, after: Modes, restore: seq<Entry>,
                      i: Inode)
    requires Recorded(kernel, restore, before, left) && AllInPlace(kernel, paths, before, restore)
    requires Known(paths, after) && BareAll(after) == BareAll(left) && i in before
    ensures i in left && i in after
    ensures Dropped(kernel, paths, after, restore)[i]
         == if left[i] != before[i] then Chmod(kernel, i, before[i]) else after[i]
  {
    hide Bare, Masked, Chmod, Writable, Opens, Dropped, AllInPlace;
    RecordedBare(kernel, restore, before, left);
    PlaceBare(kernel, paths, before, after, restore);
    SameBares(left, after);
    RecordedSame(kernel, restore, before, left);
    assert SameBare(after, restore);
    if e :| e in restore && e.inode == i {
      var k :| 0 <= k < |restore| && restore[k] == e;
      DropInAnyOrder(kernel, paths, after, restore, k);
      HeldFacts(kernel, restore, before, left, e);
      InPlaceOne(kernel, paths, after, restore, e);
    } else {
      DropSparesOthers(kernel, paths, after, restore, i);
    }
  }

  /** Conservation: what was held is set back, overlaps, repeats and hard links included. All
      modes are what they were exactly when no held object has the set-group-id bit for a group
      the caller is not in. */
  lemma HoldThenDrop(kernel: Kernel, paths: Paths, before: Modes, now: Modes, restore: seq<Entry>)
    requires Recorded(kernel, restore, before, now) && Known(paths, now) && AllInPlace(kernel, paths, before, restore)
    ensures Dropped(kernel, paths, now, restore) == SetBack(kernel, before, now)
    ensures Dropped(kernel, paths, now, restore) == before <==> forall e <- restore :: Restorable(kernel, e)
  {
    hide Bare, Masked, Chmod, Writable, BareAll, Opens, Dropped, Restorable;
    var after := Dropped(kernel, paths, now, restore);
    forall i <- before ensures after[i] == SetBack(kernel, before, now)[i] {
      HeldComesBack(kernel, paths, before, now, now, restore, i);
    }
    forall e <- restore ensures (after[e.inode] == before[e.inode] <==> Restorable(kernel, e)) && e.inode in before {
      HeldFacts(kernel, restore, before, now, e);
      RestorableIff(kernel, e);
    }
    if forall e <- restore :: Restorable(kernel, e) {
      forall i <- before ensures after[i] == before[i] { HeldOrSame(kernel, restore, before, now, i); }
      assert after == before;
    }
  }

  /** An input with mode 644 that is renamed while it is held stays at 444: its path is gone. */
  lemma RenamedInputStaysReadOnly()
    ensures
      var kernel := Kernel((path, paths, modes) => true, {0}, {0});
      var before, now, restore := map[0 := 0x1A4], map[0 := 0x124], [Entry("input", 0x1A4, 0)];
      && Recorded(kernel, restore, before, now)
      && AllInPlace(kernel, map["input" := Object(0, false)], before, restore)
      && Dropped(kernel, map["renamed" := Object(0, false)], now, restore) == now && !Writable(now[0])
  {
    var kernel := Kernel((path, paths, modes) => true, {0}, {0});
    var now, e := map[0 := 0x124], Entry("input", 0x1A4, 0);
    assert RestoreOne(kernel, map["renamed" := Object(0, false)], now, e) == now;
    assert [e][..0] == [];
  }

  lemma DropTwo(kernel: Kernel, paths: Paths, modes: Modes, first: Entry, second: Entry)
    requires Known(paths, modes)
    ensures Dropped(kernel, paths, modes, [first, second])
         == RestoreOne(kernel, paths, RestoreOne(kernel, paths, modes, second), first)
  {
    hide RestoreOne;
    var next := RestoreOne(kernel, paths, modes, second);
    assert [first, second][..1] == [first] && [first][..0] == [];
    assert Dropped(kernel, paths, next, [first]) == RestoreOne(kernel, paths, next, first);
  }

  /** Files can be opened only through a directory with its search bit. */
  function SearchedKernel(): Kernel {
    Kernel((path, paths, modes) => path == "d" || (0 in modes && modes[0] & 0x40 != 0), {0, 1}, {0, 1})
  }

  const TREE: Paths := map["d" := Object(0, true), "d/f" := Object(1, false)]

  lemma TreeHeld()
    ensures
      var d, f := Entry("d", 0x1ED, 0), Entry("d/f", 0x1A4, 1);
      var before, held := map[0 := 0x1ED, 1 := 0x1A4], map[0 := 0x16D, 1 := 0x124];
      && Recorded(SearchedKernel(), [d, f], before, held) && AllInPlace(SearchedKernel(), TREE, before, [d, f])
      && Recorded(SearchedKernel(), [f, d], before, held) && AllInPlace(SearchedKernel(), TREE, before, [f, d])
  {
  }

  lemma TreeDropped()
    ensures
      var d, f := Entry("d", 0x1ED, 0), Entry("d/f", 0x1A4, 1);
      var left, searched := map[0 := 0x124, 1 := 0x124], map[0 := 0x1ED, 1 := 0x124];
      && !Opens(SearchedKernel(), TREE, left, "d/f")
      && RestoreOne(SearchedKernel(), TREE, left, f) == left
      && RestoreOne(SearchedKernel(), TREE, left, d) == searched
      && RestoreOne(SearchedKernel(), TREE, searched, f) == map[0 := 0x1ED, 1 := 0x1A4]
  {
  }

  /** A step that takes the search bit from a held directory: the file in it stays read-only when
      the directory was held first, and comes back when the file was, although in the modes
      the step left it cannot be opened. */
  lemma SearchBitTaken()
    ensures
      var d, f := Entry("d", 0x1ED, 0), Entry("d/f", 0x1A4, 1);
      var before, held, left := map[0 := 0x1ED, 1 := 0x1A4], map[0 := 0x16D, 1 := 0x124], map[0 := 0x124, 1 := 0x124];
      && Recorded(SearchedKernel(), [d, f], before, held) && AllInPlace(SearchedKernel(), TREE, before, [d, f])
      && Recorded(SearchedKernel(), [f, d], before, held) && AllInPlace(SearchedKernel(), TREE, before, [f, d])
      && !Opens(SearchedKernel(), TREE, left, "d/f")
      && Dropped(SearchedKernel(), TREE, left, [d, f]) == map[0 := 0x1ED, 1 := 0x124]
      && Dropped(SearchedKernel(), TREE, left, [f, d]) == before
  {
    hide Recorded, AllInPlace, Opens, RestoreOne, Dropped, SearchedKernel;
    var d, f, left := Entry("d", 0x1ED, 0), Entry("d/f", 0x1A4, 1), map[0 := 0x124, 1 := 0x124];
    TreeHeld();
    TreeDropped();
    DropTwo(SearchedKernel(), TREE, left, d, f);
    DropTwo(SearchedKernel(), TREE, left, f, d);
  }

  /** An input with mode 2644 in a foreign group comes back as 644. */
  lemma ForeignGroupLosesSetgid()
    ensures
      var kernel := Kernel((path, paths, modes) => true, {0}, {});
      var before, now, restore := map[0 := 0x5A4], map[0 := 0x124], [Entry("input", 0x5A4, 0)];
      && Recorded(kernel, restore, before, now)
      && AllInPlace(kernel, map["input" := Object(0, false)], before, restore)
      && Dropped(kernel, map["input" := Object(0, false)], now, restore) == map[0 := 0x1A4]
  {
    var kernel := Kernel((path, paths, modes) => true, {0}, {});
    var now, e := map[0 := 0x124], Entry("input", 0x5A4, 0);
    assert RestoreOne(kernel, map["input" := Object(0, false)], now, e) == map[0 := 0x1A4];
    assert [e][..0] == [];
  }

  // ---------------------------------------------------------------------
  // The guard
  // ---------------------------------------------------------------------

  /** Another process replacing paths between the guard's look at an input and its open. */
  type Racer = (nat, Paths) -> Paths

  ghost predicate Tame(racer: Racer, modes: Modes) {
    forall k, p :: Known(p, modes) ==> Known(racer(k, p), modes)
  }

  ghost predicate Idle(racer: Racer) { forall k, p :: racer(k, p) == p }

  class Files {
    var paths: Paths
    var modes: Modes

    constructor (paths: Paths, modes: Modes)
      ensures this.paths == paths && this.modes == modes
    {
      this.paths, this.modes := paths, modes;
    }
  }

  /** The read-only promise: everything walked has no write bits. */
  predicate Unwritable(paths: Paths, modes: Modes, path: string) {
    path in paths && paths[path].Object? && paths[path].inode in modes && !Writable(modes[paths[path].inode])
  }

  /** Taking write bits off makes nothing writable. */
  lemma StillUnwritable(kernel: Kernel, paths: Paths, modes: Modes, i: Inode)
    requires i in modes
    ensures
      var next := modes[i := Chmod(kernel, i, Masked(modes[i]))];
      forall p :: Unwritable(paths, modes, p) ==> Unwritable(paths, next, p)
  {
    ModeLaws(kernel, i, modes[i]);
  }

  lemma UnwritableNow(paths: Paths, modes: Modes, path: string)
    requires path in paths && paths[path].Object? && paths[path].inode in modes
    requires !Writable(modes[paths[path].inode])
    ensures Unwritable(paths, modes, path)
  {
  }

  lemma IdleKeeps(racer: Racer, k: nat, paths: Paths)
    requires Idle(racer)
    ensures racer(k, paths) == paths
  {
  }

  /** Everything `hold` keeps true: the record is exact and, when nobody interferes, the
      paths are those it started from and every held object is still in place. */
  ghost predicate Holding(kernel: Kernel, racer: Racer, start: Paths, before: Modes,
                          paths: Paths, modes: Modes, restore: seq<Entry>) {
    && Known(paths, modes) && modes.Keys == before.Keys && Recorded(kernel, restore, before, modes)
    && (Idle(racer) ==> paths == start && AllInPlace(kernel, paths, before, restore))
  }

  lemma PlaceOne(kernel: Kernel, paths: Paths, before: Modes, now: Modes, restore: seq<Entry>, path: string,
                 mode: Mode, i: Inode)
    requires AllInPlace(kernel, paths, before, restore) && BareAll(now) == BareAll(before)
    requires Opens(kernel, paths, now, path) && paths[path].inode == i && i in kernel.owned
    ensures AllInPlace(kernel, paths, before, restore + [Entry(path, mode, i)])
  {
    hide BareAll;
    var more := restore + [Entry(path, mode, i)];
    forall e <- more ensures ComesBack(kernel, paths, before, e) {
      if e in restore { assert ComesBack(kernel, paths, before, e); }
    }
  }

  lemma OpensNames(kernel: Kernel, paths: Paths, modes: Modes, path: string)
    requires Opens(kernel, paths, modes, path)
    ensures path in paths && paths[path].Object?
  {
  }

  lemma HoldOne(kernel: Kernel, racer: Racer, start: Paths, before: Modes, paths: Paths, modes: Modes,
                restore: seq<Entry>, k: nat, path: string)
    requires Holding(kernel, racer, start, before, paths, modes, restore) && Tame(racer, modes)
    ensures
      var raced := racer(k, paths);
      && Holding(kernel, racer, start, before, raced, modes, restore)
      && (Opens(kernel, raced, modes, path) ==>
            var i := raced[path].inode;
            i in modes
            && (Writable(modes[i]) && i in kernel.owned ==>
                  Holding(kernel, racer, start, before, raced, modes[i := Chmod(kernel, i, Masked(modes[i]))],
                          restore + [Entry(path, modes[i], i)])))
  {
    hide Recorded, AllInPlace, Opens, Masked, Chmod, BareAll;
    var raced := racer(k, paths);
    assert Known(raced, modes);
    if Opens(kernel, raced, modes, path) {
      OpensNames(kernel, raced, modes, path);
      var i := raced[path].inode;
      if Writable(modes[i]) && i in kernel.owned {
        RecordOne(kernel, restore, before, modes, path, i);
        RecordedBare(kernel, restore, before, modes);
        if Idle(racer) { PlaceOne(kernel, raced, before, modes, restore, path, modes[i], i); }
      }
    }
  }

  /** Nothing stands in the way of holding this path. */
  predicate Holdable(kernel: Kernel, paths: Paths, modes: Modes, path: string) {
    && path in paths && paths[path].Object? && paths[path].inode in modes
    && (Writable(modes[paths[path].inode]) ==> Opens(kernel, paths, modes, path) && paths[path].inode in kernel.owned)
  }

  lemma StaysHoldable(kernel: Kernel, paths: Paths, before: Modes, now: Modes, restore: seq<Entry>, path: string)
    requires Recorded(kernel, restore, before, now)
    ensures Holdable(kernel, paths, before, path) ==> Holdable(kernel, paths, now, path)
  {
    hide BareAll, Bare, Chmod, Masked, Writable;
    RecordedBare(kernel, restore, before, now);
    if Holdable(kernel, paths, before, path) {
      var i := paths[path].inode;
      HeldOrSame(kernel, restore, before, now, i);
      if e :| e in restore && e.inode == i {
        assert HeldEntry(kernel, e, before, now);
        ModeLaws(kernel, i, e.mode);
      }
    }
  }

  /** Each mode is what it was, or what `chmod` makes of it for an object that had write bits. */
  predicate PutBack(kernel: Kernel, before: Modes, after: Modes) {
    && after.Keys == before.Keys
    && forall i <- before ::
         after[i] == before[i] || (Writable(before[i]) && i in kernel.owned && after[i] == Chmod(kernel, i, before[i]))
  }

  lemma SetBackPuts(kernel: Kernel, before: Modes, now: Modes, restore: seq<Entry>)
    requires Recorded(kernel, restore, before, now)
    ensures PutBack(kernel, before, SetBack(kernel, before, now))
  {
    hide Writable, Chmod, Masked;
    forall i <- before ensures now[i] != before[i] ==> Writable(before[i]) && i in kernel.owned {
      HeldOrSame(kernel, restore, before, now, i);
      if e :| e in restore && e.inode == i { assert HeldEntry(kernel, e, before, now); }
    }
  }

  lemma HoldingFacts(kernel: Kernel, racer: Racer, start: Paths, before: Modes,
                     paths: Paths, modes: Modes, restore: seq<Entry>)
    requires Holding(kernel, racer, start, before, paths, modes, restore)
    ensures Known(paths, modes) && modes.Keys == before.Keys && Recorded(kernel, restore, before, modes)
    ensures Idle(racer) ==>
      AllInPlace(kernel, paths, before, restore) && PutBack(kernel, before, Dropped(kernel, paths, modes, restore))
  {
    hide Recorded, AllInPlace, Dropped, PutBack, SetBack;
    if Idle(racer) {
      HoldThenDrop(kernel, paths, before, modes, restore);
      SetBackPuts(kernel, before, modes, restore);
    }
  }

  class InputGuard {
    var restore: seq<Entry>
    var enforced: bool

    constructor (enforced: bool)
      ensures restore == [] && this.enforced == enforced
    {
      restore, this.enforced := [], enforced;
    }

    /** Takes the write bits off one path. */
    method HoldPath(files: Files, kernel: Kernel, path: string, racer: Racer, ghost start: Paths, ghost before: Modes)
      returns (held: bool)
      requires Tame(racer, files.modes) && Holding(kernel, racer, start, before, files.paths, files.modes, restore)
      modifies this`restore, files
      ensures Holding(kernel, racer, start, before, files.paths, files.modes, restore)
      ensures Idle(racer) ==> files.paths == old(files.paths)
      ensures forall p :: Unwritable(files.paths, old(files.modes), p) ==> Unwritable(files.paths, files.modes, p)
      ensures held && Idle(racer) ==> Unwritable(files.paths, files.modes, path)
      ensures Idle(racer) && Holdable(kernel, old(files.paths), old(files.modes), path) ==> held
    {
      hide Holding, Recorded, AllInPlace, BareAll, Masked, Chmod, Writable, Opens, Unwritable, Tame, Idle;
      HoldingFacts(kernel, racer, start, before, files.paths, files.modes, restore);
      if path !in files.paths { return false; }
      var meta := files.paths[path];
      if meta.Symlink? { return false; }
      var mode := files.modes[meta.inode];
      if !Writable(mode) {
        UnwritableNow(files.paths, files.modes, path);
        return true;
      }
      HoldOne(kernel, racer, start, before, files.paths, files.modes, restore, |restore|, path);
      if Idle(racer) { IdleKeeps(racer, |restore|, files.paths); }
      files.paths := racer(|restore|, files.paths);
      if !Opens(kernel, files.paths, files.modes, path) { return false; }
      OpensNames(kernel, files.paths, files.modes, path);
      var found := files.paths[path].inode;
      if found != meta.inode || found !in kernel.owned { return false; }
      ModeLaws(kernel, found, mode);
      StillUnwritable(kernel, files.paths, files.modes, found);
      files.modes := files.modes[found := Chmod(kernel, found, Masked(mode))];
      restore := restore + [Entry(path, mode, found)];
      UnwritableNow(files.paths, files.modes, path);
      return true;
    }

    /** `drop`: each entry is set back if it can be. */
    method Drop(files: Files, kernel: Kernel)
      requires Known(files.paths, files.modes)
      modifies this`restore, files`modes
      ensures files.modes == Dropped(kernel, files.paths, old(files.modes), old(restore)) && restore == []
    {
      while restore != []
        invariant files.modes.Keys == old(files.modes.Keys)
        invariant Dropped(kernel, files.paths, files.modes, restore)
               == Dropped(kernel, files.paths, old(files.modes), old(restore))
        decreases |restore|
      {
        var entry := restore[|restore| - 1];
        restore := restore[..|restore| - 1];
        if !Opens(kernel, files.paths, files.modes, entry.path) { continue; }
        if files.paths[entry.path].inode != entry.inode { continue; }
        if entry.inode in kernel.owned {
          files.modes := files.modes[entry.inode := Chmod(kernel, entry.inode, entry.mode)];
        }
      }
    }
  }

  /** The paths `hold` visits for one declared input: a directory's walk without links,
      a plain file itself, nothing for a link or a missing input. */
  function Visited(paths: Paths, walk: string -> seq<string>, root: string): seq<string> {
    if root !in paths || paths[root].Symlink? then []
    else if paths[root].isDir then walk(root)
    else [root]
  }

  lemma NothingHeld(kernel: Kernel, racer: Racer, paths: Paths, before: Modes)
    requires Known(paths, before)
    ensures Holding(kernel, racer, paths, before, paths, before, [])
  {
  }

  /** `InputGuard::hold`. A failure part-way drops the guard before returning. Without
      interference every visited path is unwritable on success, and on failure everything
      is put back. */
  method Hold(files: Files, kernel: Kernel, inputs: seq<string>, walk: string -> seq<string>, racer: Racer, root: bool)
    returns (held: Result<InputGuard>)
    requires Known(files.paths, files.modes) && Tame(racer, files.modes)
    modifies files
    ensures Known(files.paths, files.modes) && files.modes.Keys == old(files.modes.Keys)
    ensures held.Ok? ==>
      && fresh(held.value) && held.value.enforced == !root
      && Recorded(kernel, held.value.restore, old(files.modes), files.modes)
    ensures Idle(racer) ==> files.paths == old(files.paths)
    ensures held.Ok? && Idle(racer) ==> AllInPlace(kernel, files.paths, old(files.modes), held.value.restore)
    ensures held.Ok? && Idle(racer) && !root ==>
      forall input <- inputs, p <- Visited(files.paths, walk, input) :: Unwritable(files.paths, files.modes, p)
    ensures held.Err? && Idle(racer) ==> PutBack(kernel, old(files.modes), files.modes)
    ensures held.Err? && Idle(racer) ==> !root
    ensures held.Err? && Idle(racer) ==>
      exists input <- inputs, p <- Visited(files.paths, walk, input) ::
        !Holdable(kernel, files.paths, old(files.modes), p)
  {
    hide Holding, Recorded, Unwritable, Dropped, Opens, PutBack, Holdable;
    ghost var before, start := files.modes, files.paths;
    ghost var seen: set<string> := {};
    var guard := new InputGuard(!root);
    NothingHeld(kernel, racer, start, before);
    for i := 0 to if root then 0 else |inputs|
      invariant fresh(guard) && guard.enforced == !root
      invariant Holding(kernel, racer, start, before, files.paths, files.modes, guard.restore)
      invariant Idle(racer) ==> files.paths == start && forall p <- seen :: Unwritable(start, files.modes, p)
      invariant Idle(racer) ==> forall k, p :: 0 <= k < i && p in Visited(start, walk, inputs[k]) ==> p in seen
    {
      var visited := Visited(files.paths, walk, inputs[i]);
      for j := 0 to |visited|
        invariant fresh(guard) && guard.enforced == !root
        invariant Holding(kernel, racer, start, before, files.paths, files.modes, guard.restore)
        invariant Idle(racer) ==> files.paths == start && forall p <- seen :: Unwritable(start, files.modes, p)
        invariant Idle(racer) ==> forall k, p :: 0 <= k < i && p in Visited(start, walk, inputs[k]) ==> p in seen
        invariant forall k :: 0 <= k < j ==> visited[k] in seen
      {
        HoldingFacts(kernel, racer, start, before, files.paths, files.modes, guard.restore);
        StaysHoldable(kernel, files.paths, before, files.modes, guard.restore, visited[j]);
        var ok := guard.HoldPath(files, kernel, visited[j], racer, start, before);
        HoldingFacts(kernel, racer, start, before, files.paths, files.modes, guard.restore);
        if !ok {
          guard.Drop(files, kernel);
          return Err;
        }
        seen := seen + {visited[j]};
      }
    }
    HoldingFacts(kernel, racer, start, before, files.paths, files.modes, guard.restore);
    return Ok(guard);
  }

  /** The final mode of an object is the one the step left, or the guard took its write bits
      before the step and it is set back to what it was. */
  predicate Explained(kernel: Kernel, before: Modes, left: Modes, after: Modes, final: Modes, i: Inode) {
    && i in after && i in final
    && (|| final[i] == after[i]
        || (i in before && i in left && left[i] != before[i] && left[i] == Chmod(kernel, i, Masked(before[i]))
            && final[i] == Chmod(kernel, i, before[i])))
  }

  /** The drop after a step from `left` to `after`: what was held is set back, the rest stays. */
  predicate SetBackAfter(kernel: Kernel, before: Modes, left: Modes, after: Modes, final: Modes) {
    forall i <- before ::
      && i in left && i in after && i in final
      && final[i] == if left[i] != before[i] then Chmod(kernel, i, before[i]) else after[i]
  }

  /** A step, as far as this module is concerned: any change to paths and modes. */
  type Step = (Paths, Modes) -> (Paths, Modes)

  /** `hold`, the step on the modes `left` to it, `drop`. Every mode the drop changes is
      that of an object held, and is set back to what it was; which ones come back, `DropExactly`
      says. A step that moves nothing and touches at most write and set-group-id bits cannot
      stop any held mode from coming back. */
  method RunHeld(files: Files, kernel: Kernel, inputs: seq<string>, walk: string -> seq<string>, step: Step)
    returns (ran: bool, ghost left: Modes, ghost restore: seq<Entry>)
    requires Known(files.paths, files.modes)
    requires forall p, m :: Known(p, m) ==> Known(step(p, m).0, step(p, m).1)
    modifies files
    ensures !ran ==> files.paths == old(files.paths) && PutBack(kernel, old(files.modes), files.modes)
    ensures !ran ==>
      exists input <- inputs, p <- Visited(files.paths, walk, input) ::
        !Holdable(kernel, files.paths, old(files.modes), p)
    ensures ran ==>
      forall input <- inputs, p <- Visited(old(files.paths), walk, input) :: Unwritable(old(files.paths), left, p)
    ensures ran ==> BareAll(left) == BareAll(old(files.modes)) && Recorded(kernel, restore, old(files.modes), left)
    ensures ran ==> Known(step(old(files.paths), left).0, step(old(files.paths), left).1)
    ensures ran ==>
      var after := step(old(files.paths), left);
      && files.paths == after.0 && files.modes == Dropped(kernel, after.0, after.1, restore)
      && (forall i <- files.modes :: Explained(kernel, old(files.modes), left, after.1, files.modes, i))
      && (after.0 == old(files.paths) && BareAll(after.1) == BareAll(left) ==>
            SetBackAfter(kernel, old(files.modes), left, after.1, files.modes))
  {
    hide Recorded, AllInPlace, Unwritable, Dropped, Opens, BareAll, Bare, Masked, Chmod, Writable, PutBack, Holdable;
    var guard := Hold(files, kernel, inputs, walk, (k, p) => p, false);
    left, restore := files.modes, [];
    if guard.Err? { return false, left, restore; }
    restore := guard.value.restore;
    ghost var before := old(files.modes);
    RecordedBare(kernel, restore, before, left);
    var after := step(files.paths, files.modes);
    files.paths, files.modes := after.0, after.1;
    guard.value.Drop(files, kernel);
    forall i <- files.modes ensures Explained(kernel, before, left, after.1, files.modes, i) {
      DropTouchesOnlyHeld(kernel, after.0, after.1, restore, i);
      if files.modes[i] != after.1[i] {
        var e :| e in restore && e.inode == i && Chmod(kernel, i, e.mode) == files.modes[i];
        HeldFacts(kernel, restore, before, left, e);
      }
    }
    if after.0 == old(files.paths) && BareAll(after.1) == BareAll(left) {
      forall i <- before ensures i in left && i in after.1 && i in files.modes &&
        files.modes[i] == if left[i] != before[i] then Chmod(kernel, i, before[i]) else after.1[i]
      {
        HeldComesBack(kernel, after.0, before, left, after.1, restore, i);
      }
    }
    return true, left, restore;
  }
}
