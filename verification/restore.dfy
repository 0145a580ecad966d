/**
 Restoring an archive into a data directory: where its entries land, what gets in
 the way, and that a restored dump is the directory that was dumped.
 */
module Restore {
  import opened Prelude
  import opened DumpArchive

  /** A place in the file system, by the names on the way from its root. */
  type Location = seq<string>

  datatype Error = NotEmpty | NotADirectory | IsADirectory | NoDatabase

  /** All of the file system: file contents and directories by location. */
  datatype Disk = Disk(files: map<Location, bytes>, dirs: set<Location>)

  /** One component further: up for `..`, which stays at the root, else down. */
  function Stepped(at: Location, component: string): Location {
    if component != PARENT then at + [component]
    else if at == [] then []
    else at[..|at| - 1]
  }

  /** Where a path from `at` leads. */
  function Resolved(at: Location, path: Path): Location {
    if path == [] then at else Stepped(Resolved(at, path[..|path| - 1]), path[|path| - 1])
  }

  /** Makes every directory on a path from the root, as far as no file is in the way. */
  function MadeDirs(d: Disk, path: Path): (Disk, Option<Error>) {
    var (d', err) := if path == [] then (d, None) else MadeDirs(d, path[..|path| - 1]);
    if err.Some? then (d', err)
    else if Resolved([], path) in d'.files then (d', Some(NotADirectory))
    else (d'.(dirs := d'.dirs + {Resolved([], path)}), None)
  }

  /** Makes the directories an entry lies in, then writes it. */
  function Unpacked(d: Disk, base: Location, rel: Path, content: bytes): (Disk, Option<Error>) {
    var path := base + rel;
    var (d', err) := if path == [] then (d, None) else MadeDirs(d, path[..|path| - 1]);
    if err.Some? then (d', err)
    else if rel == [] || Resolved([], path) in d'.dirs then (d', Some(IsADirectory))
    else (d'.(files := d'.files[Resolved([], path) := content]), None)
  }

  /** The path of an entry below the data directory; other entries have none. */
  function Destination(path: Path): Option<Path> {
    if path == [DB_BASENAME] then Some([DB_BASENAME])
    else if DATA <= path then Some(path[1..])
    else None
  }

  /** Unpacking entries one by one, up to the first failure; unexpected ones are skipped. */
  function UnpackedAll(d: Disk, base: Location, items: seq<Item>): (Disk, Option<Error>) {
    if items == [] then (d, None)
    else
      var (d', err), last := UnpackedAll(d, base, items[..|items| - 1]), items[|items| - 1];
      if err.Some? then (d', err)
      else
        match Destination(last.path)
        case None => (d', None)
        case Some(rel) => Unpacked(d', base, rel, last.content)
  }

  predicate HoldsDatabase(items: seq<Item>) {
    exists i :: 0 <= i < |items| && items[i].path == [DB_BASENAME]
  }

  /** Something lies below `base`. */
  predicate Populated(d: Disk, base: Location) {
    (exists q :: q in d.files && base < q) || (exists q :: q in d.dirs && base < q)
  }

  function Restored(d: Disk, base: Location, items: seq<Item>, force: bool): (Disk, Option<Error>) {
    if Populated(d, base) && !force then (d, Some(NotEmpty))
    else
      var (d', err) := UnpackedAll(d, base, items);
      (d', if err.Some? then err else if HoldsDatabase(items) then None else Some(NoDatabase))
  }

  lemma {:induction false} FirstFailureStops(d: Disk, base: Location, items: seq<Item>, i: nat)
    requires i <= |items| && UnpackedAll(d, base, items[..i]).1.Some?
    ensures UnpackedAll(d, base, items) == UnpackedAll(d, base, items[..i])
  {
    if i == |items| {
      assert items[..i] == items;
    } else {
      assert items[..|items| - 1][..i] == items[..i];
      FirstFailureStops(d, base, items[..|items| - 1], i);
    }
  }

  class FileSystem {
    var files: map<Location, bytes>
    var dirs: set<Location>

    function Contents(): Disk
      reads this
    {
      Disk(files, dirs)
    }

    /** `create_dir_all`: the directories of a path, shortest first. */
    method CreateDirAll(path: Path) returns (err: Option<Error>)
      modifies this
      ensures (Contents(), err) == MadeDirs(old(Contents()), path)
      decreases |path|
    {
      if path != [] {
        err := CreateDirAll(path[..|path| - 1]);
        if err.Some? {
          return;
        }
      }
      if Resolved([], path) in files {
        return Some(NotADirectory);
      }
      dirs := dirs + {Resolved([], path)};
      err := None;
    }

    method Unpack(base: Location, rel: Path, content: bytes) returns (err: Option<Error>)
      modifies this
      ensures (Contents(), err) == Unpacked(old(Contents()), base, rel, content)
    {
      var path := base + rel;
      if path != [] {
        err := CreateDirAll(path[..|path| - 1]);
        if err.Some? {
          return;
        }
      }
      if rel == [] || Resolved([], path) in dirs {
        return Some(IsADirectory);
      }
      files := files[Resolved([], path) := content];
      err := None;
    }

    method Restore(base: Location, items: seq<Item>, force: bool) returns (err: Option<Error>)
      modifies this
      ensures (Contents(), err) == Restored(old(Contents()), base, items, force)
    {
      if Populated(Contents(), base) && !force {
        return Some(NotEmpty);
      }
      hide Unpacked, Destination;
      var restoredDb := false;
      for i := 0 to |items|
        invariant UnpackedAll(old(Contents()), base, items[..i]) == (Contents(), None)
        invariant restoredDb <==> HoldsDatabase(items[..i])
      {
        assert items[..i + 1][..i] == items[..i];
        var path := items[i].path;
        restoredDb := restoredDb || path == [DB_BASENAME];
        var rel := Destination(path);
        if rel.Some? {
          var e := Unpack(base, rel.value, items[i].content);
          if e.Some? {
            FirstFailureStops(old(Contents()), base, items, i + 1);
            return e;
          }
        }
      }
      assert items[..|items|] == items;
      err := if restoredDb then None else Some(NoDatabase);
    }
  }

  // -------------------------------------------------------- what a restore changes

  /** Where an entry lands. */
  function LandsAt(base: Location, item: Item): Option<Location> {
    match Destination(item.path)
    case Some(rel) => Some(Resolved([], base + rel))
    case None => None
  }

  /** The content an archive gives the file at `q`, by its last entry landing there. */
  function LastFor(base: Location, items: seq<Item>, q: Location): Option<bytes> {
    if items == [] then None
    else
      var last := items[|items| - 1];
      if LandsAt(base, last) == Some(q) then Some(last.content) else LastFor(base, items[..|items| - 1], q)
  }

  lemma {:induction false} MakingDirsKeepsFiles(d: Disk, path: Path)
    ensures MadeDirs(d, path).0.files == d.files
  {
    if path != [] { MakingDirsKeepsFiles(d, path[..|path| - 1]); }
  }

  lemma UnpackingWritesOneFile(d: Disk, base: Location, rel: Path, content: bytes)
    ensures var (d', err) := Unpacked(d, base, rel, content);
            d'.files == if err.Some? then d.files else d.files[Resolved([], base + rel) := content]
  {
    hide MadeDirs, Resolved;
    var path := base + rel;
    if path != [] { MakingDirsKeepsFiles(d, path[..|path| - 1]); }
  }

  lemma {:induction false} UnpackingWritesOnlyWhereItLands(d: Disk, base: Location, items: seq<Item>, q: Location)
    ensures var (d', err) := UnpackedAll(d, base, items);
            && (err.None? && LastFor(base, items, q).Some? ==>
                  q in d'.files && d'.files[q] == LastFor(base, items, q).value)
            && (LastFor(base, items, q).None? ==>
                  (q in d'.files <==> q in d.files) && (q in d'.files ==> d'.files[q] == d.files[q]))
  {
    if items != [] {
      hide Unpacked, Resolved, Destination;
      var before, last := items[..|items| - 1], items[|items| - 1];
      UnpackingWritesOnlyWhereItLands(d, base, before, q);
      if Destination(last.path).Some? {
        UnpackingWritesOneFile(UnpackedAll(d, base, before).0, base, Destination(last.path).value, last.content);
      }
    }
  }

  /**
   Restoring any archive over any file system writes exactly where its entries
   land: when it succeeds, every such place holds the last content the archive has
   for it, and whether it succeeds or not, every other file is as it was.
   */
  lemma RestoreWritesExactlyWhereEntriesLand(d: Disk, base: Location, items: seq<Item>, force: bool, q: Location)
    ensures var (d', err) := Restored(d, base, items, force);
            match LastFor(base, items, q)
            case Some(content) => err.None? ==> q in d'.files && d'.files[q] == content
            case None => (q in d'.files <==> q in d.files) && (q in d'.files ==> d'.files[q] == d.files[q])
  {
    UnpackingWritesOnlyWhereItLands(d, base, items, q);
    hide UnpackedAll, LastFor, HoldsDatabase, Populated;
    if !(Populated(d, base) && !force) {
      assert Restored(d, base, items, force).0 == UnpackedAll(d, base, items).0;
      assert Restored(d, base, items, force).1.None? ==> UnpackedAll(d, base, items).1.None?;
    }
  }

  /**
   Without `force` anything below the directory makes a restore refuse and touch nothing; it
   succeeds only with a database, and says so when that is missing.
   */
  lemma RestoreAnswers(d: Disk, base: Location, items: seq<Item>, force: bool)
    ensures var (d', err) := Restored(d, base, items, force);
            && (err == Some(NotEmpty)
                <==> !force && ((exists q :: q in d.files && base < q) || (exists q :: q in d.dirs && base < q)))
            && (err == Some(NotEmpty) ==> d' == d)
            && (err == None ==> exists i :: 0 <= i < |items| && items[i].path == ["edda.db"])
            && (err == Some(NoDatabase) ==> forall i :: 0 <= i < |items| ==> items[i].path != ["edda.db"])
  {
    UnpackingFails(d, base, items);
    hide UnpackedAll;
  }

  /** Some place on the way along `path`, its end excluded, is a file. */
  ghost predicate Blocked(d: Disk, path: Path, n: nat) {
    exists k: nat :: BlockedAt(d, path, n, k)
  }

  predicate BlockedAt(d: Disk, path: Path, n: nat, k: nat) {
    k < n <= |path| && Resolved([], path[..k]) in d.files
  }

  /** `q` is a place on the way along `path`, its end excluded. */
  ghost predicate OnTheWay(path: Path, n: nat, q: Location) {
    exists k: nat :: PassedAt(path, n, q, k)
  }

  predicate PassedAt(path: Path, n: nat, q: Location, k: nat) {
    k < n <= |path| && Resolved([], path[..k]) == q
  }

  /** Making the directories of a path fails exactly on a file in the way, and otherwise makes exactly these. */
  lemma {:induction false} MadeDirsExactly(d: Disk, path: Path, n: nat)
    requires n < |path|
    ensures var (d', err) := MadeDirs(d, path[..n]);
            && d'.files == d.files
            && err == (if Blocked(d, path, n + 1) then Some(NotADirectory) else None)
            && (err.None? ==> forall q :: q in d'.dirs <==> q in d.dirs || OnTheWay(path, n + 1, q))
    decreases n
  {
    hide *;
    WayOneMore(d, path, n);
    if n == 0 {
      NoWay(d, path);
      FirstDirMade(d, path[..n]);
      var m := n + 1;
      forall q ensures OnTheWay(path, m, q) <==> Resolved([], path[..n]) == q {
        assert !OnTheWay(path, 0, q);
      }
    } else {
      MadeDirsExactly(d, path, n - 1);
      OneMoreDirMade(d, path, n);
    }
  }

  lemma FirstDirMade(d: Disk, path: Path)
    requires path == []
    ensures MadeDirs(d, path)
            == if Resolved([], path) in d.files then (d, Some(NotADirectory))
               else (d.(dirs := d.dirs + {Resolved([], path)}), None)
  {
    hide Resolved;
  }

  lemma OneMoreDirMade(d: Disk, path: Path, n: nat)
    requires 0 < n <= |path|
    ensures var (d', err) := MadeDirs(d, path[..n - 1]);
            MadeDirs(d, path[..n])
            == if err.Some? then (d', err)
               else if Resolved([], path[..n]) in d'.files then (d', Some(NotADirectory))
               else (d'.(dirs := d'.dirs + {Resolved([], path[..n])}), None)
  {
    hide Resolved;
    assert path[..n][..n - 1] == path[..n - 1];
  }

  lemma NoWay(d: Disk, path: Path)
    ensures !Blocked(d, path, 0) && forall q :: !OnTheWay(path, 0, q)
  {
  }

  lemma WayOneMore(d: Disk, path: Path, n: nat)
    requires n < |path|
    ensures Blocked(d, path, n + 1) <==> Blocked(d, path, n) || Resolved([], path[..n]) in d.files
    ensures forall q :: OnTheWay(path, n + 1, q) <==> OnTheWay(path, n, q) || Resolved([], path[..n]) == q
  {
    hide Resolved;
    assert Resolved([], path[..n]) in d.files ==> BlockedAt(d, path, n + 1, n);
    assert PassedAt(path, n + 1, Resolved([], path[..n]), n);
    if k: nat :| BlockedAt(d, path, n, k) { assert BlockedAt(d, path, n + 1, k); }
    var m := n + 1;
    if k: nat :| BlockedAt(d, path, m, k) && k != n { assert BlockedAt(d, path, n, k); }
    forall q ensures OnTheWay(path, n + 1, q) <==> OnTheWay(path, n, q) || Resolved([], path[..n]) == q {
      if k: nat :| PassedAt(path, n, q, k) { assert PassedAt(path, n + 1, q, k); }
      if k: nat :| PassedAt(path, m, q, k) && k != n { assert PassedAt(path, n, q, k); }
    }
  }

  /**
   An entry fails to unpack exactly when a file stands where a directory on its way has to
   be, or a directory stands where it lands, made or found; if it does not, its content
   is written there and the directories on its way are there, and nothing else is new.
   */
  lemma ConflictsExactly(d: Disk, base: Location, rel: Path, content: bytes)
    ensures var path, at, (d', err) := base + rel, Resolved([], base + rel), Unpacked(d, base, rel, content);
            && (err == Some(NotADirectory) <==> Blocked(d, path, |path|))
            && (err == Some(IsADirectory) <==>
                  !Blocked(d, path, |path|) && (rel == [] || at in d.dirs || OnTheWay(path, |path|, at)))
            && (err in [None, Some(NotADirectory), Some(IsADirectory)])
            && d'.files == (if err == None then d.files[at := content] else d.files)
            && (err == None ==> forall q :: q in d'.dirs <==> q in d.dirs || OnTheWay(path, |path|, q))
  {
    var path := base + rel;
    NoWay(d, path);
    if path != [] { MadeDirsExactly(d, path, |path| - 1); }
    hide Resolved, Blocked, OnTheWay, MadeDirs;
  }

  lemma {:induction false} MakingDirsFails(d: Disk, path: Path)
    ensures MadeDirs(d, path).1 in [None, Some(NotADirectory)]
  {
    hide Resolved;
    if path != [] { MakingDirsFails(d, path[..|path| - 1]); }
  }

  lemma {:induction false} UnpackingFails(d: Disk, base: Location, items: seq<Item>)
    ensures UnpackedAll(d, base, items).1 in [None, Some(NotADirectory), Some(IsADirectory)]
  {
    hide MadeDirs, Resolved, Destination;
    if items != [] {
      var before, last := items[..|items| - 1], items[|items| - 1];
      UnpackingFails(d, base, before);
      if Destination(last.path).Some? {
        var path := base + Destination(last.path).value;
        if path != [] { MakingDirsFails(UnpackedAll(d, base, before).0, path[..|path| - 1]); }
      }
    }
  }

  /** An entry that is neither `edda.db` nor below `data` might as well not be in the archive. */
  lemma {:induction false} UnexpectedEntriesAreSkipped(
    d: Disk, base: Location, items: seq<Item>, item: Item, more: seq<Item>)
    requires item.path != ["edda.db"] && (item.path == [] || item.path[0] != "data")
    ensures UnpackedAll(d, base, items + [item] + more) == UnpackedAll(d, base, items + more)
    decreases |more|
  {
    hide Unpacked;
    if more == [] {
      assert (items + [item] + more)[..|items|] == items && items + more == items;
    } else {
      var init, last := more[..|more| - 1], more[|more| - 1];
      assert (items + [item] + more)[..|items| + 1 + |init|] == items + [item] + init;
      assert (items + more)[..|items| + |init|] == items + init;
      UnexpectedEntriesAreSkipped(d, base, items, item, init);
    }
  }

  // ------------------------------------------------------ staying below the directory

  /** How far below its start a path that never climbs above it ends. */
  function Depth(rel: Path): int {
    if rel == [] then 0 else Depth(rel[..|rel| - 1]) + if rel[|rel| - 1] == PARENT then -1 else 1
  }

  /** Somewhere along the path there are more `..` than names before it. */
  predicate Climbs(rel: Path) {
    rel != [] && (Climbs(rel[..|rel| - 1]) || (rel[|rel| - 1] == PARENT && Depth(rel[..|rel| - 1]) == 0))
  }

  /** Some entry that is restored climbs above the data directory on its way. */
  predicate Climbing(items: seq<Item>) {
    exists i :: 0 <= i < |items| && Destination(items[i].path).Some? && Climbs(Destination(items[i].path).value)
  }

  lemma {:induction false} PlainPathsLeadWhereTheySay(path: Path)
    requires Plain(path)
    ensures Resolved([], path) == path
  {
    hide *;
    if path == [] {
      ResolvedNowhere([]);
    } else {
      var init, last := path[..|path| - 1], path[|path| - 1];
      assert path == init + [last];
      PlainParts(init, last);
      PlainPathsLeadWhereTheySay(init);
      ResolvedLast([], init, last);
    }
  }

  lemma PlainParts(init: Path, last: string)
    ensures Plain(init + [last]) <==> Plain(init) && last != PARENT
  {
  }

  lemma ResolvedNowhere(at: Location)
    ensures Resolved(at, []) == at
  {
  }

  lemma ResolvedLast(at: Location, init: Path, last: string)
    ensures Resolved(at, init + [last]) == Stepped(Resolved(at, init), last)
    ensures last != PARENT ==> Stepped(Resolved(at, init), last) == Resolved(at, init) + [last]
  {
    assert (init + [last])[..|init|] == init;
  }

  lemma {:induction false} ResolvedFromBase(base: Location, rel: Path)
    requires Plain(base)
    ensures Resolved([], base + rel) == Resolved(base, rel)
    decreases |rel|
  {
    hide *;
    if rel == [] {
      assert base + rel == base;
      PlainPathsLeadWhereTheySay(base);
      ResolvedNowhere(base);
    } else {
      var init, last := rel[..|rel| - 1], rel[|rel| - 1];
      assert rel == init + [last] && base + rel == base + init + [last];
      ResolvedFromBase(base, init);
      ResolvedLast([], base + init, last);
      ResolvedLast(base, init, last);
    }
  }

  lemma {:induction false} StaysBelow(base: Location, rel: Path)
    requires !Climbs(rel)
    ensures base <= Resolved(base, rel) && |Resolved(base, rel)| == |base| + Depth(rel)
  {
    if rel != [] { StaysBelow(base, rel[..|rel| - 1]); }
  }

  lemma {:induction false} LeavesTheDirectory(name: string, rel: Path)
    requires Climbs(rel) && name !in rel && name != PARENT
    ensures !([name] <= Resolved([name], rel))
  {
    var init, last := rel[..|rel| - 1], rel[|rel| - 1];
    assert last in rel && forall c :: c in init ==> c in rel;
    if Climbs(init) {
      LeavesTheDirectory(name, init);
      var l := Resolved([name], init);
      assert l == [] || l[0] != name by { assert l != [] ==> [name][0] == name && ([name] <= l <==> l[0] == name); }
      var r := Stepped(l, last);
      assert r == [] || r[0] != name;
    } else {
      StaysBelow([name], init);
    }
  }

  function Joined(rel: Path): (s: string)
    ensures forall c :: c in rel ==> |c| <= |s|
  {
    if rel == [] then "" else Joined(rel[..|rel| - 1]) + rel[|rel| - 1]
  }

  /** A name no component of `rel` has. */
  function OtherName(rel: Path): (name: string)
    ensures name !in rel && name != PARENT
  {
    Joined(rel) + "name"
  }

  /**
   An entry lands at or below the data directory, wherever that is, exactly when its
   path never climbs above its start.
   */
  lemma LandsBelowExactlyWhenNotClimbing(item: Item)
    requires Destination(item.path).Some?
    ensures (forall base: Location :: Plain(base) ==> base <= LandsAt(base, item).value)
            <==> !Climbs(Destination(item.path).value)
  {
    var rel := Destination(item.path).value;
    if Climbs(rel) {
      var name := OtherName(rel);
      LeavesTheDirectory(name, rel);
      assert Plain([name]);
      ResolvedFromBase([name], rel);
      assert !([name] <= LandsAt([name], item).value);
    } else {
      forall base: Location | Plain(base) ensures base <= LandsAt(base, item).value {
        StaysBelow(base, rel);
        ResolvedFromBase(base, rel);
      }
    }
  }

  lemma {:induction false} LastForHasLanded(base: Location, items: seq<Item>, q: Location)
    ensures LastFor(base, items, q).Some? <==> exists i :: 0 <= i < |items| && LandsAt(base, items[i]) == Some(q)
  {
    if items != [] {
      hide LandsAt;
      var before := items[..|items| - 1];
      LastForHasLanded(base, before, q);
      if i :| 0 <= i < |items| && LandsAt(base, items[i]) == Some(q) {
        if i < |before| { assert LandsAt(base, before[i]) == Some(q); }
      }
    }
  }

  /** Directories made on a path that does not climb lie on the way to the data directory or below it. */
  ghost predicate NewDirsInside(d: Disk, d': Disk, base: Location) {
    forall q :: q in d'.dirs && q !in d.dirs ==> q <= base || base <= q
  }

  lemma {:induction false} MadeDirsLeadToBase(d: Disk, base: Location, path: Path)
    requires Plain(path) && path <= base
    ensures NewDirsInside(d, MadeDirs(d, path).0, base)
  {
    PlainPathsLeadWhereTheySay(path);
    if path != [] {
      PlainParts(path[..|path| - 1], path[|path| - 1]);
      assert path == path[..|path| - 1] + [path[|path| - 1]];
      hide Plain, Resolved;
      MadeDirsLeadToBase(d, base, path[..|path| - 1]);
    }
  }

  lemma {:induction false} MadeDirsStayInside(d: Disk, base: Location, rel: Path)
    requires Plain(base) && !Climbs(rel)
    ensures NewDirsInside(d, MadeDirs(d, base + rel).0, base)
    decreases |rel|
  {
    StaysBelow(base, rel);
    ResolvedFromBase(base, rel);
    if rel == [] {
      assert base + rel == base;
      MadeDirsLeadToBase(d, base, base);
    } else {
      assert (base + rel)[..|base + rel| - 1] == base + rel[..|rel| - 1];
      MadeDirsStayInside(d, base, rel[..|rel| - 1]);
      hide Plain, Resolved, Climbs;
    }
  }

  lemma UnpackingStaysInside(d: Disk, base: Location, rel: Path, content: bytes)
    requires Plain(base) && !Climbs(rel)
    ensures NewDirsInside(d, Unpacked(d, base, rel, content).0, base)
  {
    var path := base + rel;
    if path != [] {
      if rel == [] {
        MadeDirsLeadToBase(d, base, path[..|path| - 1]);
      } else {
        assert path[..|path| - 1] == base + rel[..|rel| - 1];
        MadeDirsStayInside(d, base, rel[..|rel| - 1]);
      }
    }
    hide MadeDirs, Resolved, Plain, Climbs;
  }

  lemma {:induction false} UnpackingAllStaysInside(d: Disk, base: Location, items: seq<Item>)
    requires Plain(base) && !Climbing(items)
    ensures NewDirsInside(d, UnpackedAll(d, base, items).0, base)
  {
    if items != [] {
      hide Plain, Climbs, Destination, Unpacked;
      var before, last := items[..|items| - 1], items[|items| - 1];
      assert forall i :: 0 <= i < |before| ==> before[i] == items[i];
      UnpackingAllStaysInside(d, base, before);
      if Destination(last.path).Some? {
        UnpackingStaysInside(UnpackedAll(d, base, before).0, base, Destination(last.path).value, last.content);
      }
    }
  }

  /**
   Of an archive without climbing entries a restore, finished or not, touches
   nothing outside the data directory but the directories on the way to it.
   */
  lemma RestoreStaysInside(d: Disk, base: Location, items: seq<Item>, force: bool, q: Location)
    requires Plain(base) && !Climbing(items) && !(base <= q)
    ensures var d' := Restored(d, base, items, force).0;
            && (q in d'.files <==> q in d.files) && (q in d'.files ==> d'.files[q] == d.files[q])
            && (q in d'.dirs && q !in d.dirs ==> q <= base)
  {
    forall i | 0 <= i < |items| ensures LandsAt(base, items[i]) != Some(q) {
      if Destination(items[i].path).Some? { LandsBelowExactlyWhenNotClimbing(items[i]); }
    }
    LastForHasLanded(base, items, q);
    RestoreWritesExactlyWhereEntriesLand(d, base, items, force, q);
    UnpackingAllStaysInside(d, base, items);
    hide LandsAt, LastFor, UnpackedAll, Climbing, Populated, HoldsDatabase, Plain;
  }

  /**
   Every archive with a climbing entry, restored successfully into a directory of
   some name, writes a file outside it, whatever the file system holds.
   */
  lemma ClimbingEntriesEscape(items: seq<Item>) returns (base: Location, q: Location)
    requires Climbing(items)
    ensures Plain(base) && !(base <= q)
    ensures forall d, force :: Restored(d, base, items, force).1.None? ==> q in Restored(d, base, items, force).0.files
  {
    var i :| 0 <= i < |items| && Destination(items[i].path).Some? && Climbs(Destination(items[i].path).value);
    var rel := Destination(items[i].path).value;
    base := [OtherName(rel)];
    LeavesTheDirectory(OtherName(rel), rel);
    ResolvedFromBase(base, rel);
    q := LandsAt(base, items[i]).value;
    LastForHasLanded(base, items, q);
    forall d, force | Restored(d, base, items, force).1.None? ensures q in Restored(d, base, items, force).0.files {
      RestoreWritesExactlyWhereEntriesLand(d, base, items, force, q);
    }
  }

  const ESCAPING := [Item([DB_BASENAME], [1]), Item(["data", "..", "x"], [2])]

  /** Such archives are restored without complaint: `data/../x` lands beside the data directory. */
  lemma AnEntryCanEscape()
    ensures Climbing(ESCAPING)
    ensures Restored(Disk(map[], {}), ["srv"], ESCAPING, false)
            == (Disk(map[["srv", DB_BASENAME] := [1], ["x"] := [2]], {[], ["srv"]}), None)
  {
    var d, srv, up, db, x := Disk(map[], {}), ["srv"], ["srv", ".."], ["srv", DB_BASENAME], ["srv", "..", "x"];
    assert ESCAPING[1].path == DATA + ["..", "x"] && ESCAPING[1].path[1..] == ["..", "x"];
    assert ["..", "x"][..1] == [".."] && [".."][..0] == [];
    assert Climbs([".."]) && Climbs(["..", "x"]);
    assert Destination(ESCAPING[1].path) == Some(["..", "x"]);
    assert ESCAPING[..1] == [ESCAPING[0]] && ESCAPING[..1][..0] == [];
    assert srv + [DB_BASENAME] == db && srv + ["..", "x"] == x;
    assert srv[..0] == [] && up[..1] == srv && db[..1] == srv && x[..2] == up;
    assert |PARENT| == 2 && |"srv"| == 3 && |DB_BASENAME| == 7 && |"x"| == 1;
    assert Resolved([], []) == [] && Resolved([], srv) == srv;
    assert Resolved([], up) == [] && Resolved([], db) == db && Resolved([], x) == ["x"];
    var dirs: set<Location> := {[], srv};
    assert d.dirs + {[]} == {[]} && {[]} + {srv} == dirs;
    assert MadeDirs(d, []) == (d.(dirs := {[]}), None);
    assert MadeDirs(d, srv) == (d.(dirs := dirs), None);
    var one := Disk(map[db := [1]], dirs);
    assert Unpacked(d, srv, [DB_BASENAME], [1]) == (one, None);
    assert UnpackedAll(d, srv, ESCAPING[..1]) == (one, None);
    assert dirs + {[]} == dirs && dirs + {srv} == dirs && [] !in one.files && srv !in one.files;
    assert MadeDirs(one, []) == (one, None);
    assert MadeDirs(one, srv) == (one, None);
    assert MadeDirs(one, up) == (one, None);
    assert Unpacked(one, srv, ["..", "x"], [2]) == (Disk(map[db := [1], ["x"] := [2]], dirs), None);
    assert HoldsDatabase(ESCAPING) by { assert ESCAPING[0].path == [DB_BASENAME]; }
  }

  // ------------------------------------------------------------------- round trip

  /** The directories above a path. */
  function Above(p: Path): (ps: set<Location>)
    ensures forall q :: q in ps <==> q < p
  {
    assert forall q :: q < p ==> q == p[..|q|];
    set i | 0 <= i < |p| :: p[..i]
  }

  lemma {:induction false} PlainDirsAreMade(d: Disk, path: Path)
    requires Plain(path) && forall q :: q in d.files ==> !(q <= path)
    ensures MadeDirs(d, path) == (d.(dirs := d.dirs + Above(path) + {path}), None)
  {
    PlainPathsLeadWhereTheySay(path);
    assert path <= path;
    if path == [] {
      assert Above(path) == {} && d.dirs + {} == d.dirs;
    } else {
      var init := path[..|path| - 1];
      assert forall c :: c in init ==> c in path;
      PlainDirsAreMade(d, init);
      assert Above(path) == Above(init) + {init};
      assert d.dirs + Above(init) + {init} + {path} == d.dirs + Above(path) + {path};
    }
  }

  /** The path of an entry; `[]` when it has none. */
  function Rel(item: Item): Path {
    match Destination(item.path)
    case Some(rel) => rel
    case None => []
  }

  /** Unpacking a plain entry with nothing in its way. */
  lemma PlainEntryIsUnpacked(d: Disk, base: Location, item: Item)
    requires Plain(base + Rel(item)) && Rel(item) != []
    requires forall q :: q in d.files ==> !(q < base + Rel(item))
    requires base + Rel(item) !in d.dirs
    ensures var path := base + Rel(item);
            Unpacked(d, base, Rel(item), item.content)
            == (Disk(d.files[path := item.content], d.dirs + Above(path)), None)
  {
    hide Destination, Rel, MadeDirs, Resolved;
    var path := base + Rel(item);
    var init := path[..|path| - 1];
    assert forall c :: c in init ==> c in path;
    forall q | q in d.files ensures !(q <= init) { assert !(q < path); }
    PlainDirsAreMade(d, init);
    PlainPathsLeadWhereTheySay(path);
    assert d.dirs + Above(init) + {init} == d.dirs + Above(path);
  }

  /** Every entry is plain and has a place below the data directory, and no file lies below another. */
  ghost predicate Unnested(items: seq<Item>) {
    && (forall i :: 0 <= i < |items| ==> Rel(items[i]) != [] && Plain(Rel(items[i])))
    && (forall i, j :: 0 <= i < |items| && 0 <= j < |items| && Rel(items[i]) <= Rel(items[j]) ==> items[i] == items[j])
  }

  ghost predicate Unpacks(base: Location, items: seq<Item>, q: Location) {
    exists i :: 0 <= i < |items| && base + Rel(items[i]) == q
  }

  ghost predicate LiesAbove(base: Location, items: seq<Item>, q: Location) {
    exists i :: 0 <= i < |items| && q < base + Rel(items[i])
  }

  /** `d` is `before` with exactly these entries, in no other directories than they need. */
  ghost predicate Holds(before: Disk, d: Disk, base: Location, items: seq<Item>) {
    && (forall q :: q in d.files <==> q in before.files || Unpacks(base, items, q))
    && (forall item :: item in items ==> d.files[base + Rel(item)] == item.content)
    && (forall q :: q in before.files && !Unpacks(base, items, q) ==> d.files[q] == before.files[q])
    && (forall q :: q in d.dirs && q !in before.dirs ==> LiesAbove(base, items, q))
  }

  /** Nothing below `base`, and no file in the way to it. */
  ghost predicate Clear(d: Disk, base: Location) {
    && Plain(base)
    && (forall q :: q in d.files ==> !(q <= base) && !(base <= q))
    && (forall q :: q in d.dirs ==> !(base < q))
  }

  lemma UnnestedPrefix(items: seq<Item>, item: Item)
    requires Unnested(items + [item])
    ensures Unnested(items) && Rel(item) != [] && Plain(Rel(item))
    ensures forall it :: it in items && (Rel(it) <= Rel(item) || Rel(item) <= Rel(it)) ==> it == item
  {
    var all := items + [item];
    assert forall i :: 0 <= i < |items| ==> all[i] == items[i];
    assert all[|items|] == item;
  }

  lemma OneMoreEntry(base: Location, items: seq<Item>, item: Item, q: Location)
    ensures Unpacks(base, items + [item], q) <==> Unpacks(base, items, q) || q == base + Rel(item)
    ensures LiesAbove(base, items + [item], q) <==> LiesAbove(base, items, q) || q < base + Rel(item)
  {
    hide Rel;
    var all := items + [item];
    assert all[|items|] == item && forall i :: 0 <= i < |items| ==> all[i] == items[i];
    if Unpacks(base, items, q) {
      var i :| 0 <= i < |items| && base + Rel(items[i]) == q;
      assert base + Rel(all[i]) == q;
    }
    if LiesAbove(base, items, q) {
      var i :| 0 <= i < |items| && q < base + Rel(items[i]);
      assert q < base + Rel(all[i]);
    }
  }

  lemma SameBase(base: Location, a: Path, b: Path)
    ensures base + a <= base + b <==> a <= b
    ensures base + a < base + b <==> a < b
  {
    if base + a <= base + b {
      assert a == (base + a)[|base|..] && b == (base + b)[|base|..];
      assert (base + b)[..|base + a|] == base + a;
      assert b[..|a|] == (base + b)[|base|..|base + a|];
    }
    if a <= b {
      assert b == a + b[|a|..];
      assert base + b == (base + a) + b[|a|..];
    }
  }

  lemma NothingInTheWay(before: Disk, d: Disk, base: Location, items: seq<Item>, item: Item)
    requires Clear(before, base) && Unnested(items + [item]) && Holds(before, d, base, items)
    ensures forall q :: q in d.files ==> !(q < base + Rel(item))
    ensures base + Rel(item) !in d.dirs
  {
    UnnestedPrefix(items, item);
    hide Rel, Unnested, Plain;
    var path := base + Rel(item);
    forall i | 0 <= i < |items| ensures !(base + Rel(items[i]) < path) && !(path < base + Rel(items[i])) {
      assert items[i] in items;
      SameBase(base, Rel(items[i]), Rel(item));
      SameBase(base, Rel(item), Rel(items[i]));
    }
    forall q | q in before.files ensures !(q < path) {
      if q < path { ShorterOrBelow(base, Rel(item), q); }
    }
    assert base < path;
  }

  lemma ShorterOrBelow(base: Location, rel: Path, q: Location)
    requires q < base + rel
    ensures q <= base || base <= q
  {
    if |q| <= |base| {
      assert q == (base + rel)[..|q|] == base[..|q|];
    } else {
      assert base == (base + rel)[..|base|] == q[..|base|];
    }
  }

  lemma OneMoreFile(before: Disk, d: Disk, base: Location, items: seq<Item>, item: Item, q: Location)
    requires Holds(before, d, base, items)
    ensures var path := base + Rel(item);
            var files := d.files[path := item.content];
            && (q in files <==> q in before.files || Unpacks(base, items + [item], q))
            && (q in before.files && !Unpacks(base, items + [item], q) ==> files[q] == before.files[q])
    ensures q in d.dirs + Above(base + Rel(item)) && q !in before.dirs ==> LiesAbove(base, items + [item], q)
  {
    OneMoreEntry(base, items, item, q);
    hide Rel, Unpacks, LiesAbove;
  }

  lemma ContentsStay(before: Disk, d: Disk, base: Location, items: seq<Item>, item: Item, it: Item)
    requires Unnested(items + [item]) && Holds(before, d, base, items) && it in items + [item]
    ensures var files := d.files[base + Rel(item) := item.content];
            base + Rel(it) in files && files[base + Rel(it)] == it.content
  {
    UnnestedPrefix(items, item);
    SameBase(base, Rel(it), Rel(item));
    hide Unnested, Rel, Plain;
    if it in items {
      assert Unpacks(base, items, base + Rel(it)) by {
        var i :| 0 <= i < |items| && items[i] == it;
        assert base + Rel(items[i]) == base + Rel(it);
      }
    }
  }

  lemma HoldsOneMore(before: Disk, d: Disk, base: Location, items: seq<Item>, item: Item)
    requires Unnested(items + [item]) && Holds(before, d, base, items)
    ensures var path := base + Rel(item);
            Holds(before, Disk(d.files[path := item.content], d.dirs + Above(path)), base, items + [item])
  {
    var all, path := items + [item], base + Rel(item);
    var files, dirs := d.files[path := item.content], d.dirs + Above(path);
    forall it | it in all ensures base + Rel(it) in files && files[base + Rel(it)] == it.content {
      ContentsStay(before, d, base, items, item, it);
    }
    forall q
      ensures q in files <==> q in before.files || Unpacks(base, all, q)
      ensures q in before.files && !Unpacks(base, all, q) ==> files[q] == before.files[q]
      ensures q in dirs && q !in before.dirs ==> LiesAbove(base, all, q)
    {
      OneMoreFile(before, d, base, items, item, q);
    }
    hide Unnested, Rel, Unpacks, LiesAbove, Above;
  }

  lemma UnpackOneMore(before: Disk, d: Disk, base: Location, items: seq<Item>, item: Item)
    requires Clear(before, base) && Unnested(items + [item]) && Holds(before, d, base, items)
    ensures var (d', err) := Unpacked(d, base, Rel(item), item.content);
            err == None && Holds(before, d', base, items + [item])
  {
    UnnestedPrefix(items, item);
    NothingInTheWay(before, d, base, items, item);
    HoldsOneMore(before, d, base, items, item);
    assert Plain(base + Rel(item));
    hide Unnested, Rel, Holds, Unpacked;
    PlainEntryIsUnpacked(d, base, item);
  }

  lemma UnpacksNothing(before: Disk, base: Location)
    ensures UnpackedAll(before, base, []) == (before, None) && Holds(before, before, base, [])
  {
  }

  lemma UnpackedLast(d: Disk, base: Location, items: seq<Item>, item: Item)
    requires UnpackedAll(d, base, items).1.None? && Rel(item) != []
    ensures UnpackedAll(d, base, items + [item])
            == Unpacked(UnpackedAll(d, base, items).0, base, Rel(item), item.content)
  {
    assert (items + [item])[..|items|] == items && (items + [item])[|items|] == item;
    hide Unpacked;
  }

  lemma {:induction false} UnpacksEverything(before: Disk, base: Location, items: seq<Item>)
    requires Clear(before, base) && Unnested(items)
    ensures UnpackedAll(before, base, items).1 == None
    ensures Holds(before, UnpackedAll(before, base, items).0, base, items)
    decreases |items|
  {
    hide *;
    if items == [] {
      UnpacksNothing(before, base);
    } else {
      var init, last := items[..|items| - 1], items[|items| - 1];
      assert items == init + [last];
      UnnestedPrefix(init, last);
      UnpacksEverything(before, base, init);
      UnpackedLast(before, base, init, last);
      UnpackOneMore(before, UnpackedAll(before, base, init).0, base, init, last);
    }
  }

  /** Whether an entry is one of a dump: the snapshot, or a file of the tree but the live database. */
  ghost predicate OfDump(snapshot: bytes, root: seq<Entry>, item: Item) {
    item == Item(["edda.db"], snapshot)
    || (|item.path| >= 2 && item.path[0] == "data" && !NamedLikeDb(item.path[1])
        && FileAt(root, item.path[1..]) == Some(item.content))
  }

  lemma DumpEntry(items: seq<Item>, snapshot: bytes, root: seq<Entry>, item: Item)
    requires UniqueNames(root) && IsDump(items, snapshot, root)
    ensures item in items <==> OfDump(snapshot, root, item)
  {
    assert items == [items[0]] + items[1..];
    assert item in items <==> item == items[0] || item in multiset(items[1..]);
    if DATA <= item.path {
      assert item.path == DATA + item.path[1..];
      ArchivedExactlyOnce(DATA, root, item.path[1..], item.content);
    } else {
      NotArchived(DATA, root, item);
    }
  }

  lemma DumpEntriesAreUnnested(snapshot: bytes, root: seq<Entry>, a: Item, b: Item)
    requires UniqueNames(root) && OfDump(snapshot, root, a) && OfDump(snapshot, root, b)
    ensures Rel(a) != [] && Plain(Rel(a))
    ensures Rel(a) <= Rel(b) ==> a == b
  {
    assert |PARENT| == 2 && |DB_BASENAME| == 7;
    if a.path != [DB_BASENAME] { FilePathsArePlain(root, a.path[1..]); }
    if a.path != [DB_BASENAME] && b.path != [DB_BASENAME] && Rel(a) <= Rel(b) {
      FilesAreNotNested(root, a.path[1..], b.path[1..]);
      assert a.path == DATA + a.path[1..] && b.path == DATA + b.path[1..];
    }
  }

  lemma DumpsAreUnnested(items: seq<Item>, snapshot: bytes, root: seq<Entry>)
    requires UniqueNames(root) && IsDump(items, snapshot, root)
    ensures Unnested(items)
  {
    hide OfDump, Rel, Plain, IsDump, UniqueNames;
    forall i | 0 <= i < |items| ensures OfDump(snapshot, root, items[i]) { DumpEntry(items, snapshot, root, items[i]); }
    forall i, j | 0 <= i < |items| && 0 <= j < |items|
      ensures Rel(items[i]) != [] && Plain(Rel(items[i]))
      ensures Rel(items[i]) <= Rel(items[j]) ==> items[i] == items[j]
    {
      DumpEntriesAreUnnested(snapshot, root, items[i], items[j]);
    }
  }

  /**
   Restoring a dump into an empty directory, wherever it is, is the identity on
   files: every file of the dumped tree is back at its path with its content, the
   database file is the snapshot, and there is nothing else.
   */
  lemma RestoreUndoesDump(
    items: seq<Item>, snapshot: bytes, root: seq<Entry>, before: Disk, base: Location, force: bool)
    requires UniqueNames(root) && IsDump(items, snapshot, root) && Clear(before, base)
    ensures var (d, err) := Restored(before, base, items, force);
            && err == None
            && forall p: Path :: (base + p in d.files <==> p == ["edda.db"]
                                                           || (p != [] && !NamedLikeDb(p[0]) && FileAt(root, p).Some?))
                         && (base + p in d.files ==>
                               Some(d.files[base + p]) == if p == ["edda.db"] then Some(snapshot) else FileAt(root, p))
    ensures var files := Restored(before, base, items, force).0.files;
            forall q :: q in before.files ==> (q in files && files[q] == before.files[q])
  {
    RestoreSucceeds(items, snapshot, root, before, base, force);
    hide *;
    var d := Restored(before, base, items, force).0;
    forall p: Path
      ensures base + p in d.files <==> p == ["edda.db"] || (p != [] && !NamedLikeDb(p[0]) && FileAt(root, p).Some?)
      ensures base + p in d.files ==>
                Some(d.files[base + p]) == if p == ["edda.db"] then Some(snapshot) else FileAt(root, p)
    {
      RestoredAt(items, snapshot, root, before, d, base, p);
    }
    forall q | q in before.files ensures q in d.files && d.files[q] == before.files[q] {
      OthersKept(before, d, base, items, q);
    }
  }

  lemma RestoreSucceeds(
    items: seq<Item>, snapshot: bytes, root: seq<Entry>, before: Disk, base: Location, force: bool)
    requires UniqueNames(root) && IsDump(items, snapshot, root) && Clear(before, base)
    ensures Unnested(items) && Restored(before, base, items, force).1 == None
    ensures Holds(before, Restored(before, base, items, force).0, base, items)
  {
    DumpsAreUnnested(items, snapshot, root);
    UnpacksEverything(before, base, items);
    hide Unnested, Holds, UnpackedAll, Archived, UniqueNames;
    assert HoldsDatabase(items) && !Populated(before, base);
  }

  lemma OthersKept(before: Disk, d: Disk, base: Location, items: seq<Item>, q: Location)
    requires Clear(before, base) && Holds(before, d, base, items) && q in before.files
    ensures q in d.files && d.files[q] == before.files[q]
  {
    hide Rel;
    forall i | 0 <= i < |items| ensures base + Rel(items[i]) != q {
      assert base <= base + Rel(items[i]);
    }
  }

  lemma OnlyDumpEntriesAreThere(
    items: seq<Item>, snapshot: bytes, root: seq<Entry>, before: Disk, d: Disk, base: Location, p: Path)
    requires UniqueNames(root) && IsDump(items, snapshot, root) && Clear(before, base) && Holds(before, d, base, items)
    requires base + p in d.files
    ensures exists item :: OfDump(snapshot, root, item) && Rel(item) == p && d.files[base + p] == item.content
  {
    hide Rel, OfDump, Archived, UniqueNames, IsDump;
    assert base <= base + p && base + p !in before.files;
    var i :| 0 <= i < |items| && base + Rel(items[i]) == base + p;
    SameBase(base, Rel(items[i]), p);
    SameBase(base, p, Rel(items[i]));
    assert items[i] in items;
    DumpEntry(items, snapshot, root, items[i]);
  }

  lemma EveryDumpEntryIsThere(
    items: seq<Item>, snapshot: bytes, root: seq<Entry>, before: Disk, d: Disk, base: Location, item: Item)
    requires UniqueNames(root) && IsDump(items, snapshot, root) && Holds(before, d, base, items)
    requires OfDump(snapshot, root, item)
    ensures base + Rel(item) in d.files
  {
    hide Rel, OfDump, Archived, UniqueNames, IsDump;
    DumpEntry(items, snapshot, root, item);
    var i :| 0 <= i < |items| && items[i] == item;
    assert Unpacks(base, items, base + Rel(items[i]));
  }

  lemma RestoredAt(
    items: seq<Item>, snapshot: bytes, root: seq<Entry>, before: Disk, d: Disk, base: Location, p: Path)
    requires UniqueNames(root) && IsDump(items, snapshot, root) && Clear(before, base) && Holds(before, d, base, items)
    ensures base + p in d.files <==> p == ["edda.db"] || (p != [] && !NamedLikeDb(p[0]) && FileAt(root, p).Some?)
    ensures base + p in d.files ==>
              Some(d.files[base + p]) == if p == ["edda.db"] then Some(snapshot) else FileAt(root, p)
  {
    hide Holds, Clear, IsDump, UniqueNames, FileAt;
    if base + p in d.files {
      OnlyDumpEntriesAreThere(items, snapshot, root, before, d, base, p);
    }
    if p == ["edda.db"] {
      EveryDumpEntryIsThere(items, snapshot, root, before, d, base, Item([DB_BASENAME], snapshot));
    } else if p != [] && !NamedLikeDb(p[0]) && FileAt(root, p).Some? {
      var item := Item(DATA + p, FileAt(root, p).value);
      assert Rel(item) == p && item.path[1..] == p;
      EveryDumpEntryIsThere(items, snapshot, root, before, d, base, item);
    }
  }
}
