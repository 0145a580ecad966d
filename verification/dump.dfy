/**
 Dumping a data directory: the worklist walks over its tree and the archive they
 write.
 */
module DumpArchive {
  import opened Prelude

  const DB_BASENAME := "edda.db"

  /** A path by its components, relative to the data directory or to the archive root. */
  type Path = seq<string>

  // ------------------------------------------------------------------------ trees

  datatype Node = File(content: bytes) | Dir(entries: seq<Entry>)

  datatype Entry = Entry(name: string, node: Node)

  /** The bytes in the files below a directory. */
  function Bytes(entries: seq<Entry>): nat {
    if entries == [] then 0
    else
      (match entries[0].node
       case File(content) => |content|
       case Dir(below) => Bytes(below))
      + Bytes(entries[1..])
  }

  /** The number of files below a directory. */
  function Files(entries: seq<Entry>): nat {
    if entries == [] then 0
    else
      (match entries[0].node
       case File(_) => 1
       case Dir(below) => Files(below))
      + Files(entries[1..])
  }

  /** The number of directories below a directory, itself included. */
  function Dirs(entries: seq<Entry>): (n: nat)
    ensures n >= 1
  {
    if entries == [] then 1
    else
      (match entries[0].node
       case File(_) => 0
       case Dir(below) => Dirs(below))
      + Dirs(entries[1..])
  }

  /** What the directories on a worklist add up to. */
  function SumOf(f: seq<Entry> -> nat, stack: seq<seq<Entry>>): nat {
    if stack == [] then 0 else SumOf(f, stack[..|stack| - 1]) + f(stack[|stack| - 1])
  }

  lemma Pushed(f: seq<Entry> -> nat, stack: seq<seq<Entry>>, dir: seq<Entry>)
    ensures SumOf(f, stack + [dir]) == SumOf(f, stack) + f(dir)
  {
    assert (stack + [dir])[..|stack|] == stack;
  }

  /** Total bytes and number of files, whatever the nesting. */
  method DirFootprint(root: seq<Entry>) returns (bytes: nat, files: nat)
    ensures bytes == Bytes(root) && files == Files(root)
  {
    bytes, files := 0, 0;
    var stack := [root];
    while stack != []
      invariant bytes + SumOf(Bytes, stack) == Bytes(root)
      invariant files + SumOf(Files, stack) == Files(root)
      decreases SumOf(Dirs, stack)
    {
      var dir := stack[|stack| - 1];
      stack := stack[..|stack| - 1];
      ghost var others := SumOf(Dirs, stack);
      for i := 0 to |dir|
        invariant bytes + SumOf(Bytes, stack) + Bytes(dir[i..]) == Bytes(root)
        invariant files + SumOf(Files, stack) + Files(dir[i..]) == Files(root)
        invariant SumOf(Dirs, stack) + Dirs(dir[i..]) == others + Dirs(dir)
      {
        assert dir[i..][0] == dir[i] && dir[i..][1..] == dir[i + 1..];
        match dir[i].node {
          case Dir(below) =>
            Pushed(Bytes, stack, below);
            Pushed(Files, stack, below);
            Pushed(Dirs, stack, below);
            stack := stack + [below];
          case File(content) =>
            bytes := bytes + |content|;
            files := files + 1;
        }
      }
    }
  }

  // ---------------------------------------------------------------------- archives

  /** A file in an archive, or on disk. */
  datatype Item = Item(path: Path, content: bytes)

  const DATA: Path := ["data"]

  /** The live database files, which the staged copy replaces. */
  predicate IsLiveDb(name: string) {
    name == DB_BASENAME || DB_BASENAME + "-" <= name
  }

  /** The files below a directory under their archive names, less the live database at the top. */
  function Archived(path: Path, entries: seq<Entry>): multiset<Item>
    decreases entries
  {
    if entries == [] then multiset{}
    else
      var e := entries[0];
      (if path == DATA && IsLiveDb(e.name) then multiset{}
       else
         match e.node
         case File(content) => multiset{Item(path + [e.name], content)}
         case Dir(below) => Archived(path + [e.name], below))
      + Archived(path, entries[1..])
  }

  /** A directory waiting to be walked. */
  datatype Pending = Pending(path: Path, entries: seq<Entry>)

  function Waiting(stack: seq<Pending>): multiset<Item> {
    if stack == [] then multiset{}
    else Waiting(stack[..|stack| - 1]) + Archived(stack[|stack| - 1].path, stack[|stack| - 1].entries)
  }

  function WaitingDirs(stack: seq<Pending>): nat {
    if stack == [] then 0 else WaitingDirs(stack[..|stack| - 1]) + Dirs(stack[|stack| - 1].entries)
  }

  lemma PushedPending(stack: seq<Pending>, dir: Pending)
    ensures Waiting(stack + [dir]) == Waiting(stack) + Archived(dir.path, dir.entries)
    ensures WaitingDirs(stack + [dir]) == WaitingDirs(stack) + Dirs(dir.entries)
  {
    assert (stack + [dir])[..|stack|] == stack;
  }

  lemma NextEntry(path: Path, entries: seq<Entry>, i: nat)
    requires i < |entries|
    ensures var e, rest := entries[i], entries[i + 1..];
            if path == DATA && IsLiveDb(e.name) then Archived(path, entries[i..]) == Archived(path, rest)
            else match e.node
                 case File(c) => Archived(path, entries[i..]) == multiset{Item(path + [e.name], c)} + Archived(path, rest)
                 case Dir(below) =>
                   Archived(path, entries[i..]) == Archived(path + [e.name], below) + Archived(path, rest)
    ensures Dirs(entries[i..]) == (match entries[i].node case File(_) => 0 case Dir(below) => Dirs(below))
                                  + Dirs(entries[i + 1..])
  {
    assert entries[i..][0] == entries[i] && entries[i..][1..] == entries[i + 1..];
  }

  class Builder {
    var items: seq<Item>

    constructor ()
      ensures items == []
    {
      items := [];
    }

    method AppendPathWithName(path: Path, content: bytes)
      modifies this
      ensures items == old(items) + [Item(path, content)]
    {
      items := items + [Item(path, content)];
    }

    /** Walks one directory: its files go into the archive, its directories onto the worklist. */
    method AppendDir(dir: Pending, waiting: seq<Pending>) returns (stack: seq<Pending>)
      modifies this
      ensures |items| >= |old(items)| && items[..|old(items)|] == old(items)
      ensures multiset(items[|old(items)|..]) + Waiting(stack) == Waiting(waiting) + Archived(dir.path, dir.entries)
      ensures WaitingDirs(stack) < WaitingDirs(waiting) + Dirs(dir.entries)
    {
      hide *;
      Nothing();
      ghost var start := |items|;
      stack := waiting;
      assert items[start..] == [] && dir.entries[0..] == dir.entries;
      for i := 0 to |dir.entries|
        invariant |items| >= start && items[..start] == old(items)
        invariant multiset(items[start..]) + Waiting(stack) + Archived(dir.path, dir.entries[i..])
                  == Waiting(waiting) + Archived(dir.path, dir.entries)
        invariant WaitingDirs(stack) + Dirs(dir.entries[i..]) <= WaitingDirs(waiting) + Dirs(dir.entries)
      {
        NextEntry(dir.path, dir.entries, i);
        var entry := dir.entries[i];
        if dir.path == DATA && IsLiveDb(entry.name) {
          continue;
        }
        var path := dir.path + [entry.name];
        match entry.node {
          case Dir(below) =>
            PushedPending(stack, Pending(path, below));
            stack := stack + [Pending(path, below)];
          case File(content) =>
            ghost var before := items;
            AppendPathWithName(path, content);
            assert items[start..] == before[start..] + [Item(path, content)];
        }
      }
      assert dir.entries[|dir.entries|..] == [];
    }

    /** Archives each file of the tree exactly once, in the order of the walk. */
    method AppendDataDir(root: seq<Entry>)
      modifies this
      ensures |items| >= |old(items)| && items[..|old(items)|] == old(items)
      ensures multiset(items[|old(items)|..]) == Archived(DATA, root)
    {
      hide *;
      var stack := [Pending(DATA, root)];
      PushedPending([], Pending(DATA, root));
      Nothing();
      ghost var start := |items|;
      assert items[start..] == [] && [] + [Pending(DATA, root)] == stack;
      while stack != []
        invariant |items| >= start && items[..start] == old(items)
        invariant multiset(items[start..]) + Waiting(stack) == Archived(DATA, root)
        decreases WaitingDirs(stack)
      {
        var dir := stack[|stack| - 1];
        PushedPending(stack[..|stack| - 1], dir);
        assert stack[..|stack| - 1] + [dir] == stack;
        ghost var before := items;
        stack := AppendDir(dir, stack[..|stack| - 1]);
        assert items[start..] == before[start..] + items[|before|..];
        assert items[..start] == before[..start];
      }
    }
  }

  lemma Nothing()
    ensures Waiting([]) == multiset{} && WaitingDirs([]) == 0
    ensures forall path :: Archived(path, []) == multiset{}
    ensures Dirs([]) == 1
  {
  }

  /** The archive of a dump: the database snapshot, then the data directory. */
  method Dump(snapshot: bytes, root: seq<Entry>) returns (items: seq<Item>)
    ensures IsDump(items, snapshot, root)
  {
    var builder := new Builder();
    builder.AppendPathWithName([DB_BASENAME], snapshot);
    builder.AppendDataDir(root);
    items := builder.items;
    assert items[..1] == [Item([DB_BASENAME], snapshot)] && items[0] == items[..1][0];
  }

  ghost predicate IsDump(items: seq<Item>, snapshot: bytes, root: seq<Entry>) {
    && items != [] && items[0] == Item(["edda.db"], snapshot)
    && multiset(items[1..]) == Archived(["data"], root)
  }

  // --------------------------------------------------------- what a footprint counts

  /** The files below a directory, in the order of the listings. */
  function FilesBelow(path: Path, entries: seq<Entry>): seq<Item>
    decreases entries
  {
    if entries == [] then []
    else
      (match entries[0].node
       case File(content) => [Item(path + [entries[0].name], content)]
       case Dir(below) => FilesBelow(path + [entries[0].name], below))
      + FilesBelow(path, entries[1..])
  }

  function TotalBytes(items: seq<Item>): nat {
    if items == [] then 0 else |items[0].content| + TotalBytes(items[1..])
  }

  lemma {:induction false} TotalOfBoth(a: seq<Item>, b: seq<Item>)
    ensures TotalBytes(a + b) == TotalBytes(a) + TotalBytes(b)
  {
    if a == [] {
      assert a + b == b;
    } else {
      assert (a + b)[1..] == a[1..] + b;
      TotalOfBoth(a[1..], b);
    }
  }

  /** A footprint is the number of the files and the sum of their lengths. */
  lemma {:induction false} FootprintIsThatOfTheFiles(path: Path, entries: seq<Entry>)
    ensures Files(entries) == |FilesBelow(path, entries)|
    ensures Bytes(entries) == TotalBytes(FilesBelow(path, entries))
    decreases entries
  {
    if entries != [] {
      var e := entries[0];
      FootprintIsThatOfTheFiles(path, entries[1..]);
      match e.node
      case File(content) =>
        var one := [Item(path + [e.name], content)];
        assert one[1..] == [];
        TotalOfBoth(one, FilesBelow(path, entries[1..]));
      case Dir(below) =>
        FootprintIsThatOfTheFiles(path + [e.name], below);
        TotalOfBoth(FilesBelow(path + [e.name], below), FilesBelow(path, entries[1..]));
    }
  }

  lemma {:induction false} FilesAreArchived(path: Path, entries: seq<Entry>)
    requires |path| >= 1 && path != DATA
    ensures multiset(FilesBelow(path, entries)) == Archived(path, entries)
    decreases entries
  {
    if entries != [] {
      FilesAreArchived(path, entries[1..]);
      if entries[0].node.Dir? { FilesAreArchived(path + [entries[0].name], entries[0].node.entries); }
      hide IsLiveDb;
    }
  }

  // ------------------------------------------------- what is archived, independently

  /** The component that climbs to the parent directory. */
  const PARENT := ".."

  /** No directory lists two entries of one name, or its own parent. */
  ghost predicate UniqueNames(entries: seq<Entry>) {
    entries == [] ||
    (&& (forall e :: e in entries[1..] ==> e.name != entries[0].name)
     && entries[0].name != PARENT
     && (entries[0].node.Dir? ==> UniqueNames(entries[0].node.entries))
     && UniqueNames(entries[1..]))
  }

  /** The content of the file at a path, following names down the tree. */
  function FileAt(entries: seq<Entry>, p: Path): Option<bytes> {
    if entries == [] || p == [] then None
    else if entries[0].name != p[0] then FileAt(entries[1..], p)
    else
      match entries[0].node
      case File(content) => if |p| == 1 then Some(content) else None
      case Dir(below) => FileAt(below, p[1..])
  }

  lemma {:induction false} AbsentName(entries: seq<Entry>, p: Path)
    requires p != [] && forall e :: e in entries ==> e.name != p[0]
    ensures FileAt(entries, p) == None
  {
    if entries != [] { AbsentName(entries[1..], p); }
  }

  /** How often the walk of a directory archives `path + p` with this content. */
  ghost function Times(path: Path, entries: seq<Entry>, p: Path, content: bytes): nat {
    if p != [] && !(path == ["data"] && NamedLikeDb(p[0])) && FileAt(entries, p) == Some(content) then 1 else 0
  }

  /** `edda.db` itself, or its name with a dash and anything behind it. */
  ghost predicate NamedLikeDb(name: string) {
    name == "edda.db" || "edda.db-" <= name
  }

  lemma LiveDbNames(name: string)
    ensures IsLiveDb(name) <==> NamedLikeDb(name)
  {
    assert "edda.db" + "-" == "edda.db-";
  }

  lemma {:induction false} NotArchived(path: Path, entries: seq<Entry>, item: Item)
    requires !(path < item.path)
    ensures Archived(path, entries)[item] == 0
    decreases entries
  {
    if entries != [] {
      var e, rest := entries[0], entries[1..];
      NotArchived(path, rest, item);
      if e.node.Dir? {
        NotArchived(path + [e.name], e.node.entries, item);
      }
    }
  }

  lemma OneFile(path: Path, name: string, c: bytes, p: Path, content: bytes)
    ensures multiset{Item(path + [name], c)}[Item(path + p, content)] == if p == [name] && c == content then 1 else 0
  {
    assert (path + p)[|path|..] == p && (path + [name])[|path|..] == [name];
  }

  /** What the first entry of a directory adds to the archive. */
  function ArchivedFirst(path: Path, e: Entry): multiset<Item> {
    if path == DATA && IsLiveDb(e.name) then multiset{}
    else
      match e.node
      case File(content) => multiset{Item(path + [e.name], content)}
      case Dir(below) => Archived(path + [e.name], below)
  }

  lemma FirstExactlyOnce(path: Path, e: Entry, p: Path, content: bytes)
    requires path != [] && (e.node.Dir? ==> UniqueNames(e.node.entries))
    ensures ArchivedFirst(path, e)[Item(path + p, content)] == Times(path, [e], p, content)
    decreases e, 1
  {
    LiveDbNames(e.name);
    hide Archived, IsLiveDb, NamedLikeDb;
    if p == [] || p[0] != e.name {
      if p != [] { AbsentName([e], p); }
      NotBelowOther(path, e, p, content);
    } else {
      assert p == [e.name] + p[1..];
      match e.node
      case File(c) => OneFile(path, e.name, c, p, content);
      case Dir(below) =>
        ArchivedExactlyOnce(path + [e.name], below, p[1..], content);
        assert path + p == path + [e.name] + p[1..];
        if p[1..] == [] { assert FileAt(below, p[1..]) == None; }
    }
  }

  lemma NotBelowOther(path: Path, e: Entry, p: Path, content: bytes)
    requires p == [] || p[0] != e.name
    ensures ArchivedFirst(path, e)[Item(path + p, content)] == 0
  {
    hide Archived;
    match e.node
    case File(c) => OneFile(path, e.name, c, p, content);
    case Dir(below) =>
      var item := Item(path + p, content);
      assert p != [] ==> item.path[|path|] == p[0];
      NotArchived(path + [e.name], below, item);
  }

  /**
   The walk archives every file of the tree exactly once, except the live database
   at the top, and nothing else.
   */
  lemma {:induction false} ArchivedExactlyOnce(path: Path, entries: seq<Entry>, p: Path, content: bytes)
    requires UniqueNames(entries) && path != []
    ensures Archived(path, entries)[Item(path + p, content)] == Times(path, entries, p, content)
    decreases entries, 0
  {
    if entries != [] {
      var e, rest, item := entries[0], entries[1..], Item(path + p, content);
      ArchivedExactlyOnce(path, rest, p, content);
      FirstExactlyOnce(path, e, p, content);
      assert Archived(path, entries) == ArchivedFirst(path, e) + Archived(path, rest);
      FirstOrRest(entries, p);
      hide Archived, ArchivedFirst, FileAt, IsLiveDb, UniqueNames;
    }
  }

  /** The files a footprint counts are those of the tree, each once. */
  lemma FootprintCountsEachFileOnce(entries: seq<Entry>, p: Path, content: bytes)
    requires UniqueNames(entries)
    ensures multiset(FilesBelow(["home"], entries))[Item(["home"] + p, content)]
            == if p != [] && FileAt(entries, p) == Some(content) then 1 else 0
  {
    assert |DATA[0]| == 4 && "home"[0] != "data"[0];
    FilesAreArchived(["home"], entries);
    ArchivedExactlyOnce(["home"], entries, p, content);
    hide *;
  }

  /**
   Of the data directory a dump holds the file at `p` exactly once, and no other content
   under that name; but of `edda.db` and whatever has a name beginning with `edda.db-`
   directly in the data directory it holds nothing.
   */
  lemma DumpHoldsTheTree(items: seq<Item>, snapshot: bytes, root: seq<Entry>, p: Path, content: bytes)
    requires UniqueNames(root) && IsDump(items, snapshot, root) && p != []
    ensures multiset(items)[Item(["data"] + p, content)]
            == if p[0] == "edda.db" || "edda.db-" <= p[0] then 0
               else if FileAt(root, p) == Some(content) then 1 else 0
    ensures multiset(items)[Item(["edda.db"], snapshot)] == 1
    ensures forall item :: item in items ==> item == Item(["edda.db"], snapshot) || ["data"] < item.path
  {
    ArchivedExactlyOnce(["data"], root, p, content);
    assert items == [items[0]] + items[1..];
    forall item | item in items[1..] ensures ["data"] < item.path {
      assert item in multiset(items[1..]);
      OnlyBelow(["data"], root, item);
    }
    var file := Item(["data"] + p, content);
    assert file.path[0] == "data" && |"data"| == 4 && |"edda.db"| == 7;
    hide *;
    assert items[0] == Item(["edda.db"], snapshot) && multiset(items) == multiset{items[0]} + multiset(items[1..]);
    assert items[0] !in items[1..];
  }

  lemma OnlyBelow(path: Path, entries: seq<Entry>, item: Item)
    requires item in Archived(path, entries)
    ensures path < item.path
  {
    if !(path < item.path) { NotArchived(path, entries, item); }
  }

  lemma FirstOrRest(entries: seq<Entry>, p: Path)
    requires entries != [] && forall e :: e in entries[1..] ==> e.name != entries[0].name
    ensures FileAt(entries, p) == if FileAt([entries[0]], p).Some? then FileAt([entries[0]], p) else FileAt(entries[1..], p)
    ensures FileAt([entries[0]], p).None? || FileAt(entries[1..], p).None?
  {
    if p != [] && entries[0].name == p[0] {
      AbsentName(entries[1..], p);
    }
    assert [entries[0]][1..] == [];
  }

  /** No file lies below another. */
  lemma {:induction false} FilesAreNotNested(entries: seq<Entry>, p: Path, q: Path)
    requires FileAt(entries, p).Some? && FileAt(entries, q).Some? && p <= q
    ensures p == q
    decreases entries, |p|
  {
    if entries[0].name != p[0] {
      FilesAreNotNested(entries[1..], p, q);
    } else if entries[0].node.Dir? {
      FilesAreNotNested(entries[0].node.entries, p[1..], q[1..]);
    }
  }

  /** No component climbs. */
  predicate Plain(p: Path) {
    PARENT !in p
  }

  lemma {:induction false} FilePathsArePlain(entries: seq<Entry>, p: Path)
    requires UniqueNames(entries) && FileAt(entries, p).Some?
    ensures Plain(p)
    decreases entries, |p|
  {
    if entries[0].name != p[0] {
      FilePathsArePlain(entries[1..], p);
    } else if entries[0].node.Dir? {
      FilePathsArePlain(entries[0].node.entries, p[1..]);
    }
  }
}
