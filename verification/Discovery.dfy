/** The explicit-stack directory walk, over a tree that does not change and gives no errors. */
module Discovery {
  import opened Wrappers

  type Path = seq<string>

  datatype Node =
    | File(name: string, size: nat, metadata: string)
    | Symlink(name: string)
    | Special(name: string, metadata: string)
    | Directory(name: string, device: nat, metadata: string, entries: seq<Node>)

  datatype DiscoveryItem =
    | FoundFile(path: Path, size: nat)
    | FoundSymlink(path: Path)
    | FoundSpecial(path: Path)
    | Excluded(path: Path)
    | FilesystemBoundary(path: Path)

  /** What is hashed into the namespace fingerprint. */
  datatype NamespaceRecord = NamespaceRecord(kind: string, path: Path, metadata: Option<string>)

  datatype WalkConfig = WalkConfig(root: Path, rootDevice: nat, exclusions: seq<Path>)
  {
    /** `is_excluded`: ledger and repository metadata anywhere, or below an exclusion. */
    predicate IsExcluded(path: Path) {
      || (exists i :: 0 <= i < |root + path| && (root + path)[i] in {".git", ".archive-ledger"})
      || (exists i :: 0 <= i < |exclusions| && exclusions[i] <= path)
    }
  }

  // ----- the recursive walk -----

  /** What one entry yields before anything below it: an item, or a directory to descend into. */
  function EntryItem(cfg: WalkConfig, path: Path, node: Node): Option<DiscoveryItem> {
    if cfg.IsExcluded(path) then Some(Excluded(path))
    else
      match node
      case Symlink(_) => Some(FoundSymlink(path))
      case Directory(_, device, _, _) => if device != cfg.rootDevice then Some(FilesystemBoundary(path)) else None
      case File(_, size, _) => Some(FoundFile(path, size))
      case Special(_, _) => Some(FoundSpecial(path))
  }

  function EntryRecord(cfg: WalkConfig, path: Path, node: Node): NamespaceRecord {
    if cfg.IsExcluded(path) then NamespaceRecord("excluded", path, None)
    else
      match node
      case Symlink(_) => NamespaceRecord("symlink", path, None)
      case Directory(_, device, metadata, _) =>
        NamespaceRecord(if device != cfg.rootDevice then "filesystem_boundary" else "directory", path, Some(metadata))
      case File(_, _, metadata) => NamespaceRecord("file", path, Some(metadata))
      case Special(_, metadata) => NamespaceRecord("special", path, Some(metadata))
  }

  predicate Descends(cfg: WalkConfig, path: Path, node: Node) { EntryItem(cfg, path, node).None? }

  function Walk(cfg: WalkConfig, at: Path, entries: seq<Node>): seq<DiscoveryItem>
    decreases entries
  {
    if |entries| == 0 then []
    else
      var node := entries[0];
      var path := at + [node.name];
      (if EntryItem(cfg, path, node).Some? then [EntryItem(cfg, path, node).value]
       else if node.Directory? then Walk(cfg, path, node.entries) else [])
      + Walk(cfg, at, entries[1..])
  }

  function WalkRecords(cfg: WalkConfig, at: Path, entries: seq<Node>): seq<NamespaceRecord>
    decreases entries
  {
    if |entries| == 0 then []
    else
      var node := entries[0];
      var path := at + [node.name];
      [EntryRecord(cfg, path, node)]
      + (if node.Directory? && Descends(cfg, path, node) then WalkRecords(cfg, path, node.entries) else [])
      + WalkRecords(cfg, at, entries[1..])
  }

  function Depth(entries: seq<Node>): nat
    decreases entries
  {
    if |entries| == 0 then 0
    else
      var here := if entries[0].Directory? then 1 + Depth(entries[0].entries) else 0;
      var rest := Depth(entries[1..]);
      if here >= rest then here else rest
  }

  function Size(entries: seq<Node>): nat
    decreases entries
  {
    if |entries| == 0 then 0
    else 2 + (if entries[0].Directory? then Size(entries[0].entries) else 0) + Size(entries[1..])
  }

  // ----- the fingerprint -----

  /** A digest is the set of its one bits. */
  type Digest = set<nat>

  function Xor(a: Digest, b: Digest): Digest { (a - b) + (b - a) }

  function XorAll(records: seq<NamespaceRecord>, hash: NamespaceRecord -> Digest): Digest {
    if |records| == 0 then {} else Xor(XorAll(records[..|records| - 1], hash), hash(records[|records| - 1]))
  }

  lemma XorLaws(a: Digest, b: Digest, c: Digest)
    ensures Xor(a, b) == Xor(b, a) && Xor(Xor(a, b), c) == Xor(a, Xor(b, c)) && Xor(a, {}) == a
  {
  }

  lemma {:induction false} XorConcat(a: seq<NamespaceRecord>, b: seq<NamespaceRecord>, hash: NamespaceRecord -> Digest)
    ensures XorAll(a + b, hash) == Xor(XorAll(a, hash), XorAll(b, hash))
    decreases |b|
  {
    hide Xor;
    if |b| == 0 {
      assert a + b == a;
      XorLaws(XorAll(a, hash), {}, {});
    } else {
      var init, last := b[..|b| - 1], b[|b| - 1];
      assert (a + b)[..|a + b| - 1] == a + init;
      XorConcat(a, init, hash);
      XorLaws(XorAll(a, hash), XorAll(init, hash), hash(last));
    }
  }

  /** Where a record stands does not matter. */
  lemma XorMoved(left: seq<NamespaceRecord>, x: NamespaceRecord, right: seq<NamespaceRecord>, hash: NamespaceRecord -> Digest)
    ensures XorAll(left + [x] + right, hash) == Xor(XorAll(left + right, hash), hash(x))
  {
    hide Xor, XorAll;
    XorConcat(left, right, hash);
    XorConcat(left, [x], hash);
    XorConcat(left + [x], right, hash);
    OneDigest(x, hash);
    XorLaws(XorAll(left, hash), XorAll(right, hash), hash(x));
    XorLaws(XorAll(left, hash), hash(x), XorAll(right, hash));
    XorLaws(XorAll(right, hash), hash(x), {});
  }

  lemma SplitAt(init: seq<NamespaceRecord>, last: NamespaceRecord, b: seq<NamespaceRecord>)
    returns (left: seq<NamespaceRecord>, right: seq<NamespaceRecord>)
    requires multiset(init + [last]) == multiset(b)
    ensures b == left + [last] + right && multiset(init) == multiset(left + right)
  {
    assert multiset(init + [last]) == multiset(init) + multiset{last};
    assert last in multiset(b);
    var i :| 0 <= i < |b| && b[i] == last;
    left, right := b[..i], b[i + 1..];
    assert b == left + [last] + right;
    assert multiset(left + right) == multiset(left) + multiset(right);
    calc {
      multiset(init) + multiset{last};
      multiset(b);
      multiset(left) + multiset{last} + multiset(right);
      multiset(left + right) + multiset{last};
    }
    assert multiset(init) == multiset(init) + multiset{last} - multiset{last};
  }

  /** The combined digest depends only on which records there are, not on their order. */
  lemma {:induction false} XorOrderless(a: seq<NamespaceRecord>, b: seq<NamespaceRecord>, hash: NamespaceRecord -> Digest)
    requires multiset(a) == multiset(b)
    ensures XorAll(a, hash) == XorAll(b, hash) && |a| == |b|
    decreases |a|
  {
    hide Xor;
    assert |a| == |multiset(a)| == |multiset(b)| == |b|;
    if |a| > 0 {
      var init, last := a[..|a| - 1], a[|a| - 1];
      assert a == init + [last];
      var left, right := SplitAt(init, last, b);
      XorOrderless(init, left + right, hash);
      XorMoved(left, last, right, hash);
    }
  }

  lemma OneDigest(r: NamespaceRecord, hash: NamespaceRecord -> Digest)
    ensures XorAll([r], hash) == hash(r)
  {
    assert [r][..0] == [];
  }

  // ----- the same tree, enumerated in another order -----

  predicate SameNode(a: Node, b: Node)
    decreases a, 1
  {
    if a.Directory? && b.Directory? then
      a.name == b.name && a.device == b.device && a.metadata == b.metadata && Shuffled(a.entries, b.entries)
    else a == b
  }

  /** `b` lists the entries of `a` in some order, and so does every directory below. */
  predicate Shuffled(a: seq<Node>, b: seq<Node>)
    decreases a, 0
  {
    if |a| == 0 then |b| == 0
    else exists j :: 0 <= j < |b| && SameNode(a[0], b[j]) && Shuffled(a[1..], b[..j] + b[j + 1..])
  }

  function EntryRecords(cfg: WalkConfig, at: Path, node: Node): seq<NamespaceRecord> {
    var path := at + [node.name];
    [EntryRecord(cfg, path, node)]
    + (if node.Directory? && Descends(cfg, path, node) then WalkRecords(cfg, path, node.entries) else [])
  }

  function EntryItems(cfg: WalkConfig, at: Path, node: Node): seq<DiscoveryItem> {
    var path := at + [node.name];
    if EntryItem(cfg, path, node).Some? then [EntryItem(cfg, path, node).value]
    else if node.Directory? then Walk(cfg, path, node.entries) else []
  }

  lemma WalkHead(cfg: WalkConfig, at: Path, entries: seq<Node>)
    requires |entries| > 0
    ensures Walk(cfg, at, entries) == EntryItems(cfg, at, entries[0]) + Walk(cfg, at, entries[1..])
    ensures WalkRecords(cfg, at, entries) == EntryRecords(cfg, at, entries[0]) + WalkRecords(cfg, at, entries[1..])
  {
    hide EntryItem, EntryRecord;
  }

  /** Taking one entry out of the middle. */
  lemma {:induction false} WalkWithout(cfg: WalkConfig, at: Path, entries: seq<Node>, j: nat)
    requires j < |entries|
    ensures var rest := entries[..j] + entries[j + 1..];
            && multiset(Walk(cfg, at, entries)) == multiset(EntryItems(cfg, at, entries[j])) + multiset(Walk(cfg, at, rest))
            && multiset(WalkRecords(cfg, at, entries)) ==
               multiset(EntryRecords(cfg, at, entries[j])) + multiset(WalkRecords(cfg, at, rest))
    decreases j
  {
    hide Walk, WalkRecords, EntryItems, EntryRecords;
    var rest := entries[..j] + entries[j + 1..];
    WalkHead(cfg, at, entries);
    if j == 0 {
      assert rest == entries[1..];
    } else {
      WalkWithout(cfg, at, entries[1..], j - 1);
      WalkHead(cfg, at, rest);
      assert rest[0] == entries[0] && rest[1..] == entries[1..][..j - 1] + entries[1..][j..];
    }
  }

  /** Enumeration order, at every level, changes neither the items nor the records. */
  lemma {:induction false} WalkShuffled(cfg: WalkConfig, at: Path, a: seq<Node>, b: seq<Node>)
    requires Shuffled(a, b)
    ensures multiset(Walk(cfg, at, a)) == multiset(Walk(cfg, at, b))
    ensures multiset(WalkRecords(cfg, at, a)) == multiset(WalkRecords(cfg, at, b))
    decreases a
  {
    hide EntryItem, EntryRecord;
    if |a| > 0 {
      var j :| 0 <= j < |b| && SameNode(a[0], b[j]) && Shuffled(a[1..], b[..j] + b[j + 1..]);
      var rest := b[..j] + b[j + 1..];
      WalkShuffled(cfg, at, a[1..], rest);
      WalkWithout(cfg, at, b, j);
      var path := at + [a[0].name];
      SameEntry(cfg, path, a[0], b[j]);
      if a[0].Directory? {
        WalkShuffled(cfg, path, a[0].entries, b[j].entries);
      }
      WalkHead(cfg, at, a);
    }
  }

  lemma SameEntry(cfg: WalkConfig, path: Path, a: Node, b: Node)
    requires SameNode(a, b)
    ensures EntryItem(cfg, path, a) == EntryItem(cfg, path, b) && EntryRecord(cfg, path, a) == EntryRecord(cfg, path, b)
    ensures a.Directory? == b.Directory? && a.name == b.name
    ensures a.Directory? ==> Shuffled(a.entries, b.entries)
    ensures !a.Directory? ==> a == b
  {
    hide Shuffled, WalkConfig.IsExcluded;
  }

  /** Entry count and fingerprint are the same however the directories are enumerated. */
  lemma FingerprintOrderless(cfg: WalkConfig, a: seq<Node>, b: seq<Node>, hash: NamespaceRecord -> Digest)
    requires Shuffled(a, b)
    ensures |WalkRecords(cfg, [], a)| == |WalkRecords(cfg, [], b)|
    ensures XorAll(WalkRecords(cfg, [], a), hash) == XorAll(WalkRecords(cfg, [], b), hash)
  {
    hide WalkRecords, Shuffled, XorAll;
    WalkShuffled(cfg, [], a, b);
    XorOrderless(WalkRecords(cfg, [], a), WalkRecords(cfg, [], b), hash);
  }

  // ----- the iterator -----

  datatype DirectoryFrame = DirectoryFrame(path: Path, entries: seq<Node>)

  datatype DiscoveryStats = DiscoveryStats(
    directoriesOpened: nat, maxOpenDirectories: nat, regularFiles: nat, symlinks: nat, specialFiles: nat,
    excludedSubtrees: nat, filesystemBoundaries: nat)

  /** What the frames still have to yield, the innermost first. */
  function Pending(cfg: WalkConfig, stack: seq<DirectoryFrame>): seq<DiscoveryItem> {
    if |stack| == 0 then []
    else Walk(cfg, stack[|stack| - 1].path, stack[|stack| - 1].entries) + Pending(cfg, stack[..|stack| - 1])
  }

  function PendingRecords(cfg: WalkConfig, stack: seq<DirectoryFrame>): seq<NamespaceRecord> {
    if |stack| == 0 then []
    else WalkRecords(cfg, stack[|stack| - 1].path, stack[|stack| - 1].entries) + PendingRecords(cfg, stack[..|stack| - 1])
  }

  function Work(stack: seq<DirectoryFrame>): nat {
    if |stack| == 0 then 0 else 1 + Size(stack[|stack| - 1].entries) + Work(stack[..|stack| - 1])
  }

  /** Frames are nested no deeper than the tree. */
  predicate Nested(stack: seq<DirectoryFrame>, depth: nat) {
    forall i :: 0 <= i < |stack| ==> i + Depth(stack[i].entries) <= depth
  }

  function Counted(s: DiscoveryStats, item: DiscoveryItem): DiscoveryStats {
    match item
    case FoundFile(_, _) => s.(regularFiles := s.regularFiles + 1)
    case FoundSymlink(_) => s.(symlinks := s.symlinks + 1)
    case FoundSpecial(_) => s.(specialFiles := s.specialFiles + 1)
    case Excluded(_) => s.(excludedSubtrees := s.excludedSubtrees + 1)
    case FilesystemBoundary(_) => s.(filesystemBoundaries := s.filesystemBoundaries + 1)
  }

  /** The counters after these items. */
  function StatsOf(items: seq<DiscoveryItem>): DiscoveryStats {
    if |items| == 0 then DiscoveryStats(0, 0, 0, 0, 0, 0, 0) else Counted(StatsOf(items[..|items| - 1]), items[|items| - 1])
  }

  lemma StatsSnoc(items: seq<DiscoveryItem>, item: DiscoveryItem)
    ensures StatsOf(items + [item]) == Counted(StatsOf(items), item)
  {
    assert (items + [item])[..|items|] == items;
  }

  lemma CountsTrans(a: DiscoveryStats, b: DiscoveryStats, items: seq<DiscoveryItem>, item: DiscoveryItem)
    requires SameCounts(a, StatsOf(items)) && SameCounts(b, Counted(a, item))
    ensures SameCounts(b, StatsOf(items + [item]))
  {
    StatsSnoc(items, item);
  }

  /** Same counters apart from those about open directories. */
  predicate SameCounts(a: DiscoveryStats, b: DiscoveryStats) {
    a.(directoriesOpened := b.directoriesOpened, maxOpenDirectories := b.maxOpenDirectories) == b
  }

  /** Replacing the innermost frame. */
  lemma SwapFrame(cfg: WalkConfig, stack: seq<DirectoryFrame>, top: DirectoryFrame)
    requires |stack| > 0
    ensures var rest := stack[|stack| - 1 := top]; var outer := stack[..|stack| - 1];
            && Pending(cfg, rest) == Walk(cfg, top.path, top.entries) + Pending(cfg, outer)
            && PendingRecords(cfg, rest) == WalkRecords(cfg, top.path, top.entries) + PendingRecords(cfg, outer)
            && Work(rest) == 1 + Size(top.entries) + Work(outer)
  {
    hide Walk, WalkRecords, Size;
    assert stack[|stack| - 1 := top][..|stack| - 1] == stack[..|stack| - 1];
  }

  lemma PushFrame(cfg: WalkConfig, stack: seq<DirectoryFrame>, top: DirectoryFrame)
    ensures Pending(cfg, stack + [top]) == Walk(cfg, top.path, top.entries) + Pending(cfg, stack)
    ensures PendingRecords(cfg, stack + [top]) == WalkRecords(cfg, top.path, top.entries) + PendingRecords(cfg, stack)
    ensures Work(stack + [top]) == 1 + Size(top.entries) + Work(stack)
  {
    hide Walk, WalkRecords, Size;
    assert (stack + [top])[..|stack|] == stack;
  }

  lemma TakeEntry(cfg: WalkConfig, stack: seq<DirectoryFrame>, depth: nat)
    requires |stack| > 0 && |stack[|stack| - 1].entries| > 0 && Nested(stack, depth)
    ensures var frame := stack[|stack| - 1]; var node := frame.entries[0]; var path := frame.path + [node.name];
            var rest := stack[|stack| - 1 := DirectoryFrame(frame.path, frame.entries[1..])];
            && (!Descends(cfg, path, node) ==>
                  && Pending(cfg, stack) == [EntryItem(cfg, path, node).value] + Pending(cfg, rest)
                  && PendingRecords(cfg, stack) == [EntryRecord(cfg, path, node)] + PendingRecords(cfg, rest))
            && (Descends(cfg, path, node) && node.Directory? ==>
                  var deeper := rest + [DirectoryFrame(path, node.entries)];
                  && Pending(cfg, stack) == Pending(cfg, deeper)
                  && PendingRecords(cfg, stack) == [EntryRecord(cfg, path, node)] + PendingRecords(cfg, deeper)
                  && Nested(deeper, depth) && Work(deeper) < Work(stack) && |deeper| <= depth + 1)
            && Nested(rest, depth) && Work(rest) < Work(stack)
  {
    hide EntryItem, EntryRecord, Pending, PendingRecords, Work, Walk, WalkRecords;
    var n := |stack| - 1;
    var frame := stack[n];
    var node, path := frame.entries[0], frame.path + [frame.entries[0].name];
    var shorter := DirectoryFrame(frame.path, frame.entries[1..]);
    var rest := stack[n := shorter];
    assert stack == stack[n := frame];
    SwapFrame(cfg, stack, frame);
    SwapFrame(cfg, stack, shorter);
    WalkHead(cfg, frame.path, frame.entries);
    assert n + Depth(stack[n].entries) <= depth;
    if Descends(cfg, path, node) && node.Directory? {
      PushFrame(cfg, rest, DirectoryFrame(path, node.entries));
    }
  }

  lemma PopFrame(cfg: WalkConfig, stack: seq<DirectoryFrame>, depth: nat)
    requires |stack| > 0 && |stack[|stack| - 1].entries| == 0 && Nested(stack, depth)
    ensures var rest := stack[..|stack| - 1];
            && Pending(cfg, stack) == Pending(cfg, rest) && PendingRecords(cfg, stack) == PendingRecords(cfg, rest)
            && Nested(rest, depth) && Work(rest) < Work(stack)
  {
    hide EntryItem, EntryRecord;
    assert [] + Pending(cfg, stack[..|stack| - 1]) == Pending(cfg, stack[..|stack| - 1]);
    assert [] + PendingRecords(cfg, stack[..|stack| - 1]) == PendingRecords(cfg, stack[..|stack| - 1]);
  }

  class FileDiscovery {
    const cfg: WalkConfig
    const hash: NamespaceRecord -> Digest
    ghost const depth: nat
    var stack: seq<DirectoryFrame>
    var stats: DiscoveryStats
    var namespaceEntries: nat
    var namespaceXor: Digest
    ghost var recorded: seq<NamespaceRecord>

    constructor (cfg: WalkConfig, hash: NamespaceRecord -> Digest, entries: seq<Node>)
      ensures this.cfg == cfg && this.hash == hash && this.depth == Depth(entries) && Valid() && recorded == []
      ensures SameCounts(stats, DiscoveryStats(0, 0, 0, 0, 0, 0, 0))
      ensures Pending(cfg, stack) == Walk(cfg, [], entries) && PendingRecords(cfg, stack) == WalkRecords(cfg, [], entries)
    {
      this.cfg, this.hash, this.depth := cfg, hash, Depth(entries);
      stack := [DirectoryFrame([], entries)];
      stats := DiscoveryStats(1, 1, 0, 0, 0, 0, 0);
      namespaceEntries, namespaceXor, recorded := 0, {}, [];
      new;
      hide EntryItem, EntryRecord;
      assert stack[..0] == [];
      assert Walk(cfg, [], entries) + [] == Walk(cfg, [], entries);
      assert WalkRecords(cfg, [], entries) + [] == WalkRecords(cfg, [], entries);
    }

    ghost predicate Valid()
      reads this
    {
      && namespaceEntries == |recorded| && namespaceXor == XorAll(recorded, hash)
      && Nested(stack, depth) && |stack| <= depth + 1 && stats.maxOpenDirectories <= depth + 1
    }

    /** `record_namespace`. */
    method RecordNamespace(r: NamespaceRecord)
      modifies this`namespaceEntries, this`namespaceXor, this`recorded
      ensures recorded == old(recorded) + [r] && namespaceEntries == old(namespaceEntries) + 1
      ensures old(namespaceXor) == XorAll(old(recorded), hash) ==> namespaceXor == XorAll(recorded, hash)
    {
      assert (recorded + [r])[..|recorded|] == recorded;
      namespaceXor := Xor(namespaceXor, hash(r));
      namespaceEntries := namespaceEntries + 1;
      recorded := recorded + [r];
    }

    /** `Iterator::next`: the next item of the recursive walk. */
    method Next() returns (item: Option<DiscoveryItem>)
      requires Valid()
      modifies this
      ensures Valid()
      ensures item.Some? ==> old(Pending(cfg, stack)) == [item.value] + Pending(cfg, stack)
      ensures item.None? ==> old(Pending(cfg, stack)) == [] && |stack| == 0
      ensures recorded + PendingRecords(cfg, stack) == old(recorded) + old(PendingRecords(cfg, stack))
      ensures item.Some? ==> SameCounts(stats, Counted(old(stats), item.value)) && Work(stack) < old(Work(stack))
      ensures item.None? ==> SameCounts(stats, old(stats)) && Work(stack) <= old(Work(stack))
    {
      hide Walk, WalkRecords, Pending, PendingRecords, XorAll, Work, Nested, WalkConfig.IsExcluded;
      ghost var items0, records0 := Pending(cfg, stack), recorded + PendingRecords(cfg, stack);
      while |stack| > 0
        invariant Valid() && Pending(cfg, stack) == items0 && recorded + PendingRecords(cfg, stack) == records0
        invariant SameCounts(stats, old(stats)) && Work(stack) <= old(Work(stack))
        decreases Work(stack)
      {
        var frame := stack[|stack| - 1];
        if |frame.entries| == 0 {
          PopFrame(cfg, stack, depth);
          stack := stack[..|stack| - 1];
          continue;
        }
        TakeEntry(cfg, stack, depth);
        ghost var before := stack;
        var node := frame.entries[0];
        var path := frame.path + [node.name];
        stack := stack[|stack| - 1 := DirectoryFrame(frame.path, frame.entries[1..])];
        assert records0 == recorded + PendingRecords(cfg, before);
        OneMore(recorded, EntryRecord(cfg, path, node), PendingRecords(cfg, before)[1..]);
        if cfg.IsExcluded(path) {
          stats := stats.(excludedSubtrees := stats.excludedSubtrees + 1);
          RecordNamespace(NamespaceRecord("excluded", path, None));
          return Some(Excluded(path));
        }
        match node {
          case Symlink(_) =>
            stats := stats.(symlinks := stats.symlinks + 1);
            RecordNamespace(NamespaceRecord("symlink", path, None));
            return Some(FoundSymlink(path));
          case Directory(_, device, metadata, entries) =>
            if device != cfg.rootDevice {
              stats := stats.(filesystemBoundaries := stats.filesystemBoundaries + 1);
              RecordNamespace(NamespaceRecord("filesystem_boundary", path, Some(metadata)));
              return Some(FilesystemBoundary(path));
            }
            RecordNamespace(NamespaceRecord("directory", path, Some(metadata)));
            stack := stack + [DirectoryFrame(path, entries)];
            stats := stats.(directoriesOpened := stats.directoriesOpened + 1,
                            maxOpenDirectories := if stats.maxOpenDirectories >= |stack| then stats.maxOpenDirectories else |stack|);
          case File(_, size, metadata) =>
            stats := stats.(regularFiles := stats.regularFiles + 1);
            RecordNamespace(NamespaceRecord("file", path, Some(metadata)));
            return Some(FoundFile(path, size));
          case Special(_, metadata) =>
            stats := stats.(specialFiles := stats.specialFiles + 1);
            RecordNamespace(NamespaceRecord("special", path, Some(metadata)));
            return Some(FoundSpecial(path));
        }
      }
      EmptyStack(cfg);
      assert stack == [];
      return None;
    }
  }

  lemma EmptyStack(cfg: WalkConfig)
    ensures Pending(cfg, []) == [] && PendingRecords(cfg, []) == []
  {
  }

  lemma NoCounts(stats: DiscoveryStats)
    requires SameCounts(stats, DiscoveryStats(0, 0, 0, 0, 0, 0, 0))
    ensures SameCounts(stats, StatsOf([]))
  {
  }

  lemma SameTrans(a: DiscoveryStats, b: DiscoveryStats, c: DiscoveryStats)
    requires SameCounts(a, b) && SameCounts(b, c)
    ensures SameCounts(a, c)
  {
  }

  lemma OneMore(a: seq<NamespaceRecord>, r: NamespaceRecord, b: seq<NamespaceRecord>)
    ensures a + ([r] + b) == (a + [r]) + b
  {
  }

  /** Running the iterator to its end is the recursive walk: same items in the same order, same
      fingerprint, and never more directories open than the tree is deep. */
  method RunToEnd(cfg: WalkConfig, hash: NamespaceRecord -> Digest, entries: seq<Node>)
    returns (items: seq<DiscoveryItem>, count: nat, digest: Digest, stats: DiscoveryStats)
    ensures items == Walk(cfg, [], entries)
    ensures count == |WalkRecords(cfg, [], entries)| && digest == XorAll(WalkRecords(cfg, [], entries), hash)
    ensures stats.maxOpenDirectories <= Depth(entries) + 1 && SameCounts(stats, StatsOf(items))
  {
    hide Walk, WalkRecords, Pending, PendingRecords, XorAll, Work, Depth, Nested, SameCounts, Counted, StatsOf;
    var walk := new FileDiscovery(cfg, hash, entries);
    items := [];
    EmptyStack(cfg);
    NoCounts(walk.stats);
    ghost var before := walk.stats;
    var next := walk.Next();
    if next.Some? { CountsTrans(before, walk.stats, items, next.value); } else { SameTrans(walk.stats, before, StatsOf(items)); }
    assert next.None? ==> walk.stack == [];
    assert next.Some? ==> items + [next.value] + Pending(cfg, walk.stack) == [next.value] + Pending(cfg, walk.stack);
    while next.Some?
      invariant walk.Valid() && walk.cfg == cfg && walk.hash == hash && walk.depth == Depth(entries)
      invariant items + (if next.Some? then [next.value] else []) + Pending(cfg, walk.stack) == Walk(cfg, [], entries)
      invariant walk.recorded + PendingRecords(cfg, walk.stack) == WalkRecords(cfg, [], entries)
      invariant next.None? ==> |walk.stack| == 0
      invariant SameCounts(walk.stats, StatsOf(items + if next.Some? then [next.value] else []))
      decreases Work(walk.stack), if next.Some? then 1 else 0
    {
      ghost var pending := Pending(cfg, walk.stack);
      items := items + [next.value];
      before := walk.stats;
      next := walk.Next();
      assert items + [] == items;
      if next.Some? {
        CountsTrans(before, walk.stats, items, next.value);
        assert items + ([next.value] + Pending(cfg, walk.stack)) == items + [next.value] + Pending(cfg, walk.stack);
      } else {
        SameTrans(walk.stats, before, StatsOf(items));
        assert walk.stack == [];
      }
    }
    assert walk.stack == [];
    assert walk.recorded + [] == walk.recorded && items + [] + [] == items && items + [] == items;
    return items, walk.namespaceEntries, walk.namespaceXor, walk.stats;
  }
}
