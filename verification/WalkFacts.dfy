/** What a directory walk finds, said of the tree alone. */
module WalkFacts {
  import opened Wrappers
  import opened Discovery

  /** Ledger or repository metadata, wherever the root lies, or something below an excluded path. */
  ghost predicate IsHidden(cfg: WalkConfig, path: Path) {
    || ".git" in cfg.root || ".archive-ledger" in cfg.root || ".git" in path || ".archive-ledger" in path
    || exists i, n :: 0 <= i < |cfg.exclusions| && 0 <= n <= |path| && cfg.exclusions[i] == path[..n]
  }

  /** A directory of the root's own file system that is not hidden. */
  ghost predicate IsOpened(cfg: WalkConfig, path: Path, node: Node) {
    node.Directory? && node.device == cfg.rootDevice && !IsHidden(cfg, path)
  }

  /** The tree has this node at this path, below directories that are all opened. */
  ghost predicate IsReached(cfg: WalkConfig, at: Path, entries: seq<Node>, path: Path, node: Node)
    decreases entries
  {
    |entries| > 0 &&
    var here := at + [entries[0].name];
    || (path == here && node == entries[0])
    || (entries[0].Directory? && IsOpened(cfg, here, entries[0]) && IsReached(cfg, here, entries[0].entries, path, node))
    || IsReached(cfg, at, entries[1..], path, node)
  }

  /** What is reported for a node. */
  ghost predicate IsReported(cfg: WalkConfig, path: Path, node: Node, item: DiscoveryItem) {
    if IsHidden(cfg, path) then item == Excluded(path)
    else
      || (node.File? && item == FoundFile(path, node.size))
      || (node.Symlink? && item == FoundSymlink(path))
      || (node.Special? && item == FoundSpecial(path))
      || (node.Directory? && node.device != cfg.rootDevice && item == FilesystemBoundary(path))
  }

  /** What of a node enters the fingerprint. */
  ghost predicate IsRecorded(cfg: WalkConfig, path: Path, node: Node, record: NamespaceRecord) {
    record.path == path &&
    if IsHidden(cfg, path) then record.kind == "excluded" && record.metadata == None
    else
      || (node.File? && record.kind == "file" && record.metadata == Some(node.metadata))
      || (node.Symlink? && record.kind == "symlink" && record.metadata == None)
      || (node.Special? && record.kind == "special" && record.metadata == Some(node.metadata))
      || (node.Directory? && record.metadata == Some(node.metadata)
          && record.kind == if node.device == cfg.rootDevice then "directory" else "filesystem_boundary")
  }

  lemma HiddenExactly(cfg: WalkConfig, path: Path)
    ensures cfg.IsExcluded(path) <==> IsHidden(cfg, path)
  {
    var all := cfg.root + path;
    if cfg.IsExcluded(path) {
      if i :| 0 <= i < |all| && all[i] in {".git", ".archive-ledger"} {
        assert i < |cfg.root| ==> all[i] == cfg.root[i];
        assert i >= |cfg.root| ==> all[i] == path[i - |cfg.root|];
      } else {
        var i :| 0 <= i < |cfg.exclusions| && cfg.exclusions[i] <= path;
        assert cfg.exclusions[i] == path[..|cfg.exclusions[i]|];
      }
    }
    if name :| name in {".git", ".archive-ledger"} && (name in cfg.root || name in path) {
      if name in cfg.root {
        var i :| 0 <= i < |cfg.root| && cfg.root[i] == name;
        assert all[i] == name;
      } else {
        var i :| 0 <= i < |path| && path[i] == name;
        assert all[|cfg.root| + i] == name;
      }
    }
  }

  lemma EntryExactly(cfg: WalkConfig, path: Path, node: Node)
    ensures forall item :: EntryItem(cfg, path, node) == Some(item) <==> IsReported(cfg, path, node, item)
    ensures EntryItem(cfg, path, node).None? <==> IsOpened(cfg, path, node)
    ensures forall record :: EntryRecord(cfg, path, node) == record <==> IsRecorded(cfg, path, node, record)
  {
    hide WalkConfig.IsExcluded, IsHidden;
    HiddenExactly(cfg, path);
  }

  /** Every reported item stands for a node that is reached. */
  lemma {:induction false} ReportedIs(cfg: WalkConfig, at: Path, entries: seq<Node>, item: DiscoveryItem) returns (path: Path, node: Node)
    requires item in Walk(cfg, at, entries)
    ensures IsReached(cfg, at, entries, path, node) && IsReported(cfg, path, node, item)
    decreases entries
  {
    hide IsReported, IsOpened, EntryItem, EntryRecord;
    path, node := at + [entries[0].name], entries[0];
    EntryExactly(cfg, path, node);
    WalkHead(cfg, at, entries);
    if item in Walk(cfg, at, entries[1..]) {
      path, node := ReportedIs(cfg, at, entries[1..], item);
    } else if EntryItem(cfg, path, node).None? {
      path, node := ReportedIs(cfg, path, node.entries, item);
    }
  }

  /** Every node that is reached is reported, unless it is a directory that is opened. */
  lemma {:induction false} ReachedReported(cfg: WalkConfig, at: Path, entries: seq<Node>, path: Path, node: Node, item: DiscoveryItem)
    requires IsReached(cfg, at, entries, path, node) && IsReported(cfg, path, node, item)
    ensures item in Walk(cfg, at, entries)
    decreases entries
  {
    hide IsReported, IsOpened, EntryItem, EntryRecord;
    var here := at + [entries[0].name];
    EntryExactly(cfg, here, entries[0]);
    WalkHead(cfg, at, entries);
    if path == here && node == entries[0] {
    } else if entries[0].Directory? && IsOpened(cfg, here, entries[0]) && IsReached(cfg, here, entries[0].entries, path, node) {
      ReachedReported(cfg, here, entries[0].entries, path, node, item);
    } else {
      ReachedReported(cfg, at, entries[1..], path, node, item);
    }
  }

  /** Every record of the fingerprint stands for a node that is reached. */
  lemma {:induction false} RecordedIs(cfg: WalkConfig, at: Path, entries: seq<Node>, record: NamespaceRecord) returns (node: Node)
    requires record in WalkRecords(cfg, at, entries)
    ensures IsReached(cfg, at, entries, record.path, node) && IsRecorded(cfg, record.path, node, record)
    decreases entries
  {
    hide IsRecorded, IsReported, IsOpened, EntryItem, EntryRecord;
    var here := at + [entries[0].name];
    node := entries[0];
    EntryExactly(cfg, here, node);
    WalkHead(cfg, at, entries);
    if record in WalkRecords(cfg, at, entries[1..]) {
      node := RecordedIs(cfg, at, entries[1..], record);
    } else if record != EntryRecord(cfg, here, node) {
      node := RecordedIs(cfg, here, node.entries, record);
    } else {
      assert IsRecorded(cfg, here, node, record);
      RecordedPath(cfg, here, node, record);
    }
  }

  lemma RecordedPath(cfg: WalkConfig, path: Path, node: Node, record: NamespaceRecord)
    requires IsRecorded(cfg, path, node, record)
    ensures record.path == path
  {
  }

  /** Every node that is reached is recorded. */
  lemma {:induction false} ReachedRecorded(cfg: WalkConfig, at: Path, entries: seq<Node>, path: Path, node: Node, record: NamespaceRecord)
    requires IsReached(cfg, at, entries, path, node) && IsRecorded(cfg, path, node, record)
    ensures record in WalkRecords(cfg, at, entries)
    decreases entries
  {
    hide IsRecorded, IsReported, IsOpened, EntryItem, EntryRecord;
    var here := at + [entries[0].name];
    EntryExactly(cfg, here, entries[0]);
    WalkHead(cfg, at, entries);
    if path == here && node == entries[0] {
    } else if entries[0].Directory? && IsOpened(cfg, here, entries[0]) && IsReached(cfg, here, entries[0].entries, path, node) {
      ReachedRecorded(cfg, here, entries[0].entries, path, node, record);
    } else {
      ReachedRecorded(cfg, at, entries[1..], path, node, record);
    }
  }

  /** A walk reports exactly what it reaches, and fingerprints exactly what it reaches. */
  lemma WalkExactly(cfg: WalkConfig, entries: seq<Node>)
    ensures forall item :: item in Walk(cfg, [], entries) <==>
              exists path, node :: IsReached(cfg, [], entries, path, node) && IsReported(cfg, path, node, item)
    ensures forall record :: record in WalkRecords(cfg, [], entries) <==>
              exists node :: IsReached(cfg, [], entries, record.path, node) && IsRecorded(cfg, record.path, node, record)
  {
    hide Walk, WalkRecords, IsReached, IsReported, IsRecorded;
    forall item
      ensures item in Walk(cfg, [], entries) <==>
              exists path, node :: IsReached(cfg, [], entries, path, node) && IsReported(cfg, path, node, item)
    {
      if item in Walk(cfg, [], entries) { var path, node := ReportedIs(cfg, [], entries, item); }
      if path, node :| IsReached(cfg, [], entries, path, node) && IsReported(cfg, path, node, item) {
        ReachedReported(cfg, [], entries, path, node, item);
      }
    }
    forall record
      ensures record in WalkRecords(cfg, [], entries) <==>
              exists node :: IsReached(cfg, [], entries, record.path, node) && IsRecorded(cfg, record.path, node, record)
    {
      if record in WalkRecords(cfg, [], entries) { var node := RecordedIs(cfg, [], entries, record); }
      if node :| IsReached(cfg, [], entries, record.path, node) && IsRecorded(cfg, record.path, node, record) {
        ReachedRecorded(cfg, [], entries, record.path, node, record);
      }
    }
  }

  // ----- the counters -----

  datatype Sort = Files | Symlinks | Specials | Exclusions | Boundaries

  ghost predicate IsOfSort(item: DiscoveryItem, sort: Sort) {
    match sort
    case Files => item.FoundFile?
    case Symlinks => item.FoundSymlink?
    case Specials => item.FoundSpecial?
    case Exclusions => item.Excluded?
    case Boundaries => item.FilesystemBoundary?
  }

  /** The places of the items of a sort. */
  ghost function OfSort(items: seq<DiscoveryItem>, sort: Sort): set<nat> {
    set i: nat | i < |items| && IsOfSort(items[i], sort)
  }

  lemma SortSnoc(items: seq<DiscoveryItem>, item: DiscoveryItem, sort: Sort)
    ensures |OfSort(items + [item], sort)| == |OfSort(items, sort)| + if IsOfSort(item, sort) then 1 else 0
  {
    hide IsOfSort;
    var before, all := OfSort(items, sort), OfSort(items + [item], sort);
    forall i: nat ensures i in all <==> i in before || (i == |items| && IsOfSort(item, sort)) {
      if i < |items| { assert (items + [item])[i] == items[i]; }
    }
    if IsOfSort(item, sort) {
      assert all == before + {|items|} && |items| !in before;
    } else {
      assert all == before;
    }
  }

  /** Every counter of a walk is the number of its items. */
  lemma {:induction false} StatsExactly(items: seq<DiscoveryItem>)
    ensures var stats := StatsOf(items);
            && stats.regularFiles == |OfSort(items, Files)| && stats.symlinks == |OfSort(items, Symlinks)|
            && stats.specialFiles == |OfSort(items, Specials)| && stats.excludedSubtrees == |OfSort(items, Exclusions)|
            && stats.filesystemBoundaries == |OfSort(items, Boundaries)|
  {
    hide OfSort;
    if |items| == 0 {
      forall sort ensures OfSort(items, sort) == {} { NoneOfSort(items, sort); }
    } else {
      var init, last := items[..|items| - 1], items[|items| - 1];
      StatsExactly(init);
      assert init + [last] == items;
      forall sort ensures |OfSort(items, sort)| == |OfSort(init, sort)| + if IsOfSort(last, sort) then 1 else 0 {
        SortSnoc(init, last, sort);
      }
    }
  }

  lemma NoneOfSort(items: seq<DiscoveryItem>, sort: Sort)
    requires |items| == 0
    ensures OfSort(items, sort) == {}
  {
  }
}
