/** Causal frontiers: what an accepted successor keeps, and what a follower may rely on. */
module Frontier {
  import opened Wrappers

  const FRONTIER_VERSION: nat := 2

  datatype FrontierError =
    | UnsupportedVersion | EmptyArchiveId | InvalidProjectionVersion | InvalidHash | InvalidOriginId
    | ZeroOriginSequence | OriginsNotStrictlySorted | PreviousFrontiersNotStrictlySorted | ArchiveMismatch
    | GenesisMismatch | ProjectionVersionRegression | MissingBaseFrontier | OriginOmitted | OriginRegression
    | ChangedOriginTail | CursorNotReachable
    | InvalidLimit | StaleContinuation

  datatype OriginFrontier = OriginFrontier(originId: string, seqNo: nat, eventHash: string, segmentManifestHash: string)

  datatype CausalFrontier = CausalFrontier(
    v: nat, archiveId: string, genesisHash: string, origins: seq<OriginFrontier>,
    previousFrontiers: seq<string>, itemProjectionVersion: nat)

  datatype FrontierAdvance = FrontierAdvance(advancedOrigins: seq<string>, addedOrigins: seq<string>)

  predicate IsLowerHex64(s: string) {
    |s| == 64 && forall i :: 0 <= i < |s| ==> ('0' <= s[i] <= '9') || ('a' <= s[i] <= 'f')
  }

  predicate IsBlake3Identifier(s: string) { "blake3:" <= s && IsLowerHex64(s[7..]) }

  predicate IsOriginId(s: string) { "origin_" <= s && IsLowerHex64(s[7..]) }

  /** The prefix, and then 64 hexadecimal digits in lower case. */
  lemma IdentifiersExactly(s: string)
    ensures IsBlake3Identifier(s) <==>
            |s| == 71 && s[..7] == "blake3:" && forall i :: 7 <= i < 71 ==> s[i] in "0123456789abcdef"
    ensures IsOriginId(s) <==>
            |s| == 71 && s[..7] == "origin_" && forall i :: 7 <= i < 71 ==> s[i] in "0123456789abcdef"
  {
    HexDigits();
    if |s| == 71 {
      assert forall i :: 7 <= i < 71 ==> s[7..][i - 7] == s[i];
      assert IsLowerHex64(s[7..]) <==> forall i :: 7 <= i < 71 ==> s[i] in "0123456789abcdef" by {
        if IsLowerHex64(s[7..]) {
          forall i | 7 <= i < 71 ensures s[i] in "0123456789abcdef" { assert s[7..][i - 7] == s[i]; }
        }
      }
    }
  }

  lemma HexDigits()
    ensures forall c: char :: c in "0123456789abcdef" <==> ('0' <= c <= '9') || ('a' <= c <= 'f')
  {
    var digits := "0123456789abcdef";
    forall c: char ensures c in digits <==> ('0' <= c <= '9') || ('a' <= c <= 'f') {
      if '0' <= c <= '9' { assert digits[c as int - '0' as int] == c; }
      if 'a' <= c <= 'f' { assert digits[10 + c as int - 'a' as int] == c; }
    }
  }

  // ----- the order of identifiers -----

  /** Byte order of identifiers. */
  predicate Less(a: string, b: string) {
    if |b| == 0 then false
    else if |a| == 0 then true
    else a[0] < b[0] || (a[0] == b[0] && Less(a[1..], b[1..]))
  }

  /** At the first difference the smaller byte decides; a proper prefix comes first. */
  lemma {:induction false} LessExactly(a: string, b: string)
    ensures Less(a, b) <==> exists n: nat :: n <= |a| && n < |b| && a[..n] == b[..n] && (n == |a| || a[n] < b[n])
  {
    if |a| > 0 && |b| > 0 && a[0] == b[0] {
      LessExactly(a[1..], b[1..]);
      if n: nat :| n <= |a| && n < |b| && a[..n] == b[..n] && (n == |a| || a[n] < b[n]) {
        assert n > 0 && a[1..][..n - 1] == a[..n][1..] && b[1..][..n - 1] == b[..n][1..];
      }
      if n: nat :| n <= |a[1..]| && n < |b[1..]| && a[1..][..n] == b[1..][..n] && (n == |a[1..]| || a[1..][n] < b[1..][n]) {
        assert a[..n + 1] == [a[0]] + a[1..][..n] && b[..n + 1] == [b[0]] + b[1..][..n];
      }
    } else if |a| > 0 && |b| > 0 {
      assert a[..0] == b[..0];
    } else {
      assert a[..0] == b[..0];
    }
  }

  lemma {:induction false} LessTransitive(a: string, b: string, c: string)
    requires Less(a, b) && Less(b, c)
    ensures Less(a, c)
  {
    if |a| > 0 && a[0] == b[0] == c[0] {
      LessTransitive(a[1..], b[1..], c[1..]);
    }
  }

  lemma {:induction false} LessTotal(a: string, b: string)
    ensures !(Less(a, b) && Less(b, a))
    ensures Less(a, b) || Less(b, a) || a == b
    ensures !Less(a, a)
  {
    if |a| > 0 && |b| > 0 {
      LessTotal(a[1..], b[1..]);
      if a[0] == b[0] && a[1..] == b[1..] {
        assert a == [a[0]] + a[1..] && b == [b[0]] + b[1..];
      }
    }
    if |a| > 0 {
      LessTotal(a[1..], a[1..]);
    }
  }

  predicate SortedIds(ids: seq<string>) { forall i, j :: 0 <= i < j < |ids| ==> Less(ids[i], ids[j]) }

  lemma SortedSnoc(ids: seq<string>, id: string)
    requires SortedIds(ids) && (|ids| > 0 ==> Less(ids[|ids| - 1], id))
    ensures SortedIds(ids + [id])
  {
    hide Less;
    forall i | 0 <= i < |ids| ensures Less(ids[i], id) {
      if i < |ids| - 1 { LessTransitive(ids[i], ids[|ids| - 1], id); }
    }
  }

  lemma NotSorted(ids: seq<string>, i: nat)
    requires 0 < i < |ids| && !Less(ids[i - 1], ids[i])
    ensures !SortedIds(ids)
  {
  }

  function OriginIds(origins: seq<OriginFrontier>): seq<string> {
    seq(|origins|, i requires 0 <= i < |origins| => origins[i].originId)
  }

  predicate OriginOk(o: OriginFrontier) {
    IsOriginId(o.originId) && o.seqNo > 0 && IsBlake3Identifier(o.eventHash) && IsBlake3Identifier(o.segmentManifestHash)
  }

  ghost predicate Valid(f: CausalFrontier) {
    && f.v == FRONTIER_VERSION && f.archiveId != "" && f.itemProjectionVersion > 0 && IsBlake3Identifier(f.genesisHash)
    && (forall i :: 0 <= i < |f.origins| ==> OriginOk(f.origins[i]))
    && SortedIds(OriginIds(f.origins))
    && (forall i :: 0 <= i < |f.previousFrontiers| ==> IsBlake3Identifier(f.previousFrontiers[i]))
    && SortedIds(f.previousFrontiers)
  }

  /** What a valid frontier is: version 2, every identifier well-formed, no origin at zero, both lists ascending. */
  lemma ValidExactly(f: CausalFrontier)
    ensures Valid(f) <==>
            && f.v == 2 && f.archiveId != "" && f.itemProjectionVersion >= 1 && IsBlake3Identifier(f.genesisHash)
            && (forall i :: 0 <= i < |f.origins| ==>
                  && IsOriginId(f.origins[i].originId) && f.origins[i].seqNo >= 1
                  && IsBlake3Identifier(f.origins[i].eventHash) && IsBlake3Identifier(f.origins[i].segmentManifestHash))
            && (forall i, j :: 0 <= i < j < |f.origins| ==> Less(f.origins[i].originId, f.origins[j].originId))
            && (forall i :: 0 <= i < |f.previousFrontiers| ==> IsBlake3Identifier(f.previousFrontiers[i]))
            && (forall i, j :: 0 <= i < j < |f.previousFrontiers| ==> Less(f.previousFrontiers[i], f.previousFrontiers[j]))
  {
    hide Less, IsBlake3Identifier, IsOriginId;
    var ids := OriginIds(f.origins);
    assert forall i :: 0 <= i < |f.origins| ==> ids[i] == f.origins[i].originId;
    if forall i, j :: 0 <= i < j < |f.origins| ==> Less(f.origins[i].originId, f.origins[j].originId) {
      assert SortedIds(ids);
    } else {
      var i, j :| 0 <= i < j < |f.origins| && !Less(f.origins[i].originId, f.origins[j].originId);
      assert !Less(ids[i], ids[j]);
    }
  }

  /** `CausalFrontier::validate`: adjacent comparisons decide the whole order. */
  method Validate(f: CausalFrontier) returns (r: Result<(), FrontierError>)
    ensures r.Ok? <==> Valid(f)
  {
    hide Less, IsLowerHex64, IsOriginId, IsBlake3Identifier;
    if f.v != FRONTIER_VERSION {
      return Err(UnsupportedVersion);
    }
    if f.archiveId == "" {
      return Err(EmptyArchiveId);
    }
    if f.itemProjectionVersion == 0 {
      return Err(InvalidProjectionVersion);
    }
    if !IsBlake3Identifier(f.genesisHash) {
      return Err(InvalidHash);
    }
    ghost var ids := OriginIds(f.origins);
    var priorOrigin: Option<string> := None;
    for i := 0 to |f.origins|
      invariant forall k :: 0 <= k < i ==> OriginOk(f.origins[k])
      invariant SortedIds(ids[..i]) && priorOrigin == (if i == 0 then None else Some(ids[i - 1]))
    {
      var origin := f.origins[i];
      assert ids[i] == origin.originId && ids[..i + 1] == ids[..i] + [ids[i]];
      if !IsOriginId(origin.originId) {
        return Err(InvalidOriginId);
      }
      if origin.seqNo == 0 {
        return Err(ZeroOriginSequence);
      }
      if priorOrigin.Some? && !Less(priorOrigin.value, origin.originId) {
        NotSorted(ids, i);
        return Err(OriginsNotStrictlySorted);
      }
      if !IsBlake3Identifier(origin.eventHash) || !IsBlake3Identifier(origin.segmentManifestHash) {
        return Err(InvalidHash);
      }
      SortedSnoc(ids[..i], ids[i]);
      priorOrigin := Some(origin.originId);
    }
    assert ids[..|ids|] == ids;
    var previous := f.previousFrontiers;
    var priorFrontier: Option<string> := None;
    for i := 0 to |previous|
      invariant forall k :: 0 <= k < i ==> IsBlake3Identifier(previous[k])
      invariant SortedIds(previous[..i]) && priorFrontier == (if i == 0 then None else Some(previous[i - 1]))
    {
      assert previous[..i + 1] == previous[..i] + [previous[i]];
      if !IsBlake3Identifier(previous[i]) {
        return Err(InvalidHash);
      }
      if priorFrontier.Some? && !Less(priorFrontier.value, previous[i]) {
        NotSorted(previous, i);
        return Err(PreviousFrontiersNotStrictlySorted);
      }
      SortedSnoc(previous[..i], previous[i]);
      priorFrontier := Some(previous[i]);
    }
    assert previous[..|previous|] == previous;
    return Ok(());
  }

  /** Binary search by identifier; on a sorted list it finds exactly what is there. */
  method BinarySearch(ids: seq<string>, id: string) returns (found: Option<nat>)
    ensures found.Some? ==> found.value < |ids| && ids[found.value] == id
    ensures SortedIds(ids) && found.None? ==> id !in ids
  {
    hide Less;
    var low, high := 0, |ids|;
    while low < high
      invariant 0 <= low <= high <= |ids|
      invariant SortedIds(ids) ==> forall k :: 0 <= k < low ==> ids[k] != id
      invariant SortedIds(ids) ==> forall k :: high <= k < |ids| ==> ids[k] != id
    {
      var middle := (low + high) / 2;
      if ids[middle] == id {
        return Some(middle);
      }
      if Less(ids[middle], id) {
        forall k | low <= k <= middle && SortedIds(ids) ensures ids[k] != id {
          LessTotal(ids[k], ids[middle]);
          LessTotal(ids[middle], id);
        }
        low := middle + 1;
      } else {
        forall k | middle <= k < high && SortedIds(ids) ensures ids[k] != id {
          LessTotal(ids[k], ids[middle]);
          LessTotal(ids[middle], id);
        }
        high := middle;
      }
    }
    return None;
  }

  /** What a successor must keep of one origin. */
  predicate KeepsOrigin(base: OriginFrontier, later: OriginFrontier) {
    && later.originId == base.originId && later.seqNo >= base.seqNo
    && (later.seqNo == base.seqNo ==> later == base)
  }

  predicate Kept(o: OriginFrontier, later: CausalFrontier) {
    exists j :: 0 <= j < |later.origins| && KeepsOrigin(o, later.origins[j])
  }

  predicate KeepsOrigins(base: CausalFrontier, later: CausalFrontier) {
    forall i :: 0 <= i < |base.origins| ==> Kept(base.origins[i], later)
  }

  ghost predicate IsSuccessor(hash: CausalFrontier -> string, base: CausalFrontier, later: CausalFrontier) {
    && Valid(base) && Valid(later) && later.archiveId == base.archiveId && later.genesisHash == base.genesisHash
    && later.itemProjectionVersion >= base.itemProjectionVersion
    && hash(base) in later.previousFrontiers
    && KeepsOrigins(base, later)
  }

  /** The sequence number a frontier has accepted from an origin; zero if none. */
  function SeqOf(origins: seq<OriginFrontier>, id: string): nat {
    if |origins| == 0 then 0
    else if origins[|origins| - 1].originId == id then origins[|origins| - 1].seqNo
    else SeqOf(origins[..|origins| - 1], id)
  }

  lemma {:induction false} SeqOfMember(origins: seq<OriginFrontier>, i: nat)
    requires SortedIds(OriginIds(origins)) && i < |origins|
    ensures SeqOf(origins, origins[i].originId) == origins[i].seqNo
    decreases |origins|
  {
    hide Less;
    var ids, init := OriginIds(origins), origins[..|origins| - 1];
    if i < |init| {
      LessTotal(ids[i], ids[|init|]);
      assert ids[i] == origins[i].originId && ids[|init|] == origins[|init|].originId;
      forall k | 0 <= k < |init| ensures OriginIds(init)[k] == ids[k] {}
      SeqOfMember(init, i);
    }
  }

  lemma {:induction false} SeqOfAbsent(origins: seq<OriginFrontier>, id: string)
    requires id !in OriginIds(origins)
    ensures SeqOf(origins, id) == 0
  {
    if |origins| > 0 {
      var init := origins[..|origins| - 1];
      assert OriginIds(origins)[|origins| - 1] == origins[|origins| - 1].originId;
      forall k | 0 <= k < |init| ensures OriginIds(init)[k] == OriginIds(origins)[k] {}
      SeqOfAbsent(init, id);
    }
  }

  /** The origins of `base` that moved, in their order. */
  function Advanced(base: seq<OriginFrontier>, later: CausalFrontier): seq<string> {
    if |base| == 0 then []
    else
      var last := base[|base| - 1];
      Advanced(base[..|base| - 1], later) + if SeqOf(later.origins, last.originId) != last.seqNo then [last.originId] else []
  }

  function Added(base: CausalFrontier, later: seq<OriginFrontier>): seq<string> {
    if |later| == 0 then []
    else
      var last := later[|later| - 1];
      Added(base, later[..|later| - 1]) + if last.originId in OriginIds(base.origins) then [] else [last.originId]
  }

  lemma IdAt(origins: seq<OriginFrontier>, i: nat)
    requires i < |origins|
    ensures OriginIds(origins)[i] == origins[i].originId && origins[i].originId in OriginIds(origins)
  {
    assert OriginIds(origins)[i] == origins[i].originId;
  }

  lemma SortedDistinct(ids: seq<string>, i: nat, j: nat)
    requires SortedIds(ids) && i < |ids| && j < |ids|
    ensures ids[i] == ids[j] ==> i == j
  {
    hide Less;
    LessTotal(ids[i], ids[j]);
    LessTotal(ids[i], ids[i]);
  }

  lemma NotKept(base: CausalFrontier, later: CausalFrontier, i: nat, j: nat)
    requires i < |base.origins| && j < |later.origins| && SortedIds(OriginIds(later.origins))
    requires later.origins[j].originId == base.origins[i].originId && !KeepsOrigin(base.origins[i], later.origins[j])
    ensures !KeepsOrigins(base, later)
  {
    hide Less, SortedIds;
    forall k | 0 <= k < |later.origins| ensures !KeepsOrigin(base.origins[i], later.origins[k]) {
      SortedDistinct(OriginIds(later.origins), j, k);
      IdAt(later.origins, j);
      IdAt(later.origins, k);
    }
    assert !Kept(base.origins[i], later);
  }

  /** `validate_successor_of`: exactly the successor rules, and exactly the moved and new origins. */
  method ValidateSuccessorOf(hash: CausalFrontier -> string, base: CausalFrontier, later: CausalFrontier)
    returns (r: Result<FrontierAdvance, FrontierError>)
    ensures r.Ok? <==> IsSuccessor(hash, base, later)
    ensures r.Ok? ==> r.value == FrontierAdvance(Advanced(base.origins, later), Added(base, later.origins))
  {
    hide Less, OriginOk, Valid, SortedIds, OriginIds, SeqOf, KeepsOrigins;
    var baseOk := Validate(base);
    if baseOk.Err? {
      return Err(baseOk.error);
    }
    var laterOk := Validate(later);
    if laterOk.Err? {
      return Err(laterOk.error);
    }
    if later.archiveId != base.archiveId {
      return Err(ArchiveMismatch);
    }
    if later.genesisHash != base.genesisHash {
      return Err(GenesisMismatch);
    }
    if later.itemProjectionVersion < base.itemProjectionVersion {
      return Err(ProjectionVersionRegression);
    }
    ValidSorted(base);
    ValidSorted(later);
    var parent := BinarySearch(later.previousFrontiers, hash(base));
    if parent.None? {
      return Err(MissingBaseFrontier);
    }
    var laterIds := OriginIds(later.origins);
    IdCounts(later.origins);
    var advanced: seq<string> := [];
    assert base.origins[..0] == [];
    for i := 0 to |base.origins|
      invariant advanced == Advanced(base.origins[..i], later)
      invariant forall k :: 0 <= k < i ==> Kept(base.origins[k], later)
    {
      var origin := base.origins[i];
      assert base.origins[..i + 1][..i] == base.origins[..i];
      var index := BinarySearch(laterIds, origin.originId);
      if index.None? {
        Omitted(base, later, i);
        return Err(OriginOmitted);
      }
      var found := later.origins[index.value];
      IdAt(later.origins, index.value);
      SeqOfMember(later.origins, index.value);
      if found.seqNo < origin.seqNo {
        NotKept(base, later, i, index.value);
        return Err(OriginRegression);
      }
      if found.seqNo == origin.seqNo {
        if found.eventHash != origin.eventHash || found.segmentManifestHash != origin.segmentManifestHash {
          NotKept(base, later, i, index.value);
          return Err(ChangedOriginTail);
        }
      } else {
        advanced := advanced + [origin.originId];
      }
      assert KeepsOrigin(origin, later.origins[index.value]);
    }
    assert base.origins[..|base.origins|] == base.origins;
    AllKept(base, later);
    var added := AddedOrigins(base, later);
    return Ok(FrontierAdvance(advanced, added));
  }

  /** The origins the base frontier does not list. */
  method AddedOrigins(base: CausalFrontier, later: CausalFrontier) returns (added: seq<string>)
    requires SortedIds(OriginIds(base.origins))
    ensures added == Added(base, later.origins)
  {
    hide Less, SortedIds, OriginIds;
    var baseIds := OriginIds(base.origins);
    added := [];
    assert later.origins[..0] == [];
    for i := 0 to |later.origins|
      invariant added == Added(base, later.origins[..i])
    {
      assert later.origins[..i + 1][..i] == later.origins[..i];
      var known := BinarySearch(baseIds, later.origins[i].originId);
      if known.None? {
        added := added + [later.origins[i].originId];
      }
    }
    assert later.origins[..|later.origins|] == later.origins;
  }

  lemma AllKept(base: CausalFrontier, later: CausalFrontier)
    requires forall k :: 0 <= k < |base.origins| ==> Kept(base.origins[k], later)
    ensures KeepsOrigins(base, later)
  {
  }

  lemma ValidSorted(f: CausalFrontier)
    requires Valid(f)
    ensures SortedIds(OriginIds(f.origins)) && SortedIds(f.previousFrontiers)
  {
  }

  lemma IdCounts(origins: seq<OriginFrontier>)
    ensures |OriginIds(origins)| == |origins|
    ensures forall i :: 0 <= i < |origins| ==> OriginIds(origins)[i] == origins[i].originId
  {
  }

  lemma Omitted(base: CausalFrontier, later: CausalFrontier, i: nat)
    requires i < |base.origins| && base.origins[i].originId !in OriginIds(later.origins)
    ensures !KeepsOrigins(base, later)
  {
    forall j | 0 <= j < |later.origins| ensures !KeepsOrigin(base.origins[i], later.origins[j]) {
      IdAt(later.origins, j);
    }
    assert !Kept(base.origins[i], later);
  }

  /** The reported advance is exactly what changed: every origin is unchanged, advanced or added. */
  lemma {:induction false} AdvancedExact(base: seq<OriginFrontier>, later: CausalFrontier, id: string)
    requires SortedIds(OriginIds(base))
    ensures id in Advanced(base, later) <==> id in OriginIds(base) && SeqOf(later.origins, id) != SeqOf(base, id)
  {
    hide Less, SortedIds;
    if |base| > 0 {
      var init, last := base[..|base| - 1], base[|base| - 1];
      SortedInit(base);
      AdvancedExact(init, later, id);
      IdAt(base, |base| - 1);
      assert OriginIds(base) == OriginIds(init) + [last.originId];
      if last.originId in OriginIds(init) {
        var k :| 0 <= k < |init| && OriginIds(init)[k] == last.originId;
        SortedDistinct(OriginIds(base), k, |init|);
      }
      SeqOfMember(base, |base| - 1);
    }
  }

  lemma SortedInit(base: seq<OriginFrontier>)
    requires SortedIds(OriginIds(base)) && |base| > 0
    ensures SortedIds(OriginIds(base[..|base| - 1]))
  {
    hide Less;
    var init := base[..|base| - 1];
    forall i | 0 <= i < |init| ensures OriginIds(init)[i] == OriginIds(base)[i] {}
  }

  lemma {:induction false} AddedExact(base: CausalFrontier, later: seq<OriginFrontier>, id: string)
    ensures id in Added(base, later) <==> id in OriginIds(later) && id !in OriginIds(base.origins)
  {
    if |later| > 0 {
      var init, last := later[..|later| - 1], later[|later| - 1];
      AddedExact(base, init, id);
      assert OriginIds(later) == OriginIds(init) + [last.originId];
    }
  }

  // ----- chains of accepted frontiers -----

  ghost predicate IsChain(hash: CausalFrontier -> string, fs: seq<CausalFrontier>) {
    forall i :: 0 <= i < |fs| - 1 ==> IsSuccessor(hash, fs[i], fs[i + 1])
  }

  lemma KeepsTransitive(a: CausalFrontier, b: CausalFrontier, c: CausalFrontier)
    requires KeepsOrigins(a, b) && KeepsOrigins(b, c)
    ensures KeepsOrigins(a, c)
  {
    forall i | 0 <= i < |a.origins| ensures Kept(a.origins[i], c) {
      assert Kept(a.origins[i], b);
      var j :| 0 <= j < |b.origins| && KeepsOrigin(a.origins[i], b.origins[j]);
      assert Kept(b.origins[j], c);
      var k :| 0 <= k < |c.origins| && KeepsOrigin(b.origins[j], c.origins[k]);
      assert KeepsOrigin(a.origins[i], c.origins[k]);
    }
  }

  lemma KeepsItself(a: CausalFrontier)
    ensures KeepsOrigins(a, a)
  {
    forall i | 0 <= i < |a.origins| ensures Kept(a.origins[i], a) {
      assert KeepsOrigin(a.origins[i], a.origins[i]);
    }
  }

  /** Along a chain no origin disappears or goes back, and equal sequence numbers at any two points
      mean the same tail. */
  lemma {:induction false} ChainKeeps(hash: CausalFrontier -> string, fs: seq<CausalFrontier>, i: nat, j: nat)
    requires IsChain(hash, fs) && i <= j < |fs|
    ensures KeepsOrigins(fs[i], fs[j])
    ensures fs[j].archiveId == fs[i].archiveId && fs[j].genesisHash == fs[i].genesisHash
    ensures fs[i].itemProjectionVersion <= fs[j].itemProjectionVersion
    ensures i < j ==> Valid(fs[i]) && Valid(fs[j])
    decreases j - i
  {
    hide KeepsOrigins, Valid;
    if i == j {
      KeepsItself(fs[i]);
    } else {
      ChainKeeps(hash, fs, i, j - 1);
      assert IsSuccessor(hash, fs[j - 1], fs[j]);
      KeepsTransitive(fs[i], fs[j - 1], fs[j]);
      if i < j - 1 { assert IsSuccessor(hash, fs[i], fs[i + 1]); }
    }
  }

  predicate Reached(o: OriginFrontier, current: CausalFrontier) {
    exists j :: 0 <= j < |current.origins| && current.origins[j].originId == o.originId && current.origins[j].seqNo >= o.seqNo
  }

  predicate AtOrBefore(base: CausalFrontier, current: CausalFrontier) {
    && base.archiveId == current.archiveId && base.genesisHash == current.genesisHash
    && forall i :: 0 <= i < |base.origins| ==> Reached(base.origins[i], current)
  }

  /** `frontier_is_at_or_before`. */
  method FrontierIsAtOrBefore(base: CausalFrontier, current: CausalFrontier) returns (ok: bool)
    ensures ok ==> AtOrBefore(base, current)
    ensures SortedIds(OriginIds(current.origins)) ==> (ok <==> AtOrBefore(base, current))
  {
    hide Less, SortedIds, OriginIds;
    if base.archiveId != current.archiveId || base.genesisHash != current.genesisHash {
      return false;
    }
    var ids := OriginIds(current.origins);
    IdCounts(current.origins);
    for i := 0 to |base.origins|
      invariant forall k :: 0 <= k < i ==> Reached(base.origins[k], current)
    {
      var index := BinarySearch(ids, base.origins[i].originId);
      if index.None? || current.origins[index.value].seqNo < base.origins[i].seqNo {
        if SortedIds(ids) { NotAtOrBefore(base, current, i, if index.Some? then index.value else 0); }
        return false;
      }
    }
    return true;
  }

  lemma NotAtOrBefore(base: CausalFrontier, current: CausalFrontier, i: nat, j: nat)
    requires SortedIds(OriginIds(current.origins)) && i < |base.origins|
    requires base.origins[i].originId !in OriginIds(current.origins) ||
             (j < |current.origins| && current.origins[j].originId == base.origins[i].originId
              && current.origins[j].seqNo < base.origins[i].seqNo)
    ensures !AtOrBefore(base, current)
  {
    hide Less, SortedIds, OriginIds;
    IdCounts(current.origins);
    forall k | 0 <= k < |current.origins| && current.origins[k].originId == base.origins[i].originId
      ensures current.origins[k].seqNo < base.origins[i].seqNo
    {
      IdAt(current.origins, k);
      SortedDistinct(OriginIds(current.origins), j, k);
    }
    assert !Reached(base.origins[i], current);
  }

  /** Every later frontier of a chain is reachable from every earlier one. */
  lemma ChainAtOrBefore(hash: CausalFrontier -> string, fs: seq<CausalFrontier>, i: nat, j: nat)
    requires IsChain(hash, fs) && i <= j < |fs|
    ensures AtOrBefore(fs[i], fs[j])
  {
    hide Valid;
    ChainKeeps(hash, fs, i, j);
    forall k | 0 <= k < |fs[i].origins| ensures Reached(fs[i].origins[k], fs[j]) {
      assert Kept(fs[i].origins[k], fs[j]);
      var m :| 0 <= m < |fs[j].origins| && KeepsOrigin(fs[i].origins[k], fs[j].origins[m]);
    }
  }

  // ----- the change feed -----

  /** Position in the feed: by path, then by file. */
  datatype FileKey = FileKey(pathEncoding: string, pathBytes: string, fileRefId: string)

  /** An active file, its path, and the record that introduced it. */
  datatype IntroducedFile = IntroducedFile(key: FileKey, originId: string, originSeq: nat)

  predicate Covered(f: CausalFrontier, file: IntroducedFile) { file.originSeq <= SeqOf(f.origins, file.originId) }

  /** A frontier covers what an origin it lists had accepted by then, the listed record included. */
  lemma CoveredExactly(f: CausalFrontier, file: IntroducedFile)
    requires SortedIds(OriginIds(f.origins))
    ensures Covered(f, file) <==>
            file.originSeq == 0
            || exists i :: 0 <= i < |f.origins| && f.origins[i].originId == file.originId && file.originSeq <= f.origins[i].seqNo
  {
    hide Less, SortedIds, SeqOf;
    forall i | 0 <= i < |f.origins| && f.origins[i].originId == file.originId
      ensures SeqOf(f.origins, file.originId) == f.origins[i].seqNo
    {
      SeqOfMember(f.origins, i);
    }
    if file.originId in OriginIds(f.origins) {
      var i :| 0 <= i < |f.origins| && OriginIds(f.origins)[i] == file.originId;
    } else {
      IdCounts(f.origins);
      SeqOfAbsent(f.origins, file.originId);
    }
  }

  function Introduced(files: seq<IntroducedFile>, base: CausalFrontier): seq<IntroducedFile> {
    if |files| == 0 then []
    else Introduced(files[..|files| - 1], base) + if Covered(base, files[|files| - 1]) then [] else [files[|files| - 1]]
  }

  lemma {:induction false} IntroducedExact(files: seq<IntroducedFile>, base: CausalFrontier)
    ensures forall x :: x in Introduced(files, base) <==> x in files && !Covered(base, x)
  {
    hide SeqOf;
    if |files| > 0 {
      IntroducedExact(files[..|files| - 1], base);
      assert files == files[..|files| - 1] + [files[|files| - 1]];
    }
  }

  predicate KeyLess(a: FileKey, b: FileKey) {
    || Less(a.pathEncoding, b.pathEncoding)
    || (a.pathEncoding == b.pathEncoding
        && (Less(a.pathBytes, b.pathBytes) || (a.pathBytes == b.pathBytes && Less(a.fileRefId, b.fileRefId))))
  }

  /** The feed is ordered by encoding, then by path, then by file. */
  lemma KeyExactly(a: FileKey, b: FileKey)
    ensures a.pathEncoding != b.pathEncoding ==> (KeyLess(a, b) <==> Less(a.pathEncoding, b.pathEncoding))
    ensures a.pathEncoding == b.pathEncoding && a.pathBytes != b.pathBytes ==> (KeyLess(a, b) <==> Less(a.pathBytes, b.pathBytes))
    ensures a.pathEncoding == b.pathEncoding && a.pathBytes == b.pathBytes ==> (KeyLess(a, b) <==> Less(a.fileRefId, b.fileRefId))
  {
    hide Less;
    LessTotal(a.pathEncoding, b.pathEncoding);
    LessTotal(a.pathBytes, b.pathBytes);
  }

  lemma KeyTransitive(a: FileKey, b: FileKey, c: FileKey)
    requires KeyLess(a, b) && KeyLess(b, c)
    ensures KeyLess(a, c)
  {
    hide Less;
    if Less(a.pathEncoding, b.pathEncoding) && Less(b.pathEncoding, c.pathEncoding) {
      LessTransitive(a.pathEncoding, b.pathEncoding, c.pathEncoding);
    } else if Less(a.pathBytes, b.pathBytes) && Less(b.pathBytes, c.pathBytes) {
      LessTransitive(a.pathBytes, b.pathBytes, c.pathBytes);
    } else if Less(a.fileRefId, b.fileRefId) && Less(b.fileRefId, c.fileRefId) {
      LessTransitive(a.fileRefId, b.fileRefId, c.fileRefId);
    }
  }

  lemma KeyTotal(a: FileKey, b: FileKey)
    ensures !(KeyLess(a, b) && KeyLess(b, a)) && !KeyLess(a, a)
    ensures KeyLess(a, b) || KeyLess(b, a) || a == b
  {
    hide Less;
    LessTotal(a.pathEncoding, b.pathEncoding);
    LessTotal(a.pathBytes, b.pathBytes);
    LessTotal(a.fileRefId, b.fileRefId);
  }

  predicate Beyond(after: Option<FileKey>, key: FileKey) { after.Some? ==> KeyLess(after.value, key) }

  /** The row belongs to what is left of the feed. */
  predicate Ahead(base: CausalFrontier, after: Option<FileKey>, x: IntroducedFile) { !Covered(base, x) && Beyond(after, x.key) }

  ghost predicate InOrder(items: seq<IntroducedFile>) {
    forall i, j :: 0 <= i < j < |items| ==> KeyLess(items[i].key, items[j].key)
  }

  /** A file has one row. */
  ghost predicate OneRow(files: seq<IntroducedFile>) {
    forall x, y :: x in files && y in files && x.key.fileRefId == y.key.fileRefId ==> x == y
  }

  function LastKey(after: Option<FileKey>, items: seq<IntroducedFile>): Option<FileKey> {
    if |items| == 0 then after else Some(items[|items| - 1].key)
  }

  /** `items` are, in order, all introduced files beyond `after` up to the last of them. */
  ghost predicate IsStretch(files: seq<IntroducedFile>, base: CausalFrontier, after: Option<FileKey>, items: seq<IntroducedFile>) {
    && InOrder(items)
    && (forall x :: x in items ==> x in files && Ahead(base, after, x))
    && (forall x :: x in files && Ahead(base, after, x) && !Beyond(LastKey(after, items), x.key) ==> x in items)
  }

  /** The first row of what is left. */
  ghost predicate IsFirst(files: seq<IntroducedFile>, base: CausalFrontier, after: Option<FileKey>, x: IntroducedFile) {
    x in files && Ahead(base, after, x) && forall y :: y in files && Ahead(base, after, y) ==> !KeyLess(y.key, x.key)
  }

  method FirstRow(files: seq<IntroducedFile>, base: CausalFrontier, after: Option<FileKey>) returns (r: Option<IntroducedFile>)
    ensures r.Some? ==> IsFirst(files, base, after, r.value)
    ensures r.None? ==> forall x :: x in files ==> !Ahead(base, after, x)
  {
    hide Covered, KeyLess, Beyond;
    r := None;
    for i := 0 to |files|
      invariant r.Some? ==> r.value in files && Ahead(base, after, r.value)
      invariant r.Some? ==> forall j :: 0 <= j < i && Ahead(base, after, files[j]) ==> !KeyLess(files[j].key, r.value.key)
      invariant r.None? ==> forall j :: 0 <= j < i ==> !Ahead(base, after, files[j])
    {
      if Ahead(base, after, files[i]) && (r.None? || KeyLess(files[i].key, r.value.key)) {
        ghost var before := r;
        KeyTotal(files[i].key, files[i].key);
        forall j | 0 <= j < i && Ahead(base, after, files[j]) ensures !KeyLess(files[j].key, files[i].key) {
          if KeyLess(files[j].key, files[i].key) { KeyTransitive(files[j].key, files[i].key, before.value.key); }
        }
        r := Some(files[i]);
      }
    }
  }

  lemma StretchNext(files: seq<IntroducedFile>, base: CausalFrontier, after: Option<FileKey>, items: seq<IntroducedFile>, y: IntroducedFile)
    requires OneRow(files) && IsStretch(files, base, after, items) && IsFirst(files, base, LastKey(after, items), y)
    ensures IsStretch(files, base, after, items + [y])
  {
    hide Covered, KeyLess;
    var last := LastKey(after, items);
    forall i | 0 <= i < |items| ensures KeyLess(items[i].key, y.key) {
      if i < |items| - 1 { KeyTransitive(items[i].key, items[|items| - 1].key, y.key); }
    }
    if after.Some? && |items| > 0 {
      assert items[0] in items;
      KeyTransitive(after.value, items[0].key, y.key);
    }
    forall x | x in files && Ahead(base, after, x) && !Beyond(Some(y.key), x.key) ensures x in items + [y] {
      KeyTotal(x.key, y.key);
      if x.key != y.key { assert !Beyond(last, x.key); }
    }
  }

  /** Fewer items of a stretch are a stretch. */
  lemma StretchPrefix(files: seq<IntroducedFile>, base: CausalFrontier, after: Option<FileKey>, items: seq<IntroducedFile>, n: nat)
    requires IsStretch(files, base, after, items) && 0 < n < |items|
    ensures IsStretch(files, base, after, items[..n])
    ensures items[n] in files && Ahead(base, LastKey(after, items[..n]), items[n])
  {
    hide Covered, KeyLess;
    assert items[n] in items;
    forall x | x in files && Ahead(base, after, x) && !Beyond(Some(items[n - 1].key), x.key) ensures x in items[..n] {
      var end := items[|items| - 1];
      if KeyLess(end.key, x.key) { if n < |items| { KeyTransitive(items[n - 1].key, end.key, x.key); } }
      var i :| 0 <= i < |items| && items[i] == x;
    }
  }

  /** A stretch after a stretch. */
  lemma StretchJoin(files: seq<IntroducedFile>, base: CausalFrontier, after: Option<FileKey>, a: seq<IntroducedFile>, b: seq<IntroducedFile>)
    requires IsStretch(files, base, after, a) && IsStretch(files, base, LastKey(after, a), b)
    ensures IsStretch(files, base, after, a + b)
  {
    hide Covered, KeyLess;
    var middle := LastKey(after, a);
    forall x | x in b ensures x in files && Ahead(base, after, x) && (|a| > 0 ==> KeyLess(a[|a| - 1].key, x.key)) {
      if |a| > 0 && after.Some? {
        assert a[|a| - 1] in a;
        KeyTransitive(after.value, a[|a| - 1].key, x.key);
      }
    }
    forall i, j | 0 <= i < j < |a + b| ensures KeyLess((a + b)[i].key, (a + b)[j].key) {
      if i < |a| <= j {
        assert b[j - |a|] in b;
        if i < |a| - 1 { KeyTransitive(a[i].key, a[|a| - 1].key, b[j - |a|].key); }
      }
    }
    forall x | x in files && Ahead(base, after, x) && !Beyond(LastKey(after, a + b), x.key) ensures x in a + b {
      if |b| > 0 && Beyond(middle, x.key) { assert x in b; }
    }
  }

  const TOKEN_VERSION: nat := 1
  const MAX_PAGE_SIZE: nat := 1000

  /** A state of the catalog the feed can start from or read. */
  datatype CanonicalCursor = CanonicalCursor(gitCommit: string, frontierHash: string, frontier: CausalFrontier)

  datatype ChangeToken = ChangeToken(v: nat, collectionId: string, sinceCommit: string, currentFrontier: string, after: FileKey)

  datatype ChangeFeedPage = ChangeFeedPage(items: seq<IntroducedFile>, next: Option<ChangeToken>)

  /** The token was given out for this collection, by a read of this state since that one. */
  predicate Continues(t: ChangeToken, collectionId: string, base: CanonicalCursor, current: CanonicalCursor) {
    && t.v == TOKEN_VERSION && t.collectionId == collectionId
    && t.sinceCommit == base.gitCommit && t.currentFrontier == current.frontierHash
  }

  function After(continuation: Option<ChangeToken>): Option<FileKey> {
    if continuation.Some? then Some(continuation.value.after) else None
  }

  /** `introduced_files`, over the active files of the collection at `current`. */
  method IntroducedFiles(collectionId: string, files: seq<IntroducedFile>, base: CanonicalCursor, current: CanonicalCursor,
                         limit: nat, continuation: Option<ChangeToken>)
    returns (r: Result<ChangeFeedPage, FrontierError>)
    requires OneRow(files)
    ensures r == Err(InvalidLimit) <==> limit == 0 || limit > 1000
    ensures r == Err(CursorNotReachable) ==> SortedIds(OriginIds(current.frontier.origins)) ==> !AtOrBefore(base.frontier, current.frontier)
    ensures r == Err(StaleContinuation) ==> continuation.Some? && !Continues(continuation.value, collectionId, base, current)
    ensures r.Err? ==> r.error in {InvalidLimit, CursorNotReachable, StaleContinuation}
    ensures r.Ok? ==> AtOrBefore(base.frontier, current.frontier)
                      && (continuation.Some? ==> Continues(continuation.value, collectionId, base, current))
    ensures r.Ok? ==>
              var items := r.value.items; var last := LastKey(After(continuation), items);
              && IsStretch(files, base.frontier, After(continuation), items) && |items| <= limit
              && (r.value.next.None? ==> forall x :: x in files ==> !Ahead(base.frontier, last, x))
              && (r.value.next.Some? ==>
                    && |items| == limit && (exists x :: x in files && Ahead(base.frontier, last, x))
                    && Continues(r.value.next.value, collectionId, base, current) && Some(r.value.next.value.after) == last)
    ensures r.Ok? && r.value.next.Some? ==>
              |r.value.items| > 0 && r.value.next.value == ChangeToken(1, collectionId, base.gitCommit, current.frontierHash,
                                                                      r.value.items[|r.value.items| - 1].key)
    ensures r.Ok? && continuation.Some? ==>
              continuation.value == ChangeToken(1, collectionId, base.gitCommit, current.frontierHash, continuation.value.after)
    ensures r == Err(StaleContinuation) ==>
              continuation.Some?
              && continuation.value != ChangeToken(1, collectionId, base.gitCommit, current.frontierHash, continuation.value.after)
  {
    hide Less, SortedIds, OriginIds, Covered, AtOrBefore, IsStretch, IsFirst, Ahead;
    if limit == 0 || limit > MAX_PAGE_SIZE {
      return Err(InvalidLimit);
    }
    var reachable := FrontierIsAtOrBefore(base.frontier, current.frontier);
    if !reachable {
      return Err(CursorNotReachable);
    }
    if continuation.Some? && !Continues(continuation.value, collectionId, base, current) {
      return Err(StaleContinuation);
    }
    var after := After(continuation);
    var items: seq<IntroducedFile> := [];
    var row := FirstRow(files, base.frontier, after);
    NothingRead(files, base.frontier, after);
    while row.Some? && |items| <= limit
      invariant |items| <= limit + 1 && IsStretch(files, base.frontier, after, items)
      invariant row.Some? ==> IsFirst(files, base.frontier, LastKey(after, items), row.value)
      invariant row.None? ==> forall x :: x in files ==> !Ahead(base.frontier, LastKey(after, items), x)
      decreases limit + 1 - |items|
    {
      StretchNext(files, base.frontier, after, items, row.value);
      items := items + [row.value];
      row := FirstRow(files, base.frontier, LastKey(after, items));
    }
    if |items| <= limit {
      return Ok(ChangeFeedPage(items, None));
    }
    StretchPrefix(files, base.frontier, after, items, limit);
    items := items[..limit];
    return Ok(ChangeFeedPage(items, Some(ChangeToken(TOKEN_VERSION, collectionId, base.gitCommit, current.frontierHash, items[limit - 1].key))));
  }

  lemma NothingRead(files: seq<IntroducedFile>, base: CausalFrontier, after: Option<FileKey>)
    ensures IsStretch(files, base, after, [])
  {
    hide Covered, KeyLess;
  }

  /** Following the tokens to the end gives exactly the introduced files, in the order of their paths: none is
      missing and none comes twice, whatever the page size. */
  method ReadFeed(collectionId: string, files: seq<IntroducedFile>, base: CanonicalCursor, current: CanonicalCursor, limit: nat)
    returns (r: Result<seq<IntroducedFile>, FrontierError>)
    requires OneRow(files)
    ensures r.Ok? ==> InOrder(r.value) && forall x :: x in r.value <==> x in Introduced(files, base.frontier)
    ensures 0 < limit <= MAX_PAGE_SIZE && SortedIds(OriginIds(current.frontier.origins)) && AtOrBefore(base.frontier, current.frontier) ==>
              r.Ok?
  {
    hide SortedIds, OriginIds, Covered, AtOrBefore, IsStretch, Ahead, Introduced, InOrder;
    var all: seq<IntroducedFile> := [];
    var token: Option<ChangeToken> := None;
    NothingRead(files, base.frontier, None);
    while true
      invariant IsStretch(files, base.frontier, None, all) && After(token) == LastKey(None, all)
      invariant token.Some? ==> Continues(token.value, collectionId, base, current)
      decreases set x | x in files && Ahead(base.frontier, After(token), x)
    {
      var page := IntroducedFiles(collectionId, files, base, current, limit, token);
      if page.Err? {
        return Err(page.error);
      }
      var items := page.value.items;
      StretchJoin(files, base.frontier, None, all, items);
      LastKeyJoin(None, all, items);
      if page.value.next.None? {
        FeedComplete(files, base.frontier, all + items);
        return Ok(all + items);
      }
      LessAhead(files, base.frontier, After(token), items);
      all, token := all + items, page.value.next;
    }
  }

  lemma LastKeyJoin(after: Option<FileKey>, a: seq<IntroducedFile>, b: seq<IntroducedFile>)
    ensures LastKey(after, a + b) == LastKey(LastKey(after, a), b)
  {
  }

  lemma LessAhead(files: seq<IntroducedFile>, base: CausalFrontier, after: Option<FileKey>, items: seq<IntroducedFile>)
    requires IsStretch(files, base, after, items) && |items| > 0
    ensures (set x | x in files && Ahead(base, LastKey(after, items), x)) < (set x | x in files && Ahead(base, after, x))
  {
    hide Covered, KeyLess;
    var last := items[|items| - 1];
    assert last in items;
    KeyTotal(last.key, last.key);
    forall x | x in files && Ahead(base, Some(last.key), x) ensures Ahead(base, after, x) {
      if after.Some? { KeyTransitive(after.value, last.key, x.key); }
    }
    var more, less := (set x | x in files && Ahead(base, after, x)), (set x | x in files && Ahead(base, LastKey(after, items), x));
    assert LastKey(after, items) == Some(last.key);
    assert last in more && last !in less && less <= more;
  }

  lemma FeedComplete(files: seq<IntroducedFile>, base: CausalFrontier, all: seq<IntroducedFile>)
    requires IsStretch(files, base, None, all) && forall x :: x in files ==> !Ahead(base, LastKey(None, all), x)
    ensures InOrder(all) && forall x :: x in all <==> x in Introduced(files, base)
  {
    hide Covered, KeyLess;
    IntroducedExact(files, base);
  }

  /** Order and contents determine the feed. */
  lemma {:induction false} FeedUnique(a: seq<IntroducedFile>, b: seq<IntroducedFile>)
    requires InOrder(a) && InOrder(b) && forall x :: x in a <==> x in b
    ensures a == b
    decreases |a|
  {
    hide KeyLess;
    assert |a| > 0 <==> |b| > 0 by {
      assert |a| > 0 ==> a[0] in b;
      assert |b| > 0 ==> b[0] in a;
    }
    if |a| > 0 {
      LastInOrder(a, b);
      var n, m := |a| - 1, |b| - 1;
      forall x ensures x in a[..n] <==> x in b[..m] {
        NotBefore(a, x);
        NotBefore(b, x);
      }
      FeedUnique(a[..n], b[..m]);
      assert a == a[..n] + [a[n]] && b == b[..m] + [b[m]];
    }
  }

  lemma LastInOrder(a: seq<IntroducedFile>, b: seq<IntroducedFile>)
    requires InOrder(a) && InOrder(b) && |a| > 0 && |b| > 0 && forall x :: x in a <==> x in b
    ensures a[|a| - 1] == b[|b| - 1]
  {
    hide KeyLess;
    var x, y := a[|a| - 1], b[|b| - 1];
    assert x in b && y in a;
    KeyTotal(x.key, y.key);
  }

  lemma NotBefore(a: seq<IntroducedFile>, x: IntroducedFile)
    requires InOrder(a) && |a| > 0
    ensures x in a[..|a| - 1] <==> x in a && x != a[|a| - 1]
  {
    hide KeyLess;
    KeyTotal(x.key, x.key);
  }

  lemma CoverageGrows(a: CausalFrontier, b: CausalFrontier, x: IntroducedFile)
    requires SortedIds(OriginIds(a.origins)) && SortedIds(OriginIds(b.origins)) && AtOrBefore(a, b) && Covered(a, x)
    ensures Covered(b, x)
  {
    hide Less, SortedIds, SeqOf;
    if x.originId in OriginIds(a.origins) {
      var i :| 0 <= i < |a.origins| && OriginIds(a.origins)[i] == x.originId;
      SeqOfMember(a.origins, i);
      IdAt(a.origins, i);
      assert Reached(a.origins[i], b);
      var j :| 0 <= j < |b.origins| && b.origins[j].originId == a.origins[i].originId && b.origins[j].seqNo >= a.origins[i].seqNo;
      SeqOfMember(b.origins, j);
    } else {
      SeqOfAbsent(a.origins, x.originId);
    }
  }

  /** Consecutive reads along a chain never report a file twice, and between them miss none: `files1` and
      `files2` are the active files of the projections at the second and third frontier. The record that
      introduced a file never changes, whatever else its row says. */
  lemma ConsecutiveReads(hash: CausalFrontier -> string, fs: seq<CausalFrontier>, i: nat, j: nat, k: nat,
                         files1: seq<IntroducedFile>, files2: seq<IntroducedFile>)
    requires IsChain(hash, fs) && i < j < k < |fs|
    requires forall x :: x in files1 ==> Covered(fs[j], x)
    requires forall x :: x in files2 ==> Covered(fs[k], x)
    requires forall x, y :: x in files1 && y in files2 && x.key.fileRefId == y.key.fileRefId ==>
               x.originId == y.originId && x.originSeq == y.originSeq
    ensures forall x, y :: x in Introduced(files1, fs[i]) && y in Introduced(files2, fs[j]) ==> x.key.fileRefId != y.key.fileRefId
    ensures forall y :: y in files2 && !Covered(fs[i], y) && (Covered(fs[j], y) ==> Lists(files1, y.key.fileRefId)) ==>
              Lists(Introduced(files1, fs[i]), y.key.fileRefId) || Lists(Introduced(files2, fs[j]), y.key.fileRefId)
    ensures forall x :: x in files1 && Covered(fs[i], x) ==> Covered(fs[j], x) && Covered(fs[k], x)
  {
    hide Introduced, IsSuccessor, AtOrBefore, SortedIds, SeqOf;
    IntroducedExact(files1, fs[i]);
    IntroducedExact(files2, fs[j]);
    ChainKeeps(hash, fs, i, j);
    ChainKeeps(hash, fs, j, k);
    ChainAtOrBefore(hash, fs, j, k);
    ValidSorted(fs[j]);
    ValidSorted(fs[k]);
    forall x | x in files1 ensures Covered(fs[k], x) {
      CoverageGrows(fs[j], fs[k], x);
    }
    forall y | y in files2 && !Covered(fs[i], y) && (Covered(fs[j], y) ==> Lists(files1, y.key.fileRefId))
      ensures Lists(Introduced(files1, fs[i]), y.key.fileRefId) || Lists(Introduced(files2, fs[j]), y.key.fileRefId)
    {
      if Covered(fs[j], y) {
        var x :| x in files1 && x.key.fileRefId == y.key.fileRefId;
        assert x in Introduced(files1, fs[i]);
      } else {
        assert y in Introduced(files2, fs[j]);
      }
    }
  }

  ghost predicate Lists(files: seq<IntroducedFile>, fileRefId: string) {
    exists x :: x in files && x.key.fileRefId == fileRefId
  }
}
