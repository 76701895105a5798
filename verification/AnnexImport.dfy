/** The resumable annex import: a spool of items, cut back to a checkpoint when a run resumes.

    A run may be limited, and may stop at any write; whatever its unsynced output left in the
    spool file is arbitrary (`garbage`). */
module AnnexImport {
  import opened Wrappers
  import opened LogLines

  const MAX_POINTER_BYTES: nat := 32 * 1024
  const SYMLINK_MODE := "120000"

  datatype IndexEntry = IndexEntry(stage: nat, mode: string, oid: string, path: Bytes)

  datatype EntryCategory = Present | Unchecked | Absent | SupportedUnresolved | Unsupported | Mismatch | ReadError

  datatype AnnexSummary = AnnexSummary(
    entriesSeen: nat, present: nat, unchecked: nat, absent: nat, supportedUnresolved: nat, unsupported: nat,
    mismatched: nat, readErrors: nat, ignoredNonAnnex: nat, ignoredSymlinks: nat)

  const EMPTY_SUMMARY := AnnexSummary(0, 0, 0, 0, 0, 0, 0, 0, 0, 0)

  datatype AnnexCheckpoint = AnnexCheckpoint(summary: AnnexSummary, spoolLen: nat)

  /** The unchanging source of one import: the index, the blobs, and the items made from them. */
  datatype Source = Source(
    index: seq<IndexEntry>,
    blobSize: string -> nat,
    keyFromBlob: (string, string) -> Option<string>,
    inspect: (IndexEntry, string) -> EntryCategory,
    entryItem: (IndexEntry, string) -> Bytes,
    startItems: seq<Bytes>,
    completionItems: AnnexSummary -> seq<Bytes>,
    batchEntries: nat)

  /** `AnnexSummary::add`. */
  function Add(s: AnnexSummary, category: EntryCategory): AnnexSummary {
    match category
    case Present => s.(present := s.present + 1)
    case Unchecked => s.(unchecked := s.unchecked + 1)
    case Absent => s.(absent := s.absent + 1)
    case SupportedUnresolved => s.(supportedUnresolved := s.supportedUnresolved + 1)
    case Unsupported => s.(unsupported := s.unsupported + 1)
    case Mismatch => s.(mismatched := s.mismatched + 1)
    case ReadError => s.(readErrors := s.readErrors + 1)
  }

  /** The annex key an entry stands for, if it is an annex entry. */
  function KeyOf(src: Source, e: IndexEntry): Option<string> {
    if e.mode != SYMLINK_MODE && src.blobSize(e.oid) > MAX_POINTER_BYTES then None else src.keyFromBlob(e.mode, e.oid)
  }

  function SummaryAfter(src: Source, s: AnnexSummary, e: IndexEntry): AnnexSummary {
    var seen := s.(entriesSeen := s.entriesSeen + 1);
    var key := KeyOf(src, e);
    if key.Some? then Add(seen, src.inspect(e, key.value))
    else if e.mode == SYMLINK_MODE then seen.(ignoredNonAnnex := seen.ignoredNonAnnex + 1, ignoredSymlinks := seen.ignoredSymlinks + 1)
    else seen.(ignoredNonAnnex := seen.ignoredNonAnnex + 1)
  }

  function ItemOf(src: Source, e: IndexEntry): Bytes {
    var key := KeyOf(src, e);
    if key.Some? then src.entryItem(e, key.value) + [NEWLINE] else []
  }

  /** The entries an import looks at: the merged stage of the index. */
  function Entries(index: seq<IndexEntry>): seq<IndexEntry> {
    if |index| == 0 then []
    else Entries(index[..|index| - 1]) + if index[|index| - 1].stage == 0 then [index[|index| - 1]] else []
  }

  /** The summary and the items of a prefix of the entries. */
  function SummaryOf(src: Source, es: seq<IndexEntry>): AnnexSummary {
    if |es| == 0 then EMPTY_SUMMARY else SummaryAfter(src, SummaryOf(src, es[..|es| - 1]), es[|es| - 1])
  }

  function ItemsOf(src: Source, es: seq<IndexEntry>): Bytes {
    if |es| == 0 then [] else ItemsOf(src, es[..|es| - 1]) + ItemOf(src, es[|es| - 1])
  }

  function SpoolOf(src: Source, es: seq<IndexEntry>): Bytes {
    FileOf(src.startItems) + ItemsOf(src, es)
  }

  /** What one uninterrupted run leaves in the spool. */
  function FinalSpool(src: Source): Bytes {
    var es := Entries(src.index);
    SpoolOf(src, es) + FileOf(src.completionItems(SummaryOf(src, es)))
  }

  // ----- the counters -----

  function Classified(s: AnnexSummary): nat {
    s.present + s.unchecked + s.absent + s.supportedUnresolved + s.unsupported + s.mismatched + s.readErrors
  }

  /** At every entry boundary each entry seen is either ignored or in exactly one category. */
  lemma {:induction false} CountersAddUp(src: Source, es: seq<IndexEntry>)
    ensures var s := SummaryOf(src, es);
            && s.entriesSeen == |es| == s.ignoredNonAnnex + Classified(s)
            && s.ignoredSymlinks <= s.ignoredNonAnnex
  {
    hide SummaryAfter, Classified;
    if |es| > 0 {
      CountersAddUp(src, es[..|es| - 1]);
      CountersStep(src, SummaryOf(src, es[..|es| - 1]), es[|es| - 1]);
    } else {
      NothingClassified();
    }
  }

  lemma NothingClassified()
    ensures Classified(EMPTY_SUMMARY) == 0
  {
  }

  lemma CountersStep(src: Source, s: AnnexSummary, e: IndexEntry)
    ensures var s' := SummaryAfter(src, s, e);
            && s'.entriesSeen == s.entriesSeen + 1
            && s'.ignoredNonAnnex + Classified(s') == s.ignoredNonAnnex + Classified(s) + 1
            && (s.ignoredSymlinks <= s.ignoredNonAnnex ==> s'.ignoredSymlinks <= s'.ignoredNonAnnex)
  {
    hide KeyOf;
  }

  lemma SummarySnoc(src: Source, es: seq<IndexEntry>, i: nat)
    requires i < |es|
    ensures SummaryOf(src, es[..i + 1]) == SummaryAfter(src, SummaryOf(src, es[..i]), es[i])
    ensures SpoolOf(src, es[..i + 1]) == SpoolOf(src, es[..i]) + ItemOf(src, es[i])
  {
    hide ItemOf, SummaryAfter, FileOf;
    assert es[..i + 1][..i] == es[..i];
    assert FileOf(src.startItems) + (ItemsOf(src, es[..i]) + ItemOf(src, es[i])) ==
           FileOf(src.startItems) + ItemsOf(src, es[..i]) + ItemOf(src, es[i]);
  }

  lemma {:induction false} EntriesPrefix(index: seq<IndexEntry>, i: nat)
    requires i <= |index|
    ensures Entries(index[..i]) <= Entries(index)
    decreases |index| - i
  {
    if i == |index| {
      assert index[..i] == index;
    } else {
      assert index[..i + 1][..i] == index[..i];
      EntriesPrefix(index, i + 1);
    }
  }

  // ----- counting -----

  datatype Kind = Any | In(category: EntryCategory) | Ignored | IgnoredSymlink

  /** A symbolic link, or a file small enough for a pointer, whose contents name an annex key. */
  ghost predicate NamesKey(src: Source, e: IndexEntry) {
    (e.mode == "120000" || src.blobSize(e.oid) <= 32_768) && src.keyFromBlob(e.mode, e.oid).Some?
  }

  /** The merged entries of a kind. */
  ghost predicate IsOf(src: Source, e: IndexEntry, kind: Kind) {
    e.stage == 0 &&
    match kind
    case Any => true
    case In(category) => NamesKey(src, e) && src.inspect(e, src.keyFromBlob(e.mode, e.oid).value) == category
    case Ignored => !NamesKey(src, e)
    case IgnoredSymlink => !NamesKey(src, e) && e.mode == "120000"
  }

  ghost function PlacesOf(src: Source, index: seq<IndexEntry>, kind: Kind): set<nat> {
    set i: nat | i < |index| && IsOf(src, index[i], kind)
  }

  /** How many entries of the index are of a kind. */
  ghost function Number(src: Source, index: seq<IndexEntry>, kind: Kind): nat { |PlacesOf(src, index, kind)| }

  /** Every counter is the number of its entries. */
  ghost predicate Tallies(s: AnnexSummary, src: Source, index: seq<IndexEntry>) {
    && s.entriesSeen == Number(src, index, Any)
    && s.present == Number(src, index, In(Present)) && s.unchecked == Number(src, index, In(Unchecked))
    && s.absent == Number(src, index, In(Absent)) && s.supportedUnresolved == Number(src, index, In(SupportedUnresolved))
    && s.unsupported == Number(src, index, In(Unsupported)) && s.mismatched == Number(src, index, In(Mismatch))
    && s.readErrors == Number(src, index, In(ReadError))
    && s.ignoredNonAnnex == Number(src, index, Ignored) && s.ignoredSymlinks == Number(src, index, IgnoredSymlink)
  }

  lemma NumberNothing(src: Source, kind: Kind)
    ensures Number(src, [], kind) == 0
  {
    assert PlacesOf(src, [], kind) == {};
  }

  lemma NumberSnoc(src: Source, index: seq<IndexEntry>, e: IndexEntry, kind: Kind)
    ensures Number(src, index + [e], kind) == Number(src, index, kind) + if IsOf(src, e, kind) then 1 else 0
  {
    hide IsOf;
    var places, all := PlacesOf(src, index, kind), PlacesOf(src, index + [e], kind);
    forall i: nat ensures i in all <==> i in places || (i == |index| && IsOf(src, e, kind)) {
      if i < |index| { assert (index + [e])[i] == index[i]; }
    }
    if IsOf(src, e, kind) {
      assert all == places + {|index|} && |index| !in places;
    } else {
      assert all == places;
    }
  }

  lemma TallyNext(s: AnnexSummary, src: Source, index: seq<IndexEntry>, e: IndexEntry)
    requires Tallies(s, src, index)
    ensures Tallies(if e.stage == 0 then SummaryAfter(src, s, e) else s, src, index + [e])
  {
    hide Number;
    forall kind ensures Number(src, index + [e], kind) == Number(src, index, kind) + if IsOf(src, e, kind) then 1 else 0 {
      NumberSnoc(src, index, e, kind);
    }
  }

  /** The summary of an import counts every merged entry once, in its own counter. */
  lemma {:induction false} SummaryTallies(src: Source, index: seq<IndexEntry>)
    ensures Tallies(SummaryOf(src, Entries(index)), src, index)
  {
    hide Tallies, SummaryAfter;
    if |index| == 0 {
      NothingTallied(src);
      assert index == [];
    } else {
      var init, last := index[..|index| - 1], index[|index| - 1];
      SummaryTallies(src, init);
      TallyNext(SummaryOf(src, Entries(init)), src, init, last);
      assert init + [last] == index;
      SummaryStep(src, init, last);
    }
  }

  lemma SummaryStep(src: Source, init: seq<IndexEntry>, last: IndexEntry)
    ensures SummaryOf(src, Entries(init + [last])) ==
            if last.stage == 0 then SummaryAfter(src, SummaryOf(src, Entries(init)), last) else SummaryOf(src, Entries(init))
  {
    hide SummaryAfter;
    var es := Entries(init);
    assert (init + [last])[..|init|] == init;
    if last.stage == 0 {
      assert Entries(init + [last]) == es + [last] && (es + [last])[..|es|] == es;
    } else {
      assert Entries(init + [last]) == es + [] == es;
    }
  }

  lemma NothingTallied(src: Source)
    ensures Tallies(EMPTY_SUMMARY, src, [])
  {
    hide Number;
    forall kind ensures Number(src, [], kind) == 0 { NumberNothing(src, kind); }
  }

  lemma {:induction false} EntriesMerged(index: seq<IndexEntry>)
    ensures forall i :: 0 <= i < |Entries(index)| ==> Entries(index)[i].stage == 0
  {
    if |index| > 0 { EntriesMerged(index[..|index| - 1]); }
  }

  lemma {:induction false} AllMerged(es: seq<IndexEntry>)
    requires forall i :: 0 <= i < |es| ==> es[i].stage == 0
    ensures Entries(es) == es
  {
    if |es| > 0 {
      AllMerged(es[..|es| - 1]);
      assert es[..|es| - 1] + [es[|es| - 1]] == es;
    }
  }

  /** The same for an import that has read the first `n` merged entries. */
  lemma PartTallies(src: Source, n: nat)
    requires n <= |Entries(src.index)|
    ensures Tallies(SummaryOf(src, Entries(src.index)[..n]), src, Entries(src.index)[..n])
  {
    hide Entries, SummaryOf, Tallies;
    EntriesMerged(src.index);
    AllMerged(Entries(src.index)[..n]);
    SummaryTallies(src, Entries(src.index)[..n]);
  }

  // ----- the entries and their items -----

  /** The merged entries among the first `n`. */
  ghost function Merged(index: seq<IndexEntry>, n: nat): set<nat>
    requires n <= |index|
  {
    set i: nat | i < n && index[i].stage == 0
  }

  lemma {:induction false} MergedCount(index: seq<IndexEntry>, n: nat)
    requires n <= |index|
    ensures |Entries(index[..n])| == |Merged(index, n)|
  {
    hide Entries;
    if n == 0 {
      assert Merged(index, 0) == {} && index[..0] == [];
      NoEntries();
    } else {
      MergedCount(index, n - 1);
      EntriesStep(index, n - 1);
      assert Merged(index, n) == Merged(index, n - 1) + (if index[n - 1].stage == 0 then {n - 1} else {});
      assert n - 1 !in Merged(index, n - 1);
    }
  }

  lemma NoEntries()
    ensures Entries([]) == []
  {
  }

  /** The entries looked at are the merged ones, in their order. */
  lemma EntriesAre(index: seq<IndexEntry>)
    ensures |Entries(index)| == |Merged(index, |index|)|
    ensures forall i: nat :: i < |index| && index[i].stage == 0 ==>
              |Merged(index, i)| < |Entries(index)| && Entries(index)[|Merged(index, i)|] == index[i]
  {
    hide Entries, Merged;
    MergedCount(index, |index|);
    assert index[..|index|] == index;
    forall i: nat | i < |index| && index[i].stage == 0
      ensures |Merged(index, i)| < |Entries(index)| && Entries(index)[|Merged(index, i)|] == index[i]
    {
      MergedCount(index, i);
      EntriesStep(index, i);
    }
  }

  /** The items of the entries that name a key, each on a line of its own. */
  ghost function KeyItems(src: Source, index: seq<IndexEntry>): seq<Bytes> {
    if |index| == 0 then []
    else
      var last := index[|index| - 1];
      KeyItems(src, index[..|index| - 1])
      + if last.stage == 0 && NamesKey(src, last) then [src.entryItem(last, src.keyFromBlob(last.mode, last.oid).value)] else []
  }

  /** Exactly the entries that name a key have an item in the spool. */
  lemma {:induction false} ItemsAre(src: Source, index: seq<IndexEntry>)
    ensures ItemsOf(src, Entries(index)) == FileOf(KeyItems(src, index))
  {
    hide FileOf, Entries, ItemsOf;
    if |index| > 0 {
      var init, last := index[..|index| - 1], index[|index| - 1];
      ItemsAre(src, init);
      ItemsStep(src, init, last);
      assert init + [last] == index;
      FileOfNone();
      if last.stage == 0 && NamesKey(src, last) {
        FileOfSnoc(KeyItems(src, init), src.entryItem(last, src.keyFromBlob(last.mode, last.oid).value));
      } else {
        assert KeyItems(src, init) + [] == KeyItems(src, init);
      }
    } else {
      assert index == [];
      NoItems(src);
      FileOfNone();
    }
  }

  lemma NoItems(src: Source)
    ensures ItemsOf(src, Entries([])) == []
  {
  }

  lemma ItemsStep(src: Source, init: seq<IndexEntry>, last: IndexEntry)
    ensures ItemsOf(src, Entries(init + [last])) ==
            ItemsOf(src, Entries(init)) + if last.stage == 0 then ItemOf(src, last) else []
  {
    hide ItemOf;
    var es := Entries(init);
    assert (init + [last])[..|init|] == init;
    if last.stage == 0 {
      assert Entries(init + [last]) == es + [last] && (es + [last])[..|es|] == es;
    } else {
      assert Entries(init + [last]) == es + [] == es;
    }
  }

  /** What a finished import appends: the start items, the items of all keys, and the closing items. */
  lemma SpoolIs(src: Source)
    ensures FinalSpool(src) == FileOf(src.startItems) + FileOf(KeyItems(src, src.index))
                               + FileOf(src.completionItems(SummaryOf(src, Entries(src.index))))
  {
    hide FileOf, Entries, SummaryOf, ItemsOf;
    ItemsAre(src, src.index);
  }

  datatype Outcome = Complete(summary: AnnexSummary) | Interrupted(summary: AnnexSummary)

  datatype ImportError = Stopped

  /** The job's own directory, the batches it appended to the event store, and how many of them the catalog has
      applied: a batch carries the item that marks the job complete, but only once it is applied. */
  class ImportJob {
    const src: Source
    var spool: Bytes
    var checkpoint: Option<AnnexCheckpoint>
    var appended: seq<(Bytes, AnnexSummary)>
    var applied: nat
    var countdown: int
    var garbage: Bytes

    constructor (src: Source)
      ensures this.src == src && JobOk() && Done() == 0 && appended == []
    {
      this.src, spool, checkpoint, appended, applied, countdown, garbage := src, [], None, [], 0, -1, [];
    }

    /** The entries a checkpoint accounts for. */
    function Done(): nat
      reads this
    {
      if checkpoint.Some? then checkpoint.value.summary.entriesSeen else 0
    }

    /** The synced spool is exactly the items of the first `Done()` entries; at most one batch was appended. */
    ghost predicate JobOk()
      reads this
    {
      && (checkpoint.Some? ==>
            && CheckpointIs(src, checkpoint.value, Done())
            && checkpoint.value.spoolLen <= |spool|
            && spool[..checkpoint.value.spoolLen] == SpoolOf(src, Entries(src.index)[..Done()]))
      && applied <= |appended| <= 1
      && (|appended| > 0 ==> appended[0] == (FinalSpool(src), SummaryOf(src, Entries(src.index))))
    }

    /** Does the process stop here? Unsynced output may be anything afterwards. */
    method MaybeStop() returns (stop: bool)
      modifies this`spool, this`countdown
      ensures old(JobOk()) ==> JobOk()
      ensures !stop ==> spool == old(spool)
      ensures old(countdown) < 0 ==> !stop && countdown < 0
    {
      stop := countdown == 0;
      countdown := countdown - 1;
      if stop {
        var kept := if checkpoint.Some? && checkpoint.value.spoolLen <= |spool| then checkpoint.value.spoolLen else 0;
        spool := spool[..kept] + garbage;
        assert checkpoint.Some? && kept == checkpoint.value.spoolLen ==> spool[..kept] == old(spool)[..kept];
      }
    }

    /** `write_v2_item`, for one or more items. */
    method WriteItems(bytes: Bytes) returns (ok: bool)
      modifies this`spool, this`countdown
      ensures old(JobOk()) ==> JobOk()
      ensures ok ==> spool == old(spool) + bytes
      ensures old(countdown) < 0 ==> ok && countdown < 0
    {
      spool := spool + bytes;
      assert checkpoint.Some? && checkpoint.value.spoolLen <= |old(spool)| ==>
          spool[..checkpoint.value.spoolLen] == old(spool)[..checkpoint.value.spoolLen];
      var stop := MaybeStop();
      return !stop;
    }

    /** `save_annex_checkpoint`: sync the spool, then replace the checkpoint file. */
    method SaveCheckpoint(summary: AnnexSummary) returns (ok: bool)
      modifies this`spool, this`checkpoint, this`countdown
      ensures ok ==> spool == old(spool) && checkpoint == Some(AnnexCheckpoint(summary, |spool|))
      ensures checkpoint == old(checkpoint) || checkpoint == Some(AnnexCheckpoint(summary, |old(spool)|))
      ensures old(countdown) < 0 ==> ok && countdown < 0
      ensures old(JobOk()) && AtBoundary(src, summary, old(spool)) ==> JobOk()
    {
      var stop := MaybeStop();
      if stop {
        return false;
      }
      checkpoint := Some(AnnexCheckpoint(summary, |spool|));
      ghost var now := spool;
      assert spool[..|spool|] == spool;
      stop := MaybeStop();
      return !stop;
    }

    /** `V2AnnexImporter::run_at_most`, over the unchanged source. Batches appended but not yet applied are
        applied first, so that a job stopped between the two steps is found complete. */
    method RunAtMost(limit: Option<nat>) returns (r: Result<Outcome, ImportError>)
      modifies this
      ensures old(JobOk()) ==>
                && JobOk() && Done() >= old(Done()) && old(applied) <= applied <= |appended| <= 1
                && (r.Ok? && r.value.Complete? ==>
                      && appended == [(FinalSpool(src), r.value.summary)] && applied == 1
                      && r.value.summary == SummaryOf(src, Entries(src.index)))
                && (r.Ok? && r.value.Interrupted? ==>
                      && limit.Some? && appended == [] && Done() == old(Done()) + limit.value < |Entries(src.index)|
                      && r.value.summary == SummaryOf(src, Entries(src.index)[..Done()]))
      ensures old(JobOk()) && r.Ok? ==>
                && Tallies(r.value.summary, src, if r.value.Complete? then src.index else Entries(src.index)[..Done()])
                && (r.value.Complete? ==>
                      appended == [(FileOf(src.startItems) + FileOf(KeyItems(src, src.index))
                                    + FileOf(src.completionItems(r.value.summary)), r.value.summary)])
      ensures old(|appended| > 0) ==> appended == old(appended) && (r.Ok? ==> r.value.Complete?)
      ensures old(countdown) < 0 ==> r.Ok?
      ensures old(JobOk()) && old(countdown) < 0 && (limit.None? || |Entries(src.index)| <= old(Done()) + limit.value) ==>
                r.Ok? && r.value.Complete?
    {
      hide FileOf, SummaryOf, SpoolOf, SummaryAfter, Add, ItemOf, KeyOf, FinalSpool, Entries, JobOk, Tallies, KeyItems;
      ghost var ready, n0 := JobOk(), Done();
      if ready { BatchesMean(); }
      SummaryTallies(src, src.index);
      SpoolIs(src);
      ghost var es := Entries(src.index);
      var stop := MaybeStop();
      if stop {
        return Err(Stopped);
      }
      ApplyAppended();
      if applied > 0 {
        if ready { BatchesMean(); }
        return Ok(Complete(appended[0].1));
      }
      var prepared := Prepare();
      if !prepared {
        return Err(Stopped);
      }
      var summary := if checkpoint.Some? then checkpoint.value.summary else EMPTY_SUMMARY;
      var read := ReadIndex(limit, summary);
      if read.Err? {
        return Err(Stopped);
      }
      if read.value.Interrupted? {
        if ready { PartTallies(src, read.value.summary.entriesSeen); }
        var saved := SaveCheckpoint(read.value.summary);
        return if saved then Ok(Interrupted(read.value.summary)) else Err(Stopped);
      }
      assert ready ==> es[..|es|] == es;
      r := Finish(read.value.summary);
    }

    /** The end of a run that has read the whole index: the last items, the batch, and the catalog. */
    method Finish(summary: AnnexSummary) returns (r: Result<Outcome, ImportError>)
      modifies this`spool, this`countdown, this`appended, this`applied
      ensures old(countdown) < 0 ==> r.Ok?
      ensures r.Ok? ==> r.value == Complete(summary)
      ensures old(JobOk() && |appended| == 0) && summary == SummaryOf(src, Entries(src.index))
              && old(spool) == SpoolOf(src, Entries(src.index)) ==>
                && JobOk() && applied <= |appended| <= 1
                && (r.Ok? ==> appended == [(FinalSpool(src), summary)] && applied == 1)
    {
      hide FileOf, SummaryOf, SpoolOf, SummaryAfter, Add, ItemOf, KeyOf, FinalSpool, Entries, JobOk;
      ghost var ready := JobOk() && |appended| == 0 && summary == SummaryOf(src, Entries(src.index))
                         && spool == SpoolOf(src, Entries(src.index));
      if ready { BatchesMean(); }
      var completed := WriteItems(FileOf(src.completionItems(summary)));
      if !completed {
        return Err(Stopped);
      }
      var stop := MaybeStop();
      if stop {
        return Err(Stopped);
      }
      if ready { FinalMeans(src, summary, spool); }
      label Unappended:
      appended := appended + [(spool, summary)];
      if ready { AppendKeeps@Unappended(); BatchesMean(); }
      stop := MaybeStop();
      if stop {
        return Err(Stopped);
      }
      ApplyAppended();
      return Ok(Complete(summary));
    }

    /** `projection.apply`: everything appended so far is in the catalog. */
    method ApplyAppended()
      modifies this`applied
      ensures applied == |appended|
      ensures old(JobOk()) ==> JobOk()
    {
      applied := |appended|;
    }

    lemma BatchesMean()
      requires JobOk()
      ensures applied <= |appended| <= 1
      ensures |appended| > 0 ==> appended == [(FinalSpool(src), SummaryOf(src, Entries(src.index)))]
    {
    }

    twostate lemma AppendKeeps()
      requires old(JobOk()) && old(|appended|) == 0
      requires spool == old(spool) && checkpoint == old(checkpoint) && applied == old(applied)
      requires appended == [(FinalSpool(src), SummaryOf(src, Entries(src.index)))]
      ensures JobOk()
    {
    }

    /** Cut the spool back to the checkpoint; a fresh job writes its start items and a first checkpoint. */
    method Prepare() returns (ok: bool)
      modifies this`spool, this`checkpoint, this`countdown
      ensures old(JobOk()) ==> JobOk() && Done() == old(Done())
      ensures old(JobOk()) && ok ==> checkpoint.Some? && spool == SpoolOf(src, Entries(src.index)[..Done()])
      ensures old(countdown) < 0 ==> ok && countdown < 0
    {
      hide FileOf, SummaryAfter, ItemOf, Entries;
      var length := if checkpoint.Some? then checkpoint.value.spoolLen else 0;
      spool := if length <= |spool| then spool[..length] else spool + seq(length - |spool|, _ => 0);
      assert old(JobOk()) ==> JobOk();
      if checkpoint.Some? {
        return true;
      }
      NothingDone(src);
      ok := WriteItems(FileOf(src.startItems));
      if ok {
        ok := SaveCheckpoint(EMPTY_SUMMARY);
      }
    }

    /** The loop over the index. */
    method ReadIndex(limit: Option<nat>, start: AnnexSummary) returns (r: Result<Outcome, ImportError>)
      modifies this`spool, this`checkpoint, this`countdown
      ensures old(countdown) < 0 ==> r.Ok? && countdown < 0
      ensures old(JobOk()) && old(checkpoint.Some?) && old(checkpoint.value.summary) == start
              && old(spool) == SpoolOf(src, Entries(src.index)[..old(Done())]) ==>
                var es := Entries(src.index);
                && JobOk() && Done() >= old(Done())
                && (r.Ok? ==>
                      var n := r.value.summary.entriesSeen;
                      && n <= |es| && spool == SpoolOf(src, es[..n]) && r.value.summary == SummaryOf(src, es[..n])
                      && (r.value.Complete? ==> n == |es|)
                      && (r.value.Interrupted? ==> limit.Some? && n == old(Done()) + limit.value < |es| && Done() <= n))
                && (old(countdown) < 0 && (limit.None? || |es| <= old(Done()) + limit.value) ==> r.Ok? && r.value.Complete?)
                && (r.Ok? ==> NothingDue(src.batchEntries, Done(), r.value.summary.entriesSeen))
    {
      hide FileOf, SummaryOf, SpoolOf, SummaryAfter, Add, ItemOf, KeyOf, Entries, JobOk, InLoop, Classified, NothingDue, IsMultipleOf;
      ghost var es, n0 := Entries(src.index), Done();
      if JobOk() && checkpoint.Some? { CheckpointMeans(); }
      ghost var ready := JobOk() && checkpoint.Some? && checkpoint.value.summary == start && spool == SpoolOf(src, es[..n0]);
      var summary, skipEntries, processed := start, start.entriesSeen, 0;
      if ready {
        CheckpointMeans();
        LoopStart(src, n0, summary, spool);
      }
      NoneDue(src.batchEntries, n0);
      for i := 0 to |src.index|
        invariant old(countdown) < 0 ==> countdown < 0
        invariant ready ==> InLoop(src, i, n0, skipEntries, processed, summary, spool)
        invariant ready ==> JobOk() && n0 <= Done() <= n0 + processed && NothingDue(src.batchEntries, Done(), n0 + processed)
        invariant limit.Some? ==> processed <= limit.value
      {
        var entry := src.index[i];
        if ready { LoopSkip(src, i, n0, skipEntries, processed, summary, spool); }
        if entry.stage != 0 {
          continue;
        }
        if skipEntries > 0 {
          skipEntries := skipEntries - 1;
          continue;
        }
        if limit.Some? && processed >= limit.value {
          if ready { LoopCounts(src, i, n0, skipEntries, processed, summary, spool); }
          return Ok(Interrupted(summary));
        }
        processed := processed + 1;
        if ready { LoopNext(src, i, n0, processed - 1, summary, spool); }
        ghost var before, done := spool, Done();
        if ready { LoopCounts(src, i + 1, n0, skipEntries, processed, SummaryAfter(src, summary, entry), before + ItemOf(src, entry)); }
        var imported, next := ImportEntry(entry, summary);
        if !imported {
          return Err(Stopped);
        }
        summary := next;
        DueNext(src.batchEntries, done, n0 + processed);
      }
      if ready { LoopCounts(src, |src.index|, n0, skipEntries, processed, summary, spool); LoopDone(src, n0, skipEntries, processed, summary, spool); }
      return Ok(Complete(summary));
    }

    /** One entry of the merged stage, its item, and a checkpoint when one is due. */
    method ImportEntry(e: IndexEntry, summary: AnnexSummary) returns (ok: bool, next: AnnexSummary)
      modifies this`spool, this`checkpoint, this`countdown
      ensures old(countdown) < 0 ==> ok && countdown < 0
      ensures next == SummaryAfter(src, summary, e)
      ensures ok ==> spool == old(spool) + ItemOf(src, e)
      ensures ok ==> if IsMultipleOf(next.entriesSeen, src.batchEntries) then Done() == next.entriesSeen else Done() == old(Done())
      ensures Done() == old(Done()) || Done() == next.entriesSeen
      ensures old(JobOk()) && AtBoundary(src, next, old(spool) + ItemOf(src, e)) ==> JobOk()
    {
      hide FileOf, SummaryOf, SpoolOf, SummaryAfter, ItemOf, Entries, JobOk, IsMultipleOf, AtBoundary;
      var item;
      item, next := ProcessEntry(e, summary);
      assert spool + [] == spool;
      if |item| > 0 {
        ok := WriteItems(item);
        if !ok {
          return;
        }
      }
      ok := true;
      if IsMultipleOf(next.entriesSeen, src.batchEntries) {
        ok := SaveCheckpoint(next);
      }
    }

    /** One entry of the merged stage. */
    method ProcessEntry(e: IndexEntry, summary: AnnexSummary) returns (item: Bytes, next: AnnexSummary)
      ensures item == ItemOf(src, e) && next == SummaryAfter(src, summary, e)
    {
      item, next := [], summary.(entriesSeen := summary.entriesSeen + 1);
      if e.mode != SYMLINK_MODE && src.blobSize(e.oid) > MAX_POINTER_BYTES {
        next := next.(ignoredNonAnnex := next.ignoredNonAnnex + 1);
        return;
      }
      var key := src.keyFromBlob(e.mode, e.oid);
      if key.None? {
        next := next.(ignoredNonAnnex := next.ignoredNonAnnex + 1);
        if e.mode == SYMLINK_MODE {
          next := next.(ignoredSymlinks := next.ignoredSymlinks + 1);
        }
        return;
      }
      next := Add(next, src.inspect(e, key.value));
      item := src.entryItem(e, key.value) + [NEWLINE];
    }

    lemma CheckpointMeans()
      requires JobOk() && checkpoint.Some?
      ensures CheckpointIs(src, checkpoint.value, Done())
    {
    }
  }

  /** No checkpoint is due after `done` entries and up to `n`. */
  ghost predicate NothingDue(batch: nat, done: nat, n: nat) {
    forall k :: done < k <= n ==> !IsMultipleOf(k, batch)
  }

  lemma NoneDue(batch: nat, n: nat)
    ensures NothingDue(batch, n, n)
  {
  }

  lemma DueNext(batch: nat, done: nat, n: nat)
    requires n > 0
    ensures NothingDue(batch, done, n - 1) && !IsMultipleOf(n, batch) ==> NothingDue(batch, done, n)
    ensures NothingDue(batch, n, n)
  {
  }

  predicate IsMultipleOf(n: nat, k: nat) { if k == 0 then n == 0 else n % k == 0 }

  ghost predicate CheckpointIs(src: Source, c: AnnexCheckpoint, n: nat) {
    && n == c.summary.entriesSeen && n <= |Entries(src.index)|
    && c.summary == SummaryOf(src, Entries(src.index)[..n])
  }

  /** Summary and spool of exactly the first `entriesSeen` entries. */
  ghost predicate AtBoundary(src: Source, summary: AnnexSummary, spool: Bytes) {
    && summary.entriesSeen <= |Entries(src.index)|
    && spool == SpoolOf(src, Entries(src.index)[..summary.entriesSeen])
    && summary == SummaryOf(src, Entries(src.index)[..summary.entriesSeen])
  }

  /** Before index position `i`: the entries up to there are skipped or processed, none twice. */
  ghost predicate InLoop(src: Source, i: nat, n0: nat, skipEntries: nat, processed: nat, summary: AnnexSummary, spool: Bytes) {
    var es := Entries(src.index);
    i <= |src.index| && n0 + processed <= |es| &&
    var m := |Entries(src.index[..i])|;
    && Entries(src.index[..i]) <= es
    && (m <= n0 ==> processed == 0 && skipEntries == n0 - m)
    && (m > n0 ==> skipEntries == 0 && processed == m - n0)
    && summary == SummaryOf(src, es[..n0 + processed]) && spool == SpoolOf(src, es[..n0 + processed])
  }

  lemma LoopStart(src: Source, n0: nat, summary: AnnexSummary, spool: Bytes)
    requires n0 <= |Entries(src.index)| && summary == SummaryOf(src, Entries(src.index)[..n0])
    requires spool == SpoolOf(src, Entries(src.index)[..n0])
    ensures InLoop(src, 0, n0, n0, 0, summary, spool)
  {
    hide SummaryOf, SpoolOf;
    assert src.index[..0] == [];
  }

  /** Conflict entries and already imported ones leave the summary and the spool alone. */
  lemma LoopSkip(src: Source, i: nat, n0: nat, skipEntries: nat, processed: nat, summary: AnnexSummary, spool: Bytes)
    requires i < |src.index| && InLoop(src, i, n0, skipEntries, processed, summary, spool)
    ensures src.index[i].stage != 0 ==> InLoop(src, i + 1, n0, skipEntries, processed, summary, spool)
    ensures src.index[i].stage == 0 && skipEntries > 0 ==> InLoop(src, i + 1, n0, skipEntries - 1, processed, summary, spool)
  {
    hide SummaryOf, SpoolOf, FileOf, Entries;
    EntriesStep(src.index, i);
  }

  lemma NothingDone(src: Source)
    ensures SummaryOf(src, Entries(src.index)[..0]) == EMPTY_SUMMARY
    ensures SpoolOf(src, Entries(src.index)[..0]) == FileOf(src.startItems)
  {
    hide FileOf, Entries;
    assert ItemsOf(src, Entries(src.index)[..0]) == [];
  }

  lemma EntriesStep(index: seq<IndexEntry>, i: nat)
    requires i < |index|
    ensures Entries(index[..i + 1]) == Entries(index[..i]) + if index[i].stage == 0 then [index[i]] else []
    ensures Entries(index[..i + 1]) <= Entries(index)
  {
    assert index[..i + 1][..i] == index[..i];
    EntriesPrefix(index, i + 1);
  }

  lemma LoopCounts(src: Source, i: nat, n0: nat, skipEntries: nat, processed: nat, summary: AnnexSummary, spool: Bytes)
    requires InLoop(src, i, n0, skipEntries, processed, summary, spool)
    ensures summary.entriesSeen == n0 + processed && AtBoundary(src, summary, spool)
    ensures i < |src.index| && src.index[i].stage == 0 && skipEntries == 0 ==> n0 + processed < |Entries(src.index)|
  {
    hide SummaryOf, SpoolOf, FileOf, Entries;
    CountersAddUp(src, Entries(src.index)[..n0 + processed]);
    if i < |src.index| { EntriesStep(src.index, i); }
  }

  /** The entry at hand is the next one to process. */
  lemma LoopNext(src: Source, i: nat, n0: nat, processed: nat, summary: AnnexSummary, spool: Bytes)
    requires i < |src.index| && src.index[i].stage == 0 && InLoop(src, i, n0, 0, processed, summary, spool)
    ensures InLoop(src, i + 1, n0, 0, processed + 1, SummaryAfter(src, summary, src.index[i]), spool + ItemOf(src, src.index[i]))
  {
    hide SummaryOf, SpoolOf, FileOf, Entries, SummaryAfter, ItemOf;
    EntriesStep(src.index, i);
    SummarySnoc(src, Entries(src.index), n0 + processed);
  }

  lemma LoopDone(src: Source, n0: nat, skipEntries: nat, processed: nat, summary: AnnexSummary, spool: Bytes)
    requires InLoop(src, |src.index|, n0, skipEntries, processed, summary, spool)
    ensures n0 + processed == |Entries(src.index)|
  {
    hide SummaryOf, SpoolOf, FileOf, Entries;
    assert src.index[..|src.index|] == src.index;
  }

  lemma FinalMeans(src: Source, summary: AnnexSummary, spool: Bytes)
    requires summary == SummaryOf(src, Entries(src.index))
    requires spool == SpoolOf(src, Entries(src.index)) + FileOf(src.completionItems(summary))
    ensures spool == FinalSpool(src)
  {
  }

  /** One attempt at an import: its limit, where it is stopped, and what a stop leaves behind. */
  datatype Attempt = Attempt(limit: Option<nat>, countdown: int, garbage: Bytes)

  /** Any sequence of limited and interrupted runs, also when stopped between appending and applying: at most
      one batch is ever appended, exactly the one a single uninterrupted run would have appended. */
  method RunAttempts(job: ImportJob, attempts: seq<Attempt>) returns (results: seq<Result<Outcome, ImportError>>)
    requires job.JobOk() && job.appended == []
    modifies job
    ensures job.JobOk() && |results| == |attempts|
    ensures |job.appended| <= 1
    ensures |job.appended| > 0 ==> job.appended[0] == (FinalSpool(job.src), SummaryOf(job.src, Entries(job.src.index)))
    ensures forall k :: 0 <= k < |results| && results[k].Ok? && results[k].value.Complete? ==>
              && job.appended == [(FinalSpool(job.src), SummaryOf(job.src, Entries(job.src.index)))] && job.applied == 1
              && results[k].value.summary == SummaryOf(job.src, Entries(job.src.index))
    ensures job.Done() >= old(job.Done())
    ensures forall k :: 0 <= k < |attempts| && attempts[k].countdown < 0 && attempts[k].limit.None? ==>
              results[k].Ok? && results[k].value.Complete?
  {
    hide SummaryOf, FinalSpool, Entries, ImportJob.JobOk, ImportJob.Done;
    results := [];
    job.BatchesMean();
    for i := 0 to |attempts|
      invariant job.JobOk() && |results| == i && job.Done() >= old(job.Done()) && job.applied <= |job.appended| <= 1
      invariant forall k :: 0 <= k < i && results[k].Ok? && results[k].value.Complete? ==>
                  && job.appended == [(FinalSpool(job.src), SummaryOf(job.src, Entries(job.src.index)))] && job.applied == 1
                  && results[k].value.summary == SummaryOf(job.src, Entries(job.src.index))
      invariant forall k :: 0 <= k < i && attempts[k].countdown < 0 && attempts[k].limit.None? ==>
                  results[k].Ok? && results[k].value.Complete?
    {
      label Before:
      job.countdown, job.garbage := attempts[i].countdown, attempts[i].garbage;
      JobUnchanged@Before(job);
      var r := job.RunAtMost(attempts[i].limit);
      results := results + [r];
    }
    job.BatchesMean();
  }

  twostate lemma JobUnchanged(job: ImportJob)
    requires job.spool == old(job.spool) && job.checkpoint == old(job.checkpoint) && job.appended == old(job.appended)
    requires job.applied == old(job.applied)
    ensures job.JobOk() == old(job.JobOk()) && job.Done() == old(job.Done())
  {
  }

  // ----- framed identifiers -----

  /** The eight length bytes, least significant first. */
  function LittleEndian(n: nat, width: nat): seq<nat> {
    if width == 0 then [] else [n % 256] + LittleEndian(n / 256, width - 1)
  }

  function Pow256(k: nat): nat { if k == 0 then 1 else 256 * Pow256(k - 1) }

  /** The number written with these digits, the first one the least significant. */
  ghost function ValueOf(digits: seq<nat>): nat { if |digits| == 0 then 0 else digits[0] + 256 * ValueOf(digits[1..]) }

  /** The bytes of a number that fits are its digits. */
  lemma {:induction false} LittleEndianValue(n: nat, width: nat)
    requires n < Pow256(width)
    ensures ValueOf(LittleEndian(n, width)) == n
    ensures |LittleEndian(n, width)| == width && forall i :: 0 <= i < width ==> LittleEndian(n, width)[i] < 256
  {
    if width > 0 {
      LittleEndianValue(n / 256, width - 1);
      assert LittleEndian(n, width)[1..] == LittleEndian(n / 256, width - 1);
    }
  }

  /** What `stable_id` hashes: every piece preceded by its length. */
  function Framed(pieces: seq<seq<nat>>): seq<nat> {
    if |pieces| == 0 then [] else LittleEndian(|pieces[0]|, 8) + pieces[0] + Framed(pieces[1..])
  }

  lemma {:induction false} LittleEndianInjective(a: nat, b: nat, width: nat)
    requires a < Pow256(width) && b < Pow256(width) && LittleEndian(a, width) == LittleEndian(b, width)
    ensures a == b
  {
    if width > 0 {
      var la, lb := LittleEndian(a, width), LittleEndian(b, width);
      assert la[0] == a % 256 && lb[0] == b % 256;
      assert la[1..] == LittleEndian(a / 256, width - 1) && lb[1..] == LittleEndian(b / 256, width - 1);
      LittleEndianInjective(a / 256, b / 256, width - 1);
    }
  }

  lemma {:induction false} LittleEndianLength(n: nat, width: nat)
    ensures |LittleEndian(n, width)| == width
  {
    if width > 0 { LittleEndianLength(n / 256, width - 1); }
  }

  /** Framing keeps piece boundaries: different piece lists never hash the same bytes. */
  lemma {:induction false} FramedInjective(a: seq<seq<nat>>, b: seq<seq<nat>>)
    requires forall i :: 0 <= i < |a| ==> |a[i]| < Pow256(8)
    requires forall i :: 0 <= i < |b| ==> |b[i]| < Pow256(8)
    requires Framed(a) == Framed(b)
    ensures a == b
    decreases |a|
  {
    hide LittleEndian, Pow256;
    if |a| > 0 { LittleEndianLength(|a[0]|, 8); }
    if |b| > 0 { LittleEndianLength(|b[0]|, 8); }
    if |a| > 0 && |b| > 0 {
      var fa, fb := Framed(a), Framed(b);
      assert fa[..8] == LittleEndian(|a[0]|, 8) && fb[..8] == LittleEndian(|b[0]|, 8);
      LittleEndianInjective(|a[0]|, |b[0]|, 8);
      var n := 8 + |a[0]|;
      assert fa[8..n] == a[0] && fb[8..n] == b[0];
      assert fa[n..] == Framed(a[1..]) && fb[n..] == Framed(b[1..]);
      FramedInjective(a[1..], b[1..]);
      assert a == [a[0]] + a[1..] && b == [b[0]] + b[1..];
    }
  }
}
