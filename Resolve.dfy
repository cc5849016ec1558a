/**
 * What `remove_duplicates` and `archive_duplicates` (finder.py) do to the
 * filesystem and to their result dictionaries, as folds over the group
 * members in order.
 *
 * The groups arrive as the caller sends them: each member carries a path
 * and, optionally, `size_bytes` and `size` entries, whose `int(...)`
 * conversion may fail. A path in `locked` exists but cannot be unlinked or
 * moved (the call raises).
 */
module Resolve {
  import opened Base
  import opened PathNames
  import opened FinderSpec

  /** What `int(v)` makes of a recorded size: a number, or an exception. */
  datatype SizeValue = Num(n: int) | NotNumeric

  /** One member of a group as the resolvers read it. */
  datatype DupEntry = DupEntry(path: string, sizeBytes: Option<SizeValue>, size: Option<SizeValue>)

  /** `duplicate_groups`: digest and member list of each group, in dictionary order. */
  type Groups = seq<(string, seq<DupEntry>)>

  /** `int(file_info.get('size_bytes', file_info.get('size', 0)))`. */
  function RecordedSize(e: DupEntry): SizeValue
  {
    if e.sizeBytes.Some? then e.sizeBytes.value
    else if e.size.Some? then e.size.value
    else Num(0)
  }

  /** The recorded size as a number, 0 when it cannot be converted. */
  function SizeOr0(e: DupEntry): int
  {
    match RecordedSize(e)
    case Num(n) => n
    case NotNumeric => 0
  }

  /** `enumerate(files)`. */
  function Indexed(fs: seq<DupEntry>): (r: seq<(nat, DupEntry)>)
    ensures |r| == |fs|
    ensures forall k :: 0 <= k < |r| ==> r[k] == (k, fs[k])
  {
    if fs == [] then [] else Indexed(fs[..|fs| - 1]) + [(|fs| - 1, fs[|fs| - 1])]
  }

  /** Every member of every group with its index in its group, in the order both resolvers visit them. */
  function Members(groups: Groups): seq<(nat, DupEntry)>
  {
    if groups == [] then [] else Members(groups[..|groups| - 1]) + Indexed(groups[|groups| - 1].1)
  }

  lemma IndexedSnoc(fs: seq<DupEntry>, i: nat)
    requires i < |fs|
    ensures Indexed(fs[..i + 1]) == Indexed(fs[..i]) + [(i, fs[i])]
  {
    assert fs[..i + 1][..i] == fs[..i];
  }

  /** A filesystem that only lost files: what is left is unchanged. */
  predicate Shrunk(after: Files, before: Files)
  {
    forall p :: p in after ==> p in before && after[p] == before[p]
  }

  // ----- remove_duplicates -----

  datatype RemoveResult = RemoveResult(success: bool, processed: nat, errors: seq<string>, removed: nat, kept: nat, spaceSaved: int)

  /** The error recorded for a member that could not be removed (the exception text is not modelled). */
  function RemoveError(path: string): string
  {
    "Failed to remove " + path
  }

  /** An empty keep list is replaced by `[0]`; the replacement then stands for every group. */
  function EffectiveKeep(keep: seq<int>): (r: seq<int>)
    ensures r != []
    ensures keep != [] ==> r == keep
  {
    if keep == [] then [0] else keep
  }

  /** The loop body of `remove_duplicates` for one member. */
  function RemoveStep(files: Files, r: RemoveResult, locked: set<string>, keep: seq<int>, m: (nat, DupEntry)): (Files, RemoveResult)
  {
    var (idx, e) := m;
    if idx as int in keep then (files, r.(kept := r.kept + 1, processed := r.processed + 1))
    else if e.path !in files then (files, r.(processed := r.processed + 1))
    else if RecordedSize(e).NotNumeric? || e.path in locked then (files, r.(errors := r.errors + [RemoveError(e.path)]))
    else (files - {e.path}, r.(removed := r.removed + 1, spaceSaved := r.spaceSaved + RecordedSize(e).n, processed := r.processed + 1))
  }

  /** The counters before the loop. */
  const RemoveStart := RemoveResult(true, 0, [], 0, 0, 0)

  /** The filesystem and the counters after visiting the members `ms`. */
  function RemoveRun(files: Files, locked: set<string>, keep: seq<int>, ms: seq<(nat, DupEntry)>): (Files, RemoveResult)
  {
    if ms == [] then (files, RemoveStart)
    else
      var (f, r) := RemoveRun(files, locked, keep, ms[..|ms| - 1]);
      RemoveStep(f, r, locked, keep, ms[|ms| - 1])
  }

  lemma RemoveRunSnoc(files: Files, locked: set<string>, keep: seq<int>, ms: seq<(nat, DupEntry)>, m: (nat, DupEntry))
    ensures RemoveRun(files, locked, keep, ms + [m]) ==
      RemoveStep(RemoveRun(files, locked, keep, ms).0, RemoveRun(files, locked, keep, ms).1, locked, keep, m)
  {
    assert (ms + [m])[..|ms|] == ms;
  }

  /** `remove_duplicates(groups, keep)`: the filesystem afterwards and the returned dictionary. */
  function RemoveDuplicates(files: Files, locked: set<string>, groups: Groups, keep: seq<int>): (Files, RemoveResult)
  {
    var (f, r) := RemoveRun(files, locked, EffectiveKeep(keep), Members(groups));
    (f, r.(success := r.errors == []))
  }

  /** The number of members whose index is in `keep`. */
  function KeptCount(keep: seq<int>, ms: seq<(nat, DupEntry)>): nat
  {
    if ms == [] then 0 else KeptCount(keep, ms[..|ms| - 1]) + (if ms[|ms| - 1].0 as int in keep then 1 else 0)
  }

  /** The recorded sizes of the members whose index is not in `keep`. */
  function NotKeptSize(keep: seq<int>, ms: seq<(nat, DupEntry)>): int
  {
    if ms == [] then 0 else NotKeptSize(keep, ms[..|ms| - 1]) + (if ms[|ms| - 1].0 as int in keep then 0 else SizeOr0(ms[|ms| - 1].1))
  }

  /**
   * Every member is either processed or reported, and never both; kept
   * members are counted; each removal deletes one existing file and
   * touches nothing else.
   */
  lemma {:induction false} RemoveCounts(files: Files, locked: set<string>, keep: seq<int>, ms: seq<(nat, DupEntry)>)
    ensures var (f, r) := RemoveRun(files, locked, keep, ms);
      && r.success
      && r.processed + |r.errors| == |ms|
      && r.kept == KeptCount(keep, ms)
      && r.removed + |f| == |files|
      && Shrunk(f, files)
  {
    if ms != [] {
      var init := ms[..|ms| - 1];
      RemoveCounts(files, locked, keep, init);
      var (f0, r0) := RemoveRun(files, locked, keep, init);
      var e := ms[|ms| - 1].1;
      if ms[|ms| - 1].0 as int !in keep && e.path in f0 && !RecordedSize(e).NotNumeric? && e.path !in locked {
        assert |f0 - {e.path}| == |f0| - 1;
      }
    }
  }

  /** A file that no non-kept member names is still there afterwards. */
  lemma {:induction false} RemoveKeeps(files: Files, locked: set<string>, keep: seq<int>, ms: seq<(nat, DupEntry)>, p: string)
    requires p in files
    requires forall k :: 0 <= k < |ms| && ms[k].1.path == p ==> ms[k].0 as int in keep
    ensures p in RemoveRun(files, locked, keep, ms).0
  {
    if ms != [] {
      var init := ms[..|ms| - 1];
      assert forall k :: 0 <= k < |init| ==> init[k] == ms[k];
      RemoveKeeps(files, locked, keep, init, p);
    }
  }

  /**
   * A member whose index is not in `keep` is gone afterwards unless it is
   * locked or its size cannot be converted; nothing guarantees that a keep
   * index falls inside the group.
   */
  lemma {:induction false} RemoveNotKept(files: Files, locked: set<string>, keep: seq<int>, ms: seq<(nat, DupEntry)>, k: nat)
    requires k < |ms| && ms[k].0 as int !in keep
    requires ms[k].1.path !in locked && RecordedSize(ms[k].1).Num?
    ensures ms[k].1.path !in RemoveRun(files, locked, keep, ms).0
  {
    var init := ms[..|ms| - 1];
    RemoveCounts(files, locked, keep, init);
    if k < |init| {
      assert init[k] == ms[k];
      RemoveNotKept(files, locked, keep, init, k);
    }
  }

  /** With no locked file and convertible sizes there are no errors, and the bytes saved are the sizes of the distinct removed members. */
  lemma {:induction false} RemoveSaved(files: Files, locked: set<string>, keep: seq<int>, ms: seq<(nat, DupEntry)>)
    requires forall k :: 0 <= k < |ms| ==> ms[k].1.path in files && ms[k].1.path !in locked && RecordedSize(ms[k].1).Num?
    requires forall a, b :: 0 <= a < b < |ms| ==> ms[a].1.path != ms[b].1.path
    ensures var (f, r) := RemoveRun(files, locked, keep, ms);
      r.errors == [] && r.removed == |ms| - KeptCount(keep, ms) && r.spaceSaved == NotKeptSize(keep, ms)
  {
    if ms != [] {
      var init := ms[..|ms| - 1];
      var last := ms[|ms| - 1];
      assert forall k :: 0 <= k < |init| ==> init[k] == ms[k];
      RemoveSaved(files, locked, keep, init);
      RemoveCounts(files, locked, keep, init);
      RemoveKeeps(files, locked, keep, init, last.1.path);
    }
  }

  /** The members whose index is not in `keep` and whose file is in `files`. */
  function PresentCount(files: Files, keep: seq<int>, ms: seq<(nat, DupEntry)>): nat
  {
    if ms == [] then 0
    else PresentCount(files, keep, ms[..|ms| - 1]) + (if ms[|ms| - 1].0 as int !in keep && ms[|ms| - 1].1.path in files then 1 else 0)
  }

  /** The recorded sizes of those members. */
  function PresentSize(files: Files, keep: seq<int>, ms: seq<(nat, DupEntry)>): int
  {
    if ms == [] then 0
    else PresentSize(files, keep, ms[..|ms| - 1]) + (if ms[|ms| - 1].0 as int !in keep && ms[|ms| - 1].1.path in files then SizeOr0(ms[|ms| - 1].1) else 0)
  }

  /** A member whose index is not kept and whose file has vanished is processed, and nothing else changes. */
  lemma RemoveVanishedStep(files: Files, r: RemoveResult, locked: set<string>, keep: seq<int>, m: (nat, DupEntry))
    requires m.0 as int !in keep && m.1.path !in files
    ensures RemoveStep(files, r, locked, keep, m) == (files, r.(processed := r.processed + 1))
  {
  }

  /** A path no member names is present afterwards exactly when it was present before. */
  lemma RemoveUntouched(files: Files, locked: set<string>, keep: seq<int>, ms: seq<(nat, DupEntry)>, p: string)
    requires forall k :: 0 <= k < |ms| ==> ms[k].1.path != p
    ensures p in RemoveRun(files, locked, keep, ms).0 <==> p in files
  {
    RemoveCounts(files, locked, keep, ms);
    if p in files {
      RemoveKeeps(files, locked, keep, ms, p);
    }
  }

  /** With no locked file and convertible sizes there are no errors and every member is processed, whether or not its file exists. */
  lemma {:induction false} RemoveNoErrors(files: Files, locked: set<string>, keep: seq<int>, ms: seq<(nat, DupEntry)>)
    requires forall k :: 0 <= k < |ms| ==> ms[k].1.path !in locked && RecordedSize(ms[k].1).Num?
    ensures var (f, r) := RemoveRun(files, locked, keep, ms);
      r.errors == [] && r.processed == |ms|
  {
    if ms != [] {
      var init := ms[..|ms| - 1];
      assert forall k :: 0 <= k < |init| ==> init[k] == ms[k];
      RemoveNoErrors(files, locked, keep, init);
    }
  }

  /**
   * With no locked file, convertible sizes and distinct paths, the removals
   * are the non-kept members whose file exists, and the bytes saved are
   * their sizes; a vanished member adds nothing.
   */
  lemma {:induction false} RemoveSavedPresent(files: Files, locked: set<string>, keep: seq<int>, ms: seq<(nat, DupEntry)>)
    requires forall k :: 0 <= k < |ms| ==> ms[k].1.path !in locked && RecordedSize(ms[k].1).Num?
    requires forall a, b :: 0 <= a < b < |ms| ==> ms[a].1.path != ms[b].1.path
    ensures var (f, r) := RemoveRun(files, locked, keep, ms);
      r.removed == PresentCount(files, keep, ms) && r.spaceSaved == PresentSize(files, keep, ms)
  {
    if ms != [] {
      var init := ms[..|ms| - 1];
      var last := ms[|ms| - 1];
      assert forall k :: 0 <= k < |init| ==> init[k] == ms[k];
      RemoveSavedPresent(files, locked, keep, init);
      RemoveUntouched(files, locked, keep, init, last.1.path);
    }
  }

  lemma {:induction false} KeptCountNone(keep: seq<int>, ms: seq<(nat, DupEntry)>)
    requires forall k :: 0 <= k < |ms| ==> ms[k].0 as int !in keep
    ensures KeptCount(keep, ms) == 0
  {
    if ms != [] {
      var init := ms[..|ms| - 1];
      assert forall k :: 0 <= k < |init| ==> init[k] == ms[k];
      KeptCountNone(keep, init);
    }
  }

  /**
   * A keep list none of whose indices falls inside a group deletes every
   * member of that group and keeps none, although the comment says at least
   * one file is kept.
   */
  lemma RemoveWholeGroup(files: Files, locked: set<string>, h: string, fs: seq<DupEntry>, keep: seq<int>)
    requires keep != [] && forall x :: x in keep ==> x < 0 || x >= |fs|
    requires forall k :: 0 <= k < |fs| ==> fs[k].path !in locked && RecordedSize(fs[k]).Num?
    ensures var (f, r) := RemoveDuplicates(files, locked, [(h, fs)], keep);
      r.kept == 0 && forall k :: 0 <= k < |fs| ==> fs[k].path !in f
  {
    var ms := Members([(h, fs)]);
    assert [(h, fs)][..0] == [];
    assert ms == Members([]) + Indexed(fs);
    assert ms == Indexed(fs);
    KeptCountNone(keep, ms);
    RemoveCounts(files, locked, keep, ms);
    forall k | 0 <= k < |fs| ensures fs[k].path !in RemoveRun(files, locked, keep, ms).0 {
      RemoveNotKept(files, locked, keep, ms, k);
    }
  }

  // ----- archive_duplicates -----

  datatype ArchiveResult = ArchiveResult(success: bool, processed: nat, errors: seq<string>, archived: nat, kept: nat, spaceMoved: int)

  /** The error recorded for a member that could not be archived (the exception text is not modelled). */
  function ArchiveError(path: string): string
  {
    "Failed to archive " + path
  }

  /** The name a member is archived under: the first numbered form of its name not yet in the archive. */
  function ArchiveName(archive: set<string>, path: string): string
  {
    FreeName(archive, Name(path))
  }

  /**
   * The loop body of `archive_duplicates` for one member. The move happens
   * before the size is converted, so a member with an unconvertible size is
   * archived and counted but reported and not processed.
   */
  function ArchiveStep(files: Files, archive: set<string>, r: ArchiveResult, locked: set<string>, m: (nat, DupEntry)): (Files, set<string>, ArchiveResult)
  {
    var (idx, e) := m;
    if idx == 0 then (files, archive, r.(kept := r.kept + 1, processed := r.processed + 1))
    else if e.path !in files then (files, archive, r.(processed := r.processed + 1))
    else if e.path in locked then (files, archive, r.(errors := r.errors + [ArchiveError(e.path)]))
    else
      var f, a := files - {e.path}, archive + {ArchiveName(archive, e.path)};
      if RecordedSize(e).NotNumeric? then (f, a, r.(archived := r.archived + 1, errors := r.errors + [ArchiveError(e.path)]))
      else (f, a, r.(archived := r.archived + 1, spaceMoved := r.spaceMoved + RecordedSize(e).n, processed := r.processed + 1))
  }

  const ArchiveStart := ArchiveResult(true, 0, [], 0, 0, 0)

  function ArchiveRun(files: Files, archive: set<string>, locked: set<string>, ms: seq<(nat, DupEntry)>): (Files, set<string>, ArchiveResult)
  {
    if ms == [] then (files, archive, ArchiveStart)
    else
      var (f, a, r) := ArchiveRun(files, archive, locked, ms[..|ms| - 1]);
      ArchiveStep(f, a, r, locked, ms[|ms| - 1])
  }

  lemma ArchiveRunSnoc(files: Files, archive: set<string>, locked: set<string>, ms: seq<(nat, DupEntry)>, m: (nat, DupEntry))
    ensures var (f, a, r) := ArchiveRun(files, archive, locked, ms);
      ArchiveRun(files, archive, locked, ms + [m]) == ArchiveStep(f, a, r, locked, m)
  {
    assert (ms + [m])[..|ms|] == ms;
  }

  /** `archive_duplicates(groups, archive_dir)`: filesystem, archive contents and the returned dictionary. */
  function ArchiveDuplicates(files: Files, archive: set<string>, locked: set<string>, groups: Groups): (Files, set<string>, ArchiveResult)
  {
    var (f, a, r) := ArchiveRun(files, archive, locked, Members(groups));
    (f, a, r.(success := r.errors == []))
  }

  /** The number of first members. */
  function FirstCount(ms: seq<(nat, DupEntry)>): nat
  {
    if ms == [] then 0 else FirstCount(ms[..|ms| - 1]) + (if ms[|ms| - 1].0 == 0 then 1 else 0)
  }

  /** The recorded sizes of the members after the first of their group. */
  function RestSize(ms: seq<(nat, DupEntry)>): int
  {
    if ms == [] then 0 else RestSize(ms[..|ms| - 1]) + (if ms[|ms| - 1].0 == 0 then 0 else SizeOr0(ms[|ms| - 1].1))
  }

  /**
   * Every member is either processed or reported, never both (one whose
   * size fails to convert after the move is reported); first members are
   * counted as kept;
   * every move deletes one file and adds one archive entry, and no archive
   * entry is ever overwritten.
   */
  lemma {:induction false} ArchiveCounts(files: Files, archive: set<string>, locked: set<string>, ms: seq<(nat, DupEntry)>)
    ensures var (f, a, r) := ArchiveRun(files, archive, locked, ms);
      && r.success
      && r.processed + |r.errors| == |ms|
      && r.kept == FirstCount(ms)
      && r.archived + |f| == |files|
      && Shrunk(f, files)
      && archive <= a && |a| == |archive| + r.archived
  {
    if ms != [] {
      var init := ms[..|ms| - 1];
      ArchiveCounts(files, archive, locked, init);
      var (f0, a0, r0) := ArchiveRun(files, archive, locked, init);
      var (idx, e) := ms[|ms| - 1];
      if idx != 0 && e.path in f0 && e.path !in locked {
        assert |f0 - {e.path}| == |f0| - 1;
        assert ArchiveName(a0, e.path) !in a0;
        assert |a0 + {ArchiveName(a0, e.path)}| == |a0| + 1;
      }
    }
  }

  /** A file that only first members name is never moved. */
  lemma {:induction false} ArchiveKeepsFirst(files: Files, archive: set<string>, locked: set<string>, ms: seq<(nat, DupEntry)>, p: string)
    requires p in files
    requires forall k :: 0 <= k < |ms| && ms[k].1.path == p ==> ms[k].0 == 0
    ensures p in ArchiveRun(files, archive, locked, ms).0
  {
    if ms != [] {
      var init := ms[..|ms| - 1];
      assert forall k :: 0 <= k < |init| ==> init[k] == ms[k];
      ArchiveKeepsFirst(files, archive, locked, init, p);
    }
  }

  /** With no locked file and convertible sizes there are no errors, every later member is archived, and the bytes moved are their sizes. */
  lemma {:induction false} ArchiveMoved(files: Files, archive: set<string>, locked: set<string>, ms: seq<(nat, DupEntry)>)
    requires forall k :: 0 <= k < |ms| ==> ms[k].1.path in files && ms[k].1.path !in locked && RecordedSize(ms[k].1).Num?
    requires forall a, b :: 0 <= a < b < |ms| ==> ms[a].1.path != ms[b].1.path
    ensures var (f, a, r) := ArchiveRun(files, archive, locked, ms);
      r.errors == [] && r.archived == |ms| - FirstCount(ms) && r.spaceMoved == RestSize(ms)
  {
    if ms != [] {
      var init := ms[..|ms| - 1];
      var last := ms[|ms| - 1];
      assert forall k :: 0 <= k < |init| ==> init[k] == ms[k];
      ArchiveMoved(files, archive, locked, init);
      ArchiveCounts(files, archive, locked, init);
      ArchiveKeepsFirst(files, archive, locked, init, last.1.path);
    }
  }

  /** A later member whose file has vanished is processed, and nothing else changes. */
  lemma ArchiveVanishedStep(files: Files, archive: set<string>, r: ArchiveResult, locked: set<string>, m: (nat, DupEntry))
    requires m.0 != 0 && m.1.path !in files
    ensures ArchiveStep(files, archive, r, locked, m) == (files, archive, r.(processed := r.processed + 1))
  {
  }

  /**
   * A later member whose size cannot be converted is still moved and counted
   * as archived, but is reported and not processed, and adds no bytes.
   */
  lemma ArchiveSizeFailStep(files: Files, archive: set<string>, r: ArchiveResult, locked: set<string>, m: (nat, DupEntry))
    requires m.0 != 0 && m.1.path in files && m.1.path !in locked && RecordedSize(m.1).NotNumeric?
    ensures var (f, a, r') := ArchiveStep(files, archive, r, locked, m);
      && f == files - {m.1.path} && a == archive + {ArchiveName(archive, m.1.path)}
      && r'.archived == r.archived + 1 && r'.processed == r.processed
      && r'.errors == r.errors + [ArchiveError(m.1.path)] && r'.spaceMoved == r.spaceMoved
  {
  }

  /** A path no member names is present afterwards exactly when it was present before. */
  lemma ArchiveUntouched(files: Files, archive: set<string>, locked: set<string>, ms: seq<(nat, DupEntry)>, p: string)
    requires forall k :: 0 <= k < |ms| ==> ms[k].1.path != p
    ensures p in ArchiveRun(files, archive, locked, ms).0 <==> p in files
  {
    ArchiveCounts(files, archive, locked, ms);
    if p in files {
      ArchiveKeepsFirst(files, archive, locked, ms, p);
    }
  }

  /** With no locked file and convertible sizes there are no errors and every member is processed, whether or not its file exists. */
  lemma {:induction false} ArchiveNoErrors(files: Files, archive: set<string>, locked: set<string>, ms: seq<(nat, DupEntry)>)
    requires forall k :: 0 <= k < |ms| ==> ms[k].1.path !in locked && RecordedSize(ms[k].1).Num?
    ensures var (f, a, r) := ArchiveRun(files, archive, locked, ms);
      r.errors == [] && r.processed == |ms|
  {
    if ms != [] {
      var init := ms[..|ms| - 1];
      assert forall k :: 0 <= k < |init| ==> init[k] == ms[k];
      ArchiveNoErrors(files, archive, locked, init);
    }
  }

  /**
   * With no locked file, convertible sizes and distinct paths, the archived
   * members are the later members whose file exists, and the bytes moved are
   * their sizes; a vanished member adds nothing.
   */
  lemma {:induction false} ArchiveMovedPresent(files: Files, archive: set<string>, locked: set<string>, ms: seq<(nat, DupEntry)>)
    requires forall k :: 0 <= k < |ms| ==> ms[k].1.path !in locked && RecordedSize(ms[k].1).Num?
    requires forall a, b :: 0 <= a < b < |ms| ==> ms[a].1.path != ms[b].1.path
    ensures var (f, a, r) := ArchiveRun(files, archive, locked, ms);
      r.archived == PresentCount(files, [0], ms) && r.spaceMoved == PresentSize(files, [0], ms)
  {
    if ms != [] {
      var init := ms[..|ms| - 1];
      var last := ms[|ms| - 1];
      assert forall k :: 0 <= k < |init| ==> init[k] == ms[k];
      ArchiveMovedPresent(files, archive, locked, init);
      ArchiveUntouched(files, archive, locked, init, last.1.path);
      assert last.0 as int in [0] <==> last.0 == 0;
    }
  }
}
