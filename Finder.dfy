/**
 * The duplicate engine of finder.py over an abstract filesystem: the regular
 * files by path, the names present in the archive directory, and the paths
 * whose unlink or move raises.
 */
module Finder {
  import opened Base
  import opened Text
  import opened Dict
  import opened PathNames
  import opened Utils
  import opened FinderSpec
  import opened Resolve

  class FileSystem {
    /** The regular files, by path. */
    var files: Files
    /** The names in the archive directory. */
    var archive: set<string>
    /** Paths that exist but cannot be unlinked or moved. */
    var locked: set<string>

    constructor(files: Files, archive: set<string>, locked: set<string>)
      ensures this.files == files && this.archive == archive && this.locked == locked
    {
      this.files := files;
      this.archive := archive;
      this.locked := locked;
    }

    // ----- scan_for_duplicates -----

    /** The first pass: bucket the enumerated candidates by size. */
    method BucketBySize(paths: seq<string>) returns (sizeMap: seq<(nat, seq<string>)>)
      ensures sizeMap == SizeMapOf(files, paths)
    {
      sizeMap := [];
      var i := 0;
      while i < |paths|
        invariant 0 <= i <= |paths|
        invariant sizeMap == SizeMapOf(files, paths[..i])
      {
        var p := paths[i];
        assert paths[..i + 1][..i] == paths[..i];
        if p in files {
          var size := files[p].size;
          if size != 0 && size >= MinSize {
            sizeMap := Put(sizeMap, size, Get(sizeMap, size, []) + [p]);
          }
        }
        i := i + 1;
      }
      assert paths[..|paths|] == paths;
    }

    /** Hashing one path: a new digest gets an empty entry, then the path's record is appended to it. */
    method HashPath(hashMap: seq<(string, seq<FileRecord>)>, p: string, hashOf: string -> string)
      returns (hm: seq<(string, seq<FileRecord>)>)
      ensures hm == AddByHash(hashMap, files, hashOf, p)
    {
      hm := hashMap;
      var h := hashOf(p);
      if h != "" {
        if !HasKey(hm, h) {
          hm := Put(hm, h, []);
        }
        var info := FileInfo(files, p);
        if info.Some? {
          hm := Put(hm, h, Get(hm, h, []) + [info.value]);
        }
      }
    }

    /** The second pass over one bucket of two or more files. */
    method HashBucket(hashMap: seq<(string, seq<FileRecord>)>, ghost done: seq<string>, bucket: seq<string>, hashOf: string -> string)
      returns (hm: seq<(string, seq<FileRecord>)>)
      requires hashMap == HashMapOf(files, hashOf, done)
      ensures hm == HashMapOf(files, hashOf, done + bucket)
    {
      hm := hashMap;
      var j := 0;
      assert done + bucket[..0] == done;
      while j < |bucket|
        invariant 0 <= j <= |bucket|
        invariant hm == HashMapOf(files, hashOf, done + bucket[..j])
      {
        assert (done + bucket[..j + 1])[..|done| + j] == done + bucket[..j];
        assert (done + bucket[..j + 1])[|done| + j] == bucket[j];
        hm := HashPath(hm, bucket[j], hashOf);
        j := j + 1;
      }
      assert bucket[..|bucket|] == bucket;
    }

    /** The second pass: hash the members of every bucket with two or more files. */
    method HashBySize(sizeMap: seq<(nat, seq<string>)>, hashOf: string -> string) returns (hashMap: seq<(string, seq<FileRecord>)>)
      ensures hashMap == HashMapOf(files, hashOf, HashedPaths(sizeMap))
    {
      hashMap := [];
      var b := 0;
      while b < |sizeMap|
        invariant 0 <= b <= |sizeMap|
        invariant hashMap == HashMapOf(files, hashOf, HashedPaths(sizeMap[..b]))
      {
        var bucket := sizeMap[b].1;
        assert sizeMap[..b + 1][..b] == sizeMap[..b];
        if |bucket| > 1 {
          hashMap := HashBucket(hashMap, HashedPaths(sizeMap[..b]), bucket, hashOf);
        } else {
          assert HashedPaths(sizeMap[..b]) + [] == HashedPaths(sizeMap[..b]);
        }
        b := b + 1;
      }
      assert sizeMap[..|sizeMap|] == sizeMap;
    }

    /** Keep the digests shared by two or more files. */
    method CollectGroups(hashMap: seq<(string, seq<FileRecord>)>) returns (groups: seq<(string, DuplicateGroup)>)
      ensures groups == GroupsOf(hashMap)
    {
      groups := [];
      var k := 0;
      while k < |hashMap|
        invariant 0 <= k <= |hashMap|
        invariant groups == GroupsOf(hashMap[..k])
      {
        var (h, fs) := hashMap[k];
        assert hashMap[..k + 1][..k] == hashMap[..k];
        if |fs| > 1 {
          groups := Put(groups, h, DuplicateGroup(h, fs, |fs|, SumSizes(fs)));
        }
        k := k + 1;
      }
      assert hashMap[..|hashMap|] == hashMap;
    }

    /**
     * `scan_for_duplicates(directory, recursive)`. `accessibleDir` is the
     * filesystem part of `validate_path`; `enumerate` is `rglob('*')` or
     * `glob('*')` on the directory (its entries that are not regular files
     * are skipped); `hashOf` is `calculate_file_hash`, "" on a read failure.
     * An invalid directory raises before anything is enumerated.
     */
    method ScanForDuplicates(directory: string, recursive: bool, accessibleDir: string -> bool,
                             enumerate: (string, bool) -> seq<string>, hashOf: string -> string)
      returns (r: Result<seq<(string, DuplicateGroup)>>)
      ensures !ValidatePath(Str(directory), accessibleDir) ==> r == Failure("Invalid or inaccessible path: " + directory)
      ensures ValidatePath(Str(directory), accessibleDir) ==> r == Success(ScanGroups(files, hashOf, enumerate(directory, recursive)))
    {
      if !ValidatePath(Str(directory), accessibleDir) {
        return Failure("Invalid or inaccessible path: " + directory);
      }
      var sizeMap := BucketBySize(enumerate(directory, recursive));
      var hashMap := HashBySize(sizeMap, hashOf);
      var groups := CollectGroups(hashMap);
      return Success(groups);
    }

    // ----- remove_duplicates -----

    /** The body of the member loop of `remove_duplicates`. */
    method RemoveMember(r: RemoveResult, keep: seq<int>, m: (nat, DupEntry)) returns (r': RemoveResult)
      modifies this`files
      ensures (files, r') == RemoveStep(old(files), r, locked, keep, m)
    {
      var (idx, e) := m;
      r' := r;
      var raised := false;
      if idx !in keep {
        if e.path in files {
          var size := RecordedSize(e);
          if size.NotNumeric? || e.path in locked {
            raised := true;
          } else {
            files := files - {e.path};
            r' := r'.(removed := r'.removed + 1, spaceSaved := r'.spaceSaved + size.n);
          }
        }
      } else {
        r' := r'.(kept := r'.kept + 1);
      }
      if raised {
        r' := r'.(errors := r'.errors + [RemoveError(e.path)]);
      } else {
        r' := r'.(processed := r'.processed + 1);
      }
    }

    /** The member loop of `remove_duplicates` over one group. */
    method RemoveGroup(ghost files0: Files, ghost done: seq<(nat, DupEntry)>, r: RemoveResult, keep: seq<int>, fs: seq<DupEntry>)
      returns (r': RemoveResult)
      requires (files, r) == RemoveRun(files0, locked, keep, done)
      modifies this`files
      ensures (files, r') == RemoveRun(files0, locked, keep, done + Indexed(fs))
    {
      r' := r;
      var idx := 0;
      assert done + Indexed(fs[..0]) == done;
      while idx < |fs|
        invariant 0 <= idx <= |fs|
        invariant (files, r') == RemoveRun(files0, locked, keep, done + Indexed(fs[..idx]))
      {
        IndexedSnoc(fs, idx);
        assert done + Indexed(fs[..idx + 1]) == (done + Indexed(fs[..idx])) + [(idx, fs[idx])];
        RemoveRunSnoc(files0, locked, keep, done + Indexed(fs[..idx]), (idx, fs[idx]));
        r' := RemoveMember(r', keep, (idx, fs[idx]));
        idx := idx + 1;
      }
      assert fs[..|fs|] == fs;
    }

    /**
     * `remove_duplicates(groups, keepIndices)`: unlinks every member whose
     * index is not in the keep list (`[0]` when it is empty) and tallies the
     * result.
     */
    method RemoveDuplicates(groups: Groups, keepIndices: seq<int>) returns (r: RemoveResult)
      modifies this`files
      ensures (files, r) == Resolve.RemoveDuplicates(old(files), locked, groups, keepIndices)
    {
      r := RemoveStart;
      var keep := keepIndices;
      var g := 0;
      assert groups[..0] == [];
      while g < |groups|
        invariant 0 <= g <= |groups|
        invariant keep == if g == 0 then keepIndices else EffectiveKeep(keepIndices)
        invariant (files, r) == RemoveRun(old(files), locked, EffectiveKeep(keepIndices), Members(groups[..g]))
      {
        assert groups[..g + 1][..g] == groups[..g];
        if keep == [] {
          keep := [0];
        }
        r := RemoveGroup(old(files), Members(groups[..g]), r, keep, groups[g].1);
        g := g + 1;
      }
      assert groups[..|groups|] == groups;
      RemoveCounts(old(files), locked, EffectiveKeep(keepIndices), Members(groups));
      if r.errors != [] {
        r := r.(success := false);
      }
    }

    // ----- archive_duplicates -----

    /** The `while dest.exists()` search: the first numbered form of `name` not in the archive. */
    method FreeArchiveName(name: string) returns (dest: string)
      ensures dest == FreeName(archive, name)
    {
      dest := name;
      var counter := 1;
      while dest in archive
        invariant counter >= 1 && dest == Numbered(name, counter - 1)
        invariant forall j :: 0 <= j < counter - 1 ==> Numbered(name, j) in archive
        decreases |archive| - counter + 1
      {
        TakenBound(archive, name, counter - 1);
        dest := Stem(name) + "_" + NatToString(counter) + Suffix(name);
        counter := counter + 1;
      }
      FreeIndexUnique(archive, name, counter - 1);
    }

    /** The body of the member loop of `archive_duplicates`. */
    method ArchiveMember(r: ArchiveResult, m: (nat, DupEntry)) returns (r': ArchiveResult)
      modifies this`files, this`archive
      ensures (files, archive, r') == ArchiveStep(old(files), old(archive), r, locked, m)
    {
      var (idx, e) := m;
      r' := r;
      var raised := false;
      if idx > 0 {
        if e.path in files {
          var dest := FreeArchiveName(Name(e.path));
          if e.path in locked {
            raised := true;
          } else {
            files := files - {e.path};
            archive := archive + {dest};
            r' := r'.(archived := r'.archived + 1);
            var size := RecordedSize(e);
            if size.NotNumeric? {
              raised := true;
            } else {
              r' := r'.(spaceMoved := r'.spaceMoved + size.n);
            }
          }
        }
      } else {
        r' := r'.(kept := r'.kept + 1);
      }
      if raised {
        r' := r'.(errors := r'.errors + [ArchiveError(e.path)]);
      } else {
        r' := r'.(processed := r'.processed + 1);
      }
    }

    /** The member loop of `archive_duplicates` over one group. */
    method ArchiveGroup(ghost files0: Files, ghost archive0: set<string>, ghost done: seq<(nat, DupEntry)>, r: ArchiveResult, fs: seq<DupEntry>)
      returns (r': ArchiveResult)
      requires (files, archive, r) == ArchiveRun(files0, archive0, locked, done)
      modifies this`files, this`archive
      ensures (files, archive, r') == ArchiveRun(files0, archive0, locked, done + Indexed(fs))
    {
      r' := r;
      var idx := 0;
      assert done + Indexed(fs[..0]) == done;
      while idx < |fs|
        invariant 0 <= idx <= |fs|
        invariant (files, archive, r') == ArchiveRun(files0, archive0, locked, done + Indexed(fs[..idx]))
      {
        IndexedSnoc(fs, idx);
        assert done + Indexed(fs[..idx + 1]) == (done + Indexed(fs[..idx])) + [(idx, fs[idx])];
        ArchiveRunSnoc(files0, archive0, locked, done + Indexed(fs[..idx]), (idx, fs[idx]));
        r' := ArchiveMember(r', (idx, fs[idx]));
        idx := idx + 1;
      }
      assert fs[..|fs|] == fs;
    }

    /**
     * `archive_duplicates(groups, archive_dir)`: keeps the first member of
     * every group and moves the others into the archive under a free name.
     */
    method ArchiveDuplicates(groups: Groups) returns (r: ArchiveResult)
      modifies this`files, this`archive
      ensures (files, archive, r) == Resolve.ArchiveDuplicates(old(files), old(archive), locked, groups)
    {
      r := ArchiveStart;
      var g := 0;
      assert groups[..0] == [];
      while g < |groups|
        invariant 0 <= g <= |groups|
        invariant (files, archive, r) == ArchiveRun(old(files), old(archive), locked, Members(groups[..g]))
      {
        assert groups[..g + 1][..g] == groups[..g];
        r := ArchiveGroup(old(files), old(archive), Members(groups[..g]), r, groups[g].1);
        g := g + 1;
      }
      assert groups[..|groups|] == groups;
      ArchiveCounts(old(files), old(archive), locked, Members(groups));
      if r.errors != [] {
        r := r.(success := false);
      }
    }
  }
}
