/**
 * What finder.py computes, as functions of the filesystem state and of the
 * oracles that stand for the filesystem calls.
 *
 * The scan (`scan_for_duplicates`) reads `files`, the regular files by
 * path, through `FileInfo` (`get_file_info` on a filesystem that does not
 * change during the scan) and through `hashOf` (`calculate_file_hash`,
 * with "" for a file that could not be read).
 */
module FinderSpec {
  import opened Base
  import opened Dict
  import opened PathNames

  /** What `stat` reports for a regular file. */
  datatype FileMeta = FileMeta(size: nat, modified: int)

  /** The regular files, by path. */
  type Files = map<string, FileMeta>

  /** The dictionary `get_file_info` returns. */
  datatype FileRecord = FileRecord(path: string, name: string, size: nat, modified: int)

  /** The dictionary stored for each duplicate digest. */
  datatype DuplicateGroup = DuplicateGroup(hash: string, files: seq<FileRecord>, count: nat, totalSize: nat)

  /** Files below this many bytes are never duplicate candidates. */
  const MinSize: nat := 100

  /** `get_file_info(p)`: `None` when the stat fails. */
  function FileInfo(files: Files, p: string): (r: Option<FileRecord>)
    ensures r.Some? <==> p in files
    ensures r.Some? ==> r.value.path == p && r.value.size == files[p].size
  {
    if p in files then Some(FileRecord(p, Name(p), files[p].size, files[p].modified)) else None
  }

  /** A regular file the size pre-filter lets through. */
  predicate Candidate(files: Files, p: string)
  {
    p in files && files[p].size != 0 && files[p].size >= MinSize
  }

  /** Another enumerated candidate has the same size as `p`. */
  predicate HasRival(files: Files, paths: seq<string>, p: string)
  {
    p in files && exists q :: q in paths && q != p && Candidate(files, q) && files[q].size == files[p].size
  }

  /** `p` is enumerated, passes the size filter, shares its size, and its digest could be computed. */
  predicate Eligible(files: Files, hashOf: string -> string, paths: seq<string>, p: string)
  {
    p in paths && Candidate(files, p) && HasRival(files, paths, p) && hashOf(p) != ""
  }

  // ----- first pass: size buckets -----

  /** One step of the first pass over the enumerated path `p`. */
  function AddBySize(sm: seq<(nat, seq<string>)>, files: Files, p: string): seq<(nat, seq<string>)>
  {
    if p !in files then sm
    else
      var size := files[p].size;
      if size == 0 || size < MinSize then sm
      else Put(sm, size, Get(sm, size, []) + [p])
  }

  /** `size_map` after the first pass over `paths`. */
  function SizeMapOf(files: Files, paths: seq<string>): seq<(nat, seq<string>)>
  {
    if paths == [] then [] else AddBySize(SizeMapOf(files, paths[..|paths| - 1]), files, paths[|paths| - 1])
  }

  /** Each bucket holds, once each, exactly the candidates of its size; every candidate has a bucket. */
  ghost predicate SizeMapInv(sm: seq<(nat, seq<string>)>, files: Files, paths: seq<string>)
  {
    && DistinctKeys(sm)
    && (forall i :: 0 <= i < |sm| ==> Distinct(sm[i].1))
    && (forall i, p :: 0 <= i < |sm| ==> (p in sm[i].1 <==> p in paths && Candidate(files, p) && files[p].size == sm[i].0))
    && (forall p :: p in paths && Candidate(files, p) ==> HasKey(sm, files[p].size))
  }

  /** A candidate whose size already has a bucket joins the end of that bucket. */
  lemma AddToBucket(sm: seq<(nat, seq<string>)>, files: Files, paths: seq<string>, p: string)
    requires SizeMapInv(sm, files, paths) && p !in paths
    requires Candidate(files, p) && HasKey(sm, files[p].size)
    ensures SizeMapInv(AddBySize(sm, files, p), files, paths + [p])
  {
    var ps := paths + [p];
    var size := files[p].size;
    var r := AddBySize(sm, files, p);
    var at := IndexOf(sm, size);
    assert r == sm[at := (size, sm[at].1 + [p])];
    forall i | 0 <= i < |r| ensures Distinct(r[i].1) {
      if i == at {
        assert p !in sm[at].1;
      }
    }
    forall i, q | 0 <= i < |r| ensures q in r[i].1 <==> q in ps && Candidate(files, q) && files[q].size == r[i].0 {
      if i == at {
        assert q in r[i].1 <==> q in sm[at].1 || q == p;
      } else {
        assert r[i] == sm[i];
        assert sm[i].0 != size;
      }
    }
  }

  /** A candidate of a size not seen before opens a new bucket at the end. */
  lemma AddNewBucket(sm: seq<(nat, seq<string>)>, files: Files, paths: seq<string>, p: string)
    requires SizeMapInv(sm, files, paths) && p !in paths
    requires Candidate(files, p) && !HasKey(sm, files[p].size)
    ensures SizeMapInv(AddBySize(sm, files, p), files, paths + [p])
  {
    var ps := paths + [p];
    var size := files[p].size;
    var r := AddBySize(sm, files, p);
    assert Get(sm, size, []) + [p] == [p];
    assert r == sm + [(size, [p])];
    forall i, q | 0 <= i < |r| ensures q in r[i].1 <==> q in ps && Candidate(files, q) && files[q].size == r[i].0 {
      assert q in ps <==> q in paths || q == p;
      if i < |sm| {
        assert r[i] == sm[i];
        if q == p {
          assert sm[i].0 != size;
        }
      } else {
        assert r[i] == (size, [p]);
        if q in paths && Candidate(files, q) {
          assert HasKey(sm, files[q].size);
        }
      }
    }
  }

  lemma AddBySizeInv(sm: seq<(nat, seq<string>)>, files: Files, paths: seq<string>, p: string)
    requires SizeMapInv(sm, files, paths) && p !in paths
    ensures SizeMapInv(AddBySize(sm, files, p), files, paths + [p])
  {
    if !Candidate(files, p) {
      assert AddBySize(sm, files, p) == sm;
      assert forall q :: q in paths + [p] <==> q in paths || q == p;
    } else if HasKey(sm, files[p].size) {
      AddToBucket(sm, files, paths, p);
    } else {
      AddNewBucket(sm, files, paths, p);
    }
  }

  lemma {:induction false} SizeMapOfInv(files: Files, paths: seq<string>)
    requires Distinct(paths)
    ensures SizeMapInv(SizeMapOf(files, paths), files, paths)
  {
    if paths != [] {
      var init, p := paths[..|paths| - 1], paths[|paths| - 1];
      assert paths == init + [p];
      assert Distinct(init);
      SizeMapOfInv(files, init);
      assert p !in init by {
        forall k | 0 <= k < |init| ensures init[k] != p {
          assert init[k] == paths[k];
        }
      }
      AddBySizeInv(SizeMapOf(files, init), files, init, p);
    }
  }

  // ----- second pass: digests of the buckets with two or more files -----

  /** The paths the second pass hashes, in order: the members of every bucket with more than one file. */
  function HashedPaths(sm: seq<(nat, seq<string>)>): seq<string>
  {
    if sm == [] then []
    else
      var last := sm[|sm| - 1];
      HashedPaths(sm[..|sm| - 1]) + (if |last.1| > 1 then last.1 else [])
  }

  lemma {:induction false} HashedPathsMembers(sm: seq<(nat, seq<string>)>, p: string)
    ensures p in HashedPaths(sm) <==> exists i :: 0 <= i < |sm| && |sm[i].1| > 1 && p in sm[i].1
  {
    if sm != [] {
      var init := sm[..|sm| - 1];
      HashedPathsMembers(init, p);
      if p in HashedPaths(sm) && p !in HashedPaths(init) {
        assert 0 <= |sm| - 1 < |sm| && |sm[|sm| - 1].1| > 1 && p in sm[|sm| - 1].1;
      }
      if exists i :: 0 <= i < |sm| && |sm[i].1| > 1 && p in sm[i].1 {
        var i :| 0 <= i < |sm| && |sm[i].1| > 1 && p in sm[i].1;
        if i < |init| {
          assert init[i] == sm[i];
        }
      }
    }
  }

  lemma DistinctConcat<T>(a: seq<T>, b: seq<T>)
    requires Distinct(a) && Distinct(b)
    requires forall x :: x in a ==> x !in b
    ensures Distinct(a + b)
  {
    var c := a + b;
    forall i, j | 0 <= i < j < |c| ensures c[i] != c[j] {
      if j < |a| {
        assert c[i] == a[i] && c[j] == a[j];
      } else if i >= |a| {
        assert c[i] == b[i - |a|] && c[j] == b[j - |a|];
      } else {
        assert c[i] == a[i] && c[j] == b[j - |a|];
        assert c[i] in a;
      }
    }
  }

  /** Every bucket is free of repeats and no path is in two buckets. */
  ghost predicate Partitioned(sm: seq<(nat, seq<string>)>)
  {
    && (forall i :: 0 <= i < |sm| ==> Distinct(sm[i].1))
    && (forall i, j, p :: 0 <= i < j < |sm| && p in sm[i].1 ==> p !in sm[j].1)
  }

  lemma SizeMapPartitioned(sm: seq<(nat, seq<string>)>, files: Files, paths: seq<string>)
    requires SizeMapInv(sm, files, paths)
    ensures Partitioned(sm)
  {
    forall i, j, p | 0 <= i < j < |sm| && p in sm[i].1 ensures p !in sm[j].1 {
      assert p in paths && Candidate(files, p) && files[p].size == sm[i].0;
      assert sm[i].0 != sm[j].0;
    }
  }

  /** Buckets are disjoint, so the hashed paths are distinct. */
  lemma {:induction false} HashedPathsDistinct(sm: seq<(nat, seq<string>)>)
    requires Partitioned(sm)
    ensures Distinct(HashedPaths(sm))
  {
    if sm != [] {
      var init, last := sm[..|sm| - 1], sm[|sm| - 1];
      assert Partitioned(init) by {
        forall i, j, p | 0 <= i < j < |init| && p in init[i].1 ensures p !in init[j].1 {
          assert init[i] == sm[i] && init[j] == sm[j];
        }
      }
      HashedPathsDistinct(init);
      if |last.1| > 1 {
        forall x | x in HashedPaths(init) ensures x !in last.1 {
          HashedPathsMembers(init, x);
          var i :| 0 <= i < |init| && |init[i].1| > 1 && x in init[i].1;
          assert init[i] == sm[i];
        }
        assert Distinct(last.1);
        DistinctConcat(HashedPaths(init), last.1);
      } else {
        assert HashedPaths(sm) == HashedPaths(init) + [];
        assert HashedPaths(init) + [] == HashedPaths(init);
      }
    }
  }

  /** A path in a bucket of two or more has a rival. */
  lemma HashedHasRival(files: Files, paths: seq<string>, sm: seq<(nat, seq<string>)>, p: string)
    requires SizeMapInv(sm, files, paths)
    requires p in HashedPaths(sm)
    ensures p in paths && Candidate(files, p) && HasRival(files, paths, p)
  {
    HashedPathsMembers(sm, p);
    var i :| 0 <= i < |sm| && |sm[i].1| > 1 && p in sm[i].1;
    var ps := sm[i].1;
    var q := if ps[0] == p then ps[1] else ps[0];
    assert q in ps && q != p by {
      assert Distinct(ps) && ps[0] != ps[1];
    }
    assert p in paths && Candidate(files, p) && files[p].size == sm[i].0;
    assert q in paths && Candidate(files, q) && files[q].size == sm[i].0;
  }

  /** A candidate with a rival sits in a bucket of two or more. */
  lemma RivalIsHashed(files: Files, paths: seq<string>, sm: seq<(nat, seq<string>)>, p: string)
    requires SizeMapInv(sm, files, paths)
    requires p in paths && Candidate(files, p) && HasRival(files, paths, p)
    ensures p in HashedPaths(sm)
  {
    var q :| q in paths && q != p && Candidate(files, q) && files[q].size == files[p].size;
    var i := IndexOf(sm, files[p].size);
    var ps := sm[i].1;
    assert p in ps && q in ps;
    var a :| 0 <= a < |ps| && ps[a] == p;
    var b :| 0 <= b < |ps| && ps[b] == q;
    assert a != b;
    HashedPathsMembers(sm, p);
    assert 0 <= i < |sm| && |sm[i].1| > 1 && p in sm[i].1;
  }

  /** The second pass hashes, once each, exactly the enumerated candidates that share their size with another one. */
  lemma HashedPathsAreRivals(files: Files, paths: seq<string>, p: string)
    requires Distinct(paths)
    ensures p in HashedPaths(SizeMapOf(files, paths)) <==> p in paths && Candidate(files, p) && HasRival(files, paths, p)
    ensures Distinct(HashedPaths(SizeMapOf(files, paths)))
  {
    var sm := SizeMapOf(files, paths);
    SizeMapOfInv(files, paths);
    SizeMapPartitioned(sm, files, paths);
    HashedPathsDistinct(sm);
    if p in HashedPaths(sm) {
      HashedHasRival(files, paths, sm, p);
    }
    if p in paths && Candidate(files, p) && HasRival(files, paths, p) {
      RivalIsHashed(files, paths, sm, p);
    }
  }

  // ----- digest map -----

  /** The paths among `qs`, in order, whose digest is `h`. */
  function FilterHash(hashOf: string -> string, qs: seq<string>, h: string): seq<string>
  {
    if qs == [] then []
    else
      var q := qs[|qs| - 1];
      FilterHash(hashOf, qs[..|qs| - 1], h) + (if hashOf(q) == h then [q] else [])
  }

  /** The records `get_file_info` returns for `ps`, in order, leaving out the failures. */
  function RecordsOf(files: Files, ps: seq<string>): seq<FileRecord>
  {
    if ps == [] then []
    else
      var p := ps[|ps| - 1];
      RecordsOf(files, ps[..|ps| - 1]) + (if p in files then [FileInfo(files, p).value] else [])
  }

  /** No two records have the same path. */
  ghost predicate DistinctPaths(rs: seq<FileRecord>)
  {
    forall a, b :: 0 <= a < b < |rs| ==> rs[a].path != rs[b].path
  }

  lemma {:induction false} FilterHashFacts(hashOf: string -> string, qs: seq<string>, h: string)
    ensures forall p :: p in FilterHash(hashOf, qs, h) <==> p in qs && hashOf(p) == h
    ensures Distinct(qs) ==> Distinct(FilterHash(hashOf, qs, h))
  {
    if qs != [] {
      var init, q := qs[..|qs| - 1], qs[|qs| - 1];
      assert qs == init + [q];
      FilterHashFacts(hashOf, init, h);
      var tail := if hashOf(q) == h then [q] else [];
      assert FilterHash(hashOf, qs, h) == FilterHash(hashOf, init, h) + tail;
      if Distinct(qs) {
        assert Distinct(init);
        assert q !in init by {
          forall k | 0 <= k < |init| ensures init[k] != q {
            assert init[k] == qs[k];
          }
        }
        DistinctConcat(FilterHash(hashOf, init, h), tail);
      }
    }
  }

  /** Each record is the one `get_file_info` gives for one of the paths. */
  lemma {:induction false} RecordsOfSound(files: Files, ps: seq<string>)
    ensures forall k :: 0 <= k < |RecordsOf(files, ps)| ==>
      RecordsOf(files, ps)[k].path in ps && FileInfo(files, RecordsOf(files, ps)[k].path) == Some(RecordsOf(files, ps)[k])
  {
    if ps != [] {
      var init, p := ps[..|ps| - 1], ps[|ps| - 1];
      assert ps == init + [p];
      RecordsOfSound(files, init);
      var r0 := RecordsOf(files, init);
      var r := RecordsOf(files, ps);
      forall k | 0 <= k < |r| ensures r[k].path in ps && FileInfo(files, r[k].path) == Some(r[k]) {
        if k < |r0| {
          assert r[k] == r0[k];
        }
      }
    }
  }

  /** Every path that exists has its record. */
  lemma {:induction false} RecordsOfComplete(files: Files, ps: seq<string>, p: string)
    requires p in ps && p in files
    ensures FileInfo(files, p).value in RecordsOf(files, ps)
  {
    var init, q := ps[..|ps| - 1], ps[|ps| - 1];
    assert ps == init + [q];
    if q != p {
      assert p in init;
      RecordsOfComplete(files, init, p);
    }
  }

  /** Distinct paths give records with distinct paths. */
  lemma {:induction false} RecordsOfDistinct(files: Files, ps: seq<string>)
    requires Distinct(ps)
    ensures DistinctPaths(RecordsOf(files, ps))
  {
    if ps != [] {
      var init, p := ps[..|ps| - 1], ps[|ps| - 1];
      assert ps == init + [p];
      assert Distinct(init);
      RecordsOfDistinct(files, init);
      RecordsOfSound(files, init);
      var r0 := RecordsOf(files, init);
      var r := RecordsOf(files, ps);
      assert p !in init by {
        forall k | 0 <= k < |init| ensures init[k] != p {
          assert init[k] == ps[k];
        }
      }
      forall a, b | 0 <= a < b < |r| ensures r[a].path != r[b].path {
        assert r[a] == r0[a];
        if b == |r0| {
          assert r[a].path in init;
        } else {
          assert r[b] == r0[b];
        }
      }
    }
  }

  /** One step of the second pass over the hashed path `p` (finder.py, lines 102-110). */
  function AddByHash(hm: seq<(string, seq<FileRecord>)>, files: Files, hashOf: string -> string, p: string): seq<(string, seq<FileRecord>)>
  {
    var h := hashOf(p);
    if h == "" then hm
    else
      var hm1 := if HasKey(hm, h) then hm else Put(hm, h, []);
      var info := FileInfo(files, p);
      if info.Some? then Put(hm1, h, Get(hm1, h, []) + [info.value]) else hm1
  }

  /** `hash_map` after the second pass over the hashed paths `qs`. */
  function HashMapOf(files: Files, hashOf: string -> string, qs: seq<string>): seq<(string, seq<FileRecord>)>
  {
    if qs == [] then [] else AddByHash(HashMapOf(files, hashOf, qs[..|qs| - 1]), files, hashOf, qs[|qs| - 1])
  }

  /** Every non-empty digest seen has an entry, holding the records of the paths with that digest. */
  ghost predicate HashMapInv(hm: seq<(string, seq<FileRecord>)>, files: Files, hashOf: string -> string, qs: seq<string>)
  {
    && DistinctKeys(hm)
    && (forall i :: 0 <= i < |hm| ==> hm[i].0 != "" && hm[i].1 == RecordsOf(files, FilterHash(hashOf, qs, hm[i].0)))
    && (forall q :: q in qs && hashOf(q) != "" ==> HasKey(hm, hashOf(q)))
  }

  /** Appending a path of another digest leaves the paths of digest `h` as they were. */
  lemma FilterHashOther(hashOf: string -> string, qs: seq<string>, p: string, h: string)
    requires hashOf(p) != h
    ensures FilterHash(hashOf, qs + [p], h) == FilterHash(hashOf, qs, h)
  {
    assert (qs + [p])[..|qs|] == qs;
  }

  /** Appending a path of digest `h`. */
  lemma FilterHashSame(hashOf: string -> string, qs: seq<string>, p: string)
    ensures FilterHash(hashOf, qs + [p], hashOf(p)) == FilterHash(hashOf, qs, hashOf(p)) + [p]
  {
    assert (qs + [p])[..|qs|] == qs;
  }

  lemma RecordsOfAppend(files: Files, ps: seq<string>, p: string)
    ensures RecordsOf(files, ps + [p]) == RecordsOf(files, ps) + (if p in files then [FileInfo(files, p).value] else [])
  {
    assert (ps + [p])[..|ps|] == ps;
  }

  lemma AddUnreadable(hm: seq<(string, seq<FileRecord>)>, files: Files, hashOf: string -> string, qs: seq<string>, p: string)
    requires HashMapInv(hm, files, hashOf, qs) && hashOf(p) == ""
    ensures HashMapInv(AddByHash(hm, files, hashOf, p), files, hashOf, qs + [p])
  {
    forall i | 0 <= i < |hm| ensures hm[i].1 == RecordsOf(files, FilterHash(hashOf, qs + [p], hm[i].0)) {
      FilterHashOther(hashOf, qs, p, hm[i].0);
    }
    assert forall q :: q in qs + [p] <==> q in qs || q == p;
  }

  /** The entry of the digest of `p` before `p` is added. */
  lemma EntryBefore(hm: seq<(string, seq<FileRecord>)>, files: Files, hashOf: string -> string, qs: seq<string>, h: string)
    requires HashMapInv(hm, files, hashOf, qs) && h != ""
    ensures var hm1 := if HasKey(hm, h) then hm else Put(hm, h, []);
      Get(hm1, h, []) == RecordsOf(files, FilterHash(hashOf, qs, h))
  {
    FilterHashFacts(hashOf, qs, h);
    if !HasKey(hm, h) {
      var hm1 := Put(hm, h, []);
      assert hm1[|hm|].0 == h;
      IndexOfAt(hm1, |hm|);
      if FilterHash(hashOf, qs, h) != [] {
        assert FilterHash(hashOf, qs, h)[0] in FilterHash(hashOf, qs, h);
      }
    } else {
      IndexOfAt(hm, IndexOf(hm, h));
    }
  }

  /** Adding a readable path updates the entry of its digest in place, or appends it. */
  lemma AddReadableShape(hm: seq<(string, seq<FileRecord>)>, files: Files, hashOf: string -> string, qs: seq<string>, p: string)
    returns (hm1: seq<(string, seq<FileRecord>)>, at: nat)
    requires HashMapInv(hm, files, hashOf, qs) && hashOf(p) != ""
    ensures DistinctKeys(hm1) && at < |hm1| && hm1[at].0 == hashOf(p)
    ensures forall i :: 0 <= i < |hm1| && i != at ==> i < |hm| && hm1[i] == hm[i]
    ensures AddByHash(hm, files, hashOf, p) == hm1[at := (hashOf(p), RecordsOf(files, FilterHash(hashOf, qs + [p], hashOf(p))))]
  {
    var h := hashOf(p);
    hm1 := if HasKey(hm, h) then hm else Put(hm, h, []);
    EntryBefore(hm, files, hashOf, qs, h);
    FilterHashSame(hashOf, qs, p);
    RecordsOfAppend(files, FilterHash(hashOf, qs, h), p);
    at := IndexOf(hm1, h);
    if HasKey(hm, h) {
      IndexOfAt(hm, at);
    } else {
      assert hm1[|hm|].0 == h;
      IndexOfAt(hm1, |hm|);
    }
    var before := RecordsOf(files, FilterHash(hashOf, qs, h));
    var after := RecordsOf(files, FilterHash(hashOf, qs + [p], h));
    assert hm1[at].1 == before;
    if p in files {
      assert after == before + [FileInfo(files, p).value];
    } else {
      assert after == before;
      assert AddByHash(hm, files, hashOf, p) == hm1;
    }
  }

  lemma AddReadable(hm: seq<(string, seq<FileRecord>)>, files: Files, hashOf: string -> string, qs: seq<string>, p: string)
    requires HashMapInv(hm, files, hashOf, qs) && hashOf(p) != ""
    ensures HashMapInv(AddByHash(hm, files, hashOf, p), files, hashOf, qs + [p])
  {
    var hm1, at := AddReadableShape(hm, files, hashOf, qs, p);
    var r := AddByHash(hm, files, hashOf, p);
    forall i | 0 <= i < |r| ensures r[i].0 != "" && r[i].1 == RecordsOf(files, FilterHash(hashOf, qs + [p], r[i].0)) {
      if i != at {
        assert r[i] == hm[i];
        FilterHashOther(hashOf, qs, p, r[i].0);
      }
    }
    forall i, j | 0 <= i < j < |r| ensures r[i].0 != r[j].0 {
      assert r[i].0 == hm1[i].0 && r[j].0 == hm1[j].0;
    }
    AddReadableKeys(hm, files, hashOf, qs, p, hm1, at);
  }

  lemma AddReadableKeys(hm: seq<(string, seq<FileRecord>)>, files: Files, hashOf: string -> string, qs: seq<string>, p: string,
                        hm1: seq<(string, seq<FileRecord>)>, at: nat)
    requires HashMapInv(hm, files, hashOf, qs) && hashOf(p) != ""
    requires at < |hm1| && hm1[at].0 == hashOf(p)
    requires forall i :: 0 <= i < |hm1| && i != at ==> i < |hm| && hm1[i] == hm[i]
    requires AddByHash(hm, files, hashOf, p) == hm1[at := (hashOf(p), RecordsOf(files, FilterHash(hashOf, qs + [p], hashOf(p))))]
    ensures forall q :: q in qs + [p] && hashOf(q) != "" ==> HasKey(AddByHash(hm, files, hashOf, p), hashOf(q))
  {
    var r := AddByHash(hm, files, hashOf, p);
    assert forall q :: q in qs + [p] <==> q in qs || q == p;
    forall q | q in qs + [p] && hashOf(q) != "" ensures HasKey(r, hashOf(q)) {
      if q != p && hashOf(q) != hashOf(p) {
        var k := IndexOf(hm, hashOf(q));
        assert r[k].0 == hashOf(q);
      } else {
        assert r[at].0 == hashOf(q);
      }
    }
  }

  lemma AddByHashInv(hm: seq<(string, seq<FileRecord>)>, files: Files, hashOf: string -> string, qs: seq<string>, p: string)
    requires HashMapInv(hm, files, hashOf, qs)
    ensures HashMapInv(AddByHash(hm, files, hashOf, p), files, hashOf, qs + [p])
  {
    if hashOf(p) == "" {
      AddUnreadable(hm, files, hashOf, qs, p);
    } else {
      AddReadable(hm, files, hashOf, qs, p);
    }
  }

  lemma {:induction false} HashMapOfInv(files: Files, hashOf: string -> string, qs: seq<string>)
    ensures HashMapInv(HashMapOf(files, hashOf, qs), files, hashOf, qs)
  {
    if qs != [] {
      var init := qs[..|qs| - 1];
      assert qs == init + [qs[|qs| - 1]];
      HashMapOfInv(files, hashOf, init);
      AddByHashInv(HashMapOf(files, hashOf, init), files, hashOf, init, qs[|qs| - 1]);
    }
  }

  // ----- duplicate groups -----

  /** `sum(f['size'] for f in files)`. */
  function SumSizes(fs: seq<FileRecord>): nat
  {
    if fs == [] then 0 else SumSizes(fs[..|fs| - 1]) + fs[|fs| - 1].size
  }

  /** The group stored for digest `h` with members `fs`. */
  function MakeGroup(h: string, fs: seq<FileRecord>): DuplicateGroup
  {
    DuplicateGroup(h, fs, |fs|, SumSizes(fs))
  }

  /** `duplicate_groups`: one group for each digest with more than one record. */
  function GroupsOf(hm: seq<(string, seq<FileRecord>)>): seq<(string, DuplicateGroup)>
  {
    if hm == [] then []
    else
      var g := GroupsOf(hm[..|hm| - 1]);
      var last := hm[|hm| - 1];
      if |last.1| > 1 then Put(g, last.0, MakeGroup(last.0, last.1)) else g
  }

  /** A group is what the source stores: its own digest, its member count of at least two, and the sum of its sizes. */
  predicate WellFormedGroup(h: string, g: DuplicateGroup)
  {
    g.hash == h && g.count == |g.files| && g.count >= 2 && g.totalSize == SumSizes(g.files)
  }

  /** In a dictionary with distinct keys, a key of a prefix has the same value in the whole. */
  lemma GetPrefix<V>(d: seq<(string, V)>, n: nat, k: string, default: V)
    requires DistinctKeys(d) && n <= |d| && HasKey(d[..n], k)
    ensures Get(d[..n], k, default) == Get(d, k, default)
  {
    var i := IndexOf(d[..n], k);
    assert d[..n][i] == d[i];
    IndexOfAt(d, i);
  }

  /** Keys are never repeated, and every group key is a digest of the map. */
  lemma {:induction false} GroupsOfKeys(hm: seq<(string, seq<FileRecord>)>)
    requires DistinctKeys(hm)
    ensures DistinctKeys(GroupsOf(hm))
    ensures forall k :: HasKey(GroupsOf(hm), k) ==> HasKey(hm, k)
  {
    if hm != [] {
      var n := |hm| - 1;
      var init := hm[..n];
      GroupsOfKeys(init);
      forall k | HasKey(GroupsOf(hm), k) ensures HasKey(hm, k) {
        if k != hm[n].0 {
          assert HasKey(init, k);
          var i := IndexOf(init, k);
          assert hm[i] == init[i];
        }
      }
    }
  }

  /** Since digests are distinct, each digest with two or more records appends its own group. */
  lemma GroupsOfStep(hm: seq<(string, seq<FileRecord>)>)
    requires DistinctKeys(hm) && hm != []
    ensures var n := |hm| - 1; var g := GroupsOf(hm[..n]);
      GroupsOf(hm) == if |hm[n].1| > 1 then g + [(hm[n].0, MakeGroup(hm[n].0, hm[n].1))] else g
  {
    var n := |hm| - 1;
    var init, last := hm[..n], hm[n];
    GroupsOfKeys(init);
    assert !HasKey(init, last.0) by {
      forall i | 0 <= i < n ensures init[i].0 != last.0 {
        assert init[i] == hm[i];
      }
    }
  }

  lemma {:induction false} GroupsOfValues(hm: seq<(string, seq<FileRecord>)>)
    requires DistinctKeys(hm)
    ensures forall j :: 0 <= j < |GroupsOf(hm)| ==>
      |Get(hm, GroupsOf(hm)[j].0, [])| > 1 && GroupsOf(hm)[j].1 == MakeGroup(GroupsOf(hm)[j].0, Get(hm, GroupsOf(hm)[j].0, []))
  {
    if hm != [] {
      var n := |hm| - 1;
      var init := hm[..n];
      GroupsOfValues(init);
      GroupsOfKeys(init);
      GroupsOfStep(hm);
      var g := GroupsOf(init);
      var r := GroupsOf(hm);
      forall j | 0 <= j < |r|
        ensures |Get(hm, r[j].0, [])| > 1 && r[j].1 == MakeGroup(r[j].0, Get(hm, r[j].0, []))
      {
        if j < |g| {
          assert r[j] == g[j];
          GetPrefix(hm, n, g[j].0, []);
        } else {
          IndexOfAt(hm, n);
        }
      }
    }
  }

  lemma {:induction false} GroupsOfCover(hm: seq<(string, seq<FileRecord>)>)
    requires DistinctKeys(hm)
    ensures forall i :: 0 <= i < |hm| && |hm[i].1| > 1 ==> HasKey(GroupsOf(hm), hm[i].0)
  {
    if hm != [] {
      var n := |hm| - 1;
      var init := hm[..n];
      GroupsOfCover(init);
      GroupsOfStep(hm);
      var g := GroupsOf(init);
      var r := GroupsOf(hm);
      forall i | 0 <= i < |hm| && |hm[i].1| > 1 ensures HasKey(r, hm[i].0) {
        if i < n {
          assert init[i] == hm[i];
          var j := IndexOf(g, hm[i].0);
          assert r[j] == g[j];
        } else {
          assert r[|g|].0 == hm[n].0;
        }
      }
    }
  }

  lemma GroupsOfFacts(hm: seq<(string, seq<FileRecord>)>)
    requires DistinctKeys(hm)
    ensures DistinctKeys(GroupsOf(hm))
    ensures forall k :: HasKey(GroupsOf(hm), k) ==> HasKey(hm, k)
    ensures forall j :: 0 <= j < |GroupsOf(hm)| ==>
      |Get(hm, GroupsOf(hm)[j].0, [])| > 1 && GroupsOf(hm)[j].1 == MakeGroup(GroupsOf(hm)[j].0, Get(hm, GroupsOf(hm)[j].0, []))
    ensures forall i :: 0 <= i < |hm| && |hm[i].1| > 1 ==> HasKey(GroupsOf(hm), hm[i].0)
  {
    GroupsOfKeys(hm);
    GroupsOfValues(hm);
    GroupsOfCover(hm);
  }

  /** The whole scan on a filesystem that does not change while it runs. */
  function ScanGroups(files: Files, hashOf: string -> string, paths: seq<string>): seq<(string, DuplicateGroup)>
  {
    GroupsOf(HashMapOf(files, hashOf, HashedPaths(SizeMapOf(files, paths))))
  }

  /** Every group is well formed, and each digest has at most one group. */
  lemma ScanGroupsWellFormed(files: Files, hashOf: string -> string, paths: seq<string>)
    ensures DistinctKeys(ScanGroups(files, hashOf, paths))
    ensures forall j :: 0 <= j < |ScanGroups(files, hashOf, paths)| ==>
      WellFormedGroup(ScanGroups(files, hashOf, paths)[j].0, ScanGroups(files, hashOf, paths)[j].1)
  {
    var hm := HashMapOf(files, hashOf, HashedPaths(SizeMapOf(files, paths)));
    HashMapOfInv(files, hashOf, HashedPaths(SizeMapOf(files, paths)));
    GroupsOfFacts(hm);
  }

  /** The members of the group for digest `h` are the records of the hashed paths with digest `h`. */
  lemma GroupFiles(files: Files, hashOf: string -> string, paths: seq<string>, j: nat)
    requires j < |ScanGroups(files, hashOf, paths)|
    ensures var g := ScanGroups(files, hashOf, paths)[j];
      g.0 != "" && g.1.files == RecordsOf(files, FilterHash(hashOf, HashedPaths(SizeMapOf(files, paths)), g.0))
  {
    var qs := HashedPaths(SizeMapOf(files, paths));
    var hm := HashMapOf(files, hashOf, qs);
    HashMapOfInv(files, hashOf, qs);
    GroupsOfFacts(hm);
    var g := ScanGroups(files, hashOf, paths)[j];
    var i := IndexOf(hm, g.0);
  }

  /** Every member of a group is an eligible file whose digest is the group's key, recorded as `get_file_info` gives it. */
  lemma ScanGroupMember(files: Files, hashOf: string -> string, paths: seq<string>, j: nat, k: nat)
    requires Distinct(paths)
    requires j < |ScanGroups(files, hashOf, paths)| && k < |ScanGroups(files, hashOf, paths)[j].1.files|
    ensures var g := ScanGroups(files, hashOf, paths)[j]; var r := g.1.files[k];
      Eligible(files, hashOf, paths, r.path) && hashOf(r.path) == g.0 && FileInfo(files, r.path) == Some(r)
  {
    var qs := HashedPaths(SizeMapOf(files, paths));
    var g := ScanGroups(files, hashOf, paths)[j];
    GroupFiles(files, hashOf, paths, j);
    var ps := FilterHash(hashOf, qs, g.0);
    RecordsOfSound(files, ps);
    var r := g.1.files[k];
    FilterHashFacts(hashOf, qs, g.0);
    HashedPathsAreRivals(files, paths, r.path);
  }

  /** No path is recorded twice, in one group or in two. */
  lemma ScanGroupsDisjoint(files: Files, hashOf: string -> string, paths: seq<string>, j1: nat, k1: nat, j2: nat, k2: nat)
    requires Distinct(paths)
    requires j1 < |ScanGroups(files, hashOf, paths)| && k1 < |ScanGroups(files, hashOf, paths)[j1].1.files|
    requires j2 < |ScanGroups(files, hashOf, paths)| && k2 < |ScanGroups(files, hashOf, paths)[j2].1.files|
    requires ScanGroups(files, hashOf, paths)[j1].1.files[k1].path == ScanGroups(files, hashOf, paths)[j2].1.files[k2].path
    ensures j1 == j2 && k1 == k2
  {
    var G := ScanGroups(files, hashOf, paths);
    ScanGroupMember(files, hashOf, paths, j1, k1);
    ScanGroupMember(files, hashOf, paths, j2, k2);
    ScanGroupsWellFormed(files, hashOf, paths);
    assert G[j1].0 == G[j2].0;
    var qs := HashedPaths(SizeMapOf(files, paths));
    HashedPathsAreRivals(files, paths, "");
    FilterHashFacts(hashOf, qs, G[j1].0);
    GroupFiles(files, hashOf, paths, j1);
    RecordsOfDistinct(files, FilterHash(hashOf, qs, G[j1].0));
  }

  /** `p` is in some group. */
  ghost predicate InGroups(groups: seq<(string, DuplicateGroup)>, p: string)
  {
    exists j, k :: 0 <= j < |groups| && 0 <= k < |groups[j].1.files| && groups[j].1.files[k].path == p
  }

  /** A file is reported exactly when it is eligible and another eligible file has the same digest. */
  lemma ScanGroupsComplete(files: Files, hashOf: string -> string, paths: seq<string>, p: string)
    requires Distinct(paths)
    ensures InGroups(ScanGroups(files, hashOf, paths), p) <==>
      Eligible(files, hashOf, paths, p) && exists q :: q != p && Eligible(files, hashOf, paths, q) && hashOf(q) == hashOf(p)
  {
    var G := ScanGroups(files, hashOf, paths);
    if InGroups(G, p) {
      var j, k :| 0 <= j < |G| && 0 <= k < |G[j].1.files| && G[j].1.files[k].path == p;
      ScanGroupsWellFormed(files, hashOf, paths);
      var k2 := if k == 0 then 1 else 0;
      ScanGroupMember(files, hashOf, paths, j, k);
      ScanGroupMember(files, hashOf, paths, j, k2);
      var q := G[j].1.files[k2].path;
      if q == p {
        ScanGroupsDisjoint(files, hashOf, paths, j, k, j, k2);
      }
    }
    if Eligible(files, hashOf, paths, p) && exists q :: q != p && Eligible(files, hashOf, paths, q) && hashOf(q) == hashOf(p) {
      var q :| q != p && Eligible(files, hashOf, paths, q) && hashOf(q) == hashOf(p);
      EligibleReported(files, hashOf, paths, p, q);
    }
  }

  lemma EligibleReported(files: Files, hashOf: string -> string, paths: seq<string>, p: string, q: string)
    requires Distinct(paths)
    requires Eligible(files, hashOf, paths, p) && Eligible(files, hashOf, paths, q) && q != p && hashOf(q) == hashOf(p)
    ensures InGroups(ScanGroups(files, hashOf, paths), p)
  {
    var h := hashOf(p);
    var qs := HashedPaths(SizeMapOf(files, paths));
    var hm := HashMapOf(files, hashOf, qs);
    HashedPathsAreRivals(files, paths, p);
    HashedPathsAreRivals(files, paths, q);
    HashMapOfInv(files, hashOf, qs);
    GroupsOfFacts(hm);
    var i := IndexOf(hm, h);
    var ps := FilterHash(hashOf, qs, h);
    FilterHashFacts(hashOf, qs, h);
    RecordsOfComplete(files, ps, p);
    RecordsOfComplete(files, ps, q);
    var rs := RecordsOf(files, ps);
    assert hm[i].1 == rs;
    var a :| 0 <= a < |rs| && rs[a] == FileInfo(files, p).value;
    var b :| 0 <= b < |rs| && rs[b] == FileInfo(files, q).value;
    assert a != b;
    var G := GroupsOf(hm);
    var j := IndexOf(G, h);
    IndexOfAt(hm, i);
    assert G[j].1.files == rs;
    assert G[j].1.files[a].path == p;
  }
}
