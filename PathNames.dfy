/**
 * The parts of `pathlib` the source uses on names (`name`, `stem`,
 * `suffix`, the `/` operator and `str`) and the numbered-name search shared by the
 * archive step of the duplicate resolver and by the renamer: the first of
 * `name`, `stem_1 + suffix`, `stem_2 + suffix`, ... that is not taken.
 */
module PathNames {
  import opened Text

  /** The position of the last `c` in `s`, or -1 (`str.rfind`). */
  function LastIndexOf(s: string, c: char): (r: int)
    ensures -1 <= r < |s|
    ensures r >= 0 ==> s[r] == c
    ensures forall k :: r < k < |s| ==> s[k] != c
  {
    if s == [] then -1
    else if s[|s| - 1] == c then |s| - 1
    else LastIndexOf(s[..|s| - 1], c)
  }

  /** `PurePath(path).name`: what follows the last `/`. */
  function Name(path: string): (n: string)
    ensures forall k :: 0 <= k < |n| ==> n[k] != '/'
  {
    path[LastIndexOf(path, '/') + 1..]
  }

  /** Whether `name` has a suffix: its last `.` is neither its first nor its last character. */
  predicate HasSuffix(name: string)
  {
    0 < LastIndexOf(name, '.') < |name| - 1
  }

  /** `PurePath(name).suffix`. */
  function Suffix(name: string): string
  {
    if HasSuffix(name) then name[LastIndexOf(name, '.')..] else ""
  }

  /** `PurePath(name).stem`. */
  function Stem(name: string): string
  {
    if HasSuffix(name) then name[..LastIndexOf(name, '.')] else name
  }

  /** A name splits into its stem and its suffix, and the suffix holds no further `.`. */
  lemma StemSuffix(name: string)
    ensures Stem(name) + Suffix(name) == name
    ensures Suffix(name) == "" || (Suffix(name)[0] == '.' && forall k :: 0 < k < |Suffix(name)| ==> Suffix(name)[k] != '.')
  {
    if HasSuffix(name) {
      var i := LastIndexOf(name, '.');
      assert name[..i] + name[i..] == name;
    }
  }

  // ----- pure paths and the `/` operator -----

  /** `s.split('/')`. */
  function Segments(s: string): (r: seq<string>)
    ensures |r| >= 1
  {
    if s == "" then [""]
    else if s[0] == '/' then [""] + Segments(s[1..])
    else
      var r := Segments(s[1..]);
      [[s[0]] + r[0]] + r[1..]
  }

  /** A slash splits a string into the segments of both sides. */
  lemma {:induction false} SegmentsConcat(a: string, b: string)
    ensures Segments(a + "/" + b) == Segments(a) + Segments(b)
  {
    if a == "" {
      assert a + "/" + b == "/" + b;
      assert ("/" + b)[1..] == b;
    } else {
      var t := a + "/" + b;
      assert t[0] == a[0];
      assert t[1..] == a[1..] + "/" + b;
      SegmentsConcat(a[1..], b);
    }
  }

  /** A string without a slash is one segment. */
  lemma {:induction false} SegmentsNoSlash(s: string)
    requires forall k :: 0 <= k < |s| ==> s[k] != '/'
    ensures Segments(s) == [s]
  {
    if s != "" {
      SegmentsNoSlash(s[1..]);
      assert [s[0]] + s[1..] == s;
    }
  }

  /** The segments pathlib keeps: all but the empty ones and `.`. */
  function KeepParts(ss: seq<string>): (r: seq<string>)
    ensures forall k :: 0 <= k < |r| ==> r[k] != "" && r[k] != "."
  {
    if ss == [] then []
    else (if ss[0] == "" || ss[0] == "." then [] else [ss[0]]) + KeepParts(ss[1..])
  }

  lemma {:induction false} KeepPartsConcat(x: seq<string>, y: seq<string>)
    ensures KeepParts(x + y) == KeepParts(x) + KeepParts(y)
  {
    if x != [] {
      assert (x + y)[0] == x[0];
      assert (x + y)[1..] == x[1..] + y;
      KeepPartsConcat(x[1..], y);
    } else {
      assert x + y == y;
    }
  }

  /** The components of a path string, as `PurePath.parts` holds them after the root. */
  function Parts(s: string): seq<string>
  {
    KeepParts(Segments(s))
  }

  /** A slash appends the components of the right side to those of the left. */
  lemma PartsConcat(a: string, b: string)
    ensures Parts(a + "/" + b) == Parts(a) + Parts(b)
  {
    SegmentsConcat(a, b);
    KeepPartsConcat(Segments(a), Segments(b));
  }

  predicate IsAbsolute(s: string)
  {
    |s| > 0 && s[0] == '/'
  }

  /** One path component: non-empty, not `.`, and without a slash. */
  predicate IsPart(s: string)
  {
    s != "" && s != "." && forall k :: 0 <= k < |s| ==> s[k] != '/'
  }

  lemma PartsOfPart(s: string)
    requires IsPart(s)
    ensures Parts(s) == [s]
  {
    SegmentsNoSlash(s);
    assert [s][0] == s && [s][1..] == [];
    assert KeepParts([s]) == [s] + KeepParts([]);
  }

  /** A POSIX pure path: whether it starts at the root, and its components. */
  datatype PurePath = PurePath(absolute: bool, parts: seq<string>)

  /** `PurePosixPath(s)`. */
  function PathOf(s: string): PurePath
  {
    PurePath(IsAbsolute(s), Parts(s))
  }

  /** `p / s`: an absolute `s` replaces `p`, anything else adds its components. */
  function Div(p: PurePath, s: string): PurePath
  {
    if IsAbsolute(s) then PathOf(s) else PurePath(p.absolute, p.parts + Parts(s))
  }

  /** `str(p)`: `.` for the empty relative path. */
  function PathStr(p: PurePath): string
  {
    if !p.absolute && p.parts == [] then "." else (if p.absolute then "/" else "") + Join(p.parts, "/")
  }

  /** A path string already in the form `str(Path(s))` gives back, with at least one component. */
  predicate Normal(s: string)
  {
    Parts(s) != [] && PathStr(PathOf(s)) == s
  }

  /** Adding a component to a path with components adds a slash and the component. */
  lemma PathStrSnoc(p: PurePath, x: string)
    requires p.parts != []
    ensures PathStr(PurePath(p.absolute, p.parts + [x])) == PathStr(p) + "/" + x
  {
    JoinSnoc(p.parts, x, "/");
  }

  /** A trailing slash changes nothing. */
  lemma PathOfTrailingSlash(s: string)
    requires s != ""
    ensures PathOf(s + "/") == PathOf(s)
  {
    PartsConcat(s, "");
    assert s + "/" == s + "/" + "";
    assert Parts("") == [];
    assert (s + "/")[0] == s[0];
  }

  /** The `k`-th name tried for `name`: `name` itself for 0, `stem_k + suffix` after that. */
  function Numbered(name: string, k: nat): string
  {
    if k == 0 then name else Stem(name) + "_" + NatToString(k) + Suffix(name)
  }

  /** Different counters give different names. */
  lemma NumberedInjective(name: string, j: nat, k: nat)
    requires Numbered(name, j) == Numbered(name, k)
    ensures j == k
  {
    StemSuffix(name);
    var st, sf := Stem(name), Suffix(name);
    if j != 0 && k != 0 {
      var dj, dk := NatToString(j), NatToString(k);
      var a, b := st + "_" + dj + sf, st + "_" + dk + sf;
      assert |dj| == |dk|;
      assert a[|st| + 1..|st| + 1 + |dj|] == dj;
      assert b[|st| + 1..|st| + 1 + |dk|] == dk;
      NatToStringInjective(j, k);
    } else {
      assert |Numbered(name, j)| == |name| + (if j == 0 then 0 else 1 + |NatToString(j)|);
      assert |Numbered(name, k)| == |name| + (if k == 0 then 0 else 1 + |NatToString(k)|);
    }
  }

  /** The names tried with counters `0 .. k`. */
  function NumberedUpTo(name: string, k: nat): set<string>
  {
    if k == 0 then {name} else NumberedUpTo(name, k - 1) + {Numbered(name, k)}
  }

  lemma {:induction false} NumberedUpToMembers(name: string, k: nat)
    ensures forall j :: 0 <= j <= k ==> Numbered(name, j) in NumberedUpTo(name, k)
    ensures forall x :: x in NumberedUpTo(name, k) ==> exists j :: 0 <= j <= k && x == Numbered(name, j)
  {
    if k > 0 {
      NumberedUpToMembers(name, k - 1);
      forall j | 0 <= j <= k ensures Numbered(name, j) in NumberedUpTo(name, k) {
        if j < k { assert Numbered(name, j) in NumberedUpTo(name, k - 1); }
      }
      forall x | x in NumberedUpTo(name, k) ensures exists j :: 0 <= j <= k && x == Numbered(name, j) {
        if x == Numbered(name, k) {
          assert 0 <= k <= k && x == Numbered(name, k);
        } else {
          assert x in NumberedUpTo(name, k - 1);
          var j :| 0 <= j <= k - 1 && x == Numbered(name, j);
          assert 0 <= j <= k && x == Numbered(name, j);
        }
      }
    } else {
      forall x | x in NumberedUpTo(name, 0) ensures exists j :: 0 <= j <= 0 && x == Numbered(name, j) {
        assert x == Numbered(name, 0);
      }
    }
  }

  lemma {:induction false} NumberedUpToFacts(name: string, k: nat)
    ensures forall j :: 0 <= j <= k ==> Numbered(name, j) in NumberedUpTo(name, k)
    ensures |NumberedUpTo(name, k)| == k + 1
  {
    NumberedUpToMembers(name, k);
    if k > 0 {
      NumberedUpToFacts(name, k - 1);
      if Numbered(name, k) in NumberedUpTo(name, k - 1) {
        NumberedUpToMembers(name, k - 1);
        var j :| 0 <= j <= k - 1 && Numbered(name, k) == Numbered(name, j);
        NumberedInjective(name, j, k);
      }
    }
  }

  /** If the names for counters `0 .. k` are all taken, at least `k + 1` names are taken. */
  lemma TakenBound(existing: set<string>, name: string, k: nat)
    requires forall j :: 0 <= j <= k ==> Numbered(name, j) in existing
    ensures |existing| >= k + 1
  {
    NumberedUpToFacts(name, k);
    NumberedUpToMembers(name, k);
    var tried := NumberedUpTo(name, k);
    assert tried <= existing;
    assert existing == tried + (existing - tried);
  }

  /** The search from counter `k` on, when every name before `k` is taken. */
  function FreeIndexFrom(existing: set<string>, name: string, k: nat): (r: nat)
    requires forall j :: 0 <= j < k ==> Numbered(name, j) in existing
    ensures k <= r
    ensures Numbered(name, r) !in existing
    ensures forall j :: 0 <= j < r ==> Numbered(name, j) in existing
    decreases |existing| - k
  {
    if Numbered(name, k) !in existing then k
    else
      TakenBound(existing, name, k);
      FreeIndexFrom(existing, name, k + 1)
  }

  /** The least counter whose name is not taken: the search always ends, on a free name. */
  function FreeIndex(existing: set<string>, name: string): (k: nat)
    ensures Numbered(name, k) !in existing
    ensures forall j :: 0 <= j < k ==> Numbered(name, j) in existing
    ensures k <= |existing|
  {
    var k := FreeIndexFrom(existing, name, 0);
    assert k <= |existing| by {
      if k > 0 { TakenBound(existing, name, k - 1); }
    }
    k
  }

  /** Only one counter is both free and preceded by taken names. */
  lemma FreeIndexUnique(existing: set<string>, name: string, k: nat)
    requires Numbered(name, k) !in existing
    requires forall j :: 0 <= j < k ==> Numbered(name, j) in existing
    ensures k == FreeIndex(existing, name)
  {
  }

  /** The name the search settles on. */
  function FreeName(existing: set<string>, name: string): (r: string)
    ensures r !in existing
    ensures name !in existing ==> r == name
  {
    Numbered(name, FreeIndex(existing, name))
  }
}
