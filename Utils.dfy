/**
 * The helpers of utils.py used by the core: the string normalisation in
 * front of the directory check (`validate_path`), the unit choice of
 * `format_file_size` and the `sanitize_filename` pipeline.
 */
module Utils {
  import opened Text

  // ----- validate_path -----

  /** The argument of `validate_path`: a string or any other Python value. */
  datatype PathArg = Str(s: string) | NotAString

  /** `path.strip().strip('"').strip("'")`. */
  function NormalizePath(path: string): string
  {
    Strip(Strip(Strip(path, Whitespace), {'"'}), {'\''})
  }

  /**
   * `validate_path`. `accessibleDir` stands for everything after the
   * normalisation: `expanduser`, `resolve`, the existence, directory and
   * readability checks, and the OS errors turned into False.
   */
  function ValidatePath(arg: PathArg, accessibleDir: string -> bool): (ok: bool)
    ensures arg == NotAString ==> !ok
    ensures arg.Str? && arg.s == "" ==> !ok
    ensures ok ==> arg.Str? && NormalizePath(arg.s) != "" && accessibleDir(NormalizePath(arg.s))
    ensures arg.Str? && NormalizePath(arg.s) != "" && accessibleDir(NormalizePath(arg.s)) ==> ok
  {
    match arg
    case NotAString => false
    case Str(s) =>
      if s == "" then false
      else
        var p := NormalizePath(s);
        if p == "" then false else accessibleDir(p)
  }

  /** Stripping a piece of `s` leaves a smaller piece of `s`. */
  lemma StripOfSlice(s: string, t: string, i: nat, j: nat, cs: set<char>) returns (i': nat, j': nat)
    requires i <= j <= |s| && t == s[i..j]
    ensures i <= i' <= j' <= j && Strip(t, cs) == s[i'..j']
  {
    var u := Strip(t, cs);
    var a, b := StripPiece(t, cs);
    i', j' := i + a, i + b;
    assert |u| == |s[i'..j']|;
    forall k | 0 <= k < |u| ensures u[k] == s[i' + k] {
      assert u[k] == t[a + k];
    }
  }

  /**
   * The normalised path is a contiguous piece of the input that neither
   * starts nor ends with a single quote.
   */
  lemma NormalizePathShape(path: string) returns (i: nat, j: nat)
    ensures i <= j <= |path| && NormalizePath(path) == path[i..j]
    ensures NormalizePath(path) != "" ==> NormalizePath(path)[0] != '\'' && NormalizePath(path)[|NormalizePath(path)| - 1] != '\''
  {
    var a := Strip(path, Whitespace);
    var b := Strip(a, {'"'});
    var i1, j1 := StripPiece(path, Whitespace);
    var i2, j2 := StripOfSlice(path, a, i1, j1, {'"'});
    i, j := StripOfSlice(path, b, i2, j2, {'\''});
  }

  /** An empty or all-whitespace path is rejected whatever the filesystem says. */
  lemma BlankPathRejected(path: string, accessibleDir: string -> bool)
    requires forall k :: 0 <= k < |path| ==> path[k] in Whitespace
    ensures !ValidatePath(Str(path), accessibleDir)
  {
    var i, j := StripPiece(path, Whitespace);
  }

  // ----- format_file_size -----

  const Units: seq<string> := ["B", "KB", "MB", "GB", "TB"]

  function Pow1024(k: nat): (p: nat)
    ensures p >= 1
  {
    if k == 0 then 1 else 1024 * Pow1024(k - 1)
  }

  /** The unit `format_file_size` settles on: the largest k <= 4 with 1024^k <= bytes. */
  function UnitIndex(bytes: nat): (k: nat)
    ensures k < |Units|
    ensures k == 0 || Pow1024(k) <= bytes
    ensures k == |Units| - 1 || bytes < Pow1024(k + 1)
  {
    if bytes < 1024 then 0
    else if bytes < 1048576 then 1
    else if bytes < 1073741824 then 2
    else if bytes < 1099511627776 then 3
    else 4
  }

  /**
   * What `format_file_size` renders: a whole number of bytes, or a value
   * and a unit that the source prints with one decimal.
   */
  datatype SizeText = Plain(text: string) | OneDecimal(value: real, unit: string)

  /** The byte count expressed in the unit `1024^k`. */
  function Scaled(bytes: nat, k: nat): real
  {
    (bytes as real) / (Pow1024(k) as real)
  }

  /** Scaling back up recovers the byte count. */
  lemma ScaledTimesPow(bytes: nat, k: nat)
    ensures Scaled(bytes, k) * (Pow1024(k) as real) == bytes as real
  {
  }

  /** Dividing by 1024 moves to the next unit. */
  lemma ScaledStep(bytes: nat, k: nat)
    ensures Scaled(bytes, k) / 1024.0 == Scaled(bytes, k + 1)
  {
    var q := Pow1024(k) as real;
    assert Pow1024(k + 1) as real == 1024.0 * q;
  }

  /** The size in unit `1024^k` is at least 1024 exactly when there are at least `1024^(k+1)` bytes. */
  lemma ScaledAtLeast(bytes: nat, k: nat)
    ensures Scaled(bytes, k) >= 1024.0 <==> bytes >= Pow1024(k + 1)
  {
    var q := Pow1024(k) as real;
    var x := Scaled(bytes, k);
    ScaledTimesPow(bytes, k);
    assert Pow1024(k + 1) as real == 1024.0 * q;
    ScalePositive(x, 1024.0, q);
  }

  /** Multiplying by a positive factor keeps the order. */
  lemma ScalePositive(x: real, c: real, q: real)
    requires q > 0.0
    ensures x >= c <==> x * q >= c * q
  {
    if x >= c {
      assert (x - c) * q >= 0.0;
    } else {
      assert (c - x) * q > 0.0;
    }
  }

  /** `UnitIndex` is the only counter with its two bounds. */
  lemma UnitIndexUnique(bytes: nat, k: nat)
    requires k < |Units|
    requires k == 0 || Pow1024(k) <= bytes
    requires k == |Units| - 1 || bytes < Pow1024(k + 1)
    ensures k == UnitIndex(bytes)
  {
    assert Pow1024(1) == 1024;
    assert Pow1024(2) == 1048576;
    assert Pow1024(3) == 1073741824;
    assert Pow1024(4) == 1099511627776;
  }

  /**
   * The loop of `format_file_size`: divides by 1024 while the size is at
   * least 1024 and a larger unit exists.
   */
  method ScaleToUnit(bytes: nat) returns (size: real, unitIndex: nat)
    ensures unitIndex == UnitIndex(bytes)
    ensures size == Scaled(bytes, unitIndex)
  {
    size := bytes as real;
    unitIndex := 0;
    while size >= 1024.0 && unitIndex < |Units| - 1
      invariant unitIndex < |Units|
      invariant size == Scaled(bytes, unitIndex)
      invariant unitIndex == 0 || Pow1024(unitIndex) <= bytes
    {
      ScaledAtLeast(bytes, unitIndex);
      ScaledStep(bytes, unitIndex);
      size := size / 1024.0;
      unitIndex := unitIndex + 1;
    }
    ScaledAtLeast(bytes, unitIndex);
    UnitIndexUnique(bytes, unitIndex);
  }

  /** `format_file_size(bytes)`. */
  method FormatFileSize(bytes: int) returns (r: SizeText)
    ensures bytes < 0 ==> r == Plain("0 B")
    ensures 0 <= bytes < 1024 ==> r == Plain(NatToString(bytes) + " B")
    ensures bytes >= 1024 ==> r.OneDecimal? && r.unit == Units[UnitIndex(bytes)]
    ensures bytes >= 1024 ==> r.value * (Pow1024(UnitIndex(bytes)) as real) == bytes as real
  {
    if bytes < 0 {
      return Plain("0 B");
    }
    var size, unitIndex := ScaleToUnit(bytes);
    ScaledTimesPow(bytes, unitIndex);
    if unitIndex == 0 {
      assert size == bytes as real;
      r := Plain(NatToString(bytes) + " " + Units[unitIndex]);
    } else {
      r := OneDecimal(size, Units[unitIndex]);
    }
  }

  /** The examples of the `format_file_size` documentation. */
  method FormatFileSizeExamples()
  {
    var a := FormatFileSize(1024);
    assert a == OneDecimal(1.0, "KB");
    var b := FormatFileSize(1048576);
    assert b == OneDecimal(1.0, "MB");
    var c := FormatFileSize(500);
    assert NatToString(500) == "500";
    assert c == Plain("500 B");
  }

  // ----- sanitize_filename -----

  /** The characters `[\w\-.]` keeps. */
  predicate IsFileNameChar(c: char) { IsWordChar(c) || c == '-' || c == '.' }

  /** Letters, digits and `-`: the characters no step of the pipeline removes. */
  predicate IsKeptChar(c: char) { IsLetter(c) || IsDigitChar(c) || c == '-' }

  const EdgeChars: set<char> := {'_', '.'}

  predicate AllFileNameChars(s: string)
  {
    forall k :: 0 <= k < |s| ==> IsFileNameChar(s[k])
  }

  /** `name.replace(' ', '_')`. */
  function ReplaceSpaces(s: string): (r: string)
    ensures |r| == |s|
    ensures forall k :: 0 <= k < |s| ==> r[k] == if s[k] == ' ' then '_' else s[k]
  {
    seq(|s|, k requires 0 <= k < |s| => if s[k] == ' ' then '_' else s[k])
  }

  /** No two consecutive underscores. */
  predicate NoDoubleUnderscore(s: string)
  {
    forall k :: 0 <= k < |s| - 1 ==> !(s[k] == '_' && s[k + 1] == '_')
  }

  /** `re.sub(r'_+', '_', s)`: every run of underscores becomes one underscore. */
  function CollapseUnderscores(s: string): (r: string)
    ensures NoDoubleUnderscore(r)
    ensures |r| <= |s|
    ensures (r == "") == (s == "")
    ensures s != "" ==> r[|r| - 1] == s[|s| - 1]
    ensures NoDoubleUnderscore(s) ==> r == s
  {
    if s == "" then ""
    else
      var init := s[..|s| - 1];
      var c := s[|s| - 1];
      var r0 := CollapseUnderscores(init);
      assert NoDoubleUnderscore(s) ==> NoDoubleUnderscore(init);
      if c == '_' && r0 != "" && r0[|r0| - 1] == '_' then r0 else r0 + [c]
  }

  /** Collapsing keeps only characters of the input. */
  lemma {:induction false} CollapseKeepsFileNameChars(s: string)
    requires AllFileNameChars(s)
    ensures AllFileNameChars(CollapseUnderscores(s))
  {
    if s != "" {
      CollapseKeepsFileNameChars(s[..|s| - 1]);
    }
  }

  /** The replacement of spaces and the filter of `sanitize_filename`. */
  function Filtered(s: string): string
  {
    KeepIf(ReplaceSpaces(s), IsFileNameChar)
  }

  /** The pipeline's result before the empty check. */
  function SanitizeCore(name: string): string
  {
    Strip(CollapseUnderscores(Filtered(name)), EdgeChars)
  }

  /** `sanitize_filename(name)`. */
  function SanitizeFilename(name: string): string
  {
    if name == "" then "unnamed"
    else
      var s := SanitizeCore(name);
      if s == "" then "unnamed" else s
  }

  /** What a sanitised name looks like. */
  predicate IsSanitized(s: string)
  {
    && s != ""
    && AllFileNameChars(s)
    && NoDoubleUnderscore(s)
    && s[0] !in EdgeChars
    && s[|s| - 1] !in EdgeChars
  }

  lemma CleanPiece(b: string, i: nat, j: nat)
    requires i <= j <= |b| && AllFileNameChars(b) && NoDoubleUnderscore(b)
    ensures AllFileNameChars(b[i..j]) && NoDoubleUnderscore(b[i..j])
  {
    var c := b[i..j];
    forall k | 0 <= k < |c| - 1 ensures !(c[k] == '_' && c[k + 1] == '_') {
      assert c[k] == b[i + k] && c[k + 1] == b[i + k + 1];
    }
  }

  /** Before the empty check the pipeline yields "" or a sanitised name. */
  lemma SanitizeCoreShape(name: string)
    ensures SanitizeCore(name) == "" || IsSanitized(SanitizeCore(name))
  {
    var a := Filtered(name);
    var b := CollapseUnderscores(a);
    CollapseKeepsFileNameChars(a);
    var i, j := StripPiece(b, EdgeChars);
    CleanPiece(b, i, j);
  }

  /**
   * The result is non-empty and holds only `\w`, `-` and `.` characters
   * (so no spaces), no run of two underscores, and neither starts nor ends
   * with an underscore or a period.
   */
  lemma SanitizeShape(name: string)
    ensures IsSanitized(SanitizeFilename(name))
  {
    if name == "" || SanitizeCore(name) == "" {
      UnnamedIsSanitized();
    } else {
      SanitizeCoreShape(name);
    }
  }

  lemma UnnamedIsSanitized()
    ensures IsSanitized("unnamed")
  {
  }

  /** A sanitised name is left as it is. */
  lemma SanitizeFixes(s: string)
    requires IsSanitized(s)
    ensures SanitizeFilename(s) == s
  {
    assert ReplaceSpaces(s) == s;
    assert KeepIf(s, IsFileNameChar) == s;
    StripEmpty(s, EdgeChars);
  }

  /** `sanitize_filename` is idempotent. */
  lemma SanitizeIdempotent(name: string)
    ensures SanitizeFilename(SanitizeFilename(name)) == SanitizeFilename(name)
  {
    SanitizeShape(name);
    SanitizeFixes(SanitizeFilename(name));
  }

  lemma {:induction false} KeepIfConcat(a: string, b: string, keep: char -> bool)
    ensures KeepIf(a + b, keep) == KeepIf(a, keep) + KeepIf(b, keep)
  {
    if a != "" {
      assert (a + b)[0] == a[0];
      assert (a + b)[1..] == a[1..] + b;
      KeepIfConcat(a[1..], b, keep);
      var h: string := if keep(a[0]) then [a[0]] else "";
      assert KeepIf(a, keep) == h + KeepIf(a[1..], keep);
      assert KeepIf(a + b, keep) == h + KeepIf(a[1..] + b, keep);
    } else {
      assert a + b == b;
    }
  }

  lemma {:induction false} KeepIfNone(a: string, keep: char -> bool)
    requires forall k :: 0 <= k < |a| ==> !keep(a[k])
    ensures KeepIf(a, keep) == ""
  {
    if a != "" {
      KeepIfNone(a[1..], keep);
    }
  }

  lemma {:induction false} KeptThroughReplace(s: string)
    ensures KeepIf(ReplaceSpaces(s), IsKeptChar) == KeepIf(s, IsKeptChar)
  {
    if s != "" {
      assert ReplaceSpaces(s)[1..] == ReplaceSpaces(s[1..]);
      KeptThroughReplace(s[1..]);
    }
  }

  lemma {:induction false} KeptThroughFilter(s: string)
    ensures KeepIf(KeepIf(s, IsFileNameChar), IsKeptChar) == KeepIf(s, IsKeptChar)
  {
    if s != "" {
      KeptThroughFilter(s[1..]);
    }
  }

  lemma {:induction false} KeptThroughCollapse(s: string)
    ensures KeepIf(CollapseUnderscores(s), IsKeptChar) == KeepIf(s, IsKeptChar)
  {
    if s != "" {
      var init, c := s[..|s| - 1], s[|s| - 1];
      assert s == init + [c];
      KeptThroughCollapse(init);
      KeepIfConcat(init, [c], IsKeptChar);
      KeepIfConcat(CollapseUnderscores(init), [c], IsKeptChar);
    }
  }

  lemma KeptThroughStrip(s: string)
    ensures KeepIf(Strip(s, EdgeChars), IsKeptChar) == KeepIf(s, IsKeptChar)
  {
    var i, j := StripDrops(s, EdgeChars);
    KeptOfMiddle(s, i, j);
  }

  /** Cutting runs of edge characters off both ends keeps the same letters, digits and dashes. */
  lemma KeptOfMiddle(s: string, i: nat, j: nat)
    requires i <= j <= |s|
    requires forall k :: 0 <= k < i ==> s[k] in EdgeChars
    requires forall k :: j <= k < |s| ==> s[k] in EdgeChars
    ensures KeepIf(s[i..j], IsKeptChar) == KeepIf(s, IsKeptChar)
  {
    var a, b, c := s[..i], s[i..j], s[j..];
    SplitThree(s, i, j);
    EdgeRunKeepsNothing(a);
    EdgeRunKeepsNothing(c);
    KeepIfMiddle(a, b, c, IsKeptChar);
  }

  lemma KeepIfMiddle(a: string, b: string, c: string, keep: char -> bool)
    requires KeepIf(a, keep) == "" && KeepIf(c, keep) == ""
    ensures KeepIf(a + b + c, keep) == KeepIf(b, keep)
  {
    KeepIfConcat(a + b, c, keep);
    KeepIfConcat(a, b, keep);
  }

  /** `s` cut at `i` and `j`, with the edge characters of the ends carried to the pieces. */
  lemma SplitThree(s: string, i: nat, j: nat)
    requires i <= j <= |s|
    requires forall k :: 0 <= k < i ==> s[k] in EdgeChars
    requires forall k :: j <= k < |s| ==> s[k] in EdgeChars
    ensures s == s[..i] + s[i..j] + s[j..]
    ensures forall k :: 0 <= k < |s[..i]| ==> s[..i][k] in EdgeChars
    ensures forall k :: 0 <= k < |s[j..]| ==> s[j..][k] in EdgeChars
  {
    forall k | 0 <= k < |s[j..]| ensures s[j..][k] in EdgeChars {
      assert s[j..][k] == s[j + k];
    }
  }

  lemma EdgeRunKeepsNothing(a: string)
    requires forall k :: 0 <= k < |a| ==> a[k] in EdgeChars
    ensures KeepIf(a, IsKeptChar) == ""
  {
    KeepIfNone(a, IsKeptChar);
  }

  /**
   * Every letter, digit and `-` of the input survives, in order; when the
   * input has none of them the result is "unnamed".
   */
  lemma SanitizeKeepsLettersDigitsDashes(name: string)
    ensures KeepIf(name, IsKeptChar) != "" ==> KeepIf(SanitizeFilename(name), IsKeptChar) == KeepIf(name, IsKeptChar)
    ensures KeepIf(name, IsKeptChar) == "" ==> SanitizeFilename(name) == "unnamed"
  {
    if name != "" {
      var a := Filtered(name);
      var b := CollapseUnderscores(a);
      var c := Strip(b, EdgeChars);
      KeptThroughReplace(name);
      KeptThroughFilter(ReplaceSpaces(name));
      KeptThroughCollapse(a);
      KeptThroughStrip(b);
      assert KeepIf(c, IsKeptChar) == KeepIf(name, IsKeptChar);
      if c != "" {
        SanitizeCoreShape(name);
        assert IsKeptChar(c[0]);
      }
    }
  }

  lemma ReplaceSpacesConcat(a: string, b: string)
    ensures ReplaceSpaces(a + b) == ReplaceSpaces(a) + ReplaceSpaces(b)
  {
    var l, r := ReplaceSpaces(a + b), ReplaceSpaces(a) + ReplaceSpaces(b);
    assert |l| == |r|;
    forall k | 0 <= k < |l| ensures l[k] == r[k] {
      if k < |a| {
        assert (a + b)[k] == a[k];
      } else {
        assert (a + b)[k] == b[k - |a|];
      }
    }
  }

  lemma FilteredConcat(x: string, y: string)
    ensures Filtered(x + y) == Filtered(x) + Filtered(y)
  {
    ReplaceSpacesConcat(x, y);
    KeepIfConcat(ReplaceSpaces(x), ReplaceSpaces(y), IsFileNameChar);
  }

  /** A piece of a name made of filename characters other than `_`. */
  predicate PlainPiece(s: string)
  {
    forall k :: 0 <= k < |s| ==> IsFileNameChar(s[k]) && s[k] != '_'
  }

  lemma FilteredPlain(s: string)
    requires PlainPiece(s)
    ensures Filtered(s) == s
  {
    assert ReplaceSpaces(s) == s;
  }

  /** An underscore between two pieces without a double underscore, neither touching it with one, makes none. */
  lemma NoDoubleUnderscoreSep(x: string, y: string)
    requires NoDoubleUnderscore(x) && NoDoubleUnderscore(y)
    requires x != "" && x[|x| - 1] != '_' && y != "" && y[0] != '_'
    ensures NoDoubleUnderscore(x + "_" + y)
  {
    var s := x + "_" + y;
    forall k | 0 <= k < |s| - 1 ensures !(s[k] == '_' && s[k + 1] == '_') {
      if k < |x| - 1 {
        assert s[k] == x[k] && s[k + 1] == x[k + 1];
      } else if k == |x| - 1 {
        assert s[k] == x[k];
      } else if k == |x| {
        assert s[k + 1] == y[0];
      } else {
        assert s[k] == y[k - |x| - 1] && s[k + 1] == y[k - |x|];
      }
    }
  }

  lemma PlainNoDoubleUnderscore(s: string)
    requires PlainPiece(s)
    ensures NoDoubleUnderscore(s)
  {
  }

  lemma PlainConcat(x: string, y: string)
    requires PlainPiece(x) && PlainPiece(y)
    ensures PlainPiece(x + y)
  {
    forall k | |x| <= k < |x + y| ensures IsFileNameChar((x + y)[k]) && (x + y)[k] != '_' {
      assert (x + y)[k] == y[k - |x|];
    }
  }

  lemma FilteredSpace()
    ensures Filtered(" ") == "_"
  {
    assert ReplaceSpaces(" ") == "_";
  }

  lemma FilteredDropped(c: char)
    requires !IsFileNameChar(c) && c != ' '
    ensures Filtered([c]) == ""
  {
    assert ReplaceSpaces([c]) == [c];
  }

  /** The filter turns `a b (d)e` into `a_b_de` when the pieces are plain. */
  lemma FilteredSpacedWords(a: string, b: string, d: string, e: string)
    requires PlainPiece(a) && PlainPiece(b) && PlainPiece(d) && PlainPiece(e)
    ensures Filtered(a + " " + b + " " + "(" + d + ")" + e) == a + "_" + b + "_" + d + e
  {
    FilteredPlain(a);
    FilteredPlain(b);
    FilteredPlain(d);
    FilteredPlain(e);
    FilteredSpace();
    FilteredDropped('(');
    FilteredDropped(')');
    var s1 := a + " ";
    FilteredConcat(a, " ");
    var s2 := s1 + b;
    FilteredConcat(s1, b);
    assert Filtered(s2) == a + "_" + b;
    var s3 := s2 + " ";
    FilteredConcat(s2, " ");
    var s4 := s3 + "(";
    FilteredConcat(s3, "(");
    assert Filtered(s4) == a + "_" + b + "_";
    var s5 := s4 + d;
    FilteredConcat(s4, d);
    var s6 := s5 + ")";
    FilteredConcat(s5, ")");
    assert Filtered(s6) == a + "_" + b + "_" + d;
    FilteredConcat(s6, e);
  }

  /** `a_b_de` has no double underscore and no edge character at either end. */
  lemma SpacedWordsClean(a: string, b: string, d: string, e: string)
    requires PlainPiece(a) && PlainPiece(b) && PlainPiece(d) && PlainPiece(e)
    requires a != "" && a[0] != '.' && b != "" && d != "" && e != "" && e[|e| - 1] != '.'
    ensures var kept := a + "_" + b + "_" + d + e;
      NoDoubleUnderscore(kept) && kept[0] !in EdgeChars && kept[|kept| - 1] !in EdgeChars
  {
    PlainConcat(d, e);
    PlainNoDoubleUnderscore(a);
    PlainNoDoubleUnderscore(b);
    PlainNoDoubleUnderscore(d + e);
    NoDoubleUnderscoreSep(a, b);
    NoDoubleUnderscoreSep(a + "_" + b, d + e);
    var kept := a + "_" + b + "_" + d + e;
    assert a + "_" + b + "_" + (d + e) == kept;
    assert kept[0] == a[0] && kept[|kept| - 1] == e[|e| - 1];
  }

  /** A name the filter leaves clean, with no edge character, comes out of the pipeline as it is. */
  lemma SanitizeOfFiltered(name: string, kept: string)
    requires name != "" && Filtered(name) == kept
    requires kept != "" && NoDoubleUnderscore(kept) && kept[0] !in EdgeChars && kept[|kept| - 1] !in EdgeChars
    ensures SanitizeFilename(name) == kept
  {
    assert CollapseUnderscores(kept) == kept;
    assert Strip(kept, EdgeChars) == kept;
  }

  /**
   * Two words, then a parenthesised one, then an extension, as in
   * `My File (2023).txt`: the spaces become single underscores and the
   * parentheses go.
   */
  lemma SanitizeSpacedWords(a: string, b: string, d: string, e: string)
    requires PlainPiece(a) && PlainPiece(b) && PlainPiece(d) && PlainPiece(e)
    requires a != "" && a[0] != '.' && b != "" && d != "" && e != "" && e[|e| - 1] != '.'
    ensures SanitizeFilename(a + " " + b + " " + "(" + d + ")" + e) == a + "_" + b + "_" + d + e
  {
    FilteredSpacedWords(a, b, d, e);
    SpacedWordsClean(a, b, d, e);
    SanitizeOfFiltered(a + " " + b + " " + "(" + d + ")" + e, a + "_" + b + "_" + d + e);
  }

  lemma ExampleSplits()
    ensures "My File (2023).txt" == "My" + " " + "File" + " " + "(" + "2023" + ")" + ".txt"
    ensures "My_File_2023.txt" == "My" + "_" + "File" + "_" + "2023" + ".txt"
  {
  }

  /** The first doc example: `My File (2023).txt` becomes `My_File_2023.txt`. */
  lemma SanitizeExample()
    ensures SanitizeFilename("My File (2023).txt") == "My_File_2023.txt"
  {
    ExampleSplits();
    assert PlainPiece("My") && PlainPiece("File") && PlainPiece("2023") && PlainPiece(".txt");
    SanitizeSpacedWords("My", "File", "2023", ".txt");
  }

  lemma SameFilterSameCore(x: string, y: string)
    requires Filtered(x) == Filtered(y)
    ensures SanitizeCore(x) == SanitizeCore(y)
  {
  }

  /**
   * A character outside `[\w\-.]` other than a space is dropped without
   * leaving anything in its place: the name is sanitised as if it were not
   * there.
   */
  lemma SanitizeDropsOtherChars(a: string, c: char, b: string)
    requires !IsFileNameChar(c) && c != ' '
    ensures SanitizeFilename(a + [c] + b) == SanitizeFilename(a + b)
  {
    FilterDropsOtherChars(a, c, b);
    SameFilterSameCore(a + [c] + b, a + b);
  }

  lemma FilterDropsOtherChars(a: string, c: char, b: string)
    requires !IsFileNameChar(c) && c != ' '
    ensures Filtered(a + [c] + b) == Filtered(a + b)
  {
    ReplaceSpacesAround(a, c, b);
    ReplaceSpacesConcat(a, b);
    KeepIfSkips(ReplaceSpaces(a), c, ReplaceSpaces(b), IsFileNameChar);
  }

  lemma ReplaceSpacesAround(a: string, c: char, b: string)
    requires c != ' '
    ensures ReplaceSpaces(a + [c] + b) == ReplaceSpaces(a) + [c] + ReplaceSpaces(b)
  {
    ReplaceSpacesConcat(a + [c], b);
    ReplaceSpacesConcat(a, [c]);
    assert ReplaceSpaces([c]) == [c];
  }

  lemma KeepIfSkips(a: string, c: char, b: string, keep: char -> bool)
    requires !keep(c)
    ensures KeepIf(a + [c] + b, keep) == KeepIf(a + b, keep)
  {
    KeepIfConcat(a + [c], b, keep);
    KeepIfConcat(a, [c], keep);
    KeepIfConcat(a, b, keep);
    assert KeepIf([c], keep) == "";
  }
}
