/**
 * The string primitives the Python source relies on, restricted to ASCII:
 * character classes (`\w`, `str.isupper`, `str.isdigit`, `str.isspace`),
 * `str.lower`, `str.strip`, `str.split()`, `str.join`, the `in` substring
 * test and the decimal rendering of a natural number.
 */
module Text {

  // ----- character classes -----

  predicate IsUpperChar(c: char) { 'A' <= c <= 'Z' }

  predicate IsLowerChar(c: char) { 'a' <= c <= 'z' }

  predicate IsLetter(c: char) { IsUpperChar(c) || IsLowerChar(c) }

  predicate IsDigitChar(c: char) { '0' <= c <= '9' }

  /** The characters the regular-expression class `\w` matches in ASCII text. */
  predicate IsWordChar(c: char) { IsLetter(c) || IsDigitChar(c) || c == '_' }

  /** The ASCII characters for which Python's `str.isspace` holds. */
  const Whitespace: set<char> :=
    {' ', '\t', '\n', '\r', 11 as char, 12 as char, 28 as char, 29 as char, 30 as char, 31 as char}

  function ToLowerChar(c: char): (r: char)
    ensures IsUpperChar(c) ==> IsLowerChar(r)
    ensures !IsUpperChar(c) ==> r == c
  {
    if IsUpperChar(c) then (c as int + 32) as char else c
  }

  /** `str.lower()` on ASCII text. */
  function ToLower(s: string): (r: string)
    ensures |r| == |s|
    ensures forall k :: 0 <= k < |s| ==> r[k] == ToLowerChar(s[k])
  {
    seq(|s|, k requires 0 <= k < |s| => ToLowerChar(s[k]))
  }

  /** `str.isdigit()`: non-empty and made of decimal digits only. */
  predicate IsDigits(s: string)
  {
    |s| > 0 && forall k :: 0 <= k < |s| ==> IsDigitChar(s[k])
  }

  /** `str.isupper()`: some cased character, and no lower-case one. */
  predicate IsUpperStr(s: string)
  {
    (exists k :: 0 <= k < |s| && IsLetter(s[k])) && forall k :: 0 <= k < |s| ==> !IsLowerChar(s[k])
  }

  /** The number of upper-case characters of `s`. */
  function CountUpper(s: string): (n: nat)
    ensures n <= |s|
    ensures n == |s| ==> forall k :: 0 <= k < |s| ==> IsUpperChar(s[k])
    ensures n == 0 ==> forall k :: 0 <= k < |s| ==> !IsUpperChar(s[k])
  {
    if s == [] then 0
    else (if IsUpperChar(s[0]) then 1 else 0) + CountUpper(s[1..])
  }

  /** The characters of `s` that satisfy `keep`, in order (`re.sub` with a negated class and ''). */
  function KeepIf(s: string, keep: char -> bool): (r: string)
    ensures |r| <= |s|
    ensures forall k :: 0 <= k < |r| ==> keep(r[k])
    ensures (forall k :: 0 <= k < |s| ==> keep(s[k])) ==> r == s
  {
    if s == [] then ""
    else if keep(s[0]) then [s[0]] + KeepIf(s[1..], keep)
    else KeepIf(s[1..], keep)
  }

  // ----- strip -----

  /** How many leading characters of `s` belong to `cs`. */
  function LeadingIn(s: string, cs: set<char>): (n: nat)
    ensures n <= |s|
    ensures forall k :: 0 <= k < n ==> s[k] in cs
    ensures n < |s| ==> s[n] !in cs
  {
    if |s| > 0 && s[0] in cs then 1 + LeadingIn(s[1..], cs) else 0
  }

  /** The position where the trailing run of characters of `cs` starts. */
  function TrailingFrom(s: string, cs: set<char>): (m: nat)
    ensures m <= |s|
    ensures forall k :: m <= k < |s| ==> s[k] in cs
    ensures m > 0 ==> s[m - 1] !in cs
  {
    if |s| > 0 && s[|s| - 1] in cs then TrailingFrom(s[..|s| - 1], cs) else |s|
  }

  /** `str.lstrip(cs)`. */
  function StripLeft(s: string, cs: set<char>): string
  {
    s[LeadingIn(s, cs)..]
  }

  /** `str.strip(cs)`: drops the leading and the trailing characters that belong to `cs`. */
  function Strip(s: string, cs: set<char>): (r: string)
    ensures |r| <= |s|
    ensures r != "" ==> r[0] !in cs && r[|r| - 1] !in cs
  {
    if s != "" && s[0] in cs then Strip(s[1..], cs)
    else if s != "" && s[|s| - 1] in cs then Strip(s[..|s| - 1], cs)
    else s
  }

  /** `Strip` keeps a contiguous piece `s[i..j]` of its input. */
  lemma {:induction false} StripPiece(s: string, cs: set<char>) returns (i: nat, j: nat)
    ensures i <= j <= |s| && Strip(s, cs) == s[i..j]
  {
    if s != "" && s[0] in cs {
      var i', j' := StripPiece(s[1..], cs);
      i, j := i' + 1, j' + 1;
    } else if s != "" && s[|s| - 1] in cs {
      i, j := StripPiece(s[..|s| - 1], cs);
    } else {
      i, j := 0, |s|;
    }
  }

  /** What `Strip` drops around the piece it keeps all belongs to `cs`. */
  lemma {:induction false} StripDrops(s: string, cs: set<char>) returns (i: nat, j: nat)
    ensures i <= j <= |s| && Strip(s, cs) == s[i..j]
    ensures forall k :: 0 <= k < i ==> s[k] in cs
    ensures forall k :: j <= k < |s| ==> s[k] in cs
  {
    if s != "" && s[0] in cs {
      var i', j' := StripDrops(s[1..], cs);
      i, j := i' + 1, j' + 1;
      forall k | 0 < k < i ensures s[k] in cs {
        assert s[k] == s[1..][k - 1];
      }
      forall k | j <= k < |s| ensures s[k] in cs {
        assert s[k] == s[1..][k - 1];
      }
    } else if s != "" && s[|s| - 1] in cs {
      i, j := StripDrops(s[..|s| - 1], cs);
    } else {
      i, j := 0, |s|;
    }
  }

  /**
   * `Strip` yields "" exactly when every character is in `cs`, and leaves
   * alone a string whose ends are not in `cs`.
   */
  lemma StripEmpty(s: string, cs: set<char>)
    ensures Strip(s, cs) == "" <==> forall k :: 0 <= k < |s| ==> s[k] in cs
    ensures (s == "" || (s[0] !in cs && s[|s| - 1] !in cs)) ==> Strip(s, cs) == s
  {
    var i, j := StripDrops(s, cs);
    if s != "" && s[0] !in cs && s[|s| - 1] !in cs {
      assert i == 0;
      assert j == |s|;
    }
    if Strip(s, cs) == "" {
      assert i == j;
    }
  }

  // ----- split and join -----

  /** The length of the leading run of non-whitespace characters of `s`. */
  function WordLength(s: string): (n: nat)
    ensures n <= |s|
    ensures forall k :: 0 <= k < n ==> s[k] !in Whitespace
    ensures n < |s| ==> s[n] in Whitespace
  {
    if |s| > 0 && s[0] !in Whitespace then 1 + WordLength(s[1..]) else 0
  }

  /** A non-empty string without whitespace: what `str.split()` produces. */
  predicate IsWord(w: string)
  {
    |w| > 0 && forall k :: 0 <= k < |w| ==> w[k] !in Whitespace
  }

  /** `str.split()` with no argument: the maximal runs of non-whitespace characters. */
  function Words(s: string): (ws: seq<string>)
    ensures forall i :: 0 <= i < |ws| ==> IsWord(ws[i])
    decreases |s|
  {
    var t := StripLeft(s, Whitespace);
    if t == "" then []
    else
      assert t[0] !in Whitespace;
      var n := WordLength(t);
      [t[..n]] + Words(t[n..])
  }

  /** `sep.join(ws)`. */
  function Join(ws: seq<string>, sep: string): string
  {
    if |ws| == 0 then ""
    else if |ws| == 1 then ws[0]
    else Join(ws[..|ws| - 1], sep) + sep + ws[|ws| - 1]
  }

  /** Appending one more string to a join adds the separator and the string. */
  lemma JoinSnoc(ws: seq<string>, w: string, sep: string)
    ensures Join(ws + [w], sep) == if ws == [] then w else Join(ws, sep) + sep + w
  {
    assert (ws + [w])[..|ws|] == ws;
  }

  /** Joining unrolled from the front. */
  lemma {:induction false} JoinCons(w: string, ws: seq<string>, sep: string)
    requires ws != []
    ensures Join([w] + ws, sep) == w + sep + Join(ws, sep)
    decreases |ws|
  {
    if |ws| == 1 {
      assert [w] + ws == [w, ws[0]];
      assert [w, ws[0]][..1] == [w];
    } else {
      var init := ws[..|ws| - 1];
      assert ([w] + ws)[..|ws|] == [w] + init;
      JoinCons(w, init, sep);
      assert init[..|init| - 1] == ws[..|ws| - 2];
      assert Join(ws, sep) == Join(init, sep) + sep + ws[|ws| - 1];
    }
  }

  lemma WordsOfWordThenRest(w: string, rest: string)
    requires IsWord(w)
    ensures Words(w + " " + rest) == [w] + Words(rest)
  {
    var u := " " + rest;
    var s := w + u;
    assert w + " " + rest == s;
    assert s[0] == w[0];
    assert LeadingIn(s, Whitespace) == 0;
    assert StripLeft(s, Whitespace) == s;
    WordLengthOfPrefix(w, u);
    assert s[..|w|] == w;
    assert s[|w|..] == u;
    assert Words(s) == [w] + Words(u);
    WordsAfterBlank(rest);
  }

  lemma WordsAfterBlank(rest: string)
    ensures Words(" " + rest) == Words(rest)
  {
    var u := " " + rest;
    assert u[1..] == rest;
    assert StripLeft(u, Whitespace) == StripLeft(rest, Whitespace);
  }

  lemma {:induction false} WordLengthOfPrefix(w: string, rest: string)
    requires forall k :: 0 <= k < |w| ==> w[k] !in Whitespace
    requires rest != [] && rest[0] in Whitespace
    ensures WordLength(w + rest) == |w|
    decreases |w|
  {
    if w != [] {
      assert (w + rest)[1..] == w[1..] + rest;
      WordLengthOfPrefix(w[1..], rest);
    }
  }

  lemma WordsOfWord(w: string)
    requires IsWord(w)
    ensures Words(w) == [w]
  {
    assert LeadingIn(w, Whitespace) == 0;
    assert StripLeft(w, Whitespace) == w;
    assert WordLength(w) == |w| by { WordLengthWhole(w); }
    assert w[|w|..] == "";
    assert w[..|w|] == w;
  }

  lemma {:induction false} WordLengthWhole(w: string)
    requires forall k :: 0 <= k < |w| ==> w[k] !in Whitespace
    ensures WordLength(w) == |w|
    decreases |w|
  {
    if w != [] { WordLengthWhole(w[1..]); }
  }

  /** `" ".join(ws).split() == ws` for words as `split` produces them. */
  lemma {:induction false} WordsJoinRoundTrip(ws: seq<string>)
    requires forall i :: 0 <= i < |ws| ==> IsWord(ws[i])
    ensures Words(Join(ws, " ")) == ws
    decreases |ws|
  {
    if |ws| == 0 {
    } else if |ws| == 1 {
      WordsOfWord(ws[0]);
    } else {
      assert ws == [ws[0]] + ws[1..];
      JoinCons(ws[0], ws[1..], " ");
      WordsOfWordThenRest(ws[0], Join(ws[1..], " "));
      WordsJoinRoundTrip(ws[1..]);
    }
  }

  // ----- substring -----

  /** `pat` occurs in `s` starting at position `i`. */
  predicate OccursAt(s: string, pat: string, i: int)
  {
    0 <= i && i + |pat| <= |s| && s[i..i + |pat|] == pat
  }

  /** Python's `pat in s`. */
  function Contains(s: string, pat: string): (b: bool)
    ensures b <==> exists i :: OccursAt(s, pat, i)
    decreases |s|
  {
    if |pat| > |s| then false
    else if s[..|pat|] == pat then
      assert OccursAt(s, pat, 0);
      true
    else
      var b := Contains(s[1..], pat);
      assert b ==> exists i :: OccursAt(s, pat, i) by {
        if b {
          var i :| OccursAt(s[1..], pat, i);
          assert s[1..][i..i + |pat|] == s[i + 1..i + 1 + |pat|];
          assert OccursAt(s, pat, i + 1);
        }
      }
      assert (exists i :: OccursAt(s, pat, i)) ==> b by {
        if exists i :: OccursAt(s, pat, i) {
          var i :| OccursAt(s, pat, i);
          assert i != 0;
          assert s[1..][i - 1..i - 1 + |pat|] == s[i..i + |pat|];
          assert OccursAt(s[1..], pat, i - 1);
        }
      }
      b
  }

  // ----- decimal numerals -----

  function DigitChar(d: nat): (c: char)
    requires d < 10
    ensures IsDigitChar(c)
  {
    ('0' as int + d) as char
  }

  /** `str(n)` for a natural number. */
  function NatToString(n: nat): (s: string)
    ensures IsDigits(s)
  {
    if n < 10 then [DigitChar(n)] else NatToString(n / 10) + [DigitChar(n % 10)]
  }

  function DigitValue(c: char): (d: nat)
    requires IsDigitChar(c)
    ensures d < 10 && DigitChar(d) == c
  {
    c as int - '0' as int
  }

  /** `int(s)` for a string of decimal digits. */
  function DigitsValue(s: string): nat
    requires forall k :: 0 <= k < |s| ==> IsDigitChar(s[k])
  {
    if s == [] then 0 else DigitsValue(s[..|s| - 1]) * 10 + DigitValue(s[|s| - 1])
  }

  /** Parsing a rendered number gives the number back. */
  lemma {:induction false} NatToStringRoundTrip(n: nat)
    ensures DigitsValue(NatToString(n)) == n
  {
    if n >= 10 {
      var s := NatToString(n);
      assert s[..|s| - 1] == NatToString(n / 10);
      NatToStringRoundTrip(n / 10);
    }
  }

  /** Different numbers have different renderings. */
  lemma NatToStringInjective(m: nat, n: nat)
    requires NatToString(m) == NatToString(n)
    ensures m == n
  {
    NatToStringRoundTrip(m);
    NatToStringRoundTrip(n);
  }
}
