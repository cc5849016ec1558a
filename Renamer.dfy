/**
 * The naming logic of renamer.py: the free-name search of
 * `ensure_unique_filename` and the word selection of
 * `generate_descriptive_name` (on ASCII text, with the timestamp passed in).
 */
module Renamer {
  import opened Base
  import opened Text
  import opened PathNames
  import opened Utils

  // ----- ensure_unique_filename -----

  /**
   * `ensure_unique_filename(directory, filename)`, with `existing` the names
   * present in `directory`: `filename` when it is free, else the first free
   * `stem_k + suffix` for k = 1, 2, ...
   */
  method EnsureUniqueFilename(existing: set<string>, filename: string) returns (r: string)
    ensures r !in existing
    ensures filename !in existing ==> r == filename
    ensures filename in existing ==> exists k :: (1 <= k && r == Stem(filename) + "_" + NatToString(k) + Suffix(filename)
                                                  && forall j :: 1 <= j < k ==> Numbered(filename, j) in existing)
    ensures r == FreeName(existing, filename)
  {
    if filename !in existing {
      return filename;
    }
    var counter := 1;
    r := Stem(filename) + "_" + NatToString(counter) + Suffix(filename);
    while r in existing
      invariant counter >= 1 && r == Numbered(filename, counter)
      invariant forall j :: 0 <= j < counter ==> Numbered(filename, j) in existing
      decreases |existing| - counter
    {
      TakenBound(existing, filename, counter);
      counter := counter + 1;
      r := Stem(filename) + "_" + NatToString(counter) + Suffix(filename);
    }
    FreeIndexUnique(existing, filename, counter);
  }

  // ----- generate_descriptive_name: word classes -----

  /** The filler words that are never used. */
  const SkipWords: set<string> := {
    "the", "a", "an", "and", "or", "but", "in", "on", "at", "to", "for",
    "of", "with", "by", "from", "is", "are", "was", "were", "be", "been",
    "this", "that", "these", "those", "it", "its", "will", "can", "may",
    "has", "have", "had", "do", "does", "did", "not", "no", "yes"
  }

  /** `re.sub(r'[^\w]', '', word)`. */
  function CleanWord(w: string): (c: string)
    ensures forall k :: 0 <= k < |c| ==> IsWordChar(c[k])
  {
    KeepIf(w, IsWordChar)
  }

  datatype WordClass = Skipped | Important | Regular | Dropped

  /**
   * How the loop over the words treats a cleaned word. The ratio tests
   * `upper / len < 0.8` and `upper / len < 0.3` are written as integer
   * cross-multiplications.
   */
  function Classify(c: string): WordClass
  {
    if |c| < 2 || (IsDigits(c) && |c| < 4) then Skipped
    else if ToLower(c) in SkipWords then Skipped
    else if IsUpperChar(c[0]) && !IsUpperStr(c) then Important
    else if |c| >= 5 && 5 * CountUpper(c) < 4 * |c| then Important
    else if |c| <= 4 && IsUpperStr(c) then Important
    else if 10 * CountUpper(c) < 3 * |c| then Regular
    else Dropped
  }

  /** `important_words` and `regular_words` after the loop over `ws`. */
  function Classified(ws: seq<string>): (seq<string>, seq<string>)
  {
    if ws == [] then ([], [])
    else
      var (imp, reg) := Classified(ws[..|ws| - 1]);
      var c := CleanWord(ws[|ws| - 1]);
      match Classify(c)
      case Important => (imp + [c], reg)
      case Regular => (imp, reg + [c])
      case _ => (imp, reg)
  }

  /** A word that is used at all is at least two characters long, not a short number and not a filler word. */
  predicate Usable(c: string)
  {
    |c| >= 2 && !(IsDigits(c) && |c| < 4) && ToLower(c) !in SkipWords
  }

  /** A word classed regular has at most four characters: a longer one with so few capitals is classed important. */
  lemma RegularIsShort(c: string)
    requires Classify(c) == Regular
    ensures Usable(c) && |c| <= 4
  {
  }

  /** Every important word is a usable cleaned word classed important. */
  lemma {:induction false} ClassifiedImportant(ws: seq<string>)
    ensures forall x :: x in Classified(ws).0 ==> Usable(x) && Classify(x) == Important
  {
    if ws != [] {
      var init := ws[..|ws| - 1];
      ClassifiedImportant(init);
      var c := CleanWord(ws[|ws| - 1]);
      var imp := Classified(init).0;
      if Classify(c) == Important {
        assert Classified(ws).0 == imp + [c];
        assert Usable(c);
        assert forall x :: x in imp + [c] ==> x in imp || x == c;
      } else {
        assert Classified(ws).0 == imp;
      }
    }
  }

  /**
   * Every regular word is a usable cleaned word classed regular, of at most
   * four characters (a longer one is already important).
   */
  lemma {:induction false} ClassifiedRegular(ws: seq<string>)
    ensures forall x :: x in Classified(ws).1 ==> Usable(x) && Classify(x) == Regular && |x| <= 4
  {
    if ws != [] {
      var init := ws[..|ws| - 1];
      ClassifiedRegular(init);
      var c := CleanWord(ws[|ws| - 1]);
      var reg := Classified(init).1;
      if Classify(c) == Regular {
        assert Classified(ws).1 == reg + [c];
        RegularIsShort(c);
        assert forall x :: x in reg + [c] ==> x in reg || x == c;
      } else {
        assert Classified(ws).1 == reg;
      }
    }
  }

  /** Every word the classification keeps is the cleaned form of a word of the text. */
  lemma {:induction false} ClassifiedFrom(ws: seq<string>)
    ensures forall x :: x in Classified(ws).0 ==> exists w :: w in ws && x == CleanWord(w)
    ensures forall x :: x in Classified(ws).1 ==> exists w :: w in ws && x == CleanWord(w)
  {
    if ws != [] {
      var init := ws[..|ws| - 1];
      ClassifiedFrom(init);
      assert forall w :: w in init ==> w in ws;
      assert ws[|ws| - 1] in ws;
    }
  }

  /** The loop over the words that fills `important_words` and `regular_words`. */
  method ClassifyWords(words: seq<string>) returns (important: seq<string>, regular: seq<string>)
    ensures (important, regular) == Classified(words)
  {
    important, regular := [], [];
    var i := 0;
    while i < |words|
      invariant 0 <= i <= |words|
      invariant (important, regular) == Classified(words[..i])
    {
      assert words[..i + 1][..i] == words[..i];
      var c := CleanWord(words[i]);
      if |c| < 2 || (IsDigits(c) && |c| < 4) {
      } else if ToLower(c) in SkipWords {
      } else if IsUpperChar(c[0]) && !IsUpperStr(c) {
        important := important + [c];
      } else if |c| >= 5 && 5 * CountUpper(c) < 4 * |c| {
        important := important + [c];
      } else if |c| <= 4 && IsUpperStr(c) {
        important := important + [c];
      } else if 10 * CountUpper(c) < 3 * |c| {
        regular := regular + [c];
      }
      i := i + 1;
    }
    assert words[..|words|] == words;
  }

  // ----- generate_descriptive_name: document type -----

  /** The document-type prefix detected in the lower-cased text: certificate first, then invoice or receipt, then ticket or boarding. */
  function DocPrefix(textLower: string): (p: Option<string>)
    ensures p == Some("Certificate") <==> Contains(textLower, "certificate")
    ensures p == Some("Invoice") <==> !Contains(textLower, "certificate") && (Contains(textLower, "invoice") || Contains(textLower, "receipt"))
    ensures p == Some("Ticket") <==> (!Contains(textLower, "certificate") && !Contains(textLower, "invoice") && !Contains(textLower, "receipt")
                                      && (Contains(textLower, "ticket") || Contains(textLower, "boarding")))
    ensures p.Some? ==> p.value in {"Certificate", "Invoice", "Ticket"}
  {
    if Contains(textLower, "certificate") then Some("Certificate")
    else if Contains(textLower, "invoice") || Contains(textLower, "receipt") then Some("Invoice")
    else if Contains(textLower, "ticket") || Contains(textLower, "boarding") then Some("Ticket")
    else None
  }

  // ----- generate_descriptive_name: word budget -----

  /** `s[:n]`. */
  function Take(s: seq<string>, n: nat): (r: seq<string>)
    ensures |r| <= n && |r| <= |s| && r == s[..|r|]
  {
    if |s| <= n then s else s[..n]
  }

  /** Adding `w` keeps the `_`-joined name within `maxLength`. */
  predicate Fits(m: seq<string>, w: string, maxLength: int)
  {
    |Join(m + [w], "_")| <= maxLength
  }

  /** One pass of the important-word loop: skip the prefix again, else add `w` when it fits. */
  function ImportantNext(m: seq<string>, w: string, prefix: Option<string>, maxLength: int): seq<string>
  {
    if prefix.Some? && ToLower(w) == ToLower(prefix.value) then m
    else if Fits(m, w, maxLength) then m + [w] else m
  }

  /** The loop over the first important words, from `m` on. */
  function WithImportant(m: seq<string>, ws: seq<string>, prefix: Option<string>, maxLength: int): seq<string>
    decreases ws
  {
    if ws == [] then m
    else WithImportant(ImportantNext(m, ws[0], prefix, maxLength), ws[1..], prefix, maxLength)
  }

  /** The loop over the first regular words, from `m` on, leaving it once five words are reached. */
  function WithRegular(m: seq<string>, ws: seq<string>, maxLength: int): seq<string>
    decreases ws
  {
    if ws == [] then m
    else
      var w := ws[0];
      var m' := if Fits(m, w, maxLength) then m + [w] else m;
      if |m'| >= 5 then m' else WithRegular(m', ws[1..], maxLength)
  }

  /** `meaningful_words` after the prefix, the important words and the regular words. */
  function Selected(prefix: Option<string>, important: seq<string>, regular: seq<string>, maxLength: int): seq<string>
  {
    var m0 := if prefix.Some? then [prefix.value] else [];
    WithRegular(WithImportant(m0, Take(important, 4), prefix, maxLength), Take(regular, 2), maxLength)
  }

  /** The words after index `from` were each drawn from `ws`, and once there are any the join fits. */
  ghost predicate Budgeted(m: seq<string>, from: nat, ws: set<string>, maxLength: int)
  {
    && from <= |m|
    && (forall k :: from <= k < |m| ==> m[k] in ws)
    && (|m| > from ==> |Join(m, "_")| <= maxLength)
  }

  /** Appending a word of the pool that fits keeps the budget. */
  lemma BudgetedAppend(m: seq<string>, w: string, from: nat, pool: set<string>, maxLength: int)
    requires Budgeted(m, from, pool, maxLength) && w in pool && Fits(m, w, maxLength)
    ensures Budgeted(m + [w], from, pool, maxLength) && (m + [w])[..|m|] == m
  {
  }

  lemma PrefixOfPrefix(m: seq<string>, m': seq<string>, r: seq<string>)
    requires |m| <= |m'| <= |r| && m'[..|m|] == m && r[..|m'|] == m'
    ensures r[..|m|] == m
  {
    assert r[..|m|] == r[..|m'|][..|m|];
  }

  lemma ImportantNextFacts(m: seq<string>, w: string, prefix: Option<string>, maxLength: int, from: nat, pool: set<string>)
    requires Budgeted(m, from, pool, maxLength) && w in pool
    ensures var m' := ImportantNext(m, w, prefix, maxLength);
      Budgeted(m', from, pool, maxLength) && |m| <= |m'| <= |m| + 1 && m'[..|m|] == m
  {
    if !(prefix.Some? && ToLower(w) == ToLower(prefix.value)) && Fits(m, w, maxLength) {
      BudgetedAppend(m, w, from, pool, maxLength);
    }
  }

  lemma {:induction false} WithImportantFacts(m: seq<string>, ws: seq<string>, prefix: Option<string>, maxLength: int, from: nat, pool: set<string>)
    requires Budgeted(m, from, pool, maxLength)
    requires forall w :: w in ws ==> w in pool
    ensures var r := WithImportant(m, ws, prefix, maxLength);
      Budgeted(r, from, pool, maxLength) && |m| <= |r| <= |m| + |ws| && r[..|m|] == m
    decreases ws
  {
    if ws != [] {
      assert ws[0] in pool;
      var m' := ImportantNext(m, ws[0], prefix, maxLength);
      ImportantNextFacts(m, ws[0], prefix, maxLength, from, pool);
      assert forall x :: x in ws[1..] ==> x in ws;
      WithImportantFacts(m', ws[1..], prefix, maxLength, from, pool);
      PrefixOfPrefix(m, m', WithImportant(m', ws[1..], prefix, maxLength));
    }
  }

  /** No important word the loop adds equals the prefix up to case. */
  lemma {:induction false} WithImportantSkipsPrefix(m: seq<string>, ws: seq<string>, prefix: Option<string>, maxLength: int)
    requires prefix.Some?
    ensures var r := WithImportant(m, ws, prefix, maxLength);
      |m| <= |r| && r[..|m|] == m && forall k :: |m| <= k < |r| ==> ToLower(r[k]) != ToLower(prefix.value)
    decreases ws
  {
    if ws != [] {
      var w := ws[0];
      var m' := ImportantNext(m, w, prefix, maxLength);
      WithImportantSkipsPrefix(m', ws[1..], prefix, maxLength);
      var r := WithImportant(m', ws[1..], prefix, maxLength);
      assert r[..|m'|] == m';
      assert r[..|m|] == m'[..|m|] == m;
      forall k | |m| <= k < |r|
        ensures ToLower(r[k]) != ToLower(prefix.value)
      {
        if k < |m'| {
          assert m' == m + [w] && k == |m|;
          assert r[k] == r[..|m'|][k] == w;
        }
      }
    }
  }

  lemma {:induction false} WithRegularFacts(m: seq<string>, ws: seq<string>, maxLength: int, from: nat, pool: set<string>)
    requires Budgeted(m, from, pool, maxLength)
    requires forall w :: w in ws ==> w in pool
    ensures var r := WithRegular(m, ws, maxLength);
      Budgeted(r, from, pool, maxLength) && |m| <= |r| <= |m| + |ws| && r[..|m|] == m
    ensures |WithRegular(m, ws, maxLength)| <= if |m| < 5 then 5 else |m| + 1
    decreases ws
  {
    if ws != [] {
      var w := ws[0];
      assert w in pool;
      var m': seq<string>;
      if Fits(m, w, maxLength) {
        m' := m + [w];
        BudgetedAppend(m, w, from, pool, maxLength);
      } else {
        m' := m;
      }
      if |m'| < 5 {
        assert WithRegular(m, ws, maxLength) == WithRegular(m', ws[1..], maxLength);
        assert forall x :: x in ws[1..] ==> x in ws;
        WithRegularFacts(m', ws[1..], maxLength, from, pool);
        PrefixOfPrefix(m, m', WithRegular(m', ws[1..], maxLength));
      } else {
        assert WithRegular(m, ws, maxLength) == m';
      }
    }
  }

  /**
   * The prefix, when there is one, comes first; every later word is one of
   * the first four important words (never the prefix again) or one of the
   * first two regular words; once any such word is added, the joined name
   * is at most `maxLength` long; and there are at most six words, not five
   * as the comment says, because the limit is tested after adding.
   */
  lemma SelectedFacts(prefix: Option<string>, important: seq<string>, regular: seq<string>, maxLength: int)
    ensures var m := Selected(prefix, important, regular, maxLength); var from := if prefix.Some? then 1 else 0;
      && |m| <= 6
      && (prefix.Some? ==> |m| >= 1 && m[0] == prefix.value)
      && (forall k :: from <= k < |m| ==> m[k] in Take(important, 4) || m[k] in Take(regular, 2))
      && (|m| > from ==> |Join(m, "_")| <= maxLength)
  {
    var m0 := if prefix.Some? then [prefix.value] else [];
    var from := |m0|;
    var imp, reg := Take(important, 4), Take(regular, 2);
    var pool := set w | w in imp + reg;
    assert Budgeted(m0, from, pool, maxLength);
    WithImportantFacts(m0, imp, prefix, maxLength, from, pool);
    var m1 := WithImportant(m0, imp, prefix, maxLength);
    WithRegularFacts(m1, reg, maxLength, from, pool);
    var m := WithRegular(m1, reg, maxLength);
    assert m[..|m1|] == m1;
    if prefix.Some? {
      assert m[0] == m[..|m1|][0] == m1[0] == m1[..1][0];
    }
  }

  /** The words the regular loop adds are drawn from `ws`. */
  lemma {:induction false} WithRegularDrawsFrom(m: seq<string>, ws: seq<string>, maxLength: int)
    ensures var r := WithRegular(m, ws, maxLength);
      |m| <= |r| && r[..|m|] == m && forall k :: |m| <= k < |r| ==> r[k] in ws
    decreases ws
  {
    if ws != [] {
      var w := ws[0];
      var m' := if Fits(m, w, maxLength) then m + [w] else m;
      if |m'| < 5 {
        WithRegularDrawsFrom(m', ws[1..], maxLength);
        var r := WithRegular(m', ws[1..], maxLength);
        assert r[..|m'|] == m';
        assert r[..|m|] == m'[..|m|] == m;
        forall k | |m| <= k < |r|
          ensures r[k] in ws
        {
          if k < |m'| {
            assert r[k] == r[..|m'|][k] == w;
          } else {
            assert r[k] in ws[1..];
          }
        }
      }
    }
  }

  /** After the prefix, a word equal to it up to case can only be one of the regular words. */
  lemma SelectedSkipsPrefix(prefix: Option<string>, important: seq<string>, regular: seq<string>, maxLength: int)
    requires prefix.Some?
    ensures var m := Selected(prefix, important, regular, maxLength);
      forall k :: 1 <= k < |m| ==> ToLower(m[k]) != ToLower(prefix.value) || m[k] in Take(regular, 2)
  {
    var m0 := [prefix.value];
    var m1 := WithImportant(m0, Take(important, 4), prefix, maxLength);
    WithImportantSkipsPrefix(m0, Take(important, 4), prefix, maxLength);
    WithRegularDrawsFrom(m1, Take(regular, 2), maxLength);
    var m := WithRegular(m1, Take(regular, 2), maxLength);
    forall k | 1 <= k < |m|
      ensures ToLower(m[k]) != ToLower(prefix.value) || m[k] in Take(regular, 2)
    {
      if k < |m1| {
        assert m[k] == m[..|m1|][k] == m1[k];
      }
    }
  }

  /** A `_`-joined name of short words is short. */
  lemma {:induction false} JoinBound(ws: seq<string>, n: nat)
    requires forall k :: 0 <= k < |ws| ==> |ws[k]| <= n
    ensures |Join(ws, "_")| <= |ws| * (n + 1)
  {
    if ws != [] {
      var init := ws[..|ws| - 1];
      JoinBound(init, n);
      JoinSnoc(init, ws[|ws| - 1], "_");
      assert init + [ws[|ws| - 1]] == ws;
    }
  }

  /** A word that is not the prefix's length and fits the budget is added. */
  lemma ImportantStep(m: seq<string>, w: string, p: string, maxLength: int)
    requires |w| != |p| && |w| <= 7 && (|m| + 1) * 8 <= maxLength
    requires forall k :: 0 <= k < |m| ==> |m[k]| <= 7
    ensures ImportantNext(m, w, Some(p), maxLength) == m + [w]
  {
    assert |ToLower(w)| != |ToLower(p)|;
    JoinBound(m + [w], 7);
  }

  /** Important words that are short, never the prefix's length, and within the budget are all taken. */
  lemma {:induction false} ImportantAllAdded(m: seq<string>, ws: seq<string>, p: string, maxLength: int)
    requires forall k :: 0 <= k < |m| ==> |m[k]| <= 7
    requires forall k :: 0 <= k < |ws| ==> |ws[k]| <= 7 && |ws[k]| != |p|
    requires (|m| + |ws|) * 8 <= maxLength
    ensures WithImportant(m, ws, Some(p), maxLength) == m + ws
    decreases ws
  {
    if ws != [] {
      ImportantStep(m, ws[0], p, maxLength);
      var m', ws' := m + [ws[0]], ws[1..];
      forall k | 0 <= k < |m'| ensures |m'[k]| <= 7 {
        if k < |m| { assert m'[k] == m[k]; }
      }
      forall k | 0 <= k < |ws'| ensures |ws'[k]| <= 7 && |ws'[k]| != |p| {
        assert ws'[k] == ws[k + 1];
      }
      ImportantAllAdded(m', ws', p, maxLength);
      assert m' + ws' == m + ws;
    }
  }

  /**
   * A prefix, four important words and one regular word, all of at most
   * seven characters, fit in 48 characters, so all six are chosen.
   */
  lemma SixWords(p: string, imp: seq<string>, r: string, maxLength: int)
    requires |p| <= 7 && |r| <= 7 && 48 <= maxLength
    requires |imp| == 4 && forall k :: 0 <= k < 4 ==> |imp[k]| <= 7 && |imp[k]| != |p|
    ensures |Selected(Some(p), imp, [r], maxLength)| == 6
  {
    assert Take(imp, 4) == imp;
    assert Take([r], 2) == [r];
    ImportantAllAdded([p], imp, p, maxLength);
    var m := [p] + imp;
    JoinBound(m + [r], 7);
    assert Fits(m, r, maxLength);
    assert WithRegular(m, [r], maxLength) == m + [r];
  }

  /** Six words are possible with the default length of 60. */
  lemma SixWordsPossible()
    ensures |Selected(Some("Invoice"), ["Alpha", "Bravo", "Delta", "Gamma"], ["kilo"], 60)| == 6
  {
    var imp := ["Alpha", "Bravo", "Delta", "Gamma"];
    assert forall k :: 0 <= k < 4 ==> |imp[k]| == 5;
    SixWords("Invoice", imp, "kilo", 60);
  }

  /** The prefix loop and the two budget loops. */
  method SelectWords(prefix: Option<string>, important: seq<string>, regular: seq<string>, maxLength: int) returns (m: seq<string>)
    ensures m == Selected(prefix, important, regular, maxLength)
  {
    m := if prefix.Some? then [prefix.value] else [];
    var imp := Take(important, 4);
    ghost var m0 := m;
    var i := 0;
    while i < |imp|
      invariant 0 <= i <= |imp|
      invariant WithImportant(m, imp[i..], prefix, maxLength) == WithImportant(m0, imp, prefix, maxLength)
    {
      var w := imp[i];
      assert imp[i..][1..] == imp[i + 1..];
      if prefix.Some? && ToLower(w) == ToLower(prefix.value) {
      } else if |Join(m + [w], "_")| <= maxLength {
        m := m + [w];
      }
      i := i + 1;
    }
    var reg := Take(regular, 2);
    ghost var m1 := m;
    var j := 0;
    while j < |reg|
      invariant 0 <= j <= |reg|
      invariant WithRegular(m, reg[j..], maxLength) == WithRegular(m1, reg, maxLength)
    {
      var w := reg[j];
      assert reg[j..][1..] == reg[j + 1..];
      if |Join(m + [w], "_")| <= maxLength {
        m := m + [w];
      }
      if |m| >= 5 {
        break;
      }
      j := j + 1;
    }
  }

  // ----- generate_descriptive_name: fallback and result -----

  /** The fallback loop: the cleaned words of four or more characters that are not numbers, up to four. */
  function AnyWords(m: seq<string>, ws: seq<string>): seq<string>
    decreases ws
  {
    if ws == [] then m
    else
      var c := CleanWord(ws[0]);
      if |c| >= 4 && !IsDigits(c) then
        if |m| + 1 >= 4 then m + [c] else AnyWords(m + [c], ws[1..])
      else AnyWords(m, ws[1..])
  }

  method FallbackWords(words: seq<string>) returns (m: seq<string>)
    ensures m == AnyWords([], words)
  {
    m := [];
    var i := 0;
    while i < |words|
      invariant 0 <= i <= |words|
      invariant AnyWords(m, words[i..]) == AnyWords([], words)
    {
      assert words[i..][1..] == words[i + 1..];
      var c := CleanWord(words[i]);
      if |c| >= 4 && !IsDigits(c) {
        m := m + [c];
        if |m| >= 4 {
          break;
        }
      }
      i := i + 1;
    }
  }

  /** The name used when no text or no usable word is found. */
  function Screenshot(timestamp: string): string
  {
    "screenshot_" + timestamp
  }

  /** `generate_descriptive_name(text, maxLength)` with `datetime.now().strftime('%Y%m%d_%H%M%S')` given as `timestamp`. */
  function DescriptiveName(text: string, maxLength: int, timestamp: string): string
  {
    if text == "" || Strip(text, Whitespace) == "" then Screenshot(timestamp)
    else
      var joined := Join(Words(text), " ");
      var words := Words(joined);
      var (important, regular) := Classified(words);
      var m := Selected(DocPrefix(ToLower(joined)), important, regular, maxLength);
      var m' := if m == [] then AnyWords([], words) else m;
      if m' == [] then Screenshot(timestamp)
      else
        var s := SanitizeFilename(Join(m', "_"));
        if s == "" || |s| < 3 then Screenshot(timestamp) else s
  }

  method GenerateDescriptiveName(text: string, maxLength: int, timestamp: string) returns (name: string)
    ensures name == DescriptiveName(text, maxLength, timestamp)
  {
    if text == "" || Strip(text, Whitespace) == "" {
      return Screenshot(timestamp);
    }
    var joined := Join(Words(text), " ");
    var words := Words(joined);
    var important, regular := ClassifyWords(words);
    var m := SelectWords(DocPrefix(ToLower(joined)), important, regular, maxLength);
    if m == [] {
      m := FallbackWords(words);
    }
    if m == [] {
      return Screenshot(timestamp);
    }
    var s := SanitizeFilename(Join(m, "_"));
    if s == "" || |s| < 3 {
      return Screenshot(timestamp);
    }
    return s;
  }

  /** Empty or blank text gives the timestamp name. */
  lemma BlankTextName(text: string, maxLength: int, timestamp: string)
    requires forall k :: 0 <= k < |text| ==> text[k] in Whitespace
    ensures DescriptiveName(text, maxLength, timestamp) == Screenshot(timestamp)
  {
    StripEmpty(text, Whitespace);
  }

  /** The result is the timestamp name or a sanitised name of at least three characters. */
  lemma DescriptiveNameShape(text: string, maxLength: int, timestamp: string)
    ensures var r := DescriptiveName(text, maxLength, timestamp);
      r == Screenshot(timestamp) || (IsSanitized(r) && |r| >= 3)
  {
    if text != "" && Strip(text, Whitespace) != "" {
      var joined := Join(Words(text), " ");
      var words := Words(joined);
      var (important, regular) := Classified(words);
      var m := Selected(DocPrefix(ToLower(joined)), important, regular, maxLength);
      var m' := if m == [] then AnyWords([], words) else m;
      if m' != [] {
        SanitizeShape(Join(m', "_"));
      }
    }
  }

  /**
   * The words chosen for a text: at most six; after the document prefix each
   * one is the cleaned form of a word of the text, is usable, and never
   * repeats the prefix up to case.
   */
  lemma SelectedFromText(text: string, maxLength: int)
    ensures var words := Words(text);
      var prefix := DocPrefix(ToLower(Join(words, " ")));
      var m := Selected(prefix, Classified(words).0, Classified(words).1, maxLength);
      var from := if prefix.Some? then 1 else 0;
      && |m| <= 6
      && (prefix.Some? ==> |m| >= 1 && m[0] == prefix.value)
      && forall k :: from <= k < |m| ==>
           && Usable(m[k])
           && (exists w :: w in words && m[k] == CleanWord(w))
           && (prefix.Some? ==> ToLower(m[k]) != ToLower(prefix.value))
  {
    var words := Words(text);
    var prefix := DocPrefix(ToLower(Join(words, " ")));
    var (imp, reg) := Classified(words);
    var m := Selected(prefix, imp, reg, maxLength);
    var from := if prefix.Some? then 1 else 0;
    SelectedFacts(prefix, imp, reg, maxLength);
    ClassifiedImportant(words);
    ClassifiedRegular(words);
    ClassifiedFrom(words);
    if prefix.Some? {
      SelectedSkipsPrefix(prefix, imp, reg, maxLength);
    }
    forall k | from <= k < |m|
      ensures Usable(m[k]) && (exists w :: w in words && m[k] == CleanWord(w))
      ensures prefix.Some? ==> ToLower(m[k]) != ToLower(prefix.value)
    {
      var x := m[k];
      if x in Take(imp, 4) {
        assert x in imp;
      } else {
        assert x in Take(reg, 2);
        assert x in reg;
        assert |x| <= 4;
      }
      if prefix.Some? && x in Take(reg, 2) {
        assert x in reg;
        assert |ToLower(x)| <= 4 < |ToLower(prefix.value)|;
      }
    }
  }

  /** The words classified are those of the text itself: collapsing the whitespace first changes nothing. */
  lemma WordsAfterCollapse(text: string)
    ensures Words(Join(Words(text), " ")) == Words(text)
  {
    WordsJoinRoundTrip(Words(text));
  }
}
