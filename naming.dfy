/** `camel_to_snake` (build.rs:79-83): the name of the trait method generated
    for a callback slot. Two regex substitutions, each written here as the
    left-to-right scan that `replace_all` performs for its pattern (leftmost
    matches, never overlapping, scanning resumes after a match), then ASCII
    lower-casing. */
module Naming {
  import opened Text

  /** Pass 1, `(.)([A-Z][a-z]+)` replaced by `${1}_${2}`. A match starts at the
      first position whose character is not a line feed and is followed by an
      upper-case letter and a lower-case letter; the greedy `[a-z]+` takes the
      whole lower-case run, and the scan resumes after it. */
  function SplitWords(s: string): (r: string)
    decreases |s|
  {
    if MatchesWordAt(s, 0) then
      var j := RunEnd(s, 2, IsLower);
      [s[0], '_'] + s[1..j] + SplitWords(s[j..])
    else if |s| == 0 then ""
    else [s[0]] + SplitWords(s[1..])
  }

  /** Pass 1's pattern can begin at position `i` of `s`. */
  predicate MatchesWordAt(s: string, i: nat)
  {
    i + 2 < |s| && IsNotNewline(s[i]) && IsUpper(s[i + 1]) && IsLower(s[i + 2])
  }

  /** `[a-z0-9]` */
  predicate IsLowerOrDigit(c: char) { IsLower(c) || IsDigit(c) }

  /** Pass 2, `([a-z0-9])([A-Z])` replaced by `${1}_${2}`; a match takes two
      characters and the scan resumes after it. */
  function SplitCase(s: string): (r: string)
    ensures |s| > 0 ==> |r| > 0 && r[0] == s[0]
    decreases |s|
  {
    if |s| >= 2 && IsLowerOrDigit(s[0]) && IsUpper(s[1]) then [s[0], '_', s[1]] + SplitCase(s[2..])
    else if |s| == 0 then ""
    else [s[0]] + SplitCase(s[1..])
  }

  function LowerChar(c: char): (d: char)
  {
    if IsUpper(c) then (c as int - 'A' as int + 'a' as int) as char else c
  }

  /** `str::to_lowercase` on ASCII: each upper-case letter becomes the
      lower-case letter at the same place in the alphabet, every other
      character stays as it is. */
  function ToLower(s: string): (r: string)
    ensures |r| == |s|
    ensures forall i :: 0 <= i < |s| && IsUpper(s[i]) ==>
      IsLower(r[i]) && r[i] as int - 'a' as int == s[i] as int - 'A' as int
    ensures forall i :: 0 <= i < |s| && !IsUpper(s[i]) ==> r[i] == s[i]
  {
    seq(|s|, i requires 0 <= i < |s| => LowerChar(s[i]))
  }

  /** `camel_to_snake`: no upper-case letter survives. */
  function CamelToSnake(name: string): (r: string)
    ensures NoUpper(r)
  {
    ToLower(SplitCase(SplitWords(name)))
  }

  // ---------------------------------------------------------------------------
  // Both passes only insert underscores.

  /** `t` is `s` with zero or more `_` characters inserted, nothing else changed. */
  ghost predicate InsertsUnderscores(t: string, s: string)
    decreases |t|
  {
    if |t| == 0 then |s| == 0
    else
      || (|s| > 0 && t[0] == s[0] && InsertsUnderscores(t[1..], s[1..]))
      || (t[0] == '_' && InsertsUnderscores(t[1..], s))
  }

  lemma InsertsCons(c: char, t: string, s: string)
    requires InsertsUnderscores(t, s)
    ensures InsertsUnderscores([c] + t, [c] + s)
  {
    assert ([c] + t)[1..] == t;
    assert ([c] + s)[1..] == s;
  }

  lemma InsertsUnderscore(t: string, s: string)
    requires InsertsUnderscores(t, s)
    ensures InsertsUnderscores("_" + t, s)
  {
    assert ("_" + t)[1..] == t;
  }

  lemma {:induction false} InsertsPrefix(x: string, t: string, s: string)
    requires InsertsUnderscores(t, s)
    ensures InsertsUnderscores(x + t, x + s)
    decreases |x|
  {
    if |x| > 0 {
      InsertsPrefix(x[1..], t, s);
      InsertsCons(x[0], x[1..] + t, x[1..] + s);
      assert [x[0]] + (x[1..] + t) == x + t;
      assert [x[0]] + (x[1..] + s) == x + s;
    } else {
      assert x + t == t && x + s == s;
    }
  }

  lemma {:induction false} InsertsTrans(u: string, t: string, s: string)
    requires InsertsUnderscores(u, t) && InsertsUnderscores(t, s)
    ensures InsertsUnderscores(u, s)
    decreases |u|
  {
    if |u| > 0 {
      if |t| > 0 && u[0] == t[0] && InsertsUnderscores(u[1..], t[1..]) {
        if |s| > 0 && t[0] == s[0] && InsertsUnderscores(t[1..], s[1..]) {
          InsertsTrans(u[1..], t[1..], s[1..]);
        } else {
          InsertsTrans(u[1..], t[1..], s);
        }
      } else {
        InsertsTrans(u[1..], t, s);
      }
    }
  }

  lemma {:induction false} InsertsLower(t: string, s: string)
    requires InsertsUnderscores(t, s)
    ensures InsertsUnderscores(ToLower(t), ToLower(s))
    decreases |t|
  {
    if |t| > 0 {
      assert ToLower(t)[1..] == ToLower(t[1..]);
      if |s| > 0 && t[0] == s[0] && InsertsUnderscores(t[1..], s[1..]) {
        InsertsLower(t[1..], s[1..]);
        assert ToLower(s)[1..] == ToLower(s[1..]);
      } else {
        InsertsLower(t[1..], s);
      }
    }
  }

  /** Every character of `t` is an inserted underscore or a character of `s`. */
  lemma {:induction false} InsertsChars(t: string, s: string)
    requires InsertsUnderscores(t, s)
    ensures forall i :: 0 <= i < |t| ==> t[i] == '_' || t[i] in s
    decreases |t|
  {
    if |t| > 0 {
      if |s| > 0 && t[0] == s[0] && InsertsUnderscores(t[1..], s[1..]) {
        InsertsChars(t[1..], s[1..]);
        forall i | 1 <= i < |t| ensures t[i] == '_' || t[i] in s {
          assert t[i] == t[1..][i - 1];
        }
      } else {
        InsertsChars(t[1..], s);
        forall i | 1 <= i < |t| ensures t[i] == '_' || t[i] in s {
          assert t[i] == t[1..][i - 1];
        }
      }
    }
  }

  /** One match of pass 1 inserts one underscore after its first character. */
  lemma WordInserts(c: char, x: string, u: string, v: string)
    requires InsertsUnderscores(u, v)
    ensures InsertsUnderscores([c, '_'] + x + u, [c] + x + v)
  {
    InsertsPrefix(x, u, v);
    InsertsUnderscore(x + u, x + v);
    InsertsCons(c, "_" + (x + u), x + v);
    assert [c, '_'] + x + u == [c] + ("_" + (x + u));
    assert [c] + x + v == [c] + (x + v);
  }

  lemma {:induction false} SplitWordsInserts(s: string)
    ensures InsertsUnderscores(SplitWords(s), s)
    decreases |s|
  {
    if MatchesWordAt(s, 0) {
      var j := RunEnd(s, 2, IsLower);
      SplitWordsInserts(s[j..]);
      WordInserts(s[0], s[1..j], SplitWords(s[j..]), s[j..]);
      assert [s[0]] + s[1..j] + s[j..] == s;
    } else if |s| > 0 {
      SplitWordsInserts(s[1..]);
      InsertsCons(s[0], SplitWords(s[1..]), s[1..]);
      assert [s[0]] + s[1..] == s;
    }
  }

  lemma {:induction false} SplitCaseInserts(s: string)
    ensures InsertsUnderscores(SplitCase(s), s)
    decreases |s|
  {
    if |s| >= 2 && IsLowerOrDigit(s[0]) && IsUpper(s[1]) {
      SplitCaseInserts(s[2..]);
      WordInserts(s[0], [s[1]], SplitCase(s[2..]), s[2..]);
      assert [s[0], '_', s[1]] + SplitCase(s[2..]) == [s[0], '_'] + [s[1]] + SplitCase(s[2..]);
      assert [s[0]] + [s[1]] + s[2..] == s;
    } else if |s| > 0 {
      SplitCaseInserts(s[1..]);
      InsertsCons(s[0], SplitCase(s[1..]), s[1..]);
      assert [s[0]] + s[1..] == s;
    }
  }

  /** The output of `camel_to_snake` is the lower-cased input with zero or
      more underscores inserted: nothing is dropped, reordered or otherwise added. */
  lemma CamelToSnakeInsertsUnderscores(name: string)
    ensures InsertsUnderscores(CamelToSnake(name), ToLower(name))
  {
    var p1 := SplitWords(name);
    var p2 := SplitCase(p1);
    SplitWordsInserts(name);
    SplitCaseInserts(p1);
    InsertsTrans(p2, p1, name);
    InsertsLower(p2, name);
  }

  /** A slot name made of `\w` characters maps to lower-case letters, digits and
      underscores: the generated method name is a word with no `(`. */
  lemma CamelToSnakeOfWord(name: string)
    requires IsWord(name)
    ensures IsWord(CamelToSnake(name))
    ensures forall i :: 0 <= i < |CamelToSnake(name)| ==> IsLower(CamelToSnake(name)[i]) || IsDigit(CamelToSnake(name)[i]) || CamelToSnake(name)[i] == '_'
  {
    var r := CamelToSnake(name);
    var l := ToLower(name);
    CamelToSnakeInsertsUnderscores(name);
    InsertsChars(r, l);
    assert |r| > 0;
    forall i | 0 <= i < |r| ensures IsLower(r[i]) || IsDigit(r[i]) || r[i] == '_' {
      if r[i] != '_' {
        var k :| 0 <= k < |l| && l[k] == r[i];
        assert IsWordChar(name[k]);
      }
    }
  }

  // ---------------------------------------------------------------------------
  // Inputs without upper-case letters.

  lemma {:induction false} SplitWordsWithoutUpper(s: string)
    requires NoUpper(s)
    ensures SplitWords(s) == s
    decreases |s|
  {
    if |s| > 0 {
      assert !MatchesWordAt(s, 0) by {
        if |s| > 1 { assert !IsUpper(s[1]); }
      }
      SplitWordsWithoutUpper(s[1..]);
      assert [s[0]] + s[1..] == s;
    }
  }

  lemma {:induction false} SplitCaseWithoutUpper(s: string)
    requires NoUpper(s)
    ensures SplitCase(s) == s
    decreases |s|
  {
    if |s| > 0 {
      assert |s| > 1 ==> !IsUpper(s[1]);
      SplitCaseWithoutUpper(s[1..]);
      assert [s[0]] + s[1..] == s;
    }
  }

  /** An input with no upper-case letter matches neither pattern and comes back unchanged. */
  lemma CamelToSnakeWithoutUpper(name: string)
    requires NoUpper(name)
    ensures CamelToSnake(name) == name
  {
    SplitWordsWithoutUpper(name);
    SplitCaseWithoutUpper(name);
    assert ToLower(name) == name;
  }

  /** Converting twice is converting once. */
  lemma CamelToSnakeIdempotent(name: string)
    ensures CamelToSnake(CamelToSnake(name)) == CamelToSnake(name)
  {
    CamelToSnakeWithoutUpper(CamelToSnake(name));
  }

  /** After pass 2 no lower-case letter or digit is directly followed by an
      upper-case letter: every such pair of the input got its underscore. */
  lemma {:induction false} SplitCaseSeparatesAll(s: string)
    ensures forall i :: 0 <= i < |SplitCase(s)| - 1 ==>
      !(IsLowerOrDigit(SplitCase(s)[i]) && IsUpper(SplitCase(s)[i + 1]))
    decreases |s|
  {
    var r := SplitCase(s);
    if |s| >= 2 && IsLowerOrDigit(s[0]) && IsUpper(s[1]) {
      SplitCaseSeparatesAll(s[2..]);
      var rest := SplitCase(s[2..]);
      assert r == [s[0], '_', s[1]] + rest;
      forall i | 0 <= i < |r| - 1 ensures !(IsLowerOrDigit(r[i]) && IsUpper(r[i + 1])) {
        if i >= 3 { assert r[i] == rest[i - 3] && r[i + 1] == rest[i - 2]; }
      }
    } else if |s| > 0 {
      SplitCaseSeparatesAll(s[1..]);
      var rest := SplitCase(s[1..]);
      assert r == [s[0]] + rest;
      forall i | 0 <= i < |r| - 1 ensures !(IsLowerOrDigit(r[i]) && IsUpper(r[i + 1])) {
        if i >= 1 { assert r[i] == rest[i - 1] && r[i + 1] == rest[i]; }
      }
    }
  }

  // ---------------------------------------------------------------------------
  // Identifiers made of capitalised words.

  /** `[A-Z][a-z]+` */
  predicate IsCapitalized(w: string)
  {
    |w| >= 2 && IsUpper(w[0]) && forall i :: 1 <= i < |w| ==> IsLower(w[i])
  }

  function Concat(ws: seq<string>): string
    decreases |ws|
  {
    if |ws| == 0 then "" else ws[0] + Concat(ws[1..])
  }

  /** What pass 1 makes of capitalised words: it splits before every second
      word, because each match consumes the lower-case run of the word it
      splits off and the scan cannot reuse that run's last letter. */
  function AlternateJoin(ws: seq<string>): string
    decreases |ws|
  {
    if |ws| == 0 then ""
    else if |ws| == 1 then ws[0]
    else ws[0] + "_" + ws[1] + AlternateJoin(ws[2..])
  }

  lemma PrefixStep(s: string, k: nat, w: string)
    requires 0 < k <= |s|
    ensures [s[0]] + (s[1..][..k - 1] + w) == s[..k] + w
  {
    assert [s[0]] + s[1..][..k - 1] == s[..k];
  }

  /** Pass 1 copies a prefix in which no match begins. */
  lemma {:induction false} SplitWordsCopies(s: string, k: nat)
    requires k <= |s|
    requires forall i :: 0 <= i < k ==> !MatchesWordAt(s, i)
    ensures SplitWords(s) == s[..k] + SplitWords(s[k..])
    decreases k
  {
    if k == 0 {
      assert s[k..] == s;
    } else {
      var t := s[1..];
      assert !MatchesWordAt(s, 0);
      forall i | 0 <= i < k - 1 ensures !MatchesWordAt(t, i) {
        assert !MatchesWordAt(s, i + 1);
      }
      SplitWordsCopies(t, k - 1);
      assert t[k - 1..] == s[k..];
      PrefixStep(s, k, SplitWords(s[k..]));
    }
  }

  lemma ConcatCapitalizedStart(ws: seq<string>)
    requires |ws| > 0 && forall k :: 0 <= k < |ws| ==> IsCapitalized(ws[k])
    ensures |Concat(ws)| >= 2 && IsUpper(Concat(ws)[0]) && Concat(ws)[..|ws[0]|] == ws[0]
  {
    assert Concat(ws) == ws[0] + Concat(ws[1..]);
  }

  /** The greedy `[a-z]+` after a capital stops at the end of its word. */
  lemma RunOfWordTail(c: char, w: string, rest: string)
    requires IsCapitalized(w)
    requires |rest| == 0 || IsUpper(rest[0])
    ensures RunEnd([c] + (w + rest), 2, IsLower) == |w| + 1
  {
    var t := [c] + (w + rest);
    assert t[1..|w| + 1] == w;
    if |w| + 1 < |t| {
      assert t[|w| + 1] == rest[0];
    }
    RunOverWord(t, w);
  }

  lemma RunOverWord(t: string, w: string)
    requires IsCapitalized(w) && |w| + 1 <= |t| && t[1..|w| + 1] == w
    requires |w| + 1 < |t| ==> IsUpper(t[|w| + 1])
    ensures RunEnd(t, 2, IsLower) == |w| + 1
  {
    forall k | 2 <= k < |w| + 1 ensures IsLower(t[k]) {
      assert t[k] == t[1..|w| + 1][k - 1];
    }
    RunEndExact(t, 2, IsLower, |w| + 1);
  }

  /** A match at the start of `[c] + w + rest` takes exactly the word `w`. */
  lemma SplitWordsMatch(c: char, w: string, rest: string)
    requires IsNotNewline(c) && IsCapitalized(w)
    requires |rest| == 0 || IsUpper(rest[0])
    ensures SplitWords([c] + (w + rest)) == [c, '_'] + w + SplitWords(rest)
  {
    var t := [c] + (w + rest);
    assert t[1] == w[0] && t[2] == w[1];
    assert MatchesWordAt(t, 0);
    RunOfWordTail(c, w, rest);
    assert t[1..|w| + 1] == w;
    assert t[|w| + 1..] == rest;
  }

  /** Pass 1 over two capitalised words splits them and resumes after the second. */
  lemma SplitWordsPair(w0: string, w1: string, rest: string)
    requires IsCapitalized(w0) && IsCapitalized(w1)
    requires |rest| == 0 || IsUpper(rest[0])
    ensures SplitWords(w0 + (w1 + rest)) == w0 + "_" + w1 + SplitWords(rest)
  {
    var s := w0 + (w1 + rest);
    var k := |w0| - 1;
    forall i | 0 <= i < k ensures !MatchesWordAt(s, i) {
      assert s[i + 1] == w0[i + 1];
    }
    SplitWordsCopies(s, k);
    assert s[k..] == [w0[k]] + (w1 + rest);
    SplitWordsMatch(w0[k], w1, rest);
    Regroup(w0, w1 + rest, w1, SplitWords(rest));
  }

  lemma Regroup(w0: string, x: string, w1: string, y: string)
    requires |w0| > 0
    ensures (w0 + x)[..|w0| - 1] + ([w0[|w0| - 1], '_'] + w1 + y) == w0 + "_" + w1 + y
  {
    assert (w0 + x)[..|w0| - 1] + [w0[|w0| - 1]] == w0;
  }

  lemma SplitWordsOneWord(w: string)
    requires IsCapitalized(w)
    ensures SplitWords(w) == w
  {
    forall i | 0 <= i < |w| ensures !MatchesWordAt(w, i) {
      if i + 2 < |w| { assert IsLower(w[i + 1]); }
    }
    SplitWordsCopies(w, |w|);
    assert w[..|w|] == w;
  }

  lemma {:induction false} SplitWordsOnWords(ws: seq<string>)
    requires forall k :: 0 <= k < |ws| ==> IsCapitalized(ws[k])
    ensures SplitWords(Concat(ws)) == AlternateJoin(ws)
    decreases |ws|
  {
    if |ws| == 1 {
      assert Concat(ws) == ws[0] + "";
      assert ws[0] + "" == ws[0];
      SplitWordsOneWord(ws[0]);
    } else if |ws| >= 2 {
      var rest := Concat(ws[2..]);
      assert ws[1..][1..] == ws[2..];
      assert Concat(ws) == ws[0] + (ws[1] + rest);
      if |ws| > 2 { ConcatCapitalizedStart(ws[2..]); }
      SplitWordsPair(ws[0], ws[1], rest);
      SplitWordsOnWords(ws[2..]);
    }
  }

  /** Pass 2 over a lower-case run: an underscore goes in only where the run
      meets an upper-case letter. */
  lemma {:induction false} SplitCaseLowers(l: string, rest: string)
    requires |l| > 0 && forall i :: 0 <= i < |l| ==> IsLower(l[i])
    ensures SplitCase(l + rest) == l + (if |rest| > 0 && IsUpper(rest[0]) then "_" else "") + SplitCase(rest)
    decreases |l|
  {
    var s := l + rest;
    if |l| == 1 {
      if |rest| > 0 && IsUpper(rest[0]) {
        assert s == [l[0], rest[0]] + rest[1..];
        assert s[2..] == rest[1..];
        assert SplitCase(rest) == [rest[0]] + SplitCase(rest[1..]);
      } else {
        assert s[1..] == rest;
      }
    } else {
      assert s[1..] == l[1..] + rest;
      SplitCaseLowers(l[1..], rest);
      assert l == [l[0]] + l[1..];
    }
  }

  lemma SplitCaseWord(w: string, rest: string)
    requires IsCapitalized(w)
    ensures SplitCase(w + rest) == w + (if |rest| > 0 && IsUpper(rest[0]) then "_" else "") + SplitCase(rest)
  {
    var s := w + rest;
    assert s[1..] == w[1..] + rest;
    SplitCaseLowers(w[1..], rest);
    assert w == [w[0]] + w[1..];
  }

  lemma {:induction false} SplitCaseOnAlternate(ws: seq<string>)
    requires forall k :: 0 <= k < |ws| ==> IsCapitalized(ws[k])
    ensures SplitCase(AlternateJoin(ws)) == Join(ws, "_")
    decreases |ws|
  {
    if |ws| == 1 {
      SplitCaseWord(ws[0], "");
      assert ws[0] + "" == ws[0];
    } else if |ws| >= 2 {
      if |ws| > 2 {
        SplitCaseOnAlternate(ws[2..]);
        AlternateJoinStart(ws[2..]);
      } else {
        assert ws[2..] == [];
      }
      SplitCaseOnAlternateStep(ws, AlternateJoin(ws[2..]), Join(ws[2..], "_"));
    }
  }

  /** From the words after the first two to the whole sequence. */
  lemma SplitCaseOnAlternateStep(ws: seq<string>, p: string, j: string)
    requires |ws| >= 2 && IsCapitalized(ws[0]) && IsCapitalized(ws[1])
    requires p == AlternateJoin(ws[2..]) && (|p| == 0 || IsUpper(p[0]))
    requires j == Join(ws[2..], "_") && SplitCase(p) == j
    requires |ws| == 2 <==> |p| == 0
    ensures SplitCase(AlternateJoin(ws)) == Join(ws, "_")
  {
    assert AlternateJoin(ws) == ws[0] + "_" + ws[1] + p;
    SplitCaseTwoWords(ws[0], ws[1], p, j);
    assert ws[1..][1..] == ws[2..];
    if |ws| == 2 {
      assert Join(ws[1..], "_") == ws[1];
      assert ws[1] + "" + j == ws[1];
    } else {
      assert Join(ws[1..], "_") == ws[1] + "_" + j;
    }
  }

  /** Pass 2 on two capitalised words joined by `_`, then the rest. */
  lemma SplitCaseTwoWords(w0: string, w1: string, p: string, j: string)
    requires IsCapitalized(w0) && IsCapitalized(w1) && (|p| == 0 || IsUpper(p[0])) && SplitCase(p) == j
    ensures SplitCase(w0 + "_" + w1 + p) == w0 + "_" + (w1 + (if |p| > 0 then "_" else "") + j)
  {
    var x := w1 + p;
    SplitCaseWord(w1, p);
    SplitCaseUnderscore(x);
    SplitCaseWord(w0, "_" + x);
    Regroup4(w0, "_", w1, p);
    Regroup3(w0, "_", w1 + (if |p| > 0 then "_" else "") + j);
    assert w0 + "" == w0;
  }

  lemma Regroup4(a: string, b: string, c: string, d: string)
    ensures a + b + c + d == a + (b + (c + d))
  {
  }

  lemma Regroup3(a: string, b: string, c: string)
    ensures a + (b + c) == a + b + c
  {
  }

  lemma SplitCaseUnderscore(x: string)
    ensures SplitCase("_" + x) == "_" + SplitCase(x)
  {
    assert ("_" + x)[1..] == x;
  }

  /** The alternate join of capitalised words starts with the first word's capital. */
  lemma AlternateJoinStart(ws: seq<string>)
    requires |ws| > 0 && IsCapitalized(ws[0])
    ensures |AlternateJoin(ws)| > 0 && AlternateJoin(ws)[0] == ws[0][0]
  {
  }

  /** An identifier made of capitalised words, such as `OnFrontConnected`,
      becomes those words lower-cased and joined with `_`. */
  lemma CamelToSnakeOfWords(ws: seq<string>)
    requires |ws| > 0
    requires forall k :: 0 <= k < |ws| ==> IsCapitalized(ws[k])
    ensures CamelToSnake(Concat(ws)) == ToLower(Join(ws, "_"))
  {
    SplitWordsOnWords(ws);
    SplitCaseOnAlternate(ws);
  }

  /** The slot names of the market-data callback interface become the trait
      method names that examples/mdapi.rs implements. */
  lemma CamelToSnakeExamples()
    ensures CamelToSnake("OnFrontConnected") == "on_front_connected"
    ensures CamelToSnake("OnFrontDisconnected") == "on_front_disconnected"
    ensures CamelToSnake("OnRspUserLogin") == "on_rsp_user_login"
    ensures CamelToSnake("OnRtnDepthMarketData") == "on_rtn_depth_market_data"
    ensures CamelToSnake("OnRspSubMarketData") == "on_rsp_sub_market_data"
    ensures CamelToSnake("Drop") == "drop"
  {
    FrontConnected();
    FrontDisconnected();
    RspUserLogin();
    RtnDepthMarketData();
    RspSubMarketData();
    Drop();
  }

  /** Capitalised words `ws` spelling `name` become `snake`, given `joined`,
      the words joined with `_`, and its lower-case form. */
  lemma Words(ws: seq<string>, name: string, joined: string, snake: string)
    requires |ws| > 0 && forall k :: 0 <= k < |ws| ==> IsCapitalized(ws[k])
    requires Concat(ws) == name && Join(ws, "_") == joined && ToLower(joined) == snake
    ensures CamelToSnake(name) == snake
  {
    CamelToSnakeOfWords(ws);
  }

  lemma FrontConnected()
    ensures CamelToSnake("OnFrontConnected") == "on_front_connected"
  {
    FrontConnectedCapitalized();
    FrontConnectedConcat();
    FrontConnectedJoin();
    FrontConnectedLowered();
    Words(["On", "Front", "Connected"], "OnFrontConnected", "On_Front_Connected", "on_front_connected");
  }

  lemma FrontConnectedCapitalized()
    ensures forall k :: 0 <= k < |["On", "Front", "Connected"]| ==> IsCapitalized(["On", "Front", "Connected"][k])
  {
  }

  lemma FrontConnectedConcat()
    ensures Concat(["On", "Front", "Connected"]) == "OnFrontConnected"
  {
  }

  lemma FrontConnectedJoin()
    ensures Join(["On", "Front", "Connected"], "_") == "On_Front_Connected"
  {
  }

  lemma FrontConnectedLowered()
    ensures ToLower("On_Front_Connected") == "on_front_connected"
  {
  }

  lemma RspUserLogin()
    ensures CamelToSnake("OnRspUserLogin") == "on_rsp_user_login"
  {
    RspUserLoginCapitalized();
    RspUserLoginConcat();
    RspUserLoginJoin();
    RspUserLoginLowered();
    Words(["On", "Rsp", "User", "Login"], "OnRspUserLogin", "On_Rsp_User_Login", "on_rsp_user_login");
  }

  lemma RspUserLoginCapitalized()
    ensures forall k :: 0 <= k < |["On", "Rsp", "User", "Login"]| ==> IsCapitalized(["On", "Rsp", "User", "Login"][k])
  {
  }

  lemma RspUserLoginConcat()
    ensures Concat(["On", "Rsp", "User", "Login"]) == "OnRspUserLogin"
  {
  }

  lemma RspUserLoginJoin()
    ensures Join(["On", "Rsp", "User", "Login"], "_") == "On_Rsp_User_Login"
  {
  }

  lemma RspUserLoginLowered()
    ensures ToLower("On_Rsp_User_Login") == "on_rsp_user_login"
  {
  }

  lemma FrontDisconnected()
    ensures CamelToSnake("OnFrontDisconnected") == "on_front_disconnected"
  {
    FrontDisconnectedCapitalized();
    FrontDisconnectedConcat();
    FrontDisconnectedJoin();
    FrontDisconnectedLowered();
    Words(["On", "Front", "Disconnected"], "OnFrontDisconnected", "On_Front_Disconnected", "on_front_disconnected");
  }

  lemma FrontDisconnectedCapitalized()
    ensures forall k :: 0 <= k < |["On", "Front", "Disconnected"]| ==> IsCapitalized(["On", "Front", "Disconnected"][k])
  {
  }

  lemma FrontDisconnectedConcat()
    ensures Concat(["On", "Front", "Disconnected"]) == "OnFrontDisconnected"
  {
  }

  lemma FrontDisconnectedJoin()
    ensures Join(["On", "Front", "Disconnected"], "_") == "On_Front_Disconnected"
  {
  }

  lemma FrontDisconnectedLowered()
    ensures ToLower("On_Front_Disconnected") == "on_front_disconnected"
  {
  }

  /** Five words joined with `_`, and run together. */
  lemma JoinFive(a: string, b: string, c: string, d: string, e: string)
    ensures Join([a, b, c, d, e], "_") == a + "_" + b + "_" + c + "_" + d + "_" + e
  {
    assert [d, e][1..] == [e];
    assert Join([d, e], "_") == d + "_" + e;
    assert [c, d, e][1..] == [d, e];
    assert Join([c, d, e], "_") == c + "_" + (d + "_" + e);
    assert [b, c, d, e][1..] == [c, d, e];
    assert Join([b, c, d, e], "_") == b + "_" + (c + "_" + (d + "_" + e));
    assert [a, b, c, d, e][1..] == [b, c, d, e];
  }

  lemma ConcatFive(a: string, b: string, c: string, d: string, e: string)
    ensures Concat([a, b, c, d, e]) == a + b + c + d + e
  {
    assert [e][1..] == [];
    assert Concat([e]) == e;
    assert [d, e][1..] == [e];
    assert Concat([d, e]) == d + e;
    assert [c, d, e][1..] == [d, e];
    assert Concat([c, d, e]) == c + (d + e);
    assert [b, c, d, e][1..] == [c, d, e];
    assert Concat([b, c, d, e]) == b + (c + (d + e));
    assert [a, b, c, d, e][1..] == [b, c, d, e];
  }

  lemma RtnDepthMarketData()
    ensures CamelToSnake("OnRtnDepthMarketData") == "on_rtn_depth_market_data"
  {
    RtnDepthMarketDataCapitalized();
    RtnDepthMarketDataConcat();
    RtnDepthMarketDataJoin();
    RtnDepthMarketDataLowered();
    Words(["On", "Rtn", "Depth", "Market", "Data"], "OnRtnDepthMarketData", "On_Rtn_Depth_Market_Data", "on_rtn_depth_market_data");
  }

  lemma RtnDepthMarketDataCapitalized()
    ensures forall k :: 0 <= k < |["On", "Rtn", "Depth", "Market", "Data"]| ==> IsCapitalized(["On", "Rtn", "Depth", "Market", "Data"][k])
  {
  }

  lemma RtnDepthMarketDataConcat()
    ensures Concat(["On", "Rtn", "Depth", "Market", "Data"]) == "OnRtnDepthMarketData"
  {
    ConcatFive("On", "Rtn", "Depth", "Market", "Data");
  }

  lemma RtnDepthMarketDataJoin()
    ensures Join(["On", "Rtn", "Depth", "Market", "Data"], "_") == "On_Rtn_Depth_Market_Data"
  {
    JoinFive("On", "Rtn", "Depth", "Market", "Data");
  }

  lemma RtnDepthMarketDataLowered()
    ensures ToLower("On_Rtn_Depth_Market_Data") == "on_rtn_depth_market_data"
  {
  }

  lemma RspSubMarketData()
    ensures CamelToSnake("OnRspSubMarketData") == "on_rsp_sub_market_data"
  {
    RspSubMarketDataCapitalized();
    RspSubMarketDataConcat();
    RspSubMarketDataJoin();
    RspSubMarketDataLowered();
    Words(["On", "Rsp", "Sub", "Market", "Data"], "OnRspSubMarketData", "On_Rsp_Sub_Market_Data", "on_rsp_sub_market_data");
  }

  lemma RspSubMarketDataCapitalized()
    ensures forall k :: 0 <= k < |["On", "Rsp", "Sub", "Market", "Data"]| ==> IsCapitalized(["On", "Rsp", "Sub", "Market", "Data"][k])
  {
  }

  lemma RspSubMarketDataConcat()
    ensures Concat(["On", "Rsp", "Sub", "Market", "Data"]) == "OnRspSubMarketData"
  {
    ConcatFive("On", "Rsp", "Sub", "Market", "Data");
  }

  lemma RspSubMarketDataJoin()
    ensures Join(["On", "Rsp", "Sub", "Market", "Data"], "_") == "On_Rsp_Sub_Market_Data"
  {
    JoinFive("On", "Rsp", "Sub", "Market", "Data");
  }

  lemma RspSubMarketDataLowered()
    ensures ToLower("On_Rsp_Sub_Market_Data") == "on_rsp_sub_market_data"
  {
  }

  lemma Drop()
    ensures CamelToSnake("Drop") == "drop"
  {
    assert IsCapitalized(["Drop"][0]);
    assert Concat(["Drop"]) == "Drop";
    assert Join(["Drop"], "_") == "Drop";
    assert ToLower("Drop") == "drop";
    Words(["Drop"], "Drop", "Drop", "drop");
  }
}
