/** ASCII character classes and the few `str` operations the binding rewriter
    uses on them: the regex classes `[A-Z]`, `[a-z]`, `\w`, `\s`, `.`, and
    `trim`, `split(',')`, `join`, `ends_with`. */
module Text {

  /** `[A-Z]` */
  predicate IsUpper(c: char) { 'A' <= c <= 'Z' }

  /** `[a-z]` */
  predicate IsLower(c: char) { 'a' <= c <= 'z' }

  predicate IsDigit(c: char) { '0' <= c <= '9' }

  /** `\w` restricted to ASCII. */
  predicate IsWordChar(c: char) { IsUpper(c) || IsLower(c) || IsDigit(c) || c == '_' }

  /** `\s` and `char::is_whitespace` restricted to ASCII: space, tab, line feed,
      carriage return, vertical tab and form feed. */
  predicate IsSpace(c: char)
  {
    c == ' ' || c == '\t' || c == '\n' || c == '\r' || c == '\U{B}' || c == '\U{C}'
  }

  /** `.`: any character but a line feed. */
  predicate IsNotNewline(c: char) { c != '\n' }

  /** A non-empty run of `\w` characters: what `\w+` matches. */
  predicate IsWord(s: string) { |s| > 0 && forall i :: 0 <= i < |s| ==> IsWordChar(s[i]) }

  predicate IsBlank(s: string) { forall i :: 0 <= i < |s| ==> IsSpace(s[i]) }

  predicate NoUpper(s: string) { forall i :: 0 <= i < |s| ==> !IsUpper(s[i]) }

  predicate StartsWith(s: string, prefix: string) { |prefix| <= |s| && s[..|prefix|] == prefix }

  /** `str::ends_with` */
  predicate EndsWith(s: string, suffix: string) { |suffix| <= |s| && s[|s| - |suffix|..] == suffix }

  /** The length of the longest prefix of `s` made of characters satisfying `p`:
      how far a greedy `[p]*` reaches from the start of `s`. */
  function Run(s: string, p: char -> bool): (n: nat)
    ensures n <= |s|
    ensures forall i :: 0 <= i < n ==> p(s[i])
    ensures n < |s| ==> !p(s[n])
    decreases |s|
  {
    if |s| > 0 && p(s[0]) then 1 + Run(s[1..], p) else 0
  }

  /** Where a greedy `[p]*` that starts at `s[i]` stops. */
  function RunEnd(s: string, i: nat, p: char -> bool): (j: nat)
    requires i <= |s|
    ensures i <= j <= |s|
    decreases |s| - i
  {
    if i < |s| && p(s[i]) then RunEnd(s, i + 1, p) else i
  }

  /** The run is made of characters satisfying `p` and stops at one that does not. */
  lemma {:induction false} RunEndSpans(s: string, i: nat, p: char -> bool)
    requires i <= |s|
    ensures forall k :: i <= k < RunEnd(s, i, p) ==> p(s[k])
    ensures RunEnd(s, i, p) < |s| ==> !p(s[RunEnd(s, i, p)])
    decreases |s| - i
  {
    if i < |s| && p(s[i]) {
      RunEndSpans(s, i + 1, p);
    }
  }

  /** A run is determined by where it stops: after characters satisfying `p`,
      at the end of `s` or at the first character that does not. */
  lemma {:induction false} RunEndExact(s: string, i: nat, p: char -> bool, j: nat)
    requires i <= j <= |s| && (forall k :: i <= k < j ==> p(s[k])) && (j < |s| ==> !p(s[j]))
    ensures RunEnd(s, i, p) == j
    decreases j - i
  {
    if i < j {
      RunEndExact(s, i + 1, p, j);
    }
  }

  lemma StartsWithConcat(p: string, t: string)
    ensures StartsWith(p + t, p)
  {
    assert (p + t)[..|p|] == p;
  }

  lemma StartsWithAppend(s: string, p: string, t: string)
    requires StartsWith(s, p)
    ensures StartsWith(s + t, p)
  {
    assert (s + t)[..|p|] == s[..|p|];
  }

  lemma EndsWithConcat(s: string, suffix: string)
    ensures EndsWith(s + suffix, suffix)
  {
    assert (s + suffix)[|s|..] == suffix;
  }

  /** Leading whitespace removed. */
  function TrimStart(s: string): (r: string)
    ensures |r| <= |s| && r == s[|s| - |r|..]
    ensures IsBlank(s[..|s| - |r|])
    ensures |r| > 0 ==> !IsSpace(r[0])
  {
    s[Run(s, IsSpace)..]
  }

  /** Trailing whitespace removed. */
  function TrimEnd(s: string): (r: string)
    ensures |r| <= |s| && r == s[..|r|]
    ensures IsBlank(s[|r|..])
    ensures |r| > 0 ==> !IsSpace(r[|r| - 1])
    decreases |s|
  {
    if |s| > 0 && IsSpace(s[|s| - 1]) then
      var r := TrimEnd(s[..|s| - 1]);
      assert s[|r|..] == s[..|s| - 1][|r|..] + [s[|s| - 1]];
      r
    else s
  }

  /** `str::trim` */
  function Trim(s: string): string
  {
    TrimEnd(TrimStart(s))
  }

  /** A string that neither starts nor ends with whitespace is its own trim. */
  lemma TrimUnchanged(s: string)
    requires |s| > 0 && !IsSpace(s[0]) && !IsSpace(s[|s| - 1])
    ensures Trim(s) == s
  {
    assert Run(s, IsSpace) == 0;
    assert TrimStart(s) == s;
  }

  /** The pieces `split(',')` finds in `lead + Join(ws, ", ")`: `lead` and the
      first word, then each other word after its space. */
  function CommaPieces(lead: string, ws: seq<string>): (r: seq<string>)
    requires |ws| > 0
    ensures |r| == |ws| && r[0] == lead + ws[0]
    ensures forall i :: 0 < i < |ws| ==> r[i] == " " + ws[i]
  {
    [lead + ws[0]] + seq(|ws| - 1, i requires 0 <= i < |ws| - 1 => " " + ws[i + 1])
  }

  /** Joining with `", "` is joining with `","` pieces that start with a space. */
  lemma {:induction false} JoinCommaSpace(lead: string, ws: seq<string>)
    requires |ws| > 0
    ensures lead + Join(ws, ", ") == Join(CommaPieces(lead, ws), ",")
    decreases |ws|
  {
    var p := CommaPieces(lead, ws);
    if |ws| == 1 {
      assert p == [lead + ws[0]];
    } else {
      var j := Join(ws[1..], ", ");
      JoinCommaSpace(" ", ws[1..]);
      CommaPiecesTail(lead, ws);
      assert Join(ws, ", ") == ws[0] + ", " + j;
      assert Join(p, ",") == p[0] + "," + Join(p[1..], ",");
      CommaRegroup(lead, ws[0], j);
    }
  }

  lemma CommaPiecesTail(lead: string, ws: seq<string>)
    requires |ws| > 1
    ensures CommaPieces(lead, ws)[1..] == CommaPieces(" ", ws[1..])
  {
  }

  lemma CommaRegroup(lead: string, w: string, j: string)
    ensures lead + (w + ", " + j) == (lead + w) + "," + (" " + j)
  {
  }

  /** Words joined with `", "` split at `,` into the words, each after a space but the first. */
  lemma SplitCommaWords(ws: seq<string>)
    requires |ws| > 0
    requires forall k :: 0 <= k < |ws| ==> IsWord(ws[k])
    ensures Split(Join(ws, ", "), ',') == CommaPieces("", ws)
  {
    JoinCommaSpace("", ws);
    assert "" + Join(ws, ", ") == Join(ws, ", ");
    CommaWordsNoComma(ws);
    SplitJoin(CommaPieces("", ws), ',');
  }

  lemma CommaWordsNoComma(ws: seq<string>)
    requires |ws| > 0
    requires forall k :: 0 <= k < |ws| ==> IsWord(ws[k])
    ensures forall k :: 0 <= k < |ws| ==> ',' !in CommaPieces("", ws)[k]
  {
    var p := CommaPieces("", ws);
    forall k | 0 <= k < |ws| ensures ',' !in p[k] {
      assert IsWord(ws[k]);
      if k == 0 {
        assert p[k] == ws[k];
      }
    }
  }

  /** Trimming the pieces of `CommaPieces("", ws)` gives back the words. */
  lemma CommaWordsTrim(ws: seq<string>)
    requires |ws| > 0
    requires forall k :: 0 <= k < |ws| ==> IsWord(ws[k])
    ensures forall i :: 0 <= i < |ws| ==> Trim(CommaPieces("", ws)[i]) == ws[i]
  {
    var p := CommaPieces("", ws);
    forall i | 0 <= i < |ws| ensures Trim(p[i]) == ws[i] {
      TrimWord(ws[i]);
      if i == 0 {
        assert p[i] == ws[i];
      } else {
        assert p[i] == " " + ws[i];
      }
    }
  }

  /** A word is its own trim, also after a space. */
  lemma TrimWord(w: string)
    requires IsWord(w)
    ensures Trim(w) == w && Trim(" " + w) == w
  {
    assert !IsSpace(w[0]) && !IsSpace(w[|w| - 1]);
    TrimUnchanged(w);
    var s := " " + w;
    assert s[1..] == w;
    assert Run(s, IsSpace) == 1;
    assert TrimStart(s) == w;
  }

  /** The filter at build.rs:99 keeps a piece exactly when it is not all whitespace. */
  lemma TrimEmptyIffBlank(s: string)
    ensures |Trim(s)| == 0 <==> IsBlank(s)
  {
    var t := TrimStart(s);
    if |Trim(s)| == 0 {
      assert IsBlank(t[|Trim(s)|..]);
      assert |t| == 0;
      forall i | 0 <= i < |s| ensures IsSpace(s[i]) {
        assert s[i] == s[..|s| - |t|][i];
      }
    } else {
      var r := Trim(s);
      assert r[0] == t[0];
      assert t[0] == s[|s| - |t|];
    }
  }

  /** `str::split` on one separator character: the pieces between separators,
      in order; there is always at least one piece. */
  function Split(s: string, sep: char): (pieces: seq<string>)
    ensures |pieces| > 0
    ensures forall k :: 0 <= k < |pieces| ==> sep !in pieces[k]
    decreases |s|
  {
    if |s| == 0 then [""]
    else
      var rest := Split(s[1..], sep);
      if s[0] == sep then [""] + rest
      else [[s[0]] + rest[0]] + rest[1..]
  }

  /** `[String]::join` */
  function Join(pieces: seq<string>, sep: string): string
    decreases |pieces|
  {
    if |pieces| == 0 then ""
    else if |pieces| == 1 then pieces[0]
    else pieces[0] + sep + Join(pieces[1..], sep)
  }

  /** Joining the pieces with the separator gives back the string that was split. */
  lemma {:induction false} JoinSplit(s: string, sep: char)
    ensures Join(Split(s, sep), [sep]) == s
    decreases |s|
  {
    if |s| > 0 {
      var rest := Split(s[1..], sep);
      JoinSplit(s[1..], sep);
      if s[0] == sep {
        assert Split(s, sep) == [""] + rest;
        assert s == [s[0]] + s[1..];
      } else {
        var pieces := Split(s, sep);
        assert pieces == [[s[0]] + rest[0]] + rest[1..];
        if |rest| == 1 {
          assert s == [s[0]] + s[1..];
        } else {
          assert pieces[1..] == rest[1..];
          assert Join(rest, [sep]) == rest[0] + [sep] + Join(rest[1..], [sep]);
          assert s == [s[0]] + s[1..];
        }
      }
    }
  }

  /** A string without the separator splits into itself. */
  lemma {:induction false} SplitWithoutSep(s: string, sep: char)
    requires sep !in s
    ensures Split(s, sep) == [s]
    decreases |s|
  {
    if |s| > 0 {
      assert sep !in s[1..] by {
        forall i | 0 <= i < |s[1..]| ensures s[1..][i] != sep { assert s[1..][i] == s[i + 1]; }
      }
      SplitWithoutSep(s[1..], sep);
      assert s == [s[0]] + s[1..];
    }
  }

  /** Splitting `a + sep + t`, where `a` holds no separator, yields `a` first. */
  lemma {:induction false} SplitAtSep(a: string, sep: char, t: string)
    requires sep !in a
    ensures Split(a + [sep] + t, sep) == [a] + Split(t, sep)
    decreases |a|
  {
    if |a| == 0 {
      assert a + [sep] + t == [sep] + t;
      assert ([sep] + t)[1..] == t;
    } else {
      var s := a + [sep] + t;
      assert sep !in a[1..] by {
        forall i | 0 <= i < |a[1..]| ensures a[1..][i] != sep { assert a[1..][i] == a[i + 1]; }
      }
      assert s[1..] == a[1..] + [sep] + t;
      SplitAtSep(a[1..], sep, t);
      assert s[0] == a[0];
      assert [a[0]] + a[1..] == a;
    }
  }

  /** Splitting the join of separator-free pieces gives the pieces back. */
  lemma {:induction false} SplitJoin(pieces: seq<string>, sep: char)
    requires |pieces| > 0
    requires forall k :: 0 <= k < |pieces| ==> sep !in pieces[k]
    ensures Split(Join(pieces, [sep]), sep) == pieces
    decreases |pieces|
  {
    if |pieces| == 1 {
      SplitWithoutSep(pieces[0], sep);
    } else {
      SplitJoin(pieces[1..], sep);
      SplitAtSep(pieces[0], sep, Join(pieces[1..], [sep]));
      assert pieces == [pieces[0]] + pieces[1..];
    }
  }
}
