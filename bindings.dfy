/** The bindgen output that `replace_trait` rewrites, and what its two regexes
    take out of it (build.rs:89-91, 96-103).

    The buffer is modelled as a sequence of items: an `ExternFn` is one block
    `extern "C" { pub fn <name>(<params>)<ret>; }` as bindgen prints it, and a
    `Verbatim` item is any other text. */
module Bindings {
  import opened Text
  import opened Errors

  datatype Item =
    | Verbatim(text: string)
    | ExternFn(name: string, params: string, ret: string)

  /** A block of the requested family: its slot (the `(\w+)` after
      `<family>_`), raw parameter text and raw return clause. */
  datatype Match = Match(slot: string, params: string, ret: string)

  /** One `name: type` parameter. */
  datatype Param = Param(name: string, ty: string)

  function RenderItem(item: Item): string
  {
    match item
    case Verbatim(t) => t
    case ExternFn(name, params, ret) => "extern \"C\" {\n    pub fn " + name + "(" + params + ")" + ret + ";\n}\n"
  }

  /** The buffer as text. */
  function Render(items: seq<Item>): string
    decreases |items|
  {
    if |items| == 0 then "" else RenderItem(items[0]) + Render(items[1..])
  }

  lemma {:induction false} RenderAppend(a: seq<Item>, b: seq<Item>)
    ensures Render(a + b) == Render(a) + Render(b)
    decreases |a|
  {
    if |a| == 0 {
      assert a + b == b;
    } else {
      assert (a + b)[1..] == a[1..] + b;
      RenderAppend(a[1..], b);
    }
  }

  // ---------------------------------------------------------------------------
  // The block pattern of build.rs:89-90.

  /** The slot of a declared function name for `family`: the pattern reads
      `<family>_(\w+)` right after `pub fn`, and `\s*\(` right after it, so the
      whole rest of the name after `<family>_` must be a word. */
  function SlotOf(name: string, family: string): (r: Option<string>)
    ensures r.Some? ==> name == family + "_" + r.value && IsWord(r.value)
  {
    if |family| + 1 < |name| && name[..|family|] == family && name[|family|] == '_'
       && IsWord(name[|family| + 1..])
    then Some(name[|family| + 1..])
    else None
  }

  /** A name built from the family and a word slot is recognised, with that slot. */
  lemma SlotOfDeclared(family: string, slot: string)
    requires IsWord(slot)
    ensures SlotOf(family + "_" + slot, family) == Some(slot)
  {
    var name := family + "_" + slot;
    assert name[..|family|] == family;
    assert name[|family| + 1..] == slot;
  }

  predicate IsMatch(item: Item, family: string)
  {
    item.ExternFn? && SlotOf(item.name, family).Some?
  }

  /** `pattern.captures_iter(&buf)`: the family's blocks, in buffer order. */
  function Matches(buf: seq<Item>, family: string): (ms: seq<Match>)
    ensures |ms| <= |buf|
    decreases |buf|
  {
    if |buf| == 0 then []
    else if IsMatch(buf[0], family) then
      [Match(SlotOf(buf[0].name, family).value, buf[0].params, buf[0].ret)] + Matches(buf[1..], family)
    else Matches(buf[1..], family)
  }

  /** `pattern.replace_all(&buf, "")`: the buffer with the family's blocks deleted. */
  function Remaining(buf: seq<Item>, family: string): (rest: seq<Item>)
    decreases |buf|
  {
    if |buf| == 0 then []
    else if IsMatch(buf[0], family) then Remaining(buf[1..], family)
    else [buf[0]] + Remaining(buf[1..], family)
  }

  /** `a` is `b` with some items deleted, the rest in their order. */
  ghost predicate IsSubsequence(a: seq<Item>, b: seq<Item>)
    decreases |b|
  {
    if |a| == 0 then true
    else if |b| == 0 then false
    else (a[0] == b[0] && IsSubsequence(a[1..], b[1..])) || IsSubsequence(a, b[1..])
  }

  /** Deleting the blocks keeps every other item, in order, and nothing else:
      no block of the family is left, and as many items went as there were matches. */
  lemma {:induction false} RemainingIsFilter(buf: seq<Item>, family: string)
    ensures IsSubsequence(Remaining(buf, family), buf)
    ensures forall i :: 0 <= i < |Remaining(buf, family)| ==> !IsMatch(Remaining(buf, family)[i], family)
    ensures |Remaining(buf, family)| + |Matches(buf, family)| == |buf|
    decreases |buf|
  {
    if |buf| > 0 {
      RemainingIsFilter(buf[1..], family);
      var rest := Remaining(buf[1..], family);
      if !IsMatch(buf[0], family) {
        assert Remaining(buf, family) == [buf[0]] + rest;
        assert ([buf[0]] + rest)[1..] == rest;
      } else {
        SubsequenceSkip(rest, buf);
      }
    }
  }

  lemma SubsequenceSkip(a: seq<Item>, b: seq<Item>)
    requires |b| > 0 && IsSubsequence(a, b[1..])
    ensures IsSubsequence(a, b)
  {
  }

  lemma {:induction false} MatchesAppend(a: seq<Item>, b: seq<Item>, family: string)
    ensures Matches(a + b, family) == Matches(a, family) + Matches(b, family)
    decreases |a|
  {
    if |a| == 0 {
      assert a + b == b;
    } else {
      assert (a + b)[1..] == a[1..] + b;
      assert (a + b)[0] == a[0];
      MatchesAppend(a[1..], b, family);
    }
  }

  /** Text that is not an extern block never matches. */
  lemma MatchesVerbatim(t: string, family: string)
    ensures Matches([Verbatim(t)], family) == []
  {
    assert [Verbatim(t)][1..] == [];
  }

  /** Deleting one family's blocks cannot create a block of another family. */
  lemma {:induction false} RemainingKeepsNoMatches(buf: seq<Item>, f: string, g: string)
    requires Matches(buf, g) == []
    ensures Matches(Remaining(buf, f), g) == []
    decreases |buf|
  {
    if |buf| > 0 {
      assert !IsMatch(buf[0], g);
      RemainingKeepsNoMatches(buf[1..], f, g);
      if !IsMatch(buf[0], f) {
        assert ([buf[0]] + Remaining(buf[1..], f))[1..] == Remaining(buf[1..], f);
      }
    }
  }

  /** After the deletion no block of the family is left to match. */
  lemma {:induction false} RemainingHasNoMatches(buf: seq<Item>, family: string)
    ensures Matches(Remaining(buf, family), family) == []
    decreases |buf|
  {
    if |buf| > 0 {
      RemainingHasNoMatches(buf[1..], family);
      if !IsMatch(buf[0], family) {
        assert ([buf[0]] + Remaining(buf[1..], family))[1..] == Remaining(buf[1..], family);
      }
    }
  }

  /** Deleting one family's blocks leaves the blocks of a family that no item
      shares with it exactly as they were. */
  lemma {:induction false} RemainingKeepsOtherMatches(buf: seq<Item>, f: string, g: string)
    requires forall i :: 0 <= i < |buf| ==> !(IsMatch(buf[i], f) && IsMatch(buf[i], g))
    ensures Matches(Remaining(buf, f), g) == Matches(buf, g)
    decreases |buf|
  {
    if |buf| > 0 {
      assert forall i :: 0 <= i < |buf[1..]| ==> buf[1..][i] == buf[i + 1];
      RemainingKeepsOtherMatches(buf[1..], f, g);
      if !IsMatch(buf[0], f) {
        assert ([buf[0]] + Remaining(buf[1..], f))[1..] == Remaining(buf[1..], f);
      } else {
        assert !IsMatch(buf[0], g);
      }
    }
  }

  // ---------------------------------------------------------------------------
  // The parameter list (build.rs:91, 98-102).

  /** What the extractor can produce for one parameter: the name a word, the
      type free of line feeds and commas and not starting with whitespace. */
  predicate WellFormedParam(p: Param)
  {
    && IsWord(p.name)
    && (forall i :: 0 <= i < |p.ty| ==> p.ty[i] != '\n' && p.ty[i] != ',')
    && (|p.ty| > 0 ==> !IsSpace(p.ty[0]))
  }

  /** `\s*(\w+)\s*:\s*(.*)\s*` tried at the start of `s`. Each greedy part can
      only succeed with its longest run, so this is the one way it can match. */
  function ArgAt(s: string): (r: Option<Param>)
  {
    var a := RunEnd(s, 0, IsSpace);
    ArgName(s, a, RunEnd(s, a, IsWordChar))
  }

  /** The name `(\w+)` spans `s[a..b]`. */
  function ArgName(s: string, a: nat, b: nat): (r: Option<Param>)
    requires a <= b <= |s|
  {
    if b == a then None else ArgColon(s, a, b, RunEnd(s, b, IsSpace))
  }

  /** The `:` must come at `s[c]`. */
  function ArgColon(s: string, a: nat, b: nat, c: nat): (r: Option<Param>)
    requires a <= b <= c <= |s|
  {
    if c == |s| || s[c] != ':' then None
    else ArgType(s, a, b, RunEnd(s, c + 1, IsSpace))
  }

  /** The type `(.*)` starts at `s[d]` and stops before the first line feed;
      the trailing `\s*` then matches nothing or whitespace, in either case
      leaving the capture as it is. */
  function ArgType(s: string, a: nat, b: nat, d: nat): (r: Option<Param>)
    requires a <= b <= d <= |s|
  {
    var e := RunEnd(s, d, IsNotNewline);
    Some(Param(s[a..b], s[d..e]))
  }

  /** The one match at the start of `s`, given where each part ends. */
  lemma ArgAtParts(s: string, a: nat, b: nat, c: nat, d: nat, e: nat)
    requires a == RunEnd(s, 0, IsSpace) && b == RunEnd(s, a, IsWordChar) && a < b
    requires c == RunEnd(s, b, IsSpace) && c < |s| && s[c] == ':'
    requires d == RunEnd(s, c + 1, IsSpace) && e == RunEnd(s, d, IsNotNewline)
    ensures ArgAt(s) == Some(Param(s[a..b], s[d..e]))
  {
  }

  /** When `ArgAt` matches, its name is a run of word characters at
      `s[a..b]` and its type the run up to a line feed at `s[d..e]`, where `d`
      follows the colon and the whitespace after it. */
  lemma ArgAtShape(s: string) returns (a: nat, b: nat, c: nat, d: nat, e: nat)
    requires ArgAt(s).Some?
    ensures a < b <= c < d <= e <= |s| && s[c] == ':'
    ensures b == RunEnd(s, a, IsWordChar) && d == RunEnd(s, c + 1, IsSpace) && e == RunEnd(s, d, IsNotNewline)
    ensures ArgAt(s) == Some(Param(s[a..b], s[d..e]))
  {
    a := RunEnd(s, 0, IsSpace);
    b := RunEnd(s, a, IsWordChar);
    c := RunEnd(s, b, IsSpace);
    d := RunEnd(s, c + 1, IsSpace);
    e := RunEnd(s, d, IsNotNewline);
    assert ArgAt(s) == ArgName(s, a, b);
    assert ArgName(s, a, b) == ArgColon(s, a, b, c);
    ArgAtParts(s, a, b, c, d, e);
  }

  /** What `ArgAt` captures satisfies `WellFormedParam`, commas aside. */
  lemma ArgAtWellFormed(s: string)
    requires ArgAt(s).Some? && ',' !in s
    ensures WellFormedParam(ArgAt(s).value)
  {
    var a, b, c, d, e := ArgAtShape(s);
    RunEndSpans(s, a, IsWordChar);
    RunEndSpans(s, c + 1, IsSpace);
    RunEndSpans(s, d, IsNotNewline);
    SlicesWellFormed(s, a, b, d, e);
  }

  lemma SlicesWellFormed(s: string, a: nat, b: nat, d: nat, e: nat)
    requires a < b <= d <= e <= |s| && ',' !in s
    requires forall k :: a <= k < b ==> IsWordChar(s[k])
    requires forall k :: d <= k < e ==> IsNotNewline(s[k])
    requires d < |s| ==> !IsSpace(s[d])
    ensures WellFormedParam(Param(s[a..b], s[d..e]))
  {
    var p := Param(s[a..b], s[d..e]);
    forall i | 0 <= i < |p.name| ensures IsWordChar(p.name[i]) { assert p.name[i] == s[a + i]; }
    forall i | 0 <= i < |p.ty| ensures p.ty[i] != '\n' && p.ty[i] != ',' { assert p.ty[i] == s[d + i]; }
    if |p.ty| > 0 { assert p.ty[0] == s[d]; }
  }

  /** `pattern_arg.captures(s)`: the pattern is not anchored, so the match is
      the one at the leftmost position where it succeeds. */
  function ParseArg(s: string): (r: Option<Param>)
    ensures r.Some? && ',' !in s ==> WellFormedParam(r.value)
    decreases |s|
  {
    match ArgAt(s)
    case Some(p) =>
      if ',' in s then Some(p)
      else ArgAtWellFormed(s); Some(p)
    case None =>
      if |s| == 0 then None
      else
        assert ',' !in s ==> ',' !in s[1..];
        ParseArg(s[1..])
  }

  /** The pieces after `split(',')`: blank ones are dropped (build.rs:98-100)
      and each other one must match the parameter pattern (build.rs:101). */
  function ParseAll(pieces: seq<string>): (r: Result<seq<Param>>)
    ensures r.Ok? && (forall k :: 0 <= k < |pieces| ==> ',' !in pieces[k]) ==>
      forall i :: 0 <= i < |r.value| ==> WellFormedParam(r.value[i])
    ensures r.Ok? ==> |r.value| <= |pieces|
    decreases |pieces|
  {
    if |pieces| == 0 then Ok([])
    else if |Trim(pieces[0])| == 0 then ParseAll(pieces[1..])
    else
      match ParseArg(pieces[0])
      case None => Err(MalformedParam(pieces[0]))
      case Some(p) =>
        match ParseAll(pieces[1..])
        case Err(e) => Err(e)
        case Ok(ps) => Ok([p] + ps)
  }

  /** The `args` vector of build.rs:98-102, or the panic of its `unwrap`. */
  function ParseArgs(raw: string): (r: Result<seq<Param>>)
    ensures r.Ok? ==> forall i :: 0 <= i < |r.value| ==> WellFormedParam(r.value[i])
  {
    ParseAll(Split(raw, ','))
  }

  /** Parsing fails exactly when some non-blank piece lacks the `name: type` shape. */
  lemma {:induction false} ParseAllFails(pieces: seq<string>)
    ensures ParseAll(pieces).Err? <==>
      exists k :: 0 <= k < |pieces| && !IsBlank(pieces[k]) && ParseArg(pieces[k]).None?
    decreases |pieces|
  {
    if |pieces| > 0 {
      ParseAllFails(pieces[1..]);
      TrimEmptyIffBlank(pieces[0]);
      if exists k :: 0 <= k < |pieces[1..]| && !IsBlank(pieces[1..][k]) && ParseArg(pieces[1..][k]).None? {
        var k :| 0 <= k < |pieces[1..]| && !IsBlank(pieces[1..][k]) && ParseArg(pieces[1..][k]).None?;
        assert pieces[k + 1] == pieces[1..][k];
      }
      if exists k :: 0 <= k < |pieces| && !IsBlank(pieces[k]) && ParseArg(pieces[k]).None? {
        var k :| 0 <= k < |pieces| && !IsBlank(pieces[k]) && ParseArg(pieces[k]).None?;
        if k > 0 { assert pieces[1..][k - 1] == pieces[k]; }
      }
    }
  }

  /** Pieces that are all blank give an empty parameter list, whatever their number. */
  lemma {:induction false} ParseAllBlank(pieces: seq<string>)
    requires forall k :: 0 <= k < |pieces| ==> IsBlank(pieces[k])
    ensures ParseAll(pieces) == Ok([])
    decreases |pieces|
  {
    if |pieces| > 0 {
      TrimEmptyIffBlank(pieces[0]);
      forall k | 0 <= k < |pieces[1..]| ensures IsBlank(pieces[1..][k]) {
        assert pieces[1..][k] == pieces[k + 1];
      }
      ParseAllBlank(pieces[1..]);
    }
  }

  /** An all-whitespace parameter text gives an empty parameter list. */
  lemma BlankParams(raw: string)
    requires IsBlank(raw)
    ensures ParseArgs(raw) == Ok([])
  {
    assert ',' !in raw by {
      forall i | 0 <= i < |raw| ensures raw[i] != ',' { assert IsSpace(raw[i]); }
    }
    SplitWithoutSep(raw, ',');
    TrimEmptyIffBlank(raw);
    assert [raw][1..] == [];
    assert ParseAll([raw]) == ParseAll([]);
  }

  // ---------------------------------------------------------------------------
  // Printing a parameter back (build.rs:108, 122) inverts the parsing.

  /** `format!("{}: {}", s.0, s.1)` */
  function RenderParam(p: Param): string
  {
    p.name + ": " + p.ty
  }

  function RenderParams(ps: seq<Param>): (r: seq<string>)
    ensures |r| == |ps|
    ensures forall i :: 0 <= i < |ps| ==> r[i] == RenderParam(ps[i])
  {
    seq(|ps|, i requires 0 <= i < |ps| => RenderParam(ps[i]))
  }

  function Names(ps: seq<Param>): (r: seq<string>)
    ensures |r| == |ps|
    ensures forall i :: 0 <= i < |ps| ==> r[i] == ps[i].name
  {
    seq(|ps|, i requires 0 <= i < |ps| => ps[i].name)
  }

  /** Where the name, the `: ` and the type sit in a printed parameter. */
  predicate Layout(s: string, lead: string, p: Param)
  {
    var a, b := |lead|, |lead| + |p.name|;
    && |s| == b + 2 + |p.ty|
    && s[a..b] == p.name
    && s[b + 2..|s|] == p.ty
    && (forall i :: 0 <= i < a ==> s[i] == lead[i])
    && (forall i :: a <= i < b ==> s[i] == p.name[i - a])
    && s[b] == ':' && s[b + 1] == ' '
    && (forall i :: b + 2 <= i < |s| ==> s[i] == p.ty[i - b - 2])
  }

  lemma RenderedLayout(lead: string, p: Param)
    ensures Layout(lead + RenderParam(p), lead, p)
  {
  }

  // Where each greedy part of the argument pattern stops in a printed parameter.

  lemma LayoutLead(s: string, lead: string, p: Param)
    requires IsBlank(lead) && WellFormedParam(p) && Layout(s, lead, p)
    ensures RunEnd(s, 0, IsSpace) == |lead|
  {
    RunEndExact(s, 0, IsSpace, |lead|);
  }

  lemma LayoutName(s: string, lead: string, p: Param)
    requires WellFormedParam(p) && Layout(s, lead, p)
    ensures RunEnd(s, |lead|, IsWordChar) == |lead| + |p.name|
  {
    RunEndExact(s, |lead|, IsWordChar, |lead| + |p.name|);
  }

  lemma LayoutColon(s: string, lead: string, p: Param)
    requires Layout(s, lead, p)
    ensures RunEnd(s, |lead| + |p.name|, IsSpace) == |lead| + |p.name|
  {
    RunEndExact(s, |lead| + |p.name|, IsSpace, |lead| + |p.name|);
  }

  lemma LayoutGap(s: string, lead: string, p: Param)
    requires WellFormedParam(p) && Layout(s, lead, p)
    ensures RunEnd(s, |lead| + |p.name| + 1, IsSpace) == |lead| + |p.name| + 2
  {
    RunEndExact(s, |lead| + |p.name| + 1, IsSpace, |lead| + |p.name| + 2);
  }

  lemma LayoutType(s: string, lead: string, p: Param)
    requires WellFormedParam(p) && Layout(s, lead, p)
    ensures RunEnd(s, |lead| + |p.name| + 2, IsNotNewline) == |s|
  {
    RunEndExact(s, |lead| + |p.name| + 2, IsNotNewline, |s|);
  }

  lemma ArgAtLayout(s: string, lead: string, p: Param)
    requires IsBlank(lead) && WellFormedParam(p) && Layout(s, lead, p)
    ensures ArgAt(s) == Some(p)
  {
    var b := |lead| + |p.name|;
    LayoutLead(s, lead, p);
    LayoutName(s, lead, p);
    LayoutColon(s, lead, p);
    LayoutGap(s, lead, p);
    LayoutType(s, lead, p);
    ArgAtParts(s, |lead|, b, b, b + 2, |s|);
  }

  /** A printed parameter, after any whitespace, parses back to itself. */
  lemma ArgAtRendered(lead: string, p: Param)
    requires IsBlank(lead) && WellFormedParam(p)
    ensures ArgAt(lead + RenderParam(p)) == Some(p)
  {
    RenderedLayout(lead, p);
    ArgAtLayout(lead + RenderParam(p), lead, p);
  }

  lemma LayoutNoComma(s: string, lead: string, p: Param)
    requires IsBlank(lead) && WellFormedParam(p) && Layout(s, lead, p)
    ensures ',' !in s
  {
    var b := |lead| + |p.name|;
    forall i | 0 <= i < |s| ensures s[i] != ',' {
      if i < |lead| {
        assert s[i] == lead[i] && IsSpace(lead[i]);
      } else if i < b {
        assert s[i] == p.name[i - |lead|] && IsWordChar(p.name[i - |lead|]);
      } else if i >= b + 2 {
        assert s[i] == p.ty[i - b - 2];
      }
    }
  }

  /** A printed parameter is one piece for `split(',')`, is not blank, and
      parses back to itself. */
  lemma PieceLayout(s: string, lead: string, p: Param)
    requires IsBlank(lead) && WellFormedParam(p) && Layout(s, lead, p)
    ensures ',' !in s && !IsBlank(s) && ParseArg(s) == Some(p)
  {
    ArgAtLayout(s, lead, p);
    LayoutNoComma(s, lead, p);
    assert s[|lead|] == p.name[0] && IsWordChar(p.name[0]);
  }

  /** One more parsed piece in front. */
  lemma ParseAllCons(piece: string, rest: seq<string>, p: Param, ps: seq<Param>)
    requires !IsBlank(piece) && ParseArg(piece) == Some(p) && ParseAll(rest) == Ok(ps)
    ensures ParseAll([piece] + rest) == Ok([p] + ps)
  {
    TrimEmptyIffBlank(piece);
    assert ([piece] + rest)[1..] == rest;
  }

  lemma LeadRegroup(lead: string, x: string, y: string)
    ensures lead + (x + ", " + y) == (lead + x) + [','] + (" " + y)
  {
  }

  lemma JoinRenderedStep(ps: seq<Param>)
    requires |ps| > 1
    ensures Join(RenderParams(ps), ", ") == RenderParam(ps[0]) + ", " + Join(RenderParams(ps[1..]), ", ")
  {
    assert RenderParams(ps)[1..] == RenderParams(ps[1..]);
  }

  /** A parsed piece followed by a comma and more parameter text. */
  lemma ParseArgsStep(raw: string, first: string, tail: string, p: Param, ps: seq<Param>)
    requires raw == first + [','] + tail && ',' !in first
    requires !IsBlank(first) && ParseArg(first) == Some(p) && ParseArgs(tail) == Ok(ps)
    ensures ParseArgs(raw) == Ok([p] + ps)
  {
    SplitAtSep(first, ',', tail);
    ParseAllCons(first, Split(tail, ','), p, ps);
  }

  /** A parsed piece alone. */
  lemma ParseArgsLast(raw: string, p: Param)
    requires ',' !in raw && !IsBlank(raw) && ParseArg(raw) == Some(p)
    ensures ParseArgs(raw) == Ok([p])
  {
    SplitWithoutSep(raw, ',');
    assert ParseAll([]) == Ok([]);
    ParseAllCons(raw, [], p, []);
    assert [raw] + [] == [raw];
    assert [p] + [] == [p];
  }

  /** Re-parsing the printed parameter list `p1: t1, p2: t2, ...` (after any
      leading whitespace) gives back the same parameters. */
  lemma {:induction false} ParseArgsRendered(lead: string, ps: seq<Param>)
    requires IsBlank(lead)
    requires forall i :: 0 <= i < |ps| ==> WellFormedParam(ps[i])
    ensures ParseArgs(lead + Join(RenderParams(ps), ", ")) == Ok(ps)
    decreases |ps|
  {
    if |ps| == 0 {
      assert lead + Join(RenderParams(ps), ", ") == lead;
      BlankParams(lead);
    } else {
      var first := lead + RenderParam(ps[0]);
      RenderedLayout(lead, ps[0]);
      PieceLayout(first, lead, ps[0]);
      if |ps| == 1 {
        assert lead + Join(RenderParams(ps), ", ") == first;
        ParseArgsLast(first, ps[0]);
        assert ps == [ps[0]];
      } else {
        var rest := Join(RenderParams(ps[1..]), ", ");
        JoinRenderedStep(ps);
        LeadRegroup(lead, RenderParam(ps[0]), rest);
        ParseArgsRendered(" ", ps[1..]);
        ParseArgsStep(lead + Join(RenderParams(ps), ", "), first, " " + rest, ps[0], ps[1..]);
        assert ps == [ps[0]] + ps[1..];
      }
    }
  }
}
