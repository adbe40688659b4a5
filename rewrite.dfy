/** `replace_trait` (build.rs:86-150): for each trait family in turn, delete
    the family's extern blocks from the buffer and append the trait, the
    trampolines and the destructor generated from them. */
module Rewrite {
  import opened Text
  import opened Errors
  import opened Naming
  import opened Bindings
  import opened Codegen

  /** The two families `main` passes to `replace_trait` (build.rs:73). */
  const MdSpi := "Rust_CThostFtdcMdSpi_Trait"
  const TraderSpi := "Rust_CThostFtdcTraderSpi_Trait"

  /** One pass of the outer loop: the buffer that replaces `buf`, or the panic. */
  function RewriteFamily(buf: seq<Item>, family: string): (r: Result<seq<Item>>)
    ensures r.Ok? ==> |r.value| > 0
  {
    var ms := Matches(buf, family);
    if |ms| == 0 then Err(NotFound(family))
    else
      match Synthesize(family, ms)
      case Err(e) => Err(e)
      case Ok(l) => Ok(Remaining(buf, family) + [Verbatim(Tail(family, l))])
  }

  /** The whole outer loop over `traits`, in order, stopping at the first panic. */
  function ReplaceTraits(buf: seq<Item>, traits: seq<string>): Result<seq<Item>>
    decreases |traits|
  {
    if |traits| == 0 then Ok(buf)
    else
      match ReplaceTraits(buf, traits[..|traits| - 1])
      case Err(e) => Err(e)
      case Ok(b) => RewriteFamily(b, traits[|traits| - 1])
  }

  /** The rewritten text, or the panic. */
  function Rendered(r: Result<seq<Item>>): Result<string>
  {
    match r
    case Err(e) => Err(e)
    case Ok(b) => Ok(Render(b))
  }

  // ---------------------------------------------------------------------------
  // The source's loops.

  /** `replace_trait` itself: each family's blocks are rewritten in turn, and
      the text of the final buffer is returned. */
  method ReplaceTrait(buf: seq<Item>, traits: seq<string>) returns (r: Result<string>)
    ensures r == Rendered(ReplaceTraits(buf, traits))
  {
    var cur := buf;
    for i := 0 to |traits|
      invariant ReplaceTraits(buf, traits[..i]) == Ok(cur)
    {
      var family := traits[i];
      assert traits[..i + 1][..i] == traits[..i];
      var ms := Matches(cur, family);
      if |ms| == 0 {
        ReplaceTraitsErrPersists(buf, traits, i + 1);
        return Err(NotFound(family));
      }
      var lists := CollectSlots(family, ms);
      if lists.Err? {
        ReplaceTraitsErrPersists(buf, traits, i + 1);
        return Err(lists.error);
      }
      cur := Remaining(cur, family) + [Verbatim(Tail(family, lists.value))];
    }
    assert traits[..|traits|] == traits;
    return Ok(Render(cur));
  }

  /** The loop of build.rs:96-127 over one family's blocks: parse the
      parameters, skip the destructor, check the handle, then push a
      trampoline and a trait method. */
  method CollectSlots(family: string, ms: seq<Match>) returns (r: Result<Lists>)
    ensures r == Synthesize(family, ms)
  {
    var exports: seq<string> := [];
    var traitFns: seq<string> := [];
    for k := 0 to |ms|
      invariant Synthesize(family, ms[..k]) == Ok(Lists(exports, traitFns))
    {
      var m := ms[k];
      SynthesizeStep(family, ms, k);
      var parsed := ParseArgs(m.params);
      if parsed.Err? {
        SynthesizeErrPersists(family, ms, k + 1);
        return Err(parsed.error);
      }
      var args := parsed.value;
      var callee := CamelToSnake(m.slot);
      if callee == "drop" {
        continue;
      }
      if |args| == 0 {
        SynthesizeErrPersists(family, ms, k + 1);
        return Err(MissingHandle(m.slot));
      }
      if !EndsWith(Trim(args[0].ty), "c_void") {
        SynthesizeErrPersists(family, ms, k + 1);
        return Err(HandleNotVoid(m.slot));
      }
      var rest := args[1..];
      var params := Join([HandleDecl] + RenderParams(rest), ", ");
      var forwarded := Join(Names(rest), ", ");
      exports := exports + [Trampoline(family, m.slot, params, m.ret, callee, forwarded)];
      var methodParams := Join([SelfDecl] + RenderParams(rest), ", ");
      traitFns := traitFns + [TraitFn(callee, methodParams, m.ret)];
    }
    assert ms[..|ms|] == ms;
    return Ok(Lists(exports, traitFns));
  }

  // ---------------------------------------------------------------------------
  // One family.

  /** A family with no block in the buffer stops the build (build.rs:95). */
  lemma RewriteFamilyNotFound(buf: seq<Item>, family: string)
    ensures RewriteFamily(buf, family) == Err(NotFound(family)) <==> |Matches(buf, family)| == 0
    ensures RewriteFamily(buf, family).Err? && RewriteFamily(buf, family).error.NotFound? ==> |Matches(buf, family)| == 0
  {
    if |Matches(buf, family)| > 0 && Synthesize(family, Matches(buf, family)).Err? {
      SynthesizeNeverNotFound(family, Matches(buf, family));
    }
  }

  /** A successful pass keeps every other item of the buffer in order, appends
      the generated text after it, and leaves no block of the family behind. */
  lemma RewriteFamilyOk(buf: seq<Item>, family: string)
    requires RewriteFamily(buf, family).Ok?
    ensures var b := RewriteFamily(buf, family).value;
      && |Matches(buf, family)| > 0
      && Synthesize(family, Matches(buf, family)).Ok?
      && Render(b) == Render(Remaining(buf, family)) + Tail(family, Synthesize(family, Matches(buf, family)).value)
      && IsSubsequence(b[..|b| - 1], buf)
      && Matches(b, family) == []
  {
    PassShape(buf, family, Tail(family, Synthesize(family, Matches(buf, family)).value));
  }

  /** What deleting the family's blocks and appending `t` does. */
  lemma PassShape(buf: seq<Item>, family: string, t: string)
    ensures var b := Remaining(buf, family) + [Verbatim(t)];
      && Render(b) == Render(Remaining(buf, family)) + t
      && IsSubsequence(b[..|b| - 1], buf)
      && Matches(b, family) == []
  {
    var b := Remaining(buf, family) + [Verbatim(t)];
    RenderAppend(Remaining(buf, family), [Verbatim(t)]);
    assert Render([Verbatim(t)]) == t + Render([]) by { assert [Verbatim(t)][1..] == []; }
    assert b[..|b| - 1] == Remaining(buf, family);
    RemainingIsFilter(buf, family);
    PassMatches(buf, family, t, family);
    RemainingHasNoMatches(buf, family);
  }

  /** The appended text holds no block, so the blocks after a pass are those
      the deletion left. */
  lemma PassMatches(buf: seq<Item>, family: string, t: string, other: string)
    ensures Matches(Remaining(buf, family) + [Verbatim(t)], other) == Matches(Remaining(buf, family), other)
  {
    MatchesAppend(Remaining(buf, family), [Verbatim(t)], other);
    MatchesVerbatim(t, other);
  }

  /** A pass cannot bring back blocks of a family that had none. */
  lemma RewriteFamilyKeepsClean(buf: seq<Item>, family: string, other: string)
    requires RewriteFamily(buf, family).Ok? && Matches(buf, other) == []
    ensures Matches(RewriteFamily(buf, family).value, other) == []
  {
    PassMatches(buf, family, Tail(family, Synthesize(family, Matches(buf, family)).value), other);
    RemainingKeepsNoMatches(buf, family, other);
  }

  /** The families of `main` share no block name, so rewriting the first leaves
      the blocks of the second exactly as they were. */
  lemma MainFamiliesDisjoint(buf: seq<Item>)
    requires RewriteFamily(buf, MdSpi).Ok?
    ensures Matches(RewriteFamily(buf, MdSpi).value, TraderSpi) == Matches(buf, TraderSpi)
  {
    MainFamiliesShareNoBlock(buf);
    PassMatches(buf, MdSpi, Tail(MdSpi, Synthesize(MdSpi, Matches(buf, MdSpi)).value), TraderSpi);
  }

  /** The families of `main` are plain words, so the block pattern that
      build.rs:89-90 builds by pasting them in unescaped reads them literally,
      as `SlotOf` does. */
  lemma MainFamiliesAreWords()
    ensures IsWord(MdSpi) && IsWord(TraderSpi)
  {
  }

  lemma MainFamiliesShareNoBlock(buf: seq<Item>)
    ensures Matches(Remaining(buf, MdSpi), TraderSpi) == Matches(buf, TraderSpi)
  {
    forall i | 0 <= i < |buf| ensures !(IsMatch(buf[i], MdSpi) && IsMatch(buf[i], TraderSpi)) {
      if IsMatch(buf[i], MdSpi) {
        NamesDiffer(buf[i].name);
      }
    }
    RemainingKeepsOtherMatches(buf, MdSpi, TraderSpi);
  }

  lemma NamesDiffer(name: string)
    requires |MdSpi| <= |name| && name[..|MdSpi|] == MdSpi
    ensures |name| < |TraderSpi| || name[..|TraderSpi|] != TraderSpi
  {
    assert name[15] == name[..|MdSpi|][15] == 'M';
    if |TraderSpi| <= |name| {
      assert name[..|TraderSpi|][15] == name[15];
    }
  }

  // ---------------------------------------------------------------------------
  // All families.

  lemma ReplaceTraitsStep(buf: seq<Item>, traits: seq<string>, i: nat)
    requires i < |traits|
    ensures ReplaceTraits(buf, traits[..i + 1]) ==
      match ReplaceTraits(buf, traits[..i])
      case Err(e) => Err(e)
      case Ok(b) => RewriteFamily(b, traits[i])
  {
    assert traits[..i + 1][..i] == traits[..i];
  }

  /** Once a pass has panicked, the build has stopped. */
  lemma {:induction false} ReplaceTraitsErrPersists(buf: seq<Item>, traits: seq<string>, i: nat)
    requires i <= |traits| && ReplaceTraits(buf, traits[..i]).Err?
    ensures ReplaceTraits(buf, traits) == ReplaceTraits(buf, traits[..i])
    decreases |traits| - i
  {
    if i < |traits| {
      ReplaceTraitsStep(buf, traits, i);
      ReplaceTraitsErrPersists(buf, traits, i + 1);
    } else {
      assert traits[..i] == traits;
    }
  }

  /** After a successful rewrite no block of any listed family is left. */
  lemma {:induction false} ReplaceTraitsClean(buf: seq<Item>, traits: seq<string>)
    requires ReplaceTraits(buf, traits).Ok?
    ensures forall i :: 0 <= i < |traits| ==> Matches(ReplaceTraits(buf, traits).value, traits[i]) == []
    decreases |traits|
  {
    if |traits| > 0 {
      var init, family := traits[..|traits| - 1], traits[|traits| - 1];
      ReplaceTraitsClean(buf, init);
      var b := ReplaceTraits(buf, init).value;
      var r := RewriteFamily(b, family).value;
      assert ReplaceTraits(buf, traits).value == r;
      CleanAfterPass(b, family, init);
      SplitLast(traits);
      CleanExtend(r, init, family);
    }
  }

  lemma SplitLast(s: seq<string>)
    requires |s| > 0
    ensures s == s[..|s| - 1] + [s[|s| - 1]]
  {
  }

  lemma CleanExtend(buf: seq<Item>, done: seq<string>, family: string)
    requires forall i :: 0 <= i < |done| ==> Matches(buf, done[i]) == []
    requires Matches(buf, family) == []
    ensures forall i :: 0 <= i < |done| + 1 ==> Matches(buf, (done + [family])[i]) == []
  {
    forall i | 0 <= i < |done| + 1 ensures Matches(buf, (done + [family])[i]) == [] {
      if i < |done| {
        assert (done + [family])[i] == done[i];
      }
    }
  }

  lemma CleanAfterPass(buf: seq<Item>, family: string, done: seq<string>)
    requires RewriteFamily(buf, family).Ok?
    requires forall i :: 0 <= i < |done| ==> Matches(buf, done[i]) == []
    ensures forall i :: 0 <= i < |done| ==> Matches(RewriteFamily(buf, family).value, done[i]) == []
    ensures Matches(RewriteFamily(buf, family).value, family) == []
  {
    RewriteFamilyOk(buf, family);
    forall i | 0 <= i < |done| ensures Matches(RewriteFamily(buf, family).value, done[i]) == [] {
      RewriteFamilyKeepsClean(buf, family, done[i]);
    }
  }

  /** Listing a family twice stops the build: its second pass finds no block. */
  lemma RepeatedTraitFails(buf: seq<Item>, traits: seq<string>, i: nat, j: nat)
    requires i < j < |traits| && traits[i] == traits[j]
    ensures ReplaceTraits(buf, traits).Err?
  {
    ReplaceTraitsStep(buf, traits, j);
    if ReplaceTraits(buf, traits[..j]).Ok? {
      ReplaceTraitsClean(buf, traits[..j]);
      assert traits[..j][i] == traits[j];
    }
    ReplaceTraitsErrPersists(buf, traits, j + 1);
  }
}
