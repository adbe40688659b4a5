/** What `replace_trait` writes for one trait: a trampoline and a default trait
    method per slot (build.rs:97-127), and the trait declaration and the
    destructor trampoline that close the rewritten buffer (build.rs:129-146). */
module Codegen {
  import opened Text
  import opened Errors
  import opened Naming
  import opened Bindings

  /** The leading parameter of every trampoline (build.rs:109). */
  const Handle := Param("trait_obj", "*mut ::std::os::raw::c_void")

  /** The handle as build.rs:109 writes it, `trait_obj: *mut ::std::os::raw::c_void`. */
  const HandleDecl := RenderParam(Handle)

  /** The receiver that replaces the handle in a trait method (build.rs:123). */
  const SelfDecl := "&mut self"

  // ---------------------------------------------------------------------------
  // The `format!` templates, character for character.

  /** The exported trampoline of build.rs:112-119: it recovers the trait object
      from the handle and forwards the call to `callee`. */
  function Trampoline(family: string, slot: string, params: string, ret: string, callee: string, args: string): string
  {
    TrampolineHead(family, slot, params, ret) + TrampolineCast(family) + TrampolineCall(callee, args)
  }

  /** The attribute and the signature line (build.rs:113-114). */
  function TrampolineHead(family: string, slot: string, params: string, ret: string): string
  {
    "#[no_mangle]\npub extern \"C\" fn " + family + "_" + slot + "(" + params + ")" + ret + " {\n"
  }

  /** The two lines that recover the trait object from the handle (build.rs:115-116). */
  function TrampolineCast(family: string): string
  {
    "    let trait_obj = trait_obj as *mut Box<dyn " + family + ">;\n"
    + "    let trait_obj: &mut dyn " + family + " = unsafe { &mut **trait_obj };\n"
  }

  /** The forwarding call and the closing brace (build.rs:117-118). */
  function TrampolineCall(callee: string, args: string): string
  {
    "    trait_obj." + callee + "(" + args + ")\n}\n"
  }

  /** The default trait method of build.rs:125, with an empty body. */
  function TraitFn(callee: string, params: string, ret: string): string
  {
    "    fn " + callee + "(" + params + ")" + ret + " {  }"
  }

  /** The destructor trampoline of build.rs:139-143. */
  function DropFn(family: string): string
  {
    "#[no_mangle]\npub extern \"C\" fn " + family + "_Drop(trait_obj: *mut ::std::os::raw::c_void) {\n"
    + "    let trait_obj = trait_obj as *mut Box<dyn " + family + ">;\n"
    + "    let _r: Box<Box<dyn " + family + ">> = unsafe { Box::from_raw(trait_obj) };\n"
    + "}\n"
  }

  /** The `exports` and `traitfuns` vectors (build.rs:93-94). */
  datatype Lists = Lists(exports: seq<string>, traitFns: seq<string>)

  /** Everything build.rs:132-144 appends after the buffer with the blocks deleted. */
  function Tail(family: string, l: Lists): string
  {
    "\n#[allow(unused)]\npub trait " + family + " {\n" + Join(l.traitFns, "\n") + "\n}\n\n"
    + Join(l.exports, "\n") + "\n" + DropFn(family)
  }

  // ---------------------------------------------------------------------------
  // One slot (one iteration of the loop at build.rs:96-127).

  datatype Generated = Skipped | Emitted(trampoline: string, traitFn: string)

  /** The destructor slot, skipped at build.rs:105. */
  predicate IsDropSlot(m: Match)
  {
    CamelToSnake(m.slot) == "drop"
  }

  /** The parameter list of the trampoline: the handle, then the slot's own
      parameters after the first (build.rs:108-110). */
  function TrampolineParams(rest: seq<Param>): string
  {
    Join([HandleDecl] + RenderParams(rest), ", ")
  }

  /** The parameter list of the trait method (build.rs:122-124). */
  function TraitFnParams(rest: seq<Param>): string
  {
    Join([SelfDecl] + RenderParams(rest), ", ")
  }

  /** The argument list the trampoline forwards (build.rs:111). */
  function ForwardedArgs(rest: seq<Param>): string
  {
    Join(Names(rest), ", ")
  }

  /** The outcome of one matched block, failing where the source panics: all
      pieces are parsed first (build.rs:98-102), then the destructor slot is
      skipped (build.rs:105), then the first parameter must exist and be a
      `c_void` pointer (build.rs:106). */
  function GenerateSlot(family: string, m: Match): (r: Result<Generated>)
  {
    match ParseArgs(m.params)
    case Err(e) => Err(e)
    case Ok(args) =>
      var callee := CamelToSnake(m.slot);
      if callee == "drop" then Ok(Skipped)
      else if |args| == 0 then Err(MissingHandle(m.slot))
      else if !EndsWith(Trim(args[0].ty), "c_void") then Err(HandleNotVoid(m.slot))
      else
        Ok(Emit(family, m.slot, callee, args[1..], m.ret))
  }

  /** The trampoline and the trait method of a slot that passed its checks. */
  function Emit(family: string, slot: string, callee: string, rest: seq<Param>, ret: string): Generated
  {
    Emitted(
      Trampoline(family, slot, TrampolineParams(rest), ret, callee, ForwardedArgs(rest)),
      TraitFn(callee, TraitFnParams(rest), ret))
  }

  /** The two vectors after the loop has run over `ms`, or the first panic. */
  function Synthesize(family: string, ms: seq<Match>): Result<Lists>
  {
    Collect(Outcomes(family, ms))
  }

  /** The outcome of each block on its own. */
  function Outcomes(family: string, ms: seq<Match>): (gs: seq<Result<Generated>>)
    ensures |gs| == |ms|
  {
    seq(|ms|, i requires 0 <= i < |ms| => GenerateSlot(family, ms[i]))
  }

  /** The loop over the outcomes, in order. */
  function Collect(gs: seq<Result<Generated>>): Result<Lists>
    decreases |gs|
  {
    if |gs| == 0 then Ok(Lists([], []))
    else Combine(Collect(gs[..|gs| - 1]), gs[|gs| - 1])
  }

  /** One iteration: a skipped slot leaves the vectors alone, an emitted one
      pushes onto both (build.rs:120, 126), a panic ends the loop. */
  function Combine(acc: Result<Lists>, g: Result<Generated>): (r: Result<Lists>)
    ensures r.Ok? <==> acc.Ok? && g.Ok?
  {
    match acc
    case Err(e) => Err(e)
    case Ok(l) =>
      match g
      case Err(e) => Err(e)
      case Ok(Skipped) => Ok(l)
      case Ok(Emitted(x, t)) => Ok(Lists(l.exports + [x], l.traitFns + [t]))
  }

  /** The emitted outcomes, in order. */
  function EmittedOf(gs: seq<Result<Generated>>): seq<Generated>
    decreases |gs|
  {
    if |gs| == 0 then []
    else
      var g := gs[|gs| - 1];
      EmittedOf(gs[..|gs| - 1]) + (if g.Ok? && g.value.Emitted? then [g.value] else [])
  }

  /** The blocks that are not the destructor slot, in match order. */
  function Kept(ms: seq<Match>): (r: seq<Match>)
    ensures |r| <= |ms|
    decreases |ms|
  {
    if |ms| == 0 then []
    else Kept(ms[..|ms| - 1]) + (if IsDropSlot(ms[|ms| - 1]) then [] else [ms[|ms| - 1]])
  }

  /** How many of the blocks are the destructor slot, counted from the front. */
  function DropCount(ms: seq<Match>): nat
    decreases |ms|
  {
    if |ms| == 0 then 0 else (if IsDropSlot(ms[0]) then 1 else 0) + DropCount(ms[1..])
  }

  // ---------------------------------------------------------------------------
  // Failure conditions of one slot.

  /** A malformed piece stops the build even in the destructor slot, because the
      pieces are parsed before the slot is looked at. */
  lemma SlotMalformed(family: string, m: Match)
    requires ParseArgs(m.params).Err?
    ensures GenerateSlot(family, m) == Err(ParseArgs(m.params).error)
    ensures GenerateSlot(family, m).error.MalformedParam?
  {
    ParseAllErrorIsMalformed(Split(m.params, ','));
  }

  lemma {:induction false} ParseAllErrorIsMalformed(pieces: seq<string>)
    requires ParseAll(pieces).Err?
    ensures ParseAll(pieces).error.MalformedParam?
    decreases |pieces|
  {
    if |Trim(pieces[0])| == 0 {
      ParseAllErrorIsMalformed(pieces[1..]);
    } else if ParseArg(pieces[0]).Some? {
      ParseAllErrorIsMalformed(pieces[1..]);
    }
  }

  /** The destructor slot yields nothing and is not checked for a handle. */
  lemma SlotDrop(family: string, m: Match)
    requires ParseArgs(m.params).Ok? && IsDropSlot(m)
    ensures GenerateSlot(family, m) == Ok(Skipped)
  {
  }

  /** Any other slot whose parameter pieces are all blank fails at `args[0]`. */
  lemma SlotWithoutParams(family: string, m: Match)
    requires forall k :: 0 <= k < |Split(m.params, ',')| ==> IsBlank(Split(m.params, ',')[k])
    requires !IsDropSlot(m)
    ensures GenerateSlot(family, m) == Err(MissingHandle(m.slot))
  {
    ParseAllBlank(Split(m.params, ','));
  }

  /** Any other slot whose first parameter type, trimmed, does not end in `c_void` fails. */
  lemma SlotHandleNotVoid(family: string, m: Match)
    requires ParseArgs(m.params).Ok? && |ParseArgs(m.params).value| > 0 && !IsDropSlot(m)
    requires !EndsWith(Trim(ParseArgs(m.params).value[0].ty), "c_void")
    ensures GenerateSlot(family, m) == Err(HandleNotVoid(m.slot))
  {
  }

  /** A slot produces a trampoline exactly when its parameters parse, it is not
      the destructor, and its first parameter is a `c_void` pointer. */
  lemma SlotEmittedIff(family: string, m: Match)
    ensures GenerateSlot(family, m).Ok? && GenerateSlot(family, m).value.Emitted? <==>
      && ParseArgs(m.params).Ok?
      && !IsDropSlot(m)
      && |ParseArgs(m.params).value| > 0
      && EndsWith(Trim(ParseArgs(m.params).value[0].ty), "c_void")
  {
  }

  // ---------------------------------------------------------------------------
  // The shape of what one slot emits.

  lemma HandleWellFormed()
    ensures WellFormedParam(Handle)
  {
    assert IsWordChar(Handle.name[0]);
  }

  /** The handle passes the check of build.rs:106. */
  lemma HandleIsVoid()
    ensures EndsWith(Trim(Handle.ty), "c_void")
  {
    var ty := Handle.ty;
    assert ty[0] == '*' && ty[|ty| - 1] == 'd';
    TrimUnchanged(ty);
    assert ty[|ty| - 6..] == "c_void";
  }

  /** Parsing the trampoline's parameter list gives the handle followed by the
      slot's remaining parameters, unchanged. */
  lemma TrampolineParamsParse(rest: seq<Param>)
    requires forall i :: 0 <= i < |rest| ==> WellFormedParam(rest[i])
    ensures ParseArgs(TrampolineParams(rest)) == Ok([Handle] + rest)
    ensures EndsWith(Trim(ParseArgs(TrampolineParams(rest)).value[0].ty), "c_void")
  {
    var ps := [Handle] + rest;
    HandleWellFormed();
    HandleIsVoid();
    forall i | 0 <= i < |ps| ensures WellFormedParam(ps[i]) {
      if i > 0 {
        assert ps[i] == rest[i - 1];
      }
    }
    RenderHandleFirst(rest);
    ParseArgsRendered("", ps);
    assert "" + Join(RenderParams(ps), ", ") == Join(RenderParams(ps), ", ");
  }

  lemma RenderHandleFirst(rest: seq<Param>)
    ensures RenderParams([Handle] + rest) == [HandleDecl] + RenderParams(rest)
  {
  }

  /** The trait method takes `&mut self`, then the same parameters as the
      trampoline after its handle. */
  lemma TraitFnParamsParse(rest: seq<Param>)
    requires forall i :: 0 <= i < |rest| ==> WellFormedParam(rest[i])
    ensures |rest| == 0 ==> TraitFnParams(rest) == SelfDecl
    ensures |rest| > 0 ==> TraitFnParams(rest) == SelfDecl + "," + TraitFnParams(rest)[10..]
    ensures |rest| > 0 ==> ParseArgs(TraitFnParams(rest)[10..]) == Ok(rest)
  {
    if |rest| > 0 {
      var tail := Join(RenderParams(rest), ", ");
      assert ([SelfDecl] + RenderParams(rest))[1..] == RenderParams(rest);
      assert TraitFnParams(rest) == SelfDecl + ", " + tail;
      assert SelfDecl + ", " + tail == SelfDecl + "," + (" " + tail);
      assert (SelfDecl + ", " + tail)[10..] == " " + tail;
      ParseArgsRendered(" ", rest);
    }
  }

  /** The trampoline forwards the parameter names in order: splitting its
      argument list at `,` and trimming each piece gives them back. */
  lemma ForwardedArgsNames(rest: seq<Param>)
    requires forall i :: 0 <= i < |rest| ==> WellFormedParam(rest[i])
    ensures |rest| == 0 ==> ForwardedArgs(rest) == ""
    ensures |rest| > 0 ==> |Split(ForwardedArgs(rest), ',')| == |rest|
    ensures forall i :: 0 <= i < |rest| && i < |Split(ForwardedArgs(rest), ',')| ==>
      Trim(Split(ForwardedArgs(rest), ',')[i]) == rest[i].name
  {
    var ns := Names(rest);
    if |rest| > 0 {
      assert forall k :: 0 <= k < |ns| ==> IsWord(ns[k]);
      SplitCommaWords(ns);
      CommaWordsTrim(ns);
    }
  }

  /** What an emitted slot's text looks like: the trampoline is exported
      under the block's own name `<family>_<slot>`, takes the handle and the
      other parameters, keeps the return clause, and ends by forwarding the
      parameter names to the snake-case method; the trait method has the
      snake-case name, takes `&mut self` and then the same parameters as the
      trampoline after its handle (`SlotSignatures`), keeps the return clause
      and has an empty body. */
  lemma SlotEmitted(family: string, m: Match, x: string, t: string)
    requires GenerateSlot(family, m) == Ok(Emitted(x, t))
    ensures ParseArgs(m.params).Ok? && |ParseArgs(m.params).value| > 0 && !IsDropSlot(m)
    ensures var rest := ParseArgs(m.params).value[1..];
      && StartsWith(x, "#[no_mangle]\npub extern \"C\" fn " + family + "_" + m.slot + "(" + TrampolineParams(rest) + ")" + m.ret + " {\n")
      && EndsWith(x, "    trait_obj." + CamelToSnake(m.slot) + "(" + ForwardedArgs(rest) + ")\n}\n")
      && StartsWith(t, "    fn " + CamelToSnake(m.slot) + "(" + TraitFnParams(rest) + ")" + m.ret)
      && StartsWith(t, "    fn " + CamelToSnake(m.slot) + "(" + SelfDecl)
      && EndsWith(t, m.ret + " {  }")
  {
    var args := ParseArgs(m.params).value;
    var rest, callee := args[1..], CamelToSnake(m.slot);
    assert GenerateSlot(family, m) == Ok(Emit(family, m.slot, callee, rest, m.ret));
    TrampolineText(family, m.slot, TrampolineParams(rest), m.ret, callee, ForwardedArgs(rest));
    TraitFnText(callee, rest, m.ret);
  }

  lemma TrampolineText(family: string, slot: string, params: string, ret: string, callee: string, args: string)
    ensures StartsWith(Trampoline(family, slot, params, ret, callee, args), TrampolineHead(family, slot, params, ret))
    ensures EndsWith(Trampoline(family, slot, params, ret, callee, args), TrampolineCall(callee, args))
  {
    var h, c, f := TrampolineHead(family, slot, params, ret), TrampolineCast(family), TrampolineCall(callee, args);
    StartsWithConcat(h, c);
    StartsWithAppend(h + c, h, f);
    EndsWithConcat(h + c, f);
  }

  lemma TraitFnText(callee: string, rest: seq<Param>, ret: string)
    ensures StartsWith(TraitFn(callee, TraitFnParams(rest), ret), "    fn " + callee + "(" + TraitFnParams(rest) + ")" + ret)
    ensures StartsWith(TraitFn(callee, TraitFnParams(rest), ret), "    fn " + callee + "(" + SelfDecl)
    ensures EndsWith(TraitFn(callee, TraitFnParams(rest), ret), ret + " {  }")
  {
    var q := "    fn " + callee + "(";
    var z := SelfTail(rest);
    var w := q + TraitFnParams(rest) + ")";
    assert q + TraitFnParams(rest) == (q + SelfDecl) + z;
    StartsWithConcat(q + SelfDecl, z);
    StartsWithAppend(q + TraitFnParams(rest), q + SelfDecl, ")");
    StartsWithAppend(w, q + SelfDecl, ret);
    StartsWithAppend(w + ret, q + SelfDecl, " {  }");
    assert TraitFn(callee, TraitFnParams(rest), ret) == w + (ret + " {  }");
    StartsWithConcat(w + ret, " {  }");
    EndsWithConcat(w, ret + " {  }");
  }

  /** The trait method's parameter list is `&mut self` followed by the rest. */
  lemma SelfTail(rest: seq<Param>) returns (z: string)
    ensures TraitFnParams(rest) == SelfDecl + z
  {
    if |rest| == 0 {
      z := "";
      assert [SelfDecl] + RenderParams(rest) == [SelfDecl];
    } else {
      var ps := [SelfDecl] + RenderParams(rest);
      assert ps[1..] == RenderParams(rest);
      z := ", " + Join(RenderParams(rest), ", ");
    }
  }

  /** The trampoline takes the handle and then the block's parameters after the
      first, unchanged; the trait method takes `&mut self` and then the same ones. */
  lemma SlotSignatures(m: Match, args: seq<Param>)
    requires ParseArgs(m.params) == Ok(args) && |args| > 0
    ensures ParseArgs(TrampolineParams(args[1..])) == Ok([Handle] + args[1..])
    ensures |args| == 1 ==> TraitFnParams(args[1..]) == SelfDecl
    ensures |args| > 1 ==> ParseArgs(TraitFnParams(args[1..])[10..]) == Ok(args[1..])
  {
    var rest := args[1..];
    forall i | 0 <= i < |rest| ensures WellFormedParam(rest[i]) {
      assert rest[i] == args[i + 1];
    }
    TrampolineParamsParse(rest);
    TraitFnParamsParse(rest);
  }

  // ---------------------------------------------------------------------------
  // The whole loop.

  /** The loop's outcome on a prefix fixes its outcome on the next block. */
  lemma SynthesizeStep(family: string, ms: seq<Match>, k: nat)
    requires k < |ms|
    ensures Synthesize(family, ms[..k + 1]) == Combine(Synthesize(family, ms[..k]), GenerateSlot(family, ms[k]))
  {
    var gs := Outcomes(family, ms[..k + 1]);
    assert gs[..k] == Outcomes(family, ms[..k]);
  }

  /** Once the loop has panicked it stays panicked. */
  lemma {:induction false} CollectErrPersists(gs: seq<Result<Generated>>, k: nat)
    requires k <= |gs| && Collect(gs[..k]).Err?
    ensures Collect(gs) == Collect(gs[..k])
    decreases |gs| - k
  {
    if k < |gs| {
      assert gs[..k + 1][..k] == gs[..k];
      CollectErrPersists(gs, k + 1);
    } else {
      assert gs[..k] == gs;
    }
  }

  lemma SynthesizeErrPersists(family: string, ms: seq<Match>, k: nat)
    requires k <= |ms| && Synthesize(family, ms[..k]).Err?
    ensures Synthesize(family, ms) == Synthesize(family, ms[..k])
  {
    assert Outcomes(family, ms)[..k] == Outcomes(family, ms[..k]);
    CollectErrPersists(Outcomes(family, ms), k);
  }

  /** The loop completes exactly when every outcome is not a panic. */
  lemma {:induction false} CollectOkIff(gs: seq<Result<Generated>>)
    ensures Collect(gs).Ok? <==> forall i :: 0 <= i < |gs| ==> gs[i].Ok?
    decreases |gs|
  {
    if |gs| > 0 {
      var init := gs[..|gs| - 1];
      CollectOkIff(init);
      assert forall i :: 0 <= i < |init| ==> init[i] == gs[i];
    }
  }

  lemma OutcomesAt(family: string, ms: seq<Match>)
    ensures forall i :: 0 <= i < |ms| ==> Outcomes(family, ms)[i] == GenerateSlot(family, ms[i])
  {
  }

  /** The loop completes exactly when every block is handled without a panic. */
  lemma SynthesizeOkIff(family: string, ms: seq<Match>)
    ensures Synthesize(family, ms).Ok? <==> forall i :: 0 <= i < |ms| ==> GenerateSlot(family, ms[i]).Ok?
  {
    CollectOkIff(Outcomes(family, ms));
    OutcomesAt(family, ms);
  }

  /** A panic is the one of the first outcome that is a panic. */
  lemma {:induction false} CollectFirstErr(gs: seq<Result<Generated>>) returns (i: nat)
    requires Collect(gs).Err?
    ensures i < |gs| && gs[i] == Err(Collect(gs).error)
    ensures forall j :: 0 <= j < i ==> gs[j].Ok?
    decreases |gs|
  {
    var init := gs[..|gs| - 1];
    assert forall j :: 0 <= j < |init| ==> init[j] == gs[j];
    if Collect(init).Err? {
      i := CollectFirstErr(init);
    } else {
      CollectOkIff(init);
      i := |gs| - 1;
    }
  }

  /** A panic is the one of the first block that fails. */
  lemma SynthesizeFirstErr(family: string, ms: seq<Match>) returns (i: nat)
    requires Synthesize(family, ms).Err?
    ensures i < |ms| && GenerateSlot(family, ms[i]) == Err(Synthesize(family, ms).error)
    ensures forall j :: 0 <= j < i ==> GenerateSlot(family, ms[j]).Ok?
  {
    i := CollectFirstErr(Outcomes(family, ms));
    OutcomesAt(family, ms);
  }

  /** A slot fails only in one of its own three ways. */
  lemma SlotErrorKinds(family: string, m: Match)
    requires GenerateSlot(family, m).Err?
    ensures GenerateSlot(family, m).error.MalformedParam? || GenerateSlot(family, m) == Err(MissingHandle(m.slot))
      || GenerateSlot(family, m) == Err(HandleNotVoid(m.slot))
  {
    if ParseArgs(m.params).Err? {
      SlotMalformed(family, m);
    } else {
      SlotCheckFails(family, m);
    }
  }

  /** Once the parameters parse, a slot fails only at the handle check. */
  lemma SlotCheckFails(family: string, m: Match)
    requires ParseArgs(m.params).Ok? && GenerateSlot(family, m).Err?
    ensures GenerateSlot(family, m) == Err(MissingHandle(m.slot)) || GenerateSlot(family, m) == Err(HandleNotVoid(m.slot))
  {
  }

  /** So the loop over the blocks never reports a missing family. */
  lemma SynthesizeNeverNotFound(family: string, ms: seq<Match>)
    requires Synthesize(family, ms).Err?
    ensures !Synthesize(family, ms).error.NotFound?
  {
    var i := SynthesizeFirstErr(family, ms);
    SlotErrorKinds(family, ms[i]);
  }

  /** The vectors hold one entry per emitted outcome, in order. */
  lemma {:induction false} CollectEmitted(gs: seq<Result<Generated>>)
    requires Collect(gs).Ok?
    ensures var l, es := Collect(gs).value, EmittedOf(gs);
      && |l.exports| == |es| && |l.traitFns| == |es|
      && forall k :: 0 <= k < |es| ==> es[k] == Emitted(l.exports[k], l.traitFns[k])
    decreases |gs|
  {
    if |gs| > 0 {
      CollectEmitted(gs[..|gs| - 1]);
    }
  }

  /** When no outcome is a panic and exactly the destructor slots are skipped,
      the k-th emitted outcome is the outcome of the k-th kept block. */
  lemma {:induction false} EmittedOfKept(gs: seq<Result<Generated>>, ms: seq<Match>)
    requires |gs| == |ms|
    requires forall i :: 0 <= i < |ms| ==> gs[i].Ok? && (gs[i].value.Skipped? <==> IsDropSlot(ms[i]))
    ensures |EmittedOf(gs)| == |Kept(ms)|
    ensures forall k :: 0 <= k < |Kept(ms)| ==>
      exists i :: 0 <= i < |ms| && ms[i] == Kept(ms)[k] && gs[i] == Ok(EmittedOf(gs)[k])
    decreases |ms|
  {
    if |ms| > 0 {
      var n := |ms| - 1;
      var init, last, hs := ms[..n], ms[n], gs[..n];
      forall i | 0 <= i < n ensures hs[i].Ok? && (hs[i].value.Skipped? <==> IsDropSlot(init[i])) {
        assert hs[i] == gs[i] && init[i] == ms[i];
      }
      EmittedOfKept(hs, init);
      var before := EmittedOf(hs);
      if IsDropSlot(last) {
        EmittedOfSkipped(gs, before);
        assert Kept(ms) == Kept(init);
        forall k | 0 <= k < |Kept(ms)|
          ensures exists i :: 0 <= i < |ms| && ms[i] == Kept(ms)[k] && gs[i] == Ok(EmittedOf(gs)[k])
        {
          var i :| 0 <= i < n && init[i] == Kept(init)[k] && hs[i] == Ok(before[k]);
          assert ms[i] == init[i] && gs[i] == hs[i];
        }
      } else {
        EmittedOfEmitted(gs, before);
        assert Kept(ms) == Kept(init) + [last];
        forall k | 0 <= k < |Kept(ms)|
          ensures exists i :: 0 <= i < |ms| && ms[i] == Kept(ms)[k] && gs[i] == Ok(EmittedOf(gs)[k])
        {
          if k < |Kept(init)| {
            var i :| 0 <= i < n && init[i] == Kept(init)[k] && hs[i] == Ok(before[k]);
            assert ms[i] == init[i] && gs[i] == hs[i];
            assert Kept(ms)[k] == Kept(init)[k] && EmittedOf(gs)[k] == before[k];
          } else {
            assert ms[n] == Kept(ms)[k] && gs[n] == Ok(EmittedOf(gs)[k]);
          }
        }
      }
    }
  }

  lemma EmittedOfSkipped(gs: seq<Result<Generated>>, before: seq<Generated>)
    requires |gs| > 0 && EmittedOf(gs[..|gs| - 1]) == before
    requires gs[|gs| - 1].Ok? && gs[|gs| - 1].value.Skipped?
    ensures EmittedOf(gs) == before
  {
  }

  lemma EmittedOfEmitted(gs: seq<Result<Generated>>, before: seq<Generated>)
    requires |gs| > 0 && EmittedOf(gs[..|gs| - 1]) == before
    requires gs[|gs| - 1].Ok? && gs[|gs| - 1].value.Emitted?
    ensures EmittedOf(gs) == before + [gs[|gs| - 1].value]
  {
  }

  /** A slot that does not panic is skipped exactly when it is the destructor. */
  lemma SlotSkippedIff(family: string, m: Match)
    requires GenerateSlot(family, m).Ok?
    ensures GenerateSlot(family, m).value.Skipped? <==> IsDropSlot(m)
  {
  }

  /** For K blocks of which D are destructor slots, both vectors hold one entry
      for each of the K - D other slots, in match order. */
  lemma SynthesizeKept(family: string, ms: seq<Match>)
    requires Synthesize(family, ms).Ok?
    ensures var l := Synthesize(family, ms).value;
      && |l.exports| == |Kept(ms)| && |l.traitFns| == |Kept(ms)|
      && forall k :: 0 <= k < |Kept(ms)| ==> GenerateSlot(family, Kept(ms)[k]) == Ok(Emitted(l.exports[k], l.traitFns[k]))
  {
    var gs := Outcomes(family, ms);
    SynthesizeOkIff(family, ms);
    OutcomesAt(family, ms);
    CollectEmitted(gs);
    forall i | 0 <= i < |ms| ensures gs[i].Ok? && (gs[i].value.Skipped? <==> IsDropSlot(ms[i])) {
      SlotSkippedIff(family, ms[i]);
    }
    EmittedOfKept(gs, ms);
    var l := Synthesize(family, ms).value;
    forall k | 0 <= k < |Kept(ms)| ensures GenerateSlot(family, Kept(ms)[k]) == Ok(Emitted(l.exports[k], l.traitFns[k])) {
      var i :| 0 <= i < |ms| && ms[i] == Kept(ms)[k] && gs[i] == Ok(EmittedOf(gs)[k]);
    }
  }

  /** The kept blocks are exactly the blocks that are not the destructor slot,
      and there are as many of them as blocks less destructor slots. */
  lemma KeptIsFilter(ms: seq<Match>)
    ensures forall k :: 0 <= k < |Kept(ms)| ==> !IsDropSlot(Kept(ms)[k]) && Kept(ms)[k] in ms
    ensures forall i :: 0 <= i < |ms| && !IsDropSlot(ms[i]) ==> ms[i] in Kept(ms)
    ensures |Kept(ms)| + DropCount(ms) == |ms|
  {
    KeptOnlyKept(ms);
    KeptAllKept(ms);
    KeptCount(ms);
  }

  lemma {:induction false} KeptOnlyKept(ms: seq<Match>)
    ensures forall k :: 0 <= k < |Kept(ms)| ==> !IsDropSlot(Kept(ms)[k]) && Kept(ms)[k] in ms
    decreases |ms|
  {
    if |ms| > 0 {
      var init, last := ms[..|ms| - 1], ms[|ms| - 1];
      KeptOnlyKept(init);
      assert forall m :: m in init ==> m in ms;
    }
  }

  lemma {:induction false} KeptAllKept(ms: seq<Match>)
    ensures forall i :: 0 <= i < |ms| && !IsDropSlot(ms[i]) ==> ms[i] in Kept(ms)
    decreases |ms|
  {
    if |ms| > 0 {
      var init, last := ms[..|ms| - 1], ms[|ms| - 1];
      KeptAllKept(init);
      forall i | 0 <= i < |ms| && !IsDropSlot(ms[i]) ensures ms[i] in Kept(ms) {
        if i < |init| {
          assert ms[i] == init[i];
        }
      }
    }
  }

  lemma {:induction false} KeptCount(ms: seq<Match>)
    ensures |Kept(ms)| + DropCount(ms) == |ms|
    decreases |ms|
  {
    if |ms| > 0 {
      KeptCount(ms[..|ms| - 1]);
      DropCountLast(ms);
    }
  }

  /** Counting from the front or from the back agrees. */
  lemma {:induction false} DropCountLast(ms: seq<Match>)
    requires |ms| > 0
    ensures DropCount(ms) == DropCount(ms[..|ms| - 1]) + (if IsDropSlot(ms[|ms| - 1]) then 1 else 0)
    decreases |ms|
  {
    if |ms| > 1 {
      DropCountLast(ms[1..]);
      assert ms[1..][..|ms[1..]| - 1] == ms[..|ms| - 1][1..];
    }
  }

  /** No trait method is the destructor, and no per-slot trampoline is named
      `<family>_Drop`: the one destructor trampoline is the one `Tail` appends. */
  lemma KeptNotDrop(ms: seq<Match>)
    ensures forall k :: 0 <= k < |Kept(ms)| ==> CamelToSnake(Kept(ms)[k].slot) != "drop" && Kept(ms)[k].slot != "Drop"
  {
    KeptIsFilter(ms);
    CamelToSnakeExamples();
  }
}
