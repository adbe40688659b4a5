# openctp-rs binding rewriter, modelled in Dafny

openctp-rs wraps the CTP market-data and trading C++ API for Rust. Its
`build.rs` runs bindgen over the C shim and post-processes the generated Rust
text. The shim exposes each C++ callback interface (an "SPI" family such as
`Rust_CThostFtdcMdSpi_Trait`) as one `extern "C"` block per callback slot.
`replace_trait` (build.rs:86-150) turns those blocks into Rust code:

- a `pub trait <family>`, with one default-bodied method per callback;
- one `#[no_mangle]` trampoline per callback; the trampoline recovers the
  boxed trait object from its handle and forwards the call;
- one `<family>_Drop` trampoline, which frees the trait object.

`camel_to_snake` (build.rs:79-83) names the trait methods.

The project models both functions in Dafny and proves what they promise.

- `text.dfy` (`Text`) holds the ASCII classes behind the regexes:
  - `[A-Z]`, `[a-z]`, `\w`, `\s` and `.`;
  - `str::trim`, `split(',')`, `join` and `ends_with`.
- `errors.dfy` (`Errors`) holds `Option`, `Result` and `BuildError`. Each panic
  of the source becomes an error value:
  - `NotFound` is the `assert!` at build.rs:95;
  - `MalformedParam` is the `unwrap` at build.rs:101;
  - `MissingHandle` is the `args[0]` index at build.rs:106;
  - `HandleNotVoid` is the `assert!` at build.rs:106.
- `naming.dfy` (`Naming`) models `camel_to_snake`. Each `replace_all` pass is
  written as the left-to-right scan it performs: leftmost match, no
  overlaps, and scanning resumes after the match. An ASCII lower-casing
  follows.
- `bindings.dfy` (`Bindings`) models the bindgen output as a sequence of
  items. An item is either verbatim text or one `extern "C" { pub fn ... }`
  block. This file also holds what the block pattern (build.rs:89-90) and
  the argument pattern (build.rs:91) extract from those items.
- `codegen.dfy` (`Codegen`) holds:
  - the `format!` templates, character for character;
  - the outcome of one slot: skipped, emitted, or a panic;
  - the fold over a family's blocks.
- `rewrite.dfy` (`Rewrite`) follows the source's two loops:
  - `ReplaceTrait` is the outer loop over the families; it reassigns the
    buffer on each pass.
  - `CollectSlots` is the inner loop over the matched blocks; it pushes onto
    `exports` and `traitFns` and uses `continue` for the destructor slot.
  - Both methods are proved equal to the functional definitions
    `ReplaceTraits` and `Synthesize`. The lemmas state the properties of
    those functions.

Two facts about the code shape the model:

- The block pattern at build.rs:90 matches only an `extern "C"` block that
  holds exactly one `pub fn`. Each such block is one `ExternFn` item; any
  other text, including a block with several functions, is `Verbatim`.
- The per-slot trampoline keeps the block's own name `<family>_<slot>`, with
  the original slot `fname` (build.rs:114). Only the trait method takes the
  snake-case name (build.rs:117, 125).

## Model

| member | source | states |
|---|---|---|
| Text.Split | build.rs:98 | `str::split(',')` gives at least one piece and no piece holds the separator; `JoinSplit` and `SplitJoin` prove it the inverse of `Join` |
| Text.Join | build.rs:110-111 | `join(", ")`; built on by `JoinSplit`, `SplitJoin` and `ForwardedArgsNames` |
| Text.Trim | build.rs:97-100 | `str::trim`: leading and trailing whitespace removed; `TrimEmptyIffBlank` says when the result is empty |
| Text.TrimEmptyIffBlank | build.rs:98-100 | a piece trims to the empty string exactly when it is all whitespace, so the filter drops exactly the blank pieces |
| Text.JoinSplit | build.rs:98 | joining the pieces of `split(',')` with `,` gives back the split text |
| Text.SplitJoin | build.rs:98 | splitting a `,`-join of comma-free pieces gives back those pieces |
| Naming.SplitWords | build.rs:80 | pass 1; its properties are proved in `SplitWordsInserts`, `SplitWordsWithoutUpper`, `SplitWordsCopies`, `SplitWordsMatch` and `SplitWordsOnWords` |
| Naming.SplitCase | build.rs:81 | pass 2 keeps the first character of non-empty text; its other properties are proved in `SplitCaseInserts`, `SplitCaseWithoutUpper`, `SplitCaseSeparatesAll`, `SplitCaseLowers` and `SplitCaseOnAlternate` |
| Naming.ToLower | build.rs:82 | `to_lowercase` keeps the length; each upper-case letter becomes the lower-case letter at the same place in the alphabet, and every other character is kept |
| Naming.CamelToSnake | build.rs:79-83 | the snake name contains no upper-case letter |
| Naming.SplitWordsInserts | build.rs:80 | pass 1 only inserts `_` characters; nothing is removed, changed or reordered |
| Naming.SplitCaseInserts | build.rs:81-82 | pass 2 only inserts `_` characters |
| Naming.CamelToSnakeInsertsUnderscores | build.rs:79-83 | the result is the lower-cased input with zero or more `_` inserted |
| Naming.SplitWordsWithoutUpper | build.rs:80 | pass 1 leaves text without upper-case letters unchanged |
| Naming.SplitCaseWithoutUpper | build.rs:81 | pass 2 leaves text without upper-case letters unchanged |
| Naming.CamelToSnakeWithoutUpper | build.rs:79-83 | a name without upper-case letters is returned unchanged |
| Naming.CamelToSnakeIdempotent | build.rs:79-83 | applying the transformation twice gives the same result as applying it once |
| Naming.SplitCaseSeparatesAll | build.rs:81 | after pass 2, no lower-case letter or digit is directly followed by an upper-case letter |
| Naming.CamelToSnakeOfWord | build.rs:79-83 | a `\w+` slot name becomes a `\w+` method name made only of lower-case letters, digits and `_` |
| Naming.SplitWordsCopies | build.rs:80 | pass 1 copies, unchanged, a prefix in which its pattern cannot start |
| Naming.SplitWordsMatch | build.rs:80 | pass 1 puts `_` between a character and the capitalised word after it, takes the word's whole lower-case run, and resumes after it |
| Naming.SplitWordsOnWords | build.rs:80 | on a run of capitalised words, pass 1 inserts `_` before every second word, because each match consumes the lower-case run it splits off |
| Naming.SplitCaseLowers | build.rs:81 | pass 2 copies a lower-case run, and puts `_` after it only when an upper-case letter follows |
| Naming.SplitCaseOnAlternate | build.rs:81 | pass 2 puts `_` at each remaining word boundary left by pass 1, so every capitalised word is separated |
| Naming.CamelToSnakeOfWords | build.rs:79-83 | capitalised words run together become those words joined with `_` and lower-cased |
| Naming.CamelToSnakeExamples | build.rs:79-83 | `OnFrontConnected`, `OnFrontDisconnected`, `OnRspUserLogin`, `OnRtnDepthMarketData`, `OnRspSubMarketData` and `Drop` map to `on_front_connected`, `on_front_disconnected`, `on_rsp_user_login`, `on_rtn_depth_market_data`, `on_rsp_sub_market_data` and `drop` |
| Bindings.Matches | build.rs:96 | `captures_iter` finds no more blocks than the buffer has items; their order and contents are stated by `MatchesAppend`, `MatchesVerbatim` and `SlotOf` |
| Bindings.Remaining | build.rs:144 | `replace_all(&buf, "")`; `RemainingIsFilter` and `RemainingHasNoMatches` state what it keeps and deletes |
| Bindings.ArgAt | build.rs:91 | the argument pattern tried at one position; `ArgAtWellFormed` and `ArgAtRendered` state what it captures |
| Bindings.SlotOf | build.rs:89-90 | a recognised block name is `<family>_<slot>` with the slot a `\w+` word |
| Bindings.SlotOfDeclared | build.rs:89-90 | every `<family>_<word>` name is recognised, with that word as its slot |
| Bindings.MatchesAppend | build.rs:96 | the matches of two joined buffers are the matches of the first followed by those of the second, in buffer order |
| Bindings.MatchesVerbatim | build.rs:89-90 | text that is not an extern block never matches |
| Bindings.RemainingIsFilter | build.rs:144 | deleting the blocks keeps every other item, in order; it leaves no block of the family; it removes exactly as many items as there were matches |
| Bindings.RemainingHasNoMatches | build.rs:144 | after the deletion, the family's pattern finds nothing |
| Bindings.RemainingKeepsNoMatches | build.rs:144 | deleting one family's blocks cannot create blocks of another family |
| Bindings.RemainingKeepsOtherMatches | build.rs:144 | deleting one family's blocks leaves the matches of a family that shares no block with it exactly as they were |
| Bindings.ArgAtWellFormed | build.rs:91 | a captured parameter has a word as its name, and a type free of line feeds and commas that does not start with whitespace |
| Bindings.ParseArg | build.rs:101 | a match of the argument pattern in a comma-free piece is a well-formed parameter |
| Bindings.ParseAll | build.rs:98-102 | the parsed parameters are well formed, and there are no more of them than pieces |
| Bindings.ParseArgs | build.rs:98-102 | every parameter of the `args` vector is well formed |
| Bindings.ParseAllFails | build.rs:98-102 | parsing fails exactly when some non-blank piece does not match the argument pattern |
| Bindings.BlankParams | build.rs:98-100 | an all-whitespace parameter text gives an empty `args` vector |
| Bindings.ParseAllBlank | build.rs:98-102 | any number of blank pieces gives an empty `args` vector |
| Bindings.ArgAtRendered | build.rs:91 | the argument pattern reads a rendered `name: type`, after any whitespace, back as the same parameter |
| Bindings.ParseArgsRendered | build.rs:98-110 | parsing a rendered parameter list `p1: t1, p2: t2, ...` gives back exactly those parameters |
| Codegen.Trampoline | build.rs:113-119 | the exported trampoline template; `SlotEmitted` states its signature line and its forwarding call |
| Codegen.TraitFn | build.rs:125 | the trait method template; `SlotEmitted` states its name, its parameters, its return clause and its empty body |
| Codegen.DropFn | build.rs:139-143 | the destructor trampoline `<family>_Drop`; `KeptNotDrop` shows that no slot trampoline has that name |
| Codegen.Tail | build.rs:132-143 | the text appended after the buffer; `RewriteFamilyOk` places it after the remaining items |
| Codegen.GenerateSlot | build.rs:97-126 | the outcome of one block; `SlotEmittedIff`, `SlotSkippedIff`, `SlotErrorKinds`, `SlotMalformed`, `SlotWithoutParams`, `SlotHandleNotVoid` and `SlotEmitted` state it case by case |
| Codegen.Synthesize | build.rs:96-127 | the loop over a family's blocks; `SynthesizeOkIff`, `SynthesizeFirstErr` and `SynthesizeKept` state its result, and `CollectSlots` is proved equal to it |
| Codegen.Combine | build.rs:105-126 | a loop step succeeds exactly when the loop so far and the current slot both succeed |
| Codegen.SlotMalformed | build.rs:98-102 | a malformed parameter piece is a `MalformedParam` panic, even in the destructor slot, because the pieces are parsed before the slot is looked at |
| Codegen.SlotDrop | build.rs:105 | the destructor slot is skipped without the handle check |
| Codegen.SlotWithoutParams | build.rs:98-106 | a non-destructor slot whose parameter pieces are all blank (an empty list, whitespace, or only commas and whitespace) panics at `args[0]` |
| Codegen.SlotHandleNotVoid | build.rs:106 | a non-destructor slot whose first parameter type, trimmed, does not end in `c_void` panics |
| Codegen.SlotEmittedIff | build.rs:97-127 | a slot emits a trampoline and a trait method exactly when its parameters parse, it is not the destructor, and its first parameter type ends in `c_void` |
| Codegen.SlotSkippedIff | build.rs:105 | a slot that does not panic is skipped exactly when its snake name is `drop` |
| Codegen.SlotErrorKinds | build.rs:98-106 | a slot fails only with a malformed piece, a missing handle or a non-`c_void` handle |
| Codegen.SlotCheckFails | build.rs:106 | once the parameters parse, a slot fails only at the handle checks |
| Codegen.HandleWellFormed | build.rs:109 | the handle parameter `trait_obj` is well formed |
| Codegen.HandleIsVoid | build.rs:106-109 | the handle's type passes the `c_void` check |
| Codegen.TrampolineParamsParse | build.rs:108-110 | the trampoline's parameter list parses back to the handle and then the slot's parameters after the first, unchanged, and its first parameter passes the `c_void` check |
| Codegen.TraitFnParamsParse | build.rs:122-124 | the trait method's parameter list is `&mut self`, followed, when there are other parameters, by `,` and a list that parses back to exactly those parameters |
| Codegen.ForwardedArgsNames | build.rs:111-117 | splitting the forwarded argument list at `,` and trimming each piece gives back the parameter names, in order |
| Codegen.SlotEmitted | build.rs:113-125 | an emitted trampoline starts with `#[no_mangle]` and the signature `pub extern "C" fn <family>_<slot>(<handle and other parameters>)<ret> {`, and ends by calling the snake-case method with the forwarded names; the trait method starts `    fn <snake name>(<trait parameters>)<ret>`, where the trait parameters are `&mut self` and then the same parameters as the trampoline after its handle (`SlotSignatures` proves that they parse back), and it ends with the empty body `{  }` |
| Codegen.SlotSignatures | build.rs:108-125 | the trampoline takes the handle, then the block's parameters after the first; the trait method takes `&mut self`, then the same parameters |
| Codegen.CollectErrPersists | build.rs:96-127 | once the fold over outcomes has panicked, its result stays that panic |
| Codegen.SynthesizeErrPersists | build.rs:96-127 | once the loop has panicked, the rest of the blocks change nothing |
| Codegen.CollectOkIff | build.rs:96-127 | the fold succeeds exactly when no outcome is a panic |
| Codegen.SynthesizeOkIff | build.rs:96-127 | the loop succeeds exactly when every block is handled without a panic |
| Codegen.CollectFirstErr | build.rs:96-127 | the fold's panic is that of its first failing outcome |
| Codegen.SynthesizeFirstErr | build.rs:96-127 | the loop's panic is that of the first failing block, and every block before it succeeds |
| Codegen.SynthesizeNeverNotFound | build.rs:95-127 | the loop over blocks never reports a missing family |
| Codegen.CollectEmitted | build.rs:120-126 | both vectors hold one entry per emitted outcome, in order, and the two entries at each position come from the same slot |
| Codegen.EmittedOfKept | build.rs:105-126 | when exactly the destructor slots are skipped, the k-th emitted outcome comes from the k-th kept block |
| Codegen.SynthesizeKept | build.rs:96-130 | for K matched blocks of which D are destructor slots, `exports` and `traitfuns` each hold K - D entries, in match order, and the k-th entries are what the k-th non-destructor block generates |
| Codegen.KeptIsFilter | build.rs:105 | the kept blocks are exactly the non-destructor blocks, and their count plus the destructor count is the number of blocks |
| Codegen.KeptNotDrop | build.rs:105 | no kept slot is the destructor or is named `Drop`, so `<family>_Drop` is only ever the one destructor trampoline |
| Rewrite.RewriteFamily | build.rs:89-146 | a successful pass gives a non-empty buffer; `RewriteFamilyNotFound`, `RewriteFamilyOk` and `PassShape` state its result |
| Rewrite.ReplaceTraits | build.rs:88-149 | the outer loop over the families; `ReplaceTrait` is proved equal to it, and `ReplaceTraitsClean`, `ReplaceTraitsErrPersists` and `RepeatedTraitFails` state its result |
| Rewrite.ReplaceTrait | build.rs:86-150 | the method with two loops returns the rendered result of `ReplaceTraits`, or its panic |
| Rewrite.CollectSlots | build.rs:93-127 | the inner loop builds the vectors that `Synthesize` specifies, or stops at the same panic |
| Rewrite.RewriteFamilyNotFound | build.rs:95 | a pass fails with `NotFound` exactly when the buffer holds no block of the family |
| Rewrite.RewriteFamilyOk | build.rs:132-146 | a successful pass's text is the buffer without the family's blocks followed by the trait, the trampolines and the destructor; every other item is kept in order; no block of the family is left |
| Rewrite.PassShape | build.rs:132-144 | deleting the blocks and appending text keeps the other items in order, and leaves no block of the family |
| Rewrite.PassMatches | build.rs:132-144 | the appended text holds no block, so after a pass any family's blocks are those the deletion left |
| Rewrite.RewriteFamilyKeepsClean | build.rs:144 | a pass cannot bring back blocks of a family that had none |
| Rewrite.MainFamiliesDisjoint | build.rs:73 | rewriting the market-data family leaves the trading family's blocks exactly as they were |
| Rewrite.MainFamiliesShareNoBlock | build.rs:73 | no block belongs to both families that `main` passes in |
| Rewrite.MainFamiliesAreWords | build.rs:73 | both family names that `main` passes are plain `\w+` words, so pasting them unescaped into the pattern at build.rs:90 matches them literally |
| Rewrite.ReplaceTraitsErrPersists | build.rs:88-95 | once a pass has panicked, the build stops with that panic |
| Rewrite.ReplaceTraitsClean | build.rs:88-146 | after a successful rewrite, no block of any listed family is left |
| Rewrite.RepeatedTraitFails | build.rs:88-95 | listing a family twice fails the build, because its second pass finds no block |

## Left out

- `main` (build.rs:5-77) is not part of this model. It covers architecture and
  OS detection, the `cargo:` directives, the C++ compile, the bindgen call,
  the environment and `std::fs::write`, all of which are configuration, I/O
  and foreign calls. The buffer is a parameter, and the result is returned
  rather than written.
- The regex engine is not modelled. Only the observable behaviour of the
  patterns at build.rs:80-81 and 89-91 is modelled, on text already split into
  items:
  - an `extern "C"` block holding several functions, or no `pub`, is
    `Verbatim` text and never matches;
  - the block pattern's `[^)]*` and `[^;]*` are assumed to hold: parameter
    text without `)` and a return clause without `;`.
- Rewrite.PassMatches: `Verbatim` text, the generated text included, is taken
  to hold no extern block and no part of one, so it never matches and
  deleting a block never joins two pieces of text into a new block. In the
  source the next family's pattern runs over the real text of the previous
  output (build.rs:95-96). There this holds because the templates write
  `pub extern "C" fn` and never `extern "C" {`. `RewriteFamilyOk`,
  `RewriteFamilyKeepsClean`, `ReplaceTraitsClean`, `RepeatedTraitFails` and
  `RemainingKeepsNoMatches` rest on the same assumption.
- Rewrite.ReplaceTrait: family names are compared literally. build.rs:89-90
  pastes `trait_extern` into the regex unescaped. A name with regex
  metacharacters would match other names there (`A.B` also matches
  `AxB_Slot`), or make `Regex::new(..).unwrap()` panic (`Foo(`). The names
  `main` passes are plain words (`MainFamiliesAreWords`).
- Rewrite.RewriteFamily: the block pattern's trailing `\s*` also deletes any
  whitespace after a block's closing brace and line feed. The model keeps
  whitespace held in a following `Verbatim` item.
- Naming.CamelToSnake: only ASCII is modelled. Unicode `to_lowercase` and the
  Unicode classes of `\w`, `\s` and `.` are out of scope, since bindgen's
  identifiers for these slots are ASCII.
- The `trim()` of `fname` (build.rs:97) is an identity: the captured slot is a
  `\w+` word.
- The runtime meaning of the generated code is outside what the generator
  decides. This covers the raw-pointer casts, the double `Box`,
  `Box::from_raw` and the `unsafe` dereference (build.rs:115-116, 141-142).
  The model treats them as text.
- `examples/mdapi.rs` (an example client over vendor FFI, channels and the
  network) and `ctp/demo/ctpping.cpp` (a C++ network demo) are not part of
  this model.
