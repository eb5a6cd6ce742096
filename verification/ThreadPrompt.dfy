/** Assembling one review-thread prompt under a total byte budget.

    What is selected, sorted and cut is modelled; only wording is a parameter: the static part, and
    how the JSON of an inventory, a message, an anchor or an artifact is spelled. */
module ThreadPrompt {
  import opened Numbers
  import opened PromptSections
  import opened TextLines
  import opened Wrappers
  import opened Utf8
  import opened AnchorHunk

  const DEFAULT_TOTAL_PROMPT_BUDGET_BYTES := 64 * 1024
  const MAX_CHANGED_FILE_INVENTORY_BYTES := 16 * 1024
  const MAX_CHANGED_FILE_INVENTORY_COUNT := 256
  const MAX_ANCHOR_HUNK_LINES := 512
  const MAX_ANCHOR_HUNK_BYTES := 32 * 1024
  const MIN_ANCHOR_HUNK_BYTES := 1024
  const MAX_LATEST_MESSAGE_BYTES: nat := 16 * 1024
  const MAX_ANCHOR_LINE_BYTES: nat := 8 * 1024

  datatype PromptError = PromptError(reason: Reason, requiredBytes: int, budgetBytes: int)

  datatype Reason =
    | TotalBudgetInvalid | StableBudgetInvalid | InventoryCount | InventoryBytes | StableTooLarge
    | AnchorUnavailable | HunkUnavailable | ExcerptTooLarge | LineUnavailable | NoRoomForHunk | PromptTooLarge

  datatype Dynamic = Dynamic(text: string, hunkId: string, fileId: string, hunkSliced: bool)

  datatype DynamicFailure = DynamicFailure(reason: Reason, requiredBytes: int)

  datatype Prompt = Prompt(
    stablePrefix: string, dynamicSuffix: string,
    includedHunkIds: seq<string>, omittedHunkIds: seq<string>, omittedFileIds: seq<string>)

  /** The latest message and the anchor, each cut to its limit, with the text around them. */
  function Core(input: Input): string {
    if input.anchor.None? then ""
    else
      var anchor := input.anchor.value;
      var line := TruncatePromptText(anchor.lineContent, MAX_ANCHOR_LINE_BYTES, "DIFFDASH_ANCHOR_LINE_TRUNCATED");
      input.wording.core(MessageForPrompt(input.latest, MAX_LATEST_MESSAGE_BYTES), anchor.(lineContent := line))
  }

  /** Each optional section in turn, whole, where the budget still has room for it. */
  function WithSections(text: string, sections: seq<string>, budget: nat): (r: string)
    ensures text <= r
    ensures ByteLength(text) <= budget ==> ByteLength(r) <= budget
    ensures budget < ByteLength(text) ==> r == text
    decreases |sections|
  {
    if sections == [] then text else
      var candidate := text + "\n\n" + sections[0];
      ByteLengthConcat(text, "\n\n" + sections[0]);
      assert candidate == text + ("\n\n" + sections[0]);
      WithSections(if ByteLength(candidate) <= budget then candidate else text, sections[1..], budget)
  }

  function HunkOf(excerpt: Excerpt): Hunk
    requires 0 <= excerpt.anchorLineIndex
  {
    Hunk(excerpt.identity, excerpt.header, excerpt.lines, excerpt.anchorLineIndex,
         excerpt.omittedBefore, excerpt.omittedAfter)
  }

  function ExcerptBytes(excerpt: Excerpt): nat {
    ByteLength(JoinLines([excerpt.header] + excerpt.lines))
  }

  /** The excerpt's anchor line is the anchored line, marked as on the anchored side or unchanged. */
  predicate LineMatches(excerpt: Excerpt, anchor: Anchor): (matches: bool)
    ensures matches ==> 0 <= excerpt.anchorLineIndex < |excerpt.lines|
  {
    && 0 <= excerpt.anchorLineIndex < |excerpt.lines|
    && var line := excerpt.lines[excerpt.anchorLineIndex];
       && line != ""
       && (line[0] == (if anchor.onNewSide then '+' else '-') || line[0] == ' ')
       && line[1..] == anchor.lineContent
  }

  function HunkBudget(input: Input, budget: nat): int {
    var left := Room(input, budget);
    if left < MAX_ANCHOR_HUNK_BYTES then left else MAX_ANCHOR_HUNK_BYTES
  }

  /** What must hold of the required context, apart from the final size. */
  function Rejection(input: Input, budget: nat): (r: Option<Reason>)
    ensures r.Some? ==>
      r.value in {AnchorUnavailable, HunkUnavailable, ExcerptTooLarge, LineUnavailable, NoRoomForHunk}
  {
    if input.anchor.None? then Some(AnchorUnavailable)
    else if input.excerpt.None?
         || input.excerpt.value.fileId != input.anchor.value.fileId
         || input.excerpt.value.hunkId != input.anchor.value.hunkId then Some(HunkUnavailable)
    else if MAX_ANCHOR_HUNK_LINES < |input.excerpt.value.lines|
         || MAX_ANCHOR_HUNK_BYTES < ExcerptBytes(input.excerpt.value) then Some(ExcerptTooLarge)
    else if !LineMatches(input.excerpt.value, input.anchor.value) then Some(LineUnavailable)
    else if HunkBudget(input, budget) < MIN_ANCHOR_HUNK_BYTES then Some(NoRoomForHunk)
    else None
  }

  /** The room left for the hunk, before the cap on hunks is applied. */
  function Room(input: Input, budget: nat): int {
    budget - ByteLength(Core(input)) - 2
  }

  /** The hunk fits whole under the cap, or the slice without the anchor's text fits in the room. */
  ghost predicate HunkShowable(input: Input, budget: nat)
    requires Rejection(input, budget).None?
  {
    var hunk := HunkOf(input.excerpt.value);
    || FitsWhole(hunk, HunkBudget(input, budget))
    || SomeSliceFits(hunk, Room(input, budget))
  }

  /** The bytes without which the suffix is impossible. */
  ghost predicate Requires(input: Input, budget: nat, reason: Reason, required: int) {
    match reason
    case ExcerptTooLarge => input.excerpt.Some? && required == ExcerptBytes(input.excerpt.value)
    case NoRoomForHunk => required == ByteLength(Core(input)) + 2 + 1024
    case PromptTooLarge => Rejection(input, budget).None? ==> RequiresHunk(input, budget, required)
    case _ => required == 1024
  }

  ghost predicate RequiresHunk(input: Input, budget: nat, required: int)
    requires Rejection(input, budget).None?
  {
    exists hunkText :: IsRequired(input, budget, required, hunkText)
  }

  ghost predicate IsRequired(input: Input, budget: nat, required: int, hunkText: string)
    requires Rejection(input, budget).None?
  {
    var hunk, maxBytes := HunkOf(input.excerpt.value), HunkBudget(input, budget);
    && IsHunkText(hunk, maxBytes, !FitsWhole(hunk, maxBytes), hunkText)
    && required == ByteLength(Core(input)) + 2 + ByteLength(hunkText)
  }

  method BuildDynamicSuffix(input: Input, budget: nat) returns (result: Result<Dynamic, DynamicFailure>)
    // it succeeds exactly when the required context is there and the hunk can be shown
    ensures result.Ok? <==> Rejection(input, budget).None? && HunkShowable(input, budget)
    ensures result.Err? && result.error.reason in {NoRoomForHunk, PromptTooLarge} ==>
      budget < result.error.requiredBytes
    ensures result.Err? ==> Requires(input, budget, result.error.reason, result.error.requiredBytes)
    ensures result.Err? ==>
      result.error.reason == if Rejection(input, budget).Some? then Rejection(input, budget).value else PromptTooLarge
    ensures result.Ok? ==>
      && ByteLength(result.value.text) <= budget
      && result.value.hunkId == input.excerpt.value.hunkId
      && result.value.fileId == input.excerpt.value.fileId
      && (result.value.hunkSliced <==> !FitsWhole(HunkOf(input.excerpt.value), HunkBudget(input, budget)))
      && IsSuffix(
           input, input.excerpt.value, budget, HunkBudget(input, budget), result.value.hunkSliced, result.value.text)
  {
    hide ByteLength, Full, WindowText, AnchorText, SomeSliceFits, Shown, LineMatches, ExcerptBytes, AreOptionalSections;
    hide IsSuffix, IsRequired, FitsWhole;
    if input.anchor.None? {
      return Err(DynamicFailure(AnchorUnavailable, MIN_ANCHOR_HUNK_BYTES));
    }
    var anchor := input.anchor.value;
    if input.excerpt.None?
       || input.excerpt.value.fileId != anchor.fileId || input.excerpt.value.hunkId != anchor.hunkId {
      return Err(DynamicFailure(HunkUnavailable, MIN_ANCHOR_HUNK_BYTES));
    }
    var excerpt := input.excerpt.value;
    if MAX_ANCHOR_HUNK_LINES < |excerpt.lines| || MAX_ANCHOR_HUNK_BYTES < ExcerptBytes(excerpt) {
      return Err(DynamicFailure(ExcerptTooLarge, ExcerptBytes(excerpt)));
    }
    if !LineMatches(excerpt, anchor) {
      return Err(DynamicFailure(LineUnavailable, MIN_ANCHOR_HUNK_BYTES));
    }
    var maxBytes := HunkBudget(input, budget);
    if maxBytes < MIN_ANCHOR_HUNK_BYTES {
      return Err(DynamicFailure(NoRoomForHunk, ByteLength(Core(input)) + 2 + MIN_ANCHOR_HUNK_BYTES));
    }
    result := Assemble(input, budget, excerpt, maxBytes);
  }

  method Assemble(input: Input, budget: nat, excerpt: Excerpt, maxBytes: nat)
      returns (result: Result<Dynamic, DynamicFailure>)
    requires Rejection(input, budget).None?
    requires excerpt == input.excerpt.value && maxBytes == HunkBudget(input, budget)
    ensures result.Ok? <==> HunkShowable(input, budget)
    ensures result.Err? ==> result.error.reason == PromptTooLarge && budget < result.error.requiredBytes
    ensures result.Err? ==> RequiresHunk(input, budget, result.error.requiredBytes)
    ensures result.Ok? ==>
      && ByteLength(result.value.text) <= budget
      && result.value.hunkId == excerpt.hunkId && result.value.fileId == excerpt.fileId
      && (result.value.hunkSliced <==> !FitsWhole(HunkOf(excerpt), maxBytes))
      && IsSuffix(input, excerpt, budget, maxBytes, result.value.hunkSliced, result.value.text)
  {
    hide ByteLength, Full, WindowText, AnchorText, SomeSliceFits, Shown, LineMatches, ExcerptBytes, AreOptionalSections;
    hide AnchorReads, WindowReads, ReadsAs, Core;
    var hunk := HunkOf(excerpt);
    var rendered, sliced, start, end := RenderAnchorHunk(hunk, maxBytes);
    var text := Core(input) + "\n\n" + rendered;
    HunkRoom(Core(input), rendered);
    MoreRoom(hunk, maxBytes, Room(input, budget));
    if sliced && SomeSliceFits(hunk, maxBytes) {
      ShownFits(hunk, maxBytes, start, end);
    } else if sliced {
      EmptyAnchorLine(hunk, maxBytes, Room(input, budget));
    }
    assert IsHunkText(hunk, maxBytes, sliced, rendered);
    ghost var required := text;
    var sections := OptionalSections(input);
    var i := 0;
    while i < |sections|
      invariant 0 <= i <= |sections|
      invariant WithSections(text, sections[i..], budget) == WithSections(required, sections, budget)
    {
      var candidate := text + "\n\n" + sections[i];
      assert sections[i..][0] == sections[i] && sections[i..][1..] == sections[i + 1..];
      if ByteLength(candidate) <= budget {
        text := candidate;
      }
      i := i + 1;
    }
    assert text == WithSections(required, sections, budget);
    if budget < ByteLength(text) {
      assert IsRequired(input, budget, ByteLength(text), rendered);
      return Err(DynamicFailure(PromptTooLarge, ByteLength(text)));
    }
    result := Ok(Dynamic(text, excerpt.hunkId, excerpt.fileId, sliced));
  }

  lemma HunkRoom(core: string, rendered: string)
    ensures ByteLength(core + "\n\n" + rendered) == ByteLength(core) + 2 + ByteLength(rendered)
  {
    hide ByteLength;
    ByteLengthConcat(core, "\n\n");
    ByteLengthConcat(core + "\n\n", rendered);
    ByteLengthAscii("\n\n");
  }

  lemma ShownFits(hunk: Hunk, maxBytes: nat, start: nat, end: nat)
    requires hunk.Valid() && Shown(hunk, AnchorText(hunk, maxBytes), start, end, maxBytes)
    ensures ByteLength(WindowText(hunk, AnchorText(hunk, maxBytes), start, end)) <= maxBytes
  {
  }

  lemma MoreRoom(hunk: Hunk, maxBytes: nat, room: nat)
    requires hunk.Valid() && maxBytes <= room
    ensures SomeSliceFits(hunk, maxBytes) ==> SomeSliceFits(hunk, room)
  {
  }

  /** When no slice fits under the cap, the anchor line is shown without any of its text. */
  lemma EmptyAnchorLine(hunk: Hunk, maxBytes: nat, room: nat)
    requires hunk.Valid() && !SomeSliceFits(hunk, maxBytes)
    ensures AnchorText(hunk, maxBytes) == ""
    ensures var anchor := hunk.anchorLineIndex;
            SomeSliceFits(hunk, room) <==> ByteLength(WindowText(hunk, "", anchor, anchor + 1)) <= room
  {
    hide RenderSlice;
    var anchor := hunk.anchorLineIndex;
    AnchorTextFits(hunk, maxBytes);
    var text := AnchorText(hunk, maxBytes);
    assert hunk.lines[anchor := text][anchor..anchor + 1] == [text];
    assert hunk.lines[anchor := ""][anchor..anchor + 1] == [""];
  }

  /** The whole hunk when it is not reported as sliced; otherwise its one maximal centred window, or,
      if not even the anchor line fits under the cap, the anchor line without its text. */
  ghost predicate IsHunkText(hunk: Hunk, maxBytes: nat, sliced: bool, text: string)
    requires hunk.Valid()
  {
    if !sliced then text == Full(hunk)
    else if SomeSliceFits(hunk, maxBytes) then
      exists start: nat, end: nat ::
        && Shown(hunk, AnchorText(hunk, maxBytes), start, end, maxBytes)
        && text == WindowText(hunk, AnchorText(hunk, maxBytes), start, end)
    else text == WindowText(hunk, "", hunk.anchorLineIndex, hunk.anchorLineIndex + 1)
  }

  /** The required parts, then each optional section that still fits. */
  ghost predicate IsSuffix(input: Input, excerpt: Excerpt, budget: nat, maxBytes: nat, sliced: bool, text: string)
    requires 0 <= excerpt.anchorLineIndex < |excerpt.lines|
  {
    exists hunkText, sections ::
      && IsHunkText(HunkOf(excerpt), maxBytes, sliced, hunkText)
      && AreOptionalSections(input, sections)
      && text == WithSections(Core(input) + "\n\n" + hunkText, sections, budget)
  }

  /** Whenever the hunk can be shown, the whole hunk or its one centred window is shown, anchor line
      included, unless the line naming file and hunk is longer than 30 KiB. */
  lemma {:induction false} AnchorIsShown(input: Input, budget: nat)
    requires Rejection(input, budget).None? && HunkShowable(input, budget)
    requires input.excerpt.value.omittedBefore <= MAX_SAFE_INTEGER
    requires input.excerpt.value.omittedAfter <= MAX_SAFE_INTEGER
    ensures
      var hunk, maxBytes := HunkOf(input.excerpt.value), HunkBudget(input, budget);
      || FitsWhole(hunk, maxBytes)
      || SomeSliceFits(hunk, maxBytes)
      || (SHORT_IDENTITY_BYTES < ByteLength(hunk.identity) && MAX_ANCHOR_HUNK_BYTES < Room(input, budget))
  {
    hide ByteLength, Full, SomeSliceFits, LineMatches, ExcerptBytes, IsCut, Core, AnchorText, WindowText;
    var hunk := HunkOf(input.excerpt.value);
    if MAX_ANCHOR_HUNK_BYTES < Room(input, budget) && ByteLength(hunk.identity) <= SHORT_IDENTITY_BYTES {
      ShortIdentityFits(hunk, MAX_ANCHOR_HUNK_BYTES);
    }
  }

  predicate PositiveSafe(n: int) {
    0 < n <= MAX_SAFE_INTEGER
  }

  /** What is wrong with the budgets, the inventory or the static part, if anything. */
  function StableRejection(input: Input): Option<Reason> {
    var total := if input.totalBudget.None? then DEFAULT_TOTAL_PROMPT_BUDGET_BYTES else input.totalBudget.value;
    var stable := if input.stableBudget.None? then total else input.stableBudget.value;
    if !PositiveSafe(total) then Some(TotalBudgetInvalid)
    else if !PositiveSafe(stable) then Some(StableBudgetInvalid)
    else if input.inventory.totalFiles < |input.inventory.fileIds|
         || MAX_SAFE_INTEGER < input.inventory.totalFiles
         || MAX_CHANGED_FILE_INVENTORY_COUNT < |input.inventory.fileIds| then Some(InventoryCount)
    else if MAX_CHANGED_FILE_INVENTORY_BYTES < ByteLength(input.inventory.json) then Some(InventoryBytes)
    else if (if stable < total then stable else total) < ByteLength(input.stablePrefix) then Some(StableTooLarge)
    else None
  }

  function TotalBudget(input: Input): int {
    if input.totalBudget.None? then DEFAULT_TOTAL_PROMPT_BUDGET_BYTES else input.totalBudget.value
  }

  function OmittedFiles(fileIds: seq<string>, shown: Option<string>): seq<string> {
    if fileIds == [] then [] else
      (if shown == Some(fileIds[0]) then [] else [fileIds[0]]) + OmittedFiles(fileIds[1..], shown)
  }

  /* What a prompt holds, and when there is none */

  /** What makes a prompt impossible whatever the room, in the order in which it is looked for. */
  const FAULTS := [
    TotalBudgetInvalid, StableBudgetInvalid, InventoryCount, InventoryBytes, StableTooLarge,
    AnchorUnavailable, HunkUnavailable, ExcerptTooLarge, LineUnavailable]

  ghost predicate Fault(input: Input, reason: Reason) {
    var total := if input.totalBudget == None then 64 * 1024 else input.totalBudget.value;
    var stable := if input.stableBudget == None then total else input.stableBudget.value;
    match reason
    case TotalBudgetInvalid => !(0 < total <= 0x1f_ffff_ffff_ffff)
    case StableBudgetInvalid => !(0 < stable <= 0x1f_ffff_ffff_ffff)
    case InventoryCount =>
      var inventory := input.inventory;
      !(|inventory.fileIds| <= inventory.totalFiles <= 0x1f_ffff_ffff_ffff && |inventory.fileIds| <= 256)
    case InventoryBytes => ByteLength(input.inventory.json) > 16 * 1024
    case StableTooLarge => ByteLength(input.stablePrefix) > total || ByteLength(input.stablePrefix) > stable
    case AnchorUnavailable => input.anchor == None
    case HunkUnavailable =>
      input.anchor.Some? ==>
        input.excerpt.None? || (input.excerpt.value.fileId, input.excerpt.value.hunkId)
                               != (input.anchor.value.fileId, input.anchor.value.hunkId)
    case ExcerptTooLarge =>
      input.excerpt.Some? ==> |input.excerpt.value.lines| > 512 || ExcerptIsLong(input.excerpt.value)
    case LineUnavailable =>
      input.excerpt.Some? && input.anchor.Some? ==> !LineIsThere(input.excerpt.value, input.anchor.value)
    case _ => false
  }

  ghost predicate ExcerptIsLong(excerpt: Excerpt) {
    exists text :: ReadsAs(text, [excerpt.header] + excerpt.lines) && ByteLength(text) > 32 * 1024
  }

  /** The anchored line, marked as unchanged or as on the anchored side. */
  ghost predicate LineIsThere(excerpt: Excerpt, anchor: Anchor) {
    && 0 <= excerpt.anchorLineIndex < |excerpt.lines|
    && excerpt.lines[excerpt.anchorLineIndex]
       in {" " + anchor.lineContent, (if anchor.onNewSide then "+" else "-") + anchor.lineContent}
  }

  ghost predicate IsFirstFault(input: Input, reason: Reason) {
    exists k :: 0 <= k < |FAULTS| && FAULTS[k] == reason && Fault(input, reason)
      && forall j :: 0 <= j < k ==> !Fault(input, FAULTS[j])
  }

  ghost predicate Faultless(input: Input) {
    && input.anchor.Some? && input.excerpt.Some?
    && 0 <= input.excerpt.value.anchorLineIndex < |input.excerpt.value.lines|
    && forall k :: 0 <= k < |FAULTS| ==> !Fault(input, FAULTS[k])
  }

  /** The latest message and the anchor, each cut to its limit, as they are worded. */
  ghost predicate CoreReads(input: Input, core: string) {
    && input.anchor.Some?
    && exists latest, line ::
         && IsShownAs(input.latest, 16 * 1024, latest)
         && IsCut(input.anchor.value.lineContent, 8 * 1024, "DIFFDASH_ANCHOR_LINE_TRUNCATED", line)
         && core == input.wording.core(latest, input.anchor.value.(lineContent := line))
  }

  /** The whole hunk if nothing was omitted before and all of it fits into the room, 32 KiB at most;
      otherwise the one window for that room, or the anchor line alone without its text. */
  ghost predicate HunkReads(excerpt: Excerpt, room: nat, sliced: bool, text: string)
    requires 0 <= excerpt.anchorLineIndex < |excerpt.lines|
  {
    var maxBytes := if room < 32 * 1024 then room else 32 * 1024;
    var hunk := Hunk(excerpt.identity, excerpt.header, excerpt.lines, excerpt.anchorLineIndex,
                     excerpt.omittedBefore, excerpt.omittedAfter);
    if !sliced then
      && excerpt.omittedBefore == 0 && excerpt.omittedAfter == 0 && ByteLength(text) <= maxBytes
      && ReadsAs(text, [excerpt.identity, excerpt.header] + excerpt.lines)
    else
      && (excerpt.omittedBefore == 0 && excerpt.omittedAfter == 0 ==>
            exists full ::
              ReadsAs(full, [excerpt.identity, excerpt.header] + excerpt.lines) && maxBytes < ByteLength(full))
      && exists anchorText, start, end ::
           && AnchorReads(hunk, maxBytes, anchorText)
           && WindowReads(hunk, text, start, end, anchorText)
           && (Shown(hunk, anchorText, start, end, maxBytes)
               || (maxBytes < ByteLength(text) && start + 1 == end && anchorText == ""))
  }

  /** The required text, followed by each of the three sections that fits after those before it. */
  ghost predicate IsFilled(required: string, sections: seq<string>, budget: nat, text: string)
    requires |sections| == 3
  {
    exists first, second, third :: IsFilledWith(required, sections, budget, first, second, third, text)
  }

  ghost predicate IsFilledWith(
    required: string, sections: seq<string>, budget: nat, first: bool, second: bool, third: bool, text: string)
    requires |sections| == 3
  {
    var one := required + if first then "\n\n" + sections[0] else "";
    var two := one + if second then "\n\n" + sections[1] else "";
    && text == two + (if third then "\n\n" + sections[2] else "")
    && (first <==> ByteLength(required) + 2 + ByteLength(sections[0]) <= budget)
    && (second <==> ByteLength(one) + 2 + ByteLength(sections[1]) <= budget)
    && (third <==> ByteLength(two) + 2 + ByteLength(sections[2]) <= budget)
  }

  ghost predicate PromptReads(input: Input, budget: nat, sliced: bool, text: string)
    requires Faultless(input)
  {
    exists core, hunkText, sections ::
      && CoreReads(input, core) && ByteLength(core) + 2 + 1024 <= budget
      && HunkReads(input.excerpt.value, budget - ByteLength(core) - 2, sliced, hunkText)
      && AreOptionalSections(input, sections)
      && IsFilled(core + "\n\n" + hunkText, sections, budget, text)
  }

  ghost predicate NoRoom(input: Input, budget: nat, required: int) {
    exists core :: CoreReads(input, core) && budget < ByteLength(core) + 2 + 1024 == required
  }

  ghost predicate TooLarge(input: Input, budget: nat, required: int)
    requires Faultless(input)
  {
    exists core, sliced, hunkText ::
      IsTooLargeWith(input, budget, core, sliced, hunkText)
      && required == ByteLength(core) + 2 + ByteLength(hunkText)
  }

  ghost predicate IsTooLargeWith(input: Input, budget: nat, core: string, sliced: bool, hunkText: string)
    requires Faultless(input)
  {
    && CoreReads(input, core) && ByteLength(core) + 2 + 1024 <= budget
    && HunkReads(input.excerpt.value, budget - ByteLength(core) - 2, sliced, hunkText)
    && budget < ByteLength(core) + 2 + ByteLength(hunkText)
  }

  /** The answer holds what it should, or names what is wrong first. */
  ghost predicate IsAnswer(input: Input, result: Result<Prompt, PromptError>) {
    var total := if input.totalBudget == None then 64 * 1024 else input.totalBudget.value;
    var budget := total - ByteLength(input.stablePrefix);
    if result.Ok? then
      && Faultless(input) && budget >= 0
      && PromptReads(input, budget, result.value.includedHunkIds == [], result.value.dynamicSuffix)
    else
      var PromptError(reason, required, limit) := result.error;
      var stableBytes := ByteLength(input.stablePrefix);
      if reason.NoRoomForHunk? then
        Faultless(input) && budget >= 0 && NoRoom(input, budget, required - stableBytes) && limit == total
      else if reason.PromptTooLarge? then
        Faultless(input) && budget >= 0 && TooLarge(input, budget, required - stableBytes) && limit == total
      else IsFirstFault(input, reason) && Measures(input, reason, required, limit)
  }

  /** The bytes that would be needed, and the limit they are over, as an error names them. */
  ghost predicate Measures(input: Input, reason: Reason, required: int, limit: int) {
    var total := if input.totalBudget == None then 64 * 1024 else input.totalBudget.value;
    var stable := if input.stableBudget == None then total else input.stableBudget.value;
    var stableBytes := ByteLength(input.stablePrefix);
    match reason
    case TotalBudgetInvalid => required == 1 && limit == total
    case StableBudgetInvalid => required == 1 && limit == stable
    case InventoryCount => required == |input.inventory.fileIds| && limit == 256
    case InventoryBytes => required == ByteLength(input.inventory.json) && limit == 16 * 1024
    case StableTooLarge => required == stableBytes && limit == if stable < total then stable else total
    case ExcerptTooLarge =>
      limit == total && input.excerpt.Some?
      && exists text :: ReadsAs(text, [input.excerpt.value.header] + input.excerpt.value.lines)
           && required == stableBytes + ByteLength(text)
    case _ => required == stableBytes + 1024 && limit == total
  }

  lemma {:induction false} CoreIsRead(input: Input)
    requires input.anchor.Some?
    ensures CoreReads(input, Core(input))
  {
    hide IsCut, IsShownAs;
  }

  lemma FilledExactly(required: string, sections: seq<string>, budget: nat)
    requires |sections| == 3
    ensures IsFilled(required, sections, budget, WithSections(required, sections, budget))
  {
    hide ByteLength, WithSections;
    var first := ByteLength(required + "\n\n" + sections[0]) <= budget;
    var one := required + if first then "\n\n" + sections[0] else "";
    var second := ByteLength(one + "\n\n" + sections[1]) <= budget;
    var two := one + if second then "\n\n" + sections[1] else "";
    var third := ByteLength(two + "\n\n" + sections[2]) <= budget;
    var three := two + if third then "\n\n" + sections[2] else "";
    HunkRoom(required, sections[0]);
    HunkRoom(one, sections[1]);
    HunkRoom(two, sections[2]);
    FilledStep(required, sections, budget, one);
    FilledStep(one, sections[1..], budget, two);
    FilledStep(two, sections[2..], budget, three);
    assert sections[1..][1..] == sections[2..] && sections[2..][1..] == [];
    assert required + "" == required && one + "" == one;
    assert WithSections(three, [], budget) == three by { NothingMore(three, budget); }
    assert IsFilledWith(required, sections, budget, first, second, third, three);
  }

  lemma NothingMore(text: string, budget: nat)
    ensures WithSections(text, [], budget) == text
  {
  }

  lemma FilledStep(text: string, sections: seq<string>, budget: nat, next: string)
    requires sections != []
    requires next == text + if ByteLength(text + "\n\n" + sections[0]) <= budget then "\n\n" + sections[0] else ""
    ensures WithSections(text, sections, budget) == WithSections(next, sections[1..], budget)
  {
    hide ByteLength;
    assert text + "\n\n" + sections[0] == text + ("\n\n" + sections[0]);
    assert text + "" == text;
  }

  /** When all three sections fit together, all three are there. */
  lemma AllThreeFit(required: string, sections: seq<string>, budget: nat, text: string)
    requires |sections| == 3 && IsFilled(required, sections, budget, text)
    ensures
      var all := required + "\n\n" + sections[0] + "\n\n" + sections[1] + "\n\n" + sections[2];
      ByteLength(all) <= budget ==> text == all
  {
    hide ByteLength;
    var one := required + "\n\n" + sections[0];
    var two := one + "\n\n" + sections[1];
    HunkRoom(required, sections[0]);
    HunkRoom(one, sections[1]);
    HunkRoom(two, sections[2]);
    assert required + ("\n\n" + sections[0]) == one && one + ("\n\n" + sections[1]) == two;
    assert two + ("\n\n" + sections[2]) == two + "\n\n" + sections[2];
  }

  lemma HunkTextReads(excerpt: Excerpt, room: nat, maxBytes: nat, sliced: bool, text: string)
    requires 0 <= excerpt.anchorLineIndex < |excerpt.lines|
    requires maxBytes == if room < 32 * 1024 then room else 32 * 1024
    requires sliced <==> !FitsWhole(HunkOf(excerpt), maxBytes)
    requires IsHunkText(HunkOf(excerpt), maxBytes, sliced, text)
    ensures HunkReads(excerpt, room, sliced, text)
  {
    hide ByteLength, Full, RenderSlice, WindowText, AnchorText, SomeSliceFits, ReadsAs, Shown, AnchorReads, WindowReads;
    var hunk := HunkOf(excerpt);
    FullReads(hunk);
    if sliced {
      AnchorIsRead(hunk, maxBytes);
      SlicedTextReads(hunk, maxBytes, text);
    }
  }

  lemma SlicedTextReads(hunk: Hunk, maxBytes: nat, text: string)
    requires hunk.Valid() && IsHunkText(hunk, maxBytes, true, text)
    ensures exists start, end ::
      && WindowReads(hunk, text, start, end, AnchorText(hunk, maxBytes))
      && (Shown(hunk, AnchorText(hunk, maxBytes), start, end, maxBytes)
          || (maxBytes < ByteLength(text) && start + 1 == end && AnchorText(hunk, maxBytes) == ""))
  {
    hide ByteLength, RenderSlice, WindowText, AnchorText, SomeSliceFits, WindowReads, Fits, Maximal, Centered;
    var anchorText, anchor := AnchorText(hunk, maxBytes), hunk.anchorLineIndex;
    if SomeSliceFits(hunk, maxBytes) {
      var start: nat, end: nat :|
        Shown(hunk, anchorText, start, end, maxBytes) && text == WindowText(hunk, anchorText, start, end);
      WindowIsRead(hunk, anchorText, start, end);
    } else {
      EmptyAnchorLine(hunk, maxBytes, maxBytes);
      WindowIsRead(hunk, "", anchor, anchor + 1);
    }
  }

  lemma {:induction false} SuffixIsRead(input: Input, budget: nat, sliced: bool, text: string)
    requires Faultless(input) && Rejection(input, budget).None?
    requires sliced <==> !FitsWhole(HunkOf(input.excerpt.value), HunkBudget(input, budget))
    requires IsSuffix(input, input.excerpt.value, budget, HunkBudget(input, budget), sliced, text)
    ensures PromptReads(input, budget, sliced, text)
  {
    hide ByteLength, Faultless, IsHunkText, AreOptionalSections, HunkReads, CoreReads, IsFilled, FitsWhole;
    hide LineMatches, ExcerptBytes, WithSections, Core;
    var excerpt, core := input.excerpt.value, Core(input);
    var hunkText, sections :|
      && IsHunkText(HunkOf(excerpt), HunkBudget(input, budget), sliced, hunkText)
      && AreOptionalSections(input, sections)
      && text == WithSections(core + "\n\n" + hunkText, sections, budget);
    CoreIsRead(input);
    HunkTextReads(excerpt, budget - ByteLength(core) - 2, HunkBudget(input, budget), sliced, hunkText);
    ThreeSections(input, sections);
    FilledExactly(core + "\n\n" + hunkText, sections, budget);
  }

  lemma {:induction false} ThreeSections(input: Input, sections: seq<string>)
    requires AreOptionalSections(input, sections)
    ensures |sections| == 3
  {
  }

  lemma {:induction false} TooLargeExactly(input: Input, budget: nat, required: int)
    requires Faultless(input) && Rejection(input, budget).None? && RequiresHunk(input, budget, required)
    requires budget < required
    ensures TooLarge(input, budget, required)
  {
    hide ByteLength, Faultless, HunkReads, CoreReads, FitsWhole, IsHunkText, LineMatches, ExcerptBytes, Core;
    var excerpt, core, maxBytes := input.excerpt.value, Core(input), HunkBudget(input, budget);
    var hunkText :| IsRequired(input, budget, required, hunkText);
    var sliced := !FitsWhole(HunkOf(excerpt), maxBytes);
    CoreIsRead(input);
    HunkTextReads(excerpt, budget - ByteLength(core) - 2, maxBytes, sliced, hunkText);
    assert IsTooLargeWith(input, budget, core, sliced, hunkText);
  }

  lemma ExcerptBytesExactly(excerpt: Excerpt)
    ensures ExcerptIsLong(excerpt) <==> ExcerptBytes(excerpt) > 32 * 1024
  {
    hide ByteLength, SplitLines, JoinLines;
    var lines := [excerpt.header] + excerpt.lines;
    JoinedReadsBack(lines);
    assert ReadsAs(JoinLines(lines), lines);
    forall text | ReadsAs(text, lines)
      ensures text == JoinLines(lines)
    {
      JoinSplitLines(text);
      JoinSplitLines(JoinLines(lines));
    }
  }

  lemma LineExactly(excerpt: Excerpt, anchor: Anchor)
    ensures LineMatches(excerpt, anchor) <==> LineIsThere(excerpt, anchor)
  {
    if 0 <= excerpt.anchorLineIndex < |excerpt.lines| {
      var line := excerpt.lines[excerpt.anchorLineIndex];
      assert line != "" ==> line == [line[0]] + line[1..];
    }
  }

  lemma {:induction false} StableFaults(input: Input)
    ensures StableRejection(input).Some? ==> IsFirstFault(input, StableRejection(input).value)
    ensures StableRejection(input).None? ==> forall k :: 0 <= k < 5 ==> !Fault(input, FAULTS[k])
  {
    hide ByteLength, ExcerptIsLong, LineIsThere;
    var r := StableRejection(input);
    if r.Some? {
      var k := if r.value.TotalBudgetInvalid? then 0 else if r.value.StableBudgetInvalid? then 1
               else if r.value.InventoryCount? then 2 else if r.value.InventoryBytes? then 3 else 4;
      assert FAULTS[k] == r.value;
    }
  }

  lemma {:induction false} ContextFaults(input: Input, budget: nat)
    ensures
      var r := Rejection(input, budget);
      && (r == Some(AnchorUnavailable) <==> Fault(input, AnchorUnavailable))
      && (r == Some(HunkUnavailable) <==> !Fault(input, AnchorUnavailable) && Fault(input, HunkUnavailable))
      && (r.None? || r.value in {NoRoomForHunk, ExcerptTooLarge, LineUnavailable} ==>
            !Fault(input, AnchorUnavailable) && !Fault(input, HunkUnavailable))
  {
    hide ByteLength, StableRejection, ExcerptIsLong, LineIsThere, LineMatches, ExcerptBytes, Core;
  }

  lemma {:induction false} ExcerptFaults(input: Input, budget: nat)
    requires input.anchor.Some? && input.excerpt.Some?
    requires input.excerpt.value.fileId == input.anchor.value.fileId
    requires input.excerpt.value.hunkId == input.anchor.value.hunkId
    ensures
      var r := Rejection(input, budget);
      && (r == Some(ExcerptTooLarge) <==> Fault(input, ExcerptTooLarge))
      && (r == Some(LineUnavailable) <==> !Fault(input, ExcerptTooLarge) && Fault(input, LineUnavailable))
      && (r.None? || r.value.NoRoomForHunk? ==>
            && !Fault(input, ExcerptTooLarge) && !Fault(input, LineUnavailable)
            && 0 <= input.excerpt.value.anchorLineIndex < |input.excerpt.value.lines|)
  {
    hide ByteLength, StableRejection, ExcerptIsLong, LineIsThere, LineMatches, ExcerptBytes, Core;
    ExcerptBytesExactly(input.excerpt.value);
    LineExactly(input.excerpt.value, input.anchor.value);
  }

  lemma {:induction false} RoomFault(input: Input, budget: nat)
    requires Rejection(input, budget) == Some(NoRoomForHunk)
    ensures NoRoom(input, budget, ByteLength(Core(input)) + 2 + 1024)
  {
    hide ByteLength, LineMatches, ExcerptBytes, CoreReads, Core;
    CoreIsRead(input);
  }

  lemma {:induction false} IdsAgree(input: Input)
    requires !Fault(input, AnchorUnavailable) && !Fault(input, HunkUnavailable)
    ensures input.anchor.Some? && input.excerpt.Some?
    ensures input.excerpt.value.fileId == input.anchor.value.fileId
    ensures input.excerpt.value.hunkId == input.anchor.value.hunkId
  {
  }

  lemma {:induction false} DynamicFaults(input: Input, budget: nat)
    requires StableRejection(input).None?
    ensures Rejection(input, budget).Some? && !Rejection(input, budget).value.NoRoomForHunk? ==>
      IsFirstFault(input, Rejection(input, budget).value)
    ensures Rejection(input, budget).None? || Rejection(input, budget).value.NoRoomForHunk? ==> Faultless(input)
    ensures Rejection(input, budget) == Some(NoRoomForHunk) ==>
      NoRoom(input, budget, ByteLength(Core(input)) + 2 + 1024)
  {
    hide Fault, Rejection, StableRejection, NoRoom;
    StableFaults(input);
    ContextFaults(input, budget);
    var r := Rejection(input, budget);
    if r.None? || r.value in {NoRoomForHunk, ExcerptTooLarge, LineUnavailable} {
      IdsAgree(input);
      ExcerptFaults(input, budget);
    }
    if r == Some(NoRoomForHunk) {
      RoomFault(input, budget);
    }
    if r.Some? && !r.value.NoRoomForHunk? {
      var k := if r.value.AnchorUnavailable? then 5 else if r.value.HunkUnavailable? then 6
               else if r.value.ExcerptTooLarge? then 7 else 8;
      assert FAULTS[k] == r.value;
    }
  }

  ghost predicate ListsHunk(input: Input, prompt: Prompt)
    requires Faultless(input) && ByteLength(input.stablePrefix) <= TotalBudget(input)
  {
    var excerpt, fileIds := input.excerpt.value, input.inventory.fileIds;
    var budget := TotalBudget(input) - ByteLength(input.stablePrefix);
    var whole := FitsWhole(HunkOf(excerpt), HunkBudget(input, budget));
    && prompt.stablePrefix == input.stablePrefix
    && prompt.includedHunkIds == (if whole then [excerpt.hunkId] else [])
    && prompt.omittedHunkIds == (if whole then [] else [excerpt.hunkId])
    && prompt.omittedFileIds == OmittedFiles(fileIds, if whole then Some(excerpt.fileId) else None)
  }

  /** Files are left out of the list, none is moved: exactly those with the id shown. */
  lemma {:induction false} OmittedInOrder(before: seq<string>, after: seq<string>, shown: Option<string>)
    ensures OmittedFiles(before + after, shown) == OmittedFiles(before, shown) + OmittedFiles(after, shown)
    ensures |before| == 1 ==> OmittedFiles(before, shown) == if shown == Some(before[0]) then [] else before
  {
    if before == [] {
      assert before + after == after;
    } else {
      assert (before + after)[1..] == before[1..] + after;
      OmittedInOrder(before[1..], after, shown);
    }
  }

  /** What is wrong with the budgets, the inventory or the static part. */
  method CheckStable(input: Input) returns (error: Option<PromptError>)
    ensures error.None? <==> StableRejection(input).None?
    ensures error.None? ==> 0 <= TotalBudget(input) - ByteLength(input.stablePrefix)
    ensures error.Some? ==>
      && error.value.reason == StableRejection(input).value
      && IsFirstFault(input, error.value.reason)
      && Measures(input, error.value.reason, error.value.requiredBytes, error.value.budgetBytes)
    ensures error.Some? && error.value.reason in {InventoryBytes, StableTooLarge} ==>
      error.value.budgetBytes < error.value.requiredBytes
    ensures error.Some? ==> !error.value.reason.NoRoomForHunk? && !error.value.reason.PromptTooLarge?
  {
    hide ByteLength, IsFirstFault;
    StableFaults(input);
    var total := TotalBudget(input);
    var stable := if input.stableBudget.None? then total else input.stableBudget.value;
    if !PositiveSafe(total) {
      return Some(PromptError(TotalBudgetInvalid, 1, total));
    }
    if !PositiveSafe(stable) {
      return Some(PromptError(StableBudgetInvalid, 1, stable));
    }
    var inventory := input.inventory;
    if inventory.totalFiles < |inventory.fileIds| || MAX_SAFE_INTEGER < inventory.totalFiles
       || MAX_CHANGED_FILE_INVENTORY_COUNT < |inventory.fileIds| {
      return Some(PromptError(InventoryCount, |inventory.fileIds|, MAX_CHANGED_FILE_INVENTORY_COUNT));
    }
    var inventoryBytes := ByteLength(inventory.json);
    if MAX_CHANGED_FILE_INVENTORY_BYTES < inventoryBytes {
      return Some(PromptError(InventoryBytes, inventoryBytes, MAX_CHANGED_FILE_INVENTORY_BYTES));
    }
    var stableBytes := ByteLength(input.stablePrefix);
    var effective := if stable < total then stable else total;
    if effective < stableBytes {
      return Some(PromptError(StableTooLarge, stableBytes, effective));
    }
    return None;
  }

  lemma {:induction false} DynamicMeasures(input: Input, reason: Reason, required: int, budget: nat)
    requires Requires(input, budget, reason, required) && budget == TotalBudget(input) - ByteLength(input.stablePrefix)
    requires reason in {AnchorUnavailable, HunkUnavailable, ExcerptTooLarge, LineUnavailable, NoRoomForHunk,
                        PromptTooLarge}
    ensures !reason.NoRoomForHunk? && !reason.PromptTooLarge? ==>
      Measures(input, reason, ByteLength(input.stablePrefix) + required, TotalBudget(input))
  {
    hide ByteLength, Core, SplitLines, JoinLines;
    if reason.ExcerptTooLarge? {
      JoinedReadsBack([input.excerpt.value.header] + input.excerpt.value.lines);
    }
  }

  method BuildReviewThreadPrompt(input: Input) returns (result: Result<Prompt, PromptError>)
    ensures IsAnswer(input, result)
    ensures result.Ok? <==>
      && StableRejection(input).None?
      && var budget := TotalBudget(input) - ByteLength(input.stablePrefix);
         Rejection(input, budget).None? && HunkShowable(input, budget)
    // whatever the input, an accepted prompt stays within the total budget
    ensures result.Ok? ==>
      ByteLength(result.value.stablePrefix) + ByteLength(result.value.dynamicSuffix) <= TotalBudget(input)
    // the hunk is listed as included exactly when nothing was omitted before and the whole hunk,
    // header included, fits
    ensures result.Ok? ==> ListsHunk(input, result.value)
    ensures result.Err? && StableRejection(input).Some? ==> result.error.reason == StableRejection(input).value
    // a budget that is too small is reported with what would have been needed
    ensures result.Err? && result.error.reason in {InventoryBytes, StableTooLarge, NoRoomForHunk, PromptTooLarge} ==>
      result.error.budgetBytes < result.error.requiredBytes
  {
    hide ByteLength, HunkShowable, IsSuffix, Rejection, OmittedFiles, Faultless, PromptReads, IsFirstFault, NoRoom;
    hide TooLarge, FitsWhole, HunkOf, HunkBudget, StableRejection, Measures, RequiresHunk, Core;
    var error := CheckStable(input);
    if error.Some? {
      return Err(error.value);
    }
    var total, stableBytes := TotalBudget(input), ByteLength(input.stablePrefix);
    DynamicFaults(input, total - stableBytes);
    var dynamic := BuildDynamicSuffix(input, total - stableBytes);
    if dynamic.Err? {
      if dynamic.error.reason.PromptTooLarge? {
        TooLargeExactly(input, total - stableBytes, dynamic.error.requiredBytes);
      }
      DynamicMeasures(input, dynamic.error.reason, dynamic.error.requiredBytes, total - stableBytes);
      return Err(PromptError(dynamic.error.reason, stableBytes + dynamic.error.requiredBytes, total));
    }
    var d := dynamic.value;
    SuffixIsRead(input, total - stableBytes, d.hunkSliced, d.text);
    result := Ok(Prompt(
      input.stablePrefix, d.text,
      if d.hunkSliced then [] else [d.hunkId],
      if d.hunkSliced then [d.hunkId] else [],
      OmittedFiles(input.inventory.fileIds, if d.hunkSliced then None else Some(d.fileId))));
  }
}
