/** What a review-thread prompt offers after its required parts: the thread's summary, its newest
    messages and the selected artifacts, each selected, sorted and cut to size.

    Only wording is a parameter: how the JSON of an inventory, a message, an anchor or an artifact is
    spelled. */
module PromptSections {
  import opened Numbers
  import opened Sequences
  import opened Sorting
  import opened TextLines
  import opened Utf16
  import opened Wrappers
  import opened Utf8
  import opened AnchorHunk

  const MAX_HISTORY_MESSAGE_BYTES: nat := 2 * 1024
  const MAX_ARTIFACT_CONTENT_BYTES: nat := 4 * 1024
  const MAX_SUMMARY_BYTES := 8 * 1024
  const MAX_HISTORY_SECTION_BYTES := 12 * 1024
  const MAX_ARTIFACT_SECTION_BYTES := 12 * 1024
  const HISTORICAL_MESSAGE_LIMIT := 10

  /** A rendered JSON object: its compact form, and the lines it takes in an indented array. */
  datatype Entry = Entry(compact: string, indented: string)

  datatype Anchor = Anchor(fileId: string, hunkId: string, onNewSide: bool, lineContent: string)

  datatype Excerpt = Excerpt(
    fileId: string, hunkId: string, identity: string, header: string, lines: seq<string>,
    anchorLineIndex: int, omittedBefore: nat, omittedAfter: nat)

  datatype Inventory = Inventory(totalFiles: int, fileIds: seq<string>, json: string)

  datatype MessageKind = User(body: string) | Pending | Completed(body: string) | Failed

  datatype Message = Message(id: string, sequence: int, kind: MessageKind)

  datatype Artifact = Artifact(id: string, details: string, content: string)

  /** How things are spelled in JSON: the latest message with the anchor, and single entries. */
  datatype Wording = Wording(
    core: (Message, Anchor) -> string,
    message: Message -> Entry,
    artifact: Artifact -> Entry)

  datatype Input = Input(
    totalBudget: Option<int>,
    stableBudget: Option<int>,
    inventory: Inventory,
    stablePrefix: string,
    anchor: Option<Anchor>,
    excerpt: Option<Excerpt>,
    latest: Message,
    messages: seq<Message>,
    summary: Option<string>,
    priorArtifacts: seq<Artifact>,
    wording: Wording)

  function Compact(entries: seq<Entry>): seq<string> {
    if entries == [] then [] else [entries[0].compact] + Compact(entries[1..])
  }

  /** `JSON.stringify(entries)` */
  function CompactArray(entries: seq<Entry>): string {
    "[" + CommaJoined(Compact(entries)) + "]"
  }

  predicate ArrayFits(entries: seq<Entry>, maxBytes: nat) {
    ByteLength(CompactArray(entries)) <= maxBytes
  }

  /** The bytes of an array: its brackets, its entries, and a comma after each but the last. */
  ghost function ArrayBytes(entries: seq<Entry>): nat {
    if entries == [] then 2
    else if |entries| == 1 then 2 + ByteLength(entries[0].compact)
    else ByteLength(entries[0].compact) + 1 + ArrayBytes(entries[1..])
  }

  lemma {:induction false} CommaJoinedBytes(entries: seq<Entry>)
    ensures ByteLength(CommaJoined(Compact(entries))) + 2 == ArrayBytes(entries)
  {
    hide ByteLength;
    if entries == [] {
      ByteLengthAscii("");
    } else {
      var rest := CommaJoined(Compact(entries[1..]));
      CommaJoinedBytes(entries[1..]);
      assert Compact(entries)[1..] == Compact(entries[1..]);
      assert |Compact(entries)| == 1 <==> |entries| == 1;
      if |entries| > 1 {
        ByteLengthConcat(entries[0].compact, ",");
        ByteLengthConcat(entries[0].compact + ",", rest);
        ByteLengthAscii(",");
      }
    }
  }

  lemma ArrayFitsExactly(entries: seq<Entry>, maxBytes: nat)
    ensures ArrayFits(entries, maxBytes) <==> ArrayBytes(entries) <= maxBytes
  {
    hide ByteLength, Compact, CommaJoined;
    var inside := CommaJoined(Compact(entries));
    CommaJoinedBytes(entries);
    ByteLengthConcat("[", inside);
    ByteLengthConcat("[" + inside, "]");
    ByteLengthAscii("[");
    ByteLengthAscii("]");
  }

  /** The longest run of newest messages whose array fits into 12 KiB. */
  ghost predicate NewestThatFit(messages: seq<Entry>, history: seq<Entry>) {
    && |history| <= |messages| && history == messages[|messages| - |history|..]
    && (history != [] ==> ArrayBytes(history) <= 12 * 1024)
    && forall i :: 0 <= i < |messages| - |history| ==> ArrayBytes(messages[i..]) > 12 * 1024
  }

  /** The longest run of first artifacts whose array fits into 12 KiB. */
  ghost predicate FirstThatFit(all: seq<Entry>, artifacts: seq<Entry>) {
    && artifacts <= all
    && (artifacts != [] ==> ArrayBytes(artifacts) <= 12 * 1024)
    && forall n :: |artifacts| < n <= |all| ==> ArrayBytes(all[..n]) > 12 * 1024
  }

  /** Drops the oldest messages until the rest fits. */
  method TrimHistory(messages: seq<Entry>) returns (history: seq<Entry>)
    ensures NewestThatFit(messages, history)
  {
    hide ArrayFits, ArrayBytes;
    history := messages;
    while history != [] && !ArrayFits(history, MAX_HISTORY_SECTION_BYTES)
      invariant |history| <= |messages| && history == messages[|messages| - |history|..]
      invariant forall i :: 0 <= i < |messages| - |history| ==> ArrayBytes(messages[i..]) > 12 * 1024
    {
      ArrayFitsExactly(history, MAX_HISTORY_SECTION_BYTES);
      history := history[1..];
    }
    ArrayFitsExactly(history, MAX_HISTORY_SECTION_BYTES);
  }

  /** Drops the last artifacts until the rest fits. */
  method TrimArtifacts(all: seq<Entry>) returns (artifacts: seq<Entry>)
    ensures FirstThatFit(all, artifacts)
  {
    hide ArrayFits, ArrayBytes;
    artifacts := all;
    while artifacts != [] && !ArrayFits(artifacts, MAX_ARTIFACT_SECTION_BYTES)
      invariant artifacts <= all
      invariant forall n :: |artifacts| < n <= |all| ==> ArrayBytes(all[..n]) > 12 * 1024
    {
      ArrayFitsExactly(artifacts, MAX_ARTIFACT_SECTION_BYTES);
      assert artifacts == all[..|artifacts|];
      artifacts := artifacts[..|artifacts| - 1];
    }
    ArrayFitsExactly(artifacts, MAX_ARTIFACT_SECTION_BYTES);
  }

  function Indented(entries: seq<Entry>): seq<string> {
    if entries == [] then [] else
      [entries[0].indented + (if |entries| == 1 then "" else ",")] + Indented(entries[1..])
  }

  /** A section of indented JSON, `JSON.stringify(entries, null, 2)`. */
  function JsonSection(title: string, entries: seq<Entry>): string {
    "## " + title + "\n\n```json\n"
    + (if entries == [] then "[]" else "[\n" + JoinLines(Indented(entries)) + "\n]")
    + "\n```"
  }

  /** A section, line by line: its title, and a JSON array of entries in a fence. */
  ghost predicate SectionReads(text: string, title: string, entries: seq<Entry>) {
    exists lines: seq<string> ::
      && |lines| == |entries|
      && (forall i :: 0 <= i < |lines| ==>
            lines[i] == if i == |entries| - 1 then entries[i].indented else entries[i].indented + ",")
      && ReadsAs(text, ["## " + title, "", "```json"]
                       + (if entries == [] then ["[]"] else ["["] + lines + ["]"]) + ["```"])
  }

  lemma {:induction false} IndentedLines(entries: seq<Entry>)
    ensures |Indented(entries)| == |entries|
    ensures forall i :: 0 <= i < |entries| ==>
      Indented(entries)[i] == if i == |entries| - 1 then entries[i].indented else entries[i].indented + ","
  {
    if entries != [] {
      IndentedLines(entries[1..]);
      assert entries[0].indented + "" == entries[0].indented;
    }
  }

  lemma ThreeJoined(a: string, lines: seq<string>, b: string)
    requires lines != []
    ensures JoinLines([a] + lines + [b]) == a + "\n" + JoinLines(lines) + "\n" + b
  {
    JoinLinesConcat([a] + lines, [b]);
    JoinLinesConcat([a], lines);
  }

  function ArrayLines(entries: seq<Entry>): seq<string> {
    if entries == [] then ["[]"] else ["["] + Indented(entries) + ["]"]
  }

  lemma ArrayText(entries: seq<Entry>)
    ensures JoinLines(ArrayLines(entries))
         == if entries == [] then "[]" else "[\n" + JoinLines(Indented(entries)) + "\n]"
  {
    hide Indented;
    IndentedLines(entries);
    if entries != [] {
      ThreeJoined("[", Indented(entries), "]");
    }
  }

  lemma ArrayJoined(title: string, entries: seq<Entry>)
    ensures JsonSection(title, entries) == "## " + title + "\n\n```json\n" + JoinLines(ArrayLines(entries)) + "\n```"
  {
    hide JoinLines, Indented, ArrayLines;
    ArrayText(entries);
  }

  lemma SectionIsRead(title: string, entries: seq<Entry>)
    ensures SectionReads(JsonSection(title, entries), title, entries)
  {
    hide SplitLines, JoinLines, JsonSection, Indented;
    IndentedLines(entries);
    ArrayJoined(title, entries);
    SectionJoined(title, ArrayLines(entries));
    JoinedReadsBack(["## " + title, "", "```json"] + ArrayLines(entries) + ["```"]);
  }

  lemma FirstLinesJoined(heading: string)
    ensures JoinLines([heading, "", "```json"]) == heading + "\n\n```json"
  {
    assert [heading, "", "```json"] == [heading] + ["", "```json"] && ["", "```json"] == [""] + ["```json"];
    JoinLinesConcat([heading], ["", "```json"]);
    JoinLinesConcat([""], ["```json"]);
  }

  lemma SectionJoined(title: string, items: seq<string>)
    requires items != []
    ensures JoinLines(["## " + title, "", "```json"] + items + ["```"])
         == "## " + title + "\n\n```json\n" + JoinLines(items) + "\n```"
  {
    var first := ["## " + title, "", "```json"];
    JoinLinesConcat(first + items, ["```"]);
    JoinLinesConcat(first, items);
    FirstLinesJoined("## " + title);
  }

  /** A message as the prompt shows it: what it is, with its body, if it has one, cut to a limit. */
  ghost predicate IsShownAs(message: Message, maxBodyBytes: nat, shown: Message) {
    && shown.id == message.id && shown.sequence == message.sequence
    && match message.kind
       case User(body) => shown.kind.User? && IsCut(body, maxBodyBytes, "DIFFDASH_MESSAGE_TRUNCATED", shown.kind.body)
       case Completed(body) =>
         shown.kind.Completed? && IsCut(body, maxBodyBytes, "DIFFDASH_MESSAGE_TRUNCATED", shown.kind.body)
       case _ => shown.kind == message.kind
  }

  function MessageForPrompt(message: Message, maxBodyBytes: nat): (r: Message)
    ensures IsShownAs(message, maxBodyBytes, r)
  {
    match message.kind
    case User(body) => message.(kind := User(TruncatePromptText(body, maxBodyBytes, "DIFFDASH_MESSAGE_TRUNCATED")))
    case Completed(body) =>
      message.(kind := Completed(TruncatePromptText(body, maxBodyBytes, "DIFFDASH_MESSAGE_TRUNCATED")))
    case _ => message
  }

  function Without(messages: seq<Message>, id: string): seq<Message> {
    if messages == [] then []
    else (if messages[0].id == id then [] else [messages[0]]) + Without(messages[1..], id)
  }

  /** Messages by sequence number, then by id. */
  predicate MessageNotAfter(a: Message, b: Message) {
    a.sequence < b.sequence || (a.sequence == b.sequence && TextNotAfter(a.id, b.id))
  }

  predicate ArtifactNotAfter(a: Artifact, b: Artifact) {
    TextNotAfter(a.id, b.id)
  }

  /** At most the ten newest messages other than the latest one, oldest first. */
  function Newest(messages: seq<Message>, latestId: string): seq<Message> {
    var sorted := Sort(MessageNotAfter, Without(messages, latestId));
    if |sorted| <= HISTORICAL_MESSAGE_LIMIT then sorted else sorted[|sorted| - HISTORICAL_MESSAGE_LIMIT..]
  }

  lemma MessagesRank()
    ensures Ranks(MessageNotAfter)
  {
    forall a: Message, b: Message, c: Message
      ensures MessageNotAfter(a, b) || MessageNotAfter(b, a)
      ensures MessageNotAfter(a, b) && MessageNotAfter(b, c) ==> MessageNotAfter(a, c)
    {
      UnitsRank(Units(a.id), Units(b.id), Units(c.id));
    }
  }

  lemma ArtifactsRank()
    ensures Ranks(ArtifactNotAfter)
  {
    forall a: Artifact, b: Artifact, c: Artifact
      ensures ArtifactNotAfter(a, b) || ArtifactNotAfter(b, a)
      ensures ArtifactNotAfter(a, b) && ArtifactNotAfter(b, c) ==> ArtifactNotAfter(a, c)
    {
      UnitsRank(Units(a.id), Units(b.id), Units(c.id));
    }
  }

  lemma {:induction false} WithoutExactly(messages: seq<Message>, id: string, message: Message)
    ensures multiset(Without(messages, id))[message] == if message.id == id then 0 else multiset(messages)[message]
  {
    if messages != [] {
      assert messages == [messages[0]] + messages[1..];
      WithoutExactly(messages[1..], id, message);
    }
  }

  /** By sequence number, and by the code units of the id where the numbers agree. */
  predicate InThreadOrder(a: Message, b: Message) {
    a.sequence < b.sequence || (a.sequence == b.sequence && UnitsPrecede(Units(a.id), Units(b.id)))
  }

  /** The messages shown are the newest ones: in order, never the latest message itself, and whatever
      other message is not among them comes before all of them, with ten of them shown. */
  ghost predicate AreNewest(messages: seq<Message>, latestId: string, shown: seq<Message>) {
    exists dropped: seq<Message> ::
      && |shown| <= 10 && (dropped != [] ==> |shown| == 10)
      && (forall message ::
            multiset(dropped + shown)[message] == if message.id == latestId then 0 else multiset(messages)[message])
      && forall i, j :: 0 <= i < j < |dropped + shown| ==> InThreadOrder((dropped + shown)[i], (dropped + shown)[j])
  }

  lemma NewestExactly(messages: seq<Message>, latestId: string)
    ensures AreNewest(messages, latestId, Newest(messages, latestId))
  {
    hide Ranks, Sort, Without, UnitsNotAfter, UnitsPrecede;
    var others := Without(messages, latestId);
    var sorted, shown := Sort(MessageNotAfter, others), Newest(messages, latestId);
    MessagesRank();
    SortSorts(MessageNotAfter, others);
    var dropped := sorted[..|sorted| - |shown|];
    assert sorted == dropped + shown;
    forall message
      ensures multiset(sorted)[message] == if message.id == latestId then 0 else multiset(messages)[message]
    {
      WithoutExactly(messages, latestId, message);
    }
    forall i, j | 0 <= i < j < |sorted|
      ensures InThreadOrder(sorted[i], sorted[j])
    {
      assert MessageNotAfter(sorted[i], sorted[j]);
      NotAfterExactly(Units(sorted[i].id), Units(sorted[j].id));
    }
  }

  /** Where sequence numbers and ids tell the messages apart, the order they are supplied in is irrelevant. */
  lemma MessageOrderIsIrrelevant(a: seq<Message>, b: seq<Message>, latestId: string)
    requires multiset(a) == multiset(b) && Distinguishes(MessageNotAfter, Without(a, latestId))
    ensures Newest(a, latestId) == Newest(b, latestId)
  {
    hide Ranks, MessageNotAfter, Sort, Sorted, Without, Distinguishes;
    var ours, theirs := Without(a, latestId), Without(b, latestId);
    forall message
      ensures multiset(ours)[message] == multiset(theirs)[message]
    {
      WithoutExactly(a, latestId, message);
      WithoutExactly(b, latestId, message);
    }
    assert multiset(ours) == multiset(theirs);
    MessagesRank();
    SameSorted(MessageNotAfter, ours, theirs);
  }

  /** So it is for the artifacts, where their ids tell them apart. */
  lemma ArtifactOrderIsIrrelevant(a: seq<Artifact>, b: seq<Artifact>)
    requires multiset(a) == multiset(b) && Distinguishes(ArtifactNotAfter, a)
    ensures Sort(ArtifactNotAfter, a) == Sort(ArtifactNotAfter, b)
    ensures Sorted(ArtifactNotAfter, Sort(ArtifactNotAfter, a)) && multiset(Sort(ArtifactNotAfter, a)) == multiset(a)
  {
    hide Ranks, ArtifactNotAfter, Sort, Sorted, Distinguishes;
    ArtifactsRank();
    SortSorts(ArtifactNotAfter, a);
    SameSorted(ArtifactNotAfter, a, b);
  }

  ghost predicate AreSorted(artifacts: seq<Artifact>, sorted: seq<Artifact>) {
    && multiset(sorted) == multiset(artifacts)
    && forall i, j :: 0 <= i < j < |sorted| ==> UnitsPrecede(Units(sorted[i].id), Units(sorted[j].id))
  }

  lemma ArtifactsAreSorted(artifacts: seq<Artifact>)
    ensures AreSorted(artifacts, Sort(ArtifactNotAfter, artifacts))
  {
    hide Ranks, Sort, UnitsNotAfter, UnitsPrecede;
    var sorted := Sort(ArtifactNotAfter, artifacts);
    ArtifactsRank();
    SortSorts(ArtifactNotAfter, artifacts);
    forall i, j | 0 <= i < j < |sorted|
      ensures UnitsPrecede(Units(sorted[i].id), Units(sorted[j].id))
    {
      assert ArtifactNotAfter(sorted[i], sorted[j]);
      NotAfterExactly(Units(sorted[i].id), Units(sorted[j].id));
    }
  }

  function ForHistory(messages: seq<Message>, wording: Wording): seq<Entry> {
    if messages == [] then []
    else
      [wording.message(MessageForPrompt(messages[0], MAX_HISTORY_MESSAGE_BYTES))] + ForHistory(messages[1..], wording)
  }

  function History(input: Input): seq<Entry> {
    ForHistory(Newest(input.messages, input.latest.id), input.wording)
  }

  function ForArtifacts(artifacts: seq<Artifact>, wording: Wording): seq<Entry> {
    if artifacts == [] then []
    else
      var content := TruncatePromptText(
        artifacts[0].content, MAX_ARTIFACT_CONTENT_BYTES, "DIFFDASH_ARTIFACT_TRUNCATED");
      [wording.artifact(artifacts[0].(content := content))] + ForArtifacts(artifacts[1..], wording)
  }

  /** The artifacts by id, each cut to its limit. */
  function Artifacts(input: Input): seq<Entry> {
    ForArtifacts(Sort(ArtifactNotAfter, input.priorArtifacts), input.wording)
  }

  ghost predicate AreMessageEntries(messages: seq<Message>, wording: Wording, entries: seq<Entry>) {
    && |entries| == |messages|
    && forall i :: 0 <= i < |entries| ==> IsMessageEntry(messages[i], wording, entries[i])
  }

  ghost predicate IsMessageEntry(message: Message, wording: Wording, entry: Entry) {
    exists shown :: IsShownAs(message, 2 * 1024, shown) && entry == wording.message(shown)
  }

  ghost predicate AreArtifactEntries(artifacts: seq<Artifact>, wording: Wording, entries: seq<Entry>) {
    && |entries| == |artifacts|
    && forall i :: 0 <= i < |entries| ==> IsArtifactEntry(artifacts[i], wording, entries[i])
  }

  ghost predicate IsArtifactEntry(artifact: Artifact, wording: Wording, entry: Entry) {
    exists content :: IsCut(artifact.content, 4 * 1024, "DIFFDASH_ARTIFACT_TRUNCATED", content)
      && entry == wording.artifact(artifact.(content := content))
  }

  lemma {:induction false} HistoryIsRead(messages: seq<Message>, wording: Wording)
    ensures AreMessageEntries(messages, wording, ForHistory(messages, wording))
  {
    hide IsShownAs;
    if messages != [] {
      HistoryIsRead(messages[1..], wording);
      assert IsShownAs(messages[0], 2 * 1024, MessageForPrompt(messages[0], MAX_HISTORY_MESSAGE_BYTES));
    }
  }

  lemma {:induction false} ArtifactsAreRead(artifacts: seq<Artifact>, wording: Wording)
    ensures AreArtifactEntries(artifacts, wording, ForArtifacts(artifacts, wording))
  {
    hide IsCut;
    if artifacts != [] {
      ArtifactsAreRead(artifacts[1..], wording);
    }
  }

  function Sections(summary: Option<string>, history: seq<Entry>, artifacts: seq<Entry>): seq<string> {
    ["## Compact thread summary\n\n"
       + TruncatePromptText(
           if summary.Some? then summary.value else "(none)", MAX_SUMMARY_BYTES, "DIFFDASH_THREAD_SUMMARY_TRUNCATED"),
     JsonSection("Latest 10 historical messages", history),
     JsonSection("Selected prior artifacts", artifacts)]
  }

  ghost predicate IsSummary(summary: Option<string>, text: string) {
    exists shown ::
      && IsCut(if summary.Some? then summary.value else "(none)", 8 * 1024, "DIFFDASH_THREAD_SUMMARY_TRUNCATED", shown)
      && text == "## Compact thread summary\n\n" + shown
  }

  /** The newest messages, oldest first, as many of them as fit together. */
  ghost predicate IsHistory(input: Input, text: string) {
    exists newest, entries, history ::
      && AreNewest(input.messages, input.latest.id, newest)
      && AreMessageEntries(newest, input.wording, entries)
      && NewestThatFit(entries, history)
      && SectionReads(text, "Latest 10 historical messages", history)
  }

  /** The artifacts by id, as many of the first ones as fit together. */
  ghost predicate AreArtifacts(input: Input, text: string) {
    exists sorted, entries, artifacts ::
      && AreSorted(input.priorArtifacts, sorted)
      && AreArtifactEntries(sorted, input.wording, entries)
      && FirstThatFit(entries, artifacts)
      && SectionReads(text, "Selected prior artifacts", artifacts)
  }

  ghost predicate AreOptionalSections(input: Input, sections: seq<string>) {
    && |sections| == 3
    && IsSummary(input.summary, sections[0]) && IsHistory(input, sections[1]) && AreArtifacts(input, sections[2])
  }

  method OptionalSections(input: Input) returns (sections: seq<string>)
    ensures AreOptionalSections(input, sections)
  {
    hide NewestThatFit, FirstThatFit, AreNewest, AreSorted, Newest, Sort, AreMessageEntries, AreArtifactEntries;
    hide SectionReads, JsonSection, IsCut, ForHistory, ForArtifacts;
    var newest := Newest(input.messages, input.latest.id);
    NewestExactly(input.messages, input.latest.id);
    HistoryIsRead(newest, input.wording);
    var history := TrimHistory(History(input));
    var artifacts := TrimArtifacts(Artifacts(input));
    ArtifactsAreSorted(input.priorArtifacts);
    ArtifactsAreRead(Sort(ArtifactNotAfter, input.priorArtifacts), input.wording);
    SectionIsRead("Latest 10 historical messages", history);
    SectionIsRead("Selected prior artifacts", artifacts);
    sections := Sections(input.summary, history, artifacts);
  }
}
