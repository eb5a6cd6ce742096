/** From a model's answer to a walkthrough: short names are replaced by hunk ids, and the walkthrough
    is then checked to place every hunk of the digest, each exactly once. */
module WalkthroughCoverage {
  import opened Numbers
  import opened Sequences
  import opened Wrappers

  type HunkId = string

  datatype Hunk = Hunk(id: HunkId, path: string, additions: nat, deletions: nat)

  datatype Stop = Stop(title: string, hunkIds: seq<HunkId>)

  datatype Chapter = Chapter(title: string, stops: seq<Stop>)

  /** Support items have the shape of stops. */
  datatype Walkthrough = Walkthrough(chapters: seq<Chapter>, support: seq<Stop>)

  datatype CoverageError = InvalidCoverage(defects: nat)

  /* Short names */

  /** The name of the hunk at an index: `h1`, `h2`, ... */
  function Alias(index: nat): string {
    "h" + Decimal(index + 1)
  }

  lemma AliasInjective(i: nat, j: nat)
    ensures Alias(i) == Alias(j) ==> i == j
  {
    DecimalInjective(i + 1, j + 1);
    assert Alias(i)[1..] == Decimal(i + 1) && Alias(j)[1..] == Decimal(j + 1);
  }

  /** A short name is an `h` and the number of the hunk, counted from one. */
  lemma AliasReads(i: nat)
    ensures exists digits :: Spells(digits, i + 1) && Alias(i) == "h" + digits
  {
    DecimalReads(i + 1);
    assert Alias(i) == "h" + Decimal(i + 1);
  }

  type Aliases = map<string, HunkId>

  ghost predicate NamesHunks(digest: seq<Hunk>, aliases: Aliases) {
    && (forall i :: 0 <= i < |digest| ==> Alias(i) in aliases && aliases[Alias(i)] == digest[i].id)
    && (forall name :: name in aliases ==> exists i :: 0 <= i < |digest| && name == Alias(i))
  }

  /** Every alias of the digest names its own hunk, whatever ids repeat. */
  method AliasMap(digest: seq<Hunk>) returns (aliases: Aliases)
    ensures NamesHunks(digest, aliases)
  {
    aliases := map[];
    for n := 0 to |digest|
      invariant forall i :: 0 <= i < n ==> Alias(i) in aliases && aliases[Alias(i)] == digest[i].id
      invariant forall name :: name in aliases ==> exists i :: 0 <= i < n && name == Alias(i)
    {
      forall i | 0 <= i < n
        ensures Alias(i) != Alias(n)
      {
        AliasInjective(i, n);
      }
      aliases := aliases[Alias(n) := digest[n].id];
    }
  }

  function Expand(hunkIds: seq<string>, aliases: Aliases): (r: seq<HunkId>)
    ensures |r| == |hunkIds|
    ensures forall i :: 0 <= i < |r| ==> r[i] == if hunkIds[i] in aliases then aliases[hunkIds[i]] else hunkIds[i]
  {
    seq(|hunkIds|, i requires 0 <= i < |hunkIds| =>
      if hunkIds[i] in aliases then aliases[hunkIds[i]] else hunkIds[i])
  }

  /** The ids the application makes name their path and scope between colons. */
  predicate HasColon(id: HunkId) {
    ':' in id
  }

  lemma AliasHasNoColon(i: nat)
    ensures !HasColon(Alias(i))
  {
    DecimalReads(i + 1);
    assert forall k :: 0 <= k < |Alias(i)| ==> Alias(i)[k] == 'h' || Alias(i)[k] in Decimal(i + 1);
  }

  function AliasesOf(indices: seq<nat>): (r: seq<string>)
    ensures |r| == |indices| && forall k :: 0 <= k < |r| ==> r[k] == Alias(indices[k])
  {
    seq(|indices|, k requires 0 <= k < |indices| => Alias(indices[k]))
  }

  /** An answer in aliases means the hunks they were given out for; hunk ids stay what they are, and
      expanding a second time changes nothing. */
  lemma AliasesExpand(digest: seq<Hunk>, aliases: Aliases, indices: seq<nat>, names: seq<string>)
    requires NamesHunks(digest, aliases)
    requires forall i :: 0 <= i < |digest| ==> HasColon(digest[i].id)
    requires forall k :: 0 <= k < |indices| ==> indices[k] < |digest|
    ensures
      var ids := Expand(AliasesOf(indices), aliases);
      |ids| == |indices| && forall k :: 0 <= k < |ids| ==> ids[k] == digest[indices[k]].id
    ensures (forall k :: 0 <= k < |names| ==> HasColon(names[k])) ==> Expand(names, aliases) == names
    ensures Expand(Expand(names, aliases), aliases) == Expand(names, aliases)
  {
    forall name | name in aliases
      ensures !HasColon(name) && HasColon(aliases[name])
    {
      var i: nat :| i < |digest| && name == Alias(i);
      AliasHasNoColon(i);
    }
    var once := Expand(names, aliases);
    forall k | 0 <= k < |names|
      ensures once[k] !in aliases
    {
    }
  }

  /* Coverage */

  function StopIds(stops: seq<Stop>): seq<HunkId> {
    if stops == [] then [] else StopIds(stops[..|stops| - 1]) + stops[|stops| - 1].hunkIds
  }

  function ChapterIds(chapters: seq<Chapter>): seq<HunkId> {
    if chapters == [] then [] else ChapterIds(chapters[..|chapters| - 1]) + StopIds(chapters[|chapters| - 1].stops)
  }

  /** Every id the walkthrough places, in reading order. */
  function PlacedIds(w: Walkthrough): seq<HunkId> {
    ChapterIds(w.chapters) + StopIds(w.support)
  }

  function Expected(digest: seq<Hunk>): set<HunkId> {
    set hunk | hunk in digest :: hunk.id
  }

  ghost predicate FilledStops(stops: seq<Stop>) {
    forall i :: 0 <= i < |stops| ==> stops[i].hunkIds != []
  }

  ghost predicate FilledChapters(chapters: seq<Chapter>) {
    forall i :: 0 <= i < |chapters| ==> chapters[i].stops != [] && FilledStops(chapters[i].stops)
  }

  /** No part is empty, and only hunks of the digest are placed, none twice. */
  ghost predicate Proper(w: Walkthrough, expected: set<HunkId>) {
    && w.chapters != [] && FilledChapters(w.chapters) && FilledStops(w.support)
    && Distinct(PlacedIds(w))
    && (forall i :: 0 <= i < |PlacedIds(w)| ==> PlacedIds(w)[i] in expected)
  }

  /** The ids of the digest that are not yet placed, once each, in the order of the digest. */
  function Omitted(digest: seq<Hunk>, placed: set<HunkId>): seq<HunkId> {
    if digest == [] then []
    else
      var earlier := Omitted(digest[..|digest| - 1], placed);
      var id := digest[|digest| - 1].id;
      if id in placed || id in earlier then earlier else earlier + [id]
  }

  lemma {:induction false} OmittedExactly(digest: seq<Hunk>, placed: set<HunkId>)
    ensures Distinct(Omitted(digest, placed))
    ensures forall id :: id in Omitted(digest, placed) <==> id in Expected(digest) && id !in placed
  {
    if digest != [] {
      var last := |digest| - 1;
      OmittedExactly(digest[..last], placed);
      assert digest == digest[..last] + [digest[last]];
      assert Expected(digest) == Expected(digest[..last]) + {digest[last].id};
    }
  }

  ghost predicate Good(ids: seq<HunkId>, expected: set<HunkId>) {
    Distinct(ids) && forall i :: 0 <= i < |ids| ==> ids[i] in expected
  }

  lemma GoodMore(ids: seq<HunkId>, more: seq<HunkId>, id: HunkId, expected: set<HunkId>)
    ensures Good(ids + [id], expected) <==> Good(ids, expected) && id in expected && id !in ids
    ensures Good(ids + more, expected) ==> Good(ids, expected)
  {
    var longer := ids + [id];
    assert forall i :: 0 <= i < |ids| ==> longer[i] == ids[i];
    assert longer[|ids|] == id;
    assert forall i :: 0 <= i < |ids| ==> (ids + more)[i] == ids[i];
  }

  class Coverage {
    const expected: set<HunkId>
    var seen: set<HunkId>
    var defects: nat
    // everything read so far, and whether each part read so far was filled
    ghost var read: seq<HunkId>
    ghost var filled: bool

    ghost predicate Valid()
      reads this
    {
      && seen == (set id | id in read && id in expected)
      && (defects == 0 <==> filled && Good(read, expected))
    }

    constructor (expected: set<HunkId>)
      ensures Valid() && this.expected == expected && read == [] && filled
    {
      this.expected := expected;
      seen := {};
      defects := 0;
      read := [];
      filled := true;
    }

    method Missing(part: bool)
      requires Valid()
      modifies this
      ensures Valid() && read == old(read) && filled == (old(filled) && !part)
    {
      if part {
        defects := defects + 1;
        filled := false;
      }
    }

    method ReadId(id: HunkId)
      requires Valid()
      modifies this
      ensures Valid() && read == old(read) + [id] && filled == old(filled)
    {
      GoodMore(read, [], id, expected);
      if id !in expected {
        defects := defects + 1;
      } else if id in seen {
        defects := defects + 1;
      } else {
        seen := seen + {id};
      }
      read := read + [id];
    }

    method ReadStop(stop: Stop)
      requires Valid()
      modifies this
      ensures Valid() && read == old(read) + stop.hunkIds && filled == (old(filled) && stop.hunkIds != [])
    {
      Missing(stop.hunkIds == []);
      for n := 0 to |stop.hunkIds|
        invariant Valid() && read == old(read) + stop.hunkIds[..n]
        invariant filled == (old(filled) && stop.hunkIds != [])
      {
        assert stop.hunkIds[..n + 1] == stop.hunkIds[..n] + [stop.hunkIds[n]];
        ReadId(stop.hunkIds[n]);
      }
      assert stop.hunkIds[..|stop.hunkIds|] == stop.hunkIds;
    }

    method ReadStops(stops: seq<Stop>)
      requires Valid()
      modifies this
      ensures Valid() && read == old(read) + StopIds(stops) && filled == (old(filled) && FilledStops(stops))
    {
      for n := 0 to |stops|
        invariant Valid() && read == old(read) + StopIds(stops[..n])
        invariant filled == (old(filled) && FilledStops(stops[..n]))
      {
        assert stops[..n + 1][..n] == stops[..n];
        ReadStop(stops[n]);
      }
      assert stops[..|stops|] == stops;
    }

    method ReadChapters(chapters: seq<Chapter>)
      requires Valid()
      modifies this
      ensures Valid() && read == old(read) + ChapterIds(chapters)
      ensures filled == (old(filled) && FilledChapters(chapters))
    {
      hide FilledStops, StopIds;
      for n := 0 to |chapters|
        invariant Valid() && read == old(read) + ChapterIds(chapters[..n])
        invariant filled == (old(filled) && FilledChapters(chapters[..n]))
      {
        assert chapters[..n + 1][..n] == chapters[..n];
        Missing(chapters[n].stops == []);
        ReadStops(chapters[n].stops);
      }
      assert chapters[..|chapters|] == chapters;
    }
  }

  const OMITTED_TITLE := "Other changes"

  /** Accepts exactly the proper walkthroughs, keeps what they say, and adds one support item with the
      hunks they leave out, if there are any. */
  method ValidateCoverage(w: Walkthrough, digest: seq<Hunk>) returns (result: Result<Walkthrough, CoverageError>)
    ensures result.Ok? <==> Proper(w, Expected(digest))
    ensures result.Err? ==> result.error.defects > 0
    ensures result.Ok? ==>
      var omitted := Omitted(digest, set id | id in PlacedIds(w));
      result.value == if omitted == [] then w else w.(support := w.support + [Stop(OMITTED_TITLE, omitted)])
    // counted out: what is accepted, and what is made of it
    ensures result.Ok? <==> IsComplete(w, digest)
    ensures result.Ok? ==> Completes(w, digest, result.value)
  {
    hide IsComplete, Completes, Distinct, Expected;
    AcceptedExactly(w, digest);
    hide FilledStops, FilledChapters, Omitted, StopIds, ChapterIds;
    var coverage := new Coverage(Expected(digest));
    coverage.Missing(w.chapters == []);
    coverage.ReadChapters(w.chapters);
    coverage.ReadStops(w.support);
    assert coverage.read == PlacedIds(w);
    if coverage.defects > 0 {
      return Err(InvalidCoverage(coverage.defects));
    }
    assert coverage.seen == set id | id in PlacedIds(w);
    var omitted := Omitted(digest, coverage.seen);
    if omitted == [] {
      return Ok(w);
    }
    return Ok(w.(support := w.support + [Stop(OMITTED_TITLE, omitted)]));
  }

  lemma PlacedAfterwards(w: Walkthrough, stop: Stop)
    ensures PlacedIds(w.(support := w.support + [stop])) == PlacedIds(w) + stop.hunkIds
  {
    hide ChapterIds;
    var support := w.support + [stop];
    assert support[..|support| - 1] == w.support;
  }

  lemma DistinctConcat(a: seq<HunkId>, b: seq<HunkId>)
    requires Distinct(a) && Distinct(b) && forall id :: id in b ==> id !in a
    ensures Distinct(a + b)
  {
    forall i, j | 0 <= i < j < |a + b|
      ensures (a + b)[i] != (a + b)[j]
    {
      assert i < |a| <= j ==> (a + b)[j] in b && (a + b)[i] in a;
    }
  }

  /** The walkthrough that comes out places every hunk of the digest, each exactly once. */
  lemma EveryHunkOnce(w: Walkthrough, digest: seq<Hunk>)
    requires Proper(w, Expected(digest))
    ensures
      var omitted := Omitted(digest, set id | id in PlacedIds(w));
      var placed := PlacedIds(w.(support := w.support + [Stop(OMITTED_TITLE, omitted)]));
      && Distinct(placed)
      && (forall id :: id in placed <==> id in Expected(digest))
      && (omitted == [] ==> placed == PlacedIds(w))
  {
    hide PlacedIds, Omitted, Distinct, Expected, FilledChapters, FilledStops;
    var before := PlacedIds(w);
    var omitted := Omitted(digest, set id | id in before);
    OmittedExactly(digest, set id | id in before);
    PlacedAfterwards(w, Stop(OMITTED_TITLE, omitted));
    DistinctConcat(before, omitted);
    assert forall id :: id in before ==> id in Expected(digest);
  }

  /* What is placed, counted */

  ghost function TimesInStops(stops: seq<Stop>, id: HunkId): nat {
    if stops == [] then 0 else multiset(stops[0].hunkIds)[id] + TimesInStops(stops[1..], id)
  }

  ghost function TimesInChapters(chapters: seq<Chapter>, id: HunkId): nat {
    if chapters == [] then 0 else TimesInStops(chapters[0].stops, id) + TimesInChapters(chapters[1..], id)
  }

  /** How often a walkthrough names a hunk, in all stops of all chapters and in the support items. */
  ghost function Times(w: Walkthrough, id: HunkId): nat {
    TimesInChapters(w.chapters, id) + TimesInStops(w.support, id)
  }

  lemma {:induction false} TimesInMoreStops(stops: seq<Stop>, stop: Stop, id: HunkId)
    ensures TimesInStops(stops + [stop], id) == TimesInStops(stops, id) + multiset(stop.hunkIds)[id]
  {
    if stops == [] {
      assert [] + [stop] == [stop];
    } else {
      assert (stops + [stop])[1..] == stops[1..] + [stop];
      TimesInMoreStops(stops[1..], stop, id);
    }
  }

  lemma {:induction false} StopIdsCount(stops: seq<Stop>, id: HunkId)
    ensures multiset(StopIds(stops))[id] == TimesInStops(stops, id)
  {
    if stops != [] {
      var last := |stops| - 1;
      StopIdsCount(stops[..last], id);
      TimesInMoreStops(stops[..last], stops[last], id);
      assert stops == stops[..last] + [stops[last]];
    }
  }

  lemma {:induction false} TimesInMoreChapters(chapters: seq<Chapter>, chapter: Chapter, id: HunkId)
    ensures TimesInChapters(chapters + [chapter], id) == TimesInChapters(chapters, id) + TimesInStops(chapter.stops, id)
  {
    if chapters == [] {
      assert [] + [chapter] == [chapter];
    } else {
      assert (chapters + [chapter])[1..] == chapters[1..] + [chapter];
      TimesInMoreChapters(chapters[1..], chapter, id);
    }
  }

  lemma {:induction false} ChapterIdsCount(chapters: seq<Chapter>, id: HunkId)
    ensures multiset(ChapterIds(chapters))[id] == TimesInChapters(chapters, id)
  {
    if chapters != [] {
      var last := |chapters| - 1;
      ChapterIdsCount(chapters[..last], id);
      StopIdsCount(chapters[last].stops, id);
      TimesInMoreChapters(chapters[..last], chapters[last], id);
      assert chapters == chapters[..last] + [chapters[last]];
    }
  }

  lemma PlacedCount(w: Walkthrough, id: HunkId)
    ensures multiset(PlacedIds(w))[id] == Times(w, id)
  {
    ChapterIdsCount(w.chapters, id);
    StopIdsCount(w.support, id);
  }

  lemma {:induction false} DistinctCount(ids: seq<HunkId>)
    ensures Distinct(ids) <==> forall id :: multiset(ids)[id] <= 1
  {
    if ids != [] {
      var last := |ids| - 1;
      DistinctCount(ids[..last]);
      assert ids == ids[..last] + [ids[last]];
      if Distinct(ids) {
        assert ids[last] !in ids[..last];
      }
      if forall id :: multiset(ids)[id] <= 1 {
        assert multiset(ids)[ids[last]] == multiset(ids[..last])[ids[last]] + 1;
        forall id
          ensures multiset(ids[..last])[id] <= 1
        {
          assert multiset(ids[..last])[id] <= multiset(ids)[id];
        }
      }
    }
  }

  /** Chapters with stops, hunks everywhere, and no hunk that is unknown or named twice. */
  ghost predicate IsComplete(w: Walkthrough, digest: seq<Hunk>) {
    && w.chapters != []
    && (forall chapter, stop :: chapter in w.chapters && stop in chapter.stops ==> stop.hunkIds != [])
    && (forall chapter :: chapter in w.chapters ==> chapter.stops != [])
    && (forall stop :: stop in w.support ==> stop.hunkIds != [])
    && (forall id :: Times(w, id) <= 1)
    && forall id :: Times(w, id) > 0 ==> exists hunk :: hunk in digest && hunk.id == id
  }

  lemma FilledExactly(stops: seq<Stop>)
    ensures FilledStops(stops) <==> forall stop :: stop in stops ==> stop.hunkIds != []
  {
    assert forall i :: 0 <= i < |stops| ==> stops[i] in stops;
  }

  lemma FilledChaptersExactly(chapters: seq<Chapter>)
    ensures FilledChapters(chapters) <==>
      && (forall chapter, stop :: chapter in chapters && stop in chapter.stops ==> stop.hunkIds != [])
      && (forall chapter :: chapter in chapters ==> chapter.stops != [])
  {
    assert forall i :: 0 <= i < |chapters| ==> chapters[i] in chapters;
    forall chapter: Chapter
      ensures FilledStops(chapter.stops) <==> forall stop :: stop in chapter.stops ==> stop.hunkIds != []
    {
      FilledExactly(chapter.stops);
    }
  }

  lemma KnownExactly(ids: seq<HunkId>, digest: seq<Hunk>)
    ensures (forall i :: 0 <= i < |ids| ==> ids[i] in Expected(digest))
       <==> forall id :: multiset(ids)[id] > 0 ==> exists hunk :: hunk in digest && hunk.id == id
  {
    assert forall id :: id in ids <==> multiset(ids)[id] > 0;
    assert forall i :: 0 <= i < |ids| ==> ids[i] in ids;
    assert forall id :: id in Expected(digest) <==> exists hunk :: hunk in digest && hunk.id == id;
  }

  lemma ProperExactly(w: Walkthrough, digest: seq<Hunk>)
    ensures Proper(w, Expected(digest)) <==> IsComplete(w, digest)
  {
    hide FilledStops, FilledChapters, PlacedIds, Times, Expected, Distinct;
    FilledChaptersExactly(w.chapters);
    FilledExactly(w.support);
    DistinctCount(PlacedIds(w));
    KnownExactly(PlacedIds(w), digest);
    forall id
      ensures multiset(PlacedIds(w))[id] == Times(w, id)
    {
      PlacedCount(w, id);
    }
  }

  /** The ids are those of the hunks at these indices, which go up. */
  ghost predicate AreIdsAt(digest: seq<Hunk>, indices: seq<nat>, ids: seq<HunkId>) {
    && |indices| == |ids|
    && (forall k :: 0 <= k < |indices| ==> indices[k] < |digest| && digest[indices[k]].id == ids[k])
    && forall k, l :: 0 <= k < l < |indices| ==> indices[k] < indices[l]
  }

  lemma OneHunkLater(digest: seq<Hunk>, indices: seq<nat>, ids: seq<HunkId>)
    requires digest != [] && AreIdsAt(digest[..|digest| - 1], indices, ids)
    ensures AreIdsAt(digest, indices, ids)
    ensures AreIdsAt(digest, indices + [|digest| - 1], ids + [digest[|digest| - 1].id])
  {
  }

  /** What was left out is listed in the order of the digest. */
  lemma {:induction false} OmittedInOrder(digest: seq<Hunk>, placed: set<HunkId>) returns (indices: seq<nat>)
    ensures AreIdsAt(digest, indices, Omitted(digest, placed))
  {
    indices := [];
    if digest != [] {
      hide AreIdsAt;
      var last := |digest| - 1;
      indices := OmittedInOrder(digest[..last], placed);
      OneHunkLater(digest, indices, Omitted(digest[..last], placed));
      var id := digest[last].id;
      if id !in placed && id !in Omitted(digest[..last], placed) {
        indices := indices + [last];
      }
    }
  }

  /** The accepted walkthrough names every hunk of the digest exactly once, and nothing else; what it
      said is kept, and all it left out is in one more support item, in the order of the digest. */
  ghost predicate Completes(w: Walkthrough, digest: seq<Hunk>, result: Walkthrough) {
    && (forall id :: Times(result, id) == if exists hunk :: hunk in digest && hunk.id == id then 1 else 0)
    && (result == w
        || exists omitted: seq<HunkId>, indices: seq<nat> ::
             && result == w.(support := w.support + [Stop("Other changes", omitted)]) && omitted != []
             && AreIdsAt(digest, indices, omitted))
  }

  lemma CompletesExactly(w: Walkthrough, digest: seq<Hunk>)
    requires Proper(w, Expected(digest))
    ensures
      var omitted := Omitted(digest, set id | id in PlacedIds(w));
      Completes(w, digest, if omitted == [] then w else w.(support := w.support + [Stop(OMITTED_TITLE, omitted)]))
  {
    hide PlacedIds, Omitted, Times, Distinct, Expected;
    var omitted := Omitted(digest, set id | id in PlacedIds(w));
    var whole := w.(support := w.support + [Stop(OMITTED_TITLE, omitted)]);
    var result := if omitted == [] then w else whole;
    EveryHunkOnce(w, digest);
    DistinctCount(PlacedIds(result));
    InExpected(digest);
    forall id
      ensures Times(result, id) == if exists hunk :: hunk in digest && hunk.id == id then 1 else 0
    {
      PlacedCount(result, id);
      assert id in PlacedIds(result) <==> multiset(PlacedIds(result))[id] > 0;
    }
    var indices := OmittedInOrder(digest, set id | id in PlacedIds(w));
    assert AreIdsAt(digest, indices, omitted);
  }

  lemma AcceptedExactly(w: Walkthrough, digest: seq<Hunk>)
    ensures Proper(w, Expected(digest)) <==> IsComplete(w, digest)
    ensures Proper(w, Expected(digest)) ==>
      var omitted := Omitted(digest, set id | id in PlacedIds(w));
      Completes(w, digest, if omitted == [] then w else w.(support := w.support + [Stop(OMITTED_TITLE, omitted)]))
  {
    hide Proper, IsComplete, Completes;
    ProperExactly(w, digest);
    if Proper(w, Expected(digest)) {
      CompletesExactly(w, digest);
    }
  }

  lemma InExpected(digest: seq<Hunk>)
    ensures forall id :: id in Expected(digest) <==> exists hunk :: hunk in digest && hunk.id == id
  {
  }

  /* The changed files, as the prompt lists them */

  datatype ChangedFile = ChangedFile(path: string, status: string)

  datatype PromptFile = PromptFile(path: string, additions: nat, deletions: nat, status: string)

  /** The paths of the digest, each where it first appears. */
  function Paths(digest: seq<Hunk>): seq<string> {
    if digest == [] then []
    else
      var earlier := Paths(digest[..|digest| - 1]);
      var path := digest[|digest| - 1].path;
      if path in earlier then earlier else earlier + [path]
  }

  /** The lines added and deleted in the hunks of one path. */
  function LinesOf(digest: seq<Hunk>, path: string): (nat, nat) {
    if digest == [] then (0, 0)
    else
      var earlier := LinesOf(digest[..|digest| - 1], path);
      var hunk := digest[|digest| - 1];
      if hunk.path == path then (earlier.0 + hunk.additions, earlier.1 + hunk.deletions) else earlier
  }

  /** The status of the last file with the path; `modified` for a path without a file. */
  function StatusOf(files: seq<ChangedFile>, path: string): string {
    if files == [] then "modified"
    else if files[|files| - 1].path == path then files[|files| - 1].status
    else StatusOf(files[..|files| - 1], path)
  }

  lemma {:induction false} PathsExactly(digest: seq<Hunk>, path: string)
    ensures path in Paths(digest) <==> exists i :: 0 <= i < |digest| && digest[i].path == path
    ensures path !in Paths(digest) ==> LinesOf(digest, path) == (0, 0)
  {
    if digest != [] {
      var last := |digest| - 1;
      PathsExactly(digest[..last], path);
      assert digest[last].path == path || forall i :: 0 <= i < |digest| && digest[i].path == path ==> i < last;
    }
  }

  /** `order` are the keys of the map, in the order in which they were first set. */
  method TotalsByPath(digest: seq<Hunk>) returns (totals: map<string, (nat, nat)>, order: seq<string>)
    ensures order == Paths(digest)
    ensures forall path :: path in totals <==> path in order
    ensures forall path :: path in totals ==> totals[path] == LinesOf(digest, path)
  {
    totals, order := map[], [];
    for n := 0 to |digest|
      invariant order == Paths(digest[..n])
      invariant forall path :: path in totals <==> path in order
      invariant forall path :: path in totals ==> totals[path] == LinesOf(digest[..n], path)
    {
      var hunk := digest[n];
      assert digest[..n + 1][..n] == digest[..n];
      PathsExactly(digest[..n], hunk.path);
      var total := if hunk.path in totals then totals[hunk.path] else (0, 0);
      order := if hunk.path in totals then order else order + [hunk.path];
      totals := totals[hunk.path := (total.0 + hunk.additions, total.1 + hunk.deletions)];
    }
    assert digest[..|digest|] == digest;
  }

  method StatusByPath(files: seq<ChangedFile>) returns (statuses: map<string, string>)
    ensures forall path :: (if path in statuses then statuses[path] else "modified") == StatusOf(files, path)
  {
    statuses := map[];
    for n := 0 to |files|
      invariant forall path :: (if path in statuses then statuses[path] else "modified") == StatusOf(files[..n], path)
    {
      assert files[..n + 1][..n] == files[..n];
      statuses := statuses[files[n].path := files[n].status];
    }
    assert files[..|files|] == files;
  }

  /** The lines of a path are those of its hunks. */
  lemma {:induction false} LinesOfConcat(a: seq<Hunk>, b: seq<Hunk>, path: string)
    ensures
      var (more, less), (laterMore, laterLess) := LinesOf(a, path), LinesOf(b, path);
      LinesOf(a + b, path) == (more + laterMore, less + laterLess)
    ensures |a| == 1 ==> LinesOf(a, path) == if a[0].path == path then (a[0].additions, a[0].deletions) else (0, 0)
  {
    if b == [] {
      assert a + b == a;
    } else {
      var last := |b| - 1;
      assert (a + b)[..|a + b| - 1] == a + b[..last];
      LinesOfConcat(a, b[..last], path);
    }
  }

  /** The status of a path is that of the last file with that path. */
  lemma {:induction false} StatusExactly(files: seq<ChangedFile>, path: string)
    ensures
      if exists file :: file in files && file.path == path then
        exists k :: 0 <= k < |files| && files[k].path == path && files[k].status == StatusOf(files, path)
          && forall l :: k < l < |files| ==> files[l].path != path
      else StatusOf(files, path) == "modified"
  {
    if files != [] {
      var last := |files| - 1;
      assert files == files[..last] + [files[last]];
      if files[last].path != path {
        StatusExactly(files[..last], path);
      }
    }
  }

  /** Each path is listed once, in the order in which the paths first appear. */
  lemma {:induction false} PathsInOrder(digest: seq<Hunk>) returns (firsts: seq<nat>)
    ensures |firsts| == |Paths(digest)| && Distinct(Paths(digest))
    ensures forall k :: 0 <= k < |firsts| ==>
      && firsts[k] < |digest| && digest[firsts[k]].path == Paths(digest)[k]
      && forall i :: 0 <= i < firsts[k] ==> digest[i].path != Paths(digest)[k]
    ensures forall k, l :: 0 <= k < l < |firsts| ==> firsts[k] < firsts[l]
  {
    firsts := [];
    PathsDistinct(digest);
    if digest != [] {
      var last := |digest| - 1;
      firsts := PathsInOrder(digest[..last]);
      PathsExactly(digest[..last], digest[last].path);
      if digest[last].path !in Paths(digest[..last]) {
        firsts := firsts + [last];
      }
    }
  }

  /** Lists each path of the digest once, in order of appearance, with the lines of all its hunks. */
  method PromptReviewFiles(files: seq<ChangedFile>, digest: seq<Hunk>) returns (listed: seq<PromptFile>)
    ensures |listed| == |Paths(digest)|
    ensures forall i :: 0 <= i < |listed| ==>
      var path := Paths(digest)[i];
      listed[i] == PromptFile(path, LinesOf(digest, path).0, LinesOf(digest, path).1, StatusOf(files, path))
  {
    hide Paths, LinesOf, StatusOf;
    var totals, order := TotalsByPath(digest);
    var statuses := StatusByPath(files);
    listed := [];
    for n := 0 to |order|
      invariant |listed| == n
      invariant forall i :: 0 <= i < n ==>
        var path := order[i];
        listed[i] == PromptFile(path, LinesOf(digest, path).0, LinesOf(digest, path).1, StatusOf(files, path))
    {
      var path := order[n];
      listed := listed + [PromptFile(path, totals[path].0, totals[path].1,
        if path in statuses then statuses[path] else "modified")];
    }
  }

  function SumLines(digest: seq<Hunk>): (nat, nat) {
    if digest == [] then (0, 0)
    else
      var earlier := SumLines(digest[..|digest| - 1]);
      (earlier.0 + digest[|digest| - 1].additions, earlier.1 + digest[|digest| - 1].deletions)
  }

  function SumOver(paths: seq<string>, digest: seq<Hunk>): (nat, nat) {
    if paths == [] then (0, 0)
    else
      var rest := SumOver(paths[1..], digest);
      var lines := LinesOf(digest, paths[0]);
      (lines.0 + rest.0, lines.1 + rest.1)
  }

  lemma {:induction false} OneHunkMore(paths: seq<string>, digest: seq<Hunk>)
    requires digest != [] && Distinct(paths)
    ensures
      var before, after := SumOver(paths, digest[..|digest| - 1]), SumOver(paths, digest);
      var hunk := digest[|digest| - 1];
      after == if hunk.path in paths then (before.0 + hunk.additions, before.1 + hunk.deletions) else before
  {
    if paths != [] {
      assert paths == [paths[0]] + paths[1..];
      OneHunkMore(paths[1..], digest);
    }
  }

  lemma {:induction false} OnePathMore(paths: seq<string>, path: string, digest: seq<Hunk>)
    ensures
      var before, lines := SumOver(paths, digest), LinesOf(digest, path);
      SumOver(paths + [path], digest) == (before.0 + lines.0, before.1 + lines.1)
  {
    if paths == [] {
      assert [] + [path] == [path];
    } else {
      assert (paths + [path])[1..] == paths[1..] + [path];
      OnePathMore(paths[1..], path, digest);
    }
  }

  lemma {:induction false} PathsDistinct(digest: seq<Hunk>)
    ensures Distinct(Paths(digest))
  {
    if digest != [] {
      PathsDistinct(digest[..|digest| - 1]);
    }
  }

  lemma PathsWith(digest: seq<Hunk>)
    requires digest != []
    ensures
      var earlier, hunk := digest[..|digest| - 1], digest[|digest| - 1];
      if hunk.path in Paths(earlier) then Paths(digest) == Paths(earlier)
      else
        Paths(digest) == Paths(earlier) + [hunk.path] && LinesOf(digest, hunk.path) == (hunk.additions, hunk.deletions)
  {
    PathsExactly(digest[..|digest| - 1], digest[|digest| - 1].path);
  }

  /** What one more hunk adds to the listed paths is what it adds to the digest. */
  lemma PathsGrow(digest: seq<Hunk>)
    requires digest != []
    ensures
      var before, hunk := SumOver(Paths(digest[..|digest| - 1]), digest[..|digest| - 1]), digest[|digest| - 1];
      SumOver(Paths(digest), digest) == (before.0 + hunk.additions, before.1 + hunk.deletions)
  {
    hide Distinct, SumOver, Paths, LinesOf;
    var earlier, path := digest[..|digest| - 1], digest[|digest| - 1].path;
    PathsDistinct(earlier);
    PathsWith(digest);
    OneHunkMore(Paths(earlier), digest);
    if path !in Paths(earlier) {
      OnePathMore(Paths(earlier), path, digest);
    }
  }

  /** No line is lost or counted twice: the listed files add up to the digest. */
  lemma {:induction false} LinesAreConserved(digest: seq<Hunk>)
    ensures SumOver(Paths(digest), digest) == SumLines(digest)
  {
    if digest != [] {
      LinesAreConserved(digest[..|digest| - 1]);
      PathsGrow(digest);
    }
  }
}
