/** Paging through a diff whose files are still being parsed.

    The generator behind a snapshot is the list of files it has yet to yield and whether it throws
    after the last of them. Calls do not overlap: each awaits the one before. */
module CloudInventory {
  import opened Numbers
  import opened Wrappers

  const MAX_BATCH: nat := 32

  datatype Acquisition = Complete | Streaming | Broken

  /** One changed file in an inventory page, with its position in arrival order. */
  datatype SessionFile<+F> = SessionFile(ordinal: nat, file: F)

  datatype Page<+F> = Page(files: seq<SessionFile<F>>, nextOffset: Option<nat>)

  datatype InventoryError = StreamStopped

  function SessionFiles<F>(files: seq<F>, ordinal: nat): (r: seq<SessionFile<F>>)
    ensures |r| == |files|
    ensures forall i :: 0 <= i < |r| ==> r[i] == SessionFile(ordinal + i, files[i])
  {
    seq(|files|, i requires 0 <= i < |files| => SessionFile(ordinal + i, files[i]))
  }

  /** `files.slice(offset, offset + limit)` */
  function Slice<T>(files: seq<T>, offset: nat, limit: nat): seq<T> {
    files[Min(offset, |files|)..Min(offset + limit, |files|)]
  }

  class CloudSnapshot<F> {
    var files: seq<F>
    var acquisition: Acquisition
    var pending: seq<F>
    const breaks: bool

    // every file the generator yields before it ends or throws
    ghost const all: seq<F>

    ghost predicate Valid()
      reads this
    {
      && files <= all
      && (acquisition.Complete? ==> files == all && !breaks)
      && (acquisition.Streaming? ==> files + pending == all)
      && (acquisition.Broken? ==> breaks)
    }

    /** A snapshot is stored once the first result of the generator is known. */
    constructor (stream: seq<F>, breaks: bool)
      requires stream == [] ==> !breaks
      ensures Valid() && all == stream && this.breaks == breaks
      ensures files == if stream == [] then [] else [stream[0]]
      ensures acquisition == if stream == [] then Complete else Streaming
    {
      all := stream;
      this.breaks := breaks;
      files := if stream == [] then [] else stream[..1];
      pending := if stream == [] then [] else stream[1..];
      acquisition := if stream == [] then Complete else Streaming;
    }

    /** Takes the next files from the generator: at most a batch, and fewer only at its end. */
    method ReadBatch(limit: nat) returns (stopped: bool)
      requires Valid() && acquisition.Streaming? && limit > 0
      modifies this
      ensures Valid()
      ensures stopped <==> acquisition.Broken?
      ensures
        var wanted := if limit < 32 then limit else 32;
        if wanted <= |old(pending)| then
          // a whole batch, in arrival order
          && acquisition.Streaming? && files == old(files) + old(pending)[..wanted] && pending == old(pending)[wanted..]
        else if breaks then acquisition.Broken? && files == old(files)
        else acquisition.Complete? && files == all && pending == []
    {
      var batch: seq<F> := [];
      var complete := false;
      ghost var before := pending;
      while |batch| < Min(limit, MAX_BATCH) && !complete
        invariant batch + pending == before && |batch| <= Min(limit, MAX_BATCH)
        invariant complete ==> pending == [] && !breaks && |batch| < Min(limit, MAX_BATCH)
        invariant files == old(files) && acquisition.Streaming?
        decreases |pending|, !complete
      {
        if pending == [] && breaks {
          acquisition := Broken;
          return true;
        }
        complete := pending == [];
        if !complete {
          batch := batch + pending[..1];
          pending := pending[1..];
        }
      }
      assert before == batch + pending;
      files := files + batch;
      acquisition := if complete then Complete else acquisition;
      return false;
    }

    method Inventory(offset: nat, limit: nat) returns (result: Result<Page<F>, InventoryError>)
      requires Valid() && limit > 0
      modifies this
      ensures Valid() && old(files) <= files
      ensures result.Err? ==> acquisition.Broken?
      ensures old(acquisition).Broken? ==> result.Err?
      ensures offset < |old(files)| && !old(acquisition).Broken? ==>
        result.Ok? && files == old(files) && acquisition == old(acquisition)
      ensures result.Ok? ==>
        var page := result.value;
        // the page is full unless it is the last of the files there are
        && |page.files|
             == (if |files| <= offset then 0 else if limit < |files| - offset then limit else |files| - offset)
        && (forall i :: 0 <= i < |page.files| ==> page.files[i] == SessionFile(offset + i, files[offset + i]))
        && (page.nextOffset == None <==> acquisition.Complete? && |all| <= offset + |page.files|)
        && (page.nextOffset.Some? ==> page.files != [] && page.nextOffset == Some(offset + |page.files|))
      decreases |pending|, acquisition.Streaming?
    {
      if acquisition.Broken? {
        return Err(StreamStopped);
      }
      if |files| <= offset && acquisition.Streaming? {
        var stopped := ReadBatch(limit);
        if stopped {
          return Err(StreamStopped);
        }
        result := Inventory(offset, limit);
        return;
      }
      var page := Slice(files, offset, limit);
      var nextOffset := offset + |page|;
      result := Ok(Page(SessionFiles(page, offset),
        if nextOffset < |files| || acquisition.Streaming? then Some(nextOffset) else None));
    }
  }

  lemma PagesJoin<F>(all: seq<F>, files: seq<F>, n: nat, limit: nat)
    requires files <= all && n <= |files|
    ensures var page := Slice(files, n, limit);
            n + |page| <= |all|
            && SessionFiles(all[..n], 0) + SessionFiles(page, n) == SessionFiles(all[..n + |page|], 0)
  {
  }

  /** Following `nextOffset` from 0 delivers every file of the stream once, in arrival order, with
      its index as ordinal, and ends; it fails exactly when the stream breaks off. */
  method FollowPages<F>(snapshot: CloudSnapshot<F>, limits: nat -> nat)
      returns (collected: seq<SessionFile<F>>, completed: bool)
    requires snapshot.Valid() && forall i :: limits(i) > 0
    modifies snapshot
    ensures snapshot.Valid()
    ensures completed <==> !snapshot.breaks
    ensures completed ==> collected == SessionFiles(snapshot.all, 0)
    ensures |collected| <= |snapshot.all| && collected == SessionFiles(snapshot.all[..|collected|], 0)
  {
    collected := [];
    var offset: Option<nat> := Some(0);
    var calls := 0;
    while offset.Some?
      invariant snapshot.Valid()
      invariant |collected| <= |snapshot.files| && snapshot.files <= snapshot.all
      invariant collected == SessionFiles(snapshot.all[..|collected|], 0)
      invariant offset.Some? ==> offset.value == |collected|
      invariant offset.None? ==> |collected| == |snapshot.all| && !snapshot.breaks
      decreases |snapshot.all| - |collected|, offset.Some?
    {
      var result := snapshot.Inventory(offset.value, limits(calls));
      if result.Err? {
        return collected, false;
      }
      PagesJoin(snapshot.all, snapshot.files, |collected|, limits(calls));
      calls := calls + 1;
      collected := collected + result.value.files;
      offset := result.value.nextOffset;
    }
    completed := true;
  }
}
