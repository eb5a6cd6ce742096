/** The loop that feeds the response to the worker and yields the parsed files. */
module DiffStream {
  import opened Wrappers
  import opened HeaderLines
  import opened DiffSplit
  import opened DiffWorker

  function Concat(texts: seq<Text>): Text {
    if texts == [] then "" else texts[0] + Concat(texts[1..])
  }

  lemma {:induction false} ConcatAppend(texts: seq<Text>, more: seq<Text>)
    ensures Concat(texts + more) == Concat(texts) + Concat(more)
  {
    if texts == [] {
      assert texts + more == more;
    } else {
      assert (texts + more)[1..] == texts[1..] + more;
      ConcatAppend(texts[1..], more);
    }
  }

  /** What the parser makes of the patches, up to the first one it makes nothing of. */
  function ParsedPrefix<F>(patches: seq<Text>, parse: Text -> Option<F>): (files: seq<F>)
    ensures |files| <= |patches|
    ensures forall i :: 0 <= i < |files| ==> parse(patches[i]) == Some(files[i])
    ensures |files| < |patches| ==> parse(patches[|files|]).None?
  {
    if patches == [] then [] else
      match parse(patches[0])
      case None => []
      case Some(file) => [file] + ParsedPrefix(patches[1..], parse)
  }

  lemma {:induction false} ParsedPrefixIs<F>(patches: seq<Text>, parse: Text -> Option<F>, files: seq<F>)
    requires |files| <= |patches|
    requires forall i :: 0 <= i < |files| ==> parse(patches[i]) == Some(files[i])
    requires |files| < |patches| ==> parse(patches[|files|]).None?
    ensures ParsedPrefix(patches, parse) == files
  {
    if patches != [] && files != [] {
      assert parse(patches[0]) == Some(files[0]);
      ParsedPrefixIs(patches[1..], parse, files[1..]);
    }
  }

  /** The patches cut by the worker and the files yielded for them, while `publication` is pending. */
  ghost predicate Yielded<F>(parse: Text -> Option<F>, cut: seq<Text>, files: seq<F>, publication: Publication<F>) {
    && |cut| == |files| + (if publication.File? || publication.Failed? then 1 else 0)
    && (forall i :: 0 <= i < |files| ==> parse(cut[i]) == Some(files[i]))
    && (publication.File? ==> parse(cut[|files|]) == Some(publication.file))
    && (publication.Failed? ==> parse(cut[|files|]).None?)
  }

  lemma FailedEarly<F>(worker: Worker<F>, received: seq<Text>, next: nat, files: seq<F>)
    requires worker.Valid() && next <= |received| && (worker.finished ==> next == |received|)
    requires worker.consumed == Concat(received[..next]) && Yielded(worker.parse, worker.cut, files, Failed)
    ensures files == ParsedPrefix(OneShot(Concat(received)), worker.parse)
    ensures |files| < |OneShot(Concat(received))|
  {
    hide HeaderAt, OnTrack, CutsOnly, OneShot;
    assert received == received[..next] + received[next..];
    ConcatAppend(received[..next], received[next..]);
    WorkerCuts(worker, Concat(received[next..]));
    ParsedPrefixIs(OneShot(Concat(received)), worker.parse, files);
  }

  /** `received` are the decoded chunks of the response; the last one is what the decoder flushes when
      the response is done. Yields a file per patch of the whole text until one does not parse. */
  method Stream<F>(received: seq<Text>, parse: Text -> Option<F>) returns (files: seq<F>, completed: bool)
    requires received != []
    ensures files == ParsedPrefix(OneShot(Concat(received)), parse)
    ensures completed <==> |files| == |OneShot(Concat(received))|
    // and the patches of a text start at exactly its lines `diff --git a/… b/…`
    ensures exists starts :: CutAtHeaders(Concat(received), starts, OneShot(Concat(received)))
  {
    hide HeaderAt, OnTrack, CutsOnly, OneShot, ParsedPrefix, CutAtHeaders;
    ghost var starts := OneShotCutsAtHeaders(Concat(received));
    var worker := new Worker(parse);
    var publication: Publication<F> := Ready;
    var end := false;
    var next := 0;
    files := [];
    assert received[..0] == [];
    while !publication.Complete?
      invariant fresh(worker) && worker.Valid() && worker.parse == parse
      invariant 0 <= next <= |received| && (end <==> next == |received|)
      invariant worker.consumed == Concat(received[..next])
      invariant worker.finished ==> end && !publication.Ready?
      invariant worker.failed == publication.Failed?
      invariant Yielded(parse, worker.cut, files, publication)
      invariant publication.Complete? ==> worker.finished && worker.cut == OneShot(worker.consumed)
      decreases |received| - next, !worker.finished, |worker.buffer|, publication.File?
    {
      ghost var cut := worker.cut;
      if publication.Failed? {
        FailedEarly(worker, received, next, files);
        return files, false;
      } else if publication.File? {
        files := files + [publication.file];
        publication := worker.Handle(Acknowledge);
      } else if end {
        publication := worker.Handle(Finish);
      } else {
        assert received[..next + 1] == received[..next] + [received[next]];
        ConcatAppend(received[..next], [received[next]]);
        var text := received[next];
        next := next + 1;
        end := next == |received|;
        publication := worker.Handle(Chunk(text));
      }
      assert forall i :: 0 <= i < |cut| ==> worker.cut[i] == cut[i];
    }
    assert received[..next] == received;
    ParsedPrefixIs(OneShot(Concat(received)), parse, files);
    completed := true;
  }

  lemma WorkerCuts<F>(worker: Worker<F>, more: Text)
    requires worker.Valid() && (worker.finished ==> more == "")
    ensures worker.cut <= OneShot(worker.consumed + more)
  {
    hide HeaderAt, OnTrack;
  }
}
