/** The paths under which reviews are addressed in the browser: parsing them, writing them, and when
    one undoes the other. */
module ReviewRoute {
  import opened Utf16
  import opened Wrappers
  import HeaderLines
  import opened Numbers
  import opened PercentEncoding

  datatype View = Overview | Files

  datatype Route =
    | Home
    | Repository(owner: string, repo: string)
    | Pull(owner: string, repo: string, number: nat, view: View)
    | Commit(owner: string, repo: string, ref: string)
    | Compare(owner: string, repo: string, base: string, head: string)

  datatype RouteError = Invalid | Unsupported

  /* Searching and splitting */

  function IndexOf(s: string, part: string): (r: Option<nat>)
    requires part != ""
    ensures r.Some? ==> r.value + |part| <= |s|
  {
    if |s| < |part| then None
    else if part <= s then Some(0)
    else
      var later := IndexOf(s[1..], part);
      if later.Some? then Some(later.value + 1) else None
  }

  predicate Includes(s: string, part: string)
    requires part != ""
  {
    IndexOf(s, part).Some?
  }

  function Split(s: string, separator: string): (r: seq<string>)
    requires separator != ""
    ensures |r| >= 1
    decreases |s|
  {
    var i := IndexOf(s, separator);
    if i.None? then [s] else [s[..i.value]] + Split(s[i.value + |separator|..], separator)
  }

  predicate EndsWith(s: string, part: string) {
    |part| <= |s| && s[|s| - |part|..] == part
  }

  /* What a route may hold */

  predicate NamePart(s: string) {
    s != "" && forall i :: 0 <= i < |s| ==> s[i] != '/' && s[i] != ':' && s[i] != '#' && s[i] != '%'
  }

  predicate Namespace(s: string) {
    var parts := Split(s, "/");
    forall i :: 0 <= i < |parts| ==> NamePart(parts[i])
  }

  predicate RevisionChar(c: char) {
    c > ' ' && c != '\U{7f}' && c != '~' && c != '^' && c != ':' && c != '?' && c != '*' && c != '[' && c != '\\'
  }

  predicate Revision(s: string) {
    && s != "" && |Units(s)| <= 255 && s != "@"
    && s[0] != '-' && s[0] != '.' && s[|s| - 1] != '.' && s[|s| - 1] != '/'
    && !Includes(s, "..") && !Includes(s, "//") && !Includes(s, "@{")
    && (var parts := Split(s, "/");
        forall i :: 0 <= i < |parts| ==> !("." <= parts[i]) && !EndsWith(parts[i], ".lock"))
    && forall i :: 0 <= i < |s| ==> RevisionChar(s[i])
  }

  predicate Valid(r: Route) {
    match r
    case Home => true
    case Repository(owner, repo) => Namespace(owner) && NamePart(repo)
    case Pull(owner, repo, number, _) => Namespace(owner) && NamePart(repo) && 0 < number <= MAX_SAFE_INTEGER
    case Commit(owner, repo, ref) => Namespace(owner) && NamePart(repo) && Revision(ref)
    case Compare(owner, repo, base, head) => Namespace(owner) && NamePart(repo) && Revision(base) && Revision(head)
  }

  predicate Hash(s: string) {
    7 <= |s| <= 40 && forall i :: 0 <= i < |s| ==> HexValue(s[i]).Some?
  }

  /* Writing */

  function Path(owner: string, repo: string, tail: string): string {
    "/" + (owner + ("/" + (repo + ("/" + tail))))
  }

  function ViewTail(view: View): string {
    if view.Files? then "/files" else ""
  }

  function Tail(r: Route): string
    requires !r.Home?
  {
    match r
    case Repository(_, _) => "pulls"
    case Pull(_, _, number, view) => "pull/" + (Decimal(number) + ViewTail(view))
    case Commit(_, _, ref) => "commit/" + Encode(ref)
    case Compare(_, _, base, head) => "compare/" + (Encode(base) + ("..." + Encode(head)))
  }

  function Format(r: Route): string {
    if r.Home? then "/" else Path(Encode(r.owner), Encode(r.repo), Tail(r))
  }

  /* Parsing */

  /** The text up to the first slash. */
  function Until(s: string): (r: string)
    ensures r <= s && (forall i :: 0 <= i < |r| ==> r[i] != '/')
    ensures |r| < |s| ==> s[|r|] == '/'
  {
    if s == "" || s[0] == '/' then "" else [s[0]] + Until(s[1..])
  }

  datatype Segments = Segments(owner: string, repo: string, rest: string)

  /** `^\/([^/]+)\/([^/]+)(?:\/(.*))?$` */
  function MatchSegments(path: string): Option<Segments> {
    if path == "" || path[0] != '/' then None
    else
      var owner := Until(path[1..]);
      if owner == "" || 1 + |owner| == |path| then None
      else
        var after := path[|owner| + 2..];
        var repo := Until(after);
        if repo == "" then None
        else if |repo| == |after| then Some(Segments(owner, repo, ""))
        else
          var rest := after[|repo| + 1..];
          if exists i :: 0 <= i < |rest| && HeaderLines.IsTerminator(rest[i]) then None
          else Some(Segments(owner, repo, rest))
  }

  function WithoutSlash(path: string): string {
    if path != "" && path[|path| - 1] == '/' then path[..|path| - 1] else path
  }

  /** `^pull\/([1-9]\d*)(?:\/(files))?$` */
  function MatchPull(rest: string): Option<(nat, View)> {
    if !("pull/" <= rest) then None
    else
      var view := if EndsWith(rest[5..], "/files") then Files else Overview;
      var digits := if view.Files? then rest[5..|rest| - 6] else rest[5..];
      if digits != "" && digits[0] != '0' && Digits(digits) then Some((Number(digits), view)) else None
  }

  function Checked(r: Route): Result<Route, RouteError> {
    if Valid(r) then Ok(r) else Err(Invalid)
  }

  function ParseRest(owner: string, repo: string, rest: string): Result<Route, RouteError> {
    if rest == "" || rest == "pulls" then Checked(Repository(owner, repo))
    else
      var pull := MatchPull(rest);
      if pull.Some? then
        if pull.value.0 > MAX_SAFE_INTEGER then Err(Invalid)
        else Checked(Pull(owner, repo, pull.value.0, pull.value.1))
      else if "commit/" <= rest then
        var ref := Decode(rest[7..]);
        if ref.Err? || !Hash(ref.value) then Err(Invalid) else Checked(Commit(owner, repo, ref.value))
      else if "compare/" <= rest then
        var decoded := Decode(rest[8..]);
        if decoded.Err? then Err(Invalid)
        else
          var refs := Split(decoded.value, "...");
          if |refs| == 2 then Checked(Compare(owner, repo, refs[0], refs[1])) else Err(Unsupported)
      else Err(Unsupported)
  }

  function Parse(path: string): Result<Route, RouteError> {
    if path == "/" then Ok(Home)
    else
      var segments := MatchSegments(WithoutSlash(path));
      if segments.None? then Err(Invalid)
      else
        var owner, repo := Decode(segments.value.owner), Decode(segments.value.repo);
        if owner.Err? || repo.Err? || '/' in owner.value || '/' in repo.value then Err(Invalid)
        else ParseRest(owner.value, repo.value, segments.value.rest)
  }

  /* Names and revisions */

  lemma {:induction false} NotFound(s: string, part: string)
    requires part != "" && part[0] !in s
    ensures IndexOf(s, part) == None
  {
    if |s| >= |part| {
      assert s == [s[0]] + s[1..];
      NotFound(s[1..], part);
    }
  }

  lemma NoSlashNoSplit(s: string)
    requires '/' !in s
    ensures Split(s, "/") == [s]
  {
    NotFound(s, "/");
  }

  lemma HashIsRevision(s: string)
    requires Hash(s)
    ensures Revision(s)
  {
    assert forall c :: c in s ==> HexValue(c).Some?;
    NotFound(s, "..");
    NotFound(s, "//");
    NotFound(s, "@{");
    NoSlashNoSplit(s);
    AsciiUnits(s);
  }

  lemma {:induction false} ThreeDotsHoldTwo(s: string)
    requires !Includes(s, "..")
    ensures !Includes(s, "...")
  {
    if |s| >= 3 {
      assert "..." <= s ==> ".." <= s;
      ThreeDotsHoldTwo(s[1..]);
    }
  }

  lemma DotsAt(base: string, rest: string)
    requires base != ""
    ensures "..." <= base + rest ==> base[0] == '.' && (|base| > 1 ==> ".." <= base)
  {
    if "..." <= base + rest {
      assert (base + rest)[0] == "..."[0] && (base + rest)[1] == "..."[1];
    }
  }

  lemma {:induction false} DotsSplit(base: string, head: string)
    requires base == "" || base[|base| - 1] != '.'
    requires !Includes(base, "..") && !Includes(head, "..")
    ensures IndexOf(base + ("..." + head), "...") == Some(|base|)
  {
    var s := base + ("..." + head);
    if base == "" {
      assert s == "..." + head;
      assert "..." <= s;
    } else {
      DotsAt(base, "..." + head);
      assert s[1..] == base[1..] + ("..." + head);
      assert !Includes(base[1..], "..") by {
        assert |base| >= 2 || base[1..] == "";
      }
      DotsSplit(base[1..], head);
    }
  }

  /** Two revisions joined by three dots come apart at those dots and nowhere else. */
  lemma RevisionsSplit(base: string, head: string)
    requires Revision(base) && Revision(head)
    ensures Split(base + ("..." + head), "...") == [base, head]
  {
    var s := base + ("..." + head);
    DotsSplit(base, head);
    ThreeDotsHoldTwo(head);
    assert s[..|base|] == base;
    assert s[|base| + 3..] == head;
  }

  /* Paths */

  lemma {:induction false} UntilSlash(a: string, b: string)
    requires '/' !in a
    ensures Until(a + ("/" + b)) == a
  {
    if a == "" {
      assert a + ("/" + b) == "/" + b;
    } else {
      assert a == [a[0]] + a[1..];
      assert (a + ("/" + b))[1..] == a[1..] + ("/" + b);
      UntilSlash(a[1..], b);
    }
  }

  lemma AfterSlash(a: string, b: string)
    ensures ("/" + (a + ("/" + b)))[1..] == a + ("/" + b)
    ensures ("/" + (a + ("/" + b)))[|a| + 2..] == b
    ensures (a + ("/" + b))[|a| + 1..] == b
  {
  }

  predicate Clean(s: string) {
    s != "" && s[|s| - 1] != '/' && forall i :: 0 <= i < |s| ==> !HeaderLines.IsTerminator(s[i])
  }

  lemma PathEnd(owner: string, repo: string, tail: string)
    requires tail != ""
    ensures Path(owner, repo, tail)[|Path(owner, repo, tail)| - 1] == tail[|tail| - 1]
  {
  }

  lemma FirstSegment(owner: string, repo: string, tail: string)
    requires '/' !in owner
    ensures
      var path, after := Path(owner, repo, tail), repo + ("/" + tail);
      && path != "" && path[0] == '/' && path != "/" && |path| == |owner| + 2 + |after|
      && Until(path[1..]) == owner && path[|owner| + 2..] == after
  {
    AfterSlash(owner, repo + ("/" + tail));
    UntilSlash(owner, repo + ("/" + tail));
  }

  lemma SegmentsAre(path: string, owner: string, after: string, repo: string, rest: string)
    requires path != "" && path[0] == '/' && |path| == |owner| + 2 + |after|
    requires owner != "" && Until(path[1..]) == owner && path[|owner| + 2..] == after
    requires repo != "" && Until(after) == repo && |after| == |repo| + 1 + |rest| && after[|repo| + 1..] == rest
    requires Clean(rest)
    ensures MatchSegments(path) == Some(Segments(owner, repo, rest))
  {
    hide Until;
  }

  /** A path made of two components and a tail comes apart at the same places. */
  lemma PathSegments(owner: string, repo: string, tail: string)
    requires '/' !in owner && '/' !in repo && owner != "" && repo != "" && Clean(tail)
    ensures MatchSegments(WithoutSlash(Path(owner, repo, tail))) == Some(Segments(owner, repo, tail))
    ensures Path(owner, repo, tail) != "/"
  {
    var path, after := Path(owner, repo, tail), repo + ("/" + tail);
    hide Path, Until, MatchSegments, HeaderLines.IsTerminator;
    PathEnd(owner, repo, tail);
    FirstSegment(owner, repo, tail);
    AfterSlash(repo, tail);
    UntilSlash(repo, tail);
    assert WithoutSlash(path) == path;
    hide Clean;
    SegmentsAre(path, owner, after, repo, tail);
  }

  predicate TailChar(c: char) {
    Plain(c) || c == '/'
  }

  predicate AllTail(s: string) {
    forall i :: 0 <= i < |s| ==> TailChar(s[i])
  }

  lemma TailIsClean(s: string)
    requires AllTail(s) && s != "" && s[|s| - 1] != '/'
    ensures Clean(s)
  {
  }

  lemma DigitsTail(s: string)
    requires Digits(s)
    ensures AllTail(s) && (s != "" ==> s[|s| - 1] != '/')
  {
  }

  lemma PlainTail(s: string)
    requires AllPlain(s)
    ensures AllTail(s) && (s != "" ==> s[|s| - 1] != '/') && '/' !in s
  {
  }

  lemma WordTail(word: string, encoded: string)
    requires AllTail(word) && AllPlain(encoded) && encoded != ""
    ensures Clean(word + encoded)
  {
    PlainTail(encoded);
    hide TailChar, Plain;
    TailIsClean(word + encoded);
  }

  lemma PullTail(number: nat, view: View)
    ensures Clean("pull/" + (Decimal(number) + ViewTail(view)))
  {
    var digits := Decimal(number);
    assert AllTail("pull/") && AllTail(ViewTail(view));
    DecimalReads(number);
    DigitsTail(digits);
    hide TailChar, Decimal;
    TailIsClean("pull/" + (digits + ViewTail(view)));
  }

  lemma CommitTail(ref: string)
    requires ref != ""
    ensures Clean("commit/" + Encode(ref))
  {
    EncodeIsPlain(ref);
    assert AllTail("commit/");
    hide AllPlain, AllTail;
    WordTail("commit/", Encode(ref));
  }

  lemma CompareTail(base: string, head: string)
    requires base != "" && head != ""
    ensures Clean("compare/" + (Encode(base) + ("..." + Encode(head))))
  {
    EncodeIsPlain(base);
    EncodeIsPlain(head);
    assert AllTail("compare/") && AllPlain("...");
    hide Plain, AllTail;
    WordTail("compare/", Encode(base) + ("..." + Encode(head)));
  }

  lemma TailOfIsClean(r: Route)
    requires !r.Home? && Valid(r)
    ensures Clean(Tail(r))
  {
    if r.Pull? {
      hide Clean;
      PullTail(r.number, r.view);
    } else if r.Commit? {
      hide Clean;
      CommitTail(r.ref);
    } else if r.Compare? {
      hide Clean;
      CompareTail(r.base, r.head);
    }
  }

  lemma PullMatches(digits: string, view: View)
    requires digits != "" && digits[0] != '0' && Digits(digits)
    ensures MatchPull("pull/" + (digits + ViewTail(view))) == Some((Number(digits), view))
  {
    hide Number;
    var tail := "pull/" + (digits + ViewTail(view));
    assert tail[5..] == digits + ViewTail(view);
    if view.Files? {
      assert tail[5..|tail| - 6] == digits;
      assert (digits + "/files")[|digits|..] == "/files";
    } else {
      assert digits + "" == digits;
      assert |digits| >= 6 ==> digits[|digits| - 6..][0] == digits[|digits| - 6] != '/';
    }
  }

  lemma {:induction false} ComparisonReads(base: string, head: string)
    requires Revision(base) && Revision(head)
    ensures Decode(Encode(base) + ("..." + Encode(head))) == Ok(base + ("..." + head))
  {
    hide EncodeChar, Revision;
    RoundTrip(head);
    DotsAhead(Encode(head), head);
    DecodeUndoesEncode(base, "..." + Encode(head));
  }

  lemma DotsAhead(s: string, decoded: string)
    requires Decode(s) == Ok(decoded)
    ensures Decode("..." + s) == Ok("..." + decoded)
  {
    hide TakeEscaped;
    assert ("..." + s)[1..] == ".." + s;
    assert (".." + s)[1..] == "." + s;
    assert ("." + s)[1..] == s;
    assert Decode("." + s) == Ok("." + decoded);
    assert Decode(".." + s) == Ok("." + ("." + decoded));
    assert "." + ("." + decoded) == ".." + decoded;
    assert "." + (".." + decoded) == "..." + decoded;
  }

  /** The routes that have a path of their own: the owner is a single segment, and a commit is named
      by its hash. */
  predicate Nameable(r: Route) {
    r.Home? || ('/' !in r.owner && (r.Commit? ==> Hash(r.ref)))
  }

  lemma NotPull(rest: string)
    requires rest != "" && rest[0] != 'p'
    ensures MatchPull(rest) == None && rest != "pulls"
  {
  }

  lemma CommitReads(owner: string, repo: string, encoded: string)
    ensures
      var ref := Decode(encoded);
      ParseRest(owner, repo, "commit/" + encoded)
        == if ref.Err? || !Hash(ref.value) then Err(Invalid) else Checked(Commit(owner, repo, ref.value))
  {
    hide MatchPull, Decode, Hash, Checked, Split;
    var rest := "commit/" + encoded;
    NotPull(rest);
    assert rest[7..] == encoded;
  }

  lemma CompareReads(owner: string, repo: string, encoded: string, base: string, head: string)
    requires Decode(encoded) == Ok(base + ("..." + head)) && Split(base + ("..." + head), "...") == [base, head]
    ensures ParseRest(owner, repo, "compare/" + encoded) == Checked(Compare(owner, repo, base, head))
  {
    hide MatchPull, Decode, Hash, Checked, Split;
    var rest := "compare/" + encoded;
    NotPull(rest);
    assert rest[8..] == encoded;
    assert rest[3] != "commit/"[3];
  }

  lemma PullReads(owner: string, repo: string, number: nat, view: View)
    requires 0 < number <= MAX_SAFE_INTEGER
    ensures ParseRest(owner, repo, "pull/" + (Decimal(number) + ViewTail(view)))
         == Checked(Pull(owner, repo, number, view))
  {
    hide MatchPull, Decode, Hash, Checked, Split, Decimal, Number;
    var rest := "pull/" + (Decimal(number) + ViewTail(view));
    DecimalReads(number);
    PullMatches(Decimal(number), view);
    assert rest[4] != "pulls"[4];
  }

  lemma RestReads(r: Route)
    requires Valid(r) && !r.Home?
    ensures ParseRest(r.owner, r.repo, Tail(r)) == if r.Commit? && !Hash(r.ref) then Err(Invalid) else Ok(r)
  {
    hide Revision, Namespace, NamePart, Decode, Hash, Split, MatchPull, Encode;
    match r
    case Repository(_, _) =>
    case Pull(owner, repo, number, view) =>
      hide ParseRest;
      PullReads(owner, repo, number, view);
    case Commit(owner, repo, ref) =>
      hide ParseRest;
      RoundTrip(ref);
      CommitReads(owner, repo, Encode(ref));
    case Compare(owner, repo, base, head) =>
      hide ParseRest;
      ComparisonReads(base, head);
      RevisionsSplit(base, head);
      CompareReads(owner, repo, Encode(base) + ("..." + Encode(head)), base, head);
  }

  /** Writing a valid route and parsing the path gives the route back exactly when it is nameable;
      any other valid route is written as a path that is refused. */
  lemma RoundTripsExactly(r: Route)
    requires Valid(r)
    ensures Parse(Format(r)) == if Nameable(r) then Ok(r) else Err(Invalid)
  {
    hide Revision, Namespace, NamePart, MatchSegments, WithoutSlash;
    hide Path, Tail, ParseRest, Decode, Encode, Hash, AllPlain;
    if !r.Home? {
      ValidNames(r);
      EncodeIsPlain(r.owner);
      EncodeIsPlain(r.repo);
      PlainTail(Encode(r.owner));
      PlainTail(Encode(r.repo));
      TailOfIsClean(r);
      PathSegments(Encode(r.owner), Encode(r.repo), Tail(r));
      RoundTrip(r.owner);
      RoundTrip(r.repo);
      RestReads(r);
    }
  }

  lemma ValidNames(r: Route)
    requires Valid(r) && !r.Home?
    ensures r.owner != "" && r.repo != "" && '/' !in r.repo
  {
    if r.owner == "" {
      assert Split(r.owner, "/")[0] == "";
    }
  }

  /** Whatever path is accepted, the route it gives is valid and nameable. */
  lemma ParseIsNameable(path: string)
    requires Parse(path).Ok?
    ensures Valid(Parse(path).value) && Nameable(Parse(path).value)
  {
    hide Revision, Namespace, NamePart, MatchSegments, Decode, MatchPull;
  }

  /** Every accepted path has a canonical form, which means the same route. */
  lemma CanonicalPath(path: string)
    requires Parse(path).Ok?
    ensures Parse(Format(Parse(path).value)) == Parse(path)
  {
    hide Parse, Format;
    ParseIsNameable(path);
    RoundTripsExactly(Parse(path).value);
  }

  /* Names, revisions and paths, in so many characters */

  predicate IsName(s: string) {
    s != "" && forall c :: c in s ==> c !in {'/', ':', '#', '%'}
  }

  /** Names separated by single slashes. */
  ghost predicate IsOwner(s: string) {
    && s != "" && s[0] != '/' && s[|s| - 1] != '/' && !HasPair(s, '/', '/')
    && forall c :: c in s ==> c !in {':', '#', '%'}
  }

  ghost predicate HasPair(s: string, a: char, b: char) {
    exists i :: 0 <= i < |s| - 1 && s[i] == a && s[i + 1] == b
  }

  predicate AllowedInRevision(c: char) {
    c > ' ' && c !in {'\U{7f}', '~', '^', ':', '?', '*', '[', '\\'}
  }

  /** At most 255 code units, no double dot, double slash or `@{`, and no component that starts with a
      dot or ends in `.lock`. */
  ghost predicate IsRevision(s: string) {
    && s != "" && s != "@" && |Units(s)| <= 255 && s[0] != '-' && s[|s| - 1] !in {'.', '/'}
    && !HasPair(s, '.', '.') && !HasPair(s, '/', '/') && !HasPair(s, '@', '{')
    && !DotStarts(s) && !LockEnds(s)
    && forall c :: c in s ==> AllowedInRevision(c)
  }

  predicate PartAt(s: string, i: nat, part: string) {
    i + |part| <= |s| && s[i..i + |part|] == part
  }

  lemma {:induction false} IncludesExactly(s: string, part: string)
    requires part != ""
    ensures Includes(s, part) <==> exists i: nat :: PartAt(s, i, part)
  {
    if |s| >= |part| {
      if part <= s {
        assert PartAt(s, 0, part);
      } else {
        IncludesExactly(s[1..], part);
        if Includes(s[1..], part) {
          var i: nat :| PartAt(s[1..], i, part);
          assert s[i + 1..i + 1 + |part|] == s[1..][i..i + |part|];
          assert PartAt(s, i + 1, part);
        }
        forall i: nat | PartAt(s, i, part)
          ensures i > 0 && PartAt(s[1..], i - 1, part)
        {
          assert i > 0 ==> s[i..i + |part|] == s[1..][i - 1..i - 1 + |part|];
        }
      }
    }
  }

  lemma {:induction false} FirstSlash(s: string)
    ensures IndexOf(s, "/").None? ==> '/' !in s
    ensures IndexOf(s, "/").Some? ==>
      var i := IndexOf(s, "/").value;
      i < |s| && s[i] == '/' && '/' !in s[..i]
  {
    if s != "" {
      FirstSlash(s[1..]);
      assert s == [s[0]] + s[1..];
      assert "/" <= s <==> s[0] == '/';
      if s[0] != '/' && IndexOf(s[1..], "/").Some? {
        var i := IndexOf(s[1..], "/").value;
        assert s[..i + 1] == [s[0]] + s[1..][..i];
      }
    }
  }

  lemma SplitUnfold(s: string)
    ensures
      var i := IndexOf(s, "/");
      Split(s, "/") == if i.None? then [s] else [s[..i.value]] + Split(s[i.value + 1..], "/")
  {
    hide IndexOf;
    var i := IndexOf(s, "/");
    assert i.Some? ==> s[i.value + |"/"|..] == s[i.value + 1..];
  }

  lemma SlashSplit(s: string)
    ensures
      var i := IndexOf(s, "/");
      if i.None? then '/' !in s && Split(s, "/") == [s]
      else
        && i.value < |s| && '/' !in s[..i.value] && s == s[..i.value] + ("/" + s[i.value + 1..])
        && Split(s, "/") == [s[..i.value]] + Split(s[i.value + 1..], "/")
  {
    FirstSlash(s);
    hide IndexOf, Split;
    SplitUnfold(s);
    var i := IndexOf(s, "/");
    if i.Some? {
      CutAt(s, i.value);
    }
  }

  lemma CutAt(s: string, i: nat)
    requires i < |s| && s[i] == '/'
    ensures s == s[..i] + ("/" + s[i + 1..])
  {
  }

  /** Some component starts with a dot. */
  ghost predicate DotStarts(s: string) {
    exists i: nat :: i < |s| && DotStartsAt(s, i)
  }

  predicate DotStartsAt(s: string, i: nat)
    requires i < |s|
  {
    (i == 0 || s[i - 1] == '/') && s[i] == '.'
  }

  /** Some component ends in `.lock`. */
  ghost predicate LockEnds(s: string) {
    exists i :: 0 <= i <= |s| - 5 && LockEndsAt(s, i)
  }

  predicate LockEndsAt(s: string, i: nat)
    requires i + 5 <= |s|
  {
    s[i..i + 5] == ".lock" && (i + 5 == |s| || s[i + 5] == '/')
  }

  predicate GoodPart(part: string) {
    !("." <= part) && !EndsWith(part, ".lock")
  }

  lemma FirstDot(part: string)
    requires '/' !in part
    ensures DotStarts(part) <==> "." <= part
    ensures LockEnds(part) <==> EndsWith(part, ".lock")
  {
    assert forall i :: 0 <= i < |part| ==> part[i] in part;
    if "." <= part {
      assert DotStartsAt(part, 0);
    }
    if DotStarts(part) {
      var i: nat :| i < |part| && DotStartsAt(part, i);
      assert i == 0;
      assert part[..1] == [part[0]];
    }
    if EndsWith(part, ".lock") {
      var i := |part| - 5;
      assert part[i..i + 5] == ".lock" && LockEndsAt(part, i);
    }
    if LockEnds(part) {
      var i :| 0 <= i <= |part| - 5 && LockEndsAt(part, i);
      assert part[i..] == part[i..i + 5];
    }
  }

  lemma StartsJoin(first: string, rest: string)
    requires '/' !in first
    ensures DotStarts(first + ("/" + rest)) <==> DotStarts(first) || DotStarts(rest)
  {
    var s, n := first + ("/" + rest), |first| + 1;
    assert forall i :: 0 <= i < |first| ==> s[i] == first[i];
    assert forall i :: 0 <= i < |rest| ==> s[n + i] == rest[i];
    if DotStarts(rest) {
      var i: nat :| i < |rest| && DotStartsAt(rest, i);
      assert DotStartsAt(s, n + i);
    }
    if DotStarts(first) {
      var i: nat :| i < |first| && DotStartsAt(first, i);
      assert DotStartsAt(s, i);
    }
    if DotStarts(s) {
      var i: nat :| i < |s| && DotStartsAt(s, i);
      if i >= n {
        assert DotStartsAt(rest, i - n);
      } else {
        assert i < |first| && DotStartsAt(first, i);
      }
    }
  }

  lemma LockInRest(first: string, rest: string, i: nat)
    requires i + 5 <= |rest|
    ensures LockEndsAt(first + ("/" + rest), |first| + 1 + i) <==> LockEndsAt(rest, i)
  {
    var s, n := first + ("/" + rest), |first| + 1;
    assert s[n..] == rest;
    assert s[n + i..n + i + 5] == s[n..][i..i + 5];
  }

  lemma LockInFirst(first: string, rest: string, i: nat)
    requires i + 5 <= |first| && '/' !in first
    ensures LockEndsAt(first + ("/" + rest), i) <==> LockEndsAt(first, i)
  {
    var s := first + ("/" + rest);
    assert s[..|first|] == first;
    assert s[i..i + 5] == s[..|first|][i..i + 5];
    assert i + 5 < |first| ==> first[i + 5] in first;
  }

  lemma LocksJoin(first: string, rest: string)
    requires '/' !in first
    ensures LockEnds(first + ("/" + rest)) <==> LockEnds(first) || LockEnds(rest)
  {
    var s, n := first + ("/" + rest), |first| + 1;
    assert s[|first|] == '/';
    if LockEnds(rest) {
      var i :| 0 <= i <= |rest| - 5 && LockEndsAt(rest, i);
      LockInRest(first, rest, i);
    }
    if LockEnds(first) {
      var i :| 0 <= i <= |first| - 5 && LockEndsAt(first, i);
      LockInFirst(first, rest, i);
    }
    if LockEnds(s) {
      var i :| 0 <= i <= |s| - 5 && LockEndsAt(s, i);
      if i >= n {
        LockInRest(first, rest, i - n);
      } else {
        NoSlashInside(s, i, |first|);
        LockInFirst(first, rest, i);
      }
    }
  }

  lemma NoSlashInside(s: string, i: nat, slash: nat)
    requires i + 5 <= |s| && s[i..i + 5] == ".lock" && i <= slash < |s| && s[slash] == '/'
    ensures i + 5 <= slash
  {
    assert forall k :: 0 <= k < 5 ==> s[i + k] == ".lock"[k] && ".lock"[k] != '/';
  }

  predicate AllGood(parts: seq<string>) {
    forall k :: 0 <= k < |parts| ==> GoodPart(parts[k])
  }

  lemma OneMorePart(first: string, more: seq<string>)
    ensures AllGood([first] + more) <==> GoodPart(first) && AllGood(more)
  {
    var parts := [first] + more;
    assert parts[0] == first;
    assert forall k :: 0 <= k < |more| ==> more[k] == parts[k + 1];
    assert forall k :: 1 <= k < |parts| ==> parts[k] == more[k - 1];
  }

  lemma {:induction false} GoodParts(s: string)
    ensures AllGood(Split(s, "/")) <==> !DotStarts(s) && !LockEnds(s)
    decreases |s|
  {
    hide DotStarts, LockEnds, GoodPart, AllGood, Split;
    var i := IndexOf(s, "/");
    SlashSplit(s);
    if i.None? {
      OnePart(s);
      OneMorePart(s, []);
      NothingBad();
      assert [s] + [] == [s];
    } else {
      var first, rest := s[..i.value], s[i.value + 1..];
      GoodParts(rest);
      OnePart(first);
      StartsJoin(first, rest);
      LocksJoin(first, rest);
      OneMorePart(first, Split(rest, "/"));
    }
  }

  lemma NothingBad()
    ensures AllGood([])
  {
  }

  lemma OnePart(part: string)
    requires '/' !in part
    ensures GoodPart(part) <==> !DotStarts(part) && !LockEnds(part)
  {
    FirstDot(part);
  }

  lemma PairExactly(s: string, a: char, b: char)
    ensures Includes(s, [a, b]) <==> HasPair(s, a, b)
  {
    IncludesExactly(s, [a, b]);
    hide Includes;
    forall i: nat | PartAt(s, i, [a, b])
      ensures i < |s| - 1 && s[i] == a && s[i + 1] == b
    {
      assert s[i..i + 2][0] == a && s[i..i + 2][1] == b;
    }
    if Includes(s, [a, b]) {
      var i: nat :| PartAt(s, i, [a, b]);
      assert s[i] == a && s[i + 1] == b;
    }
    if HasPair(s, a, b) {
      var i :| 0 <= i < |s| - 1 && s[i] == a && s[i + 1] == b;
      assert s[i..i + 2] == [a, b];
      assert PartAt(s, i, [a, b]);
    }
  }

  lemma AllGoodIs(parts: seq<string>)
    ensures AllGood(parts) <==>
      forall i :: 0 <= i < |parts| ==> !("." <= parts[i]) && !EndsWith(parts[i], ".lock")
  {
  }

  lemma FirstIsNoDot(s: string)
    ensures s != "" && !DotStarts(s) ==> s[0] != '.'
  {
    assert s != "" && s[0] == '.' ==> DotStartsAt(s, 0);
  }

  lemma RevisionExactly(s: string)
    ensures Revision(s) <==> IsRevision(s)
  {
    hide Includes, Split, Units, HasPair, DotStarts, LockEnds;
    PairExactly(s, '.', '.');
    PairExactly(s, '/', '/');
    PairExactly(s, '@', '{');
    assert ['.', '.'] == ".." && ['/', '/'] == "//" && ['@', '{'] == "@{";
    GoodParts(s);
    AllGoodIs(Split(s, "/"));
    FirstIsNoDot(s);
    assert forall i :: 0 <= i < |s| ==> s[i] in s;
    assert forall c :: RevisionChar(c) <==> AllowedInRevision(c);
  }

  lemma NameExactly(s: string)
    ensures NamePart(s) <==> IsName(s)
  {
    assert forall i :: 0 <= i < |s| ==> s[i] in s;
  }

  predicate AllNames(parts: seq<string>) {
    forall k :: 0 <= k < |parts| ==> NamePart(parts[k])
  }

  lemma OneMoreName(first: string, more: seq<string>)
    ensures AllNames([first] + more) <==> NamePart(first) && AllNames(more)
  {
    hide NamePart;
    var parts := [first] + more;
    assert parts[0] == first;
    assert forall k :: 0 <= k < |more| ==> more[k] == parts[k + 1];
    assert forall k :: 1 <= k < |parts| ==> parts[k] == more[k - 1];
  }

  lemma NamespaceIs(s: string)
    ensures Namespace(s) <==> AllNames(Split(s, "/"))
  {
    hide NamePart, Split;
  }

  lemma {:induction false} NamesExactly(s: string)
    ensures AllNames(Split(s, "/")) <==> IsOwner(s)
    decreases |s|
  {
    hide NamePart, IsName, AllNames, Split, IsOwner;
    var i := IndexOf(s, "/");
    SlashSplit(s);
    if i.None? {
      NameExactly(s);
      OwnerOfOne(s);
      OneMoreName(s, []);
      NoNames();
      assert [s] + [] == [s];
    } else {
      var first, rest := s[..i.value], s[i.value + 1..];
      NamesExactly(rest);
      NameExactly(first);
      OwnerJoin(first, rest);
      OneMoreName(first, Split(rest, "/"));
    }
  }

  lemma NoNames()
    ensures AllNames([])
  {
  }

  lemma OwnerExactly(s: string)
    ensures Namespace(s) <==> IsOwner(s)
  {
    hide Namespace, IsOwner;
    NamespaceIs(s);
    NamesExactly(s);
  }

  lemma OwnerOfOne(s: string)
    requires '/' !in s
    ensures IsOwner(s) <==> IsName(s)
  {
    assert forall i :: 0 <= i < |s| ==> s[i] in s;
  }

  lemma OwnerJoin(first: string, rest: string)
    requires '/' !in first
    ensures IsOwner(first + ("/" + rest)) <==> IsName(first) && IsOwner(rest)
  {
    hide HasPair;
    var s, n := first + ("/" + rest), |first| + 1;
    assert s[n - 1] == '/';
    assert forall c :: c in s <==> c in first || c == '/' || c in rest;
    SlashesJoin(first, rest);
    if first != "" {
      assert s[0] == first[0] && first[0] in first;
    }
    if rest != "" {
      assert s[|s| - 1] == rest[|rest| - 1];
    }
  }

  lemma SlashesJoin(first: string, rest: string)
    requires '/' !in first
    ensures HasPair(first + ("/" + rest), '/', '/') <==> (rest != "" && rest[0] == '/') || HasPair(rest, '/', '/')
  {
    var s, n := first + ("/" + rest), |first| + 1;
    assert forall i :: 0 <= i < |first| ==> s[i] == first[i] && first[i] in first;
    assert s[n - 1] == '/' && forall i :: 0 <= i < |rest| ==> s[n + i] == rest[i];
    if HasPair(s, '/', '/') {
      var i :| 0 <= i < |s| - 1 && s[i] == '/' && s[i + 1] == '/';
      assert i >= n ==> rest[i - n] == '/' && rest[i - n + 1] == '/';
    }
    if HasPair(rest, '/', '/') {
      var i :| 0 <= i < |rest| - 1 && rest[i] == '/' && rest[i + 1] == '/';
      assert s[n + i] == '/' && s[n + i + 1] == '/';
    }
    if rest != "" && rest[0] == '/' {
      assert s[n - 1] == '/' && s[n] == '/';
    }
  }

  predicate OneLine(s: string) {
    forall c :: c in s ==> c !in {'\n', '\r', '\U{2028}', '\U{2029}'}
  }

  predicate IsHash(s: string) {
    7 <= |s| <= 40 && forall c :: c in s ==> '0' <= c <= '9' || 'a' <= c <= 'f' || 'A' <= c <= 'F'
  }

  /** What a path says after owner and repository. */
  ghost predicate TailMeans(tail: string, r: Route)
    requires !r.Home?
  {
    match r
    case Repository(_, _) => tail in {"", "pulls"}
    case Pull(_, _, number, view) =>
      && 0 < number <= 0x1f_ffff_ffff_ffff
      && exists digits :: IsPull(tail, digits, number, view)
    case Commit(_, _, ref) => "commit/" <= tail && DecodesTo(tail[7..], ref) && IsHash(ref)
    case Compare(_, _, base, head) =>
      "compare/" <= tail && DecodesTo(tail[8..], base + "..." + head) && IsRevision(base) && IsRevision(head)
  }

  /** A path in its parts, with at most one slash at the end that does not matter. */
  ghost predicate PathReads(
    path: string, r: Route, owner: string, repo: string, after: string, tail: string, slash: string)
    requires !r.Home?
  {
    && path == "/" + owner + "/" + repo + after + slash && slash in {"", "/"}
    && owner != "" && '/' !in owner && DecodesTo(owner, r.owner) && IsName(r.owner)
    && repo != "" && '/' !in repo && DecodesTo(repo, r.repo) && IsName(r.repo)
    && ((after == "" && tail == "") || after == "/" + tail)
    && OneLine(tail) && TailMeans(tail, r)
  }

  ghost predicate PathMeans(path: string, r: Route) {
    if r.Home? then path == "/"
    else exists owner, repo, after, tail, slash :: PathReads(path, r, owner, repo, after, tail, slash)
  }

  /** The path of a route, written out. */
  ghost predicate IsPathOf(path: string, r: Route) {
    match r
    case Home => path == "/"
    case Repository(owner, repo) => path == "/" + Encode(owner) + "/" + Encode(repo) + "/pulls"
    case Pull(owner, repo, number, view) =>
      exists digits :: Spells(digits, number)
        && path == "/" + Encode(owner) + "/" + Encode(repo) + "/pull/" + digits + if view.Files? then "/files" else ""
    case Commit(owner, repo, ref) => path == "/" + Encode(owner) + "/" + Encode(repo) + "/commit/" + Encode(ref)
    case Compare(owner, repo, base, head) =>
      path == "/" + Encode(owner) + "/" + Encode(repo) + "/compare/" + Encode(base) + "..." + Encode(head)
  }

  /** What is written for a route. */
  lemma FormatExactly(r: Route)
    ensures IsPathOf(Format(r), r)
  {
    match r
    case Home =>
    case Repository(owner, repo) =>
      hide Encode, Path;
      PathIs(Encode(owner), Encode(repo), "pulls", "");
      assert "/" + "pulls" == "/pulls";
      Assoc("/" + Encode(owner) + "/" + Encode(repo), "/pulls", "");
    case Pull(owner, repo, number, view) =>
      FormatPull(owner, repo, number, view);
    case Commit(owner, repo, ref) =>
      hide Encode, Path;
      PathIs(Encode(owner), Encode(repo), "commit/", Encode(ref));
      assert "/" + "commit/" == "/commit/";
    case Compare(owner, repo, base, head) =>
      FormatCompare(owner, repo, base, head);
  }

  lemma FormatPull(owner: string, repo: string, number: nat, view: View)
    ensures IsPathOf(Format(Pull(owner, repo, number, view)), Pull(owner, repo, number, view))
  {
    hide Encode, Path, Decimal, Spells;
    DecimalReads(number);
    var a := "/" + Encode(owner) + "/" + Encode(repo) + "/pull/";
    PathIs(Encode(owner), Encode(repo), "pull/", Decimal(number) + ViewTail(view));
    assert "/" + "pull/" == "/pull/";
    Assoc(a, Decimal(number), ViewTail(view));
    assert Format(Pull(owner, repo, number, view)) == a + Decimal(number) + ViewTail(view);
  }

  lemma FormatCompare(owner: string, repo: string, base: string, head: string)
    ensures IsPathOf(Format(Compare(owner, repo, base, head)), Compare(owner, repo, base, head))
  {
    hide Encode, Path;
    var a := "/" + Encode(owner) + "/" + Encode(repo) + "/compare/";
    PathIs(Encode(owner), Encode(repo), "compare/", Encode(base) + ("..." + Encode(head)));
    assert "/" + "compare/" == "/compare/";
    Assoc(a, Encode(base), "..." + Encode(head));
    Assoc(a + Encode(base), "...", Encode(head));
  }

  lemma Assoc(a: string, b: string, c: string)
    ensures a + (b + c) == a + b + c
  {
  }

  lemma PathIs(owner: string, repo: string, word: string, rest: string)
    ensures Path(owner, repo, word + rest) == "/" + owner + "/" + repo + ("/" + word) + rest
    ensures rest == "" ==> word + rest == word
  {
    var tail := word + rest;
    Assoc("/", word, rest);
    Assoc(repo, "/" + word, rest);
    Assoc("/", repo + ("/" + word), rest);
    Assoc(owner, "/" + (repo + ("/" + word)), rest);
    Assoc("/", owner + ("/" + (repo + ("/" + word))), rest);
    FourJoined(owner, repo, "/" + word);
  }

  lemma FourJoined(owner: string, repo: string, tail: string)
    ensures "/" + (owner + ("/" + (repo + tail))) == "/" + owner + "/" + repo + tail
  {
    Assoc("/", repo, tail);
    Assoc(owner, "/" + repo, tail);
    Assoc(owner, "/", repo);
    Assoc("/", owner + ("/" + repo), tail);
    Assoc("/", owner + "/", repo);
    Assoc("/", owner, "/");
  }

  lemma HashExactly(s: string)
    ensures Hash(s) <==> IsHash(s)
  {
    assert forall i :: 0 <= i < |s| ==> s[i] in s;
  }

  lemma NumberPositive(digits: string)
    requires digits != "" && Digits(digits)
    ensures digits[0] != '0' ==> Number(digits) > 0
  {
    if |digits| > 1 {
      NumberPositive(digits[..|digits| - 1]);
    }
  }

  predicate IsPull(rest: string, digits: string, number: nat, view: View) {
    Spells(digits, number) && rest == "pull/" + digits + if view.Files? then "/files" else ""
  }

  lemma PullIs(rest: string, number: nat, view: View)
    requires number > 0 && MatchPull(rest) == Some((number, view))
    ensures exists digits :: IsPull(rest, digits, number, view)
  {
    var digits := if view.Files? then rest[5..|rest| - 6] else rest[5..];
    PullTaken(rest, digits, view);
    assert IsPull(rest, digits, number, view);
  }

  lemma IsPullMatches(rest: string, digits: string, number: nat, view: View)
    requires number > 0 && IsPull(rest, digits, number, view)
    ensures MatchPull(rest) == Some((number, view))
  {
    hide MatchPull;
    assert digits[0] != '0' by { assert Number("0") == 0; }
    PullMatches(digits, view);
    Assoc("pull/", digits, ViewTail(view));
  }

  lemma PullExactly(rest: string, number: nat, view: View)
    requires number > 0
    ensures MatchPull(rest) == Some((number, view)) <==> exists digits :: IsPull(rest, digits, number, view)
  {
    hide MatchPull, IsPull;
    if MatchPull(rest) == Some((number, view)) {
      PullIs(rest, number, view);
    }
    forall digits | IsPull(rest, digits, number, view)
      ensures MatchPull(rest) == Some((number, view))
    {
      IsPullMatches(rest, digits, number, view);
    }
  }

  lemma EndSplit(s: string, part: string)
    requires EndsWith(s, part)
    ensures s == s[..|s| - |part|] + part
  {
  }

  lemma PrefixSplit(s: string, part: string)
    requires part <= s
    ensures s == part + s[|part|..]
  {
  }

  lemma PullTaken(rest: string, digits: string, view: View)
    requires "pull/" <= rest && (view.Files? ==> EndsWith(rest[5..], "/files"))
    requires digits == if view.Files? then rest[5..|rest| - 6] else rest[5..]
    ensures rest == "pull/" + digits + if view.Files? then "/files" else ""
  {
    PrefixSplit(rest, "pull/");
    if view.Files? {
      EndSplit(rest[5..], "/files");
      assert rest[5..][..|rest| - 11] == digits;
      Assoc("pull/", digits, "/files");
    }
  }

  lemma RefsJoined(s: string, separator: string)
    requires separator != "" && |Split(s, separator)| == 2
    ensures s == Split(s, separator)[0] + separator + Split(s, separator)[1]
  {
    var i := IndexOf(s, separator);
    FoundThere(s, separator);
    var rest := s[i.value + |separator|..];
    assert Split(s, separator) == [s[..i.value]] + Split(rest, separator);
    assert |Split(rest, separator)| == 1;
    assert s == s[..i.value] + s[i.value..i.value + |separator|] + rest;
  }

  lemma {:induction false} FoundThere(s: string, part: string)
    requires part != ""
    ensures IndexOf(s, part).Some? ==>
      s[IndexOf(s, part).value..IndexOf(s, part).value + |part|] == part
  {
    if |s| >= |part| && !(part <= s) {
      FoundThere(s[1..], part);
      if IndexOf(s[1..], part).Some? {
        var i := IndexOf(s[1..], part).value;
        assert s[i + 1..i + 1 + |part|] == s[1..][i..i + |part|];
      }
    }
  }

  predicate NamesAre(owner: string, repo: string, r: Route) {
    !r.Home? && r.owner == owner && r.repo == repo && Namespace(owner) && NamePart(repo)
  }

  lemma RestMeans(owner: string, repo: string, rest: string, r: Route)
    requires ParseRest(owner, repo, rest) == Ok(r)
    ensures NamesAre(owner, repo, r) && TailMeans(rest, r)
  {
    hide Namespace, NamePart, Revision, IsRevision, MatchPull, Decode, DecodesTo, Split, Hash, IsHash;
    match r
    case Home =>
    case Repository(_, _) =>
    case Pull(_, _, number, view) => PullExactly(rest, number, view);
    case Commit(_, _, ref) =>
      DecodeExactly(rest[7..], ref);
      HashExactly(ref);
    case Compare(_, _, base, head) =>
      var decoded := Decode(rest[8..]).value;
      DecodeExactly(rest[8..], decoded);
      RefsJoined(decoded, "...");
      RevisionExactly(base);
      RevisionExactly(head);
  }

  lemma MeansRest(owner: string, repo: string, rest: string, r: Route)
    requires NamesAre(owner, repo, r) && TailMeans(rest, r)
    ensures ParseRest(owner, repo, rest) == Ok(r)
  {
    hide Namespace, NamePart, Revision, IsRevision, MatchPull, Decode, DecodesTo, Split, Hash, IsHash;
    match r
    case Repository(_, _) =>
    case Pull(_, _, number, view) =>
      PullExactly(rest, number, view);
      var digits :| IsPull(rest, digits, number, view);
      assert rest[4] == '/' && "pulls"[4] == 's';
    case Commit(_, _, ref) =>
      hide ParseRest;
      DecodeExactly(rest[7..], ref);
      HashExactly(ref);
      HashIsRevision(ref);
      CommitReads(owner, repo, rest[7..]);
      assert rest == "commit/" + rest[7..];
    case Compare(_, _, base, head) =>
      hide ParseRest;
      DecodeExactly(rest[8..], base + "..." + head);
      RevisionExactly(base);
      RevisionExactly(head);
      RevisionsSplit(base, head);
      assert base + "..." + head == base + ("..." + head);
      CompareReads(owner, repo, rest[8..], base, head);
      assert rest == "compare/" + rest[8..];
  }

  function Around(owner: string, repo: string, after: string): string {
    "/" + (owner + ("/" + (repo + after)))
  }

  predicate Follows(after: string, rest: string) {
    (after == "" && rest == "") || after == "/" + rest
  }

  lemma LinesAgree(rest: string)
    ensures OneLine(rest) <==> !(exists i :: 0 <= i < |rest| && HeaderLines.IsTerminator(rest[i]))
  {
    assert forall i :: 0 <= i < |rest| ==> rest[i] in rest;
  }

  lemma UntilSplits(s: string)
    ensures s == Until(s) + s[|Until(s)|..] && '/' !in Until(s)
    ensures |Until(s)| < |s| ==> s[|Until(s)|..] == "/" + s[|Until(s)| + 1..]
  {
    hide Until;
    assert forall c :: c in Until(s) ==> c != '/';
  }

  lemma FirstPart(path: string, owner: string)
    requires path != "" && path[0] == '/' && owner == Until(path[1..]) && 1 + |owner| < |path|
    ensures path == "/" + (owner + ("/" + path[|owner| + 2..])) && '/' !in owner
  {
    hide Until;
    UntilSplits(path[1..]);
    assert path == "/" + path[1..];
    assert path[1..][|owner| + 1..] == path[|owner| + 2..];
  }

  lemma SegmentsBack(path: string) returns (after: string)
    requires MatchSegments(path).Some?
    ensures
      var Segments(owner, repo, rest) := MatchSegments(path).value;
      && path == Around(owner, repo, after) && Follows(after, rest) && OneLine(rest)
      && owner != "" && '/' !in owner && repo != "" && '/' !in repo
  {
    hide Until, OneLine, HeaderLines.IsTerminator;
    var owner := Until(path[1..]);
    var tail := path[|owner| + 2..];
    var repo := Until(tail);
    FirstPart(path, owner);
    UntilSplits(tail);
    after := tail[|repo|..];
    LinesAgree(MatchSegments(path).value.rest);
  }

  lemma {:induction false} UntilWhole(s: string)
    requires '/' !in s
    ensures Until(s) == s
  {
    if s != "" {
      assert s == [s[0]] + s[1..];
      UntilWhole(s[1..]);
    }
  }

  lemma UntilHere(part: string, after: string, rest: string)
    requires '/' !in part && Follows(after, rest)
    ensures Until(part + after) == part
  {
    hide Until;
    if after == "" {
      assert part + after == part;
      UntilWhole(part);
    } else {
      UntilSlash(part, rest);
    }
  }

  lemma SegmentsForth(owner: string, repo: string, after: string, rest: string)
    requires owner != "" && '/' !in owner && repo != "" && '/' !in repo && Follows(after, rest) && OneLine(rest)
    ensures MatchSegments(Around(owner, repo, after)) == Some(Segments(owner, repo, rest))
  {
    hide Until;
    var path, tail := Around(owner, repo, after), repo + after;
    UntilSlash(owner, tail);
    UntilHere(repo, after, rest);
    assert path[1..] == owner + ("/" + tail);
    assert path[|owner| + 2..] == tail;
    assert after != "" ==> tail[|repo| + 1..] == rest;
    LinesAgree(rest);
  }

  lemma {:induction false} DecodeLast(s: string, t: string)
    requires s != "" && s[|s| - 1] == '/' && Decode(s) == Ok(t)
    ensures t != "" && t[|t| - 1] == '/'
    decreases |s|
  {
    hide TakeEscaped;
    if s[0] != '%' {
      if |s| > 1 {
        DecodeLast(s[1..], t[1..]);
        assert t == [t[0]] + t[1..];
      }
    } else {
      var n := TakeEscaped(s).value.length;
      if n == |s| {
        WholeEscape(s);
      } else {
        assert t == [t[0]] + t[1..];
        DecodeLast(s[n..], t[1..]);
      }
    }
  }

  lemma WholeEscape(s: string)
    requires TakeEscaped(s).Some? && TakeEscaped(s).value.length == |s| && s != ""
    ensures s[|s| - 1] != '/'
  {
    hide TakeEscaped, IsUtf8;
    var bytes := TakenHasBytes(s);
    var k := |bytes| - 1;
    assert IsEscaped(s[3 * k..], bytes[k]);
    assert s[3 * k..][2] == s[|s| - 1];
  }

  lemma TailEnd(tail: string, r: Route)
    requires !r.Home? && TailMeans(tail, r) && tail != ""
    ensures tail[|tail| - 1] != '/'
  {
    hide DecodesTo, IsRevision, Number;
    match r
    case Repository(_, _) =>
    case Pull(_, _, number, view) =>
      var digits :| IsPull(tail, digits, number, view);
    case Commit(_, _, ref) =>
      DecodeExactly(tail[7..], ref);
      HashEnd(ref);
      EncodedEnd(tail[7..], ref);
    case Compare(_, _, base, head) =>
      DecodeExactly(tail[8..], base + "..." + head);
      HeadEnd(head);
      EncodedEnd(tail[8..], base + "..." + head);
  }

  lemma HashEnd(ref: string)
    requires IsHash(ref)
    ensures ref != "" && ref[|ref| - 1] != '/'
  {
    assert ref[|ref| - 1] in ref;
  }

  lemma HeadEnd(head: string)
    requires IsRevision(head)
    ensures head != "" && head[|head| - 1] != '/'
  {
  }

  lemma EncodedEnd(encoded: string, decoded: string)
    requires Decode(encoded) == Ok(decoded) && decoded != "" && decoded[|decoded| - 1] != '/'
    ensures encoded != "" && encoded[|encoded| - 1] != '/'
  {
    assert encoded != "";
    if encoded != "" && encoded[|encoded| - 1] == '/' {
      DecodeLast(encoded, decoded);
    }
  }

  lemma ParseMeans(path: string, r: Route)
    requires Parse(path) == Ok(r)
    ensures PathMeans(path, r)
  {
    hide MatchSegments, WithoutSlash, Decode, DecodesTo, ParseRest, TailMeans, Namespace, NamePart, IsName, IsOwner;
    if path != "/" {
      var bare := WithoutSlash(path);
      var Segments(owner, repo, rest) := MatchSegments(bare).value;
      var after := SegmentsBack(bare);
      RestMeans(Decode(owner).value, Decode(repo).value, rest, r);
      DecodeExactly(owner, r.owner);
      DecodeExactly(repo, r.repo);
      OwnerExactly(r.owner);
      OwnerOfOne(r.owner);
      NameExactly(r.repo);
      var slash := TrailingSlash(path);
      FourJoined(owner, repo, after);
      assert PathReads(path, r, owner, repo, after, rest, slash);
    }
  }

  lemma TrailingSlash(path: string) returns (slash: string)
    ensures path == WithoutSlash(path) + slash && slash in {"", "/"}
  {
    slash := if path != "" && path[|path| - 1] == '/' then "/" else "";
    assert path != "" ==> path == path[..|path| - 1] + [path[|path| - 1]];
  }

  /** What is left of a path once its last slash is gone still has the same parts. */
  lemma PartsStay(path: string, r: Route, owner: string, repo: string, after: string, tail: string, slash: string)
    requires !r.Home? && PathReads(path, r, owner, repo, after, tail, slash)
    ensures MatchSegments(WithoutSlash(path)) == Some(Segments(owner, repo, tail)) && path != "/"
  {
    hide MatchSegments, DecodesTo, TailMeans, IsName;
    FourJoined(owner, repo, after);
    var bare := Around(owner, repo, after);
    assert path == bare + slash && |bare| > 2;
    if slash == "/" {
      assert WithoutSlash(path) == bare;
      SegmentsForth(owner, repo, after, tail);
    } else if after == "/" {
      assert path == Around(owner, repo, "") + "/" by { assert repo + "" == repo; }
      assert WithoutSlash(path) == Around(owner, repo, "");
      SegmentsForth(owner, repo, "", "");
    } else {
      LastOf(owner, repo, after);
      if tail != "" {
        TailEnd(tail, r);
      }
      assert repo[|repo| - 1] in repo;
      assert WithoutSlash(path) == bare;
      SegmentsForth(owner, repo, after, tail);
    }
  }

  lemma LastOf(owner: string, repo: string, after: string)
    requires repo != ""
    ensures
      var bare := Around(owner, repo, after);
      bare[|bare| - 1] == if after == "" then repo[|repo| - 1] else after[|after| - 1]
  {
  }

  lemma MeansParse(path: string, r: Route)
    requires PathMeans(path, r)
    ensures Parse(path) == Ok(r)
  {
    hide MatchSegments, WithoutSlash, Decode, DecodesTo, ParseRest, TailMeans, Namespace, NamePart, IsOwner;
    if !r.Home? {
      var owner, repo, after, tail, slash :| PathReads(path, r, owner, repo, after, tail, slash);
      PartsStay(path, r, owner, repo, after, tail, slash);
      DecodeExactly(owner, r.owner);
      DecodeExactly(repo, r.repo);
      assert '/' !in r.owner && '/' !in r.repo;
      OwnerExactly(r.owner);
      OwnerOfOne(r.owner);
      NameExactly(r.repo);
      MeansRest(r.owner, r.repo, tail, r);
    }
  }

  /** A path is accepted for exactly the route that its characters say: owner and repository as single
      percent-encoded names, and then nothing or `pulls`, a pull request with its number and view, a
      commit with its hash, or two revisions joined by three dots. */
  lemma ParseExactly(path: string, r: Route)
    ensures Parse(path) == Ok(r) <==> PathMeans(path, r)
  {
    hide Parse, PathMeans;
    if Parse(path) == Ok(r) {
      ParseMeans(path, r);
    }
    if PathMeans(path, r) {
      MeansParse(path, r);
    }
  }
}
