/**
 * The program around the core (src/main.rs): `PREFIX=PATH` arguments, loading
 * the sources with standard input attached at most once, and the run that merges
 * the streams and prints them, with or without the interval column.
 */
module Ziplog {
  import opened Wrappers
  import opened TimestampKinds
  import opened TimestampStream
  import opened Merge
  import opened Interval

  /** `PrefixedFile(prefix, path)`, the value of one `-f` argument. */
  datatype PrefixedFile = PrefixedFile(prefix: string, path: string)

  /** `str::find` for a character: the position of its first occurrence. */
  function Find(s: string, c: char): (r: Option<nat>)
    ensures r.None? <==> c !in s
    ensures r.Some? ==> r.value < |s| && s[r.value] == c && c !in s[..r.value]
  {
    if |s| == 0 then None
    else if s[0] == c then Some(0)
    else
      match Find(s[1..], c)
      case None => None
      case Some(i) =>
        assert s[..i + 1] == [s[0]] + s[1..][..i];
        Some(i + 1)
  }

  /**
   * `PrefixedFile::from_str`, which never fails: split at the first '=', or take
   * the whole argument as the path with an empty prefix.
   */
  function ParsePrefixedFile(s: string): (r: PrefixedFile)
    ensures '=' !in s ==> r == PrefixedFile("", s)
    ensures '=' in s ==> '=' !in r.prefix && r.prefix + "=" + r.path == s
  {
    match Find(s, '=')
    case None => PrefixedFile("", s)
    case Some(i) =>
      assert s == s[..i] + "=" + s[i + 1..];
      PrefixedFile(s[..i], s[i + 1..])
  }

  /** Joining a prefix without '=' to any path and splitting again gives both back. */
  lemma PrefixedFileRoundTrip(prefix: string, path: string)
    requires '=' !in prefix
    ensures ParsePrefixedFile(prefix + "=" + path) == PrefixedFile(prefix, path)
  {
    var s := prefix + "=" + path;
    var r := ParsePrefixedFile(s);
    assert s[|prefix|] == '=';
    assert r.prefix == s[..|r.prefix|] == prefix;
    assert r.path == s[|prefix| + 1..] == path;
  }

  /**
   * `path == PathBuf::from("-")`. Paths compare by their components, so "-"
   * followed only by separators and "." components ("-/", "-/./") is the same
   * path, while "./-" is not.
   */
  predicate DenotesStdin(path: string) {
    |path| > 0 && path[0] == '-' && OnlyCurrentDirs(path[1..])
  }

  /** A run of "/" and "/." pieces, each "." standing alone as a component. */
  predicate OnlyCurrentDirs(r: string) {
    if |r| == 0 then true
    else if r[0] != '/' then false
    else if |r| >= 2 && r[1] == '.' && (|r| == 2 || r[2] == '/') then OnlyCurrentDirs(r[2..])
    else OnlyCurrentDirs(r[1..])
  }

  /** A component of a relative or absolute Unix path, as `Path::components` yields them. */
  datatype Component = RootDir | CurDir | ParentDir | Normal(name: string)

  /**
   * The components after the root or the leading ".": the '/'-separated pieces,
   * with empty and "." pieces dropped.
   */
  function Pieces(s: string): (r: seq<Component>)
    ensures CurDir !in r && RootDir !in r
    decreases |s|
  {
    if |s| == 0 then []
    else
      var k := match Find(s, '/') case None => |s| case Some(j) => j;
      var piece := s[..k];
      var rest := if k < |s| then s[k + 1..] else [];
      (if piece == "" || piece == "." then [] else if piece == ".." then [ParentDir] else [Normal(piece)]) + Pieces(rest)
  }

  /** `Path::components` on Unix: a root, or a leading "." kept as the current directory, then the pieces. */
  function Components(p: string): (r: seq<Component>)
    ensures |p| > 0 && p[0] == '/' <==> |r| > 0 && r[0] == RootDir
    ensures |r| > 0 ==> RootDir !in r[1..] && CurDir !in r[1..]
  {
    if |p| > 0 && p[0] == '/' then [RootDir] + Pieces(p[1..])
    else if |p| > 0 && p[0] == '.' && (|p| == 1 || p[1] == '/') then [CurDir] + Pieces(p[1..])
    else Pieces(p)
  }

  /** How `Pieces` starts: a separator or a lone "." adds nothing, any other first piece adds a component. */
  lemma PiecesStep(t: string)
    requires |t| > 0
    ensures t[0] == '/' ==> Pieces(t) == Pieces(t[1..])
    ensures t == "." ==> Pieces(t) == []
    ensures |t| >= 2 && t[0] == '.' && t[1] == '/' ==> Pieces(t) == Pieces(t[2..])
    ensures t[0] != '/' && !(t[0] == '.' && (|t| == 1 || t[1] == '/')) ==> Pieces(t) != []
  {
    var k := match Find(t, '/') case None => |t| case Some(j) => j;
    if t[0] == '/' {
      assert k == 0;
    } else if t[0] == '.' && (|t| == 1 || t[1] == '/') {
      assert k == 1 && t[..k] == ".";
    } else {
      assert k > 0 && t[..k][0] == t[0];
      assert t[..k] != "" && t[..k] != ".";
    }
  }

  /** After a separator, only "." pieces and empty pieces follow exactly when no component does. */
  lemma {:induction false} OnlyCurrentDirsPieces(r: string)
    ensures OnlyCurrentDirs(r) <==> |r| == 0 || (r[0] == '/' && Pieces(r[1..]) == [])
    decreases |r|
  {
    if |r| == 0 || r[0] != '/' || |r| == 1 {
    } else if r[1] == '.' && (|r| == 2 || r[2] == '/') {
      OnlyCurrentDirsPieces(r[2..]);
      PiecesStep(r[1..]);
      if |r| > 2 {
        assert r[1..][2..] == r[2..][1..];
      }
    } else {
      OnlyCurrentDirsPieces(r[1..]);
      PiecesStep(r[1..]);
      if r[1] == '/' {
        assert r[1..][1..] == r[2..];
      }
    }
  }

  /** Standard input is named by exactly the paths whose only component is "-". */
  lemma StdinByComponents(p: string)
    ensures DenotesStdin(p) <==> Components(p) == [Normal("-")]
  {
    if |p| > 0 && p[0] != '/' && !(p[0] == '.' && (|p| == 1 || p[1] == '/')) {
      OnlyCurrentDirsPieces(p[1..]);
      var k := match Find(p, '/') case None => |p| case Some(j) => j;
      var piece := p[..k];
      assert k > 0 && piece[0] == p[0];
      var rest := if k < |p| then p[k + 1..] else [];
      if p[0] == '-' {
        assert piece != "" && piece != "." && piece != "..";
        assert Components(p) == [Normal(piece)] + Pieces(rest);
        if k == 1 {
          assert piece == "-";
          if |p| > 1 {
            assert p[1..][1..] == rest;
          }
        } else {
          assert piece != "-";
          assert p[1] != '/';
        }
      } else if piece == ".." {
        assert Components(p)[0] == ParentDir;
      } else {
        assert piece != "-";
        assert Components(p)[0] == Normal(piece) || piece == "";
      }
    }
  }

  lemma StdinSpellings()
    ensures DenotesStdin("-") && DenotesStdin("-/") && DenotesStdin("-/./")
    ensures !DenotesStdin("./-") && !DenotesStdin("-.") && !DenotesStdin("-/x") && !DenotesStdin("--")
  {
    assert "-/./"[1..] == "/./";
    assert "/./"[2..] == "/";
    assert "-/x"[1..] == "/x";
  }

  /** One source to load: a path and the prefix its lines get. */
  datatype Request = Request(path: string, prefix: string)

  /** The environment: standard input's reads, and what opening each path gives (None: the open fails). */
  datatype World = World(stdin: seq<Read>, open: string -> Option<seq<Read>>)

  /** A loaded source: the request it came from and its stream. */
  datatype Opened = Opened(request: Request, stream: Stream)

  /** The reads a request's stream gets: standard input, or the opened file. */
  function ReadsOf(w: World, req: Request): seq<Read> {
    if DenotesStdin(req.path) then w.stdin else w.open(req.path).GetOr([])
  }

  /** `add_stream`'s failure: the path that could not be opened. */
  datatype OpenError = OpenError(path: string)

  /**
   * `add_stream` over the requests from position `i` on: standard input is
   * attached the first time and skipped afterwards; a file that cannot be opened
   * stops the loading with an error.
   */
  function Load(reqs: seq<Request>, w: World, i: nat, stdinFound: bool, streams: seq<Opened>): (r: Result<seq<Opened>, OpenError>)
    requires i <= |reqs|
    ensures r.Success? ==> |streams| <= |r.value| <= |streams| + |reqs| - i && r.value[..|streams|] == streams
    ensures r.Failure? ==> !DenotesStdin(r.error.path) && w.open(r.error.path).None?
    decreases |reqs| - i
  {
    if i == |reqs| then Success(streams)
    else
      var req := reqs[i];
      if DenotesStdin(req.path) then
        if stdinFound then Load(reqs, w, i + 1, true, streams)
        else Load(reqs, w, i + 1, true, streams + [Opened(req, New(w.stdin, req.prefix))])
      else
        match w.open(req.path)
        case None => Failure(OpenError(req.path))
        case Some(rs) => Load(reqs, w, i + 1, stdinFound, streams + [Opened(req, New(rs, req.prefix))])
  }

  /** A request is loaded when it is a file, or the first request for standard input. */
  predicate Kept(reqs: seq<Request>, i: nat)
    requires i < |reqs|
  {
    !DenotesStdin(reqs[i].path) || !SeenStdin(reqs, i)
  }

  /** The requests that are loaded, in order. */
  function KeptFrom(reqs: seq<Request>, i: nat): seq<Request>
    requires i <= |reqs|
    decreases |reqs| - i
  {
    if i == |reqs| then [] else (if Kept(reqs, i) then [reqs[i]] else []) + KeptFrom(reqs, i + 1)
  }

  /** The first file request that cannot be opened. */
  function FirstOpenFailure(reqs: seq<Request>, w: World, i: nat): (r: Option<nat>)
    requires i <= |reqs|
    ensures r.Some? ==> i <= r.value < |reqs| && !DenotesStdin(reqs[r.value].path) && w.open(reqs[r.value].path).None?
    ensures r.Some? ==> forall j :: i <= j < r.value && !DenotesStdin(reqs[j].path) ==> w.open(reqs[j].path).Some?
    ensures r.None? ==> forall j :: i <= j < |reqs| && !DenotesStdin(reqs[j].path) ==> w.open(reqs[j].path).Some?
    decreases |reqs| - i
  {
    if i == |reqs| then None
    else if !DenotesStdin(reqs[i].path) && w.open(reqs[i].path).None? then Some(i)
    else FirstOpenFailure(reqs, w, i + 1)
  }

  predicate SeenStdin(reqs: seq<Request>, i: nat)
    requires i <= |reqs|
  {
    exists j :: 0 <= j < i && DenotesStdin(reqs[j].path)
  }

  lemma SeenStep(reqs: seq<Request>, i: nat)
    requires i < |reqs|
    ensures SeenStdin(reqs, i + 1) == (SeenStdin(reqs, i) || DenotesStdin(reqs[i].path))
  {
    if DenotesStdin(reqs[i].path) {
      assert 0 <= i < i + 1 && DenotesStdin(reqs[i].path);
    }
    if SeenStdin(reqs, i + 1) && !DenotesStdin(reqs[i].path) {
      var j :| 0 <= j < i + 1 && DenotesStdin(reqs[j].path);
      assert j < i;
    }
  }

  /** The stream a request gets, behind the request's own prefix. */
  function Open(w: World, req: Request): Opened {
    Opened(req, New(ReadsOf(w, req), req.prefix))
  }

  function OpenAll(w: World, reqs: seq<Request>): (r: seq<Opened>)
    ensures |r| == |reqs|
    ensures forall k :: 0 <= k < |reqs| ==> r[k] == Open(w, reqs[k])
  {
    if |reqs| == 0 then [] else [Open(w, reqs[0])] + OpenAll(w, reqs[1..])
  }

  /** Loading fails exactly when some file cannot be opened, and names the first such file. */
  lemma {:induction false} LoadFails(reqs: seq<Request>, w: World, i: nat, found: bool, acc: seq<Opened>)
    requires i <= |reqs|
    ensures var r := Load(reqs, w, i, found, acc);
            var fail := FirstOpenFailure(reqs, w, i);
            && (r.Failure? <==> fail.Some?)
            && (r.Failure? ==> r.error == OpenError(reqs[fail.value].path))
    decreases |reqs| - i
  {
    if i < |reqs| {
      var req := reqs[i];
      if DenotesStdin(req.path) {
        if found {
          LoadFails(reqs, w, i + 1, true, acc);
        } else {
          LoadFails(reqs, w, i + 1, true, acc + [Opened(req, New(w.stdin, req.prefix))]);
        }
      } else if w.open(req.path).Some? {
        LoadFails(reqs, w, i + 1, found, acc + [Opened(req, New(w.open(req.path).value, req.prefix))]);
      }
    }
  }

  /**
   * A load that succeeds yields one stream per loaded request, in request order,
   * each reading its own source behind its own prefix.
   */
  lemma {:induction false} LoadSucceeds(reqs: seq<Request>, w: World, i: nat, found: bool, acc: seq<Opened>)
    requires i <= |reqs| && found == SeenStdin(reqs, i)
    requires Load(reqs, w, i, found, acc).Success?
    ensures Load(reqs, w, i, found, acc).value == acc + OpenAll(w, KeptFrom(reqs, i))
    decreases |reqs| - i
  {
    if i == |reqs| {
      assert KeptFrom(reqs, i) == [] && OpenAll(w, []) == [];
      assert acc + [] == acc;
      assert Load(reqs, w, i, found, acc).value == acc;
    } else {
      var req := reqs[i];
      SeenStep(reqs, i);
      var rest := KeptFrom(reqs, i + 1);
      if DenotesStdin(req.path) && found {
        assert !Kept(reqs, i);
        assert KeptFrom(reqs, i) == rest by {
          assert KeptFrom(reqs, i) == [] + rest;
        }
        assert Load(reqs, w, i, found, acc) == Load(reqs, w, i + 1, true, acc);
        LoadSucceeds(reqs, w, i + 1, true, acc);
        assert Load(reqs, w, i, found, acc).value == acc + OpenAll(w, rest);
      } else {
        var one := Open(w, req);
        var next := found || DenotesStdin(req.path);
        LoadKeeps(reqs, w, i, found, acc);
        assert Kept(reqs, i);
        assert Load(reqs, w, i + 1, next, acc + [one]).value == acc + [one] + OpenAll(w, rest) by {
          LoadSucceeds(reqs, w, i + 1, next, acc + [one]);
        }
        KeptOpened(reqs, w, i);
        calc {
          Load(reqs, w, i, found, acc).value;
          Load(reqs, w, i + 1, next, acc + [one]).value;
          acc + [one] + OpenAll(w, rest);
          { AppendAssoc(acc, [one], OpenAll(w, rest)); }
          acc + ([one] + OpenAll(w, rest));
          acc + OpenAll(w, KeptFrom(reqs, i));
        }
      }
    }
  }

  lemma AppendAssoc<T>(a: seq<T>, b: seq<T>, c: seq<T>)
    ensures a + b + c == a + (b + c)
  {
  }

  /** One step of a load that keeps request `i`. */
  lemma LoadKeeps(reqs: seq<Request>, w: World, i: nat, found: bool, acc: seq<Opened>)
    requires i < |reqs|
    requires Load(reqs, w, i, found, acc).Success?
    requires DenotesStdin(reqs[i].path) ==> !found
    ensures Load(reqs, w, i, found, acc)
            == Load(reqs, w, i + 1, found || DenotesStdin(reqs[i].path), acc + [Open(w, reqs[i])])
  {
  }

  lemma KeptOpened(reqs: seq<Request>, w: World, i: nat)
    requires i < |reqs| && Kept(reqs, i)
    ensures OpenAll(w, KeptFrom(reqs, i)) == [Open(w, reqs[i])] + OpenAll(w, KeptFrom(reqs, i + 1))
  {
    var kept := KeptFrom(reqs, i);
    assert kept[1..] == KeptFrom(reqs, i + 1);
  }

  /** Standard input is loaded at most once, and exactly once when some request names it. */
  lemma {:induction false} OneStdinStream(reqs: seq<Request>, i: nat)
    requires i <= |reqs|
    ensures var kept := KeptFrom(reqs, i);
            && (SeenStdin(reqs, i) ==> forall k :: 0 <= k < |kept| ==> !DenotesStdin(kept[k].path))
            && (!SeenStdin(reqs, i) ==> forall a, b :: 0 <= a < b < |kept| ==> !DenotesStdin(kept[a].path) || !DenotesStdin(kept[b].path))
            && ((exists j :: i <= j < |reqs| && DenotesStdin(reqs[j].path)) && !SeenStdin(reqs, i) ==>
                  exists k :: 0 <= k < |kept| && DenotesStdin(kept[k].path))
    decreases |reqs| - i
  {
    if i < |reqs| {
      OneStdinStream(reqs, i + 1);
      var kept := KeptFrom(reqs, i);
      var rest := KeptFrom(reqs, i + 1);
      SeenStep(reqs, i);
      if DenotesStdin(reqs[i].path) {
        if !SeenStdin(reqs, i) {
          assert Kept(reqs, i);
          assert kept == [reqs[i]] + rest;
          assert DenotesStdin(kept[0].path);
        }
      } else {
        assert kept == [reqs[i]] + rest;
        if (exists j :: i <= j < |reqs| && DenotesStdin(reqs[j].path)) && !SeenStdin(reqs, i) {
          var j :| i <= j < |reqs| && DenotesStdin(reqs[j].path);
          assert j > i;
          var k :| 0 <= k < |rest| && DenotesStdin(rest[k].path);
          assert kept[k + 1] == rest[k];
        }
      }
    }
  }

  /** The file requests, in order. */
  function Files(reqs: seq<Request>): seq<Request> {
    if |reqs| == 0 then [] else (if DenotesStdin(reqs[0].path) then [] else [reqs[0]]) + Files(reqs[1..])
  }

  /** Every file request is loaded, in request order: dropping standard input from the loaded list leaves all the files. */
  lemma {:induction false} EveryFileLoaded(reqs: seq<Request>, i: nat)
    requires i <= |reqs|
    ensures Files(KeptFrom(reqs, i)) == Files(reqs[i..])
    decreases |reqs| - i
  {
    if i < |reqs| {
      EveryFileLoaded(reqs, i + 1);
      FilesAppend((if Kept(reqs, i) then [reqs[i]] else []), KeptFrom(reqs, i + 1));
      assert reqs[i..][1..] == reqs[i + 1..];
    }
  }

  lemma {:induction false} FilesAppend(a: seq<Request>, b: seq<Request>)
    ensures Files(a + b) == Files(a) + Files(b)
  {
    if |a| > 0 {
      assert (a + b)[1..] == a[1..] + b;
      FilesAppend(a[1..], b);
    } else {
      assert a + b == b;
    }
  }

  /** The command line: default prefix, interval unit, positional paths and `-f` arguments. */
  datatype Args = Args(prefix: string, interval: Option<string>, logs: seq<string>, prefixedLogs: seq<string>)

  /** Positional paths first, with the default prefix, then the `-f` arguments, each with its own. */
  function Requests(args: Args): (reqs: seq<Request>)
    ensures |reqs| == |args.logs| + |args.prefixedLogs|
    ensures forall i :: 0 <= i < |args.logs| ==> reqs[i] == Request(args.logs[i], args.prefix)
    ensures forall i :: 0 <= i < |args.prefixedLogs| ==>
              var pf := ParsePrefixedFile(args.prefixedLogs[i]);
              reqs[|args.logs| + i] == Request(pf.path, pf.prefix)
  {
    seq(|args.logs|, i requires 0 <= i < |args.logs| => Request(args.logs[i], args.prefix))
    + seq(|args.prefixedLogs|, i requires 0 <= i < |args.prefixedLogs| =>
            var pf := ParsePrefixedFile(args.prefixedLogs[i]);
            Request(pf.path, pf.prefix))
  }

  /** Why a run stops before printing anything. */
  datatype RunError = BadInterval(cause: UnitError) | OpenFailed(path: string)

  /** The items of every loaded stream. */
  function Drained(cat: seq<Kind>, f: Foreign, loaded: seq<Opened>): (ss: seq<seq<Item>>)
    ensures |ss| == |loaded|
    ensures forall k :: 0 <= k < |loaded| ==> ss[k] == Drain(cat, f, loaded[k].stream)
  {
    seq(|loaded|, k requires 0 <= k < |loaded| => Drain(cat, f, loaded[k].stream))
  }

  /** The number of lines all the loaded sources yield. */
  function LineCount(loaded: seq<Opened>): nat {
    if |loaded| == 0 then 0 else |LinesOf(loaded[0].stream.pending)| + LineCount(loaded[1..])
  }

  lemma {:induction false} DrainedSize(cat: seq<Kind>, f: Foreign, loaded: seq<Opened>)
    ensures TotalSize(Drained(cat, f, loaded)) == LineCount(loaded)
  {
    if |loaded| > 0 {
      DrainItems(cat, f, loaded[0].stream);
      DrainedSize(cat, f, loaded[1..]);
      assert Drained(cat, f, loaded)[1..] == Drained(cat, f, loaded[1..]);
    }
  }

  /**
   * `main` after argument parsing: check the unit, build the catalog, load the
   * sources, merge their streams and print one line per item.
   */
  method Run(args: Args, clock: seq<CivilDate>, w: World, f: Foreign) returns (r: Result<seq<string>, RunError>)
    requires |clock| == |Shapes|
    requires forall i :: 0 <= i < |clock| ==> ValidReading(clock[i])
    ensures ParseUnit(args.interval).Failure? ==> r == Failure(BadInterval(InvalidIntervalSpecifier))
    ensures ParseUnit(args.interval).Success? ==>
              var reqs := Requests(args);
              var fail := FirstOpenFailure(reqs, w, 0);
              && (r.Failure? <==> fail.Some?)
              && (r.Failure? ==> r.error == OpenFailed(reqs[fail.value].path))
    ensures r.Success? ==> ParseUnit(args.interval).Success? && Load(Requests(args), w, 0, false, []).Success?
    ensures r.Success? ==>
              var loaded := Load(Requests(args), w, 0, false, []).value;
              var items := KMerge(Drained(Catalog(clock), f, loaded));
              && |r.value| == |items| == LineCount(loaded)
              && forall i :: 0 <= i < |items| ==> r.value[i] == Annotated(items, i, ParseUnit(args.interval).value)
  {
    var unit := ParseUnit(args.interval);
    if unit.Failure? {
      return Failure(BadInterval(unit.error));
    }
    var cat := Catalog(clock);
    var reqs := Requests(args);
    LoadFails(reqs, w, 0, false, []);
    var load := Load(reqs, w, 0, false, []);
    if load.Failure? {
      return Failure(OpenFailed(load.error.path));
    }
    var streams := Drained(cat, f, load.value);
    DrainedSize(cat, f, load.value);
    var items := KMerge(streams);
    var lines := Annotate(items, unit.value);
    r := Success(lines);
  }
}
