/** `s_mkdirp` of `proj-dev-setup/main.c`: creates every missing directory along a path.
    The file system is a set of directories, each named by its canonical path with a trailing
    slash; `denied` are the paths for which `mkdir` itself would fail. */
module MkdirP {
  import opened Collections
  import opened CStrings

  const PATH_MAX := 4096
  const SLASH := '/'

  /** `Unterminated`: the path fills its copy, which is left without terminator; what the tokeniser
      then reads is undefined in C, and the model stops there. */
  datatype Outcome = Done | TooLong | MkdirFailed | Unterminated

  /** A `mkdir` call together with the directories that existed when it was issued. */
  datatype Call = Call(path: string, before: set<string>)

  class FileSystem {
    var dirs: set<string>
    const denied: set<string>
    ghost var calls: seq<Call>

    constructor (dirs: set<string>, denied: set<string>)
      ensures this.dirs == dirs && this.denied == denied && calls == []
    {
      this.dirs, this.denied, calls := dirs, denied, [];
    }

    method Mkdir(path: string) returns (ok: bool)
      modifies this
      ensures calls == old(calls) + [Call(path, old(dirs))]
      ensures ok <==> path !in denied
      ensures dirs == if ok then old(dirs) + {path} else old(dirs)
    {
      calls := calls + [Call(path, dirs)];
      ok := path !in denied;
      if ok { dirs := dirs + {path}; }
    }
  }

  /** The root or the working directory, or a directory that exists, is the parent of `path`. */
  ghost predicate ParentExists(c: Call) {
    exists q: string :: (q in c.before || q == "/" || q == "") && IsChild(q, c.path)
  }

  predicate IsChild(parent: string, path: string) {
    |parent| + 1 < |path| && parent <= path && path[|path| - 1] == SLASH &&
    SLASH !in path[|parent|..|path| - 1]
  }

  // -------------------------------------------------------------------------
  // The directories a path names
  // -------------------------------------------------------------------------

  function Root(path: string): string {
    if path != "" && path[0] == SLASH then "/" else ""
  }

  /** The directory made of the first `i` components. */
  function Dir(root: string, pieces: seq<string>, i: nat): string
    requires i <= |pieces|
  {
    if i == 0 then root else Dir(root, pieces, i - 1) + pieces[i - 1] + "/"
  }

  function Prefix(path: string, i: nat): string
    requires i <= |Tokens(path, SLASH)|
  {
    Dir(Root(path), Tokens(path, SLASH), i)
  }

  /** The whole path with single slashes and one trailing slash. */
  function Canonical(path: string): string {
    Prefix(path, |Tokens(path, SLASH)|)
  }

  ghost function Made(path: string, n: nat): set<string>
    requires n <= |Tokens(path, SLASH)|
  {
    set i | 1 <= i <= n :: Prefix(path, i)
  }

  /** The buffer check at component `i` fails. */
  predicate TooLongAt(path: string, i: nat)
    requires i < |Tokens(path, SLASH)|
  {
    |Prefix(path, i)| + |Tokens(path, SLASH)[i]| + 2 > PATH_MAX
  }

  /** Component `i` can be created: its buffer check and its `mkdir` both pass. */
  ghost predicate Passes(path: string, dirs: set<string>, denied: set<string>, i: nat)
    requires i < |Tokens(path, SLASH)|
  {
    !TooLongAt(path, i) &&
    (Prefix(path, i + 1) in dirs || Prefix(path, i + 1) !in denied)
  }

  ghost predicate AllPass(path: string, dirs: set<string>, denied: set<string>, n: nat)
    requires n <= |Tokens(path, SLASH)|
  {
    forall i :: 0 <= i < n ==> Passes(path, dirs, denied, i)
  }

  lemma {:induction false} PrefixGrows(root: string, pieces: seq<string>, i: nat, j: nat)
    requires i <= j <= |pieces|
    ensures |Dir(root, pieces, i)| <= |Dir(root, pieces, j)|
    ensures i < j ==> |Dir(root, pieces, i)| < |Dir(root, pieces, j)|
    decreases j
  {
    if i < j { PrefixGrows(root, pieces, i, j - 1); }
  }

  // -------------------------------------------------------------------------
  // The code
  // -------------------------------------------------------------------------

  /** `strncpy(buf, pathname, PATH_MAX)`. */
  method CopyPath(path: string) returns (buf: array<char>)
    requires NUL !in path
    ensures fresh(buf) && buf.Length == PATH_MAX
    ensures |path| < PATH_MAX ==> Terminated(buf, 0, |path|) && buf[..|path|] == path
    ensures |path| >= PATH_MAX ==> NUL !in buf[..]
  {
    buf := new char[PATH_MAX];
    var i := 0;
    while i < PATH_MAX
      invariant 0 <= i <= PATH_MAX
      invariant forall k :: 0 <= k < i ==> buf[k] == if k < |path| then path[k] else NUL
    {
      buf[i] := if i < |path| then path[i] else NUL;
      i := i + 1;
    }
    assert |path| < PATH_MAX ==> buf[0..|path|] == buf[..|path|] == path;
  }

  /** `strtok` with its hidden position; `left` are the tokens still to come. */
  class Tokenizer {
    const buf: array<char>
    var save: nat
    ghost const end: nat
    ghost var left: seq<string>

    ghost predicate Valid()
      reads this, buf
    {
      Terminated(buf, save, end) && left == Tokens(buf[save..end], SLASH)
    }

    constructor (buf: array<char>, ghost end: nat)
      requires Terminated(buf, 0, end)
      ensures Valid() && this.buf == buf && left == Tokens(buf[0..end], SLASH)
    {
      this.buf, this.save, this.end, this.left := buf, 0, end, Tokens(buf[0..end], SLASH);
    }

    method Next() returns (token: Option<string>)
      requires Valid()
      modifies this, buf
      ensures Valid() && buf[0] == old(buf[0])
      ensures token == if old(left) == [] then None else Some(old(left)[0])
      ensures left == if old(left) == [] then [] else old(left)[1..]
    {
      var found, begin, stop, next := StrtokR(buf, save, end, SLASH);
      token := None;
      if found {
        token := Some(buf[begin..stop]);
        save, left := next, Tokens(buf[next..end], SLASH);
      }
    }
  }

  /** The state of the loop after `i` components, started with the directories `dirs0`. */
  ghost predicate At(path: string, i: nat, currpath: string, dirs0: set<string>, fs: FileSystem)
    reads fs
  {
    && i <= |Tokens(path, SLASH)|
    && currpath == Prefix(path, i) && |currpath| + 1 <= PATH_MAX
    && (i > 0 ==> currpath in fs.dirs)
    && fs.dirs == dirs0 + Made(path, i)
    && AllPass(path, dirs0, fs.denied, i)
  }

  ghost predicate ParentsExist(before: seq<Call>, after: seq<Call>) {
    before <= after &&
    forall k :: |before| <= k < |after| ==> ParentExists(after[k]) && after[k].path !in after[k].before
  }

  lemma ParentsExistThen(a: seq<Call>, b: seq<Call>, c: seq<Call>)
    requires ParentsExist(a, b) && ParentsExist(b, c)
    ensures ParentsExist(a, c)
  {
    assert forall k :: 0 <= k < |b| ==> c[k] == b[k];
  }

  /** One round of the loop: append the component, then create the directory if it is missing. */
  method EnterComponent(fs: FileSystem, currpath: string, piece: string,
                        ghost path: string, ghost i: nat, ghost dirs0: set<string>)
    returns (next: string, outcome: Outcome)
    requires At(path, i, currpath, dirs0, fs)
    requires i < |Tokens(path, SLASH)| && piece == Tokens(path, SLASH)[i]
    modifies fs
    ensures outcome == Done ==> At(path, i + 1, next, dirs0, fs)
    ensures outcome != Done ==> !Passes(path, dirs0, fs.denied, i) && fs.dirs == old(fs.dirs)
    ensures outcome != Unterminated && (outcome == TooLong <==> TooLongAt(path, i))
    ensures ParentsExist(old(fs.calls), fs.calls)
  {
    next, outcome := currpath, Done;
    if |currpath| + |piece| + 2 > PATH_MAX {
      outcome := TooLong;
      return;
    }
    next := currpath + piece + "/";
    PassesFromStart(path, dirs0, fs.denied, i);
    MadeNext(path, i);
    if next !in fs.dirs {
      ChildOf(path, i);
      ghost var call := Call(next, fs.dirs);
      assert ParentExists(call) by { assert IsChild(currpath, next); }
      var ok := fs.Mkdir(next);
      if !ok { outcome := MkdirFailed; }
    }
  }

  /** `piece` is component `reached`, if there is one, and `left` are those behind it. */
  ghost predicate Ahead(pieces: seq<string>, reached: nat, piece: Option<string>, left: seq<string>) {
    if piece.None? then reached == |pieces|
    else reached < |pieces| && pieces[reached] == piece.value && pieces[reached + 1..] == left
  }

  lemma AheadNext(pieces: seq<string>, reached: nat, piece: Option<string>, left: seq<string>)
    requires Ahead(pieces, reached, piece, left) && piece.Some?
    ensures left == [] ==> Ahead(pieces, reached + 1, None, [])
    ensures left != [] ==> Ahead(pieces, reached + 1, Some(left[0]), left[1..])
  {
    if left != [] { assert left[0] == pieces[reached + 1] && left[1..] == pieces[reached + 2..]; }
  }

  /** Up to the loop: the first component, and a slash if the path starts with one. */
  method FirstPiece(buf: array<char>, ghost path: string)
    returns (strtok: Tokenizer, piece: Option<string>, currpath: string)
    requires Terminated(buf, 0, |path|) && buf[..|path|] == path
    modifies buf
    ensures fresh(strtok) && strtok.buf == buf && strtok.Valid()
    ensures currpath == Root(path) && Ahead(Tokens(path, SLASH), 0, piece, strtok.left)
  {
    assert buf[0..|path|] == path;
    strtok := new Tokenizer(buf, |path|);
    piece := strtok.Next();
    currpath := if buf[0] == SLASH then "/" else "";
  }

  /** A round of the loop and the next component. */
  method Round(fs: FileSystem, strtok: Tokenizer, currpath: string, piece: string,
               ghost path: string, ghost i: nat, ghost dirs0: set<string>, ghost calls0: seq<Call>)
    returns (next: string, piece': Option<string>, outcome: Outcome)
    requires At(path, i, currpath, dirs0, fs) && strtok.Valid() && ParentsExist(calls0, fs.calls)
    requires Ahead(Tokens(path, SLASH), i, Some(piece), strtok.left)
    modifies fs, strtok, strtok.buf
    ensures strtok.Valid() && ParentsExist(calls0, fs.calls) && outcome != Unterminated
    ensures outcome == Done ==> At(path, i + 1, next, dirs0, fs)
    ensures outcome == Done ==> Ahead(Tokens(path, SLASH), i + 1, piece', strtok.left)
    ensures outcome != Done ==> !Passes(path, dirs0, fs.denied, i) && fs.dirs == old(fs.dirs)
    ensures outcome == TooLong <==> TooLongAt(path, i)
  {
    ghost var calls := fs.calls;
    next, outcome := EnterComponent(fs, currpath, piece, path, i, dirs0);
    ParentsExistThen(calls0, calls, fs.calls);
    piece' := None;
    if outcome == Done {
      AheadNext(Tokens(path, SLASH), i, Some(piece), strtok.left);
      piece' := strtok.Next();
    }
  }

  /** The function as written. `reached` components were handled when it stopped. The stores into
      `currpath` leave room for the terminator (part of `At`). */
  method Mkdirp(path: string, fs: FileSystem) returns (outcome: Outcome, ghost reached: nat)
    requires NUL !in path
    modifies fs
    ensures outcome == Unterminated <==> |path| >= 4096
    ensures reached <= |Tokens(path, SLASH)|
    ensures outcome != Unterminated ==> (outcome == Done <==> reached == |Tokens(path, SLASH)|)
    ensures fs.dirs == old(fs.dirs) + Made(path, reached)
    ensures AllPass(path, old(fs.dirs), fs.denied, reached)
    ensures outcome in {TooLong, MkdirFailed} ==> !Passes(path, old(fs.dirs), fs.denied, reached)
    ensures |path| < PATH_MAX ==>
      (outcome == TooLong <==> reached < |Tokens(path, SLASH)| && TooLongAt(path, reached))
    ensures ParentsExist(old(fs.calls), fs.calls)
  {
    reached := 0;
    var buf := CopyPath(path);
    if |path| >= PATH_MAX { return Unterminated, 0; }
    outcome, reached := MakeAll(buf, path, fs);
  }

  /** The same for a path that fits its copy. */
  method MakeAll(buf: array<char>, ghost path: string, fs: FileSystem)
    returns (outcome: Outcome, ghost reached: nat)
    requires Terminated(buf, 0, |path|) && buf[..|path|] == path
    modifies fs, buf
    ensures reached <= |Tokens(path, SLASH)| && outcome != Unterminated
    ensures outcome == Done <==> reached == |Tokens(path, SLASH)|
    ensures fs.dirs == old(fs.dirs) + Made(path, reached)
    ensures AllPass(path, old(fs.dirs), fs.denied, reached)
    ensures outcome != Done ==> !Passes(path, old(fs.dirs), fs.denied, reached)
    ensures outcome == TooLong <==> reached < |Tokens(path, SLASH)| && TooLongAt(path, reached)
    ensures ParentsExist(old(fs.calls), fs.calls)
  {
    var strtok, piece, currpath := FirstPiece(buf, path);
    reached, outcome := 0, Done;
    while piece.Some?
      invariant outcome == Done && At(path, reached, currpath, old(fs.dirs), fs)
      invariant strtok.Valid() && strtok.buf == buf && fresh(strtok)
      invariant Ahead(Tokens(path, SLASH), reached, piece, strtok.left)
      invariant ParentsExist(old(fs.calls), fs.calls)
      decreases |Tokens(path, SLASH)| - reached
    {
      currpath, piece, outcome :=
        Round(fs, strtok, currpath, piece.value, path, reached, old(fs.dirs), old(fs.calls));
      if outcome != Done { return; }
      reached := reached + 1;
    }
  }

  lemma ChildOf(path: string, i: nat)
    requires i < |Tokens(path, SLASH)|
    ensures IsChild(Prefix(path, i), Prefix(path, i + 1))
    ensures i == 0 ==> Prefix(path, i) in ["/", ""]
  {
    var piece := Tokens(path, SLASH)[i];
    SplitJoins(path, SLASH);
    TokensNonEmpty(Split(path, SLASH));
    assert piece in Split(path, SLASH) && piece != "";
    var p, q := Prefix(path, i + 1), Prefix(path, i);
    assert p == q + piece + "/";
    assert p[|q|..|p| - 1] == piece;
  }

  lemma MadeNext(path: string, i: nat)
    requires i < |Tokens(path, SLASH)|
    ensures Made(path, i + 1) == Made(path, i) + {Prefix(path, i + 1)}
  {
  }

  /** A directory created earlier in the same call is shorter, hence different. */
  lemma NotMadeYet(path: string, i: nat)
    requires i < |Tokens(path, SLASH)|
    ensures Prefix(path, i + 1) !in Made(path, i)
  {
    forall j | 1 <= j <= i ensures Prefix(path, j) != Prefix(path, i + 1) {
      PrefixGrows(Root(path), Tokens(path, SLASH), j, i + 1);
    }
  }

  /** Directories made earlier in the call do not change whether a component passes. */
  lemma PassesFromStart(path: string, dirs: set<string>, denied: set<string>, i: nat)
    requires i < |Tokens(path, SLASH)|
    ensures Passes(path, dirs + Made(path, i), denied, i) <==> Passes(path, dirs, denied, i)
    ensures AllPass(path, dirs, denied, i + 1) <==> AllPass(path, dirs, denied, i) && Passes(path, dirs, denied, i)
  {
    NotMadeYet(path, i);
  }

  // -------------------------------------------------------------------------
  // When the whole path gets created
  // -------------------------------------------------------------------------

  /** With no failing `mkdir`, `Mkdirp` ends in `Done` exactly when the canonical form and its
      terminator fit the buffer. A path shorter than PATH_MAX is not enough. */
  lemma CompletesExactlyWhen(path: string, dirs: set<string>, denied: set<string>)
    requires denied !! Made(path, |Tokens(path, SLASH)|)
    ensures AllPass(path, dirs, denied, |Tokens(path, SLASH)|)
       <==> (Tokens(path, SLASH) == [] || |Canonical(path)| < 4096)
  {
    var pieces := Tokens(path, SLASH);
    var n := |pieces|;
    if n > 0 {
      assert |Prefix(path, n - 1)| + |pieces[n - 1]| + 1 == |Canonical(path)|;
      assert Passes(path, dirs, denied, n - 1) ==> |Canonical(path)| < PATH_MAX;
      if |Canonical(path)| < PATH_MAX {
        forall i | 0 <= i < n ensures Passes(path, dirs, denied, i) {
          PrefixGrows(Root(path), pieces, i + 1, n);
          assert Prefix(path, i + 1) in Made(path, n);
        }
      }
    }
  }

  /** Every path at least two characters shorter than PATH_MAX fits. */
  lemma ShortPathsFit(path: string)
    requires |path| <= 4094
    ensures |Canonical(path)| < 4096
  {
    CanonicalLength(path);
  }

  /** No redundant slash: each one is followed by a component. */
  predicate Tight(path: string) {
    path != "" && forall k :: 0 <= k < |path| && path[k] == SLASH ==> k + 1 < |path| && path[k + 1] != SLASH
  }

  /** Of the paths of PATH_MAX - 1 characters exactly those without a redundant slash are refused. */
  lemma LongestPathCompletesIff(path: string, dirs: set<string>, denied: set<string>)
    requires |path| == 4095 && denied !! Made(path, |Tokens(path, SLASH)|)
    ensures AllPass(path, dirs, denied, |Tokens(path, SLASH)|) <==> !Tight(path)
  {
    CompletesExactlyWhen(path, dirs, denied);
    CanonicalLength(path);
    CanonicalLengthIff(path);
  }

  /** One of them. */
  lemma LongestPathRefused(path: string, dirs: set<string>, denied: set<string>)
    requires |path| == 4095 && forall k :: 0 <= k < |path| ==> path[k] == 'a'
    ensures Tokens(path, SLASH) == [path] && !Passes(path, dirs, denied, 0)
  {
    SplitTake(path, SLASH, |path|);
    assert path[..|path|] == path;
    assert Split(path, SLASH) == [path];
    assert NonEmpty([path][1..]) == [];
  }

  lemma {:induction false} JoinSnoc(pieces: seq<string>, t: string)
    requires pieces != []
    ensures Join(pieces + [t], SLASH) == Join(pieces, SLASH) + "/" + t
  {
    if |pieces| == 1 {
      assert (pieces + [t])[1..] == [t];
    } else {
      JoinSnoc(pieces[1..], t);
      assert (pieces + [t])[1..] == pieces[1..] + [t];
    }
  }

  /** The directory of the first `i` components: these, joined by single slashes, behind the root. */
  lemma {:induction false} DirIs(root: string, pieces: seq<string>, i: nat)
    requires 0 < i <= |pieces|
    ensures Dir(root, pieces, i) == root + Join(pieces[..i], SLASH) + "/"
  {
    if i == 1 {
      assert pieces[..1] == [pieces[0]] && Dir(root, pieces, 0) == root;
    } else {
      DirIs(root, pieces, i - 1);
      JoinSnoc(pieces[..i - 1], pieces[i - 1]);
      assert pieces[..i] == pieces[..i - 1] + [pieces[i - 1]];
    }
  }

  lemma PrefixIs(path: string, i: nat)
    requires 0 < i <= |Tokens(path, SLASH)|
    ensures Prefix(path, i) == Root(path) + Join(Tokens(path, SLASH)[..i], SLASH) + "/"
  {
    DirIs(Root(path), Tokens(path, SLASH), i);
  }

  /** The canonical form of a path without redundant slashes is the path itself and a slash. */
  lemma CanonicalIs(path: string)
    requires Tight(path)
    ensures Canonical(path) == path + "/"
  {
    var pieces := Tokens(path, SLASH);
    TightPieces(path);
    SplitJoins(path, SLASH);
    JoinRoot(path, Split(path, SLASH));
    DirIs(Root(path), pieces, |pieces|);
    assert pieces[..|pieces|] == pieces;
  }

  /** Its components are its segments, without the empty one before a leading slash. */
  lemma TightPieces(path: string)
    requires Tight(path)
    ensures var segs, pieces := Split(path, SLASH), Tokens(path, SLASH);
      && pieces != [] && pieces == (if path[0] == SLASH then segs[1..] else segs)
      && (path[0] == SLASH <==> segs[0] == "")
  {
    var segs := Split(path, SLASH);
    FirstSegment(path);
    LaterSegments(path);
    NonEmptyCons(segs);
    KeepAll(IsFull, segs[1..]);
    FullOrNot(segs);
    if path[0] == SLASH { TwoSegments(path); }
  }

  lemma TwoSegments(path: string)
    requires path != "" && path[0] == SLASH
    ensures |Split(path, SLASH)| > 1
  {
  }

  lemma FullOrNot(segs: seq<string>)
    requires segs != []
    ensures [segs[0]] + segs[1..] == segs && [] + segs[1..] == segs[1..]
  {
  }

  lemma JoinRoot(path: string, segs: seq<string>)
    requires path != "" && segs != [] && (path[0] == SLASH ==> segs[0] == "" && |segs| > 1)
    ensures Join(segs, SLASH) == Root(path) + Join(if path[0] == SLASH then segs[1..] else segs, SLASH)
  {
    if path[0] == SLASH {
      assert "" + [SLASH] + Join(segs[1..], SLASH) == "/" + Join(segs[1..], SLASH);
    } else {
      assert "" + Join(segs, SLASH) == Join(segs, SLASH);
    }
  }

  function Weight(segs: seq<string>): nat {
    if segs == [] then 0 else |segs[0]| + 1 + Weight(segs[1..])
  }

  lemma {:induction false} WeightSnoc(segs: seq<string>, t: string)
    ensures Weight(segs + [t]) == Weight(segs) + |t| + 1
  {
    if segs != [] {
      WeightSnoc(segs[1..], t);
      assert (segs + [t])[1..] == segs[1..] + [t];
    }
  }

  lemma {:induction false} DirLength(root: string, pieces: seq<string>, i: nat)
    requires i <= |pieces|
    ensures |Dir(root, pieces, i)| == |root| + Weight(pieces[..i])
  {
    if i > 0 {
      DirLength(root, pieces, i - 1);
      WeightSnoc(pieces[..i - 1], pieces[i - 1]);
      assert pieces[..i] == pieces[..i - 1] + [pieces[i - 1]];
    }
  }

  lemma {:induction false} WeightOfJoin(segs: seq<string>)
    requires segs != []
    ensures Weight(segs) == |Join(segs, SLASH)| + 1
  {
    if |segs| > 1 { WeightOfJoin(segs[1..]); }
  }

  lemma {:induction false} NonEmptyWeighsLess(segs: seq<string>)
    ensures Weight(NonEmpty(segs)) <= Weight(segs)
  {
    if segs != [] {
      NonEmptyWeighsLess(segs[1..]);
      NonEmptyCons(segs);
    }
  }

  ghost predicate AllFull(segs: seq<string>) { forall i :: 0 <= i < |segs| ==> segs[i] != "" }

  lemma {:induction false} FullWeighsSame(segs: seq<string>)
    ensures Weight(NonEmpty(segs)) == Weight(segs) <==> AllFull(segs)
  {
    if segs != [] {
      FullWeighsSame(segs[1..]);
      NonEmptyWeighsLess(segs[1..]);
      NonEmptyCons(segs);
      AllFullCons(segs);
    }
  }

  lemma AllFullCons(segs: seq<string>)
    requires segs != []
    ensures AllFull(segs) <==> segs[0] != "" && AllFull(segs[1..])
  {
    assert segs == [segs[0]] + segs[1..];
  }

  lemma {:induction false} FirstSegment(s: string)
    ensures Split(s, SLASH)[0] == "" <==> s == "" || s[0] == SLASH
  {
  }

  lemma {:induction false} LaterSegments(s: string)
    ensures AllFull(Split(s, SLASH)[1..]) <==> s == "" || Tight(s)
  {
    if s != "" {
      var rest := Split(s[1..], SLASH);
      LaterSegments(s[1..]);
      FirstSegment(s[1..]);
      assert rest == [rest[0]] + rest[1..];
      assert AllFull(rest) <==> rest[0] != "" && AllFull(rest[1..]);
      TightStep(s);
      if s[0] == SLASH {
        assert ([""] + rest)[1..] == rest;
      } else {
        assert ([[s[0]] + rest[0]] + rest[1..])[1..] == rest[1..];
      }
    }
  }

  lemma TightStep(s: string)
    requires s != ""
    ensures Tight(s) <==> (s[1..] == "" || Tight(s[1..])) && (s[0] == SLASH ==> |s| > 1 && s[1] != SLASH)
  {
    var t := s[1..];
    assert forall k :: 0 <= k < |t| ==> t[k] == s[k + 1];
    if (t == "" || Tight(t)) && (s[0] == SLASH ==> |s| > 1 && s[1] != SLASH) {
      forall k | 0 <= k < |s| && s[k] == SLASH ensures k + 1 < |s| && s[k + 1] != SLASH {
        if k > 0 { assert t[k - 1] == SLASH; }
      }
    }
    if Tight(s) && t != "" {
      forall k | 0 <= k < |t| && t[k] == SLASH ensures k + 1 < |t| && t[k + 1] != SLASH {
        assert s[k + 1] == SLASH;
      }
    }
  }

  lemma CanonicalLengthIff(path: string)
    ensures |Canonical(path)| == |path| + 1 <==> Tight(path)
  {
    var segs := Split(path, SLASH);
    var pieces := Tokens(path, SLASH);
    DirLength(Root(path), pieces, |pieces|);
    assert pieces[..|pieces|] == pieces;
    SplitJoins(path, SLASH);
    WeightOfJoin(segs);
    FirstSegment(path);
    LaterSegments(path);
    FullWeighsSame(segs);
    FullWeighsSame(segs[1..]);
    assert segs == [segs[0]] + segs[1..];
    assert AllFull(segs) <==> segs[0] != "" && AllFull(segs[1..]);
    NonEmptyCons(segs);
  }

  lemma CanonicalLength(path: string)
    ensures |Canonical(path)| <= |path| + 1
  {
    var segs := Split(path, SLASH);
    var pieces := Tokens(path, SLASH);
    DirLength(Root(path), pieces, |pieces|);
    assert pieces[..|pieces|] == pieces;
    SplitJoins(path, SLASH);
    WeightOfJoin(segs);
    NonEmptyWeighsLess(segs);
    if Root(path) == "/" {
      assert segs[0] == "";
      NonEmptyCons(segs);
      NonEmptyWeighsLess(segs[1..]);
    }
  }
}
