/** From dotted metric names to files and directories (`whisper_metric_filename`, `whisper_create_dirs`). */
module MetricPath {
  import opened Tokens

  function Components(name: string): seq<string> { Split(name, '.') }

  function Path(dir: string, ts: seq<string>): string { dir + Lead(ts, '/') }

  const SUFFIX := ".wsp"

  /** Names are copied into buffers of this size, terminator included. */
  const METRIC_NAME_MAX_LEN := 100

  /** The file of a metric; empty for a name without components. */
  function Filename(dir: string, name: string): string {
    if Components(name) == [] then "" else Path(dir, Components(name)) + SUFFIX
  }

  /** The paths of the first `n` prefixes of the components, the empty one first. */
  function Prefixes(dir: string, ts: seq<string>, n: nat): (ps: seq<string>)
    requires n <= |ts| + 1
    ensures |ps| == n
  {
    seq(n, i requires 0 <= i < n => Path(dir, ts[..i]))
  }

  /** The directories made for a metric, in the order they are made. */
  function Directories(dir: string, name: string): seq<string> {
    var ts := Components(name);
    Prefixes(dir, ts, if ts == [] then 1 else |ts|)
  }

  lemma PathSnoc(dir: string, ts: seq<string>, t: string)
    ensures Path(dir, ts + [t]) == Path(dir, ts) + "/" + t
  {
    LeadSnoc(ts, t, '/');
  }

  /** The file of a name: the directory, the components with slashes for dots, and the suffix. */
  lemma {:induction false} FilenameIs(dir: string, ts: seq<string>)
    requires ts != [] && Pieces(ts, '.')
    ensures Filename(dir, Join(ts, '.')) == dir + "/" + Join(ts, '/') + ".wsp"
  {
    SplitJoin(ts, '.');
    assert Lead(ts, '/') == "/" + Join(ts, '/');
  }

  /** The storage directory itself is made first, for every name. */
  lemma {:induction false} DirectoryFirst(dir: string, name: string)
    ensures Directories(dir, name) != [] && Directories(dir, name)[0] == dir
  {
    var none: seq<string> := [];
    assert Components(name)[..0] == none && Path(dir, none) == dir;
  }

  lemma OneMorePrefix(dir: string, ts: seq<string>, done: seq<string>)
    requires done <= ts
    ensures Prefixes(dir, ts, |done| + 1) == Prefixes(dir, ts, |done|) + [Path(dir, done)]
  {
    assert ts[..|done|] == done;
  }

  method MetricFilename(dir: string, name: string) returns (file: string)
    requires |name| < METRIC_NAME_MAX_LEN
    ensures file == Filename(dir, name)
    ensures file == "" <==> forall i :: 0 <= i < |name| ==> name[i] == '.'
  {
    file := "";
    var path := dir;
    var (cur, rest) := Next(name, '.');
    ghost var done := [];
    NextIsHead(name, '.');
    while cur != ""
      invariant path == Path(dir, done)
      invariant Components(name) == done + if cur == "" then [] else [cur] + Split(rest, '.')
      invariant if cur != "" || done == [] then file == "" else file == path + SUFFIX
      decreases |rest| + if cur == "" then 0 else 1
    {
      PathSnoc(dir, done, cur);
      NextMovesOn(Components(name), done, cur, rest, '.');
      path := path + "/" + cur;
      done := done + [cur];
      var (next, left) := Next(rest, '.');
      if next == "" {
        file := path + SUFFIX;
      }
      cur, rest := next, left;
    }
    assert Components(name) == done;
    NoPiecesExactlyWhen(name, '.');
  }

  method CreateDirs(dir: string, name: string) returns (made: seq<string>)
    requires |name| < METRIC_NAME_MAX_LEN
    ensures made == Directories(dir, name)
  {
    made := [dir];
    var path := dir;
    var (cur, rest) := Next(name, '.');
    ghost var ts, done: seq<string> := Components(name), [];
    NextIsHead(name, '.');
    OneMorePrefix(dir, ts, []);
    while cur != ""
      invariant path == Path(dir, done) && ts == done + if cur == "" then [] else [cur] + Split(rest, '.')
      invariant made == Prefixes(dir, ts, if done == [] then 1 else if cur == "" then |done| else |done| + 1)
      decreases |rest| + if cur == "" then 0 else 1
    {
      PathSnoc(dir, done, cur);
      NextMovesOn(Components(name), done, cur, rest, '.');
      path := path + "/" + cur;
      done := done + [cur];
      var (next, left) := Next(rest, '.');
      if next != "" {
        OneMorePrefix(dir, ts, done);
        made := made + [path];
      }
      cur, rest := next, left;
    }
  }

  // The directories made are the ancestors of the file.

  /** A directory on the way from `dir` to the file: what stands before one of the slashes. */
  ghost predicate Ancestor(dir: string, file: string, a: string) {
    |dir| <= |a| < |file| && file[|a|] == '/' && a == file[..|a|]
  }

  predicate SlashFree(ts: seq<string>) {
    forall i :: 0 <= i < |ts| ==> '/' !in ts[i]
  }

  lemma {:induction false} LeadSplit(ts: seq<string>, k: nat)
    requires k <= |ts|
    ensures Lead(ts, '/') == Lead(ts[..k], '/') + Lead(ts[k..], '/')
  {
    if k > 0 {
      LeadSplit(ts[1..], k - 1);
      assert ts[..k][1..] == ts[1..][..k - 1] && ts[k..] == ts[1..][k - 1..];
    } else {
      assert ts[0..] == ts;
    }
  }

  /** Each directory made is an ancestor of the file, and the next one lies in it. */
  lemma MadeAreAncestors(dir: string, name: string, k: nat)
    requires k < |Components(name)|
    ensures |Directories(dir, name)| == |Components(name)|
    ensures Ancestor(dir, Filename(dir, name), Directories(dir, name)[k])
    ensures k + 1 < |Components(name)| ==>
              Directories(dir, name)[k + 1] == Directories(dir, name)[k] + "/" + Components(name)[k]
  {
    var ts := Components(name);
    PrefixIsAncestor(dir, ts, k);
    if k + 1 < |ts| {
      assert ts[..k + 1] == ts[..k] + [ts[k]];
      PathSnoc(dir, ts[..k], ts[k]);
    }
  }

  lemma PrefixIsAncestor(dir: string, ts: seq<string>, k: nat)
    requires k < |ts|
    ensures Ancestor(dir, Path(dir, ts) + SUFFIX, Path(dir, ts[..k]))
  {
    LeadSplit(ts, k);
    assert Lead(ts[k..], '/')[0] == '/';
    assert Path(dir, ts) == Path(dir, ts[..k]) + Lead(ts[k..], '/');
  }

  // Paths as the file system reads them.

  /** What a path leads to: its nonempty pieces.  Paths compared here all begin with the same directory. */
  predicate SamePath(p: string, q: string) { Split(p, '/') == Split(q, '/') }

  /** The nonempty pieces that slashes cut the components into. */
  function Slashed(ts: seq<string>): seq<string> {
    if ts == [] then [] else Slashed(ts[..|ts| - 1]) + Split(ts[|ts| - 1], '/')
  }

  lemma {:induction false} SlashedPieces(ts: seq<string>)
    ensures Pieces(Slashed(ts), '/')
  {
    if ts != [] {
      SlashedPieces(ts[..|ts| - 1]);
      SplitPieces(ts[|ts| - 1], '/');
    }
  }

  lemma {:induction false} PathPieces(dir: string, ts: seq<string>)
    ensures Split(Path(dir, ts), '/') == Split(dir, '/') + Slashed(ts)
  {
    if ts == [] {
      assert Path(dir, ts) == dir;
    } else {
      var before, last := ts[..|ts| - 1], ts[|ts| - 1];
      PathPieces(dir, before);
      assert ts == before + [last];
      PathSnoc(dir, before, last);
      assert ("/" + last)[1..] == last;
      SplitAppend(Path(dir, before), "/" + last, '/');
      assert Path(dir, ts) == Path(dir, before) + ("/" + last);
    }
  }

  /** The pieces of a file: those of its directory and those of the last component with the suffix. */
  lemma {:induction false} FilePieces(dir: string, ts: seq<string>)
    requires ts != []
    ensures Split(Path(dir, ts) + SUFFIX, '/')
         == Split(dir, '/') + Slashed(ts[..|ts| - 1]) + Split(ts[|ts| - 1] + SUFFIX, '/')
  {
    var before, last := ts[..|ts| - 1], ts[|ts| - 1];
    assert ts == before + [last];
    PathSnoc(dir, before, last);
    PathPieces(dir, before);
    var tail := "/" + last + SUFFIX;
    assert tail[1..] == last + SUFFIX;
    assert Path(dir, ts) + SUFFIX == Path(dir, before) + tail;
    SplitAppend(Path(dir, before), tail, '/');
  }

  // The directories made against the directories on the way to the file.

  /** A directory on the way from `dir` to the file, by its pieces. */
  ghost predicate OnTheWay(dir: string, file: string, ps: seq<string>) {
    Split(dir, '/') <= ps < Split(file, '/')
  }

  ghost predicate IsMade(dir: string, name: string, ps: seq<string>) {
    exists k :: 0 <= k < |Directories(dir, name)| && Split(Directories(dir, name)[k], '/') == ps
  }

  /** Every component but the last adds at most one directory, and the last is the file alone. */
  predicate OnePieceEach(ts: seq<string>)
    requires ts != []
  {
    && (forall i :: 0 <= i < |ts| - 1 ==> |Split(ts[i], '/')| <= 1)
    && |Split(ts[|ts| - 1] + SUFFIX, '/')| == 1
  }

  lemma SlashedStep(ts: seq<string>, k: nat)
    requires k < |ts|
    ensures Slashed(ts[..k + 1]) == Slashed(ts[..k]) + Split(ts[k], '/')
  {
    assert ts[..k + 1][..k] == ts[..k];
  }

  lemma {:induction false} SlashedGrows(ts: seq<string>, j: nat, k: nat)
    requires j <= k <= |ts|
    ensures Slashed(ts[..j]) <= Slashed(ts[..k])
    decreases k
  {
    if j < k {
      SlashedGrows(ts, j, k - 1);
      SlashedStep(ts, k - 1);
    }
  }

  /** Adding one piece at a time, every depth up to the last is met. */
  lemma {:induction false} DepthMet(ts: seq<string>, top: nat, m: nat) returns (k: nat)
    requires top <= |ts| && m <= |Slashed(ts[..top])| && forall i :: 0 <= i < top ==> |Split(ts[i], '/')| <= 1
    ensures k <= top && |Slashed(ts[..k])| == m
  {
    if m == |Slashed(ts[..top])| {
      k := top;
    } else {
      SlashedStep(ts, top - 1);
      k := DepthMet(ts, top - 1, m);
    }
  }

  /** What is made, by its pieces. */
  lemma {:induction false} MadePieces(dir: string, name: string, k: nat)
    requires k < |Components(name)|
    ensures |Directories(dir, name)| == |Components(name)|
    ensures Split(Directories(dir, name)[k], '/') == Split(dir, '/') + Slashed(Components(name)[..k])
  {
    PathPieces(dir, Components(name)[..k]);
  }

  /** A directory at a depth that no prefix of the components has is not made. */
  lemma {:induction false} Unmade(dir: string, name: string, ps: seq<string>)
    requires Components(name) != []
    requires forall k :: 0 <= k < |Components(name)| ==> |ps| != |Split(dir, '/')| + |Slashed(Components(name)[..k])|
    ensures !IsMade(dir, name, ps)
  {
    forall k | 0 <= k < |Components(name)| ensures |Split(Directories(dir, name)[k], '/')| != |ps| {
      MadePieces(dir, name, k);
    }
    MadePieces(dir, name, 0);
  }

  lemma MadeIfOnePieceEach(dir: string, name: string, ps: seq<string>)
    requires Components(name) != [] && OnePieceEach(Components(name)) && OnTheWay(dir, Filename(dir, name), ps)
    ensures IsMade(dir, name, ps)
  {
    var ts, d := Components(name), Split(dir, '/');
    var top := |ts| - 1;
    FilePieces(dir, ts);
    var k := DepthMet(ts, top, |ps| - |d|);
    SlashedGrows(ts, k, top);
    MadePieces(dir, name, k);
    var file := Split(Filename(dir, name), '/');
    assert d + Slashed(ts[..k]) <= file;
    assert ps == file[..|ps|] == d + Slashed(ts[..k]);
  }

  /** Where a component adds several pieces a depth is passed over. */
  lemma {:induction false} DepthMissed(ts: seq<string>, i: nat, k: nat)
    requires i < |ts| && k < |ts| && (i < |ts| - 1 ==> |Split(ts[i], '/')| > 1)
    ensures |Slashed(ts[..k])| != |Slashed(ts[..i])| + 1
  {
    if k <= i {
      SlashedGrows(ts, k, i);
    } else {
      SlashedStep(ts, i);
      SlashedGrows(ts, i + 1, k);
    }
  }

  lemma {:induction false} MissingAt(dir: string, name: string, i: nat) returns (ps: seq<string>)
    requires Components(name) != [] && i < |Components(name)|
    requires i < |Components(name)| - 1 ==> |Split(Components(name)[i], '/')| > 1
    requires |Split(dir, '/')| + |Slashed(Components(name)[..i])| + 1 < |Split(Filename(dir, name), '/')|
    requires Split(dir, '/') <= Split(Filename(dir, name), '/')
    ensures OnTheWay(dir, Filename(dir, name), ps) && !IsMade(dir, name, ps)
  {
    var ts, d, file := Components(name), Split(dir, '/'), Split(Filename(dir, name), '/');
    ps := file[..|d| + |Slashed(ts[..i])| + 1];
    forall k | 0 <= k < |ts| ensures |ps| != |d| + |Slashed(ts[..k])| {
      DepthMissed(ts, i, k);
    }
    Unmade(dir, name, ps);
  }

  /** A component of several pieces, or a last one with a slash, leaves a directory out. */
  lemma {:induction false} MissingOtherwise(dir: string, name: string) returns (ps: seq<string>)
    requires Components(name) != [] && !OnePieceEach(Components(name))
    ensures OnTheWay(dir, Filename(dir, name), ps) && !IsMade(dir, name, ps)
  {
    var ts := Components(name);
    var top := |ts| - 1;
    FilePieces(dir, ts);
    LastHasPiece(ts[top]);
    if i: nat :| i < top && |Split(ts[i], '/')| > 1 {
      SlashedStep(ts, i);
      SlashedGrows(ts, i + 1, top);
      ps := MissingAt(dir, name, i);
    } else {
      ps := MissingAt(dir, name, top);
    }
  }

  lemma {:induction false} LastHasPiece(t: string)
    ensures Split(t + SUFFIX, '/') != []
  {
    SplitSuffix(t, SUFFIX, '/');
  }

  /** All directories on the way to the file are made exactly when each component adds one piece at most and the last is the file. */
  lemma AncestorsMadeExactlyWhen(dir: string, name: string)
    requires Components(name) != []
    ensures (forall ps :: OnTheWay(dir, Filename(dir, name), ps) ==> IsMade(dir, name, ps))
       <==> OnePieceEach(Components(name))
  {
    if OnePieceEach(Components(name)) {
      forall ps | OnTheWay(dir, Filename(dir, name), ps) ensures IsMade(dir, name, ps) {
        MadeIfOnePieceEach(dir, name, ps);
      }
    } else {
      var ps := MissingOtherwise(dir, name);
    }
  }

  // Names that share a file.

  /** The last component ends in a slash, so that the suffix alone names the file. */
  predicate SuffixApart(ts: seq<string>) {
    ts != [] && EndsWith(ts[|ts| - 1], '/')
  }

  lemma {:induction false} SlashedSuffix(ts: seq<string>)
    requires ts != [] && ts[|ts| - 1] != ""
    ensures SuffixApart(ts) || Slashed(ts) != []
    ensures Slashed(ts[..|ts| - 1]) + Split(ts[|ts| - 1] + SUFFIX, '/') == Suffixed(Slashed(ts), SuffixApart(ts), SUFFIX)
  {
    var last := ts[|ts| - 1];
    SplitSuffix(last, SUFFIX, '/');
    SuffixedAppend(Slashed(ts[..|ts| - 1]), Split(last, '/'), SuffixApart(ts), SUFFIX);
  }

  lemma {:induction false} PathKey(dir: string, ts: seq<string>)
    requires ts != [] && ts[|ts| - 1] != ""
    ensures SuffixApart(ts) || Slashed(ts) != []
    ensures Split(Path(dir, ts) + SUFFIX, '/') == Split(dir, '/') + Suffixed(Slashed(ts), SuffixApart(ts), SUFFIX)
  {
    FilePieces(dir, ts);
    SlashedSuffix(ts);
    Regroup(Split(dir, '/'), Slashed(ts[..|ts| - 1]), Split(ts[|ts| - 1] + SUFFIX, '/'));
  }

  lemma Regroup(x: seq<string>, y: seq<string>, z: seq<string>)
    ensures x + y + z == x + (y + z)
  {
  }

  lemma {:induction false} FileKey(dir: string, name: string)
    requires Components(name) != []
    ensures var ts := Components(name);
            && (SuffixApart(ts) || Slashed(ts) != [])
            && Split(Filename(dir, name), '/') == Split(dir, '/') + Suffixed(Slashed(ts), SuffixApart(ts), SUFFIX)
  {
    SplitPieces(name, '.');
    PathKey(dir, Components(name));
  }

  /** Two names share a file exactly when their components are cut into the same pieces and the suffix stands in the same place. */
  lemma SharedFileExactlyWhen(dir: string, a: string, b: string)
    ensures SamePath(Filename(dir, a), Filename(dir, b)) <==>
            var s, t := Components(a), Components(b);
            (s == [] <==> t == []) && Slashed(s) == Slashed(t) && (SuffixApart(s) <==> SuffixApart(t))
  {
    var s, t, d := Components(a), Components(b), Split(dir, '/');
    if s != [] {
      FileKey(dir, a);
      SlashedPieces(s);
    }
    if t != [] {
      FileKey(dir, b);
      SlashedPieces(t);
    }
    if s != [] && t != [] && SamePath(Filename(dir, a), Filename(dir, b)) {
      var x, y := Suffixed(Slashed(s), SuffixApart(s), SUFFIX), Suffixed(Slashed(t), SuffixApart(t), SUFFIX);
      assert x == (d + x)[|d|..] == (d + y)[|d|..] == y;
      SuffixedInjective(Slashed(s), SuffixApart(s), Slashed(t), SuffixApart(t), SUFFIX);
    }
  }

  lemma {:induction false} SlashFreeIsSlashed(ts: seq<string>)
    requires SlashFree(ts) && forall i :: 0 <= i < |ts| ==> ts[i] != ""
    ensures Slashed(ts) == ts && !SuffixApart(ts)
  {
    if ts != [] {
      var last := ts[|ts| - 1];
      SlashFreeIsSlashed(ts[..|ts| - 1]);
      SplitHead(last, "", '/');
      assert last + "" == last;
    }
  }

  /** Names without slashes share a file exactly when their nonempty components agree. */
  lemma SlashFreeShareExactlyWhen(dir: string, a: string, b: string)
    requires SlashFree(Components(a)) && SlashFree(Components(b))
    ensures SamePath(Filename(dir, a), Filename(dir, b)) <==> Components(a) == Components(b)
  {
    SharedFileExactlyWhen(dir, a, b);
    SplitPieces(a, '.');
    SplitPieces(b, '.');
    SlashFreeIsSlashed(Components(a));
    SlashFreeIsSlashed(Components(b));
  }
}
