/** `_download` and `download_components_from_urls` (asfsmd/core.py): the
    selected members of each archive are copied, block by block, below the
    output directory; a member whose output path already exists is skipped. The
    output directory is a tree of files and directories; the archives come from
    an opener function standing in for the remote client. */
module Extraction {
  import opened Wrappers
  import opened Glob
  import opened Selection
  import opened Paths

  datatype ExtractError =
    | OpenFailed(url: string, reason: string)  // the client could not open the remote archive
    | MkdirFailed(dir: Path)                   // `targetdir.mkdir(...)` raised: a prefix is a file

  /** The output file system: file contents by path, and the directories. */
  datatype Tree = Tree(files: map<Path, Bytes>, dirs: set<Path>)

  /** `path.exists()`: the working directory, a file or a directory. */
  predicate Exists(t: Tree, p: Path) {
    p == [] || p in t.files || p in t.dirs
  }

  /** No prefix of `p` (nor `p` itself) is a file. */
  predicate ClearOfFiles(t: Tree, p: Path) {
    forall k :: 1 <= k <= |p| ==> p[..k] !in t.files
  }

  /** The non-empty prefixes of a path, the path included. */
  function Prefixes(p: Path): set<Path> {
    set k | 1 <= k <= |p| :: p[..k]
  }

  /** A consistent tree: a path is never both a file and a directory, and the
      parents of files and directories are directories. */
  predicate WellFormed(t: Tree) {
    [] !in t.files
    && (forall p :: p in t.files ==> p !in t.dirs)
    && (forall p :: p in t.files ==> Prefixes(p[..|p| - 1]) <= t.dirs)
    && (forall d :: d in t.dirs ==> Prefixes(d) <= t.dirs)
  }

  /** `p.mkdir(parents=True, exist_ok=True)`: fails when a prefix of `p` is a
      file, and otherwise makes `p` and all its parents directories. */
  function Mkdir(t: Tree, p: Path): (r: Result<Tree, ExtractError>)
    ensures r.Failure? <==> !ClearOfFiles(t, p)
    ensures r.Failure? ==> r.error == MkdirFailed(p)
    ensures r.Success? ==> r.value.files == t.files && t.dirs <= r.value.dirs && Exists(r.value, p)
  {
    if ClearOfFiles(t, p) then
      assert p != [] ==> p[..|p|] == p;
      Success(Tree(t.files, t.dirs + Prefixes(p)))
    else Failure(MkdirFailed(p))
  }

  /** `src.read(n)` on a member stream positioned at `pos`: `None` or a negative
      size reads everything that is left, otherwise at most `n` bytes. */
  function Read(data: Bytes, pos: nat, blockSize: Option<int>): (r: Bytes)
    requires pos <= |data|
    ensures pos + |r| <= |data| && r == data[pos..pos + |r|]
    ensures r == [] <==> pos == |data| || blockSize == Some(0)
    ensures blockSize.Some? && blockSize.value >= 0 ==> |r| <= blockSize.value
  {
    match blockSize
    case None => data[pos..]
    case Some(n) =>
      if n < 0 then data[pos..]
      else if pos + n <= |data| then data[pos..pos + n] else data[pos..]
  }

  /** The blocks read from `pos` on until the first empty read. */
  function Blocks(data: Bytes, pos: nat, blockSize: Option<int>): seq<Bytes>
    requires pos <= |data|
    decreases |data| - pos
  {
    var block := Read(data, pos, blockSize);
    if block == [] then [] else [block] + Blocks(data, pos + |block|, blockSize)
  }

  /** The blocks `_download` writes for a member. */
  function Writes(data: Bytes, blockSize: Option<int>): seq<Bytes> {
    Blocks(data, 0, blockSize)
  }

  function Flatten(blocks: seq<Bytes>): Bytes {
    if blocks == [] then [] else blocks[0] + Flatten(blocks[1..])
  }

  /** What ends up in the output file: the member's bytes, except that a block
      size of 0 makes the first read empty and leaves the file empty. */
  function Written(data: Bytes, blockSize: Option<int>): (r: Bytes)
    ensures blockSize != Some(0) ==> r == data
    ensures blockSize == Some(0) ==> r == []
  {
    if blockSize == Some(0) then [] else data
  }

  /** The blocks put together give back what the file holds. */
  lemma {:induction false} BlocksFrom(data: Bytes, pos: nat, blockSize: Option<int>)
    requires pos <= |data|
    ensures Flatten(Blocks(data, pos, blockSize)) == Written(data[pos..], blockSize)
    decreases |data| - pos
  {
    var block := Read(data, pos, blockSize);
    if block != [] {
      var next := pos + |block|;
      BlocksFrom(data, next, blockSize);
      var rest := Blocks(data, next, blockSize);
      assert Blocks(data, pos, blockSize) == [block] + rest;
      assert ([block] + rest)[1..] == rest;
      assert data[pos..] == block + data[next..];
    }
  }

  /** Every block is non-empty; with a positive block size each is at most
      the block size and all but the last are full. */
  lemma {:induction false} BlockSizes(data: Bytes, pos: nat, blockSize: Option<int>)
    requires pos <= |data|
    ensures forall i :: 0 <= i < |Blocks(data, pos, blockSize)| ==> Blocks(data, pos, blockSize)[i] != []
    ensures blockSize.Some? && blockSize.value > 0 ==>
      forall i :: 0 <= i < |Blocks(data, pos, blockSize)| ==>
        |Blocks(data, pos, blockSize)[i]| <= blockSize.value
        && (i < |Blocks(data, pos, blockSize)| - 1 ==> |Blocks(data, pos, blockSize)[i]| == blockSize.value)
    decreases |data| - pos
  {
    var block := Read(data, pos, blockSize);
    if block != [] {
      var next := pos + |block|;
      BlockSizes(data, next, blockSize);
      var rest := Blocks(data, next, blockSize);
      assert Blocks(data, pos, blockSize) == [block] + rest;
      if blockSize.Some? && blockSize.value > 0 && rest != [] {
        assert |block| == blockSize.value;
      }
    }
  }

  /** With no size or a negative one, the first read takes everything. */
  lemma SingleBlock(data: Bytes, pos: nat, blockSize: Option<int>)
    requires pos <= |data|
    requires blockSize.None? || blockSize.value < 0
    ensures |Blocks(data, pos, blockSize)| <= 1
  {
    var block := Read(data, pos, blockSize);
    if block != [] {
      assert Read(data, pos + |block|, blockSize) == [];
    }
  }

  /** `_download` copies the whole member in blocks of the block size. */
  lemma WritesFlatten(data: Bytes, blockSize: Option<int>)
    ensures Flatten(Writes(data, blockSize)) == Written(data, blockSize)
    ensures forall i :: 0 <= i < |Writes(data, blockSize)| ==> Writes(data, blockSize)[i] != []
    ensures blockSize.Some? && blockSize.value > 0 ==>
      forall i :: 0 <= i < |Writes(data, blockSize)| ==>
        |Writes(data, blockSize)[i]| <= blockSize.value
        && (i < |Writes(data, blockSize)| - 1 ==> |Writes(data, blockSize)[i]| == blockSize.value)
    ensures (blockSize.None? || blockSize.value < 0) ==> |Writes(data, blockSize)| <= 1
  {
    BlocksFrom(data, 0, blockSize);
    BlockSizes(data, 0, blockSize);
    if blockSize.None? || blockSize.value < 0 {
      SingleBlock(data, 0, blockSize);
    }
    assert data[0..] == data;
  }

  /** The outcome of a run: the tree so far and the exception that stopped it. */
  datatype Step = Step(tree: Tree, error: Option<ExtractError>)

  /** Make the directory `target`, then create `outfile` with `content` unless
      it exists. */
  function Place(t: Tree, target: Path, outfile: Path, content: Bytes): Step {
    match Mkdir(t, target)
    case Failure(e) => Step(t, Some(e))
    case Success(t1) =>
      if Exists(t1, outfile) then Step(t1, None)
      else Step(Tree(t1.files[outfile := content], t1.dirs), None)
  }

  /** The body of the inner loop of `download_components_from_urls` for one
      member: make its directory, then write it unless its path exists. */
  function ExtractMember(t: Tree, outdir: Path, m: Member, blockSize: Option<int>): Step {
    Place(t, TargetDir(outdir, m.filename), OutPath(outdir, m.filename), Written(m.data, blockSize))
  }

  /** The inner loop over the selected members, stopping at the first error. */
  function ExtractMembers(t: Tree, outdir: Path, ms: seq<Member>, blockSize: Option<int>): Step
    decreases |ms|
  {
    if ms == [] then Step(t, None)
    else
      var s := ExtractMembers(t, outdir, ms[..|ms| - 1], blockSize);
      if s.error.Some? then s else ExtractMember(s.tree, outdir, ms[|ms| - 1], blockSize)
  }

  /** The outer loop over the product URLs, stopping at the first error. */
  function ExtractUrls(t: Tree, urls: seq<string>, opener: string -> Result<seq<Member>, string>,
                       patterns: seq<string>, outdir: Path, blockSize: Option<int>): Step
    requires AllBracketFree(patterns)
    decreases |urls|
  {
    if urls == [] then Step(t, None)
    else
      var s := ExtractUrls(t, urls[..|urls| - 1], opener, patterns, outdir, blockSize);
      var url := urls[|urls| - 1];
      if s.error.Some? then s
      else match opener(url)
        case Failure(reason) => Step(s.tree, Some(OpenFailed(url, reason)))
        case Success(archive) => ExtractMembers(s.tree, outdir, Selected(archive, patterns), blockSize)
  }

  /** `patterns=None` stands for `make_patterns()`. */
  function PatternsOrDefault(patterns: Option<seq<string>>): (r: seq<string>)
    requires patterns.Some? ==> AllBracketFree(patterns.value)
    ensures AllBracketFree(r)
    ensures patterns.None? ==> r == DefaultPatterns()
  {
    DefaultPatternsBracketFree();
    patterns.GetOr(DefaultPatterns())
  }

  // ---------------------------------------------------------------------------
  // Properties of one member

  /** Existing files keep their contents and directories stay directories. */
  predicate Keeps(t: Tree, t': Tree) {
    t.dirs <= t'.dirs
    && forall p :: p in t.files ==> p in t'.files && t'.files[p] == t.files[p]
  }

  lemma KeepsTransitive(t1: Tree, t2: Tree, t3: Tree)
    requires Keeps(t1, t2) && Keeps(t2, t3)
    ensures Keeps(t1, t3)
  {
  }

  /** The directories of a member and its output path are in place. */
  predicate Placed(t: Tree, outdir: Path, m: Member) {
    Prefixes(TargetDir(outdir, m.filename)) <= t.dirs && Exists(t, OutPath(outdir, m.filename))
  }

  /** `p` with `content` is what member `m` writes. */
  predicate WrittenFrom(p: Path, content: Bytes, outdir: Path, m: Member, blockSize: Option<int>) {
    p == OutPath(outdir, m.filename) && content == Written(m.data, blockSize)
  }

  /** One placement: nothing that exists is overwritten and the only new file is
      `outfile` holding `content`; it fails exactly when a prefix of `target` is
      a file, and then changes nothing; otherwise `target` with its parents and
      `outfile` exist afterwards. */
  lemma PlaceEffect(t: Tree, target: Path, outfile: Path, content: Bytes)
    ensures var s := Place(t, target, outfile, content);
      Keeps(t, s.tree)
      && (forall p :: p in s.tree.files && p !in t.files ==> p == outfile && s.tree.files[p] == content)
      && (s.error.None? <==> ClearOfFiles(t, target))
      && (s.error.Some? ==> s.tree == t && s.error == Some(MkdirFailed(target)))
      && (s.error.None? ==> Prefixes(target) <= s.tree.dirs && Exists(s.tree, outfile))
  {
  }

  /** A missing output file is created with the member's bytes. */
  lemma MissingMemberWritten(t: Tree, outdir: Path, m: Member, blockSize: Option<int>)
    requires ClearOfFiles(t, TargetDir(outdir, m.filename))
    requires !Exists(t, OutPath(outdir, m.filename))
    requires OutPath(outdir, m.filename) != TargetDir(outdir, m.filename)
    ensures ExtractMember(t, outdir, m, blockSize).tree.files[OutPath(outdir, m.filename)]
         == Written(m.data, blockSize)
  {
  }

  /** One member: the placement of its output path and bytes. */
  lemma MemberEffect(t: Tree, outdir: Path, m: Member, blockSize: Option<int>)
    ensures var s := ExtractMember(t, outdir, m, blockSize);
      Keeps(t, s.tree)
      && (forall p :: p in s.tree.files && p !in t.files ==> WrittenFrom(p, s.tree.files[p], outdir, m, blockSize))
      && (s.error.None? <==> ClearOfFiles(t, TargetDir(outdir, m.filename)))
      && (s.error.Some? ==> s.tree == t && s.error == Some(MkdirFailed(TargetDir(outdir, m.filename))))
      && (s.error.None? ==> Placed(s.tree, outdir, m))
  {
    PlaceEffect(t, TargetDir(outdir, m.filename), OutPath(outdir, m.filename), Written(m.data, blockSize));
  }

  // ---------------------------------------------------------------------------
  // Consistency of the tree

  lemma PrefixesOfPrefix(p: Path, k: nat)
    requires 1 <= k <= |p|
    ensures Prefixes(p[..k]) <= Prefixes(p)
  {
    forall q | q in Prefixes(p[..k])
      ensures q in Prefixes(p)
    {
      var j :| 1 <= j <= k && q == p[..k][..j];
      assert q == p[..j];
    }
  }

  /** `mkdir` keeps the tree consistent. */
  lemma MkdirWellFormed(t: Tree, p: Path)
    requires WellFormed(t) && Mkdir(t, p).Success?
    ensures WellFormed(Mkdir(t, p).value)
  {
    var t1 := Mkdir(t, p).value;
    forall d | d in t1.dirs
      ensures Prefixes(d) <= t1.dirs
    {
      if d !in t.dirs {
        var k :| 1 <= k <= |p| && d == p[..k];
        PrefixesOfPrefix(p, k);
      }
    }
  }

  /** Creating a file whose parent is a directory keeps the tree consistent. */
  lemma CreateWellFormed(t: Tree, target: Path, outfile: Path, content: Bytes)
    requires WellFormed(t) && Prefixes(target) <= t.dirs && !Exists(t, outfile)
    requires |outfile| == |target| + 1 && outfile[..|target|] == target
    ensures WellFormed(Tree(t.files[outfile := content], t.dirs))
  {
  }

  /** A placement whose output path is its directory plus at most one name keeps
      the tree consistent. */
  lemma PlaceWellFormed(t: Tree, target: Path, outfile: Path, content: Bytes)
    requires WellFormed(t)
    requires |target| <= |outfile| <= |target| + 1 && outfile[..|target|] == target
    ensures WellFormed(Place(t, target, outfile, content).tree)
  {
    if Mkdir(t, target).Success? {
      MkdirWellFormed(t, target);
      var t1 := Mkdir(t, target).value;
      if !Exists(t1, outfile) {
        assert Prefixes(target) <= t1.dirs;
        assert Exists(t1, target) && outfile != target;
        assert outfile[..|outfile|] == outfile;
        CreateWellFormed(t1, target, outfile, content);
      }
    }
  }

  /** One member keeps the tree consistent. */
  lemma MemberWellFormed(t: Tree, outdir: Path, m: Member, blockSize: Option<int>)
    requires WellFormed(t)
    ensures WellFormed(ExtractMember(t, outdir, m, blockSize).tree)
  {
    PlaceWellFormed(t, TargetDir(outdir, m.filename), OutPath(outdir, m.filename), Written(m.data, blockSize));
  }

  /** The members loop keeps the tree consistent. */
  lemma {:induction false} MembersWellFormed(t: Tree, outdir: Path, ms: seq<Member>, blockSize: Option<int>)
    requires WellFormed(t)
    ensures WellFormed(ExtractMembers(t, outdir, ms, blockSize).tree)
    decreases |ms|
  {
    if ms != [] {
      MembersWellFormed(t, outdir, ms[..|ms| - 1], blockSize);
      var s := ExtractMembers(t, outdir, ms[..|ms| - 1], blockSize);
      if s.error.None? {
        MemberWellFormed(s.tree, outdir, ms[|ms| - 1], blockSize);
      }
    }
  }

  // ---------------------------------------------------------------------------
  // Properties of the members loop

  lemma SplitLast(ms: seq<Member>)
    requires ms != []
    ensures forall m :: m in ms <==> m in ms[..|ms| - 1] || m == ms[|ms| - 1]
  {
    assert ms == ms[..|ms| - 1] + [ms[|ms| - 1]];
  }

  /** Over the selected members of an archive: nothing that existed is
      overwritten, every new file is the output path of a selected member
      holding that member's bytes, and on success every selected member is in
      place. */
  lemma {:induction false} MembersEffect(t: Tree, outdir: Path, ms: seq<Member>, blockSize: Option<int>)
    ensures var s := ExtractMembers(t, outdir, ms, blockSize);
      Keeps(t, s.tree)
      && (forall p :: p in s.tree.files && p !in t.files ==>
            exists m :: m in ms && WrittenFrom(p, s.tree.files[p], outdir, m, blockSize))
      && (s.error.None? ==> forall m :: m in ms ==> Placed(s.tree, outdir, m))
    decreases |ms|
  {
    if ms != [] {
      var init := ms[..|ms| - 1];
      var last := ms[|ms| - 1];
      SplitLast(ms);
      MembersEffect(t, outdir, init, blockSize);
      var s0 := ExtractMembers(t, outdir, init, blockSize);
      if s0.error.None? {
        var s := ExtractMember(s0.tree, outdir, last, blockSize);
        MemberEffect(s0.tree, outdir, last, blockSize);
        KeepsTransitive(t, s0.tree, s.tree);
        if s.error.None? {
          forall m | m in init
            ensures Placed(s.tree, outdir, m)
          {
            PlacedKept(s0.tree, s.tree, outdir, m);
          }
        }
      }
    }
  }

  lemma PlacedKept(t: Tree, t': Tree, outdir: Path, m: Member)
    requires Placed(t, outdir, m) && Keeps(t, t')
    ensures Placed(t', outdir, m)
  {
  }

  /** An error of the members loop is the failed `mkdir` of one of the members,
      and the tree then holds what the members before it left. */
  lemma {:induction false} MembersFailure(t: Tree, outdir: Path, ms: seq<Member>, blockSize: Option<int>)
    requires ExtractMembers(t, outdir, ms, blockSize).error.Some?
    ensures exists m :: (m in ms
      && ExtractMembers(t, outdir, ms, blockSize).error == Some(MkdirFailed(TargetDir(outdir, m.filename))))
    decreases |ms|
  {
    var init := ms[..|ms| - 1];
    SplitLast(ms);
    var s0 := ExtractMembers(t, outdir, init, blockSize);
    if s0.error.Some? {
      MembersFailure(t, outdir, init, blockSize);
    } else {
      MemberEffect(s0.tree, outdir, ms[|ms| - 1], blockSize);
    }
  }

  /** Once the members loop has raised, the later members change nothing. */
  lemma {:induction false} MembersStopAtError(t: Tree, outdir: Path, ms: seq<Member>, k: nat, blockSize: Option<int>)
    requires k <= |ms| && ExtractMembers(t, outdir, ms[..k], blockSize).error.Some?
    ensures ExtractMembers(t, outdir, ms, blockSize) == ExtractMembers(t, outdir, ms[..k], blockSize)
    decreases |ms| - k
  {
    if k < |ms| {
      assert ms[..k + 1][..k] == ms[..k];
      MembersStopAtError(t, outdir, ms, k + 1, blockSize);
    } else {
      assert ms[..k] == ms;
    }
  }

  /** A placement whose directory and output path are in place changes nothing
      in a consistent tree. */
  lemma PlaceRerun(t: Tree, target: Path, outfile: Path, content: Bytes)
    requires WellFormed(t) && Prefixes(target) <= t.dirs && Exists(t, outfile)
    ensures Place(t, target, outfile, content) == Step(t, None)
  {
    forall k | 1 <= k <= |target|
      ensures target[..k] !in t.files
    {
      assert target[..k] in Prefixes(target);
    }
    assert t.dirs + Prefixes(target) == t.dirs;
  }

  /** Running the members loop again over members already in place changes
      nothing: a second download of the same products is a no-op. */
  lemma {:induction false} MembersRerun(t: Tree, outdir: Path, ms: seq<Member>, blockSize: Option<int>)
    requires WellFormed(t) && forall m :: m in ms ==> Placed(t, outdir, m)
    ensures ExtractMembers(t, outdir, ms, blockSize) == Step(t, None)
    decreases |ms|
  {
    if ms != [] {
      var init := ms[..|ms| - 1];
      var last := ms[|ms| - 1];
      SplitLast(ms);
      assert forall m :: m in init ==> Placed(t, outdir, m);
      MembersRerun(t, outdir, init, blockSize);
      assert Placed(t, outdir, last);
      PlaceRerun(t, TargetDir(outdir, last.filename), OutPath(outdir, last.filename), Written(last.data, blockSize));
      assert ExtractMember(t, outdir, last, blockSize) == Step(t, None);
    }
  }

  // ---------------------------------------------------------------------------
  // Properties of the loop over the product URLs

  /** `p` with `content` is what a selected member of the archive at `url` writes. */
  predicate FromArchive(p: Path, content: Bytes, url: string, opener: string -> Result<seq<Member>, string>,
                        patterns: seq<string>, outdir: Path, blockSize: Option<int>)
    requires AllBracketFree(patterns)
  {
    opener(url).Success?
    && exists m :: m in Selected(opener(url).value, patterns) && WrittenFrom(p, content, outdir, m, blockSize)
  }

  /** The archive at `url` opens and all its selected members are in place. */
  predicate ArchivePlaced(t: Tree, url: string, opener: string -> Result<seq<Member>, string>,
                          patterns: seq<string>, outdir: Path)
    requires AllBracketFree(patterns)
  {
    opener(url).Success?
    && forall m :: m in Selected(opener(url).value, patterns) ==> Placed(t, outdir, m)
  }

  lemma SplitLastUrl(urls: seq<string>)
    requires urls != []
    ensures forall u :: u in urls <==> u in urls[..|urls| - 1] || u == urls[|urls| - 1]
  {
    assert urls == urls[..|urls| - 1] + [urls[|urls| - 1]];
  }

  lemma ArchivePlacedKept(t: Tree, t': Tree, url: string, opener: string -> Result<seq<Member>, string>,
                          patterns: seq<string>, outdir: Path)
    requires AllBracketFree(patterns)
    requires ArchivePlaced(t, url, opener, patterns, outdir) && Keeps(t, t')
    ensures ArchivePlaced(t', url, opener, patterns, outdir)
  {
    forall m | m in Selected(opener(url).value, patterns)
      ensures Placed(t', outdir, m)
    {
      PlacedKept(t, t', outdir, m);
    }
  }

  /** Over all product URLs: nothing that existed is overwritten; every new file
      comes from a selected member of one of the archives; on success every
      archive opened and all its selected members are in place. */
  lemma {:induction false} UrlsEffect(t: Tree, urls: seq<string>, opener: string -> Result<seq<Member>, string>,
                                      patterns: seq<string>, outdir: Path, blockSize: Option<int>)
    requires AllBracketFree(patterns)
    ensures var s := ExtractUrls(t, urls, opener, patterns, outdir, blockSize);
      Keeps(t, s.tree)
      && (forall p :: p in s.tree.files && p !in t.files ==>
            exists u :: u in urls && FromArchive(p, s.tree.files[p], u, opener, patterns, outdir, blockSize))
      && (s.error.None? ==> forall u :: u in urls ==> ArchivePlaced(s.tree, u, opener, patterns, outdir))
    decreases |urls|
  {
    if urls != [] {
      var init := urls[..|urls| - 1];
      var url := urls[|urls| - 1];
      SplitLastUrl(urls);
      UrlsEffect(t, init, opener, patterns, outdir, blockSize);
      var s0 := ExtractUrls(t, init, opener, patterns, outdir, blockSize);
      var s := ExtractUrls(t, urls, opener, patterns, outdir, blockSize);
      if s0.error.None? && opener(url).Success? {
        var ms := Selected(opener(url).value, patterns);
        assert s == ExtractMembers(s0.tree, outdir, ms, blockSize);
        MembersEffect(s0.tree, outdir, ms, blockSize);
        KeepsTransitive(t, s0.tree, s.tree);
        forall p | p in s.tree.files && p !in t.files
          ensures exists u :: u in urls && FromArchive(p, s.tree.files[p], u, opener, patterns, outdir, blockSize)
        {
          if p !in s0.tree.files {
            assert FromArchive(p, s.tree.files[p], url, opener, patterns, outdir, blockSize);
          } else {
            var u :| u in init && FromArchive(p, s0.tree.files[p], u, opener, patterns, outdir, blockSize);
            assert FromArchive(p, s.tree.files[p], u, opener, patterns, outdir, blockSize);
          }
        }
        if s.error.None? {
          forall u | u in urls
            ensures ArchivePlaced(s.tree, u, opener, patterns, outdir)
          {
            if u in init {
              ArchivePlacedKept(s0.tree, s.tree, u, opener, patterns, outdir);
            }
          }
        }
      }
    }
  }

  /** Every file a download creates is the output path of an archive member
      whose name matches one of the patterns, holding that member's bytes. */
  lemma WritesOnlyMatching(t: Tree, urls: seq<string>, opener: string -> Result<seq<Member>, string>,
                           patterns: seq<string>, outdir: Path, blockSize: Option<int>, p: Path)
    requires AllBracketFree(patterns)
    requires var s := ExtractUrls(t, urls, opener, patterns, outdir, blockSize); p in s.tree.files && p !in t.files
    ensures exists u, m :: (u in urls && opener(u).Success? && m in opener(u).value
      && MatchesAny(m.filename, patterns)
      && WrittenFrom(p, ExtractUrls(t, urls, opener, patterns, outdir, blockSize).tree.files[p], outdir, m, blockSize))
  {
    var s := ExtractUrls(t, urls, opener, patterns, outdir, blockSize);
    UrlsEffect(t, urls, opener, patterns, outdir, blockSize);
    var u :| u in urls && FromArchive(p, s.tree.files[p], u, opener, patterns, outdir, blockSize);
    var m :| m in Selected(opener(u).value, patterns) && WrittenFrom(p, s.tree.files[p], outdir, m, blockSize);
    SelectedMembers(opener(u).value, patterns);
  }

  /** The error that stops a download: an archive that did not open, or the
      failed `mkdir` of a selected member of an archive that did. */
  lemma {:induction false} UrlsFailure(t: Tree, urls: seq<string>, opener: string -> Result<seq<Member>, string>,
                                       patterns: seq<string>, outdir: Path, blockSize: Option<int>)
    requires AllBracketFree(patterns)
    requires ExtractUrls(t, urls, opener, patterns, outdir, blockSize).error.Some?
    ensures var e := ExtractUrls(t, urls, opener, patterns, outdir, blockSize).error.value;
      exists u :: u in urls &&
        ((opener(u).Failure? && e == OpenFailed(u, opener(u).error))
         || (opener(u).Success? && exists m :: m in Selected(opener(u).value, patterns)
                                    && e == MkdirFailed(TargetDir(outdir, m.filename))))
    decreases |urls|
  {
    var init := urls[..|urls| - 1];
    var url := urls[|urls| - 1];
    SplitLastUrl(urls);
    var s0 := ExtractUrls(t, init, opener, patterns, outdir, blockSize);
    if s0.error.Some? {
      UrlsFailure(t, init, opener, patterns, outdir, blockSize);
    } else if opener(url).Success? {
      MembersFailure(s0.tree, outdir, Selected(opener(url).value, patterns), blockSize);
    }
  }

  /** Once a download has raised, the later URLs change nothing. */
  lemma {:induction false} UrlsStopAtError(t: Tree, urls: seq<string>, opener: string -> Result<seq<Member>, string>,
                                           patterns: seq<string>, outdir: Path, blockSize: Option<int>, k: nat)
    requires AllBracketFree(patterns)
    requires k <= |urls| && ExtractUrls(t, urls[..k], opener, patterns, outdir, blockSize).error.Some?
    ensures ExtractUrls(t, urls, opener, patterns, outdir, blockSize)
         == ExtractUrls(t, urls[..k], opener, patterns, outdir, blockSize)
    decreases |urls| - k
  {
    if k < |urls| {
      assert urls[..k + 1][..k] == urls[..k];
      UrlsStopAtError(t, urls, opener, patterns, outdir, blockSize, k + 1);
    } else {
      assert urls[..k] == urls;
    }
  }

  /** A download keeps the output tree consistent. */
  lemma {:induction false} UrlsWellFormed(t: Tree, urls: seq<string>, opener: string -> Result<seq<Member>, string>,
                                          patterns: seq<string>, outdir: Path, blockSize: Option<int>)
    requires AllBracketFree(patterns) && WellFormed(t)
    ensures WellFormed(ExtractUrls(t, urls, opener, patterns, outdir, blockSize).tree)
    decreases |urls|
  {
    if urls != [] {
      var init := urls[..|urls| - 1];
      var url := urls[|urls| - 1];
      UrlsWellFormed(t, init, opener, patterns, outdir, blockSize);
      var s0 := ExtractUrls(t, init, opener, patterns, outdir, blockSize);
      if s0.error.None? && opener(url).Success? {
        MembersWellFormed(s0.tree, outdir, Selected(opener(url).value, patterns), blockSize);
      }
    }
  }

  /** A download of archives whose selected members are all in place changes
      nothing. */
  lemma {:induction false} UrlsRerun(t: Tree, urls: seq<string>, opener: string -> Result<seq<Member>, string>,
                                     patterns: seq<string>, outdir: Path, blockSize: Option<int>)
    requires AllBracketFree(patterns) && WellFormed(t)
    requires forall u :: u in urls ==> ArchivePlaced(t, u, opener, patterns, outdir)
    ensures ExtractUrls(t, urls, opener, patterns, outdir, blockSize) == Step(t, None)
    decreases |urls|
  {
    if urls != [] {
      var init := urls[..|urls| - 1];
      var url := urls[|urls| - 1];
      SplitLastUrl(urls);
      assert forall u :: u in init ==> ArchivePlaced(t, u, opener, patterns, outdir);
      UrlsRerun(t, init, opener, patterns, outdir, blockSize);
      assert ArchivePlaced(t, url, opener, patterns, outdir);
      MembersRerun(t, outdir, Selected(opener(url).value, patterns), blockSize);
    }
  }

  /** Downloading the same products a second time, into the tree the first
      download left, changes nothing and succeeds: skipping existing output
      paths makes a download resumable. */
  lemma DownloadTwice(t: Tree, urls: seq<string>, opener: string -> Result<seq<Member>, string>,
                      patterns: seq<string>, outdir: Path, blockSize: Option<int>)
    requires AllBracketFree(patterns) && WellFormed(t)
    requires ExtractUrls(t, urls, opener, patterns, outdir, blockSize).error.None?
    ensures var s := ExtractUrls(t, urls, opener, patterns, outdir, blockSize);
      ExtractUrls(s.tree, urls, opener, patterns, outdir, blockSize) == Step(s.tree, None)
  {
    var s := ExtractUrls(t, urls, opener, patterns, outdir, blockSize);
    UrlsEffect(t, urls, opener, patterns, outdir, blockSize);
    UrlsWellFormed(t, urls, opener, patterns, outdir, blockSize);
    UrlsRerun(s.tree, urls, opener, patterns, outdir, blockSize);
  }

  // ---------------------------------------------------------------------------
  // The program

  /** The output file system as the program changes it. */
  class OutputTree {
    var files: map<Path, Bytes>
    var dirs: set<Path>

    constructor (files0: map<Path, Bytes>, dirs0: set<Path>)
      ensures files == files0 && dirs == dirs0
    {
      files := files0;
      dirs := dirs0;
    }

    function State(): Tree
      reads this
    {
      Tree(files, dirs)
    }

    /** `path.exists()`. */
    predicate PathExists(p: Path)
      reads this
    {
      Exists(State(), p)
    }

    /** `p.mkdir(parents=True, exist_ok=True)`. */
    method MakeDirs(p: Path) returns (err: Option<ExtractError>)
      modifies this
      ensures Mkdir(old(State()), p).Success? ==> err.None? && State() == Mkdir(old(State()), p).value
      ensures Mkdir(old(State()), p).Failure? ==> err == Some(Mkdir(old(State()), p).error) && State() == old(State())
    {
      if exists k :: 1 <= k <= |p| && p[..k] in files {
        err := Some(MkdirFailed(p));
      } else {
        dirs := dirs + Prefixes(p);
        err := None;
      }
    }

    /** `_download`: open `outfile` for writing, which empties it, then read the
        member `blockSize` bytes at a time and append each block until a read
        comes back empty. Returns the blocks in the order they were written. */
    method Download(data: Bytes, outfile: Path, blockSize: Option<int>) returns (writes: seq<Bytes>)
      modifies this
      ensures dirs == old(dirs) && files == old(files)[outfile := Written(data, blockSize)]
      ensures writes == Writes(data, blockSize)
    {
      ghost var files0 := files;
      files := files[outfile := []];
      writes := [];
      var pos := 0;
      var block := Read(data, pos, blockSize);
      FirstBlock(data, blockSize);
      while block != []
        invariant pos <= |data| && block == Read(data, pos, blockSize)
        invariant dirs == old(dirs) && files == files0[outfile := data[..pos]]
        invariant Copied(data, pos, blockSize, writes)
        invariant blockSize == Some(0) ==> pos == 0
        decreases |data| - pos
      {
        NextBlock(data, pos, blockSize, writes, block);
        PrefixGrows(data, pos, block);
        UpdateTwice(files0, outfile, data[..pos], data[..pos + |block|]);
        files := files[outfile := files[outfile] + block];
        writes := writes + [block];
        pos := pos + |block|;
        block := Read(data, pos, blockSize);
      }
      LastBlock(data, pos, blockSize, writes);
    }
  }

  /** The blocks written so far, followed by those still to be read from `pos`,
      are all the blocks of the copy. */
  ghost predicate Copied(data: Bytes, pos: nat, blockSize: Option<int>, writes: seq<Bytes>)
    requires pos <= |data|
  {
    writes + Blocks(data, pos, blockSize) == Writes(data, blockSize)
  }

  lemma FirstBlock(data: Bytes, blockSize: Option<int>)
    ensures Copied(data, 0, blockSize, [])
    ensures data[..0] == []
  {
  }

  /** An empty read ends the copy with the whole file written. */
  lemma LastBlock(data: Bytes, pos: nat, blockSize: Option<int>, writes: seq<Bytes>)
    requires pos <= |data| && Read(data, pos, blockSize) == []
    requires blockSize == Some(0) ==> pos == 0
    requires Copied(data, pos, blockSize, writes)
    ensures writes == Writes(data, blockSize)
    ensures data[..pos] == Written(data, blockSize)
  {
    assert Blocks(data, pos, blockSize) == [] && writes + [] == writes;
    if blockSize != Some(0) { assert pos == |data|; }
  }

  /** A non-empty read is one more written block. */
  lemma NextBlock(data: Bytes, pos: nat, blockSize: Option<int>, writes: seq<Bytes>, block: Bytes)
    requires pos <= |data| && block == Read(data, pos, blockSize) && block != []
    requires Copied(data, pos, blockSize, writes)
    ensures pos + |block| <= |data| && Copied(data, pos + |block|, blockSize, writes + [block])
  {
    var rest := Blocks(data, pos + |block|, blockSize);
    BlocksStep(data, pos, blockSize);
    assert (writes + [block]) + rest == writes + ([block] + rest);
  }

  /** Appending the block read at `pos` grows the written prefix by that block. */
  lemma PrefixGrows(data: Bytes, pos: nat, block: Bytes)
    requires pos + |block| <= |data| && block == data[pos..pos + |block|]
    ensures data[..pos + |block|] == data[..pos] + block
  {
    var n := pos + |block|;
    forall i | 0 <= i < n ensures data[..n][i] == (data[..pos] + block)[i] {
      if i >= pos { assert block[i - pos] == data[i]; }
    }
  }

  lemma BlocksStep(data: Bytes, pos: nat, blockSize: Option<int>)
    requires pos <= |data| && Read(data, pos, blockSize) != []
    ensures pos + |Read(data, pos, blockSize)| <= |data|
    ensures Blocks(data, pos, blockSize)
         == [Read(data, pos, blockSize)] + Blocks(data, pos + |Read(data, pos, blockSize)|, blockSize)
  {
  }

  lemma UpdateTwice(m: map<Path, Bytes>, k: Path, a: Bytes, b: Bytes)
    ensures m[k := a][k := b] == m[k := b]
  {
  }

  /** The inner loop of `download_components_from_urls` over the selected
      members of one archive. */
  method ExtractComponents(tree: OutputTree, components: seq<Member>, outdir: Path, blockSize: Option<int>)
    returns (err: Option<ExtractError>)
    modifies tree
    ensures var s := ExtractMembers(old(tree.State()), outdir, components, blockSize);
      tree.State() == s.tree && err == s.error
  {
    ghost var t1 := tree.State();
    for j := 0 to |components|
      invariant tree.State() == ExtractMembers(t1, outdir, components[..j], blockSize).tree
      invariant ExtractMembers(t1, outdir, components[..j], blockSize).error.None?
    {
      MembersSnoc(t1, outdir, components, j, blockSize);
      var info := components[j];
      var targetdir := TargetDir(outdir, info.filename);
      var outfile := OutPath(outdir, info.filename);
      err := tree.MakeDirs(targetdir);
      if err.Some? {
        MembersStopAtError(t1, outdir, components, j + 1, blockSize);
        return;
      }
      if !tree.PathExists(outfile) {
        var _ := tree.Download(info.data, outfile, blockSize);
      }
    }
    assert components[..|components|] == components;
    err := None;
  }

  /** One more member after a prefix that raised nothing. */
  lemma MembersSnoc(t: Tree, outdir: Path, ms: seq<Member>, j: nat, blockSize: Option<int>)
    requires j < |ms| && ExtractMembers(t, outdir, ms[..j], blockSize).error.None?
    ensures ExtractMembers(t, outdir, ms[..j + 1], blockSize)
         == ExtractMember(ExtractMembers(t, outdir, ms[..j], blockSize).tree, outdir, ms[j], blockSize)
  {
    assert ms[..j + 1][..j] == ms[..j];
  }

  /** One more URL after a prefix that raised nothing. */
  lemma UrlsSnoc(t: Tree, urls: seq<string>, opener: string -> Result<seq<Member>, string>,
                 patterns: seq<string>, outdir: Path, i: nat, blockSize: Option<int>)
    requires AllBracketFree(patterns)
    requires i < |urls| && ExtractUrls(t, urls[..i], opener, patterns, outdir, blockSize).error.None?
    ensures var t1 := ExtractUrls(t, urls[..i], opener, patterns, outdir, blockSize).tree;
      ExtractUrls(t, urls[..i + 1], opener, patterns, outdir, blockSize)
      == match opener(urls[i])
         case Failure(reason) => Step(t1, Some(OpenFailed(urls[i], reason)))
         case Success(archive) => ExtractMembers(t1, outdir, Selected(archive, patterns), blockSize)
  {
    assert urls[..i + 1][..i] == urls[..i];
  }

  /** `download_components_from_urls`: for each URL, open the archive, select
      its members, and for each selected member make its directory and copy it
      unless its output path exists. The first exception ends the run; the tree
      keeps what was done before it. */
  method DownloadComponentsFromUrls(tree: OutputTree, urls: seq<string>,
                                    opener: string -> Result<seq<Member>, string>,
                                    patterns: Option<seq<string>>, outdir: Path, blockSize: Option<int>)
    returns (err: Option<ExtractError>)
    requires patterns.Some? ==> AllBracketFree(patterns.value)
    modifies tree
    ensures var s := ExtractUrls(old(tree.State()), urls, opener, PatternsOrDefault(patterns), outdir, blockSize);
      tree.State() == s.tree && err == s.error
  {
    var pats: seq<string>;
    if patterns.None? {
      DefaultPatternsBracketFree();
      pats := DefaultPatterns();
    } else {
      pats := patterns.value;
    }
    assert pats == PatternsOrDefault(patterns);
    ghost var t0 := tree.State();
    for i := 0 to |urls|
      invariant tree.State() == ExtractUrls(t0, urls[..i], opener, pats, outdir, blockSize).tree
      invariant ExtractUrls(t0, urls[..i], opener, pats, outdir, blockSize).error.None?
    {
      UrlsSnoc(t0, urls, opener, pats, outdir, i, blockSize);
      var url := urls[i];
      match opener(url) {
        case Failure(reason) =>
          err := Some(OpenFailed(url, reason));
        case Success(archive) =>
          var components := FilterComponents(archive, pats);
          err := ExtractComponents(tree, components, outdir, blockSize);
      }
      if err.Some? {
        UrlsStopAtError(t0, urls, opener, pats, outdir, blockSize, i + 1);
        return;
      }
    }
    assert urls[..|urls|] == urls;
    err := None;
  }
}
