/** The command-line front end (asfsmd/cli.py, constants from
    asfsmd/common.py): product names, the output folder, the block size and
    the exit status. */
module Cli {
  import opened Wrappers
  import opened Seqs
  import opened Utils
  import opened Paths
  import opened Extraction

  /** `MB` and `BLOCKSIZE`. */
  const MB: int := 1024 * 1024
  const BLOCKSIZE: int := 16 * MB

  /** `EX_OK`, `EX_FAILURE` and `EX_INTERRUPT`. */
  const EX_OK: int := 0
  const EX_FAILURE: int := 1
  const EX_INTERRUPT: int := 130

  // ---------------------------------------------------------------------------
  // Product names

  /** `s.replace(sub, rep)`: every occurrence of `sub`, scanning from the left
      and without overlaps, is replaced by `rep`. */
  function ReplaceAll(s: string, sub: string, rep: string): string
    requires sub != []
    decreases |s|
  {
    if |s| < |sub| then s
    else if s[..|sub|] == sub then rep + ReplaceAll(s[|sub|..], sub, rep)
    else [s[0]] + ReplaceAll(s[1..], sub, rep)
  }

  /** A text without `sub` is returned unchanged. */
  lemma {:induction false} ReplaceAbsent(s: string, sub: string, rep: string)
    requires sub != [] && !IsSubstring(sub, s)
    ensures ReplaceAll(s, sub, rep) == s
    decreases |s|
  {
    if |s| >= |sub| {
      assert !OccursAt(sub, s, 0);
      assert s[..|sub|] != sub;
      assert !IsSubstring(sub, s[1..]) by {
        forall k | 0 <= k <= |s| - 1
          ensures !OccursAt(sub, s[1..], k)
        {
          assert !OccursAt(sub, s, k + 1);
          if k + |sub| <= |s| - 1 {
            assert s[1..][k..k + |sub|] == s[k + 1..k + 1 + |sub|];
          }
        }
      }
      ReplaceAbsent(s[1..], sub, rep);
      assert [s[0]] + s[1..] == s;
    }
  }

  /** A head that cannot start an occurrence of `sub` is kept as it is. */
  lemma {:induction false} ReplaceAfterHead(head: string, rest: string, sub: string, rep: string)
    requires sub != [] && sub[0] !in head
    ensures ReplaceAll(head + rest, sub, rep) == head + ReplaceAll(rest, sub, rep)
    decreases |head|
  {
    if head != [] {
      var s := head + rest;
      assert s[1..] == head[1..] + rest;
      if |s| >= |sub| {
        assert s[0] != sub[0];
      }
      ReplaceAfterHead(head[1..], rest, sub, rep);
      assert [head[0]] + (head[1..] + ReplaceAll(rest, sub, rep)) == head + ReplaceAll(rest, sub, rep);
    } else {
      assert head + rest == rest;
    }
  }

  /** An occurrence at the start is replaced. */
  lemma ReplaceAtStart(rest: string, sub: string, rep: string)
    requires sub != []
    ensures ReplaceAll(sub + rest, sub, rep) == rep + ReplaceAll(rest, sub, rep)
  {
    assert (sub + rest)[..|sub|] == sub;
    assert (sub + rest)[|sub|..] == rest;
  }

  /** The name stored for a product given on the command line: `.zip` and then
      `.SAFE` are removed wherever they occur. */
  function NormalizeName(p: string): string {
    ReplaceAll(ReplaceAll(p, ".zip", ""), ".SAFE", "")
  }

  lemma ReplaceEmptyLeft(sub: string, rep: string)
    requires sub != []
    ensures ReplaceAll("", sub, rep) == ""
  {
  }

  /** A product name without dots is kept, and so is its archive or SAFE
      directory name reduced to it. */
  lemma NormalizeProductName(x: string)
    requires '.' !in x
    ensures NormalizeName(x) == x
    ensures NormalizeName(x + ".zip") == x
    ensures NormalizeName(x + ".SAFE") == x
    ensures NormalizeName(x + ".SAFE.zip") == x
  {
    assert ".zip"[0] == '.' && ".SAFE"[0] == '.';
    // x
    ReplaceAfterHead(x, "", ".zip", "");
    ReplaceAfterHead(x, "", ".SAFE", "");
    assert x + "" == x;
    // x.zip
    ReplaceAfterHead(x, ".zip", ".zip", "");
    ReplaceAtStart("", ".zip", "");
    // x.SAFE
    ReplaceAfterHead(x, ".SAFE", ".zip", "");
    ReplaceSafeKeepsZip();
    ReplaceAfterHead(x, ".SAFE", ".SAFE", "");
    ReplaceAtStart("", ".SAFE", "");
    // x.SAFE.zip
    assert x + ".SAFE.zip" == x + (".SAFE" + ".zip");
    ReplaceAfterHead(x, ".SAFE" + ".zip", ".zip", "");
    ReplaceSafeZip();
  }

  lemma ReplaceSafeKeepsZip()
    ensures ReplaceAll(".SAFE", ".zip", "") == ".SAFE"
  {
    assert ".SAFE"[..4][1] == 'S';
    assert ".SAFE"[1..] == "SAFE";
    ReplaceAfterHead("SAFE", "", ".zip", "");
    assert "SAFE" + "" == "SAFE";
  }

  lemma ReplaceSafeZip()
    ensures ReplaceAll(".SAFE" + ".zip", ".zip", "") == ".SAFE"
  {
    var s := ".SAFE" + ".zip";
    assert s[..4][1] == 'S';
    assert s[1..] == "SAFE" + ".zip";
    ReplaceAfterHead("SAFE", ".zip", ".zip", "");
    ReplaceAtStart("", ".zip", "");
    assert "SAFE" + "" == "SAFE";
  }

  /** Removing `.zip` can create a new occurrence, so normalising twice can
      change the name again. */
  lemma NormalizeNotIdempotent()
    ensures NormalizeName(".z.zipip") == ".zip"
    ensures NormalizeName(".zip") == ""
  {
    var s := ".z.zipip";
    assert s[..4][2] == '.';
    assert s[1..] == "z.zipip";
    assert "z.zipip"[..4] != ".zip";
    assert "z.zipip"[1..] == ".zipip";
    assert ".zipip" == ".zip" + "ip";
    ReplaceAtStart("ip", ".zip", "");
    assert "ip"[0] != '.';
    ReplaceAfterHead("ip", "", ".zip", "");
    assert "ip" + "" == "ip";
    assert ReplaceAll(s, ".zip", "") == ".zip";
    assert ".zip"[..4] != ".SAFE"[..4] || |".zip"| < |".SAFE"|;
    ReplaceAtStart("", ".zip", "");
    assert ".zip" + "" == ".zip";
  }

  /** The names of the generator expression, in input order. */
  function NormalizedNames(inputs: seq<string>): (r: seq<string>)
    ensures |r| == |inputs|
    ensures forall p :: p in r <==> exists i :: 0 <= i < |inputs| && NormalizeName(inputs[i]) == p
  {
    if inputs == [] then []
    else [NormalizeName(inputs[0])] + NormalizedNames(inputs[1..])
  }

  /** The product tree for names given on the command line: one folder, the
      empty one, holding the normalised names without repetitions, in the order
      of their first appearance. */
  method ProductsTree(inputs: seq<string>) returns (tree: map<string, seq<string>>)
    ensures tree.Keys == {""}
    ensures tree[""] == Dedup(NormalizedNames(inputs))
    ensures InFirstOccurrenceOrder(tree[""], NormalizedNames(inputs))
    ensures NoDuplicates(tree[""])
    ensures forall p :: p in tree[""] <==> exists i :: 0 <= i < |inputs| && NormalizeName(inputs[i]) == p
    ensures |tree[""]| <= |inputs|
  {
    var names := NormalizedNames(inputs);
    var products := Unique(names);
    tree := map["" := products];
  }

  /** `outroot / folder`: the default folder "" is the output root itself. */
  lemma OutputPathOfDefaultFolder(outroot: Path)
    ensures OutPath(outroot, "") == outroot
  {
  }

  /** A folder name written as one plain segment becomes one more component. */
  lemma OutputPathOfFolder(outroot: Path, folder: string)
    requires '/' !in folder && folder != "" && folder != "."
    ensures OutPath(outroot, folder) == outroot + [folder]
  {
    ComponentsOfPlainName(folder);
  }

  // ---------------------------------------------------------------------------
  // Block size

  /** The default of `--block-size`, in MB: `BLOCKSIZE // MB`. */
  const DefaultBlockSizeArgument: int := BLOCKSIZE / MB

  /** The block size in bytes passed on: `args.block_size * MB`. */
  function BlockSizeBytes(megabytes: int): (r: int)
    ensures megabytes > 0 ==> r >= MB
    ensures megabytes == 0 <==> r == 0
    ensures megabytes < 0 <==> r < 0
  {
    megabytes * MB
  }

  /** The default argument gives back `BLOCKSIZE`, 16 MiB. */
  lemma DefaultBlockSize()
    ensures DefaultBlockSizeArgument == 16
    ensures BlockSizeBytes(DefaultBlockSizeArgument) == BLOCKSIZE == 16777216
  {
  }

  /** `_download` with the block size `main` computes from a non-zero MB count
      copies the whole member; a negative count copies it in a single read. */
  lemma NonZeroBlockSizeCopies(megabytes: int, data: seq<bv8>)
    requires megabytes != 0
    ensures Written(data, Some(BlockSizeBytes(megabytes))) == data
    ensures megabytes < 0 ==> |Writes(data, Some(BlockSizeBytes(megabytes)))| <= 1
  {
    WritesFlatten(data, Some(BlockSizeBytes(megabytes)));
  }

  /** With the block size `main` computes from a count of 0, the first read of
      a member is empty: `_download` creates the output file empty. */
  lemma ZeroBlockSizeWritesEmptyFiles(data: seq<bv8>)
    ensures Written(data, Some(BlockSizeBytes(0))) == []
    ensures Writes(data, Some(BlockSizeBytes(0))) == []
  {
  }

  // ---------------------------------------------------------------------------
  // Exit status

  /** How the body of `main` ended. */
  datatype Outcome =
    | Returned(code: int)            // `asfsmd_cli` returned
    | RaisedException(name: string)  // an `Exception` subclass was raised
    | Interrupted                    // `KeyboardInterrupt`
    | RaisedOther(name: string)      // another `BaseException`, such as `SystemExit`

  /** The value `main` returns, or `None` when the exception propagates. */
  function ExitCode(outcome: Outcome): (r: Option<int>)
    ensures r.None? <==> outcome.RaisedOther?
    ensures outcome.Returned? ==> r == Some(outcome.code)
    ensures outcome.RaisedException? ==> r == Some(EX_FAILURE)
    ensures outcome.Interrupted? ==> r == Some(EX_INTERRUPT)
  {
    match outcome
    case Returned(code) => Some(code)
    case RaisedException(_) => Some(EX_FAILURE)
    case Interrupted => Some(EX_INTERRUPT)
    case RaisedOther(_) => None
  }

  /** The `try`/`except` of `main`: `exit_code` starts as `EX_OK`, takes the
      value returned by `asfsmd_cli`, or is set by the handler that catches the
      exception; any other exception leaves `main` without a value. */
  method MainExitCode(outcome: Outcome) returns (exitCode: Option<int>)
    ensures exitCode == ExitCode(outcome)
  {
    var code := EX_OK;
    match outcome {
      case Returned(c) =>
        code := c;
      case RaisedException(_) =>
        code := EX_FAILURE;
      case Interrupted =>
        code := EX_INTERRUPT;
      case RaisedOther(_) =>
        return None;
    }
    return Some(code);
  }

  /** When the body of `main` either returns `EX_OK` or raises an `Exception` or
      `KeyboardInterrupt`, `main` returns one of the three codes, and 0 exactly
      when the body returned. */
  lemma ExitCodes(outcome: Outcome)
    requires outcome.Returned? ==> outcome.code == EX_OK
    requires !outcome.RaisedOther?
    ensures ExitCode(outcome).Some?
    ensures ExitCode(outcome).value in {EX_OK, EX_FAILURE, EX_INTERRUPT}
    ensures ExitCode(outcome).value == EX_OK <==> outcome.Returned?
  {
  }
}
