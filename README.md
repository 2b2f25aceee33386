# asfsmd in Dafny

asfsmd downloads only the metadata members of Sentinel-1 products: it opens
each remote product ZIP archive over HTTP, selects the members whose names
match a list of glob patterns (the manifest and the annotation files by
default), and copies them below an output directory. Members that are already
there are skipped. This project models that core and proves what it promises.

- `Glob` is `fnmatch.fnmatch` for patterns made of literal characters, `*`
  and `?`. On POSIX `fnmatch` does not fold case, `*` also crosses `/`, and
  the whole name must match.
- `Patterns` is `make_patterns`: the ordered pattern list built from a beam, a
  polarisation and the cal/noise/rfi/data flags.
- `Selection` is `_filter_components`: the members of an archive that match a
  pattern, in archive order and each taken once.
- `Paths` is the `pathlib` arithmetic for the output path
  `outdir / filename.parent / filename.name`.
- `Extraction` covers `_download` and `download_components_from_urls`.
  - The output directory is a tree of files and directories.
  - `OutputTree` is the class the program changes. Each of its methods is
    proved against a function of the old state.
  - An archive is its list of members, each a name and its bytes. The remote
    client is an opener function from URL to member list, or to the reason it
    could not open the archive.
- `Credentials` is `_get_auth`, with the netrc file as an input.
- `Utils` is `unique`.
- `PyText` holds the parts of Python used on header values: `int()`,
  `str.lower()`, and `repr()` for the intended mode message.
- `HttpIO` is the httpio-based client.
  - `HttpIOFile.open` probes the file with one GET request. It checks the
    status, then that Content-Length is present and parses (section 8.6 of
    RFC 9110), then that Accept-Ranges is `bytes` in any letter case
    (section 14.3 of RFC 9110).
  - `HttpIOClient` shares one session among all the files it opens.
  - The server's reply is an input.
- `Cli` covers product-name normalisation, the product tree, the output folder
  path, the block size in bytes, and the exit status of `main`.

A mistake in the mode message was found; it is described under "## Findings".
As written, the package does not import. asfsmd/common.py lacks the
`AbstractClient` base class that every client module imports, so `asfsmd.core`
fails to import, and `asfsmd.cli` with it. The command-line module also
imports a function that does not exist, and it passes an argument its callees
do not take. The model follows the code as it would run with the base class
present and the calls working; "## Left out" says what this means.
Besides that, the code was followed wherever it and its documentation differ.

## Model

| member | source | states |
|---|---|---|
| Glob.MatchLiteral | asfsmd/core.py:116 | a pattern without wildcards matches exactly the name equal to it |
| Glob.MatchStar | asfsmd/core.py:116 | `*` matches every name, slashes included |
| Glob.MatchAllAny | asfsmd/core.py:116 | a pattern of `?` only matches exactly the names of its length |
| Glob.MatchConcat | asfsmd/core.py:116 | matches of two parts concatenate into a match of the concatenated pattern |
| Glob.MatchSplit | asfsmd/core.py:116 | a match of `p + q` splits into a match of `p` followed by a match of `q` |
| Glob.MatchStarSuffix | asfsmd/core.py:116 | `"*" + suffix` matches exactly the names ending with the suffix |
| Glob.MatchWithoutStarLength | asfsmd/core.py:116 | a pattern without `*` only matches names of its own length |
| Glob.MatchEndsWith | asfsmd/core.py:116 | a name matching a pattern with a literal tail ends with that tail |
| Glob.MatchStartsWith | asfsmd/core.py:116 | a name matching a pattern with a literal head starts with that head |
| Patterns.MakePatterns | asfsmd/core.py:71-106 | the list has 2 + cal + noise + rfi + 2·data patterns; element 0 is the manifest pattern and element 1 the annotation pattern; `None` beam or pol becomes `*` or `??`; the rest are the flagged extras in the order calibration, noise, rfi, measurement, data |
| Patterns.MakePatternsAsPick | asfsmd/core.py:95-104 | the extras are exactly the flagged entries of the full extras list, in its order |
| Patterns.MakePatternsItems | asfsmd/core.py:87-104 | no pattern occurs twice, and each optional pattern is present if and only if its flag is set |
| Patterns.AllPatternsDistinct | asfsmd/core.py:87-104 | the seven possible patterns are pairwise different for any beam and polarisation |
| Patterns.PickItems | asfsmd/core.py:95-104 | the conditional appends keep exactly the flagged items, and keep them distinct |
| Patterns.MakePatternsDefault | asfsmd/core.py:84-94 | the defaults give exactly the manifest and `S1*.SAFE/annotation/s1?-*-???-??-*.xml`, and so do an explicit `*` and `??` |
| Patterns.MakePatternsMentions | asfsmd/core.py:91-104 | the beam and the polarisation occur in the annotation pattern, and each flagged extra names its kind (cal, noise, rfi, measurement, tiff) |
| Patterns.MakePatternsBracketFree | asfsmd/core.py:87-104 | with bracket-free beam and polarisation, every generated pattern is free of `[` |
| Patterns.AnnotationPatternSelects | asfsmd/core.py:90-94 | every annotation file of a product whose swath and polarisation match the beam and pol patterns is matched by the annotation pattern |
| Patterns.DefaultAnnotationPatternSelects | asfsmd/core.py:84-94 | the default annotation pattern matches the annotation file of every swath with a two-letter polarisation |
| Selection.FilterComponents | asfsmd/core.py:109-119 | the nested loop with `break` returns exactly the reference selection |
| Selection.SelectedMembers | asfsmd/core.py:113-119 | a member is selected if and only if it belongs to the archive and matches some pattern; the selection is never longer than the archive |
| Selection.SelectedPositions | asfsmd/core.py:113-119 | the selection is a subsequence of the archive at strictly increasing positions, and it holds every matching position |
| Selection.SelectedNothing | asfsmd/core.py:115 | an empty pattern list selects nothing |
| Selection.FilterExample | tests/test_core.py:203-215 | of `""`, `abc.txt` and `def.dat`, the pattern `*.txt` selects only `abc.txt` |
| Selection.ManifestPatternSelects | asfsmd/core.py:87-89 | the manifest of every product matches the manifest pattern |
| Selection.DefaultPatternsReject | asfsmd/core.py:87-94 | with the default patterns, a name ending neither in `.SAFE/manifest.safe` nor in `.xml` is not selected |
| Selection.DefaultSelectionScenario | asfsmd/core.py:87-94 | with the default patterns, a product's manifest and its annotation files are selected and its measurement image is not |
| Paths.TargetDir | asfsmd/core.py:163-166 | the directory made for a member is the output path itself or the output path minus its last component |
| Paths.ComponentsNamed | asfsmd/core.py:163 | the components of a member name are never empty, never `.` and hold no `/` |
| Paths.RelativeNameStaysBelow | asfsmd/core.py:165-166 | the output path of a name that is not absolute textually begins with the output directory (its components start with those of the directory; `..` is not resolved) |
| Paths.ComponentsOfJoin | asfsmd/core.py:163 | `dir/rest` splits into `dir` followed by the components of `rest` |
| Extraction.Mkdir | asfsmd/core.py:169 | `mkdir(parents=True, exist_ok=True)` fails if and only if a prefix of the target is a file; on success files are unchanged, no directory is lost, and the target exists |
| Extraction.Read | asfsmd/core.py:131 | a read returns the next bytes of the member; it is empty exactly at the end or for size 0; it is never longer than a non-negative size |
| Extraction.BlocksFrom | asfsmd/core.py:131-132 | the blocks read from a position on put together give the rest of the member |
| Extraction.BlockSizes | asfsmd/core.py:131-132 | every written block is non-empty; with a positive block size each is at most that size and all but the last are full |
| Extraction.SingleBlock | asfsmd/core.py:131 | with no size or a negative size the first read takes the rest of the member, so at most one block is written |
| Extraction.WritesFlatten | asfsmd/core.py:128-133 | the blocks `_download` writes put together give the whole member, as blocks of the block size; `None` or a negative size copies it in one block |
| Extraction.OutputTree.Download | asfsmd/core.py:122-133 | the read/write loop until an empty read leaves the output file holding `Written(data)` and changes nothing else; the blocks it writes are `Writes(data)` |
| Extraction.OutputTree.MakeDirs | asfsmd/core.py:169 | the new state is `Mkdir` of the old one, or the error and an unchanged tree |
| Extraction.PlaceEffect | asfsmd/core.py:165-173 | one placement overwrites nothing; its only new file is the output path with the member's bytes; it fails exactly when a prefix of the directory is a file and then changes nothing |
| Extraction.MemberEffect | asfsmd/core.py:162-173 | the same, for one selected member and its own paths |
| Extraction.MissingMemberWritten | asfsmd/core.py:170-173 | a selected member whose output path is missing is written with its bytes |
| Extraction.PatternsOrDefault | asfsmd/core.py:146-147 | no patterns means the patterns of `make_patterns()` |
| Extraction.ExtractComponents | asfsmd/core.py:162-173 | the inner loop leaves the tree and the error that `ExtractMembers` gives for the old tree |
| Extraction.DownloadComponentsFromUrls | asfsmd/core.py:136-173 | the two loops leave the tree and the error that `ExtractUrls` gives for the old tree; the first exception ends the run and keeps what was written before it |
| Extraction.MembersEffect | asfsmd/core.py:162-173 | over an archive: existing files keep their bytes; every new file is the output path of a selected member and holds its bytes; on success every selected member's directories and output path exist |
| Extraction.MembersFailure | asfsmd/core.py:169 | an error in the members loop is the failed `mkdir` of one of the members |
| Extraction.MembersStopAtError | asfsmd/core.py:162-173 | once the members loop has raised, the later members change nothing |
| Extraction.UrlsEffect | asfsmd/core.py:151-173 | over all URLs: nothing existing is overwritten; every new file comes from a selected member of one of the archives; on success every archive opened and all its selected members exist |
| Extraction.WritesOnlyMatching | asfsmd/core.py:156-173 | every file a download creates is the output path of a member whose name matches a pattern, and holds that member's bytes; members that are not selected are never written |
| Extraction.UrlsFailure | asfsmd/core.py:156-169 | the error that stops a download is an archive that did not open, or the failed `mkdir` of a selected member |
| Extraction.UrlsStopAtError | asfsmd/core.py:151-173 | once a download has raised, the later URLs change nothing |
| Extraction.MkdirWellFormed | asfsmd/core.py:169 | `mkdir` keeps the tree consistent: no path is both a file and a directory, and parents are directories |
| Extraction.PlaceWellFormed | asfsmd/core.py:165-173 | placing one member keeps the tree consistent |
| Extraction.UrlsWellFormed | asfsmd/core.py:151-173 | a whole download keeps the tree consistent |
| Extraction.MembersRerun | asfsmd/core.py:169-172 | members whose directories and output paths exist change nothing |
| Extraction.UrlsRerun | asfsmd/core.py:151-172 | archives whose selected members all exist change nothing |
| Extraction.DownloadTwice | asfsmd/core.py:136-173 | running the same download again on the tree the first one left succeeds and changes nothing |
| Credentials.GetAuth | asfsmd/core.py:204-218 | both user and password are returned as given; exactly one raises `ValueError`; with neither it succeeds if and only if the netrc file parses and has an entry for the host or a default entry |
| Credentials.ExplicitCredentialsWin | asfsmd/core.py:209-210 | a user and a password given together are returned unchanged, whatever the netrc file holds |
| Credentials.NetrcCredentials | asfsmd/core.py:211-214 | without user and password the login and password come from the host's netrc entry, else from the default entry |
| Credentials.HostEntryBeforeDefault | asfsmd/core.py:213 | the host's own netrc entry is used even when a default entry exists |
| Credentials.Authenticators | asfsmd/core.py:213 | the host's entry, else the default entry, else none |
| Credentials.AuthSource | asfsmd/core.py:209-214 | a successful result comes wholly from the command line, or wholly from the host's or the default netrc entry |
| Credentials.NetrcScenarios | tests/test_core.py:228-258 | the Earthdata entry supplies login and password; a missing netrc file raises `FileNotFoundError`. A third clause, not from the tests but from unpacking `None` at asfsmd/core.py:213: a netrc file without a matching entry raises `TypeError` |
| Utils.Unique | asfsmd/_utils.py:6-14 | the loop with its shadow set returns `Dedup(data)`; the result has no duplicates, holds the same items as the input in first-occurrence order, is no longer than the input, and is the input itself when that has no duplicates |
| Utils.DedupItems | asfsmd/_utils.py:10-13 | the reference result has no duplicates, has the input's items and is no longer than the input |
| Utils.DedupOrder | asfsmd/_utils.py:10-13 | the reference result lists items in the order of their first occurrence |
| Utils.DedupOfUnique | tests/test__utils.py:13 | an input without duplicates is returned unchanged |
| Utils.DedupExamples | tests/test__utils.py:14-15 | `a b c b` gives `a b c`, and `1 2 2 3 1 2` gives `1 2 3` |
| Utils.FirstIndex | asfsmd/_utils.py:10-13 | the first position of an item in the input |
| PyText.ParseIntOfNat | asfsmd/httpio_client.py:25 | `int(str(n)) == n` for every natural number; the model has no limit on the number of digits (see "## Left out") |
| PyText.ParseIntOfNegative | asfsmd/httpio_client.py:25 | a negative Content-Length is accepted as a negative length |
| PyText.ParseIntPadded | asfsmd/httpio_client.py:25 | whitespace around the digits is ignored |
| PyText.ParseIntGrouped | asfsmd/httpio_client.py:25 | underscores between digits are accepted |
| PyText.ParseIntLeadingZeros | asfsmd/httpio_client.py:25 | leading zeros are accepted |
| PyText.ParseIntDoubleUnderscore | asfsmd/httpio_client.py:25 | a doubled underscore raises `ValueError` |
| PyText.ParseIntEmpty | asfsmd/httpio_client.py:25 | blank text and a lone sign raise `ValueError` |
| PyText.ParseIntLetters | asfsmd/httpio_client.py:25 | a letter among the digits raises `ValueError` |
| PyText.Lower | asfsmd/httpio_client.py:31 | `lower()` keeps the length and lower-cases each letter |
| PyText.LowerMatches | asfsmd/httpio_client.py:31 | a value lower-cases to `bytes` exactly when it is `bytes` with any of its letters in upper case |
| PyText.ReprInjective | asfsmd/httpio_client.py:57 | different strings have different `repr`s |
| HttpIO.Probe | asfsmd/httpio_client.py:21-34 | the probe succeeds if and only if the status is not an error, Content-Length is present and parses, and Accept-Ranges is `bytes` in any case. The length is recorded exactly when Content-Length parses, even if Accept-Ranges then fails. An error status is reported before the headers are looked at. A missing Content-Length is reported before Accept-Ranges |
| HttpIO.ProbeWellFormedReply | asfsmd/httpio_client.py:23-35 | a good status with a decimal Content-Length `n` and Accept-Ranges `bytes`, `Bytes` or `BYTES` opens with length `n` |
| HttpIO.ProbeWithoutRanges | asfsmd/httpio_client.py:30-34 | without Accept-Ranges the probe fails, after recording the length |
| HttpIO.HttpIOFile.Open | asfsmd/httpio_client.py:16-35 | a closed file raises. A closing file, or one with a session, is returned unchanged. Otherwise the file takes the supplied session, or a fresh one, before it sends the GET. Its error and length are those of the probe. Afterwards a file that was not closed has a session or is closing, so a second open is a no-op |
| HttpIO.OpenTwice | asfsmd/httpio_client.py:19-20 | after any open of a file that is not closed, a second open raises nothing |
| HttpIO.HttpIOFile.constructor | asfsmd/httpio_client.py:59 | a new file has its URL and block size, no session, no length, and is neither closing nor closed |
| HttpIO.HttpIOClient.constructor | asfsmd/httpio_client.py:41-45 | the client gets a fresh session carrying the credentials, and the block size |
| HttpIO.HttpIOClient.Exit | asfsmd/httpio_client.py:47-48 | `__exit__` closes the client's session |
| HttpIO.HttpIOClient.Open | asfsmd/httpio_client.py:50-60 | a mode other than `rb` raises `ValueError` with the intended message (`invalid mode: ` and the mode's `repr`) and sends no request. Otherwise one GET goes out on the client's own session. The result is a fresh file with the URL, the client's block size and session, and the probed length, or the probe's error |
| HttpIO.InvalidModeMessageAsWrittenHidesMode | asfsmd/httpio_client.py:57 | as written, the message for mode `r` equals the message for mode `w` |
| HttpIO.InvalidModeMessageNamesMode | asfsmd/httpio_client.py:57 | the intended message determines the mode |
| Cli.NormalizeProductName | asfsmd/cli.py:77-80 | for a product name `X` without dots, `X`, `X.zip`, `X.SAFE` and `X.SAFE.zip` all become `X` |
| Cli.ReplaceEmptyLeft | asfsmd/cli.py:80 | replacing in an empty text gives an empty text |
| Cli.ReplaceAbsent | asfsmd/cli.py:80 | `replace` leaves a text without the searched string unchanged |
| Cli.ReplaceAfterHead | asfsmd/cli.py:80 | `replace` keeps a head that cannot start an occurrence |
| Cli.ReplaceAtStart | asfsmd/cli.py:80 | `replace` replaces an occurrence at the start and goes on after it |
| Cli.NormalizeNotIdempotent | asfsmd/cli.py:80 | removing `.zip` can create a new `.zip`: `.z.zipip` becomes `.zip` |
| Cli.ProductsTree | asfsmd/cli.py:73-82 | the tree has the single folder `""`. Its list is the normalised inputs with repetitions dropped, in the order of their first appearance: each name once and nothing else, and no longer than the input |
| Cli.NormalizedNames | asfsmd/cli.py:80 | the generator yields one normalised name per input |
| Cli.OutputPathOfDefaultFolder | asfsmd/cli.py:85-87 | `outroot / ""` is `outroot` |
| Cli.OutputPathOfFolder | asfsmd/cli.py:85-87 | `outroot / folder` adds the folder as one component |
| Cli.BlockSizeBytes | asfsmd/cli.py:327 | the byte count has the sign of the MB count and is at least `MB` for a positive count |
| Cli.DefaultBlockSize | asfsmd/cli.py:210 | the default MB count is 16, and it converts back to `BLOCKSIZE` = 16777216 |
| Cli.NonZeroBlockSizeCopies | asfsmd/cli.py:327 | `_download` with a block size of `n * MB` for a non-zero `n` writes the whole member; for a negative `n` it writes it in a single block |
| Cli.ZeroBlockSizeWritesEmptyFiles | asfsmd/cli.py:327 | `_download` with a block size of `0 * MB` gets an empty first read, so it creates the output file empty and writes no block |
| Cli.ExitCode | asfsmd/cli.py:312-344 | a normal return gives its value; any `Exception` gives 1; `KeyboardInterrupt` gives 130; other exceptions propagate |
| Cli.MainExitCode | asfsmd/cli.py:312-344 | the `try`/`except` assignments to `exit_code` give `ExitCode` |
| Cli.ExitCodes | asfsmd/cli.py:25-30 | given a body of `main` that either returns `EX_OK` or raises an `Exception` or `KeyboardInterrupt`, `main` returns 0, 1 or 130, and 0 exactly when the body returned. As written the body never returns (see "## Left out") |

## Findings

| source | as written | input that shows it | evidently intended | confidence | as-written member | corrected member |
|---|---|---|---|---|---|---|
| asfsmd/httpio_client.py:57 | `ValueError("invalid mode: {mode!r}")`: a plain string, so the placeholder is never filled in | `open(url, "w")` and `open(url, "r")` raise the same message | an f-string naming the mode, `invalid mode: 'w'` | high, not executed | HttpIO.InvalidModeMessageAsWrittenHidesMode | HttpIO.InvalidModeMessageNamesMode |

## Left out

- ZIP parsing: reading the central directory and decompressing members is done by Python's `zipfile`. An archive is given as its member list with the uncompressed bytes.
- Range reads: the block-buffered reads of the remote file happen inside `httpio` after the probe.
- Backends: the fsspec, smart_open and remotezip clients and the environment-driven choice among them (`_get_client_type`).
- The remote client as seen by `download_components_from_urls` is an opener function. It does not carry the credentials or the block size, and a ZIP that fails to parse is treated like a failed open.
- `query` and `download_annotations`: they call the remote catalogue.
- `_is_product_complete` is not part of this model: asfsmd/core.py does not define it.
- `AbstractClient` is not part of this model: asfsmd/common.py does not define it, yet every client module imports it (asfsmd/httpio_client.py:10 and the fsspec, remotezip and smart_open clients). As written, no client module imports, so `_get_client_type` raises `ImportError` when asfsmd/core.py is imported (asfsmd/core.py:30-55), and no function of `asfsmd.core` can run. The model assumes the base class the clients evidently expect: `with client:` gives the client itself, and leaving the block calls the client's own `__exit__`.
- `load_product_lists` is not part of this model: asfsmd/_utils.py does not define it, so the `--file-list` branch of `asfsmd_cli` is not modelled. As written, asfsmd/cli.py:22 imports it, so importing `asfsmd.cli` raises `ImportError` and `main` never runs. The Cli members model the module with that import resolved.
- The calls from `asfsmd_cli` into `download_components_from_urls` and `download_annotations` are not modelled. They pass a `noprogress` keyword (asfsmd/cli.py:63-70 and 87-94) that neither callee takes (asfsmd/core.py:136-143 and 177-184), so every run that gets past `_get_auth` raises `TypeError` there. The beginning of `asfsmd_cli` (credentials, patterns) is covered by the `Credentials` and `Patterns` members.
- Cli.ExitCodes: as written, the body of `main` always raises, so `main` returns 1, or 130 on an interrupt, and never 0. The lemma states the exit codes for a `asfsmd_cli` whose calls go through and return `EX_OK`.
- Cli.NonZeroBlockSizeCopies, Cli.ZeroBlockSizeWritesEmptyFiles: these are properties of `_download` for the block size `main` computes. As written, no command-line run reaches `_download`.
- PyText.ParseInt: CPython 3.11 and later (and 3.10.7 and later) refuse a decimal string of more than 4300 digits with `ValueError`, the default integer string-conversion limit. The model has no digit limit, so `PyText.ParseIntOfNat` and `HttpIO.Probe` accept such a Content-Length where Python would raise.
- HttpIO.HttpIOClient.Open: raises `ValueError` with the intended message, `invalid mode: ` followed by the mode's `repr`. As written, the source raises the fixed text `invalid mode: {mode!r}` for every mode. That text is `HttpIO.InvalidModeMessageAsWritten`; see "## Findings".
- Argument parsing, logging, warnings and progress bars: presentation only.
- Reading and parsing the netrc file: it is an input, either missing, malformed or parsed.
- Characters: for `int()` the model uses the ASCII whitespace `int()` ignores around the number and ASCII digits; for `lower()` it uses ASCII letters. No other character lower-cases to a letter of `bytes`, so the Accept-Ranges test is exact. Non-ASCII digits and whitespace in a Content-Length are not modelled.
- PyText.Repr: characters that Python's `repr` escapes because they are not printable are kept as they are rather than written as `\x`, `\u` or `\U` escapes. These are the control characters other than tab, newline and carriage return, and the non-printable characters beyond ASCII such as `\x85`, `\xa0` or `\u200b`.
- Glob.Match: character classes (`[...]`) are not modelled. Every pattern the program builds is free of `[`, as `Patterns.MakePatternsBracketFree` shows.
- Paths: a name starting with `//` is treated like one starting with `/`; `..` is kept as a component and not resolved. So the model cannot show that a member name containing `..`, such as `../../x`, is written outside the output directory, or that `a/../b` is the same file as `b`: `outdir / filename.parent / filename.name` (asfsmd/core.py:163-173) uses the raw member name, and the tree is keyed by the path's text.
- HttpIO.HttpIOFile.constructor: the file class is built on `httpio.SyncHTTPIOFile`, whose constructor and `_assert_not_closed` are not part of this model. The constructor's initial state and the closed-file error are assumptions about them.
- HttpIO.HttpIOFile.Open: the extra request arguments (`**self._kwargs`) and closing the response are not modelled. A failed request is a `Refused` reply.
- Extraction.OutputTree.MakeDirs: permission errors and races with other processes are not modelled; only a file in the way makes `mkdir` fail.
- Extraction.OutputTree.Download: write errors and read errors after the archive has opened are not modelled.
