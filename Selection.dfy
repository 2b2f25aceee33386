/** `_filter_components` (asfsmd/core.py): the members of an archive that the
    patterns select. The archive is given as its already parsed member list, in
    central-directory order; parsing the ZIP central directory is not part of
    this model. */
module Selection {
  import opened Seqs
  import opened Wrappers
  import opened Glob
  import opened Patterns

  type Bytes = seq<bv8>

  /** One archive member: its name inside the archive and its uncompressed bytes. */
  datatype Member = Member(filename: string, data: Bytes)

  predicate AllBracketFree(patterns: seq<string>) {
    forall i :: 0 <= i < |patterns| ==> BracketFree(patterns[i])
  }

  /** The name matches at least one of the patterns. */
  predicate MatchesAny(name: string, patterns: seq<string>)
    requires AllBracketFree(patterns)
  {
    exists i :: 0 <= i < |patterns| && Match(name, patterns[i])
  }

  /** The reference selection: the members, in archive order, whose name matches
      some pattern, each taken once. */
  function Selected(members: seq<Member>, patterns: seq<string>): seq<Member>
    requires AllBracketFree(patterns)
    decreases |members|
  {
    if members == [] then []
    else
      var last := members[|members| - 1];
      Selected(members[..|members| - 1], patterns)
        + (if MatchesAny(last.filename, patterns) then [last] else [])
  }

  /** `_filter_components(zf, patterns)`: for each member, try the patterns in
      order and keep the member at the first one that matches. */
  method FilterComponents(filelist: seq<Member>, patterns: seq<string>) returns (components: seq<Member>)
    requires AllBracketFree(patterns)
    ensures components == Selected(filelist, patterns)
  {
    components := [];
    for i := 0 to |filelist|
      invariant components == Selected(filelist[..i], patterns)
    {
      var info := filelist[i];
      assert filelist[..i + 1][..i] == filelist[..i] && filelist[..i + 1][i] == info;
      for j := 0 to |patterns|
        invariant components == Selected(filelist[..i], patterns)
        invariant forall k :: 0 <= k < j ==> !Match(info.filename, patterns[k])
      {
        if Match(info.filename, patterns[j]) {
          components := components + [info];
          break;
        }
      }
    }
    assert filelist[..|filelist|] == filelist;
  }

  /** A member is selected iff it is in the archive and its name matches some pattern. */
  lemma {:induction false} SelectedMembers(members: seq<Member>, patterns: seq<string>)
    requires AllBracketFree(patterns)
    ensures forall m :: m in Selected(members, patterns) <==> m in members && MatchesAny(m.filename, patterns)
    ensures |Selected(members, patterns)| <= |members|
    decreases |members|
  {
    if members != [] {
      var init := members[..|members| - 1];
      SelectedMembers(init, patterns);
      assert members == init + [members[|members| - 1]];
    }
  }

  /** The selection is a subsequence of the archive: `idx` gives, in increasing
      order, the position in the archive of each selected member, and lists every
      position whose member matches. So archive order is kept and no member is
      taken twice, however many patterns it matches. */
  lemma {:induction false} SelectedPositions(members: seq<Member>, patterns: seq<string>) returns (idx: seq<nat>)
    requires AllBracketFree(patterns)
    ensures |idx| == |Selected(members, patterns)|
    ensures forall k :: 0 <= k < |idx| ==> idx[k] < |members| && Selected(members, patterns)[k] == members[idx[k]]
    ensures forall k, l :: 0 <= k < l < |idx| ==> idx[k] < idx[l]
    ensures forall i :: 0 <= i < |members| ==> (MatchesAny(members[i].filename, patterns) <==> i in idx)
    decreases |members|
  {
    if members == [] {
      idx := [];
    } else {
      var n := |members| - 1;
      var init := members[..n];
      var prev := SelectedPositions(init, patterns);
      var last := if MatchesAny(members[n].filename, patterns) then [n] else [];
      idx := prev + last;
      PositionsStepContents(members, patterns, prev);
      PositionsStepMembership(members, patterns, prev);
    }
  }

  /** One more member: the positions found so far still point at the selected
      members, and the new last position, if any, at the new last member. */
  lemma PositionsStepContents(members: seq<Member>, patterns: seq<string>, prev: seq<nat>)
    requires AllBracketFree(patterns) && members != []
    requires |prev| == |Selected(members[..|members| - 1], patterns)|
    requires forall k :: 0 <= k < |prev| ==>
      prev[k] < |members| - 1 && Selected(members[..|members| - 1], patterns)[k] == members[..|members| - 1][prev[k]]
    requires forall k, l :: 0 <= k < l < |prev| ==> prev[k] < prev[l]
    ensures var n := |members| - 1;
      var idx := prev + (if MatchesAny(members[n].filename, patterns) then [n] else []);
      |idx| == |Selected(members, patterns)|
      && (forall k :: 0 <= k < |idx| ==> idx[k] < |members| && Selected(members, patterns)[k] == members[idx[k]])
      && (forall k, l :: 0 <= k < l < |idx| ==> idx[k] < idx[l])
  {
    var n := |members| - 1;
    var init := members[..n];
    var idx := prev + (if MatchesAny(members[n].filename, patterns) then [n] else []);
    assert Selected(members, patterns) == Selected(init, patterns)
      + (if MatchesAny(members[n].filename, patterns) then [members[n]] else []);
    forall k | 0 <= k < |idx|
      ensures idx[k] < |members| && Selected(members, patterns)[k] == members[idx[k]]
    {
      if k < |prev| { assert members[prev[k]] == init[prev[k]]; }
    }
  }

  /** One more member: a position is listed exactly when its member matches. */
  lemma PositionsStepMembership(members: seq<Member>, patterns: seq<string>, prev: seq<nat>)
    requires AllBracketFree(patterns) && members != []
    requires forall k :: 0 <= k < |prev| ==> prev[k] < |members| - 1
    requires forall i :: 0 <= i < |members| - 1 ==>
      (MatchesAny(members[..|members| - 1][i].filename, patterns) <==> i in prev)
    ensures var n := |members| - 1;
      var idx := prev + (if MatchesAny(members[n].filename, patterns) then [n] else []);
      forall i :: 0 <= i < |members| ==> (MatchesAny(members[i].filename, patterns) <==> i in idx)
  {
    var n := |members| - 1;
    var init := members[..n];
    var idx := prev + (if MatchesAny(members[n].filename, patterns) then [n] else []);
    forall i | 0 <= i < |members|
      ensures MatchesAny(members[i].filename, patterns) <==> i in idx
    {
      if i < n {
        assert members[i] == init[i];
        assert i in idx <==> i in prev;
      } else {
        assert n !in prev;
      }
    }
  }

  /** No pattern, no selection. */
  lemma {:induction false} SelectedNothing(members: seq<Member>)
    ensures Selected(members, []) == []
    decreases |members|
  {
    if members != [] {
      SelectedNothing(members[..|members| - 1]);
    }
  }

  lemma TxtMatches()
    ensures BracketFree("*.txt")
    ensures !Match("", "*.txt") && Match("abc.txt", "*.txt") && !Match("def.dat", "*.txt")
  {
    MatchStarSuffix("", ".txt");
    MatchStarSuffix("abc.txt", ".txt");
    MatchStarSuffix("def.dat", ".txt");
    assert "*" + ".txt" == "*.txt";
    assert "abc.txt"[3..] == ".txt";
    assert "def.dat"[3..][1] == 'd';
  }

  /** `["", "abc.txt", "def.dat"]` filtered by `["*.txt"]` keeps only `abc.txt`. */
  lemma FilterExample(d0: Bytes, d1: Bytes, d2: Bytes)
    ensures AllBracketFree(["*.txt"])
    ensures Selected([Member("", d0), Member("abc.txt", d1), Member("def.dat", d2)], ["*.txt"])
      == [Member("abc.txt", d1)]
  {
    var members := [Member("", d0), Member("abc.txt", d1), Member("def.dat", d2)];
    var patterns := ["*.txt"];
    TxtPatternSelects();
    FilterExamplePrefix(d0, d1);
    assert members[..2] == [Member("", d0), Member("abc.txt", d1)];
  }

  lemma TxtPatternSelects()
    ensures AllBracketFree(["*.txt"])
    ensures !MatchesAny("", ["*.txt"]) && MatchesAny("abc.txt", ["*.txt"]) && !MatchesAny("def.dat", ["*.txt"])
  {
    var patterns := ["*.txt"];
    TxtMatches();
    assert patterns[0] == "*.txt";
    assert MatchesAny("abc.txt", patterns) by { assert Match("abc.txt", patterns[0]); }
  }

  lemma FilterExamplePrefix(d0: Bytes, d1: Bytes)
    ensures AllBracketFree(["*.txt"])
    ensures Selected([Member("", d0), Member("abc.txt", d1)], ["*.txt"]) == [Member("abc.txt", d1)]
  {
    var members := [Member("", d0), Member("abc.txt", d1)];
    TxtPatternSelects();
    assert members[..1] == [Member("", d0)];
    assert members[..1][..0] == [];
    assert Selected(members[..1], ["*.txt"]) == [];
  }

  /** The patterns `make_patterns()` returns for its default arguments. */
  function DefaultPatterns(): seq<string> {
    MakePatterns(None, None, false, false, false, false)
  }

  lemma DefaultPatternsBracketFree()
    ensures AllBracketFree(DefaultPatterns())
  {
    MakePatternsBracketFree(None, None, false, false, false, false);
  }

  predicate EndsWith(name: string, suffix: string) {
    |suffix| <= |name| && name[|name| - |suffix|..] == suffix
  }

  /** The name of the manifest inside a product archive. */
  function ManifestName(product: string): string {
    "S1" + product + ".SAFE/manifest.safe"
  }

  /** The name of a measurement image inside a product archive. */
  function MeasurementName(product: string, rest: string): string {
    "S1" + product + ".SAFE/measurement/" + rest + ".tiff"
  }

  lemma ProductFileMatches(product: string, suffix: string)
    requires Literal(suffix)
    ensures BracketFree("S1" + "*" + suffix) && Match("S1" + product + suffix, "S1" + "*" + suffix)
  {
    MissionPrefixMatches(product);
    MatchLiteral(suffix, suffix);
    MatchConcat("S1" + product, suffix, "S1" + "*", suffix);
  }

  lemma ManifestSuffixLiteral()
    ensures Literal(".SAFE/manifest.safe")
  {
    assert Literal(".SAFE/") && Literal("manifest.safe");
    LiteralConcat(".SAFE/", "manifest.safe");
  }

  lemma ManifestPatternSelects(product: string)
    ensures BracketFree(ManifestPattern) && Match(ManifestName(product), ManifestPattern)
  {
    ManifestSuffixLiteral();
    ProductFileMatches(product, ".SAFE/manifest.safe");
    ManifestPatternSplit();
  }

  lemma DefaultPatternsSplit()
    ensures |DefaultPatterns()| == 2
    ensures DefaultPatterns()[0] == "S1*" + ".SAFE/manifest.safe"
    ensures DefaultPatterns()[1] == "S1*.SAFE/annotation/s1?-*-???-??-*" + ".xml"
  {
    MakePatternsDefault();
    assert "S1*" + ".SAFE/manifest.safe" == "S1*.SAFE/manifest.safe";
    assert "S1*.SAFE/annotation/s1?-*-???-??-*" + ".xml" == "S1*.SAFE/annotation/s1?-*-???-??-*.xml";
  }

  lemma ManifestPatternSplit()
    ensures "S1" + "*" + ".SAFE/manifest.safe" == ManifestPattern
  {
  }

  /** With the default patterns only names that end like a manifest or like an
      XML file can be selected. */
  lemma DefaultPatternsReject(name: string)
    requires !EndsWith(name, ".SAFE/manifest.safe") && !EndsWith(name, ".xml")
    ensures AllBracketFree(DefaultPatterns()) && !MatchesAny(name, DefaultPatterns())
  {
    DefaultPatternsBracketFree();
    var r := DefaultPatterns();
    DefaultPatternsSplit();
    BracketFreeParts("S1*", ".SAFE/manifest.safe");
    BracketFreeParts("S1*.SAFE/annotation/s1?-*-???-??-*", ".xml");
    if Match(name, r[0]) {
      MatchEndsWith(name, "S1*", ".SAFE/manifest.safe");
    }
    if Match(name, r[1]) {
      MatchEndsWith(name, "S1*.SAFE/annotation/s1?-*-???-??-*", ".xml");
    }
  }

  lemma ScenarioMatches(product: string, r1: string, r2: string, r3: string, image: string)
    ensures AllBracketFree(DefaultPatterns())
    ensures MatchesAny(ManifestName(product), DefaultPatterns())
    ensures MatchesAny(AnnotationName(product, 'a', "iw1", "slc", "vv", r1), DefaultPatterns())
    ensures MatchesAny(AnnotationName(product, 'a', "iw2", "slc", "vv", r2), DefaultPatterns())
    ensures MatchesAny(AnnotationName(product, 'a', "iw3", "slc", "vv", r3), DefaultPatterns())
    ensures !MatchesAny(MeasurementName(product, image), DefaultPatterns())
  {
    DefaultPatternsBracketFree();
    var r := DefaultPatterns();
    ManifestPatternSelects(product);
    DefaultAnnotationPatternSelects(product, 'a', "iw1", "slc", "vv", r1);
    DefaultAnnotationPatternSelects(product, 'a', "iw2", "slc", "vv", r2);
    DefaultAnnotationPatternSelects(product, 'a', "iw3", "slc", "vv", r3);
    var m := MeasurementName(product, image);
    assert m[|m| - 1] == 'f';
    assert !EndsWith(m, ".xml") && !EndsWith(m, ".SAFE/manifest.safe");
    DefaultPatternsReject(m);
  }

  /** Selecting from one more member. */
  lemma SelectedSnoc(ms: seq<Member>, m: Member, patterns: seq<string>)
    requires AllBracketFree(patterns)
    ensures Selected(ms + [m], patterns)
         == Selected(ms, patterns) + (if MatchesAny(m.filename, patterns) then [m] else [])
  {
    assert (ms + [m])[..|ms|] == ms;
  }

  /** An archive with a manifest, one annotation file per swath and a measurement
      image: the default patterns select the manifest and the three annotation
      files, in archive order, and leave the image out. */
  lemma DefaultSelectionScenario(product: string, r1: string, r2: string, r3: string, image: string,
                                 d0: Bytes, d1: Bytes, d2: Bytes, d3: Bytes, d4: Bytes)
    ensures AllBracketFree(DefaultPatterns())
    ensures var manifest := Member(ManifestName(product), d0);
      var a1 := Member(AnnotationName(product, 'a', "iw1", "slc", "vv", r1), d1);
      var a2 := Member(AnnotationName(product, 'a', "iw2", "slc", "vv", r2), d2);
      var a3 := Member(AnnotationName(product, 'a', "iw3", "slc", "vv", r3), d3);
      var tiff := Member(MeasurementName(product, image), d4);
      Selected([manifest, a1, a2, a3, tiff], DefaultPatterns()) == [manifest, a1, a2, a3]
  {
    ScenarioMatches(product, r1, r2, r3, image);
    var manifest := Member(ManifestName(product), d0);
    var a1 := Member(AnnotationName(product, 'a', "iw1", "slc", "vv", r1), d1);
    var a2 := Member(AnnotationName(product, 'a', "iw2", "slc", "vv", r2), d2);
    var a3 := Member(AnnotationName(product, 'a', "iw3", "slc", "vv", r3), d3);
    var tiff := Member(MeasurementName(product, image), d4);
    var ps := DefaultPatterns();
    SelectedSnoc([], manifest, ps);
    assert [] + [manifest] == [manifest];
    SelectedSnoc([manifest], a1, ps);
    assert [manifest] + [a1] == [manifest, a1];
    SelectedSnoc([manifest, a1], a2, ps);
    assert [manifest, a1] + [a2] == [manifest, a1, a2];
    SelectedSnoc([manifest, a1, a2], a3, ps);
    assert [manifest, a1, a2] + [a3] == [manifest, a1, a2, a3];
    SelectedSnoc([manifest, a1, a2, a3], tiff, ps);
    assert [manifest, a1, a2, a3] + [tiff] == [manifest, a1, a2, a3, tiff];
  }
}
