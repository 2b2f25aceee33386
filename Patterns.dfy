/** `make_patterns` (asfsmd/core.py): the glob patterns that select the members of
    a Sentinel-1 product archive. */
module Patterns {
  import opened Wrappers
  import opened Seqs
  import opened Glob

  /** Pattern of the product manifest, always the first pattern. */
  const ManifestPattern: string := "S1*.SAFE/manifest.safe"
  /** Directory of the annotation files inside the product. */
  const AnnotationDir: string := "S1*.SAFE/annotation"

  /** Wildcard used when no beam is given: every beam. */
  const AnyBeam: string := "*"
  /** Wildcard used when no polarisation is given: every two-letter polarisation. */
  const AnyPol: string := "??"

  /** File-name part shared by the annotation, calibration, noise and RFI patterns. */
  function Tail(beam: string, pol: string): string {
    "s1?-" + beam + "-???-" + pol + "-*.xml"
  }

  function AnnotationPattern(beam: string, pol: string): string {
    AnnotationDir + "/" + Tail(beam, pol)
  }

  function CalibrationPattern(beam: string, pol: string): string {
    AnnotationDir + "/calibration/calibration-" + Tail(beam, pol)
  }

  function NoisePattern(beam: string, pol: string): string {
    AnnotationDir + "/calibration/noise-" + Tail(beam, pol)
  }

  function RfiPattern(beam: string, pol: string): string {
    AnnotationDir + "/rfi/rfi-" + Tail(beam, pol)
  }

  function MeasurementPattern(beam: string, pol: string): string {
    "S1*.SAFE/measurement/s1?-" + beam + "-???-" + pol + "-*.tiff"
  }

  function DataPattern(beam: string, pol: string): string {
    "S1*.SAFE/s1?-" + beam + "-???-?-" + pol + "-*.dat"
  }

  /** The optional patterns in the order in which they can be added. */
  function Extras(beam: string, pol: string): seq<string> {
    [CalibrationPattern(beam, pol), NoisePattern(beam, pol), RfiPattern(beam, pol),
     MeasurementPattern(beam, pol), DataPattern(beam, pol)]
  }

  /** `[x]` when the flag is set, `[]` otherwise. */
  function Opt<T>(flag: bool, x: T): seq<T> {
    if flag then [x] else []
  }

  /** The items of `xs` whose flag in `flags` is set, in their order. */
  function Pick<T>(flags: seq<bool>, xs: seq<T>): seq<T>
    requires |flags| == |xs|
    decreases |xs|
  {
    if xs == [] then []
    else Pick(flags[..|xs| - 1], xs[..|xs| - 1]) + Opt(flags[|xs| - 1], xs[|xs| - 1])
  }

  lemma PickSnoc<T>(flags: seq<bool>, xs: seq<T>, f: bool, x: T)
    requires |flags| == |xs|
    ensures Pick(flags + [f], xs + [x]) == Pick(flags, xs) + Opt(f, x)
  {
    assert (flags + [f])[..|xs|] == flags && (xs + [x])[..|xs|] == xs;
  }

  lemma AppendInit<T>(a: seq<T>, b: seq<T>)
    requires b != []
    ensures a + b[..|b| - 1] + [b[|b| - 1]] == a + b
  {
    assert b == b[..|b| - 1] + [b[|b| - 1]];
  }

  /** Picking from two lists laid end to end picks from each in turn. */
  lemma {:induction false} PickAppend<T>(f1: seq<bool>, x1: seq<T>, f2: seq<bool>, x2: seq<T>)
    requires |f1| == |x1| && |f2| == |x2|
    ensures Pick(f1 + f2, x1 + x2) == Pick(f1, x1) + Pick(f2, x2)
    decreases |x2|
  {
    if x2 == [] {
      assert f1 + f2 == f1 && x1 + x2 == x1;
    } else {
      var n := |x2| - 1;
      PickAppend(f1, x1, f2[..n], x2[..n]);
      PickSnoc(f1 + f2[..n], x1 + x2[..n], f2[n], x2[n]);
      AppendInit(f1, f2);
      AppendInit(x1, x2);
    }
  }

  lemma PickFour<T>(f0: bool, f1: bool, f2: bool, f3: bool, x0: T, x1: T, x2: T, x3: T)
    ensures Pick([f0, f1, f2, f3], [x0, x1, x2, x3]) == Opt(f0, x0) + Opt(f1, x1) + Opt(f2, x2) + Opt(f3, x3)
  {
    PickThree(f0, f1, f2, x0, x1, x2);
    assert [f0, f1, f2, f3][..3] == [f0, f1, f2] && [x0, x1, x2, x3][..3] == [x0, x1, x2];
  }

  lemma PickTwo<T>(f0: bool, f1: bool, x0: T, x1: T)
    ensures Pick([f0, f1], [x0, x1]) == Opt(f0, x0) + Opt(f1, x1)
  {
    PickOne(f0, x0);
    assert [f0, f1][..1] == [f0] && [x0, x1][..1] == [x0];
  }

  lemma PickOne<T>(f0: bool, x0: T)
    ensures Pick([f0], [x0]) == Opt(f0, x0)
  {
    assert [f0][..0] == [] && [x0][..0] == [];
    assert Pick([f0], [x0]) == [] + Opt(f0, x0);
  }

  lemma PickThree<T>(f0: bool, f1: bool, f2: bool, x0: T, x1: T, x2: T)
    ensures Pick([f0, f1, f2], [x0, x1, x2]) == Opt(f0, x0) + Opt(f1, x1) + Opt(f2, x2)
  {
    PickTwo(f0, f1, x0, x1);
    assert [f0, f1, f2][..2] == [f0, f1] && [x0, x1, x2][..2] == [x0, x1];
  }

  lemma PickFive<T>(f0: bool, f1: bool, f2: bool, f3: bool, f4: bool, x0: T, x1: T, x2: T, x3: T, x4: T)
    ensures Pick([f0, f1, f2, f3, f4], [x0, x1, x2, x3, x4])
      == Opt(f0, x0) + Opt(f1, x1) + Opt(f2, x2) + Opt(f3, x3) + Opt(f4, x4)
  {
    var o := Opt(f0, x0) + Opt(f1, x1) + Opt(f2, x2) + Opt(f3, x3);
    PickFour(f0, f1, f2, f3, x0, x1, x2, x3);
    assert [f0, f1, f2, f3, f4][..4] == [f0, f1, f2, f3] && [x0, x1, x2, x3, x4][..4] == [x0, x1, x2, x3];
  }

  /** The conditional appends of `make_patterns` add the flagged items in order. */
  lemma AppendFlagged<T>(head: seq<T>, f0: bool, f1: bool, f2: bool, f3: bool, x0: T, x1: T, x2: T, x3: T, x4: T)
    ensures var ps := if f0 then head + [x0] else head;
      var ps := if f1 then ps + [x1] else ps;
      var ps := if f2 then ps + [x2] else ps;
      (if f3 then ps + [x3, x4] else ps)
        == head + (Opt(f0, x0) + Opt(f1, x1) + Opt(f2, x2) + Opt(f3, x3) + Opt(f3, x4))
  {
    var o0, o1, o2, o3, o4 := Opt(f0, x0), Opt(f1, x1), Opt(f2, x2), Opt(f3, x3), Opt(f3, x4);
    var p0 := if f0 then head + [x0] else head;
    var p1 := if f1 then p0 + [x1] else p0;
    var p2 := if f2 then p1 + [x2] else p1;
    assert p0 == head + o0;
    Associative(head, o0, o1);
    assert p1 == head + (o0 + o1);
    Associative(head, o0 + o1, o2);
    assert p2 == head + (o0 + o1 + o2);
    assert (if f3 then p2 + [x3, x4] else p2) == p2 + (o3 + o4);
    Associative(head, o0 + o1 + o2, o3 + o4);
    Associative(o0 + o1 + o2, o3, o4);
  }

  lemma Associative<T>(a: seq<T>, b: seq<T>, c: seq<T>)
    ensures a + b + c == a + (b + c)
  {
  }

  function BoolToNat(b: bool): nat {
    if b then 1 else 0
  }

  /** `make_patterns(beam, pol, cal, noise, rfi, data)`; a `None` beam or
      polarisation stands for the wildcard. */
  function MakePatterns(beam: Option<string>, pol: Option<string>,
                        cal: bool, noise: bool, rfi: bool, data: bool): (r: seq<string>)
    ensures var b, p := beam.GetOr(AnyBeam), pol.GetOr(AnyPol);
      && |r| == 2 + BoolToNat(cal) + BoolToNat(noise) + BoolToNat(rfi) + 2 * BoolToNat(data)
      && r[0] == ManifestPattern
      && r[1] == AnnotationPattern(b, p)
      && r[2..] == Pick([cal, noise, rfi, data, data], Extras(b, p))
  {
    var b := beam.GetOr(AnyBeam);
    var p := pol.GetOr(AnyPol);
    PickFive(cal, noise, rfi, data, data, CalibrationPattern(b, p), NoisePattern(b, p),
             RfiPattern(b, p), MeasurementPattern(b, p), DataPattern(b, p));
    AppendFlagged([ManifestPattern, AnnotationPattern(b, p)], cal, noise, rfi, data,
                  CalibrationPattern(b, p), NoisePattern(b, p), RfiPattern(b, p),
                  MeasurementPattern(b, p), DataPattern(b, p));
    var patterns := [ManifestPattern, AnnotationPattern(b, p)];
    var patterns := if cal then patterns + [CalibrationPattern(b, p)] else patterns;
    var patterns := if noise then patterns + [NoisePattern(b, p)] else patterns;
    var patterns := if rfi then patterns + [RfiPattern(b, p)] else patterns;
    if data then patterns + [MeasurementPattern(b, p), DataPattern(b, p)] else patterns
  }

  /** All seven patterns `make_patterns` can produce, in the order it produces them. */
  function AllPatterns(beam: string, pol: string): seq<string> {
    [ManifestPattern, AnnotationPattern(beam, pol)] + Extras(beam, pol)
  }

  lemma {:induction false} PickItems<T>(flags: seq<bool>, xs: seq<T>)
    requires |flags| == |xs|
    ensures forall x :: x in Pick(flags, xs) <==> exists i :: 0 <= i < |xs| && flags[i] && xs[i] == x
    ensures NoDuplicates(xs) ==> NoDuplicates(Pick(flags, xs))
    decreases |xs|
  {
    if xs != [] {
      var n := |xs| - 1;
      PickItems(flags[..n], xs[..n]);
      var init := Pick(flags[..n], xs[..n]);
      forall x ensures x in Pick(flags, xs) <==> exists i :: 0 <= i < |xs| && flags[i] && xs[i] == x {
        if x in init {
          var i :| 0 <= i < n && flags[..n][i] && xs[..n][i] == x;
          assert flags[i] && xs[i] == x;
        }
        if exists i :: 0 <= i < |xs| && flags[i] && xs[i] == x {
          var i :| 0 <= i < |xs| && flags[i] && xs[i] == x;
          if i < n { assert flags[..n][i] && xs[..n][i] == x; }
        }
      }
      if NoDuplicates(xs) {
        assert NoDuplicates(xs[..n]);
        assert xs[n] !in init;
      }
    }
  }

  /** The seven patterns differ pairwise, whatever the beam and polarisation:
      each pair differs at a position that lies before the beam. */
  lemma AllPatternsDistinct(beam: string, pol: string)
    ensures NoDuplicates(AllPatterns(beam, pol))
  {
    var all := AllPatterns(beam, pol);
    assert all[0][9] == 'm' && all[0][10] == 'a';
    assert all[1][9] == 'a' && all[1][20] == 's';
    assert all[2][9] == 'a' && all[2][20] == 'c' && all[2][32] == 'c';
    assert all[3][9] == 'a' && all[3][20] == 'c' && all[3][32] == 'n';
    assert all[4][9] == 'a' && all[4][20] == 'r';
    assert all[5][9] == 'm' && all[5][10] == 'e';
    assert all[6][9] == 's';
  }

  /** In a list without duplicates, the item at position `i` is picked iff its flag is set. */
  lemma PickMember<T>(flags: seq<bool>, xs: seq<T>, i: nat)
    requires |flags| == |xs| && i < |xs| && NoDuplicates(xs)
    ensures xs[i] in Pick(flags, xs) <==> flags[i]
  {
    PickItems(flags, xs);
    if xs[i] in Pick(flags, xs) {
      var j :| 0 <= j < |xs| && flags[j] && xs[j] == xs[i];
      assert j == i;
    }
  }

  /** `make_patterns` is `AllPatterns` with the unflagged optional patterns dropped. */
  lemma MakePatternsAsPick(beam: Option<string>, pol: Option<string>,
                           cal: bool, noise: bool, rfi: bool, data: bool)
    ensures MakePatterns(beam, pol, cal, noise, rfi, data)
      == Pick([true, true] + [cal, noise, rfi, data, data], AllPatterns(beam.GetOr(AnyBeam), pol.GetOr(AnyPol)))
  {
    var b, p := beam.GetOr(AnyBeam), pol.GetOr(AnyPol);
    var r := MakePatterns(beam, pol, cal, noise, rfi, data);
    var head := [ManifestPattern, AnnotationPattern(b, p)];
    PickAppend([true, true], head, [cal, noise, rfi, data, data], Extras(b, p));
    PickBoth(ManifestPattern, AnnotationPattern(b, p));
    HeadAndRest(r, ManifestPattern, AnnotationPattern(b, p));
  }

  lemma PickBoth<T>(x: T, y: T)
    ensures Pick([true, true], [x, y]) == [x, y]
  {
    PickTwo(true, true, x, y);
    assert [x] + [y] == [x, y];
  }

  lemma HeadAndRest<T>(r: seq<T>, x: T, y: T)
    requires |r| >= 2 && r[0] == x && r[1] == y
    ensures r == [x, y] + r[2..]
  {
  }

  /** `make_patterns` never repeats a pattern, and each optional pattern is in
      the list exactly when its flag is set. */
  lemma MakePatternsItems(beam: Option<string>, pol: Option<string>,
                          cal: bool, noise: bool, rfi: bool, data: bool)
    ensures var b, p := beam.GetOr(AnyBeam), pol.GetOr(AnyPol);
      var r := MakePatterns(beam, pol, cal, noise, rfi, data);
      && NoDuplicates(r)
      && (CalibrationPattern(b, p) in r <==> cal)
      && (NoisePattern(b, p) in r <==> noise)
      && (RfiPattern(b, p) in r <==> rfi)
      && (MeasurementPattern(b, p) in r <==> data)
      && (DataPattern(b, p) in r <==> data)
  {
    var b, p := beam.GetOr(AnyBeam), pol.GetOr(AnyPol);
    var flags := [true, true] + [cal, noise, rfi, data, data];
    var all := AllPatterns(b, p);
    MakePatternsAsPick(beam, pol, cal, noise, rfi, data);
    AllPatternsDistinct(b, p);
    PickItems(flags, all);
    PickMember(flags, all, 2);
    PickMember(flags, all, 3);
    PickMember(flags, all, 4);
    PickMember(flags, all, 5);
    PickMember(flags, all, 6);
  }

  /** The Python defaults: no filter gives exactly the manifest pattern and the
      all-beam, all-polarisation annotation pattern; `None` and the explicit
      wildcards give the same list. */
  lemma MakePatternsDefault()
    ensures MakePatterns(None, None, false, false, false, false)
      == ["S1*.SAFE/manifest.safe", "S1*.SAFE/annotation/s1?-*-???-??-*.xml"]
    ensures MakePatterns(Some("*"), Some("??"), false, false, false, false)
      == MakePatterns(None, None, false, false, false, false)
  {
    DefaultAnnotationPattern();
  }

  lemma DefaultTail()
    ensures Tail(AnyBeam, AnyPol) == "s1?-*-???-??-*.xml"
  {
  }

  lemma DefaultAnnotationPattern()
    ensures AnnotationPattern("*", "??") == "S1*.SAFE/annotation/s1?-*-???-??-*.xml"
  {
    DefaultTail();
    assert AnnotationDir + "/" == "S1*.SAFE/annotation/";
  }

  lemma AnnotationMentions(b: string, p: string)
    ensures IsSubstring(b, AnnotationPattern(b, p)) && IsSubstring(p, AnnotationPattern(b, p))
  {
    assert AnnotationPattern(b, p) == (AnnotationDir + "/s1?-") + b + ("-???-" + p + "-*.xml");
    SubstringOfConcat(AnnotationDir + "/s1?-", b, "-???-" + p + "-*.xml");
    assert AnnotationPattern(b, p) == (AnnotationDir + "/s1?-" + b + "-???-") + p + "-*.xml";
    SubstringOfConcat(AnnotationDir + "/s1?-" + b + "-???-", p, "-*.xml");
  }

  lemma CalibrationMentions(b: string, p: string)
    ensures IsSubstring("cal", CalibrationPattern(b, p))
  {
    var t := Tail(b, p);
    assert "/calibration/calibration-" == "/" + "cal" + "ibration/calibration-";
    assert CalibrationPattern(b, p) == (AnnotationDir + "/") + "cal" + ("ibration/calibration-" + t);
    SubstringOfConcat(AnnotationDir + "/", "cal", "ibration/calibration-" + t);
  }

  lemma NoiseMentions(b: string, p: string)
    ensures IsSubstring("noise", NoisePattern(b, p))
  {
    var t := Tail(b, p);
    assert "/calibration/noise-" == "/calibration/" + "noise" + "-";
    assert NoisePattern(b, p) == (AnnotationDir + "/calibration/") + "noise" + ("-" + t);
    SubstringOfConcat(AnnotationDir + "/calibration/", "noise", "-" + t);
  }

  lemma RfiMentions(b: string, p: string)
    ensures IsSubstring("rfi", RfiPattern(b, p))
  {
    var t := Tail(b, p);
    assert "/rfi/rfi-" == "/" + "rfi" + "/rfi-";
    assert RfiPattern(b, p) == (AnnotationDir + "/") + "rfi" + ("/rfi-" + t);
    SubstringOfConcat(AnnotationDir + "/", "rfi", "/rfi-" + t);
  }

  lemma MeasurementMentions(b: string, p: string)
    ensures IsSubstring("tiff", MeasurementPattern(b, p))
    ensures IsSubstring("measurement", MeasurementPattern(b, p))
  {
    MeasurementMentionsTiff(b, p);
    MeasurementMentionsDir(b, p);
  }

  lemma MeasurementMentionsTiff(b: string, p: string)
    ensures IsSubstring("tiff", MeasurementPattern(b, p))
  {
    var head := "S1*.SAFE/measurement/s1?-" + b + "-???-" + p;
    assert "-*.tiff" == "-*." + "tiff";
    assert MeasurementPattern(b, p) == (head + "-*.") + "tiff" + [];
    SubstringOfConcat(head + "-*.", "tiff", []);
  }

  lemma MeasurementMentionsDir(b: string, p: string)
    ensures IsSubstring("measurement", MeasurementPattern(b, p))
  {
    assert "S1*.SAFE/measurement/s1?-" == "S1*.SAFE/" + "measurement" + "/s1?-";
    assert MeasurementPattern(b, p) == "S1*.SAFE/" + "measurement" + ("/s1?-" + b + "-???-" + p + "-*.tiff");
    SubstringOfConcat("S1*.SAFE/", "measurement", "/s1?-" + b + "-???-" + p + "-*.tiff");
  }

  /** A given beam and polarisation appear in the annotation pattern, and each
      optional pattern names what it selects. */
  lemma MakePatternsMentions(beam: Option<string>, pol: Option<string>,
                             cal: bool, noise: bool, rfi: bool, data: bool)
    ensures var r := MakePatterns(beam, pol, cal, noise, rfi, data);
      && (beam.Some? ==> IsSubstring(beam.value, r[1]))
      && (pol.Some? ==> IsSubstring(pol.value, r[1]))
      && (cal ==> exists q :: q in r && IsSubstring("cal", q))
      && (noise ==> exists q :: q in r && IsSubstring("noise", q))
      && (rfi ==> exists q :: q in r && IsSubstring("rfi", q))
      && (data ==> exists q :: q in r && IsSubstring("tiff", q))
      && (data ==> exists q :: q in r && IsSubstring("measurement", q))
  {
    var b, p := beam.GetOr(AnyBeam), pol.GetOr(AnyPol);
    MakePatternsItems(beam, pol, cal, noise, rfi, data);
    AnnotationMentions(b, p);
    CalibrationMentions(b, p);
    NoiseMentions(b, p);
    RfiMentions(b, p);
    MeasurementMentions(b, p);
  }

  lemma BracketFreeTail(b: string, p: string)
    requires BracketFree(b) && BracketFree(p)
    ensures BracketFree(Tail(b, p))
  {
    BracketFreeConcat("s1?-", b);
    BracketFreeConcat("s1?-" + b, "-???-");
    BracketFreeConcat("s1?-" + b + "-???-", p);
    BracketFreeConcat("s1?-" + b + "-???-" + p, "-*.xml");
  }

  lemma BracketFreeOptional(b: string, p: string)
    requires BracketFree(b) && BracketFree(p)
    ensures BracketFree(CalibrationPattern(b, p)) && BracketFree(NoisePattern(b, p)) && BracketFree(RfiPattern(b, p))
  {
    BracketFreeTail(b, p);
    BracketFreeConcat(AnnotationDir + "/calibration/calibration-", Tail(b, p));
    BracketFreeConcat(AnnotationDir + "/calibration/noise-", Tail(b, p));
    BracketFreeConcat(AnnotationDir + "/rfi/rfi-", Tail(b, p));
  }

  lemma BracketFreeMeasurement(b: string, p: string)
    requires BracketFree(b) && BracketFree(p)
    ensures BracketFree(MeasurementPattern(b, p))
  {
    BracketFreeConcat("S1*.SAFE/measurement/s1?-", b);
    BracketFreeConcat("S1*.SAFE/measurement/s1?-" + b, "-???-");
    BracketFreeConcat("S1*.SAFE/measurement/s1?-" + b + "-???-", p);
    BracketFreeConcat("S1*.SAFE/measurement/s1?-" + b + "-???-" + p, "-*.tiff");
  }

  lemma BracketFreeData(b: string, p: string)
    requires BracketFree(b) && BracketFree(p)
    ensures BracketFree(DataPattern(b, p))
  {
    BracketFreeConcat("S1*.SAFE/s1?-", b);
    BracketFreeConcat("S1*.SAFE/s1?-" + b, "-???-?-");
    BracketFreeConcat("S1*.SAFE/s1?-" + b + "-???-?-", p);
    BracketFreeConcat("S1*.SAFE/s1?-" + b + "-???-?-" + p, "-*.dat");
  }

  lemma BracketFreeAll(b: string, p: string)
    requires BracketFree(b) && BracketFree(p)
    ensures forall i :: 0 <= i < |AllPatterns(b, p)| ==> BracketFree(AllPatterns(b, p)[i])
  {
    BracketFreeTail(b, p);
    BracketFreeConcat(AnnotationDir + "/", Tail(b, p));
    BracketFreeOptional(b, p);
    BracketFreeMeasurement(b, p);
    BracketFreeData(b, p);
  }

  /** Without `[` in the beam and the polarisation, no generated pattern holds a
      bracket expression, so every one of them is within the scope of `Match`. */
  lemma MakePatternsBracketFree(beam: Option<string>, pol: Option<string>,
                                cal: bool, noise: bool, rfi: bool, data: bool)
    requires beam.Some? ==> BracketFree(beam.value)
    requires pol.Some? ==> BracketFree(pol.value)
    ensures forall q :: q in MakePatterns(beam, pol, cal, noise, rfi, data) ==> BracketFree(q)
  {
    var b, p := beam.GetOr(AnyBeam), pol.GetOr(AnyPol);
    var all := AllPatterns(b, p);
    BracketFreeAll(b, p);
    MakePatternsAsPick(beam, pol, cal, noise, rfi, data);
    PickItems([true, true] + [cal, noise, rfi, data, data], all);
  }

  /** The name of an annotation file inside a product archive:
      `S1<product>.SAFE/annotation/s1<mission>-<swath>-<type>-<pol>-<rest>.xml`. */
  function AnnotationName(product: string, mission: char, swath: string, kind: string,
                          polName: string, rest: string): string {
    "S1" + product + ".SAFE/annotation/s1" + [mission] + "-" + swath + "-" + kind + "-" + polName + "-" + rest + ".xml"
  }

  /** The directory part of an annotation name matches that of the pattern. */
  lemma MissionPrefixMatches(product: string)
    ensures BracketFree("S1" + "*") && Match("S1" + product, "S1" + "*")
  {
    MatchLiteral("S1", "S1");
    MatchStar(product);
    MatchConcat("S1", product, "S1", "*");
  }

  lemma SafeDirMatches(n: string)
    requires BracketFree("S1" + "*") && Match(n, "S1" + "*")
    ensures BracketFree("S1" + "*" + ".SAFE/annotation/s1")
    ensures Match(n + ".SAFE/annotation/s1", "S1" + "*" + ".SAFE/annotation/s1")
  {
    SafeSuffixMatches();
    MatchConcat(n, ".SAFE/annotation/s1", "S1" + "*", ".SAFE/annotation/s1");
  }

  lemma SafeSuffixMatches()
    ensures BracketFree(".SAFE/annotation/s1")
    ensures Match(".SAFE/annotation/s1", ".SAFE/annotation/s1")
  {
    assert Literal(".SAFE/") && Literal("annotation/s1");
    LiteralConcat(".SAFE/", "annotation/s1");
    MatchLiteral(".SAFE/annotation/s1", ".SAFE/annotation/s1");
  }

  lemma ProductDirMatches(product: string)
    ensures BracketFree("S1*.SAFE/annotation/s1")
    ensures Match("S1" + product + ".SAFE/annotation/s1", "S1*.SAFE/annotation/s1")
  {
    MissionPrefixMatches(product);
    SafeDirMatches("S1" + product);
    assert "S1" + "*" + ".SAFE/annotation/s1" == "S1*.SAFE/annotation/s1";
  }

  lemma AnnotationHeadMatches(product: string, mission: char)
    ensures BracketFree(AnnotationDir + "/s1?-")
    ensures Match("S1" + product + ".SAFE/annotation/s1" + [mission] + "-", AnnotationDir + "/s1?-")
  {
    var n := "S1" + product + ".SAFE/annotation/s1";
    ProductDirMatches(product);
    MatchAllAny([mission], "?");
    MatchLiteral("-", "-");
    MatchConcat([mission], "-", "?", "-");
    MatchConcat(n, [mission] + "-", "S1*.SAFE/annotation/s1", "?" + "-");
    assert "S1*.SAFE/annotation/s1" + ("?" + "-") == AnnotationDir + "/s1?-";
    assert n + ([mission] + "-") == n + [mission] + "-";
  }

  /** `-<type>-` matches `-???-` for a three-letter product type. */
  lemma AnnotationTypeMatches(kind: string)
    requires |kind| == 3
    ensures BracketFree("-???-") && Match("-" + kind + "-", "-???-")
  {
    MatchAllAny(kind, "???");
    MatchLiteral("-", "-");
    MatchConcat("-", kind, "-", "???");
    assert "-" + "???" == "-???";
    MatchConcat("-" + kind, "-", "-???", "-");
    assert "-???" + "-" == "-???-";
  }

  /** `-<rest>.xml` matches `-*.xml`. */
  lemma AnnotationEndMatches(rest: string)
    ensures BracketFree("-*.xml") && Match("-" + rest + ".xml", "-*.xml")
  {
    MatchLiteral("-", "-");
    MatchStar(rest);
    MatchConcat("-", rest, "-", "*");
    MatchLiteral(".xml", ".xml");
    assert "-" + "*" == "-*";
    MatchConcat("-" + rest, ".xml", "-*", ".xml");
    assert "-*" + ".xml" == "-*.xml";
  }

  /** The annotation pattern selects every annotation file of every product whose
      swath matches the beam and whose polarisation matches the polarisation
      pattern; with the defaults that is every swath and every two-letter
      polarisation. */
  lemma AnnotationPatternSelects(product: string, mission: char, swath: string, kind: string,
                                 polName: string, rest: string, beam: string, pol: string)
    requires |kind| == 3
    requires BracketFree(beam) && BracketFree(pol)
    requires Match(swath, beam) && Match(polName, pol)
    ensures BracketFree(AnnotationPattern(beam, pol))
    ensures Match(AnnotationName(product, mission, swath, kind, polName, rest), AnnotationPattern(beam, pol))
  {
    var head := "S1" + product + ".SAFE/annotation/s1" + [mission] + "-";
    AnnotationHeadMatches(product, mission);
    AnnotationTypeMatches(kind);
    AnnotationEndMatches(rest);
    MatchConcat(head, swath, AnnotationDir + "/s1?-", beam);
    MatchConcat(head + swath, "-" + kind + "-", AnnotationDir + "/s1?-" + beam, "-???-");
    MatchConcat(head + swath + ("-" + kind + "-"), polName, AnnotationDir + "/s1?-" + beam + "-???-", pol);
    MatchConcat(head + swath + ("-" + kind + "-") + polName, "-" + rest + ".xml",
                AnnotationDir + "/s1?-" + beam + "-???-" + pol, "-*.xml");
    AnnotationPatternParts(beam, pol);
    AnnotationNameParts(product, mission, swath, kind, polName, rest);
  }

  lemma AnnotationPatternParts(beam: string, pol: string)
    ensures AnnotationDir + "/s1?-" + beam + "-???-" + pol + "-*.xml" == AnnotationPattern(beam, pol)
  {
    assert AnnotationDir + "/s1?-" == AnnotationDir + "/" + "s1?-";
  }

  lemma AnnotationNameParts(product: string, mission: char, swath: string, kind: string,
                            polName: string, rest: string)
    ensures "S1" + product + ".SAFE/annotation/s1" + [mission] + "-" + swath + ("-" + kind + "-")
            + polName + ("-" + rest + ".xml")
        == AnnotationName(product, mission, swath, kind, polName, rest)
  {
  }

  /** With the default wildcards, every annotation file with a two-letter
      polarisation is selected, whatever its swath. */
  lemma DefaultAnnotationPatternSelects(product: string, mission: char, swath: string, kind: string,
                                        polName: string, rest: string)
    requires |kind| == 3 && |polName| == 2
    ensures BracketFree(AnnotationPattern(AnyBeam, AnyPol))
    ensures Match(AnnotationName(product, mission, swath, kind, polName, rest), AnnotationPattern(AnyBeam, AnyPol))
  {
    MatchStar(swath);
    MatchAllAny(polName, "??");
    AnnotationPatternSelects(product, mission, swath, kind, polName, rest, AnyBeam, AnyPol);
  }
}
