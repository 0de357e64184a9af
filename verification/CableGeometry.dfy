/** Cleaning of submarine cable geometry: scripts/sanitize_submarine_cables.py. */
module CableGeometry {
  import opened LineRuns
  import opened KeyedBest
  import opened Text

  datatype Point = Point(lon: real, lat: real)

  type Line = seq<Point>

  /** How much of the way between two points lies on land, as a share of its length. */
  type Land = (Point, Point) -> real

  // ---- cutting one line ----

  function LonJump(a: Point, b: Point): (d: real)
    ensures d <= 180.0
  {
    var d := if b.lon < a.lon then a.lon - b.lon else b.lon - a.lon;
    if d < 360.0 - d then d else 360.0 - d
  }

  const NO_JUMP: Edge<Point> := (a: Point, b: Point) => LonJump(a, b) <= 90.0

  function Overlap(a: Point, b: Point, land: Land): real { if a == b then 0.0 else land(a, b) }

  function AtSea(land: Land): Edge<Point> { (a: Point, b: Point) => Overlap(a, b, land) <= 0.12 }

  /** An edge worth drawing. */
  function Drawable(land: Land): Edge<Point> { Both(NO_JUMP, AtSea(land)) }

  /** `split_at_jumps`; a single point is passed on as it is. */
  function Split(coords: Line): seq<Line> { if |coords| == 1 then [coords] else Runs(coords, NO_JUMP) }

  /** The segments that are lines. */
  function Lines(segments: seq<Line>): seq<Line> {
    if segments == [] then [] else Lines(segments[..|segments| - 1]) + Keep(segments[|segments| - 1])
  }

  /** All segments but the last are finished, the last is open. */
  ghost predicate Splitting(segments: seq<Line>, c: Cut<Point>) {
    && segments != []
    && Lines(segments[..|segments| - 1]) == c.closed
    && segments[|segments| - 1] == c.open
  }

  lemma SplittingEnds(segments: seq<Line>, c: Cut<Point>)
    requires Splitting(segments, c)
    ensures Lines(segments) == Finish(c)
  {
  }

  /** The loop step: a jump starts a new segment, anything else makes the last one longer. */
  lemma SplitStep(segments: seq<Line>, c: Cut<Point>, x: Point)
    requires Splitting(segments, c) && c.open != []
    ensures var last := |segments| - 1;
            Splitting(if NO_JUMP(c.open[|c.open| - 1], x) then segments[last := segments[last] + [x]]
              else segments + [[x]],
                      Extend(c, x, NO_JUMP))
  {
    var last := |segments| - 1;
    assert segments[last := segments[last] + [x]][..last] == segments[..last];
    assert (segments + [[x]])[..|segments|] == segments;
  }

  method SplitAtJumps(coords: Line) returns (lines: seq<Line>)
    ensures lines == Split(coords)
  {
    if |coords| < 2 {
      return if coords != [] then [coords] else [];
    }
    var segments := [[coords[0]]];
    for i := 1 to |coords|
      invariant Splitting(segments, CutUpTo(coords, NO_JUMP, i))
    {
      var last := |segments| - 1;
      var prev := segments[last][|segments[last]| - 1];
      SplitStep(segments, CutUpTo(coords, NO_JUMP, i), coords[i]);
      if LonJump(prev, coords[i]) > 90.0 {
        segments := segments + [[coords[i]]];
      } else {
        segments := segments[last := segments[last] + [coords[i]]];
      }
    }
    SplittingEnds(segments, CutUpTo(coords, NO_JUMP, |coords|));
    lines := Lines(segments);
  }

  /** The loop always holds the point it stands on: the restart branch is never taken. */
  method FilterLandSegments(coords: Line, land: Land) returns (parts: seq<Line>)
    ensures parts == Runs(coords, AtSea(land))
  {
    if |coords| < 2 { return []; }
    parts := [];
    var current := [coords[0]];
    for i := 1 to |coords|
      invariant Cut(parts, current) == CutUpTo(coords, AtSea(land), i)
    {
      var a, b := coords[i - 1], coords[i];
      if Overlap(a, b, land) <= 0.12 {
        if current[|current| - 1] != a {
          assert false;
        }
        current := current + [b];
      } else {
        if |current| >= 2 {
          parts := parts + [current];
        }
        current := [b];
      }
    }
    if |current| >= 2 {
      parts := parts + [current];
    }
  }

  /** The two stages as the program runs them. */
  function TwoStages(part: Line, land: Land): seq<Line> { AllRuns(Split(part), AtSea(land)) }

  /** Splitting at jumps and then dropping land segments is one pass over the line. */
  lemma PipelineIsOnePass(part: Line, land: Land)
    ensures TwoStages(part, land) == Runs(part, Drawable(land))
  {
    if |part| == 1 {
      AllRunsSnoc([], part, AtSea(land));
      assert [] + [part] == [part];
    } else {
      Fusion(part, NO_JUMP, AtSea(land));
    }
  }

  // ---- geometries ----

  datatype Geometry = Missing | LineString(coords: Line) | MultiLineString(lines: seq<Line>) | Other

  function IterParts(g: Geometry): seq<Line> {
    match g
    case LineString(c) => [c]
    case MultiLineString(ls) => ls
    case _ => []
  }

  function PartsToGeometry(parts: seq<Line>): Geometry {
    if parts == [] then Missing else if |parts| == 1 then LineString(parts[0]) else MultiLineString(parts)
  }

  /** The parts survive the trip through a geometry, and the geometry is missing only when they are. */
  lemma GeometryRoundTrip(parts: seq<Line>)
    ensures IterParts(PartsToGeometry(parts)) == parts
    ensures PartsToGeometry(parts) == Missing <==> parts == []
    ensures PartsToGeometry(IterParts(PartsToGeometry(parts))) == PartsToGeometry(parts)
  {
    if |parts| == 1 { assert parts == [parts[0]]; }
  }

  function CleanParts(parts: seq<Line>, land: Land): seq<Line> { AllRuns(parts, Drawable(land)) }

  /** A cleaned geometry: every part has two points or more and only drawable edges, every drawable edge
      of the input is there once and in order, and cleaning again changes nothing. */
  lemma CleanGeometryIsSound(parts: seq<Line>, land: Land)
    ensures var out := CleanParts(parts, land);
            && (forall k :: 0 <= k < |out| ==> AllGood(out[k], Drawable(land)))
            && EdgesOfAll(out) == GoodEdgesOfFirst(parts, Drawable(land), |parts|)
            && CleanParts(out, land) == out
  {
    var out := CleanParts(parts, land);
    AllRunsAreGood(parts, Drawable(land), |parts|);
    AllRunsKeepGoodEdges(parts, Drawable(land), |parts|);
    GoodPartsAreFixed(out, Drawable(land), |out|);
    assert out[..|out|] == out;
  }

  /** The two nested loops of `sanitize`. */
  method CleanLines(parts: seq<Line>, land: Land) returns (out: seq<Line>)
    ensures out == CleanParts(parts, land)
  {
    out := [];
    for i := 0 to |parts|
      invariant out == RunsOfAll(parts, Drawable(land), i)
    {
      var kept := CleanLine(parts[i], land);
      out := out + kept;
    }
  }

  method CleanLine(part: Line, land: Land) returns (out: seq<Line>)
    ensures out == Runs(part, Drawable(land))
  {
    var pieces := SplitAtJumps(part);
    out := [];
    for j := 0 to |pieces|
      invariant out == RunsOfAll(pieces, AtSea(land), j)
    {
      var kept := FilterLandSegments(pieces[j], land);
      out := out + kept;
    }
    PipelineIsOnePass(part, land);
  }

  // ---- features ----

  /** `name` is the raw name property, `properties` the others. */
  datatype Feature = Feature(name: string, properties: nat, geometry: Geometry)

  const SYNTHETIC: set<string> := {
    "SEA-ME-WE Corridor", "Trans-Atlantic North", "Trans-Atlantic South", "WACS / SAT-3 Corridor",
    "EASSy / SEACOM", "East Asia Corridor", "Asia-Australia", "Trans-Pacific", "South Atlantic"
  }

  function CountPoints(parts: seq<Line>, n: nat): nat
    requires n <= |parts|
  {
    if n == 0 then 0 else CountPoints(parts, n - 1) + |parts[n - 1]|
  }

  function Points(f: Feature): nat { CountPoints(IterParts(f.geometry), |IterParts(f.geometry)|) }

  const HAS_MORE_POINTS := (a: Feature, b: Feature) => Points(a) > Points(b)

  const BY_NAME: Rule<Feature, string> := Rule((f: Feature) => Strip(f.name), "", HAS_MORE_POINTS)

  /** A feature whose name is empty or synthetic is passed over. */
  const UNWANTED := (f: Feature) => Strip(f.name) == "" || Strip(f.name) in SYNTHETIC

  function Cleaned(f: Feature, land: Land): Feature {
    f.(geometry := PartsToGeometry(CleanParts(IterParts(f.geometry), land)))
  }

  function Cleaner(land: Land): Feature -> Feature { f => Cleaned(f, land) }

  predicate Survives(f: Feature, unwanted: Feature -> bool, land: Land) {
    !unwanted(f) && f.geometry != Missing && Cleaned(f, land).geometry != Missing
  }

  function Survivor(unwanted: Feature -> bool, land: Land): Feature -> bool { f => Survives(f, unwanted, land) }

  /** The changed version of each kept one among the first `n`. */
  function Selected<T>(all: seq<T>, kept: T -> bool, change: T -> T, n: nat): seq<T>
    requires n <= |all|
  {
    if n == 0 then []
    else Selected(all, kept, change, n - 1) + if kept(all[n - 1]) then [change(all[n - 1])] else []
  }

  function SurvivorsUpTo(features: seq<Feature>, unwanted: Feature -> bool, land: Land, n: nat): seq<Feature>
    requires n <= |features|
  {
    Selected(features, Survivor(unwanted, land), Cleaner(land), n)
  }

  /** The cleaned features, in their order. */
  function Survivors(features: seq<Feature>, unwanted: Feature -> bool, land: Land): seq<Feature> {
    SurvivorsUpTo(features, unwanted, land, |features|)
  }

  /** `sanitize` */
  function Sanitized(features: seq<Feature>, land: Land): seq<Feature> {
    Slots(Survivors(features, UNWANTED, land), BY_NAME)
  }

  ghost predicate IgnoresGeometry<K>(of: Feature -> K) {
    forall f: Feature, g: Geometry :: of(f.(geometry := g)) == of(f)
  }

  /** The name that keys a feature is untouched by cleaning, and an unwanted feature is the only one
      without a key. */
  ghost predicate NamesFeatures<K>(r: Rule<Feature, K>, unwanted: Feature -> bool) {
    && r.beats == HAS_MORE_POINTS
    && IgnoresGeometry(r.key)
    && (forall f: Feature :: r.key(f) == r.none ==> unwanted(f))
  }

  /** The loop of `sanitize`. The dictionary `by_name` is its list of values in insertion order with the
      place of every key. */
  method SanitizeBy<K(==, !new)>(features: seq<Feature>, unwanted: Feature -> bool, land: Land, r: Rule<Feature, K>)
    returns (values: seq<Feature>)
    requires NamesFeatures(r, unwanted)
    ensures values == Slots(Survivors(features, unwanted, land), r)
  {
    values := [];
    var places: map<K, nat> := map[];
    for i := 0 to |features|
      invariant InStep(values, places, SurvivorsUpTo(features, unwanted, land, i), r)
    {
      var f := features[i];
      SurvivorsStep(features, unwanted, land, i);
      if unwanted(f) { continue; }
      if f.geometry == Missing { continue; }
      var parts := CleanLines(IterParts(f.geometry), land);
      var geometry := PartsToGeometry(parts);
      if geometry == Missing { continue; }
      values, places := Offer(values, places, f.(geometry := geometry), parts, r,
                              SurvivorsUpTo(features, unwanted, land, i));
    }
  }

  lemma SurvivorsStep(features: seq<Feature>, unwanted: Feature -> bool, land: Land, n: nat)
    requires n < |features|
    ensures SurvivorsUpTo(features, unwanted, land, n + 1)
            == if Survives(features[n], unwanted, land)
               then SurvivorsUpTo(features, unwanted, land, n) + [Cleaned(features[n], land)]
               else SurvivorsUpTo(features, unwanted, land, n)
  {
  }

  /** Enters one cleaned feature into the dictionary. */
  method Offer<K(==, !new)>(values: seq<Feature>, places: map<K, nat>, cleaned: Feature, parts: seq<Line>,
                            r: Rule<Feature, K>, ghost done: seq<Feature>)
    returns (values': seq<Feature>, places': map<K, nat>)
    requires InStep(values, places, done, r) && r.beats == HAS_MORE_POINTS && r.key(cleaned) != r.none
    requires cleaned.geometry == PartsToGeometry(parts)
    ensures InStep(values', places', done + [cleaned], r)
  {
    values', places' := values, places;
    var name := r.key(cleaned);
    if name !in places {
      StepNew(values, places, done, cleaned, r);
      return values + [cleaned], places[name := |values|];
    }
    StepRival(values, places, done, cleaned, r);
    GeometryRoundTrip(parts);
    var existing := IterParts(values[places[name]].geometry);
    if CountPoints(parts, |parts|) > CountPoints(existing, |existing|) {
      values' := values[places[name] := cleaned];
    }
  }

  method Sanitize(features: seq<Feature>, land: Land) returns (values: seq<Feature>)
    ensures values == Sanitized(features, land)
  {
    values := SanitizeBy(features, UNWANTED, land, BY_NAME);
  }

  // ---- what sanitize selects ----

  lemma MorePointsIsOrder()
    ensures StrictWeakOrder(HAS_MORE_POINTS)
  {
    StrictWeakOrderByRank(HAS_MORE_POINTS, Points, (m: nat, n: nat) => m > n);
  }

  /** Sanitising this feature alone gives it back. */
  ghost predicate IsClean(f: Feature, unwanted: Feature -> bool, land: Land) {
    Survives(f, unwanted, land) && Cleaned(f, land) == f
  }

  lemma CleanedIsClean(f: Feature, unwanted: Feature -> bool, land: Land)
    requires Survives(f, unwanted, land) && IgnoresGeometry(unwanted)
    ensures IsClean(Cleaned(f, land), unwanted, land)
  {
    var parts := CleanParts(IterParts(f.geometry), land);
    GeometryRoundTrip(parts);
    CleanGeometryIsSound(IterParts(f.geometry), land);
    assert unwanted(f.(geometry := Cleaned(f, land).geometry)) == unwanted(f);
  }

  lemma {:induction false} SelectedAreChanged<T>(all: seq<T>, kept: T -> bool, change: T -> T, n: nat, i: nat)
    returns (j: nat)
    requires n <= |all| && i < |Selected(all, kept, change, n)|
    ensures j < n && kept(all[j]) && Selected(all, kept, change, n)[i] == change(all[j])
  {
    if i < |Selected(all, kept, change, n - 1)| {
      j := SelectedAreChanged(all, kept, change, n - 1, i);
    } else {
      j := n - 1;
    }
  }

  lemma {:induction false} SelectingAgain<T>(all: seq<T>, kept: T -> bool, change: T -> T, n: nat)
    requires n <= |all| && forall i :: 0 <= i < |all| ==> kept(all[i]) && change(all[i]) == all[i]
    ensures Selected(all, kept, change, n) == all[..n]
  {
    if n > 0 {
      SelectingAgain(all, kept, change, n - 1);
      assert all[..n - 1] + [all[n - 1]] == all[..n];
    }
  }

  ghost predicate AllClean(features: seq<Feature>, unwanted: Feature -> bool, land: Land) {
    forall i :: 0 <= i < |features| ==> IsClean(features[i], unwanted, land)
  }

  lemma SurvivorsAreClean(features: seq<Feature>, unwanted: Feature -> bool, land: Land)
    requires IgnoresGeometry(unwanted)
    ensures AllClean(Survivors(features, unwanted, land), unwanted, land)
  {
    var s := Survivors(features, unwanted, land);
    forall i | 0 <= i < |s| ensures IsClean(s[i], unwanted, land) {
      var j := SelectedAreChanged(features, Survivor(unwanted, land), Cleaner(land), |features|, i);
      CleanedIsClean(features[j], unwanted, land);
    }
  }

  lemma CleanSurvive(features: seq<Feature>, unwanted: Feature -> bool, land: Land)
    requires AllClean(features, unwanted, land)
    ensures Survivors(features, unwanted, land) == features
  {
    forall i | 0 <= i < |features|
      ensures Survivor(unwanted, land)(features[i]) && Cleaner(land)(features[i]) == features[i]
    {
      assert IsClean(features[i], unwanted, land);
    }
    SelectingAgain(features, Survivor(unwanted, land), Cleaner(land), |features|);
    assert features[..|features|] == features;
  }

  // ---- for any way of naming features ----

  lemma CleanHasKey<K>(f: Feature, unwanted: Feature -> bool, land: Land, r: Rule<Feature, K>)
    requires IsClean(f, unwanted, land) && NamesFeatures(r, unwanted)
    ensures r.key(f) != r.none
  {
  }

  lemma CleanHaveKeys<K>(s: seq<Feature>, unwanted: Feature -> bool, land: Land, r: Rule<Feature, K>)
    requires AllClean(s, unwanted, land) && NamesFeatures(r, unwanted)
    ensures forall i :: 0 <= i < |s| ==> r.key(s[i]) != r.none
  {
    forall i | 0 <= i < |s| ensures r.key(s[i]) != r.none {
      CleanHasKey(s[i], unwanted, land, r);
    }
  }

  /** `w` has the most points among the survivors named `k`, and it is the first such. */
  ghost predicate IsBest<K>(s: seq<Feature>, r: Rule<Feature, K>, k: K, w: int) {
    && 0 <= w < |s| && r.key(s[w]) == k
    && (forall j :: 0 <= j < |s| && r.key(s[j]) == k ==> Points(s[j]) <= Points(s[w]))
    && (forall j :: 0 <= j < w && r.key(s[j]) == k ==> Points(s[j]) < Points(s[w]))
  }

  lemma SelectsBestBy<K(!new)>(
        features: seq<Feature>, unwanted: Feature -> bool, land: Land, r: Rule<Feature, K>, i: nat)
    returns (w: nat)
    requires NamesFeatures(r, unwanted) && IgnoresGeometry(unwanted)
    requires i < |Slots(Survivors(features, unwanted, land), r)|
    ensures var s, out := Survivors(features, unwanted, land), Slots(Survivors(features, unwanted, land), r);
            IsBest(s, r, r.key(out[i]), w) && out[i] == s[w]
  {
    var s := Survivors(features, unwanted, land);
    var out := Slots(s, r);
    MorePointsIsOrder();
    SlotsFaithful(s, r);
    SurvivorsAreClean(features, unwanted, land);
    CleanHaveKeys(s, unwanted, land, r);
    NoneKeyless(s, r, |s|);
    KeylessIff(out, r, out[i]);
    var v :| IsWinner(s, r, r.key(out[i]), v) && out[i] == s[v];
    w := v;
  }

  lemma SlotsAreClean<K(!new)>(features: seq<Feature>, unwanted: Feature -> bool, land: Land, r: Rule<Feature, K>)
    requires NamesFeatures(r, unwanted) && IgnoresGeometry(unwanted)
    ensures AllClean(Slots(Survivors(features, unwanted, land), r), unwanted, land)
  {
    var s := Survivors(features, unwanted, land);
    var out := Slots(s, r);
    SurvivorsAreClean(features, unwanted, land);
    forall i | 0 <= i < |out| ensures IsClean(out[i], unwanted, land) {
      var w := SelectsBestBy(features, unwanted, land, r, i);
    }
  }

  lemma IdempotentBy<K(!new)>(features: seq<Feature>, unwanted: Feature -> bool, land: Land, r: Rule<Feature, K>)
    requires NamesFeatures(r, unwanted) && IgnoresGeometry(unwanted)
    ensures var once := Slots(Survivors(features, unwanted, land), r);
            Slots(Survivors(once, unwanted, land), r) == once
  {
    var s := Survivors(features, unwanted, land);
    MorePointsIsOrder();
    SlotsFaithful(s, r);
    SlotsAreClean(features, unwanted, land, r);
    CleanSurvive(Slots(s, r), unwanted, land);
    SlotsOfDistinct(Slots(s, r), r);
  }

  // ---- for the program's names ----

  lemma ByNameNames()
    ensures NamesFeatures(BY_NAME, UNWANTED) && IgnoresGeometry(UNWANTED)
  {
  }

  /** Every feature of the result is the earliest of those survivors of its name that have the most points. */
  lemma SanitizeSelectsTheBest(features: seq<Feature>, land: Land, i: nat) returns (w: nat)
    requires i < |Sanitized(features, land)|
    ensures IsBest(Survivors(features, UNWANTED, land), BY_NAME, Strip(Sanitized(features, land)[i].name), w)
    ensures Sanitized(features, land)[i] == Survivors(features, UNWANTED, land)[w]
  {
    ByNameNames();
    w := SelectsBestBy(features, UNWANTED, land, BY_NAME, i);
  }

  /** One feature for every surviving name. */
  lemma SanitizeCoversEveryName(features: seq<Feature>, land: Land)
    ensures DistinctKeys(Sanitized(features, land), BY_NAME)
    ensures forall name :: name != "" ==>
              (HasKey(Sanitized(features, land), BY_NAME, name) <==>
               HasKey(Survivors(features, UNWANTED, land), BY_NAME, name))
  {
    MorePointsIsOrder();
    SlotsFaithful(Survivors(features, UNWANTED, land), BY_NAME);
  }

  lemma NamedBy<K(!new)>(features: seq<Feature>, unwanted: Feature -> bool, land: Land, r: Rule<Feature, K>, i: nat)
    requires NamesFeatures(r, unwanted) && IgnoresGeometry(unwanted)
    requires i < |Slots(Survivors(features, unwanted, land), r)|
    ensures r.key(Slots(Survivors(features, unwanted, land), r)[i]) != r.none
  {
    SlotsAreClean(features, unwanted, land, r);
    assert IsClean(Slots(Survivors(features, unwanted, land), r)[i], unwanted, land);
  }

  /** The features come in the order in which their names first survive. */
  lemma SanitizeKeepsOrder(features: seq<Feature>, land: Land, i: nat, j: nat)
    requires i < j < |Sanitized(features, land)|
    ensures var s, out := Survivors(features, UNWANTED, land), Sanitized(features, land);
            var a, b := Strip(out[i].name), Strip(out[j].name);
            && HasKey(s, BY_NAME, a) && HasKey(s, BY_NAME, b)
            && FirstWith(s, BY_NAME, a, |s|) < FirstWith(s, BY_NAME, b, |s|)
  {
    ByNameNames();
    NamedBy(features, UNWANTED, land, BY_NAME, i);
    NamedBy(features, UNWANTED, land, BY_NAME, j);
    SlotsFollowFirstOccurrence(Survivors(features, UNWANTED, land), BY_NAME, i, j);
  }

  /** Sanitising twice is sanitising once. */
  lemma SanitizeIsIdempotent(features: seq<Feature>, land: Land)
    ensures Sanitized(Sanitized(features, land), land) == Sanitized(features, land)
  {
    ByNameNames();
    IdempotentBy(features, UNWANTED, land, BY_NAME);
  }
}
