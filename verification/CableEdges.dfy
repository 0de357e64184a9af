/** Which edges of a cable are drawn, in degrees and in shares of land. */
module CableEdges {
  import opened LineRuns
  import opened KeyedBest
  import opened Text
  import opened CableGeometry

  function Abs(x: real): real { if x < 0.0 then -x else x }

  /** Going `k` times around, the way from `a` to `b` spans at most 90 degrees of longitude. */
  predicate Near(a: Point, b: Point, k: int) { Abs(b.lon + 360.0 * k as real - a.lon) <= 90.0 }

  predicate OnGlobe(p: Point) { -180.0 <= p.lon <= 180.0 }

  /** An edge is no jump exactly if the way is short directly or across the antimeridian, in either direction. */
  lemma NoJumpIff(a: Point, b: Point)
    requires OnGlobe(a) && OnGlobe(b)
    ensures NO_JUMP(a, b) <==> exists k :: -1 <= k <= 1 && Near(a, b, k)
  {
    assert Near(a, b, 0) <==> -90.0 <= b.lon - a.lon <= 90.0;
    assert Near(a, b, 1) <==> b.lon - a.lon <= -270.0;
    assert Near(a, b, -1) <==> b.lon - a.lon >= 270.0;
  }

  /** It is drawn exactly if it is no jump and at most twelve hundredths of it lie on land. */
  lemma DrawnIff(a: Point, b: Point, land: Land)
    requires OnGlobe(a) && OnGlobe(b)
    ensures Drawable(land)(a, b)
            <==> (exists k :: -1 <= k <= 1 && Near(a, b, k)) && (a == b || 100.0 * land(a, b) <= 12.0)
  {
    NoJumpIff(a, b);
  }

  /** A cable of one edge. */
  function Cable(name: string, properties: nat, a: Point, b: Point): Feature {
    Feature(name, properties, LineString([a, b]))
  }

  lemma OneEdgeCleaned(a: Point, b: Point, land: Land)
    ensures CleanParts([[a, b]], land) == if Drawable(land)(a, b) then [[a, b]] else []
  {
    var edge := Drawable(land);
    AllRunsSnoc([], [a, b], edge);
    assert [] + [[a, b]] == [[a, b]];
    OneEdgeRuns(a, b, edge);
  }

  lemma OneEdgeRuns(a: Point, b: Point, edge: Edge<Point>)
    ensures Runs([a, b], edge) == if edge(a, b) then [[a, b]] else []
  {
    var line := [a, b];
    assert CutUpTo(line, edge, 1) == Cut([], [a]);
    assert CutUpTo(line, edge, 2) == Extend(Cut([], [a]), b, edge);
    assert [a] + [b] == [a, b] && [] + Keep([a]) == [] && [] + Keep([b]) == [] && [] + Keep([a, b]) == [[a, b]];
  }

  lemma OneSurvivor(f: Feature, unwanted: Feature -> bool, land: Land)
    ensures Survivors([f], unwanted, land) == if Survives(f, unwanted, land) then [Cleaned(f, land)] else []
  {
    SurvivorsStep([f], unwanted, land, 0);
  }

  lemma AtMostOne<K(!new)>(s: seq<Feature>, r: Rule<Feature, K>)
    requires |s| <= 1
    ensures Slots(s, r) == s
  {
    SlotsOfDistinct(s, r);
  }

  lemma OneEdgeSurvives(f: Feature, unwanted: Feature -> bool, a: Point, b: Point, land: Land)
    requires f.geometry == LineString([a, b]) && !unwanted(f)
    ensures if Drawable(land)(a, b) then Survives(f, unwanted, land) && Cleaned(f, land) == f
            else !Survives(f, unwanted, land)
  {
    OneEdgeCleaned(a, b, land);
    assert IterParts(f.geometry) == [[a, b]];
  }

  /** A wanted cable of one edge is left in place if the edge is drawn, and dropped otherwise. */
  lemma OneEdgeSanitized(name: string, properties: nat, a: Point, b: Point, land: Land)
    requires !UNWANTED(Cable(name, properties, a, b))
    ensures Sanitized([Cable(name, properties, a, b)], land)
            == if Drawable(land)(a, b) then [Cable(name, properties, a, b)] else []
  {
    var f := Cable(name, properties, a, b);
    OneEdgeSurvives(f, UNWANTED, a, b, land);
    OneSurvivor(f, UNWANTED, land);
    AtMostOne(Survivors([f], UNWANTED, land), BY_NAME);
  }

  /** A cable over the antimeridian is kept whole when it is at sea. */
  lemma CrossingStays(name: string, properties: nat, land: Land)
    requires Strip(name) != "" && Strip(name) !in SYNTHETIC
    requires land(Point(179.0, 0.0), Point(-179.0, 0.0)) <= 0.12
    ensures var f := Cable(name, properties, Point(179.0, 0.0), Point(-179.0, 0.0)); Sanitized([f], land) == [f]
  {
    assert Near(Point(179.0, 0.0), Point(-179.0, 0.0), 1);
    DrawnIff(Point(179.0, 0.0), Point(-179.0, 0.0), land);
    OneEdgeSanitized(name, properties, Point(179.0, 0.0), Point(-179.0, 0.0), land);
  }

  /** An edge of 100 degrees is cut. */
  lemma LongEdgeIsCut(name: string, properties: nat, land: Land)
    requires Strip(name) != "" && Strip(name) !in SYNTHETIC
    ensures Sanitized([Cable(name, properties, Point(0.0, 0.0), Point(100.0, 0.0))], land) == []
  {
    NoJumpIff(Point(0.0, 0.0), Point(100.0, 0.0));
    OneEdgeSanitized(name, properties, Point(0.0, 0.0), Point(100.0, 0.0), land);
  }

  /** No result has a name that is empty or one of the synthetic ones, and every result can be drawn. */
  lemma ResultsAreWanted(features: seq<Feature>, land: Land, i: nat)
    requires i < |Sanitized(features, land)|
    ensures var f := Sanitized(features, land)[i];
            && Strip(f.name) != "" && Strip(f.name) !in SYNTHETIC && IterParts(f.geometry) != []
            && forall k :: 0 <= k < |IterParts(f.geometry)| ==> AllGood(IterParts(f.geometry)[k], Drawable(land))
  {
    var f := Sanitized(features, land)[i];
    ByNameNames();
    SlotsAreClean(features, UNWANTED, land, BY_NAME);
    assert IsClean(f, UNWANTED, land);
    CleanGeometryIsSound(IterParts(f.geometry), land);
    GeometryRoundTrip(CleanParts(IterParts(f.geometry), land));
  }

  // ---- which features survive, and how they are compared ----

  function Joined(parts: seq<Line>, n: nat): Line
    requires n <= |parts|
  {
    if n == 0 then [] else Joined(parts, n - 1) + parts[n - 1]
  }

  /** What features of one name are compared by is how many points their parts have together. */
  lemma {:induction false} PointsAreCounted(parts: seq<Line>, n: nat)
    requires n <= |parts|
    ensures CountPoints(parts, n) == |Joined(parts, n)|
  {
    if n > 0 { PointsAreCounted(parts, n - 1); }
  }

  /** Edge `i` of part `k` is drawn. */
  ghost predicate DrawnEdge(parts: seq<Line>, edge: Edge<Point>, k: int, i: int) {
    0 <= k < |parts| && 0 <= i < |parts[k]| - 1 && edge(parts[k][i], parts[k][i + 1])
  }

  lemma {:induction false} NoGoodEdges(s: Line, edge: Edge<Point>, n: nat)
    requires n <= |s|
    ensures GoodEdgesUpTo(s, edge, n) == [] <==> forall i :: 0 <= i < n - 1 ==> !edge(s[i], s[i + 1])
  {
    if n >= 2 { NoGoodEdges(s, edge, n - 1); }
  }

  lemma {:induction false} NoneDrawn(parts: seq<Line>, edge: Edge<Point>, n: nat)
    requires n <= |parts|
    ensures GoodEdgesOfFirst(parts, edge, n) == [] <==> forall k, i :: k < n ==> !DrawnEdge(parts, edge, k, i)
  {
    if n > 0 {
      NoneDrawn(parts, edge, n - 1);
      NoGoodEdges(parts[n - 1], edge, |parts[n - 1]|);
      if GoodEdgesUpTo(parts[n - 1], edge, |parts[n - 1]|) != [] {
        var i :| 0 <= i < |parts[n - 1]| - 1 && edge(parts[n - 1][i], parts[n - 1][i + 1]);
        assert DrawnEdge(parts, edge, n - 1, i);
      }
    }
  }

  /** Nothing is left of a geometry exactly if it has no drawn edge. */
  lemma NothingLeftIff(parts: seq<Line>, land: Land)
    ensures CleanParts(parts, land) == [] <==> forall k, i :: !DrawnEdge(parts, Drawable(land), k, i)
  {
    var out := CleanParts(parts, land);
    CleanGeometryIsSound(parts, land);
    NoneDrawn(parts, Drawable(land), |parts|);
    if out != [] {
      assert EdgesOfAll(out) == EdgesOfFirst(out, |out| - 1) + Edges(out[|out| - 1]);
      assert AllGood(out[|out| - 1], Drawable(land));
    }
  }

  /** A feature survives exactly if its name is neither empty nor synthetic and some edge of it is drawn. */
  lemma SurvivesIff(f: Feature, land: Land)
    ensures Survives(f, UNWANTED, land)
            <==> && Strip(f.name) != "" && Strip(f.name) !in SYNTHETIC
                 && exists k, i :: DrawnEdge(IterParts(f.geometry), Drawable(land), k, i)
  {
    var parts := IterParts(f.geometry);
    NothingLeftIff(parts, land);
    GeometryRoundTrip(CleanParts(parts, land));
    assert UNWANTED(f) <==> Strip(f.name) == "" || Strip(f.name) in SYNTHETIC;
    if f.geometry == Missing { assert parts == []; }
  }
}
