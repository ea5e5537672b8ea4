/**
 * Scene wiring (`scene.rs`): the shapes of the scene file are attached to a
 * BVH in file order; lights are then classified, the last environment light
 * being kept apart, each area light's shape being given its light and
 * attached as well, and every other light being registered in a uniform
 * light distribution; the index is built once at the end.
 */
module Scenes {
  import opened Wrappers
  import opened Rays
  import opened Bounds
  import opened Acceleration
  import opened Bvh
  import opened Distributions

  /** `LightType`. */
  datatype LightType = SpotLight | AreaLight | EnvironmentLight

  /** A constructed light: its handle, its type and, for an area light, its shape. */
  datatype LightDesc = LightDesc(id: LightRef, kind: LightType, shape: Option<Shape>)

  /** Every area light has a shape (the source unwraps it). */
  predicate AreaLightsHaveShapes(lights: seq<LightDesc>) {
    forall k :: 0 <= k < |lights| && lights[k].kind == AreaLight ==> lights[k].shape.Some?
  }

  /** The environment light that survives the loop: the last one in the file. */
  function LastEnvironment(lights: seq<LightDesc>): Option<LightRef> {
    if |lights| == 0 then None
    else if lights[|lights| - 1].kind == EnvironmentLight then Some(lights[|lights| - 1].id)
    else LastEnvironment(lights[..|lights| - 1])
  }

  /** `infinite_lights` ends up None exactly when the file has no environment light. */
  lemma {:induction false} LastEnvironmentNone(lights: seq<LightDesc>)
    ensures LastEnvironment(lights).None? <==> forall k :: 0 <= k < |lights| ==> lights[k].kind != EnvironmentLight
  {
    if |lights| > 0 {
      var n := |lights| - 1;
      var init := lights[..n];
      if lights[n].kind != EnvironmentLight {
        LastEnvironmentNone(init);
        assert forall k :: 0 <= k < n ==> init[k] == lights[k];
      }
    }
  }

  /** Otherwise it holds the last environment light of the file. */
  lemma {:induction false} LastEnvironmentSome(lights: seq<LightDesc>)
    ensures var r := LastEnvironment(lights);
      r.Some? ==> exists k :: 0 <= k < |lights| && lights[k].kind == EnvironmentLight && lights[k].id == r.value
                             && forall j :: k < j < |lights| ==> lights[j].kind != EnvironmentLight
  {
    if |lights| > 0 {
      var n := |lights| - 1;
      var init := lights[..n];
      var r := LastEnvironment(lights);
      if lights[n].kind != EnvironmentLight && r.Some? {
        LastEnvironmentSome(init);
        var k :| 0 <= k < n && init[k].kind == EnvironmentLight && init[k].id == r.value
                 && forall j :: k < j < n ==> init[j].kind != EnvironmentLight;
        assert lights[k] == init[k];
        forall j | k < j < |lights| ensures lights[j].kind != EnvironmentLight {
          if j < n {
            assert lights[j] == init[j];
          }
        }
      }
    }
  }

  /** The shapes of the area lights, in file order, each carrying its light. */
  function PromotedShapes(lights: seq<LightDesc>): (r: seq<Shape>)
    requires AreaLightsHaveShapes(lights)
  {
    if |lights| == 0 then []
    else
      var init := PromotedShapes(lights[..|lights| - 1]);
      var l := lights[|lights| - 1];
      if l.kind == AreaLight then init + [l.shape.value.(light := Some(l.id))] else init
  }

  /** The lights pushed onto `light_v`: every non-environment light, in file order. */
  function Registered(lights: seq<LightDesc>): seq<LightRef> {
    if |lights| == 0 then []
    else
      var init := Registered(lights[..|lights| - 1]);
      var l := lights[|lights| - 1];
      if l.kind == EnvironmentLight then init else init + [l.id]
  }

  /** The constant weight `|_light| 1.0`. */
  function Unit(l: LightRef): real {
    1.0
  }

  /** The attach loop over the file's shapes, in order. */
  method AttachAll(acc: BvhAccel, shapes: seq<Shape>)
    modifies acc
    ensures acc.shapes == old(acc.shapes) + shapes
  {
    ghost var s0 := acc.shapes;
    for i := 0 to |shapes|
      invariant acc.shapes == s0 + shapes[..i]
    {
      acc.AttachShape(shapes[i]);
      assert shapes[..i + 1] == shapes[..i] + [shapes[i]];
    }
    assert shapes[..|shapes|] == shapes;
  }

  /**
   * The light loop of `from_json`: the last environment light is kept, each
   * area light's shape is attached carrying its light, and every other
   * light is pushed onto `light_v`.
   */
  method ClassifyLights(acc: BvhAccel, lights: seq<LightDesc>) returns (inf: Option<LightRef>, lightV: seq<LightRef>)
    requires AreaLightsHaveShapes(lights)
    modifies acc
    ensures acc.shapes == old(acc.shapes) + PromotedShapes(lights)
    ensures inf == LastEnvironment(lights) && lightV == Registered(lights)
  {
    ghost var s0 := acc.shapes;
    inf := None;
    lightV := [];
    for i := 0 to |lights|
      invariant AreaLightsHaveShapes(lights[..i])
      invariant inf == LastEnvironment(lights[..i])
      invariant lightV == Registered(lights[..i])
      invariant acc.shapes == s0 + PromotedShapes(lights[..i])
    {
      var l := lights[i];
      assert lights[..i + 1][..i] == lights[..i];
      if l.kind == EnvironmentLight {
        inf := Some(l.id);
      } else {
        if l.kind == AreaLight {
          var sh := l.shape.value.(light := Some(l.id));
          acc.AttachShape(sh);
        }
        lightV := lightV + [l.id];
      }
    }
    assert lights[..|lights|] == lights;
  }

  /** A new, unbuilt BVH holding the file's shapes and then the area lights' shapes. */
  method NewAttached(sceneShapes: seq<Shape>, lights: seq<LightDesc>)
    returns (acc: BvhAccel, inf: Option<LightRef>, lightV: seq<LightRef>)
    requires AreaLightsHaveShapes(lights)
    ensures fresh(acc)
    ensures acc.shapes == sceneShapes + PromotedShapes(lights)
    ensures inf == LastEnvironment(lights) && lightV == Registered(lights)
  {
    acc := new BvhAccel();
    AttachAll(acc, sceneShapes);
    inf, lightV := ClassifyLights(acc, lights);
  }

  /**
   * The index and light lists of `from_json`: the file's shapes, then the
   * area lights' shapes, attached to a new BVH that is then built once.
   */
  method NewIndex(sceneShapes: seq<Shape>, lights: seq<LightDesc>)
    returns (acc: BvhAccel, inf: Option<LightRef>, lightV: seq<LightRef>, ghost before: seq<Shape>)
    requires AreaLightsHaveShapes(lights)
    ensures fresh(acc)
    ensures before == sceneShapes + PromotedShapes(lights)
    ensures multiset(acc.shapes) == multiset(before)
    ensures acc.root.Some? && WellBuilt(acc.root.value, acc.shapes, 0, |acc.shapes|, ArrBounds(BoundsOf(before)))
    ensures LeavesIn(acc.root.value, |acc.shapes|)
    ensures inf == LastEnvironment(lights) && lightV == Registered(lights)
  {
    acc, inf, lightV := NewAttached(sceneShapes, lights);
    before := acc.shapes;
    acc.Build();
  }

  class Scene {
    var infiniteLights: Option<LightRef>
    var acceleration: BvhAccel
    var lightDistribution: Distribution<LightRef>
    /** The shape list as it was attached, before `build` reordered it. */
    ghost var attached: seq<Shape>

    /** The index is built, so a query can be answered. */
    ghost predicate IndexValid()
      reads this, acceleration
    {
      acceleration.root.Some? && LeavesIn(acceleration.root.value, |acceleration.shapes|)
    }

    /** The light distribution is normalised over at least one light, so a light can be drawn. */
    ghost predicate LightsValid()
      reads this, lightDistribution
    {
      && |lightDistribution.data| > 0
      && Total(lightDistribution.data, Unit) != 0.0
      && lightDistribution.cdf == Normalised(lightDistribution.data, Unit)
    }

    ghost predicate Valid()
      reads this, acceleration, lightDistribution
    {
      IndexValid() && LightsValid()
    }

    /**
     * `Scene::from_json`, with the file's shapes and lights given as lists.
     * At least one non-environment light is required: with none, the light
     * distribution would divide by a zero total.
     */
    constructor FromJson(sceneShapes: seq<Shape>, lights: seq<LightDesc>)
      requires AreaLightsHaveShapes(lights) && |Registered(lights)| > 0
      ensures attached == sceneShapes + PromotedShapes(lights)
      ensures multiset(acceleration.shapes) == multiset(attached)
      ensures acceleration.root.Some?
      ensures WellBuilt(acceleration.root.value, acceleration.shapes, 0, |acceleration.shapes|, ArrBounds(BoundsOf(attached)))
      ensures infiniteLights == LastEnvironment(lights)
      ensures lightDistribution.data == Registered(lights)
      ensures Total(Registered(lights), Unit) == |Registered(lights)| as real
      ensures lightDistribution.cdf == Normalised(Registered(lights), Unit)
      ensures Valid()
    {
      var acc, inf, lightV, before := NewIndex(sceneShapes, lights);
      TotalOfUnit(lightV);
      var dist := new Distribution(lightV, Unit);
      infiniteLights := inf;
      acceleration := acc;
      lightDistribution := dist;
      attached := before;
    }

    /** `ray_intersect`: the index's `get_intersect`. */
    method RayIntersect(ray: Ray, hit: HitOracle) returns (r: Lookup)
      requires IndexValid()
      requires |acceleration.shapes| == 0 ==> InverseNonZero(ray.State())
      modifies ray
      ensures var t := Traverse(acceleration.root.value, acceleration.shapes, hit, old(ray.State()));
        r == Acceleration.GetIntersect(acceleration.shapes, ToQuery(t.winner), t.ray.tMax) && ray.State() == t.ray
      ensures |acceleration.shapes| == 0 ==> r == Miss && ray.State() == old(ray.State())
    {
      r := acceleration.GetIntersect(ray, hit);
    }

    /**
     * `sample_light`: a draw from the light distribution, which is uniform:
     * every registered light has probability `1 / n`.
     */
    method SampleLight(u: real) returns (light: LightRef, pdf: real)
      requires LightsValid() && 0.0 < u <= 1.0
      ensures light in lightDistribution.data
      ensures pdf == 1.0 / (|lightDistribution.data| as real)
    {
      var data := lightDistribution.data;
      TotalOfUnit(data);
      NormalisedShape(data, Unit);
      light, pdf := lightDistribution.Sample(u);
      UniformBuckets(data);
    }
  }

  /** With weight 1 the total is the number of items. */
  lemma {:induction false} TotalOfUnit(data: seq<LightRef>)
    ensures Total(data, Unit) == |data| as real
  {
    if |data| > 0 {
      TotalOfUnit(data[..|data| - 1]);
      assert Cumulative(data, Unit)[..|data|] == Cumulative(data[..|data| - 1], Unit);
    }
  }

  /** Every bucket of the unit-weight distribution has width `1 / n`. */
  lemma UniformBuckets(data: seq<LightRef>)
    requires |data| > 0
    ensures Total(data, Unit) == |data| as real
    ensures forall i :: 0 <= i < |data| ==>
      Normalised(data, Unit)[i + 1] - Normalised(data, Unit)[i] == 1.0 / (|data| as real)
  {
    TotalOfUnit(data);
    forall i | 0 <= i < |data|
      ensures Normalised(data, Unit)[i + 1] - Normalised(data, Unit)[i] == 1.0 / (|data| as real)
    {
      BucketWidth(data, Unit, i);
    }
  }

  /** Every promoted shape is the shape of an area light of the file, now pointing back at that light. */
  lemma {:induction false} PromotedCarriesLight(lights: seq<LightDesc>)
    requires AreaLightsHaveShapes(lights)
    ensures forall sh :: sh in PromotedShapes(lights) ==>
      exists k :: 0 <= k < |lights| && lights[k].kind == AreaLight
                  && sh == lights[k].shape.value.(light := Some(lights[k].id))
  {
    if |lights| > 0 {
      var n := |lights| - 1;
      PromotedCarriesLight(lights[..n]);
      forall sh | sh in PromotedShapes(lights)
        ensures exists k :: 0 <= k < |lights| && lights[k].kind == AreaLight
                            && sh == lights[k].shape.value.(light := Some(lights[k].id))
      {
        if sh in PromotedShapes(lights[..n]) {
          var k :| 0 <= k < n && lights[..n][k].kind == AreaLight
                   && sh == lights[..n][k].shape.value.(light := Some(lights[..n][k].id));
          assert lights[k] == lights[..n][k];
        } else {
          assert lights[n].kind == AreaLight;
        }
      }
    }
  }

  /** There is one promoted shape per area light. */
  lemma {:induction false} PromotedCount(lights: seq<LightDesc>)
    requires AreaLightsHaveShapes(lights)
    ensures |PromotedShapes(lights)| == |set k | 0 <= k < |lights| && lights[k].kind == AreaLight|
  {
    if |lights| > 0 {
      var n := |lights| - 1;
      PromotedCount(lights[..n]);
      var prev := set k | 0 <= k < n && lights[..n][k].kind == AreaLight;
      var all := set k | 0 <= k < |lights| && lights[k].kind == AreaLight;
      assert prev == set k | 0 <= k < n && lights[k].kind == AreaLight;
      if lights[n].kind == AreaLight {
        assert all == prev + {n};
      } else {
        assert all == prev;
      }
    }
  }

  /** A light is registered in the distribution exactly when it is not an environment light. */
  lemma {:induction false} RegisteredLights(lights: seq<LightDesc>)
    ensures forall id :: id in Registered(lights) <==>
      exists k :: 0 <= k < |lights| && lights[k].kind != EnvironmentLight && lights[k].id == id
    ensures |Registered(lights)| <= |lights|
  {
    if |lights| > 0 {
      var n := |lights| - 1;
      RegisteredLights(lights[..n]);
      forall id | id in Registered(lights)
        ensures exists k :: 0 <= k < |lights| && lights[k].kind != EnvironmentLight && lights[k].id == id
      {
        if id in Registered(lights[..n]) {
          var k :| 0 <= k < n && lights[..n][k].kind != EnvironmentLight && lights[..n][k].id == id;
          assert lights[k] == lights[..n][k];
        }
      }
      forall id | exists k :: 0 <= k < |lights| && lights[k].kind != EnvironmentLight && lights[k].id == id
        ensures id in Registered(lights)
      {
        var k :| 0 <= k < |lights| && lights[k].kind != EnvironmentLight && lights[k].id == id;
        if k < n {
          assert lights[..n][k] == lights[k];
        }
      }
    }
  }
}
