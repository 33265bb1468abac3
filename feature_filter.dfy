/**
  * The depth-consistency filter over a frame's features: a feature is kept when
  * the depth map has a nonzero sample at its own pixel and, when a neighbourhood
  * radius is given, no nonzero sample in the square window around it differs
  * from that own depth by more than the allowed delta.
  */
module FeatureFilter {
  import opened DepthCodec

  /**
    * A detected keypoint: its pixel coordinates, already rounded to integers,
    * and an opaque handle on its descriptor payload.
    */
  datatype Feature = Feature(x: int, y: int, descriptor: nat)

  /** Row stride used to index the depth map: the sensor's horizontal resolution. */
  const ROW_STRIDE: int := 640

  function Abs(v: int): (a: nat)
    ensures a == v || a == -v
  {
    if v < 0 then -v else v
  }

  /** Index of the feature's own pixel in the row-major depth map. */
  function OwnIndex(f: Feature): int
  {
    f.y * ROW_STRIDE + f.x
  }

  /** Index of the pixel displaced by `dx` columns and `dy` rows from the feature. */
  function NeighbourIndex(f: Feature, dx: int, dy: int): (k: int)
    ensures dx == 0 && dy == 0 ==> k == OwnIndex(f)
  {
    (f.y + dy) * ROW_STRIDE + f.x + dx
  }

  /** Every pixel of the `(2r+1) x (2r+1)` window around `f` lies inside a map of `len` samples. */
  predicate WindowInBounds(len: int, f: Feature, r: int)
  {
    forall dx, dy :: -r <= dx <= r && -r <= dy <= r ==> 0 <= NeighbourIndex(f, dx, dy) < len
  }

  /** The depth of the feature's own pixel (the depth the filter compares against). */
  function FeatureDepth(depth: seq<DepthPixel>, f: Feature): DepthPixel
    requires 0 <= OwnIndex(f) < |depth|
  {
    depth[OwnIndex(f)]
  }

  /**
    * Every sample the filter reads for `f` exists: its own pixel always, and the
    * whole window when the own depth is nonzero and the radius is positive.
    */
  predicate Addressable(depth: seq<DepthPixel>, f: Feature, r: int)
  {
    0 <= OwnIndex(f) < |depth| &&
    (FeatureDepth(depth, f) != 0 && r > 0 ==> WindowInBounds(|depth|, f, r))
  }

  predicate AllAddressable(depth: seq<DepthPixel>, features: seq<Feature>, r: int)
  {
    forall i :: 0 <= i < |features| ==> Addressable(depth, features[i], r)
  }

  /** A neighbour sample agrees with the feature's depth: it is unknown (0) or close enough. */
  predicate Consistent(depthFeature: int, depthNeighbour: int, maxDelta: int)
  {
    depthNeighbour == 0 || Abs(depthFeature - depthNeighbour) <= maxDelta
  }

  /**
    * No sample of the window is inconsistent with `depthFeature`. The first
    * offset moves along x and the second along y, as the scan indexes them.
    */
  predicate WindowConsistent(depth: seq<DepthPixel>, f: Feature, depthFeature: int, r: int, maxDelta: int)
    requires WindowInBounds(|depth|, f, r)
  {
    forall row, col :: -r <= row <= r && -r <= col <= r ==>
      Consistent(depthFeature, depth[NeighbourIndex(f, row, col)], maxDelta)
  }

  /** The same window test with the outer offset moving along y and the inner along x. */
  predicate WindowConsistentRowsOnY(depth: seq<DepthPixel>, f: Feature, depthFeature: int, r: int, maxDelta: int)
    requires WindowInBounds(|depth|, f, r)
  {
    forall row, col :: -r <= row <= r && -r <= col <= r ==>
      Consistent(depthFeature, depth[NeighbourIndex(f, col, row)], maxDelta)
  }

  /**
    * The scan adds the row offset to x and the column offset to y; since both
    * offsets range over the same interval, the window and the verdict are the
    * same as with rows on y.
    */
  lemma AxisSwapIrrelevant(depth: seq<DepthPixel>, f: Feature, depthFeature: int, r: int, maxDelta: int)
    requires WindowInBounds(|depth|, f, r)
    ensures WindowConsistent(depth, f, depthFeature, r, maxDelta)
        <==> WindowConsistentRowsOnY(depth, f, depthFeature, r, maxDelta)
  {
  }

  /** Whether the filter keeps feature `f`. */
  predicate Keep(depth: seq<DepthPixel>, f: Feature, r: int, maxDelta: int)
    requires Addressable(depth, f, r)
  {
    var depthFeature := FeatureDepth(depth, f);
    depthFeature != 0 && (r <= 0 || WindowConsistent(depth, f, depthFeature, r, maxDelta))
  }

  /** The indices of the kept features, in increasing order. */
  function KeptIndices(depth: seq<DepthPixel>, features: seq<Feature>, r: int, maxDelta: int): seq<nat>
    requires AllAddressable(depth, features, r)
    decreases |features|
  {
    if features == [] then []
    else
      var n := |features| - 1;
      KeptIndices(depth, features[..n], r, maxDelta) + (if Keep(depth, features[n], r, maxDelta) then [n] else [])
  }

  /** The kept features, in their original order. */
  function Filter(depth: seq<DepthPixel>, features: seq<Feature>, r: int, maxDelta: int): seq<Feature>
    requires AllAddressable(depth, features, r)
    decreases |features|
  {
    if features == [] then []
    else
      var n := |features| - 1;
      Filter(depth, features[..n], r, maxDelta) + (if Keep(depth, features[n], r, maxDelta) then [features[n]] else [])
  }

  /** The features at positions `ids`, in that order. */
  function Select(features: seq<Feature>, ids: seq<nat>): (s: seq<Feature>)
    requires forall j :: 0 <= j < |ids| ==> ids[j] < |features|
    ensures |s| == |ids|
  {
    seq(|ids|, j requires 0 <= j < |ids| => features[ids[j]])
  }

  predicate StrictlyIncreasing(ids: seq<nat>)
  {
    forall j, k :: 0 <= j < k < |ids| ==> ids[j] < ids[k]
  }

  /**
    * The kept indices are strictly increasing positions of the input, and a
    * position is among them exactly when its feature passes the test.
    */
  lemma {:induction false} KeptIndicesSpec(depth: seq<DepthPixel>, features: seq<Feature>, r: int, maxDelta: int)
    requires AllAddressable(depth, features, r)
    ensures var ids := KeptIndices(depth, features, r, maxDelta);
      |ids| <= |features| &&
      StrictlyIncreasing(ids) &&
      (forall j :: 0 <= j < |ids| ==> ids[j] < |features|) &&
      (forall i :: 0 <= i < |features| ==> (i in ids <==> Keep(depth, features[i], r, maxDelta)))
    decreases |features|
  {
    if features != [] {
      var n := |features| - 1;
      var prefix := features[..n];
      assert AllAddressable(depth, prefix, r);
      KeptIndicesSpec(depth, prefix, r, maxDelta);
      forall i | 0 <= i < n ensures prefix[i] == features[i] { }
    }
  }

  /** The filter's output is the input read at the kept indices. */
  lemma {:induction false} FilterSelectsKept(depth: seq<DepthPixel>, features: seq<Feature>, r: int, maxDelta: int)
    requires AllAddressable(depth, features, r)
    ensures forall j :: 0 <= j < |KeptIndices(depth, features, r, maxDelta)| ==>
      KeptIndices(depth, features, r, maxDelta)[j] < |features|
    ensures Filter(depth, features, r, maxDelta) == Select(features, KeptIndices(depth, features, r, maxDelta))
    decreases |features|
  {
    KeptIndicesSpec(depth, features, r, maxDelta);
    if features != [] {
      var n := |features| - 1;
      var prefix := features[..n];
      assert AllAddressable(depth, prefix, r);
      FilterSelectsKept(depth, prefix, r, maxDelta);
      KeptIndicesSpec(depth, prefix, r, maxDelta);
      var ids := KeptIndices(depth, prefix, r, maxDelta);
      forall j | 0 <= j < |ids| ensures Select(prefix, ids)[j] == Select(features, ids)[j] { }
    }
  }

  /**
    * The filter's output is an order-preserving subsequence of its input: the
    * j-th kept feature is the input's feature at a position that grows with j.
    */
  lemma {:induction false} FilterIsOrderedSubsequence(depth: seq<DepthPixel>, features: seq<Feature>, r: int, maxDelta: int)
    requires AllAddressable(depth, features, r)
    ensures var kept, ids := Filter(depth, features, r, maxDelta), KeptIndices(depth, features, r, maxDelta);
      |kept| == |ids| <= |features| && StrictlyIncreasing(ids) &&
      forall j :: 0 <= j < |ids| ==> ids[j] < |features| && kept[j] == features[ids[j]]
  {
    KeptIndicesSpec(depth, features, r, maxDelta);
    FilterSelectsKept(depth, features, r, maxDelta);
  }

  /** A feature with zero own depth is never kept, whatever the radius and delta. */
  lemma {:induction false} ZeroDepthNeverKept(depth: seq<DepthPixel>, features: seq<Feature>, r: int, maxDelta: int)
    requires AllAddressable(depth, features, r)
    ensures forall i :: 0 <= i < |features| && FeatureDepth(depth, features[i]) == 0 ==>
      i !in KeptIndices(depth, features, r, maxDelta)
    ensures forall f :: f in Filter(depth, features, r, maxDelta) ==>
      0 <= OwnIndex(f) < |depth| && FeatureDepth(depth, f) != 0
  {
    KeptIndicesSpec(depth, features, r, maxDelta);
    FilterSelectsKept(depth, features, r, maxDelta);
  }

  /** Without a positive radius, exactly the features with nonzero own depth are kept. */
  lemma {:induction false} RadiusZeroKeepsNonzeroDepth(depth: seq<DepthPixel>, features: seq<Feature>, r: int, maxDelta: int)
    requires r <= 0 && AllAddressable(depth, features, r)
    ensures forall i :: 0 <= i < |features| ==>
      (i in KeptIndices(depth, features, r, maxDelta) <==> FeatureDepth(depth, features[i]) != 0)
  {
    KeptIndicesSpec(depth, features, r, maxDelta);
  }

  /** The filter never lengthens its input, and an output as long as the input is the input. */
  lemma {:induction false} FilterFullLengthIsIdentity(depth: seq<DepthPixel>, features: seq<Feature>, r: int, maxDelta: int)
    requires AllAddressable(depth, features, r)
    ensures |Filter(depth, features, r, maxDelta)| <= |features|
    ensures |Filter(depth, features, r, maxDelta)| == |features| ==> Filter(depth, features, r, maxDelta) == features
    decreases |features|
  {
    if features != [] {
      var n := |features| - 1;
      var prefix := features[..n];
      assert AllAddressable(depth, prefix, r);
      FilterFullLengthIsIdentity(depth, prefix, r, maxDelta);
      assert features == prefix + [features[n]];
    }
  }

  /** When every feature passes the test, the filter returns its input unchanged. */
  lemma {:induction false} AllKeptIsIdentity(depth: seq<DepthPixel>, features: seq<Feature>, r: int, maxDelta: int)
    requires AllAddressable(depth, features, r)
    requires forall i :: 0 <= i < |features| ==> Keep(depth, features[i], r, maxDelta)
    ensures Filter(depth, features, r, maxDelta) == features
    decreases |features|
  {
    if features != [] {
      var n := |features| - 1;
      var prefix := features[..n];
      assert AllAddressable(depth, prefix, r);
      assert forall i :: 0 <= i < n ==> prefix[i] == features[i];
      AllKeptIsIdentity(depth, prefix, r, maxDelta);
      assert features == prefix + [features[n]];
    }
  }

  /** When the filter returns its input unchanged, every feature passed the test. */
  lemma {:induction false} IdentityMeansAllKept(depth: seq<DepthPixel>, features: seq<Feature>, r: int, maxDelta: int)
    requires AllAddressable(depth, features, r)
    requires Filter(depth, features, r, maxDelta) == features
    ensures forall i :: 0 <= i < |features| ==> Keep(depth, features[i], r, maxDelta)
    decreases |features|
  {
    if features != [] {
      var n := |features| - 1;
      var prefix := features[..n];
      assert AllAddressable(depth, prefix, r);
      FilterFullLengthIsIdentity(depth, prefix, r, maxDelta);
      var rest := Filter(depth, prefix, r, maxDelta);
      assert Keep(depth, features[n], r, maxDelta) && rest == prefix;
      IdentityMeansAllKept(depth, prefix, r, maxDelta);
      assert forall i :: 0 <= i < n ==> prefix[i] == features[i];
    }
  }

  /**
    * The window scan of one feature: rows then columns, stopping as soon as an
    * inconsistent nonzero neighbour is found. The early exit does not change
    * the verdict.
    */
  method ScanWindow(depth: array<DepthPixel>, f: Feature, depthFeature: int, r: int, maxDelta: int)
    returns (validArea: bool)
    requires WindowInBounds(depth.Length, f, r)
    ensures validArea == WindowConsistent(depth[..], f, depthFeature, r, maxDelta)
  {
    validArea := true;
    var row := -r;
    while row <= r && validArea
      invariant row <= r + 1 || r < -r
      invariant validArea <==> forall rr, cc :: -r <= rr < row && -r <= cc <= r ==>
        Consistent(depthFeature, depth[NeighbourIndex(f, rr, cc)], maxDelta)
      decreases r - row
    {
      var col := -r;
      while col <= r && validArea
        invariant col <= r + 1
        invariant validArea <==>
          (forall rr, cc :: -r <= rr < row && -r <= cc <= r ==>
            Consistent(depthFeature, depth[NeighbourIndex(f, rr, cc)], maxDelta)) &&
          (forall cc :: -r <= cc < col ==> Consistent(depthFeature, depth[NeighbourIndex(f, row, cc)], maxDelta))
        decreases r - col
      {
        var depthNeighbour := depth[NeighbourIndex(f, row, col)];
        if depthNeighbour != 0 && Abs(depthFeature - depthNeighbour) > maxDelta {
          validArea := false;
        }
        col := col + 1;
      }
      row := row + 1;
    }
  }

  /** The first pass of the filter: collects the indices of the features to keep. */
  method ValidFeatureIds(depth: array<DepthPixel>, features: seq<Feature>, r: int, maxDelta: int)
    returns (validIds: seq<nat>)
    requires AllAddressable(depth[..], features, r)
    ensures validIds == KeptIndices(depth[..], features, r, maxDelta)
  {
    validIds := [];
    for i := 0 to |features|
      invariant AllAddressable(depth[..], features[..i], r)
      invariant validIds == KeptIndices(depth[..], features[..i], r, maxDelta)
    {
      assert features[..i + 1][..i] == features[..i];
      var f := features[i];
      var depthFeature := depth[OwnIndex(f)];
      if depthFeature == 0 {
        continue;
      }
      if r <= 0 {
        validIds := validIds + [i];
      } else {
        var validArea := ScanWindow(depth, f, depthFeature, r, maxDelta);
        if validArea {
          validIds := validIds + [i];
        }
      }
    }
    assert features[..|features|] == features;
  }

  /** The second pass: copies the kept features, in order, into a new buffer. */
  method CopyKept(features: seq<Feature>, validIds: seq<nat>) returns (kept: seq<Feature>)
    requires forall j :: 0 <= j < |validIds| ==> validIds[j] < |features|
    ensures kept == Select(features, validIds)
  {
    var newFeatures := new Feature[|validIds|];
    for i := 0 to |validIds|
      invariant forall j :: 0 <= j < i ==> newFeatures[j] == features[validIds[j]]
    {
      newFeatures[i] := features[validIds[i]];
    }
    kept := newFeatures[..];
  }
}
