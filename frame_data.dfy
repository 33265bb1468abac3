/**
  * The record of one RGB-D frame: its id, the colour image, the feature buffer
  * with its feature count, and the decoded depth buffer. The record owns all
  * three resources; `AssignData` moves them from one record to another.
  *
  * The image codec and the feature detector are not part of this model: what
  * they return is passed in as a parameter of the operation that calls them.
  */
module Frame {
  import opened Optional
  import opened DepthCodec
  import opened FeatureFilter

  /** An opaque handle on a loaded colour image. */
  datatype Image = Image(handle: nat)

  /** The frame id of a record that holds no valid frame. */
  const NO_FRAME: int := -1

  class FrameData {
    var frameId: int
    var image: Option<Image>
    /** The feature buffer; only its first `nbFeatures` entries are live. */
    var features: seq<Feature>
    var nbFeatures: nat
    var depth: array?<DepthPixel>

    /**
      * The record's invariant: the count never exceeds the buffer, and a record
      * without an image has the invalid id.
      */
    ghost predicate Valid()
      reads this
    {
      nbFeatures <= |features| &&
      (image == None ==> frameId == NO_FRAME)
    }

    /** The empty record: invalid id, no image, no features, no depth buffer. */
    ghost predicate IsEmpty()
      reads this
    {
      frameId == NO_FRAME && image == None && features == [] && nbFeatures == 0 && depth == null
    }

    /** The live features. */
    ghost function LiveFeatures(): seq<Feature>
      reads this
      requires Valid()
    {
      features[..nbFeatures]
    }

    /** The depth samples held, or none when there is no depth buffer. */
    ghost function DepthSamples(): seq<DepthPixel>
      reads this, depth
    {
      if depth == null then [] else depth[..]
    }

    /** Whether the record holds the image of frame `id`. */
    predicate IsLoaded(id: int)
      reads this
    {
      frameId == id && image.Some?
    }

    constructor ()
      ensures Valid() && IsEmpty()
    {
      frameId := NO_FRAME;
      image := None;
      features := [];
      nbFeatures := 0;
      depth := null;
    }

    /**
      * Frees whatever the record holds and resets it to the empty record; on an
      * empty record it changes nothing. The destructor does the same.
      */
    method ReleaseData()
      modifies this
      ensures Valid() && IsEmpty()
      ensures forall k :: !IsLoaded(k)
    {
      frameId := NO_FRAME;
      image := None;
      features := [];
      nbFeatures := 0;
      depth := null;
    }

    /**
      * Stores the codec's answer for the colour image of frame `id`: success
      * exactly when an image came back, and then the record holds frame `id`.
      */
    method LoadImage(id: int, loaded: Option<Image>) returns (ok: bool)
      requires Valid()
      modifies this
      ensures Valid()
      ensures ok <==> loaded.Some?
      ensures image == loaded
      ensures frameId == (if ok then id else NO_FRAME)
      ensures ok <==> IsLoaded(id)
      ensures forall k :: IsLoaded(k) ==> k == id
      ensures features == old(features) && nbFeatures == old(nbFeatures) && depth == old(depth)
    {
      image := loaded;
      if image.Some? {
        frameId := id;
      } else {
        frameId := NO_FRAME;
      }
      ok := image.Some?;
    }

    /**
      * Decodes the depth image the codec returned into the depth buffer,
      * allocating the buffer when there is none and otherwise reusing it (it is
      * assumed large enough). When no depth image came back the buffer is
      * released. Succeeds exactly when a depth buffer is held afterwards.
      */
    method LoadDepthData(loaded: Option<DepthImage>) returns (ok: bool)
      requires Valid()
      requires loaded.Some? ==>
        loaded.value.WellFormed() && (depth != null ==> loaded.value.PixelCount() <= depth.Length)
      modifies this, depth
      ensures Valid()
      ensures frameId == old(frameId) && image == old(image)
      ensures features == old(features) && nbFeatures == old(nbFeatures)
      ensures ok <==> depth != null
      ensures ok <==> loaded.Some?
      ensures loaded.Some? ==>
        var n := loaded.value.PixelCount();
        depth != null && n <= depth.Length &&
        depth[..n] == DecodedDepth(loaded.value.data, n) &&
        (old(depth) == null ==> fresh(depth) && depth.Length == n) &&
        (old(depth) != null ==> depth == old(depth) && depth[n..] == old(depth[n..]))
    {
      if loaded.Some? {
        var n := loaded.value.PixelCount();
        if depth == null {
          depth := new DepthPixel[n];
        }
        DecodeInto(loaded.value.data, n, depth);
      } else {
        depth := null;
      }
      ok := depth != null;
    }

    /**
      * Moves everything `src` holds into this record, after releasing what this
      * record held; `src` is left empty. Nothing is copied: the depth buffer is
      * the very array `src` held.
      */
    method AssignData(src: FrameData)
      requires Valid() && src.Valid()
      modifies this, src
      ensures Valid() && src.Valid()
      ensures src.IsEmpty()
      ensures src != this ==>
        frameId == old(src.frameId) && image == old(src.image) &&
        features == old(src.features) && nbFeatures == old(src.nbFeatures) &&
        depth == old(src.depth)
      ensures src == this ==> IsEmpty()
    {
      ReleaseData();
      frameId := src.frameId;
      image := src.image;
      features := src.features;
      nbFeatures := src.nbFeatures;
      depth := src.depth;
      src.frameId := NO_FRAME;
      src.image := None;
      src.features := [];
      src.nbFeatures := 0;
      src.depth := null;
    }

    /**
      * Stores the detector's features when an image is held and returns their
      * count; without an image the count becomes 0 and the buffer is left as it is.
      */
    method ComputeFeatures(detected: seq<Feature>) returns (count: nat)
      requires Valid()
      modifies this
      ensures Valid()
      ensures count == nbFeatures
      ensures image.Some? ==> features == detected && count == |detected|
      ensures image.None? ==> features == old(features) && count == 0
      ensures frameId == old(frameId) && image == old(image) && depth == old(depth)
    {
      if image.Some? {
        features := detected;
        nbFeatures := |detected|;
      } else {
        nbFeatures := 0;
      }
      count := nbFeatures;
    }

    /** Every live feature can be tested against the depth buffer. */
    ghost predicate FilterReady(sizeSurfaceArea: int)
      reads this, depth
      requires Valid()
    {
      AllAddressable(DepthSamples(), LiveFeatures(), sizeSurfaceArea)
    }

    /**
      * Keeps only the live features with consistent depth support. When some
      * feature is dropped the buffer is replaced by the kept features and the
      * count by their number; otherwise nothing changes.
      */
    method RemoveInvalidFeatures(sizeSurfaceArea: int, maxDeltaDepthArea: int)
      requires Valid() && FilterReady(sizeSurfaceArea)
      modifies this
      ensures Valid()
      ensures frameId == old(frameId) && image == old(image) && depth == old(depth)
      ensures var kept := Filter(old(DepthSamples()), old(LiveFeatures()), sizeSurfaceArea, maxDeltaDepthArea);
        LiveFeatures() == kept && nbFeatures == |kept| &&
        if |kept| < old(nbFeatures) then features == kept
        else features == old(features) && nbFeatures == old(nbFeatures)
    {
      var live := features[..nbFeatures];
      ghost var samples := DepthSamples();
      var validIds: seq<nat> := [];
      if nbFeatures > 0 {
        assert 0 <= OwnIndex(live[0]) < |samples|;
        validIds := ValidFeatureIds(depth, live, sizeSurfaceArea, maxDeltaDepthArea);
      }
      FilterSelectsKept(samples, live, sizeSurfaceArea, maxDeltaDepthArea);
      FilterFullLengthIsIdentity(samples, live, sizeSurfaceArea, maxDeltaDepthArea);
      if |validIds| < nbFeatures {
        var newFeatures := CopyKept(live, validIds);
        features := newFeatures;
        nbFeatures := |validIds|;
        assert features[..nbFeatures] == features;
      }
    }
  }
}
