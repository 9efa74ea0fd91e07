/** The EXIF dictionary that piexif loads from an image, and the removal of the
    orientation tag once the pixels have been physically rotated.

    piexif returns one tag table per IFD, keyed by the IFD's name ("0th",
    "Exif", "GPS", "Interop", "1st"); each table maps a numeric tag to its
    decoded value. */
module Exif {
  import opened Mime

  /** A decoded tag value as piexif gives it: an integer, a tuple of integers
      (one rational is the pair of its numerator and denominator), a tuple of
      rationals (pairs), or raw bytes. */
  datatype TagValue =
    | Int(n: int)
    | Ints(items: seq<int>)
    | Rationals(pairs: seq<(int, int)>)
    | Bytes(data: seq<byte>)

  type Ifd = map<nat, TagValue>
  type ExifDict = map<string, Ifd>

  /** The IFD of the main image. */
  const ZerothIfd: string := "0th"
  /** `piexif.ImageIFD.Orientation`, EXIF tag 0x0112. */
  const Orientation: nat := 0x0112

  /** The dictionary after `exif_dict['0th'].pop(Orientation, None)`, done only
      when the "0th" table exists and holds the tag. */
  function WithoutOrientation(exif: ExifDict): (r: ExifDict)
    ensures r.Keys == exif.Keys
    ensures ZerothIfd in r ==> Orientation !in r[ZerothIfd]
    ensures ZerothIfd in r ==> r[ZerothIfd].Keys == exif[ZerothIfd].Keys - {Orientation}
    ensures ZerothIfd in r ==> forall t :: t in r[ZerothIfd] ==> r[ZerothIfd][t] == exif[ZerothIfd][t]
    ensures forall k :: k in exif && k != ZerothIfd ==> r[k] == exif[k]
  {
    if ZerothIfd in exif && Orientation in exif[ZerothIfd] then
      exif[ZerothIfd := exif[ZerothIfd] - {Orientation}]
    else
      exif
  }

  /** Nothing changes when there is no "0th" table or it has no orientation tag. */
  lemma WithoutOrientationNoop(exif: ExifDict)
    requires ZerothIfd !in exif || Orientation !in exif[ZerothIfd]
    ensures WithoutOrientation(exif) == exif
  {
  }

  /** Removing the tag twice is removing it once. */
  lemma WithoutOrientationIdempotent(exif: ExifDict)
    ensures WithoutOrientation(WithoutOrientation(exif)) == WithoutOrientation(exif)
  {
  }

  /** Two dictionaries that differ at most in the orientation tag of "0th". */
  predicate AgreeExceptOrientation(e1: ExifDict, e2: ExifDict) {
    && e1.Keys == e2.Keys
    && (forall k :: k in e1 && k != ZerothIfd ==> e1[k] == e2[k])
    && (ZerothIfd in e1 ==> e1[ZerothIfd] - {Orientation} == e2[ZerothIfd] - {Orientation})
  }

  /** The removal forgets exactly the orientation tag: dictionaries that agree
      on everything else become equal, and only those do. */
  lemma {:induction false} WithoutOrientationForgets(e1: ExifDict, e2: ExifDict)
    ensures AgreeExceptOrientation(e1, e2) <==> WithoutOrientation(e1) == WithoutOrientation(e2)
  {
    var w1, w2 := WithoutOrientation(e1), WithoutOrientation(e2);
    if AgreeExceptOrientation(e1, e2) {
      if ZerothIfd in e1 {
        assert w1[ZerothIfd] == e1[ZerothIfd] - {Orientation};
        assert w2[ZerothIfd] == e2[ZerothIfd] - {Orientation};
      }
      assert forall k :: k in w1 ==> w1[k] == w2[k];
    }
    if w1 == w2 {
      if ZerothIfd in e1 {
        assert e1[ZerothIfd] - {Orientation} == w1[ZerothIfd];
        assert e2[ZerothIfd] - {Orientation} == w2[ZerothIfd];
      }
      assert forall k :: k in e1 && k != ZerothIfd ==> e1[k] == w1[k] == w2[k] == e2[k];
    }
  }

  /** The dictionary object that `resize_image` holds and edits in place. */
  class ExifDictionary {
    var ifds: ExifDict

    constructor (loaded: ExifDict)
      ensures ifds == loaded
    {
      ifds := loaded;
    }

    /** `if '0th' in d and Orientation in d['0th']: d['0th'].pop(Orientation, None)` */
    method PopOrientation()
      modifies this
      ensures ifds == WithoutOrientation(old(ifds))
      ensures ZerothIfd in ifds ==> Orientation !in ifds[ZerothIfd]
    {
      if ZerothIfd in ifds && Orientation in ifds[ZerothIfd] {
        var zeroth := ifds[ZerothIfd];
        zeroth := zeroth - {Orientation};
        ifds := ifds[ZerothIfd := zeroth];
      }
    }
  }
}
