/** `resize_image`: decode the attachment, rotate it upright, drop the EXIF
    orientation tag, shrink it into 1920x1080 and write it as JPEG.

    Every step except the tag removal is a Pillow or piexif call and is a field
    of `ImageLib`; each of them may raise, which is a `Failure`. */
module ImagePipeline {
  import opened Wrappers
  import opened Mime
  import opened Exif

  /** A decoded Pillow image: its size, the raw EXIF block found in `img.info`
      (if any) and its pixels. */
  datatype Image = Image(width: nat, height: nat, exif: Option<seq<byte>>, raster: seq<byte>)

  datatype ImageLib = ImageLib(
    open: seq<byte> -> Result<Image, Exception>,                        // Image.open
    loadExif: seq<byte> -> Result<ExifDict, Exception>,                 // piexif.load
    exifTranspose: Image -> Result<Image, Exception>,                   // ImageOps.exif_transpose
    thumbnail: (Image, nat, nat, nat) -> Result<Image, Exception>,      // img.thumbnail(max_size, filter)
    dumpExif: ExifDict -> Result<seq<byte>, Exception>,                 // piexif.dump
    save: (Image, string, nat, bool, seq<byte>) -> Result<seq<byte>, Exception>  // img.save(...)
  )

  const MaxWidth: nat := 1920
  const MaxHeight: nat := 1080
  const OutputFormat: string := "JPEG"
  const JpegQuality: nat := 90
  /** `Image.LANCZOS`, the resampling filter handed to `thumbnail`. */
  const Lanczos: nat := 1

  /** `img.info.get('exif', b'')` */
  function ExifBlock(img: Image): seq<byte> {
    match img.exif
    case Some(b) => b
    case None => []
  }

  /** The bytes `resize_image(data)` returns, or the exception it raises. */
  function Resized(lib: ImageLib, data: seq<byte>): Result<seq<byte>, Exception> {
    var img :- lib.open(data);
    var exif :- lib.loadExif(ExifBlock(img));
    var upright :- lib.exifTranspose(img);
    var small :- lib.thumbnail(upright, MaxWidth, MaxHeight, Lanczos);
    var exifBytes :- lib.dumpExif(WithoutOrientation(exif));
    lib.save(small, OutputFormat, JpegQuality, true, exifBytes)
  }

  /** `resize_image` as the source runs it, step by step. */
  method ResizeImage(lib: ImageLib, data: seq<byte>) returns (r: Result<seq<byte>, Exception>)
    ensures r == Resized(lib, data)
  {
    var img :- lib.open(data);
    var loaded :- lib.loadExif(ExifBlock(img));
    var exifDict := new ExifDictionary(loaded);
    img :- lib.exifTranspose(img);
    exifDict.PopOrientation();
    img :- lib.thumbnail(img, MaxWidth, MaxHeight, Lanczos);
    var exifBytes :- lib.dumpExif(exifDict.ifds);
    r := lib.save(img, OutputFormat, JpegQuality, true, exifBytes);
  }

  /** A decoding failure of the attachment is raised unchanged. */
  lemma ResizedRaisesOnUndecodable(lib: ImageLib, data: seq<byte>)
    requires lib.open(data).Failure?
    ensures Resized(lib, data) == Failure(lib.open(data).error)
  {
  }

  /** Two EXIF loads that agree except, possibly, on the orientation tag. */
  predicate SameLoadExceptOrientation(r1: Result<ExifDict, Exception>, r2: Result<ExifDict, Exception>) {
    || (r1.Failure? && r2 == r1)
    || (r1.Success? && r2.Success? && AgreeExceptOrientation(r1.value, r2.value))
  }

  /** The written image carries no orientation instruction of the original:
      whatever orientation tag the loaded EXIF holds, the output is the same. */
  lemma {:induction false} ResizedIgnoresOrientationTag(lib: ImageLib, load2: seq<byte> -> Result<ExifDict, Exception>, data: seq<byte>)
    requires forall b :: SameLoadExceptOrientation(lib.loadExif(b), load2(b))
    ensures Resized(lib, data) == Resized(lib.(loadExif := load2), data)
  {
    var lib2 := lib.(loadExif := load2);
    match lib.open(data)
    case Failure(_) =>
    case Success(img) =>
      var b := ExifBlock(img);
      assert SameLoadExceptOrientation(lib.loadExif(b), load2(b));
      if lib.loadExif(b).Success? {
        WithoutOrientationForgets(lib.loadExif(b).value, load2(b).value);
      }
  }
}
