/** The format registry: classifies a file extension, case-insensitively,
    against a fixed allow-list of raster formats and one vector format. */
module Format {
  import opened Common

  datatype RasterFormat = Jpeg | Png | Bmp | Gif | Tiff | Webp | Avif | Heic

  datatype VectorFormat = Svg

  datatype ImageFormat = Raster(raster: RasterFormat) | Vector(vector: VectorFormat)

  /** What Path::extension yields as an OsStr: text when it is valid UTF-8
      (OsStr::to_str succeeds), otherwise nothing readable. */
  datatype OsStr = Utf8(text: string) | NotUtf8

  /** Lower-casing of one character (ASCII letters only). */
  function LowerChar(c: char): (r: char)
    ensures 'A' <= c <= 'Z' ==> 'a' <= r <= 'z' && r as int - c as int == 32
    ensures !('A' <= c <= 'Z') ==> r == c
  {
    if 'A' <= c <= 'Z' then (c as int + 32) as char else c
  }

  /** str::to_lowercase, restricted to ASCII letters. */
  function ToLower(s: string): (r: string)
    ensures |r| == |s|
    ensures forall i :: 0 <= i < |s| ==> r[i] == LowerChar(s[i])
  {
    seq(|s|, i requires 0 <= i < |s| => LowerChar(s[i]))
  }

  /** The allow-list, as get_supported_extensions returns it. */
  function SupportedExtensions(): (r: seq<string>)
    ensures |r| == 11
  {
    ["jpg", "jpeg", "png", "bmp", "gif", "tiff", "tif", "webp", "avif", "heic", "svg"]
  }

  /** ImageFormat::from_extension: match on the lower-cased extension. */
  function FromExtension(ext: string): (r: Option<ImageFormat>)
    ensures r.Some? <==> ToLower(ext) in SupportedExtensions()
    ensures r == Some(Vector(Svg)) <==> ToLower(ext) == "svg"
  {
    match ToLower(ext)
    case "jpg" => Some(Raster(Jpeg))
    case "jpeg" => Some(Raster(Jpeg))
    case "png" => Some(Raster(Png))
    case "bmp" => Some(Raster(Bmp))
    case "gif" => Some(Raster(Gif))
    case "tiff" => Some(Raster(Tiff))
    case "tif" => Some(Raster(Tiff))
    case "webp" => Some(Raster(Webp))
    case "avif" => Some(Raster(Avif))
    case "heic" => Some(Raster(Heic))
    case "svg" => Some(Vector(Svg))
    case _ => None
  }

  /** ImageFormat::from_path: the extension, then its UTF-8 text, then
      from_extension; each step may give up. How an extension is cut from
      a path is the given function `extension`. */
  function FromPath<P>(extension: P -> Option<OsStr>, path: P): (r: Option<ImageFormat>)
    ensures r.Some? ==> extension(path).Some? && extension(path).value.Utf8?
    ensures r.Some? ==> r == FromExtension(extension(path).value.text)
    ensures extension(path).Some? && extension(path).value.Utf8? ==> r == FromExtension(extension(path).value.text)
  {
    match extension(path)
    case None => None
    case Some(NotUtf8) => None
    case Some(Utf8(ext)) => FromExtension(ext)
  }

  /** ImageFormat::is_supported. */
  function IsSupported<P>(extension: P -> Option<OsStr>, path: P): (b: bool)
    ensures b <==> FromPath(extension, path).Some?
    ensures b <==> extension(path).Some? && extension(path).value.Utf8?
                   && ToLower(extension(path).value.text) in SupportedExtensions()
  {
    FromPath(extension, path).Some?
  }

  lemma {:induction false} ToLowerIdempotent(s: string)
    ensures ToLower(ToLower(s)) == ToLower(s)
  {
    var t := ToLower(s);
    forall i | 0 <= i < |s| ensures ToLower(t)[i] == t[i] {
      assert t[i] == LowerChar(s[i]);
    }
  }

  /** Classification ignores case. */
  lemma FromExtensionCaseInsensitive(ext: string)
    ensures FromExtension(ext) == FromExtension(ToLower(ext))
  {
    ToLowerIdempotent(ext);
  }

  /** "JPG", "jpg" and "jpeg" are JPEG; "tiff" and "tif" are TIFF. */
  lemma JpegAndTiffAliases()
    ensures FromExtension("JPG") == Some(Raster(Jpeg))
    ensures FromExtension("jpg") == Some(Raster(Jpeg)) && FromExtension("jpeg") == Some(Raster(Jpeg))
    ensures FromExtension("tiff") == Some(Raster(Tiff)) && FromExtension("tif") == Some(Raster(Tiff))
  {
    assert ToLower("JPG") == "jpg";
    assert ToLower("jpg") == "jpg";
    assert ToLower("jpeg") == "jpeg";
    assert ToLower("tiff") == "tiff";
    assert ToLower("tif") == "tif";
  }

  /** Every recognised extension other than "svg" is a raster format. */
  lemma OnlySvgIsVector(ext: string)
    requires FromExtension(ext).Some?
    ensures FromExtension(ext).value.Vector? <==> ToLower(ext) == "svg"
  {
  }

  /** An extension outside the list, such as "txt", is simply unsupported. */
  lemma TxtIsUnsupported()
    ensures FromExtension("txt") == None
  {
    assert ToLower("txt") == "txt";
  }

  /** The advertised list and the classifier agree in both directions. */
  lemma SupportedListConsistent(ext: string)
    ensures ext in SupportedExtensions() ==> FromExtension(ext).Some?
    ensures FromExtension(ext).Some? && ToLower(ext) == ext ==> ext in SupportedExtensions()
  {
    if ext in SupportedExtensions() {
      var i :| 0 <= i < 11 && SupportedExtensions()[i] == ext;
      assert ToLower(ext) == ext by {
        assert forall j :: 0 <= j < |ext| ==> 'a' <= ext[j] <= 'z';
      }
    }
  }

  /** Every advertised extension is recognised. */
  lemma AllSupportedRecognised()
    ensures forall i :: 0 <= i < |SupportedExtensions()| ==> FromExtension(SupportedExtensions()[i]).Some?
  {
    forall i | 0 <= i < |SupportedExtensions()| ensures FromExtension(SupportedExtensions()[i]).Some? {
      SupportedListConsistent(SupportedExtensions()[i]);
    }
  }
}
