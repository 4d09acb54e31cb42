/**
 * `GET /api/photos`: lists the image files in `public/photos`. The entries are
 * filtered by extension and each kept file becomes
 * `{src: "/photos/<file>", alt: "Beautiful memory - <stem>"}`, where the stem
 * is the file name up to its first `.`. A failed directory read gives an empty
 * list with status 500.
 */
module PhotosRoute {
  import opened ImageListing

  /** The public URL directory the photos are served from. */
  const UrlDir := "/photos/"
  /** The fixed text every alt label starts with. */
  const AltLead := "Beautiful memory - "

  /**
   * `file.split('.')[0]`: the text before the first `.`, or the whole name
   * when it has none.
   */
  function Stem(file: string): (stem: string)
    ensures stem <= file
    ensures '.' !in stem
    ensures |stem| < |file| ==> file[|stem|] == '.'
  {
    if file == [] || file[0] == '.' then [] else [file[0]] + Stem(file[1..])
  }

  /** The three facts Stem ensures single out one prefix: the first split piece. */
  lemma StemUnique(file: string, p: string)
    requires p <= file && '.' !in p
    requires |p| < |file| ==> file[|p|] == '.'
    ensures p == Stem(file)
  {
  }

  /** The stems called out for the alt label: the first `.` ends the stem. */
  lemma StemExamples()
    ensures Stem("a.b.jpg") == "a"
    ensures Stem(".x.png") == ""
  {
    StemUnique("a.b.jpg", "a");
    StemUnique(".x.png", "");
  }

  /** Every kept name holds a `.`, so its stem stops short of the name's end. */
  lemma StemOfImageName(file: string)
    requires IsImageName(file)
    ensures |Stem(file)| < |file| && file[|Stem(file)|] == '.'
  {
    var ext :| ext in Extensions && HasExtension(file, ext);
    assert file[|file| - |ext| - 1] == '.';
  }

  /**
   * The `.map` callback: the URL is the file under `/photos/`, and the alt
   * label is the lead text followed by the file's first split piece.
   */
  function ToImage(file: string): (img: Image)
    ensures UrlDir <= img.src && FileOf(UrlDir, img.src) == file
    ensures AltLead <= img.alt
    ensures var s := img.alt[|AltLead|..];
      s <= file && '.' !in s && (|s| < |file| ==> file[|s|] == '.')
  {
    FileOfPrefixed(UrlDir, file);
    assert (AltLead + Stem(file))[|AltLead|..] == Stem(file);
    Image(UrlDir + file, AltLead + Stem(file))
  }

  /** The route handler, with the directory read given as its result. */
  function Get(listing: Option<seq<string>>): (r: Response)
    ensures r.status == StatusError <==> listing.None?
    ensures r.status == StatusOk <==> listing.Some?
    ensures listing.None? ==> r.images == []
    ensures listing.Some? ==> |r.images| == |KeepImages(listing.value)|
  {
    match listing
    case None => Response(StatusError, [])
    case Some(files) => Response(StatusOk, MapImages(KeepImages(files), ToImage))
  }

  /**
   * Soundness: every image comes from a directory entry that passes the
   * extension filter; its URL is that entry under `/photos/` and its alt
   * label names the entry's stem.
   */
  lemma {:induction false} GetSound(files: seq<string>, k: int)
    requires 0 <= k < |Get(Some(files)).images|
    ensures var img := Get(Some(files)).images[k];
      exists f :: f in files && IsImageName(f) && img.src == UrlDir + f && img.alt == AltLead + Stem(f)
  {
    ListImagesSound(files, ToImage, k);
  }

  /** Completeness: every entry that passes the filter is listed. */
  lemma {:induction false} GetComplete(files: seq<string>, i: int)
    requires 0 <= i < |files| && IsImageName(files[i])
    ensures Image(UrlDir + files[i], AltLead + Stem(files[i])) in Get(Some(files)).images
  {
    ListImagesComplete(files, ToImage, i);
  }

  /** One image per entry that passes the filter. */
  lemma GetCount(files: seq<string>)
    ensures |Get(Some(files)).images| == |MatchIndices(files)|
  {
    KeepImagesCount(files);
  }

  /**
   * Directory order is kept: listing two runs of entries one after the other
   * gives the first run's images followed by the second's.
   */
  lemma {:induction false} GetAppend(a: seq<string>, b: seq<string>)
    ensures Get(Some(a + b)).images == Get(Some(a)).images + Get(Some(b)).images
  {
    KeepImagesAppend(a, b);
    MapImagesAppend(KeepImages(a), KeepImages(b), ToImage);
  }

  /**
   * The URLs give back the filtered listing: stripping `/photos/` from every
   * `src` yields exactly the kept entries, in order.
   */
  lemma {:induction false} GetFileNames(files: seq<string>)
    ensures forall k | 0 <= k < |Get(Some(files)).images| :: UrlDir <= Get(Some(files)).images[k].src
    ensures FileNames(UrlDir, Get(Some(files)).images) == KeepImages(files)
  {
    var kept := KeepImages(files);
    var images := Get(Some(files)).images;
    forall k | 0 <= k < |kept|
      ensures UrlDir <= images[k].src && FileOf(UrlDir, images[k].src) == kept[k]
    {
      assert images[k] == ToImage(kept[k]);
    }
  }

  /**
   * The alt label of every image is the lead text and then the part of its
   * file name before the first `.`, which is never the whole name.
   */
  lemma {:induction false} GetAltIsStem(files: seq<string>, k: int)
    requires 0 <= k < |Get(Some(files)).images|
    ensures var img := Get(Some(files)).images[k];
      var file := FileNames(UrlDir, Get(Some(files)).images)[k];
      exists stem :: img.alt == AltLead + stem && stem < file && '.' !in stem && file[|stem|] == '.'
  {
    GetFileNames(files);
    var images := Get(Some(files)).images;
    var file := KeepImages(files)[k];
    assert file in KeepImages(files);
    StemOfImageName(file);
    assert images[k] == ToImage(file);
    var stem := Stem(file);
    assert images[k].alt == AltLead + stem;
    assert stem < file && file[|stem|] == '.';
  }
}
