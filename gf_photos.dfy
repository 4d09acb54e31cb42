/**
 * `GET /api/gf-photos`: lists the image files in `public/gf-photos`. The same extension filter
 * as the photos route; each kept file becomes
 * `{src: "/gf-photos/<file>", alt: "Beautiful memory"}`. A failed directory
 * read gives an empty list with status 500.
 */
module GfPhotosRoute {
  import opened ImageListing
  import PhotosRoute

  /** The public URL directory the listed files are served from. */
  const UrlDir := "/gf-photos/"
  /** The alt label every listed image gets. */
  const Alt := "Beautiful memory"

  /** The `.map` callback: the URL is the file under `/gf-photos/` and the alt label is fixed. */
  function ToImage(file: string): (img: Image)
    ensures UrlDir <= img.src && FileOf(UrlDir, img.src) == file
    ensures img.alt == Alt
  {
    FileOfPrefixed(UrlDir, file);
    Image(UrlDir + file, Alt)
  }

  /** The route handler, with the directory read given as its result. */
  function Get(listing: Option<seq<string>>): (r: Response)
    ensures r.status == StatusError <==> listing.None?
    ensures r.status == StatusOk <==> listing.Some?
    ensures listing.None? ==> r.images == []
    ensures listing.Some? ==> |r.images| == |KeepImages(listing.value)|
    ensures forall img | img in r.images :: img.alt == Alt
  {
    match listing
    case None => Response(StatusError, [])
    case Some(files) => Response(StatusOk, MapImages(KeepImages(files), ToImage))
  }

  /**
   * Soundness: every image comes from a directory entry that passes the
   * extension filter, served under `/gf-photos/`.
   */
  lemma {:induction false} GetSound(files: seq<string>, k: int)
    requires 0 <= k < |Get(Some(files)).images|
    ensures exists f :: f in files && IsImageName(f) && Get(Some(files)).images[k].src == UrlDir + f
  {
    ListImagesSound(files, ToImage, k);
  }

  /** Completeness: every entry that passes the filter is listed. */
  lemma {:induction false} GetComplete(files: seq<string>, i: int)
    requires 0 <= i < |files| && IsImageName(files[i])
    ensures Image(UrlDir + files[i], Alt) in Get(Some(files)).images
  {
    ListImagesComplete(files, ToImage, i);
  }

  /** One image per entry that passes the filter. */
  lemma GetCount(files: seq<string>)
    ensures |Get(Some(files)).images| == |MatchIndices(files)|
  {
    KeepImagesCount(files);
  }

  /** Directory order is kept, as for the photos route. */
  lemma {:induction false} GetAppend(a: seq<string>, b: seq<string>)
    ensures Get(Some(a + b)).images == Get(Some(a)).images + Get(Some(b)).images
  {
    KeepImagesAppend(a, b);
    MapImagesAppend(KeepImages(a), KeepImages(b), ToImage);
  }

  /**
   * The URLs give back the filtered listing: stripping `/gf-photos/` from
   * every `src` yields exactly the kept entries, in order.
   */
  lemma {:induction false} GetFileNames(files: seq<string>)
    ensures forall k | 0 <= k < |Get(Some(files)).images| :: UrlDir <= Get(Some(files)).images[k].src
    ensures FileNames(UrlDir, Get(Some(files)).images) == KeepImages(files)
  {
    var kept := KeepImages(files);
    var images := Get(Some(files)).images;
    forall k | 0 <= k < |kept|
      ensures UrlDir <= images[k].src && FileOf(UrlDir, images[k].src) == kept[k]
    {
      assert images[k] == ToImage(kept[k]);
    }
  }

  /**
   * Both routes answer alike for the same directory read: the same status and
   * the same files in the same order; only the URL directory and the alt
   * labels differ. The model gives both routes the one filter `IsImageName`
   * because their source files test entries with the same regular-expression
   * literal; this lemma follows from that shared filter and from each route's
   * URLs giving its files back, it does not compare two filters.
   */
  lemma {:induction false} SameSelectionAsPhotos(listing: Option<seq<string>>)
    ensures Get(listing).status == PhotosRoute.Get(listing).status
    ensures FileNames(UrlDir, Get(listing).images) ==
            FileNames(PhotosRoute.UrlDir, PhotosRoute.Get(listing).images)
  {
    match listing
    case None =>
    case Some(files) =>
      GetFileNames(files);
      PhotosRoute.GetFileNames(files);
  }
}
