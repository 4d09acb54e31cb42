# Image-listing routes of the birthday site

The site has two read-only endpoints that list the pictures in a public
directory. `GET /api/photos` lists the image files in `public/photos` and
`GET /api/gf-photos` lists those in `public/gf-photos`. Each handler reads the directory and keeps the
entries whose names match `/\.(jpg|jpeg|png|gif|webp)$/i`, in directory order.
It maps each kept entry to an `{src, alt}` descriptor and answers with
`{ images }`. If the directory read throws, the answer is `{ images: [] }`
with status 500.

This project models that logic as pure Dafny functions, in three modules:

- `ImageListing` (`listing.dfy`) holds what both routes share. It has the
  directory read as `Option<seq<string>>` (`None` means the read threw), the
  `Image` and `Response` values, and the extension filter. The filter is
  written two ways. `IsImageName` lower-cases the name's tail and compares it
  with the five extensions. `RegexTest` follows the regular expression: a match
  starts at some position with `.` and the letters are compared after the
  engine's upper-case canonicalisation. `IsImageNameMatchesRegex` proves the
  two are the same predicate. `KeepImages` is the `filter` step and
  `MapImages` the `.map` step; their order, soundness and completeness are
  proved once here, for any mapping callback.
- `PhotosRoute` (`photos.dfy`) is the photos handler. The `src` is
  `/photos/<file>` and the `alt` is `Beautiful memory - ` followed by
  `file.split('.')[0]`.
- `GfPhotosRoute` (`gf_photos.dfy`) is the gf-photos handler. The `src` is
  `/gf-photos/<file>` and the `alt` is always `Beautiful memory`.

The regular expression has no `u` flag. Its case-insensitive match never maps
a non-ASCII character onto an ASCII one, so folding only ASCII letters is
exact. Without the `m` flag, `$` matches only at the end of the name.
`RegExp.prototype.test` on a regex without the `g` flag keeps no state between
calls.

The handlers do not de-duplicate entries, so `src` values are distinct only
because directory entry names are. The model keeps every listed entry that
matches, as often as it is listed.

## Model

| member | source | states |
|---|---|---|
| ImageListing.IsImageName | src/app/api/photos/route.ts:12 | the filter both routes apply: the name ends in `.` followed by one of `jpg`, `jpeg`, `png`, `gif`, `webp` after ASCII lower-casing; a passing name has at least four characters and contains `.` |
| ImageListing.RegexTest | src/app/api/photos/route.ts:12 | `pattern.test(file)` as the engine runs it: at some start position a `.` is followed by one alternative, letters compared after upper-case canonicalisation, and then the input ends; a matching name has at least four characters and contains `.` |
| ImageListing.SuffixCheckMatches | src/app/api/photos/route.ts:12 | a name that passes the suffix check for an extension is matched by the pattern at the `.` just before that extension |
| ImageListing.MatchPassesSuffixCheck | src/app/api/photos/route.ts:12 | a match of the pattern at any position passes the suffix check for the same extension |
| ImageListing.IsImageNameMatchesRegex | src/app/api/photos/route.ts:11-13 | the lower-casing suffix check holds exactly when the case-insensitive pattern `\.(jpg\|jpeg\|png\|gif\|webp)$` finds a match at some start position (both directions) |
| ImageListing.FoldingAgrees | src/app/api/photos/route.ts:12 | for an extension letter, lower-casing a character to it and upper-canonicalising both sides, as the `i` flag does, agree |
| ImageListing.HasExtensionIgnoresCase | src/app/api/photos/route.ts:12 | a name and its lower-cased form end in the same extension or in none |
| ImageListing.IsImageNameIgnoresCase | src/app/api/photos/route.ts:12 | the `i` flag: a name passes the filter exactly when its lower-cased form does |
| ImageListing.FilterExamples | src/app/api/photos/route.ts:11-13 | `a.JPG` and `.png` pass the filter; `a.jpg.txt` and `jpg` do not |
| ImageListing.KeepImages | src/app/api/photos/route.ts:11-13 | the filter step returns only names that pass the filter, and never more names than the listing has |
| ImageListing.KeepImagesMultiset | src/app/api/photos/route.ts:11-13 | the filter keeps every matching name exactly as often as the listing holds it and drops every other name (multiset equality restricted to matches) |
| ImageListing.KeepImagesAppend | src/app/api/photos/route.ts:11-13 | filtering keeps directory order: filtering a concatenation is the concatenation of the filtered parts |
| ImageListing.KeepImagesSingle | src/app/api/photos/route.ts:11-13 | a one-entry listing is kept exactly when that entry matches, so no criterion other than the pattern removes entries |
| ImageListing.KeepImagesCount | src/app/api/photos/route.ts:11-13 | the filtered list has one entry per matching position of the listing |
| ImageListing.KeepImagesAllMatch | src/app/api/photos/route.ts:11-13 | a listing whose entries all match is returned unchanged |
| ImageListing.MapImages | src/app/api/photos/route.ts:16-19 | the `.map` step gives exactly one descriptor per kept name |
| ImageListing.MapImagesAppend | src/app/api/photos/route.ts:16-19 | mapping keeps order: mapping a concatenation is the concatenation of the mapped parts |
| ImageListing.ListImagesSound | src/app/api/photos/route.ts:11-19 | after filtering and mapping, every descriptor is the callback's image of a listed entry that passes the filter |
| ImageListing.ListImagesComplete | src/app/api/photos/route.ts:11-19 | after filtering and mapping, the image of every listed matching entry is present |
| PhotosRoute.Stem | src/app/api/photos/route.ts:18 | `file.split('.')[0]` is a prefix of the name with no `.` in it, and it is the whole name or is followed by `.` |
| PhotosRoute.StemUnique | src/app/api/photos/route.ts:18 | those three facts determine the stem: any prefix with them equals `Stem` |
| PhotosRoute.StemExamples | src/app/api/photos/route.ts:18 | `a.b.jpg` has stem `a`; `.x.png` has the empty stem |
| PhotosRoute.StemOfImageName | src/app/api/photos/route.ts:11-18 | a name that passes the filter contains a `.`, so its stem is shorter than the name and is followed by `.` |
| PhotosRoute.ToImage | src/app/api/photos/route.ts:16-19 | the `.map` callback: `src` starts with `/photos/` and removing it gives the file back; `alt` is `Beautiful memory - ` followed by a prefix of the file name that has no `.` and is the whole name or is followed by `.`, which `StemUnique` pins to `file.split('.')[0]` |
| PhotosRoute.Get | src/app/api/photos/route.ts:5-25 | status 500 with an empty list exactly when the read fails; otherwise the default 200, even for an empty list, with one image per kept entry |
| PhotosRoute.GetSound | src/app/api/photos/route.ts:11-19 | every image comes from a listed entry that passes the filter; its `src` is `/photos/` + entry and its `alt` is `Beautiful memory - ` + the entry's stem |
| PhotosRoute.GetComplete | src/app/api/photos/route.ts:11-19 | every listed entry that passes the filter appears as the image with `src` `/photos/` + entry and `alt` `Beautiful memory - ` + its stem |
| PhotosRoute.GetCount | src/app/api/photos/route.ts:11-19 | the number of images equals the number of matching positions in the listing |
| PhotosRoute.GetAppend | src/app/api/photos/route.ts:11-19 | images follow directory order: the images of a concatenated listing are those of its parts, concatenated |
| PhotosRoute.GetFileNames | src/app/api/photos/route.ts:16-17 | every `src` starts with `/photos/`, and stripping it gives back exactly the filtered listing, in order |
| PhotosRoute.GetAltIsStem | src/app/api/photos/route.ts:18 | each `alt` is `Beautiful memory - ` + a proper prefix of the image's file name that has no `.` and is followed by `.` |
| GfPhotosRoute.ToImage | src/app/api/gf-photos/route.ts:20-23 | the `.map` callback: `src` starts with `/gf-photos/` and removing it gives the file back; `alt` is always `Beautiful memory` |
| GfPhotosRoute.Get | src/app/api/gf-photos/route.ts:5-30 | status 500 with an empty list exactly when the read fails; otherwise 200 with one image per kept entry; every `alt` is `Beautiful memory` |
| GfPhotosRoute.GetSound | src/app/api/gf-photos/route.ts:14-23 | every image comes from a listed entry that passes the filter; its `src` is `/gf-photos/` + entry |
| GfPhotosRoute.GetComplete | src/app/api/gf-photos/route.ts:14-23 | every listed entry that passes the filter appears as the image with `src` `/gf-photos/` + entry and `alt` `Beautiful memory` |
| GfPhotosRoute.GetCount | src/app/api/gf-photos/route.ts:14-23 | the number of images equals the number of matching positions in the listing |
| GfPhotosRoute.GetAppend | src/app/api/gf-photos/route.ts:14-23 | images follow directory order |
| GfPhotosRoute.GetFileNames | src/app/api/gf-photos/route.ts:20-21 | every `src` starts with `/gf-photos/`, and stripping it gives back exactly the filtered listing, in order |
| GfPhotosRoute.SameSelectionAsPhotos | src/app/api/gf-photos/route.ts:14-16 | for the same directory read, both routes give the same status and list the same files in the same order; the model gives both routes the one filter `IsImageName` because both source files test entries with the same regex literal (photos/route.ts:12, gf-photos/route.ts:15), and the lemma follows from that shared filter rather than comparing two |

## Left out

- Reading the directory (`fs.readdirSync`, `path.join`, `process.cwd()`) is file-system I/O. The model takes the read's outcome as a parameter: the entries, or `None` when the read throws.
- `NextResponse.json` and JSON serialisation are framework code. A response is modelled as a status and the `images` sequence.
- The `console.log` and `console.error` calls only log. They are left out. Each `Get` is a function of the directory read alone, so logging cannot change the returned list.
- Names are sequences of Dafny characters. JavaScript strings are UTF-16 code units. The pattern and `split('.')` only look at ASCII characters, so the difference does not affect the result.
- `src/app/page.tsx` is not part of this model. It holds the page's markup, React state, random heart positions, timers and the confetti library. None of that is logic that can be stated apart from the UI. Its gallery is a fixed three-image grid.
- `tailwind.config.ts` is styling configuration with no logic.
- Carousel rotation and collage sampling are not modelled: neither route handler nor `src/app/page.tsx` contains code for them.
