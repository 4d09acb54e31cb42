/**
 * What the two image-listing routes share: the result of a directory read,
 * the `{src, alt}` image descriptor, the response, and the extension filter
 * `/\.(jpg|jpeg|png|gif|webp)$/i` that both routes apply to the directory's
 * entries before mapping them to descriptors.
 */
module ImageListing {

  /** The outcome of reading a directory: `None` when the read threw. */
  datatype Option<T> = None | Some(value: T)

  /** One entry of a route's `images` array. */
  datatype Image = Image(src: string, alt: string)

  /** A route's answer: the HTTP status and the `images` array of its JSON body. */
  datatype Response = Response(status: int, images: seq<Image>)

  /** The status a JSON response gets when none is given. */
  const StatusOk := 200
  /** The status both routes give when the directory cannot be read. */
  const StatusError := 500

  /** The alternatives of the extension group, as written in the pattern. */
  const Extensions: seq<string> := ["jpg", "jpeg", "png", "gif", "webp"]

  // ---------------------------------------------------------------------------
  // ASCII case mapping
  // ---------------------------------------------------------------------------

  predicate IsAsciiLower(c: char) { 'a' <= c <= 'z' }

  /** Small letter of an ASCII capital; every other character is left alone. */
  function LowerAscii(c: char): (d: char)
    ensures !('A' <= d <= 'Z')
    ensures d != c ==> 'A' <= c <= 'Z'
    ensures 'A' <= c <= 'Z' ==> UpperAscii(d) == c
  {
    if 'A' <= c <= 'Z' then (c as int + 32) as char else c
  }

  /** Capital of an ASCII small letter; every other character is left alone. */
  function UpperAscii(c: char): (d: char)
    ensures !IsAsciiLower(d)
    ensures d != c ==> IsAsciiLower(c)
  {
    if IsAsciiLower(c) then (c as int - 32) as char else c
  }

  /** The string with every ASCII capital replaced by its small letter. */
  function Lower(s: string): (t: string)
    ensures |t| == |s|
    ensures forall i | 0 <= i < |t| :: !('A' <= t[i] <= 'Z')
    ensures forall i | 0 <= i < |t| :: UpperAscii(t[i]) == UpperAscii(s[i])
  {
    seq(|s|, i requires 0 <= i < |s| => LowerAscii(s[i]))
  }

  // ---------------------------------------------------------------------------
  // The extension filter
  // ---------------------------------------------------------------------------

  /** `name` ends in `.` followed by `ext`, ignoring the case of ASCII letters. */
  predicate HasExtension(name: string, ext: string)
  {
    |name| > |ext| && name[|name| - |ext| - 1] == '.' && Lower(name[|name| - |ext|..]) == ext
  }

  /** The filter both routes apply to every directory entry. */
  predicate IsImageName(name: string)
    ensures IsImageName(name) ==> |name| >= 4 && '.' in name
  {
    exists ext :: ext in Extensions && HasExtension(name, ext)
  }

  /**
   * The pattern as the regular-expression engine reads it: a match of the
   * alternative `alt` begins at position `i` with a literal `.`, the
   * alternative's letters follow, compared after the engine's case
   * canonicalisation (upper-casing), and then the input ends (`$` without the
   * multiline flag).
   */
  ghost predicate MatchesAt(name: string, i: int, alt: string)
  {
    0 <= i < |name| && name[i] == '.' && i + 1 + |alt| == |name| &&
    forall j | 0 <= j < |alt| :: UpperAscii(name[i + 1 + j]) == UpperAscii(alt[j])
  }

  /** `RegExp.prototype.test`: some start position and some alternative match. */
  ghost predicate RegexTest(name: string)
    ensures RegexTest(name) ==> |name| >= 4 && '.' in name
  {
    exists i, alt :: alt in Extensions && MatchesAt(name, i, alt)
  }

  lemma ExtensionsAreLowerLetters(ext: string)
    requires ext in Extensions
    ensures forall j | 0 <= j < |ext| :: IsAsciiLower(ext[j])
  {
  }

  /** Lower-casing a character to `e` and upper-casing it to `e`'s capital agree. */
  lemma {:induction false} FoldingAgrees(c: char, e: char)
    requires IsAsciiLower(e)
    ensures LowerAscii(c) == e <==> UpperAscii(c) == UpperAscii(e)
  {
    if IsAsciiLower(c) {
      assert LowerAscii(c) == c;
    } else if 'A' <= c <= 'Z' {
      assert UpperAscii(c) == c;
    } else {
      assert LowerAscii(c) == c && UpperAscii(c) == c;
    }
  }

  /** A name that passes the suffix check is matched by the pattern. */
  lemma {:induction false} SuffixCheckMatches(name: string, ext: string)
    requires ext in Extensions && HasExtension(name, ext)
    ensures MatchesAt(name, |name| - |ext| - 1, ext)
  {
    var i, tail := |name| - |ext| - 1, name[|name| - |ext|..];
    ExtensionsAreLowerLetters(ext);
    forall j | 0 <= j < |ext| ensures UpperAscii(name[i + 1 + j]) == UpperAscii(ext[j]) {
      assert tail[j] == name[i + 1 + j];
      assert Lower(tail)[j] == ext[j];
      FoldingAgrees(name[i + 1 + j], ext[j]);
    }
  }

  /** A match of the pattern is found by the suffix check. */
  lemma {:induction false} MatchPassesSuffixCheck(name: string, i: int, alt: string)
    requires alt in Extensions && MatchesAt(name, i, alt)
    ensures HasExtension(name, alt)
  {
    ExtensionsAreLowerLetters(alt);
    var tail := name[|name| - |alt|..];
    forall j | 0 <= j < |alt| ensures Lower(tail)[j] == alt[j] {
      assert tail[j] == name[i + 1 + j];
      FoldingAgrees(name[i + 1 + j], alt[j]);
    }
  }

  /**
   * The suffix check is exactly the regular expression: a name passes the
   * filter if and only if the case-insensitive pattern finds a match in it.
   */
  lemma {:induction false} IsImageNameMatchesRegex(name: string)
    ensures IsImageName(name) <==> RegexTest(name)
  {
    if IsImageName(name) {
      var ext :| ext in Extensions && HasExtension(name, ext);
      SuffixCheckMatches(name, ext);
    }
    if RegexTest(name) {
      var i, alt :| alt in Extensions && MatchesAt(name, i, alt);
      MatchPassesSuffixCheck(name, i, alt);
    }
  }

  /** Lower-casing twice is lower-casing once. */
  lemma LowerIdempotent(s: string)
    ensures Lower(Lower(s)) == Lower(s)
  {
  }

  /** Lower-casing leaves the `.` of an extension where it was. */
  lemma {:induction false} HasExtensionIgnoresCase(name: string, ext: string)
    ensures HasExtension(Lower(name), ext) <==> HasExtension(name, ext)
  {
    if |name| > |ext| {
      var a := |name| - |ext|;
      assert Lower(name)[a..] == Lower(name[a..]);
      LowerIdempotent(name[a..]);
      assert Lower(name)[a - 1] == '.' <==> name[a - 1] == '.';
    }
  }

  /** Only the letters' case is ignored: a name and its lower-cased form are filtered alike. */
  lemma {:induction false} IsImageNameIgnoresCase(name: string)
    ensures IsImageName(Lower(name)) <==> IsImageName(name)
  {
    forall ext | ext in Extensions ensures HasExtension(Lower(name), ext) <==> HasExtension(name, ext) {
      HasExtensionIgnoresCase(name, ext);
    }
  }

  /** The cases called out for the filter: case is ignored, only the very end counts. */
  lemma FilterExamples()
    ensures IsImageName("a.JPG")
    ensures IsImageName(".png")
    ensures !IsImageName("a.jpg.txt")
    ensures !IsImageName("jpg")
  {
    assert HasExtension("a.JPG", "jpg") by {
      assert "a.JPG"[2..] == "JPG";
    }
    assert HasExtension(".png", "png") by {
      assert ".png"[1..] == "png";
    }
    var name := "a.jpg.txt";
    forall ext | ext in Extensions ensures !HasExtension(name, ext) {
      if |ext| == 3 {
        assert Lower(name[6..])[0] == LowerAscii('t') == 't' != ext[0];
      } else {
        assert name[4] == 'g';
      }
    }
  }

  /**
   * `files.filter(file => pattern.test(file))`: the entries that pass the
   * filter, in directory order.
   */
  function KeepImages(files: seq<string>): (kept: seq<string>)
    ensures |kept| <= |files|
    ensures forall f | f in kept :: IsImageName(f)
  {
    if files == [] then []
    else (if IsImageName(files[0]) then [files[0]] else []) + KeepImages(files[1..])
  }

  /**
   * Only matching names are kept, and every matching name is kept as often
   * as it occurs in the listing.
   */
  lemma {:induction false} KeepImagesMultiset(files: seq<string>)
    ensures forall f :: multiset(KeepImages(files))[f] == if IsImageName(f) then multiset(files)[f] else 0
  {
    if files != [] {
      assert files == [files[0]] + files[1..];
      KeepImagesMultiset(files[1..]);
    }
  }

  /** Filtering a concatenation filters each part and keeps them in order. */
  lemma {:induction false} KeepImagesAppend(a: seq<string>, b: seq<string>)
    ensures KeepImages(a + b) == KeepImages(a) + KeepImages(b)
  {
    if a == [] {
      assert a + b == b;
    } else {
      var head := if IsImageName(a[0]) then [a[0]] else [];
      assert (a + b)[0] == a[0] && (a + b)[1..] == a[1..] + b;
      calc {
        KeepImages(a + b);
        head + KeepImages(a[1..] + b);
        { KeepImagesAppend(a[1..], b); }
        head + (KeepImages(a[1..]) + KeepImages(b));
        (head + KeepImages(a[1..])) + KeepImages(b);
        KeepImages(a) + KeepImages(b);
      }
    }
  }

  /** A single entry is kept exactly when it passes the filter. */
  lemma KeepImagesSingle(f: string)
    ensures KeepImages([f]) == if IsImageName(f) then [f] else []
  {
    assert [f][1..] == [];
  }

  /** The positions of the directory listing whose names pass the filter. */
  ghost function MatchIndices(files: seq<string>): set<int>
  {
    set i | 0 <= i < |files| && IsImageName(files[i])
  }

  /** One kept entry per matching position of the listing. */
  lemma {:induction false} KeepImagesCount(files: seq<string>)
    ensures |KeepImages(files)| == |MatchIndices(files)|
  {
    if files == [] {
      assert MatchIndices(files) == {};
    } else {
      var n := |files| - 1;
      var init, last := files[..n], files[n];
      assert files == init + [last];
      KeepImagesAppend(init, [last]);
      KeepImagesSingle(last);
      KeepImagesCount(init);
      MatchIndicesSnoc(init, last);
    }
  }

  lemma MatchIndicesSnoc(init: seq<string>, last: string)
    ensures |MatchIndices(init + [last])| ==
            |MatchIndices(init)| + if IsImageName(last) then 1 else 0
  {
    var files, n := init + [last], |init|;
    var before, after := MatchIndices(init), MatchIndices(files);
    var rest: set<int> := if IsImageName(last) then {n} else {};
    forall i | i in after ensures i in before + rest {
      if i < n { assert files[i] == init[i]; }
    }
    forall i | i in before + rest ensures i in after {
      if i < n { assert files[i] == init[i]; }
    }
    assert after == before + rest;
    assert n !in before;
  }

  /** A listing whose every entry passes the filter is returned whole. */
  lemma {:induction false} KeepImagesAllMatch(files: seq<string>)
    requires forall i | 0 <= i < |files| :: IsImageName(files[i])
    ensures KeepImages(files) == files
  {
    if files != [] {
      KeepImagesAllMatch(files[1..]);
    }
  }

  // ---------------------------------------------------------------------------
  // The map step
  // ---------------------------------------------------------------------------

  /** `kept.map(toImage)`: one descriptor per kept name, in the same order. */
  function MapImages(kept: seq<string>, toImage: string -> Image): (images: seq<Image>)
    ensures |images| == |kept|
  {
    seq(|kept|, k requires 0 <= k < |kept| => toImage(kept[k]))
  }

  /** Mapping a concatenation maps each part and keeps them in order. */
  lemma {:induction false} MapImagesAppend(a: seq<string>, b: seq<string>, toImage: string -> Image)
    ensures MapImages(a + b, toImage) == MapImages(a, toImage) + MapImages(b, toImage)
  {
    var iab, ia, ib := MapImages(a + b, toImage), MapImages(a, toImage), MapImages(b, toImage);
    assert |iab| == |ia| + |ib|;
    forall k | 0 <= k < |iab| ensures iab[k] == (ia + ib)[k] {
      assert iab[k] == toImage((a + b)[k]);
      if k < |a| {
        assert ia[k] == toImage(a[k]);
      } else {
        assert ib[k - |a|] == toImage(b[k - |a|]);
      }
    }
  }

  /**
   * Filtering and then mapping is sound: every descriptor is the image of a
   * listed entry that passes the filter.
   */
  lemma {:induction false} ListImagesSound(files: seq<string>, toImage: string -> Image, k: int)
    requires 0 <= k < |KeepImages(files)|
    ensures exists f :: f in files && IsImageName(f) && MapImages(KeepImages(files), toImage)[k] == toImage(f)
  {
    var kept := KeepImages(files);
    KeepImagesMultiset(files);
    var f := kept[k];
    assert f in kept;
    assert multiset(kept)[f] > 0;
    assert f in multiset(files);
    assert MapImages(kept, toImage)[k] == toImage(f);
  }

  /** Filtering and then mapping is complete: every matching entry's image is listed. */
  lemma {:induction false} ListImagesComplete(files: seq<string>, toImage: string -> Image, i: int)
    requires 0 <= i < |files| && IsImageName(files[i])
    ensures toImage(files[i]) in MapImages(KeepImages(files), toImage)
  {
    var kept := KeepImages(files);
    KeepImagesMultiset(files);
    assert files[i] in multiset(files);
    assert multiset(kept)[files[i]] > 0;
    var k :| 0 <= k < |kept| && kept[k] == files[i];
    assert MapImages(kept, toImage)[k] == toImage(files[i]);
  }

  // ---------------------------------------------------------------------------
  // Reading file names back from image URLs
  // ---------------------------------------------------------------------------

  /** The file part of a URL served from `dir`: what follows the prefix. */
  function FileOf(dir: string, src: string): (file: string)
    ensures dir <= src ==> dir + file == src
  {
    if dir <= src then src[|dir|..] else src
  }

  /** The file names behind a list of images served from `dir`. */
  function FileNames(dir: string, images: seq<Image>): (files: seq<string>)
    ensures |files| == |images|
    ensures forall k | 0 <= k < |images| :: dir <= images[k].src ==> dir + files[k] == images[k].src
  {
    seq(|images|, k requires 0 <= k < |images| => FileOf(dir, images[k].src))
  }

  lemma FileOfPrefixed(dir: string, file: string)
    ensures FileOf(dir, dir + file) == file
  {
    assert dir <= dir + file;
    assert (dir + file)[|dir|..] == file;
  }
}
