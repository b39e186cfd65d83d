/**
 * The parts of the abstract ScrapeWorker that do not depend on which site is
 * crawled: fetching a page, deriving the local file name of an image and
 * deciding whether to store it, and the progress report.
 *
 * Network and disk are inputs: a fetch is given as its outcome (`Fetch`), the
 * existing-image directory as the set of its entry names (or its absence).
 */
module ScrapeWorker {
  import opened Wrappers
  import opened JavaStrings
  import opened TreeMaps

  /** Outcome of one Jsoup request: a document, an HttpStatusException, or another IOException. */
  datatype Fetch<D> = Fetched(doc: D) | HttpStatusFailure | IoFailure

  /** `getPage`: the document, or null on either kind of failure; only an IOException is logged. */
  datatype PageResult<D> = PageResult(page: Option<D>, logged: bool)

  function GetPage<D>(r: Fetch<D>): (res: PageResult<D>)
    ensures res.page.Some? <==> r.Fetched?
    ensures r.Fetched? ==> res.page.value == r.doc
    ensures res.logged <==> r.IoFailure?
  {
    match r
    case Fetched(doc) => PageResult(Some(doc), false)
    case HttpStatusFailure => PageResult(None, false)
    case IoFailure => PageResult(None, true)
  }

  // ---------------------------------------------------------------------
  // downloadImage
  // ---------------------------------------------------------------------

  /** The one image that is never stored, whatever the store holds. */
  const DenyListed: string := "all-my-ts_56010"

  /** Separator the paths are built with. */
  const PathSeparator: char := '\\'

  /** The response of the image request: only its Content-Type header (possibly absent) matters. */
  datatype ImageResponse = ImageResponse(contentType: Option<string>)

  /**
   * `contentType().split("/")[1]`: the subtype of a `type/subtype` media type
   * (section 5.1 of RFC 2045). None where Java throws: a missing header or a
   * split with fewer than two fields.
   */
  function ContentSubtype(contentType: Option<string>): (r: Option<string>)
    ensures r.Some? <==> contentType.Some? && HasFieldAfterDelimiter(contentType.value, '/')
    ensures r.Some? ==> '/' !in r.value && |Pieces(contentType.value, '/')| >= 2
                        && r.value == Pieces(contentType.value, '/')[1]
  {
    match contentType
    case None => None
    case Some(ct) =>
      SplitHasSecond(ct, '/');
      var fields := Split(ct, '/');
      if |fields| >= 2 then Some(fields[1]) else None
  }

  /** `imageUrl.split("/")[1].replace(".", "_")`, None where the split has fewer than two fields. */
  function ImageStem(imageUrl: string): (r: Option<string>)
    ensures r.Some? <==> HasFieldAfterDelimiter(imageUrl, '/')
    ensures r.Some? ==> '.' !in r.value && '/' !in r.value
    ensures r.Some? ==> |Pieces(imageUrl, '/')| >= 2 && r.value == ReplaceChar(Pieces(imageUrl, '/')[1], '.', '_')
  {
    SplitHasSecond(imageUrl, '/');
    var fields := Split(imageUrl, '/');
    if |fields| >= 2 then Some(ReplaceChar(fields[1], '.', '_')) else None
  }

  /**
   * The local file name of an image: the sanitized second path segment, a
   * dot, the content subtype. None where `downloadImage` throws an uncaught
   * runtime exception instead.
   */
  function LocalFileName(imageUrl: string, contentType: Option<string>): (r: Option<string>)
    ensures r.Some? <==> contentType.Some? && HasFieldAfterDelimiter(contentType.value, '/')
                         && HasFieldAfterDelimiter(imageUrl, '/')
    ensures r.Some? ==> r.value == ImageStem(imageUrl).value + "." + ContentSubtype(contentType).value
    ensures r.Some? ==> ParseFileName(r.value) == (ImageStem(imageUrl).value, ContentSubtype(contentType).value)
  {
    match (ImageStem(imageUrl), ContentSubtype(contentType))
    case (Some(stem), Some(ext)) =>
      ParseFileNameOf(stem, ext);
      Some(stem + "." + ext)
    case _ => None
  }

  /** Splits a file name at its first dot: stem and extension. */
  function ParseFileName(name: string): (string, string)
  {
    if '.' !in name then (name, "")
    else if name[0] == '.' then ("", name[1..])
    else
      var (stem, ext) := ParseFileName(name[1..]);
      ([name[0]] + stem, ext)
  }

  /** Since the stem holds no dot, the first dot of a derived name separates stem and extension. */
  lemma {:induction false} ParseFileNameOf(stem: string, ext: string)
    requires '.' !in stem
    ensures ParseFileName(stem + "." + ext) == (stem, ext)
  {
    var name := stem + "." + ext;
    assert name[|stem|] == '.';
    if stem != [] {
      assert name[1..] == stem[1..] + "." + ext;
      ParseFileNameOf(stem[1..], ext);
      assert [stem[0]] + stem[1..] == stem;
    } else {
      assert name[1..] == ext;
    }
  }

  /**
   * Different (path segment, subtype) pairs never collide on one file name
   * unless their sanitized stems and subtypes coincide.
   */
  lemma LocalFileNameInjective(url1: string, ct1: Option<string>, url2: string, ct2: Option<string>)
    requires LocalFileName(url1, ct1).Some? && LocalFileName(url1, ct1) == LocalFileName(url2, ct2)
    ensures ImageStem(url1) == ImageStem(url2)
    ensures ContentSubtype(ct1) == ContentSubtype(ct2)
  {
  }

  /** What one `downloadImage` call did. */
  datatype DownloadOutcome =
    | AlreadyStored                // the file exists in the existing store, or it is the deny-listed image
    | Written(path: string)        // the body was written to this path of the new store
    | CaughtFailure(notFound: bool) // an HttpStatusException (notFound) or IOException was caught and logged
    | Uncaught                     // a runtime exception escaped the method

  /** The Boolean `downloadImage` returns; None when it throws instead. */
  function Returned(o: DownloadOutcome): Option<bool>
  {
    match o
    case AlreadyStored => Some(false)
    case Written(_) => Some(true)
    case CaughtFailure(_) => Some(true)
    case Uncaught => None
  }

  /** `new File(dir + "\\" + name).exists()` for the existing-image directory. */
  predicate StoredIn(existing: Option<set<string>>, name: string)
  {
    existing.Some? && name in existing.value
  }

  /** The path of a file called `name` inside directory `dir`. */
  function InDir(dir: string, name: string): string
  {
    dir + [PathSeparator] + name
  }

  /**
   * `downloadImage(directoryExisting, directoryNew, imageUrl)`, given the
   * outcome of the image request, the entries of the existing-image
   * directory (None when it does not exist) and whether writing into the new
   * directory succeeds.
   */
  function DownloadImage(dirExisting: string, dirNew: string, imageUrl: string, image: Fetch<ImageResponse>,
                         existing: Option<set<string>>, newDirWritable: bool): (o: DownloadOutcome)
    // returns false exactly when the derived name is already stored or deny-listed
    ensures Returned(o) == Some(false) <==>
      (image.Fetched? && LocalFileName(imageUrl, image.doc.contentType).Some? &&
      var name := LocalFileName(imageUrl, image.doc.contentType).value;
      StoredIn(existing, name) || Contains(InDir(dirExisting, name), DenyListed))
    // throws exactly when the response came back but a name cannot be derived from it
    ensures Returned(o).None? <==> image.Fetched? && LocalFileName(imageUrl, image.doc.contentType).None?
    // a write goes to the new store under the same name that was looked up in the existing store
    ensures o.Written? ==> (image.Fetched? && LocalFileName(imageUrl, image.doc.contentType).Some? &&
      var name := LocalFileName(imageUrl, image.doc.contentType).value;
      o.path == InDir(dirNew, name) && !StoredIn(existing, name))
    // otherwise a fetched, named, new image is written to the new store, or the failed write is caught
    ensures (image.Fetched? && LocalFileName(imageUrl, image.doc.contentType).Some? &&
             var name := LocalFileName(imageUrl, image.doc.contentType).value;
             !StoredIn(existing, name) && !Contains(InDir(dirExisting, name), DenyListed))
            ==> o == (if newDirWritable then Written(InDir(dirNew, LocalFileName(imageUrl, image.doc.contentType).value))
                      else CaughtFailure(false))
    // a failed request is reported as a download all the same
    ensures !image.Fetched? ==> o == CaughtFailure(image.HttpStatusFailure?) && Returned(o) == Some(true)
  {
    match image
    case HttpStatusFailure => CaughtFailure(true)
    case IoFailure => CaughtFailure(false)
    case Fetched(response) =>
      match LocalFileName(imageUrl, response.contentType)
      case None => Uncaught
      case Some(name) =>
        var pathExisting := InDir(dirExisting, name);
        var pathNew := InDir(dirNew, name);
        if StoredIn(existing, name) || Contains(pathExisting, DenyListed) then AlreadyStored
        else if newDirWritable then Written(pathNew)
        else CaughtFailure(false)
  }

  /** An image already in the existing store is never written again and is reported as not downloaded. */
  lemma StoredImageNeverRewritten(dirExisting: string, dirNew: string, imageUrl: string, response: ImageResponse,
                                  existing: Option<set<string>>, newDirWritable: bool)
    requires LocalFileName(imageUrl, response.contentType).Some?
    requires StoredIn(existing, LocalFileName(imageUrl, response.contentType).value)
    ensures DownloadImage(dirExisting, dirNew, imageUrl, Fetched(response), existing, newDirWritable) == AlreadyStored
  {
  }

  // ---------------------------------------------------------------------
  // printProgress
  // ---------------------------------------------------------------------

  /** The content of a progress message: header values and the per-name lines. */
  datatype Report = Report(name: string, numImages: int, numExisting: int, perName: seq<(string, int)>)

  /**
   * `printProgress`: a report exists iff anything was scraped or found; its
   * per-name lines, in ascending name order, only when new images were scraped.
   */
  method PrintProgress(name: string, numImages: int, numExisting: int, imagesPerName: TreeMap<int>)
    returns (report: Option<Report>)
    requires imagesPerName.Valid()
    ensures report.Some? <==> numImages + numExisting > 0
    ensures report.Some? ==> report.value.name == name && report.value.numImages == numImages
                             && report.value.numExisting == numExisting
    ensures report.Some? && numImages > 0 ==> report.value.perName == imagesPerName.entries
    ensures report.Some? && numImages <= 0 ==> report.value.perName == []
    ensures report.Some? ==> forall i, j :: 0 <= i < j < |report.value.perName| ==>
                               Less(report.value.perName[i].0, report.value.perName[j].0)
  {
    if numImages + numExisting <= 0 {
      return None;
    }
    var lines: seq<(string, int)> := [];
    if numImages > 0 {
      var i := 0;
      while i < |imagesPerName.entries|
        invariant 0 <= i <= |imagesPerName.entries|
        invariant lines == imagesPerName.entries[..i]
      {
        lines := lines + [imagesPerName.entries[i]];
        i := i + 1;
      }
    }
    report := Some(Report(name, numImages, numExisting, lines));
  }
}
