/**
 * ABTagsScrapeWorker: the task that crawls the Arachnoboards tag pages of one
 * species (its accepted name and its synonyms), skips media tagged "sexing",
 * stores new images, counts them per name, removes an empty existing-image
 * directory, reports, and raises the shutdown flag when it is the terminal task.
 *
 * The web site is an input: for each tag-page path, the outcomes of fetching
 * the first page and then each page reached through its "Next" link. A
 * thumbnail carries what its gallery page yields: the tag list, the image
 * path, and the outcome of requesting the image.
 */
module ABTags {
  import opened Wrappers
  import opened JavaStrings
  import opened TreeMaps
  import opened ScrapeWorker
  import opened ScrapeMasterStatics

  // ---------------------------------------------------------------------
  // Pages as data
  // ---------------------------------------------------------------------

  /** A child element of the tag list: the href of its first child element, if it has one. */
  datatype Tag = Tag(children: seq<Option<string>>)

  /** One media item: its gallery page's tags and image path, and the image request's outcome. */
  datatype Thumbnail = Thumbnail(tags: seq<Tag>, imagePath: string, image: Fetch<ImageResponse>)

  /** A tag-listing page: its thumbnails, and whether some element has the own text "Next". */
  datatype Page = Page(thumbnails: seq<Thumbnail>, hasNext: bool)

  /** Tag-page path -> outcomes of fetching that page and the pages its "Next" links lead to. */
  type Web = map<string, seq<Fetch<Page>>>

  // ---------------------------------------------------------------------
  // getABTagsPage
  // ---------------------------------------------------------------------

  /** `species.replace(" ", "-").toLowerCase()`. */
  function Slug(species: string): (r: string)
    ensures |r| == |species|
    ensures ' ' !in r
    ensures forall i :: 0 <= i < |r| ==> !('A' <= r[i] <= 'Z')
  {
    ToLowerCase(ReplaceChar(species, ' ', '-'))
  }

  /** A slug is its own slug: a tag name that is already slugged reaches the same page. */
  lemma SlugIdempotent(species: string)
    ensures Slug(Slug(species)) == Slug(species)
  {
    var s := Slug(species);
    forall i | 0 <= i < |s| ensures Slug(s)[i] == s[i] {
      assert ReplaceChar(s, ' ', '-')[i] == s[i];
    }
  }

  /** The path `getABTagsPage` fetches: "tags/" + slug + "/". */
  function TagPagePath(species: string): (path: string)
    ensures ' ' !in path
    ensures |path| == |species| + 6
    ensures path[..5] == "tags/" && path[|path| - 1] == '/'
    ensures path[5..|path| - 1] == Slug(species)
  {
    "tags/" + Slug(species) + "/"
  }

  /** Two names share a tag page exactly when their slugs agree. */
  lemma SameTagPage(a: string, b: string)
    ensures TagPagePath(a) == TagPagePath(b) <==> Slug(a) == Slug(b)
  {
    if TagPagePath(a) == TagPagePath(b) {
      assert TagPagePath(a)[5..|TagPagePath(a)| - 1] == TagPagePath(b)[5..|TagPagePath(b)| - 1];
    }
  }

  /** The fetch outcomes along the pagination chain of one name. */
  function TagChain(web: Web, species: string): seq<Fetch<Page>>
  {
    var path := TagPagePath(species);
    if path in web then web[path] else []
  }

  /** Fetching the page at position `i` of a chain; past its end the request fails. */
  function FetchAt(chain: seq<Fetch<Page>>, i: nat): Fetch<Page>
  {
    if i < |chain| then chain[i] else HttpStatusFailure
  }

  // ---------------------------------------------------------------------
  // The "sexing" filter
  // ---------------------------------------------------------------------

  /** A tag whose first child carries an href containing "sexing". */
  predicate IsSexingTag(tag: Tag)
  {
    |tag.children| > 0 && tag.children[0].Some? && Contains(tag.children[0].value, "sexing")
  }

  predicate SexingTagged(tags: seq<Tag>)
  {
    exists i :: 0 <= i < |tags| && IsSexingTag(tags[i])
  }

  /** The skip loop of `run`: true exactly when some tag links to a "sexing" target. */
  method ShouldSkip(imageTags: seq<Tag>) returns (skip: bool)
    ensures skip <==> SexingTagged(imageTags)
    ensures imageTags == [] ==> !skip
  {
    skip := false;
    var i := 0;
    while i < |imageTags|
      invariant 0 <= i <= |imageTags|
      invariant forall k :: 0 <= k < i ==> !IsSexingTag(imageTags[k])
    {
      var imageTag := imageTags[i];
      if |imageTag.children| > 0 && imageTag.children[0].Some? {
        var tagValue := imageTag.children[0].value;
        if Contains(tagValue, "sexing") {
          skip := true;
          break;
        }
      }
      i := i + 1;
    }
  }

  // ---------------------------------------------------------------------
  // Pagination (nextABPage)
  // ---------------------------------------------------------------------

  /**
   * The pages the walk visits: it follows the chain while fetches succeed and
   * stops after the first page without a "Next" element.
   */
  function VisitedPages(chain: seq<Fetch<Page>>): (pages: seq<Page>)
    ensures |pages| <= |chain|
    ensures forall i :: 0 <= i < |pages| ==> chain[i] == Fetched(pages[i])
  {
    if chain == [] || !chain[0].Fetched? then []
    else if !chain[0].doc.hasNext then [chain[0].doc]
    else [chain[0].doc] + VisitedPages(chain[1..])
  }

  /** Where the walk stops: every visited page but the last has "Next", and the walk ends for a reason. */
  lemma {:induction false} VisitedPagesStop(chain: seq<Fetch<Page>>)
    ensures forall i :: 0 <= i < |VisitedPages(chain)| - 1 ==> VisitedPages(chain)[i].hasNext
    ensures var n := |VisitedPages(chain)|;
            n == |chain| || !chain[n].Fetched? || (n > 0 && !chain[n - 1].doc.hasNext)
  {
    if chain != [] && chain[0].Fetched? && chain[0].doc.hasNext {
      VisitedPagesStop(chain[1..]);
      var rest := VisitedPages(chain[1..]);
      assert VisitedPages(chain) == [chain[0].doc] + rest;
    }
  }

  /** A first page without a "Next" element is the only page visited. */
  lemma SinglePageWithoutNext(chain: seq<Fetch<Page>>)
    requires chain != [] && chain[0].Fetched? && !chain[0].doc.hasNext
    ensures VisitedPages(chain) == [chain[0].doc]
  {
  }

  /** One step of the page loop: the next page is visited iff this one has "Next" and its fetch succeeds. */
  lemma NextPageStep(chain: seq<Fetch<Page>>, p: nat)
    requires p < |VisitedPages(chain)|
    ensures p + 1 < |VisitedPages(chain)| <==>
            VisitedPages(chain)[p].hasNext && FetchAt(chain, p + 1).Fetched?
  {
    VisitedPagesStop(chain);
  }

  /** The page at position `i` of a walk, None past its end. */
  function PageAt(pages: seq<Page>, i: nat): Option<Page>
  {
    if i < |pages| then Some(pages[i]) else None
  }

  /** `getABTagsPage` yields the first page of the walk, if any. */
  lemma FirstPage(chain: seq<Fetch<Page>>)
    ensures GetPage(FetchAt(chain, 0)).page == PageAt(VisitedPages(chain), 0)
  {
  }

  /** `nextABPage` on the page at position `p` yields the page at `p + 1`, if any. */
  lemma NextPage(chain: seq<Fetch<Page>>, p: nat)
    requires p < |VisitedPages(chain)|
    ensures (if VisitedPages(chain)[p].hasNext then GetPage(FetchAt(chain, p + 1)).page else None)
            == PageAt(VisitedPages(chain), p + 1)
  {
    NextPageStep(chain, p);
    if p + 1 < |VisitedPages(chain)| {
      VisitedPagesAt(chain, p + 1);
    }
  }

  /** A visited page is what its fetch returned. */
  lemma VisitedPagesAt(chain: seq<Fetch<Page>>, i: nat)
    requires i < |VisitedPages(chain)|
    ensures chain[i] == Fetched(VisitedPages(chain)[i])
  {
  }

  // ---------------------------------------------------------------------
  // The crawl as a function of its inputs
  // ---------------------------------------------------------------------

  /** The worker state `run` changes: the counters and the files written to the new store. */
  datatype Tally = Tally(numImages: nat, perName: TreeMap<int>, newFiles: seq<string>)

  /** Where a worker looks for and stores images. */
  datatype Stores = Stores(dirExisting: string, dirNew: string, existing: Option<set<string>>, newDirWritable: bool)

  /** None stands for a task that an uncaught exception has ended. */
  predicate TallyValid(st: Option<Tally>)
  {
    st.Some? ==> st.value.perName.Valid()
  }

  /** The images counted for `species` so far (`imagesPerName.get(species)`). */
  function CountOf(m: TreeMap<int>, species: string): int
  {
    if species in m.ToMap() then m.ToMap()[species] else 0
  }

  /** One more image, in total and for `species`. */
  function Counted(t: Tally, species: string): (r: Tally)
    requires t.perName.Valid()
    ensures r.perName.Valid()
  {
    t.(numImages := t.numImages + 1, perName := t.perName.Put(species, CountOf(t.perName, species) + 1))
  }

  /** What one `downloadImage` outcome does to the counters: a returned true counts, a write is recorded. */
  function Recorded(t: Tally, species: string, o: DownloadOutcome): (r: Option<Tally>)
    requires t.perName.Valid()
    ensures r.Some? ==> r.value.perName.Valid()
  {
    match o
    case Uncaught => None
    case AlreadyStored => Some(t)
    case CaughtFailure(_) => Some(Counted(t, species))
    case Written(path) => Some(Counted(t, species).(newFiles := t.newFiles + [path]))
  }

  /** The body of the thumbnail loop. */
  function ThumbStep(st: Option<Tally>, species: string, t: Thumbnail, s: Stores): (r: Option<Tally>)
    requires TallyValid(st)
    ensures TallyValid(r)
  {
    if st.None? || SexingTagged(t.tags) then st
    else Recorded(st.value, species, DownloadImage(s.dirExisting, s.dirNew, t.imagePath, t.image, s.existing, s.newDirWritable))
  }

  /** The thumbnail loop of one page as a fold of `ThumbStep`; None once `downloadImage` has thrown. */
  function ThumbsSpec(st: Option<Tally>, species: string, thumbs: seq<Thumbnail>, s: Stores): (r: Option<Tally>)
    requires TallyValid(st)
    ensures TallyValid(r)
    decreases |thumbs|
  {
    if thumbs == [] then st else ThumbsSpec(ThumbStep(st, species, thumbs[0], s), species, thumbs[1..], s)
  }

  /** The page loop of one name as a fold of the thumbnail loop over the walk's pages. */
  function PagesSpec(st: Option<Tally>, species: string, pages: seq<Page>, s: Stores): (r: Option<Tally>)
    requires TallyValid(st)
    ensures TallyValid(r)
    decreases |pages|
  {
    if pages == [] then st
    else PagesSpec(ThumbsSpec(st, species, pages[0].thumbnails, s), species, pages[1..], s)
  }

  /** `imagesPerName.put(species, 0)` at the start of a name. */
  function StartName(st: Option<Tally>, species: string): (r: Option<Tally>)
    requires TallyValid(st)
    ensures TallyValid(r)
  {
    if st.None? then None else Some(st.value.(perName := st.value.perName.Put(species, 0)))
  }

  /** One iteration of the name loop: reset the name's counter, walk its tag pages. */
  function NameSpec(st: Option<Tally>, species: string, web: Web, s: Stores): (r: Option<Tally>)
    requires TallyValid(st)
    ensures TallyValid(r)
  {
    PagesSpec(StartName(st, species), species, VisitedPages(TagChain(web, species)), s)
  }

  /** The name loop of `run` as a fold of `NameSpec` over the names, in order. */
  function NamesSpec(st: Option<Tally>, names: seq<string>, web: Web, s: Stores): (r: Option<Tally>)
    requires TallyValid(st)
    ensures TallyValid(r)
    decreases |names|
  {
    if names == [] then st else NamesSpec(NameSpec(st, names[0], web, s), names[1..], web, s)
  }

  // ---------------------------------------------------------------------
  // Properties of the crawl
  // ---------------------------------------------------------------------

  lemma ThumbsSpecCons(st: Option<Tally>, species: string, thumbs: seq<Thumbnail>, s: Stores)
    requires TallyValid(st) && thumbs != []
    ensures ThumbsSpec(st, species, thumbs, s) == ThumbsSpec(ThumbStep(st, species, thumbs[0], s), species, thumbs[1..], s)
  {
  }

  lemma PagesSpecCons(st: Option<Tally>, species: string, pages: seq<Page>, s: Stores)
    requires TallyValid(st) && pages != []
    ensures PagesSpec(st, species, pages, s) == PagesSpec(ThumbsSpec(st, species, pages[0].thumbnails, s), species, pages[1..], s)
  {
  }

  lemma NamesSpecCons(st: Option<Tally>, names: seq<string>, web: Web, s: Stores)
    requires TallyValid(st) && names != []
    ensures NamesSpec(st, names, web, s) == NamesSpec(NameSpec(st, names[0], web, s), names[1..], web, s)
  {
  }

  lemma {:induction false} ThumbsAfterCrash(species: string, thumbs: seq<Thumbnail>, s: Stores)
    ensures ThumbsSpec(None, species, thumbs, s) == None
    decreases |thumbs|
  {
    if thumbs != [] {
      ThumbsAfterCrash(species, thumbs[1..], s);
    }
  }

  lemma {:induction false} PagesAfterCrash(species: string, pages: seq<Page>, s: Stores)
    ensures PagesSpec(None, species, pages, s) == None
    decreases |pages|
  {
    if pages != [] {
      ThumbsAfterCrash(species, pages[0].thumbnails, s);
      PagesAfterCrash(species, pages[1..], s);
    }
  }

  /** Once an exception has escaped, nothing later in the task runs. */
  lemma {:induction false} NamesAfterCrash(names: seq<string>, web: Web, s: Stores)
    ensures NamesSpec(None, names, web, s) == None
    decreases |names|
  {
    if names != [] {
      PagesAfterCrash(names[0], VisitedPages(TagChain(web, names[0])), s);
      NamesAfterCrash(names[1..], web, s);
    }
  }

  /** Media tagged "sexing" are never downloaded and change no counter. */
  lemma {:induction false} SkippedThumbnailsChangeNothing(st: Option<Tally>, species: string, thumbs: seq<Thumbnail>, s: Stores)
    requires TallyValid(st)
    requires forall i :: 0 <= i < |thumbs| ==> SexingTagged(thumbs[i].tags)
    ensures ThumbsSpec(st, species, thumbs, s) == st
    decreases |thumbs|
  {
    if thumbs != [] {
      SkippedThumbnailsChangeNothing(st, species, thumbs[1..], s);
    }
  }

  /** While the name's counter exists, the thumbnails of its pages add no key. */
  lemma {:induction false} ThumbsKeepKeys(st: Option<Tally>, species: string, thumbs: seq<Thumbnail>, s: Stores)
    requires TallyValid(st) && st.Some? && species in st.value.perName.ToMap()
    requires ThumbsSpec(st, species, thumbs, s).Some?
    ensures ThumbsSpec(st, species, thumbs, s).value.perName.ToMap().Keys == st.value.perName.ToMap().Keys
    decreases |thumbs|
  {
    if thumbs != [] {
      var st' := ThumbStep(st, species, thumbs[0], s);
      if st'.None? {
        ThumbsAfterCrash(species, thumbs[1..], s);
      } else {
        ThumbsKeepKeys(st', species, thumbs[1..], s);
      }
    }
  }

  lemma {:induction false} PagesKeepKeys(st: Option<Tally>, species: string, pages: seq<Page>, s: Stores)
    requires TallyValid(st) && st.Some? && species in st.value.perName.ToMap()
    requires PagesSpec(st, species, pages, s).Some?
    ensures PagesSpec(st, species, pages, s).value.perName.ToMap().Keys == st.value.perName.ToMap().Keys
    decreases |pages|
  {
    if pages != [] {
      var st' := ThumbsSpec(st, species, pages[0].thumbnails, s);
      if st'.None? {
        PagesAfterCrash(species, pages[1..], s);
      } else {
        ThumbsKeepKeys(st, species, pages[0].thumbnails, s);
        PagesKeepKeys(st', species, pages[1..], s);
      }
    }
  }

  /** Every name gets an entry before it is crawled, so the keys after `run` are the old ones plus the names. */
  lemma {:induction false} NamesSpecKeys(st: Option<Tally>, names: seq<string>, web: Web, s: Stores)
    requires TallyValid(st) && st.Some?
    requires NamesSpec(st, names, web, s).Some?
    ensures NamesSpec(st, names, web, s).value.perName.ToMap().Keys
            == st.value.perName.ToMap().Keys + set x | x in names
    decreases |names|
  {
    if names != [] {
      var st' := NameSpec(st, names[0], web, s);
      if st'.None? {
        NamesAfterCrash(names[1..], web, s);
      } else {
        NameSpecKeys(st, names[0], web, s);
        NamesSpecKeys(st', names[1..], web, s);
        ElementsOfCons(names);
      }
    }
  }

  /** Crawling one name adds exactly that name as a key. */
  lemma NameSpecKeys(st: Option<Tally>, species: string, web: Web, s: Stores)
    requires TallyValid(st) && st.Some?
    requires NameSpec(st, species, web, s).Some?
    ensures NameSpec(st, species, web, s).value.perName.ToMap().Keys == st.value.perName.ToMap().Keys + {species}
  {
    PagesKeepKeys(StartName(st, species), species, VisitedPages(TagChain(web, species)), s);
  }

  lemma ElementsOfCons(names: seq<string>)
    requires names != []
    ensures (set x | x in names) == {names[0]} + set x | x in names[1..]
  {
    assert names == [names[0]] + names[1..];
  }

  /** The total equals the sum of the per-name counts, as long as the name's counter exists. */
  predicate Balanced(st: Option<Tally>)
    requires TallyValid(st)
  {
    st.Some? ==> st.value.numImages == Sum(st.value.perName)
  }

  lemma {:induction false} ThumbsKeepBalance(st: Option<Tally>, species: string, thumbs: seq<Thumbnail>, s: Stores)
    requires TallyValid(st) && Balanced(st)
    requires st.Some? ==> species in st.value.perName.ToMap()
    ensures Balanced(ThumbsSpec(st, species, thumbs, s))
    ensures ThumbsSpec(st, species, thumbs, s).Some? ==> species in ThumbsSpec(st, species, thumbs, s).value.perName.ToMap()
    decreases |thumbs|
  {
    if thumbs != [] {
      ThumbStepBalance(st, species, thumbs[0], s);
      ThumbsKeepBalance(ThumbStep(st, species, thumbs[0], s), species, thumbs[1..], s);
    }
  }

  /** One counted image adds one to the total and one to the sum of the per-name counts. */
  lemma CountedBalance(t: Tally, species: string)
    requires t.perName.Valid() && t.numImages == Sum(t.perName) && species in t.perName.ToMap()
    ensures Counted(t, species).numImages == Sum(Counted(t, species).perName)
    ensures species in Counted(t, species).perName.ToMap()
  {
    SumPut(t.perName, species, CountOf(t.perName, species) + 1);
  }

  lemma ThumbStepBalance(st: Option<Tally>, species: string, t: Thumbnail, s: Stores)
    requires TallyValid(st) && Balanced(st)
    requires st.Some? ==> species in st.value.perName.ToMap()
    ensures Balanced(ThumbStep(st, species, t, s))
    ensures ThumbStep(st, species, t, s).Some? ==> species in ThumbStep(st, species, t, s).value.perName.ToMap()
  {
    if st.Some? {
      CountedBalance(st.value, species);
    }
  }

  lemma {:induction false} PagesKeepBalance(st: Option<Tally>, species: string, pages: seq<Page>, s: Stores)
    requires TallyValid(st) && Balanced(st)
    requires st.Some? ==> species in st.value.perName.ToMap()
    ensures Balanced(PagesSpec(st, species, pages, s))
    decreases |pages|
  {
    if pages != [] {
      ThumbsKeepBalance(st, species, pages[0].thumbnails, s);
      PagesKeepBalance(ThumbsSpec(st, species, pages[0].thumbnails, s), species, pages[1..], s);
    }
  }

  /**
   * With distinct names that have no counter yet, the total number of images
   * equals the sum of the per-name counts after the crawl.
   */
  lemma {:induction false} NamesSpecBalanced(st: Option<Tally>, names: seq<string>, web: Web, s: Stores)
    requires TallyValid(st) && Balanced(st)
    requires forall i, j :: 0 <= i < j < |names| ==> names[i] != names[j]
    requires st.Some? ==> forall i :: 0 <= i < |names| ==> names[i] !in st.value.perName.ToMap()
    ensures Balanced(NamesSpec(st, names, web, s))
    decreases |names|
  {
    if st.None? {
      NamesAfterCrash(names, web, s);
    } else if names != [] {
      var started := StartName(st, names[0]);
      SumPut(st.value.perName, names[0], 0);
      PagesKeepBalance(started, names[0], VisitedPages(TagChain(web, names[0])), s);
      var st' := NameSpec(st, names[0], web, s);
      if st'.Some? {
        PagesKeepKeys(started, names[0], VisitedPages(TagChain(web, names[0])), s);
        forall i | 0 <= i < |names[1..]| ensures names[1..][i] !in st'.value.perName.ToMap() {
          assert names[1..][i] == names[i + 1];
        }
      }
      NamesSpecBalanced(st', names[1..], web, s);
    }
  }

  /** When no tag page of any name can be fetched, the task counts and stores nothing. */
  lemma {:induction false} NothingFoundNothingCounted(t: Tally, names: seq<string>, web: Web, s: Stores)
    requires t.perName.Valid()
    requires forall i :: 0 <= i < |names| ==> VisitedPages(TagChain(web, names[i])) == []
    ensures NamesSpec(Some(t), names, web, s).Some?
    ensures NamesSpec(Some(t), names, web, s).value.numImages == t.numImages
    ensures NamesSpec(Some(t), names, web, s).value.newFiles == t.newFiles
    decreases |names|
  {
    if names != [] {
      var st' := NameSpec(Some(t), names[0], web, s);
      assert st' == StartName(Some(t), names[0]);
      NothingFoundNothingCounted(st'.value, names[1..], web, s);
      assert forall i :: 0 <= i < |names[1..]| ==> names[1..][i] == names[i + 1];
    }
  }

  /** The total never decreases, and rises by at most one per visited thumbnail. */
  lemma {:induction false} ThumbsBounded(st: Option<Tally>, species: string, thumbs: seq<Thumbnail>, s: Stores)
    requires TallyValid(st) && st.Some? && ThumbsSpec(st, species, thumbs, s).Some?
    ensures st.value.numImages <= ThumbsSpec(st, species, thumbs, s).value.numImages <= st.value.numImages + |thumbs|
    decreases |thumbs|
  {
    if thumbs != [] {
      var st' := ThumbStep(st, species, thumbs[0], s);
      if st'.None? {
        ThumbsAfterCrash(species, thumbs[1..], s);
      } else {
        ThumbsBounded(st', species, thumbs[1..], s);
      }
    }
  }

  // ---------------------------------------------------------------------
  // The worker
  // ---------------------------------------------------------------------

  /** `user.dir + "\images\all\" + speciesLabel`. */
  function ExistingDirPath(userDir: string, speciesLabel: string): string
  {
    userDir + "\\images\\all\\" + speciesLabel
  }

  /** `user.dir + "\images\new\" + speciesLabel`. */
  function NewDirPath(userDir: string, speciesLabel: string): string
  {
    userDir + "\\images\\new\\" + speciesLabel
  }

  /** A file system as the entries of each existing directory, by path. */
  type FileSystem = map<string, set<string>>

  /** The stores of the worker for `speciesLabel`. */
  function StoresFor(speciesLabel: string, userDir: string, fs: FileSystem): Stores
  {
    var dirExisting := ExistingDirPath(userDir, speciesLabel);
    var dirNew := NewDirPath(userDir, speciesLabel);
    Stores(dirExisting, dirNew, if dirExisting in fs then Some(fs[dirExisting]) else None, dirNew in fs)
  }

  /** What the task for these names does, starting from a fresh worker; None if it ends in an exception. */
  function TaskOutcome(speciesLabel: string, speciesNames: seq<string>, userDir: string, fs: FileSystem, web: Web): (r: Option<Tally>)
    ensures TallyValid(r)
  {
    NamesSpec(Some(Tally(0, Empty(), [])), speciesNames, web, StoresFor(speciesLabel, userDir, fs))
  }

  class ABTagsScrapeWorker {
    const speciesLabel: string
    const speciesNames: seq<string>
    const speciesToShutdownOn: string
    const imageDirExisting: string
    const imageDirNew: string
    /** Whether files can be created in the new-image directory (it exists). */
    const newDirWritable: bool
    /** The existing-image directory's entries, None once it is absent. */
    var existingDir: Option<set<string>>
    var numImages: nat
    const numExisting: nat
    var imagesPerName: TreeMap<int>
    /** Files written to the new-image directory, in order. */
    var newFiles: seq<string>

    ghost predicate Valid()
      reads this
    {
      imagesPerName.Valid()
    }

    /** The state `run` changes, as a value. */
    ghost function CurrentTally(): Tally
      reads this
    {
      Tally(numImages, imagesPerName, newFiles)
    }

    function CurrentStores(): Stores
      reads this
    {
      Stores(imageDirExisting, imageDirNew, existingDir, newDirWritable)
    }

    /**
     * The worker's constructor chain: fixed fields, directory paths under
     * `userDir`, the entry count of the existing directory (0 if absent),
     * zero new images and an empty per-name map.
     */
    constructor (speciesLabel: string, speciesNames: seq<string>, speciesToShutdownOn: string,
                 userDir: string, fs: FileSystem)
      ensures Valid()
      ensures this.speciesLabel == speciesLabel && this.speciesNames == speciesNames
      ensures this.speciesToShutdownOn == speciesToShutdownOn
      ensures CurrentStores() == StoresFor(speciesLabel, userDir, fs)
      ensures numImages == 0 && imagesPerName == Empty() && newFiles == []
      ensures numExisting == if ExistingDirPath(userDir, speciesLabel) in fs
                             then |fs[ExistingDirPath(userDir, speciesLabel)]| else 0
    {
      this.speciesLabel := speciesLabel;
      this.speciesNames := speciesNames;
      this.speciesToShutdownOn := speciesToShutdownOn;
      imageDirExisting := ExistingDirPath(userDir, speciesLabel);
      imageDirNew := NewDirPath(userDir, speciesLabel);
      newDirWritable := NewDirPath(userDir, speciesLabel) in fs;
      existingDir := if ExistingDirPath(userDir, speciesLabel) in fs
                     then Some(fs[ExistingDirPath(userDir, speciesLabel)]) else None;
      numImages := 0;
      numExisting := if ExistingDirPath(userDir, speciesLabel) in fs
                     then |fs[ExistingDirPath(userDir, speciesLabel)]| else 0;
      imagesPerName := Empty();
      newFiles := [];
    }

    /**
     * The thumbnail loop of `run` for one tag page: skips media tagged
     * "sexing", downloads the rest and counts each reported download.
     * `crashed` is true when `downloadImage` throws.
     */
    method ScrapeThumbnails(species: string, thumbs: seq<Thumbnail>, stores: Stores) returns (crashed: bool)
      requires Valid() && species in imagesPerName.ToMap()
      modifies this`numImages, this`imagesPerName, this`newFiles
      ensures Valid() && species in imagesPerName.ToMap()
      ensures var after := ThumbsSpec(Some(old(CurrentTally())), species, thumbs, stores);
        (crashed <==> after.None?) && (!crashed ==> CurrentTally() == after.value)
    {
      ghost var goal := ThumbsSpec(Some(CurrentTally()), species, thumbs, stores);
      var j := 0;
      while j < |thumbs|
        invariant 0 <= j <= |thumbs|
        invariant imagesPerName.Valid() && species in imagesPerName.ToMap()
        invariant ThumbsSpec(Some(CurrentTally()), species, thumbs[j..], stores) == goal
      {
        var thumbnail := thumbs[j];
        ThumbsSpecCons(Some(CurrentTally()), species, thumbs[j..], stores);
        assert thumbs[j..][1..] == thumbs[j + 1..];
        ghost var next := ThumbStep(Some(CurrentTally()), species, thumbnail, stores);
        var skip := ShouldSkip(thumbnail.tags);
        if !skip {
          var outcome := DownloadImage(stores.dirExisting, stores.dirNew, thumbnail.imagePath, thumbnail.image,
                                       stores.existing, stores.newDirWritable);
          if outcome.Uncaught? {
            ThumbsAfterCrash(species, thumbs[j + 1..], stores);
            return true;
          }
          Record(species, outcome);
        }
        assert next == Some(CurrentTally());
        j := j + 1;
      }
      assert thumbs[j..] == [];
      crashed := false;
    }

    /** The counting after a `downloadImage` call that returned. */
    method Record(species: string, outcome: DownloadOutcome)
      requires Valid() && species in imagesPerName.ToMap() && !outcome.Uncaught?
      modifies this`numImages, this`imagesPerName, this`newFiles
      ensures Valid() && species in imagesPerName.ToMap()
      ensures Recorded(old(CurrentTally()), species, outcome) == Some(CurrentTally())
    {
      if outcome.Written? {
        newFiles := newFiles + [outcome.path];
      }
      if Returned(outcome) == Some(true) {
        numImages := numImages + 1;
        imagesPerName := imagesPerName.Put(species, imagesPerName.ToMap()[species] + 1);
      }
    }

    /**
     * One iteration of the name loop of `run`: resets the name's counter and
     * walks its tag pages.
     */
    method ScrapeName(species: string, web: Web, stores: Stores) returns (crashed: bool)
      requires Valid()
      modifies this`numImages, this`imagesPerName, this`newFiles
      ensures Valid()
      ensures var after := NameSpec(Some(old(CurrentTally())), species, web, stores);
        (crashed <==> after.None?) && (!crashed ==> CurrentTally() == after.value)
    {
      ghost var started := StartName(Some(CurrentTally()), species);
      imagesPerName := imagesPerName.Put(species, 0);
      assert started == Some(CurrentTally());
      crashed := ScrapePages(species, TagChain(web, species), stores);
    }

    /**
     * The page loop of `run` for one name: follows "Next" links from the
     * first tag page until a page has none or a fetch fails.
     */
    method ScrapePages(species: string, chain: seq<Fetch<Page>>, stores: Stores) returns (crashed: bool)
      requires Valid() && species in imagesPerName.ToMap()
      modifies this`numImages, this`imagesPerName, this`newFiles
      ensures Valid()
      ensures var after := PagesSpec(Some(old(CurrentTally())), species, VisitedPages(chain), stores);
        (crashed <==> after.None?) && (!crashed ==> CurrentTally() == after.value)
    {
      ghost var pages := VisitedPages(chain);
      ghost var goal := PagesSpec(Some(CurrentTally()), species, pages, stores);
      var p := 0;
      var current := GetPage(FetchAt(chain, 0)).page;
      FirstPage(chain);
      while current.Some?
        invariant p <= |pages|
        invariant current == PageAt(pages, p)
        invariant imagesPerName.Valid() && species in imagesPerName.ToMap()
        invariant PagesSpec(Some(CurrentTally()), species, pages[p..], stores) == goal
        decreases |pages| - p
      {
        ghost var before := Some(CurrentTally());
        PagesSpecCons(before, species, pages[p..], stores);
        assert pages[p..][1..] == pages[p + 1..] && pages[p..][0] == current.value;
        ghost var afterPage := ThumbsSpec(before, species, current.value.thumbnails, stores);
        assert PagesSpec(afterPage, species, pages[p + 1..], stores) == goal;
        crashed := ScrapeThumbnails(species, current.value.thumbnails, stores);
        if crashed {
          PagesAfterCrash(species, pages[p + 1..], stores);
          return;
        }
        assert afterPage == Some(CurrentTally());
        NextPage(chain, p);
        current := if current.value.hasNext then GetPage(FetchAt(chain, p + 1)).page else None;
        p := p + 1;
      }
      assert pages[p..] == [];
      crashed := false;
    }

    /** The name loop of `run`: every name in order, stopping at the first exception. */
    method ScrapeNames(web: Web, stores: Stores) returns (crashed: bool)
      requires Valid()
      modifies this`numImages, this`imagesPerName, this`newFiles
      ensures Valid()
      ensures var final := NamesSpec(Some(old(CurrentTally())), speciesNames, web, stores);
        (crashed <==> final.None?) && (!crashed ==> CurrentTally() == final.value)
    {
      ghost var goal := NamesSpec(Some(CurrentTally()), speciesNames, web, stores);
      var i := 0;
      while i < |speciesNames|
        invariant 0 <= i <= |speciesNames|
        invariant imagesPerName.Valid()
        invariant NamesSpec(Some(CurrentTally()), speciesNames[i..], web, stores) == goal
      {
        ghost var before := Some(CurrentTally());
        NamesSpecCons(before, speciesNames[i..], web, stores);
        assert speciesNames[i..][0] == speciesNames[i] && speciesNames[i..][1..] == speciesNames[i + 1..];
        ghost var afterName := NameSpec(before, speciesNames[i], web, stores);
        assert NamesSpec(afterName, speciesNames[i + 1..], web, stores) == goal;
        crashed := ScrapeName(speciesNames[i], web, stores);
        if crashed {
          NamesAfterCrash(speciesNames[i + 1..], web, stores);
          return;
        }
        assert afterName == Some(CurrentTally());
        i := i + 1;
      }
      assert speciesNames[i..] == [];
      crashed := false;
    }

    /**
     * `run`: crawls every name, then removes an empty existing directory,
     * reports, counts the species and, if the last name is the terminal one,
     * raises the shutdown flag. `completed` is false when an exception ends
     * the task early; the report is None when nothing is printed.
     */
    method Run(web: Web, statics: Statics) returns (completed: bool, report: Option<Report>)
      requires Valid()
      modifies this`numImages, this`imagesPerName, this`newFiles, this`existingDir
      modifies statics`numSpecies, statics`shutdownScraper
      ensures Valid()
      ensures var final := NamesSpec(Some(old(CurrentTally())), speciesNames, web, old(CurrentStores()));
        && (completed <==> final.Some? && speciesNames != [])
        && (final.Some? ==> CurrentTally() == final.value)
        && statics.numSpecies == old(statics.numSpecies) + (if final.Some? then 1 else 0)
        && (final.None? ==> report.None? && existingDir == old(existingDir))
      ensures statics.shutdownScraper == (old(statics.shutdownScraper) ||
                (completed && speciesNames[|speciesNames| - 1] == speciesToShutdownOn))
      // once the crawl is over (even with no names, before `get(-1)` throws):
      // the existing-image directory is deleted iff it exists and is empty
      ensures NamesSpec(Some(old(CurrentTally())), speciesNames, web, old(CurrentStores())).Some? ==>
        existingDir == if old(existingDir) == Some({}) then None else old(existingDir)
      // a report iff something was scraped or found; per-name lines only for new images
      ensures NamesSpec(Some(old(CurrentTally())), speciesNames, web, old(CurrentStores())).Some? ==>
        (report.Some? <==> numImages + numExisting > 0)
      ensures report.Some? ==>
        report.value == Report(speciesLabel, numImages, numExisting, if numImages > 0 then imagesPerName.entries else [])
    {
      var crashed := ScrapeNames(web, CurrentStores());
      if crashed {
        return false, None;
      }

      // delete the existing-image directory if it is empty
      if existingDir.Some? && |existingDir.value| == 0 {
        existingDir := None;
      }

      report := PrintProgress(speciesLabel, numImages, numExisting, imagesPerName);
      statics.IncrementNumSpecies();

      if speciesNames == [] {
        // speciesNames.get(-1) throws
        return false, report;
      }
      if speciesNames[|speciesNames| - 1] == speciesToShutdownOn {
        statics.Shutdown();
      }
      completed := true;
    }
  }
}
