# ExoticsImageScraper core in Dafny

This project models the decision logic of ExoticsImageScraper, a scraper that collects tarantula photographs from Arachnoboards tag pages and files them by species. It covers four parts:

- **Synonym table (`WSCApi`).** Builds the species-to-synonyms table from World Spider Catalog pages:
  - genus table rows after the header;
  - per-genus species titles and the four synonym rejection rules;
  - the `putAll` merge of the genera in ascending genus order.
- **Coordinator (`ScrapeMaster`).** Creates one task per accepted species, in key order. Each task's name list is the species followed by its synonyms. The coordinator picks the terminal name and keeps two shared statics:
  - a species counter;
  - a shutdown flag.
- **Per-species worker (`ABTagsScrapeWorker`).** For each name, the worker:
  - builds the tag-page slug;
  - walks the pages through their "Next" links;
  - skips media tagged "sexing";
  - downloads the rest and counts downloads per name.

  At the end it removes an empty existing-image directory, reports, counts the species and, if it is the terminal task, raises the flag.
- **Shared worker logic (`ScrapeWorker`).**
  - `getPage`, which returns null on failure;
  - deriving an image's local file name from its path and Content-Type;
  - the store/skip/return rule of `downloadImage`;
  - the report conditions of `printProgress`.

All network and disk access is an input:

- **Web.** A map from tag-page path to the outcomes of fetching that page and each page its "Next" links reach.
- **Thumbnails.** Each thumbnail carries its gallery page's tag list, its image path and the outcome of the image request.
- **Disk.** The file system is a map from directory path to its entry names.

Where the Java throws an uncaught runtime exception, the model returns `None` or `Uncaught`. This covers an image path or Content-Type without a second `/` field and `speciesNames.get(-1)` on an empty name list. Everything the task would have done after that point is then absent.

The modules:

- **`JavaStrings`.** The Java string operations the code relies on: `split` with a one-character literal (including the removal of trailing empty strings), `replace`, `contains`, `toLowerCase`, and the `compareTo` order.
- **`TreeMaps`.** `TreeMap<String, V>` as a list of entries sorted by key, with its map view.
- **`ScrapeWorker`, `ScrapeMasterStatics`, `ABTags`, `Master`, `WSCApi`.** One module per source class. The loops of `run` (ABTagsScrapeWorker.java:36-79) are specified by three folds over their inputs: `ThumbsSpec` for the thumbnail loop, `PagesSpec` for the page loop and `NamesSpec` (through `NameSpec`, one name) for the name loop. Each of them is `None` once an uncaught exception has occurred. The worker's methods `ScrapeThumbnails`, `ScrapePages`, `ScrapeNames` and `Run` are proved to end in the state the matching fold gives.

## Model

| member | source | states |
|---|---|---|
| JavaStrings.ReplaceChar | src/main/java/com/razzymcsnazzy/exoticsimagescraper/scrapers/ABTagsScrapeWorker.java:104 | `replace` keeps the length, changes exactly the occurrences of the replaced character, and leaves none of them |
| JavaStrings.ToLowerCase | src/main/java/com/razzymcsnazzy/exoticsimagescraper/scrapers/ABTagsScrapeWorker.java:104 | lower-casing keeps the length and maps each character on its own |
| JavaStrings.Split | src/main/java/com/razzymcsnazzy/exoticsimagescraper/WSCApi.java:83 | `split` yields no field containing the delimiter; without a delimiter it yields the whole string; otherwise it yields the pieces between delimiters with exactly the trailing empty ones removed, so its last field is non-empty |
| JavaStrings.SplitHasSecond | src/main/java/com/razzymcsnazzy/exoticsimagescraper/scrapers/ScrapeWorker.java:132-133 | `split(..)[1]` exists iff some delimiter is followed by a non-delimiter character, and it is then the second piece |
| JavaStrings.SplitEmpty | src/main/java/com/razzymcsnazzy/exoticsimagescraper/WSCApi.java:83 | `split` returns no field at all exactly for a non-empty string made only of delimiters |
| JavaStrings.SplitTwoFields | src/main/java/com/razzymcsnazzy/exoticsimagescraper/scrapers/ScrapeWorker.java:132 | a `type/subtype` value without further slashes and with a non-empty subtype splits into exactly its two parts |
| JavaStrings.JoinPieces | src/main/java/com/razzymcsnazzy/exoticsimagescraper/WSCApi.java:83 | joining the pieces of a string with the delimiter gives the string back |
| JavaStrings.PiecesJoin | src/main/java/com/razzymcsnazzy/exoticsimagescraper/WSCApi.java:83 | splitting a join of delimiter-free pieces gives the pieces back |
| JavaStrings.LessTransitive | src/main/java/com/razzymcsnazzy/exoticsimagescraper/WSCApi.java:47 | the key order of the TreeMaps is transitive |
| JavaStrings.LessTotal | src/main/java/com/razzymcsnazzy/exoticsimagescraper/WSCApi.java:47 | any two distinct keys are ordered one way or the other |
| JavaStrings.LessAsymmetric | src/main/java/com/razzymcsnazzy/exoticsimagescraper/WSCApi.java:47 | no two keys are each below the other |
| TreeMaps.TreeMap.Put | src/main/java/com/razzymcsnazzy/exoticsimagescraper/scrapers/ABTagsScrapeWorker.java:37 | `put` keeps the keys sorted and updates the map at exactly that key |
| TreeMaps.TreeMap.PutAll | src/main/java/com/razzymcsnazzy/exoticsimagescraper/WSCApi.java:35 | `putAll` keeps the keys sorted and gives the union in which the argument's values win |
| TreeMaps.TreeMap.LastKey | src/main/java/com/razzymcsnazzy/exoticsimagescraper/scrapers/ScrapeMaster.java:47 | `lastKey` is a key and every other key is below it |
| TreeMaps.KeysOfMap | src/main/java/com/razzymcsnazzy/exoticsimagescraper/scrapers/ScrapeMaster.java:70 | `keySet()` iterates every key of the map and only those, in strictly ascending order |
| TreeMaps.Empty | src/main/java/com/razzymcsnazzy/exoticsimagescraper/scrapers/ScrapeWorker.java:72 | a new TreeMap is sorted and maps nothing |
| TreeMaps.SumPut | src/main/java/com/razzymcsnazzy/exoticsimagescraper/scrapers/ABTagsScrapeWorker.java:73 | a `put` changes the sum of the counts by the new value minus the old one |
| ScrapeWorker.GetPage | src/main/java/com/razzymcsnazzy/exoticsimagescraper/scrapers/ScrapeWorker.java:80-90 | a document exactly when the fetch succeeded (and it is that document); null on both failures; only the IOException is logged |
| ScrapeWorker.ContentSubtype | src/main/java/com/razzymcsnazzy/exoticsimagescraper/scrapers/ScrapeWorker.java:132 | the extension exists iff the Content-Type is present and has a field after '/'; it is then the second piece and contains no '/' |
| ScrapeWorker.ImageStem | src/main/java/com/razzymcsnazzy/exoticsimagescraper/scrapers/ScrapeWorker.java:133 | the stem exists iff the path has a field after '/'; it is then the second segment with '.' replaced by '_', so it contains neither '.' nor '/' |
| ScrapeWorker.LocalFileName | src/main/java/com/razzymcsnazzy/exoticsimagescraper/scrapers/ScrapeWorker.java:132-134 | a name exists iff both splits have a second field; it is then the stem, a dot and the extension, and cutting it at its first dot gives the stem and the extension back |
| ScrapeWorker.ParseFileNameOf | src/main/java/com/razzymcsnazzy/exoticsimagescraper/scrapers/ScrapeWorker.java:133 | a dot-free stem, a dot and an extension: the first dot separates them again |
| ScrapeWorker.LocalFileNameInjective | src/main/java/com/razzymcsnazzy/exoticsimagescraper/scrapers/ScrapeWorker.java:133-134 | two images get the same file name only if their stems and their extensions coincide |
| ScrapeWorker.DownloadImage | src/main/java/com/razzymcsnazzy/exoticsimagescraper/scrapers/ScrapeWorker.java:124-149 | returns false iff the derived name is in the existing store or the existing path contains the deny-listed name; throws iff the response came but a name cannot be derived; any write goes to the new store under the name checked in the existing store, and only when that name is not stored there; a fetched image with a name that is neither stored nor deny-listed is written to the new store when it is writable, and otherwise the failed write is caught and true returned; a failed request returns true |
| ScrapeWorker.StoredImageNeverRewritten | src/main/java/com/razzymcsnazzy/exoticsimagescraper/scrapers/ScrapeWorker.java:137 | an image already in the existing store is never written again |
| ScrapeWorker.PrintProgress | src/main/java/com/razzymcsnazzy/exoticsimagescraper/scrapers/ScrapeWorker.java:98-115 | a report iff `numImages + numExisting > 0`, with the given header values; per-name lines are exactly the map's entries, in ascending name order, iff new images were scraped |
| ScrapeMasterStatics.Statics.constructor | src/main/java/com/razzymcsnazzy/exoticsimagescraper/scrapers/ScrapeMaster.java:23-28 | the flag starts down and the counter at 0 |
| ScrapeMasterStatics.Statics.Shutdown | src/main/java/com/razzymcsnazzy/exoticsimagescraper/scrapers/ScrapeMaster.java:55 | `shutdown` raises the flag and touches nothing else |
| ScrapeMasterStatics.Statics.IncrementNumSpecies | src/main/java/com/razzymcsnazzy/exoticsimagescraper/scrapers/ScrapeMaster.java:61 | `incrementNumSpecies` adds exactly 1 and touches nothing else |
| ABTags.Slug | src/main/java/com/razzymcsnazzy/exoticsimagescraper/scrapers/ABTagsScrapeWorker.java:104 | the slug has the name's length, no space and no upper-case ASCII letter |
| ABTags.SlugIdempotent | src/main/java/com/razzymcsnazzy/exoticsimagescraper/scrapers/ABTagsScrapeWorker.java:104 | slugging a slug changes nothing |
| ABTags.TagPagePath | src/main/java/com/razzymcsnazzy/exoticsimagescraper/scrapers/ABTagsScrapeWorker.java:103-105 | the path is "tags/", then the slug, then '/', and it contains no space |
| ABTags.SameTagPage | src/main/java/com/razzymcsnazzy/exoticsimagescraper/scrapers/ABTagsScrapeWorker.java:104 | two names fetch the same tag page iff their slugs agree |
| ABTags.ShouldSkip | src/main/java/com/razzymcsnazzy/exoticsimagescraper/scrapers/ABTagsScrapeWorker.java:50-61 | skip iff some tag's first child has an href containing "sexing"; tags without children or href are ignored; an empty tag list never skips |
| ABTags.VisitedPages | src/main/java/com/razzymcsnazzy/exoticsimagescraper/scrapers/ABTagsScrapeWorker.java:41 | the walk visits at most the available pages, each one being what its fetch returned |
| ABTags.VisitedPagesStop | src/main/java/com/razzymcsnazzy/exoticsimagescraper/scrapers/ABTagsScrapeWorker.java:112-123 | every visited page but the last has "Next"; the walk ends at a failed fetch, at a page without "Next", or when no pages are left |
| ABTags.SinglePageWithoutNext | src/main/java/com/razzymcsnazzy/exoticsimagescraper/scrapers/ABTagsScrapeWorker.java:114-121 | a first page without "Next" is the only page visited |
| ABTags.NextPageStep | src/main/java/com/razzymcsnazzy/exoticsimagescraper/scrapers/ABTagsScrapeWorker.java:112-123 | another page is visited iff the current one has "Next" and fetching the next one succeeds |
| ABTags.FirstPage | src/main/java/com/razzymcsnazzy/exoticsimagescraper/scrapers/ABTagsScrapeWorker.java:38 | `getABTagsPage` gives the first page of the walk, or null if there is none |
| ABTags.NextPage | src/main/java/com/razzymcsnazzy/exoticsimagescraper/scrapers/ABTagsScrapeWorker.java:78 | `nextABPage` gives the next page of the walk, or null after its last page |
| ABTags.NamesAfterCrash | src/main/java/com/razzymcsnazzy/exoticsimagescraper/scrapers/ABTagsScrapeWorker.java:70 | once `downloadImage` has thrown, nothing later in the task happens |
| ABTags.SkippedThumbnailsChangeNothing | src/main/java/com/razzymcsnazzy/exoticsimagescraper/scrapers/ABTagsScrapeWorker.java:61 | media tagged "sexing" are never downloaded and change no counter |
| ABTags.NamesSpecKeys | src/main/java/com/razzymcsnazzy/exoticsimagescraper/scrapers/ABTagsScrapeWorker.java:36-37 | after the crawl the per-name keys are the old keys plus exactly the names |
| ABTags.NameSpecKeys | src/main/java/com/razzymcsnazzy/exoticsimagescraper/scrapers/ABTagsScrapeWorker.java:37 | crawling one name adds exactly that name as a key |
| ABTags.NamesSpecBalanced | src/main/java/com/razzymcsnazzy/exoticsimagescraper/scrapers/ABTagsScrapeWorker.java:70-74 | with distinct new names, the total number of images stays equal to the sum of the per-name counts |
| ABTags.NothingFoundNothingCounted | src/main/java/com/razzymcsnazzy/exoticsimagescraper/scrapers/ABTagsScrapeWorker.java:38-41 | when no tag page can be fetched, the crawl ends without an exception and counts and writes nothing (whether `run` then completes is `ABTags.ABTagsScrapeWorker.Run`'s contract: it needs a non-empty name list) |
| ABTags.ThumbsBounded | src/main/java/com/razzymcsnazzy/exoticsimagescraper/scrapers/ABTagsScrapeWorker.java:70-74 | the total never falls and rises by at most one per thumbnail |
| ABTags.ABTagsScrapeWorker.constructor | src/main/java/com/razzymcsnazzy/exoticsimagescraper/scrapers/ScrapeWorker.java:63-73 | the directories lie under `user.dir`; no new images and an empty per-name map; `numExisting` is the existing directory's entry count, or 0 when it is absent |
| ABTags.ABTagsScrapeWorker.ScrapeThumbnails | src/main/java/com/razzymcsnazzy/exoticsimagescraper/scrapers/ABTagsScrapeWorker.java:45-75 | the thumbnail loop ends in the state the specification fold gives, or throws exactly when the fold does |
| ABTags.ABTagsScrapeWorker.Record | src/main/java/com/razzymcsnazzy/exoticsimagescraper/scrapers/ABTagsScrapeWorker.java:70-74 | a returned true adds one to the total and one to the name's count; a write is recorded; false changes nothing |
| ABTags.ABTagsScrapeWorker.ScrapeName | src/main/java/com/razzymcsnazzy/exoticsimagescraper/scrapers/ABTagsScrapeWorker.java:36-79 | resets the name's count, then crawls the name's pages as the fold specifies |
| ABTags.ABTagsScrapeWorker.ScrapePages | src/main/java/com/razzymcsnazzy/exoticsimagescraper/scrapers/ABTagsScrapeWorker.java:38-79 | the page loop processes exactly the pages of the walk, in order |
| ABTags.ABTagsScrapeWorker.ScrapeNames | src/main/java/com/razzymcsnazzy/exoticsimagescraper/scrapers/ABTagsScrapeWorker.java:36-80 | the name loop ends in the state the fold gives, or stops at the first exception |
| ABTags.ABTagsScrapeWorker.Run | src/main/java/com/razzymcsnazzy/exoticsimagescraper/scrapers/ABTagsScrapeWorker.java:32-96 | `run` completes iff the crawl does not throw and there is a name. The counter rises by one iff the crawl ends, even with no names. The flag is raised iff the task completes on the terminal name. The directory is deleted iff it exists and is empty, and a report is present iff something was scraped or found; both hold whenever the crawl ends, even with no names. The report carries the worker's final counts, with the per-name entries only when new images were scraped. |
| Master.LastName | src/main/java/com/razzymcsnazzy/exoticsimagescraper/scrapers/ScrapeMaster.java:49 | the terminal name is the last element of the species followed by its synonyms |
| Master.LastSpeciesName | src/main/java/com/razzymcsnazzy/exoticsimagescraper/scrapers/ScrapeMaster.java:47-49 | a terminal name exists iff the map is non-empty (`lastKey` throws otherwise) |
| Master.Tasks | src/main/java/com/razzymcsnazzy/exoticsimagescraper/scrapers/ScrapeMaster.java:70-75 | exactly one task per key |
| Master.TasksFromMap | src/main/java/com/razzymcsnazzy/exoticsimagescraper/scrapers/ScrapeMaster.java:70-74 | the task labels are exactly the keys, in ascending order; each task's names are its key followed by that key's synonyms; all tasks share the terminal name |
| Master.TerminalTaskShutsDown | src/main/java/com/razzymcsnazzy/exoticsimagescraper/scrapers/ScrapeMaster.java:47-49 | the last task's last name is the terminal name |
| Master.CountIncrements | src/main/java/com/razzymcsnazzy/exoticsimagescraper/scrapers/ScrapeMaster.java:61 | no more species are counted than there are tasks |
| Master.AnySignalsSome | src/main/java/com/razzymcsnazzy/exoticsimagescraper/scrapers/ScrapeMaster.java:55 | the flag is raised iff some task completes on the terminal name |
| Master.CountReachesAllIffAllIncrement | src/main/java/com/razzymcsnazzy/exoticsimagescraper/scrapers/ScrapeMaster.java:93 | the counter reaches the number of species iff no task throws before its increment |
| Master.TerminalCompletionSignals | src/main/java/com/razzymcsnazzy/exoticsimagescraper/scrapers/ScrapeMaster.java:78 | if the task of the greatest key completes, the flag is raised and the wait ends |
| Master.OnlyTerminalTaskSignals | src/main/java/com/razzymcsnazzy/exoticsimagescraper/scrapers/ScrapeMaster.java:70-74 | when tasks share no name, only the task of the greatest key can raise the flag |
| Master.ScrapeMaster.constructor | src/main/java/com/razzymcsnazzy/exoticsimagescraper/scrapers/ScrapeMaster.java:43-50 | keeps the map; `lastSpeciesName` is the last synonym of the greatest key, or the key itself |
| Master.ScrapeMaster.ScrapeABTags | src/main/java/com/razzymcsnazzy/exoticsimagescraper/scrapers/ScrapeMaster.java:66-94 | the counter rises by the number of tasks that reach their increment; the flag ends up raised iff it was, or some task signals; the result is whether the wait ends |
| Master.ScrapeMaster.SubmitTask | src/main/java/com/razzymcsnazzy/exoticsimagescraper/scrapers/ScrapeMaster.java:70-75 | submitting the i-th key's task moves the counter and the flag from what the first i tasks give to what the first i + 1 give |
| Master.Execute | src/main/java/com/razzymcsnazzy/exoticsimagescraper/scrapers/ScrapeMaster.java:74 | one task adds one to the counter iff it reaches its increment, and raises the flag iff it signals |
| WSCApi.AcceptIntoExtends | src/main/java/com/razzymcsnazzy/exoticsimagescraper/WSCApi.java:89 | the filter only appends to the species' list |
| WSCApi.AcceptIntoNoDuplicates | src/main/java/com/razzymcsnazzy/exoticsimagescraper/WSCApi.java:86-89 | a list without duplicates stays without duplicates |
| WSCApi.AcceptIntoAdmissible | src/main/java/com/razzymcsnazzy/exoticsimagescraper/WSCApi.java:83-85 | every appended synonym has other than one token, differs from its own species and is no species of the genus |
| WSCApi.AcceptIntoSubsequence | src/main/java/com/razzymcsnazzy/exoticsimagescraper/WSCApi.java:79-89 | the appended synonyms are a subsequence of the candidates, in their order of appearance |
| WSCApi.AcceptIntoComplete | src/main/java/com/razzymcsnazzy/exoticsimagescraper/WSCApi.java:83-89 | every candidate that passes the first three rules ends up in the list |
| WSCApi.OwnNameRuleRedundant | src/main/java/com/razzymcsnazzy/exoticsimagescraper/WSCApi.java:84-85 | inside a genus, the own-name rule is implied by the key rule |
| WSCApi.OneTokenRule | src/main/java/com/razzymcsnazzy/exoticsimagescraper/WSCApi.java:83 | the one-token rule lets through exactly the names with a second field and the blank names |
| WSCApi.BlankCandidateAccepted | src/main/java/com/razzymcsnazzy/exoticsimagescraper/WSCApi.java:83-89 | a blank candidate " " is accepted as a synonym |
| WSCApi.EmptyLists | src/main/java/com/razzymcsnazzy/exoticsimagescraper/WSCApi.java:71-74 | the first loop maps exactly the genus's species names, each to an empty list |
| WSCApi.PutSpecies | src/main/java/com/razzymcsnazzy/exoticsimagescraper/WSCApi.java:70-74 | the first loop builds a sorted map equal to the empty lists of the genus's species |
| WSCApi.SynonymsSpec | src/main/java/com/razzymcsnazzy/exoticsimagescraper/WSCApi.java:77-91 | the synonym loops keep the set of keys |
| WSCApi.GenusSpec | src/main/java/com/razzymcsnazzy/exoticsimagescraper/WSCApi.java:65-94 | the keys of a genus's map are exactly its species names |
| WSCApi.SynonymsSpecOwnTitle | src/main/java/com/razzymcsnazzy/exoticsimagescraper/WSCApi.java:77-91 | with distinct species names, a species' list is its starting list filtered by its own candidates only |
| WSCApi.SynonymsSpecUntouched | src/main/java/com/razzymcsnazzy/exoticsimagescraper/WSCApi.java:77-91 | a name that titles no species keeps its list |
| WSCApi.GenusSpecOwnCandidates | src/main/java/com/razzymcsnazzy/exoticsimagescraper/WSCApi.java:70-91 | with distinct species names, each species' list is the filter of its own candidates from the empty list, and so a subsequence of them |
| WSCApi.GenusSpecWellFiltered | src/main/java/com/razzymcsnazzy/exoticsimagescraper/WSCApi.java:83-89 | each synonym list is duplicate-free, and none of its entries has one token, is its own species or is another species of the genus |
| WSCApi.GenusSpecComplete | src/main/java/com/razzymcsnazzy/exoticsimagescraper/WSCApi.java:77-91 | every candidate passing the first three rules is listed under its species |
| WSCApi.SpeciesWithSynonymsInGenus | src/main/java/com/razzymcsnazzy/exoticsimagescraper/WSCApi.java:65-94 | the method builds a sorted map equal to the genus specification |
| WSCApi.AddAllSynonyms | src/main/java/com/razzymcsnazzy/exoticsimagescraper/WSCApi.java:76-91 | the synonym loops turn the species map into the synonym fold of the titles |
| WSCApi.AddSynonyms | src/main/java/com/razzymcsnazzy/exoticsimagescraper/WSCApi.java:79-90 | the inner loop changes only the species' list, to the filtered extension |
| WSCApi.RowsMap | src/main/java/com/razzymcsnazzy/exoticsimagescraper/WSCApi.java:50-55 | the genera are exactly the rows' first columns |
| WSCApi.RowsMapLastWins | src/main/java/com/razzymcsnazzy/exoticsimagescraper/WSCApi.java:54 | a genus maps to the URL of its last row |
| WSCApi.PutRows | src/main/java/com/razzymcsnazzy/exoticsimagescraper/WSCApi.java:47-55 | putting the rows keeps the map sorted and gives the rows' map |
| WSCApi.GeneraWithSpeciesUrl | src/main/java/com/razzymcsnazzy/exoticsimagescraper/WSCApi.java:46-57 | the genus map holds the rows after the header, and is empty for an empty table |
| WSCApi.HeaderSkipped | src/main/java/com/razzymcsnazzy/exoticsimagescraper/WSCApi.java:50 | the header row's genus is absent unless a later row repeats it |
| WSCApi.MergeSpecKeys | src/main/java/com/razzymcsnazzy/exoticsimagescraper/WSCApi.java:33-35 | after merging, the species are exactly those of every genus page |
| WSCApi.MergeSpecLastWins | src/main/java/com/razzymcsnazzy/exoticsimagescraper/WSCApi.java:33-35 | a species listed by several genera gets the synonyms of the last of them in genus order |
| WSCApi.MergeSpecUntouched | src/main/java/com/razzymcsnazzy/exoticsimagescraper/WSCApi.java:35 | a species no later genus lists keeps its value |
| WSCApi.AllSpeciesWithSynonyms | src/main/java/com/razzymcsnazzy/exoticsimagescraper/WSCApi.java:30-39 | no map when a request throws; otherwise the sorted merge of every genus's map, in ascending genus order |

## Left out

- **HTTP and the DOM.** Jsoup connections, timeouts, URL roots and DOM queries are not modelled. Pages, thumbnails, tag hrefs, "Next" presence, image responses and genus tables are inputs.
- **DOM child counts.** `childNodeSize()` counts child nodes, not elements. The model takes each tag's element children as given. A tag whose child nodes are all text makes `child(0)` throw IndexOutOfBoundsException at ABTagsScrapeWorker.java:53; the model ignores such a tag instead.
- **Cyclic "Next" links.** `ABTags.VisitedPages` walks a finite list of fetch outcomes, so a chain of "Next" links that returns to an earlier page, on which the source would loop forever, cannot be expressed.
- **WSCApi.BlankCandidateAccepted.** The candidate text comes from Jsoup's `Element.html()`, which trims surrounding whitespace, so the blank name " " is probably unreachable in practice; the lemma is about the filter rules alone.
- **Bytes and directory creation.** Writing the image bytes and creating directories are not modelled. A write is recorded as the path it goes to. Whether it can succeed is one Boolean per worker.
- **Failed deletion.** A failed `Files.delete` (the caught IOException at ABTagsScrapeWorker.java:85-87) is not modelled: the empty directory is always removed.
- **Unguarded dereferences.** The following are taken as present in the extracted input, so the model does not throw for them:
  - the gallery page fetch at ABTagsScrapeWorker.java:46;
  - the `tagList` lookup at line 50;
  - `imageContainer` and `img` at lines 64-67;
  - `nextElementSibling()` and `first()` at WSCApi.java:72 and 78-80.

  An absent genus page is modelled as a thrown IOException.
- **Concurrency.**
  - The thread pool is not modelled: the tasks run one after another in key order.
  - The unsynchronised `numSpecies++` on a shared static can lose updates when tasks run concurrently; that is not captured.
  - Every task sees the same file system, since each species owns its own directories.
- **Master.ScrapeMaster.ScrapeABTags.** The two `Thread.sleep` wait loops and `scraper.shutdown()` are not modelled. The method returns whether the flag is up, which is whether the first wait ends; it does not spin forever.
- **Master.ScrapeMaster.constructor.** It requires a non-empty map, because the constructor can return no error value. `Master.LastSpeciesName` models the empty case as None, where `lastKey()` throws.
- **Log and report text.** Log text, thread names, dates and the formatting of the progress message are not modelled. `ScrapeWorker.PrintProgress` returns the message's values instead.
- **JavaStrings.ToLowerCase.** It lower-cases ASCII letters only; Unicode case mapping is not modelled. `JavaStrings.Less` compares code points, whereas Java's `compareTo` compares UTF-16 code units; the two differ only for characters outside the Basic Multilingual Plane.
- **Integer width.** `numImages`, the per-name counts and `numSpecies` are unbounded integers. Java's `Integer` overflow is not modelled.
- **Other classes.** PostProcessor, PreProcessor, Runner and TarCanScrapeWorker are not part of this model. They are directory copying, `mkdir`, top-level orchestration and an empty worker.
