# Photo portfolio build pipeline, modelled in Dafny

The photo portfolio is a small static-site pipeline:

- `optimize_images.py` copies or re-encodes the photos of `photos/<category>/` into `optimized/<category>/`.
- `scripts/generate_site.py` validates `config.json`, scans `optimized/` into `data.json` (tabs of image records with Google Drive links), customises `index.html` and fills `site/`.
- `generate_site.py` at the repository root is the older generator: HEIC/HEIF allowed, paths into `../optimized/`, no links, no configuration.
- `src/script.js` is the paginated gallery page (twelve images per batch, a "Load More" button).
- `site/script.js` is the older gallery page that draws every image at once.

The model keeps the decisions of these programs and replaces their plumbing by values:

- A directory listing is a sequence of entries (name, kind, content), in the order `os.listdir` returns it.
- A file's modification time is an integer.
- The optimised folder is a map from (category, file name) to modification time.
- A JSON file that may be absent is an `Option`.
- Local storage is a field of the page.
- What a run does to the file system is a list of effects.

Modules:

- `Names`: Python's string order, ASCII `lower()`/`toUpperCase()` and `os.path.splitext` with its leading-dot rule.
- `Listing`: listings, list comprehensions and `sorted`, an insertion sort proved sorted and a permutation.
- `Text`: `str.replace`, proved equal to `new.join(s.split(old))`.
- `Manifest`: `data.json`.
- `PhotoScan`: the `scan_photos` walk the two generators share, parameterised by the photo test and the record written.
- `SiteBuilder` and `LegacySiteBuilder`: the two generators. Each has loop methods proved against the scan functions.
- `Optimizer`: `optimize_image` and `process_all_images`, with loop methods proved against a step function over a run state.
- `Frontend`: what both gallery scripts share.
- `PagedGallery`: `src/script.js`, a class whose fields are the page's globals and DOM state.
- `StaticGallery`: `site/script.js`.

Behaviours of the code that the model keeps as they are, and states as lemmas:

- In copy mode, the mode the optimiser ships with, a copy keeps its source's modification time. The skip test is a strict `>`, so every run copies every image again (`Optimizer.CopyModeRecopies`).
- An upper-case `.PNG` kept as PNG is saved as `.png`. On a case-sensitive file system it is then never found under its looked-up name, so it is redone on every run (`Optimizer.UpperCasePngIsRenamed`, `Optimizer.RenamedOutputIsRedone`).
- On the paginated page, a reset removes the button by an id that the button never gets. After switching to an empty tab, the previous "Load More" button therefore stays (`PagedGallery.Gallery.RenderGallery` and `PagedGallery.Gallery.SelectTab` leave `loadMoreShown` as it was).
- A stored name that matches no tab shows nothing on the paginated page, but every image on the older page (`StaticGallery.SelectionsCompared`).
- A category named "all photos" in any case, or an empty category name, cannot be restored after a reload. Its label reads back as the all-photos tab (`Frontend.AllPhotosLabelClash`). This is why `ReloadRestoresTab` requires distinct, non-empty labels.

## Model

| member | source | states |
|---|---|---|
| Names.Lower | scripts/generate_site.py:77 | `str.lower()` keeps the length and maps each ASCII capital to its small letter |
| Names.Upper | src/script.js:79 | `toUpperCase()` keeps the length and maps each ASCII small letter to its capital |
| Names.UpperIdempotent | src/script.js:83-84 | upper-casing a stored label again leaves it unchanged |
| Names.SplitExt | scripts/generate_site.py:77 | `splitext` gives a root and an extension whose concatenation is the path |
| Names.ExtShape | scripts/generate_site.py:77 | an extension is empty, or a dot followed by neither dot nor separator, and a non-empty one leaves a stem with a non-dot character |
| Names.SplitExtAppend | optimize_images.py:52-54 | splitting a stem followed by an extension gives back that stem and that extension |
| Names.ExtOfLower | scripts/generate_site.py:77 | the extension of the lower-cased name is the lower-cased extension, split at the same place |
| Names.SplitExtExamples | scripts/generate_site.py:88-90 | `photo.heic` splits into `photo` and `.heic`; `a.b.jpg` splits at its last dot |
| Names.LeadingDotsExamples | scripts/generate_site.py:77 | `.hidden` and `..png` have no extension: leading dots do not start one |
| Listing.Filter | scripts/generate_site.py:61-62 | a comprehension keeps exactly the entries the test accepts |
| Listing.FilterKeepsOrder | scripts/generate_site.py:61-66 | filtering keeps a strictly ascending listing ascending and distinct names distinct |
| Listing.Insert | scripts/generate_site.py:66 | insertion adds exactly one copy of the entry |
| Listing.InsertSorted | scripts/generate_site.py:66 | insertion into a sorted listing keeps it sorted, strictly for a new name |
| Listing.SortByName | scripts/generate_site.py:66 | `sorted` returns a permutation of the listing |
| Listing.SortByNameSorts | scripts/generate_site.py:73 | `sorted` orders by name, strictly when the names are distinct |
| Listing.Existing | generate_site.py:82-88 | the loop keeps no more names than it is given |
| Listing.ExistingMembers | generate_site.py:82-88 | the names kept are exactly the listed names that exist |
| Listing.ExistingAppend | generate_site.py:82-88 | the names kept from a list followed by another are those kept from the first, then those kept from the second, so the given order is kept |
| Manifest.Flatten | src/script.js:40-46 | the concatenation of the tabs' images, tab after tab; its contents, length and layout are stated by Manifest.FlattenContents and Manifest.FlattenPrefix |
| Manifest.FlattenContents | src/script.js:40-46 | the concatenation holds every image of every tab and nothing else, with the total count as its length |
| Manifest.FlattenPrefix | src/script.js:42-44 | a tab's images sit in the concatenation right after those of earlier tabs |
| Text.ReplaceAll | scripts/generate_site.py:135 | `str.replace` of every occurrence, scanning left to right; characterised by Text.ReplaceAllIsJoinSplit and Text.ReplaceAllAbsent |
| Text.FindFrom | scripts/generate_site.py:135 | the search finds the first occurrence at or after the start, or reports none |
| Text.ReplaceAllIsJoinSplit | scripts/generate_site.py:135-160 | `replace` equals joining the split with the replacement; split pieces hold no occurrence and rejoin to the text |
| Text.ReplaceAllAbsent | scripts/generate_site.py:135-160 | text without the pattern is left unchanged |
| PhotoScan.Records | scripts/generate_site.py:94-98 | one record per file, in file order |
| PhotoScan.RecordsStep | scripts/generate_site.py:73-98 | one more file appends its record exactly when it passes the photo test |
| PhotoScan.Photos | scripts/generate_site.py:73-78 | a category's photos are exactly its files that pass the test |
| PhotoScan.TabsStep | scripts/generate_site.py:100-104 | one more category appends a tab exactly when it has images |
| PhotoScan.CategoryImagesSpec | scripts/generate_site.py:72-98 | a category's images are exactly its photos' records, strictly ascending by name for distinct names |
| PhotoScan.TabsOfSpec | scripts/generate_site.py:100-107 | the tabs are exactly the categories with images, each holding its images |
| PhotoScan.TabsOfAscending | scripts/generate_site.py:61-104 | strictly sorted categories give tabs strictly ascending by category |
| PhotoScan.Scan | scripts/generate_site.py:51-109 | the scan of the optimised folder; what it yields is stated by PhotoScan.ScanTabs and PhotoScan.ScanRecords |
| PhotoScan.ScanTabs | scripts/generate_site.py:51-109 | no folder gives no tabs; otherwise one tab per non-hidden directory with photos, strictly ascending; no `all_images` |
| PhotoScan.ScanRecords | scripts/generate_site.py:51-98 | every image in data.json is the record of a photo that sits in the folder of its tab's category, a non-hidden directory of the photo folder |
| SiteBuilder.MissingAmong | scripts/generate_site.py:33 | the list holds exactly the fields absent from the config |
| SiteBuilder.MissingFields | scripts/generate_site.py:32-33 | the missing list holds exactly the required fields absent from the config |
| SiteBuilder.MissingFieldsInOrder | scripts/generate_site.py:32-39 | the missing list is name, handle, instagram_url in that order, each present iff absent from the config |
| SiteBuilder.LoadConfig | scripts/generate_site.py:19-41 | a missing file halts; success iff every required field is present, returning the config; otherwise it halts naming exactly the missing required fields, a non-empty list |
| SiteBuilder.EmptyValuesPass | scripts/generate_site.py:32-39 | empty-string values pass validation |
| SiteBuilder.MissingHandleHalts | scripts/generate_site.py:35-39 | a config without `handle` halts with `handle` among the missing fields |
| SiteBuilder.LinkValue | scripts/generate_site.py:84 | `get(key, "")`: the first value under the key, or "" when there is none; a non-empty result is a value stored under the key |
| SiteBuilder.FirstStemMatch | scripts/generate_site.py:89-92 | the first key with the file's stem, in iteration order, or none |
| SiteBuilder.DriveUrl | scripts/generate_site.py:84-92 | a non-empty link is one stored under the file's own name or under a name with the same stem; which one is stated by SiteBuilder.ExactLinkWins, SiteBuilder.StemFallback and SiteBuilder.UnresolvedIsEmpty |
| SiteBuilder.ResolveDriveUrl | scripts/generate_site.py:84-92 | the loop with `break` computes the exact link, else the first stem match, else "" |
| SiteBuilder.ExactLinkWins | scripts/generate_site.py:84 | a file's own non-empty link is used |
| SiteBuilder.StemFallback | scripts/generate_site.py:87-92 | with no non-empty own link, the first key sharing the stem gives the link, whatever its extension |
| SiteBuilder.UnresolvedIsEmpty | scripts/generate_site.py:84-92 | with neither its own key nor a stem match, the link is "" |
| SiteBuilder.HeicFallbackExample | scripts/generate_site.py:86-92 | `photo.jpg` takes the link stored under `photo.heic` |
| SiteBuilder.RecordPhoto | scripts/generate_site.py:76-98 | a file yields a record iff it is a regular file with a supported lower-cased extension; the record is name, `images/<category>/<file>` and the resolved link |
| SiteBuilder.ScanCategory | scripts/generate_site.py:72-98 | the inner loop builds exactly the category's records in sorted file order |
| SiteBuilder.ScanPhotos | scripts/generate_site.py:51-109 | the nested loops build exactly the scan's data.json |
| SiteBuilder.ScanRecordShape | scripts/generate_site.py:73-98 | every record has path `images/<category>/<name>`, the link resolved for its name and a supported extension; names ascend strictly within a tab |
| SiteBuilder.LinkedHandle | scripts/generate_site.py:137-145 | an empty URL leaves the bare handle; otherwise an anchor whose href is the URL wrapping the handle |
| SiteBuilder.SubstituteSpec | scripts/generate_site.py:135-160 | each placeholder is replaced everywhere; `</head>` is touched only when the style is given |
| SiteBuilder.SubstitutePlainPage | scripts/generate_site.py:135-160 | a page without placeholders or `</head>` comes out unchanged |
| SiteBuilder.Customize | scripts/generate_site.py:128-160 | the template with the name, the (linked) handle and, when the profile picture is shown, the style block substituted; stated by SiteBuilder.SubstituteSpec, SiteBuilder.LinkedHandle and SiteBuilder.ProfilePictureAgreement |
| SiteBuilder.IndexPage | scripts/generate_site.py:128-164 | a customised index.html exists iff the template exists |
| SiteBuilder.FrontendEffects | scripts/generate_site.py:124-174 | only index and static-file effects; the page is written first iff there is one; style.css and script.js are copied iff they exist; index, style.css, script.js in that order, each at most once |
| SiteBuilder.CategoryCopies | scripts/generate_site.py:192-209 | exactly one copy per directory of the listing, hidden ones too, in listing order, each counting its supported entries; other entries are skipped |
| SiteBuilder.CategoryCopiesKinds | scripts/generate_site.py:192-209 | the copies are category copies only |
| SiteBuilder.CategoryCopiesMembers | scripts/generate_site.py:192-209 | a copy is in the list iff it is the copy of a directory of the listing |
| SiteBuilder.ImageEffects | scripts/generate_site.py:176-221 | nothing without the optimised folder; otherwise site/images/ made first and only then, a copy of every directory, and the profile picture copied last exactly when it is named and exists |
| SiteBuilder.ImageEffectsLayout | scripts/generate_site.py:176-221 | between making site/images/ and the profile picture come exactly the category copies, and the picture adds one effect iff it is named and exists |
| SiteBuilder.RunEffects | scripts/generate_site.py:293-306 | site/ first, then data.json, then exactly the given effects unchanged, and .gitignore last; SiteBuilder.GenerateSite states which effects those are |
| SiteBuilder.GenerateSite | scripts/generate_site.py:270-315 | halts iff the config fails; stops without output iff there are no tabs; otherwise writes in order and reports the category and image counts; between data.json and .gitignore come exactly the front-end effects, then the image effects |
| SiteBuilder.NoOutputBeforeTabs | scripts/generate_site.py:284-289 | a run that does not publish writes nothing |
| SiteBuilder.ProfilePictureAgreement | scripts/generate_site.py:148-216 | the page shows the profile picture iff the run copies it, for a relative picture name |
| LegacySiteBuilder.RecordPhoto | generate_site.py:42-50 | a record iff a regular file with an allowed extension (HEIC/HEIF included); the path is `../optimized/<category>/<file>` and there is no link |
| LegacySiteBuilder.ScanCategory | generate_site.py:37-50 | the inner loop builds exactly the category's records in sorted file order |
| LegacySiteBuilder.ScanPhotos | generate_site.py:17-61 | the nested loops build exactly the scan's data.json |
| LegacySiteBuilder.ScanRecordShape | generate_site.py:42-50 | every record has path `../optimized/<category>/<name>`, no link and an allowed extension |
| LegacySiteBuilder.HeicIsPhoto | generate_site.py:15-46 | a regular file whose extension is `.heic` in any letter case is a photo here, whatever it holds |
| LegacySiteBuilder.CopyFrontendFiles | generate_site.py:76-88 | the loop copies exactly the existing files among index.html, style.css and script.js, in that order |
| LegacySiteBuilder.FrontendFilesInOrder | generate_site.py:76-88 | the files copied are index.html, style.css and script.js in that order, each iff it exists |
| LegacySiteBuilder.CopyEffects | generate_site.py:82-88 | one copy effect per file, in the files' order, and nothing else |
| LegacySiteBuilder.RunEffects | generate_site.py:140-150 | site/, data.json, one copy per file in the files' order, then .gitignore |
| LegacySiteBuilder.GenerateSite | generate_site.py:122-159 | no output iff there are no tabs; otherwise writes in order, copies exactly the existing front-end files, in the order LegacySiteBuilder.FrontendFilesInOrder states, and reports the counts |
| Optimizer.OptimizeImage | optimize_images.py:36-83 | the step-by-step updates of path, format and mode compute the transform of the settings and the file |
| Optimizer.Transform | optimize_images.py:36-83 | fails iff the input is not a regular file or, when optimising, cannot be read; copies under the given name iff optimisation is off; the saved picture is stated by Optimizer.SavedSpec |
| Optimizer.OutputFilenameSpec | optimize_images.py:127-130 | stem plus `.jpg` iff optimising without preserving formats (and it splits back); otherwise the input name |
| Optimizer.JpgSplit | optimize_images.py:128 | a stem with `.jpg` appended splits back into the stem and `.jpg` |
| Optimizer.SupportedHasStem | optimize_images.py:120-128 | a file with a supported extension has a real stem |
| Optimizer.CopyModeSpec | optimize_images.py:40-43 | with optimisation off, a regular file is copied under its name and nothing about the picture matters |
| Optimizer.SavedSpec | optimize_images.py:46-78 | the format kept or JPEG; JPEG keeps the name, is RGB and carries the quality; PNG/WEBP are renamed and keep their mode; resize iff out of bounds |
| Optimizer.ModePlanSpec | optimize_images.py:58-67 | for JPEG, RGBA/LA/P are flattened on white (masked except LA), other non-RGB modes are converted, RGB kept; other formats keep the mode |
| Optimizer.HeifKeepsItsName | optimize_images.py:48-54 | with formats preserved, a HEIF picture is saved as JPEG under its own `.heic` name |
| Optimizer.UpToDate | optimize_images.py:135-136 | an output counts as done only when it exists and is strictly newer than the source; its use is stated by Optimizer.StepSkipRule and Optimizer.CopyModeRecopies |
| Optimizer.Step | optimize_images.py:134-145 | each image adds exactly one to processed plus skipped; an image not processed writes nothing; outputs are only added or restamped |
| Optimizer.InCategory | optimize_images.py:123-124 | each sorted image paired with its category, in order |
| Optimizer.HandleImage | optimize_images.py:124-145 | one image: skipped if its output is strictly newer, else transformed and counted as processed or skipped |
| Optimizer.ProcessCategory | optimize_images.py:119-145 | the inner loop equals the run over the category's sorted images |
| Optimizer.RunAppend | optimize_images.py:109-145 | running two parts one after the other equals running them together |
| Optimizer.ProcessCategories | optimize_images.py:109-145 | the outer loop equals the run over the images of the given categories, category after category |
| Optimizer.ProcessAllImages | optimize_images.py:85-145 | the nested loops equal the run over all considered images; without photos/ nothing happens |
| Optimizer.RunCounts | optimize_images.py:135-145 | every image adds exactly one to processed plus skipped |
| Optimizer.ProcessAllCounts | optimize_images.py:85-145 | processed plus skipped equals the number of images considered; no source leaves everything unchanged |
| Optimizer.ConsideredInSpec | optimize_images.py:109-123 | the images walked are exactly the supported entries of the given directories |
| Optimizer.ConsideredSpec | optimize_images.py:109-123 | an image is considered iff it has a supported extension and sits in a directory of photos/, hidden or not, regular file or not |
| Optimizer.StepSkipRule | optimize_images.py:134-145 | skipped iff the output is strictly newer or the transform fails; a skip changes nothing else |
| Optimizer.CopyModeRecopies | optimize_images.py:135-143 | in copy mode, a copied image is copied again on the next run |
| Optimizer.SavedOutputIsSkipped | optimize_images.py:135-138 | a picture saved under its looked-up name after its source is skipped the next time |
| Optimizer.RenamedOutputIsRedone | optimize_images.py:127-145 | a picture saved under another name is processed again on every run, on a case-sensitive file system |
| Optimizer.UpperCasePngIsRenamed | optimize_images.py:51-54 | `x.PNG` kept as PNG is written to `x.png` |
| Frontend.ActiveName | src/script.js:20 | a stored non-empty name is used; nothing stored, or "", means ALL PHOTOS |
| Frontend.FirstLabelled | src/script.js:26 | the position of the first tab whose upper-cased category is the name |
| Frontend.FindTab | src/script.js:26 | `find` is none iff no tab carries the label, else the first tab that does |
| Frontend.GetAllImages | src/script.js:40-46 | the accumulating loop gives the concatenation of the tabs' images in order |
| Frontend.ClickTarget | src/script.js:133 | a click opens the Drive link when it is truthy, the path otherwise |
| Frontend.TilesOf | src/script.js:118-139 | one tile per image, in order |
| Frontend.DrawTiles | src/script.js:118-139 | the `forEach` draws exactly one tile per image, in order |
| Frontend.TileOpens | site/script.js:106-117 | a tile opens the Drive link iff it shows the Drive hint, else its own path |
| Frontend.Buttons | src/script.js:61-73 | the all-photos button first, then one button per tab with its category and images |
| Frontend.Highlighted | src/script.js:48-57 | exactly the buttons whose label equals the name are active |
| Frontend.FindOwnLabel | site/script.js:20 | with distinct labels, looking up a tab's own label finds that tab |
| Frontend.StoredLabelFindsTab | site/script.js:16-76 | the label stored by a click reads back unchanged and finds its tab |
| Frontend.StoredAllPhotos | src/script.js:20-23 | the label stored by the all-photos button reads back as all photos |
| Frontend.ClickHighlightsOne | src/script.js:48-84 | with distinct labels, clicking a button highlights it and no other |
| Frontend.AllPhotosLabelClash | src/script.js:20-79 | a category "all photos" in any letter case gets the all-photos label, and that label, like the empty name's, reads back as all photos |
| PagedGallery.Rendered | src/script.js:113-141 | the count shown never exceeds the number of images |
| PagedGallery.RenderedClosedForm | src/script.js:113-141 | after k batches the count is min(12 k, length) |
| PagedGallery.AllShownAfterPages | src/script.js:161-175 | ceil(length/12) batches show every image, and each earlier count leaves images to load |
| PagedGallery.AllTabImages | src/script.js:24 | `all_images` when present, else every tab's images |
| PagedGallery.InitialImages | src/script.js:20-28 | the images shown on load; stated by PagedGallery.SelectInitialImages and PagedGallery.StaleNameShowsNothing |
| PagedGallery.SelectInitialImages | src/script.js:20-28 | all photos gives the all-photos list; otherwise the found tab's images, or none |
| PagedGallery.ReloadRestoresTab | src/script.js:20-89 | after a click and a reload, the gallery starts on the clicked button's images, when labels are distinct and non-empty |
| PagedGallery.StaleNameShowsNothing | src/script.js:26-31 | a stored name matching no tab shows no image and highlights no button |
| PagedGallery.Gallery.constructor | src/script.js:12-37 | a failed load shows only the error; otherwise the buttons, the first batch of the stored selection, and the name highlighted; "Load More" is present iff images remain, so an empty selection has none |
| PagedGallery.Gallery.RenderGallery | src/script.js:96-145 | a reset restarts at 0; empty shows the message and keeps the button; otherwise the next batch is appended, the count advances to min(count+12, length) and the button shows iff images remain |
| PagedGallery.Gallery.UpdateLoadMoreButton | src/script.js:147-179 | the button is present iff the count is below the length |
| PagedGallery.Gallery.SelectTab | src/script.js:81-89 | a click stores and highlights the label and restarts the gallery on the button's images; an empty tab shows the no-photos message and leaves a visible "Load More" button in place |
| PagedGallery.Gallery.LoadMore | src/script.js:173-175 | "Load More" appends the next batch to the tiles and changes neither the data, the buttons nor the selection; on an empty list it shows the no-photos message and leaves the button as it was |
| PagedGallery.ButtonUntilLastPage | src/script.js:141-175 | the button stays exactly until ceil(length/12) batches are shown, after which every image is drawn in order |
| StaticGallery.InitialImages | site/script.js:16-22 | the images shown on load; stated by StaticGallery.SelectInitialImages and StaticGallery.SelectionsCompared |
| StaticGallery.SelectInitialImages | site/script.js:16-22 | all images, replaced by the named tab's images when the name is not all photos and a tab carries it |
| StaticGallery.ReloadRestoresTab | site/script.js:16-78 | after a click and a reload, the gallery shows the clicked button's images, when labels are distinct and non-empty |
| StaticGallery.SelectionsCompared | site/script.js:16-22 | the pages agree without `all_images` when the name is found; an unknown name gives nothing on the paginated page and everything here |
| StaticGallery.Page.constructor | site/script.js:8-31 | a failed load shows the error; otherwise the buttons, every selected image, and the name highlighted |
| StaticGallery.Page.RenderGallery | site/script.js:86-123 | the no-photos message for an empty list, else one tile per image in order |
| StaticGallery.Page.SelectTab | site/script.js:73-79 | a click stores and highlights the label and shows the button's images |
| StaticGallery.FirstBatchIsPrefix | site/script.js:86-123 | the paginated page's first batch is the start of what this page draws |

## Left out

- Case mapping covers ASCII letters only. `str.lower()` and `toUpperCase()` on other letters are not modelled.
- JSON values are strings. config.json values of other JSON types, `json.dump` formatting and JSON parse errors are not modelled: a load that fails is `None`.
- Pixel work is left out: PIL decoding, `thumbnail` resampling and the resulting dimensions, pasting, and encoder failures other than an unreadable file.
- Whether a HEIC/HEIF file decodes depends on a Pillow plugin that the optimiser does not register itself. The model leaves this to the file's `Content`: with stock Pillow such a file is `Unreadable` and ends `Failed`, and with a plugin it is a `Picture`.
- One clock value `now` stamps every file saved in a run.
- File-system effects are a list of effect values, and existence is a set of path strings. Path normalisation and `os.path.join` edge cases are not modelled, except an absolute profile-picture name.
- The text of `.gitignore`, and the `index.html`/CSS copies beyond their order and presence, are not modelled.
- Printing is left out. The summary's category and image counts are the fields of `Published`. Each category copy carries its own image count; `copy_images`' printed total is not summed. `exit(1)` is the `Halted` outcome.
- File names are compared case-sensitively, in the optimised-output map and the existence set alike. Case-insensitive file systems (the macOS and Windows defaults), where `x.PNG` finds `x.png`, are not modelled.
- `setup_directories` in the optimiser is left out. It only creates folders, which the output map does not need.
- `os.path.splitext` is modelled on bare file names. The link fallback and the optimiser's filename rule split bare names too.
- Optimizer.SavePath: when `optimize_image` renames its output, it splits the full output path `optimized/<category>/<name>` (optimize_images.py:52), while the model splits the bare name. The result is the same: `splitext` only looks at the part after the last separator, so the directory part passes through unchanged.
- The DOM is left out: element creation, lazy loading, `scrollIntoView`, styles, `window.open`, `console.error` and `fetch`. A page is its fields; a click's target is a tile field.
- sync_from_drive.py (a Google Drive download client) is not part of this model, and neither is old_google_drive_version/generate_site.py.
- Concurrent runs and file-system changes during a run are not modelled.
