/**
 * The site generator (scripts/generate_site.py): it validates config.json,
 * scans the optimized photo folders into data.json with a Google Drive link
 * for every image, customises index.html from the config, and lists what it
 * writes and copies into site/.
 */
module SiteBuilder {
  import opened Wrappers
  import opened Names
  import opened Listing
  import opened Text
  import opened Manifest
  import opened PhotoScan

  /** Extensions the site shows; HEIC is converted to JPEG by the optimiser beforehand. */
  const SupportedFormats: set<string> := {".jpg", ".jpeg", ".png", ".webp"}

  const RequiredFields: seq<string> := ["name", "handle", "instagram_url"]

  /** config.json: a JSON object, its values taken as strings. */
  type Config = map<string, string>

  // ---------------------------------------------------------------- config

  /** `[f for f in fields if f not in config]` */
  function MissingAmong(fields: seq<string>, config: Config): (missing: seq<string>)
    ensures forall f :: f in missing <==> f in fields && f !in config
    ensures |missing| <= |fields|
    decreases |fields|
  {
    if fields == [] then []
    else MissingAmong(fields[..|fields| - 1], config)
         + (if fields[|fields| - 1] !in config then [fields[|fields| - 1]] else [])
  }

  /** The required fields absent from the config, in the order name, handle, instagram_url. */
  function MissingFields(config: Config): (missing: seq<string>)
    ensures forall f :: f in missing <==> f in RequiredFields && f !in config
  {
    MissingAmong(RequiredFields, config)
  }

  /** Presence is all that is checked: the missing list, spelled out field by field. */
  lemma MissingFieldsInOrder(config: Config)
    ensures MissingFields(config)
         == (if "name" in config then [] else ["name"])
          + (if "handle" in config then [] else ["handle"])
          + (if "instagram_url" in config then [] else ["instagram_url"])
  {
    var fields := RequiredFields;
    assert fields[..2] == ["name", "handle"] && fields[..2][..1] == ["name"] && ["name"][..0] == [];
    assert MissingAmong(["name"], config) == (if "name" in config then [] else ["name"]);
    assert MissingAmong(["name", "handle"], config)
        == MissingAmong(["name"], config) + (if "handle" in config then [] else ["handle"]);
  }

  datatype ConfigError = ConfigNotFound | MissingRequired(fields: seq<string>)

  /**
   * `load_config`: a missing config.json halts the run, and so does a config
   * lacking any required field, naming all those missing.
   */
  function LoadConfig(file: Option<Config>): (r: Result<Config, ConfigError>)
    ensures file.None? <==> r == Failure(ConfigNotFound)
    ensures r.Success? <==> file.Some? && forall f :: f in RequiredFields ==> f in file.value
    ensures r.Success? ==> r.value == file.value
    ensures r.Failure? && file.Some? ==> r.error == MissingRequired(MissingFields(file.value)) && r.error.fields != []
  {
    match file
    case None => Failure(ConfigNotFound)
    case Some(config) =>
      var missing := MissingFields(config);
      if missing != [] then
        assert missing[0] in missing;
        Failure(MissingRequired(missing))
      else Success(config)
  }

  /** Empty values pass the validation: presence is checked, not content. */
  lemma EmptyValuesPass()
    ensures LoadConfig(Some(map["name" := "", "handle" := "", "instagram_url" := ""])).Success?
  {
  }

  /** A config without a handle halts the run, naming the handle among the missing fields. */
  lemma MissingHandleHalts(config: Config)
    requires "handle" !in config
    ensures var r := LoadConfig(Some(config));
            r.Failure? && r.error.MissingRequired? && "handle" in r.error.fields
  {
  }

  // ---------------------------------------------------------------- drive links

  /** No two entries of the link map share a key, as in a JSON object read into a dict. */
  ghost predicate DistinctKeys(links: seq<(string, string)>)
  {
    forall i, j :: 0 <= i < j < |links| ==> links[i].0 != links[j].0
  }

  /** drive_links.json: file name to Drive URL, in the dict's iteration order. */
  type LinkMap = links: seq<(string, string)> | DistinctKeys(links) witness []

  /** `drive_links.get(key, "")` */
  function LinkValue(links: seq<(string, string)>, key: string): (v: string)
    ensures (forall i :: 0 <= i < |links| ==> links[i].0 != key) ==> v == ""
    ensures v != "" ==> exists i :: 0 <= i < |links| && links[i].0 == key && links[i].1 == v
    ensures forall i :: 0 <= i < |links| && links[i].0 == key && (forall k :: 0 <= k < i ==> links[k].0 != key)
              ==> v == links[i].1
    decreases |links|
  {
    if links == [] then ""
    else if links[0].0 == key then links[0].1
    else LinkValue(links[1..], key)
  }

  /** The index of the first link whose key has the stem `stem`, or -1. */
  function FirstStemMatch(links: seq<(string, string)>, stem: string): (i: int)
    ensures -1 <= i < |links|
    ensures i >= 0 ==> Stem(links[i].0) == stem
    ensures forall k :: 0 <= k < |links| && (i == -1 || k < i) ==> Stem(links[k].0) != stem
    decreases |links|
  {
    if links == [] then -1
    else if Stem(links[0].0) == stem then 0
    else
      var j := FirstStemMatch(links[1..], stem);
      if j == -1 then -1 else j + 1
  }

  /**
   * The Drive URL recorded for a file: its own link if that is non-empty,
   * else the link of the first key with the same stem (a HEIC original of a
   * converted JPEG), else "".
   */
  function DriveUrl(links: LinkMap, file: string): (url: string)
    ensures url != "" ==>
              exists i :: 0 <= i < |links| && links[i].1 == url && (links[i].0 == file || Stem(links[i].0) == Stem(file))
  {
    var exact := LinkValue(links, file);
    if exact != "" then exact
    else
      var i := FirstStemMatch(links, Stem(file));
      if i == -1 then "" else links[i].1
  }

  /** The loop of scan_photos that resolves one file's link, leaving at the first stem match. */
  method ResolveDriveUrl(links: LinkMap, file: string) returns (url: string)
    ensures url == DriveUrl(links, file)
  {
    url := LinkValue(links, file);
    if url == "" {
      var stem := Stem(file);
      var i := 0;
      while i < |links|
        invariant 0 <= i <= |links|
        invariant url == ""
        invariant forall k :: 0 <= k < i ==> Stem(links[k].0) != stem
      {
        if Stem(links[i].0) == stem {
          url := links[i].1;
          break;
        }
        i := i + 1;
      }
    }
  }

  /** A file's own non-empty link wins. */
  lemma ExactLinkWins(links: LinkMap, file: string, i: nat)
    requires i < |links| && links[i].0 == file && links[i].1 != ""
    ensures DriveUrl(links, file) == links[i].1
  {
  }

  /**
   * Without a non-empty link of its own, a file takes the link of the first
   * key with its stem, whatever that key's extension.
   */
  lemma StemFallback(links: LinkMap, file: string, i: nat)
    requires forall k :: 0 <= k < |links| && links[k].0 == file ==> links[k].1 == ""
    requires i < |links| && Stem(links[i].0) == Stem(file)
    requires forall k :: 0 <= k < i ==> Stem(links[k].0) != Stem(file)
    ensures DriveUrl(links, file) == links[i].1
  {
    assert LinkValue(links, file) == "" by {
      if exists k :: 0 <= k < |links| && links[k].0 == file {
        var k :| 0 <= k < |links| && links[k].0 == file;
        assert forall m :: 0 <= m < k ==> links[m].0 != file;
      }
    }
  }

  /** With neither a link of its own nor a key of the same stem, a file gets "". */
  lemma UnresolvedIsEmpty(links: LinkMap, file: string)
    requires forall k :: 0 <= k < |links| ==> links[k].0 != file && Stem(links[k].0) != Stem(file)
    ensures DriveUrl(links, file) == ""
  {
  }

  /** The converted `photo.jpg` finds the link of its original `photo.heic`. */
  lemma HeicFallbackExample()
    ensures DriveUrl([("photo.heic", "url1")], "photo.jpg") == "url1"
  {
    SplitExtExamples();
    assert HasStem("photo") by { assert "photo"[0] != '.'; }
    SplitExtAppend("photo", ".jpg");
    assert "photo" + ".jpg" == "photo.jpg";
  }

  // ---------------------------------------------------------------- photo scan

  /** An image the site shows: a regular file with a supported extension, in any case. */
  predicate IsPhoto(f: FileEntry)
  {
    f.kind == RegularFile && Ext(Lower(f.name)) in SupportedFormats
  }

  /** The data.json record of one image: its name, its path under site/, its Drive link. */
  function RecordFor(links: LinkMap): Recorder
  {
    (category: string, f: FileEntry) => Image(f.name, "images/" + category + "/" + f.name, Some(DriveUrl(links, f.name)))
  }

  /** data.json as scan_photos builds it. */
  function ScanResult(photos: Tree, links: LinkMap): Portfolio
  {
    Scan(photos, IsPhoto, RecordFor(links))
  }

  /** The body of scan_photos' inner loop: a photo's record, with its Drive link resolved. */
  method RecordPhoto(category: string, file: FileEntry, links: LinkMap) returns (image: Option<Image>)
    ensures image.Some? <==> IsPhoto(file)
    ensures image.Some? ==> image.value == RecordFor(links)(category, file)
  {
    image := None;
    if file.kind == RegularFile {
      var ext := Ext(Lower(file.name));
      if ext in SupportedFormats {
        var relativePath := "images/" + category + "/" + file.name;
        var driveUrl := ResolveDriveUrl(links, file.name);
        image := Some(Image(file.name, relativePath, Some(driveUrl)));
      }
    }
  }

  /** The inner loop of scan_photos: the records of one category's photos, in file name order. */
  method ScanCategory(category: FolderEntry, links: LinkMap) returns (images: seq<Image>)
    ensures images == CategoryImages(category, IsPhoto, RecordFor(links))
  {
    var files := SortByName(category.content);
    images := [];
    var j := 0;
    while j < |files|
      invariant 0 <= j <= |files|
      invariant images == Records(category.name, Filter(files[..j], IsPhoto), RecordFor(links))
    {
      RecordsStep(category.name, files, j, IsPhoto, RecordFor(links));
      var image := RecordPhoto(category.name, files[j], links);
      if image.Some? {
        images := images + [image.value];
      }
      j := j + 1;
    }
    assert files[..j] == files;
  }

  /** `scan_photos`: one tab per sorted category that has images. */
  method ScanPhotos(photos: Tree, links: LinkMap) returns (data: Portfolio)
    ensures data == ScanResult(photos, links)
  {
    if photos.None? {
      return Portfolio([], None);
    }
    var categories := SortByName(Filter(photos.value, IsCategory));
    var tabs: seq<Tab> := [];
    var i := 0;
    while i < |categories|
      invariant 0 <= i <= |categories|
      invariant tabs == TabsOf(categories[..i], IsPhoto, RecordFor(links))
    {
      var images := ScanCategory(categories[i], links);
      if images != [] {
        tabs := tabs + [Tab(categories[i].name, images)];
      }
      TabsStep(categories, i, IsPhoto, RecordFor(links));
      i := i + 1;
    }
    assert categories[..i] == categories;
    data := Portfolio(tabs, None);
  }

  /**
   * Every image of data.json is a regular file of a supported format, named
   * after its file, stored under images/<category>/, and carries the Drive
   * link resolved for its name; within a tab the names ascend strictly.
   */
  lemma ScanRecordShape(photos: Tree, links: LinkMap)
    ensures forall t, img :: t in ScanResult(photos, links).tabs && img in t.images ==>
              && img.path == "images/" + t.category + "/" + img.name
              && img.driveUrl == Some(DriveUrl(links, img.name))
              && Ext(Lower(img.name)) in SupportedFormats
    ensures photos.Some? && (forall c :: c in photos.value ==> DistinctNames(c.content)) ==>
              forall t, i, j :: t in ScanResult(photos, links).tabs && 0 <= i < j < |t.images| ==>
                Less(t.images[i].name, t.images[j].name)
  {
    ScanRecords(photos, IsPhoto, RecordFor(links));
    if photos.Some? {
      var tabs := ScanResult(photos, links).tabs;
      TabsOfSpec(Categories(photos.value), IsPhoto, RecordFor(links));
      forall t | t in tabs && (forall c :: c in photos.value ==> DistinctNames(c.content))
        ensures forall i, j :: 0 <= i < j < |t.images| ==> Less(t.images[i].name, t.images[j].name)
      {
        var c :| c in Categories(photos.value) && CategoryImages(c, IsPhoto, RecordFor(links)) != []
                 && t == Tab(c.name, CategoryImages(c, IsPhoto, RecordFor(links)));
        CategoryImagesSpec(c, IsPhoto, RecordFor(links));
      }
    }
  }

  // ---------------------------------------------------------------- index.html

  const NamePlaceholder := "Your Name"
  const HandlePlaceholder := "@YourHandle"
  const HeadClose := "</head>"

  /** The handle as shown: a link to the Instagram profile when a URL is configured. */
  function LinkedHandle(handle: string, url: string): (r: string)
    ensures url == "" ==> r == handle
    ensures url != "" ==>
              && |r| >= 9 + |url| + |handle| + 4
              && r[..9] == "<a href=\"" && r[9..9 + |url|] == url
              && r[|r| - 4 - |handle|..|r| - 4] == handle && r[|r| - 4..] == "</a>"
  {
    if url != "" then
      "<a href=\"" + url + "\" target=\"_blank\" style=\"text-decoration: none; color: inherit;\">" + handle + "</a>"
    else handle
  }

  /** The style block put in front of `</head>` to show the profile picture. */
  function ProfileStyle(picture: string): string
  {
    "<style>\n                .profile-image {\n                    background-image: url('images/"
    + picture
    + "');\n                    background-size: cover;\n                    background-position: center;\n                }\n                .profile-image::before { content: none !important; }\n            </style>\n            </head>"
  }

  /** `config.get('profile_picture')`, with "" for an absent key. */
  function ProfilePicture(config: Config): string
  {
    if "profile_picture" in config then config["profile_picture"] else ""
  }

  /** The page shows the profile picture when one is configured and `../photos/<picture>` exists. */
  predicate ShowsProfile(config: Config, existing: set<string>)
  {
    ProfilePicture(config) != "" && "../photos/" + ProfilePicture(config) in existing
  }

  /**
   * The three `str.replace` calls of copy_frontend_files, given the texts
   * that replace the placeholders; `style` is absent when `</head>` stays.
   */
  function Substitute(template: string, name: string, handle: string, style: Option<string>): string
  {
    var named := ReplaceAll(template, NamePlaceholder, name);
    var handled := ReplaceAll(named, HandlePlaceholder, handle);
    if style.Some? then ReplaceAll(handled, HeadClose, style.value) else handled
  }

  /** The customisation of index.html from the config. */
  function Customize(template: string, config: Config, existing: set<string>): string
    requires forall f :: f in RequiredFields ==> f in config
  {
    Substitute(template, config["name"], LinkedHandle(config["handle"], config["instagram_url"]),
               if ShowsProfile(config, existing) then Some(ProfileStyle(ProfilePicture(config))) else None)
  }

  /**
   * Each placeholder is cut out of the page and the pieces joined again
   * with its replacement; `</head>` is touched only when a style is given.
   */
  lemma SubstituteSpec(template: string, name: string, handle: string, style: Option<string>)
    ensures var named := Join(Split(template, NamePlaceholder), name);
            var handled := Join(Split(named, HandlePlaceholder), handle);
            Substitute(template, name, handle, style)
              == if style.Some? then Join(Split(handled, HeadClose), style.value) else handled
  {
    var named := ReplaceAll(template, NamePlaceholder, name);
    ReplaceAllIsJoinSplit(template, NamePlaceholder, name);
    var handled := ReplaceAll(named, HandlePlaceholder, handle);
    ReplaceAllIsJoinSplit(named, HandlePlaceholder, handle);
    if style.Some? {
      ReplaceAllIsJoinSplit(handled, HeadClose, style.value);
    }
  }

  /** A page with none of the placeholders and no `</head>` comes out as it went in. */
  lemma SubstitutePlainPage(template: string, name: string, handle: string, style: Option<string>)
    requires !Contains(template, NamePlaceholder) && !Contains(template, HandlePlaceholder) && !Contains(template, HeadClose)
    ensures Substitute(template, name, handle, style) == template
  {
    ReplaceAllAbsent(template, NamePlaceholder, name);
    ReplaceAllAbsent(template, HandlePlaceholder, handle);
    if style.Some? {
      ReplaceAllAbsent(template, HeadClose, style.value);
    }
  }

  // ---------------------------------------------------------------- the run

  /** What the run does to the file system, in order. */
  datatype Effect =
    | MakeSiteDir
    | WriteData(data: Portfolio)
    | WriteIndex(html: string)
    | CopyStatic(file: string)
    | MakeImagesDir
    | ReplaceCategory(category: string, imageCount: nat)
    | CopyProfilePicture(source: string, picture: string)
    | WriteGitignore

  /**
   * Everything the run reads: config.json and drive_links.json when they
   * exist, the optimized folder, the files of src/ with their text, and the
   * set of other paths that exist.
   */
  datatype Workspace = Workspace(
    config: Option<Config>,
    links: Option<LinkMap>,
    photos: Tree,
    sources: map<string, string>,
    existing: set<string>)

  datatype Outcome =
    | Halted(error: ConfigError)
    | NothingToPublish
    | Published(effects: seq<Effect>, categories: nat, images: nat)

  /** `os.path.join('../photos', p)` on POSIX: an absolute `p` replaces the directory. */
  function PhotosPath(p: string): string
  {
    if |p| > 0 && p[0] == '/' then p else "../photos/" + p
  }

  /** What copy_images counts in a copied category: entries with a supported extension. */
  predicate HasPhotoExtension(f: FileEntry)
  {
    Ext(Lower(f.name)) in SupportedFormats
  }

  /** The position of a front-end effect in the order copy_frontend_files performs them. */
  function FrontendRank(e: Effect): nat
  {
    match e
    case WriteIndex(_) => 0
    case CopyStatic(file) => if file == "style.css" then 1 else 2
    case _ => 3
  }

  /** index.html customised from the config, when the template exists. */
  function IndexPage(config: Config, sources: map<string, string>, existing: set<string>): (page: Option<string>)
    requires forall f :: f in RequiredFields ==> f in config
    ensures page.Some? <==> "index.html" in sources
  {
    if "index.html" in sources then Some(Customize(sources["index.html"], config, existing)) else None
  }

  /**
   * The effects of copy_frontend_files: the customised index.html written
   * when there is one, then style.css and script.js copied, each exactly
   * when it exists, in that order.
   */
  function FrontendEffects(page: Option<string>, sources: map<string, string>): (r: seq<Effect>)
    ensures forall e :: e in r ==> e.WriteIndex? || e.CopyStatic?
    ensures page.Some? ==> |r| > 0 && r[0] == WriteIndex(page.value)
    ensures page.None? ==> forall e :: e in r ==> !e.WriteIndex?
    ensures forall f :: CopyStatic(f) in r <==> (f == "style.css" || f == "script.js") && f in sources
    ensures forall i, j :: 0 <= i < j < |r| ==> FrontendRank(r[i]) < FrontendRank(r[j])
  {
    var index := if page.Some? then [WriteIndex(page.value)] else [];
    var style := if "style.css" in sources then [CopyStatic("style.css")] else [];
    var script := if "script.js" in sources then [CopyStatic("script.js")] else [];
    index + style + script
  }

  /** `copytree` of one category folder into site/images/, with the count of its supported entries. */
  function CategoryCopy(c: FolderEntry): Effect
  {
    ReplaceCategory(c.name, |Filter(c.content, HasPhotoExtension)|)
  }

  /**
   * The copies of `copy_images`: every directory of the optimized folder,
   * hidden ones too, copied once, in listing order; other entries are skipped.
   */
  function CategoryCopies(listing: seq<FolderEntry>): (r: seq<Effect>)
    ensures |r| == |Filter(listing, IsDirectory)|
    ensures forall i :: 0 <= i < |r| ==> r[i] == CategoryCopy(Filter(listing, IsDirectory)[i])
    decreases |listing|
  {
    if listing == [] then []
    else
      var c := listing[|listing| - 1];
      CategoryCopies(listing[..|listing| - 1]) + (if c.kind == Directory then [CategoryCopy(c)] else [])
  }

  /**
   * The effects of copy_images: nothing without an optimized folder;
   * otherwise site/images/ is made first, every directory is copied, and
   * the configured profile picture is copied last when it exists.
   */
  function ImageEffects(config: Config, photos: Tree, existing: set<string>): (r: seq<Effect>)
    ensures photos.None? ==> r == []
    ensures photos.Some? ==> |r| > 0 && r[0] == MakeImagesDir
    ensures forall i :: 0 < i < |r| ==> r[i] != MakeImagesDir
    ensures forall e :: e in r ==> e.MakeImagesDir? || e.ReplaceCategory? || e.CopyProfilePicture?
    ensures photos.Some? ==> forall c :: c in photos.value && c.kind == Directory ==> CategoryCopy(c) in r
    ensures forall e :: e in r && e.CopyProfilePicture? ==>
              && e.picture == ProfilePicture(config) != ""
              && e.source == PhotosPath(e.picture) && e.source in existing
              && e == r[|r| - 1]
    ensures photos.Some? && ProfilePicture(config) != "" && PhotosPath(ProfilePicture(config)) in existing ==>
              r[|r| - 1] == CopyProfilePicture(PhotosPath(ProfilePicture(config)), ProfilePicture(config))
  {
    match photos
    case None => []
    case Some(listing) =>
      var picture := ProfilePicture(config);
      var copies := CategoryCopies(listing);
      var profile := if picture != "" && PhotosPath(picture) in existing then [CopyProfilePicture(PhotosPath(picture), picture)] else [];
      CategoryCopiesKinds(listing);
      CategoryCopiesMembers(listing);
      var r := [MakeImagesDir] + copies + profile;
      assert forall i :: 0 < i < |r| ==> r[i] != MakeImagesDir by {
        forall i | 0 < i < |r| ensures r[i] != MakeImagesDir {
          if i <= |copies| {
            assert r[i] == copies[i - 1] && copies[i - 1] in copies;
          }
        }
      }
      assert forall e :: e in r && e.CopyProfilePicture? ==> e in profile;
      r
  }

  /**
   * Between making site/images/ and the profile picture come exactly the
   * category copies, and the picture adds one effect exactly when it is
   * named and exists.
   */
  lemma ImageEffectsLayout(config: Config, listing: seq<FolderEntry>, existing: set<string>)
    ensures var r := ImageEffects(config, Some(listing), existing);
            var copies := CategoryCopies(listing);
            && |r| == 1 + |copies| + (if ProfilePicture(config) != "" && PhotosPath(ProfilePicture(config)) in existing then 1 else 0)
            && r[1..1 + |copies|] == copies
  {
    var r := ImageEffects(config, Some(listing), existing);
    var copies := CategoryCopies(listing);
    assert r[1..1 + |copies|] == copies;
  }

  /** The effects of a publishing run: site/, data.json, then `rest`, then .gitignore. */
  function RunEffects(data: Portfolio, rest: seq<Effect>): (r: seq<Effect>)
    ensures |r| == |rest| + 3 && r[0] == MakeSiteDir && r[1] == WriteData(data) && r[|r| - 1] == WriteGitignore
    ensures r[2..|r| - 1] == rest
  {
    [MakeSiteDir, WriteData(data)] + rest + [WriteGitignore]
  }

  /**
   * `main`: a config problem halts the run; a scan without tabs stops it
   * before anything is written; otherwise data.json, the front end, the
   * images and .gitignore are written, in that order.
   */
  function GenerateSite(ws: Workspace): (r: Outcome)
    ensures r.Halted? <==> LoadConfig(ws.config).Failure?
    ensures r.Halted? ==> r.error == LoadConfig(ws.config).error
    ensures r == NothingToPublish <==>
              LoadConfig(ws.config).Success? && ScanResult(ws.photos, if ws.links.Some? then ws.links.value else []).tabs == []
    ensures r.Published? ==>
              && |r.effects| >= 3
              && r.effects[0] == MakeSiteDir
              && r.effects[1] == WriteData(ScanResult(ws.photos, if ws.links.Some? then ws.links.value else []))
              && r.effects[|r.effects| - 1] == WriteGitignore
              && r.categories == |r.effects[1].data.tabs| > 0
              && r.images == ImageCount(r.effects[1].data.tabs)
    ensures r.Published? ==>
              LoadConfig(ws.config).Success? &&
              r.effects[2..|r.effects| - 1]
                == FrontendEffects(IndexPage(LoadConfig(ws.config).value, ws.sources, ws.existing), ws.sources)
                   + ImageEffects(LoadConfig(ws.config).value, ws.photos, ws.existing)
  {
    var loaded := LoadConfig(ws.config);
    if loaded.Failure? then Halted(loaded.error)
    else
      var config := loaded.value;
      var links: LinkMap := if ws.links.Some? then ws.links.value else [];
      var data := ScanResult(ws.photos, links);
      if data.tabs == [] then NothingToPublish
      else
        var rest := FrontendEffects(IndexPage(config, ws.sources, ws.existing), ws.sources) + ImageEffects(config, ws.photos, ws.existing);
        Published(RunEffects(data, rest), |data.tabs|, ImageCount(data.tabs))
  }

  /** Nothing is written unless the run publishes. */
  lemma NoOutputBeforeTabs(ws: Workspace)
    requires !GenerateSite(ws).Published?
    ensures GenerateSite(ws) == NothingToPublish || GenerateSite(ws).Halted?
  {
  }

  /**
   * The page shows the profile picture exactly when the run copies it, for
   * any picture name that is not an absolute path.
   */
  lemma ProfilePictureAgreement(config: Config, listing: seq<FolderEntry>, existing: set<string>)
    requires ProfilePicture(config) == "" || ProfilePicture(config)[0] != '/'
    ensures ShowsProfile(config, existing) <==>
              CopyProfilePicture("../photos/" + ProfilePicture(config), ProfilePicture(config))
                in ImageEffects(config, Some(listing), existing)
  {
    var picture := ProfilePicture(config);
    var effects := ImageEffects(config, Some(listing), existing);
    var copy := CopyProfilePicture("../photos/" + picture, picture);
    assert copy in effects ==> ShowsProfile(config, existing) by {
      if copy in effects {
        assert copy !in [MakeImagesDir];
        assert copy !in CategoryCopies(listing);
      }
    }
  }

  /** Copying categories produces nothing but category copies. */
  lemma CategoryCopiesKinds(listing: seq<FolderEntry>)
    ensures forall e :: e in CategoryCopies(listing) ==> e.ReplaceCategory?
  {
  }

  /** The copies are one per directory of the listing, hidden ones too, and nothing else. */
  lemma CategoryCopiesMembers(listing: seq<FolderEntry>)
    ensures forall e :: e in CategoryCopies(listing) <==>
              exists c :: c in listing && c.kind == Directory && e == CategoryCopy(c)
  {
    var dirs := Filter(listing, IsDirectory);
    var r := CategoryCopies(listing);
    forall e | e in r ensures exists c :: c in listing && c.kind == Directory && e == CategoryCopy(c) {
      var i :| 0 <= i < |r| && r[i] == e;
      assert dirs[i] in dirs;
    }
    forall c | c in listing && c.kind == Directory ensures CategoryCopy(c) in r {
      assert IsDirectory(c) && c in dirs;
      var i :| 0 <= i < |dirs| && dirs[i] == c;
      assert r[i] == CategoryCopy(c);
    }
  }
}
