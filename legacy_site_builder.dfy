/**
 * The older site generator (generate_site.py at the repository root): the
 * same scan as the current one, with HEIC/HEIF still allowed, paths into
 * ../optimized/ and no Drive links; it copies the front-end files as they
 * are and has no configuration.
 */
module LegacySiteBuilder {
  import opened Wrappers
  import opened Names
  import opened Listing
  import opened Manifest
  import opened PhotoScan

  const SupportedFormats: set<string> := {".jpg", ".jpeg", ".png", ".webp", ".heic", ".heif"}

  /** The front-end files copied into site/, in this order. */
  const FrontendFiles: seq<string> := ["index.html", "style.css", "script.js"]

  /** A photo: a regular file with a supported extension, in any case. */
  predicate IsPhoto(f: FileEntry)
  {
    f.kind == RegularFile && Ext(Lower(f.name)) in SupportedFormats
  }

  /** The record of one image: its name and its path relative to site/, nothing else. */
  function RecordFor(): Recorder
  {
    (category: string, f: FileEntry) => Image(f.name, "../optimized/" + category + "/" + f.name, None)
  }

  /** data.json as this scan_photos builds it. */
  function ScanResult(photos: Tree): Portfolio
  {
    Scan(photos, IsPhoto, RecordFor())
  }

  /** The body of scan_photos' inner loop: a photo's record. */
  method RecordPhoto(category: string, file: FileEntry) returns (image: Option<Image>)
    ensures image.Some? <==> IsPhoto(file)
    ensures image.Some? ==> image.value == RecordFor()(category, file)
  {
    image := None;
    if file.kind == RegularFile {
      var ext := Ext(Lower(file.name));
      if ext in SupportedFormats {
        var relativePath := "../optimized/" + category + "/" + file.name;
        image := Some(Image(file.name, relativePath, None));
      }
    }
  }

  /** The inner loop of scan_photos. */
  method ScanCategory(category: FolderEntry) returns (images: seq<Image>)
    ensures images == CategoryImages(category, IsPhoto, RecordFor())
  {
    var files := SortByName(category.content);
    images := [];
    var j := 0;
    while j < |files|
      invariant 0 <= j <= |files|
      invariant images == Records(category.name, Filter(files[..j], IsPhoto), RecordFor())
    {
      RecordsStep(category.name, files, j, IsPhoto, RecordFor());
      var image := RecordPhoto(category.name, files[j]);
      if image.Some? {
        images := images + [image.value];
      }
      j := j + 1;
    }
    assert files[..j] == files;
  }

  /** `scan_photos`: one tab per sorted category that has images. */
  method ScanPhotos(photos: Tree) returns (data: Portfolio)
    ensures data == ScanResult(photos)
  {
    if photos.None? {
      return Portfolio([], None);
    }
    var categories := SortByName(Filter(photos.value, IsCategory));
    var tabs: seq<Tab> := [];
    var i := 0;
    while i < |categories|
      invariant 0 <= i <= |categories|
      invariant tabs == TabsOf(categories[..i], IsPhoto, RecordFor())
    {
      var images := ScanCategory(categories[i]);
      if images != [] {
        tabs := tabs + [Tab(categories[i].name, images)];
      }
      TabsStep(categories, i, IsPhoto, RecordFor());
      i := i + 1;
    }
    assert categories[..i] == categories;
    data := Portfolio(tabs, None);
  }

  /**
   * Every image of data.json is a regular file of a supported format, named
   * after its file, found at ../optimized/<category>/ and without a link.
   */
  lemma ScanRecordShape(photos: Tree)
    ensures forall t, img :: t in ScanResult(photos).tabs && img in t.images ==>
              && img.path == "../optimized/" + t.category + "/" + img.name
              && img.driveUrl.None?
              && Ext(Lower(img.name)) in SupportedFormats
  {
    ScanRecords(photos, IsPhoto, RecordFor());
    forall t, img | t in ScanResult(photos).tabs && img in t.images
      ensures && img.path == "../optimized/" + t.category + "/" + img.name
              && img.driveUrl.None?
              && Ext(Lower(img.name)) in SupportedFormats
    {
      var f :| IsPhoto(f) && img == RecordFor()(t.category, f);
      assert img.name == f.name;
    }
  }

  /** HEIC files are photos here, whatever the case of their extension and whatever they hold. */
  lemma HeicIsPhoto(stem: string, ext: string, d: FileData)
    requires HasStem(stem) && Lower(ext) == ".heic"
    ensures IsPhoto(Entry(stem + ext, RegularFile, d))
  {
    assert |ext| == 5;
    assert ext[0] == '.' by { assert Lower(ext)[0] == '.'; }
    forall k | 1 <= k < |ext| ensures ext[k] != '.' && ext[k] != '/' {
      assert Lower(ext)[k] == ".heic"[k];
    }
    SplitExtAppend(stem, ext);
    ExtOfLower(stem + ext);
  }

  /**
   * `copy_frontend_files`: the files of index.html, style.css and
   * script.js that exist, copied in that order; the others are skipped.
   */
  method CopyFrontendFiles(present: set<string>) returns (copied: seq<string>)
    ensures copied == Existing(FrontendFiles, present)
  {
    copied := [];
    var i := 0;
    while i < |FrontendFiles|
      invariant 0 <= i <= |FrontendFiles|
      invariant copied == Existing(FrontendFiles[..i], present)
    {
      var file := FrontendFiles[i];
      assert FrontendFiles[..i + 1][..i] == FrontendFiles[..i];
      if file in present {
        copied := copied + [file];
      }
      i := i + 1;
    }
    assert FrontendFiles[..i] == FrontendFiles;
  }

  /** The files copied are index.html, style.css and script.js, in that order, each iff it exists. */
  lemma FrontendFilesInOrder(present: set<string>)
    ensures Existing(FrontendFiles, present)
         == (if "index.html" in present then ["index.html"] else [])
          + (if "style.css" in present then ["style.css"] else [])
          + (if "script.js" in present then ["script.js"] else [])
  {
    assert FrontendFiles == (([] + ["index.html"]) + ["style.css"]) + ["script.js"];
    ExistingSnoc([], "index.html", present);
    ExistingSnoc([] + ["index.html"], "style.css", present);
    ExistingSnoc(([] + ["index.html"]) + ["style.css"], "script.js", present);
  }

  /** What the run does to the file system, in order. */
  datatype Effect = MakeSiteDir | WriteData(data: Portfolio) | CopyFile(file: string) | WriteGitignore

  /** One copy per file, in order. */
  function CopyEffects(files: seq<string>): (r: seq<Effect>)
    ensures |r| == |files| && forall i :: 0 <= i < |files| ==> r[i] == CopyFile(files[i])
    ensures forall e :: e in r <==> e.CopyFile? && e.file in files
    decreases |files|
  {
    if files == [] then [] else CopyEffects(files[..|files| - 1]) + [CopyFile(files[|files| - 1])]
  }

  /** The effects of a run that publishes `data` and copies `copies`. */
  function RunEffects(data: Portfolio, copies: seq<string>): (r: seq<Effect>)
    ensures |r| == |copies| + 3 && r[0] == MakeSiteDir && r[1] == WriteData(data) && r[|r| - 1] == WriteGitignore
    ensures forall i :: 0 <= i < |copies| ==> r[i + 2] == CopyFile(copies[i])
    ensures forall f :: CopyFile(f) in r <==> f in copies
  {
    var copying := CopyEffects(copies);
    var r := [MakeSiteDir, WriteData(data)] + copying + [WriteGitignore];
    assert forall f :: CopyFile(f) in r <==> CopyFile(f) in copying;
    r
  }

  datatype Outcome = NothingToPublish | Published(effects: seq<Effect>, categories: nat, images: nat)

  /**
   * `main`: a scan without tabs stops the run before anything is written;
   * otherwise site/, data.json, the front-end copies and .gitignore follow.
   */
  function GenerateSite(photos: Tree, present: set<string>): (r: Outcome)
    ensures r == NothingToPublish <==> ScanResult(photos).tabs == []
    ensures r.Published? ==>
              && |r.effects| >= 3
              && r.effects[0] == MakeSiteDir
              && r.effects[1] == WriteData(ScanResult(photos))
              && r.effects[|r.effects| - 1] == WriteGitignore
              && r.categories == |ScanResult(photos).tabs| > 0
              && r.images == ImageCount(ScanResult(photos).tabs)
    ensures r.Published? ==>
              forall f :: CopyFile(f) in r.effects <==> f in FrontendFiles && f in present
    ensures r.Published? ==> r.effects[2..|r.effects| - 1] == CopyEffects(Existing(FrontendFiles, present))
  {
    var data := ScanResult(photos);
    ExistingMembers(FrontendFiles, present);
    if data.tabs == [] then NothingToPublish
    else
      Published(RunEffects(data, Existing(FrontendFiles, present)), |data.tabs|, ImageCount(data.tabs))
  }
}
