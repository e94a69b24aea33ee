/**
 * The image optimiser (optimize_images.py): it walks photos/<category>/,
 * and for every image whose output in optimized/<category>/ is missing or
 * not newer than the source, either copies the file (optimisation off, the
 * shipped setting) or re-encodes it: choosing the output format and name,
 * normalising the colour mode for JPEG and shrinking oversized pictures.
 */
module Optimizer {
  import opened Wrappers
  import opened Names
  import opened Listing

  /** The settings at the top of the script. */
  datatype Settings = Settings(
    enableOptimization: bool,
    maxWidth: nat,
    maxHeight: nat,
    jpegQuality: nat,
    preserveFormat: bool)

  /** The values the script ships with: copy only, keep formats. */
  const Shipped := Settings(false, 4000, 4000, 95, true)

  const SupportedFormats: set<string> := {".jpg", ".jpeg", ".png", ".heic", ".heif", ".webp"}

  /** Formats kept as they are when formats are preserved. */
  const KeptFormats: seq<string> := ["JPEG", "PNG", "WEBP"]

  // ---------------------------------------------------------------- one image

  /** The file looks like an image: its extension, lower-cased, is supported. */
  predicate HasSupportedExt(f: FileEntry)
  {
    Ext(Lower(f.name)) in SupportedFormats
  }

  /** The output file name looked up before processing: `.jpg` when converting everything, else the input's name. */
  function OutputFilename(s: Settings, name: string): string
  {
    if s.enableOptimization && !s.preserveFormat then Stem(name) + ".jpg" else name
  }

  /** `ext_map.get(format, '.jpg')` */
  function ExtFor(format: string): string
  {
    if format == "PNG" then ".png" else if format == "WEBP" then ".webp" else ".jpg"
  }

  /** The format the picture is saved in. */
  function OutputFormat(s: Settings, format: string): string
  {
    if s.preserveFormat && format in KeptFormats then format else "JPEG"
  }

  /** Where the picture is saved: renamed to its format's extension unless that format is JPEG. */
  function SavePath(s: Settings, format: string, out: string): string
  {
    if s.preserveFormat && OutputFormat(s, format) != "JPEG" then Stem(out) + ExtFor(OutputFormat(s, format)) else out
  }

  /**
   * How a picture's colour mode is made fit for JPEG: flattened onto a white
   * RGB background (palette pictures first promoted to RGBA, whose alpha is
   * then the mask), converted to RGB, or kept.
   */
  datatype ModePlan = KeepMode | FlattenOnWhite(promoted: bool, masked: bool) | ConvertToRgb

  function ModePlanFor(outputFormat: string, mode: string): ModePlan
  {
    if outputFormat != "JPEG" then KeepMode
    else if mode in {"RGBA", "LA", "P"} then FlattenOnWhite(mode == "P", mode == "P" || mode == "RGBA")
    else if mode != "RGB" then ConvertToRgb
    else KeepMode
  }

  /** The colour mode after the plan is carried out. */
  function ModeAfter(plan: ModePlan, mode: string): string
  {
    if plan.KeepMode? then mode else "RGB"
  }

  /** A picture is shrunk only when it is wider or taller than allowed. */
  predicate NeedsResize(s: Settings, width: nat, height: nat)
  {
    width > s.maxWidth || height > s.maxHeight
  }

  /** What `optimize_image` does with one file. */
  datatype ImageResult =
    | Copied(name: string)
    | Saved(name: string, format: string, plan: ModePlan, mode: string, resized: bool, quality: Option<nat>)
    | Failed

  /** `optimize_image(input, out)`, as a function of the settings and the input file. */
  function Transform(s: Settings, f: FileEntry, out: string): (r: ImageResult)
    ensures r.Failed? <==> f.kind != RegularFile || (s.enableOptimization && f.content.image.Unreadable?)
    ensures r.Copied? <==> !s.enableOptimization && f.kind == RegularFile
    ensures r.Copied? ==> r.name == out
  {
    if !s.enableOptimization then
      if f.kind == RegularFile then Copied(out) else Failed
    else if f.kind != RegularFile || f.content.image.Unreadable? then Failed
    else
      var p := f.content.image;
      var format := OutputFormat(s, p.format);
      var plan := ModePlanFor(format, p.mode);
      Saved(SavePath(s, p.format, out), format, plan, ModeAfter(plan, p.mode),
            NeedsResize(s, p.width, p.height), if format == "JPEG" then Some(s.jpegQuality) else None)
  }

  /** `optimize_image`, step by step: the output path and the picture's mode are updated in place. */
  method OptimizeImage(s: Settings, f: FileEntry, outputPath: string) returns (r: ImageResult)
    ensures r == Transform(s, f, outputPath)
  {
    if !s.enableOptimization {
      if f.kind != RegularFile {
        return Failed;
      }
      return Copied(outputPath);
    }
    if f.kind != RegularFile || f.content.image.Unreadable? {
      return Failed;
    }
    var img := f.content.image;
    var path := outputPath;
    var format: string;
    if s.preserveFormat {
      format := if img.format in KeptFormats then img.format else "JPEG";
      if format != "JPEG" {
        path := Stem(path) + ExtFor(format);
      }
    } else {
      format := "JPEG";
    }
    var mode := img.mode;
    var plan := KeepMode;
    if format == "JPEG" {
      if mode in {"RGBA", "LA", "P"} {
        var promoted := mode == "P";
        if mode == "P" {
          mode := "RGBA";
        }
        plan := FlattenOnWhite(promoted, mode == "RGBA");
        mode := "RGB";
      } else if mode != "RGB" {
        plan := ConvertToRgb;
        mode := "RGB";
      }
    }
    var resized := img.width > s.maxWidth || img.height > s.maxHeight;
    var quality := if format == "JPEG" then Some(s.jpegQuality) else None;
    r := Saved(path, format, plan, mode, resized, quality);
  }

  /**
   * When everything is converted, a supported image's output name is its
   * stem with `.jpg`, and splits back into that stem and `.jpg`; otherwise
   * the output keeps the input's name.
   */
  lemma OutputFilenameSpec(s: Settings, f: FileEntry)
    requires HasSupportedExt(f)
    ensures !(s.enableOptimization && !s.preserveFormat) ==> OutputFilename(s, f.name) == f.name
    ensures s.enableOptimization && !s.preserveFormat ==>
              SplitExt(OutputFilename(s, f.name)) == (Stem(f.name), ".jpg")
  {
    if s.enableOptimization && !s.preserveFormat {
      SupportedHasStem(f);
      JpgSplit(Stem(f.name));
    }
  }

  lemma JpgSplit(stem: string)
    requires HasStem(stem)
    ensures SplitExt(stem + ".jpg") == (stem, ".jpg")
  {
    var jpg := ".jpg";
    assert jpg[0] == '.' && jpg[1] == 'j' && jpg[2] == 'p' && jpg[3] == 'g';
    SplitExtAppend(stem, jpg);
  }

  /** A file with a supported extension has a real stem in front of it. */
  lemma SupportedHasStem(f: FileEntry)
    requires HasSupportedExt(f)
    ensures HasStem(Stem(f.name))
  {
    var e := Ext(Lower(f.name));
    assert e != "" by {
      assert e in SupportedFormats;
      assert "" !in SupportedFormats;
    }
    ExtOfLower(f.name);
    ExtShape(f.name);
  }

  /**
   * With optimisation off every regular file is copied under its own name
   * and anything else fails; nothing about the picture is looked at.
   */
  lemma CopyModeSpec(s: Settings, f: FileEntry, out: string)
    requires !s.enableOptimization
    ensures Transform(s, f, out) == (if f.kind == RegularFile then Copied(out) else Failed)
    ensures forall g: FileEntry :: g.kind == f.kind ==> Transform(s, g, out) == Transform(s, f, out)
  {
  }

  /**
   * A re-encoded picture: the format is JPEG, PNG or WEBP, kept only when
   * formats are preserved; JPEG output keeps the looked-up name, comes out
   * in RGB and carries the quality setting; PNG and WEBP output is renamed
   * to `.png` / `.webp`, keeps its mode and has no quality; the picture is
   * resized exactly when it exceeds the bounds.
   */
  lemma SavedSpec(s: Settings, f: FileEntry, out: string)
    requires s.enableOptimization && f.kind == RegularFile && f.content.image.Picture?
    ensures var r := Transform(s, f, out);
            var p := f.content.image;
            && r.Saved?
            && r.format in KeptFormats
            && (r.format != "JPEG" ==> s.preserveFormat && r.format == p.format)
            && (s.preserveFormat && p.format in KeptFormats ==> r.format == p.format)
            && (r.format == "JPEG" ==> r.name == out && r.mode == "RGB" && r.quality == Some(s.jpegQuality))
            && (r.format == "PNG" ==> r.name == Stem(out) + ".png" && r.mode == p.mode && r.quality.None?)
            && (r.format == "WEBP" ==> r.name == Stem(out) + ".webp" && r.mode == p.mode && r.quality.None?)
            && (r.resized <==> p.width > s.maxWidth || p.height > s.maxHeight)
  {
  }

  /**
   * For JPEG output, RGBA, LA and palette pictures are flattened onto
   * white (masked by alpha for RGBA and palette pictures, not for LA);
   * other non-RGB modes are converted; RGB is left alone.
   */
  lemma ModePlanSpec(format: string, mode: string)
    ensures format != "JPEG" ==> ModePlanFor(format, mode) == KeepMode
    ensures format == "JPEG" ==> ModeAfter(ModePlanFor(format, mode), mode) == "RGB"
    ensures format == "JPEG" ==>
              (ModePlanFor(format, mode).FlattenOnWhite? <==> mode == "RGBA" || mode == "LA" || mode == "P")
    ensures ModePlanFor(format, mode).FlattenOnWhite? ==>
              (ModePlanFor(format, mode).masked <==> mode != "LA")
    ensures ModePlanFor(format, mode) == KeepMode ==> format != "JPEG" || mode == "RGB"
  {
  }

  /**
   * With formats preserved, a picture saved as JPEG keeps the name it was
   * looked up under, whatever its extension: a readable HEIF picture named
   * `x.heic` is written as JPEG data to `x.heic`.
   */
  lemma HeifKeepsItsName(s: Settings, f: FileEntry)
    requires s.enableOptimization && s.preserveFormat && f.kind == RegularFile
    requires f.content.image.Picture? && f.content.image.format == "HEIF"
    ensures Transform(s, f, OutputFilename(s, f.name)) ==
              Saved(f.name, "JPEG", ModePlanFor("JPEG", f.content.image.mode),
                    ModeAfter(ModePlanFor("JPEG", f.content.image.mode), f.content.image.mode),
                    NeedsResize(s, f.content.image.width, f.content.image.height), Some(s.jpegQuality))
  {
  }

  // ---------------------------------------------------------------- the run

  /**
   * The counters and the output folder: (category, file name) to
   * modification time for every file in optimized/.
   */
  datatype RunState = RunState(processed: nat, skipped: nat, outputs: map<(string, string), int>)

  /** The output exists and is strictly newer than the source. */
  predicate UpToDate(outputs: map<(string, string), int>, category: string, out: string, f: FileEntry)
  {
    (category, out) in outputs && outputs[(category, out)] > f.content.mtime
  }

  /**
   * One image of the walk. An up-to-date output is skipped; otherwise the
   * image is transformed: a failure counts as skipped, a copy keeps the
   * source's modification time (`shutil.copy2`), a save is stamped `now`.
   */
  function Step(s: Settings, now: int, st: RunState, item: (string, FileEntry)): (next: RunState)
    ensures next.processed + next.skipped == st.processed + st.skipped + 1
    ensures next.processed == st.processed ==> next.outputs == st.outputs
    ensures next.outputs.Keys >= st.outputs.Keys
  {
    var (category, f) := item;
    var out := OutputFilename(s, f.name);
    if UpToDate(st.outputs, category, out, f) then st.(skipped := st.skipped + 1)
    else
      match Transform(s, f, out)
      case Failed => st.(skipped := st.skipped + 1)
      case Copied(name) => st.(processed := st.processed + 1, outputs := st.outputs[(category, name) := f.content.mtime])
      case Saved(name, _, _, _, _, _) => st.(processed := st.processed + 1, outputs := st.outputs[(category, name) := now])
  }

  /** The images of the walk handled one after the other. */
  function Run(s: Settings, now: int, st: RunState, items: seq<(string, FileEntry)>): RunState
    decreases |items|
  {
    if items == [] then st else Step(s, now, Run(s, now, st, items[..|items| - 1]), items[|items| - 1])
  }

  /** The images of a category considered, sorted: any entry with a supported extension. */
  function Candidates(c: FolderEntry): seq<FileEntry>
  {
    SortByName(Filter(c.content, HasSupportedExt))
  }

  /** Some files paired with their category. */
  function InCategory(category: string, files: seq<FileEntry>): (r: seq<(string, FileEntry)>)
    ensures |r| == |files| && forall i :: 0 <= i < |files| ==> r[i] == (category, files[i])
  {
    seq(|files|, i requires 0 <= i < |files| => (category, files[i]))
  }

  /** The images of some categories, category after category. */
  function ConsideredIn(dirs: seq<FolderEntry>): seq<(string, FileEntry)>
    decreases |dirs|
  {
    if dirs == [] then []
    else ConsideredIn(dirs[..|dirs| - 1]) + InCategory(dirs[|dirs| - 1].name, Candidates(dirs[|dirs| - 1]))
  }

  /** The directories of photos/, hidden ones included, sorted. */
  function SourceDirs(listing: seq<FolderEntry>): seq<FolderEntry>
  {
    SortByName(Filter(listing, IsDirectory))
  }

  /** The images `process_all_images` walks, in order. */
  function Considered(listing: seq<FolderEntry>): seq<(string, FileEntry)>
  {
    ConsideredIn(SourceDirs(listing))
  }

  /** `process_all_images`: without photos/ nothing happens. */
  function ProcessAll(s: Settings, now: int, source: Tree, outputs: map<(string, string), int>): RunState
  {
    match source
    case None => RunState(0, 0, outputs)
    case Some(listing) => Run(s, now, RunState(0, 0, outputs), Considered(listing))
  }

  /** The body of the inner loop of `process_all_images`: one image looked up, skipped or handled. */
  method HandleImage(s: Settings, now: int, category: string, file: FileEntry,
                     processed: nat, skipped: nat, written: map<(string, string), int>)
    returns (processed': nat, skipped': nat, written': map<(string, string), int>)
    ensures RunState(processed', skipped', written') == Step(s, now, RunState(processed, skipped, written), (category, file))
  {
    processed', skipped', written' := processed, skipped, written;
    var out := OutputFilename(s, file.name);
    if (category, out) in written && written[(category, out)] > file.content.mtime {
      skipped' := skipped + 1;
      return;
    }
    var result := OptimizeImage(s, file, out);
    match result {
      case Failed =>
        skipped' := skipped + 1;
      case Copied(name) =>
        processed' := processed + 1;
        written' := written[(category, name) := file.content.mtime];
      case Saved(name, _, _, _, _, _) =>
        processed' := processed + 1;
        written' := written[(category, name) := now];
    }
  }

  /** The inner loop of `process_all_images`: the sorted images of one category. */
  method ProcessCategory(s: Settings, now: int, category: FolderEntry,
                         processed: nat, skipped: nat, written: map<(string, string), int>)
    returns (processed': nat, skipped': nat, written': map<(string, string), int>)
    ensures RunState(processed', skipped', written')
         == Run(s, now, RunState(processed, skipped, written), InCategory(category.name, Candidates(category)))
  {
    processed', skipped', written' := processed, skipped, written;
    var images := Candidates(category);
    var j := 0;
    while j < |images|
      invariant 0 <= j <= |images|
      invariant RunState(processed', skipped', written')
             == Run(s, now, RunState(processed, skipped, written), InCategory(category.name, images[..j]))
    {
      assert InCategory(category.name, images[..j + 1])[..j] == InCategory(category.name, images[..j]);
      processed', skipped', written' := HandleImage(s, now, category.name, images[j], processed', skipped', written');
      j := j + 1;
    }
    assert images[..j] == images;
  }

  /** Handling a sequence of images in two parts is handling it at once. */
  lemma {:induction false} RunAppend(s: Settings, now: int, st: RunState, a: seq<(string, FileEntry)>, b: seq<(string, FileEntry)>)
    ensures Run(s, now, st, a + b) == Run(s, now, Run(s, now, st, a), b)
    decreases |b|
  {
    if b != [] {
      RunAppend(s, now, st, a, b[..|b| - 1]);
      assert (a + b)[..|a + b| - 1] == a + b[..|b| - 1];
    } else {
      assert a + b == a;
    }
  }

  /** The outer loop of `process_all_images`: the given categories one after the other. */
  method ProcessCategories(s: Settings, now: int, dirs: seq<FolderEntry>, outputs: map<(string, string), int>)
    returns (processed: nat, skipped: nat, written: map<(string, string), int>)
    ensures RunState(processed, skipped, written) == Run(s, now, RunState(0, 0, outputs), ConsideredIn(dirs))
  {
    processed, skipped, written := 0, 0, outputs;
    var i := 0;
    while i < |dirs|
      invariant 0 <= i <= |dirs|
      invariant RunState(processed, skipped, written) == Run(s, now, RunState(0, 0, outputs), ConsideredIn(dirs[..i]))
    {
      var before, images := ConsideredIn(dirs[..i]), InCategory(dirs[i].name, Candidates(dirs[i]));
      assert dirs[..i + 1][..i] == dirs[..i];
      assert ConsideredIn(dirs[..i + 1]) == before + images;
      RunAppend(s, now, RunState(0, 0, outputs), before, images);
      processed, skipped, written := ProcessCategory(s, now, dirs[i], processed, skipped, written);
      i := i + 1;
    }
    assert dirs[..i] == dirs;
  }

  /** `process_all_images`: without photos/ nothing happens; otherwise the sorted directories are walked. */
  method ProcessAllImages(s: Settings, now: int, source: Tree, outputs: map<(string, string), int>)
    returns (processed: nat, skipped: nat, written: map<(string, string), int>)
    ensures RunState(processed, skipped, written) == ProcessAll(s, now, source, outputs)
  {
    if source.None? {
      return 0, 0, outputs;
    }
    processed, skipped, written := ProcessCategories(s, now, SourceDirs(source.value), outputs);
  }

  /** Every image handled counts once, as processed or as skipped. */
  lemma {:induction false} RunCounts(s: Settings, now: int, st: RunState, items: seq<(string, FileEntry)>)
    ensures Run(s, now, st, items).processed + Run(s, now, st, items).skipped == st.processed + st.skipped + |items|
    ensures Run(s, now, st, items).processed >= st.processed && Run(s, now, st, items).skipped >= st.skipped
    decreases |items|
  {
    if items != [] {
      RunCounts(s, now, st, items[..|items| - 1]);
    }
  }

  /**
   * The counters of a run add up to the number of images considered;
   * without photos/ both stay zero and nothing is written.
   */
  lemma ProcessAllCounts(s: Settings, now: int, source: Tree, outputs: map<(string, string), int>)
    ensures source.None? ==> ProcessAll(s, now, source, outputs) == RunState(0, 0, outputs)
    ensures source.Some? ==>
              ProcessAll(s, now, source, outputs).processed + ProcessAll(s, now, source, outputs).skipped
                == |Considered(source.value)|
  {
    if source.Some? {
      RunCounts(s, now, RunState(0, 0, outputs), Considered(source.value));
    }
  }

  /** The images considered are the supported entries of the source directories, and only those. */
  lemma {:induction false} ConsideredInSpec(dirs: seq<FolderEntry>)
    ensures forall c, f :: (c, f) in ConsideredIn(dirs) <==>
              exists d :: d in dirs && d.name == c && f in d.content && HasSupportedExt(f)
    decreases |dirs|
  {
    if dirs != [] {
      var init, d := dirs[..|dirs| - 1], dirs[|dirs| - 1];
      ConsideredInSpec(init);
      assert dirs == init + [d];
      var tail := InCategory(d.name, Candidates(d));
      forall c, f | (c, f) in tail ensures d.name == c && f in d.content && HasSupportedExt(f) {
        var k :| 0 <= k < |tail| && tail[k] == (c, f);
        assert Candidates(d)[k] in Candidates(d);
      }
      forall c, f | (exists e :: e in dirs && e.name == c && f in e.content && HasSupportedExt(f))
        ensures (c, f) in ConsideredIn(dirs)
      {
        var e :| e in dirs && e.name == c && f in e.content && HasSupportedExt(f);
        if e != d {
          assert e in init;
        } else {
          var k :| 0 <= k < |Candidates(d)| && Candidates(d)[k] == f;
          assert tail[k] == (c, f);
        }
      }
    }
  }

  /**
   * An image is considered exactly when it sits in a directory of photos/
   * (hidden or not) and has a supported extension, whether or not it is a
   * regular file.
   */
  lemma ConsideredSpec(listing: seq<FolderEntry>)
    ensures forall c, f :: (c, f) in Considered(listing) <==>
              exists d :: d in listing && d.kind == Directory && d.name == c && f in d.content && HasSupportedExt(f)
  {
    ConsideredInSpec(SourceDirs(listing));
  }

  /** An image is skipped exactly when its output is strictly newer or the transform fails. */
  lemma StepSkipRule(s: Settings, now: int, st: RunState, category: string, f: FileEntry)
    ensures var next := Step(s, now, st, (category, f));
            var out := OutputFilename(s, f.name);
            && (next.skipped == st.skipped + 1 <==>
                  UpToDate(st.outputs, category, out, f) || Transform(s, f, out).Failed?)
            && (next.skipped == st.skipped + 1 ==> next.processed == st.processed && next.outputs == st.outputs)
            && (next.skipped == st.skipped ==> next.processed == st.processed + 1)
  {
  }

  /**
   * In copy mode a copied image is never up to date: the copy has the
   * source's own modification time, which the strict comparison does not
   * accept, so every later run copies it again.
   */
  lemma CopyModeRecopies(s: Settings, now: int, st: RunState, category: string, f: FileEntry)
    requires !s.enableOptimization && f.kind == RegularFile
    requires !UpToDate(st.outputs, category, f.name, f)
    ensures var once := Step(s, now, st, (category, f));
            var twice := Step(s, now, once, (category, f));
            && once.processed == st.processed + 1
            && once.outputs == st.outputs[(category, f.name) := f.content.mtime]
            && twice.processed == once.processed + 1
            && twice.outputs == once.outputs
  {
  }

  /**
   * A picture saved under the name it was looked up with, at a time after
   * its source's, is skipped the next time round.
   */
  lemma SavedOutputIsSkipped(s: Settings, now: int, st: RunState, category: string, f: FileEntry)
    requires s.enableOptimization && f.kind == RegularFile && f.content.image.Picture?
    requires now > f.content.mtime
    requires Transform(s, f, OutputFilename(s, f.name)).name == OutputFilename(s, f.name)
    requires !UpToDate(st.outputs, category, OutputFilename(s, f.name), f)
    ensures var once := Step(s, now, st, (category, f));
            var twice := Step(s, now, once, (category, f));
            && once.processed == st.processed + 1
            && twice.skipped == once.skipped + 1
            && twice.outputs == once.outputs
  {
  }

  /**
   * A picture saved under another name than the one looked up (`x.PNG`
   * saved as `x.png`) is processed again on every run, as long as nothing
   * newer sits under the looked-up name. Names are compared exactly, as on
   * a case-sensitive file system.
   */
  lemma RenamedOutputIsRedone(s: Settings, now: int, st: RunState, category: string, f: FileEntry)
    requires s.enableOptimization && f.kind == RegularFile && f.content.image.Picture?
    requires Transform(s, f, OutputFilename(s, f.name)).name != OutputFilename(s, f.name)
    requires !UpToDate(st.outputs, category, OutputFilename(s, f.name), f)
    ensures var once := Step(s, now, st, (category, f));
            var twice := Step(s, now, once, (category, f));
            && once.processed == st.processed + 1
            && twice.processed == once.processed + 1
  {
  }

  /** With optimisation switched on in the shipped settings, an upper-case `.PNG` file kept as PNG is renamed to `.png`. */
  lemma UpperCasePngIsRenamed()
    ensures var s := Shipped.(enableOptimization := true);
            var f := Entry("x.PNG", RegularFile, FileData(0, Picture("PNG", "RGBA", 10, 10)));
            Transform(s, f, OutputFilename(s, f.name)).name == "x.png"
  {
    assert HasStem("x") by { assert "x"[0] != '.'; }
    SplitExtAppend("x", ".PNG");
    assert "x" + ".PNG" == "x.PNG";
  }
}
