/**
 * The `scan_photos` walk that both site generators share: the non-hidden
 * directories of the photo folder in sorted order, in each the files that
 * pass the generator's photo test in sorted order, one record per file and
 * one tab per category that has any. The generators differ only in the
 * photo test and in the record they write for a file.
 */
module PhotoScan {
  import opened Names
  import opened Listing
  import opened Manifest
  import opened Wrappers

  /** Which files a generator takes as photos. */
  type PhotoTest = FileEntry -> bool

  /** The record a generator writes for a file of a category. */
  type Recorder = (string, FileEntry) -> Image

  /** A category folder: a directory whose name does not start with a dot. */
  predicate IsCategory(e: FolderEntry)
  {
    e.kind == Directory && !(|e.name| > 0 && e.name[0] == '.')
  }

  /** The records of some files of one category, in their order. */
  function Records(category: string, files: seq<FileEntry>, record: Recorder): (r: seq<Image>)
    ensures |r| == |files|
    ensures forall i :: 0 <= i < |files| ==> r[i] == record(category, files[i])
    decreases |files|
  {
    if files == [] then []
    else Records(category, files[..|files| - 1], record) + [record(category, files[|files| - 1])]
  }

  lemma RecordsAppend(category: string, files: seq<FileEntry>, f: FileEntry, record: Recorder)
    ensures Records(category, files + [f], record) == Records(category, files, record) + [record(category, f)]
  {
    assert (files + [f])[..|files|] == files;
  }

  /** One more file of a category: its record follows when it is a photo. */
  lemma RecordsStep(category: string, files: seq<FileEntry>, j: nat, isPhoto: PhotoTest, record: Recorder)
    requires j < |files|
    ensures Records(category, Filter(files[..j + 1], isPhoto), record)
            == Records(category, Filter(files[..j], isPhoto), record)
               + (if isPhoto(files[j]) then [record(category, files[j])] else [])
  {
    assert files[..j + 1][..j] == files[..j];
    if isPhoto(files[j]) {
      RecordsAppend(category, Filter(files[..j], isPhoto), files[j], record);
    }
  }

  /** The photos of one category, sorted by file name. */
  function Photos(c: FolderEntry, isPhoto: PhotoTest): (r: seq<FileEntry>)
    ensures forall f :: f in r <==> f in c.content && isPhoto(f)
  {
    Filter(SortByName(c.content), isPhoto)
  }

  /** The records of a category's photos, in file name order. */
  function CategoryImages(c: FolderEntry, isPhoto: PhotoTest, record: Recorder): seq<Image>
  {
    Records(c.name, Photos(c, isPhoto), record)
  }

  /** The tabs of some categories, in their order, leaving out those without images. */
  function TabsOf(categories: seq<FolderEntry>, isPhoto: PhotoTest, record: Recorder): seq<Tab>
    decreases |categories|
  {
    if categories == [] then []
    else
      var c := categories[|categories| - 1];
      var images := CategoryImages(c, isPhoto, record);
      TabsOf(categories[..|categories| - 1], isPhoto, record) + (if images == [] then [] else [Tab(c.name, images)])
  }

  /** One more category: its tab follows when it has images. */
  lemma TabsStep(categories: seq<FolderEntry>, i: nat, isPhoto: PhotoTest, record: Recorder)
    requires i < |categories|
    ensures TabsOf(categories[..i + 1], isPhoto, record)
            == TabsOf(categories[..i], isPhoto, record)
               + (var images := CategoryImages(categories[i], isPhoto, record);
                  if images == [] then [] else [Tab(categories[i].name, images)])
  {
    assert categories[..i + 1][..i] == categories[..i];
  }

  /** The categories the walk visits: the non-hidden directories, sorted. */
  function Categories(listing: seq<FolderEntry>): seq<FolderEntry>
  {
    SortByName(Filter(listing, IsCategory))
  }

  /** data.json as `scan_photos` builds it; no photo folder gives no tabs. */
  function Scan(photos: Tree, isPhoto: PhotoTest, record: Recorder): Portfolio
  {
    match photos
    case None => Portfolio([], None)
    case Some(listing) => Portfolio(TabsOf(Categories(listing), isPhoto, record), None)
  }

  /**
   * A category's images are exactly the records of its photos; when the
   * folder's names are distinct and a record carries its file's name, the
   * images come in strictly ascending name order.
   */
  lemma CategoryImagesSpec(c: FolderEntry, isPhoto: PhotoTest, record: Recorder)
    ensures forall img :: img in CategoryImages(c, isPhoto, record)
              <==> exists f :: f in c.content && isPhoto(f) && img == record(c.name, f)
    ensures DistinctNames(c.content) && (forall f :: record(c.name, f).name == f.name) ==>
              forall i, j :: 0 <= i < j < |CategoryImages(c, isPhoto, record)| ==>
                Less(CategoryImages(c, isPhoto, record)[i].name, CategoryImages(c, isPhoto, record)[j].name)
  {
    var photos := Photos(c, isPhoto);
    var images := CategoryImages(c, isPhoto, record);
    forall img | img in images
      ensures exists f :: f in c.content && isPhoto(f) && img == record(c.name, f)
    {
      var k :| 0 <= k < |images| && images[k] == img;
      assert photos[k] in photos;
    }
    forall f | f in c.content && isPhoto(f)
      ensures record(c.name, f) in images
    {
      var k :| 0 <= k < |photos| && photos[k] == f;
      assert images[k] == record(c.name, f);
    }
    SortByNameSorts(c.content);
    FilterKeepsOrder(SortByName(c.content), isPhoto);
  }

  /** Every tab comes from a category with images, holding those images; no other tab exists. */
  lemma {:induction false} TabsOfSpec(categories: seq<FolderEntry>, isPhoto: PhotoTest, record: Recorder)
    ensures forall t :: t in TabsOf(categories, isPhoto, record) <==>
              exists c :: c in categories && CategoryImages(c, isPhoto, record) != []
                          && t == Tab(c.name, CategoryImages(c, isPhoto, record))
    decreases |categories|
  {
    if categories != [] {
      var init := categories[..|categories| - 1];
      TabsOfSpec(init, isPhoto, record);
      assert categories == init + [categories[|categories| - 1]];
      var before := TabsOf(init, isPhoto, record);
      forall t | t in TabsOf(categories, isPhoto, record)
        ensures exists d :: d in categories && CategoryImages(d, isPhoto, record) != []
                            && t == Tab(d.name, CategoryImages(d, isPhoto, record))
      {
        if t in before {
          var d :| d in init && CategoryImages(d, isPhoto, record) != [] && t == Tab(d.name, CategoryImages(d, isPhoto, record));
          assert d in categories;
        }
      }
    }
  }

  /** The tabs' categories ascend strictly. */
  ghost predicate Ascending(tabs: seq<Tab>)
  {
    forall i, j :: 0 <= i < j < |tabs| ==> Less(tabs[i].category, tabs[j].category)
  }

  /** A tab above every tab of an ascending list may follow it. */
  lemma AscendingSnoc(before: seq<Tab>, t: Tab)
    requires Ascending(before)
    requires forall i :: 0 <= i < |before| ==> Less(before[i].category, t.category)
    ensures Ascending(before + [t])
  {
    var tabs := before + [t];
    forall i, j | 0 <= i < j < |tabs| ensures Less(tabs[i].category, tabs[j].category) {
      assert tabs[i] == before[i];
    }
  }

  /** Strictly ascending categories give strictly ascending tabs. */
  lemma {:induction false} TabsOfAscending(categories: seq<FolderEntry>, isPhoto: PhotoTest, record: Recorder)
    requires StrictlySorted(categories)
    ensures Ascending(TabsOf(categories, isPhoto, record))
    decreases |categories|
  {
    if categories != [] {
      var init, c := categories[..|categories| - 1], categories[|categories| - 1];
      assert StrictlySorted(init);
      TabsOfAscending(init, isPhoto, record);
      var before := TabsOf(init, isPhoto, record);
      var images := CategoryImages(c, isPhoto, record);
      if images != [] {
        TabsOfSpec(init, isPhoto, record);
        forall i | 0 <= i < |before| ensures Less(before[i].category, c.name) {
          assert before[i] in before;
          var d :| d in init && before[i] == Tab(d.name, CategoryImages(d, isPhoto, record));
          var k :| 0 <= k < |init| && init[k] == d;
          assert categories[k] == d;
        }
        AscendingSnoc(before, Tab(c.name, images));
      }
    }
  }

  /**
   * The tabs of data.json: one per non-hidden directory holding at least
   * one photo, strictly ascending by category when the folder's names are
   * distinct; no photo folder gives no tabs, and no `all_images` list is
   * written.
   */
  lemma ScanTabs(photos: Tree, isPhoto: PhotoTest, record: Recorder)
    ensures photos.None? ==> Scan(photos, isPhoto, record).tabs == []
    ensures photos.Some? ==>
              forall t :: t in Scan(photos, isPhoto, record).tabs <==>
                exists c :: c in photos.value && IsCategory(c) && CategoryImages(c, isPhoto, record) != []
                            && t == Tab(c.name, CategoryImages(c, isPhoto, record))
    ensures photos.Some? && DistinctNames(photos.value) ==> Ascending(Scan(photos, isPhoto, record).tabs)
    ensures Scan(photos, isPhoto, record).allImages.None?
  {
    if photos.Some? {
      TabsOfSpec(Categories(photos.value), isPhoto, record);
      FilterKeepsOrder(photos.value, IsCategory);
      SortByNameSorts(Filter(photos.value, IsCategory));
      if DistinctNames(photos.value) {
        TabsOfAscending(Categories(photos.value), isPhoto, record);
      }
    }
  }

  /**
   * Every image of data.json is the record of a photo that sits in the
   * folder of its tab's category, a non-hidden directory of the photo folder.
   */
  lemma ScanRecords(photos: Tree, isPhoto: PhotoTest, record: Recorder)
    ensures forall t, img :: t in Scan(photos, isPhoto, record).tabs && img in t.images ==>
              && photos.Some?
              && exists c, f :: && c in photos.value && IsCategory(c) && c.name == t.category
                                && f in c.content && isPhoto(f) && img == record(t.category, f)
  {
    ScanTabs(photos, isPhoto, record);
    if photos.Some? {
      forall t, img | t in Scan(photos, isPhoto, record).tabs && img in t.images
        ensures exists c, f :: && c in photos.value && IsCategory(c) && c.name == t.category
                               && f in c.content && isPhoto(f) && img == record(t.category, f)
      {
        var c :| c in photos.value && IsCategory(c) && CategoryImages(c, isPhoto, record) != []
                 && t == Tab(c.name, CategoryImages(c, isPhoto, record));
        CategoryImagesSpec(c, isPhoto, record);
        var f :| f in c.content && isPhoto(f) && img == record(c.name, f);
      }
    }
  }
}
