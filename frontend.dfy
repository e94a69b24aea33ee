/**
 * What the two gallery scripts (src/script.js and site/script.js) have in
 * common: the stored tab name and its default, tab labels, the lookup of a
 * tab by label, the concatenation of all tabs' images, the tab buttons and
 * the tile drawn for an image with the address a click opens.
 */
module Frontend {
  import opened Wrappers
  import opened Names
  import opened Manifest

  /** The label of the tab showing every image, and the default stored name. */
  const AllPhotos := "ALL PHOTOS"

  /** `localStorage.getItem('activeTabCategory') || "ALL PHOTOS"`: nothing stored, or "", means all photos. */
  function ActiveName(stored: Option<string>): (name: string)
    ensures name != ""
    ensures stored.Some? && stored.value != "" ==> name == stored.value
    ensures stored.None? || stored.value == "" ==> name == AllPhotos
  {
    if stored.Some? && stored.value != "" then stored.value else AllPhotos
  }

  /** A tab's label: its category upper-cased; it is also the name stored when the tab is clicked. */
  function TabLabel(category: string): string
  {
    Upper(category)
  }

  /** The position of the first tab labelled `name`, or the number of tabs when none is. */
  function FirstLabelled(tabs: seq<Tab>, name: string): (i: nat)
    ensures i <= |tabs|
    ensures i < |tabs| ==> TabLabel(tabs[i].category) == name
    ensures forall k :: 0 <= k < i ==> TabLabel(tabs[k].category) != name
    decreases |tabs|
  {
    if tabs == [] || TabLabel(tabs[0].category) == name then 0
    else
      var i := FirstLabelled(tabs[1..], name);
      assert forall k :: 1 <= k < i + 1 ==> tabs[k] == tabs[1..][k - 1];
      1 + i
  }

  /** `tabs.find(t => t.category.toUpperCase() === name)`: the first tab labelled `name`. */
  function FindTab(tabs: seq<Tab>, name: string): (r: Option<Tab>)
    ensures r.None? <==> forall t :: t in tabs ==> TabLabel(t.category) != name
    ensures r.Some? ==> r.value == tabs[FirstLabelled(tabs, name)]
  {
    var i := FirstLabelled(tabs, name);
    if i < |tabs| then Some(tabs[i]) else None
  }

  /** `getAllImages(tabs)`: the images of every tab, concatenated in tab order. */
  method GetAllImages(tabs: seq<Tab>) returns (allImages: seq<Image>)
    ensures allImages == Flatten(tabs)
  {
    allImages := [];
    var i := 0;
    while i < |tabs|
      invariant 0 <= i <= |tabs|
      invariant allImages == Flatten(tabs[..i])
    {
      assert tabs[..i + 1][..i] == tabs[..i];
      allImages := allImages + tabs[i].images;
      i := i + 1;
    }
    assert tabs[..i] == tabs;
  }

  /** An image's Drive link is truthy: present and not empty. */
  predicate HasDriveLink(img: Image)
  {
    img.driveUrl.Some? && img.driveUrl.value != ""
  }

  /** `image.drive_url || image.path`: the address a click on the image opens. */
  function ClickTarget(img: Image): (url: string)
    ensures HasDriveLink(img) ==> url == img.driveUrl.value
    ensures !HasDriveLink(img) ==> url == img.path
  {
    if HasDriveLink(img) then img.driveUrl.value else img.path
  }

  /**
   * One gallery item: the image shown from its path, its name as alt text,
   * the hand cursor and Drive hint when it has a link, and what a click opens.
   */
  datatype Tile = Tile(src: string, alt: string, driveHint: bool, opens: string)

  function TileOf(img: Image): Tile
  {
    Tile(img.path, img.name, HasDriveLink(img), ClickTarget(img))
  }

  function TilesOf(images: seq<Image>): (r: seq<Tile>)
    ensures |r| == |images| && forall i :: 0 <= i < |images| ==> r[i] == TileOf(images[i])
  {
    seq(|images|, i requires 0 <= i < |images| => TileOf(images[i]))
  }

  lemma TilesOfAppend(a: seq<Image>, b: seq<Image>)
    ensures TilesOf(a + b) == TilesOf(a) + TilesOf(b)
  {
  }

  /** The `images.forEach` of `renderGallery`: one gallery item per image, in order. */
  method DrawTiles(images: seq<Image>) returns (items: seq<Tile>)
    ensures items == TilesOf(images)
  {
    items := [];
    var k := 0;
    while k < |images|
      invariant 0 <= k <= |images|
      invariant items == TilesOf(images[..k])
    {
      assert images[..k + 1] == images[..k] + [images[k]];
      TilesOfAppend(images[..k], [images[k]]);
      items := items + [TileOf(images[k])];
      k := k + 1;
    }
    assert images[..k] == images;
  }

  /**
   * A tile opens the Drive link exactly when it carries the hint, and the
   * image's own path otherwise; images written without a link always open
   * their path.
   */
  lemma TileOpens(img: Image)
    ensures TileOf(img).driveHint ==> TileOf(img).opens == img.driveUrl.value
    ensures !TileOf(img).driveHint ==> TileOf(img).opens == TileOf(img).src
    ensures img.driveUrl.None? ==> TileOf(img).opens == img.path && !TileOf(img).driveHint
  {
  }

  /**
   * A tab button: the category it was made for, shown upper-cased, and the
   * images a click on it shows.
   */
  datatype Button = Button(category: string, images: seq<Image>)

  /** `renderTabs`: the all-photos button first, then one per tab in order. */
  function Buttons(allImages: seq<Image>, tabs: seq<Tab>): (r: seq<Button>)
    ensures |r| == |tabs| + 1 && r[0] == Button(AllPhotos, allImages)
    ensures forall i :: 0 <= i < |tabs| ==> r[i + 1] == Button(tabs[i].category, tabs[i].images)
  {
    [Button(AllPhotos, allImages)] + seq(|tabs|, i requires 0 <= i < |tabs| => Button(tabs[i].category, tabs[i].images))
  }

  /** `setActiveTab(name)`: the positions of the buttons whose text is `name`. */
  function Highlighted(buttons: seq<Button>, name: string): (r: set<nat>)
    ensures forall i: nat :: i in r <==> i < |buttons| && TabLabel(buttons[i].category) == name
  {
    set i: nat | i < |buttons| && TabLabel(buttons[i].category) == name
  }

  /** No two tabs share a label and none is labelled like the all-photos tab. */
  ghost predicate DistinctLabels(tabs: seq<Tab>)
  {
    && (forall i, j :: 0 <= i < j < |tabs| ==> TabLabel(tabs[i].category) != TabLabel(tabs[j].category))
    && (forall i :: 0 <= i < |tabs| ==> TabLabel(tabs[i].category) != AllPhotos)
  }

  /** Looking a tab up by its own label finds it, when labels are distinct. */
  lemma FindOwnLabel(tabs: seq<Tab>, i: nat)
    requires i < |tabs| && DistinctLabels(tabs)
    ensures FindTab(tabs, TabLabel(tabs[i].category)) == Some(tabs[i])
  {
    var j := FirstLabelled(tabs, TabLabel(tabs[i].category));
    assert j == i by {
      assert j <= i;
      assert !(j < i);
    }
  }

  /**
   * The name stored by a click on a tab's button is read back as that
   * label and looks up that tab, when labels are distinct and categories
   * are not empty.
   */
  lemma StoredLabelFindsTab(tabs: seq<Tab>, i: nat)
    requires i < |tabs| && DistinctLabels(tabs) && tabs[i].category != ""
    ensures ActiveName(Some(TabLabel(tabs[i].category))) == TabLabel(tabs[i].category) != AllPhotos
    ensures FindTab(tabs, TabLabel(tabs[i].category)) == Some(tabs[i])
  {
    var name := TabLabel(tabs[i].category);
    assert |name| == |tabs[i].category| > 0;
    FindOwnLabel(tabs, i);
  }

  /** The name stored by a click on the all-photos button is read back as all photos. */
  lemma StoredAllPhotos()
    ensures ActiveName(Some(TabLabel(AllPhotos))) == AllPhotos
  {
    assert TabLabel(AllPhotos) == AllPhotos;
  }

  /**
   * Clicking a button highlights that button and, when labels are
   * distinct, no other: the name stored is its own label.
   */
  lemma ClickHighlightsOne(allImages: seq<Image>, tabs: seq<Tab>, i: nat)
    requires i <= |tabs| && DistinctLabels(tabs)
    ensures Highlighted(Buttons(allImages, tabs), TabLabel(Buttons(allImages, tabs)[i].category)) == {i}
  {
    var buttons := Buttons(allImages, tabs);
    var name := TabLabel(buttons[i].category);
    assert TabLabel(AllPhotos) == AllPhotos;
    forall j: nat | j < |buttons| && j != i
      ensures TabLabel(buttons[j].category) != name
    {
      if j == 0 {
        assert name == TabLabel(tabs[i - 1].category);
      } else if i == 0 {
        assert TabLabel(buttons[j].category) == TabLabel(tabs[j - 1].category);
      } else {
        assert TabLabel(buttons[j].category) == TabLabel(tabs[j - 1].category);
        assert name == TabLabel(tabs[i - 1].category);
        if j < i {
          assert TabLabel(tabs[j - 1].category) != TabLabel(tabs[i - 1].category);
        } else {
          assert TabLabel(tabs[i - 1].category) != TabLabel(tabs[j - 1].category);
        }
      }
    }
  }

  /**
   * A category called "all photos" in any case, and a category with an
   * empty name, cannot be told from the all-photos tab once stored: its
   * label reads back on reload as all photos.
   */
  lemma AllPhotosLabelClash(c: string)
    requires Lower(c) == "all photos"
    ensures TabLabel(c) == AllPhotos
    ensures ActiveName(Some(TabLabel(c))) == AllPhotos
    ensures ActiveName(Some(TabLabel(""))) == AllPhotos
  {
    assert |c| == |AllPhotos|;
    forall k | 0 <= k < |c| ensures Upper(c)[k] == AllPhotos[k] {
      assert Lower(c)[k] == "all photos"[k];
    }
  }
}
