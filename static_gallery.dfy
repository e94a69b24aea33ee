/**
 * The gallery page as shipped in site/ (site/script.js): the same tabs and
 * stored name as the paginated page, but every image of the chosen tab is
 * drawn at once, the all-photos tab always shows every tab's images, and an
 * unknown stored name falls back to all photos instead of an empty gallery.
 */
module StaticGallery {
  import opened Wrappers
  import opened Manifest
  import opened Frontend
  import PagedGallery

  /** What the gallery container shows. */
  datatype View = Items(tiles: seq<Tile>) | NoPhotosMessage | LoadFailedMessage

  /** The images `fetchAndRender` starts with for a stored name. */
  function InitialImages(data: Portfolio, name: string): seq<Image>
  {
    var tab := FindTab(data.tabs, name);
    if name != AllPhotos && tab.Some? then tab.value.images else Flatten(data.tabs)
  }

  /** The container after `renderGallery(images)`. */
  function ViewOf(images: seq<Image>): View
  {
    if images == [] then NoPhotosMessage else Items(TilesOf(images))
  }

  /**
   * The first lines of `fetchAndRender`: every tab's images, replaced by
   * the named tab's when the name is not all photos and a tab carries it.
   */
  method SelectInitialImages(data: Portfolio, name: string) returns (initialImages: seq<Image>)
    ensures initialImages == InitialImages(data, name)
  {
    initialImages := GetAllImages(data.tabs);
    if name != AllPhotos {
      var tab := FindTab(data.tabs, name);
      if tab.Some? {
        initialImages := tab.value.images;
      }
    }
  }

  /**
   * Reloading the page after a click on a button shows that button's
   * images again, when the tabs' labels are distinct and not empty.
   */
  lemma ReloadRestoresTab(data: Portfolio, i: nat)
    requires i <= |data.tabs| && DistinctLabels(data.tabs)
    requires forall t :: t in data.tabs ==> t.category != ""
    ensures var b := Buttons(Flatten(data.tabs), data.tabs)[i];
            InitialImages(data, ActiveName(Some(TabLabel(b.category)))) == b.images
  {
    var b := Buttons(Flatten(data.tabs), data.tabs)[i];
    if i == 0 {
      assert b.category == AllPhotos;
      StoredAllPhotos();
    } else {
      var t := data.tabs[i - 1];
      assert b == Button(t.category, t.images);
      assert t in data.tabs;
      StoredLabelFindsTab(data.tabs, i - 1);
    }
  }


  /**
   * The two pages choose the same images unless data.json carries an
   * `all_images` list (only the paginated page reads it) or the stored name
   * matches no tab (the paginated page then shows nothing, this one every
   * image).
   */
  lemma SelectionsCompared(data: Portfolio, name: string)
    ensures data.allImages.None? && (name == AllPhotos || FindTab(data.tabs, name).Some?) ==>
              PagedGallery.InitialImages(data, name) == InitialImages(data, name)
    ensures name != AllPhotos && FindTab(data.tabs, name).None? ==>
              PagedGallery.InitialImages(data, name) == [] && InitialImages(data, name) == Flatten(data.tabs)
    ensures name == AllPhotos && data.allImages.Some? ==>
              PagedGallery.InitialImages(data, name) == data.allImages.value
  {
  }

  /** The page's state: the data, its buttons, the stored name and the gallery. */
  class Page {
    var data: Portfolio
    var buttons: seq<Button>
    /** The `activeTabCategory` entry of local storage. */
    var stored: Option<string>
    /** The name last passed to `setActiveTab`. */
    var active: Option<string>
    var view: View

    /**
     * `fetchAndRender`: without data the page shows the failure message;
     * otherwise the buttons, every image the stored name selects, and that
     * name highlighted.
     */
    constructor (loaded: Option<Portfolio>, stored: Option<string>)
      ensures this.stored == stored
      ensures loaded.None? ==> view == LoadFailedMessage && buttons == [] && active.None?
      ensures loaded.Some? ==>
                && data == loaded.value
                && buttons == Buttons(Flatten(data.tabs), data.tabs)
                && view == ViewOf(InitialImages(data, ActiveName(stored)))
                && active == Some(ActiveName(stored))
    {
      this.stored := stored;
      data := Portfolio([], None);
      buttons := [];
      active := None;
      view := Items([]);
      new;
      if loaded.None? {
        view := LoadFailedMessage;
        return;
      }
      data := loaded.value;
      var allImages := GetAllImages(data.tabs);
      buttons := Buttons(allImages, data.tabs);
      var name := ActiveName(stored);
      var initialImages := SelectInitialImages(data, name);
      RenderGallery(initialImages);
      active := Some(name);
    }

    /** `renderGallery(images)`: the no-photos message, or one tile per image in order. */
    method RenderGallery(images: seq<Image>)
      modifies this`view
      ensures view == ViewOf(images)
    {
      if |images| == 0 {
        view := NoPhotosMessage;
        return;
      }
      var items := DrawTiles(images);
      view := Items(items);
    }

    /** A click on a tab button: its label is stored and highlighted and its images drawn. */
    method SelectTab(b: Button)
      requires b in buttons
      modifies this
      ensures stored == Some(TabLabel(b.category)) && active == Some(TabLabel(b.category))
      ensures data == old(data) && buttons == old(buttons)
      ensures view == ViewOf(b.images)
    {
      stored := Some(TabLabel(b.category));
      active := Some(TabLabel(b.category));
      RenderGallery(b.images);
    }
  }

  /**
   * The paginated page's first batch, when it reads no `all_images`, is
   * the start of what this page draws for the same stored name.
   */
  lemma FirstBatchIsPrefix(data: Portfolio, name: string)
    requires data.allImages.None? && (name == AllPhotos || FindTab(data.tabs, name).Some?)
    requires InitialImages(data, name) != []
    ensures var images := PagedGallery.InitialImages(data, name);
            ViewOf(InitialImages(data, name)).tiles[..PagedGallery.BatchEnd(0, |images|)]
              == TilesOf(images[..PagedGallery.BatchEnd(0, |images|)])
  {
    SelectionsCompared(data, name);
  }
}
