/**
 * The paginated gallery page (src/script.js): the tab chosen from the stored
 * name, a gallery that shows a tab's images twelve at a time, and a
 * "Load More" button present while images remain.
 */
module PagedGallery {
  import opened Wrappers
  import opened Manifest
  import opened Frontend

  /** Images added per batch. */
  const PageSize: nat := 12

  /** `Math.min(renderedCount + PAGE_SIZE, currentImages.length)`: the count after one more batch. */
  function BatchEnd(rendered: nat, count: nat): nat
  {
    if rendered + PageSize < count then rendered + PageSize else count
  }

  /** The count shown after `batches` batches since the gallery was reset. */
  function Rendered(batches: nat, count: nat): (r: nat)
    ensures r <= count
  {
    if batches == 0 then 0 else BatchEnd(Rendered(batches - 1, count), count)
  }

  /** The batches needed to show `count` images: `count` divided by twelve, rounded up. */
  function Pages(count: nat): nat
  {
    (count + PageSize - 1) / PageSize
  }

  /** After `k` batches the first min(12 k, count) images are shown. */
  lemma {:induction false} RenderedClosedForm(batches: nat, count: nat)
    ensures Rendered(batches, count) == if PageSize * batches < count then PageSize * batches else count
  {
    if batches > 0 {
      RenderedClosedForm(batches - 1, count);
    }
  }

  /**
   * Every image is shown after exactly `Pages(count)` batches: each earlier
   * batch leaves some image out, so the button stays until the last one.
   */
  lemma AllShownAfterPages(count: nat)
    ensures Rendered(Pages(count), count) == count
    ensures forall k: nat :: k < Pages(count) ==> Rendered(k, count) < count
  {
    RenderedClosedForm(Pages(count), count);
    assert PageSize * Pages(count) >= count;
    forall k: nat | k < Pages(count) ensures Rendered(k, count) < count {
      RenderedClosedForm(k, count);
      assert PageSize * k < count;
    }
  }

  /** The list the all-photos tab shows: `all_images` when data.json has one, else every tab's images. */
  function AllImagesOf(data: Portfolio): seq<Image>
  {
    if data.allImages.Some? then data.allImages.value else Flatten(data.tabs)
  }

  /** The images `fetchAndRender` starts with for a stored name; an unknown name shows none. */
  function InitialImages(data: Portfolio, name: string): seq<Image>
  {
    if name == AllPhotos then AllImagesOf(data)
    else
      var tab := FindTab(data.tabs, name);
      if tab.Some? then tab.value.images else []
  }

  /** `portfolioData.all_images || getAllImages(tabs)` */
  method AllTabImages(data: Portfolio) returns (allImages: seq<Image>)
    ensures allImages == AllImagesOf(data)
  {
    if data.allImages.Some? {
      allImages := data.allImages.value;
    } else {
      allImages := GetAllImages(data.tabs);
    }
  }

  /** The selection in `fetchAndRender`: the all-photos list, or the named tab's images, or none. */
  method SelectInitialImages(data: Portfolio, name: string) returns (images: seq<Image>)
    ensures images == InitialImages(data, name)
  {
    if name == AllPhotos {
      images := AllTabImages(data);
    } else {
      var tab := FindTab(data.tabs, name);
      images := if tab.Some? then tab.value.images else [];
    }
  }

  /**
   * Reloading the page after a click on a button shows that button's
   * images again, when the tabs' labels are distinct.
   */
  lemma ReloadRestoresTab(data: Portfolio, i: nat)
    requires i <= |data.tabs| && DistinctLabels(data.tabs)
    requires forall t :: t in data.tabs ==> t.category != ""
    ensures var b := Buttons(AllImagesOf(data), data.tabs)[i];
            InitialImages(data, ActiveName(Some(TabLabel(b.category)))) == b.images
  {
    var b := Buttons(AllImagesOf(data), data.tabs)[i];
    if i == 0 {
      assert b.category == AllPhotos;
      StoredAllPhotos();
    } else {
      var t := data.tabs[i - 1];
      assert b == Button(t.category, t.images);
      assert t in data.tabs;
      StoredLabelFindsTab(data.tabs, i - 1);
    }
  }


  /** A stored name that is neither all photos nor any tab's label shows an empty gallery. */
  lemma StaleNameShowsNothing(data: Portfolio, name: string)
    requires name != AllPhotos && forall t :: t in data.tabs ==> TabLabel(t.category) != name
    ensures InitialImages(data, name) == []
    ensures Highlighted(Buttons(AllImagesOf(data), data.tabs), name) == {}
  {
    var buttons := Buttons(AllImagesOf(data), data.tabs);
    forall i: nat | i < |buttons| ensures TabLabel(buttons[i].category) != name {
      if i > 0 {
        assert data.tabs[i - 1] in data.tabs;
      }
    }
  }

  /** What the gallery container shows besides its items. */
  datatype Notice = NoNotice | NoPhotosMessage | LoadFailedMessage

  /** The page's state: the data, its buttons, the stored name and the gallery. */
  class Gallery {
    var data: Portfolio
    var buttons: seq<Button>
    /** The `activeTabCategory` entry of local storage. */
    var stored: Option<string>
    /** The name last passed to `setActiveTab`. */
    var active: Option<string>
    var currentImages: seq<Image>
    var renderedCount: nat
    /** The items of the gallery container, in order. */
    var tiles: seq<Tile>
    var notice: Notice
    var loadMoreShown: bool
    /** Batches rendered since the last reset. */
    ghost var batches: nat

    ghost predicate Valid()
      reads this
    {
      && renderedCount <= |currentImages|
      && tiles == TilesOf(currentImages[..renderedCount])
      && (notice == LoadFailedMessage ==> currentImages == [] && buttons == [] && !loadMoreShown)
      && (notice != LoadFailedMessage ==> (notice == NoPhotosMessage <==> currentImages == []))
      && (currentImages != [] ==>
            && loadMoreShown == (renderedCount < |currentImages|)
            && renderedCount == Rendered(batches, |currentImages|))
    }

    /**
     * `fetchAndRender`: without data the page shows the failure message and
     * nothing else; otherwise the buttons, the first batch of the images the
     * stored name selects, and that name highlighted.
     */
    constructor (loaded: Option<Portfolio>, stored: Option<string>)
      ensures Valid() && this.stored == stored
      ensures loadMoreShown == (renderedCount < |currentImages|)
      ensures loaded.None? ==> notice == LoadFailedMessage && tiles == [] && buttons == [] && active.None?
      ensures loaded.Some? ==>
                && data == loaded.value
                && buttons == Buttons(AllImagesOf(data), data.tabs)
                && currentImages == InitialImages(data, ActiveName(stored))
                && renderedCount == BatchEnd(0, |currentImages|)
                && active == Some(ActiveName(stored))
    {
      this.stored := stored;
      data := Portfolio([], None);
      buttons := [];
      active := None;
      currentImages := [];
      renderedCount := 0;
      tiles := [];
      notice := NoNotice;
      loadMoreShown := false;
      batches := 0;
      new;
      if loaded.None? {
        notice := LoadFailedMessage;
        return;
      }
      var portfolio := loaded.value;
      var allImages := AllTabImages(portfolio);
      var name := ActiveName(stored);
      var images := SelectInitialImages(portfolio, name);
      data := portfolio;
      buttons := Buttons(allImages, portfolio.tabs);
      currentImages := images;
      RenderGallery(true);
      assert data == portfolio && currentImages == images;
      active := Some(name);
    }

    /**
     * `renderGallery(reset)`: an empty list shows the no-photos message and
     * leaves the button as it was; otherwise the next batch is appended,
     * the count advances and the button is present while images remain.
     */
    method RenderGallery(reset: bool)
      requires reset || Valid()
      modifies this
      ensures Valid()
      ensures currentImages == old(currentImages) && data == old(data) && buttons == old(buttons)
      ensures stored == old(stored) && active == old(active)
      ensures currentImages == [] ==>
                notice == NoPhotosMessage && renderedCount == 0 && loadMoreShown == old(loadMoreShown)
      ensures currentImages != [] ==>
                && notice == NoNotice
                && renderedCount == BatchEnd(if reset then 0 else old(renderedCount), |currentImages|)
      ensures currentImages != [] && !reset ==>
                tiles == old(tiles) + TilesOf(currentImages[old(renderedCount)..renderedCount])
    {
      if reset {
        tiles := [];
        renderedCount := 0;
        notice := NoNotice;
        batches := 0;
      }
      if |currentImages| == 0 {
        tiles := [];
        notice := NoPhotosMessage;
        return;
      }
      var images := currentImages;
      var start := renderedCount;
      ghost var shown := batches;
      assert start == Rendered(shown, |images|) && tiles == TilesOf(images[..start]);
      var end := BatchEnd(start, |images|);
      var batch := images[start..end];
      var items := DrawTiles(batch);
      assert images[..end] == images[..start] + batch;
      TilesOfAppend(images[..start], batch);
      tiles := tiles + items;
      renderedCount := end;
      batches := shown + 1;
      assert tiles == TilesOf(images[..end]) && end == Rendered(batches, |images|);
      notice := NoNotice;
      UpdateLoadMoreButton();
    }

    /** `updateLoadMoreButton`: the button is present exactly while images remain. */
    method UpdateLoadMoreButton()
      modifies this`loadMoreShown
      ensures loadMoreShown == (renderedCount < |currentImages|)
    {
      loadMoreShown := renderedCount < |currentImages|;
    }

    /**
     * A click on a tab button: its label is stored and highlighted and the
     * gallery restarts on its images.
     */
    method SelectTab(b: Button)
      requires b in buttons
      modifies this
      ensures Valid()
      ensures stored == Some(TabLabel(b.category)) && active == Some(TabLabel(b.category))
      ensures data == old(data) && buttons == old(buttons)
      ensures currentImages == b.images && renderedCount == BatchEnd(0, |b.images|)
      ensures b.images == [] ==> notice == NoPhotosMessage && loadMoreShown == old(loadMoreShown)
    {
      stored := Some(TabLabel(b.category));
      active := Some(TabLabel(b.category));
      currentImages := b.images;
      RenderGallery(true);
    }

    /** A click on "Load More": the next batch is appended. */
    method LoadMore()
      requires Valid() && loadMoreShown
      modifies this
      ensures Valid()
      ensures currentImages == old(currentImages) && stored == old(stored) && active == old(active)
      ensures data == old(data) && buttons == old(buttons)
      ensures currentImages == [] ==>
                notice == NoPhotosMessage && renderedCount == 0 && loadMoreShown == old(loadMoreShown)
      ensures currentImages != [] ==>
                && renderedCount == BatchEnd(old(renderedCount), |currentImages|)
                && tiles == old(tiles) + TilesOf(currentImages[old(renderedCount)..renderedCount])
    {
      RenderGallery(false);
    }
  }

  /**
   * While a tab's images are on screen, the button is present exactly
   * until `Pages` batches have been shown, and then every image is.
   */
  lemma ButtonUntilLastPage(g: Gallery)
    requires g.Valid() && g.currentImages != []
    ensures g.loadMoreShown <==> g.batches < Pages(|g.currentImages|)
    ensures !g.loadMoreShown ==> g.tiles == TilesOf(g.currentImages)
  {
    var count := |g.currentImages|;
    AllShownAfterPages(count);
    RenderedClosedForm(g.batches, count);
    if g.batches >= Pages(count) {
      RenderedClosedForm(Pages(count), count);
    }
    assert g.currentImages[..count] == g.currentImages;
  }
}
