/**
 * data.json, the contract between the build scripts and the gallery
 * scripts: `{"tabs": [{"category": ..., "images": [{"name", "path",
 * "drive_url"}]}]}`, optionally with a pre-shuffled `all_images` list that
 * src/script.js looks for (no generator here writes it).
 */
module Manifest {
  import opened Wrappers

  /** One image record; `drive_url` is absent in the older generator's output. */
  datatype Image = Image(name: string, path: string, driveUrl: Option<string>)

  datatype Tab = Tab(category: string, images: seq<Image>)

  datatype Portfolio = Portfolio(tabs: seq<Tab>, allImages: Option<seq<Image>>)

  /** The images of all tabs, tab after tab. */
  function Flatten(tabs: seq<Tab>): seq<Image>
    decreases |tabs|
  {
    if tabs == [] then [] else Flatten(tabs[..|tabs| - 1]) + tabs[|tabs| - 1].images
  }

  /** Total number of images over all tabs. */
  function ImageCount(tabs: seq<Tab>): nat
    decreases |tabs|
  {
    if tabs == [] then 0 else ImageCount(tabs[..|tabs| - 1]) + |tabs[|tabs| - 1].images|
  }

  /**
   * The flattened list holds every image of every tab and nothing else, and
   * is as long as all tabs together.
   */
  lemma {:induction false} FlattenContents(tabs: seq<Tab>)
    ensures |Flatten(tabs)| == ImageCount(tabs)
    ensures forall x :: x in Flatten(tabs) <==> exists t :: t in tabs && x in t.images
    decreases |tabs|
  {
    if tabs != [] {
      var init := tabs[..|tabs| - 1];
      FlattenContents(init);
      assert tabs == init + [tabs[|tabs| - 1]];
      forall x | x in Flatten(tabs) ensures exists t :: t in tabs && x in t.images {
        if x !in tabs[|tabs| - 1].images {
          var t :| t in init && x in t.images;
          assert t in tabs;
        }
      }
    }
  }

  /** Tab `k`'s images sit in the flattened list right after those of the tabs before it. */
  lemma {:induction false} FlattenPrefix(tabs: seq<Tab>, k: nat)
    requires k < |tabs|
    ensures Flatten(tabs[..k + 1]) == Flatten(tabs[..k]) + tabs[k].images
    ensures |Flatten(tabs[..k])| + |tabs[k].images| <= |Flatten(tabs)|
    ensures Flatten(tabs)[|Flatten(tabs[..k])|..|Flatten(tabs[..k])| + |tabs[k].images|] == tabs[k].images
    decreases |tabs|
  {
    assert tabs[..k + 1][..k] == tabs[..k];
    if k + 1 < |tabs| {
      var init := tabs[..|tabs| - 1];
      FlattenPrefix(init, k);
      assert init[..k] == tabs[..k] && init[..k + 1] == tabs[..k + 1];
      assert Flatten(tabs) == Flatten(init) + tabs[|tabs| - 1].images;
    } else {
      assert tabs[..k + 1] == tabs;
    }
  }
}
