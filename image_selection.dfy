/**
 * image_selection.py: the same selection window as selection.py, with a
 * case-insensitive image filter and a `select_image` that indexes the list
 * without a bounds check. An IndexError raised by a button handler ends that
 * handler only; the window stays open with its state unchanged.
 */
module ImageSelection {
  import opened Wrappers
  import Names
  import Navigation

  class Selector {
    /** `image_files`: the listing filtered on the lower-cased name, sorted. */
    const imageFiles: seq<string>
    var currentIndex: int
    var selectedImages: seq<string>

    /** The navigation state the fields hold. */
    function State(): Navigation.Cursor
      reads this
    {
      Navigation.Cursor(currentIndex, selectedImages)
    }

    ghost predicate Valid()
      reads this
    {
      Navigation.Inv(imageFiles, State())
    }

    /** The script's start-up over the frames directory's listing. */
    constructor(listing: seq<string>)
      ensures imageFiles == Names.ImageFiles(listing, true)
      ensures State() == Navigation.Start()
      ensures Valid()
    {
      imageFiles := Names.ImageFiles(listing, true);
      currentIndex := 0;
      selectedImages := [];
    }

    /** `next_image` (the redisplay is left out). */
    method NextImage()
      modifies this
      ensures State() == Navigation.Next(imageFiles, old(State()))
      ensures old(Valid()) ==> Valid()
    {
      if currentIndex < |imageFiles| - 1 {
        currentIndex := currentIndex + 1;
      }
    }

    /** `prev_image`. */
    method PrevImage()
      modifies this
      ensures State() == Navigation.Prev(old(State()))
      ensures old(Valid()) ==> Valid()
    {
      if currentIndex > 0 {
        currentIndex := currentIndex - 1;
      }
    }

    /**
     * `select_image`, reporting whether `image_files[current_index]` raised;
     * the copy of the file is left out. In a valid state it raises exactly
     * when the list is empty and otherwise acts as selection.py's guarded one.
     */
    method SelectImage() returns (raised: bool)
      modifies this
      ensures raised <==> Navigation.SelectUnguarded(imageFiles, old(State())).None?
      ensures raised ==> State() == old(State())
      ensures !raised ==> State() == Navigation.SelectUnguarded(imageFiles, old(State())).value
      ensures old(Valid()) ==> Valid() && (raised <==> |imageFiles| == 0)
      ensures old(Valid()) && !raised ==> State() == Navigation.Select(imageFiles, old(State()))
    {
      if Valid() {
        Navigation.UnguardedAgreesWithGuarded(imageFiles, State());
        Navigation.ApplyInv(imageFiles, State(), Navigation.SelectAction);
      }
      var imgName := Navigation.PyIndex(imageFiles, currentIndex);
      if imgName.None? {
        return true;
      }
      raised := false;
      if imgName.value !in selectedImages {
        selectedImages := selectedImages + [imgName.value];
        NextImage();
      }
    }
  }
}
