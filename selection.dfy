/**
 * selection.py: the manual-selection window. Its globals `image_files`,
 * `current_index` and `selected_images` are the fields of a Selector, and the
 * three button handlers are its methods.
 */
module Selection {
  import Names
  import Navigation

  class Selector {
    /** `image_files`: the case-sensitively filtered listing, sorted in place. */
    const imageFiles: seq<string>
    var currentIndex: int
    var selectedImages: seq<string>

    /** The navigation state the fields hold. */
    function State(): Navigation.Cursor
      reads this
    {
      Navigation.Cursor(currentIndex, selectedImages)
    }

    ghost predicate Valid()
      reads this
    {
      Navigation.Inv(imageFiles, State())
    }

    /** The script's start-up over the frames directory's listing. */
    constructor(listing: seq<string>)
      ensures imageFiles == Names.ImageFiles(listing, false)
      ensures State() == Navigation.Start()
      ensures Valid()
    {
      imageFiles := Names.ImageFiles(listing, false);
      currentIndex := 0;
      selectedImages := [];
    }

    /** `next_image` (the redisplay is left out). */
    method NextImage()
      modifies this
      ensures State() == Navigation.Next(imageFiles, old(State()))
      ensures old(Valid()) ==> Valid()
    {
      if currentIndex < |imageFiles| - 1 {
        currentIndex := currentIndex + 1;
      }
    }

    /** `prev_image`. */
    method PrevImage()
      modifies this
      ensures State() == Navigation.Prev(old(State()))
      ensures old(Valid()) ==> Valid()
    {
      if currentIndex > 0 {
        currentIndex := currentIndex - 1;
      }
    }

    /** `select_image`: the copy of the file is left out. */
    method SelectImage()
      modifies this
      ensures State() == Navigation.Select(imageFiles, old(State()))
      ensures old(Valid()) ==> Valid()
    {
      if Valid() {
        Navigation.ApplyInv(imageFiles, State(), Navigation.SelectAction);
      }
      if 0 <= currentIndex < |imageFiles| {
        var imgName := imageFiles[currentIndex];
        if imgName !in selectedImages {
          selectedImages := selectedImages + [imgName];
          NextImage();
        }
      }
    }
  }
}
