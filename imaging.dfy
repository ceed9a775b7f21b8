/** The editor's collaborators, seen only through their results: the imaging
    library that does every pixel operation, the canvas whose size bounds the
    displayed image, and the file dialogs whose outcome a handler receives. */
module Imaging {

  datatype Option<+T> = None | Some(value: T)

  /** Width and height of the canvas at the moment an image is fitted to it. */
  datatype Size = Size(width: int, height: int)

  /** A crop rectangle in canvas coordinates, as the imaging library takes it. */
  datatype Box = Box(left: int, top: int, right: int, bottom: int)

  /** The imaging library's operations on an opaque image value. Nothing is
      assumed about what they compute: each one is an arbitrary total
      function, so every property proved about the editor holds whatever
      image they return. A call that raises instead of returning is not
      represented. */
  datatype Backend<!Img> = Backend(
    brighten: Img -> Img,         // brightness enhancement by the fixed factor 1.2
    contrast: Img -> Img,         // contrast enhancement by the fixed factor 1.3
    rotate90: Img -> Img,         // rotation by 90 degrees with the canvas expanded
    grayscale: Img -> Img,        // conversion to a single luminance channel
    mirror: Img -> Img,           // left-right mirror
    crop: (Img, Box) -> Img,      // extraction of a rectangle
    thumbnail: (Img, Size) -> Img // shrink to fit a size, keeping the aspect ratio
  )

  /** What the open dialog and the decoder produce together. */
  datatype OpenOutcome<Img> =
    | NoFileChosen        // the dialog was cancelled (an empty path)
    | DecodeFailed        // the file could not be opened or decoded
    | Decoded(img: Img)   // the decoded image

  /** What the save dialog and the encoder produce together. */
  datatype SaveOutcome =
    | NoPathChosen               // the dialog was cancelled
    | WriteFailed                // encoding or writing raised an error
    | Written(path: string)      // the image was written to this path
}
