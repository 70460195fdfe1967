/** The colour filter chosen by the form field `filter_type`. The image
    operations themselves are library calls and are kept as opaque tags. */
module Filters {

  /** One image operation, recorded but not interpreted. */
  datatype Stage =
    | Grayscale   // ImageOps.grayscale
    | ConvertToL  // Image.convert("L")
    | FindEdges   // Image.filter(ImageFilter.FIND_EDGES)

  /** An image: its pixel size and the operations applied to it so far.
      None of the operations changes the size. */
  datatype Image = Image(width: nat, height: nat, stages: seq<Stage>)

  /** The three behaviours the dispatch can select. */
  datatype FilterKind = Color | BlackWhite | Outline

  /** `"bw"` and `"outline"` are recognised; every other string, `"color"`
      included, selects no filter. */
  function SelectFilter(filterType: string): (k: FilterKind)
    ensures k == BlackWhite <==> filterType == "bw"
    ensures k == Outline <==> filterType == "outline"
    ensures k == Color <==> filterType != "bw" && filterType != "outline"
  {
    if filterType == "bw" then BlackWhite
    else if filterType == "outline" then Outline
    else Color
  }

  /** The operations each kind applies, in order: none for colour, one
      grayscale conversion for black-and-white, and for the outline a
      conversion to luminance followed by edge detection. */
  function Pipeline(k: FilterKind): (s: seq<Stage>)
    ensures s == [] <==> k == Color
    ensures Grayscale in s <==> k == BlackWhite
    ensures FindEdges in s <==> k == Outline
    ensures k == Outline ==> s[0] == ConvertToL && s[|s| - 1] == FindEdges
  {
    match k
    case Color => []
    case BlackWhite => [Grayscale]
    case Outline => [ConvertToL, FindEdges]
  }

  /** The filter step of the request handler. */
  function ApplyFilter(filterType: string, img: Image): (out: Image)
    ensures out.width == img.width && out.height == img.height
    ensures filterType == "bw" ==> out.stages == img.stages + [Grayscale]
    ensures filterType == "outline" ==> out.stages == img.stages + [ConvertToL, FindEdges]
    ensures out == img <==> filterType != "bw" && filterType != "outline"
  {
    Image(img.width, img.height, img.stages + Pipeline(SelectFilter(filterType)))
  }
}
