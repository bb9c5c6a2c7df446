/** The matplotlib colour and marker codes the figure scripts assign to
    their points.  matplotlib takes "k" and "black" for the same colour, and
    "r" and "red" for the same colour, so each is one constructor here. */
module Styles {

  /** "green", "blue", "k"/"black", "lightgrey" and "r"/"red". */
  datatype Color = Green | Blue | Black | LightGrey | Red

  /** "o", "x", "d", "s", "*" and "X". */
  datatype Marker = Circle | Cross | Diamond | Square | Star | BigCross

  /** The `(color, symbol)` pair a classifier returns. */
  datatype Style = Style(color: Color, marker: Marker)
}
