/** The inline styles the page scripts set on elements. */
module Style {

  /** The `display` style of an element: never set by script, `block` or `none`. */
  datatype Display = Unset | Block | DisplayNone
}
