/**
  Attribute values of the `highlight` attribute and the JavaScript
  truthiness tests the command applies to its argument.
 */
module Values {

  /** An attribute slot: `None` is JavaScript `undefined` (no attribute). */
  datatype Option<+T> = None | Some(value: T)

  /** The value of the `highlight` attribute on one character, or its absence. */
  type Highlight = Option<string>

  /** `!color` in JavaScript: `undefined` and the empty string both read as "clear". */
  predicate IsClear(color: Highlight) {
    color.None? || color.value == ""
  }

  /**
    The attribute a range receives for a requested colour: the colour itself
    when it is truthy, no attribute when it is a clear request.
   */
  function Applied(color: Highlight): Highlight {
    if IsClear(color) then None else color
  }

  /**
    The run test of the caret case: the character carries the attribute and
    its value is strictly equal to the command's value. With no command value
    nothing matches, since an attribute is never equal to `undefined`.
   */
  predicate Matches(c: Highlight, v: Highlight) {
    c.Some? && c == v
  }
}
