/** JavaScript values that the date-window code passes around: a text that may be
    `undefined`, and the string conversions and truthiness tests applied to it. */
module JsValues {

  datatype Option<+T> = None | Some(value: T)

  /** A text value as JavaScript sees it: `None` stands for `undefined`. */
  type Text = Option<string>

  /** ToString of a text: `undefined` becomes the word "undefined"
      (what `RegExp.prototype.exec` and string concatenation see). */
  function JsString(t: Text): string {
    match t
    case None => "undefined"
    case Some(s) => s
  }

  /** Truthiness of a text: `undefined` and "" are falsy. */
  predicate Truthy(t: Text) {
    t.Some? && t.value != ""
  }

  /** `value || defaultValue` on texts. */
  function OrElse(value: Text, defaultValue: Text): Text {
    if Truthy(value) then value else defaultValue
  }

  /** `q || 0` on a number that may be `undefined` (None). */
  function OrZero(q: Option<int>): int {
    match q
    case None => 0
    case Some(v) => v
  }

  /** Truthiness of a number that may be `undefined`: 0 and `undefined` are falsy. */
  predicate NumberTruthy(q: Option<int>) {
    q.Some? && q.value != 0
  }
}
