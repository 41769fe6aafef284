/**
 Values the request handlers read out of a parsed JSON request body, and the
 two pieces of JavaScript semantics the validator depends on: truthiness of a
 body field and the character class `\s` of a regular expression.
 */
module JsValues {

  /** A value or nothing: JavaScript's `null`/`undefined` result of a lookup. */
  datatype Option<+T> = None | Some(value: T)

  /** One field of a JSON request body: absent (`undefined` or `null`) or a string. */
  datatype Field = Absent | Str(text: string)

  /** JavaScript truthiness of a body field: `undefined`, `null` and `""` are falsy. */
  predicate Truthy(f: Field) {
    f.Str? && |f.text| > 0
  }

  /** The code points matched by `\s` in an ECMAScript regular expression:
      the WhiteSpace and LineTerminator characters. */
  predicate IsJsSpace(c: char) {
    || c == ' ' || c == '\t' || c == '\n' || c == '\U{000B}' || c == '\U{000C}' || c == '\r'
    || c == '\U{00A0}' || c == '\U{1680}'
    || ('\U{2000}' <= c <= '\U{200A}')
    || c == '\U{2028}' || c == '\U{2029}' || c == '\U{202F}' || c == '\U{205F}'
    || c == '\U{3000}' || c == '\U{FEFF}'
  }
}
