# gosoap/xsd: whitespace normalisation and string encoders

This project models the whitespace normaliser of the `xsd` Go package and
the two text encoders built on it. The normaliser follows the `whiteSpace`
facet of XML Schema Part 2 (Datatypes), section 4.3.6:

- `preserve` returns a string unchanged.
- `replace` turns every tab, line feed and carriage return into a space.
- `collapse` replaces, then trims leading and trailing spaces.

The package's collapse does not squeeze interior runs of spaces into one,
as the standard asks. That step is an open TODO at `whiteSpace.go:20`. The
model follows the code, so `"a  b"` collapses to itself.

`AnyURI.MarshalText` returns the collapsed string as bytes and a nil
error. `String.MarshalText` returns the string unchanged and a nil error.

Modules:

- `Strings` (`strings.dfy`) holds the three Go `strings` routines the
  normaliser calls. Each is a recursive function in the one-character form
  used there: `ReplaceAll` with a single-character old and new string,
  `TrimLeft` and `TrimRight` with a single-character cutset.
- `WhiteSpace` (`whitespace.dfy`) models `whiteSpace.go`.
- `Xsd` (`xsd.dfy`) models the type declarations and encoders of `xsd.go`.
- `Wrappers` (`wrappers.dfy`) holds the `Option` that models Go's `error`
  result. `None` is nil.

A Go string is modelled as `string` (`seq<char>`). `[]byte(s)` is modelled
as the same character sequence (`Xsd.Bytes`). The pair `([]byte, error)`
is a tuple `(Bytes, Option<Error>)`.

## Model

| member | source | states |
|---|---|---|
| `Strings.ReplaceAll` | whiteSpace.go:10-12 | The result has the input's length. Each position holds the replacement where the input held the searched character, and the input's character everywhere else. |
| `Strings.TrimLeft` | whiteSpace.go:18 | The result is a suffix of the input. Everything cut off is the cutset character. The result does not start with that character. |
| `Strings.TrimRight` | whiteSpace.go:19 | The result is a prefix of the input. Everything cut off is the cutset character. The result does not end with that character. |
| `Strings.TrimLeftUnique` | whiteSpace.go:18 | A run of the cutset character followed by a rest that does not start with it trims to exactly that rest. |
| `Strings.TrimRightUnique` | whiteSpace.go:19 | A rest that does not end with the cutset character, followed by a run of it, trims to exactly that rest. |
| `Strings.TrimBoth` | whiteSpace.go:18-19 | Trimming both ends removes a run of the cutset character in front and a run behind, and nothing else. |
| `WhiteSpace.WhiteSpacePreserve` | whiteSpace.go:5-7 | Preserve returns its input unchanged, for every string. |
| `WhiteSpace.WhiteSpaceReplace` | whiteSpace.go:9-14 | Replace keeps the length. Tab, LF and CR become a space at their own position, and every other character stays. The output has no tab, LF or CR. |
| `WhiteSpace.WhiteSpaceCollapse` | whiteSpace.go:16-22 | The output is no longer than the input, has no tab, LF or CR, and neither starts nor ends with a space. |
| `WhiteSpace.ReplaceIdempotent` | whiteSpace.go:9-14 | Replacing twice gives the same as replacing once. |
| `WhiteSpace.ReplaceFixedPoint` | whiteSpace.go:9-14 | Replace leaves a string unchanged exactly when it has no tab, LF or CR (both directions). |
| `WhiteSpace.CollapseTrimsEnds` | whiteSpace.go:17-19 | The replaced input equals some spaces, then the collapsed string, then some spaces. Collapse only removes spaces at the ends. |
| `WhiteSpace.CollapseUnique` | whiteSpace.go:16-22 | Conversely, if the replaced input is spaces, then a middle part that neither starts nor ends with a space, then spaces, collapse returns exactly that middle part. |
| `WhiteSpace.CollapseIdempotent` | whiteSpace.go:16-22 | Collapsing twice gives the same as collapsing once. |
| `WhiteSpace.CollapseFixedPoint` | whiteSpace.go:16-22 | Collapse leaves a string unchanged exactly when it has no tab, LF or CR and neither starts nor ends with a space (both directions). |
| `WhiteSpace.CollapseAbsorbsReplace` | whiteSpace.go:16-17 | Collapsing a replaced string equals collapsing the original. Replacing a collapsed string changes nothing. |
| `WhiteSpace.CollapseAllWhiteSpace` | whiteSpace.go:16-22 | A string made only of spaces, tabs, LFs and CRs collapses to the empty string. |
| `WhiteSpace.CollapseKeepsInteriorSpaces` | whiteSpace.go:18-20 | `"a  b"` collapses to `"a  b"`. The interior double space is kept. |
| `WhiteSpace.ReplaceExample` | whiteSpace.go:9-14 | `"\t a \n\r b  "` is replaced to `"  a    b  "`. |
| `WhiteSpace.CollapseTrimsOnlyEnds` | whiteSpace.go:16-22 | `"\t a \n\r b  "` collapses to `"a    b"`. The interior LF, CR and spaces remain as four spaces. |
| `Xsd.AnyURI.MarshalText` | xsd.go:12-15 | The text is the collapse of the URI's string and the error is nil. The text has no tab, LF or CR and no leading or trailing space. |
| `Xsd.String.MarshalText` | xsd.go:60-63 | The text is `WhiteSpacePreserve` of the string, i.e. the string itself, and the error is nil. Converting the text back to a `String` gives the original value. |
| `Xsd.AnyURIMarshalExample` | xsd_test.go:18-20 | `AnyURI(" 123 ")` marshals to `"123"` with a nil error. |
| `Xsd.AnyURIMarshalIdempotent` | xsd.go:12-15 | Re-marshalling the marshalled text of an `AnyURI` gives the same text and error. |
| `Xsd.AnyURIMarshalUnchanged` | xsd.go:12-15 | An `AnyURI` marshals to its own string exactly when that string has no tab, LF or CR and no leading or trailing space (both directions). |

## Left out

- Interior-space squeezing, which the standard's collapse requires, is not modelled, because the source does not implement it (`whiteSpace.go:20`).
- The UTF-8 encoding of `[]byte(s)` is not modelled. Strings and byte slices are the same character sequence. Tab, LF, CR and space are single bytes in UTF-8, so trimming and replacing act on them the same way.
- `strings.ReplaceAll`, `strings.TrimLeft` and `strings.TrimRight` are modelled only in the one-character form in which the package calls them. Multi-character search strings and cutsets are not modelled.
- The types `ID`, `Name`, `NCName`, `NormalizedString` and `Token` are type synonyms of `string` with no behaviour. A Go defined type does not inherit the methods of the type it is declared on, so none of them has a `MarshalText` in the source.
- The name-character patterns shown in the source comments for `Name` and `NCName` are not modelled, because the source does not enforce them.
- The XML marshalling engine that calls `MarshalText` (Go's `encoding/xml`) is an external library and is not part of this model.
- Date, DateTime, Boolean, Byte and Base64Binary are not part of this model. Only their tests are available, not their implementations.
