# ProductItem: category parsing and the "new" badge

`ProductItem` is the row of the inventory app's product list. Most of the
component is layout. It also holds two small pieces of logic, and this
project models both:

- **Category parsing** (`CategoryParser`, `categories.dfy`). The record's
  optional "Product Categories" field is read as `""` when absent. It is then
  split on `,`, every piece is trimmed, and the pieces left empty are dropped.
  Each stage is a function of its own: `Split` follows JavaScript's
  `split(",")`, `Trim` follows `String.prototype.trim`, and `RemoveEmpty`
  follows `filter(c => c)`. `ParseCategories` is the three stages in a row,
  and `CategoriesOf` adds the `|| ""` fallback for an absent field.
- **The "new" badge** (`RecencyClassifier`, `recency.dfy`). `checkIfNew`
  marks a record as new when the current time minus its posted time is at
  most seven days, 604800000 ms. The comparison includes the boundary. The
  clock reading is the explicit parameter `now`. The posted date is a
  millisecond count, or `None` when `new Date(...)` could not parse it. In
  JavaScript an unparsed date gives NaN, and `NaN <= x` is false, so such a
  record is never new.

`Wrappers` (`wrappers.dfy`) holds the `Option` type both modules use.

Two consequences of the code are worth stating:

- A future-dated record counts as new, because its elapsed time is negative
  (`FutureIsNew`).
- An unparseable date is classified not new and no error is raised
  (`CheckIfNew`).

## Model

| member | source | states |
|---|---|---|
| `CategoryParser.Split` | react-native/src/ProductItem.tsx:17 | `split(",")` always returns one more piece than the input has commas, so `""` gives one empty piece |
| `CategoryParser.SplitCommaFree` | react-native/src/ProductItem.tsx:17 | no piece of a split contains a comma |
| `CategoryParser.JoinSplit` | react-native/src/ProductItem.tsx:17 | joining the pieces with `,` gives back the input, so splitting loses no character and keeps their order |
| `CategoryParser.SplitJoin` | react-native/src/ProductItem.tsx:17 | splitting the comma-join of a non-empty list of comma-free pieces gives back exactly that list |
| `CategoryParser.SplitConcat` | react-native/src/ProductItem.tsx:17 | splitting `a + "," + b` gives the pieces of `a` followed by the pieces of `b` |
| `CategoryParser.SplitNoComma` | react-native/src/ProductItem.tsx:17 | a string with no comma splits into just itself |
| `CategoryParser.SplitCovers` | react-native/src/ProductItem.tsx:17 | every character of the input that is not a comma lies in some piece |
| `CategoryParser.SplitChars` | react-native/src/ProductItem.tsx:17 | every character of a piece comes from the input |
| `CategoryParser.LeadingWhitespace` | react-native/src/ProductItem.tsx:17 | the leading count covers only whitespace and stops at the first character that is not whitespace |
| `CategoryParser.TrailingWhitespace` | react-native/src/ProductItem.tsx:17 | the trailing count covers only whitespace and stops at the last character that is not whitespace |
| `CategoryParser.Trim` | react-native/src/ProductItem.tsx:17 | `trim()` returns a string with no whitespace at either end, made of the input's characters, and empty exactly when the input is all whitespace |
| `CategoryParser.TrimStripsPadding` | react-native/src/ProductItem.tsx:17 | the input is the trimmed result between a whitespace prefix and a whitespace suffix, so `trim()` removes only surrounding whitespace |
| `CategoryParser.WhitespaceTable` | react-native/src/ProductItem.tsx:17 | the whitespace `trim()` removes is ECMAScript's table: no-break space and ideographic space at the edges are trimmed, next line (U+0085) and zero-width space (U+200B) are kept |
| `CategoryParser.TrimSurrounded` | react-native/src/ProductItem.tsx:17 | trimming removes exactly the surrounding whitespace: a trimmed string padded with whitespace on both sides trims back to itself |
| `CategoryParser.TrimTrimmed` | react-native/src/ProductItem.tsx:17 | a string with no whitespace at either end is unchanged by trimming |
| `CategoryParser.TrimIdempotent` | react-native/src/ProductItem.tsx:17 | trimming twice is the same as trimming once |
| `CategoryParser.TrimAll` | react-native/src/ProductItem.tsx:17 | `map(c => c.trim())` keeps the length and trims each piece in place |
| `CategoryParser.TrimAllConcat` | react-native/src/ProductItem.tsx:17 | trimming every piece distributes over concatenation |
| `CategoryParser.RemoveEmpty` | react-native/src/ProductItem.tsx:17 | `filter(c => c)` keeps only non-empty elements of the input, in input order (a subsequence), and keeps every non-empty element as many times as it occurs (multiset with the empty string's count set to zero) |
| `CategoryParser.RemoveEmptyNone` | react-native/src/ProductItem.tsx:17 | filtering a list with no empty element returns it unchanged |
| `CategoryParser.RemoveEmptyIsEmpty` | react-native/src/ProductItem.tsx:17 | filtering leaves nothing exactly when every element is empty |
| `CategoryParser.RemoveEmptyConcat` | react-native/src/ProductItem.tsx:17 | filtering distributes over concatenation |
| `CategoryParser.TrimKeepsCommaFree` | react-native/src/ProductItem.tsx:17 | trimming a comma-free piece leaves it comma-free |
| `CategoryParser.TrimAllShape` | react-native/src/ProductItem.tsx:17 | trimming comma-free pieces gives trimmed, comma-free pieces |
| `CategoryParser.RemoveEmptyShape` | react-native/src/ProductItem.tsx:17 | filtering keeps the trimmed, comma-free shape of every element |
| `CategoryParser.ParseCategories` | react-native/src/ProductItem.tsx:17 | every category is non-empty, has no whitespace at either end and contains no comma. There are at most (number of commas + 1) categories. The categories are the non-empty trimmed pieces, in input order, with duplicates kept |
| `CategoryParser.CategoriesOf` | react-native/src/ProductItem.tsx:16-18 | an absent field yields no categories, and a present one is parsed as it is |
| `CategoryParser.ParseEmptyIff` | react-native/src/ProductItem.tsx:17 | the result is empty if and only if the input holds nothing but commas and whitespace |
| `CategoryParser.EmptyInputIsEmpty` | react-native/src/ProductItem.tsx:17 | `""` yields no categories |
| `CategoryParser.AbsentFieldIsEmpty` | react-native/src/ProductItem.tsx:17 | an absent field yields no categories |
| `CategoryParser.ParseConcat` | react-native/src/ProductItem.tsx:17 | the categories of `a + "," + b` are those of `a` followed by those of `b`, so order and duplicates follow the input |
| `CategoryParser.ParseJoinParse` | react-native/src/ProductItem.tsx:17 | parsing the comma-join of a parse gives back the same categories, so the parser is idempotent on its own output |
| `CategoryParser.ExampleTrimAndDrop` | react-native/src/ProductItem.tsx:17 | `"A, B ,,C"` parses to `["A", "B", "C"]`: pieces are trimmed and the empty one is dropped |
| `CategoryParser.ExampleDuplicatesKept` | react-native/src/ProductItem.tsx:17 | `"x,y,x"` parses to `["x", "y", "x"]`: duplicates are kept, in place |
| `RecencyClassifier.CheckIfNew` | react-native/src/ProductItem.tsx:22-27 | a parsed date is new exactly when it is at or after `now - 604800000`, and an unparseable date is never new |
| `RecencyClassifier.BoundaryInclusive` | react-native/src/ProductItem.tsx:25-26 | exactly seven days old is new, and one millisecond older is not |
| `RecencyClassifier.FutureIsNew` | react-native/src/ProductItem.tsx:25-26 | a record posted after `now` is new |
| `RecencyClassifier.NewAtEarlierNow` | react-native/src/ProductItem.tsx:25-26 | a record that is new at some clock reading is new at every earlier one |
| `RecencyClassifier.NewForLaterPosted` | react-native/src/ProductItem.tsx:25-26 | if a record is new, so is any record posted later |
| `RecencyClassifier.ExampleDays` | react-native/src/ProductItem.tsx:25-26 | one day old is new, eight days old is not, and one day in the future is new |

## Left out

- Rendering is not modelled because it is presentation: the JSX tree, the `StyleSheet` styles, the `Platform.OS` shadow or elevation choice, and the choice between the image and the placeholder (lines 43-97 and 99-164).
- The `showMore` toggle, `handleShowMore` and the chevron rotation are not modelled (lines 13, 31-33 and 41). They are UI state owned by React's `useState`.
- `useMemo` is not modelled (line 16). It only caches the parse, so the result is the same with or without it.
- `formatDate` is not modelled (lines 36-38). It is a thin call into `date-fns` `format`, whose output depends on the time zone and calendar rules of a library that is not part of this model.
- Date parsing is not modelled. `new Date(...)` reads the "Posted" field with the JavaScript engine's own rules (line 23). The model takes the already-parsed millisecond value, with `None` standing for an Invalid Date.
- The clock is not modelled. The reading of `new Date()` (line 24) is the parameter `now`.
- Millisecond values are unbounded integers in the model, where JavaScript uses doubles. Valid time values are whole numbers of milliseconds. A double subtraction of two of them can round only when the difference exceeds 2^53 in magnitude, which is far from the 604800000 threshold, so the result of the `<=` is the same as with exact integers.
- `IsWhitespace` is a fixed table: ECMAScript's WhiteSpace and LineTerminator characters, with the current Unicode space separators written out. Later changes to the engine's Unicode tables are not followed.
- Strings are sequences of Unicode scalar values. JavaScript strings are UTF-16 code units, so lone surrogates cannot be represented. They are neither commas nor whitespace, so they would not change the parse.
- The `Inventory` record type (line 5) is an external store type. Only the two fields these functions read are modelled, as parameters.
