# Album Share: photo-key pipeline

This project models how the album page in `album-share-web/src/App.tsx` turns
an S3 object listing into the photos it shows. It covers four steps:

- It keeps the objects whose keys end in `.jpg`.
- It parses each key into a photo: the year and month come from the first two
  `_`-separated fields, and the base name from the remaining fields. Two flags
  mark the *enhanced* (`_a`) and *back* (`_b`) variants, and the image address
  is built from the bucket, the region and the key.
- It narrows the photos to the selected year and month. An empty selection
  means "no constraint".
- It lists the distinct years and months (in the order a JavaScript `Set`
  first saw them) as the options of the two selectors. It also picks each
  photo's caption label and border colour, with *enhanced* taking priority
  over *back*.

Everything is pure functions and lemmas, like the source, which is a chain of
`filter`/`map` calls and string expressions. Modules:

- `Wrappers`: the `Option` type, standing for JavaScript's `undefined`.
- `JsStrings`: the ECMAScript string built-ins the parser uses.
  - `split` and `join` with a one-character separator. Empty fields are kept.
  - `includes`, `endsWith`, and `replace` with a regular expression anchored
    at the end of the input.
- `JsArrays`: `Array.prototype.filter`, and `Array.from(new Set(xs))`.
- `Album`: the page's own logic.

The bucket name and region are environment variables in the source. Here they
are a `Config` parameter. The listing's `Contents` is an input,
`Option<seq<ListedObject>>`, where each object's key is itself optional.

The model reproduces two quirks of the code. First, the variant flags are
substring tests on the whole key, so a month name beginning with `a` or `b`
(`2020_april_1.jpg`) marks the photo enhanced or back. Second, a key with a
single underscore keeps its extension in the month: `2020_June.jpg` has the
month `June.jpg`. The lemmas `Album.SubstringFlagWitness` and
`Album.MonthOfOneUnderscoreKey` state them.

In `App.tsx` the year and month are just the first two `_`-separated fields
of the key. There is no check that the year is a number and no search for a
month name.

## Model

| member | source | states |
|---|---|---|
| `JsStrings.CountChar` | album-share-web/src/App.tsx:41 | the count of a character is zero exactly when the character does not occur. Line 41 itself counts nothing. This count is the number of separators, the quantity in which `Split`'s field count and `ToPhotoRoundTrip`'s precondition are stated |
| `JsStrings.CountCharIsMultiplicity` | album-share-web/src/App.tsx:41 | the count of a character is its number of occurrences in the string (its multiplicity in the string's multiset) |
| `JsStrings.Split` | album-share-web/src/App.tsx:41 | `split` yields one more field than there are separators, and no field contains the separator |
| `JsStrings.JoinSplit` | album-share-web/src/App.tsx:41-42 | `Join` of the fields of a split, with the same separator, gives back the original string |
| `JsStrings.SplitJoin` | album-share-web/src/App.tsx:41-42 | splitting the `Join` of a non-empty list of separator-free fields gives back those fields (the other direction of the round trip). The list must be non-empty because `[].join("_")` is `""`, and `"".split("_")` is `[""]` |
| `JsStrings.IncludesSpec` | album-share-web/src/App.tsx:43-44 | `Includes` (`includes`) holds if and only if the pattern occurs at some index of the string (a substring test, not a suffix test) |
| `JsStrings.RemoveTrailing` | album-share-web/src/App.tsx:42 | the `/\.jpg$/` replacement removes one trailing copy when present (result plus suffix is the input) and otherwise changes nothing |
| `JsArrays.Filter` | album-share-web/src/App.tsx:37 | `filter` keeps only elements satisfying the predicate, keeps every element of the input that satisfies it, and never grows the list |
| `JsArrays.FilterAtIndices` | album-share-web/src/App.tsx:36-37 | the k-th element of a `filter` result is the element at the k-th index (in increasing order) whose element satisfies the predicate, so the result is an order-preserving selection |
| `JsArrays.FilterKeepsAll` | album-share-web/src/App.tsx:55-59 | filtering a list whose elements all satisfy the predicate returns the list unchanged |
| `JsArrays.FilterIdempotent` | album-share-web/src/App.tsx:55-59 | filtering twice by the same predicate equals filtering once |
| `JsArrays.Distinct` | album-share-web/src/App.tsx:61-62 | `Array.from(new Set(xs))` has no duplicates and holds exactly the elements of `xs` |
| `JsArrays.DistinctFirstOccurrence` | album-share-web/src/App.tsx:61-62 | the distinct elements come in the order of their first occurrence in the input (`Set` insertion order) |
| `Album.PhotoUrl` | album-share-web/src/App.tsx:40 | the image address is the bucket's public address followed by the key, so the key is a suffix of the address |
| `Album.PhotoUrlInjective` | album-share-web/src/App.tsx:40 | within one bucket and region, two keys with the same image address are the same key |
| `Album.ToPhoto` | album-share-web/src/App.tsx:38-46 | the photo keeps its key and address. `enhanced` holds iff `_a` occurs anywhere in the key, and `back` iff `_b` does. Year and month hold no `_`. The month is `undefined` exactly when the key has no `_`, and then the year is the whole key and the base name is empty |
| `Album.ToPhotoRoundTrip` | album-share-web/src/App.tsx:41-42 | for a `.jpg` key with at least two `_`, `year + "_" + month + "_" + baseName + ".jpg"` is the key |
| `Album.ToPhotoOneUnderscore` | album-share-web/src/App.tsx:41-42 | for a key with exactly one `_`, `year + "_" + month` is the key and the base name is empty |
| `Album.PhotoList` | album-share-web/src/App.tsx:36-47 | the objects are selected by `IsJpgObject` (a key is present and `EndsWith` it `.jpg`). Every photo in the list has a key ending in `.jpg` and is the parse of that key. The list is no longer than the listing |
| `Album.PhotoListSelection` | album-share-web/src/App.tsx:36-47 | the list has one photo per listed `.jpg` key, in listing order. Its k-th photo comes from the k-th object whose key ends in `.jpg`. Every such object is represented, and no other object is |
| `Album.AfterListing` | album-share-web/src/App.tsx:34-49 | a listing without `Contents` leaves the photos unchanged; otherwise the new photos are exactly the photo list of that listing (so every fact about `PhotoList` holds of the page's photos), all with `.jpg` keys and no more than the listed objects |
| `Album.FilteredPhotos` | album-share-web/src/App.tsx:55-59 | the predicate is `Matches`. Every shown photo comes from the photo list. It has the selected year when a year is selected, and the selected month when a month is selected. Every photo meeting both conditions is shown |
| `Album.FilteredPhotosOrder` | album-share-web/src/App.tsx:55-59 | the shown photos are the matching photos, each once, in their original relative order |
| `Album.NoFilterShowsAll` | album-share-web/src/App.tsx:55-59 | with both selections empty, the shown photos are exactly the photo list |
| `Album.FilteredPhotosIdempotent` | album-share-web/src/App.tsx:55-59 | filtering the shown photos again with the same selection changes nothing |
| `Album.Years` | album-share-web/src/App.tsx:61 | the `map` of line 61 is `YearsOf`. The year options have no duplicates, each is some photo's year, and every photo's year is an option |
| `Album.Months` | album-share-web/src/App.tsx:62 | the `map` of line 62 is `MonthsOf`. The month options (`undefined` included) have no duplicates, each is some photo's month, and every photo's month is an option |
| `Album.YearsFirstOccurrence` | album-share-web/src/App.tsx:61 | the year options appear in the order their years first occur among the photos |
| `Album.MonthsFirstOccurrence` | album-share-web/src/App.tsx:62 | the month options appear in the order their months first occur among the photos |
| `Album.OfferedYearShowsPhotos` | album-share-web/src/App.tsx:55-61 | with no month selected (`""`, "All"), selecting any offered year shows at least one photo |
| `Album.OfferedMonthShowsPhotos` | album-share-web/src/App.tsx:55-62 | with no year selected (`""`, "All"), selecting any offered month shows at least one photo |
| `Album.Label` | album-share-web/src/App.tsx:118 | the label is `(enhanced)` exactly when enhanced, `(back)` exactly when back but not enhanced, and empty otherwise |
| `Album.Border` | album-share-web/src/App.tsx:110-114 | the border is green exactly when enhanced, blue exactly when back but not enhanced, and absent otherwise |
| `Album.VariantOfKey` | album-share-web/src/App.tsx:110-118 | for a parsed key, the label says enhanced iff the key includes `_a`, and back iff it includes `_b` but not `_a`. The border always picks the same tier as the label |
| `Album.BothVariantFlags` | album-share-web/src/App.tsx:43-44 | a key can carry both flags (`June_a_b.jpg`), and the label and border then say enhanced |
| `Album.SubstringFlagWitness` | album-share-web/src/App.tsx:43 | `2020_april_1.jpg` is marked enhanced, because `_a` is found anywhere in the key |
| `Album.MonthOfOneUnderscoreKey` | album-share-web/src/App.tsx:41 | for a key `year_month` with a single underscore, the month is the whole second field, extension included (`2020_June.jpg` has the month `June.jpg`) |

## Left out

- The S3 client, the credentials read from environment variables, and the
  `ListObjectsV2Command` request (App.tsx lines 2-13 and 32-33). These are
  network calls into the AWS SDK. The listing's `Contents` is an input instead.
  If `s3Client.send` fails, nothing catches the error (line 33). The promise
  rejection goes unhandled and the photos stay as they were, which is the
  same outcome as a listing without `Contents`.
- The React state hooks and effect wiring (lines 26-30, 50-53), the selector
  markup (lines 64-98), and all layout and styling other than the
  label/border choice. The caption's base name (line 118) is markup around the
  label.
- String encoding. JavaScript strings are sequences of UTF-16 code units, but
  a Dafny `string` is a sequence of Unicode characters. No result here
  changes: every separator and pattern (`_`, `_a`, `_b`, `.jpg`) is ASCII,
  so none can match inside a surrogate pair.
- `album-share-web/src/utils/signedFetch.ts`. It only wraps the AWS
  Signature V4 signer and `fetch`: foreign library calls and network I/O.
- Deduplication of variants, sorting, a tag index, favourites, pagination and
  upload. `App.tsx` does none of these, so there is nothing to model.
