# Header linker, modelled in Dafny

The repository's one script, `scripts/link-headers.js`, runs once when a page
loads. It gives every `h2`, `h3` and `h4` heading an `id` derived from the
heading's markup, so that links can point at sections. The `id` (the "slug")
is the heading's `innerHTML` lower-cased, with its first space replaced by a
hyphen.

The model has two modules:

- `Slugs` (`slug.dfy`) holds the slug as pure functions:
  - `ToLowerCase` lower-cases the string, restricted to ASCII.
  - `IndexOf` finds the first space, or gives -1.
  - `ReplaceFirst` is `String.prototype.replace` with a one-character string
    pattern. As section 22.1.3.18 of ECMA-262 (2022 edition) says, only the
    first occurrence is replaced.
  - `Slug` composes them. `SlugChar` is a reference definition that works one
    position at a time, without `indexOf`.
  - The module also holds the lemmas about these functions.
- `HeaderLinker` (`header_linker.dfy`) models the rest:
  - `Heading` is a class. Its immutable `content` is the `innerHTML`; its
    mutable `id` is the attribute.
  - `LinkHeaders` is a method with the source's two nested loops. It runs over
    the bundle `[h2, h3, h4]` and writes `id` in place.

Three consequences of the code are worth stating plainly:

- The id is built from `innerHTML`, so markup inside a heading ends up in it.
- Only the first space becomes a hyphen: `"Quick Start Guide"` gives
  `"quick-start guide"`.
- Only an empty `innerHTML` gives an empty id (`SlugEmptyIff`). A heading
  holding one space gets `"-"`.

## Model

| member | source | states |
|---|---|---|
| `Slugs.LowerAscii` | scripts/link-headers.js:15 | `toLowerCase` on one character: never gives an ASCII upper-case letter; maps `A`..`Z` to the letter 32 code points above; leaves every other character unchanged |
| `Slugs.ToLowerCase` | scripts/link-headers.js:15 | `toLowerCase` keeps the length: one character out for each character in |
| `Slugs.ToLowerCaseAt` | scripts/link-headers.js:15 | `toLowerCase` lower-cases each character in place |
| `Slugs.IndexOf` | scripts/link-headers.js:15 | the position `replace` acts on: -1 exactly when there is no such character; otherwise the character is at that index and occurs nowhere before it |
| `Slugs.ReplaceFirst` | scripts/link-headers.js:15 | `replace` with a one-character string pattern and a one-character replacement keeps the length |
| `Slugs.ReplaceFirstAt` | scripts/link-headers.js:15 | `replace` puts the replacement where `indexOf` finds the pattern, so at the first occurrence only. It copies every other character, later occurrences included |
| `Slugs.Slug` | scripts/link-headers.js:15 | `innerHTML.toLowerCase().replace(' ', '-')`: the slug is exactly as long as the `innerHTML`, one character out for each character in. Its contents at each position are fixed by `SlugMatchesReference` and `SlugUnique` |
| `Slugs.LowerKeepsFirstSpace` | scripts/link-headers.js:15 | lower-casing does not move the first space, so `replace` finds the same index in the lower-cased text as in the original |
| `Slugs.SlugMatchesReference` | scripts/link-headers.js:15 | the slug has the input's length. Position `i` holds a hyphen when it is the input's first space; otherwise it holds the input's character lower-cased |
| `Slugs.SlugUnique` | scripts/link-headers.js:15 | conversely, any string satisfying that position-by-position description is the slug |
| `Slugs.SlugEmptyIff` | scripts/link-headers.js:15 | the slug is empty if and only if the `innerHTML` is empty |
| `Slugs.SlugAtFirstSpace` | scripts/link-headers.js:15 | when the input has a space, the slug has `-` at the first one. Every other position is lower-cased, and every later space stays a space |
| `Slugs.SlugWithHyphenAt` | scripts/link-headers.js:15 | conversely, a string with `-` at the first space and the lower-cased input elsewhere is the slug |
| `Slugs.SlugWithoutSpace` | scripts/link-headers.js:15 | when the input has no space, the slug is the lower-cased input. It contains `-` exactly when the input does, so no hyphen is introduced |
| `Slugs.SlugLoweredWithoutSpace` | scripts/link-headers.js:15 | conversely, without a space the character-by-character lower-cased input is the slug |
| `Slugs.SlugIsLowerCase` | scripts/link-headers.js:15 | the slug holds no ASCII upper-case letter. Every input character that is neither a space nor upper-case is copied to the same index |
| `Slugs.QuickStartGuide` | scripts/link-headers.js:15 | `"Quick Start Guide"` gives `"quick-start guide"`: only the first space becomes a hyphen |
| `Slugs.GettingStartedId` | scripts/link-headers.js:15 | `"Getting Started"` gives `"getting-started"` |
| `Slugs.GettingHyphenStartedId` | scripts/link-headers.js:15 | `"Getting-Started"` gives `"getting-started"` as well |
| `Slugs.GettingStartedCollision` | scripts/link-headers.js:15 | `"Getting Started"` and `"Getting-Started"` get the same id, so ids are not unique |
| `HeaderLinker.LinkHeaders` | scripts/link-headers.js:7-20 | afterwards, every heading in the h2, h3 and h4 collections has `id == Slug(content)`, whatever id it had before. This is stated both over the set of all those headings and directly over each collection. The method writes only the `id` of those headings. On a document that is already linked it changes nothing, so running it twice gives the same ids as running it once. Its postcondition treats all collections alike, so the skip of an empty collection has the same effect as an inner loop that runs zero times |

## Left out

- The start-up log message (scripts/link-headers.js:1) is diagnostic output only.
- `document.getElementsByTagName` (scripts/link-headers.js:3-5) is a host DOM call, and its live `HTMLCollection` is not modelled. The three collections are given as sequences of headings in document order. Headings that the loop's own writes would add or remove are not modelled, and the script's writes never do that.
- `setAttribute` (scripts/link-headers.js:16) is modelled only as "store this string in `id`". An element without an `id` attribute and one whose `id` is empty are not distinguished.
- `LowerAscii`: `toLowerCase` uses the full Unicode case tables, which can change a string's length (for example `İ`). The model lower-cases only ASCII `A`..`Z` and leaves every other character unchanged.
- `innerHTML` is treated as an opaque character string: no HTML parsing, serialisation or entity escaping.
- The call at scripts/link-headers.js:22 and the timing of script loading are not modelled.
- Uniqueness of ids is not promised by the code, and the model does not claim it (see `GettingStartedCollision`).
- `HeaderLinker.LinkHeaders`: `content` is the heading's `innerHTML` as it was before the run, and it never changes. In a document, `innerHTML` serialises the attributes of a heading's descendants. So when one heading contains another (the HTML parser nests them when an inline element sits between, as in `<h3><span><h2>B</h2></span></h3>`), the script's own write to the inner heading's `id` changes what the outer heading reads later. A second run can then give the outer heading a different id. The contract, and idempotence, hold only when no heading contains another.
- `HeaderLinker.LinkHeaders`: the loop variables `h` and `_h` (scripts/link-headers.js:10,14) are undeclared, so they become implicit globals. In strict mode or as a module, the script throws a `ReferenceError` at the first loop. The model assumes sloppy-mode loading, where the loops run.
- `HeaderLinker.LinkHeaders`: the order in which ids are written is not part of its contract. Only the final state is stated, and that state does not depend on the order.
