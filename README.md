# Mastering Excel e-book site: search, permalinks, feedback store and CSV export

The site is a single React component file. It renders a static catalog of
chapters and sections. It offers a quick search over chapter titles and
section headings. Every section gets a permalink id. Visitors can leave
feedback through a form, and the form persists it in the browser's local
storage under the key `excel-ebook-feedback`. An admin view exports that
feedback as CSV and can clear it. This project models the computing parts
of that file and proves properties about them:

- `Text`: the string primitives the site uses. These are `trim`, with the
  exact ECMAScript whitespace and line-terminator set, plus an ASCII
  `toLowerCase`, `includes`, a one-character `replaceAll`, and `join`.
  `split` is used only by the model's CSV reader.
- `Catalog` and `Index`: the chapter/section data and `flattenContent`,
  which builds one index entry per section in catalog order.
- `Permalink`: the slug `heading.toLowerCase().replace(/[^a-z0-9]+/g, "-")`
  and the id `chapterId#slug`.
- `Search`: the `results` memo of `App`. It is an imperative method with
  nested loops (`Results`). That method is proved equal to a specification
  function (`Query`) over the flat index. The lemmas about `Query` give
  soundness, completeness, order and the cap of eight results.
- `Feedback`: the entry record, the newest-first prepend, and the form
  component with its state slots and submit handler.
- `Csv`: the export, with its literal header and `safe`. Each cell is quoted
  in the style of RFC 4180, section 2, rules 5 to 7. A small reader for
  that format states the round trip.
- `Storage`: `useLocalStorage`. Storage is a class holding a key/value map
  that may be unavailable or may refuse a value that is too long. Loading is
  a pure function. The persisted state slot is a class whose writes go
  through the storage.
- `Admin`: the admin view, its "Clear All" button, and a whole visit to the
  page (mount the form, type, submit, reload and export).

The model follows these details of the code:

- The newline-to-space replacement is applied only to `name`, `email`,
  `topic` and `message`, not to `id` or `ts`.
- A stored item that is the empty string is treated like a missing key.
- The timestamp field is called `ts`.
- The search reads `chapters` directly, not `flattenContent`. The model's
  specification uses the flat index, and the method walks chapters and
  sections as the code does.

## Model

| member | source | states |
|---|---|---|
| Text.TrimStart | interactive_excel_e_book_website_react.jsx:674 | the result is the suffix left after the leading whitespace; everything dropped is whitespace; the result does not start with whitespace |
| Text.TrimEnd | interactive_excel_e_book_website_react.jsx:674 | the result is the prefix left before the trailing whitespace; everything dropped is whitespace; the result does not end with whitespace |
| Text.Trim | interactive_excel_e_book_website_react.jsx:674 | `trim()` is the infix of its input that starts where the leading whitespace ends and stops where the trailing whitespace begins; everything removed on either side is whitespace, and neither end of a non-empty result is |
| Text.TrimEmptyIff | interactive_excel_e_book_website_react.jsx:674-675 | trimming gives the empty string exactly when every character is whitespace |
| Text.Lower | interactive_excel_e_book_website_react.jsx:679 | `toLowerCase()` keeps the length, leaves no upper-case ASCII letter, and keeps every other character; only ASCII letters are lowered |
| Text.ContainsIff | interactive_excel_e_book_website_react.jsx:680 | `includes` holds exactly when the needle occurs at some position of the haystack |
| Text.ReplaceChar | interactive_excel_e_book_website_react.jsx:613 | `replaceAll` of one character keeps the length, changes exactly the occurrences of that character, and leaves none of it when the replacement differs |
| Text.SplitJoin | interactive_excel_e_book_website_react.jsx:610 | splitting on a separator undoes joining with it, when no part contains the separator |
| Permalink.Collapse | interactive_excel_e_book_website_react.jsx:437 | the replacement yields only `[a-z0-9-]`, never two `-` in a row, keeps a leading class character first, never grows, and is empty only for the empty input |
| Permalink.Slug | interactive_excel_e_book_website_react.jsx:437 | a slug contains only `[a-z0-9-]`, never `--`, is no longer than the heading, and keeps every letter and digit of the lower-cased heading, in order |
| Permalink.PermalinkId | interactive_excel_e_book_website_react.jsx:556 | the id starts with the chapter id and `#`; the rest contains only `[a-z0-9-]`, never `--`, is no longer than the heading, and keeps every letter and digit of the lower-cased heading, in order |
| Permalink.CollapseIsStream | interactive_excel_e_book_website_react.jsx:437 | the run-collapsing replacement equals an independent one-pass reading: emit class characters, and one `-` on entering each run of other characters |
| Permalink.SlugIdempotent | interactive_excel_e_book_website_react.jsx:437 | slugging a slug changes nothing |
| Index.ChapterEntries | interactive_excel_e_book_website_react.jsx:436-449 | one entry per section of the chapter, the j-th built from the j-th section |
| Index.FlattenAppend | interactive_excel_e_book_website_react.jsx:435-450 | flattening a concatenation of catalogs concatenates their indexes (chapter order is kept) |
| Index.Flatten | interactive_excel_e_book_website_react.jsx:435-437 | a one-chapter catalog flattens to that chapter's section entries, in section order (with `Index.FlattenAppend` this fixes the whole index) |
| Index.FlattenLength | interactive_excel_e_book_website_react.jsx:435-450 | the index has exactly as many entries as the catalog has sections |
| Index.FlattenHasEvery | interactive_excel_e_book_website_react.jsx:435-450 | every section of every chapter has its entry in the index |
| Index.FlattenFrom | interactive_excel_e_book_website_react.jsx:435-450 | every index entry is the entry of some section of some chapter |
| Index.PermalinkAgrees | interactive_excel_e_book_website_react.jsx:437 | the id `flattenContent` stores equals the id `Permalink` computes (line 556) for the same chapter and heading |
| Search.Query | interactive_excel_e_book_website_react.jsx:673-684 | the search never returns more than eight results |
| Search.MatchingAppend | interactive_excel_e_book_website_react.jsx:677-682 | the full match list distributes over concatenation: index order is kept, nothing matching is dropped and nothing is duplicated |
| Search.MatchingSound | interactive_excel_e_book_website_react.jsx:679-680 | every match comes from an index entry whose lower-cased `title + " " + heading` contains the query |
| Search.MatchingComplete | interactive_excel_e_book_website_react.jsx:679-680 | every index entry whose haystack contains the query is among the matches |
| Search.QueryBlank | interactive_excel_e_book_website_react.jsx:674-675 | an empty or whitespace-only query yields no results |
| Search.QuerySound | interactive_excel_e_book_website_react.jsx:679-680 | every result's lower-cased `title + " " + heading` contains the trimmed, lower-cased query, and the result names a section of the catalog |
| Search.QueryIsPrefix | interactive_excel_e_book_website_react.jsx:683 | for a non-blank query the results are a prefix of the full match list, of length `min(8, n)` |
| Search.QueryComplete | interactive_excel_e_book_website_react.jsx:676-683 | when there are at most eight matches, every matching section of the catalog is reported |
| Search.Results | interactive_excel_e_book_website_react.jsx:673-684 | the nested loops that push matches and then slice to eight return exactly `Query` of the catalog and the query |
| Storage.LocalStorage.SetItem | interactive_excel_e_book_website_react.jsx:463 | a write is accepted exactly when storage is available and the value fits; only the written key changes, and only then |
| Storage.LocalStorage.RemoveItem | interactive_excel_e_book_website_react.jsx:635 | removal deletes the key itself when storage is available, and otherwise changes nothing |
| Storage.Load | interactive_excel_e_book_website_react.jsx:453-460 | the loaded value is the initial value unless storage is available and holds a non-empty item under the key that parses, in which case it is the parsed item |
| Storage.LoadAfterWrite | interactive_excel_e_book_website_react.jsx:455-463 | a value whose accepted, non-empty encoding parses back is what the next load returns |
| Storage.WriteKeepsOthers | interactive_excel_e_book_website_react.jsx:463 | a write leaves every other key as it was |
| Storage.LoadAfterRemove | interactive_excel_e_book_website_react.jsx:455-458 | after the key is removed, loading yields the initial value |
| Storage.PersistedValue.constructor | interactive_excel_e_book_website_react.jsx:452-465 | mounting loads the value and then writes its encoding back under the key (the write may be refused) |
| Storage.PersistedValue.Persist | interactive_excel_e_book_website_react.jsx:461-465 | the effect writes the encoded value under the key and swallows a refusal |
| Storage.PersistedValue.Set | interactive_excel_e_book_website_react.jsx:453-466 | the in-memory value becomes the new value whether or not storage accepts its encoding |
| Feedback.NewEntry | interactive_excel_e_book_website_react.jsx:591 | the submitted entry has the clock reading as its id, the timestamp, and every form field present with its value |
| Feedback.Prepend | interactive_excel_e_book_website_react.jsx:592 | the new collection is one longer, has the new entry at index 0, and its tail is the old collection unchanged |
| Feedback.PrependKeepsNewestFirst | interactive_excel_e_book_website_react.jsx:591-592 | a submission stamped no earlier than the newest entry keeps ids non-increasing from the front |
| Feedback.FeedbackForm.constructor | interactive_excel_e_book_website_react.jsx:569-575 | the form starts empty and the collection is loaded from the feedback key, empty when the key is absent, the item is empty or `JSON.parse` throws on it |
| Feedback.FeedbackForm.Type | interactive_excel_e_book_website_react.jsx:584-588 | an input's `onChange` sets that one field and nothing else |
| Feedback.FeedbackForm.Submit | interactive_excel_e_book_website_react.jsx:590-593 | the entry built from the fields, the clock and the timestamp is put first and persisted; the fields are cleared and "Saved" is shown |
| Csv.HeaderLiteral | interactive_excel_e_book_website_react.jsx:608 | the header line is `id,timestamp,name,email,topic,message` |
| Csv.Safe | interactive_excel_e_book_website_react.jsx:613 | `safe(v)` has the length of the value (the empty string when absent), holds no newline, and changes each newline to a space and nothing else |
| Csv.Decimal | interactive_excel_e_book_website_react.jsx:609-610 | `String(id)` is a non-empty string of decimal digits with no leading zero (only 0 itself starts with `0`) |
| Csv.DecimalValue | interactive_excel_e_book_website_react.jsx:609-610 | reading the digits back gives the id |
| Csv.Escape | interactive_excel_e_book_website_react.jsx:610 | doubling quotes never shortens a cell and leaves a quote-free cell unchanged; its full meaning is pinned by `Csv.ReadQuotedCell`, which un-doubles it back |
| Csv.Cells | interactive_excel_e_book_website_react.jsx:609 | a row has one cell per header column |
| Csv.ReadQuotedCell | interactive_excel_e_book_website_react.jsx:610 | un-doubling the inside of a quoted cell recovers the original string exactly, and reading stops right after the closing quote |
| Csv.ReadRow | interactive_excel_e_book_website_react.jsx:610 | reading a comma-joined line of quoted cells gives the cells back |
| Csv.RowOneLine | interactive_excel_e_book_website_react.jsx:609-610 | a data row holds no newline when its timestamp holds none |
| Csv.Export | interactive_excel_e_book_website_react.jsx:607-611 | the export starts with the header line, followed by a newline when there is at least one entry |
| Csv.ExportLines | interactive_excel_e_book_website_react.jsx:608-610 | when no timestamp holds a newline, the export splits into the header line followed by one line per entry, `1 + n` lines in all |
| Csv.ExportEmpty | interactive_excel_e_book_website_react.jsx:610 | an empty collection exports as the header line alone |
| Csv.ExportRoundTrip | interactive_excel_e_book_website_react.jsx:607-611 | reading the export back gives every entry's six cells, in collection order |
| Csv.TwoLineMessageCell | interactive_excel_e_book_website_react.jsx:609-613 | a two-line message without quotes becomes one quoted cell with the newline turned into a space |
| Admin.AdminPanel.constructor | interactive_excel_e_book_website_react.jsx:603-604 | the admin view loads its own copy of the collection from the feedback key |
| Admin.AdminPanel.ClearAll | interactive_excel_e_book_website_react.jsx:634-637 | after confirmation the feedback key is removed; the page reloads whether or not the prompt was confirmed, unless the removal threw |
| Admin.SubmitThenReload | interactive_excel_e_book_website_react.jsx:590-592 | after a submission that storage accepts, the reloaded admin view shows the new entry before the collection loaded at the start, and, when no shown entry's timestamp holds a newline, its CSV reads back to those entries' cells |

## Left out

- React rendering, hook scheduling, memo and effect timing, theming and all markup, and the catalog's prose. Section bodies and chapter icons are not modelled, because they are presentation. A section is only its heading.
- The `text` field of `flattenContent`. It is a stub that depends on `document` and the search never reads it.
- `JSON.parse` and `JSON.stringify` become the `decode` and `encode` parameters. `decode` returning `None` stands only for a `JSON.parse` that throws. A stored text that parses to a value other than an array of entries is not modelled, and the code keeps such a value instead of falling back to `[]`. For `null`, `{}`, a number or a boolean, the form's prepend and the export's `map` then throw. A stored string is spread into its characters by the prepend, and only the export's `map` throws. An array of numbers, strings or booleans, such as `[1, 2]`, is kept, and the export writes each of its elements as a row of six empty cells. An array holding `null` is kept as well, and the export's `e.id` (interactive_excel_e_book_website_react.jsx:609) throws on it. Stored fields of other JSON types, such as a number in `name` that `toString` would print, are not modelled. An entry's text fields are strings or absent.
- `Date.now()` and `toISOString()` become the `now` and `ts` inputs. `toLocaleString` is display only.
- The Blob download and its file name `excel-ebook-feedback.csv`, `URL.createObjectURL` and `navigator.clipboard` are browser I/O. `confirm` becomes the `confirmed` input. `window.location.reload` becomes the `reload` result. In `Admin.SubmitThenReload` the reload re-mounts only the admin view, a fresh `AdminPanel` over the same storage. The form is not mounted again.
- Text.Lower: only ASCII letters are lower-cased. Full Unicode `toLowerCase` maps a few non-ASCII characters to ASCII ones, such as the Kelvin sign to `k` and dotted capital I to `i` plus a combining dot. For those characters the slug can differ from the model. The search differs for every non-ASCII cased letter: the query "émile" matches a heading "Émile" in the browser and not in the model. The site's own catalog of titles and headings holds no non-ASCII cased letter. Its one non-ASCII character, the non-breaking hyphen in "Practical Mini‑Projects", is unchanged by lower-casing.
- Csv.Decimal: ids are modelled as unbounded naturals written as their exact digits. A JavaScript number is a double, so `String(n)` matches this only below 2^53. Above that it prints the shortest digits that read back to the same double, and from 10^21 it uses exponent notation. Every real clock reading in milliseconds is far below 2^53.
- Storage.LocalStorage.SetItem: the browser's quota limits the storage's total size. Here it limits one value's length.
- Storage.PersistedValue.Set: React skips the effect when the new value is identical to the old one (`Object.is`). The model always writes, which stores the same text in that case.
- Csv.ExportRoundTrip: stated only when no timestamp holds a newline. The reader splits lines before it reads cells, although a quoted cell may hold a newline under RFC 4180.
- Admin.SubmitThenReload: the CSV read-back is stated only when no shown entry's timestamp holds a newline, for the same reason. Entries loaded from storage may carry such a timestamp.
- The two separate `useLocalStorage` instances of the form and the admin view can go stale relative to each other and to other tabs. This is concurrency and UI synchronisation.
- The "Copied" flags of `Permalink` and `AdminSection`, the timers that reset "Copied" and "Saved" (interactive_excel_e_book_website_react.jsx:561, :593, :632), and the placeholder texts ("Anonymous", "(No topic)", "(No message)") shown for empty fields. All of these are display only.
