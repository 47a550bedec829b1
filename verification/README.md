# mime_info in Dafny

A model of `mime_info.h`, a header-only C library. The library holds one static table
of 77 (extension, MIME type) rows and answers four queries over it:

- `mime_info_find_entry_from_extension` returns the first row whose extension
  matches a key. The key may be given with or without its leading dot.
- `mime_info_find_entry_from_mime` returns the first row whose MIME type is
  exactly the key.
- `mime_info_mime_from_extension` and `mime_info_extension_from_mime` are
  wrappers. Each returns one field of the row found by the matching query.

`mime_info_get_table` hands out the table and its row count.

The table repeats some keys on purpose. `.3g2`, `.3gp`, `.mid`, `.midi`, `.mp4` and
`.xml` each appear on more than one row, and so do several MIME types, such as
`text/html` and `image/jpeg`. Every query is a linear scan that stops at the first
match, so the order of the rows decides the answer.

## Layout

- `wrappers.dfy` (`Wrappers`): `Option`. `None` stands for the NULL pointer the C
  functions return.
- `scan.dfy` (`Scan`): the generic first-match scan `FirstIndexFrom`/`FirstIndex` over
  a sequence, and its uniqueness lemma.
- `mime_table.dfy` (`MimeTable`): the `Entry` datatype and the table `Entries`.
  `DottedExtension` is the subset type of non-empty strings that start with `.`.
  `Entries` is written as four consecutive literal blocks `Block1`..`Block4` (source
  lines 26-45, 46-65, 66-85, 86-102), because the verifier cannot index a single
  77-element display. The module also holds `GetTable` and the proof that every
  stored extension is a dot followed by lower-case letters and digits.
- `mime_lookup.dfy` (`MimeLookup`): the two scans over any sequence of rows
  (`FindExtensionIn`, `FindMimeIn`) and the loop methods that mirror the C `for`
  loops (`ScanForExtension`, `ScanForMime`). It also holds the four queries on the
  table (`FindEntryFromExtension`, `FindEntryFromMime`, `MimeFromExtension`,
  `ExtensionFromMime`). A found row is its index in the table, which stands for
  the pointer `&entries[i]`.
- `mime_properties.dfy` (`MimeProperties`): lemmas about how the extension key is
  normalised, first-match tie-breaking, round trips, and the concrete answers for
  the duplicated keys.

The stored extension's first character is dropped unconditionally
(`&entries[i].extension[1]`). `DottedExtension` guarantees that this character is
the dot. `MatchesOwnExtension` proves that dropping it and stripping the caller's
dot together amount to comparing extensions with the dot written out.

## Model

| member | source | states |
|---|---|---|
| MimeTable.GetTable | mime_info.h:21-107 | The table comes back with its count. The count equals the number of literal rows (77), and every row's extension is a dot followed by at least one lower-case letter or digit. |
| MimeTable.TableWellFormed | mime_info.h:24-103 | Every one of the 77 rows has a non-empty extension made of a `.` followed by lower-case ASCII letters or digits. |
| MimeTable.EntryAt | mime_info.h:24-103 | Row `i` of the table is the matching row of the literal block that holds it. The blocks together are the array in declaration order. |
| Scan.FirstIndexFrom | mime_info.h:122-130 | The scan from position `from` returns the first matching position at or after `from`, with no match before it. It returns `None` exactly when nothing from `from` on matches. |
| Scan.FirstIndex | mime_info.h:122-130 | The scan returns the first matching position of the whole sequence, or `None` exactly when no element matches. |
| Scan.FirstIndexIsFirstMatch | mime_info.h:122-130 | The scan returns `Some(i)` if and only if `i` is the first matching position, so the first match is the only possible answer. |
| MimeLookup.StripOneDot | mime_info.h:118-119 | A key that starts with `.` is that one dot followed by the result. Any other key, including the empty one, is returned unchanged. |
| MimeLookup.DropFirst | mime_info.h:124 | Dropping a stored extension's first character leaves the part after its dot: the extension is `.` followed by the result. |
| MimeLookup.FindExtensionIn | mime_info.h:109-131 | A found row is the first one whose extension, minus its first character, equals the key with one optional dot removed. `None` is returned exactly when no row matches. |
| MimeLookup.FindMimeIn | mime_info.h:133-152 | A found row is the first one whose MIME type equals the key exactly. `None` is returned exactly when no row has that MIME type. |
| MimeLookup.FindExtensionInIsFirstRow | mime_info.h:122-127 | The extension scan returns row `i` if and only if `i` is the first matching row. |
| MimeLookup.FindMimeInIsFirstRow | mime_info.h:143-148 | The MIME scan returns row `i` if and only if `i` is the first matching row. |
| MimeLookup.FirstExtensionRowPrefix | mime_info.h:122-127 | Appending rows after the first extension match does not change it. |
| MimeLookup.FirstExtensionRowSuffix | mime_info.h:122-127 | If no row of `a` matches, the first extension match in `a + b` is `b`'s first match, shifted by `a`'s length. |
| MimeLookup.NoExtensionAppend | mime_info.h:122-130 | If neither part has an extension match, their concatenation has none. |
| MimeLookup.FirstMimeRowPrefix | mime_info.h:143-148 | Appending rows after the first MIME match does not change it. |
| MimeLookup.FirstMimeRowSuffix | mime_info.h:143-148 | If no row of `a` matches, the first MIME match in `a + b` is `b`'s first match, shifted by `a`'s length. |
| MimeLookup.NoMimeAppend | mime_info.h:143-151 | If neither part has a MIME match, their concatenation has none. |
| MimeLookup.ScanForExtension | mime_info.h:115-130 | The C loop, with one dot stripped and an early return. Its answer is the first row that matches, or `None` exactly when no row matches. |
| MimeLookup.ScanForMime | mime_info.h:139-151 | The C loop with an early return. Its answer is the first row with exactly that MIME type, or `None` exactly when there is none. |
| MimeLookup.FindEntryFromExtension | mime_info.h:109-131 | On the table: the first row whose extension matches the key with one optional dot removed, or `None` exactly when no row matches. |
| MimeLookup.FindEntryFromMime | mime_info.h:133-152 | On the table: the first row with exactly that MIME type, or `None` exactly when no row has it. |
| MimeLookup.MimeFromExtension | mime_info.h:166-176 | Returns a value exactly when some row's extension matches. The value is the MIME type of the first matching row. |
| MimeLookup.ExtensionFromMime | mime_info.h:154-164 | Returns a value exactly when some row has that MIME type. The value is the extension of the first such row, and it starts with `.`. |
| MimeProperties.MatchesOwnExtension | mime_info.h:118-124 | A stored extension used as the key matches a row if and only if that row stores the same extension. Stripping the key's dot and dropping the row's first character cancel out. |
| MimeProperties.LeadingDotInsensitive | mime_info.h:118-119 | For a key `s` that does not start with a dot, looking up `"." + s` gives the same result as looking up `s`, in any table. |
| MimeProperties.DoubleDotNotFound | mime_info.h:118-124 | Only one dot is stripped. In a well-formed table, a key that starts with `..` is never found. |
| MimeProperties.EmptyKeyNotFound | mime_info.h:118-130 | In a well-formed table, both `""` and `"."` are not found. |
| MimeProperties.UpperCaseKeyNotFound | mime_info.h:124 | Comparison is case-sensitive. In a well-formed table, a key with an upper-case ASCII letter after its optional dot is never found. |
| MimeProperties.OwnExtensionFound | mime_info.h:122-127 | Looking up a row's own extension always finds a row at or before it that stores the same extension. It finds that very row if and only if no earlier row repeats the extension. |
| MimeProperties.OwnMimeFound | mime_info.h:143-148 | Looking up a row's own MIME type always finds a row at or before it that stores the same MIME type. It finds that very row if and only if no earlier row repeats the MIME type. |
| MimeProperties.QueriesIgnoreOneLeadingDot | mime_info.h:166-176 | `FindEntryFromExtension` and `MimeFromExtension` give the same answer for `"." + s` as for `s`, when `s` does not start with a dot. |
| MimeProperties.QueriesRejectMalformedKeys | mime_info.h:166-176 | On the table, `MimeFromExtension` returns nothing for `""`, `"."`, any key starting with `..`, `"MP4"` and `".MP4"`. |
| MimeProperties.RoundTripOfUnambiguousRow | mime_info.h:154-176 | Take a row that is the first with its extension and also the first with its MIME type. Mapping its extension to a MIME type gives its MIME type, and mapping that back gives its extension. |
| MimeProperties.ExtensionLookupAnswers | mime_info.h:166-176 | Once row `i` is the first match for a key, the extension lookup returns `i` and the wrapper returns row `i`'s MIME type. |
| MimeProperties.MimeLookupAnswers | mime_info.h:154-164 | Once row `i` is the first row with a MIME type, the MIME lookup returns `i` and the wrapper returns row `i`'s extension. |
| MimeProperties.Mp4Row | mime_info.h:63 | Row 37 (`.mp4`, `video/mp4`) is the first row that answers `.mp4`. |
| MimeProperties.HtmlRow | mime_info.h:49 | Row 23 (`.html`, `text/html`) is the first row that answers `.html`. |
| MimeProperties.PdfRow | mime_info.h:75 | Row 49 (`.pdf`, `application/pdf`) is the first row that answers `.pdf`. |
| MimeProperties.XmlRow | mime_info.h:99 | Row 73 (`.xml`, `application/xml`) is the first row that answers `xml`. |
| MimeProperties.TextHtmlRow | mime_info.h:48 | Row 22 (`.htm`) is the first row with MIME type `text/html`. |
| MimeProperties.ApplicationPdfRow | mime_info.h:75 | Row 49 (`.pdf`) is the first row with MIME type `application/pdf`. |
| MimeProperties.TextXmlRow | mime_info.h:100 | Row 74 (`.xml`) is the first row with MIME type `text/xml`. |
| MimeProperties.Mp4TieBreak | mime_info.h:63-65 | Of the three `.mp4` rows the first wins. `.mp4` finds row 37, and both `.mp4` and `mp4` map to `video/mp4`. |
| MimeProperties.XmlDirectionsDisagree | mime_info.h:99-100 | `xml` and `.xml` map to `application/xml`, yet `text/xml` maps back to `.xml`. The two directions are not inverse on a duplicated extension. |
| MimeProperties.HtmlDirectionsDisagree | mime_info.h:48-49 | `.html` maps to `text/html`, but `text/html` maps back to `.htm`, the first row with that MIME type. |
| MimeProperties.PdfRoundTrip | mime_info.h:75 | `.pdf` maps to `application/pdf`, and `application/pdf` maps back to `.pdf`. |
| MimeProperties.UnknownKeysNotFound | mime_info.h:109-152 | `doesnotexist`, `application/doesnotexist` and `TEXT/HTML` are all reported as not found. MIME types are not case folded. |

## Left out

- C string mechanics are not modelled: NUL termination, `strcmp`'s ordering beyond
  equality, and pointer arithmetic (`++extension`, `&entries[i]`). Strings are
  `seq<char>`, and a returned pointer is an index into the table.
- NULL arguments are left out. The C functions dereference the key without a check,
  so a NULL key is undefined behaviour.
- Preprocessor guards, `static __inline`, and the `#ifdef __cplusplus` /
  `using namespace std` lines have no behaviour to model.
- The function-local `static` array and sharing it across threads are left out.
  The table is a constant, so every call of `GetTable` gives the same result.
- MimeTable.TableWellFormed: it does not state that the stored MIME types are lower
  case. That holds of the data, but checking it character by character over all 77
  MIME strings is too costly for the verifier. Case sensitivity on the MIME side is
  shown only on the example `TEXT/HTML` in `UnknownKeysNotFound`.
