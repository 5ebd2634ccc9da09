# ICU replacement layer of the `edit` editor, in Dafny

This project models `crates/edit/src/icu.rs`, the small stand-in for the ICU
library that the `edit` text editor uses. It covers:

- the **encoding catalog**, which lists only UTF-8 and UTF-8 with a BOM;
- the **converter**, which accepts only those two encodings and copies bytes
  unchanged;
- **`compare_strings`**, which compares two strings byte by byte;
- the **text snapshot** `Text`, which rebuilds a copy of the document by
  reading the buffer forward chunk by chunk and decoding each chunk lossily as
  UTF-8;
- the **search cursor** `Regex`, which returns matches one at a time. It can
  be restarted, and it keeps the capture groups of the last match.

The modules follow the parts of the file:

| module | file | contents |
|---|---|---|
| `Base` | base.dfy | bytes, `i32`, `Option`, `apperr::Result` and the ICU error codes |
| `Utf8` | utf8.dfy | `String::from_utf8_lossy` on bytes, and what "well-formed UTF-8" means |
| `Compare` | compare.dfy | `compare_strings` and its ordering laws |
| `Encodings` | encodings.dfy | the catalog and `Converter` |
| `TextSnapshot` | text.dfy | the buffer interface (`read_forward`), `Text::new`, `Text::refresh` |
| `Search` | search.dfy | `Regex`: `new`, `set_text`, `reset`, `group_count`, `group`, `next` |
| `Scenarios` | scenarios.dfy | two concrete matchers (`a*`, `a+`) and the match sequences they give |

The `regex` crate is not modelled. A compiled pattern is a function value,
`Matcher`, standing for `captures_at(text, from)`. The model relies only on
what the crate guarantees about a match, stated by the predicate
`Conforms`:

- group 0 is present;
- group 0 starts at or after `from`;
- every group lies within the text;
- the group list fits in a `Vec`.

Compiling a pattern is done by an `Engine` function, which may fail. The
cursor code around the matcher is modelled exactly:

- the guard on the resume offset;
- the loop that stores a non-participating group as `0..0`;
- the advance rule (`end`, or `end + 1` for an empty match);
- the `i32` casts in `group_count` and `group`.

Text is handled as UTF-8 bytes (`seq<byte>`), and every offset is a byte
offset, as in the Rust code.

## Model

| member | source | states |
|---|---|---|
| `Encodings.CatalogMatchesConverter` | crates/edit/src/icu.rs:26-40 | The catalog lists exactly the two names that `Converter::new` accepts. The preferred list equals the full list. Each entry's label equals its canonical name. |
| `Encodings.Converter.New` | crates/edit/src/icu.rs:57-69 | Succeeds if and only if both the source and the target are "UTF-8" or "UTF-8 BOM". Otherwise it fails with ICU code 16. |
| `Encodings.Converter.Convert` | crates/edit/src/icu.rs:71-81 | Copies exactly `n = min(|input|, |output|)` bytes. The first `n` bytes of `output` equal those of `input`, and the rest of `output` is untouched. It returns `Ok((n, n))` and never fails. |
| `Compare.CompareEqualIff` | crates/edit/src/icu.rs:85-87 | `compare_strings` returns `Equal` exactly when the two byte strings are equal. |
| `Compare.CompareSwap` | crates/edit/src/icu.rs:85-87 | Swapping the arguments reverses the ordering. |
| `Compare.CompareTransitive` | crates/edit/src/icu.rs:85-87 | `Less` is transitive. |
| `Compare.CompareLessIff` | crates/edit/src/icu.rs:85-87 | `Less` holds exactly when `a` sorts first under an independent definition of lexicographic order. That order compares at the first differing byte, and a proper prefix sorts first. |
| `Utf8.LossyKeepsValid` | crates/edit/src/icu.rs:132 | Lossy decoding returns well-formed UTF-8 input unchanged. |
| `Utf8.LossyIsValid` | crates/edit/src/icu.rs:132 | Lossy decoding always produces well-formed UTF-8. |
| `TextSnapshot.DecodedIsValid` | crates/edit/src/icu.rs:127-134 | Chunks that are decoded one at a time and then appended still form well-formed UTF-8. |
| `TextSnapshot.Text.constructor` | crates/edit/src/icu.rs:112-119 | A new snapshot holds the buffer's refreshed content, which is well-formed UTF-8. |
| `TextSnapshot.Text.Refresh` | crates/edit/src/icu.rs:121-135 | The old content is discarded. The new content is the concatenation of the decoded chunks that `read_forward` returns at offsets 0, then offset plus chunk length, up to the first empty chunk. The read loop terminates, and the content is well-formed UTF-8. |
| `TextSnapshot.ChunksSpellData` | crates/edit/src/icu.rs:126-134 | When the buffer presents a document, the chunks that the read loop collects spell out that document, in order and completely. |
| `TextSnapshot.SnapshotOfValidDocument` | crates/edit/src/icu.rs:121-135 | When every chunk is well-formed UTF-8, the snapshot is exactly the document's bytes. |
| `TextSnapshot.SplitCodePointIsReplaced` | crates/edit/src/icu.rs:128-133 | Each chunk is decoded separately. So a well-formed document that is read with a code point split across two chunks gets one replacement character for each half. |
| `Search.Regex.Init` | crates/edit/src/icu.rs:169-174 | A new cursor holds the matcher and the text copy. Its resume offset is 0 and it has no captures. |
| `Search.Regex.New` | crates/edit/src/icu.rs:150-177 | It fails with ICU code 1 exactly when the engine rejects the options decoded from the flag mask. Otherwise the new cursor is valid, holds a copy of the snapshot's content, starts at offset 0 and has no captures. |
| `Search.Regex.SetText` | crates/edit/src/icu.rs:181-185 | Refreshes the snapshot, then replaces the cursor's text with the refreshed content. The resume offset becomes `offset` and the captures are cleared. |
| `Search.Regex.Reset` | crates/edit/src/icu.rs:187-190 | Sets the resume offset to `offset` and clears the captures. The text is unchanged. |
| `Search.Regex.GroupCount` | crates/edit/src/icu.rs:192-198 | Returns 0 when there are no captures. Otherwise it returns the number of stored groups minus one. |
| `Search.Regex.Group` | crates/edit/src/icu.rs:200-206 | Returns `None` when there are no captures. Returns the stored range at index `i` when `0 <= i < |captures|`. Returns `None` for a larger index, and for a negative one, which becomes a huge `usize` after sign extension. |
| `Search.NextStep` | crates/edit/src/icu.rs:212-242 | One `next`. It misses exactly when the offset is past the text or the matcher finds nothing, and a miss changes nothing, not even the old captures. A hit lies at or after the offset and within the text. On a hit, group 0 equals the returned range, each group keeps its index, and a non-participating group is stored as `0..0`. The search resumes at the match end after a non-empty match and one byte past it after an empty match, so the new offset is strictly greater than the old one and at most `|text| + 1`. |
| `Search.Regex.Next` | crates/edit/src/icu.rs:212-242 | The new state and the result are exactly those of `NextStep`. The text is unchanged, the invariant is kept, and `group(0)` equals the returned range. |
| `Search.Matches` | crates/edit/src/icu.rs:232-236 | The matches that repeated `next` calls return from an offset form a finite sequence, with at most `|text| + 1 - from` entries. They lie within the text, do not overlap, and have strictly increasing starts. |
| `Search.NextPullsMatches` | crates/edit/src/icu.rs:212-242 | `next` from any state returns the head of the match sequence for its resume offset and resumes at the start of the rest. Old captures play no part, so `reset(o)` always restarts the same sequence. |
| `Scenarios.ZeroWidthMatchesAdvance` | crates/edit/src/icu.rs:232-236 | The pattern `a*` over "ba" yields `0..0`, `1..2`, `2..2` and then ends. |
| `Scenarios.PlusMatchesOnce` | crates/edit/src/icu.rs:217-240 | The pattern `a+` over "baaab" yields `1..4` and then ends. |

## Left out

- The regular-expression semantics of the `regex` crate are not modelled (`RegexBuilder`, `captures_at`, `regex::escape`, case-insensitive and multi-line matching, icu.rs:150-176 and 217). They are replaced by the `Matcher` and `Engine` function values and the `Conforms` guarantees. `OptionsFor` only records which flags were set.
- `fold_case` (icu.rs:89-93) is not modelled. It relies on Unicode lowercasing tables and arena allocation that are not visible here.
- `apperr_format` and `init` (icu.rs:42-48) are left out: one only formats text and the other does nothing.
- The raw `tb_ptr` pointer, `unsafe` and the empty `Drop` (icu.rs:99-119) are not modelled. The buffer's current state is passed by value to `Refresh` and `SetText`. The editor's `TextBuffer` is not part of this model: the model only assumes that `read_forward` returns an empty chunk once the offset reaches the length, which the read loop needs to end. The `reserve` capacity hint has no observable effect and is dropped.
- The `_pivot_buffer` argument of `Converter::new` is unused by the code and is dropped.
- Offsets are unbounded naturals. `range.end + 1` cannot overflow `usize`, because a match ends within a `String`, which is at most `isize::MAX` bytes long.
- The empty-match advance moves exactly one byte (icu.rs:233), even when this lands inside a multi-byte code point; the model follows the code.
- icu.rs has one search backend, the `regex` crate; no other backend is modelled.
- Search.Regex.GroupCount: the contract gives the exact count only when there are fewer than 2^31 stored groups. Beyond that, the body models the `as i32` wrap and `saturating_sub`, but no ensures clause describes the result.
