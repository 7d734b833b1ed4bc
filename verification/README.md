# selfoss_mupdate: item identity and per-item status policy

A Dafny model of the decision logic of the selfoss micro updater, a C
program that fetches one RSS/Atom feed and prepares its items for the
selfoss reader. Two parts are modelled:

- **Item identity** (`simplepie_get_id`, `selfoss_getId`). The natural key
  is the first present field among guid, link, enclosure URL and title. It
  is copied into a 4096-byte buffer. A key of at most IDSIZE (255) bytes is
  the identity itself. A longer key is replaced by the `%02x` rendering of
  its MD5 digest (RFC 1321).
- **Per-item status policy** (`fetch_feed`, `iconv_replace`,
  `configure_tidy`, `sanitize_content`). This covers the UTF-8 conversion
  gate, the "[ NO TITLE ]" fallback, the skip/ok/warn split on the
  sanitizer's status, and the status chain over the HTML Tidy calls.

Library calls are parameters of the model, with no body of their own:

- MD5 is a function returning 16 bytes.
- `iconv_open` and `iconv` are functions that may fail.
- Tidy is a record of functions. The eight configuration calls map the
  setting to a status; the six option setters answer 0 or 1. The parse,
  clean-and-repair and diagnostics calls map the document source to a
  status. Force-output maps it to a yes/no answer. Serialization maps it
  to a status and the serialized text.
- `sanitize_text_only` and `__nxml_trim` are functions on nullable strings.
- The platform's `char` signedness is a boolean.

Files and modules:

| file | module | models |
|---|---|---|
| cstrings.dfy | CStrings | C strings (NUL-free byte sequences), NULL pointers, `strncpy`, `strnlen`, `strcasecmp`, `snprintf` |
| hex.dfy | Hex | printf `%02x` of a `char` argument, including sign extension |
| feed.dfy | Feed | the channel and item fields the updater touches |
| identity.dfy | Identity | `simplepie_get_id`, `selfoss_getId` |
| encoding.dfy | Encoding | the conversion gate, `iconv_open` set-up, `iconv_replace` |
| sanitize.dfy | Sanitize | `configure_tidy`, `sanitize_content` |
| fetch.dfy | Fetch | the body of the item loop of `fetch_feed`, and the loop itself |

Behaviour of the code that the model keeps, even where it may be
surprising:

- A key field wins by being non-NULL, even when it is empty. So an empty
  guid is chosen over a non-empty link.
- An item with no key field is not rejected. `simplepie_get_id` returns 0,
  and the item gets the empty identity.
- The hashed identity is 32 digits only when no digest byte is
  sign-extended. See Findings.
- `sanitize_content` does no allowlist filtering of tags or attributes.
  `node_walk` is a stub that returns 0 and is never called, and
  `sanitize_drop` has an empty body. The content becomes whatever Tidy
  serializes.
- A refused option setting does not stop `configure_tidy`.
  `tidyOptSetBool` and `tidyOptSetInt` return Tidy's `Bool` (0 or 1), which
  always passes the `rc >= 0` test. Only `tidySetErrorBuffer` and
  `tidySetCharEncoding` can end configuration early.
- Nothing checks the identity against stored items and nothing is
  persisted. The fetch loop only has a comment where the existence check
  would go.

## Model

| member | source | states |
|---|---|---|
| Identity.SelectKey | src/selfoss_mupdate.c:85-104 | the chosen field is present, every field of better priority (guid, link, enclosure URL, title) is NULL, and there is no choice exactly when all four are NULL |
| Identity.ChosenFieldDecides | src/selfoss_mupdate.c:85-100 | fields of lower priority than the chosen one never influence the identity |
| Identity.SimplepieGetId | src/selfoss_mupdate.c:83-107 | with the copy terminated, the key is exactly the first min(length, 4095) bytes of the chosen field, so the whole field when it is shorter than 4096 bytes, and empty when no field is present |
| Identity.SimplepieGetIdAsWritten | src/selfoss_mupdate.c:83-107 | as written, the key is what `strnlen` finds in the buffer after `strncpy(buf, f, sz - 1)`: at most 4096 NUL-free bytes |
| Identity.AsWrittenAgrees | src/selfoss_mupdate.c:86-106 | the code as written yields the terminated key unless the field fills the 4095-byte copy and the never-written last buffer byte is not NUL |
| Identity.AsWrittenReadsStaleByte | src/selfoss_mupdate.c:86-106 | in that case the key is 4096 bytes: the capped field followed by the uninitialized buffer byte |
| Identity.CapDecides | src/selfoss_mupdate.c:111-114 | bytes of the chosen field past the 4095-byte cap never change the identity |
| Identity.SelfossGetId | src/selfoss_mupdate.c:109-138 | the identity fits IDSIZE bytes and the returned size is its length; a key of at most 255 bytes is the identity verbatim; a longer key yields the full digest rendering, never cut by `snprintf` |
| Identity.HashedIdentity | src/selfoss_mupdate.c:115-128 | a hashed identity is lower-case hex of at most 128 bytes; it is exactly 32 bytes iff no digest byte is sign-extended (always with unsigned `char`), and then it decodes back to the digest of the key |
| Identity.SignedCharWidens | src/selfoss_mupdate.c:117-128 | with signed `char`, a digest whose first byte is 0x80 or more gives an identity longer than 32 bytes that starts with "ffffff" |
| Identity.UnsignedCharIdentity | src/selfoss_mupdate.c:115-128 | read as unsigned bytes, the digest renders as 32 lower-case hex digits that decode back to the MD5 digest of the key |
| Hex.CharArg | src/selfoss_mupdate.c:117-128 | the value `%x` reads for a `char` digest byte is the byte itself when it is not sign-extended, and 0xFFFFFF00 plus the byte otherwise; it is below 256 exactly in the first case |
| Hex.RenderDigest | src/selfoss_mupdate.c:123-128 | the sixteen `%02x` conversions print at least two digits per digest byte; the exact length, the digits and the inverse are stated by the lemmas below |
| Hex.FormatCharArg | src/selfoss_mupdate.c:123-128 | `%02x` of a digest byte is its two digits, preceded by "ffffff" exactly when sign-extended; so it is 2 or 8 bytes long |
| Hex.Format02xRoundTrip | src/selfoss_mupdate.c:123-128 | parsing what `%02x` printed gives back the printed value |
| Hex.RenderDigestLength | src/selfoss_mupdate.c:123-128 | the 16 conversions print 2 bytes per digest byte plus 6 per sign-extended byte |
| Hex.RenderDigestRoundTrip | src/selfoss_mupdate.c:123-128 | without sign extension, the printed digest decodes back to the digest |
| Hex.RenderDigestLowerHex | src/selfoss_mupdate.c:123-128 | every printed byte is a lower-case hexadecimal digit |
| CStrings.StrCaseCmpZeroIff | src/selfoss_mupdate.c:164-165 | `strcasecmp` returns 0 exactly for strings equal up to ASCII case |
| Encoding.ConversionEnabled | src/selfoss_mupdate.c:164-177 | conversion is on iff an encoding is declared and it differs from "utf-8" ignoring ASCII case |
| Encoding.OpenConverter | src/selfoss_mupdate.c:164-177 | the fetch fails iff conversion is on and `iconv_open` fails; otherwise a converter is open iff conversion is on, and it is the converter `iconv_open` returned |
| Encoding.IconvReplace | src/selfoss_mupdate.c:48-79 | a NULL field, or any field when conversion is off, is left as it is; the call is fatal iff an open converter fails on a present field; otherwise a present field becomes the converter's output; NULL-ness is preserved |
| Encoding.ConvertItem | src/selfoss_mupdate.c:217-221 | without conversion the item is unchanged; the run ends iff one of title, description, link, guid or enclosure URL fails to convert; otherwise each of the five is what `iconv_replace` makes of it, NULL-ness of each is kept, and publication date and permalink flag are untouched |
| Encoding.IdentityConversionKeepsItem | src/selfoss_mupdate.c:217-221 | a converter that returns every string unchanged leaves the item exactly as it was |
| Encoding.ConvertChannel | src/selfoss_mupdate.c:179-185 | without conversion the channel is unchanged; the run ends iff one of the seven channel fields fails to convert; otherwise each of the seven is what `iconv_replace` makes of it; items, encoding and date are untouched |
| Encoding.IdentityConversionKeepsChannel | src/selfoss_mupdate.c:179-185 | a converter that returns every string unchanged leaves the channel exactly as it was |
| Sanitize.RunConfig | src/sanitize.c:30-46 | the calls made are a non-empty prefix of the list; every call but the last succeeded; the status is the last call's; stopping early means a failure |
| Sanitize.ConfigureTidy | src/sanitize.c:26-47 | the eight calls are made in order up to the first negative status, which is returned; the result is non-negative iff all eight statuses are |
| Sanitize.OnlyBufferAndEncodingStop | src/sanitize.c:30-46 | the six option setters answer with Tidy's `Bool` (0 or 1), so a refused setting never stops configuration: at least seven calls are always made, a negative result comes from the error-buffer or encoding call, and the result is non-negative iff both of those succeed |
| Sanitize.PrepareDocument | src/sanitize.c:69-77 | parse, clean-and-repair and diagnostics each run only after every earlier call succeeded; no call after diagnostics is made; a non-negative status is the diagnostics status |
| Sanitize.ForceOnErrors | src/sanitize.c:78-82 | a status of at most 1 is left alone with no call made; above 1 exactly one call, force-output, is made, and the status is kept if Tidy agrees and becomes -1 if it refuses; serialization is never made here |
| Sanitize.SanitizeContent | src/sanitize.c:62-115 | the calls made are the first ones of the plan (the eight settings, parse, clean and repair, diagnostics, force-output only when diagnostics return more than 1, serialization), none after a failure; the status is the last call's; a non-negative status means every call ran and the content is the serialized buffer; otherwise the content is exactly as given |
| Sanitize.CallMadeIffPredecessorsSucceeded | src/sanitize.c:70-84 | each call of the plan is made iff every call before it succeeded |
| Fetch.TitleFallback | src/selfoss_mupdate.c:238-243 | the final title is at least 2 bytes; a cleaned title of 2 or more bytes is kept, a shorter one becomes "[ NO TITLE ]" |
| Fetch.Classify | src/selfoss_mupdate.c:245-255 | the status is sorted three ways: negative skips the item, 0 or 1 is ok, above 1 is a warning |
| Fetch.ConversionKeepsKeyField | src/selfoss_mupdate.c:217-231 | converting an item's fields never changes which field becomes its natural key |
| Fetch.VerdictOfSanitizer | src/selfoss_mupdate.c:245-255 | an item is skipped iff some Tidy call failed, and then its content is unchanged; it is ok or warned iff every call ran, warned iff serialization returned more than 1 |
| Fetch.ProcessItem | src/selfoss_mupdate.c:217-255 | the loop body stops the run iff a conversion fails or the cleaned title is NULL; otherwise the identity comes from the converted fields, the cleaned title is kept when at least 2 bytes and replaced by "[ NO TITLE ]" otherwise, the verdict is the classification of the sanitizer status, and a skipped item keeps its converted content |
| Fetch.RunItems | src/selfoss_mupdate.c:210-258 | items are handled in feed order, one report per item, up to the first item that ends the process |
| Fetch.ItemLoop | src/selfoss_mupdate.c:210-258 | report i is what the loop body makes of item i; a loop that returns 0 has reported every item; an early end happens at the first item whose body ends the process, with that item's cause |
| Fetch.FetchFeed | src/selfoss_mupdate.c:164-263 | returns 1 iff the converter cannot be opened, and 0 whenever it returns after an opened converter; a failed channel conversion ends the process with no reports; with conversion off only a NULL title can end the run early; report i is what the loop body makes of item i under the opened converter; a completed run reports every item; otherwise the run ends at the first item whose loop body ends the process, with that item's cause; every report has a title of at least 2 bytes and an identity of at most 255 bytes |
| Fetch.Utf8FeedRunsItemLoop | src/selfoss_mupdate.c:164-185 | when the declared encoding is UTF-8 in any case, or absent, nothing is converted and the fetch is the item loop over the items as parsed |

## Left out

- Feed download and parsing (mrss, curl, the `http://`/`https://` dispatch at src/selfoss_mupdate.c:151-162) are out of scope. The model starts from a parsed channel.
- The conversion done by `iconv` is out of scope, including the output buffer of twice the input length, the missing terminator when that buffer fills up, and the E2BIG diagnostic. A conversion is a function that yields a string or fails.
- The MD5 algorithm (bb_md5_sha.h declares it only) is out of scope. MD5 is a function returning 16 bytes.
- The Tidy library itself is out of scope. Each call is represented only by what it answers: a status for each setting, a status for parse, clean-and-repair and diagnostics as a function of the document source, a yes/no for force-output, and a status with the text for serialization. Tidy's real parse/repair/serialize work is not modelled.
- `sanitize_text_only` has no definition in the code, and `__nxml_trim` belongs to libnxml. Both are functions on nullable strings. The text-only tag scanner and the allowlist tree filter do not exist in the code and are not modelled.
- `node_walk` and `sanitize_drop` are stubs with no effect and nothing calls `node_walk`. The model has no member for them; SanitizeContent's content is Tidy's serialization, unfiltered.
- Timestamp handling (`time`, `gmtime_r`, `strptime`) is out of scope; it decides nothing.
- Debug and error logging is out of scope. This includes the `debug` calls in `sanitize_content` that take `strlen` of the content and, at src/sanitize.c:103, `strlen(outbuf.bp)`. The debug level defaults to 3 (src/selfoss_mupdate.c:32), so those calls run by default, and a serialization that leaves `outbuf.bp` NULL would crash there. The model reports such an item normally.
- `main`, `usage`, `version` and the global debug level are out of scope.
- database.c is not part of this model. The fetch loop never calls it, so the existence check and persisting have no code to model.
- Identity.SelfossGetId: hashes the corrected, terminated key of SimplepieGetId, not the key as written. So the identity chain (SelfossGetId, ProcessItem, FetchFeed) does not reproduce the stale-byte defect of Findings row 1: for a chosen field of 4095 bytes or more with a non-NUL `sp_buf[4095]`, the program hashes 4096 bytes and the model hashes the first 4095. SimplepieGetIdAsWritten and AsWrittenReadsStaleByte model the code as written.
- Fetch.ProcessItem: a NULL title reaching `strlen` is undefined behaviour in C. The model stops the run there (NullTitle) rather than predicting what the process does.
- Fetch.FetchFeed: does not model the return of 1 on a feed parse or download error, which happens before the modelled part.

## Findings

| source | as written | input that shows it | evidently intended | confidence | as-written member | corrected member |
|---|---|---|---|---|---|---|
| src/selfoss_mupdate.c:86-106 | `strncpy(buf, f, sz - 1)` never writes `buf[4095]`, and `strnlen(buf, sz)` reads it | a chosen field of 4095 bytes or more while the stack byte `sp_buf[4095]` is not NUL: the key becomes 4096 bytes ending in that stale byte, and that byte is hashed | the key is the first 4095 bytes of the field, with the buffer terminated | not executed; follows from the C semantics of `strncpy`/`strnlen` | Identity.AsWrittenReadsStaleByte | Identity.SimplepieGetId |
| src/selfoss_mupdate.c:117-128 | `char digest[16]` is passed to `%02x`; with signed `char` a byte of 0x80 or more prints as "ffffffXX" | any key over 255 bytes whose MD5 digest has a byte of 0x80 or more, on a platform with signed `char` | 32 lower-case hex digits, one pair per digest byte | not executed; holds on signed-char platforms | Identity.SignedCharWidens | Identity.UnsignedCharIdentity |
