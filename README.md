# Pile editor session, in Dafny

This project models the editing session of the Pile MDX editor
(`src/components/PileEditor.tsx`). The session holds four things: the
front-matter fields (one text value per schema key), the body text, the
edit/preview mode and the "uploading" flag. The model covers:

- how the field set is built when the editor mounts, and rebuilt when the
  schema's keys change;
- editing one field and editing the body;
- toggling the mode;
- saving, which hands the serialised document to `onSave`;
- the upload flow, which raises the flag, awaits the uploader, splices a
  Markdown image reference onto the body and lowers the flag;
- the URL that the default uploader derives from a file name.

Modules, leaf first:

- `Wrappers`: the `Option` type.
- `JsText`: the JavaScript string behaviour the editor relies on.
  - `IsSpace` is the ECMAScript WhiteSpace and LineTerminator set. This set
    is the regular-expression class `\s`, and it is also what `trimEnd`
    strips.
  - `TrimEnd`, `Lower` (`toLowerCase`) and `HyphenateSpaces`
    (`replace(/\s+/g, '-')`).
- `UriEncoding`: `encodeURIComponent`. Unreserved characters pass through.
  Every other character becomes the upper-case `%XX` escapes of its UTF-8
  bytes.
- `FrontMatter`: the field set.
  - `Resynced` is the reference meaning of a resync.
  - `InitialFields` and `ResyncFields` are the two `reduce` loops, proved
    against that meaning.
  - `WithField` is the object-spread update.
  - The resync as the source writes it is modelled separately (see
    Findings). The editor class uses the corrected `ResyncFields`, so the
    session differs from the code when a key new to the schema is named
    like an `Object.prototype` member.
- `Upload`: the default uploader, the choice between the injected and the
  default uploader, and the body splice.
- `Editor`: the mode, and the class `PileEditor`. Its fields are the
  session state. Its methods are the event handlers, and each handler
  changes only the fields its `modifies` clause names. The upload handler
  is split in two at its `await`:
  - `BeginUpload` takes the selected files and the uploader in force when
    the handler runs (`upload ?? defaultUpload` is read afresh on every
    call), and returns the pending upload, if there is a file.
  - `CompleteUpload` takes how the upload settled.
  - Any other handler may run between the two. That is why the splice uses
    the body as it is at completion.
  - `HandleFileChange` runs both halves back to back.

Things supplied from outside:

- The MDX serialiser is a constant `serializeMdx: MdxDocument -> string`
  given to the constructor. The model leaves it uninterpreted.
- Whether an `upload` prop is present is an `Uploader` value passed to
  `BeginUpload`, so a prop that changes between uploads is followed. An
  injected uploader is represented only by how its promise settled
  (`Settlement`), passed to `CompleteUpload`. The default uploader always
  resolves to `DefaultUpload(name)`.
- Event objects are reduced to the values the handlers read from them.

Two points where the model follows the code closely:

- The field-edit handler does not check its key. Editing a key the schema
  does not declare adds that key, and there is no "invalid field key"
  error. `ChangeField` keeps the field-set invariant whenever the key is a
  schema key, and the editor only ever passes schema keys
  (`src/components/PileEditor.tsx:128-136`).
- The editor never calls the MDX parser (`src/lib/mdxParse.ts`), so the
  parser is not modelled.

On mount, React also runs the resync effect once. After construction that
run changes nothing (`FrontMatter.ResyncMatchingIsIdentity`).

Two client methods in `Editor` run worked scenarios against the class and
assert the state after each step. `FieldsSession` edits a field, changes
the schema and toggles the mode twice. `UploadSession` types a body, starts
an upload, saves while the upload is still in flight (the saved document
has the body without the reference), completes the upload, and then
selects no file.

## Model

| member | source | states |
|---|---|---|
| `JsText.IsSpace` | src/components/PileEditor.tsx:19 | the white-space set shared by `\s` here and by `trimEnd` on line 84: exactly the ECMAScript WhiteSpace and LineTerminator characters (tab, line feed, vertical tab, form feed, carriage return, space, no-break space, U+1680, U+2000-U+200A, U+2028, U+2029, U+202F, U+205F, U+3000, U+FEFF) |
| `JsText.TrimEnd` | src/components/PileEditor.tsx:84 | the result is a prefix of the body, the part removed is all white space, and the result does not end in white space |
| `JsText.TrimEndUnique` | src/components/PileEditor.tsx:84 | splitting a text into a clean prefix and a white-space tail determines the trim: trimming `p + w` gives `p` |
| `JsText.TrimEndEmptyIff` | src/components/PileEditor.tsx:84-85 | the trimmed body is empty exactly when the body is empty or all white space |
| `JsText.TrimEndIdempotent` | src/components/PileEditor.tsx:84 | trimming twice is trimming once |
| `JsText.LowerChar` | src/components/PileEditor.tsx:19 | the capital with index `k` in `A`-`Z` becomes the letter with index `k` in `a`-`z`; the result is never an ASCII capital; it changes exactly when it was one; it is white space exactly when the original was |
| `JsText.Lower` | src/components/PileEditor.tsx:19 | lower-casing keeps the length, position `i` holds the lower-case form of the input's character `i`, and a character changes exactly when it is an ASCII capital |
| `JsText.LowerKeepsSpaces` | src/components/PileEditor.tsx:19 | lower-casing neither creates nor removes white space at any position, and leaves no ASCII capital |
| `JsText.LeadingSpaces` | src/components/PileEditor.tsx:19 | the length of the leading white-space run: every character before it is white space and the one at it is not |
| `JsText.DropLeadingSpaces` | src/components/PileEditor.tsx:19 | what follows a white-space run does not start with white space |
| `JsText.HyphenateSpaces` | src/components/PileEditor.tsx:19 | after replacing white-space runs with hyphens no white space is left, and the text is no longer |
| `JsText.HyphenateNoSpace` | src/components/PileEditor.tsx:19 | a text without white space is unchanged by the replacement |
| `JsText.HyphenateRun` | src/components/PileEditor.tsx:19 | a whole white-space run, however long, becomes a single hyphen |
| `JsText.HyphenateAppend` | src/components/PileEditor.tsx:19 | the replacement of `a + b` is the replacement of `a` followed by that of `b` when `a` does not end in white space |
| `JsText.HyphenateOneGap` | src/components/PileEditor.tsx:19 | two space-free words around one space come out joined by one hyphen |
| `UriEncoding.IsUnreserved` | src/components/PileEditor.tsx:19 | the characters `encodeURIComponent` leaves as they are: ASCII letters and digits and `- _ . ! ~ * ' ( )` |
| `UriEncoding.Utf8` | src/components/PileEditor.tsx:19 | a character's UTF-8 form is 1 to 4 bytes, a single byte exactly for ASCII, and continuation bytes lie in 0x80-0xBF |
| `UriEncoding.Utf8RoundTrip` | src/components/PileEditor.tsx:19 | decoding a character's UTF-8 bytes gives back its code point, so the escapes determine the character |
| `UriEncoding.HexDigit` | src/components/PileEditor.tsx:19 | the digit for value `v` is character `v` of `0123456789ABCDEF` (upper case, as in `%C3`); it is an unreserved character, never `%` |
| `UriEncoding.HexValue` | src/components/PileEditor.tsx:19 | a hexadecimal digit reads as a value below 16, and anything else as -1 |
| `UriEncoding.HexDigitRoundTrip` | src/components/PileEditor.tsx:19 | the digit written for a value below 16 reads back as that value |
| `UriEncoding.PercentEscapes` | src/components/PileEditor.tsx:19 | each byte becomes three characters, starting with `%`, all URI-safe |
| `UriEncoding.PercentEscapesAt` | src/components/PileEditor.tsx:19 | the escape of byte `i` starts at position `3 * i` with `%`, and its two digits read back as that byte |
| `UriEncoding.EncodeChar` | src/components/PileEditor.tsx:19 | a character is kept exactly when it is unreserved; otherwise it becomes 3 to 12 characters of escapes starting with `%` |
| `UriEncoding.EncodeUriComponent` | src/components/PileEditor.tsx:19 | the encoded name holds only unreserved characters and `%`, and is no shorter than the input |
| `UriEncoding.EncodeUnreservedIdentity` | src/components/PileEditor.tsx:19 | a name made only of unreserved characters is its own encoding |
| `UriEncoding.EncodeAppend` | src/components/PileEditor.tsx:19 | encoding distributes over concatenation |
| `UriEncoding.EncodedIsOneSegment` | src/components/PileEditor.tsx:19-20 | the encoded name holds no white space and none of `/ ? # & =`, so it stays one path segment of the URL |
| `UriEncoding.EncodeExamples` | src/components/PileEditor.tsx:19 | a space encodes as `%20`, and `é` as `%C3%A9` |
| `Upload.SafeNameText` | src/components/PileEditor.tsx:19 | the lower-cased, hyphenated name holds no white space and is no longer than the file name |
| `Upload.DefaultUpload` | src/components/PileEditor.tsx:18-21 | the URL is `https://files.example.com/` followed by the URI-safe encoding of the sanitised file name |
| `Upload.DefaultUploadUnescaped` | src/components/PileEditor.tsx:19-20 | when the sanitised name is all unreserved, the URL is the host followed by that name verbatim |
| `Upload.DefaultUploadVerbatim` | src/components/PileEditor.tsx:18-21 | a file name that is already lower-case and unreserved is used as it is |
| `Upload.LowerExample` | src/components/PileEditor.tsx:19 | "Summer Trip.JPG" lower-cases to "summer trip.jpg" |
| `Upload.SafeNameExample` | src/components/PileEditor.tsx:19 | "Summer Trip.JPG" is sanitised to "summer-trip.jpg" |
| `Upload.DefaultUploadExample` | src/components/PileEditor.tsx:18-21 | "Summer Trip.JPG" uploads by default to `https://files.example.com/summer-trip.jpg` |
| `Upload.Settle` | src/components/PileEditor.tsx:79-82 | with no injected uploader the upload always resolves to `defaultUpload`'s URL; an injected one settles as its promise does |
| `Upload.ImageReference` | src/components/PileEditor.tsx:86 | the inserted reference is six characters longer than the file name and URL together |
| `Upload.ImageReferenceFields` | src/components/PileEditor.tsx:86 | the reference reads back as `![`, the file name, `](`, the URL, then `)` and a newline |
| `Upload.Spliced` | src/components/PileEditor.tsx:83-87 | the new body starts with the trimmed old body and ends with a newline |
| `Upload.SplicedAfterText` | src/components/PileEditor.tsx:84-86 | a body with text becomes its trimmed text, a blank line, then `![name](url)` and a newline |
| `Upload.SplicedOntoBlank` | src/components/PileEditor.tsx:84-86 | an empty or all-white-space body becomes the reference alone, with no separator |
| `Upload.SplicedTwice` | src/components/PileEditor.tsx:83-87 | a second upload keeps the first reference and adds the second after a blank line: each upload inserts exactly once, append-only |
| `Upload.SplicedAfterCleanText` | src/components/PileEditor.tsx:84-86 | a body that does not end in white space is kept whole, followed by a blank line and the reference |
| `Upload.SplicedExampleText` | src/components/PileEditor.tsx:83-87 | "Hello" becomes "Hello\n\n![My Pic.png](https://x/y.png)\n" |
| `Upload.SplicedExampleEmpty` | src/components/PileEditor.tsx:83-87 | "" becomes "![My Pic.png](https://x/y.png)\n" |
| `FrontMatter.Resynced` | src/components/PileEditor.tsx:36-43 | the reference meaning of a resync: the key set is exactly the schema keys, and a key already present keeps its value |
| `FrontMatter.InitialFields` | src/components/PileEditor.tsx:25-30 | after construction the key set is exactly the schema keys and every value is "" |
| `FrontMatter.ResyncFields` | src/components/PileEditor.tsx:36-43 | the new key set is exactly the new schema keys; a key already present keeps its value, a new key gets "", and dropped keys are gone |
| `FrontMatter.ResyncIdempotent` | src/components/PileEditor.tsx:36-43 | resyncing twice with the same keys equals resyncing once |
| `FrontMatter.ResyncOrderIrrelevant` | src/components/PileEditor.tsx:36-43 | two schema key sequences with the same keys give the same key set and the same values |
| `FrontMatter.ResyncMatchingIsIdentity` | src/components/PileEditor.tsx:36-43 | a resync whose keys are already the field set's keys changes nothing (so the effect's run on mount is a no-op) |
| `FrontMatter.ResyncGrowPreserves` | src/components/PileEditor.tsx:36-43 | growing the schema keeps every existing value and gives each added key "" |
| `FrontMatter.WithField` | src/components/PileEditor.tsx:47-50 | the edited key holds the new value, every other key keeps its value, and the key set gains only the edited key |
| `FrontMatter.WithFieldKeepsKeys` | src/components/PileEditor.tsx:45-51 | editing a key already in the field set leaves the key set unchanged |
| `FrontMatter.EditSurvivesResync` | src/components/PileEditor.tsx:36-51 | an edit survives any later resync whose keys still contain the edited key |
| `FrontMatter.PropertyRead` | src/components/PileEditor.tsx:39 | reading `current[key]` on a plain object: an own key gives its string; a missing key gives `undefined` unless Object.prototype has a method of that name |
| `FrontMatter.ResyncAsWritten` | src/components/PileEditor.tsx:36-43 | the resync as written has exactly the new keys as its domain |
| `FrontMatter.ResyncAsWrittenAgrees` | src/components/PileEditor.tsx:36-43 | when no new key is named like an Object.prototype method, the code as written equals the intended resync |
| `FrontMatter.ResyncAsWrittenReadsPrototype` | src/components/PileEditor.tsx:39 | adding the schema key "toString" gives that field the inherited function, where "" is intended |
| `Editor.Toggled` | src/components/PileEditor.tsx:65 | toggling always changes the mode, so edit goes to preview and preview to edit |
| `Editor.ToggledTwice` | src/components/PileEditor.tsx:64-66 | toggling twice restores the mode |
| `Editor.PileEditor.constructor` | src/components/PileEditor.tsx:23-33 | on mount the field set has exactly the schema keys, all "", the body is empty, the mode is edit, no upload is running, and the serialiser is the one given |
| `Editor.PileEditor.UpdateSchema` | src/components/PileEditor.tsx:36-43 | a schema change resyncs the fields and keeps the field-set invariant; body, mode and flag are untouched; the resync is the corrected one with the own-key test, so a new key named like an Object.prototype member gets "" here where line 39 as written gives it the inherited function (see Findings) |
| `Editor.PileEditor.ChangeField` | src/components/PileEditor.tsx:45-51 | the fields become the object-spread update; the invariant holds for schema keys; nothing else changes |
| `Editor.PileEditor.ChangeBody` | src/components/PileEditor.tsx:53-55 | the body becomes the typed text; nothing else changes |
| `Editor.PileEditor.Submit` | src/components/PileEditor.tsx:57-62 | the single value handed to `onSave` is the serialiser applied to `{data: frontMatter, content: body}`, and no session state changes |
| `Editor.PileEditor.ToggleMode` | src/components/PileEditor.tsx:64-66 | the mode flips; body and fields are untouched |
| `Editor.PileEditor.BeginUpload` | src/components/PileEditor.tsx:72-79 | with no file selected nothing changes; otherwise the flag is raised, the first file is the one uploaded, and the uploader is the one in force at that call |
| `Editor.PileEditor.CompleteUpload` | src/components/PileEditor.tsx:81-94 | the pending upload's uploader settles; on success the body becomes the splice of the body as it is at completion; on failure the body is unchanged; in both cases the flag ends lowered |
| `Editor.PileEditor.HandleFileChange` | src/components/PileEditor.tsx:72-95 | the whole handler, with the uploader in force at the call: with no file nothing changes; otherwise the splice happens on success only and the flag ends lowered |

## Left out

- MDX serialisation. The serialiser that `src/lib/mdxSerialize.ts` wraps is a library whose source is not part of this model, so `serializeMdx` is uninterpreted and no round-trip property is stated. Parsing (`src/lib/mdxParse.ts`) is not called by the editor and is not modelled.
- Rendering: the JSX layout, the Markdown preview and its "No content yet" placeholder for a blank body (line 155), the `fileInputRef.click()` plumbing (lines 68-70), the reset of the file input (line 92) and the disabled state of the upload button (line 116). These are all user-interface concerns.
- Logging through `console.log` and `console.error`. It has no effect on the state.
- The page in `src/pages/index.tsx`. Its uploader reads the clock; in this model an injected uploader is only the settlement passed to `CompleteUpload`.
- React's scheduling. Each handler is one atomic method call. An upload's two halves are separate calls, and anything may run between them, but real asynchronous interleaving and update batching are not modelled.
- JsText.Lower: lower-cases ASCII `A`-`Z` only. `toLowerCase` maps every Unicode upper-case letter, and some letters to more than one character; a fixed ASCII mapping keeps the model exact for that alphabet.
- Strings are sequences of Unicode scalar values rather than UTF-16 code units. A lone surrogate, the only input on which `encodeURIComponent` throws, cannot occur, so that error path is not modelled.
- Schema field types. Only `text` exists, so the schema is given as its key sequence (`Object.keys(schema)`).
- The order of the front-matter fields. A JavaScript object keeps its keys in an order (integer-like keys first, in ascending order, then the rest in insertion order), and `serializeMdx` sees the fields in that order. The model's field set is a map, which has no order, so it says nothing about the order of the fields in the saved document.
- The special `__proto__` property name. Assigning to it on a plain object does not create a key; the model treats it like any other key.

## Findings

| source | as written | input that shows it | evidently intended | confidence | as-written member | corrected member |
|---|---|---|---|---|---|---|
| src/components/PileEditor.tsx:39 | `current[key] ?? ''` reads through the prototype chain, so a key new to the schema that is named like an Object.prototype method gets the inherited function, which is not nullish | schema keys change from `["title"]` to `["title", "toString"]`: the new field `toString` holds `Object.prototype.toString` instead of "" | each key new to the schema gets "" (an own-property test such as `Object.hasOwn(current, key) ? current[key] : ''`) | medium; not executed | `FrontMatter.ResyncAsWrittenReadsPrototype` | `FrontMatter.ResyncFields` |
