# flex-counter, modelled in Dafny

flex-counter is a Cloudflare worker that counts hits per request path. A
request to `/` gets a fixed HTML page. A GET, POST, PUT or PATCH to any
other path does four things:

- it reads the path's counter from a key-value namespace, where a missing
  or empty value counts as 0;
- it writes back one more;
- it answers with the new count as plain text, as JSON `{"count":n}` (with
  `type=json`), or as a PNG (with `type=image`);
- for the PNG, it places the digit glyphs from ten caller-supplied image
  URLs side by side.

Any other method gets no response.

This project models that handler as a pure state transition over the
store, and proves what the handler promises.

- `utf8.dfy` (module `Utf8`): the UTF-8 encoder the worker applies to the
  path, plus a strict decoder. Decoding undoes encoding in both directions,
  so the encoder is injective.
- `counter_key.dfy` (module `CounterKey`): the store key `"count-"` + the
  path's UTF-8 bytes, one character per byte with the byte's value as its
  code. The source calls this `convertToBase64`, but it is not base64. The
  key characters range over U+0000..U+00FF. The module proves that the key
  determines the path, so distinct paths never share a counter.
- `decimal.dfy` (module `Decimal`): the digits of a count, most significant
  first (`count.toString().split('')`). It also holds the text `String(n)`
  written to the store, and the reading of digit text back into a number
  (`Number(text)`), with round trips between them.
- `text_split.dfy` (module `TextSplit`): `split(";")` on the `images`
  parameter. `n` separators give `n + 1` pieces, and the empty string gives
  one piece. Splitting and joining are mutual inverses.
- `counter_image.dfy` (module `CounterImage`): the layout half of
  `generateCounterImage`. It fixes the canvas size from the glyph for 0 and
  draws glyph `d` at column `i` for the `i`-th digit `d`. The draws tile
  the canvas exactly.
- `worker.dfy` (module `Worker`): `handleRequest` as
  `Handle(store, request, measure) -> Step(store', response?)`, plus
  lemmas. One lemma shows that a counting request changes one entry by
  one. Another shows that all representations report the same count.
  Another shows that the N-th request for a path answers N.
- `wrappers.dfy` (module `Wrappers`): `Option`.

Values are modelled as follows:

- The store is `map<string, string>`, holding the text the worker writes.
- Requests arrive already parsed: method, path, and the query as an ordered
  list of name/value pairs. `QueryGet` returns the first match, like
  `URLSearchParams.get`.
- A glyph's pixel size is a parameter `measure: string -> Size` that maps an
  image URL to its size. Only the glyph at position 0 of the list is
  measured.
- A PNG body is modelled as the canvas with its list of draws.

## Model

| member | source | states |
|---|---|---|
| Utf8.DecodeEncode | src/index.ts:7 | decoding the UTF-8 form of any path gives back exactly that path |
| Utf8.EncodeDecode | src/index.ts:7 | every well-formed byte sequence is the UTF-8 form of what it decodes to, so the encoder and strict decoder are mutual inverses |
| Utf8.EncodeInjective | src/index.ts:7 | two paths with the same UTF-8 bytes are the same path |
| Utf8.DecodeFirstEncodeChar | src/index.ts:7 | each code point's 1 to 4 bytes decode back to that code point and are consumed exactly, whatever bytes follow |
| CounterKey.BinaryString | src/index.ts:8 | the key text has one character per byte, and each character's code equals its byte's value |
| CounterKey.BinaryStringBytes | src/index.ts:8 | bytes can be read back from a string exactly when every character is at most U+00FF; the string is then the binary string of those bytes |
| CounterKey.BinaryStringRoundTrip | src/index.ts:8 | reading a binary string back gives the bytes it was made from |
| CounterKey.PathKey | src/index.ts:6-10 | the path part of the key is at least as long as the path and at most four times as long, one character per UTF-8 byte, with code equal to that byte |
| CounterKey.StoreKey | src/index.ts:21-22 | every counter key is the namespace `count-` followed by exactly the path part |
| CounterKey.PathOfStoreKey | src/index.ts:6-10 | the path can be recovered from its store key |
| CounterKey.StoreKeyOfPathOf | src/index.ts:6-10 | a key from which a path can be recovered is exactly that path's store key, so keys and paths are in one-to-one correspondence |
| CounterKey.StoreKeyInjective | src/index.ts:21-23 | two paths share a store key if and only if they are the same path |
| CounterKey.PrefixPathsApart | src/index.ts:21-22 | `/a` and `/ab` get different counters |
| Decimal.Digits | src/index.ts:47 | the digit sequence of a count has no superfluous leading zero and recomposes to the count; 0 gives the single digit 0 |
| Decimal.DigitsUnique | src/index.ts:47 | every digit sequence without a superfluous leading zero that denotes `n` equals the digit sequence of `n` |
| Decimal.TextDigitsShow | src/index.ts:47 | mapping the characters of the count's decimal text to numbers gives the count's digits |
| Decimal.Show | src/index.ts:23 | the text written to the store has one ASCII digit per decimal digit of the count |
| Decimal.Parse | src/index.ts:22 | reading stored text succeeds exactly on non-empty strings of ASCII digits |
| Decimal.ParseShow | src/index.ts:22-23 | the text the worker writes reads back as the number it wrote |
| Decimal.ShowParse | src/index.ts:22-23 | a digit string without a superfluous leading zero is the written text of the number it reads as |
| TextSplit.Split | src/index.ts:29 | splitting gives one more piece than there are separators, and no piece contains a separator |
| TextSplit.JoinSplit | src/index.ts:29 | joining the pieces with `;` gives back the original parameter |
| TextSplit.SplitJoin | src/index.ts:29 | splitting a join of separator-free pieces gives back those pieces |
| CounterImage.Layout | src/index.ts:51-58 | the canvas draws exactly the given digits, left to right, and is as wide as that many glyphs and as high as one glyph |
| CounterImage.Render | src/index.ts:45-58 | the drawn glyphs are the count's digits and recompose to the count; the canvas is glyph-0 width times the digit count wide and glyph-0 height high; draw `i` takes the glyph for its digit from URL position `digit`, at x = i * width, y = 0, at glyph-0 size |
| CounterImage.StripOfColumn | src/index.ts:57 | column `x` lies in the `k`-th strip of width `w` exactly when `x / w == k` |
| CounterImage.RenderStrips | src/index.ts:49-58 | a rendered counter is a row of equal strips, one glyph wide and one glyph high, starting at x = 0 |
| CounterImage.StripsInBounds | src/index.ts:51-58 | every draw lies inside the canvas |
| CounterImage.StripsDisjoint | src/index.ts:56-58 | no two draws share a pixel |
| CounterImage.StripsCovered | src/index.ts:51-58 | every canvas pixel is drawn by some draw |
| CounterImage.RenderTiles | src/index.ts:49-58 | the draws of a rendered counter tile its canvas exactly: in bounds, pairwise disjoint, covering |
| CounterImage.SingleDigitIsOneGlyph | src/index.ts:47-52 | a count below 10 is drawn as its own glyph, alone, on a canvas one glyph wide |
| CounterImage.HundredFour | src/index.ts:47-58 | 104 is drawn as glyphs 1, 0, 4 on a canvas three glyphs wide |
| Worker.QueryGet | src/index.ts:24-29 | a parameter is absent exactly when no pair carries its name; otherwise the value returned belongs to the first pair carrying that name |
| Worker.StoredCount | src/index.ts:22 | a missing key or an empty value counts as 0; otherwise the count is the number the stored text reads as |
| Worker.Bump | src/index.ts:21-23 | read-increment-write: the counter under the key becomes one more than before and is stored as its decimal text; the key set gains at most that key; every other entry keeps its value; stored text stays readable |
| Worker.ImageUrls | src/index.ts:29 | an absent `images` parameter gives no URLs; otherwise the URLs are the `;`-free pieces of the parameter in order: joining them with `;` gives the parameter back, and there is one more URL than the parameter has `;` characters |
| Worker.Represent | src/index.ts:24-41 | `type=json` gives 200 `application/json` `{"count":n}`; with `type=image`, a URL list whose length is not 10 gives 400 "Invalid image count", and 10 URLs give 200 `image/png` whose canvas is the rendered counter for those URLs (so its size, positions, sources and glyphs are those `Render` states, and it tiles exactly); any other `type` gives 200 `text/plain` with the decimal text |
| Worker.Handle | src/index.ts:11-43 | for any method, `/` returns the fixed 200 `text/html` page and leaves the store unchanged; on any other path a counting method bumps that path's counter before choosing the representation of the new count; any other method returns no response and leaves the store unchanged; stored text stays readable |
| Worker.OtherPathsUntouched | src/index.ts:21-23 | a request leaves the counter of every other path unchanged |
| Worker.ReadJsonCountRoundTrip | src/index.ts:25 | the count in the JSON body reads back unchanged |
| Worker.RepresentationsAgree | src/index.ts:24-41 | every successful response reports the same count, whether it is JSON, plain text or image |
| Worker.BadGlyphCountStillCounts | src/index.ts:23-32 | an image request without exactly ten URLs gets 400 "Invalid image count", but its path's counter has still been incremented |
| Worker.Run | src/index.ts:64-71 | handling requests one after another keeps every stored value readable |
| Worker.RunCounts | src/index.ts:20-23 | with no interleaving, a path's counter grows by exactly the number of counting requests for that path |
| Worker.NthRequestAnswersN | src/index.ts:20-41 | the N-th counting request for a path with no counter yet is answered with the representation of N, whatever requests for other paths came between |

## Left out

- The key-value store is modelled as a map, read and written once per request. Its asynchrony, durability, eventual consistency and failures are not modelled. A failed `get` or `put` rejects and ends the request. The lost update between two concurrent requests for one path is also not modelled.
- Worker.Handle: requires that every stored value is empty or a string of ASCII digits. This is the only kind of text the worker writes, and `Handle` and `Run` prove that it stays so. Other text, which `Number` would read as NaN or in another notation (`"1e3"`, `" 7 "`), is not modelled.
- Decimal.Show: counts are unbounded naturals. JavaScript's double precision above 2^53 is not modelled. Nor is the exponent notation `toString` uses from 10^21 on.
- URL parsing is not modelled. `Request`/`Response` objects and all headers other than the content type are left out too. The path is taken as a string of Unicode scalar values. A lone UTF-16 surrogate, which the encoder would replace with U+FFFD, cannot occur in a parsed URL's path and is not representable here.
- CounterKey.PathKey: `String.fromCharCode(...bytes)` passes one argument per byte. A path with more bytes than the engine's argument limit would throw. The model has no such limit.
- Image loading (`loadImage`), canvas creation and drawing, PNG encoding and the `Blob` are foreign calls. Only the glyph size at URL position 0 enters the model, through `measure`. A failed image load rejects the request and is not modelled. A PNG response carries the canvas with its draws instead of image bytes.
- Handle returns no response for other methods, modelled as `None`. What the hosting runtime does with that missing response is not modelled.
- The `export default { fetch }` wrapper only forwards to `handleRequest`. Worker.Run stands for a sequence of such calls.
