# RuneLite cache server and client text logic, modelled in Dafny

This project models three pieces of RuneLite.

**The cache server's archive request handler.** A request names an index and an archive. Index 255 is the control channel:
- archive 255 on it returns the bulk metadata, which is each index's crc and revision as big-endian ints, in the store's list order;
- any other archive id `n` on it returns index `n`'s encoded index data.

Both control payloads are compressed with type NONE. Any other index selects an index of the store and then an archive within it. If that archive has a cached frame, the handler serves it verbatim. Otherwise it compresses the archive's contents under the archive's declared compression. A cached frame is a type byte, a big-endian size `C`, `C` payload bytes, and a 4-byte trailer when the type is not NONE.

**The client's item manager.**
- A price cache keyed by item id, with two sentinels: EMPTY means not yet looked up, NONE means the item has no price. The asynchronous `get` and the synchronous `getItemPrice` both read it.
- The stack-size label formatter (`M`, `K` or plain).
- The pixel pass that makes an item sprite's background transparent.

**The rune pouch overlay.** The `formatNumber` label and the loop over the pouch's three slots. That loop draws each occupied slot's amount label and builds the tooltip.

Files:
- `Primitives.dfy`: Java `byte` and `int`, `Option`/`Result`, and the big-endian int encoding (`ByteBuf.writeInt`, `Ints.fromBytes`) with its round trip.
- `NumberText.dfy`: Java's decimal rendering of an int, a decimal reader that undoes it, and the abbreviated labels shared by the two formatters. `ReadsAs(label, q)` says that the label's number, counted in its unit, is `q` truncated to that unit.
- `ArchiveRequestHandler.dfy`: the store, index and archive datatypes. It has the dispatcher as functions, the bulk-metadata loop as a method filling an array, the frame layout and its parser.
- `ItemManager.dfy`: the price cache as a class with a `map` field, the stack-size formatter, and the pixel loop over an array.
- `RunepouchOverlay.dfy`: `formatNumber`, the slot tables, and the render loop as a method. It is proved against a filter-then-concatenate definition of the tooltip.

The handler's `assert`s on a missing index or archive become explicit `IndexNotFound` and `ArchiveNotFound` errors. Java fails on these cases whether assertions are enabled or not: an `AssertionError` in one case, a `NullPointerException` in the other. The check on a cached frame's length depends on whether assertions are enabled, so the handler takes an `assertionsEnabled` flag:
- enabled: a frame whose length disagrees with its header, as the Java check computes it with a signed size, is the error `FrameLengthMismatch`;
- disabled: it is served as is.

A cached frame shorter than five bytes is the error `TruncatedFrame` in both modes, because Java reads bytes 0 to 4 unconditionally. The bulk metadata follows the store's list order, as the handler iterates it; the model does not re-sort it by id.

## Model

| member | source | states |
|---|---|---|
| `ArchiveRequestHandler.ChannelRead` | cache/src/main/java/net/runelite/cache/server/ArchiveRequestHandler.java:56-68 | a successful response echoes the request's index and archive; a control request can only fail with IndexNotFound or a codec failure; ArchiveNotFound occurs only off the control channel; IndexNotFound occurs exactly when the looked-up index (the archive id on the control channel, except 255, else the index) is absent |
| `ArchiveRequestHandler.HandleRequest255` | cache/src/main/java/net/runelite/cache/server/ArchiveRequestHandler.java:70-105 | the response echoes index and archive; it fails only with IndexNotFound or CompressionFailed; IndexNotFound exactly when archive is not 255 and no index has that id |
| `ArchiveRequestHandler.HandleRequest` | cache/src/main/java/net/runelite/cache/server/ArchiveRequestHandler.java:107-144 | the response echoes index and archive; IndexNotFound exactly when the store has no index with that id |
| `ArchiveRequestHandler.FindIndex` | cache/src/main/java/net/runelite/cache/server/ArchiveRequestHandler.java:111-112 | the index found is in the store and has the requested id; nothing is found exactly when no index has that id |
| `ArchiveRequestHandler.GetArchive` | cache/src/main/java/net/runelite/cache/server/ArchiveRequestHandler.java:114-115 | the archive found is in the index and has the requested id; nothing is found exactly when no archive has that id |
| `ArchiveRequestHandler.FirstWithKey` | cache/src/main/java/net/runelite/cache/server/ArchiveRequestHandler.java:111-115 | the element found is in the list, has the requested key, and no element before it has that key; nothing is found exactly when no element has that key |
| `ArchiveRequestHandler.PackedBytes` | cache/src/main/java/net/runelite/cache/server/ArchiveRequestHandler.java:117-136 | a cached frame shorter than 5 bytes is TruncatedFrame; any other cached frame is served unchanged, always when assertions are disabled, and with assertions enabled exactly when its length matches its header as the check is written (signed size); without a cached frame, missing contents is ContentUnavailable and the only other failure is a codec failure |
| `ArchiveRequestHandler.BuildIndexMetadata` | cache/src/main/java/net/runelite/cache/server/ArchiveRequestHandler.java:80-87 | the buffer filled by the loop is exactly the bulk metadata of the store's indexes |
| `ArchiveRequestHandler.IndexMetadata` | cache/src/main/java/net/runelite/cache/server/ArchiveRequestHandler.java:80-85 | the bulk metadata holds 8 bytes per index; its records decode as IndexMetadataDecodes states |
| `ArchiveRequestHandler.PutInt` | cache/src/main/java/net/runelite/cache/server/ArchiveRequestHandler.java:83-84 | writing an int puts its four big-endian bytes at the writer position and changes no other byte |
| `ArchiveRequestHandler.IndexMetadataDecodes` | cache/src/main/java/net/runelite/cache/server/ArchiveRequestHandler.java:77-85 | the k-th 8-byte record of the bulk metadata reads back as the k-th index's crc, then its revision |
| `ArchiveRequestHandler.BulkMetadataResponse` | cache/src/main/java/net/runelite/cache/server/ArchiveRequestHandler.java:75-88 | request (255, 255) answers with the NONE-compression of a blob of 8 bytes per index, which decodes to each index's crc and revision in list order; a codec failure is CompressionFailed |
| `ArchiveRequestHandler.IndexDataResponse` | cache/src/main/java/net/runelite/cache/server/ArchiveRequestHandler.java:89-97 | request (255, n) with n not 255 answers with the NONE-compression of index n's encoded index data, or IndexNotFound when there is no index n |
| `ArchiveRequestHandler.MissingIndexIsError` | cache/src/main/java/net/runelite/cache/server/ArchiveRequestHandler.java:111-112 | a normal request for an index id that no index has is IndexNotFound |
| `ArchiveRequestHandler.MissingArchiveIsError` | cache/src/main/java/net/runelite/cache/server/ArchiveRequestHandler.java:114-115 | in a store with unique ids, a normal request for an archive that the requested index lacks is ArchiveNotFound |
| `ArchiveRequestHandler.ArchiveResponsePayload` | cache/src/main/java/net/runelite/cache/server/ArchiveRequestHandler.java:117-143 | a cached frame under 5 bytes is TruncatedFrame; a longer one is the response payload byte for byte when assertions are disabled or it passes the length check as written, and FrameLengthMismatch otherwise; without a cached frame, the payload is the codec output for the archive's compression and contents, or the matching error |
| `ArchiveRequestHandler.ServedCachedFrameLayout` | cache/src/main/java/net/runelite/cache/server/ArchiveRequestHandler.java:120-130 | with assertions enabled, a cached frame that is served either parses and is exactly type byte, size, payload and trailer as the frame layout builds them, or is a 5-to-8-byte frame whose size field is negative |
| `ArchiveRequestHandler.FrameRoundTrip` | cache/src/main/java/net/runelite/cache/server/ArchiveRequestHandler.java:126-129 | every frame built from a type, a payload and a trailer of the right length passes the length check and parses back into those parts |
| `ArchiveRequestHandler.WellFormedFrameIsFramed` | cache/src/main/java/net/runelite/cache/server/ArchiveRequestHandler.java:122-130 | conversely, every frame passing the (corrected) length check is the frame built from its parsed parts |
| `ArchiveRequestHandler.NegativeSizeFramePasses` | cache/src/main/java/net/runelite/cache/server/ArchiveRequestHandler.java:123-130 | the check as written accepts an 8-byte frame of type 1 whose size field reads -1 |
| `ArchiveRequestHandler.NegativeSizeFrameServed` | cache/src/main/java/net/runelite/cache/server/ArchiveRequestHandler.java:117-143 | with assertions enabled, a store whose archive caches the frame `01 ff ff ff ff 00 00 00` answers a request for it with exactly those bytes, which no consumer can parse |
| `ArchiveRequestHandler.FrameLengthMatchesAsWritten` | cache/src/main/java/net/runelite/cache/server/ArchiveRequestHandler.java:126-130 | the length check as written, with the size read as a signed int; a frame that passes declares a negative size exactly when it is shorter than its header and trailer |
| `ArchiveRequestHandler.Compress` | cache/src/main/java/net/runelite/cache/server/ArchiveRequestHandler.java:146-149 | the response data is the codec output, and CompressionFailed exactly when the codec fails |
| `Primitives.IntFromBytes` | cache/src/main/java/net/runelite/cache/server/ArchiveRequestHandler.java:123-124 | four bytes read big-endian give a signed int, negative exactly when the first byte's top bit is set, whose 32 bits are the bytes in order |
| `Primitives.IntBytes` | cache/src/main/java/net/runelite/cache/server/ArchiveRequestHandler.java:83-84 | writeInt writes exactly four bytes, which read back as the int (IntRoundTrip) |
| `Primitives.IntRoundTrip` | cache/src/main/java/net/runelite/cache/server/ArchiveRequestHandler.java:83-84 | reading back the four bytes writeInt wrote gives the original int |
| `Primitives.IntBytesInjective` | cache/src/main/java/net/runelite/cache/server/ArchiveRequestHandler.java:83-84 | two ints written as the same four bytes are equal |
| `Primitives.IntBytesOfRead` | cache/src/main/java/net/runelite/cache/server/ArchiveRequestHandler.java:123-124 | writing back the int read from four bytes gives those four bytes |
| `ItemManager.ItemManager.constructor` | runelite-client/src/main/java/net/runelite/client/game/ItemManager.java:61-68 | a new manager has an empty price cache, no refresh requested, and the given price service |
| `ItemManager.ItemManager.Get` | runelite-client/src/main/java/net/runelite/client/game/ItemManager.java:89-99 | a present, non-EMPTY entry answers at once (no price for NONE, else the price) with no refresh; a missing or EMPTY entry answers "not loaded" and requests a refresh of that key only; the cache never changes |
| `ItemManager.ItemManager.GetItemPrice` | runelite-client/src/main/java/net/runelite/client/game/ItemManager.java:108-119 | a settled entry answers at once and the cache is unchanged; otherwise the looked-up price is stored under that key and returned; a null or failed lookup is an error and leaves the cache unchanged; no other key ever changes |
| `ItemManager.CachedAnswer` | runelite-client/src/main/java/net/runelite/client/game/ItemManager.java:92-95 | a settled entry answers "no price" exactly for NONE, and otherwise the price it holds |
| `ItemManager.StoredPriceSettles` | runelite-client/src/main/java/net/runelite/client/game/ItemManager.java:110-118 | once a price is stored, that entry is settled on that price, and whether any other entry is settled is unchanged |
| `ItemManager.QuantityToStackSize` | runelite-client/src/main/java/net/runelite/client/game/ItemManager.java:127-140 | the label counts in millions from 10,000,000 up, in thousands from 100,000 up, and in ones below |
| `ItemManager.StackSizeReadsAs` | runelite-client/src/main/java/net/runelite/client/game/ItemManager.java:127-140 | the stack-size label reads back as the quantity truncated to its unit |
| `ItemManager.OpaquePixel` | runelite-client/src/main/java/net/runelite/client/game/ItemManager.java:157-160 | a pixel becomes zero exactly when it was zero; a non-zero pixel gets alpha 0xff and keeps its colour bits |
| `ItemManager.TransparentPixels` | runelite-client/src/main/java/net/runelite/client/game/ItemManager.java:151-161 | a fresh array as long as the input, each element the input pixel made opaque, zero pixels left 0 |
| `NumberText.IntToStringRoundTrip` | runelite-client/src/main/java/net/runelite/client/game/ItemManager.java:139 | the decimal text Java prints for an int reads back as that int |
| `NumberText.IntToString` | runelite-client/src/main/java/net/runelite/client/game/ItemManager.java:139 | Java's decimal text of an int is non-empty, all digits after a leading minus for negatives, ends with a digit, and has no leading zero except for 0 itself |
| `NumberText.PlainReadsAs` | runelite-client/src/main/java/net/runelite/client/game/ItemManager.java:139 | a plain decimal label counts in ones and reads as the number itself |
| `NumberText.AbbreviateReadsAs` | runelite-client/src/main/java/net/runelite/client/game/ItemManager.java:131-136 | a non-negative amount divided by a unit and printed with that unit's suffix reads as the amount truncated to that unit |
| `NumberText.Abbreviate` | runelite-client/src/main/java/net/runelite/client/game/ItemManager.java:131-136 | the abbreviated label counts in the unit of its suffix |
| `RunepouchOverlay.FormatNumberReadsAs` | runelite-client/src/main/java/net/runelite/client/plugins/runepouch/RunepouchOverlay.java:158-161 | the label reads as the amount truncated to its unit |
| `RunepouchOverlay.FormatNumber` | runelite-client/src/main/java/net/runelite/client/plugins/runepouch/RunepouchOverlay.java:158-161 | the label counts in ones below 1000 and in thousands from 1000 up |
| `RunepouchOverlay.PouchSlots` | runelite-client/src/main/java/net/runelite/client/plugins/runepouch/RunepouchOverlay.java:53-60 | the amount and rune tables both have three entries, and slot i pairs the i-th amount setting with the i-th rune setting |
| `RunepouchOverlay.RenderSlots` | runelite-client/src/main/java/net/runelite/client/plugins/runepouch/RunepouchOverlay.java:103-147 | the tooltip is the lines of the occupied slots in slot order, whatever the icon setting; the labels are the occupied slots' formatted amounts; an icon is looked up for each occupied slot's rune, in slot order, only when icons are shown |
| `RunepouchOverlay.AmountLabels` | runelite-client/src/main/java/net/runelite/client/plugins/runepouch/RunepouchOverlay.java:121-127 | one label per slot, in order, with that slot's index and its formatted amount |
| `RunepouchOverlay.PouchStep` | runelite-client/src/main/java/net/runelite/client/plugins/runepouch/RunepouchOverlay.java:107-116 | the i-th step of the slot loop adds slot i, read from the i-th amount and rune settings, to the occupied slots exactly when its amount is positive |
| `RunepouchOverlay.RuneIds` | runelite-client/src/main/java/net/runelite/client/plugins/runepouch/RunepouchOverlay.java:140-146 | one rune id per slot, in order |
| `RunepouchOverlay.EmptySlotContributesNothing` | runelite-client/src/main/java/net/runelite/client/plugins/runepouch/RunepouchOverlay.java:112-116 | removing a slot whose amount is not positive leaves the tooltip unchanged |
| `RunepouchOverlay.OccupiedSlotContributesEntry` | runelite-client/src/main/java/net/runelite/client/plugins/runepouch/RunepouchOverlay.java:129-133 | an occupied slot contributes exactly its line (amount, " <col=ffff00>", rune name, "</col></br>"), after the lines of the slots before it and before those after it |
| `RunepouchOverlay.Entry` | runelite-client/src/main/java/net/runelite/client/plugins/runepouch/RunepouchOverlay.java:129-133 | the tooltip line of one slot: its full amount, " <col=ffff00>", the rune name, "</col></br>" |
| `RunepouchOverlay.EntryLayout` | runelite-client/src/main/java/net/runelite/client/plugins/runepouch/RunepouchOverlay.java:129-133 | a tooltip line opens with a number that reads back as the slot's full amount and ends with "</col></br>" |
| `RunepouchOverlay.Tooltip` | runelite-client/src/main/java/net/runelite/client/plugins/runepouch/RunepouchOverlay.java:107-153 | the tooltip text is the lines of the occupied slots in order; it is empty exactly when no slot is occupied |
| `RunepouchOverlay.EmptyPouchNoTooltip` | runelite-client/src/main/java/net/runelite/client/plugins/runepouch/RunepouchOverlay.java:107-116 | when no slot holds a positive amount the tooltip is empty |

## Findings

| source | as written | input that shows it | evidently intended | confidence | as-written member | corrected member |
|---|---|---|---|---|---|---|
| cache/src/main/java/net/runelite/cache/server/ArchiveRequestHandler.java:123-130 | the cached frame's size `C` is read with `Ints.fromBytes`, a signed int, and only the total length is compared | a frame of 8 bytes `01 ff ff ff ff 00 00 00`: `C` reads -1 and 1 + 4 + (-1) + 4 = 8 passes | `C` is a byte count, so a negative `C` should fail the check | medium, not executed | `ArchiveRequestHandler.NegativeSizeFrameServed` | `ArchiveRequestHandler.WellFormedFrameIsFramed` |

The handler (`PackedBytes`) keeps the check as written, so with assertions enabled it serves such a frame (`NegativeSizeFrameServed`, and `ServedCachedFrameLayout` bounds what else it can serve). `NegativeSizeFramePasses` shows the predicate itself accepting the frame. The corrected check `WellFormedFrame` is what the frame parser `ParseFrame` uses, and `FrameRoundTrip` and `WellFormedFrameIsFramed` are proved about it.

## Left out

- Netty plumbing (`ChannelHandlerContext`, `writeAndFlush`, `ByteBuf` allocation and growth) and the slf4j logging are I/O and are not modelled.
- `DataFile.compress`, `Archive.saveContents()` and `Index.toIndexData().writeIndexData()` are not part of this model. The codec and the index-data encoder are parameters (`Codec`), and the codec may fail. What `saveContents()` yields is the archive's `contents` field; `None` means it fails. No GZIP or BZIP2 semantics are assumed. As Dafny functions, the parameters give the same output for the same input within one evaluation.
- `Store.findIndex` and `Index.getArchive` are not part of this model. They are modelled as a search of the store's index list and of the index's archive list that returns the first match.
- The consistency of an index's crc with its encoded index data is not modelled, because the crc computation and the encoder are not part of this model.
- Index and archive ids are unbounded integers; the wire format's one-byte range is not enforced.
- `ArchiveRequestHandler.ChannelRead`: the Java `IOException` from compression and any other exception become error values. Nothing models a closed or reset exchange.
- Guava cache eviction (`maximumSize`) and expiry (`expireAfterAccess`) are left out. The `ItemPriceLoader` and the asynchronous load that `refresh` starts are not part of this model.
- `ItemManager.ItemManager.Get`: the refresh is recorded only as a request for that key. Its later effect on the cache is asynchronous and not modelled.
- `ItemManager.ItemManager.GetItemPrice`: a null lookup result is modelled as an error, because Guava's `Cache.put` rejects null values. `ItemClient.lookupItemPrice` is a network call, so it is the `lookupItemPrice` function field. `ItemPrice`'s fields are not used by the logic.
- `loadImage` around the pixel loop is not modelled: the sprite creation, `BufferedImage` and `setRGB`. The same goes for `getImage` and its image cache. Pixels are the 32 bits of each Java `int`, as `bv32`.
- In `render`, the following are left out: the early returns (plugin disabled, not logged in, login screen, no rune pouch, no canvas location), the fonts, colours and drawing offsets, the `RuneImageCache` images, and the mouse-hover test that decides whether the tooltip is shown. The rune-name lookup is a function parameter that always yields a string. The Java code would append "null" for a missing name.
- `runescape-client/src/main/java/class171.java` (health bars, head icons and hitsplats) is not part of this model. It is rendering driven by global client state.
