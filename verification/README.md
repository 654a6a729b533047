# Kee: a verified model

Kee keeps a bilateral IOU ledger. One party (Alice) fixes a head: the unit of account and the two public keys. From then on
each item is a delta that one side signs and the other countersigns; both sides store it, and balances are folded from what
is stored. This project models that core and proves what it promises.

`dafny verify dfyconfig.toml` checks everything.

| file | models |
|---|---|
| `Bytes.dfy`, `Endian.dfy` | octets, byte order, the integer kernels of liblash (`endian.c`, `strip.c`) |
| `Der.dfy`, `Schema.dfy` | the DER subset of ITU-T X.690 the schema needs, and the three schema types |
| `Ledger.dfy` | heads and items as values, their wire forms, the item reader, the two routes to the signed bytes |
| `Operations.dfy` | each ledger operation as a function on ledger states; what verify accepts; the balance cache as a fold |
| `LedgerObject.dfy` | the ledger and item structs as classes, updated in place; every method is proved equal to its function |
| `Layout.dfy` | the octets of items, heads and bundles written out, and reading octets from any writer |
| `Protocol.dfy` | the two-party exchange, agreement over all runs with an arbitrary network, the life of one item |
| `Db.dfy`, `Store.dfy`, `HeadStore.dfy`, `Reload.dfy` | ordered store and cursor, put and scan, list of heads, store-then-reload |
| `Shelf.dfy` | several ledgers in one store: entries kept apart, heads listed by time |
| `Base64.dfy`, `Transport.dfy` | the write-then-freeze message, its text form and its reader |
| `Session.dfy` | the whole exchange on the ledger objects, each bundle carried by a transport message |
| `Beamenu.dfy`, `Nav.dfy` | menu table with its file format, and the navigation stack on top of it |
| `Raster.dfy` | the loop that expands QR modules to pixels |
| `Generator.dfy` | the ledger generator: credit draws, signed items, hash chain, and its output read by the C reader |

## How the outside world appears

* SHA-512, the EdDSA check and the bytes an item writes for its predecessor are the three functions of the value `Env`. The
  hash is never assumed injective: results say "equal, or these two strings collide". An honest key is a `Signer` whose
  signatures verify and are not all zero, or, in `Protocol.Agreement`, a key of which only signing calls issue signatures.
* All-zero signature bytes mean "not signed", as in the code.
* C `int` deltas and cache fields wrap at 32 bits (`Wrap32`), times are truncated to 32 bits when written (`U32`).
* Stack buffers that a short read leaves partly stale are explicit arguments (`Stack`, `junk`): results hold for all of them.
* The clock, random draws, compressor and byte 65 of the entry key (which no statement writes) are arguments as well.

## Where the code differs from what one would expect

* `kee_ledger_verify` checks the response signature first and then overwrites the result with that of the request signature
  (`src/ledger.c:1269-1273`). `BadResponseExample` is a ledger it accepts although the response signature does not verify.
  `EnforcedExactly` says for any item when acceptance does guarantee that signature: if and only if there is no request
  signature, or the next item would give a bad one away. `ResponseEnforced` is the case of the newest item, and of older
  ones whose response slot is not among the bytes the next item writes: there only the missing request signature helps.
  (For an older item initiated by BOB part of that slot is among them, so `EnforcedExactly` is what holds.)
* The request message built from the struct leaves the response flag out, the one built from the decoded tree keeps it.
  `RoutesAgree` states exactly when the two agree.
* A reader of a bundle has no predecessor item and writes zeros for `parent`. The exchange completes for any newest item.
  What Alice then holds passes `kee_ledger_verify` when the predecessor's bytes are zeros, as for a first item; if her
  signature is good for no digest but the one she signed, it passes only then, or two messages collide (`FullExchange`,
  `RebuiltVerifies`). `LaterItemExample` is an exchange between honest keys whose result is refused, `SignsOnlyCanBe` shows
  that the premise on the signature can be met for any digest.
* `README.md:209` of Kee wants `parent` to be the SHA-512 of the preceding item; `src/ledger.c:684-688` copies 64 bytes of
  the predecessor struct, which begin with the address of that struct's own predecessor. The model writes `parentRef`, an
  unspecified function of the predecessor's fields. That is a simplification: the real bytes also depend on an address, so
  they are not a function of those fields and differ between program starts. The generator does compute the digest, and the
  hash-chain theorem is about it.
* A failed item parse leaves a half-filled item linked while the cache is unchanged; the list equals the accepted items exactly
  when no parse failed (`ListIsAccepted`).
* `strap_be` fills four bytes whatever the output width is; `StrapBe` says what results and exactly when the value is kept.
* `strip_be` on an empty string steps in front of the buffer (`StripBe`, first clause).
* A head's digest covers the unit string up to its NUL only: `Canonical`.
* `db_next` appends a zero byte to the start key, so a start key that is stored is skipped: `StartKeySkipped`.
* A stored item whose response signature is not good is lost on reload and leaves a blank one in the list: `RecordLoads`.
* The put loop stops at the first item, going back, whose time repeats a newer one's, and the put still commits:
  `PutStoresNewest` says which items are stored.
* The entry key is 74 bytes, one byte of which is never set; reload is proved for any value of it, constant within one put.

## Model

| member | source | states |
|---|---|---|
| Bytes.BelowIsStrict | src/db.c:195-258 | the store's key order is a strict total order |
| Bytes.BelowIsTransitive | src/db.c:195-258 | ... and transitive |
| Endian.OrderIsNumeric | src/ledger.c:996-1009 | byte order on equal lengths is numeric order, and the number determines the string |
| Endian.KeyPartOrder | src/ledger.c:996-1033 | keys sort by (sec, nsec) of the written times, both directions; equal keys mean equal times |
| Endian.FlipEndian | src/aux/liblash/src/endian/endian.c:9-22 | the in-place loop reverses exactly its window and touches nothing else |
| Endian.ToEndian | src/aux/liblash/src/endian/endian.c:24-46 | swaps when host and wanted order differ; an unknown width fails only then |
| Endian.TimespecToKeypart | src/ledger.c:996-1009 | the key part is the same big-endian string on either kind of host |
| Endian.StripBe | src/aux/liblash/src/endian/strip.c:3-20 | keeps the unsigned value of every non-empty string, drops all leading zeros but keeps one byte; what an empty input yields |
| Endian.StrapBe | src/aux/liblash/src/endian/strip.c:22-50 | every output byte for every width, the fixed four-byte fill included, and the error cases; the signed value is kept if and only if the bytes between fill and copy already held the sign byte |
| Endian.SignExtension | src/aux/liblash/src/endian/strip.c:22-50 | padding keeps the two's complement value if and only if every pad byte is the sign byte |
| Endian.SignedInjective | src/aux/liblash/src/endian/strip.c:22-50 | strings of one length with one signed value are equal |
| Endian.MinimalKeepsValue | src/ledger.c:729-748 | dropping redundant leading octets keeps the signed value |
| Endian.IntRoundTrip | src/ledger.c:729-745 | every 32-bit signed delta survives big-endian, minimal form and reading back |
| Endian.IntOctetsOfIntOf | src/ledger.c:409-429 | minimal contents of at most four octets are what their value is written as |
| Endian.WordOfBE | src/ledger.c:446-451 | four octets are the word of their value |
| Endian.ReadInt | src/ledger.c:409-429 | strap, flip and host read yield the two's complement value of one to four octets |
| Der.LengthReads | src/asn1/schema_entry.txt:2-28 | every length up to INT_MAX reads back from its short or long form, leaving the rest |
| Der.ShortestForm | src/asn1/schema_entry.txt:2-28 | a length takes one octet if and only if below 128; otherwise the count, then octets of which the first is not zero, and no octet string with that value is shorter |
| Der.LengthWrites | src/asn1/schema_entry.txt:2-28 | what is accepted as a length is exactly what is written for it |
| Der.LongFormAccepted | src/asn1/schema_entry.txt:2-28 | a long form is accepted if and only if it has one to four octets, the first not zero, and a value from 128 to INT_MAX |
| Der.SequenceReads | src/asn1/schema_entry.txt:2-28 | decoding undoes encoding for any list of components |
| Der.SequenceWrites | src/asn1/schema_entry.txt:2-28 | encoding undoes decoding: no two octet strings decode alike |
| Der.PairReads | src/asn1/schema_entry.txt:27-27 | a SEQUENCE OF ANY with two elements reads back as those elements |
| Der.SequenceOfWrites | src/asn1/schema_entry.txt:27-27 | a SEQUENCE OF has no octets outside its elements |
| Schema.EntryReads | src/asn1/schema_entry.txt:14-26 | KeeEntry round trip, tree to octets to tree |
| Schema.EntryWrites | src/asn1/schema_entry.txt:14-26 | KeeEntry round trip, octets to tree to octets; decoded INTEGERs are minimal |
| Schema.EntryInjective | src/asn1/schema_entry.txt:14-26 | equal octets mean equal entries |
| Schema.HeadReads | src/asn1/schema_entry.txt:2-8 | KeeEntryHead round trip |
| Schema.HeadWrites | src/asn1/schema_entry.txt:2-8 | a decoded head encodes to the octets it came from |
| Schema.BundleReads | src/ledger.c:866-949 | a bundle of head and entry opens to exactly these |
| LedgerValues.HeadRoundTrip | src/ledger.c:527-660 | a head survives the wire up to what follows its unit's NUL, and its digest with it, over any stack contents |
| LedgerValues.HeadInjective | src/ledger.c:609-660 | heads with equal octets agree on everything the wire form keeps |
| LedgerValues.ItemFits | src/ledger.c:662-796 | every item at every stage takes at most 327 bytes, decodes, and decodes to the tree it was built from |
| LedgerValues.RoutesAgree | src/ledger.c:31-130 | the tree route rebuilds the struct route's response message always, its request message if and only if the response flag is unset |
| LedgerValues.MessageInjective | src/ledger.c:841-857 | equal signed strings mean equal head digests and equal entries |
| LedgerValues.MirrorSerializesAlike | src/ledger.c:662-796 | both sides' views of an item serialise to the same bytes at every stage; mirroring is an involution that keeps the state |
| LedgerValues.ItemRoundTrip | src/ledger.c:352-486 | for every item, stage, reader and stack junk: a FINAL item is taken if and only if its response signature verifies, others always; what arrives is the stage's projection of what was sent, and a refused item leaves a blank one |
| LedgerValues.WireKeeps | src/ledger.c:662-796 | the very same item arrives if and only if its initiator is known and kept, its times fit 32 bits and the other role's deltas are zero |
| LedgerValues.ItemInjective | src/ledger.c:662-796 | equal octets mean the same stage and the same received item |
| LedgerValues.StageIsState | src/ledger.c:1394-1418 | the state a reader sees is the stage the writer meant; without a request signature it is REQUEST |
| Layout.ItemLayout | src/ledger.c:662-796 | an item at any stage, tag by tag and octet by octet: parent, time, the initiator's deltas, content key, request signature, flag, response signature |
| Layout.HeadLayout | src/ledger.c:609-660 | a head octet by octet, its unit up to the NUL |
| Layout.BundleLayout | src/ledger.c:866-920 | a bundle is one SEQUENCE of the two |
| Layout.ReadAccepts | src/ledger.c:352-486 | any octets are accepted if and only if they decode, a response signature that is there is good, and no field is longer than its buffer |
| Layout.RefusedIsBlank | src/ledger.c:380-407 | octets that do not decode, or a bad response signature, leave an item of zeros that knows its initiator |
| Layout.ReadThenWrite | src/ledger.c:352-796 | accepted octets with full-size fields are exactly what the item they become is written as |
| Layout.ResponseCheckExactly | src/ledger.c:227-255 | the response check in full: nothing to check, or at most 1024 octets without the response signature, signed after the head digest |
| Layout.StaleTime | src/ledger.c:431-451 | without timestamp octets the time comes from the flag's text left in the buffer |
| Layout.HeadAccepts | src/ledger.c:527-596 | when a head is accepted, exactly; what each field then holds over the old one; a refusal leaves digest and content key alone |
| Layout.HeadRefused | src/ledger.c:527-596 | which fields a refused head may have changed, and to what |
| Layout.HeadReadThenWrite | src/ledger.c:527-660 | accepted octets with full-size fields are exactly what the head they become is written as |
| Layout.InitiatorIsLocal | src/ledger.c:1421-1435 | Alice if and only if the first key is the reader's; nobody if and only if it is not and the second is all zeros |
| Layout.OpenAccepts | src/ledger.c:922-994 | when a bundle is accepted, exactly, size limits included; a refused one leaves at most one item |
| Layout.OpenHeadOnly | src/ledger.c:922-980 | what a refused bundle leaves: a head alone is taken, nothing from an empty bundle or a head that is too long |
| Layout.StoredFlag | src/ledger.c:799-815 | a stored item ends in 1 when Bob is its initiator, in 0 otherwise |
| LedgerOperations.ParseItemReceives | src/ledger.c:352-486 | parsing a sent item appends its projection and moves the cache by it; what is not taken appends a blank item and leaves the cache |
| LedgerOperations.OpenReads | src/ledger.c:866-994 | opening a bundle is parsing its last item under its head, for every ledger, stage and receiver |
| LedgerOperations.VerifySound | src/ledger.c:1195-1298 | an accepted ledger has known initiators, countersigned older items, a good request signature wherever there is one, and a good response signature wherever there is no request signature |
| LedgerOperations.VerifyExactly | src/ledger.c:1195-1298 | and acceptance is exactly that, item by item |
| LedgerOperations.VerifyComplete | src/ledger.c:1244-1298 | a correctly signed ledger with countersigned older items passes |
| LedgerOperations.MessagesWithResponse | src/ledger.c:662-796 | changing a response signature changes a message if and only if it is the next item's and the predecessor bytes move |
| LedgerOperations.ResponseCheckOverwritten | src/ledger.c:1258-1273 | next to a request signature any non-zero response signature may be put without changing the verdict, for the newest item always, for an older one when the bytes the next item writes stay |
| LedgerOperations.OnlyNextNotices | src/ledger.c:1258-1273 | after such a change the ledger is accepted if and only if the next item does not fail, with no premise on the predecessor bytes |
| LedgerOperations.EnforcedExactly | src/ledger.c:1258-1273 | acceptance guarantees an item's response signature if and only if it has no request signature or nothing bad could stand there without the next item failing |
| LedgerOperations.ResponseEnforced | src/ledger.c:1258-1273 | for the newest item, and older ones whose slot the next item does not write: if and only if there is no request signature or the key takes anything |
| LedgerOperations.BadResponseAccepted | src/ledger.c:1244-1298 | every one-item ledger with a good request and a bad response signature is accepted |
| LedgerOperations.BadResponseExample | src/ledger.c:1244-1298 | one such ledger, spelled out |
| LedgerOperations.CacheStep | src/ledger.c:306-317 | adding one item with 32-bit wrap keeps the cache the wrapped sum |
| LedgerOperations.CacheIsFold | src/ledger.c:306-486 | after a reset and any sequence of successful and failed parses, cache and count are the sums over the accepted items |
| LedgerOperations.ListIsAccepted | src/ledger.c:327-486 | one linked item per attempt; the list is the accepted items if and only if no parse failed |
| LedgerOperations.BalancesExact | src/ledger.c:306-317 | no balance wraps while count times the largest delta stays in 32 bits |
| LedgerObject.ReadValue | src/ledger.c:431-444 | a value too long for the buffer is an error and writes nothing, a short one keeps the buffer's tail |
| LedgerObject.ItemNode.FillDeltas | src/ledger.c:409-429 | the delta fields, and what is left when a delta is too long |
| LedgerObject.ItemNode.FillTimeAndBody | src/ledger.c:431-463 | flag, time and content key through the shared stack buffer, stale bytes included |
| LedgerObject.ItemNode.FillSignatures | src/ledger.c:465-481 | request and response signature go into the slots the initiator decides |
| LedgerObject.ItemNode.Read | src/ledger.c:352-486 | the in-place reader equals `ReadItem`, on success and on each failure |
| LedgerObject.FlipTime | src/ledger.c:446-451 | the two in-place flips and host reads yield the big-endian words |
| LedgerObject.Ledger.constructor | src/ledger.c:505-514 | an empty ledger |
| LedgerObject.Ledger.ResetCache | src/ledger.c:319-325 | only the cache changes, to zeros |
| LedgerObject.Ledger.AddItem | src/ledger.c:327-336 | a fresh blank item becomes the newest of the list, the others stay |
| LedgerObject.Ledger.Link | src/ledger.c:380-407 | the item is in the list even when its bytes do not parse |
| LedgerObject.Ledger.ApplyCache | src/ledger.c:306-317 | the cache after one item, untouched when there is none |
| LedgerObject.Ledger.ParseItem | src/ledger.c:352-486 | list and cache after a parse are those of the function, and the item is returned if and only if it was accepted |
| LedgerObject.Ledger.ParseItemDb | src/ledger.c:338-350 | the last stored byte decides the initiator, the rest is parsed |
| LedgerObject.Ledger.SerializeOpen | src/ledger.c:866-920 | the bundle of head and newest item is that of the function |
| LedgerObject.Ledger.Parse | src/ledger.c:527-596 | head fields and digest after each outcome, the partial ones included |
| LedgerObject.Ledger.ParseOpen | src/ledger.c:922-994 | result and whole ledger state, whatever the struct held before |
| LedgerObject.Ledger.Sign | src/ledger.c:817-864 | an occupied slot is refused and nothing changes; otherwise only this item's alice slot changes |
| LedgerObject.Ledger.GetItemByIdx | src/ledger.c:1035-1048 | index 0 is the newest, null past the end |
| LedgerObject.Ledger.CheckItem | src/ledger.c:1195-1287 | one turn of the verify loop accepts if and only if the item passes |
| LedgerObject.Ledger.Verify | src/ledger.c:1195-1298 | terminates on every list; accepts if and only if every item passes, and then all older items are countersigned; the index is count - 1 or that of the first failing item from the newest |
| Protocol.RequestArrives | src/ledger.c:817-994 | Alice's signed bundle opens at Bob's to the item in RESPONSE state, filed under BOB |
| Protocol.AnswerIsMirror | src/ledger.c:817-864 | Bob's signed answer is the mirror image of the agreed item |
| Protocol.FinalArrives | src/ledger.c:866-994 | Bob's FINAL bundle opens at Alice's to the mirror of his item |
| Protocol.FullExchange | src/ledger.c:817-1298 | for every ledger with an unsigned newest item and two honest keys the exchange completes: accepted, FINAL, Alice's terms and flag kept, Bob's copy the mirror of hers; it verifies when the parent is zero and, if her signature is good for no other digest, only then or with a collision |
| Protocol.RebuiltVerifies | src/ledger.c:684-688 | the request message a reader rebuilds is the signed one if and only if the predecessor's bytes are zeros; the signature is good for it then, and only then or with a collision if it is good for no other digest |
| Protocol.SignsOnlyCanBe | src/ledger.c:684-688 | for any digest there are an environment and an honest key whose signature of it is good for no other |
| Protocol.LaterItemFails | src/ledger.c:684-688 | with a non-zero parent and messages that hash apart the completed exchange is refused by verify |
| Protocol.LaterItemExample | src/ledger.c:684-688 | one such exchange between honest keys, spelled out |
| Protocol.BundleFits | src/chunk.h:6-8 | every bundle, with its command byte, stays within the 766 bytes a message can carry |
| Protocol.RefusedSignsNothing | src/ledger.c:832-834 | a refused signing call issues no signature |
| Protocol.Unforgeable | src/ledger.c:817-864 | in every reachable world each signature of an honest key stems from a signing call |
| Protocol.AgreeOnEvent | src/ledger.c:227-255 | equal digests mean the signing call had this head and this entry, or a collision is exhibited |
| Protocol.Agreement | src/ledger.c:227-255 | over all runs with any network: an accepted bundle with a response signature under an honest responder key was signed by that key for exactly this head and entry, in the responder's role if and only if it carries a request signature; or two colliding strings are exhibited |
| Protocol.SignedBundleIsAccepted | src/ledger.c:227-255 | the other direction: after any run, once an honest responder signed its copy of an item, the bundle with that signature is accepted and holds the item |
| Protocol.VerifiedRequestWasSigned | src/ledger.c:1222-1298 | a request signature that verify let pass was issued for this head and item, or a collision is exhibited |
| Protocol.OneAct | src/ledger.c:817-864 | one act in protocol order keeps every signature valid, never lowers the state, and signing an occupied slot changes nothing |
| Protocol.SignaturesSurvive | src/ledger.c:756-863 | the same over every sequence of acts in protocol order |
| Protocol.LateFlag | src/ledger.c:756-770 | setting the flag late keeps the response message if and only if it was set; the request message never depends on it |
| Db.InsertKeeps | src/db.c:55-74 | an added record is there, no other appears or goes, and the order is kept |
| Db.BelowSuccessor | src/db.c:228-237 | no key lies between a key and the same key with a zero byte after it |
| Db.SeekFindsRun | src/db.c:195-258 | seek and walk find exactly the records with the prefix at or above the seek key, in order |
| Db.StartKeySkipped | src/db.c:228-237 | a scan from a key finds everything at or above it if and only if the key itself is not stored; the start key is never delivered |
| Db.WithoutStart | src/db.c:228-236 | a scan without a start key finds every record with the prefix |
| Db.OneCall | src/db.c:195-258 | one call delivers the next matching record or reports the end |
| Db.CallsReturnMatching | src/db.c:195-258 | from a rewound context call number n returns the n-th matching record, once each, then stops |
| Db.EndOfScan | src/db.c:195-258 | a mismatch ends the scan so that the next call starts a new one, running off the end does not |
| Db.DbCtx.Start | src/db.c:40-53 | a transaction starts from what is committed |
| Db.DbCtx.Add | src/db.c:55-74 | adds in order if and only if the key is new; never overwrites |
| Db.DbCtx.Finish | src/db.c:76-86 | what the transaction holds becomes committed |
| Db.DbCtx.Rewind | src/db.c:262-268 | an open transaction is dropped and the next call starts a new scan |
| Db.DbCtx.Next | src/db.c:195-258 | the in-place cursor makes exactly the step of the function |
| Store.Put | src/ledger.c:1143-1192 | fails without a trace if and only if the head or reverse key is taken; otherwise commits head, reverse record and items |
| Store.PutLoop | src/ledger.c:1179-1184 | items newest first until one cannot be added |
| Store.PutItem | src/ledger.c:1050-1094 | one item's record under its key, or no change |
| Store.BufferCompare | src/gtk/kee-entry-item-store.c:108-118 | the 65-byte compare of the reused key buffer is a prefix test, stale bytes notwithstanding |
| Store.NextInWalk | src/gtk/kee-entry-item-store.c:108-118 | call n gets the n-th entry of this ledger or something that ends the scan |
| Store.EntryItemStore.NextEntry | src/gtk/kee-entry-item-store.c:108-118 | the same for the shared cursor and key buffer |
| Store.EntryItemStore.Scan | src/gtk/kee-entry-item-store.c:89-129 | exactly this ledger's stored entries are parsed, in key order; the count is of accepted ones; the context is rewound |
| Reload.InsertFirstMatch | src/ledger.c:1050-1094 | storing an older item puts it in front of the newer ones in a scan |
| Reload.PutStores | src/ledger.c:1143-1192 | after a put the ledger's entries are its items oldest first, everything stored before is still there, and the reverse record leads to the head |
| Reload.TakenByNewer | src/ledger.c:1050-1094 | when the newest items are stored the next key is taken if and only if a newer item has the same time |
| Reload.PutStoresNewest | src/ledger.c:1143-1192 | for any times, a put under a fresh digest stores exactly the newest items back to the first repeated time: all if and only if no time repeats |
| Reload.RecordLoads | src/gtk/kee-entry-item-store.c:108-125 | a stored item is accepted if and only if its response signature is good; otherwise it is lost and a blank one is linked |
| Reload.RecordsLoad | src/gtk/kee-entry-item-store.c:108-125 | the records of any put ledger: one item each in order, count and balances over the countersigned ones |
| Reload.PutIsFilled | src/ledger.c:1050-1094 | every entry a put stores has a value a scan can read |
| Reload.StoreThenReload | src/ledger.c:1012-1192 | put then scan rebuilds one item per stored one in order, with count and balances of the countersigned ones; it counts all if and only if all are countersigned, and is then the original list if and only if every item has a known initiator, 32-bit times and no deltas of the other role |
| Reload.PutThenScan | src/ledger.c:1143-1192 | the same for the two methods on the real objects |
| Shelf.KeyLayout | src/ledger.c:1012-1072 | the three kinds of key octet by octet |
| Shelf.EntryKeyNamesLedger | src/ledger.c:1050-1072 | an entry key starts with a ledger's prefix and digest if and only if it is that ledger's |
| Shelf.OtherLedgerUntouched | src/gtk/kee-entry-item-store.c:89-129 | a put neither shows up in nor disturbs the scan of any other ledger, whatever the store holds |
| Shelf.HeadKeyOrder | src/ledger.c:1012-1033 | head keys sort as (seconds, nanoseconds), both directions |
| Shelf.HeadIsListed | src/gtk/kee-entry-store.c:93-120 | every stored record with the head prefix and eight bytes of time is among the heads if and only if its time is not zero |
| Shelf.HeadsAfterPut | src/ledger.c:1143-1192 | after a put later than all before, the list of heads is the old one with the new head at its end |
| Shelf.PutThenSeek | src/gtk/kee-entry-store.c:93-120 | on the objects: the seek for the next index finds the ledger just stored, and its record reads back to its head |
| HeadStore.EntryStore.Seek | src/gtk/kee-entry-store.c:93-120 | from any cursor state the record found is the idx-th of those ahead; past the end the result is how many there were and the context is rewound |
| HeadStore.HeadCall | src/db.c:195-258 | one call delivers the first record ahead of any cursor, or fails if there is none |
| HeadStore.AheadOfHead | src/gtk/kee-entry-store.c:93-120 | a cursor left on head p has exactly the later heads ahead, so a seek to idx lands on head p + 1 + idx |
| Base64.DecodeOfEncode | src/transport.c:40-102 | decoding undoes encoding, line breaks, padding and trailing non-alphabet bytes notwithstanding |
| Base64.AlphabetIsTable1 | src/transport.c:40-62 | the letters of RFC 4648, both ways |
| Base64.OthersAreSkipped | src/transport.c:90-102 | only those letters carry bits; the pad is the equals sign and carries none |
| Base64.GroupIs24Bits | src/transport.c:40-62 | three octets and four sextets are the same 24 bits |
| Base64.LastGroupPadded | src/transport.c:40-62 | the last group is filled with zero bits and padded to four |
| Base64.FullLine | src/transport.c:40-62 | 54 octets make a line of 72 letters, and the next line starts over |
| Base64.EncodedLength | src/transport.c:40-62 | the exact length of a text, line breaks included |
| Transport.UnpackOfPack | src/transport.c:104-152 | unpacking undoes packing |
| Transport.TextFits | src/transport.c:104-172 | a frame's text fits the reader's chunk if and only if the frame compresses to at most 567 bytes |
| Transport.Message.Single | src/transport.c:155-172 | fresh state, command byte and zeroed buffer, or a refused command |
| Transport.Message.SetResponse | src/transport.c:189-193 | sets one bit of the command before freezing, nothing after |
| Transport.Message.Write | src/transport.c:195-202 | appends before the first next; afterwards fails and changes nothing |
| Transport.Message.Next | src/transport.c:206-244 | freezes the contents and delivers the same output each time; fails from 767 bytes on, or in text mode when the compressed form does not fit |
| Transport.Message.Read | src/transport.c:247-277 | an import takes command and payload from the unpacked window, any other command is left alone |
| Transport.Exchange | src/transport.c:155-277 | command, response flag and payload written on one side are the ones read on the other, for all that fit |
| Session.ExchangeOverFrames | src/gtk/kee-entry.c:103-138 | the exchange message by message on the objects settles as FullExchange says, for every ledger and item whose two bundles compress to at most 567 bytes |
| Beamenu.TableRoundTrip | src/aux/beamenu/import.c:7-50 | reading the width-1 export gives back every index, name and exit |
| Beamenu.ExitBytesValue | src/aux/beamenu/export.c:12-40 | an exit keeps its value up to 1, 2 or 4 octets, least significant first |
| Beamenu.NameRefused | src/aux/beamenu/import.c:22-36 | a name is refused if and only if none of its first 33 octets is NUL |
| Beamenu.Menu.Register | src/aux/beamenu/beamenu.c:11-29 | one node is replaced, its exits cleared |
| Beamenu.Menu.UseExit | src/aux/beamenu/beamenu.c:49-67 | inactive exits are refused, root leads to node 0, anything else is jumped to |
| Beamenu.Menu.ExportExits | src/aux/beamenu/export.c:12-40 | exits as little-endian numbers of width 1, 2 or 4 |
| Beamenu.Menu.Export | src/aux/beamenu/export.c:42-71 | the whole table in file form, or nothing for other widths |
| Beamenu.Menu.LoadName | src/aux/beamenu/import.c:22-36 | a name up to its NUL within 33 bytes, or failure |
| Beamenu.Menu.LoadFile | src/aux/beamenu/import.c:7-50 | succeeds if and only if the file holds a whole table; what every node holds afterwards, also when it stops on the way |
| Beamenu.ReloadedIsTable | src/aux/beamenu/import.c:7-50 | a successful load leaves exactly the table in its window, and any load nothing new outside it |
| Beamenu.BrokenOffNode | src/aux/beamenu/import.c:38-47 | a node whose exits break off keeps its name, the exits there were and zeros, and nothing after it is read |
| Beamenu.Menu.CopyTo | src/aux/beamenu/export.c:42-71 | export and load restore every node into a table with any previous contents |
| Nav.SetKeepsInv | src/gtk/nav.c:30-43 | setting a page keeps the navigation invariant |
| Nav.BackKeepsInv | src/gtk/nav.c:53-91 | back pops exactly one page and shows the one below, or changes nothing; the bottom page stays |
| Nav.RunsKeepInv | src/gtk/nav.c:30-91 | over every run: ids distinct, widgets filled exactly for stacked ids, current node is the top, bottom never popped, the 8-slot stack never overflows |
| Nav.AllRunsKeepInv | src/gtk/nav.c:15-91 | the same from the start of the program, for every menu with plain back exits |
| Nav.Pigeonhole | src/gtk/nav.h:12-20 | distinct ids below n are at most n |
| Nav.BackUndoesSet | src/gtk/nav.c:30-91 | forced back undoes a fresh set; plain back does if and only if the page has a back exit |
| Nav.SetPlaces | src/gtk/nav.c:30-43 | a set of a free id puts the given widget in its slot, the id on top and in the register, and moves nothing else |
| Nav.SetRefused | src/gtk/nav.c:30-43 | a set of a filled slot changes nothing |
| Nav.RunsShowGiven | src/gtk/nav.c:30-91 | over every run each stacked page keeps the widget of its last set that was not refused |
| Nav.BackShowsGiven | src/gtk/nav.c:53-91 | from the start of the program, what a popping back returns is the widget last given to the page below |
| Nav.BackElsewhere | src/gtk/nav.c:53-91 | a back exit to another node moves the register there, keeps the stack and shows that node's widget if it has one |
| Nav.PlainExitsByCode | src/gtk/nav.c:53-91 | exits 0xfe and 0xff pop a page, 0x00 only when forced |
| Nav.NavStatics.Set | src/gtk/nav.c:30-43 | the arrays and the register change as the function says; a filled slot is refused |
| Nav.NavStatics.Unset | src/gtk/nav.c:45-51 | one slot is cleared, failure when it was empty |
| Nav.NavStatics.Back | src/gtk/nav.c:53-91 | arrays, cursor, register and returned widget are those of the function |
| Raster.WriteColumn | src/gtk/kee-transport.c:135-143 | one byte column of a module: eight rows, nothing else |
| Raster.PaintModule | src/gtk/kee-transport.c:123-145 | a finished module extends the painted part and keeps the rest |
| Raster.NextRow | src/gtk/kee-transport.c:126-129 | the spilled eighth row is what the next module row overwrites |
| Raster.ImageLargeEnough | src/gtk/kee-transport.h:10-13 | all writes, the last row's spill included, fit the image buffer for every width up to the cap |
| Raster.HandleQr | src/gtk/kee-transport.c:123-145 | byte (y, x) has the colour of module (y / 7, x / 21); nothing beyond the last spill is written |
| Raster.ShownColor | src/gtk/kee-transport.c:123-145 | a shown byte is 0x00 for a dark module and 0xff for a light one, by plain index arithmetic |
| Generator.LedgerGenerator.Delta | testdata_asn1.py:311-386 | new fields and result of every branch, errors included |
| Generator.LedgerGenerator.DrawDelta | testdata_asn1.py:350-386 | the second half: what is drawn from whom, errors included |
| Generator.LaterDelta | testdata_asn1.py:311-386 | after the grants, for every way of calling: who gives, the drawn amounts, and books that move by exactly what is emitted |
| Generator.GrantDelta | testdata_asn1.py:311-341 | the first two deltas grant a party's whole credit and collateral, and no balance moves |
| Generator.RefusedDelta | testdata_asn1.py:337-371 | a later delta is refused if and only if both are broke, or Bob is named and broke |
| Generator.EmptyRangeDelta | testdata_asn1.py:350-365 | the other failure: an empty random range, exactly when, and that credit already drawn stays spent |
| Generator.DeltaKeepsBalance | testdata_asn1.py:311-386 | one default delta keeps the books balanced and, after the two grants, lowers total credit by at least one; it stops if and only if nothing is left, and never on an empty range |
| Generator.GeneratorConserves | testdata_asn1.py:302-386 | over every run each party's deltas sum to its remaining credit, no balance is negative, and the number of items is bounded |
| Generator.GenerateLedger | testdata_asn1.py:556-582 | the loop emits exactly the items of the generator's run, chained by digest |
| Generator.GeneratedIsLinked | testdata_asn1.py:448-582 | every parent is the digest of the predecessor's bytes with flag, the first is zero |
| Generator.SameTipSameChain | testdata_asn1.py:556-582 | chains with one tip digest are equal item by item, or a collision or a zero digest is exhibited |
| Generator.GeneratedItemParses | src/ledger.c:352-486 | the C reader accepts every generated item and files its deltas under the right role |
| Generator.GeneratedIsStored | testdata_asn1.py:480-514 | generated bytes are, flag included, what the C code stores for the item they parse to, when the predecessor's bytes are the parent |
| Generator.GeneratedLedgerBalances | testdata_asn1.py:556-582 | loaded into a C ledger, every item of every generated ledger is accepted and the cache shows the generator's remaining credit and collateral, unwrapped |
| Generator.FormPasses | src/ledger.c:1258-1287 | a generated item passes verify when the C code writes the parent the generator wrote; if the initiator's signature is good for nothing else only then or with a collision |
| Generator.GeneratedLedgerVerifies | src/ledger.c:1244-1298 | a generated ledger, loaded under its head, is accepted by verify when every parent agrees; if the signatures are good for nothing else, if and only if every parent agrees or its two messages collide |

## Left out

- Reload.StoreThenReload: is about strictly increasing times (what is stored otherwise is `PutStoresNewest`) and a digest that is not stored yet; the duplicate check of `kee_ledger_put` (`src/ledger.c:1121-1141`) reads freed stack memory and skips exact keys, and is not part of this model.
- Transport.Message.Read: text mode only; in raw mode the code never sets the output length.
- Store.EntryItemStore.Scan: starts from a rewound context, and the stored values it meets are not empty, as `PutIsFilled` shows for what a put stores.
- Beamenu.Menu.LoadName: a name of exactly 32 bytes passes the code's length check but is one byte too long for its buffer; the round trip is for names of at most 31.
- libtasn1 beyond X.690 DER: its tolerance of BER forms, of trailing octets and of high tag numbers inside a bundle.
- LMDB, zlib, libgcrypt and libcmime themselves: a sorted map, an invertible compressor, an abstract hash and signature check, RFC 4648.
- LMDB's limits on keys and values, failures of transactions and cursors to open, allocation failures, and value buffers shorter than a stored value.
- Stored values that are empty: the code reads the byte before them.
- Big-endian hosts in the item reader, where the code copies four bytes to the front of a wider time field.
- UTF-8 well-formedness of the unit of account, which the code does not check either.
- The image size the QR loop reports counts 21W rows although 7W are drawn; the model keeps the number.
- Sharing of the cache pointer by copies of a ledger struct, and freeing.
- Content and name resolution, key files, settings, logging, error tables, hex and case helpers: easy or I/O.
- GTK widgets, actions and signals, camera and scanner, including the confirm handler that overwrites a public key.
- `src/aux/beamenu/gen.c`, the menu compiler, and `testdata.py`, which `testdata_asn1.py` replaces.
- The serialised head and record writing of `testdata_asn1.py`; its DER encoder is taken to be the same DER.
