# email-analyzer in Dafny

A Dafny model of the core of email-analyzer. The application pulls message metadata
from Gmail, stores one record per message in an IndexedDB table (through Dexie), and shows
statistics about who writes to whom: counts per recipient, domain, sender and subject,
ordered by frequency, plus the most frequent senders and the number of emails analysed.

The model covers three pieces.

1. **Header normalisation.** A Gmail message resource becomes a message record. There are
   four versions:
   - `ServiceMessage` for the service, `src/services/gmailService.js`;
   - `EmailParser` for the typed parser, `src/lib/emailParser.ts`;
   - `PocMessage` for the prototype, `src/poc/message.type.js`;
   - `PublicMessage` for the static page, `public/message.type.mjs`.

   `HeaderFields` holds the shared header-list object, and `Text` holds the string helpers
   (lowercasing, `lastIndexOf`, `substring`).
2. **Ingestion page step.** One call of `fetchMessages` decides whether to retry with a
   back-off, stop, or store a filtered batch and schedule the next page. `ServiceFetch`
   models the service version and `PocFetch` the prototype version; they share
   `PageFetch`. The Dexie table is a map from id to record (`MessageTable`), and
   `bulkPut` is an upsert.
3. **Hierarchical aggregation.** A scan of key triples is counted into nested buckets and
   each level is sorted by descending count.
   - `Tally` is the hash-style count, with buckets created on first sight. It is used by
     `MessageStore`, `Database`, `TreeView`, `EmailAnalyzer` and `Page`.
   - `PocMessages` is the ordered-scan count of `src/poc/messages.js`, which opens a
     bucket when that level's value differs from the previous key. `collateMessages`
     repeats this scan exactly.
   - `PocMessages` proves the scan equal to the hash count when the scan is in index order
     and every change at one level comes with changes at every deeper level. It also
     proves what goes wrong otherwise.
   - `CountOrder`, `SortedTree` and `Database.SortedArrayMap` model the sorted container.
     `Contacts` models the top-five senders, and `JsObject` models plain objects used as
     dictionaries.

JavaScript values are modelled as follows:
- `undefined`/`null` is `None` of an `Option`.
- A thrown `TypeError` is a `None` result or a `Threw` outcome.
- A plain object is an insertion-ordered key sequence with a map (`JsObject.Obj`).
- `Array.prototype.sort` with a count comparator is a stable insertion sort by descending
  count (`CountOrder.SortDesc`).
- A Dexie index scan is a given sequence of keys; `KeyOrder.Sorted` states when it is in
  index order.

## Model

| member | source | states |
|---|---|---|
| ServiceMessage.TrailingBracket | src/services/gmailService.js:155-156 | `/.*\<(.*)\>$/` matches exactly when the string ends in `>` with a `<` before it; the capture is the `<`-free text between the last such `<` and the final `>` |
| ServiceMessage.ExtractInternetAddress | src/services/gmailService.js:153-158 | '' for a falsy address; otherwise a non-empty lowercase string, whose value is pinned by ServiceMessage.ExtractDisplayForm, ServiceMessage.ExtractBare and ServiceMessage.ExtractUncaptured |
| ServiceMessage.ExtractUncaptured | src/services/gmailService.js:155-157 | a non-empty input without a non-empty bracket capture (no final `>`, no `<` before it, or an empty `<>`) is the whole input lowercased |
| ServiceMessage.ExtractEmptyBrackets | src/services/gmailService.js:156 | an address ending in `<>` is only lowercased |
| ServiceMessage.ExtractDisplayForm | src/services/gmailService.js:155-157 | `Name <addr>` with a non-empty `<`-free `addr` yields `addr` lowercased, whatever the name holds |
| ServiceMessage.ExtractBare | src/services/gmailService.js:155-157 | an address not ending in `>` is only lowercased |
| ServiceMessage.ExtractIdempotent | src/services/gmailService.js:153-158 | extracting from an extracted address gives the same address |
| ServiceMessage.ParseDomain | src/services/gmailService.js:168-178 | undefined exactly for an empty input, an input without `@`, or one ending in `@`; otherwise the non-empty `@`-free suffix after the last `@` |
| ServiceMessage.ParseDomainJoin | src/services/gmailService.js:171-173 | `user@domain` yields `domain` for any non-empty `@`-free domain |
| ServiceMessage.MessageOf | src/services/gmailService.js:243-258 | the `Message` constructor's result: none exactly without a header list; the id is kept and `from` and `to` are lowercase; its fields are specified by ServiceMessage.MessageFields |
| ServiceMessage.NewMessage | src/services/gmailService.js:243-258 | the constructor throws exactly when the payload has no header list; otherwise it builds the record |
| ServiceMessage.MessageFields | src/services/gmailService.js:248-257 | `from` is the lowercase extracted From, `domain` is parsed from it, `to` is the extracted Delivered-To when truthy and the extracted To otherwise, and `subject` is the raw Subject |
| ServiceMessage.NoHeaders | src/services/gmailService.Message.test.js:57-64 | with no headers: `from` and `to` are '' and `domain` and `subject` are undefined |
| ServiceMessage.NullFrom | src/services/gmailService.Message.test.js:66-74 | a null From value gives `from` '' and no domain |
| ServiceMessage.ConstructsFromTestHeaders | src/services/gmailService.Message.test.js:18-27 | the test's headers give `sender@example.com`, `example.com`, `deliveredto@example.com` and the subject |
| HeaderFields.FieldsKeys | src/services/gmailService.js:202-207 | a key is present exactly when some header with a truthy name lowercases to it |
| HeaderFields.FieldsKeysLower | src/poc/message.type.js:21-26 | every key is lowercase |
| HeaderFields.FieldsLast | public/message.type.mjs:9-14 | a key holds the value of the last header named so |
| HeaderFields.FieldsIgnoreNameless | src/services/gmailService.js:203-206 | a header with a falsy name changes nothing |
| HeaderFields.LaterHeaderWins | src/poc/message.type.js:22-25 | of two headers with the same name, the later value wins |
| HeaderFields.HeaderSet.constructor | src/services/gmailService.js:202-207 | the `forEach` loop leaves exactly the fields of the header list |
| EmailParser.FirstBracket | src/lib/emailParser.ts:10 | `/<([^>]+)>/` fails exactly when no `<…>` with non-empty `>`-free content occurs; the capture is non-empty and `>`-free |
| EmailParser.FirstBracketLeftmost | src/lib/emailParser.ts:10-12 | the capture is the content of a match that has no match starting to its left |
| EmailParser.ExtractInternetAddress | src/lib/emailParser.ts:8-15 | '' for undefined or ''; otherwise the lowercased capture when there is a match, else the whole input lowercased |
| EmailParser.ExtractDisplayForm | src/lib/emailParser.ts:10-12 | `Name <addr>` with no `<` in the name and a non-empty `>`-free `addr` yields `addr` lowercased |
| EmailParser.ExtractAgreesOnDisplayForm | src/lib/emailParser.ts:8-15 | on `Name <addr>` the typed parser and the service extract the same address |
| EmailParser.ParseDomain | src/lib/emailParser.ts:21-29 | '' for an empty input or one without `@`; otherwise the `@`-free suffix after the last `@`, which is '' exactly when `@` is last |
| EmailParser.ParseDomainAgrees | src/lib/emailParser.ts:21-29 | equals the service's `parseDomain` with undefined read as '' |
| EmailParser.GetHeaderValue | src/lib/emailParser.ts:34-37 | undefined exactly when no name matches case-insensitively; otherwise the value of the first matching header |
| EmailParser.FirstHeaderWins | src/lib/emailParser.ts:35 | a matching header in front wins over any later one |
| EmailParser.ParseGmailMessageAsWritten | src/lib/emailParser.ts:43-45 | a null message throws (its `id` is read in the warning); any other message is parsed as intended |
| EmailParser.ParseGmailMessage | src/lib/emailParser.ts:42-89 | never throws, apart from the date conversion, which is not modelled; null for a missing message or header list; a record carries the computed fields with non-empty `from` and `domain` |
| EmailParser.NullMessageThrows | src/lib/emailParser.ts:43-45 | as written, `parseGmailMessage(null)` throws; as intended it returns null |
| EmailParser.ParsedRecord | src/lib/emailParser.ts:76-88 | every record has a lowercase `from` equal to `local@domain` with an `@`-free non-empty domain, and non-empty `to` and `subject` |
| EmailParser.SkippedExactly | src/lib/emailParser.ts:43-79 | null exactly for a missing message or header list, an empty sender address or an empty domain |
| EmailParser.RecipientChoice | src/lib/emailParser.ts:55-86 | `to` is the extracted Delivered-To if non-empty, else the extracted To if non-empty, else `unknown@recipient.com` |
| EmailParser.SubjectChoice | src/lib/emailParser.ts:69 | `subject` is the header value, or `(No Subject)` when it is missing or empty |
| PocMessage.AddressPart | src/poc/message.type.js:3-4 | the trailing bracket's non-empty capture, or the whole string |
| PocMessage.ServiceExtractIsLowerAddressPart | src/services/gmailService.js:155-157 | the service's extraction of a non-empty address is the address part lowercased |
| PocMessage.ExtractInternetAddress | src/poc/message.type.js:1-6 | throws exactly for an undefined address; otherwise the service's extraction |
| PocMessage.ParseDomain | src/poc/message.type.js:7-13 | the `@`-free suffix after the last `@`, or the whole address when it has no `@` |
| PocMessage.ParseDomainVersusService | src/poc/message.type.js:7-13 | agrees with the service's domain when that is defined, and otherwise is '' or the whole address |
| PocMessage.MessageOf | src/poc/message.type.js:29-44 | the constructor throws exactly when the header list is missing, the From is missing, or To is missing while Delivered-To is falsy |
| PocMessage.AgreesWithService | src/poc/message.type.js:35-43 | when it succeeds it agrees with the service record, except that an undefined service domain is '' or the whole address here |
| PocMessage.RecipientAndSubject | src/poc/message.type.js:38-43 | `to` prefers a truthy Delivered-To over To, and `subject` is passed through unchanged |
| PublicMessage.ParseDomain | public/message.type.mjs:30-37 | undefined exactly for a missing From; otherwise the `@`-free suffix after the last `@` of the address part, in its original case |
| PublicMessage.MessageOf | public/message.type.mjs:18-28 | throws exactly when the header list is missing; `from`, `to` and `subject` are the raw header values and `domain` is parsed from `from` |
| PublicMessage.MissingFromTolerated | public/message.type.mjs:31-37 | a missing From does not throw; the domain is undefined |
| PublicMessage.DeliveredToIgnored | public/message.type.mjs:26 | adding a Delivered-To header changes nothing |
| PublicMessage.DomainLowered | public/message.type.mjs:32-34 | lowercasing this domain gives the prototype's domain of the extracted address |
| PublicMessage.DomainIsPocDomainBeforeLowercasing | public/message.type.mjs:23-25 | whenever the prototype constructor succeeds, this one does too, with the same domain up to case |
| Text.Lower | src/services/gmailService.js:157 | `toLowerCase` on `A`-`Z`: same length, each character lowercased; idempotent by Text.LowerIdempotent |
| Text.LastIndexOf | src/poc/message.type.js:9 | the largest index holding the character, or -1 exactly when it does not occur |
| Text.AfterLast | public/messages.mjs:11 | the `@`-free suffix after the last `@`, or the whole string without one |
| Text.AfterLastJoin | src/services/gmailService.js:171-173 | the text after the last `c` of `p c t` is `t` when `t` has no `c` |
| Text.LowerIdempotent | src/services/gmailService.js:157 | lowercasing twice is lowercasing once |
| PageFetch.Kept | src/gmail/fetchMessages.js:39-40 | the batch is no longer than the responses and holds only messages passing the filter |
| PageFetch.KeptMembers | src/services/gmailService.js:346-357 | a message is in the batch exactly when some response constructs it and it passes the filter |
| PageFetch.KeptPrefix | src/gmail/fetchMessages.js:38-40 | the batch keeps response order: more responses only extend it |
| PageFetch.Pow2 | src/services/gmailService.js:301 | `Math.pow(2, retryCount)`, the back-off factor, is at least 1; the delays it gives are specified by ServiceFetch.FetchMessages and PocFetch.FetchMessages |
| ServiceFetch.FetchMessages | src/services/gmailService.js:277-381 | not ready, any error or an empty page: nothing processed. A 429 below five retries: same token, retry+1, after 2^retry·1000 ms plus under 1000 ms. The kept batch goes to the callback only when non-empty. The next page follows after 30000 ms from retry 0 when the token is truthy, unless the callback was called and failed. The retry count never exceeds 5 |
| ServiceFetch.BatchMembers | src/services/gmailService.js:346-357 | a message is processed exactly when it was constructed from a response and has truthy `to`, `domain` and `from` |
| PocFetch.FetchMessages | src/gmail/fetchMessages.js:6-52 | a 429 retries with no cap after exactly 2^retry·1000 ms. Any other error or an empty page stops with the table unchanged. A rejected detail request or a failed `bulkPut` throws with the table unchanged. Otherwise the kept batch, even an empty one, is upserted by id and the next call always follows after 30000 ms with the page's token |
| PocFetch.BatchMembers | src/gmail/fetchMessages.js:38-40 | a message is stored exactly when it was constructed from a response and has non-empty `to`, `domain` and `from` |
| MessageTable.Upsert | src/stores/messageStore.js:41-43 | the ids afterwards are the old ids plus the batch's ids |
| MessageTable.UpsertAt | src/stores/messageStore.js:29-33 | an id in the batch holds its last batch record; any other id keeps its old record or stays absent |
| MessageTable.UpsertIdempotent | src/stores/messageStore.js:41-43 | putting the same batch twice equals putting it once |
| MessageTable.Table.constructor | src/stores/messageStore.js:16-27 | a fresh `messages` table keyed by `id` holds no records |
| MessageTable.Table.BulkPut | src/stores/messageStore.js:41-43 | the table's rows become the upsert of the batch into the old rows |
| MessageStore.TruthyDomains | src/stores/messageStore.js:58-59 | exactly the non-empty string domains of the scan |
| MessageStore.FindUniqueDomains | src/stores/messageStore.js:53-63 | each non-empty domain exactly once, in first-appearance order, and nothing else |
| MessageStore.SortLeaves | src/stores/messageStore.js:104-111 | the leaf loop yields the sorted leaf entries |
| MessageStore.SortMids | src/stores/messageStore.js:99-103 | the domain loop yields the sorted domain entries with their nested senders |
| MessageStore.SortTops | src/stores/messageStore.js:79-114 | `toSortedMap` of the hierarchy is the sorted three-level tree |
| MessageStore.GenerateStats | src/stores/messageStore.js:127-158 | at every level: keys distinct, each count = number of scanned keys with that prefix, siblings by non-increasing count; an empty scan gives an empty map |
| Tally.Bump | src/stores/messageStore.js:139-154 | one key's create-if-missing step: the key's top-level bucket exists afterwards, and a well-formed object stays well formed; the counts are specified by Tally.BumpAgrees |
| Tally.Tally | src/stores/messageStore.js:134-155 | the hash tally of a scan is a well-formed object with no more top-level keys than keys scanned; its counts are specified by Tally.TallyAgrees, Tally.TallyLookup and Tally.TallySums |
| Tally.Scan | src/stores/messageStore.js:134-155 | the per-key loop builds the hash tally and keeps the object well formed |
| Tally.TallyAgrees | src/stores/messageStore.js:139-154 | a bucket exists exactly for prefixes that occur, and holds their number of keys |
| Tally.TallyLookup | src/stores/messageStore.js:139-155 | the count at any path is the number of keys under it, or absent when there are none |
| Tally.ScanOrderIrrelevant | src/stores/messageStore.js:139-149 | two scans of the same keys in any order give the same counts |
| Tally.TallySums | src/stores/messageStore.js:151-154 | every parent count is the sum of its children; the top counts sum to the number of keys |
| KeyOrder.SortedIsGrouped | src/poc/messages.js:45 | in index order the keys under any prefix are contiguous |
| CountOrder.InsertDesc | src/database.js:20-23 | one more entry: the old ones plus the new one, as a multiset |
| CountOrder.InsertDescKeepsSorted | src/database.js:20-23 | adding to a descending sequence keeps it descending |
| CountOrder.SortDesc | src/database.js:14-16 | the same entries, by non-increasing count |
| CountOrder.SortDescOfSorted | src/database.js:14-16 | sorting data that is already descending changes nothing |
| CountOrder.SortDescIdempotent | src/database.js:21-23 | re-sorting after a sort changes nothing |
| CountOrder.SortDescStable | src/database.js:53-56 | entries of equal count keep their relative order |
| CountOrder.SortDescDistinct | src/database.js:60 | distinct keys stay distinct |
| CountOrder.SortDescMapValues | src/database.js:34-36 | sorting commutes with transforming the entries' values |
| CountOrder.SumCountsSortDesc | src/EmailAnalyzer.js:266-268 | sorting does not change the sum of the counts |
| JsObject.Put | src/database.js:122 | `o[k] = v`: the value is updated, and a new key goes last |
| JsObject.Distinct | src/stores/messageStore.js:55-62 | no duplicates and the same members |
| JsObject.DistinctOrder | src/stores/messageStore.js:62 | members keep the order of their first appearance |
| JsObject.DistinctCardinality | public/messages.test.mjs:99-101 | the length equals the number of different values |
| JsObject.DistinctOfDistinct | public/messages.mjs:15-18 | a duplicate-free scan is kept as it is |
| SortedTree.SortedLevel | src/stores/messageStore.js:82-87 | siblings are ordered by non-increasing count |
| SortedTree.SortedLevelContents | src/stores/messageStore.js:94-111 | each key of the object appears once, with its count and its nested value |
| SortedTree.AddEntry | src/stores/messageStore.js:111 | each `add` inserts the key's entry into the sorted entries so far |
| SortedTree.ToSortedMap | src/stores/messageStore.js:79-114 | the sorted tree of statistics has its top level by non-increasing count, one entry at most per key; its contents are specified by SortedTree.TopLevelOf and SortedTree.SortedTally |
| SortedTree.SortedTally | src/database.js:93-115 | the sorted tree of a tally has exact counts and distinct, descending keys at every level |
| SortedTree.SortedTallyTotal | src/EmailAnalyzer.js:264-268 | the top-level counts sum to the number of keys |
| Database.SortedArrayMap.constructor | src/database.js:10-17 | the data is the initial data, sorted when a comparator is given |
| Database.SortedArrayMap.Add | src/database.js:18-24 | exactly one entry more (a repeated key is not replaced), re-sorted; on sorted data it is the insertion of the entry |
| Database.SortedArrayMap.Entries | src/database.js:30-32 | `[name, value]` per entry, same order and length |
| Database.SortedArrayMap.GetSortedEntries | src/database.js:34-36 | `{name, count, children}` per entry, same order and length |
| Database.SortedEntriesDescend | src/database.js:53-56 | with the count comparator the entries read back by non-increasing count |
| Database.SubjectsMap | src/database.js:78-82 | the subject level holds each subject's count as both count and value, sorted |
| Database.SendersMap | src/database.js:74-77 | the sender level holds each sender's count and its subject map, sorted |
| Database.ToSortedMapOf | src/database.js:51-88 | the domain level, recursively, is the sorted three-level tree |
| Database.GenerateStats | src/database.js:90-116 | domain, sender and subject counts are the numbers of messages with that prefix, siblings by non-increasing count |
| Database.GetMostFrequentContactsFromDb | src/database.js:118-129 | at most five distinct senders with their exact message counts, by non-increasing count |
| Contacts.SenderCounts | src/database.js:119-123 | the counting object is well formed with no more keys than emails; its contents are specified by Contacts.SenderCountsSpec |
| Contacts.Ranking | src/database.js:125-128 | the sorted, sliced entries are at most five; their order and contents are specified by Contacts.RankingSpec |
| Contacts.MostFrequent | src/app/page.tsx:138-143 | count, sort and slice give at most five senders; specified by Contacts.MostFrequentSpec |
| Contacts.SenderCountsSpec | src/database.js:121-123 | the counting object lists each sender once, in first-appearance order, with its number of messages |
| Contacts.CountSenders | src/app/page.tsx:138-141 | the `forEach` builds the counting object |
| Contacts.RankingSpec | src/database.js:125-128 | at most five keys, each once with its value, by non-increasing value; a key left out has no more than the fifth |
| Contacts.MostFrequentSpec | src/EmailAnalyzer.js:248-253 | at most five senders with exact counts, by non-increasing count; fewer than five only when every sender is listed; none for no emails |
| Page.GetMostFrequentContacts | src/app/page.tsx:136-144 | no contacts for an empty list; otherwise the five most frequent senders |
| Page.TotalEmailsCount | src/app/page.tsx:147 | the number of emails equals the sum of the domain counts of the tree shown for them |
| TreeView.VisualizationTree | src/components/EmailTreeVisualization.tsx:39-93 | no tree for null or an empty list; otherwise the tallied tree, with exact counts and descending siblings at every level |
| TreeView.StoredViewOf | src/EmailAnalyzer.js:120-165 | showing the stored statistics by name and count gives the same tree as grouping the emails |
| EmailAnalyzer.AnalyzerTree | src/EmailAnalyzer.js:36-119 | no tree for null, an empty list or an empty stored map; a list is tallied with exact counts and descending siblings |
| EmailAnalyzer.ModesShowSameTree | src/EmailAnalyzer.js:45-165 | the database mode shows the same tree as the mock mode for the same emails |
| EmailAnalyzer.MostFrequentContactsLocal | src/EmailAnalyzer.js:245-254 | nothing for a non-array; otherwise the five most frequent senders |
| EmailAnalyzer.TotalEmailsCount | src/EmailAnalyzer.js:260-273 | 0 while loading, on error or for null; in mock mode the array's length (undefined for a stored map); in database mode the sum of the top-level counts of a stored map (0 for an array) |
| EmailAnalyzer.StoredTotalCountsEveryEmail | src/EmailAnalyzer.js:264-268 | in database mode the total is the number of stored emails |
| PocMessages.Dedupe | src/poc/messages.js:16-21 | no two adjacent entries are equal, the members are the same, and the last entry is kept |
| PocMessages.DedupeKeeps | src/poc/messages.js:16-21 | a scan with no adjacent repeats is returned whole |
| PocMessages.FindUniqueDomains | src/poc/messages.js:12-24 | the `lastSeen` loop computes the deduplication; a scan without duplicates comes back whole |
| PocMessages.GenerateStats | src/poc/messages.js:40-64 | the `lastSeen` loop throws exactly when the scan model throws, and otherwise yields its statistics |
| PocMessages.KeyStep | src/poc/messages.js:47-61 | one key of the `lastSeen` loop: when it does not throw, `lastSeen` becomes the key; its effect is specified by PocMessages.KeyStepAdds, PocMessages.KeyStepThrows and PocMessages.StepLifts |
| PocMessages.Run | src/poc/messages.js:45-62 | the whole scan: when it does not throw, `lastSeen` holds the last key; its statistics are specified by PocMessages.SortedCleanScanCounts, PocMessages.SortedCorrectedScanCounts and PocMessages.AsWrittenThrows |
| PocMessages.KeyStepAdds | src/poc/messages.js:59-61 | when all three buckets exist after opening, each level on the key's path gains one |
| PocMessages.KeyStepThrows | src/poc/messages.js:51-61 | when the recipient or domain bucket is missing after the opening steps, the first write or increment through it throws (`stats[to][domain] = …` at line 53, `stats[to][domain][from] = 0` at line 57, or `_count += 1` at line 59 or 60) |
| PocMessages.StepLifts | src/poc/messages.js:47-61 | opening exactly the missing buckets makes one step the hash tally's step |
| PocMessages.GroupedCorrectedRun | src/poc/messages.js:47-58 | on a contiguously grouped scan, comparing whole prefixes yields the hash count |
| PocMessages.CleanRunIsCorrected | src/poc/messages.js:47-58 | when every change at a level comes with changes below it, the per-level comparison equals the prefix comparison |
| PocMessages.SortedCleanScanCounts | src/poc/messages.js:45-62 | a scan in index order whose changes carry to deeper levels yields the exact counts |
| PocMessages.SortedCorrectedScanCounts | src/poc/messages.js:47-58 | with prefix comparison every scan in index order yields the exact counts |
| PocMessages.LeafAtTally | src/poc/messages.js:61 | a leaf of the exact count is the number of keys on its path |
| PocMessages.CountedScanTree | src/poc/messages.js:26-38 | on such scans the statistics equal the hash count and their sorted tree has exact counts and descending siblings |
| PocMessages.RecipientChangeThrows | src/poc/messages.js:47-60 | a new recipient with the previous key's domain: the domain bucket is never opened, so the write `stats[to][domain][from] = 0` (line 57) throws, or `stats[to][domain]._count += 1` (line 60) when the sender is also the previous one |
| PocMessages.AsWrittenThrows | src/poc/messages.js:47-61 | any scan with such an adjacent pair throws |
| PocMessages.SharedDomainThrows | src/poc/messages.js:47-61 | two keys in index order, different recipients, same domain: the scan throws although the prefix version counts them |
| PocMessages.SenderKeptLeafIsNaN | src/poc/messages.js:55-61 | a new domain with the previous sender, under a new recipient or one whose bucket exists: the leaf is never initialised and `+= 1` makes it NaN |
| PocMessages.CollateKeysSorted | src/gmail/__tests__/collateMessages.test.js:19-24 | keys shaped like the test's are in index order |
| PocMessages.CollateKeysCount | src/gmail/__tests__/collateMessages.test.js:47-50 | the last key's path occurs once |
| PocMessages.CollateTestLeafIsNaN | src/gmail/collateMessages.js:24-38 | on the test's keys the scan completes but the last leaf is NaN |
| PocMessages.CollateTestLeafCorrected | src/gmail/__tests__/collateMessages.test.js:32-51 | with prefix comparison the last leaf is 1, as the test expects |
| PocMessages.RecipientChangeResets | src/poc/messages.js:47-50 | a changed recipient starts its bucket afresh at count 1 |
| PocMessages.ReappearanceResets | src/poc/messages.js:47-54 | a recipient that reappears after another one loses its earlier count |
| PublicMessages.SenderDomains | public/messages.mjs:11 | each sender's domain is the text after its last `@`, or the whole key |
| PublicMessages.SenderDomainsMembers | public/messages.mjs:10-11 | a domain occurs exactly when some sender yields it, and it holds no `@` |
| PublicMessages.FindUniqueDomains | public/messages.mjs:7-21 | the `includes` loop keeps each sender domain once, in first-appearance order, and nothing else |

## Left out

- OAuth, token handling and the GAPI client set-up are not part of this model; neither are the Dexie schema and the sample-data seeding. The GAPI client's readiness is a boolean parameter.
- React rendering, the status and console messages, and the DOM text written on errors are not modelled.
- Timing is not modelled. `setTimeout` becomes the returned `Call` record (token, retry count, delay). The random jitter of the service's back-off is a window `jitterMs` wide added to the delay, not a value.
- `Promise.all` is a single `Details` value: either the detail requests were rejected, or they resolved to one optional resource per listed message. The resources are not tied to the listed ids.
- A synchronous throw while the detail requests are created makes the service stop with a status message. The model folds it into `Rejected`, which has the same outcome.
- The callback and `bulkPut` failures are boolean parameters. A `bulkPut` that fails part-way, leaving some records written, is not modelled.
- A Dexie index scan is a given sequence. `KeyOrder.Sorted` states index order, with keys compared by code unit, and the lemmas that need it require it.
- `eachUniqueKey` delivering distinct keys is not assumed: `PocMessages.FindUniqueDomains` is proved for any scan.
- Lowercasing maps `A`-`Z` only, and strings are sequences of characters, not UTF-16 code units. A `.` in a regular expression is taken to match every character, line terminators included.
- The `_count` key and prototype keys are not modelled: a sender, domain or subject literally named `_count`, or `__proto__`, would collide in the JavaScript object. `for...in` lists integer-like keys first; the model keeps insertion order for every key.
- Database.SortedArrayMap.constructor: in the source the caller's array becomes `data` and is sorted in place (src/database.js:11, 15). The caller's array is therefore reordered, and later `add` calls push into it. The model copies a sequence, so this aliasing is not captured. The only caller (src/database.js:60) passes a fresh `[]`, so nothing observable is lost.
- The `collections/sorted-array-map` library is not part of this model. Only its use at the call sites is modelled: distinct keys, descending count. Ties keep insertion order, as in `Database.SortedArrayMap`.
- `collateMessages` runs exactly the scan of `src/poc/messages.js` `generateStats`, so the `PocMessages` members model both; the two `toSortedMap` copies are also identical.
- PocMessages.CountedScanTree: the prototype's `toSortedMap` also recurses into numeric leaves (giving empty maps) and reads counts as `_count || value`, so a NaN leaf sorts arbitrarily. The model states the sorted tree only for scans that count correctly.
- EmailParser.ParseGmailMessage: `received` keeps the raw `internalDate` string. The conversion to an ISO date, and the current-time fallback, are not modelled. In the source that conversion runs before the skip check (src/lib/emailParser.ts:72-76). A truthy `internalDate` that is not a number, such as `"abc"`, or is out of range makes `toISOString` throw a `RangeError`. The model parses or skips such a message instead of throwing.
- EmailAnalyzer.TotalEmailsCount: whether mock mode is on is read from session storage; it is a parameter here. A database-mode value without `getSortedEntries` only logs a warning, so it counts 0.
- Mock-data generators are random and are left out.

## Findings

| source | as written | input that shows it | evidently intended | confidence | as-written member | corrected member |
|---|---|---|---|---|---|---|
| src/lib/emailParser.ts:43-44 | the guard for a missing message reads `gmailMessage.id` in its warning | `parseGmailMessage(null)` throws a TypeError | return null, as the guard's `return null` and the missing payload/headers cases do | high; not executed | EmailParser.NullMessageThrows | EmailParser.SkippedExactly |
| src/poc/messages.js:47-61 | a domain bucket is opened only when the domain differs from the previous key's, even if the recipient changed | keys `[a, x, u]`, `[b, x, v]` with `a < b`: `stats[b][x]` is undefined, so the write `stats[b][x][v] = 0` (line 57) throws, or `stats[b][x]._count += 1` (line 60) when `u = v` | open every deeper bucket when a higher level changes (compare whole prefixes) | high; not executed | PocMessages.SharedDomainThrows | PocMessages.SortedCorrectedScanCounts |
| src/gmail/collateMessages.js:24-38 | a sender leaf is initialised only when the sender differs from the previous key's | the test's keys: `['to2','domain1','from1']` after `['to1','domain2','from1']` leaves `stats.to2.domain1.from1` undefined, so it becomes NaN | the leaf is 1, as the test at src/gmail/__tests__/collateMessages.test.js:49 expects | high; not executed | PocMessages.CollateTestLeafIsNaN | PocMessages.CollateTestLeafCorrected |
