# Verified model of the Mixer client

A Dafny model of the parts of the Mixer client whose state is hard to get right, with proofs of what they
promise. Each component pairs code written as the original runs (classes, loops, links) with a
specification on values, and proves properties of the specification for all inputs and all runs. `dafny
verify dfyconfig.toml` checks everything.

**The pinning LRU cache** (`LruModel`, `LruProofs`, `LruEviction`, `LruOperations`, `LruRuns`, `LruLaws`,
`LruLinks`, `LruCache`). Operations on values; what each does, told on the fields alone; the invariants
they keep; runs of a client with its own books of pins; and the heap of doubly linked elements, recency
list and per-key rings of removed-but-pinned elements, whose every operation computes the operation on
values. A cached value is named by its address, 0 being nullptr, which may be used again once the value
there was disposed of. The clock is a parameter that does not run backwards.

**Templates, path trie and bindings** (`HttpTemplate`, `HttpTemplateParser`, `PathTrie`,
`PathMatcherNode`, `PathMatcherModel`, `PathMatcher`, `RequestPath`, `UrlUnescape`, `Bindings`,
`QueryParameters`, `TemplateLaws`). A grammar of syntax trees with a printer; the scanner and parser as
they run; the trie with its backtracking search against what it can read a stored path as, a declarative
match relation and an order of specificity; registration histories, with verbs that mislead the search or
not; request paths; the slices that variables are bound to against the division of a request among the
segments of a path; and the bindings of a query. Where the header says that the last of several
registrations of the same path is kept (`api_spec/src/path_matcher.h:104-105`), the code keeps the first;
the model follows the code.

**Quota prefetching** (`CircularQueue`, `TimeBasedCounter`, `QuotaModel`, `QuotaProofs`, `QuotaLaws`,
`QuotaPrefetch`). The growable ring against a plain sequence, the sliding-window counter against the log
of all increments, and the token-lending protocol as steps: a check, or the answer to any outstanding
request, with a ledger of where tokens came from and went. A ring that is exactly full is skipped by
iteration, as in the code, so counts of available tokens can be too low; claims about tokens are made
about the true total.

**Delta-compressed report batches** (`AttributeCoding`, `DeltaUpdate`, `WordDictionary`, `BatchHistory`,
`AttributeCompressor`, `ReportBatch`). The specification is a decoder that accumulates deltas. What a
batch accepts, as long as the global dictionary is not shrunk, and what its decoder reads are functions
of the calls of `Add` alone: of the values last given and the values last sent, by attribute name. A
refused set is remembered but not sent, so that a batch decodes to exactly what was added if and only if
no set added later repeats a value that was only given in a refused one (and all values are set). The
batching protocol starts a new batch after a refusal, so it delivers every report once and in order, and
each as it was submitted if and only if it arrives in its batch.

**Signatures of referenced attributes** (`ReferencedModel`, `ReferencedHash`, `ReferencedBytes`,
`Referenced`, `ReferencedLaws`). A digest is the sequence of typed tokens that was hashed. The hash that
is to identify the keys of an answer (`src/referenced.cc:240-249`) does not do so in general, since a
name and a map key are hashed alike, and `Fill` leaves the map key out when the string map is missing:
`HashConfuses` runs two answers with different keys into one hash. Hashes identify keys exactly as long
as a name tells whether there is a map key, but for a harmless case of the empty name. On the bytes that
are hashed a further condition comes in, as no NUL follows the colon between the two lists; it is given
exactly, too.

## Model

| member | source | states |
|---|---|---|
| LruLinks.Elem.Link | utils/simple_lru_cache_inl.h:183-188 | a loose element put behind the head of a circular list leaves a circular list with it in second place |
| LruLinks.Elem.Unlink | utils/simple_lru_cache_inl.h:175-181 | an element on a circular list leaves it circular without the element; an element on no list stays as it is |
| LruLinks.OrderRelinked | utils/simple_lru_cache_inl.h:543-547 | rewriting links among the nodes of the recency list leaves every deferred ring and every loose element as the representation demands |
| LruLinks.RingRelinked | utils/simple_lru_cache_inl.h:543-547 | rewriting links among the nodes of one deferred ring leaves the recency list, the other rings and the loose elements as demanded |
| LruLinks.UnlinkFromOrder | utils/simple_lru_cache_inl.h:845-849 | taking an element off the heap's recency list is removing its value from the abstract list; an unlisted element changes nothing |
| LruLinks.LinkToOrder | utils/simple_lru_cache_inl.h:741 | linking an unlisted element behind the dummy head puts its value first in the abstract list |
| LruLinks.StartRing | utils/simple_lru_cache_inl.h:855-858 | a loose element made to point at itself is the ring of its key |
| LruLinks.JoinRing | utils/simple_lru_cache_inl.h:859-863 | a loose element linked behind a ring's head is attached to the abstract ring at that place |
| LruLinks.UnlinkFromRing | utils/simple_lru_cache_inl.h:710-723 | erasing or replacing the head in the deferred table and unlinking is detaching the value from the abstract ring, also when it was the head or the last one |
| LruLinks.Forget | utils/simple_lru_cache_inl.h:549-554 | an element on no list can be deleted: the heap then represents the state without it |
| LruLinks.Admit | utils/simple_lru_cache_inl.h:758-769 | a new element on no list can be added: the heap then represents the state with it |
| LruCache.SimpleLRUCache.constructor | utils/simple_lru_cache_inl.h:580-591 | an empty cache with the given bound, no expiry, LRU mode |
| LruCache.SimpleLRUCache.Discard | utils/simple_lru_cache_inl.h:549-554 | an unpinned element on no list is handed to RemoveElement once and its units are given back |
| LruCache.SimpleLRUCache.RemoveElem | utils/simple_lru_cache_inl.h:845-867 | an element leaves the recency list and is deferred under its key when pinned, discarded when not |
| LruCache.SimpleLRUCache.Remove | utils/simple_lru_cache_inl.h:835-843 | the heap afterwards represents LruModel.Remove of the state before |
| LruCache.SimpleLRUCache.Evict | utils/simple_lru_cache_inl.h:874-882 | an unpinned listed element leaves table, list and heap together |
| LruCache.SimpleLRUCache.GarbageCollect | utils/simple_lru_cache_inl.h:869-885 | walking the list from its old end computes LruModel.GarbageCollect and ends within the size bound or with only pinned entries |
| LruCache.SimpleLRUCache.DiscardIdle | utils/simple_lru_cache_inl.h:890-929 | walking from the old end until the first young entry computes LruModel.DiscardIdle |
| LruCache.SimpleLRUCache.RemoveExpiredEntries | utils/simple_lru_cache_inl.h:411-413 | expiry only happens when an idle limit is set |
| LruCache.SimpleLRUCache.SetMaxSize | utils/simple_lru_cache_inl.h:299-302 | the new bound holds at once |
| LruCache.SimpleLRUCache.SetTimeout | utils/simple_lru_cache_inl.h:593-629 | negative limits switch expiry off, a change of mode while a limit is set is ignored, otherwise the limit is applied at once; called in any valid state, it leaves a valid one if and only if ModeFits held before: the mode stays, or its change is ignored, or no table entry is pinned when it changes |
| LruCache.SimpleLRUCache.RemoveUnpinned | utils/simple_lru_cache_inl.h:640-647 | the walk that saves the next link before removing computes LruModel.RemoveUnpinned |
| LruCache.SimpleLRUCache.RemoveAll | utils/simple_lru_cache_inl.h:631-638 | iterating the hash table in any order computes the one state LruEviction.RemoveAll |
| LruCache.SimpleLRUCache.Clear | utils/simple_lru_cache_inl.h:649-670 | with no pin outstanding everything is handed to RemoveElement and the structure is pristine |
| LruCache.SimpleLRUCache.Lookup | utils/simple_lru_cache_inl.h:672-691 | computes LruModel.Lookup: expiry, then the entry pinned and off the list in LRU mode |
| LruCache.SimpleLRUCache.Release | utils/simple_lru_cache_inl.h:693-749 | computes LruModel.Release, finding the value on its key's ring from the old end or else in the table |
| LruCache.SimpleLRUCache.ReleaseFromRing | utils/simple_lru_cache_inl.h:706-725 | a released deferred value loses one pin and is discarded with its last, the ring staying intact |
| LruCache.SimpleLRUCache.DropFromRing | utils/simple_lru_cache_inl.h:707-723 | an unpinned element leaves its deferred ring, whose entry in the deferred table moves or goes with it, and is disposed of |
| LruCache.SimpleLRUCache.InsertPinned | utils/simple_lru_cache_inl.h:751-771 | computes LruModel.InsertPinned and keeps every invariant, for any address at which no value is live |
| LruCache.SimpleLRUCache.Insert | utils/simple_lru_cache_inl.h:366-369 | InsertPinned followed by Release of the same value, which that call is always entitled to |
| LruCache.SimpleLRUCache.UpdateSize | utils/simple_lru_cache_inl.h:773-806 | computes LruModel.UpdateSize: the table entry, or all matching entries of the ring, then eviction |
| LruCache.SimpleLRUCache.ResizeDeferredRing | utils/simple_lru_cache_inl.h:790-804 | the do-while walk over a ring resizes exactly the matching entries, all of them for nullptr |
| LruCache.SimpleLRUCache.InDeferredTable | utils/simple_lru_cache_inl.h:820-833 | true if and only if the value is on the key's ring, or any value is when nullptr is given |
| LruCache.SimpleLRUCache.StillInUse | utils/simple_lru_cache_inl.h:808-818 | true if and only if the value is in the table or deferred under the key |
| LruProofs.RemoveKeeps | utils/simple_lru_cache_inl.h:835-867 | Remove keeps all representation invariants and touches no other table entry; a pinned entry becomes deferred, an unpinned one is disposed of |
| LruProofs.DetachFacts | utils/simple_lru_cache_inl.h:710-723 | detaching any member leaves a ring with exactly the other members, and no ring when it was alone |
| LruProofs.AttachFacts | utils/simple_lru_cache_inl.h:854-863 | attaching adds exactly the one member to the ring of its key |
| LruProofs.LivePlaces | utils/simple_lru_cache_inl.h:543-547 | the live elements of a key are its table entry and the members of its ring, and nothing else |
| LruEviction.CollectsShortestTail | utils/simple_lru_cache_inl.h:869-885 | GarbageCollect evicts the unpinned elements of the shortest tail of the recency list that restores the bound, or all unpinned ones when none does |
| LruEviction.CollectKeeps | utils/simple_lru_cache_inl.h:869-885 | eviction keeps the invariants and leaves the cache within its bound or with only pinned entries in the table |
| LruEviction.DropOlderDrops | utils/simple_lru_cache_inl.h:890-929 | because the list is sorted by last use, stopping at the first young entry drops exactly the entries below the threshold |
| LruEviction.DiscardIdleIsExact | utils/simple_lru_cache_inl.h:890-929 | a listed entry survives if and only if it has not been idle for more than the limit |
| LruEviction.SurvivesIdleIff | utils/simple_lru_cache_inl.h:890-929 | a table entry leaves the table if and only if it is listed and has been idle for more than the limit, pinned or not |
| LruEviction.RemoveUnpinnedIsExact | utils/simple_lru_cache_inl.h:640-647 | exactly the pinned table entries remain |
| LruEviction.RemoveAllInAnyOrder | utils/simple_lru_cache_inl.h:631-638 | every order of removing the table's keys ends in the same state |
| LruOperations.LookupKeeps | utils/simple_lru_cache_inl.h:672-691 | Lookup returns the table's value after expiry, or nullptr if there is none, and keeps the invariants |
| LruOperations.PinKeeps | utils/simple_lru_cache_inl.h:677-689 | pinning keeps list, partition and both counters right |
| LruOperations.ReleaseDeferredKeeps | utils/simple_lru_cache_inl.h:693-726 | releasing a deferred value keeps the invariants whether or not it was the last pin |
| LruOperations.ReleaseListedKeeps | utils/simple_lru_cache_inl.h:729-748 | releasing a table entry keeps the invariants, the list sorted by last use included |
| LruOperations.InsertKeeps | utils/simple_lru_cache_inl.h:751-771 | after an insertion the key maps to the new value, other keys to what they did or to nothing, and the invariants hold |
| LruOperations.ResizeKeeps | utils/simple_lru_cache_inl.h:773-804 | exactly the selected entries get the new size and nothing else changes |
| LruOperations.UpdateSizeKeeps | utils/simple_lru_cache_inl.h:773-806 | a size change ends in a state with all invariants |
| LruRuns.ReleaseStep | utils/simple_lru_cache_inl.h:693-749 | a client that releases only pins it holds never trips the asserts of Release |
| LruRuns.InsertStep | utils/simple_lru_cache_inl.h:751-771 | inserting a value at an address that is not live keeps cache and client's books in agreement |
| LruRuns.ClearStep | utils/simple_lru_cache_inl.h:649-670 | when no pin is outstanding the deferred table is empty, as Clear asserts |
| LruRuns.SetTimeoutStep | utils/simple_lru_cache_inl.h:593-629 | as a step of a run, where ModeFits is all that a client has to see to, it keeps cache and books in agreement |
| LruRuns.SetTimeoutIff | utils/simple_lru_cache_inl.h:593-629 | for any limit, mode and time, a call keeps the representation invariants if and only if the mode stays, or its change is ignored, or no table entry is pinned but those that the same call drops for idleness |
| LruRuns.ModeChangeIff | utils/simple_lru_cache_inl.h:543-547 | changing the eviction mode alone keeps the representation invariants if and only if no table entry is pinned |
| LruRuns.StepKeeps | utils/simple_lru_cache_inl.h:672-929 | every permitted call keeps the invariants and the agreement with the client's books |
| LruRuns.TableStep | utils/simple_lru_cache_inl.h:672-929 | every permitted call leaves under a key only the value last inserted there, and none once the key was removed |
| LruRuns.RunsAreSafe | utils/simple_lru_cache_inl.h:543-554 | over any run: each insertion is either disposed of, once, or live, in the table or deferred but not both; a value with outstanding pins is live with exactly the client's pins; units_ and pinned_units_ are the sums they stand for; over the bound everything left is pinned; a lookup never returns a value superseded under its key or removed with it |
| LruLaws.ExpiryIsExact | utils/simple_lru_cache_inl.h:887-929 | what leaves on expiry, told on the fields: exactly the listed entries that have been idle for more than the limit, if there is one; those without a pin are disposed of once, the others stay live, and nothing else changes |
| LruLaws.LookupIff | utils/simple_lru_cache_inl.h:672-691 | Lookup returns nullptr if and only if the key has no entry, or its entry is listed and has been idle for more than the limit; otherwise the entry |
| LruLaws.LookupIsExact | utils/simple_lru_cache_inl.h:672-691 | a lookup expires, and then adds one pin to what it returns, which is listed no more in LRU mode, and changes nothing else |
| LruLaws.RemoveIsExact | utils/simple_lru_cache_inl.h:835-867 | exactly the entry of the key leaves |
| LruLaws.SetTimeoutIsExact | utils/simple_lru_cache_inl.h:593-629 | in any state: a change of mode while a limit is set and stays does nothing at all; otherwise mode and limit are set and exactly the listed entries that are too old by the new limit leave |
| LruLaws.RemoveUnpinnedLeaves | utils/simple_lru_cache_inl.h:640-647 | exactly the unpinned entries leave |
| LruLaws.RemoveAllLeaves | utils/simple_lru_cache_inl.h:631-638 | all entries leave, and only they |
| LruLaws.ClearLeaves | utils/simple_lru_cache_inl.h:649-670 | with no pin outstanding all entries leave, each disposed of once, and nothing is live |
| LruLaws.ReleaseIsExact | utils/simple_lru_cache_inl.h:693-749 | one pin less, and the time of use in LRU mode; with the last pin an entry goes first in the list, or leaves if and only if the cache is too big, and a deferred value is disposed of |
| LruLaws.CollectIsExact | utils/simple_lru_cache_inl.h:869-885 | nothing leaves if the cache fits; otherwise the unpinned entries of the shortest sufficient tail of the list, or all if none is |
| LruLaws.SetMaxSizeIsExact | utils/simple_lru_cache_inl.h:299-302 | the same under the new bound |
| LruLaws.InsertIsExact | utils/simple_lru_cache_inl.h:751-771 | the old entry of the key leaves, the new one enters with one pin, the size and the time given, first in the list in age mode, and then only what is too much leaves |
| LruLaws.UpdateSizeIsExact | utils/simple_lru_cache_inl.h:773-806 | exactly the entries meant get the size, and then only what is too much leaves |
| LruLaws.FoundUntilIdle | utils/simple_lru_cache_inl.h:672-771 | an entry inserted and released is found later if and only if the time since its release, or in age mode since its insertion, is at most the limit |
| PathTrie.InsertThenFind | api_spec/src/path_matcher_node.cc:194-216 | insertion changes the entry of its path and method and no other, and never replaces data that is there |
| PathTrie.InsertKeepsShape | api_spec/src/path_matcher_node.cc:194-216 | inserting sound paths keeps only constants below a `**` node, but for any one segment other than `**` right under it, and marks exactly the `**` nodes |
| PathTrie.InsertKeepsMarks | api_spec/src/path_matcher_node.cc:194-216 | inserting any path at all keeps just the `**` nodes marked |
| PathTrie.FoundIsSound | api_spec/src/path_matcher_node.cc:194-216 | every path stored in such a trie is sound |
| PathTrie.LookupAmongConstants | api_spec/src/path_matcher_node.cc:137-175 | among constant segments lookup finds exactly the path that equals the parts |
| PathTrie.LookupAtWildcard | api_spec/src/path_matcher_node.cc:160-166 | at a `**` node the longest registered constant tail of the parts wins |
| PathTrie.LookupIsBest | api_spec/src/path_matcher_node.cc:137-175 | lookup finds an entry if and only if some stored path and method match declaratively, and on plain parts the entry found is the most specific |
| PathTrie.UnplainPartsMislead | api_spec/src/path_matcher_node.cc:157-174 | for parts containing `*` or `**` there is a trie in which the entry found is not the most specific |
| PathTrie.PrecedenceNeedsPlainParts | api_spec/src/path_matcher_node.cc:137-175 | the precedence holds in every trie if and only if no part is `*` or `**` |
| PathTrie.LookupReads | api_spec/src/path_matcher_node.cc:137-175 | in any trie made by insertions lookup finds an entry if and only if some stored path can be read as the parts, and then one that can |
| PathTrie.MatchedIsRead | api_spec/src/path_matcher_node.cc:137-175 | a path is read as whatever parts it matches |
| PathTrie.ReadIsShort | api_spec/src/path_matcher_node.cc:142-173 | a path that is read has no more segments than there are parts, but for a `**` at its end that takes none |
| PathTrie.SoundIffReadAsMeant | api_spec/src/path_matcher_node.cc:137-175 | a path is read as exactly the parts that it matches if and only if behind a `**` there are only constants, but for one segment other than `**` right behind it |
| PathTrie.UnsoundIsMisread | api_spec/src/path_matcher_node.cc:137-175 | for any other path there are parts that it is read as and does not match |
| PathMatcherNodes.PathMatcherNode.InsertTemplate | api_spec/src/path_matcher_node.cc:194-216 | insertion into the linked nodes computes Insert on the trie they represent, sharing no node between children |
| PathMatcherNodes.PathMatcherNode.StoreResult | api_spec/src/path_matcher_node.cc:198-207 | at the end of a path the first data stays, and a repetition is marked |
| PathMatcherNodes.PathMatcherNode.LookupOrInsertNew | api_spec/src/path_matcher_node.cc:59-69 | the child under a key, created empty and apart from all others if need be |
| PathMatcherNodes.PathMatcherNode.GetResultForHttpMethod | api_spec/src/path_matcher_node.cc:232-241 | the exact method's entry, else that of `*` |
| PathMatcherNodes.PathMatcherNode.LookupPath | api_spec/src/path_matcher_node.cc:137-175 | the search through the linked nodes computes Lookup on the trie they represent |
| PathMatcherNodes.PathMatcherNode.LookupPathFromChild | api_spec/src/path_matcher_node.cc:218-230 | a search that fails below a child is as if the child were not there |
| HttpTemplates.ParsingUndoesPrinting | api_spec/src/http_template.cc:75-247 | every well-formed syntax tree is what its printed form parses to |
| HttpTemplates.PrintingUndoesParsing | api_spec/src/http_template.cc:75-247 | an accepted text is the print of the well-formed tree it parses to |
| HttpTemplates.AcceptedExactlyThePrinted | api_spec/src/http_template.cc:34-39 | the accepted texts are exactly the printed trees, and no two trees print alike |
| HttpTemplates.ParseMeansPrinted | api_spec/src/http_template.cc:368-377 | a template parses to a result if and only if it is the print of a tree with no wildcard after `**` that flattens to it |
| HttpTemplates.ShortFormMeansStar | api_spec/src/http_template.cc:149-155 | `{x}` gives the same segments and ranges as `{x=*}`, wherever it stands |
| HttpTemplates.RangesAreOrdered | api_spec/src/http_template.cc:278-326 | variable ranges are non-empty, lie inside the segments and do not overlap |
| HttpTemplates.SegmentsParseBack | api_spec/src/http_template.cc:93-108 | printed segments followed by a verb, a closing brace or nothing are parsed back and no further |
| HttpTemplates.SegmentsPrintBack | api_spec/src/http_template.cc:93-108 | parsed segments are well-formed and print to the text consumed |
| HttpTemplateParsers.Parser.Consume | api_spec/src/http_template.cc:247-256 | takes one character off the rest if and only if it is the one asked for |
| HttpTemplateParsers.Parser.ParseLiteral | api_spec/src/http_template.cc:217-245 | takes the longest non-empty run without `/`, `:` and `}`, or fails |
| HttpTemplateParsers.Parser.ParseIdentifier | api_spec/src/http_template.cc:194-215 | takes the longest non-empty run without `.`, `}` and `=` and appends it to the current variable's path |
| HttpTemplateParsers.Parser.ParseFieldPath | api_spec/src/http_template.cc:175-185 | accepts and consumes what the grammar's field path does, and appends its names |
| HttpTemplateParsers.Parser.EndVariable | api_spec/src/http_template.cc:291-300 | closes the variable at the present segment; valid if it has a name and a segment |
| HttpTemplateParsers.Parser.ParseVariable | api_spec/src/http_template.cc:138-163 | one variable of the tree: its segments are appended and its range, names and wildcard flag recorded; a nested one is refused |
| HttpTemplateParsers.Parser.ParseSegment | api_spec/src/http_template.cc:110-136 | one segment of the tree, with the effects of exactly that segment |
| HttpTemplateParsers.Parser.ParseSegments | api_spec/src/http_template.cc:93-108 | the loop over segments consumes and records what the recursive grammar does |
| HttpTemplateParsers.Parser.ParseVerb | api_spec/src/http_template.cc:187-192 | the verb after a colon |
| HttpTemplateParsers.Parser.ParseTemplate | api_spec/src/http_template.cc:75-91 | with all input consumed, succeeds exactly on the templates of the grammar with the tree's segments, verb and ranges |
| HttpTemplateParsers.Parser.ValidateParts | api_spec/src/http_template.cc:57-72 | true if and only if no wildcard, itself a wildcard, follows a `**` |
| HttpTemplateParsers.Parser.PostProcessVariables | api_spec/src/http_template.cc:327-344 | ends of ranges with a `**` are made relative to the end of a path that includes the verb; others stay |
| HttpTemplateParsers.Parser.Parse | api_spec/src/http_template.cc:45-51 | succeeds exactly on the printed trees, with the tree flattened |
| HttpTemplateParsers.ParseHttpTemplate | api_spec/src/http_template.cc:368-377 | the whole of parsing computes HttpTemplates.Parse |
| TemplateLaws.TemplateOkIff | api_spec/src/http_template.cc:75-245 | which trees there are, character by character: any row of wildcards, constants and variables with or without a verb, a variable having names and perhaps a row of wildcards and constants; nothing else |
| TemplateLaws.SegmentsAreTheText | api_spec/src/http_template.cc:75-173 | the text of an accepted template with braces, names and equals signs taken out, and `*` for a bare variable, is its segments joined by slashes and its verb behind a colon; no segment holds a slash or colon or is empty |
| TemplateLaws.ConstantsParse | api_spec/src/http_template.cc:133-172 | constants and a verb are parsed as what they are, without variables |
| TemplateLaws.ConstantIsServedIff | api_spec/src/path_matcher.h:430-493 | a template of constants, registered alone, is served for a request if and only if its method matches and its parts are these constants, and the verb if there is one |
| RequestPaths.SplitInto | api_spec/src/path_matcher.h:132-140 | the getline loop appends the items between delimiters, none for an empty rest |
| RequestPaths.ExtractRequestParts | api_spec/src/path_matcher.h:324-351 | the statements compute RequestParts |
| RequestPaths.SplitUndoesJoin | api_spec/src/path_matcher.h:342-350 | joining parts with slashes and splitting gives them back, up to empty ones at the end |
| RequestPaths.RequestRoundTrip | api_spec/src/path_matcher.h:311-351 | a request has the parts it was written from: a configured verb is one more part, an unknown one stays text, trailing slashes and the query do not count |
| RequestPaths.PartsAreClean | api_spec/src/path_matcher.h:324-351 | no part holds a slash or a question mark and the last is not empty |
| RequestPaths.FirstCharacterIsDropped | api_spec/src/path_matcher.h:342-346 | the first character of a path is taken for a slash, whatever it is |
| UrlUnescaping.UrlUnescapeString | api_spec/src/path_matcher.h:214-248 | the two passes over the buffer compute Unescape |
| UrlUnescaping.UnescapeUndoesEscape | api_spec/src/path_matcher.h:187-248 | decoding gives back any string from its percent-encoding (section 2.1 of RFC 3986); when reserved characters are to stay, exactly their escapes stay |
| UrlUnescaping.NoNewReserved | api_spec/src/path_matcher.h:201-203 | decoding that keeps reserved characters introduces none |
| UrlUnescaping.NothingEscaped | api_spec/src/path_matcher.h:217-229 | a string without escapes is returned as it is |
| UrlUnescaping.ReservedIff | api_spec/src/path_matcher.h:140-168 | the reserved characters are those of section 2.2 of RFC 3986 |
| UrlUnescaping.HexDigits | api_spec/src/path_matcher.h:170-185 | digits count from 0, letters of either case from 10 |
| PathMatcherModel.FirstRegistrationStays | api_spec/src/path_matcher.h:464-493 | after any registrations exactly the meant paths are stored, each with the data of its first registration, marked if and only if repeated |
| PathMatcherModel.VerbsOfAccepted | api_spec/src/path_matcher.h:488-491 | the configured verbs are those of the accepted registrations |
| PathMatcherModel.NewIsAccepted | api_spec/src/path_matcher.h:464-493 | a registration is accepted if and only if its template parses and no earlier one means the same path and method |
| PathMatcherModel.RegisteringKeepsShape | api_spec/src/path_matcher.h:472-476 | any registrations whose verbs are sound, that is no `**` behind a `**`, nor `*` unless the `**` is the last segment, give a trie that has only sound paths |
| PathMatcherModel.VerbKeepsSoundIff | api_spec/src/path_matcher.h:362-373 | a verb leaves a path sound if and only if it is no wildcard behind a `**`, but for a `*` right behind it |
| PathMatcherModel.LookupFindsTheRead | api_spec/src/path_matcher.h:393-413 | after any registrations with any verbs, lookup finds data if and only if it can read some registration's path as the parts, and then that of the first registration of such a path |
| PathMatcherModel.LookupServesTheBest | api_spec/src/path_matcher.h:393-413 | after any registrations, if one fits the parts, data is found; if all verbs are sound, none is found otherwise, and what is found is that of the first registration of the most specific path that fits |
| PathMatcherModel.LookupMethodIsRegistered | api_spec/src/path_matcher.h:414-426 | what is found for a request, after any registrations, is the method, the variables and the body field path of the first registration of a path that is read as its parts |
| PathMatcherModel.RequestIsServed | api_spec/src/path_matcher.h:430-448 | every request written for an accepted template is served, whatever else was registered; without a verb it may have no parts, or empty ones at the end |
| PathMatcherModel.SoundVerbIff | api_spec/src/path_matcher.h:362-373 | a template by itself is found for exactly the parts that it fits if and only if its verb is sound |
| PathMatchers.TransformHttpTemplate | api_spec/src/path_matcher.h:362-373 | the path is the segments and then the verb, if any |
| PathMatchers.PathMatcherBuilder.Register | api_spec/src/path_matcher.h:464-493 | the nodes, verbs and data after the call are those of the history with this registration; the result is whether it was accepted |
| PathMatchers.PathMatcherBuilder.Build | api_spec/src/path_matcher.h:457-460 | moves everything registered into the matcher and leaves the builder without a root |
| PathMatchers.PathMatcher.Lookup | api_spec/src/path_matcher.h:430-448 | returns the method of LookupMethod on the registered history |
| PathMatchers.PathMatcher.LookupBindings | api_spec/src/path_matcher.h:393-426 | after any registrations, the method found, its variables bound to their slices of the parts, all within bounds, and then the bindings of the query; if all verbs are sound, the registration serves the request and each variable is bound to the unescaped run of parts that its segments took, under exactly the condition of SliceIsTheRun |
| PathMatchers.FoundBindsRuns | api_spec/src/path_matcher.h:414-420 | if all verbs are sound, what lookup finds belongs to a registration that serves the parts, and its variables are bound to the runs of its segments |
| PathMatchers.FoundIsInBounds | api_spec/src/path_matcher.h:414-420 | after any registrations with any verbs, whatever lookup finds has variables whose slices lie within the request's parts |
| Bindings.ExtractBindingsFromPath | api_spec/src/path_matcher.h:250-281 | one binding per variable, the unescaped parts of its slice joined by slashes |
| Bindings.BoundValue | api_spec/src/path_matcher.h:271-279 | the loop joins the unescaped parts with slashes between them |
| Bindings.MultipartSplits | api_spec/src/path_matcher.h:266-279 | a value of several parts can be split at its slashes into the unescaped parts again |
| Bindings.MatchesDivides | api_spec/src/path_matcher_node.cc:142-173 | parts that a path matches can be divided among its segments |
| Bindings.DivisionIsUnique | api_spec/src/path_matcher_node.cc:142-173 | there is only one such division |
| Bindings.SliceIsTheRun | api_spec/src/path_matcher.h:258-262 | the slice computed for a variable is within bounds; it is the run of parts its segments took if and only if the variable contains the `**`, or no `**` precedes it, or the request has as many parts as the path |
| Bindings.MultipartIff | api_spec/src/path_matcher.h:265-270 | a variable is taken for one of several parts if and only if it has several segments or the `**` |
| Bindings.ReadIsInBounds | api_spec/src/path_matcher.h:258-262 | for any request that lookup takes a template's path for, meant or not, every variable's slice lies within the parts |
| Bindings.BindingIsRun | api_spec/src/path_matcher.h:258-280 | the binding of a variable is the run of parts its segments took, unescaped and joined, under exactly that condition; reserved characters are decoded just in variables of one segment that is no `**` |
| Bindings.BoundToRuns | api_spec/src/path_matcher.h:250-281 | all variables of a template are bound so, for one division of the parts among its segments |
| Bindings.RangeIsVariable | api_spec/src/http_template.cc:278-300 | each range covers the segments of one variable of the tree and carries its names |
| QueryParameters.ExtractBindingsFromQueryParameters | api_spec/src/path_matcher.h:283-309 | one binding per parameter with a name that is no system parameter, in order, behind those there are |
| QueryParameters.BindParameter | api_spec/src/path_matcher.h:289-305 | a parameter is split at its first `=`, its name at the dots, and its value decoded |
| QueryParameters.ParameterBinds | api_spec/src/path_matcher.h:291-305 | for any parameter: without `=`, without a name or with that of a system parameter it binds nothing; otherwise the dotted name before the first `=` to the decoded rest |
| QueryParameters.WrittenIsRead | api_spec/src/path_matcher.h:289-305 | a binding written as name and percent-encoded value is read back |
| QueryParameters.QueryRoundTrip | api_spec/src/path_matcher.h:283-309 | a query written from bindings has exactly those bindings, in order |
| CircularQueues.CircularQueue.constructor | prefetch/circular_queue.h:51-53 | an empty queue over the given number of nodes |
| CircularQueues.CircularQueue.Push | prefetch/circular_queue.h:55-69 | the contents get one element at the end, whether or not the ring had to grow |
| CircularQueues.CircularQueue.Grow | prefetch/circular_queue.h:57-65 | doubling at any head offset keeps the contents |
| CircularQueues.CircularQueue.Pop | prefetch/circular_queue.h:71-76 | the contents lose their first element, nothing when empty |
| CircularQueues.CircularQueue.Head | prefetch/circular_queue.h:78-82 | a pointer to the first element, null when empty |
| CircularQueues.CircularQueue.Store | prefetch/circular_queue.h:38-39 | a write through such a pointer changes that element and no other |
| CircularQueues.CircularQueue.Iterate | prefetch/circular_queue.h:84-92 | visits the contents in order up to the first false, and nothing when the ring is exactly full |
| TimeBasedCounters.TimeBasedCounter.Clear | prefetch/time_based_counter.cc:31-37 | correct when everything counted has left the window; the slots start anew at t |
| TimeBasedCounters.TimeBasedCounter.Roll | prefetch/time_based_counter.cc:39-53 | moves the window so that its newest slot contains t, each slot keeping the sum of its interval |
| TimeBasedCounters.TimeBasedCounter.Inc | prefetch/time_based_counter.cc:55-59 | the log gets one event |
| TimeBasedCounters.TimeBasedCounter.Count | prefetch/time_based_counter.cc:61-64 | exactly what was logged at or after a cutoff W with t - size*slot < W <= t - (size-1)*slot |
| TimeBasedCounters.TimeBasedCounter.SlotsToRoll | prefetch/time_based_counter.cc:40-42 | the number of slots passed, in spite of the narrowing to uint32_t, for calls in time |
| QuotaPrefetch.QuotaPrefetchImpl.CountAvailable | prefetch/quota_prefetch.cc:138-147 | the live total of the slots that iteration gets to see |
| QuotaPrefetch.QuotaPrefetchImpl.CheckMinAvailable | prefetch/quota_prefetch.cc:149-159 | stopping early does not change whether the minimum is reached |
| QuotaPrefetch.QuotaPrefetchImpl.FindSlotById | prefetch/quota_prefetch.cc:196-206 | a pointer to the first visible slot with the id |
| QuotaPrefetch.QuotaPrefetchImpl.Add | prefetch/quota_prefetch.cc:208-212 | computes QuotaModel.Add with a fresh id |
| QuotaPrefetch.QuotaPrefetchImpl.Substract | prefetch/quota_prefetch.cc:214-235 | the popping loop computes QuotaModel.Spend |
| QuotaPrefetch.QuotaPrefetchImpl.SubstractFromHead | prefetch/quota_prefetch.cc:216-232 | one turn of the loop takes what it can from the first slot, and pops it unless something is left in it |
| QuotaPrefetch.QuotaPrefetchImpl.Prefetch | prefetch/quota_prefetch.cc:177-194 | computes QuotaModel.Prefetch: the loan, the time and the outstanding callback |
| QuotaPrefetch.QuotaPrefetchImpl.AttemptPrefetch | prefetch/quota_prefetch.cc:161-175 | computes QuotaModel.AttemptPrefetch on the counter's exact count |
| QuotaPrefetch.QuotaPrefetchImpl.Check | prefetch/quota_prefetch.cc:289-307 | computes QuotaModel.Check and keeps the protocol's invariant; the amount is logged in the predict window |
| QuotaPrefetch.QuotaPrefetchImpl.OnResponse | prefetch/quota_prefetch.cc:237-287 | computes QuotaModel.OnResponse for any outstanding callback |
| QuotaProofs.SubstractExact | prefetch/quota_prefetch.cc:214-235 | returns max(0, delta - live) and leaves max(0, live - delta) live; taken, dropped and left add up |
| QuotaProofs.SubstractKeepsTail | prefetch/quota_prefetch.cc:214-235 | the slots left are a tail of those before, unchanged but for the first of them, of which only the amount may be lower |
| QuotaProofs.CheckIsAllOrNothing | prefetch/quota_prefetch.cc:289-307 | success lowers the live total by exactly the amount, refusal leaves it as the prefetch left it |
| QuotaProofs.CheckSucceedsIff | prefetch/quota_prefetch.cc:296-302 | success exactly when the live total covers the amount, except that nothing counts for amounts other than one while the ring is exactly full |
| QuotaProofs.CheckKeeps | prefetch/quota_prefetch.cc:289-307 | a check keeps the slots ordered and non-negative and every token accounted for |
| QuotaProofs.ResponseKeeps | prefetch/quota_prefetch.cc:237-287 | any answer to any outstanding request keeps the accounts, and sets the mode by whether it grants exactly what was asked for |
| QuotaProofs.RevokeKeeps | prefetch/quota_prefetch.cc:258-270 | what an answer takes back comes from its own slot first, then from others; the rest is an overdraft |
| QuotaProofs.WantedIsPositive | prefetch/quota_prefetch.cc:161-194 | whatever min_prefetch_amount is, a prefetch asks for a positive amount |
| QuotaProofs.OpenAdmitsOne | prefetch/quota_prefetch.cc:161-175 | in OPEN mode Check(1) always succeeds |
| QuotaProofs.CloseWaits | prefetch/quota_prefetch.cc:162-166 | in CLOSE mode nothing is lent, and a prefetch starts only with nothing in flight and the wait window passed |
| QuotaProofs.TokensAreConserved | prefetch/quota_prefetch.cc:177-307 | over every interleaving of checks and answers: added = admitted + in slots + revoked + dropped, so admitted <= settled + on loan + overdraft, where of a loan no more is settled than was lent; the in-flight count is the number of open callbacks |
| QuotaProofs.ModesOverRuns | prefetch/quota_prefetch.cc:161-175 | the guarantees of both modes in every state a run can reach |
| QuotaLaws.PrefetchIff | prefetch/quota_prefetch.cc:161-194 | a check adds one request if and only if the mode is OPEN, or nothing is in flight and the wait window has passed, and the visible live total is below the amount, or nothing is in flight and it is below half of what the window passed or the minimum; it is for the greatest of the three, and lent if and only if the mode is OPEN and nothing is visible |
| QuotaLaws.CheckIsExact | prefetch/quota_prefetch.cc:214-307 | what a check takes from the slots, a lent one included: slots from the front that are used up or expired, up to the amount, the last one touched keeping its rest; and when it succeeds |
| QuotaLaws.GrantIsExact | prefetch/quota_prefetch.cc:237-287 | an answer to a request that lent nothing adds one slot with what it grants, which expires with the answer |
| QuotaLaws.LoanIsExact | prefetch/quota_prefetch.cc:237-287 | an answer to a loan takes what it does not grant from the loan's slot, and from the front what that cannot make good; if something is left in the slot it expires with the answer |
| AttributeCoding.BatchLater | src/attribute_compressor.cc:151-156 | a batch decodes to the same sets when words are added to the message later |
| AttributeCoding.BatchGrows | src/attribute_compressor.cc:140-147 | one delta more decodes to one set more, what all deltas together say by name |
| AttributeCoding.DecodedIsSet | src/attribute_compressor.cc:123-124 | no decoder ever sees a value that is not set |
| AttributeCoding.PutFills | src/attribute_compressor.cc:96-125 | an attribute put into the map of its type reads back as itself and leaves the others |
| DeltaUpdates.DeltaIsRightIff | src/delta_update.cc:38-55 | a receiver gets a supported set right from its delta if and only if all its values are set and it repeats only remembered values that were received |
| DeltaUpdates.DeltaUpdate.Start | src/delta_update.cc:31-36 | all remembered indexes are to be seen again |
| DeltaUpdates.DeltaUpdate.Check | src/delta_update.cc:38-51 | same if and only if the index is remembered with this value; it is remembered now and seen |
| DeltaUpdates.DeltaUpdate.Finish | src/delta_update.cc:53-55 | supported if and only if no index in the set begun by Start is left, or the variant tracks nothing |
| AttributeCompressors.GlobalDictionary.constructor | src/attribute_compressor.cc:166-172 | every global word is indexed at a place where it stands |
| AttributeCompressors.GlobalDictionary.GetIndex | src/attribute_compressor.cc:174-183 | the index of the word if it has one below the top, which stands for it, and none otherwise |
| AttributeCompressors.GlobalDictionary.ShrinkToBase | src/attribute_compressor.cc:185-191 | a top above the base size becomes the base size, any other stays |
| AttributeCompressors.MessageDictionary.GetIndex | src/attribute_compressor.cc:43-58 | an index that stands for the word; a word that has an index keeps it and adds nothing, another one is added; no other word changes its index |
| WordDictionaries.WithKeeps | src/attribute_compressor.cc:43-58 | adding a word leaves the tables consistent, each message word in just one place, and every index as it was |
| WordDictionaries.SupportedIff | src/delta_update.cc:53-55 | a delta can express a set if and only if the set has every name told before and none of their indexes has been cut off by a shrink |
| WordDictionaries.EmittedByName | src/delta_update.cc:38-51 | what is emitted for the word indexes of a set is, by name, what differs from the values told before |
| WordDictionaries.StaysInStep | src/attribute_compressor.cc:140-147 | sender and receiver stay in step by name over a set that was sent |
| WordDictionaries.RemembersTold | src/delta_update.cc:38-51 | the sender remembers by index what it was told by name, refused sets included |
| WordDictionaries.InStepShrinks | src/attribute_compressor.cc:185-191 | a shrink of the global dictionary between two sets disturbs nothing but cuts indexes off |
| AttributeCompressors.CreateStringMap | src/attribute_compressor.cc:70-78 | visited in any order, the entries decode to the map |
| AttributeCompressors.FillAttribute | src/attribute_compressor.cc:96-125 | the value reads back from the map of its type; a value that is not set is not emitted |
| AttributeCompressors.CompressByDict | src/attribute_compressor.cc:80-129 | visited in any order, the set is its indexed values, at the indexes its names now have; what is emitted decodes to those that differ from the remembered ones; false if and only if something remembered is missing |
| AttributeCompressors.BatchCompressor.Add | src/attribute_compressor.cc:140-147 | true if and only if the set has every name given to the batch before, in sets added or refused, and no index of theirs was cut off by a shrink; an added set is received as it is if and only if all its values are set and it repeats a value last given only if that was last sent; the batch stays decodable |
| BatchHistories.LastArrivesIff | src/delta_update.cc:38-55 | the same for a set added to any history of calls |
| BatchHistories.ArrivedIff | src/attribute_compressor.cc:140-156 | each single set added is read as it was added if and only if it arrives |
| BatchHistories.ArrivedAllIff | src/report_batch.cc:67-89 | the same for each set over all batches sent |
| BatchHistories.HeardIsAddedIff | src/attribute_compressor.cc:140-156 | a decoder reads exactly the sets added if and only if each of them arrives |
| BatchHistories.AllAcceptedIff | src/attribute_compressor.cc:140-156 | without refusals it does if and only if all values are set |
| BatchHistories.RefusedValueIsLost | src/delta_update.cc:44-55 | after a refusal with a new value for one name, the set that repeats that value is read as the set before |
| AttributeCompressors.BatchCompressor.Finish | src/attribute_compressor.cc:151-156 | the request decodes, with the recorded global words and its own, to what the calls of Add determine; to exactly the sets added if and only if each of them arrives |
| AttributeCompressors.RefusalMisleads | src/attribute_compressor.cc:140-156 | three calls of Add, the second refused: the third set is read as the first |
| AttributeCompressors.AttributeCompressor.Compress | src/attribute_compressor.cc:193-204 | a single set with its own words reads back without the values that are not set, so exactly if and only if all are set |
| AttributeCompressors.AttributeCompressor.CreateBatchCompressor | src/attribute_compressor.cc:206-210 | a fresh empty batch over the shared dictionary |
| AttributeCompressors.AttributeCompressor.ShrinkGlobalDictionary | src/attribute_compressor.h:75 | the dictionary falls back to the 111 words of its first version, if it was larger |
| AttributeCompressors.WholeSet | src/attribute_compressor.cc:193-204 | without delta coding everything that is set is emitted |
| ReportBatches.SendingKeepsOrder | src/report_batch.cc:67-89 | sending the pending batch makes it the last of those delivered, set for set what its decoder reads, in order |
| ReportBatches.AddingKeepsOrder | src/report_batch.cc:41-54 | a report added is pending behind all earlier ones |
| ReportBatches.ReportBatch.Report | src/report_batch.cc:41-65 | a request is sent exactly if the batch is full with this report, and then with it, or could not take it, and then without it; the requests sent before stay; the report is pending or sent; no request is empty or over the limit, the counters are right, and a pending batch has its timer armed if timers can be made |
| ReportBatches.ReportBatch.AddToBatch | src/report_batch.cc:44-54 | the report joins the pending batch if it can take it, and otherwise a fresh one after the old was sent |
| ReportBatches.ReportBatch.TakesIff | src/report_batch.cc:44-54 | as long as the dictionary was not shrunk, the pending batch takes a report if and only if it has all attribute names of the one before |
| ReportBatches.ReportBatch.StartOver | src/report_batch.cc:49-54 | the refusing batch is sent as it was, and a fresh one always takes the report |
| ReportBatches.ReportBatch.FlushWithLock | src/report_batch.cc:67-89 | if there is a pending batch, exactly one request more is sent, with its sets; the timer stops; the dictionary falls back to its first version if and only if the transport answers at once that it is invalid |
| ReportBatches.ReportBatch.Flush | src/report_batch.cc:91-94 | afterwards nothing is pending and as many sets have been delivered as submitted; each as it was submitted if and only if it arrives in its batch, and all of them if and only if all their values are set |
| ReportBatches.ReportBatch.Respond | src/report_batch.cc:80-88 | an answer at any later time breaks nothing, and lets the dictionary fall back to its first version if and only if it says that it is invalid |
| ReportBatches.FallsBackAfterError | src/report_batch.cc:80-88 | after such an answer the next batch goes out with no more global words than the first version has |
| ReportBatches.AllDelivered | src/report_batch.cc:39 | once nothing is pending every submitted set has been delivered in its place, as it was if and only if it arrives; all are if and only if all are set |
| ReferencedModel.AtMostIsOrder | src/referenced.h:60-67 | the comparison of keys is a total order |
| ReferencedModel.LessIff | src/referenced.h:60-67 | strings are compared at their first difference, a proper prefix coming first |
| ReferencedModel.SortedIsOrdered | src/referenced.cc:109-110 | sorting gives keys in that order |
| ReferencedModel.OrderIsUnique | src/referenced.cc:109-110 | there is only one ordered arrangement of given keys |
| ReferencedModel.OrderOfMatchesIsIrrelevant | src/referenced.cc:78-115 | permuting the server's matches changes neither whether they can be used nor the sorted keys |
| ReferencedModel.SignatureIff | src/referenced.cc:117-238 | there is a signature if and only if every absence key is absent and every exact key present |
| ReferencedModel.EqualSignatures | src/referenced.cc:117-238 | for attributes of one kind per name, signatures are equal if and only if the extra keys are equal and the attributes agree on every exact key |
| ReferencedModel.TokensAgree | src/referenced.cc:158-235 | the same for the hashed tokens, string maps group by group |
| ReferencedHashes.HashesAgreeIff | src/referenced.cc:240-249 | two hashes are equal if and only if both lists of keys have the same names and map keys in a row, whichever of the two a word is |
| ReferencedHashes.HashIdentifiesIff | src/referenced.cc:240-249 | for any set of names used without a map key and any used with one: hashes identify the sorted keys with such names if and only if no name is in both sets, or only the empty one is and no other is used without a map key |
| ReferencedHashes.HashIdentifies | src/referenced.cc:240-249 | keys in any order: as long as a name tells whether there is a map key, hashes are equal if and only if the keys are |
| ReferencedBytes.HashIsFed | src/referenced.cc:65-76 | the bytes hashed are those of the tokens: each word with a NUL, and a bare colon between the lists |
| ReferencedBytes.BytesAgreeIff | src/referenced.cc:240-249 | two hashes are of the same bytes if and only if they spell the same words, the colon being the first character of the first exact name |
| ReferencedBytes.BytesIdentifyIff | src/referenced.cc:240-249 | for non-empty names: the bytes identify the keys if and only if no name is used both ways and no two names that differ by a colon in front let the colon between the lists be taken for part of a name (ColonClash says exactly when); words have no NUL |
| ReferencedAttributes.Decode | src/referenced.cc:36-61 | the word of an index, or failure beyond either list |
| ReferencedAttributes.DecodeMatch | src/referenced.cc:83-97 | the key of a match; the map key is decoded only for a string map of that name |
| ReferencedAttributes.Referenced.Fill | src/referenced.cc:78-115 | true if and only if every word decodes and no match is a regular expression; then the keys are the sorted keys of the matches with each condition |
| ReferencedLaws.FillableIff | src/referenced.cc:36-107 | Fill succeeds if and only if every name is one of the words, every map key is where the attributes have a string map of the name, and no match is a regular expression |
| ReferencedLaws.FillIsExact | src/referenced.cc:78-115 | the keys of a condition are in order, and each is there as often as a match of the condition gives it: the decoded name, with the decoded map key exactly where there is a string map of that name |
| ReferencedLaws.SignatureExistsIff | src/referenced.cc:117-238 | when there is a signature, told on the attributes: each absence key names nothing or a string map without its map key, and each exact key something, with its map key if it is a string map |
| ReferencedAttributes.FilledUse | src/referenced.cc:83-115 | the keys that Fill makes of matches are sorted and use names as the matches do on the attributes at hand |
| ReferencedAttributes.FillsIdentifiedIff | src/referenced.cc:78-249 | over all answers that Fill can take: the hash identifies the keys it makes of them if and only if no name is looked at both with and without a map key, or only the empty one is and no other is looked at without one |
| ReferencedAttributes.HashConfuses | src/referenced.cc:78-249 | two answers run through Fill, Hash and Signature: one match for an entry of a string map, and two on attributes without these names; both give signatures, their keys differ, their hashes are equal |
| ReferencedAttributes.Referenced.CheckAbsence | src/referenced.cc:122-154 | the grouped scan says exactly whether every absence key is absent |
| ReferencedAttributes.Referenced.HashEntries | src/referenced.cc:197-228 | the inner loop hashes the entries of all keys of one string map and stops at its last key, or fails on a missing entry |
| ReferencedAttributes.Referenced.Signature | src/referenced.cc:117-238 | the scans compute SignatureOf |
| ReferencedAttributes.Referenced.UpdateHash | src/referenced.cc:65-76 | appends the tokens of the keys |
| ReferencedAttributes.Referenced.Hash | src/referenced.cc:240-249 | the absence keys, a separator and the exact keys |
| ReferencedAttributes.MatchOrderIsIrrelevant | src/referenced.cc:78-249 | permuting the server's matches changes neither hash nor any signature |

## Left out

- LruCache.SimpleLRUCache.Lookup: models the default options; mixing options on one key can link an element twice in the original.
- LruCache.SimpleLRUCache.SetTimeout: starts from the limit in cycles; the floating-point conversion from seconds and its rounding at the largest int64 are not modelled. The mode is assigned behind DiscardIdle, which does not read it. The assertion at utils/simple_lru_cache_inl.h:925 is not modelled: it can fail when the mode changes to LRU with pinned entries listed; SetTimeoutIff says when the invariants survive.
- LruCache.SimpleLRUCache.Release: the clock is taken not to run backwards; the original tolerates small steps back by an assertion in debug builds only.
- LruCache.SimpleLRUCache.InsertPinned: a value is a non-null address that is not live in the cache; IsOverfull is not overridden.
- PathMatchers.PathMatcher.LookupBindings: the system parameters of a method are a parameter; that the registration serves the request is said only if all verbs are sound, as it may not otherwise (SoundVerbIff).
- PathMatcherModel.LookupServesTheBest: that what is found fits is said only if all verbs are sound; SoundVerbIff says that a template with another verb is found for requests it does not fit, and LookupFindsTheRead what is found in general.
- UrlUnescaping.UrlUnescapeString: a character stands for a byte; sign extension of `char` plays no part.
- PathMatcherNode::Clone, PathInfo's builder and the API specification parser: copying and wiring.
- TimeBasedCounters.TimeBasedCounter.Roll: requires that fewer than 2^32 slots have passed, so that the narrowing to uint32_t loses nothing, and that time does not run backwards.
- QuotaPrefetch.QuotaPrefetchImpl.Check: the transport calls back after Check has returned, each callback once.
- CircularQueues.CircularQueue.Iterate: the visitor computes a value from references; writes through a found pointer are Store.
- AttributeCompressors.CompressByDict: doubles are real numbers, so NaN and signed zeros are not modelled; timestamps and durations are pairs; protobuf equality is equality of values.
- DeltaUpdates.DeltaUpdate.Start: the copy of the remembered indexes is one assignment; both variants of the interface are one class with a flag.
- AttributeCompressors.GlobalDictionary.constructor: the generated word list is a parameter.
- ReportBatches.ReportBatch.FlushWithLock: the transport's immediate answer is a function of the number of the call; locks are atomic steps, the timer is an armed flag.
- ReferencedModel.EqualSignatures: assumes one kind of value per attribute name, as in the original strings and bytes of the same content, or a timestamp and a duration, hash alike; the digest is taken to be injective on token sequences.
- ReferencedBytes.BytesIdentifyIff: for names that are not empty, and words without NUL; the digest is taken to be injective on what it is fed. Signatures are compared on tokens only.
- ReferencedAttributes.Referenced.Fill: sorting is insertion sort; any sort gives the same keys.
- Machine integers are unbounded except where said; MD5, protobuf serialization, regular expressions and IP parsing are not modelled.
- The check and quota caches, the client, control and quota configuration, iterators, debug output, deferred-entry statistics and logging are not modelled: wiring and tables with shallow properties.
