# Company relations front end — a Dafny model

This project models the deterministic logic of a stock-relations web front
end. A company detail page draws the company in the middle of a graph of
related companies. Nodes are coloured by the kind of relation, and edges are
merged and weighted by direction. Hovering over a node or tapping it shows the
reasons for the relation. Company cards group their tags by label and show a
tooltip of reasons. Lists of companies are ordered by a priority. Free text
from the search box is sanitised and validated. A few small helpers produce
sentiment labels and colours, the stock-logo URL and a pastel colour for a
company's initial.

The modules follow the program's files:

- `company_types.dfy` (`CompanyTypes`): the records the API sends — tags,
  companies and a company detail with its related companies.
- `network_graph.dfy` (`NetworkGraph`): the relation graph component. It
  covers node colour, the node and edge builder, the active set and node
  highlighting, the relation summary, and the pointer and click handlers as a
  class over the component state.
- `company_item.dfy` (`CompanyItem`): the company card. It covers
  `isClickable`, `shouldShowInitial`, `translateTagLabel`, `groupedTags` as a
  loop over a map, and the tooltip text.
- `sort.dfy` (`CompanySort`): `sortCompanies` and its priority.
- `validation.dfy` (`Validation`): `sanitizeInput` and `isValidInput`.
- `values.dfy` (`Values`): the sentiment label and colour tables, and
  `getStockImageUrl` with `encodeURIComponent`.
- `color.dfy` (`CompanyColor`): `getCompanyColor`, with ToInt32 and the
  32-bit left shift written out.
- `seqs.dfy`, `strings.dfy` and `wrappers.dfy`: shared definitions.
  - `Dedup` is what `Array.from(new Set(s))` yields. It is also the key
    order of a `Map` that is filled by "insert if absent".
  - `Count` counts occurrences.
  - The module also has decimal printing, `join` and `split`, and an `Option`
    type.

JavaScript values are modelled as values. A `Map` filled in place is a Dafny
`map` plus a sequence that records its insertion order. A string is a
sequence of Unicode characters. `null` and `undefined` are `None`.

## Model

| member | source | states |
|---|---|---|
| NetworkGraph.HasInvestorTag | src/components/company/CompanyNetworkGraph.tsx:93 | true exactly when some tag is labelled 투자사 |
| NetworkGraph.HasNewsTag | src/components/company/CompanyNetworkGraph.tsx:99 | true exactly when some tag has a non-null newsId |
| NetworkGraph.NodeColor | src/components/company/CompanyNetworkGraph.tsx:91-106 | investor colour iff an investor tag exists; news colour iff there is no investor tag but some tag has a newsId; default colour iff neither |
| NetworkGraph.NodeColorIgnoresOrder | src/components/company/CompanyNetworkGraph.tsx:91-106 | two tag lists with the same members get the same colour, whatever their order and repetitions |
| NetworkGraph.NodeIds | src/components/company/CompanyNetworkGraph.tsx:114-136 | the ids offered to the node map: the center's `companyId` or name first, then each related company's, in list order |
| NetworkGraph.NodeMap | src/components/company/CompanyNetworkGraph.tsx:111-149 | the node map after the walk has a key for every offered id and no other |
| NetworkGraph.BuiltNodes | src/components/company/CompanyNetworkGraph.tsx:139-149 | one node per distinct offered id |
| NetworkGraph.Keys | src/components/company/CompanyNetworkGraph.tsx:153-160 | one edge key per related company, in list order, each `source-target` of that company's direction |
| NetworkGraph.DirectionCount | src/components/company/CompanyNetworkGraph.tsx:153-154 | the number of tags with a direction: at most the number of tags, and positive iff some tag has that direction |
| NetworkGraph.EdgeMap | src/components/company/CompanyNetworkGraph.tsx:162-176 | the edge map after the walk has a key for every edge key produced and no other |
| NetworkGraph.BuiltEdges | src/components/company/CompanyNetworkGraph.tsx:182-194 | one emitted edge per distinct edge key |
| NetworkGraph.NodeMapSnoc | src/components/company/CompanyNetworkGraph.tsx:139-149 | visiting one more company inserts its node only when its id is absent; an existing node is never replaced |
| NetworkGraph.EdgeMapSnoc | src/components/company/CompanyNetworkGraph.tsx:162-176 | visiting one more company adds one to the weight of an existing edge with its key, or inserts a new edge of weight 1 with its endpoints |
| NetworkGraph.BuildStart | src/components/company/CompanyNetworkGraph.tsx:111-132 | before the walk the node map holds the center node alone and the edge map is empty |
| NetworkGraph.BuildStep | src/components/company/CompanyNetworkGraph.tsx:135-177 | one iteration of the walk takes the maps and insertion orders of a prefix to those of the prefix one longer |
| NetworkGraph.VisitRelated | src/components/company/CompanyNetworkGraph.tsx:136-176 | the body of the `forEach`: the node map and order gain the company's node iff its id is new, and the edge map is updated by the merge rule with its order extended iff the key is new |
| NetworkGraph.VisitAll | src/components/company/CompanyNetworkGraph.tsx:135-177 | the loop leaves node and edge maps equal to the specification maps, with keys in first-insertion order |
| NetworkGraph.NodesFromMap | src/components/company/CompanyNetworkGraph.tsx:180 | reading the node map in insertion order gives the built node list |
| NetworkGraph.EdgesFromMap | src/components/company/CompanyNetworkGraph.tsx:183-194 | reading the edge map in insertion order and emitting each entry gives the built edge list |
| NetworkGraph.BuildGraph | src/components/company/CompanyNetworkGraph.tsx:109-197 | the builder returns exactly the specified nodes and edges |
| NetworkGraph.NodeForId | src/components/company/CompanyNetworkGraph.tsx:114-148 | the node kept for an id carries that id, has size 40 and is not dimmed |
| NetworkGraph.BuiltNodeIds | src/components/company/CompanyNetworkGraph.tsx:111-149 | the node ids are the distinct offered ids in order of first insertion; the first node is the center node; every node has size 40 and is not dimmed |
| NetworkGraph.BuiltNodeIdsDistinct | src/components/company/CompanyNetworkGraph.tsx:139-149 | no two nodes share an id, and the ids are exactly the center's and the related companies' ids |
| NetworkGraph.BuiltNodesSnoc | src/components/company/CompanyNetworkGraph.tsx:139-149 | a company whose id is already a node changes no node; otherwise exactly its own node is appended |
| NetworkGraph.BuiltNodesPrefix | src/components/company/CompanyNetworkGraph.tsx:139-149 | the nodes built so far stay in place when one more company is visited |
| NetworkGraph.BuiltNodesStart | src/components/company/CompanyNetworkGraph.tsx:114-120 | with no related company the graph is the center node alone |
| NetworkGraph.NodeForFirstEntry | src/components/company/CompanyNetworkGraph.tsx:139-149 | the node of an id is built from the first related company with that id |
| NetworkGraph.WeightLabelRoundTrip | src/components/company/CompanyNetworkGraph.tsx:184 | the edge label is empty exactly for weight 1, and it otherwise reads back as the weight in decimal |
| NetworkGraph.BuiltEdgeShape | src/components/company/CompanyNetworkGraph.tsx:183-194 | every edge has id `source-target` equal to its key and the center as source or target, has size 1 and fill #DBDBDB, and carries a label that reads back as the number of related companies with its key (at least 1), empty exactly when that number is 1 |
| NetworkGraph.EdgeDirection | src/components/company/CompanyNetworkGraph.tsx:153-159 | each related company lies on an edge from itself to the center when it has more IN than OUT tags, and from the center to itself otherwise (ties and 0/0 included); the first company with a key fixes the endpoints |
| NetworkGraph.TotalWeightOfKeys | src/components/company/CompanyNetworkGraph.tsx:162-176 | the weights of a set of keys sum to the number of related companies with those keys |
| NetworkGraph.EdgeWeightsSumToRelated | src/components/company/CompanyNetworkGraph.tsx:162-176 | the weights of all edges sum to the length of the related list |
| NetworkGraph.SelfLoopKey | src/components/company/CompanyNetworkGraph.tsx:160 | a key `a-b` equal to `c-c`, where one of a and b is c, forces both to be c |
| NetworkGraph.SelfLoop | src/components/company/CompanyNetworkGraph.tsx:157-160 | a related company with the center's id yields a center-to-center edge |
| NetworkGraph.SharedKeyMerges | src/components/company/CompanyNetworkGraph.tsx:160-167 | two companies with the same key share one edge whose endpoints are the first company's |
| NetworkGraph.EdgeKeysCollide | src/components/company/CompanyNetworkGraph.tsx:160 | ids containing `-` can make two edges with different endpoints share a key; they merge into one edge of weight 2 with the first one's endpoints |
| NetworkGraph.EntryIds | src/components/company/CompanyNetworkGraph.tsx:216-235 | the ids an `actives` or `selections` value names: the id of every node object or id string in it, and none when it is not an array |
| NetworkGraph.ActiveIds | src/components/company/CompanyNetworkGraph.tsx:213-240 | the active set is the union of the ids in `actives`, the ids in `selections` and the hovered node's id |
| NetworkGraph.EntryIdsSnoc | src/components/company/CompanyNetworkGraph.tsx:217-223 | one more entry adds its id, or nothing when it is neither a node nor a string |
| NetworkGraph.AddEntryIds | src/components/company/CompanyNetworkGraph.tsx:216-235 | the `forEach` over one list adds exactly the ids that list names |
| NetworkGraph.CollectActiveIds | src/components/company/CompanyNetworkGraph.tsx:212-240 | the set built step by step is the active set |
| NetworkGraph.ColorNode | src/components/company/CompanyNetworkGraph.tsx:242-267 | the center node is returned unchanged; any other node keeps its id, caption, size and data, gets the colour of its tags, and is dimmed iff it was already dimmed or is not active |
| NetworkGraph.NodeTags | src/components/company/CompanyNetworkGraph.tsx:249-251 | a node with data is coloured by its own company's tags; a node without data gets the default colour |
| NetworkGraph.ColorNodes | src/components/company/CompanyNetworkGraph.tsx:242 | node count and order are kept and each node is coloured on its own |
| NetworkGraph.ColoringKeepsBuiltNodes | src/components/company/CompanyNetworkGraph.tsx:242-267 | on built nodes the colouring only sets the dimmed flag, for exactly the non-center nodes outside the active set; the fill it recomputes equals the builder's |
| NetworkGraph.AllActiveColoringIsIdentity | src/components/company/CompanyNetworkGraph.tsx:242-267 | when every node is active, colouring returns the built nodes unchanged |
| NetworkGraph.ReasonsOf | src/components/company/CompanyNetworkGraph.tsx:309-314 | the reasons of the tags of one direction: one per such tag, and exactly their reasons |
| NetworkGraph.NodeRelations | src/components/company/CompanyNetworkGraph.tsx:302-321 | null iff neither a hovered nor a selected node exists or the target has no data; hover takes precedence; otherwise the name and the distinct IN and OUT reasons of the target's own tags |
| NetworkGraph.NodeRelationsOrder | src/components/company/CompanyNetworkGraph.tsx:309-319 | the distinct IN and OUT reasons come out in order of their first occurrence among the target's tags |
| NetworkGraph.RelationsOfFirstEntry | src/components/company/CompanyNetworkGraph.tsx:302-321 | hovering over a built node summarises the first related company with that id alone |
| NetworkGraph.EligibleTargetHasRelations | src/components/company/CompanyNetworkGraph.tsx:302-304 | for nodes the handlers admit, a summary exists iff some node is hovered or selected |
| NetworkGraph.GraphInteraction.constructor | src/components/company/CompanyNetworkGraph.tsx:80-88 | nothing hovered or selected, path selection IN |
| NetworkGraph.GraphInteraction.NodeClick | src/components/company/CompanyNetworkGraph.tsx:271-281 | selects the node iff on mobile, not the center and with data, and clears the selection otherwise; nothing else changes |
| NetworkGraph.GraphInteraction.NodePointerOver | src/components/company/CompanyNetworkGraph.tsx:284-293 | on desktop, for a non-center node with data, hovers it with the pointer coordinates (0 when absent); otherwise nothing changes |
| NetworkGraph.GraphInteraction.NodePointerOut | src/components/company/CompanyNetworkGraph.tsx:295-299 | clears the hover on desktop only; nothing else changes |
| NetworkGraph.GraphInteraction.CanvasClick | src/components/company/CompanyNetworkGraph.tsx:386-391 | clears the selection on mobile only; nothing else changes |
| NetworkGraph.GraphInteraction.CloseSheet | src/components/company/CompanyNetworkGraph.tsx:418 | closing the bottom sheet clears the selection; nothing else changes |
| NetworkGraph.GraphInteraction.SetPathSelectionType | src/components/company/CompanyNetworkGraph.tsx:342-377 | the IN, OUT and ALL buttons set the path selection; nothing else changes |
| CompanyItem.ShouldShowInitial | src/components/CompanyItem.tsx:31-34 | the initial is shown iff the company has no identifier or is foreign; otherwise a logo URL exists |
| CompanyItem.IsClickable | src/components/CompanyItem.tsx:86 | a clickable card (identifier, domestic, listed) shows its logo, and the logo URL exists |
| CompanyItem.TranslateTagLabelAsWritten | src/components/CompanyItem.tsx:56-63 | the lookup on an object literal yields an inherited member exactly for the names of `Object.prototype` |
| CompanyItem.ConstructorLabelIsNotText | src/components/CompanyItem.tsx:62 | the label `constructor` translates to the inherited constructor, not to text |
| CompanyItem.TranslateTagLabel | src/components/CompanyItem.tsx:56-63 | the three known labels get their Korean text, and every other label is returned unchanged |
| CompanyItem.TranslationAgreesOnText | src/components/CompanyItem.tsx:56-63 | wherever the code yields text it agrees with the intended translation, and elsewhere the intended translation is the label itself |
| CompanyItem.GroupMap | src/components/CompanyItem.tsx:67-82 | the tag map after the walk has a key for every label and no other |
| CompanyItem.AddTagAt | src/components/CompanyItem.tsx:69-80 | one step of the walk: a new label gets a group of this tag and its reason; a known label gets the reason appended iff it is not there yet; other labels are untouched |
| CompanyItem.GroupMapSnoc | src/components/CompanyItem.tsx:68-82 | the map of a longer tag list is the map of the shorter one after that step |
| CompanyItem.LoopStep | src/components/CompanyItem.tsx:68-82 | one iteration: the label order gains the label iff it is new, and the map takes the step |
| CompanyItem.GroupTags | src/components/CompanyItem.tsx:66-84 | the loop with `Map` updates and `push` returns exactly the specified groups |
| CompanyItem.Grouped | src/components/CompanyItem.tsx:66-84 | one group per distinct label, so at most one per tag |
| CompanyItem.GroupedFromMap | src/components/CompanyItem.tsx:83 | reading the map's values in insertion order gives the groups |
| CompanyItem.ReasonsWithLabelMembers | src/components/CompanyItem.tsx:69-80 | a reason is collected for a label iff some tag with that label carries it |
| CompanyItem.FirstReasonIsFirstTags | src/components/CompanyItem.tsx:77-80 | the first reason collected for a label is that of the first tag with the label |
| CompanyItem.GroupLabel | src/components/CompanyItem.tsx:66-84 | the groups' labels are the distinct labels in order of first appearance |
| CompanyItem.GroupedLabelsDistinct | src/components/CompanyItem.tsx:66-84 | at most one group per tag, and no two groups share a label |
| CompanyItem.GroupedCoversEveryTag | src/components/CompanyItem.tsx:68-82 | every tag's label has a group |
| CompanyItem.GroupTagIsFirst | src/components/CompanyItem.tsx:75-80 | each group's tag is the first tag in input order with that label |
| CompanyItem.GroupReasons | src/components/CompanyItem.tsx:69-80 | a group's reasons are distinct, start with its tag's reason, and are exactly the reasons of the tags with its label |
| CompanyItem.TotalReasonsBound | src/components/CompanyItem.tsx:68-82 | the reasons of the groups of some labels are at most the tags carrying those labels |
| CompanyItem.TooltipLinesAtMostTags | src/components/CompanyItem.tsx:68-82 | all groups together hold at most one reason per tag |
| CompanyItem.TooltipText | src/components/CompanyItem.tsx:174-176 | the tooltip is empty iff there is no reason |
| CompanyItem.TooltipHasOneLinePerReason | src/components/CompanyItem.tsx:174-176 | splitting the tooltip text at newlines gives back one `- reason` line per reason, provided no reason spans lines |
| CompanySort.Priority | src/lib/sort.ts:20-30 | the priority is at most 5, and at least 3 exactly when `companyId` is missing or empty |
| CompanySort.InsertSorted | src/lib/sort.ts:19-32 | inserting into a sorted list keeps it sorted |
| CompanySort.InsertPermutes | src/lib/sort.ts:19-32 | insertion adds exactly the inserted company |
| CompanySort.InsertWithPriority | src/lib/sort.ts:19-32 | insertion appends the company to its own priority class and leaves the other classes alone |
| CompanySort.SortCompanies | src/lib/sort.ts:18-33 | the result is non-decreasing in priority and a permutation of the input, and every company with an identifier precedes every company without one |
| CompanySort.SortCompaniesIsStable | src/lib/sort.ts:19-32 | companies of equal priority keep their input order |
| CompanySort.SortedIsBuckets | src/lib/sort.ts:31 | a sorted list is its priority classes concatenated in order |
| CompanySort.SortCompaniesIsBucketOrder | src/lib/sort.ts:8-17 | the result is the six classes in the documented order, each in input order |
| Validation.Take | src/lib/validation.ts:15-16 | exactly the first 100 characters of a longer input, and the whole input otherwise |
| Validation.RemoveControl | src/lib/validation.ts:19 | no character of U+0000 to U+001F or U+007F remains, and nothing is added |
| Validation.RemoveControlAppend | src/lib/validation.ts:19 | control removal works character by character: it distributes over concatenation |
| Validation.RemoveControlChar | src/lib/validation.ts:19 | one character is dropped iff it is a control character |
| Validation.StripTags | src/lib/validation.ts:22 | no `<` is followed later by a `>`, and nothing is added |
| Validation.StripTagsSpan | src/lib/validation.ts:22 | behind text without `<`, a `<` up to the first `>` after it goes, and the scan resumes behind that `>` |
| Validation.RemovePatternChars | src/lib/validation.ts:38 | removing a pattern only drops characters |
| Validation.MatchLength | src/lib/validation.ts:25-35 | a literal matches iff the text starts with it, letters compared without case, and then the match has its length; an event-handler match is `on` in either case, a run of at least one word character, a run of white space, then `=`, and covers exactly these |
| Validation.EventHandlerMatches | src/lib/validation.ts:29 | text of the shape `on\w+\s*=` is matched, and the match covers all of it; with the clause of MatchLength a match exists iff the text has this shape |
| Validation.RemovePattern | src/lib/validation.ts:38 | the global replacement never lengthens the text |
| Validation.RemoveMatchAfterPrefix | src/lib/validation.ts:38 | a match behind text where no match starts goes, exactly, and the scan resumes behind it |
| Validation.RemovePatternKeepsNoTag | src/lib/validation.ts:38 | removing a pattern never creates a tag |
| Validation.RemoveAll | src/lib/validation.ts:37-39 | removing the patterns one after the other adds no character and creates no tag |
| Validation.RemoveAllStep | src/lib/validation.ts:37-39 | each pass of the loop applies the next pattern to what the previous passes left |
| Validation.CollapseSpaces | src/lib/validation.ts:42 | every white space left is a single space, no two are adjacent, the result is empty iff the input is, and it starts with white space iff the input does |
| Validation.CollapseSpacesKeepsWord | src/lib/validation.ts:42 | text without white space is kept in front of whatever follows |
| Validation.CollapseSpacesRun | src/lib/validation.ts:42 | a whole run of white space becomes one space |
| Validation.CollapseSpacesKeepsNoTag | src/lib/validation.ts:42 | collapsing white space never creates a tag |
| Validation.Trim | src/lib/validation.ts:45 | the input without a leading and a trailing run of white space only: a slice whose cut-off ends are all white space, with no white space at either end, empty iff the input is all white space |
| Validation.Sanitized | src/lib/validation.ts:10-47 | empty for empty input; at most 100 characters, no control character, no tag, single-spaced with no white space at either end |
| Validation.SanitizeInput | src/lib/validation.ts:10-47 | the step-by-step method returns the specified result |
| Validation.RemoveBlockList | src/lib/validation.ts:37-39 | the loop over the block list removes each pattern in turn |
| Validation.SanitizedSteps | src/lib/validation.ts:12-46 | for non-empty input the result is slice, control removal, tag removal, block list, collapse, trim |
| Validation.SanitizedKeepsCleanInput | src/lib/validation.ts:10-47 | a short, control-free, tag-free, single-spaced input holding no blocked pattern is returned unchanged |
| Validation.RemoveControlKeeps | src/lib/validation.ts:19 | control removal keeps control-free text |
| Validation.StripTagsKeeps | src/lib/validation.ts:22 | tag removal keeps text that holds no tag |
| Validation.RemovePatternKeeps | src/lib/validation.ts:38 | text where no match starts is kept |
| Validation.RemoveAllKeeps | src/lib/validation.ts:37-39 | text where no pattern matches is kept by the whole block list |
| Validation.CollapseSpacesKeeps | src/lib/validation.ts:42 | single-spaced text is kept |
| Validation.TrimKeepsTrimmed | src/lib/validation.ts:45 | text without white space at either end is kept |
| Validation.SearchFolded | src/lib/validation.ts:75 | `pattern.test` finds the literal iff it occurs somewhere, letters compared without case |
| Validation.HasControl | src/lib/validation.ts:62 | true iff the input holds a control character |
| Validation.SomeOccurs | src/lib/validation.ts:75 | true iff some pattern occurs |
| Validation.IsValidInput | src/lib/validation.ts:54-76 | valid iff some character is not white space, the length is at most 100, there is no control character, and none of the seven literals occurs in any letter case |
| Validation.ValidatorAcceptsEventHandler | src/lib/validation.ts:65-75 | `onclick=x` is valid although the sanitizer's event-handler pattern matches its first 8 characters |
| Validation.HandlerMatchesOnclick | src/lib/validation.ts:29 | `/on\w+\s*=/` matches `onclick=` at the start of `onclick=x` |
| Validation.RemovalIsSinglePass | src/lib/validation.ts:37-39 | `javajavascript:script:` loses its inner `javascript:` and becomes `javascript:`: one pass per pattern |
| Validation.RemoveOneOccurrence | src/lib/validation.ts:38 | an occurrence preceded by match-free text and followed by too short a tail is all that goes |
| Validation.RemovePatternAfterPrefix | src/lib/validation.ts:38 | a prefix where no match starts is kept as it is |
| Values.SentimentLabel | src/lib/values.ts:1-16 | empty exactly for anything but the five sentiment names, undefined included |
| Values.SentimentLabelsDistinct | src/lib/values.ts:1-16 | the five sentiments have five different labels |
| Values.SentimentColor | src/lib/values.ts:18-38 | the gray classes exactly for anything but the five sentiment names |
| Values.BadgeColors | src/lib/values.ts:20-34 | the class string of each of the five sentiments |
| Values.SentimentColorsDistinct | src/lib/values.ts:18-38 | the five sentiments have five different class strings |
| Values.EncodeUriComponent | src/lib/values.ts:45-47 | every output character is unreserved, `%` or an upper-case hex digit |
| Values.Utf8RoundTrip | src/lib/values.ts:45-47 | the UTF-8 bytes of a character announce their own count in the lead byte and decode back to the character |
| Values.PercentRoundTrip | src/lib/values.ts:45-47 | `%XY` triples decode back to the bytes they encode |
| Values.DecodeEncode | src/lib/values.ts:45-47 | decoding the encoding gives the input back, so different texts have different encodings |
| Values.EncodeUriComponentAppend | src/lib/values.ts:45-47 | the encoding works character by character |
| Values.EncodeUriComponentUnreserved | src/lib/values.ts:45-47 | unreserved text is encoded as itself |
| Values.StockImageUrl | src/lib/values.ts:40-53 | none iff the code is missing or empty; the domestic URL, the default, starts with the image-service prefix, ends with the 64x64 query and holds only encoded characters between them; the foreign URL is exactly the EODHD prefix, the lower-cased code and `.png` |
| Values.DomesticUrlCarriesCode | src/lib/values.ts:44-48 | a code of unreserved characters appears verbatim in the domestic URL between the encoded icon prefix and `.png` |
| Values.UrlDelimitersEncoded | src/lib/values.ts:45-47 | the `:` and `/` of the icon URL are encoded as `%3A` and `%2F` |
| Values.DomesticUrlInjective | src/lib/values.ts:44-48 | different codes give different domestic logo URLs |
| CompanyColor.ToInt32 | src/lib/color.ts:5 | a 32-bit signed value congruent to its argument modulo 2^32 |
| CompanyColor.ShiftLeft5 | src/lib/color.ts:5 | `hash << 5` is a 32-bit signed value congruent to 32 times the hash modulo 2^32 |
| CompanyColor.NameHash | src/lib/color.ts:3-6 | the hash of a name agrees modulo 2^32 with the polynomial `31 * h + code` over its characters |
| CompanyColor.HashMagnitude | src/lib/color.ts:3-6 | the hash stays within the length of the name times 2^31 + 2^21, so it is exact below 2^53 |
| CompanyColor.HashColor | src/lib/color.ts:9-11 | hue in [0, 360), saturation in [60, 80), lightness in [70, 85) |
| CompanyColor.HueFixesColor | src/lib/color.ts:9-11 | the hue alone fixes saturation and lightness |
| CompanyColor.GetCompanyColor | src/lib/color.ts:2-14 | the loop computes the hash of the whole name, and the result is its `hsl(H, S%, L%)` text |
| CompanyColor.EmptyNameColor | src/lib/color.ts:2-14 | the empty name gives `hsl(0, 60%, 70%)` |
| Seqs.Dedup | src/components/company/CompanyNetworkGraph.tsx:318 | `Array.from(new Set(s))`: the same members, no repeats, no longer than the input |
| Seqs.DedupFirstOccurrenceOrder | src/components/company/CompanyNetworkGraph.tsx:318 | the distinct elements come out in order of first occurrence |
| Strings.DecimalRoundTrip | src/components/company/CompanyNetworkGraph.tsx:184 | the decimal text of a number reads back as the number |
| Strings.SplitJoin | src/components/CompanyItem.tsx:174-176 | splitting a join at its one-character separator gives the parts back when no part holds the separator |
| Strings.AsciiLowerString | src/lib/values.ts:50 | lower-casing keeps the length and maps each character on its own |

## Left out

- The graph library is not part of this model. Its `useSelection` paths, canvas, layout and default click handlers are left out. The `actives` and `selections` values it returns are inputs: a list of entries (node object, id string or anything else), or `None` when the value is not an array.
- JSX rendering is left out. This includes the relation popover and bottom sheet, their placement at the pointer coordinates, CSS classes, the React keys, and the initial letter with its background style. `PopoverShown` and `SheetShown` state only when each one is open.
- Device detection from `window.innerWidth` and the resize listener are left out: `isMobile` is a parameter of each handler.
- `opacity: 0.3` is modelled as the boolean `dimmed`.
- The word cloud, `format.ts`, `shuffleSort`, services and hooks, and the card's price display are left out. They involve floating point, the clock, randomness or I/O.
- The `inCount` and `outCount` sums on each edge are not modelled: nothing reads them.
- The model works on values rather than references. `sortCompanies` sorts a copy, so no caller-visible aliasing is lost there. In `groupedTags` the `push` into a group is a map update, and in the edge merge `existingEdge.weight += 1` is a map update.
- Strings are sequences of Unicode scalar values, while JavaScript strings are sequences of UTF-16 code units. A character outside the Basic Multilingual Plane is therefore one character in the model but two code units in the source. `slice(0, 100)` and `length > 100` in `sanitizeInput` and `isValidInput` count it as two, and the model counts it as one. `charCodeAt` in `getCompanyColor` sees its two surrogate units, and the model sees one code point. The results agree on text within the Basic Multilingual Plane. Lone surrogates, for which `encodeURIComponent` throws, cannot occur in the model.
- Values.StockImageUrl: `toLowerCase` is modelled for ASCII letters only.
- Validation.IsValidInput: JavaScript's `\s` is a fixed set of white-space characters, shared by the regular expressions and `trim`. Case-insensitive matching folds ASCII letters only, which is exact for these all-ASCII patterns.
- CompanyColor.GetCompanyColor: the arithmetic is exact integer arithmetic. It matches the source's floating point for names shorter than about four million characters (HashMagnitude); longer names are not modelled.
- NetworkGraph.NodeRelations: the reasons are de-duplicated by reason text alone, with a missing reason counting as one value, as the code does. A description that de-duplicates whole relations would differ.
- NetworkGraph.RelationsOfFirstEntry: when two related entries share an id, the summary shows the first entry's tags only, as the code does. The later entry's tags are not merged in.
- A missing reason is taken to be `null`. The `Tag` type declares `relReason` a string, and the model's `None` stands for a `null` from the API. An `undefined` reason would render as `undefined` rather than `null`, and `new Set` would keep it apart from `null`; that case is not modelled.
- The tooltip as displayed is not modelled. The card passes the `tooltipText` of CompanyItem.TooltipText to `TagWithTooltip`, which declares no such property and builds its tooltip from `relReasons` itself. `TagWithTooltip` is not part of this model; only the text the card computes is.
- CompanySort.Insert: the sort is modelled as insertion sort. Any stable sort with this comparator gives the same result (SortCompaniesIsBucketOrder), so only which comparisons are made is not captured.

## Findings

| source | as written | input that shows it | evidently intended | confidence | as-written member | corrected member |
|---|---|---|---|---|---|---|
| src/components/CompanyItem.tsx:56-63 | the lookup `labelMap[label]`, falling back to the label only when the lookup is falsy, runs on a plain object literal and so also finds the members inherited from `Object.prototype` | a tag labelled `constructor` is passed on with the `Object` function as its label, which React renders as nothing, so the chip shows no label; a tag labelled `__proto__` gets `Object.prototype`, an object React refuses to render | the three known labels are translated and every other label is shown as it is | not executed | CompanyItem.ConstructorLabelIsNotText | CompanyItem.TranslationAgreesOnText |
