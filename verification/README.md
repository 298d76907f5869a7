# UltraNix MCP: verified model

A Dafny 4.11 model of the algorithmic core of the UltraNix MCP server, with proofs about it. Four
subsystems are covered.

- **Vision.** The flood fill over the text detector's probability map, non-maximum suppression, CTC
  decoding, and the result cache in front of inference.
- **Accessibility tree.** The budgeted walks of the live tree, the stack searches over a harvested
  forest, the bounded-staleness cache, the focus search and the truncating tree dump.
- **Plugin macros.** The `${...}` template language, manifest validation, argument binding,
  substitution, the generated input schema and the deduplicating registry.
- **Codecs and state machines.** Pixel conversion and the frame slot it feeds, `file://` URIs, HTTP
  chunked decoding, key scrubbing, keystrokes and wheel scrolling, and the metrics registry.

Each file holds one module. Code that changes state is a class or a method with loops; its contract ties
it to a specification function or transition relation, and the lemmas are about that specification.
`dafny verify dfyconfig.toml` checks the project.

How the program's surroundings enter the model:

- Floating-point scores, latencies and wheel deltas are `real`; widths, counts and sums are unbounded,
  except where the source's word size decides an outcome (`ChunkedDecoding`).
- The desktop is a graph of accessibles in which a reference may be dead and cycles are allowed. It does
  not change during one walk. A query is any predicate over the stored attributes.
- Inference is one fixed function from requests to results. The frame digest is a function without
  collisions among the frames asked about. Times are parameters that never run backwards.
- Ordered maps are visited in key order; the cache's hash map in any order.
- Whether arithmetic overflow is checked is a parameter of the chunked decoder.
- The tool catalog is a set of names. Rendering of a JSON value as text is any function.

Results that differ from what the code's comments suggest:

- A tree dump raises `truncated` also when the cap is spent and only dead references remain
  (`TreeDump.TruncatedIff`, `TreeDump.DeadTailRaisesFlag`).
- A plugin name can be blocked by a file that was itself skipped (`PluginRegistry.BlockedNameWithoutHolder`);
  a name has a loaded holder exactly when the first valid file of that name was not refused for its tool
  name (`PluginRegistry.NameHeldIff`).
- The focus search answers with the first carrier of the state exactly when that carrier's reference can be
  rebuilt (`TreeFocus.FocusExact`). Whether rebuilding can fail is up to the bindings, which are not part
  of this model; the code has a branch for it, and there a carrier would hide everything below it
  (`TreeFocus.ReflessCarrierHidesChild`, a hypothetical input).
- After a format renegotiation a frame can be handed to the encoder with more bytes than its stated size
  (`FrameSlot.RenegotiationDeliversOtherSize`, exact condition in `FrameSlot.DeliveredIff`); without one the
  size is exact on every run (`FrameSlot.DeliveredSizeOnRun`).
- Chunk extensions are not simply ignored: a header line that is not UTF-8 is refused, so a quoted extension
  value with obs-text bytes, which RFC 9112 section 7.1.1 allows, fails the whole message
  (`ChunkedDecoding.ObsTextExtensionRefused`). Decoding undoes encoding exactly when every extension is UTF-8
  (`ChunkedDecoding.DecodeEncode`).
- A chunk size within two of the largest `usize` overflows `size + 2`. Built with overflow checks the
  decoder aborts. Built without, as the release image is, the sum wraps: the decoder still aborts, on the
  slice, except that the largest size with nothing after it is reported as truncated
  (`ChunkedDecoding.ShortChunk`). The builds differ on nothing else (`ChunkedDecoding.BuildsAgree`).

## Model

| member | source | states |
|---|---|---|
| FloodFill.ProbMapComponents | src/providers/onnx_vision.rs:787-832 | one exact summary (count, score sum, tight box) per connected region of hot cells, in order of least cell; the nested loops end |
| FloodFill.Fill | src/providers/onnx_vision.rs:795-829 | one fill marks exactly the region of its start cell and summarizes exactly that region |
| FloodFill.PushNeighbours | src/providers/onnx_vision.rs:814-827 | after a pop every hot neighbour is marked, and pending cells stay distinct, unpopped and connected to the start |
| FloodFill.NeighboursAreAdjacent | src/providers/onnx_vision.rs:814-819 | the four candidates are exactly the in-range cells sharing an edge, with no wrap across rows |
| FloodFill.ComponentsPartitionHotCells | src/providers/onnx_vision.rs:784-832 | the returned regions partition the hot cells into maximal 4-connected sets |
| Regions.RegionsPartition | src/providers/onnx_vision.rs:784-832 | in any finite symmetric graph the regions of least cells are disjoint, cover everything, are connected and closed |
| Regions.UncoveredIsLeader | src/providers/onnx_vision.rs:792-795 | a hot cell starts a new component exactly when no earlier region holds it |
| Suppression.Nms | src/providers/onnx_vision.rs:984-993 | the loop returns the greedy selection over the stable confidence ranking |
| Suppression.NmsSelects | src/providers/onnx_vision.rs:982-993 | the ranking is a sorted permutation; survivors are a sorted, pairwise compatible subsequence and every dropped position is beaten by an earlier kept one |
| Suppression.EveryBoxKeptOrBeaten | src/providers/onnx_vision.rs:982-993 | each input box survives or exceeds the threshold against a survivor of at least its confidence |
| Suppression.SurvivorsApart | src/providers/onnx_vision.rs:988-990 | survivors pairwise have IoU at most the threshold |
| Suppression.TiesKeepOrder | src/providers/onnx_vision.rs:985 | boxes of equal confidence keep their order in the ranking |
| Suppression.NmsIdempotent | src/providers/onnx_vision.rs:984-993 | a second run returns the same list |
| Suppression.IouCountsCells | src/providers/onnx_vision.rs:968-980 | IoU is the number of cells shared by the boxes over the number covered by either |
| Suppression.IouInUnit | src/providers/onnx_vision.rs:968-980 | IoU of boxes of non-negative size lies in the unit interval |
| Suppression.IouSymmetric | src/providers/onnx_vision.rs:968-980 | IoU does not depend on the order of its arguments |
| Suppression.IouSelf | src/providers/onnx_vision.rs:968-980 | a box of positive area has IoU 1 with itself |
| Sorting.SortSorts | src/providers/onnx_vision.rs:985 | the sort returns a sorted permutation |
| Sorting.SortStable | src/providers/onnx_vision.rs:985 | elements that compare equal keep their order |
| CtcDecode.CtcGreedyDecode | src/providers/onnx_vision.rs:896-930 | the text is that of the arg-max path with repeats merged, then blanks and classes outside the dictionary dropped; the confidence averages the scores of its characters |
| CtcDecode.MeanAverages | src/providers/onnx_vision.rs:924-928 | the confidence is 0 of nothing, else times the number of scores their sum, and within any bounds they share |
| CtcDecode.SpellConcat | src/providers/onnx_vision.rs:915-921 | the text of a list of picks is the text of its first part and then of its second |
| CtcDecode.SpellOne | src/providers/onnx_vision.rs:917-919 | class c spells dictionary entry c - 1 |
| CtcDecode.ArgMax | src/providers/onnx_vision.rs:907-913 | the inner loop finds the first maximum of a row |
| CtcDecode.BestAt | src/providers/onnx_vision.rs:905-914 | the chosen class of a step is the unique first maximum of its row |
| CtcDecode.AlignmentDecodes | src/providers/onnx_vision.rs:894-922 | every valid alignment of an in-dictionary label sequence decodes back to it |
| CtcDecode.PathIsAlignment | src/providers/onnx_vision.rs:894-922 | every path over known classes is a valid alignment of what it decodes to |
| ResultCache.EveryRunBoundedAndRetaining | src/providers/onnx_vision.rs:321-348 | in every state of every run at most 64 entries, and with strictly increasing write times every unexpired key among the 64 most recently written is present |
| ResultCache.VictimOvertaken | src/providers/onnx_vision.rs:337-345 | an evicted key has been overtaken by 64 later-written keys |
| ResultCache.PutKeeps | src/providers/onnx_vision.rs:336-348 | storing keeps the bound and the retention property |
| ResultCache.GetKeeps | src/providers/onnx_vision.rs:323-331 | looking up, expiry included, keeps the bound and the retention property |
| ResultCache.HitsAreYoung | src/providers/onnx_vision.rs:321-331 | a hit is younger than the time to live since its key's last write; an expired entry is gone afterwards |
| ResultCache.KeysDistinct | src/providers/onnx_vision.rs:312-319 | distinct requests have distinct keys, across OCR and icon requests too |
| ResultCache.Inner.Serve | src/providers/onnx_vision.rs:397-407 | a call is a lookup step and, on a miss the engine answers, a store step; the answer is the engine's, failures are not stored, and the clock ends at the time of the last step (`find_icon`, lines 497-506, is the same method on the other request) |
| ResultCache.EveryServingRun | src/providers/onnx_vision.rs:305-407 | over every run of OCR and icon calls each answer is the engine's, at most 64 entries are kept, and recently written unexpired keys are present |
| ResultCache.ServesKeeps | src/providers/onnx_vision.rs:397-407 | one call keeps the bound, the retention property and the soundness of what is cached |
| ResultCache.Inner.CacheGet | src/providers/onnx_vision.rs:323-331 | implements the lookup step |
| ResultCache.Inner.CachePut | src/providers/onnx_vision.rs:336-348 | implements the store step |
| ResultCache.Inner.FindOldest | src/providers/onnx_vision.rs:338-341 | finds an entry at least as old as every other, in any iteration order |
| TreeScan.Budget.Take | src/providers/atspi.rs:175-183 | takes one node while there is budget and otherwise notes truncation |
| TreeScan.ScanNode | src/providers/atspi.rs:835-856 | the harvest of a subtree lists exactly the first nodes of its live preorder that the shared budget allows, cycles included |
| TreeScan.ScanChildren | src/providers/atspi.rs:843-851 | the sibling loop harvests the children in order under what is left of the budget |
| TreeScan.ChildrenInOrder | src/providers/atspi.rs:733-748 | children are visited as listed: what is visited of a list is what is visited of its first part and then of its second |
| TreeScan.ChildVisitedIff | src/providers/atspi.rs:738-747 | a listed child is visited exactly when it is live and not null |
| TreeScan.LeavesInOrder | src/providers/atspi.rs:836-855 | a node over live leaves is walked as itself and then its children in listed order, up to the budget |
| TreeScan.ScanForest | src/providers/atspi.rs:815-831 | the harvested forest's preorder is exactly the first `limit` nodes of the live preorder of the answering applications |
| TreeScan.FirstNodesConcat | src/providers/atspi.rs:815-856 | walking one list and then another splits the budget between them |
| TreeScan.FirstNodesPrefix | src/providers/atspi.rs:815-856 | a smaller budget yields a prefix of the same walk |
| TreeScan.FirstNodesLive | src/providers/atspi.rs:736-748 | dead references are never visited, nor null ones unless pending at the start |
| TreeSearch.FirstMatch | src/providers/atspi.rs:244-255 | the stack search returns the head of the filtered preorder |
| TreeSearch.Matches | src/providers/atspi.rs:259-273 | the stack search returns the first `limit` of the filtered preorder |
| TreeSearch.HitsAreLiveHits | src/providers/atspi.rs:937-969 | searching the harvest finds exactly the satisfying nodes among the first `limit` of the live preorder, in order |
| TreeSearch.AtspiUi.TreeScan | src/providers/atspi.rs:786-809 | a fresh cached walk is reused, otherwise one new walk is made and cached; a failed listing leaves the cache alone; the answer is never older than the window |
| TreeSearch.FreshWindow | src/providers/atspi.rs:363-365 | a walk is reused exactly while the clock reads less than 300 ms past its completion |
| TreeSearch.FirstHitIsLive | src/providers/atspi.rs:937-946 | the first hit of a harvest is the first live hit, with its live attributes |
| TreeSearch.MatchesAreLive | src/providers/atspi.rs:316-327 | the first `limit` hits of a harvest are reported with the live attributes of the first `limit` live hits |
| TreeSearch.ReportedFields | src/providers/atspi.rs:316-327 | a report repeats name, description, states, bounds and role, a missing role as unknown |
| TreeSearch.AtspiUi.FindMatches | src/providers/atspi.rs:953-969 | the answer is the name, role, description, states and bounds of the first `limit` live hits, in order, of the desktop of the cached walk while that is fresh and of the present one otherwise |
| TreeSearch.AtspiUi.FindMatch | src/providers/atspi.rs:937-946 | the answer is the stored address of the first live hit of that walk, or nothing when there is none or it cannot be rebuilt |
| TreeFocus.FindStateIn | src/providers/atspi.rs:974-1001 | finds the first visited carrier that yields a reference, and accounts for the nodes visited |
| TreeFocus.FindFocused | src/providers/atspi.rs:1005-1017 | the same over the applications under one budget |
| TreeFocus.FocusExact | src/providers/atspi.rs:972-1017 | the answer is the first carrier of the plain live preorder within the budget exactly when that carrier, if any, yields a reference |
| TreeFocus.FocusIsFirstCarrier | src/providers/atspi.rs:972-1017 | so whenever carriers yield references the answer is the first carrier |
| TreeFocus.ReflessCarrierHidesChild | src/providers/atspi.rs:983-989 | on the failing branch, were it taken, a carrier without a reference hides a carrier below it |
| TreeFocus.ActiveAppFirst | src/providers/atspi.rs:754-780 | the search order permutes the non-null applications, first active one in front, only two places changed |
| TreeDump.BuildNode | src/providers/atspi.rs:693-729 | the dump is the part of the depth-pruned preorder the cap allows, each node with its live attributes and its flag exact |
| TreeDump.BuildChildren | src/providers/atspi.rs:705-724 | the sibling loop dumps its references under what is left of the cap and raises truncation exactly when something is cut off |
| TreeDump.RootDump | src/providers/atspi.rs:1025-1035 | the dump from the root under the cap of 5000 |
| TreeDump.TruncatedIff | src/providers/atspi.rs:711-726 | a node is flagged exactly when its pruned subtree holds more live nodes than the cap left at it, or as many and a dead reference last |
| TreeDump.BelowReaches | src/providers/atspi.rs:693-729 | the pruned preorder of a node holds exactly the references at most the given number of levels below it |
| TreeDump.ListedExact | src/providers/atspi.rs:709-712 | a null reference ends the sibling list |
| TreeDump.TruncatedIffOverCap | src/providers/atspi.rs:691-729 | with all listed proxies alive the dump is the cap's prefix of the pruned preorder and the flag holds exactly when the pruned tree exceeds the cap |
| TreeDump.DeadTailRaisesFlag | src/providers/atspi.rs:711-717 | for every cap there is a tree of exactly that many live nodes, all dumped, whose flag a dead last reference raises |
| TreeDump.RootFlagRaisedByDeadTail | src/providers/atspi.rs:711-726 | so it is at the root with 5000 live nodes and the cap of 5000 |
| Templates.ParseTemplate | src/plugins.rs:506-551 | the loops compute the specified parse |
| Templates.TakeName | src/plugins.rs:520-530 | the inner loop reads exactly up to the first closing brace |
| Templates.ParsePrint | src/plugins.rs:85-86 | parsing undoes printing on every normal segment list |
| Templates.ParseNormal | src/plugins.rs:504-551 | parsing only yields normal lists with legal names |
| Templates.PrintParse | src/plugins.rs:504-551 | printing a parsed string gives a string that parses the same |
| Templates.EscapedIsLiteral | src/plugins.rs:517 | text with dollars doubled parses as that text in any context |
| Templates.PlainTextParses | src/plugins.rs:541-551 | a dollar sign before another character, or at the end, stands for itself: text without $$ or ${ is one literal |
| Templates.UnclosedRefused | src/plugins.rs:526-528 | an unclosed placeholder is refused after any text |
| Templates.BadNameRefused | src/plugins.rs:529-531 | a placeholder with an illegal name is refused with that name |
| Templates.ParamNameGrammar | src/plugins.rs:458-466 | legal names are 1 to 64 characters: a lower-case letter, then letters, digits and underscores |
| Substitution.CollectRefs | src/plugins.rs:555-569 | appends exactly the references of a value in traversal order, or reports the first template fault |
| Substitution.SubstituteResolves | src/plugins.rs:763-799 | substitution of a well-formed value fails exactly on its first unbound reference |
| Substitution.SubstituteArgsResolves | src/plugins.rs:754-761 | the same for an argument object |
| Substitution.PlaceholderKeepsType | src/plugins.rs:767-772 | a string that is exactly one placeholder yields the bound value with its JSON type |
| Substitution.PrintedTemplateRenders | src/plugins.rs:773-790 | a printed template renders its literals and bound values in order |
| Substitution.EscapedTextUnchanged | src/plugins.rs:85-86 | escaped text comes out as itself whatever is bound |
| Substitution.ShapeKept | src/plugins.rs:754-761 | keys and their order survive, each value being the substitution of its own |
| Substitution.ItemsKept | src/plugins.rs:792-796 | arrays are substituted element by element |
| Substitution.PlainValueUnchanged | src/plugins.rs:763-799 | a value none of whose strings holds a dollar sign substitutes to itself, scalars included |
| Substitution.ArraySubstituted | src/plugins.rs:791-795 | an array substitutes to exactly the array of its substituted elements |
| Substitution.ObjectSubstituted | src/plugins.rs:754-761 | an object substitutes to exactly the object of its substituted members under the same keys |
| Substitution.EmbeddedValue | src/plugins.rs:774-790 | inside a text a bound string goes in as it is and any other value as rendered, between the texts around it |
| Manifest.Validate | src/plugins.rs:582-668 | accepts exactly the acceptable manifests, carries every field over into its own place with the parameters of both sites, and reports the first violation in checking order |
| Manifest.AcceptedExactly | src/plugins.rs:582-668 | acceptance spelled out: version 1, the grammars, at most 32 steps, 64 parameters and 256 characters, callable tools, declared references |
| Manifest.PluginNameGrammar | src/plugins.rs:447-455 | legal plugin names are 1 to 64 characters: a lower-case letter, then letters, digits and hyphens |
| Manifest.LabelChars | src/plugins.rs:469-500 | version labels are of ASCII letters, digits and hyphens |
| Manifest.ErrorDetermined | src/plugins.rs:582-668 | a rejected manifest has exactly one true complaint |
| Manifest.CheckNames | src/plugins.rs:603-607 | reports the least illegal parameter name |
| Manifest.CheckHeader | src/plugins.rs:583-607 | the document-level checks before the tool section, first violation reported |
| Manifest.CheckBody | src/plugins.rs:618-658 | the checks after the parameters are merged, first offending step reported |
| Manifest.ValidateTool | src/plugins.rs:675-710 | accepts exactly a legal, uncolliding section with disjoint legal parameters and merges them; otherwise reports the first violation in checking order |
| Manifest.InsertAll | src/plugins.rs:698-705 | inserts every entry, or stops at the least one whose key is illegal or already declared |
| Manifest.ValidateStep | src/plugins.rs:627-657 | a step passes exactly when its tool is callable and its templates are well formed over declared parameters |
| Manifest.BindParams | src/plugins.rs:722-746 | accepts exactly declared, well-typed, complete arguments, binds the supplied map, and otherwise reports the first offending member or the least missing one |
| Manifest.MapOfLast | src/plugins.rs:722-738 | a bound name has the value of its last supplied member |
| Manifest.CheckRequired | src/plugins.rs:740-744 | reports the least required parameter that is not bound |
| Manifest.BindErrorDetermined | src/plugins.rs:722-746 | rejected arguments have exactly one true complaint |
| Manifest.StaticCheckSound | src/plugins.rs:413-434 | for accepted manifests and arguments a step substitutes exactly when its references are bound, and the only failure names the first unbound one, which is optional |
| VersionGrammar.WrittenIsValid | src/plugins.rs:467-491 | every written MAJOR.MINOR.PATCH[-pre][+build] is accepted |
| VersionGrammar.ValidIsWritten | src/plugins.rs:467-491 | every accepted version has that written form |
| ToolSchema.ExposedTool | src/plugins.rs:246-273 | advertises the tool's name and description with the schema generated from the parameters; arguments conform to it exactly when they bind |
| ToolSchema.Properties | src/plugins.rs:250-260 | the loop lists every parameter once and the required ones, in name order |
| ToolSchema.GeneratedDescribes | src/plugins.rs:250-260 | the generated lists describe exactly the parameters, strictly ascending |
| ToolSchema.SchemaMatches | src/plugins.rs:239-273 | the generated schema accepts exactly the argument objects that bind |
| ToolSchema.SchemaMatchesBinding | src/plugins.rs:239-273 | conformance under JSON Schema and acceptance by binding coincide for all argument objects |
| ToolSchema.PropertyAccepts | src/plugins.rs:251-256 | a generated property schema accepts exactly the values of the declared type |
| ToolSchema.PropertyMembers | src/plugins.rs:251-256 | a property schema names the JSON type and repeats the description, if any, and nothing else |
| PluginRegistry.Scan | src/plugins.rs:879-946 | loads and skips, with reasons, exactly as the files below each one decide; the listing is sorted by name |
| PluginRegistry.LoadsIff | src/plugins.rs:907-936 | a file loads exactly when it is valid, no earlier valid file has its name and no earlier loaded one has its tool name |
| PluginRegistry.ScanExact | src/plugins.rs:871-946 | every considered file is loaded or skipped once, skipped ones with their reason; loaded names and tool names are pairwise distinct |
| PluginRegistry.ConsideredFacts | src/plugins.rs:888-905 | the files considered are sorted by path, all or 256 of the directory, and none left out comes before one of them |
| PluginRegistry.LoadsByPath | src/plugins.rs:895-936 | among at most 256 files a valid one loads exactly when no valid file of smaller path has its name and no loaded file of smaller path has its tool name, whatever the listing order |
| PluginRegistry.ReasonExact | src/plugins.rs:914-940 | each reason says what happened: invalid, name taken by an earlier valid file, or tool name taken by an earlier loaded one |
| Lexical.StrLeLexicographic | src/plugins.rs:895 | the order is lexicographic by code point |
| PluginRegistry.NameHeldIff | src/plugins.rs:909-932 | a name has a loaded holder exactly when the first valid file of that name was not refused for its tool name |
| PluginRegistry.BlockedNameWithoutHolder | src/plugins.rs:915-928 | three accepted manifests of which the last is skipped for a name no loaded file has |
| PluginRegistry.Tools | src/plugins.rs:1017-1027 | lists exactly the entries the plugins advertise, schema included, one each, sorted by name |
| PluginRegistry.Resolve | src/plugins.rs:958-965 | returns a plugin exposing the name, or none when there is none |
| PluginRegistry.ResolveMatchesTools | src/plugins.rs:1015-1032 | a name resolves exactly when it is listed, and to the only plugin exposing it, whose entry is in the list |
| PluginRegistry.ListedToolBinds | src/plugins.rs:246-273 | every listed tool dispatches, and the arguments that conform to its listed schema are exactly those that bind under the manifest it dispatches to |
| PixelConversion.ConvertFrame | src/providers/portal_capture.rs:746-790 | rejects exactly the malformed planes with the first reason, and otherwise returns every row converted |
| PixelConversion.ConvertRow | src/providers/portal_capture.rs:770-787 | writes exactly one row, every channel from its permuted source, alpha kept or opaque |
| PixelConversion.PixelPlaced | src/providers/portal_capture.rs:714-724 | each pixel channel sits at its packed place and comes from its permuted source byte |
| PixelConversion.PixelBytes | src/providers/portal_capture.rs:714-724 | BGR layouts come out as source bytes 2, 1, 0 and RGB ones as 0, 1, 2; byte 3 is the source alpha where there is one and 0xFF elsewhere |
| PixelConversion.AcceptedIff | src/providers/portal_capture.rs:746-768 | a plane is converted exactly when it is not empty, its rows do not overlap, and none reaches outside it |
| PixelConversion.RejectionExact | src/providers/portal_capture.rs:746-768 | the reported fault is the first of four that applies, with the number of bytes needed |
| PixelConversion.PaddingIgnored | src/providers/portal_capture.rs:769-772 | planes with the same pixels convert alike whatever their strides and padding |
| PixelConversion.BgraInvolution | src/providers/portal_capture.rs:705-706 | converting a tight BGRA plane twice gives it back |
| FrameSlot.StepKeeps | src/providers/portal_stream.rs:238-327 | every locked step keeps: fresh exactly when a frame is present, that frame the newest, frames taken in increasing order |
| FrameSlot.EveryRunKeepsInvariant | src/providers/portal_stream.rs:69-99 | the same in every state of every interleaving |
| FrameSlot.PollAnswers | src/providers/portal_stream.rs:72-94 | a poll reports a pending error, else takes a frame exactly when one is fresh, the newest decoded and later than all taken before |
| FrameSlot.DeliveredIff | src/providers/portal_stream.rs:77-91 | a frame is handed to the encoder exactly when the current dimensions need no more bytes than it has, and has exactly 4·w·h bytes exactly when they need as many |
| FrameSlot.DeliveredSizeOnRun | src/providers/portal_stream.rs:69-91 | on every run, with no format change since the newest frame was decoded, that frame is handed over at its own dimensions with exactly 4·w·h bytes |
| FrameSlot.DimensionsKept | src/providers/portal_stream.rs:238-276 | only a format change touches the dimensions |
| FrameSlot.RunMonotone | src/providers/portal_stream.rs:328-343 | history only grows and a stopped worker decodes nothing more |
| FrameSlot.AtMostOneFrameAfterStop | src/providers/portal_stream.rs:328-343 | after the worker stops at most one more frame is taken |
| FrameSlot.RenegotiationDeliversOtherSize | src/providers/portal_stream.rs:77-86 | a run that delivers a frame with more bytes than its stated size |
| FrameSlot.PwStreamState.FormatChanged | src/providers/portal_stream.rs:240-267 | implements the format step |
| FrameSlot.FormatTaken | src/providers/portal_stream.rs:240-265 | a linear format of known layout sets exactly layout, width and height; any other only raises an error |
| FrameSlot.PwStreamState.BufferReady | src/providers/portal_stream.rs:268-309 | implements the buffer step |
| FrameSlot.PlaneExact | src/providers/portal_stream.rs:294-297 | the plane is the size bytes of the mapping from the offset on, if it holds them |
| FrameSlot.ProcessOutcome | src/providers/portal_stream.rs:266-308 | an unusable buffer changes nothing, one that cannot be converted raises an error, one that can becomes the newest frame |
| FrameSlot.PwStreamState.PollOnce | src/providers/portal_stream.rs:72-91 | implements the poll step |
| FrameSlot.PwStreamState.CheckPump | src/providers/portal_stream.rs:330-336 | implements the pump loop's exit checks |
| FrameSlot.PumpStopsIff | src/providers/portal_stream.rs:329-345 | the worker stops at its next check exactly when told to or on a pending error |
| FileUri.PercentDecode | src/providers/portal_capture.rs:1054-1079 | the loop computes the specified decoding, and the shortcut for text without escapes agrees with it |
| FileUri.SpelledDecodes | src/providers/portal_capture.rs:1052-1079 | every spelling of a byte string, in either hex case, decodes to it |
| FileUri.DecodedIsSpelling | src/providers/portal_capture.rs:1052-1079 | whatever decodes is such a spelling |
| FileUri.LocalUriReadsBack | src/providers/portal_capture.rs:1034-1050 | a URI with an empty or localhost authority yields the path it spells |
| FileUri.OnlyLocalUris | src/providers/portal_capture.rs:1037-1052 | only such URIs yield a path |
| FileUri.RefusedUris | src/providers/portal_capture.rs:1037-1052 | another scheme and another authority are refused as such |
| FileUri.LocalhostCasings | src/providers/portal_capture.rs:1040-1048 | localhost is accepted in exactly its ASCII casings |
| ChunkedDecoding.DecodeChunked | src/providers/cdp_browser.rs:463-484 | in either build the loop computes the specified decoding and ends on every input, with no more output than input for any input that fits in memory |
| ChunkedDecoding.HeaderReadsBack | src/providers/cdp_browser.rs:465-476 | a header line with any hex spelling, blanks and CRLF-free extension is delimited and its size read back exactly when the extension is UTF-8 and the size a word; otherwise the line is refused as non-UTF-8, or for its size |
| ChunkedDecoding.HexReadsBack | src/providers/cdp_browser.rs:472-474 | a size written in base 16 with the digits of either case reads back |
| ChunkedDecoding.MessageReadsBack | src/providers/cdp_browser.rs:463-484 | a message whose parts each follow their length in hexadecimal decodes to the parts, concatenated |
| ChunkedDecoding.NoLineRefused | src/providers/cdp_browser.rs:466-469 | text without a line end is refused for its header |
| ChunkedDecoding.SpacedSizeReadsBack | src/providers/cdp_browser.rs:472-474 | a size is read back from between any Unicode white space |
| ChunkedDecoding.SpaceScalars | src/providers/cdp_browser.rs:473 | the trimmed characters are those with the White_Space property |
| ChunkedDecoding.PlusSignAccepted | src/providers/cdp_browser.rs:473 | a size may carry one plus sign |
| ChunkedDecoding.OtherTextIsNoSize | src/providers/cdp_browser.rs:473-474 | text with any other character is no size |
| ByteText.HexTables | src/providers/portal_capture.rs:1081-1088 | the hexadecimal digits are those of the two tables, each worth its place |
| ByteText.EncodedIsUtf8 | src/providers/cdp_browser.rs:470-471 | every encoding of scalar values is well-formed UTF-8 |
| ByteText.Utf8IsEncoded | src/providers/cdp_browser.rs:470-471 | every well-formed byte string is the encoding of scalar values |
| ChunkedDecoding.DecodeEncode | src/providers/cdp_browser.rs:461-484 | for any chunks, CRLF-free extensions, terminator bytes, zero chunk and trailing bytes, decoding undoes RFC 9112 chunked encoding exactly when every extension is UTF-8, and fails on the header otherwise |
| ChunkedDecoding.ObsTextExtensionRefused | src/providers/cdp_browser.rs:470-471 | a legal message with an obs-text byte in a quoted extension value is refused |
| ChunkedDecoding.DecodeAfterChunks | src/providers/cdp_browser.rs:465-482 | well-formed chunks contribute exactly their payload whatever follows, unless an extension is not UTF-8, which fails |
| ChunkedDecoding.ShortChunk | src/providers/cdp_browser.rs:470-479 | after well-formed chunks, too little data is reported as truncated unless an extension is not UTF-8, the size is no word, or it is within two of the word limit; then checked arithmetic always aborts, and unchecked arithmetic does unless the size is the limit and nothing follows |
| ChunkedDecoding.AbortsIff | src/providers/cdp_browser.rs:479-481 | the same of the single step after a header |
| ChunkedDecoding.BuildsAgree | src/providers/cdp_browser.rs:463-484 | checked and unchecked arithmetic answer alike whenever the checked one does not abort, and otherwise the unchecked one aborts or reports truncation |
| ScrubKeys.Scrub | src/main.rs:250-268 | the rewriting loop replaces every key where it starts, keeps everything else in order, and ends |
| ScrubKeys.ScrubIdempotent | src/main.rs:247-268 | no key is left, a second run changes nothing, and exactly the texts holding a key are changed |
| ScrubKeys.OutputClean | src/main.rs:247-268 | no position of the output starts the prefix and a maximal run of exactly 64 hex digits |
| ScrubKeys.FirstKeyReplaced | src/main.rs:250-268 | the first uxcp_ key of 64 digits is replaced by [REDACTED], the text before it kept and the text after it scrubbed |
| ScrubKeys.FirstKey | src/main.rs:250-268 | every text that is not clean splits at its first key in that way |
| ScrubKeys.HexChars | src/main.rs:255-260 | the digits are hexadecimal in either case |
| Keystrokes.Inner.TypeText | src/providers/uinput_input.rs:344-361 | a character without a binding emits nothing; otherwise exactly the text's strokes and a sync are emitted; replaying the device log then appends the text and leaves no key held |
| Keystrokes.LogTypes | src/providers/uinput_input.rs:344-361 | the same of any log that leaves no key held |
| Keystrokes.StrokesType | src/providers/uinput_input.rs:341-361 | replaying the strokes through a US layout yields the text and leaves nothing held |
| Keystrokes.BindingReadsBack | src/providers/common.rs:340-383 | every bindable character is what a US layout produces for its binding |
| Keystrokes.BindableIff | src/providers/common.rs:340-383 | exactly tab, newline, carriage return and printable ASCII can be typed |
| Keystrokes.Inner.EmitKey | src/providers/uinput_input.rs:321-334 | one press or release with shift wrapped around a shifted key |
| Keystrokes.ShiftWraps | src/providers/uinput_input.rs:319-340 | shift goes down before a shifted key and up after it |
| Keystrokes.Inner.Scroll | src/providers/uinput_input.rs:304-317 | over every run, steps emitted plus at most half a step owed equal what was asked, the vertical sign inverted |
| Keystrokes.ScrollShape | src/providers/uinput_input.rs:304-317 | vertical before horizontal, each at most once and only if moved, then a sync; no request emits nothing |
| Keystrokes.RoundNearest | src/providers/common.rs:409 | rounding is to the nearest integer, symmetric, halves away from zero |
| Keystrokes.DetentsConserve | src/providers/common.rs:407-412 | whole steps and remainder add up to the request, the remainder at most half a step |
| Metrics.RecordKeeps | src/metrics.rs:112-146 | every recording keeps: counters count calls, histograms summarize latencies, each tool's counters sum to its histogram count |
| Metrics.ObserveSummarizes | src/metrics.rs:62-70 | running totals over the buckets stay the numbers of observations at or below each bound |
| Metrics.AtMostExact | src/metrics.rs:62-70 | the counts are of observations at or below the bound |
| Metrics.SumBump | src/metrics.rs:137 | one increment adds one to its tool's sum over outcomes and leaves other tools alone |
| Metrics.Registry.RecordCall | src/metrics.rs:112-115 | extends the accounted history by one call |
| Metrics.Registry.RecordCallWithBackend | src/metrics.rs:120-129 | extends the accounted history by one call attributed to a backend |
| Metrics.Registry.RecordToolCall | src/metrics.rs:131-146 | bumps the call counter and observes the latency, creating the histogram when absent |
| Metrics.Registry.Render | src/metrics.rs:216-245 | rendered cumulative buckets equal the observations at or below their bound, are monotone and at most the +Inf count, which equals the tool's call counters summed |
| Metrics.EscReadsBack | src/metrics.rs:337-349 | an escaped label stays on its line, every quote in it follows a backslash, and it reads back as the label |
| Metrics.EscStaysQuoted | src/metrics.rs:337-349 | a reader that stops at the first unescaped quote consumes exactly the escaped label, whatever follows |
| Metrics.EscapeLabel | src/metrics.rs:338-349 | the escaping loop computes the specified text |

## Left out

- I/O of every kind (D-Bus, PipeWire, sockets, files, the network), sessions and model downloads: inputs of the model.
- `det_boxes`, `clip_pad_ids`, `cxcywh_to_rect` and image resizing: short arithmetic on the results modelled here.
- `attrs_match` and `parse_query`: a query is any predicate, so the search results hold for each of them; index-path queries navigate directly and are not part of this model.
- Floating-point rounding, NaN scores, and 32-bit saturation or wrap-around of coordinates, counts and wheel steps.
- Concurrent access to the result cache, the scan cache and the metrics registry: their steps are taken one at a time.
- The time-out and sleeping of `next_frame`: its polls are single steps interleaved with the worker's.
- Write errors of the input device in the middle of a sequence of events.
- JSON parsing of manifest documents and of HTTP bodies, and the header part of `parse_http_response`.
- The text layout of the metrics exposition apart from label escaping, and the gauges.
- ChunkedDecoding.DecodeChunked: the output bound is stated for inputs of at most `isize::MAX` bytes, the longest slice there is.
- TreeSearch.AtspiUi.FindMatch: whether a stored address parses as a bus name and an object path is a parameter.
- PluginRegistry.Scan: paths are ordered as strings, and listing the directory is not part of this model.
- ToolSchema.ExposedTool: the schema evaluator covers the keywords the generator writes, not all of JSON Schema.
