# ShutdownMonitor output toggle engine, in Dafny

ShutdownMonitor switches one monitor on or off while the other monitors stay
where they were. The engine that does it exists in four forms. Each form
keeps a record per output and answers `enableOutput` and `disableOutput`:

- **KScreen backend** (`KScreenResources`). Each output object remembers the
  rectangle and the priority it was built with. On a toggle the engine:
  - computes the union of the remembered rectangles and the minimum priority,
    over the connected outputs and over the connected enabled ones;
  - rewrites the configuration KScreen reports, moving positions by the
    difference of the two top-left corners and lowering priorities by the
    difference of the two minima (unsigned 32-bit arithmetic);
  - submits the configuration and sets the flag back if KScreen refuses it;
  - refuses to switch off the last visible output.

  Its output map is reconciled with every configuration it reads: by id,
  then by name, else a new object is built.
- **X11 backend** (`XRandRScreenResources`). The same offset rule, over the
  CRTC rectangles cached when each CRTC was first fetched. Every cached CRTC
  is committed with an RRSetCrtcConfig request of the X Resize, Rotate and
  Reflect Extension, version 1.2. The request keeps the
  attached outputs that are still enabled, or switches the CRTC off when none
  is left. A server grab brackets the commits when asked for. The backend
  sets the flag back on failure and refuses to switch off the last visible
  output.
- **Two older X11 variants** (`QrrScreenResources`, `QrrScreenRessources`).
  The same algorithm over a list of outputs, without the revert and without
  the last-output guard. The oldest computes both rectangles in a single
  pass before it sets the flag.
- **Shared parts**:
  - output and CRTC records, with their construction from the server's
    replies and their display strings (`KScreenOutput`, `XRandROutput`,
    `QrrOutput`, `QrrCrtc`);
  - lookups by id and by connected name, the cached output list, and
    backend selection (`QScreenResources`);
  - the `toggle` dispatch (`OutputToggle`).

Qt's types appear as follows:

- `QRect` is `Geometry.Rect` (left, top, width, height). A rectangle is null
  when its width and height are both 0. `a | b` gives the other operand when
  one is null, and the bounding box otherwise.
- `QMap` is `OrdMap.Entries`, a key-sorted list of pairs, because key order
  decides which output is found first and the order in which CRTCs are
  committed.
- `uint32_t` priorities are `QOutput.U32`, with subtraction modulo 2^32.

Calls into the X server and the KScreen library are parameters:

- `status`: the status the server answers to each RRSetCrtcConfig request;
- `fetch` and `info`: the XRRGetCrtcInfo and XRRGetOutputInfo replies;
- `current`: the configuration GetConfigOperation answers, or None when it
  fails;
- `accept`: whether SetConfigOperation accepts a configuration;
- the factories of the registered backends.

An X11 operation's outcome records the server grab and the requests it
sends, as a trace of events.

The KScreen output objects carry an identity (`handle`). `refreshOutputs` may
move an object to another key, and the revert after a refused configuration
acts on the object, not on the key.

## Model

| member | source | states |
|---|---|---|
| QOutput.U32Sub | kscreenresources.cpp:159 | `uint32_t` subtraction: the plain difference when it is non-negative, otherwise the difference plus 2^32 |
| Geometry.Union | kscreenresources.cpp:207 | the QRect union operator: null exactly when both are null; the other operand when one is null; otherwise a rectangle containing both (`Geometry.UnionLeast`: the least one) |
| Geometry.UnionLeast | kscreenresources.cpp:207 | any rectangle containing both operands contains their union |
| Geometry.WithinUnionAll | kscreenresources.cpp:199-209 | the union accumulated over a list from a null QRect contains every listed rectangle |
| Geometry.UnionAllLeast | kscreenresources.cpp:199-209 | and lies within every rectangle that contains them all |
| Geometry.UnionAllNull | kscreenresources.cpp:199-209 | and is null exactly when every listed rectangle is null |
| KScreenOutput.FromInfo | kscreenoutput.cpp:24-41 | a null KScreen output gives a null name, zero physical size, Unknown connection, a null rectangle, priority 0 and a disabled output; a non-null one copies name, size, position, mode size, priority and enabled flag, and is Connected exactly when it reports connected, never Unknown |
| KScreenOutput.Update | kscreenoutput.cpp:43-51 | only the connection can change, and it changes only for a non-null enabled KScreen output, to Connected exactly when that output is connected |
| KScreenOutput.UpdateAgreesWithConstruction | kscreenoutput.cpp:24-51 | updating an object from the KScreen output it was built from changes nothing |
| KScreenOutput.UpdateIdempotent | kscreenoutput.cpp:43-51 | a second update from the same KScreen output changes nothing more |
| KScreenOutput.Display | kscreenoutput.cpp:53-63 | the display string is null exactly when the object was built from a null KScreen output; otherwise it is "NAME (WxH+X+Y)" from that output's name, size and position |
| KScreenOutput.DisplayDeterminesRect | kscreenoutput.cpp:53-63 | two same-named outputs with equal display strings have equal rectangles: "NAME (WxH+X+Y)" can be read back |
| KScreenResources.FirstNamed | kscreenresources.cpp:96-101 | the position of the first stored output, in key order, whose name is equal case-sensitively, and no earlier output has that name |
| KScreenResources.RefreshOne | kscreenresources.cpp:91-115 | one configuration output reconciles the map: a KScreen object already under its id is updated in place; failing that, the first KScreen object with the same name (case-sensitive, key order) is updated and re-keyed to the id, its old key removed; otherwise a new object with the next handle is inserted. Every other key is unchanged, and the handle counter moves only on insertion |
| KScreenResources.Refresh | kscreenresources.cpp:86-134 | after refreshOutputs(config) every stored key is an id the configuration lists |
| KScreenResources.RefreshValid | kscreenresources.cpp:86-134 | refreshing keeps every stored output a KScreen object with a distinct identity |
| KScreenResources.RefreshAgrees | kscreenresources.cpp:86-134 | a configuration that lists exactly the stored outputs and reports nothing new leaves the map unchanged |
| KScreenResources.MinPriority | kscreenresources.cpp:227-261 | the priority loops answer the smallest priority of the counted outputs, one of them, and 0 when there are none |
| KScreenResources.ScreenWithinTotal | kscreenresources.cpp:197-225 | the union over the connected enabled outputs lies within the union over the connected outputs, which covers every connected output's rectangle |
| KScreenResources.ScreensLeast | kscreenresources.cpp:197-225 | computeTotalScreen and computeScreen are contained in every rectangle that contains the rectangles they count, and computeScreen is null exactly when every connected enabled output's rectangle is null |
| KScreenResources.PriorityMinima | kscreenresources.cpp:227-261 | computeTotalPriority (computePriority) is at most the priority of every connected (connected and enabled) output, equals one of them, and is 0 when there is none |
| KScreenResources.ShiftWrapsWithoutEnabled | kscreenresources.cpp:154-159 | when no connected output is enabled and the smallest connected priority is positive, computePriority() is 0, the asserted inequality fails, and the shift wraps to 2^32 minus the total minimum |
| KScreenResources.PriorityShiftExact | kscreenresources.cpp:152-159 | when some connected output is enabled, the enabled minimum is at least the total minimum, so the asserted inequality holds and the shift does not wrap |
| KScreenResources.ShiftedPrioritiesKeepMinimum | kscreenresources.cpp:285-286 | lowering the enabled priorities by the shift makes their minimum the total minimum, so `mPriority - shift` does not wrap |
| KScreenResources.AnchoredToTotalScreen | kscreenresources.cpp:152-159 | the enabled rectangles moved by the negated offset start exactly at the total screen's top-left corner |
| KScreenResources.Anchor | kscreenresources.cpp:159 | the move from the screen's corner to the total screen's corner is the negation of the offset handed to updateConfig |
| KScreenResources.AdjustOutput | kscreenresources.cpp:274-287 | an output without a stored object is untouched; on an enabled mismatch only the flag is set; otherwise the position becomes the remembered corner minus the offset; an output that ends up enabled gets the remembered priority minus the shift; nothing else changes |
| KScreenResources.Adjust | kscreenresources.cpp:274-287 | the submitted configuration has the configuration's outputs in its order, each keeping its id, name and connection; an output with a stored KScreen object is submitted with that object's flag, and one without is submitted unchanged |
| KScreenResources.UpdateConfig | kscreenresources.cpp:263-293 | without a configuration: false and no change; otherwise the map is refreshed from it, the rewritten configuration is submitted and the answer is KScreen's |
| KScreenResources.Revert | kscreenresources.cpp:160-161 | only the enabled flag of the object with the given identity changes, wherever it is stored |
| KScreenResources.Apply | kscreenresources.cpp:159-162 | the configuration is updated with the offset and shift of the flipped state; on refusal the object's old flag comes back |
| KScreenResources.Flip | kscreenresources.cpp:150-151 | only the target's flag is set |
| KScreenResources.EnableOutput | kscreenresources.cpp:136-163 | another backend's output gives false and no change; an enabled one gives true and no configuration read or write; otherwise the flag is set and the configuration applied |
| KScreenResources.DisableOutput | kscreenresources.cpp:165-195 | as enable, and when the remaining screen would be null: false, the flag back on, no configuration read or write |
| KScreenResources.EnableValid | kscreenresources.cpp:136-163 | enableOutput keeps every stored object a KScreen object with a distinct identity |
| KScreenResources.DisableValid | kscreenresources.cpp:165-195 | disableOutput keeps every stored object a KScreen object with a distinct identity |
| KScreenResources.RevertUndoesFlip | kscreenresources.cpp:150-161 | setting the old flag back after a flip gives back the stored outputs exactly |
| KScreenResources.EnableWithAgreeingConfig | kscreenresources.cpp:136-163 | with a configuration that agrees with the map, an accepted enable changes only the target's flag and a refused one changes nothing |
| KScreenResources.DisableWithAgreeingConfig | kscreenresources.cpp:165-195 | the same for disable |
| KScreenResources.DisableThenEnableRestoresState | kscreenresources.cpp:136-195 | an accepted disable followed by an accepted enable, both from agreeing configurations, gives back the starting state |
| KScreenResources.SubmittedConfig | kscreenresources.cpp:274-287 | from a configuration in step with the map, each submitted output has the flag the engine holds, its remembered corner moved to the total screen's anchor, and a shifted priority when enabled |
| KScreenResources.Create | kscreenresources.cpp:32-47 | null exactly when no configuration can be read; otherwise a valid map in which every key is an id the configuration lists (with distinct ids and names, `KScreenResources.CreateBuildsEveryOutput` gives one object per output) |
| KScreenResources.RefreshFromBackend | kscreenresources.cpp:77-84 | nothing happens when no configuration can be read; otherwise refreshOutputs(config) |
| KScreenResources.RefreshFromEmpty | kscreenresources.cpp:86-115 | refreshing an empty map with a configuration whose ids and names are distinct builds an object from each of its outputs |
| KScreenResources.CreateBuildsEveryOutput | kscreenresources.cpp:69-74 | the resources built from such a configuration hold one object built from each output, under exactly the configuration's ids |
| QrrCrtc.CrtcFromInfo | qrrcrtc.cpp:7-20 | a null reply gives a null rectangle at (0,0), mode None, RR_Rotate_0 and no outputs; a reply is copied field for field, outputs in order |
| QrrCrtc.CrtcFromInfoAsWritten | xrrcrtc.cpp:25-38 | the constructor as written is defined exactly for a non-null reply |
| QrrCrtc.NullCrtcInfoCrashes | qrrcrtc.cpp:17-19 | the null-reply defaults cannot be reached as written, while the corrected constructor yields them |
| QrrCrtc.CrtcConstructorsAgree | qrrcrtc.cpp:10-19 | both constructors build the same record from a non-null reply |
| QrrCrtc.KeepOutputs | xrrscreenresources.cpp:190-197 | the kept outputs are exactly the attached ones the filter accepts, in their original order, and all of them when it accepts all |
| QrrCrtc.AllSucceed | xrrscreenresources.cpp:111-112 | `ans &= ...` over the commits is true exactly when every status is success |
| QrrCrtc.OriginRequest | xrrscreenresources.cpp:199-210 | with no output left the CRTC is switched off at (0,0) with mode None, RR_Rotate_0 and no outputs; otherwise it is placed at the new origin with its stored mode and rotation |
| QrrCrtc.NewOrigin | xrrscreenresources.cpp:112 | the new origin, moved back by the difference of the corners, is the cached top-left |
| QrrCrtc.Requests | xrrscreenresources.cpp:111-112 | one request per cached CRTC, in key order, naming that CRTC and the attached outputs the filter keeps; a CRTC that keeps an output is placed, with its mode and rotation, where moving back by the corner difference gives its cached corner; one that keeps none is switched off at (0,0) with mode None, RR_Rotate_0 and no outputs |
| QrrCrtc.Bracket | xrrscreenresources.cpp:109-114 | the commits in order, preceded by a grab and followed by an ungrab exactly when asked |
| QrrCrtc.CachedCrtc | xrrscreenresources.cpp:77-87 | crtc(None) is null; any other id answers the cached record, fetched and cached only when the id was new; other entries are unchanged |
| QrrCrtc.CachedCrtcFetchesOnce | qrrscreenresources.cpp:60-67 | once an id is cached, later lookups neither fetch again nor change the cache, so the first-fetched geometry stays |
| QrrCrtc.DisplayDeterminesGeometry | xrrcrtc.cpp:40-46 | equal "WxH+X+Y" strings mean equal CRTC rectangles |
| XRandROutput.Classify | xrroutput.cpp:33-40 | Connected exactly for an RR_Connected reply, Disconnected exactly for an RR_Disconnected one, Unknown otherwise, including a null reply |
| XRandROutput.FromInfo | xrroutput.cpp:27-44 | a null reply gives a null name, zero size and CRTC None; the output is enabled exactly when a reply names a CRTC, and that CRTC is then cached in the parent |
| XRandROutput.OutputCrtc | xrroutput.cpp:46-53 | null exactly when the parent is not the X11 backend or the id is None; otherwise the parent's cached record |
| XRandROutput.Display | xrroutput.cpp:55-62 | the bare name when it is null or there is no CRTC, otherwise "NAME (WxH+X+Y)" of the cached CRTC |
| QrrOutput.FromInfo | qrroutput.cpp:9-19 | a null reply gives RR_UnknownConnection, CRTC None and a disabled output; the connection is copied raw; enabled exactly when the CRTC id is not None, and that CRTC is then cached |
| QrrOutput.OutputCrtc | qrroutput.cpp:21-24 | null exactly for the None id; otherwise the parent's cached record |
| QrrOutput.BuiltEnabledIffCrtc | qrroutput.cpp:18-24 | an output just built is enabled exactly when its crtc() is not null, and asking for it neither fetches nor changes the cache |
| QrrOutput.Display | qrroutput.cpp:26-33 | the bare name when it is null or there is no CRTC, otherwise "NAME (WxH+X+Y)" |
| QrrOutput.DisplayShowsFirstGeometry | qrroutput.cpp:26-33 | an enabled output shows the geometry its CRTC had when it was first fetched |
| XRandRScreenResources.ScreenWithinTotal | xrrscreenresources.cpp:155-182 | the union over enabled outputs with a cached CRTC lies within the union over all outputs with a cached CRTC, which covers each of their rectangles |
| XRandRScreenResources.ScreenNullIff | xrrscreenresources.cpp:169-182 | computeScreen is null exactly when every enabled output with a cached CRTC has a null CRTC rectangle |
| XRandRScreenResources.UpdateCrtcOrigin | xrrscreenresources.cpp:184-211 | the request keeps, in order, exactly the attached outputs that resolve to an enabled X11 output, and switches the CRTC off when none is left |
| XRandRScreenResources.Commits | xrrscreenresources.cpp:111-112 | one updateCrtcOrigin request per cached CRTC, in key order, at its new origin |
| XRandRScreenResources.SetFlag | xrrscreenresources.cpp:106 | only the target's flag is set |
| XRandRScreenResources.CommitAll | xrrscreenresources.cpp:107-114 | the answer is true exactly when every commit of the flipped state succeeds; the trace holds one commit per cached CRTC, in key order, each the updateCrtcOrigin request at the new origin computed from both screens of the flipped state, between a grab and an ungrab exactly when grabbing |
| XRandRScreenResources.EnableOutput | xrrscreenresources.cpp:89-118 | another backend's output, or an uncached CRTC, gives false and no change; an enabled one gives true and no request; otherwise every cached CRTC is committed and on failure the state is as before |
| XRandRScreenResources.DisableOutput | xrrscreenresources.cpp:120-153 | as enable, and when the remaining screen would be null: false, no grab, no request, state unchanged |
| XRandRScreenResources.AnchoredToTotalScreen | xrrscreenresources.cpp:107-112 | the enabled CRTC rectangles moved to their new origins start exactly at the total screen's top-left corner |
| XRandRScreenResources.EnableLastCoversAll | xrrscreenresources.cpp:106-108 | enabling the one output that was off makes the screen equal the total screen |
| XRandRScreenResources.EnableLastRestoresLayout | xrrscreenresources.cpp:89-118 | then every CRTC that stays on is committed at the origin it was first fetched with: the original layout comes back |
| XRandRScreenResources.DisableSendsPair | xrrscreenresources.cpp:120-153 | when the guards pass and the commit pass is two requests, disableOutput with a grab sends grab, both commits, ungrab; it answers true exactly when both succeed and then keeps the flipped state, otherwise the old one |
| XRandRScreenResources.EnableSendsPair | xrrscreenresources.cpp:89-118 | the same for enableOutput |
| XRandRScreenResources.SideBySideDisable | xrrscreenresources.cpp:120-153 | two 800-pixel monitors side by side, A on CRTC 10 at x = 0 and B on CRTC 20 at x = 800: switching A off passes every guard, the remaining screen is not null, and the commit pass is exactly CRTC 10 off and CRTC 20 at (0,0) keeping B; with `DisableSendsPair` this fixes the trace, answer and state of that disableOutput |
| XRandRScreenResources.SideBySideEnable | xrrscreenresources.cpp:89-118 | switching A back on passes every guard and the commit pass is exactly CRTC 10 at (0,0) with A and CRTC 20 back at (800,0) with B; with `EnableSendsPair` this fixes the trace, answer and state of that enableOutput |
| XRandRScreenResources.ScreensLeast | xrrscreenresources.cpp:155-182 | computeTotalScreen and computeScreen are contained in every rectangle that contains the CRTC rectangles they count |
| XRandRScreenResources.DisableThenEnableRestoresState | xrrscreenresources.cpp:89-153 | an accepted disable followed by an accepted enable gives back the starting state |
| QrrScreenResources.Find | qrrscreenresources.cpp:35-42 | output(id) finds the first output with that id, and none exactly when no output has it |
| QrrScreenResources.FindFirst | qrrscreenresources.cpp:35-42 | any position holding the id is at or after the one found |
| QrrScreenResources.ReadOutputs | qrrscreenresources.cpp:56-57 | one output per listed id, in order, each under its id |
| QrrScreenResources.ReadOutputsEnabled | qrrscreenresources.cpp:56-57 | each output read is enabled exactly when its reply names a CRTC |
| QrrScreenResources.ReadOutputsCached | qrrscreenresources.cpp:56-57 | each enabled output read has its CRTC cached |
| QrrScreenResources.RefreshAsWritten | qrrscreenresources.cpp:52-58 | as written, the old outputs stay at the front of the list and the new ones follow |
| QrrScreenResources.DeletedOutputShadowsFresh | qrrscreenresources.cpp:52-58 | as written, output(id) of an id listed before the refresh finds the deleted output, never the new one |
| QrrScreenResources.Refresh | qrrscreenresources.cpp:52-58 | with the list cleared, output(id) finds an output exactly for the listed ids |
| QrrScreenResources.RefreshFindsFresh | qrrscreenresources.cpp:52-58 | with the list cleared, output(id) finds the output read for the first occurrence of that id |
| QrrScreenResources.Outputs | qrrscreenresources.cpp:44-50 | outputs(refresh) rebuilds the list exactly when it is empty or a refresh is asked for |
| QrrScreenResources.OutputsCached | qrrscreenresources.cpp:44-50 | once filled, asking again without a refresh gives the same list whatever the server would answer |
| QrrScreenResources.ScreenWithinTotal | qrrscreenresources.cpp:111-132 | the union over enabled outputs lies within the union over all outputs with a cached CRTC, with no connection filter |
| QrrScreenResources.ScreensLeast | qrrscreenresources.cpp:111-132 | computeTotalScreen and computeScreen are contained in every rectangle that contains the CRTC rectangles they count |
| QrrScreenResources.SetFlag | qrrscreenresources.cpp:80 | only the target output's flag is set; the cache and every other output are unchanged |
| QrrScreenResources.TotalIgnoresFlags | qrrscreenresources.cpp:111-120 | computeTotalScreen does not depend on the enabled flags |
| QrrScreenResources.UpdateCrtcOrigin | qrrscreenresources.cpp:134-161 | the request keeps, in order, exactly the attached outputs whose first listed output is enabled, and switches the CRTC off when none is left |
| QrrScreenResources.Commits | qrrscreenresources.cpp:84-85 | one request per cached CRTC, in key order, at its new origin |
| QrrScreenResources.CommitAll | qrrscreenresources.cpp:79-87 | the flag stays set whatever the server answers; the answer is the conjunction of the statuses; the commits are always grabbed |
| QrrScreenResources.EnableOutput | qrrscreenresources.cpp:69-88 | an enabled output gives true and nothing else; an uncached CRTC gives false and no change; otherwise the flag is set and every CRTC committed |
| QrrScreenResources.DisableOutput | qrrscreenresources.cpp:90-109 | the same for disable, with no null-screen guard |
| QrrScreenResources.Toggle | qrroutput.cpp:45-52 | with the CRTC cached the flag flips whatever the server answers, inside a server grab; otherwise false and no change |
| QrrScreenResources.DisableThenEnableRestoresState | qrrscreenresources.cpp:69-109 | disable then enable gives back the outputs and the cache, whatever the server answers |
| QrrScreenResources.DisableLastSwitchesAllOff | qrrscreenresources.cpp:90-109 | disabling the only enabled output goes ahead: the screen becomes null and every cached CRTC is switched off |
| QrrScreenRessources.PassUnions | qrrscreenressources.cpp:82-90 | after n outputs the single pass holds the union over all outputs with a cached CRTC, and the union over those enabled once the target's flag is set |
| QrrScreenRessources.PassAgreesWithTwoPasses | qrrscreenressources.cpp:108-116 | the single pass gives the two screens the two-pass variant computes on the flipped state |
| QrrScreenRessources.CommitPass | qrrscreenressources.cpp:92-98 | the flag is set only after both screens are computed, and stays set |
| QrrScreenRessources.EnableOutput | qrrscreenressources.cpp:75-99 | an enabled output gives true and nothing else; an uncached CRTC gives false; otherwise the flag is set and every CRTC committed inside a grab; the whole outcome equals the two-pass variant's (`QrrScreenResources.EnableOutput`) |
| QrrScreenRessources.DisableOutput | qrrscreenressources.cpp:101-125 | the same for disable, with no null-screen guard; the outcome equals `QrrScreenResources.DisableOutput`'s |
| QrrScreenRessources.SinglePassAgrees | qrrscreenressources.cpp:75-125 | the single-pass enable and disable send the same requests, answer the same and leave the same state as the two-pass ones |
| QScreenResources.OutputById | qscreenresources.cpp:57-60 | the mapped output exactly when the id is a key, null otherwise |
| QScreenResources.OutputByName | qscreenresources.cpp:62-75 | the first output in key order that is Connected and named equal case-sensitively; null exactly when there is none |
| QScreenResources.OutputByNameSmallestKey | qscreenresources.cpp:64-71 | the output found has the smallest id among the connected outputs of that name |
| QScreenResources.OutputByNameFindsConnected | qscreenresources.cpp:62-75 | when connected names are distinct, looking up a connected output's name finds that output |
| QScreenResources.Outputs | qscreenresources.cpp:77-83 | refreshes exactly when the map is empty or a refresh is asked for, then answers the keys |
| QScreenResources.OutputsCached | qscreenresources.cpp:77-83 | once the map is non-empty, asking again without a refresh neither refreshes nor changes the ids |
| QScreenResources.OutputsFindable | qscreenresources.cpp:57-83 | every id outputs() answers finds its output with output(id) |
| QScreenResources.Available | qscreenresources.cpp:28-29 | the backend list is initialised only when it is empty |
| QScreenResources.AvailableOnce | qscreenresources.cpp:38-39 | the lazy initialisation runs at most once |
| QScreenResources.ListBackends | qscreenresources.cpp:24-34 | the names of the backends, in registration order |
| QScreenResources.Pick | qscreenresources.cpp:41-49 | the first non-null factory result among the backends tried, in registration order, each forced exactly when a backend was requested; null exactly when every tried factory answers null |
| QScreenResources.Create | qscreenresources.cpp:36-50 | create(backend) works on the lazily initialised list; a non-null answer is the result of the first tried backend whose factory succeeds, every earlier tried factory having failed; null exactly when every tried factory fails |
| QScreenResources.CreateNamedIsListed | qscreenresources.cpp:41-47 | a named request is answered only by a listed backend whose name matches it ignoring case, through its forced factory |
| QScreenResources.CreateDefaultIsFirst | qscreenresources.cpp:41-49 | with no request, create answers the first backend whose unforced factory succeeds |
| QScreenResources.CaseOfRequestIgnored | qscreenresources.cpp:42 | for every backend and request, lower-casing the request does not change whether the backend is tried, and a non-empty request tries exactly the backends whose names lower-case to the same string |
| QScreenResources.VersionedKScreenName | kscreenresources.cpp:30 | the KScreen backend's name carries the library version: a request spelling the full name in any case matches it, the bare "kscreen" does not |
| OutputToggle.XToggle | xrroutput.cpp:74-81 | toggle calls disableOutput exactly when the output is enabled, enableOutput otherwise |
| OutputToggle.XToggleFlipsIffTrue | qoutput.cpp:32-39 | on the X11 backend toggle answers true exactly when the flag flipped; false leaves the state as it was; true changes only the flag |
| OutputToggle.KToggle | qoutput.cpp:32-39 | toggle calls disableOutput exactly when the output is enabled, enableOutput otherwise |
| OutputToggle.KToggleFlipsIffTrue | kscreenresources.cpp:136-195 | on the KScreen backend a true answer means the toggled object now has the opposite flag and a false one that it keeps its old flag, wherever refreshOutputs moved it; when no configuration is read, or the one read lists the output's id, the object is still stored afterwards |
| OutputToggle.RefreshAllKeepsObject | kscreenresources.cpp:91-115 | the update-and-create loop never drops an object: it ends up under its old key or under an id the configuration lists |
| OutputToggle.RefreshKeepsObject | kscreenresources.cpp:86-134 | an object stored under an id the configuration lists survives refreshOutputs(config) |
| OutputToggle.ApplyKeepsObject | kscreenresources.cpp:159-162 | the commit after a flip keeps the flipped object stored when no configuration is read or the one read lists its key |
| OutputToggle.RefreshKeepsFlag | kscreenresources.cpp:86-134 | refreshOutputs never changes the enabled flag of an object it keeps |
| OutputToggle.ApplyFlag | kscreenresources.cpp:159-162 | after the flip, an accepted configuration keeps the new flag and a refused one brings the old flag back |

## Left out

- Logging (qDebug, qWarning) and memory ownership (qDeleteAll, XRRFree*, delete) are left out. The model has no pointers, so the deleted outputs of the older refresh appear as stale entries, not as freed memory.
- main.cpp (tray menu, command line, event loop) and the translation tables are presentation only.
- qscreenresourcesfactory.cpp: which backends a build registers depends on preprocessor switches. The registered list is an input to `QScreenResources.Create`.
- The factories' own choice is left out: KScreenResources::create ignores `forceBackend`, and XRandRScreenResources::create needs an X11 platform. A factory is a function from `forceBackend` to a possible resources object.
- XRandRScreenResources::refreshOutputs, get and getCurrent are left out. They read the screen resources once, with the RandR 1.2 and 1.3 calls; the outputs they build are `XRandROutput.FromInfo`.
- `grab` plays no part in the KScreen backend, so `KScreenResources.EnableOutput` and `KScreenResources.DisableOutput` take no grab argument.
- QOutput::enable and QOutput::disable (and their XRandROutput and QRROutput copies) hand the output to the parent unchanged. The backends' EnableOutput and DisableOutput are those calls. Only toggle's dispatch has members of its own.
- Outputs are addressed by key (maps) or by position (the older lists), not by pointer. `o == out` in the single pass is position equality.
- The old variants do not build as written:
  - the three-argument QRROutput constructor called at qrrscreenresources.cpp:57 does not match qrroutput.cpp:9;
  - `mId` is not declared;
  - qrrscreenressources.cpp reads the CRTC id through `mInfo`.

  The model gives QRROutput the id it is listed under and reads the CRTC id from the record.
- A KScreen output's `live` field is the KScreen output object as read when the object was built. Later configurations are new objects and do not change it.
- Unicode is not modelled. The case-insensitive backend match folds ASCII letters only, and output names are compared as character sequences.
- QrrScreenResources.Outputs, QrrCrtc.CachedCrtc: these use the corrected halves of the two Findings rows. `outputs(true)` on a filled list rebuilds through the refresh that clears the list; the source appends the new outputs behind the deleted ones (qrrscreenresources.cpp:52-58, as `QrrScreenResources.RefreshAsWritten` shows). A null XRRGetCrtcInfo reply is cached as the null defaults of `QrrCrtc.CrtcFromInfo`; the source's constructor dereferences it (xrrscreenresources.cpp:82-83, as `QrrCrtc.NullCrtcInfoCrashes` shows).
- KScreenOutput.FromInfo: assumes the KScreen output reports a non-negative size (`KOutputInfo.width` and `height` are `nat`). KScreen answers an invalid QSize(-1, -1) for an output without a current mode. QRect(pos, size) then has width and height -1, is not null, and `|` normalises it into the union. Such outputs are not modelled; `Geometry.Rect` has non-negative sizes.
- The initial `false` of a freshly constructed QOutput (`QOutput.InitialEnabled`) is a constant. Every constructor modelled sets the flag itself, as their contracts state.
- KScreenResources.Refresh: "every configuration id is stored afterwards" is proved only from an empty map with distinct ids and names (`KScreenResources.CreateBuildsEveryOutput`). In general an object moved by name keeps its old name, and a later configuration output can move it again, so an id can be lost.
- KScreenResources.RefreshFromEmpty: identity handles are not pinned to their numbering. The contract states that each object is the one built from its configuration output, apart from its handle.
- OutputToggle.KToggleFlipsIffTrue: states the flag of the toggled object, not the whole state. A refused KScreen configuration still leaves the map refreshed from the configuration that was read. When the configuration read in updateConfig no longer lists the toggled output's id, refreshOutputs deletes that object (kscreenresources.cpp:131-132), and on a refusal the source then writes the old flag through the deleted pointer (160-161, 192-193). The model has no pointers: the object is simply gone, the flag clauses hold vacuously, and only the survival clause for a listed id is promised.
- KScreenResources.EnableOutput, KScreenResources.DisableOutput: the Q_ASSERT(newMinPriority >= totalMinPriority) at kscreenresources.cpp:156 and 188 is not modelled as an abort; the model is a release build, where the assertion is compiled out and the shift wraps in `uint32_t`. Enabling a disconnected output while no connected output is enabled reaches that case (`KScreenResources.ShiftWrapsWithoutEnabled`).
- KScreenOutput.Display, XRandROutput.Display, QrrOutput.Display: QString::arg replaces the lowest-numbered `%n` in the text built so far, so a name that itself contains `%2` and the like is substituted again by the next arg call. The model writes the name verbatim, which holds for names without `%` followed by a digit; `DisplayDeterminesRect` and `DisplayDeterminesGeometry` rest on it.

## Findings

| source | as written | input that shows it | evidently intended | confidence | as-written member | corrected member |
|---|---|---|---|---|---|---|
| qrrcrtc.cpp:17-19 | every field is guarded against a null XRRCrtcInfo, but the output list is copied through `info->noutput` unguarded (also xrrcrtc.cpp:35-37) | a null reply, e.g. XRRGetCrtcInfo failing for a CRTC id: the constructor dereferences null (`QrrCrtc.NullCrtcInfoCrashes`) | a null reply gives the defaults the other fields spell out and an empty output list | not executed | QrrCrtc.CrtcFromInfoAsWritten | QrrCrtc.CrtcFromInfo |
| qrrscreenresources.cpp:52-58 | refreshOutputs deletes the old outputs but does not clear the list, and appends the new ones after them (also qrrscreenressources.cpp:52-58) | outputs(true) on a filled list: output(id) of any id listed before finds the deleted output, never the new one (`QrrScreenResources.DeletedOutputShadowsFresh`) | the list is cleared after the old outputs are deleted | not executed | QrrScreenResources.RefreshAsWritten | QrrScreenResources.Refresh |
