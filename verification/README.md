# The registry and its two doors

A Dafny model of the lij-worker registry: the same records served at two doors, the worker on
Cloudflare and the box, kept level by the box's mirror loop. `dafny verify dfyconfig.toml` checks the
whole of it.

Each module follows a part of the program. What the program does in place is a class or a method with
a loop, proved against a function of the old state; the results are lemmas about those functions.

- `Text`, `Json`, `Records`: strings as JavaScript orders, prints and encodes them; request bodies; stored values.
- `Kv`, `FilePath`, `FileStore`, `Paging`: an expiring map, the files that stand for it, and cursor paging.
- `MirrorRules`, `Doors`, `Reconcile`: the rules both doors share, the worker's mirror routes, the box's loop.
- `Convergence`, `Runs`: what a quiet cycle does, and what holds over every interleaving.
- `RegisterMsg`, `Normalise`, `Shapes`, `Domains`, `Zbase32`: what gets signed, what shape it must have, and the texts and
  bytes it is signed as.
- `Registry`, `Accepted`: registering and leaving, the provider's channel backup, the wallet's copy under single-use
  challenges; and what each answer means.
- `Limiter`: the per-address rate limit.
- `Shortfalls`: inputs on which the code falls short of what it promises.

## Main results

- **Convergence.** A quiet cycle works on the first 300 unlevel keys: it levels those the receiving side
  takes, leaves the refused ones as they were, and reports the rest as left. Over many cycles a key that
  would be taken comes level exactly when fewer than 300 refused keys come before it, and otherwise never
  (`TakenIff`). Once level, both doors show the last write to the key: the state, clock and bytes of whichever
  door's write was the later when the cycles began (`Converges`). A key is level exactly when the doors show
  one write (`LevelIff`): nothing, or one kind of thing at one clock.
- **Never rolled back.** In every interleaving of requests, client writes, mirror calls and copies made
  from listings of any age, the worker's effective clock of a key never falls and no value stands in the
  shadow of a newer tombstone. The same holds at the box when no client writes the key there between its
  listing and its pull; `PullShadowIff` is the guard a pull would have to make for that not to matter.
- **Order and replay.** Mirror calls with distinct clocks commute and may be repeated; at one clock the
  first to come wins, and `SwapIff` says exactly when two calls commute.
- **Guarded records.** While a registration or a copy stays present at a door its signed number never
  falls, whatever mix of the registry's own requests, mirror puts and pulls reaches it.
- **Histories.** The timestamps accepted for one key never fall, even past the departure marker's expiry;
  a challenge is spent at most once for each time it was issued; the two stored generations of a channel
  backup are the last two accepted.
- **Accepted exactly when.** Registrations, departures, channel backups and the wallet's push, read and forget
  are accepted exactly under conditions that name their windows, bounds and the very text or bytes the signature
  is over; what is stored is what was signed (`RegisteredStores`, `PushedStores`).
- **Shapes.** A record, a block and a list of routes are taken as they are exactly when they are within bounds
  spelled out one by one, and every body accepted is coerced to one within them (`RecordTakenIff`, `CoercedWithin`).
- **Signed texts.** Each text and preimage is spelled out part by part (`MessageSpelled`, `PreimageSpelled`). Each of the six operations' texts and both backup preimages determine what was signed.

## Where the code and its promises part

- The mirror's header says the box keeps its own guard for a newer tombstone. A pull compares only with
  the value it would replace, so a pull from an old listing can put a value under a newer tombstone (`PullShadowIff`, and
  `PulledIntoShadow` for a run that does).
- Signed requests are said to be no-ops on replay. A put that the record rule refused is not: it is
  applied when the record it fell short of has been deleted at an older clock
  (`RecordRuleReplayApplies`, and `RefusedPutReplayIff` for exactly when).
- A cycle is said to leave what is beyond its 300 keys to the next. Three hundred refused keys keep every
  key after them from ever being reached (`TakenIff`, and `NeverReached` for such a pair of doors).
- An offer of the silent-payment index without a filter server, beside a tatara block or a routes list,
  is signed but not stored, so the stored record's text is another (`TextKeptIff`, and `OfferIsDropped`
  for such a body).
- A fee that is not a number is signed as 0 (`RegisterMsgInjective` speaks of the fields as signed).
- The keys `:a` and `_:a` share the files of `a` (`PlacesCollide`; `SamePlaceIff` for which keys share a place).
- Of the rate limit, one period can let through one call less than twice the limit; that is met (`TheBoundIsMet`).

## Model

| member | source | states |
|---|---|---|
| Convergence.Converges | lij-worker/node/reconcile.js:112-138 | through any number of quiet cycles each mirrored key comes to show its last write at both doors, with state, clock and bytes, or its cells stay as they were; the refused keys stay the same ones, and where none is refused each cycle takes the next 300 keys off the list |
| Convergence.TakenIff | lij-worker/node/reconcile.js:112-138 | a key the receiving side takes shows its last write at both doors within a stated number of cycles if fewer than 300 refused keys come before it; otherwise it is as it was after any number |
| Convergence.AllButTheRefusedIff | lij-worker/node/reconcile.js:112-138 | after more cycles than keys wait, exactly the refused keys are unlevel if and only if no waiting key stands behind 300 refused ones |
| Convergence.QuietStep | lij-worker/node/reconcile.js:112-138 | one quiet cycle does not fail, leaves on the list the refused keys of its batch and then all beyond it, changes no other cells, counts what is beyond as left, and the doors stay as quiet |
| Convergence.QuietCycle | lij-worker/node/reconcile.js:112-138 | for any two no-shadow doors: the cycle fails exactly when a key of its batch does; otherwise the movable keys of the batch are copied and every other key is as it was |
| Convergence.QuietCycleLeaves | lij-worker/node/reconcile.js:112-138 | for any two no-shadow doors whose batch does not fail: the movable keys of the batch come out level with bytes alike, the refused ones and all others are as they were, and the list left is the refused ones and then the rest |
| Convergence.StarvedIff | lij-worker/node/reconcile.js:129 | one cycle that does not fail changes nothing exactly when its whole batch is refused by the receiving side |
| Convergence.ActOnCells | lij-worker/node/reconcile.js:76-134 | a single copy fails, moves and changes the key's cells exactly as the two conditions on the cells say |
| Convergence.CopiedLevels | lij-worker/node/reconcile.js:122-134 | a copy that is made leaves both doors showing the last write, bytes included, free of shadows |
| Convergence.UnlevelIsAll | lij-worker/node/reconcile.js:113-126 | the names a cycle works from are in order, each once; which they are is told by `UnlevelIff` |
| Convergence.UnlevelIff | lij-worker/node/reconcile.js:113-126 | of quiet doors the list holds exactly the mirrored keys at which they show two different writes |
| Convergence.LevelIff | lij-worker/node/reconcile.js:122-125 | a name is passed over exactly when both doors show nothing, both a value at one clock, or both a deletion at one clock |
| Convergence.ThrowsIff | lij-worker/node/reconcile.js:76-111 | a call fails exactly when a door has no place for what it would store, the key is over 300 characters where it travels, or the box's side has no clock |
| Convergence.MovableIff | lij-worker/node/reconcile.js:76-111 | the receiving side refuses exactly a record of a lower number, and of what the box pushes also a value at the clock of the worker's deletion and one that expires within a minute |
| Convergence.RemoteListingIff | lij-worker/node/reconcile.js:51-63 | the box's listing of the worker holds exactly the live mirrorable keys that fewer than 100,000 live ones come before, with clock and expiry |
| Convergence.VisitAllQuiet | lij-worker/node/reconcile.js:121-135 | by induction over the names: which are reached within the budget, which are counted left, and that no other key changes |
| Runs.WorkerNeverRolledBack | lij-worker/src/index.js:546-573 | in every interleaving the worker's effective clock of a key never falls and no value is shadowed, if the requests and clients that write that very key have clocks no older than it |
| Runs.BoxNeverRolledBack | lij-worker/node/reconcile.js:76-111 | the same at the box when its pulls see no write of the key since the listing |
| Runs.PullShadowIff | lij-worker/node/reconcile.js:76-87 | a pull that is made keeps the no-shadow rule exactly when the box's tombstone is no newer than the clock pulled |
| Shortfalls.PulledIntoShadow | lij-worker/node/reconcile.js:76-87 | a run of two steps, a delete at the box and a pull by listings made before it, that ends with a value beside a newer tombstone |
| Shortfalls.NeverReached | lij-worker/node/reconcile.js:121-134 | a pair of quiet doors with 300 refused keys and one more that would be taken, which no number of cycles levels |
| Shortfalls.OfferIsDropped | lij-worker/src/index.js:704-737 | an accepted body with one route whose signed message is not that of the record stored for it |
| Runs.ReplayedPutIsNoop | lij-worker/src/index.js:546-562 | a put sent again at any later moment of any run changes nothing, unless the record rule had refused it |
| Runs.RefusedPutReplayIff | lij-worker/src/index.js:548-554 | one that the record rule refused changes nothing exactly when the key has caught up with its clock, or the rule refuses it still, or its expiry is too near |
| Runs.RecordRuleReplayApplies | lij-worker/src/index.js:554 | a concrete put refused by the record rule and then applied on replay |
| Runs.ReplayedDeleteIsNoop | lij-worker/src/index.js:563-573 | a mirror delete sent again at any later moment of any run changes nothing |
| Runs.GuardedNeverFalls | lij-worker/src/mirror.js:61-73 | while a guarded key stays present at a door the number it holds there never falls, in every interleaving |
| Runs.CopiesAreSteps | lij-worker/node/reconcile.js:122-134 | what a cycle does for a key from listings of any age is one of the steps the runs are made of |
| Doors.Door.Put | lij-worker/src/mirror.js:40-43 | a client's put stamps the request's clock on a mirrorable key and none on a challenge |
| Doors.Door.Delete | lij-worker/src/mirror.js:44-49 | a client's delete removes the key and leaves a tombstone at the request's clock where it is mirrored |
| Doors.Door.TakePut | lij-worker/src/index.js:537-562 | the route's answer and new state: each refusal in its order, else the value under the clock it came with |
| Doors.Door.TakeDelete | lij-worker/src/index.js:537-573 | the same for a delete: the value gone and a tombstone at the clock it came with |
| Doors.MirrorCallsOnlyRaise | lij-worker/src/index.js:546-573 | no mirror call, whatever its arguments, lowers a key's effective clock or leaves a value in shadow |
| Doors.NewestWins | lij-worker/src/index.js:546-573 | any sequence of calls on an unguarded key, each at its own time, leaves it showing the call of the highest clock, or what it showed if that was newer |
| Doors.OrderIndependence | lij-worker/src/index.js:546-573 | the same calls in any two orders, with any repetition and at any times, leave the key showing the same |
| Doors.SwapIff | lij-worker/src/index.js:548-566 | two calls commute exactly when their clocks differ, or they show the same, or the store is as new |
| Doors.PutAnswers | lij-worker/src/index.js:537-562 | each answer of a put exactly on its own condition, and an applied one changes the key's entry alone, to what came |
| Doors.DeleteAnswers | lij-worker/src/index.js:537-573 | the same for a delete, which leaves no value and a tombstone of seven days at the clock that came, and all else as it was |
| MirrorRules.ClockingIsTransparent | lij-worker/src/mirror.js:35-51 | outside the tombstones every read of every run through the clocked store answers as on the bare store |
| MirrorRules.ChallengesStayUnclocked | lij-worker/src/mirror.js:29-51 | challenge keys never get a clock or a tombstone, whatever the run |
| MirrorRules.DeleteLeavesTombstone | lij-worker/src/mirror.js:44-49 | the tombstone of a delete keeps its clock through every run without another delete of the key |
| MirrorRules.TombLasts | lij-worker/src/mirror.js:44-49 | a tombstone holds its clock for seven days, to within a second |
| MirrorRules.GuardRefusesIff | lij-worker/src/mirror.js:61-73 | the guard refuses exactly a registration or a copy of a lower number than the stored one, where both have one |
| MirrorRules.MirroredIff | lij-worker/src/mirror.js:24-31 | all keys are mirrored but open challenges and tombstones |
| Reconcile.Reconciler.ListRemote | lij-worker/node/reconcile.js:51-63 | the listing gathered page by page is the worker's first 100,000 live names, mirrorable ones with clock and expiry |
| Reconcile.Reconciler.ListLocal | lij-worker/node/reconcile.js:64-68 | every live mirrorable key of the box |
| Reconcile.ListingShowsCells | lij-worker/node/reconcile.js:70-75 | a key's state read from a listing is the one its value and tombstone entries decide |
| Reconcile.Reconciler.PullKey | lij-worker/node/reconcile.js:76-87 | the box's new state and whether it moved: no such key, an equal or newer clock, the record rule, else the value written |
| Reconcile.Reconciler.PushKey | lij-worker/node/reconcile.js:88-96 | the freshly read value put under the listed clock and expiry, if the worker takes it |
| Reconcile.Reconciler.DeleteRemoteKey | lij-worker/node/reconcile.js:97-102 | the tombstone sent to the worker, if it takes it |
| Reconcile.Reconciler.DeleteLocalKey | lij-worker/node/reconcile.js:103-111 | the box's value removed and the same tombstone written unless either is as new |
| Reconcile.Reconciler.VisitName | lij-worker/node/reconcile.js:122-134 | what one name does to both doors, to the counts and to the budget |
| Reconcile.Reconciler.VisitNames | lij-worker/node/reconcile.js:119-135 | the names in turn, stopping at the first call that fails and keeping what was moved |
| Reconcile.Reconciler.Cycle | lij-worker/node/reconcile.js:112-138 | both doors, the counts and the cycle counter after one cycle |
| Reconcile.VisitCounts | lij-worker/node/reconcile.js:119-135 | each count goes up by one exactly with the move it names, and past the 300th operation a name is counted as left |
| FileStore.FileStore.Read | lij-worker/node/store.js:70-77 | any key reads as the expiring map does under the spelling that stands for its place; an expired entry's files are removed; a key with no place is an error |
| FileStore.FileStore.Put | lij-worker/node/store.js:87-98 | the files then stand for the map with the bytes, clock and expiry at the key's place replaced and nothing else changed |
| FileStore.FileStore.Delete | lij-worker/node/store.js:99 | the files then stand for the map without the key's place |
| FileStore.FileStore.RemoveFiles | lij-worker/node/store.js:68 | exactly the two files it is handed go, and with them the entry they are of |
| FileStore.FileStore.Visit | lij-worker/node/store.js:109-116 | one file met: an expired entry is removed, a live one added to the list under the name its path decodes to |
| FileStore.FileStore.Walk | lij-worker/node/store.js:101-117 | the walk ends with every live key listed once and every expired one gone |
| FileStore.SortByName | lij-worker/node/store.js:118 | the list in the order of names, every line kept once |
| FileStore.FileStore.Entries | lij-worker/node/store.js:100-120 | every live entry once with its own clock and expiry, in the order of the names; of canonical keys, the keys themselves in order |
| FileStore.FileStore.List | lij-worker/node/store.js:121-130 | the page of the live names that start with the prefix and come after the cursor, as many as the limit lets, and the cursor to go on from |
| FileStore.FileStore.Serve | lij-worker/node/store.js:70-120 | any run of reads, puts, deletes and listings of canonical keys at times that never fall is answered as by a plain expiring map |
| Kv.SweepingIsUnseen | lij-worker/node/store.js:70-120 | over any run at times that never fall, the store that removes expired entries as it reads answers as the plain expiring map |
| Kv.PutLasts | lij-worker/node/store.js:87-98 | a value put with a ttl is live for its seconds, to within one; one put until a second, until that second; any other for ever |
| Kv.WrittenSpelled | lij-worker/node/store.js:87-98 | a put records the bytes, a positive clock or none, and its expiry |
| Kv.SweptAndSeenIff | lij-worker/node/store.js:70-77 | a read removes its key's own entry exactly when its second has come and nothing else; a reader sees just the entries whose second has not |
| FilePath.EncodeRest | lij-worker/node/store.js:20-24 | the loop percent-encodes exactly what is not a safe character |
| FilePath.DecodeRest | lij-worker/node/store.js:25-32 | the loop unescapes every byte and reads them as UTF-8 |
| Text.PercentRoundTrip | lij-worker/node/store.js:20-32 | decoding undoes encoding, for any set of ASCII characters kept that lacks the percent sign |
| Text.PercentPlainIff | lij-worker/node/store.js:20-24 | a text is printed as it stands exactly when all of it is kept |
| Text.EscapeSpelled | lij-worker/node/store.js:22 | an escape is '%' and the two upper-case digits of its byte |
| Text.LessIsUtf16 | lij-worker/node/store.js:118 | names are ordered by their UTF-16 code units |
| Text.Utf8Vectors | lij-worker/node/store.js:20-24 | the encodings of section 7 of RFC 3629 |
| FilePath.NameAtRecoversIff | lij-worker/node/store.js:33-43 | a listing recovers the key from its path exactly when the key has no ':' or its first prefix is neither empty nor '_' |
| FilePath.PlacesDistinct | lij-worker/node/store.js:33-43 | two such keys at one place are one key |
| FilePath.SamePlaceIff | lij-worker/node/store.js:33-43 | any two keys share a place exactly when they have one principal spelling |
| FilePath.PlacesCollide | lij-worker/node/store.js:36-37 | other keys do share places |
| FilePath.FileNamesDistinct | lij-worker/node/store.js:63-97 | value, sidecar and temporary names never coincide, at one place or between places |
| FilePath.ListedIffValue | lij-worker/node/store.js:110-111 | the listing's test of a file name accepts the value file of a key and none of its others |
| FilePath.SplitIff | lij-worker/node/store.js:33-43 | which keys have a place and what it is: the prefix a directory of letters, digits, '_' and '-', or "_" without one, and a remainder of 1 to 240 characters once encoded |
| FilePath.RemainderIff | lij-worker/node/store.js:19-24 | a remainder is its own file name exactly when it is letters, digits, '_', '-' and ':', and any file name is those and escapes |
| FilePath.FilesSpelled | lij-worker/node/store.js:63-97 | the names of a value file, its sidecar and their temporaries |
| Paging.FollowUnderChange | lij-worker/node/store.js:121-130 | following cursors while keys come and go: ascending, only names with the prefix and after the cursor that once were there, and at the end every such key that was there throughout |
| Paging.AscendingOnce | lij-worker/node/store.js:118 | an ascending listing names nothing twice |
| Paging.KvListAll | lij-worker/src/index.js:72-81 | on a still store: the first min(cap, N) of the names that start with the prefix when pages hold 100 or more, and exactly how many otherwise |
| Paging.MatchingMembers | lij-worker/node/store.js:125-126 | the names a page is cut from are exactly those that start with the prefix and come after the cursor, in their order |
| Paging.FollowPages | lij-worker/node/reconcile.js:54-60 | the names gathered from at most so many pages are a prefix of the listing of just that length |
| Registry.FreshOverRuns | lij-worker/src/index.js:667-770 | over any run of requests at times that never fall, the accepted registration and departure timestamps of one key never fall |
| Registry.AcceptedIsRemembered | lij-worker/src/index.js:757-769 | an accepted timestamp is held by the record, or by a departure marker that lasts until 600 s past it |
| Registry.FreshStep | lij-worker/src/index.js:722-769 | an accepted request is no older than what the door remembers and is remembered in turn; any other leaves the memory |
| Registry.FirstTimeStays | lij-worker/src/index.js:717-724 | as long as a key stays registered every request keeps its first registration time |
| Registry.DepartureRemoves | lij-worker/src/index.js:748-772 | an accepted departure leaves no record under the key |
| Registry.CopyAfter | lij-worker/src/index.js:882-990 | an accepted push leaves its number, bytes and rest to be read under the fingerprint of the bytes, or, sent again, the stored one of its number and fingerprint; a forget leaves nothing, and any other request leaves the copy as it was |
| Registry.SpentOnce | lij-worker/src/index.js:851-990 | over any run, the accepted pushes, reads and forgets under one challenge are no more than the times it was issued |
| Registry.ScbHistory | lij-worker/src/index.js:789-809 | after any run the current and previous entries hold the last and second-last accepted generation, each beside its own hash and size, and timestamps rise |
| Registry.ScbDoneIff | lij-worker/src/index.js:792-805 | a push is taken exactly when it is signed, in time, another copy and newer; otherwise nothing changes |
| Registry.KeysDistinct | lij-worker/src/index.js:743-851 | the keys the handlers build for different purposes, nodes, generations or nonces are different |
| Registry.Untouched | lij-worker/src/index.js:633-990 | a request changes the entries it is about and no other |
| Registry.CellsElsewhere | lij-worker/src/index.js:633-990 | nor does it change the value or tombstone of any mirrored key it is not about, whatever the clocks |
| Registry.KeysCanonical | lij-worker/src/index.js:743-851 | every key the handlers build is one a listing of the file store gives back |
| Registry.RequestsOnlyRaise | lij-worker/src/index.js:397-401 | a request never lowers a key's effective clock nor shadows a value, and writes under a guarded key only what the mirror's guard would let in |
| Registry.Registrar.Register | lij-worker/src/index.js:633-745 | the answer and the store after a registration, refusals in their order, first registration time kept |
| Registry.Registrar.Unregister | lij-worker/src/index.js:748-772 | the record gone under a 20-minute departure marker, or nothing changed |
| Registry.Registrar.PutScb | lij-worker/src/index.js:787-809 | the rotation of a channel backup, or nothing changed |
| Registry.Registrar.Challenge | lij-worker/src/index.js:841-852 | a challenge stored under its own key for 120 s |
| Registry.Registrar.PushCopy | lij-worker/src/index.js:854-906 | a new copy stored, a resend answered again, a stale one refused; the challenge spent only when accepted |
| Registry.Registrar.ReadCopy | lij-worker/src/index.js:909-964 | the challenge spent, then the stored copy answered |
| Registry.Registrar.ForgetCopy | lij-worker/src/index.js:970-990 | the challenge spent and the copy deleted |
| Accepted.RegisteredIff | lij-worker/src/index.js:633-745 | a registration is accepted exactly when its body has the shape, its timestamp is within 600 s, no older than the record's and newer than the departure's, and the named node signed the message of the coerced record |
| Accepted.RegisteredStores | lij-worker/src/index.js:698-743 | what is then stored is that very record, the one the signature is over, with its first registration time, and never expires |
| Accepted.DepartedIff | lij-worker/src/index.js:748-772 | a departure is accepted exactly when there is a record, it is within 600 s and newer, and signed over its own text; it leaves no record and a marker for 1200 s |
| Accepted.ScbSignedIff | lij-worker/src/index.js:775-797 | a channel backup is looked at exactly when within 600 s, of 1 byte to 5 MB, and signed over the hash of its bytes |
| Accepted.ScbAnswers | lij-worker/src/index.js:798-809 | it is answered as the same again, refused as older or stored exactly by the stored hash and timestamp |
| Accepted.ChallengeOpens | lij-worker/src/index.js:841-852 | a challenge is issued for any key, open at once and for 120 s to within the second |
| Accepted.PushedIff | lij-worker/src/index.js:854-906 | a push is accepted exactly when its number is safe, its kind known, the challenge open and proved over the right bytes, the copy names the wallet, and it is a resend or newer; a v2 push is proved over the fingerprint and number too |
| Accepted.PushedStores | lij-worker/src/index.js:876-906 | what is then held is the pushed copy, its bytes and the rest of it, with its fingerprint, or after a resend the copy there was; the challenge is spent |
| Accepted.ReadIff | lij-worker/src/index.js:909-964 | a read is answered exactly when the challenge is open and proved over the v1 bytes of a read, and spends it |
| Accepted.ForgottenIff | lij-worker/src/index.js:970-990 | a forget likewise, and leaves no copy |
| Accepted.KeysSpelled | lij-worker/src/index.js:743-851 | the keys as they are stored |
| Accepted.ScbKeysSpelled | lij-worker/src/index.js:794-805 | and those of a channel backup's two generations |
| Accepted.FormsIff | lij-worker/src/index.js:843-848 | a key is 66 digits of hex, a challenge 64 of lower-case hex |
| Accepted.HexRoundTrip | lij-worker/src/index.js:90-99 | the bytes that lower-case hex is read as print as that hex |
| RegisterMsg.RegisterMsgInjective | lij-worker/src/index.js:220-246 | two normalised records have one message exactly when their signed fields are equal, across all four formats |
| RegisterMsg.RecordText | lij-worker/src/index.js:220-246 | the printer run on a stored record prints that record's own fields |
| RegisterMsg.MessageSpelled | lij-worker/src/index.js:220-246 | the version and each field of the message in its place, in each of the four formats |
| RegisterMsg.BlockSpelled | lij-worker/src/index.js:264-270 | the block's twenty fields in their places, and what stands there when there is none |
| RegisterMsg.RoutesSpelled | lij-worker/src/index.js:233 | a route is printed as its reach, endpoint, wss address and filter address |
| RegisterMsg.EncodesJustTheOthers | lij-worker/src/index.js:234-245 | a text of letters, digits and -_.!~*'() is printed as it stands and no other is, and a message holds only those, escapes and ':' |
| RegisterMsg.JoinedInjective | lij-worker/src/index.js:234-245 | encoding and joining with ':' loses no field and no count of fields |
| RegisterMsg.SizesInjective | lij-worker/src/index.js:231 | a ','-joined list of numbers determines the list |
| RegisterMsg.TataraPartInjective | lij-worker/src/index.js:230-239 | the block's fields determine the block, and an absent one differs from every present one |
| RegisterMsg.RoutesOfInjective | lij-worker/src/index.js:233 | the routes field determines the routes, as no part of one can hold a joint |
| Json.PrintersSpelled | lij-worker/src/index.js:221-222 | nothing prints as nothing, and what is not a number as 0 |
| Json.ConversionsSpelled | lij-worker/src/index.js:221-258 | JavaScript's conversions to a string, a number and a truth, as they come out |
| Normalise.TextKeptIff | lij-worker/src/index.js:667-737 | the message over an accepted body is the one over the stored record exactly when no silent-payment offer is dropped |
| Normalise.CoercedIsShaped | lij-worker/src/index.js:676-713 | what the cleaners and coercions leave true of every accepted record, which injectivity needs |
| Normalise.CleanUrlText | lij-worker/src/index.js:252-258 | a filter address that passes was truthy, is printed as it stands and holds no vertical bar or semicolon |
| Normalise.TataraKept | lij-worker/src/index.js:277-301 | a block that passes prints the same before and after cleaning |
| Normalise.RoutesKept | lij-worker/src/index.js:312-330 | the routes that pass print the same before and after cleaning |
| Normalise.TakeRoutes | lij-worker/src/index.js:312-330 | the loop accepts one to three well-formed routes with no endpoint twice, and builds them in order |
| Shapes.RecordTakenIff | lij-worker/src/index.js:653-713 | a record is taken as it is exactly when every field is within its bounds |
| Shapes.CoercedWithin | lij-worker/src/index.js:653-713 | every record that a body is coerced to is within them |
| Shapes.CoercedNumbers | lij-worker/src/index.js:698-708 | its numbers and flag are the body's as JavaScript reads them, 0 for the three that may be absent |
| Shapes.BlockTakenIff | lij-worker/src/index.js:264-301 | a block is taken as it is exactly when within the bounds of its twenty fields |
| Shapes.UnknownKeyRefused | lij-worker/src/index.js:280-281 | a block with any other key is refused |
| Shapes.RoutesTakenIff | lij-worker/src/index.js:310-330 | a list of routes is taken as it is exactly when it is one to three within their bounds, no endpoint twice |
| Shapes.PlainAddressIff | lij-worker/src/index.js:252-276 | an address passes exactly when it is scheme, host, port and path so spelt, of at most 200 code units and no trailing '/' |
| Shapes.UrlCleanedIff | lij-worker/src/index.js:253-258 | when a filter address is none, when it is kept and as what |
| Domains.TextTellsOperation | lij-worker/src/index.js:220-422 | a signed text determines its operation and every field of it |
| Domains.MirrorMsgInjective | lij-worker/src/mirror.js:75-77 | a mirror call's text determines verb, path, time and hash, though the path may hold ':' |
| Domains.PreimageInjective | lij-worker/src/index.js:119-158 | a backup preimage determines its format, action, nonce, key, fingerprint and version |
| Domains.PreimageSpelled | lij-worker/src/index.js:119-158 | a preimage part by part: domain, action, nonce, key, and in v2 the fingerprint and the number in eight bytes |
| Domains.BigEndianValue | lij-worker/src/index.js:150-156 | the highest byte comes first |
| Domains.NodeTexts | lij-worker/src/index.js:336-389 | what a node signs to leave, push and fetch, spelled out |
| Domains.NameTexts | lij-worker/src/index.js:422 | what is signed for a name, spelled out |
| Domains.MirrorText | lij-worker/src/mirror.js:75-77 | what is signed for a mirror call, spelled out |
| Domains.BuildV1 | lij-worker/src/index.js:119-132 | the buffer filled field by field is the v1 preimage |
| Domains.BuildV2 | lij-worker/src/index.js:142-158 | the buffer filled field by field is the v2 preimage; none for a fingerprint of another size or an unsafe version |
| Domains.SetAt | lij-worker/src/index.js:128-131 | setting a field at an offset keeps what is before it |
| Zbase32.RoundTrip | lij-worker/src/index.js:342-352 | decoding the encoding of any bytes gives them back with no extra byte |
| Zbase32.AlphabetSpelled | lij-worker/src/index.js:341 | the alphabet in its order |
| Zbase32.DigitIsItsChar | lij-worker/src/index.js:345-347 | what is read as a digit is that digit's character |
| Zbase32.CapitalsRead | lij-worker/src/index.js:345-347 | or the capital of it |
| Zbase32.Vectors | lij-worker/src/index.js:342-352 | the alphabet's own examples: the highest bits first, zeros at the end |
| Zbase32.OtherRefused | lij-worker/src/index.js:345-347 | a text with a character of no digit is refused |
| Zbase32.Interleave | lij-worker/test-register-sig.mjs:21-29 | between any two bytes, what the encoder and decoder hold together is the last byte |
| Zbase32.Decode | lij-worker/src/index.js:342-352 | the loop with a wrapping, unmasked 32-bit accumulator computes the decoding of clean ones |
| Zbase32.Encode | lij-worker/test-register-sig.mjs:21-29 | the same for the signer's loop |
| Zbase32.DecoderStep | lij-worker/src/index.js:348-349 | the bits above the pending ones never reach an output of the decoder |
| Zbase32.EncoderStep | lij-worker/test-register-sig.mjs:25-26 | nor of the encoder |
| Limiter.MemLimiter.constructor | lij-worker/node/limiter.js:6-9 | at least one call and one second, whatever is configured |
| Limiter.MemLimiter.Limit | lij-worker/node/limiter.js:12-19 | the table after a call, and success while the window's count is within the limit |
| Limiter.MemLimiter.Prune | lij-worker/node/limiter.js:10 | exactly the finished windows go |
| Limiter.CountedSpelled | lij-worker/node/limiter.js:12-19 | a count starts again at one when its window has lasted the period, and else goes up by one |
| Limiter.PrunedWhenLarge | lij-worker/node/limiter.js:10-18 | the table is pruned exactly when it holds more than 20,000 windows, of the finished ones alone |
| Limiter.PruningIsUnseen | lij-worker/node/limiter.js:10-17 | at times that never fall no answer differs from a limiter that never prunes |
| Limiter.FewerThanTwiceTheLimit | lij-worker/node/limiter.js:6-22 | any interval of one period lets through at most 2 max - 1 calls of a key |
| Limiter.WithinBudget | lij-worker/node/limiter.js:12-19 | what a window already open leaves for an interval |
| Limiter.OneWindowKeepsTheLimit | lij-worker/node/limiter.js:12-19 | the window a call opens lets through at most max |
| Limiter.TheBoundIsMet | lij-worker/node/limiter.js:12-19 | for every limit, a run that lets 2 max - 1 through in one period |

## Left out

- Convergence.Converges: asks that no call for an unlevel key fails, which rules out clock 0 on the box's side and keys a door has no place for; of level keys that equal clocks hold equal bytes; that every key held is canonical, since the model's box is a map over such keys and the file store gives several spellings one place; that nothing expires before the horizon; and at most 100,000 keys, since a listing stops after 100 pages. `QuietCycle` says when a cycle fails.
- Convergence.TakenIff: asks the same. Which keys are refused is told by `Movable`: a value at the clock of the worker's tombstone, a record the guard will not replace, a value about to expire.
- Doors.OrderIndependence: for keys without a record guard, and for calls between which nothing the key has expires.
- Runs.WorkerNeverRolledBack: asks that a request or client that writes the key has a clock no older than what its door holds under it, and that the key's entries do not expire during the run.
- Runs.BoxNeverRolledBack: asks in addition that the box is not written between a listing and its pull of the key, and that the keys named at the box are canonical, which the registry's own always are.
- Reconcile.Reconciler.PullKey: the box is a map over canonical keys; the copies of a key with another spelling are not followed to the place it shares.
- Paging.KvListAll: the names are one listing of a store that does not change while it is followed.
- FileStore.FileStore.Put: a completed put; the value and its sidecar are renamed one after the other, and a crash between the two is not modelled.
- FileStore.FileStore.Read: no file in the directory that the store did not write.
- FileStore.FileStore.Serve: canonical keys; for others `Read`, `Put`, `Delete` and `Entries` say what happens at their shared places.
- FilePath.DecodeRest: bytes that are not UTF-8 give none where the source gives replacement characters; no file the store writes has such a name.
- Zbase32.RoundTrip: says nothing of texts that no encoder prints, such as a number of digits no byte count gives.
- Signatures, SHA-256 and key recovery: functions of the environment; the model fixes the bytes they are given.
- HTTP, CORS, JSON parsing and printing, caches, body caps, the binding of the limiter to addresses, and timers, logs and the in-flight flag of the box's loop.
- The name routes, the address lookup they serve, and the ranking of `/lsps`: few branches, and a floating-point score.
- The GET of `/lsp-backup`, the health route and `kvGetMany`: plain reads.
- Cloudflare KV's internals: a stale listing is any earlier state of the door, and a single value is read as it is when it is asked for.
- When a tombstone finally disappears: the receiving side counts its seven days from its own time.
- Wall-clock time within one request or one cycle: each runs at one time; a cycle's requests to the worker do not interleave with others except as separate steps of `Runs`.
- Numbers that are not whole, whole numbers printed with an exponent, lone surrogates, and hex with stray characters that `hexToBytes` would still read.
- Objects that bring their own `toString`, and bodies on which a cleaner would throw.
- A stored value is kept as what it parses to, so texts that parse alike are one value.
