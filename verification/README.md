# Verified model of vyuh

A Dafny model of the parts of the vyuh web framework whose behaviour is decided by branching, by state that changes
over time, or by two pieces of code that have to agree. Each module follows one component. Code that updates a field,
a buffer or an accumulator step by step is a method with its loop, proved equal to a function; what the component
promises is then proved about that function, for every input or for every run.

| module | component |
|---|---|
| `ValidateDerive`, `ValidateDeriveFacts` | the `Validate` derive as a compiler with two targets: runtime checks and JSON Schema keywords |
| `SchemaRefs`, `DelegatedSchemas` | applying keywords to a schema through `$ref`; what a delegated field's type makes of its schema |
| `JsonPointer`, `References` | reading a definition name out of a reference |
| `ErrorTree`, `ErrorTreeFacts` | validation reports and the nested error tree built from them |
| `ScheduleQueue` | the scheduled queue: a heap with stale deadlines, repaired when it is popped |
| `Timers`, `Emitters`, `CronTimers` | the timer queue and the emitter loop around it; when each kind of timer fires again |
| `TimerRefinement`, `SharedTimers` | both as eager ones in which a touch counts at once; timers that share a type |
| `Shutdown` | the graceful and forced shutdown protocol |
| `Listener` | the notification listener: reconnects, sessions, backoff |
| `Assets` | the asset URL printer and the request path parser |
| `Scopes`, `Slash`, `Metrics` | scope collections, trailing slashes, request metrics |
| `Scanners`, `ChunkedLoop` | the comment stripper and the chunked decoder of the benchmark scripts |
| `Bytes`, `JsonValues`, `Wrappers` | percent-encoding (section 2.1 of RFC 3986), UTF-8, splitting; JSON values; options and results |

## What the code turned out not to promise

- A nested error tree is faithful exactly for reports without a *clash* (`ErrorTreeFacts.FaithfulIffClashFree`): two
  paths one of which runs through the other's leaf, that need an array and an object at one place, or that share a
  position anywhere but first. The last case is the common one: two faulty elements of a `Vec` held in a field lose the
  first element's messages (`ErrorTreeFacts.ListFieldLosesErrors`), because the array is started again
  (vyuh/src/validation.rs:297-299, 342-344).
  Of a message above another the deeper one stays, in whichever order they were reported (`DeeperStays`).
- `ValidateDeriveFacts.TargetsRelate` is the exact relation of the two targets of the derive on every present value of
  a field that is not delegated, for every field schema, and `TargetsDifferIff` says on which values they differ: those
  that meet what both ask, and one of what either asks alone. The runtime alone asks for a `pattern` that the one of
  `phone_e164` overwrites, for an enum literal it can compare, and the user-written validator; the schema alone refuses
  an inclusive bound next to which it carries an exclusive flag of its own. A delegated field leaves its attributes to
  the schema; at runtime the nested validator alone decides (`DelegationDropsChecks`).
- `ScheduledQueue::update` is documented to answer whether the item exists (vyuh/src/schedulers.rs:99-110). In every
  run it answers whether the key was ever handed out (`ScheduleQueue.UpdateAnswers`), which is right exactly for keys
  never handed out and keys still queued (`UpdateIsRightIff`); a key inserted, popped and updated is where it is wrong
  (`DeadKeyAnswersTrue`). Its effect on dead keys is nothing.
- An interval timer is paced in every run exactly when it has no interval to keep or its type is registered once
  (`SharedTimers.PacedIffOnce`). A cron and a periodic timer that share a type use up each other's touches: for every
  registration of such a pair `SharedTimers.SharedTypeStealsTouch` gives the run.
- The chunked decoder need not end, because a size below zero brings its cursor back. It goes on for ever exactly when,
  within as many turns as the body has bytes, it starts twice from one place (`ChunkedLoop.RunsForEverIff`, and
  `EndsIff` as a decision). It ends when the cursor moves on in every turn (`MovingOnEnds`); it does not on any body
  whose first size line of n bytes says -(n + 4) (`ReturningNeverEnds`). As long as no size is below zero it returns
  what the body decodes to (`LoopDecodes`).
- A redirect that adds a slash leads off the site for a request path that starts with two slashes, and only then or for
  the path "/" (`Slash.SlashfulRedirectsOnce`).
- `strip_url_prefix` is documented to remove a prefix (vyuh/src/assets.rs:517). A normalized prefix ends in a slash and
  the code then asks for another one, which no cleaned path has, so every path but the prefix itself is left alone
  (`Assets.StripKeepsCleanPaths`). The model follows the code.

## Assumptions

- `ValidateDerive.Env` stands for the regular-expression engine, the format parsers, user-written validators, nested
  `Validate` implementations and foreign schema keywords; both targets use the same one.
- The exclusive bounds of a schema are boolean modifiers, as in section 5.1 of draft-fge-json-schema-validation-00.
- Clocks never go back, and the wall clock goes with the other one. A cron schedule is how far its next occurrence is
  from each reading; the results about it hold for every such schedule.
- Heaps choose arbitrarily among least deadlines. What lies between two awaits is one step.
- In the shutdown protocol a `select!` may take any ready branch, a ready branch is taken before the clock moves on,
  and no background work is spawned once none is left.
- The list of validator names in a field schema (`x-vyuh-validators`) is an annotation that refuses no value.
- What the database, the consumer, the random source and the shutdown signal do to the listener is a script.

## Model

| member | source | states |
|---|---|---|
| ValidateDerive.GenFieldValidation | vyuh-macros/src/validate.rs:67-100 | the pushes produce the check list `Checks` that the theorems below are about |
| ValidateDerive.GenStandardValidators | vyuh-macros/src/validate.rs:148-167 | the binding of the target and the standard checks are pushed in the order of `StandardChecks` |
| ValidateDeriveFacts.TargetIsBoundFirst | vyuh-macros/src/validate.rs:148-167 | the target is bound exactly once if any check looks at it, before the first of them |
| ValidateDerive.GenStringFormats | vyuh-macros/src/validate.rs:205-282 | every flagged format gets its own check |
| ValidateDerive.GenFieldSchemaValidation | vyuh-macros/src/validate.rs:447-559 | the pushes produce the constraint list `Constraints`, exact length as both bounds, one format at most |
| ValidateDerive.GenTextConstraints | vyuh-macros/src/validate.rs:467-487 | the phone format is written as a pattern, after a pattern of the user's |
| ValidateDerive.UniqueItems | vyuh/src/validators.rs:471-481 | the scan accepts a list if and only if its items are pairwise different |
| ValidateDerive.InsertConstraints | vyuh/src/validation.rs:498-500 | the insertion loop gives `Applied`, whose keys and values `WrittenSchema` spells out |
| ValidateDeriveFacts.IntMultiple | vyuh/src/validators.rs:414-430 | a zero remainder with Rust's sign rule means an integral multiple, for negative numbers too |
| ValidateDeriveFacts.RealMultiple | vyuh/src/validators.rs:414-430 | the same for floating remainders, without rounding |
| ValidateDeriveFacts.MultiplesAgree | vyuh/src/validators.rs:414-430 | the check accepts exactly the multiples, and no number at all for zero |
| ValidateDeriveFacts.OneFormat | vyuh-macros/src/schemable.rs:487-509 | an accepted record flags at most one format, the one the schema chain picks |
| ValidateDeriveFacts.AcceptedRecords | vyuh-macros/src/schemable.rs:470-543 | the macro accepts a record if and only if these conditions hold, one by one |
| ValidateDeriveFacts.RuntimeMeans | vyuh-macros/src/validate.rs:67-443 | the generated checks accept a value exactly when delegate, custom validator and every attribute do |
| ValidateDeriveFacts.AbsentIsAccepted | vyuh-macros/src/validate.rs:148-443 | an absent optional value is never faulted by the attributes |
| ValidateDeriveFacts.AppliedHolds | vyuh-macros/src/validate.rs:447-559 | after all insertions each keyword holds what the attributes ask, or what the schema had |
| ValidateDeriveFacts.WrittenSchema | vyuh-macros/src/validate.rs:447-516 | key by key, as literal keywords, what an accepted record leaves in any field schema: its own value where the record asks, else the schema's |
| ValidateDeriveFacts.AppliedElsewhere | vyuh/src/validation.rs:482-502 | keys that are no keyword of the derive are unchanged |
| ValidateDeriveFacts.SchemaMeans | vyuh-macros/src/validate.rs:447-559 | for every field schema, a value satisfies what is left behind exactly when it meets the attributes the schema lists, is off the bounds a stale flag makes exclusive, and satisfies the rest |
| ValidateDeriveFacts.TargetsRelate | vyuh-macros/src/validate.rs:67-559 | the exact relation of the two targets, for every accepted record without delegation, every field schema and every present value |
| ValidateDeriveFacts.TargetsDifferIff | vyuh-macros/src/validate.rs:67-559 | on which values the targets differ, if and only if, stated on the record, the field schema and the value |
| ValidateDeriveFacts.TargetsAgree | vyuh-macros/src/validate.rs:67-559 | passing the runtime checks and satisfying the keywords are the same for every present value |
| ValidateDeriveFacts.RuntimeImpliesSchema | vyuh-macros/src/validate.rs:67-559 | over every field schema, what the runtime and the rest of the schema accept satisfies the keywords if and only if it is off the stale bounds |
| ValidateDeriveFacts.PatternIsForgotten | vyuh-macros/src/validate.rs:467-478 | an input accepted by the schema and refused at runtime: pattern next to phone format |
| ValidateDeriveFacts.DelegationDropsChecks | vyuh-macros/src/validate.rs:79-89 | for every delegated record the runtime asks the nested validator only, while the schema asks every attribute it lists |
| ValidateDeriveFacts.DelegatedInput | vyuh-macros/src/validate.rs:79-89 | an input accepted at runtime and refused by the schema: a delegated field |
| ValidateDeriveFacts.OtherLiteralNeverMatches | vyuh-macros/src/validate.rs:383-402 | an enum of one char, byte or byte string literal: the schema accepts its JSON, and the runtime no value at all |
| ValidateDeriveFacts.StaleFlagExcludesBound | vyuh/src/validation.rs:482-502 | for every record with a stale flag the schema refuses the inclusive bound itself |
| ValidateDeriveFacts.StaleFlagInput | vyuh/src/validation.rs:482-502 | for every minimum, with nothing else, the runtime accepts that bound |
| SchemaRefs.ApplyFieldConstraints | vyuh/src/validation.rs:482-502 | the definition is taken out, given its keywords and put back |
| SchemaRefs.ConstraintsReachTarget | vyuh/src/validation.rs:454-502 | the keywords reach the referenced schema's property; every other property, keyword and definition stays |
| SchemaRefs.TyKeepsNames | vyuh/src/validation.rs:408-471 | no definition is added or lost, whatever the type, the schema and its references |
| SchemaRefs.NestedKeepsNames | vyuh/src/validation.rs:549-568 | so does going through items, combinators and a reference of a wrapper |
| SchemaRefs.TargetResolves | vyuh/src/validation.rs:454-471 | what a schema resolves to after an operation is what the operation made of what it resolved to |
| SchemaRefs.OtherFieldStays | vyuh/src/validation.rs:454-547 | an operation on another field, delegation included, leaves a field's property and the way to it alone |
| SchemaRefs.FieldsReachTarget | vyuh-macros/src/validate.rs:447-559 | among fields of every kind, one that is not delegated ends with exactly its own keywords and validator |
| SchemaRefs.DerivedSchemaRelates | vyuh/src/validation.rs:454-547 | end to end, for a struct with fields of every kind: the schema found for a field that is not delegated relates to its generated checks exactly as in TargetsRelate |
| SchemaRefs.DerivedSchemaAgrees | vyuh/src/validation.rs:454-547 | so it accepts what the checks accept, for records on which the targets agree |
| SchemaRefs.ValidatorIsListed | vyuh/src/validation.rs:504-527 | the validator's name is appended to the list under "x-vyuh-validators", and no other key of the property changes |
| DelegatedSchemas.DelegatedFieldApplies | vyuh/src/validation.rs:529-547 | the property of a delegated field ends as what its type makes of it, the field's own keywords first and the validator name last |
| DelegatedSchemas.PlacesChange | vyuh/src/validation.rs:549-568 | items, then the branches of each combinator, are changed one after another, none twice |
| DelegatedSchemas.TyWorks | vyuh/src/validation.rs:408-568 | applying any type to a schema that fits does all the type asks for at every place it reaches, to nothing in any definition it cannot reach, and what other fields did to shared definitions stays |
| DelegatedSchemas.EveryFieldReached | vyuh/src/validation.rs:454-568 | every field that is not delegated, found by any hops through properties, references, items and combinators, carries its keywords over what was there |
| DelegatedSchemas.ReachedFieldRelates | vyuh/src/validation.rs:408-568 | so its schema relates to its generated checks exactly as in TargetsRelate, however deeply it is nested |
| DelegatedSchemas.ReachedFieldAgrees | vyuh/src/validation.rs:408-568 | and accepts what the checks accept, for records on which the targets agree |
| DelegatedSchemas.OptionalStructIsReached | vyuh/src/validation.rs:421-430 | for instance a field of a struct held in an optional field, as a reference in the first branch |
| JsonPointer.RefNameInverts | vyuh/src/validation.rs:443-452 | for every name, prefix and percent-encoding, the reference resolves to the name that was escaped |
| JsonPointer.EncodedRefName | vyuh/src/validation.rs:443-452 | in particular for the encoding of a given set of bytes |
| JsonPointer.OtherReferences | vyuh/src/validation.rs:443-450 | a reference names something exactly when it has one of the prefixes and decodes to text |
| JsonPointer.OtherOrderMisreads | vyuh/src/validation.rs:451-451 | replacing the other way round misreads the name "~1" |
| References.TextOfUtf8 | vyuh/src/validation.rs:447-450 | every text is read back from its bytes |
| References.ValidIffText | vyuh/src/validation.rs:447-450 | the byte strings accepted as text are exactly those of texts |
| References.PrefixTexts | vyuh/src/validation.rs:443-446 | the prefixes are "#/$defs/" and "#/definitions/" |
| References.ReferenceResolves | vyuh/src/validation.rs:443-452 | on text as the schema holds it, every reference that spells a name resolves to it |
| References.ReferenceFindsDefinition | vyuh/src/validation.rs:454-468 | every name has a reference, and a schema with that reference leads to the definition of that name |
| ErrorTree.ValidationReport.Merge | vyuh/src/validation.rs:170-177 | the other report's issues follow in order, each under the prefix |
| ErrorTree.ValidationReport.Prefix | vyuh/src/validation.rs:190-199 | every issue is moved under the segment |
| ErrorTree.ValidationReport.ToNested | vyuh/src/validation.rs:271-370 | the loop builds the tree `Nested` of the issues |
| ErrorTree.ValidationReport.ToFieldMapFlat | vyuh/src/validation.rs:216-234 | the loop builds the map `Flat` of the issues, which `FlatIsFiled` describes key by key |
| ErrorTree.InsertAt | vyuh/src/validation.rs:277-351 | the recursive surgery on the tree, with its resets, is `Inserted` |
| ErrorTree.PadTo | vyuh/src/validation.rs:329-331 | the padding loop gives the array with nulls up to the position and nothing else changed |
| ErrorTreeFacts.FaithfulIffClashFree | vyuh/src/validation.rs:271-370 | every reported path leads to exactly its messages if and only if no two paths clash |
| ErrorTreeFacts.EveryPathExact | vyuh/src/validation.rs:271-370 | without a clash every path, reported or not, reads exactly its own messages in report order |
| ErrorTreeFacts.UnmentionedSlotsAreNull | vyuh/src/validation.rs:282-322 | a slot of a list report is null exactly when no issue is about it |
| ErrorTreeFacts.ListFieldLosesErrors | vyuh/src/validation.rs:636-650 | the report of two faulty elements of a list in a field is not kept whole |
| ErrorTreeFacts.ReadableGrowth | vyuh/src/validation.rs:277-351 | one insertion makes at most its own message readable, whatever the tree |
| ErrorTreeFacts.SharedSlotsLose | vyuh/src/validation.rs:297-299 | reusing an array below the top leaves at most the new message readable |
| ErrorTreeFacts.LossPersists | vyuh/src/validation.rs:271-370 | a lost message is not brought back by later issues |
| ErrorTreeFacts.NestedUnderName | vyuh/src/validation.rs:201-213 | the tree of a report under a field or key is the one-entry object of its tree, clashes included |
| ErrorTreeFacts.NestedUnderIndex | vyuh/src/validation.rs:206-208 | the tree of a report under a position is that many nulls and its tree, clashes included |
| ErrorTreeFacts.NestedIsFlat | vyuh/src/validation.rs:216-234 | on root and single-field reports the tree is the flat map |
| ErrorTreeFacts.FlatIsFiled | vyuh/src/validation.rs:216-234 | for every report and key, the flat map has exactly the messages of the issues at that one field, or at the root under "non_field_errors", in order, and no key without messages |
| ErrorTreeFacts.DeeperReplaces | vyuh/src/validation.rs:277-351 | in any tree a message below a path wipes out the one at the path before it |
| ErrorTreeFacts.ShallowerIsSwallowed | vyuh/src/validation.rs:303-316 | a message above a path of names is swallowed after the one below it |
| ErrorTreeFacts.DeeperStays | vyuh/src/validation.rs:271-370 | so of two such issues the deeper one stays, in either order of a report |
| ScheduleQueue.ScheduledQueue.Insert | vyuh/src/schedulers.rs:56-64 | the counter's key, wrapping, enters with its deadline; on the eager queue it is one new entry |
| ScheduleQueue.ScheduledQueue.Remove | vyuh/src/schedulers.rs:66-84 | the key leaves the eager queue, and the answer says whether it was there |
| ScheduleQueue.ScheduledQueue.Clear | vyuh/src/schedulers.rs:94-97 | the eager queue is empty |
| ScheduleQueue.ScheduledQueue.Update | vyuh/src/schedulers.rs:102-110 | a live key's deadline becomes the later of the two; a dead key changes nothing |
| ScheduleQueue.ScheduledQueue.Spin | vyuh/src/schedulers.rs:112-141 | the loop ends, by fewer and fewer keys behind their update, after deferrals of least items only |
| ScheduleQueue.ScheduledQueue.PollPop | vyuh/src/schedulers.rs:112-141 | a poll pops the least effective deadline if it is due, else waits no longer than until the earliest one |
| ScheduleQueue.Drained | vyuh/src/schedulers.rs:66-84 | the filter drops every item of one key and reports whether there was one |
| ScheduleQueue.StepRefines | vyuh/src/schedulers.rs:56-141 | every operation on the lazy queue is that operation on the eager one |
| ScheduleQueue.RunRefines | vyuh/src/schedulers.rs:56-141 | so is every step of every run in which no queued key is handed out again |
| ScheduleQueue.ConsistentIffFresh | vyuh/src/schedulers.rs:56-141 | a run keeps the queue consistent throughout exactly when it hands out no queued key |
| ScheduleQueue.KeysInOrder | vyuh/src/schedulers.rs:56-64 | in every run keys are handed out in order, modulo 2^32 |
| ScheduleQueue.FewInsertsAreFresh | vyuh/src/schedulers.rs:56-64 | which holds of every run with at most 2^32 insertions |
| ScheduleQueue.TableOfRun | vyuh/src/schedulers.rs:56-141 | in every run the update table has exactly the keys handed out, and only those can be queued |
| ScheduleQueue.UpdateAnswers | vyuh/src/schedulers.rs:99-110 | in every run `update` answers whether the key was ever handed out |
| ScheduleQueue.UpdateIsRightIff | vyuh/src/schedulers.rs:99-110 | that is whether the item exists exactly for keys never handed out and keys still queued |
| ScheduleQueue.DeadKeyAnswersTrue | vyuh/src/schedulers.rs:99-110 | a run, for every deadline and update, in which a popped key answers true |
| ScheduleQueue.DeferralsConsistent | vyuh/src/schedulers.rs:116-124 | deferrals change nothing the queue stands for, and each uses up one key behind its update |
| ScheduleQueue.InsertIsSafeIffFresh | vyuh/src/schedulers.rs:56-64 | an insertion keeps the queue consistent exactly when the wrapped counter's key is not queued |
| Timers.TimerQueue.PollPop | vyuh/src/emitters.rs:1190-1220 | a poll defers least due timers, each using up a touch, then pops one, waits or idles; the laws of pacing are in `Emitters` and `CronTimers` |
| Timers.DeferTurn | vyuh/src/emitters.rs:1201-1206 | a deferral is a step of the queue and leaves fewer touches |
| Emitters.EmitterLoop.constructor | vyuh/src/emitters.rs:712-773 | the heap starts with exactly the registered timers, each new and due when it was made, and the limit is at least one |
| Emitters.EmitterLoop.TimerBranch | vyuh/src/emitters.rs:782-804 | the popped timer is pushed back whether or not its handler got a permit |
| Emitters.EmitterLoop.NotifyBranch | vyuh/src/emitters.rs:830-849 | every listener of the channel touches its type, no timer moves, and as many handlers start as listeners emit, up to the free permits |
| Emitters.EmitterLoop.SpawnHandlerCall | vyuh/src/emitters.rs:883-908 | a handler starts exactly when a permit is free |
| Emitters.StepKeepsInvariant | vyuh/src/emitters.rs:780-852 | every step, cancelled polls included, keeps the timers and the permits |
| Emitters.RunKeepsTimers | vyuh/src/emitters.rs:780-852 | in every run the heap holds the registered timers, each once, and running handlers are within the limit |
| Emitters.FiringPaces | vyuh/src/emitters.rs:1100-1141 | a firing is one interval after everything the queue remembers of its type |
| Emitters.NeverTooSoon | vyuh/src/emitters.rs:1185-1220 | over any run an interval timer fires no sooner than one interval after its last firing or any touch of its type |
| Emitters.StartPaces | vyuh/src/emitters.rs:1086-1098 | the promise starts with every setup in which the type is registered once |
| CronTimers.CronRearms | vyuh/src/emitters.rs:1120-1142 | after a firing or a skipped occurrence a cron timer is due at the next occurrence after a reading of the wall clock in that step, or at once where there is none |
| CronTimers.CronNeverTooSoon | vyuh/src/emitters.rs:1190-1220 | over any run it then fires no sooner than that |
| CronTimers.StartIs | vyuh/src/emitters.rs:1086-1098 | the promise starts with every setup in which the type is registered once |
| CronTimers.DeadlineGrows | vyuh/src/emitters.rs:1120-1142 | no step brings the deadline of a cron timer forward |
| CronTimers.TouchDecides | vyuh/src/emitters.rs:1100-1107 | a touch pushes a timer back exactly when it is newer than what the timer last ran from, and is used up either way |
| CronTimers.FiringsAreCounted | vyuh/src/emitters.rs:1109-1114 | in every run the count handed to a handler is the number of its firings, wrapped at 64 bits |
| CronTimers.LastRunIsReported | vyuh/src/emitters.rs:1109-1114 | until the next firing the reported last run is the last firing |
| SharedTimers.SharedTypeStealsTouch | vyuh/src/emitters.rs:1201-1206 | for every registration of a cron and a periodic timer of one type, every schedule and any others registered, a run from the setup that breaks that promise |
| SharedTimers.PacedIffOnce | vyuh/src/emitters.rs:1185-1220 | an interval timer is paced in every run exactly when its interval is zero or its type is registered once, whatever the cron schedules |
| TimerRefinement.PushRefines | vyuh/src/emitters.rs:1178-1181 | a pushed timer is one new entry of the eager queue |
| TimerRefinement.TouchRefines | vyuh/src/emitters.rs:1185-1188 | a touch, looked at only when the timer is due, moves an interval timer at once and marks a cron timer at once |
| TimerRefinement.DeferralRefines | vyuh/src/emitters.rs:1201-1206 | a deferral changes nothing of an interval timer, and skips the due occurrence of a marked cron timer |
| TimerRefinement.PopRefines | vyuh/src/emitters.rs:1195-1208 | a popped timer is due and the least among the effective deadlines, its touches applied |
| TimerRefinement.StepRefines | vyuh/src/emitters.rs:1178-1220 | every push, touch and poll on the lazy timer queue is that operation on the eager one; no wait passes the earliest effective deadline |
| TimerRefinement.RunRefines | vyuh/src/emitters.rs:1178-1220 | so is every step of every run of the queue |
| TimerRefinement.LoopRunRefines | vyuh/src/emitters.rs:780-852 | from the setup on, every run of the emitter loop is a run of the eager loop on the types registered once |
| Shutdown.StepKeepsInductive | vyuh/src/site.rs:306-364 | every step keeps the invariant behind the next row |
| Shutdown.ShutdownIsSafe | vyuh/src/watch.rs:69-93 | in every run: forced only after requested and, without a second interrupt, not before the grace period; aborted only when no background work is left or forced; stopped by the grace deadline; drained only without connections, and stopped without background work |
| Shutdown.StepRanks | vyuh/src/site.rs:343-358 | every step of the protocol or the clock brings the end nearer, no step of the environment puts it off |
| Shutdown.FairRunStops | vyuh/src/watch.rs:154-171 | from the first shutdown source every fair run stops within a bound fixed by the grace period |
| Shutdown.NeverStuck | vyuh/src/site.rs:306-341 | until the site has stopped, the protocol or the clock can take a step |
| Listener.RunNotifyListener | vyuh/src/db_notify.rs:129-169 | what the consumer sees is the sessions of the script one after another; one sleep for every lost connection, and the sleeps are paced |
| Listener.RunAttempt | vyuh/src/db_notify.rs:142-158 | a connection shows one session and starts the backoff over, a refusal shows nothing and keeps it |
| Listener.ReceiveNotifications | vyuh/src/db_notify.rs:193-218 | notifications are passed on in order up to the first the consumer declines |
| Listener.SessionsStartWithRescan | vyuh/src/db_notify.rs:144-158 | each connection is one session, a rescan call and then notifications only |
| Listener.HeardUpToDeclined | vyuh/src/db_notify.rs:201-217 | the notifications themselves are passed on, in order, up to the first that is declined |
| Listener.SessionsConcat | vyuh/src/db_notify.rs:141-167 | the loop goes on after a round unless the consumer declined something or the site shuts down, and then ends |
| Listener.BackoffGrows | vyuh/src/db_notify.rs:263-273 | for every jitter the k-th sleep is within initial·2^k and initial·(5/2)^k, both capped, and no shorter than the last |
| Listener.NapAdded | vyuh/src/db_notify.rs:140-168 | one more round keeps the sleeps within the bounds of their streak |
| Listener.JitterRange | vyuh/src/db_notify.rs:263-273 | every jitter below a quarter of the doubled backoff can be drawn |
| Listener.ConfiguredDurations | vyuh/src/db_notify.rs:61-62 | the configured durations satisfy what the bounds need |
| Assets.ValidateSegments | vyuh/src/assets.rs:200-223 | the first segment that is refused decides the error |
| Assets.CleanRelPath | vyuh/src/assets.rs:472-504 | the loop accepts exactly the paths whose non-empty segments are all good, and joins them |
| Assets.NormalizePrefix | vyuh/src/assets.rs:506-515 | only an empty folder gives an empty prefix; any other is its text without the slashes at both ends, and one slash |
| Assets.PrintedPathIsParsed | vyuh/src/assets.rs:116-124 | cleaning the printed path of an accepted asset gives that asset |
| Assets.UrlLeadsBack | vyuh/src/assets.rs:116-124 | a URL starts with the static URL, its path leads the parser back to the asset, and it has no byte that would have to be escaped |
| Assets.UrlAccepts | vyuh/src/assets.rs:187-223 | a URL is given exactly for relative paths every segment of which decodes to a name |
| Assets.ParsedPathIsClean | vyuh/src/assets.rs:472-504 | whatever is requested, an accepted path has only good segments and survives printing and parsing |
| Assets.CleanedNames | vyuh/src/assets.rs:472-504 | exactly the UTF-8 texts are accepted whose segments are not "." or ".." and hold no backslash or NUL, and the empty segments are dropped |
| Bytes.EscapeDecodes | vyuh/src/assets.rs:475-477 | an escape is two hex digits of either case |
| Assets.ValidatedIsClean | vyuh/src/assets.rs:187-223 | the static checks let only clean paths through |
| Assets.CleanIsFixpoint | vyuh/src/assets.rs:472-504 | printing and parsing give every clean path back |
| Assets.StripKeepsCleanPaths | vyuh/src/assets.rs:518-529 | removing a normalized prefix leaves every clean path but the prefix itself |
| Scopes.Normalize | vyuh/src/scopes.rs:259-264 | the result is strictly increasing and has the same scopes |
| Scopes.NormalFormIsUnique | vyuh/src/scopes.rs:259-264 | so equal sets of scopes give equal results |
| Scopes.ValidateScopes | vyuh/src/scopes.rs:267-281 | the checked sum never overflows and bounds the space-joined list (section 3.3 of RFC 6749) exactly |
| Scopes.Limits | vyuh/src/scopes.rs:301-310 | the limits and the characters of a name, as numbers |
| Scopes.JoinedIsUnique | vyuh/src/scopes.rs:267-281 | a list of valid names is read back from its space-joined text |
| Scopes.NormalizeRule | vyuh/src/scopes.rs:283-293 | the rule is sorted in place; the error says empty, over a limit, or a scope repeated anywhere |
| Scopes.AdjacentIfDuplicate | vyuh/src/scopes.rs:288-291 | comparing neighbours of a sorted rule finds every duplicate |
| Slash.Request.Normalize | vyuh/src/slash.rs:137-150 | a trailing slash is taken off, what was asked for is kept, and the request is marked |
| Slash.OneSlashGoes | vyuh/src/slash.rs:152-158 | one trailing slash is taken off, and only one |
| Slash.Serve | vyuh/src/slash.rs:90-99 | the answer of the route layer to the marked request |
| Slash.SlashfulRedirectsOnce | vyuh/src/slash.rs:173-189 | a slashful route misses, serves, or redirects once, to a target with the same query that is served, and that is on the same site exactly when the request path did not start with two slashes |
| Slash.SlashlessServes | vyuh/src/bundles/part.rs:167-175 | a slashless route serves what was asked for in the untrimmed form, and in the other one exactly when it trims; another path misses |
| Metrics.RecordRoute | vyuh/src/observability.rs:309-324 | each bucket counts the observations at or below its bound, for any recording |
| Metrics.Metrics.Record | vyuh/src/observability.rs:253-271 | the table has exactly the recorded keys, each with the counts of its own observations |
| Metrics.RowsAreCumulative | vyuh/src/observability.rs:309-324 | in every row the buckets never decrease and stay within the requests, and so do the errors |
| Metrics.BucketBounds | vyuh/src/observability.rs:23-23 | the buckets of a row count its requests of at most 5 ms to 1 s, by the listed bounds |
| Metrics.ClassIsFirstDigit | vyuh/src/observability.rs:386-394 | the status class is the first digit of the status, and the errors are exactly those of "5xx" |
| Metrics.OtherStatus | vyuh/src/observability.rs:386-394 | any other number is filed under "5xx" and counted as no error |
| Metrics.RequestsAddUp | vyuh/src/observability.rs:253-271 | the requests of all rows add up to the recordings |
| Scanners.StripRustComments | vyuh-bench/scripts/report.py:185-205 | the scan ends and its output is `Stripped` |
| Scanners.StrippedIsCode | vyuh-bench/scripts/report.py:185-205 | of a text made of code and comments exactly the code is kept |
| Scanners.EveryTextHasPieces | vyuh-bench/scripts/report.py:185-205 | every text is made of such pieces, an unclosed comment last |
| Scanners.StrippedIsSubsequence | vyuh-bench/scripts/report.py:185-205 | only characters of the source are kept, in their order |
| Scanners.StrippedHasNoOpener | vyuh-bench/scripts/report.py:185-205 | removing comments never brings the two characters of an opener together |
| Scanners.StrippingIsIdempotent | vyuh-bench/scripts/report.py:185-205 | stripping twice is stripping once |
| ChunkedLoop.TakeTurn | vyuh-bench/scripts/run_bench.py:202-211 | one turn from a place in the body, with Python's slices and a cursor that may go below zero |
| ChunkedLoop.SliceIndexes | vyuh-bench/scripts/run_bench.py:205-210 | how a slice reads indexes within the body, below zero and beyond its ends |
| ChunkedLoop.DecodeChunked | vyuh-bench/scripts/run_bench.py:198-212 | the loop followed for any number of turns is `After`: where it is then, or what it returned |
| Scanners.BodyDecodes | vyuh-bench/scripts/run_bench.py:198-212 | a chunked body (section 7.1 of RFC 9112), extensions with the blanks before them and trailer included, decodes to its data |
| Scanners.HexTextIsRead | vyuh-bench/scripts/run_bench.py:206-206 | every number is read back from its hex digits, in either case |
| Scanners.SignedSize | vyuh-bench/scripts/run_bench.py:206-206 | a sign in front of the digits is read |
| Scanners.PrefixedForms | vyuh-bench/scripts/run_bench.py:206-206 | so is a prefix 0x |
| Scanners.PrefixDecodes | vyuh-bench/scripts/run_bench.py:198-212 | every beginning of such a body decodes to a beginning of its data |
| ChunkedLoop.RunsForEverIff | vyuh-bench/scripts/run_bench.py:201-211 | the loop does not end exactly when, within as many turns as the body has bytes, it starts twice from one place |
| ChunkedLoop.EndsIff | vyuh-bench/scripts/run_bench.py:201-211 | following it one turn longer than the body decides whether it ends |
| ChunkedLoop.MovingOnEnds | vyuh-bench/scripts/run_bench.py:206-211 | it ends when in every turn the cursor moves on |
| ChunkedLoop.ReturningNeverEnds | vyuh-bench/scripts/run_bench.py:206-211 | it does not end on any body whose first size line of n bytes says -(n + 4) |
| ChunkedLoop.NegativeSizeReturns | vyuh-bench/scripts/run_bench.py:206-211 | for instance on any body that starts with "-6" |
| ChunkedLoop.LoopDecodes | vyuh-bench/scripts/run_bench.py:198-212 | as long as no size is below zero it ends and returns what the body decodes to |
| ChunkedLoop.LoopDecodesPrefix | vyuh-bench/scripts/run_bench.py:198-212 | on every beginning of a chunked body it ends and returns a beginning of the data |

## Left out

- DelegatedSchemas.TyWorks: asks for schemas as the schema generator writes them: field names of a struct differ, a definition is the schema of one struct, and a schema that is a reference has no items or combinators beside it.
- ValidateDeriveFacts.RuntimeMeans: numbers are mathematical, so rounding, NaN and the width of the field's integer type are not modelled, and a value of a JSON type the field cannot have passes the checks of other types.
- ValidateDeriveFacts.SchemaMeans: enum and uniqueItems compare JSON values structurally, so an integer and a float of the same value count as different.
- SchemaRefs.ApplyFieldConstraints: the schema and the definition table are values that are returned, where the code changes them in place.
- SchemaRefs.TyKeepsNames: types are finite, so a type that contains itself through delegation is not covered.
- ScheduleQueue.ScheduledQueue.PollPop: models `pop` from one poll to the next wait; the wake-up by notification is a flag without a waiter.
- TimerRefinement.RunRefines: a type with two timers is left to conservation and to the lemmas on shared types, and a timer is pushed with no touch of its type waiting, as the loop does.
- Timers.TimerQueue.PollPop: cron expressions are not parsed; a timer's place in the heap is not modelled beyond its deadline.
- Emitters.EmitterLoop.NotifyBranch: whether a listener's call is emitted at once or debounced is an input; the debouncer and its queue are not modelled.
- Emitters.EmitterLoop.HandlerDone: a handler's result, its completion message and its dispatch are not modelled.
- Shutdown.ShutdownIsSafe: signal handlers, file watching and the grace period's configuration are events or parameters, and waiting for the site from outside (`shutdown_and_wait`) is not modelled.
- Listener.RunNotifyListener: the connection, its subscriptions and the bounded channel of the consumer are parts of the script; durations are whole milliseconds.
- Assets.ValidatedIsClean: paths are UTF-8 byte strings; absolute static URLs, mounts, content negotiation, entity tags and file lookup are not modelled.
- ChunkedLoop.DecodeChunked: takes the number of turns to follow, because the loop need not end; the bytes of a body are given as a whole.
- Scopes.Normalize: the standard library's sort is an insertion sort with the same sorted permutation.
- Slash.Serve: one route at a time, with the router's matching as a parameter; a URI that cannot be rebuilt after trimming is not modelled.
- Metrics.Metrics.Record: durations are real numbers and 64-bit counters do not overflow; the in-flight gauge, the panic counter and the text output are not modelled.
- ErrorTree.InsertAt: a rendered message is an opaque string, where the code clones any JSON value the renderer gave; the builder never looks inside it.
- Regular expressions, dates, addresses, e-mail and URL syntax: shared parameters of the two derive targets.
- The expansion of the derive into Rust tokens, its attribute parsing and its type errors: only which checks and keywords are emitted is modelled.
- Sockets, PostgreSQL sessions, templates, mail, configuration, site assembly and authentication: no behaviour of their own is decided here.
