# Verified models of the platform's planning, streaming and gating code

This project models the parts of the platform in which an algorithm, a state machine or a
transformation carries a promise, and proves the promise for all inputs, all runs or all trees.
`dafny verify dfyconfig.toml` checks everything.

**The plan graph** (admin panel). A plan is a list of tasks with `depends_on` edges.
`PlanGraph` holds the graph, chains, cycles and what a queue order is; `KahnQueue` the queue loop
both views share. `PlanGantt` is the critical path computation (forward pass, backward pass,
slack), `CriticalPath` and `CriticalChain` its theory, `ScheduleTheorems` and `ScheduleLaws` what a
reader of the chart may conclude from the rows, `CycleIsolation` the effect of cycles, `GraphChanges`
which changes of the edges keep a plan free of cycles. `PlanDag` and `DagLayout` are the independent depth computation and the drawing, `DrawingTheorems` their
guarantees, and that both views agree. `PlanSpecEdit`, `SpecRoundTrip`, `CriteriaClaims`, `EditorRuns`
and `SpecProblems` are the editor of the task list: text rows and back, criteria claimed by their text,
whole editing sessions, and the local checks. `AcceptanceCriteria` and `CriteriaTheorems` are the
declarations of how a criterion is checked.

**Streams.** `SseFrames` cuts text into frames and shows that the chunking is irrelevant;
`InstallStream` is the installer's stream with its progress state, `AssistantStream` the
assistant's parser with its other end-of-stream rule.

**Trees and texts.** `DocsNav` and `NavTheorems` are the navigation hook of the documentation site;
`DocsFilter` the pruning of the documentation sidebar; `SecretScan` and `TokenSearch` the repository
check for forgotten Vault tokens.

**Protocols.** `Wizard` and `WizardRuns` are the installer wizard with its gates; `DeviceFlow` is the
poll loop of the OAuth device flow (sections 3.4 and 3.5 of RFC 8628).

`Prelude` and `Text` hold small shared definitions (sequences, trimming, words, lines).

Code that updates variables, maps, queues or fields is a method or a class with loops, proved against
a specification (a predicate or a function); the theorems are about that specification. A run is a
sequence of states in which each follows from the one before by one step. Automatic induction is
switched off in every lemma: the inductions are the ones written.

## Where the code and its comments differ

- `plan-gantt.tsx:12-14` says that shortening any task of the critical chain shortens the project. With
  two critical chains side by side it does not (`ScheduleLaws.ShorteningACriticalTaskCanFail`), nor when
  the new hours are under the minimum the old ones were raised to. `ScheduleLaws.ShorteningLaw` is the
  exact condition, `ScheduleLaws.LengtheningLaw` what slack does mean.
- `plan-gantt.tsx:51-56` says tasks on a cycle are skipped. They, and all tasks behind them, come back
  with all times 0 and marked critical (`ScheduleTheorems.UnreachedRow`).
- `plan-spec-edit.ts:160-162` promises that removing a task removes every reference to it. The code
  prunes the raw id but saves the trimmed one, so a dependency on the saved id of a row whose id has
  outer blanks stays behind: `EditorRuns.UntrimmedIdDangles`, exact condition in `EditorRuns.RemovalClosedIff`.
- `hooks.py:193` says markers are rewritten anywhere in the navigation. Those that stand as the value
  of a mapping, not in a list, are published as they are, so the navigation consists of pages if and
  only if every marker is a list item (`NavTheorems.OnlyPagesIffMarkersAreItems`, example
  `NavTheorems.MarkerAsValueStays`).
- `wizard-shell.tsx:51-53` says the confirmation is reset whenever one navigates away, so that a change
  of the configuration has to be confirmed again. A standing one is reset if and only if one leaves the
  summary backwards or by the stepper (`WizardRuns.ConfirmationLostIff`). An edit keeps it, and meets one
  only after the installation was reached (`WizardRuns.EditUnderConfirmation`);
  `WizardRuns.ReturnToInstallUnchecked` is a run in which this happens.
- `check_no_secret_artifacts.py:96-100` calls the exemption an equality. Removal works on substrings: around
  the first occurrence of the exempt literal, a text is reported if and only if what stands before it and
  what is left after it, put together, hold a token (`TokenSearch.FlaggedAround`). A token that begins with
  the literal and has too little behind it goes unseen (`TokenSearch.LeadingSentinelIgnored`), and so does
  one that runs into it; pieces that were no token can be reported (`TokenSearch.TokenIntoSentinel`).

## Model

| member | source | states |
|---|---|---|
| `PlanGraph.GraphOfValid` | apps/admin-panel/lib/plan-gantt.tsx:58-64 | Unknown dependencies are dropped and the rest kept with their repetitions, so every remaining dependency is a task of the plan. |
| `PlanGraph.OrderedIffNotBehindCycle` | apps/admin-panel/lib/plan-gantt.tsx:70-92 | A queue order holds exactly the tasks that neither lie on a cycle nor depend, at any distance, on one. |
| `PlanGraph.AllOrderedIffAcyclic` | apps/admin-panel/lib/plan-gantt.tsx:70-92 | All tasks are ordered if and only if the plan has no cycle; counting the order is enough to see it. |
| `PlanGraph.OrdersAgree` | apps/admin-panel/lib/plan-gantt.tsx:70-92 | Any two queue orders of a plan hold the same tasks, whatever the order of the queue. |
| `KahnQueue.BuildSuccessors` | apps/admin-panel/lib/plan-gantt.tsx:65-68 | The reversed edges, each as often as it was declared. |
| `KahnQueue.InitialQueue` | apps/admin-panel/lib/plan-gantt.tsx:71-73 | The queue starts with exactly the tasks without known dependencies, each once. |
| `KahnQueue.RoundEnds` | apps/admin-panel/lib/plan-gantt.tsx:82-91 | One round keeps the queue invariant: duplicates counted, nothing queued twice, nothing queued before its dependencies. |
| `KahnQueue.QueueDone` | apps/admin-panel/lib/plan-gantt.tsx:82-92 | When the queue is empty the order is topological and cannot be extended. |
| `PlanGantt.Release` | apps/admin-panel/lib/plan-gantt.tsx:88-91 | The inner loop lowers each successor's indegree by its number of edges and queues it when the last one falls. |
| `PlanGantt.ForwardPass` | apps/admin-panel/lib/plan-gantt.tsx:70-92 | The queue loop ends with a topological, non-extendable order and earliest starts that are the latest of 0 and the dependencies' ends. |
| `PlanGantt.BackwardPass` | apps/admin-panel/lib/plan-gantt.tsx:96-107 | The reverse loop gives each ordered task the latest end allowed by the project end and its scheduled successors. |
| `PlanGantt.ComputeSchedule` | apps/admin-panel/lib/plan-gantt.tsx:57-127 | The rows are, in task order, those of a solution of the critical path equations (which is unique). |
| `CriticalPath.EarliestLeast` | apps/admin-panel/lib/plan-gantt.tsx:81-92 | No non-negative schedule that respects the dependencies starts any ordered task earlier. |
| `CriticalPath.LatestGreatest` | apps/admin-panel/lib/plan-gantt.tsx:96-107 | No such schedule finishing by a bound starts a task later than its latest start moved by the bound's distance from the project end. |
| `CriticalPath.CpmUnique` | apps/admin-panel/lib/plan-gantt.tsx:70-107 | The equations have one solution: start times do not depend on the queue order. |
| `CriticalChain.ChainThrough` | apps/admin-panel/lib/plan-gantt.tsx:94-114 | A chain through a task is shorter than the project by at least the task's slack. |
| `ScheduleTheorems.ScheduleDetermined` | apps/admin-panel/lib/plan-gantt.tsx:57-127 | The task list determines every row completely. |
| `ScheduleTheorems.EarliestStartsAreLeast` | apps/admin-panel/lib/plan-gantt.tsx:81-92 | The earliest starts shown are a feasible schedule and the pointwise least one. |
| `ScheduleTheorems.LatestStartsAreGreatest` | apps/admin-panel/lib/plan-gantt.tsx:96-107 | The latest starts shown are a feasible schedule ending by the project end and the pointwise greatest one. |
| `ScheduleTheorems.ClampNeverActs` | apps/admin-panel/lib/plan-gantt.tsx:114 | Slack is never clamped: latest start is at least earliest start in every row. |
| `ScheduleTheorems.RowShows` | apps/admin-panel/lib/plan-gantt.tsx:57-125 | One row: an hour for a task without hours, else its hours but at least half an hour; that duration lies between start and end of both passes; critical is less than 0.001 h between the two starts. |
| `ScheduleTheorems.UnreachedRow` | apps/admin-panel/lib/plan-gantt.tsx:109-125 | A task on or behind a cycle is shown with all times 0, no slack, and critical. |
| `ScheduleLaws.LengtheningLaw` | apps/admin-panel/lib/plan-gantt.tsx:57-127 | Whatever hours are typed, if the (clamped) duration grows by d the project end moves by exactly max(0, d - slack): slack is the delay that costs nothing. |
| `ScheduleLaws.UnreachedChange` | apps/admin-panel/lib/plan-gantt.tsx:94-107 | Any new hours for a task on or behind a cycle leave the project end where it is. |
| `ScheduleLaws.ZeroSlackLaw` | apps/admin-panel/lib/plan-gantt.tsx:12-14 | A task has no slack if and only if some dependency chain through it takes as long as the project. |
| `ScheduleLaws.CriticalChainExists` | apps/admin-panel/lib/plan-gantt.tsx:12-14 | Such a chain exists and runs from a task without dependencies to one no scheduled task depends on. |
| `ScheduleLaws.CriticalMeansZeroSlack` | apps/admin-panel/lib/plan-gantt.tsx:124 | With durations that are multiples of a quantum of at least 0.001 h the tolerance test is exactly zero slack. |
| `ScheduleLaws.ShorteningLaw` | apps/admin-panel/lib/plan-gantt.tsx:12-14 | New hours of any size for a task shorten the project if and only if they shorten its (clamped) duration and every critical chain runs through it. |
| `ScheduleLaws.ShorteningACriticalTaskCanFail` | apps/admin-panel/lib/plan-gantt.tsx:12-14 | Counterexample to the comment: two one-hour tasks side by side, one halved, same project end. |
| `CycleIsolation.CyclesDoNotDisturb` | apps/admin-panel/lib/plan-gantt.tsx:94-107 | The rows of the tasks not caught by a cycle are those of the plan with the caught tasks deleted, which is acyclic. |
| `PlanDag.ReadGraph` | apps/admin-panel/lib/plan-dag.tsx:60-73 | The second view reads the same graph as the first, edge by edge, with matching indegrees. |
| `PlanDag.RaiseAndRelease` | apps/admin-panel/lib/plan-dag.tsx:91-96 | One round raises every child above the parent and queues those whose last edge fell, counting repeated edges. |
| `PlanDag.ComputeDepths` | apps/admin-panel/lib/plan-dag.tsx:59-99 | The second queue loop ends with a queue order and depths one above the deepest processed dependency. |
| `PlanDag.DepthIsLongestChain` | apps/admin-panel/lib/plan-dag.tsx:53-58 | The depth is attained by a chain ending at the task and no chain there is longer. |
| `PlanDag.DepthsWithoutGap` | apps/admin-panel/lib/plan-dag.tsx:88-97 | Below every depth that occurs, all smaller depths occur, cycles or not. |
| `SortedIds.SortIdsSorted` | apps/admin-panel/lib/plan-dag.tsx:130 | Sorting a column puts its ids in lexicographic order (that it keeps them is its function contract; `LexOrder` says what the order is). |
| `SortedIds.LexOrder` | apps/admin-panel/lib/plan-dag.tsx:130 | One id precedes another if and only if it is its beginning, or has the smaller character at the first difference. |
| `SortedIds.SortedUnique` | apps/admin-panel/lib/plan-dag.tsx:130 | Sorted lists of the same ids are equal: the sorted column does not depend on the order of the task list or on the sorting method. |
| `DagLayout.GroupByColumn` | apps/admin-panel/lib/plan-dag.tsx:114-121 | Every task is filed in the column of its depth, in list order, and the columns are listed once, in order of first use. |
| `DagLayout.BoundColumns` | apps/admin-panel/lib/plan-dag.tsx:125-129 | The two maxima are upper bounds that some column attains. |
| `DagLayout.DrawEdges` | apps/admin-panel/lib/plan-dag.tsx:143-148 | The edges drawn are, task by task and in order, the declared dependencies on known tasks, each as often as it is declared. |
| `DagLayout.ComputeLayout` | apps/admin-panel/lib/plan-dag.tsx:109-153 | The nodes are listed column by column in order of first use and row by row, filling the grid; the box has the size of the used columns and rows; the edges are the declared ones, in order. |
| `DrawingTheorems.EveryTaskDrawnOnce` | apps/admin-panel/lib/plan-dag.tsx:115-141 | Every task is drawn exactly once, under its own id and title. |
| `DrawingTheorems.RowsFollowIds` | apps/admin-panel/lib/plan-dag.tsx:130-131 | Of two nodes of a column the upper one has the smaller id: it is the beginning of the other, or smaller at the first difference. |
| `DrawingTheorems.NodesDisjoint` | apps/admin-panel/lib/plan-dag.tsx:127-141 | For positive sizes and gaps, no two rectangles overlap. |
| `DrawingTheorems.NodesInBox` | apps/admin-panel/lib/plan-dag.tsx:150-151 | Every rectangle lies inside the computed width and height. |
| `DrawingTheorems.GridSpacing` | apps/admin-panel/lib/plan-dag.tsx:133-140 | The first column and row lie at the edge, and neighbouring ones are a size and a gap apart. |
| `DrawingTheorems.BoxEndsAfterLast` | apps/admin-panel/lib/plan-dag.tsx:150-151 | Width and height end one gap after a node of the last column and one of the lowest row. |
| `DrawingTheorems.ColumnsInhabited` | apps/admin-panel/lib/plan-dag.tsx:115-128 | No column up to the last is empty. |
| `DrawingTheorems.EdgesPointRight` | apps/admin-panel/lib/plan-dag.tsx:143-148 | An edge from a task not caught by a cycle ends in a strictly larger column. |
| `DrawingTheorems.ViewsAgree` | apps/admin-panel/lib/plan-dag.tsx:59-99 | When no task states hours, the chart's earliest start equals the graph's depth: two loops, one answer. |
| `PlanSpecEdit.FillBuckets` | apps/admin-panel/lib/plan-spec-edit.ts:118-124 | Each bucket holds the structured criteria of its normalised text, in their order. |
| `PlanSpecEdit.KeysAgreeIff` | apps/admin-panel/lib/plan-spec-edit.ts:88-95 | Two texts are recognised as the same if and only if they have equally many words and these agree in lower case, one by one; a text without words has no key. |
| `Text.WordsOfWord` | apps/admin-panel/lib/plan-spec-edit.ts:93-95 | A text without blanks is one word, whole; with a blank between two texts separating their words, this determines the words of every text. |
| `Text.BlankCodes` | apps/admin-panel/lib/plan-spec-edit.ts:94 | The blanks are WhiteSpace and LineTerminator of ECMA-262, sections 12.2 and 12.3, by their code points. |
| `PlanSpecEdit.CriteriaFromDraft` | apps/admin-panel/lib/plan-spec-edit.ts:118-137 | Consuming buckets line by line gives, for the n-th line of a text, the n-th structured criterion of that text, or prose. |
| `PlanSpecEdit.ToTaskSpecs` | apps/admin-panel/lib/plan-spec-edit.ts:142-158 | Every row is saved, in order, trimmed, with empty fields left out and untouched fields kept. |
| `CriteriaClaims.ClaimedInOrder` | apps/admin-panel/lib/plan-spec-edit.ts:118-137 | For every normalised text, the structured criteria emitted are the first min(lines, originals) of that text, in order, after any edit. |
| `CriteriaClaims.ClaimedByWords` | apps/admin-panel/lib/plan-spec-edit.ts:118-137 | The same without keys: the structured criteria emitted that read like a text are the first min(lines like it, originals like it), in order. |
| `CriteriaClaims.LinesKeepTheirText` | apps/admin-panel/lib/plan-spec-edit.ts:118-137 | One criterion per non-blank line: prose with the text of the line, or an original structured criterion whose words are, in lower case, those of the line. |
| `SpecRoundTrip.CriteriaRoundTrip` | apps/admin-panel/lib/plan-spec-edit.ts:58-137 | Unedited criteria come back as they were if and only if each is one non-blank line and no plain string stands before a structured one of the same words. |
| `SpecRoundTrip.TaskRoundTrip` | apps/admin-panel/lib/plan-spec-edit.ts:58-158 | An unedited task comes back up to trimming and omitted empty fields if and only if its criteria do. |
| `SpecRoundTrip.OtherFieldsRoundTrip` | apps/admin-panel/lib/plan-spec-edit.ts:58-158 | Whatever happens to the criteria, all other fields of an unedited task come back tidied and otherwise unchanged. |
| `PlanSpecEdit.TaskNameInjective` | apps/admin-panel/lib/plan-spec-edit.ts:175 | Different numbers give different task names. |
| `PlanSpecEdit.TaskNameStandsFor` | apps/admin-panel/lib/plan-spec-edit.ts:175 | A name is the letter t and the decimal digits of its number, without a leading zero. |
| `PlanSpecEdit.NextTaskId` | apps/admin-panel/lib/plan-spec-edit.ts:172-178 | The search ends within one more try than there are rows, with a name no row has. |
| `EditorRuns.RemoveTaskRemoves` | apps/admin-panel/lib/plan-spec-edit.ts:163-169 | Removing a key takes out exactly that row and its id from the other rows' dependencies, and changes nothing else. |
| `PlanSpecEdit.WithoutParts` | apps/admin-panel/lib/plan-spec-edit.ts:167 | Taking an id out of a dependency list leaves the others, in order and as often. |
| `EditorRuns.RemovalClosedIff` | apps/admin-panel/lib/plan-spec-edit.ts:160-169 | After a removal every dependency still names a task if and only if the removed id was trimmed or nothing depended on its trimmed form. |
| `EditorRuns.UntrimmedIdDangles` | apps/admin-panel/lib/plan-spec-edit.ts:160-169 | Counterexample: two rows, a closed list, and a dangling dependency after one removal. |
| `EditorRuns.NewNameFresh` | apps/admin-panel/lib/plan-spec-edit.ts:171-178 | The new name is trimmed and no row is saved under it. |
| `GraphChanges.OneMoreAcyclicIff` | apps/admin-panel/app/admin/projects/[id]/plans/[planId]/plan-spec-editor-section.tsx:217-223 | Adding to an acyclic graph that v depends on d closes a cycle if and only if a chain leads from v to d. |
| `EditorRuns.ToggleAcyclicIff` | apps/admin-panel/app/admin/projects/[id]/plans/[planId]/plan-spec-editor-section.tsx:217-223 | A click that adds or takes back a dependency of one row on another keeps the plan acyclic if and only if no chain leads from the row to the other task. |
| `EditorRuns.ToggledTwice` | apps/admin-panel/app/admin/projects/[id]/plans/[planId]/plan-spec-editor-section.tsx:217-223 | A new dependency comes last, and a second click restores the list. |
| `EditorRuns.RenameClosedIff` | apps/admin-panel/app/admin/projects/[id]/plans/[planId]/plan-spec-editor-section.tsx:235 | Typing another id into a row leaves every dependency naming a task if and only if the saved id is the same or no row depends on the old one. |
| `EditorRuns.RunStaysGood` | apps/admin-panel/lib/plan-spec-edit.ts:163-178 | Every session of removals, additions, text edits, clicks on dependencies that close no cycle, and new free ids for tasks nothing depends on keeps ids distinct and trimmed, dependencies known, and the plan acyclic. |
| `EditorRuns.OpenedIsGood` | apps/admin-panel/lib/plan-spec-edit.ts:58-87 | A specification with trimmed distinct ids, known dependencies and no cycle opens as rows with which such a session starts. |
| `EditorRuns.EveryTaskScheduled` | apps/admin-panel/lib/plan-gantt.tsx:70-92 | At every point of such a session the chart's queue order holds every task. |
| `SpecProblems.LocalSpecProblems` | apps/admin-panel/lib/plan-spec-edit.ts:183-200 | The messages are one for missing ids, then the repeated ids in order, then the missing titles in order. |
| `SpecProblems.DuplicatesCounted` | apps/admin-panel/lib/plan-spec-edit.ts:189-193 | An id used n times is reported n - 1 times. |
| `SpecProblems.TitlesReported` | apps/admin-panel/lib/plan-spec-edit.ts:194-198 | Exactly the rows with a blank title are reported, each under its id as typed. |
| `SpecProblems.SilentIffWellFormed` | apps/admin-panel/lib/plan-spec-edit.ts:183-200 | Nothing is reported if and only if what would be saved has distinct, non-empty ids and a title everywhere. |
| `AcceptanceCriteria.CriterionErrors` | apps/admin-panel/lib/acceptance-criteria.ts:290-302 | Exactly the missing pieces of a declared row are reported, each once; none if and only if the row is complete. |
| `AcceptanceCriteria.EmitDeclared` | apps/admin-panel/lib/acceptance-criteria.ts:321-341 | The written criterion has the declaration's fields, no left-over field of another kind, and all other fields. |
| `AcceptanceCriteria.CleanCriteria` | apps/admin-panel/lib/acceptance-criteria.ts:360-380 | The first eight rows with text are saved, in order, each as its state asks. |
| `CriteriaTheorems.ClipTakes` | apps/admin-panel/lib/acceptance-criteria.ts:363 | A saved text is the beginning of the trimmed one, whole up to 300 characters, else its first 300 less the blanks at the cut. |
| `CriteriaTheorems.TextOfRecord` | apps/admin-panel/lib/acceptance-criteria.ts:130 | A structured criterion reads as the first of description, text, criterion and name that is there and not null. |
| `CriteriaTheorems.WrittenIsRead` | apps/admin-panel/lib/acceptance-criteria.ts:177-204 | Reading a written declaration gives its canonical form back, whatever the criterion held before. |
| `CriteriaTheorems.CanonicalForm` | apps/admin-panel/lib/acceptance-criteria.ts:177-204 | The canonical form is trimmed, has a signal and nothing of the other mode, and a declaration is its own canonical form if and only if it is like that. |
| `CriteriaTheorems.ResaveIdempotent` | apps/admin-panel/lib/acceptance-criteria.ts:207-214 | Opening and saving one criterion twice is the same as once. |
| `CriteriaTheorems.SavingIsIdempotent` | apps/admin-panel/lib/acceptance-criteria.ts:360-380 | Saving a saved list, every row left alone, changes nothing. |
| `CriteriaTheorems.ResaveKeepsState` | apps/admin-panel/lib/acceptance-criteria.ts:227-247 | Opening and saving never makes the worker run a criterion or stop running it; only a bare reason changes state, to manual. |
| `CriteriaTheorems.StateIff` | apps/admin-panel/lib/acceptance-criteria.ts:227-247 | The worker runs exactly the criteria with runtime and command that name no type but automated; any other type, known or not, is for a human. |
| `CriteriaTheorems.ForeignTypeKept` | apps/admin-panel/lib/acceptance-criteria.ts:168-185 | A criterion with a type of another producer is not read as a declaration, and saving changes nothing but its text. |
| `CriteriaTheorems.DeclaredRowSaved` | apps/admin-panel/lib/acceptance-criteria.ts:290-380 | A declared row without errors among the first eight is saved with the state it declares and reads back as its declaration. |
| `CriteriaTheorems.WithdrawnRowSaved` | apps/admin-panel/lib/acceptance-criteria.ts:360-380 | A withdrawn declaration leaves nothing to run and reads back as none. |
| `CriteriaTheorems.OtherFieldsSurvive` | apps/admin-panel/lib/acceptance-criteria.ts:321-380 | Fields that declare nothing survive every save, with their values, and none appear. |
| `SseFrames.CutJoin` | apps/installer/lib/install.ts:95-110 | Cutting text in two parts, the rest carried over, gives the frames of the whole. |
| `SseFrames.ChunkingDoesNotMatter` | apps/installer/lib/install.ts:112-119 | For every split into chunks, the frames and the rest are those of the whole text. |
| `SseFrames.FramesArrive` | apps/installer/lib/install.ts:95-99 | Frames written line by line, a blank line after each, are cut out as they were written, and an unfinished rest stays in the buffer. |
| `InstallStream.Install.HandleEvent` | apps/installer/lib/use-install.ts:65-97 | The handler's branches and early returns amount to one reducer step on phase, step status, log, percentage and error. |
| `InstallStream.FlushFrames` | apps/installer/lib/install.ts:95-110 | Flushing delivers exactly the complete frames of the buffer, up to a payload that does not parse, and keeps the rest. |
| `InstallStream.StreamInstall` | apps/installer/lib/install.ts:112-122 | However the text was split, the state is the fold over the payloads of one pass over the text plus a closing blank line. |
| `InstallStream.LinePayloadIs` | apps/installer/lib/install.ts:100-103 | A line `data:` with a text between blanks carries exactly that text. |
| `InstallStream.NoPayloadIff` | apps/installer/lib/install.ts:100-103 | A line carries nothing if and only if it does not begin with `data:` or has only blanks behind it. |
| `InstallStream.DeliveredInOrder` | apps/installer/lib/install.ts:103-105 | The events are the parsed payloads in order, up to the first that does not parse. |
| `InstallStream.LinesDeliver` | apps/installer/lib/install.ts:112-122 | For frames of any lines in any chunks, the payloads are those of the lines in order; a last frame without its blank line counts unless the stream broke off. |
| `InstallStream.PayloadsArrive` | apps/installer/lib/install.ts:95-122 | Round trip: payloads sent one per frame are the payloads delivered, the last even without its blank line. |
| `InstallStream.Start` | apps/installer/lib/use-install.ts:99-120 | A start forgets the run before it; an error of the stream ends it as failed. |
| `InstallStream.StateOfRun` | apps/installer/lib/use-install.ts:65-97 | A step shows its last verdict, else running once heard of, else pending; phase and error are those of the last terminal and failed event. |
| `InstallStream.CompletesIff` | apps/installer/lib/use-install.ts:88 | A step is completed by exactly the messages that end in the one word. |
| `InstallStream.LogOfRun` | apps/installer/lib/use-install.ts:65-97 | The log has one line per event except successful ends; the percentage is the last event's, 100 at a successful end. |
| `AssistantStream.StreamChat` | apps/admin-panel/lib/assistant.ts:326-359 | However the text was split, callbacks and outcome are those of one pass over the complete frames. |
| `AssistantStream.UnfinishedFrameIgnored` | apps/admin-panel/lib/assistant.ts:326-356 | Text after the last complete frame never has an effect, unlike in the installer's parser. |
| `AssistantStream.AnswerIsLast` | apps/admin-panel/lib/assistant.ts:350-352 | The answer kept is the one of the last complete answer frame that parses. |
| `AssistantStream.MessagesDecide` | apps/admin-panel/lib/assistant.ts:326-359 | For messages written as frames, in any chunks: the calls are those the messages ask for, up to one that throws; the last non-empty error beats every answer, and without a usable answer the call is refused. |
| `DocsNav.CollectExplicit` | scripts/docs/hooks.py:176-189 | The set of pages written by hand, at any depth, markers excluded. |
| `DocsNav.MarkersRead` | scripts/docs/hooks.py:151-173 | Both spellings of a marker give the pattern without the blanks around it. |
| `DocsNav.EligibleIff` | scripts/docs/hooks.py:113-142 | A marker may list exactly the files that are no README in any capitals and do not end in .es.md. |
| `DocsNav.Expander.ExpandGlob` | scripts/docs/hooks.py:131-148 | The eligible matches not placed before, in order, each once; all of them are placed afterwards and nothing else. |
| `DocsNav.Expander.WalkNav` | scripts/docs/hooks.py:192-209 | The walk that mutates the placed set and the counts computes the pure expansion of the tree. |
| `NavTheorems.WalkIsRun` | scripts/docs/hooks.py:192-209 | What a walk places depends only on the list markers in reading order, not on the shape of the tree. |
| `NavTheorems.RunGenerates` | scripts/docs/hooks.py:131-148 | No page is generated twice or over a hand-written one, and every filtered match ends up placed. |
| `NavTheorems.NavListsEachPageOnce` | scripts/docs/hooks.py:192-222 | For every navigation, what is published is the hand-written pages as often as written, the markers outside lists as they stand, and each other filtered match exactly once. |
| `NavTheorems.OnlyPagesIffMarkersAreItems` | scripts/docs/hooks.py:192-209 | What is published is the hand-written and the generated pages and nothing else if and only if every marker is a list item. |
| `NavTheorems.MarkerAsValueStays` | scripts/docs/hooks.py:192-209 | Example: a marker written as a mapping's value is published unexpanded, and no count is 0. |
| `NavTheorems.OverwritingHidesNothing` | scripts/docs/hooks.py:200-228 | Although counts are overwritten per pattern, some recorded count is 0 if and only if some marker expanded to nothing. |
| `NavTheorems.RefusedIffSomeMarkerFindsNothing` | scripts/docs/hooks.py:224-231 | The build is refused if and only if some marker matches only pages written by hand or matched by an earlier marker. |
| `NavTheorems.RepeatedPatternRefused` | scripts/docs/hooks.py:224-231 | A pattern used twice is always refused. |
| `NavTheorems.OnConfig` | scripts/docs/hooks.py:212-238 | The hook publishes the expanded tree and reports exactly the patterns counted 0; it refuses if and only if a marker expanded to nothing. |
| `DocsFilter.DocsPrefixIgnored` | apps/admin-panel/lib/docs-filters.ts:75-85 | A leading docs/ does not change a path's category unless the path already began with docs. |
| `DocsFilter.CategoryOfPath` | apps/admin-panel/lib/docs-filters.ts:75-85 | The category is that of the first folder, behind a leading docs/ or not; a folder not among the seven has none. |
| `DocsFilter.TypeOfPath` | apps/admin-panel/lib/docs-filters.ts:107-116 | The file name decides before the folder: readme or index, then a number or the decisions folder, then changelog, then runbooks. |
| `DocsFilter.NumberedIff` | apps/admin-panel/lib/docs-filters.ts:103 | A numbered name is three or four digits, a dash and anything. |
| `DocsFilter.CountDocFiles` | apps/admin-panel/lib/docs-api.ts:261-267 | The recursive count is the number of files in the flattened tree. |
| `DocsFilter.FilterKeepsMatches` | apps/admin-panel/lib/docs-filters.ts:155-182 | The pruned tree lists exactly the matching files, in the same order and under the same folders. |
| `DocsFilter.OneFacetKeeps` | apps/admin-panel/lib/docs-filters.ts:141-149 | A facet keeps exactly the files that have one of its chosen values. |
| `DocsFilter.FacetsCompose` | apps/admin-panel/lib/docs-filters.ts:141-149 | Both facets together are one filter after the other. |
| `DocsFilter.CountMatches` | apps/admin-panel/lib/docs-api.ts:261-267 | Counting the pruned tree counts the matches. |
| `DocsFilter.NoDeadBranch` | apps/admin-panel/lib/docs-filters.ts:161-164 | Under an active filter every surviving folder, at any depth, has a file below it. |
| `DocsFilter.FiltersCommute` | apps/admin-panel/lib/docs-filters.ts:175-182 | Two filters, active or not, can be applied in either order. |
| `DocsFilter.FilterIdempotent` | apps/admin-panel/lib/docs-filters.ts:175-182 | Filtering again by the same filter changes nothing. |
| `SecretScan.IterFiles` | scripts/check_no_secret_artifacts.py:192-212 | The walk with an explicit stack ends and yields what the recursive enumeration lists, each file as often. |
| `SecretScan.ExtensionDecides` | scripts/check_no_secret_artifacts.py:205-212 | Of the other files those are searched whose extension, in small letters, is listed. |
| `SecretScan.EnvFiles` | scripts/check_no_secret_artifacts.py:215-232 | A .env or .env.* file is searched if and only if it ends in .example. |
| `SecretScan.SuffixIs` | scripts/check_no_secret_artifacts.py:211 | The extension is what follows the last dot, when something stands before and behind that dot. |
| `SecretScan.NoSuffix` | scripts/check_no_secret_artifacts.py:211 | A name without a dot, with only a leading one, or with only one at its end has no extension. |
| `SecretScan.EntriesListed` | scripts/check_no_secret_artifacts.py:201-212 | A file is listed if and only if its path leads to it through listable directories, none of them skipped, and it is eligible. |
| `SecretScan.EligibleFiles` | scripts/check_no_secret_artifacts.py:192-212 | Each eligible file that can be reached is yielded exactly once, and nothing else is. |
| `TokenSearch.RemovedIffFree` | scripts/check_no_secret_artifacts.py:269-271 | The removal takes out an occurrence if and only if no earlier removed one reaches into it. |
| `TokenSearch.TokenCodes` | scripts/check_no_secret_artifacts.py:87 | The characters of a token are the ASCII letters and digits, the dash and the underscore, by their codes. |
| `TokenSearch.RemoveSplits` | scripts/check_no_secret_artifacts.py:269-271 | Up to the first occurrence the text stays, and what follows it is treated as if it stood alone. |
| `TokenSearch.TokenSurvives` | scripts/check_no_secret_artifacts.py:269-272 | A token that no removed occurrence overlaps is still found after the removal. |
| `TokenSearch.FlaggedWithoutSentinel` | scripts/check_no_secret_artifacts.py:268-279 | A file without the exempt literal is flagged if and only if a token stands in it. |
| `TokenSearch.FlaggedAround` | scripts/check_no_secret_artifacts.py:89-105 | A text is flagged if and only if what stands before the first exempt literal, joined to what the removal leaves after it, holds a token. |
| `TokenSearch.LeadingSentinelIgnored` | scripts/check_no_secret_artifacts.py:89-105 | The exempt literal in front never changes the verdict on what follows, although the whole begins with a token. |
| `TokenSearch.TokenIntoSentinel` | scripts/check_no_secret_artifacts.py:89-105 | A prefix with fewer than 16 characters, the exempt literal, and more characters: flagged if and only if the characters around the literal add up to 16, while a token stands there if and only if there are 13 before it. |
| `TokenSearch.TokenFindings` | scripts/check_no_secret_artifacts.py:259-280 | The report names exactly the reachable eligible files that are flagged, each once, and counts the files that could be read. |
| `Wizard.StepOrder` | apps/installer/lib/wizard.ts:31-66 | Position, next and previous step agree with the one list of steps. |
| `Wizard.ConfigSteps` | apps/installer/lib/config.ts:102-105 | The steps with a section of the configuration are exactly those between the welcome and the summary. |
| `Wizard.PatchedSection` | apps/installer/lib/use-config.ts:27-39 | An edit writes the section of its step and leaves the other sections alone. |
| `Wizard.WizardController.Forward` | apps/installer/lib/use-wizard.ts:36-45 | An advance moves one step and never past the last; the furthest step moves only with it. |
| `Wizard.WizardController.GoTo` | apps/installer/lib/use-wizard.ts:51-60 | A jump reaches visited steps only. |
| `Wizard.WizardShell.HandleNext` | apps/installer/app/wizard-shell.tsx:72-99 | The early returns of the next button, simulation gate first, amount to one step of the state machine. |
| `Wizard.WizardShell.Handle` | apps/installer/app/wizard-shell.tsx:66-136 | Every action and callback, with its disabling conditions and the dialog modal, is one step of the state machine. |
| `WizardRuns.StepSound` | apps/installer/app/wizard-shell.tsx:66-136 | Every action keeps: current not past furthest, the dialog open only over a confirmed summary, no confirmation off the summary before the installation. |
| `WizardRuns.FurthestRises` | apps/installer/lib/use-wizard.ts:36-45 | The furthest step never falls and rises by one, only from itself, through its gate open at that moment. |
| `WizardRuns.PageMoves` | apps/installer/app/wizard-shell.tsx:72-136 | The page changes in three ways and no other: on through the gate of the page, back by one where back is offered, and by the stepper to a visited page. |
| `WizardRuns.DialogMoves` | apps/installer/app/wizard-shell.tsx:72-106 | The dialog opens at a click on next over a confirmed summary of a simulation, and closes by cancelling or by going on. |
| `WizardRuns.Remembered` | apps/installer/app/wizard-shell.tsx:41-47 | In every run the prerequisite gate is the verdict of the last check (no without one), the mode the last one loaded, and each section what was last written on its page. |
| `WizardRuns.ErrorsShownIff` | apps/installer/app/wizard-shell.tsx:48-49 | Errors are shown for exactly the pages on which next was clicked with an invalid section. |
| `WizardRuns.ResourcesPassedChecked` | apps/installer/app/wizard-shell.tsx:89-91 | The resources page is left forwards only after a check that said yes, with none after it that said no. |
| `WizardRuns.EveryGateWasPassed` | apps/installer/app/wizard-shell.tsx:66-136 | In every run, each step before the furthest was first passed at some moment through its open gate, and these moments are in step order. |
| `WizardRuns.InstallReachedThroughGates` | apps/installer/app/wizard-shell.tsx:66-99 | The installation is reached only with every section valid, the last prerequisite check positive, the summary confirmed, and a simulation enabled and its risk ticked since the dialog opened, each when first passed. |
| `WizardRuns.DoneOnlyAfterInstall` | apps/installer/app/wizard-shell.tsx:59-68 | The last page is reached only after an installation that finished on its page. |
| `WizardRuns.UnauthorisedStopsAtSummary` | apps/installer/app/simulation-notice.tsx:35-68 | While the backend reports, or is assumed to be, a simulation that is not enabled, no run gets past the summary. |
| `WizardRuns.ConfirmationLostIff` | apps/installer/app/wizard-shell.tsx:109-125 | Of all actions that change the page, exactly going back from the summary and jumping away from it take a standing confirmation back. |
| `WizardRuns.EditUnderConfirmation` | apps/installer/app/wizard-shell.tsx:51-57 | An edit never takes the confirmation back, and meets a standing one only after the installation was reached. |
| `WizardRuns.ConfirmedSinceLastEdit` | apps/installer/app/wizard-shell.tsx:51-57 | Until the installation is first reached, a standing confirmation was given on the summary and nothing was edited since. |
| `WizardRuns.ReturnToInstallUnchecked` | apps/installer/app/wizard-shell.tsx:117-125 | A run that reaches the installation confirmed, jumps to any section, writes anything there and is back at the installation, still confirmed, with the new configuration. |
| `DeviceFlow.CopilotProvider.PollDeviceFlow` | docs/provider-example/copilot.py:92-121 | The loop ends with the token of the last reply, its abort, or the expiry; every wait is the interval plus 5 per earlier slow_down; only a token is stored. |
| `DeviceFlow.OutcomeUnique` | docs/provider-example/copilot.py:92-121 | Clock and replies determine the number of polls and the way out. |
| `DeviceFlow.LastReplyDecides` | docs/provider-example/copilot.py:108-121 | A token wins, expired_token and access_denied abort with that code, and any other last reply, an unknown error included, leaves the deadline; no earlier reply was of the first two kinds. |
| `DeviceFlow.WaitGrows` | docs/provider-example/copilot.py:95-118 | The first wait is the interval; each reply slow_down adds five seconds to the next, any other reply nothing. |
| `DeviceFlow.PollsBounded` | docs/provider-example/copilot.py:94-97 | With a positive interval and a clock that covers the waits, there are at most ceil(expires_in / interval) polls. |
| `DeviceFlow.WaitsFit` | docs/provider-example/copilot.py:96-118 | All waits but the last, slow-downs included, fit into the validity of the code. |
| `DeviceFlow.OnlyTheLastPollIsLate` | docs/provider-example/copilot.py:96-106 | At most the last poll is sent after the deadline. |

## Left out

- Duplicate task ids: the graph views are modelled for lists with distinct ids, as the editor and the server require; how maps overwrite duplicates is not modelled.
- Floating point and number printing: hours and coordinates are reals, and parsing a printed number is assumed to give it back (`FaithfulNumbers`).
- Text is a sequence of characters: UTF-16 code units in sorting and slicing are not modelled; lower-casing of criterion words is an arbitrary function of the word, lower-casing of file names is done for ASCII letters only.
- EditorRuns.RunStaysGood: clicks that close a cycle and ids that are blank-padded, taken or depended on are not part of a session, because they do break the plan (`ToggleAcyclicIff`, `RenameClosedIff`).
- Regular expressions: the Vault token is the prefix with at least 16 allowed characters, the numbered file name three or four digits and a dash.
- JSON, UTF-8 and HTTP: decoded text is the input, parsing is an arbitrary partial function; reading a response is a list of chunks that ends by itself or with an error.
- InstallStream.Start: does not model a stream of an earlier start still delivering after it was aborted, nor the abort button, which only sets the phase.
- DocsNav.Expander.ExpandGlob: a glob is an arbitrary list of paths per pattern; sorting and the file system are not modelled.
- NavTheorems.OnConfig: the refusal is the set of reported patterns, without the order and wording of the message; the totals are only logged and left out.
- SecretScan.IterFiles: the tree is finite and without links, and is read as it was at the start; the 2 MB limit and decoding errors are part of what text a file has.
- DeviceFlow.CopilotProvider.PollDeviceFlow: takes a number of polls after which the deadline has passed or the last reply decides, because with an interval of 0 and no such number the loop never ends; saving the token to disk and failing requests are left out.
- Wizard.WizardShell.Handle: React's rendering and batching are left out, each handler is atomic; the contents and rules of the five configuration sections are an arbitrary validator.
- Link rewriting in the documentation hook, table-of-contents ids and Markdown rendering: external libraries and not idempotent.
- Artifact directories in the secret check, save-error messages and translations, labels, badges and query strings: they would only add easy members.
