# Feature-interview engine, modelled and verified in Dafny

The server keeps a feature discussion for each feature that someone proposes. Each discussion walks its user through a fixed script of eight prompts:

1. description
2. business value
3. target users
4. requirements
5. success criteria
6. technical approach
7. risks
8. timeline

Each answer is written into the record field that its prompt names:

- Four fields hold lists: target users, requirements, success criteria and risks. Their answer is split into lines, each line is trimmed, and blank lines are dropped.
- Every other field stores the answer verbatim.

Every accepted answer is appended to the discussion's conversation history. The cursor then moves to the next prompt. After the eighth answer the discussion becomes `proposed` and its cursor is cleared.

The records and their contexts live in two in-memory tables, both keyed by discussion id. A new discussion gets the id `f` + (number of discussions + 1). The tables can be read one record at a time, or listed as resources.

The model has four files:

- `wrappers.dfy`: the `Option` and `Result` types.
- `lines.dfy` (module `Lines`): the list-field writer as pure functions. `Split` is `split('\n')`. `Trim` is `String.prototype.trim`, with the exact ECMAScript whitespace and line-terminator set. `TrimAll` is `map(trim)` and `NonEmpty` is `filter(Boolean)`. The module also proves their properties.
- `interview.dfy` (module `Interview`) holds the rest of the interview as pure functions:
  - the prompt script;
  - the record and context types;
  - the initial record;
  - the `findIndex` lookup;
  - `Respond`, a function for the answer transition;
  - the interview invariant `Consistent`, with lemmas that an answer keeps it;
  - lemmas about whole runs of answers.
- `registry.dfy` (module `Registry`) holds the tables and the four handler operations:
  - `Store` is a class with map fields for the two tables, plus the keys in creation order.
  - `Begin` and `Answer` are methods that change the store.
  - `Read` and `List` are methods that cannot change it, because they have no `modifies` clause.
  - `Valid` is the store invariant:
    - the keys are `f1` … `fn` and are fresh;
    - every record carries its own key;
    - every record with its context satisfies `Consistent`.

`Begin` and `Answer` require and preserve `Valid`.

Two behaviours are worth stating:

- **Answering a completed discussion.** The cursor is then `undefined`, so `findIndex` gives -1. Reading `.field` from the missing prompt throws (src/index.ts:261-265) before anything is written. The model rejects the answer with `InvalidState` and changes nothing.
- **The listing.** Each entry holds the uri `feature:///<id>`, the title as its name and the description (src/index.ts:138-143).

## Model

| member | source | states |
|---|---|---|
| Lines.TrimStart | src/index.ts:268 | the result is a suffix of the input; everything dropped is whitespace; the result does not start with whitespace |
| Lines.TrimEnd | src/index.ts:268 | the result is a prefix of the input; everything dropped is whitespace; the result does not end with whitespace |
| Lines.Trim | src/index.ts:268 | the result has no whitespace at either end; a string without such whitespace comes back unchanged |
| Lines.TrimStrips | src/index.ts:268 | the input is the result with whitespace, and only whitespace, added on both sides (`s == p + trim(s) + q`, with `p` and `q` all whitespace) |
| Lines.Split | src/index.ts:268 | `split('\n')` gives at least one piece, and no piece contains a line feed |
| Lines.JoinSplit | src/index.ts:268 | joining the pieces of `split('\n')` with line feeds gives back the text, so nothing is lost or reordered |
| Lines.SplitJoin | src/index.ts:268 | splitting line-feed-free pieces joined by line feeds gives back exactly those pieces |
| Lines.SplitPrefix | src/index.ts:268 | a line-feed-free prefix is glued to the first piece of the split |
| Lines.SplitExample | src/index.ts:268 | `"a\n\nb \n"` splits into `["a", "", "b ", ""]` |
| Lines.NonEmpty | src/index.ts:268 | `filter(Boolean)` keeps only non-empty strings taken from the input, in input order, and on input without empty strings returns it unchanged |
| Lines.NonEmptyKeepsAll | src/index.ts:268 | every non-empty string of the input occurs in the result of `filter(Boolean)` |
| Lines.NonEmptyMultiset | src/index.ts:268 | `filter(Boolean)` keeps every non-empty string exactly as many times as it occurs and drops every empty one (the multiset of the result is that of the input without `""`) |
| Lines.NonEmptyExample | src/index.ts:268 | `filter(Boolean)` of `["a", "", "b", ""]` is `["a", "b"]` |
| Lines.TrimAll | src/index.ts:268 | `map(r => r.trim())` keeps the length and trims each piece in place |
| Lines.TrimAllExample | src/index.ts:268 | the trimmed pieces of the example are `["a", "", "b", ""]` |
| Lines.TrimExample | src/index.ts:268 | `"a"` and `""` trim to themselves and `"b "` trims to `"b"` |
| Lines.CleanLinesShape | src/index.ts:268 | every stored line is non-empty, trimmed and free of line feeds; the stored lines are the non-blank trimmed lines of the answer, in their order, each as many times as it occurs (equal multisets once blank lines are removed) |
| Lines.CleanLines | src/index.ts:268 | the value stored for a list field: every item is non-empty and has no whitespace at either end (the full characterisation is `CleanLinesShape`) |
| Lines.TrimInfix | src/index.ts:268 | trimming introduces no character that was not in the input |
| Lines.CleanLinesOfTidyText | src/index.ts:268 | on an answer with no blank line and no whitespace around any line, the stored list is exactly the lines of the answer |
| Lines.CleanLinesOfJoin | src/index.ts:268 | tidy lines joined by line feeds are stored back unchanged and in order |
| Lines.CleanLinesExample | src/index.ts:268 | the answer `"a\n\nb \n"` to a list prompt is stored as `["a", "b"]` |
| Interview.ScriptShape | src/index.ts:76-117 | the script has eight prompts, and every answerable field is the target of exactly one of them, at its fixed position |
| Interview.ScriptIdsDistinct | src/index.ts:76-117 | the prompt ids are pairwise different, so an id names at most one prompt |
| Interview.WriteValue | src/index.ts:265-272 | the field writer: a list exactly for the list-valued fields, otherwise the answer verbatim |
| Interview.FieldWriter | src/index.ts:265-272 | the stored value is a list exactly for requirements, target users, success criteria and risks; its items are the non-blank trimmed lines of the answer, in order, each as often as it occurs; every other field stores the answer verbatim |
| Interview.NewDiscussion | src/index.ts:221-230 | a new record has the given id and title, status `in-discussion`, cursor `initial_description`, `description = ""`, `requirements = []`, no other slot, and both timestamps from the clock reading |
| Interview.NewContext | src/index.ts:233-238 | a new context has all four lists empty |
| Interview.FindIndex | src/index.ts:261 | `findIndex`: the first prompt whose id equals the cursor, or -1 exactly when no prompt matches (always so once the cursor is cleared) |
| Interview.CursorIndex | src/index.ts:261 | when the cursor names prompt n, `findIndex` finds n |
| Interview.NewIsConsistent | src/index.ts:221-238 | a new record with its new context satisfies the interview invariant, with no answers recorded |
| Interview.WriteExtendsPrefix | src/index.ts:265-272 | writing the n-th answer into the slot of prompt n grows the filled prefix of the script by one and leaves every later slot at its initial value |
| Interview.SlotsByPrompt | src/index.ts:261-272 | under the invariant, the slot of the i-th prompt holds the writer's value of the i-th recorded answer if it has been answered, and its initial value otherwise |
| Interview.Respond | src/index.ts:261-294 | the answer transition: rejected with `InvalidState` exactly when the cursor names no prompt; an accepted answer adds exactly one history entry, refreshes `updatedAt` and keeps id, title and `createdAt` (the full outcome is `RespondAdvances`) |
| Interview.HistoryMessages | src/index.ts:275-279 | recording prompt n's message after those of the first n prompts gives the messages of the first n + 1 prompts |
| Interview.RespondAdvances | src/index.ts:261-294 | with n answers and prompts remaining, an answer is accepted. It appends one history entry (prompt n's message, the raw response, the time) after the unchanged earlier ones and writes prompt n's slot. Then either the cursor moves to prompt n+1 and the status is unchanged, or after the last prompt the record is `proposed` with no cursor. `updatedAt` is refreshed and the id, title and `createdAt` are kept |
| Interview.RespondRecords | src/index.ts:275-290 | an accepted answer appends exactly one history entry and moves the cursor to the next prompt |
| Interview.RespondKeepsConsistent | src/index.ts:261-294 | an accepted answer keeps the interview invariant (cursor, status, history messages, filled prefix, pending slots, empty placeholder lists) |
| Interview.RespondOnlyTargetSlot | src/index.ts:265-272 | an answer leaves every slot other than the current prompt's slot as it was, including absent ones |
| Interview.RespondWhenComplete | src/index.ts:261-265 | once all eight prompts are answered, a further answer is rejected with `InvalidState` |
| Interview.Entries | src/index.ts:275-279 | the entries that a run of answers appends are one per answer, in call order, each holding its prompt's message, the raw response and the time |
| Interview.RunAccepts | src/index.ts:251-294 | a run of at most the remaining number of answers is accepted in full; the invariant holds afterwards; id, title and `createdAt` are unchanged |
| Interview.RunRecordsHistory | src/index.ts:275-279 | after a run, the history is the earlier entries followed by one entry per answer, in call order |
| Interview.RunStep | src/index.ts:251-294 | the first step of a run is one accepted answer that keeps the invariant and appends one entry |
| Interview.InterviewFromStart | src/index.ts:216-294 | from a new discussion, n ≤ 8 answers are all accepted. The history then holds exactly those n responses, in order. The first n slots hold the writer's values and the rest their initial values. The discussion is at prompt n, or `proposed` with no cursor after eight answers |
| Interview.InterviewEnds | src/index.ts:261-265 | after eight answers from the start, a ninth is rejected with `InvalidState` |
| Registry.Decimal | src/index.ts:218 | the decimal numeral of a count is non-empty and made of digits |
| Registry.DecimalRoundTrip | src/index.ts:218 | reading a printed numeral back gives the number |
| Registry.DiscussionIdInjective | src/index.ts:218 | different counts give different ids `f<n>` |
| Registry.KeysDistinct | src/index.ts:218 | keys numbered by creation are pairwise different |
| Registry.Describe | src/index.ts:142 | the description of a listed record: the text stored in its description slot, and `""` when that slot holds no text |
| Registry.ListingOf | src/index.ts:139-142 | a listing entry: its uri is `feature:///` followed by exactly the id, so stripping the prefix gives the id back; its name is the title and its description that of the record |
| Registry.DescribeAnswered | src/index.ts:142 | a record's description is `""` until the first prompt is answered, and is that answer verbatim afterwards |
| Registry.Listings | src/index.ts:138-143 | the listing has one entry per key, in key order, with the key's uri, the record's title and its description |
| Registry.UriInjective | src/index.ts:139 | different ids give different resource uris |
| Registry.InsertFresh | src/index.ts:218-238 | the id `f(count+1)` is not in use, and registering the new record and context under it keeps the tables well formed |
| Registry.ReplaceRecord | src/index.ts:253-294 | replacing one record and its context by a consistent pair keeps the tables well formed |
| Registry.AnswerKeepsTables | src/index.ts:251-294 | for a registered id, an answer is accepted exactly while prompts remain; the only rejection is `InvalidState`; an accepted answer keeps the tables well formed |
| Registry.ListingsOfTables | src/index.ts:138-143 | the listing has as many entries as there are records, and the i-th one is for id `f(i+1)`, with its title and description |
| Registry.ListingsDistinct | src/index.ts:138-143 | no record is listed twice |
| Registry.Store.constructor | src/index.ts:72-73 | the two tables start empty |
| Registry.Store.Begin | src/index.ts:216-249 | begin never fails. It returns the id `f(count+1)`, which was not in use, and the first prompt. It adds exactly the new record and the empty context under that id, appends the id to the creation order, and keeps the invariant |
| Registry.Store.Answer | src/index.ts:251-302 | an unknown id is rejected with `NotFound(id)` and nothing changes. For a known id the result follows `Respond`: a rejection (only `InvalidState`, exactly when all prompts are answered) leaves both tables unchanged. An acceptance replaces only that id's record and context, so every other discussion is untouched. The invariant is kept |
| Registry.Store.Read | src/index.ts:150-158 | the record and context of a known id, or `NotFound(id)`; the store is not modified |
| Registry.Store.List | src/index.ts:136-145 | one entry per record, the i-th for id `f(i+1)` in creation order, with its title and description, no record twice; the store is not modified |

## Left out

- The protocol transport, the server bootstrap and the stdio connection (src/index.ts:14-23, 119-131, 390-400) are foreign SDK plumbing.
- The dispatch on the tool name, including its "Unknown tool" error (src/index.ts:214-215, 305-306), is left out: each tool is its own method.
- The tool-schema listing (src/index.ts:172-209) and the two guidance prompt templates (src/index.ts:311-387) are static text.
- The text of the handler replies is left out. `Begin` returns the id and the first prompt. `Answer` returns `NextQuestion(prompt)` or `Completed` instead of the formatted message.
- JSON serialisation in the read handler (src/index.ts:164) is left out: `Read` returns the record and its context as values.
- Parsing the resource uri with `new URL` and stripping the leading `/` (src/index.ts:151-152) are library calls. `Read` takes the id directly.
- The `mimeType` constant of each listing entry is left out.
- Clock readings are parameters (`now`). Time is never compared, so timestamps are plain text.
- Interview.NewDiscussion: `createdAt` and `updatedAt` come from two separate clock readings (src/index.ts:227-228); the model uses one reading for both.
- Interview.Respond: the history entry's timestamp (src/index.ts:278) and `updatedAt` (src/index.ts:294) come from two separate clock readings; the model uses one reading for both.
- The handlers are `async` but never await, so they run one at a time and nothing here needs concurrency.
- Only the tables' own keys are modelled. In the source, an id that names a property inherited by every object (such as `constructor` or `toString`) finds that property rather than `undefined`. For `provide_feature_input` such an id then fails with a type error instead of "not found", still before any write. For the read handler it yields an almost empty record.
- Arguments that are not strings (`as any`, src/index.ts:217 and 252) are not modelled: `title` and `response` are strings.
- In the source a record is mutated in place inside the table (src/index.ts:268-294). The model replaces the table entry with the updated record instead. No other reference to the record exists, so nothing can observe the difference.
- `architecturalDecisions` and `dependencies` are declared optional fields (src/index.ts:38-39) that no prompt writes, so they are not modelled. No prompt targets `title` either, so `title` is not a slot.
- JavaScript strings are UTF-16; the model uses Unicode scalar values. All the characters that `trim` removes lie in the basic multilingual plane, so trimming is the same except on lone surrogates.
