# Versioned text history

A model of the text-editing history in `text_history.py`. A `TextHistory` keeps the
current text, a version number, and an append-only log of actions. The history
accepts insert, replace and delete requests. Each request is validated, built
into a version-stamped action, applied to the text and appended to the log. A
range query filters the log by version span and hands the result to an
`Optimizer`. The optimizer merges chains of adjacent, version-contiguous
inserts into single inserts.

The project has four modules:

- `Slicing` (`slicing.dfy`): Python slicing on sequences. A negative bound
  counts from the end, and every bound is clamped to the sequence. All slicing
  in the source goes through it.
- `Actions` (`actions.dfy`): the error kinds, a `Result` type, and the
  `Action` datatype. Its three variants are Insert, Replace and Delete, and
  each has an `Apply` function. `ApplyAll` replays a log.
- `Optimizing` (`optimizer.dfy`):
  - `Merge` is the pairwise merge of two inserts.
  - `Compact` and `Optimized` are the greedy left-to-right compaction, as
    functions.
  - The `Optimizer` class has the queue and output fields of the source. Its
    `Optimize` method is the source's `while` loop, proved equal to
    `Optimized`.
- `History` (`text_history.dfy`): the range filter `Window`, and the
  `TextHistory` class with fields `text`, `version`, `actions` and `len`. Its
  methods update these fields in place, as the source does.

Modelling choices:

- The source raises `ValueError` for every validation failure. The model
  names each kind instead: `PositionError`, `LengthError`, `VersionError`
  and `RangeError`.
- Two runtime failures of the source are modelled as errors too:
  - `TypeError`: `delete` without a position computes `None + length`, and the
    range filter compares with an action whose `to_version` is `None`.
  - `IndexError`: the optimizer pops two actions from a queue that holds fewer.
- Python's default arguments `pos=None` and `version=None` are `Option`
  parameters. `get_actions(from_version=0, ...)` takes its lower bound
  explicitly.
- `Action.toVersion` is an `Option`. `action` accepts a hand-built action
  whose `to_version` is `None`, and then advances the version by one.
- `Valid()` on the history states that the cached `len` is the text's length
  and that the text is the log replayed from the empty text. It also states
  that the version is 0 while the log is empty, and otherwise equals the last
  action's target version whenever that action has one. Every method keeps it.

Behaviours of the code that the model keeps as written:

- Merge case (b) (`text_history.py:150-151`) checks only `first.pos == 0`. It
  does not check that the second position lies inside the first insert's
  text, so a merge can change the replayed text.
  `AsWrittenMergeBreaksReplay` exhibits this for a pair of inserts.
  `AsWrittenQueryBreaksReplay` exhibits it for a full-range query over a log
  made with default versions and explicit positions: insert "xyz", overwrite
  its first character with "x" at 0 (the text is unchanged), insert "a" at 0,
  insert "b" at 3.
- Merge case (a) (`text_history.py:148-149`) does not check that the first
  position is non-negative. A hand-built insert at a negative position counts
  from the end of the text, so a merge after it can change the replayed text
  too: `AsWrittenAdjacentMergeBreaksReplay` shows `Insert(-1, "x")` then
  `Insert(0, "y")` on "ab" giving "yaxb", while the merged `Insert(-1, "xy")`
  gives "axyb".
- The `Checked` merge rule adds both bounds: a non-negative first position in
  case (a), and a second position inside the first insert's text in case (b).
  `CompactCheckedReplays` proves that compaction under it preserves the
  replayed text, and `FullRangeQueryReplays` lifts this to the history. The
  `Optimizer` class and `GetActions` use the rule as written.
- `delete` checks the length against `text[pos:pos+length]` before it
  validates the position (`text_history.py:49-51`). So a missing position
  fails, and an out-of-range position may be reported as a length error.
- `action` refuses only a zero-span action that is not issued from the
  current version. A caller-supplied version may be lower than the current
  one, so versions are not monotonic.
- The optimizer pops two actions before its loop, so it needs at least two.
  A query whose window holds exactly one action fails.

## Model

| member | source | states |
|---|---|---|
| `Actions.Action.Apply` | text_history.py:93-118 | An insert always lengthens the text by `\|text\|`. For a position inside the text it splices its text in, keeps the prefix and shifts the tail. A replace overwrites from `pos`, giving length `max(\|s\|, pos + \|text\|)` with the prefix kept and the tail after the overwritten span kept. A delete that fits removes exactly `length` characters at `pos`. An insert past the end appends. |
| `Actions.ApplyAllSnoc` | text_history.py:64-65 | Replaying a log extended by one action is replaying the log, then applying that action. So the log order is the application order. |
| `Actions.DeleteUndoesInsert` | text_history.py:93-118 | Deleting the span that an insert just added, at the same position, restores the original text. |
| `Actions.ReplaceIsDeleteThenInsert` | text_history.py:102-118 | From any position inside the text, a replace equals deleting `\|text\|` characters at `pos` and then inserting the text there. This includes an overwrite that runs past the end, where the delete removes the whole tail. |
| `Actions.ReplaceBySameTextIsIdentity` | text_history.py:107-109 | Overwriting a span with the characters it already holds leaves the text unchanged. |
| `Optimizing.Merge` | text_history.py:143-160 | Two actions merge exactly when both are inserts, the first's target version is the second's start version, and either (a) the second lands right after the first's text or (b) the first is at position 0. The merged insert keeps the first's position and start version and takes the second's target version. Its text is as long as both texts together, and in case (a) it is their concatenation. |
| `Optimizing.AdjacentInsertsCompose` | text_history.py:148-149 | From a non-negative position, inserting `t1` and then `t2` right after it equals inserting `t1 + t2`. |
| `Optimizing.NestedInsertsCompose` | text_history.py:150-151 | Inserting `t1` at 0 and then `t2` at a position inside `t1` equals inserting `t1` with `t2` spliced in at that position. |
| `Optimizing.MergeSound` | text_history.py:143-160 | Applying a merged insert equals applying the two originals in order: in case (a) from a non-negative position, in case (b) when the second position lies inside the first's text, and always under the checked rule. |
| `Optimizing.AsWrittenMergeBreaksReplay` | text_history.py:150-151 | Counterexample for the rule as written. On "xyz", `Insert(0,"a")` then `Insert(3,"b")` gives "axybz". They merge into `Insert(0,"ab")`, which gives "abxyz". |
| `Optimizing.AsWrittenAdjacentMergeBreaksReplay` | text_history.py:148-149 | Counterexample for the rule as written. On "ab", `Insert(-1,"x")` then `Insert(0,"y")` gives "yaxb". They merge into `Insert(-1,"xy")`, which gives "axyb". |
| `Optimizing.Compact` | text_history.py:125-138 | The greedy compaction of a pending action and the rest: its output has between 1 and `1 + \|rest\|` actions. Its first output has the pending action's kind, position and start version, and is that action itself when it is not an insert. |
| `Optimizing.Optimized` | text_history.py:125-138 | Compaction never lengthens a sequence, and it keeps a non-empty sequence non-empty. |
| `Optimizing.CompactKeepsNonInserts` | text_history.py:133-138 | Compaction keeps every replace and delete unchanged and in its original relative order. |
| `Optimizing.OptimizedKeepsNonInserts` | text_history.py:125-138 | The same for a whole sequence: its non-insert actions, in order, are those of the compacted sequence. |
| `Optimizing.MergeDependsOnHead` | text_history.py:146-151 | Whether an action merges after a given one depends only on its kind, its position and its start version. |
| `Optimizing.CompactIrreducible` | text_history.py:125-138 | No two neighbours in a compaction's output can merge. |
| `Optimizing.CompactOfIrreducible` | text_history.py:125-138 | A sequence in which no neighbours merge is its own compaction. |
| `Optimizing.OptimizedIdempotent` | text_history.py:125-138 | Compacting an already compacted sequence returns it unchanged. |
| `Optimizing.CompactCheckedReplays` | text_history.py:143-160 | Under the checked merge rule, the compaction of a log replays to the same text as the log, from any starting text. |
| `Optimizing.OptimizedCheckedReplays` | text_history.py:125-160 | The same round trip for a whole log under the checked rule. |
| `Optimizing.Optimizer.constructor` | text_history.py:121-123 | The queue holds the given actions and the output is empty. |
| `Optimizing.Optimizer.Optimize` | text_history.py:125-138 | With at least two actions queued, the loop empties the queue and appends to the output exactly the compaction of the queued actions under the rule as written. With fewer, it fails after popping what there was and leaves the output alone. |
| `Optimizing.Optimizer.GetOptimized` | text_history.py:140-141 | Returns the output accumulated by `Optimize`. |
| `History.Window` | text_history.py:74 | The filter fails exactly when some action with `lo <= from_version` has no target version. Otherwise it returns at most the log's length, and an action is in the result exactly when it is in the log and its version span lies inside `[lo, hi]`. |
| `History.WindowSnoc` | text_history.py:74 | The filter keeps log order: filtering a log extended by one action is filtering the log, then keeping or dropping that action. |
| `History.WindowOfContainedLog` | text_history.py:74 | A log whose every action lies inside the range is returned whole. |
| `History.TextHistory.constructor` | text_history.py:4-8 | A new history has empty text, version 0 and an empty log, and is valid: its length, replay and version invariants hold. |
| `History.TextHistory.CheckPosition` | text_history.py:25-31 | A missing position resolves to the text length. A position in `[0, len]` is returned unchanged. Any other position is a `PositionError`. A resolved position always lies in `[0, len]`. |
| `History.TextHistory.ApplyAction` | text_history.py:57-67 | A zero-span action not issued from the current version is refused with `VersionError`, and nothing changes. Otherwise the version becomes the action's target version, or the old version plus one when it has none. The text becomes the action applied to the old text, and the log gains exactly this action at its end. The cached length, replay and version invariants are kept. |
| `History.TextHistory.Insert` | text_history.py:33-38 | An out-of-range position fails and changes nothing. Otherwise the insert is always accepted: the text gets `t` spliced in at the resolved position, the version becomes the given one (default: the next), and the log ends with the matching insert action. |
| `History.TextHistory.Replace` | text_history.py:40-45 | An out-of-range position fails and changes nothing. Otherwise the text keeps its prefix, then holds `t`, then the old tail past the overwritten span (nothing when the overwrite runs past the end). The version and the log are updated as for insert. |
| `History.TextHistory.Delete` | text_history.py:48-55 | A missing position fails with `TypeError`. For a position inside the text, a positive length reaching past the end fails with `LengthError`. Other positions fail with whichever check comes first. An accepted delete with non-negative length shrinks the text by exactly `length`, removing the characters at `pos`. |
| `History.TextHistory.GetActions` | text_history.py:69-79 | Fails with `RangeError` when `from < 0`, `from > to` or `to > version`. Fails with the filter's error, if any. Returns `[]` when no action lies inside the range, fails with `IndexError` when exactly one does, and otherwise returns the compaction of the actions inside the range, in log order. |
| `History.FullRangeQueryReplays` | text_history.py:69-79 | For a valid history whose every logged action lies inside `[0, version]`, the full-range window is the whole log, and its compaction under the checked merge rule replays from the empty text to the current text. |
| `History.NestedPastEndLogReplays` | text_history.py:33-67 | The log made with default versions and explicit positions (insert "xyz", overwrite its first character with "x" at 0, leaving the text unchanged, insert "a" at 0, insert "b" at 3) replays to "axybz". |
| `History.NestedPastEndLogCompacts` | text_history.py:125-160 | Under the merge rule as written, that log compacts to three actions: the last two inserts merge into `Insert(0, "ab")`. |
| `History.AsWrittenQueryBreaksReplay` | text_history.py:150-151 | Every action of that log lies inside `[0, 4]`, so a full-range query returns its compaction. The log replays to "axybz", but its compaction replays to "abxyz": as written, `get_actions(0, version)` does not reproduce the text. |
| `History.ScenarioReplays` | text_history.py:162-167 | The log of the source's example (insert "asd", insert "kek" at 1, replace by "dea" at 2, delete 2 at 3) replays to "akdd". |
| `History.ScenarioLogCompacts` | text_history.py:162-170 | That log compacts to three actions: the two inserts merge into `Insert(0, "akeksd")`. |

## Left out

- `grep.py`: a command-line filter built on Python's regular-expression engine, argument parsing and printing. It shares no code with the history.
- The example block at the end of `text_history.py` only prints. Its edits are stated as the lemmas `ScenarioReplays` and `ScenarioLogCompacts`.
- The `text` and `version` property setters, which only raise `AttributeError`: the model has no method that assigns these fields from outside.
- The abstract `Action` base class and its empty `apply`: the three variants form a closed datatype.
- The runtime type test `type(deq[0]) == type(deq[1])` is replaced by constructor tests on the datatype.
- The optimizer's deques are modelled as sequences. Queue identity and aliasing are not modelled, since the source never shares its queues.
- Hand-built actions whose position or start version is `None`, or not an integer, are not modelled: positions and versions are integers, and only the target version may be missing.
- `Actions.Action.Apply`: apart from an insert's length, which is stated for every position, its postconditions describe positions inside the text (and inserts past the end). Negative positions, and replaces or deletes past the end, are given only by the function's Python-slicing definition.
- `History.TextHistory.Delete`: for a negative length, the postcondition gives the new text only in slice form, not its length.
- The replay round trip for a full-range query is proved only under the checked merge rule, and only when every logged action lies inside `[0, version]` (`FullRangeQueryReplays`). Caller-supplied versions can break that condition: inserting with version 5 and then with version 2 leaves the first action outside `[0, 2]`. Under the merge rule as written the round trip fails even when the condition holds (`AsWrittenQueryBreaksReplay`).
