# NxCmd n-gram engine in Dafny

NxCmd predicts a user's next shell command from a JSON-lines history log.
`LocalWorldModel` reads the log and cuts it into sessions wherever more than
ten minutes pass between accepted commands. Each session trains a table from
one- and two-command contexts to a `Counter` of the commands that followed
them. `predict_next` answers in three steps. It looks up the two-command
context, then tops the answer up from the one-command context. If both find
nothing, the newer engine falls back to a fuzzy search over contexts that
mention a command of the query.

The model covers three source files:

- the engine in `src/nxcmd/model.py`;
- its older copy `model.py`, which has no line repair and no fuzzy fallback;
- the recent-command selector of `src/nxcmd/cli.py`.

Modules, in dependency order:

- `PyStr`: Python's `split()`, `' '.join`, `strip()`, `isdigit()`, `in` and `startswith` on strings.
- `OrderedDict`: a Python dict as an insertion-ordered association list. The order matters because `Counter.most_common` and `sorted` break ties by insertion order.
- `Counters`: `Counter` increments and `most_common`, defined as a stable sort by count, highest first, then a cut.
- `Command`: the cleaner. It drops a leading history number and collapses whitespace. The three copies in the sources are the same text, so one definition serves all three.
- `JsonRepair`: `_fix_json_line`. It scans left to right for non-overlapping matches of `"cmd":"…",`, where `…` is the shortest text without a newline. Inside each match, every `"` gets a backslash.
- `Segmenter`: the record loop of `_parse_logs_into_sessions`, shared by both model files. Their loop bodies are identical. It has a specification (`Sessions`) and the loop as a method proved equal to it (`SegmentRecords`).
- `NGram`: the table, one training step, and a session's training. Also the store invariant `Valid` and exact counting lemmas.
- `Predict`: the exact lookups, `predict_next`, and the fuzzy fallback as functions with their properties.
- `Stats`: what `get_command_stats` computes.
- `NxModel`: the class `LocalWorldModel` of `src/nxcmd/model.py`. Its `transitions` field is updated in place by training. Each method is proved equal to the function that specifies it.
- `LegacyModel`: `model.py`'s class and its line reader and predictor. Also how they relate to the newer engine.
- `Cli`: `get_recent_commands`, a reverse scan with an early `break`, proved to return the last qualifying commands.

Inputs the program gets from outside are parameters:

- The history file is `Option<seq<string>>` of its lines. `None` means the file does not exist.
- `decode: string -> Record` is `json.loads` of a line followed by reading `cmd`, `int(ts)` and `exit_code` (default 0). It gives `Bad` when any of those raises `JSONDecodeError`, `KeyError` or `ValueError`.
- `decodeCmd: string -> Option<string>` plays the same part for the CLI. That code's bare `except` swallows every error.
- `now` is the clock.

## Model

| member | source | states |
|---|---|---|
| Command.CleanCommandSpec | src/nxcmd/model.py:106-117 | the result is the command's words, minus a first word that is all digits when more words follow, joined by single spaces; it has no leading, trailing, doubled or non-space whitespace |
| Command.CleanCommandEmpty | src/nxcmd/model.py:106-117 | a command cleans to the empty string exactly when it is all whitespace |
| Command.CleanCommandFixed | src/nxcmd/model.py:106-117 | cleaning leaves a command unchanged exactly when it is already single-spaced and does not start with a history number |
| Command.CleanCommandStrip | src/nxcmd/model.py:51-56 | stripping the `cmd` field before cleaning makes no difference |
| Command.CleanNumbered | model.py:68-79 | a history number followed by two words is dropped, whatever non-empty runs of whitespace separate the three, and the two words are joined by one space |
| Command.CleanOneWord | model.py:68-79 | a lone word, a lone number included, is kept as it is |
| Command.CleanCommandExamples | src/nxcmd/cli.py:34-41 | `"825  source ~/.bashrc"` cleans to `"source ~/.bashrc"` and `"825"` stays `"825"` |
| JsonRepair.FirstClose | src/nxcmd/model.py:101 | the lazy `.*?` stops at the first `",`; none when there is no `",` at all |
| JsonRepair.MatchAt | src/nxcmd/model.py:101 | a match at the start of the text is `"cmd":"`, then the text up to the first `",` after it, which holds no line feed; no match starts here when the text does not open with `"cmd":"` or a line feed comes before every `",` |
| JsonRepair.FixExactLength | src/nxcmd/model.py:88-104 | the repair lengthens a line by exactly the number of quotes inside its matches, those quotes are among the line's own, and it adds no quote |
| JsonRepair.MatchSplit | src/nxcmd/model.py:93-99 | a match splits the text into `"cmd":"`, the command text, `",` and the rest |
| JsonRepair.EscapeSpec | src/nxcmd/model.py:98 | every `"` of the escaped text has a backslash just before it; the length grows by the number of quotes; apart from backslashes the text is unchanged |
| JsonRepair.FixWithoutMatch | src/nxcmd/model.py:88-104 | a line the pattern matches nowhere is returned unchanged |
| JsonRepair.FixOnlyAddsBackslashes | src/nxcmd/model.py:88-104 | the repair only inserts backslashes: with backslashes removed, its output equals its input, and it never shortens the line |
| JsonRepair.FixLengthensQuoted | src/nxcmd/model.py:93-101 | a match whose command text holds quotes gains at least one backslash per quote, so the decoder sees a different line |
| JsonRepair.EscapeEscapedQuote | src/nxcmd/model.py:98 | an already escaped `\"` becomes `\\"` |
| Segmenter.NormalizeTs | src/nxcmd/model.py:63-65 | a timestamp more than 3600 s after `now`, or before 1600000000, becomes `now`; any other is kept; with a clock past 1600000000 the result lies in range |
| Segmenter.Accept | src/nxcmd/model.py:50-60 | an accepted record decoded, exited 0, and yields its cleaned command, non-empty, not a comment, with the normalised timestamp |
| Segmenter.AcceptIff | src/nxcmd/model.py:56-60 | a record is accepted exactly when it decodes, exits 0, and its command cleans to something not starting with `#` |
| Segmenter.Runs | src/nxcmd/model.py:67-75 | no runs exactly when no events; every run is non-empty; the last run ends with the last event |
| Segmenter.SegmentRecords | src/nxcmd/model.py:34-86 | the loop with its session buffer and `last_ts` returns exactly the specified sessions |
| Segmenter.RunsFlatten | src/nxcmd/model.py:67-75 | the runs, concatenated, are the accepted events in order: nothing lost, nothing reordered |
| Segmenter.RunsInnerGaps | src/nxcmd/model.py:67-75 | within a run, each command follows the previous one by at most 600 seconds |
| Segmenter.RunsOuterGaps | src/nxcmd/model.py:67-75 | each run starts more than 600 seconds after the previous run ended |
| Segmenter.SessionsAtLeastTwo | src/nxcmd/model.py:68-83 | every returned session holds at least two commands |
| Segmenter.SessionsLearnable | src/nxcmd/model.py:56-60 | every command in every session is cleaned, non-empty and not a `#` comment |
| Segmenter.SkipRejected | src/nxcmd/model.py:58-79 | a rejected record (undecodable, empty, a comment, or failed) can be removed from the log without changing the sessions |
| Segmenter.AcceptedConcat | src/nxcmd/model.py:39-79 | records are accepted one at a time: the accepted events of two logs laid end to end are those of each |
| Segmenter.SessionTimes | src/nxcmd/model.py:63-65 | with a clock past 1600000000, every kept command's timestamp lies between 1600000000 and `now + 3600` |
| Counters.CountIncrement | src/nxcmd/model.py:136 | `c[k] += n` adds `n` to `k`'s count and leaves every other count alone |
| Counters.SortByCountSpec | src/nxcmd/model.py:198 | the stable sort is by non-increasing count, is a permutation, and keeps the original order within each count |
| Counters.MostCommonSpec | src/nxcmd/model.py:161 | `most_common(n)` returns min(n, size) entries of the Counter, highest count first, and no omitted entry has a larger count than a returned one |
| Counters.MostCommonEntry | src/nxcmd/model.py:161 | every returned entry carries the Counter's count for its command |
| Counters.MostCommonStable | src/nxcmd/model.py:161 | the result is uniquely determined: the first `n` of the only count-ordered arrangement keeping insertion order among ties |
| NGram.CountBump | src/nxcmd/model.py:136 | `transitions[ctx][cmd] += 1` raises that one count by one and changes no other count |
| NGram.BumpValid | src/nxcmd/model.py:133-141 | a bump of a one- or two-command context keeps the table well formed |
| NGram.TrainCounts | src/nxcmd/model.py:119-141 | after training, each (context, command) count has grown by exactly the number of times the command followed that context in the session |
| NGram.TrainValid | src/nxcmd/model.py:119-141 | training keeps the table well formed: distinct contexts of one or two commands, non-empty Counters, positive counts |
| NGram.TrainAllValid | src/nxcmd/model.py:16-23 | training on a sequence of sessions keeps the table well formed |
| NGram.TrainTotal | src/nxcmd/model.py:119-141 | a session of n commands adds n-1 one-command and n-2 two-command transitions to the sum of counts |
| NGram.GitExample | src/nxcmd/model.py:119-141 | `git`, `add`, `git commit`, `git push` teaches `("add",)` and `("git", "add")` to expect `git commit` once, and `("git",)` not at all |
| Predict.GitTable | src/nxcmd/model.py:119-141 | training the session `git`, `add`, `git commit`, `git push` on an empty table gives exactly five contexts, in first-seen order, each holding one command seen once |
| Predict.GitPrediction | src/nxcmd/model.py:143-179 | after that session, `add` with `top_k` 3 predicts exactly `[("git commit", 1)]` |
| Predict.TwoGramSpec | src/nxcmd/model.py:157-162 | the two-command entries come only from a present two-command context, and a present one contributes exactly its `most_common(top_k)`: min(`top_k`, its size) entries by non-increasing count |
| Predict.OneGramSpec | src/nxcmd/model.py:164-171 | one-command entries are added only while fewer than `top_k` were found, and then a present one-command context adds exactly its `most_common(top_k - found)`: min(`top_k` - found, its size) entries |
| Predict.ExactShape | src/nxcmd/model.py:155-171 | the exact answer is the two-command context's `most_common(top_k)` when that context is present, followed, when fewer than `top_k` were found and the one-command context is present, by that context's `most_common` of what is left, and by nothing otherwise; duplicates kept, at most `top_k` in all |
| Predict.ExactTopsUp | src/nxcmd/model.py:164-171 | in a well-formed table, when fewer than `top_k` two-command entries were found and the one-command context is present, the top-up adds at least one entry |
| Predict.ExactTopUpExample | src/nxcmd/model.py:155-171 | two-command context `a b` seen once before `c` and one-command context `b` seen once before `d` give `[c, d]` for `top_k` 3 |
| Predict.ExactEntries | src/nxcmd/model.py:155-171 | in a well-formed table, every exact entry carries its true positive count under the two- or the one-command context |
| Predict.ExactTwoSuffices | src/nxcmd/model.py:165 | when the two-command Counter alone fills `top_k`, the one-command context is not used |
| Predict.ExactEmptyIff | src/nxcmd/model.py:155-174 | in a well-formed table with positive `top_k`, the exact lookups find nothing exactly when neither context is a key |
| Predict.PredictEmptyContext | src/nxcmd/model.py:152-153 | an empty context gives `[]` |
| Predict.PredictSpec | src/nxcmd/model.py:143-179 | at most `top_k` predictions; the exact answer whenever it is non-empty; the fuzzy answer exactly when it is empty |
| Predict.PredictEmptyStore | src/nxcmd/model.py:143-179 | an untrained table predicts nothing, fallback included |
| Predict.CandidatesSpec | src/nxcmd/model.py:183-190 | the candidates are exactly the top-three entries of contexts whose joined text contains a query command longer than two characters |
| Predict.MaxMergeSpec | src/nxcmd/model.py:193-196 | the merge holds each candidate command once, with the largest count seen for it, and invents no entry |
| Predict.FuzzySpec | src/nxcmd/model.py:181-199 | the fuzzy answer has min(`top_k`, number of distinct candidate commands) entries, each command once, by non-increasing count, each a candidate with its command's largest candidate count, and no left-out command has a larger count |
| Predict.FuzzyShortQuery | src/nxcmd/model.py:189 | a query of commands of at most two characters finds nothing fuzzily |
| Stats.CommandTotalsCount | src/nxcmd/model.py:215-218 | each command's total is the sum of its counts over all contexts |
| Stats.CommandTotalsSum | src/nxcmd/model.py:215-218 | the totals add up to the sum of every count in the table |
| Stats.TransitionsBounds | src/nxcmd/model.py:209-211 | number of contexts ≤ number of transitions ≤ sum of all counts |
| Stats.CommandStatsSpec | src/nxcmd/model.py:207-220 | the report counts the contexts, bounds the transitions, and lists min(5, number of commands seen) commands by non-increasing total, each with its true total, none left out with a larger total |
| NxModel.SessionsOfRepairedLines | src/nxcmd/model.py:38-53 | the sessions of a file are those of its non-blank lines in file order, each stripped and quote-repaired before it is decoded; a blank line never reaches the decoder |
| NxModel.BlankLineSkipped | src/nxcmd/model.py:41-43 | a blank line is skipped and changes no session |
| NxModel.LocalWorldModel.constructor | src/nxcmd/model.py:9-14 | the table starts empty |
| NxModel.LocalWorldModel.ParseLogsIntoSessions | src/nxcmd/model.py:25-86 | a missing file gives no sessions; otherwise the sessions of the repaired, decoded lines |
| NxModel.LocalWorldModel.TrainAt | src/nxcmd/model.py:129-141 | one pass of the loop bumps the one-command then the two-command context before position `i` |
| NxModel.LocalWorldModel.TrainOnSession | src/nxcmd/model.py:119-141 | the new table is the old one trained on the session, and stays well formed |
| NxModel.LocalWorldModel.LoadAndTrain | src/nxcmd/model.py:16-23 | the new table is the old one trained on every parsed session in order |
| NxModel.LocalWorldModel.PredictNext | src/nxcmd/model.py:143-179 | the predictions are those of `Predict.PredictNext`, and the table is not changed |
| NxModel.LocalWorldModel.FuzzyPredict | src/nxcmd/model.py:181-199 | gathering, merging and sorting give exactly `Predict.Fuzzy` |
| NxModel.LocalWorldModel.GetCommandStats | src/nxcmd/model.py:207-220 | the returned triple is exactly `Stats.CommandStats` of the table |
| LegacyModel.UndecodableLineSkipped | model.py:31-60 | a line the decoder rejects, such as a blank line, changes no session |
| LegacyModel.SameSessionsWithoutRepair | model.py:29-35 | if the decoder rejects `""` and no line holds a repairable match, both engines find the same sessions |
| LegacyModel.PredictSpec | model.py:98-115 | the legacy prediction is the exact answer, at most `top_k` long, and `[]` for an empty context |
| LegacyModel.NoFallback | model.py:103-115 | in a well-formed table with positive `top_k`, nothing is predicted exactly when neither context is a key |
| LegacyModel.AgreesWithNewer | model.py:98-115 | it equals the newer `predict_next` whenever the exact answer is non-empty; otherwise it is `[]` and the newer one gives the fuzzy answer |
| LegacyModel.LocalWorldModel.constructor | model.py:8-10 | the table starts empty |
| LegacyModel.LocalWorldModel.ParseLogsIntoSessions | model.py:19-66 | a missing file gives no sessions; otherwise the sessions of the decoded lines |
| LegacyModel.LocalWorldModel.TrainAt | model.py:85-96 | one pass of the loop makes the same two bumps as the newer trainer |
| LegacyModel.LocalWorldModel.TrainOnSession | model.py:81-96 | the same `Train` as the newer engine, so the same count increments |
| LegacyModel.LocalWorldModel.LoadAndTrain | model.py:12-17 | the new table is the old one trained on every parsed session |
| LegacyModel.LocalWorldModel.PredictNext | model.py:98-115 | the predictions are `ExactPrediction` of the table |
| Cli.CmdOf | src/nxcmd/cli.py:20-26 | a line contributes only a non-empty, single-spaced cleaned command whose raw text mentions neither `nextcmd` nor `main.py` |
| Cli.LastCommands | src/nxcmd/cli.py:26-28 | the last min(max(n, 1), k) of the k qualifying commands, in order |
| Cli.GetRecentCommands | src/nxcmd/cli.py:8-32 | a missing file gives `[]`; otherwise the reverse scan with its `break` and final reversal returns exactly the last qualifying commands in file order |
| Cli.RecentAreLast | src/nxcmd/cli.py:19-32 | whether the walk reaches the first line or stops at the limit, reversing what it collected gives the last qualifying commands of the file |
| Cli.ReverseIndex | src/nxcmd/cli.py:32 | `reversed` puts element `len - 1 - i` at position `i` |
| Cli.QualifiedFromLines | src/nxcmd/cli.py:22-26 | every selected command is non-empty, single-spaced, and comes from a line of the file that qualifies |
| Cli.OwnInvocationIgnored | src/nxcmd/cli.py:25 | a line whose command mentions `nextcmd` or `main.py` can be removed without changing the result |
| Cli.NewestLast | src/nxcmd/cli.py:19-32 | when anything qualifies, the newest qualifying command comes last in the result, whatever `n` is |
| Cli.CommentsKept | src/nxcmd/cli.py:24-26 | a `#` comment is a recent command here although the session parser rejects it for any exit code |

## Left out

- File I/O is not modelled: `Path.expanduser`, `exists`, `open`, `readlines` and line iteration. The file is given as its lines, with `None` when it does not exist.
- `json.loads` is not modelled; it is the `decode`/`decodeCmd` parameter. The requirement that `decode("")` is `Bad` is stated where it is needed, in `LegacyModel.SameSessionsWithoutRepair`.
- The crashes are not modelled. A non-string `cmd` raises `AttributeError` and a non-object record raises `TypeError`. `int(record["ts"])` (src/nxcmd/model.py:52, model.py:34) raises `TypeError` for a `ts` that is null, an array or an object, and `OverflowError` for an infinite float such as `1e999`. None of these is caught by `except (json.JSONDecodeError, KeyError, ValueError)` (src/nxcmd/model.py:76, model.py:58), so each ends the whole parse. `decode` returns only `Decoded` with a string `cmd` and an integer `ts`, or `Bad`. The model therefore treats such a line as decoded or skipped instead of as a crash.
- `Record.exitCode` is an `int`. A non-integer `exit_code` that is not equal to 0 is rejected like any non-zero code.
- The clock is a single `now` for the whole log. `time.time()` is read once per accepted record (after the filter's `continue`), and that is not modelled.
- The `print` diagnostics are left out, as are `debug_transitions` (printing only), `show_help`, `run_demo`, and the argument dispatch of `main` (src/nxcmd/cli.py:89-158).
- main.py is not part of this model, and neither is the `__main__` block of model.py:123-131. Both are entry points only.
- Only the one pattern `("cmd":")(.*?)(",)` is modelled, with its non-newline, shortest-match and non-overlapping semantics. No regex engine is modelled.
- Whitespace for `split()`/`strip()` and digits for `isdigit()` are the ASCII ones. Unicode whitespace and digits are not modelled.
- `top_k` is a `nat`. A negative `top_k` slices from the end in Python, and that is not modelled. `top_k = 0` gives `[]`.
- The three cleaners (src/nxcmd/model.py:106-117, model.py:68-79, src/nxcmd/cli.py:34-41) have no equality lemma. They are the same text, so the model defines one `Command.CleanCommand` and all three readers use it.
- `_fix_json_line` escapes an already escaped quote a second time (`JsonRepair.EscapeEscapedQuote`). That breaks a well-formed line holding `\"`. The model keeps this behaviour as written.
- No lexicographic tie-break is applied. Ties keep insertion order, as `Counter.most_common` and the stable `sorted` do.
