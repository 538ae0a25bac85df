# Copy-Domain-Permissions, modelled in Dafny

Copy-Domain-Permissions reads an `icacls` export of NTFS permissions from a source Windows
domain and writes a new export with matching permissions for the accounts of a target domain.
This project models the program's two core files and proves properties of the model:

- **parse.py**, the text pipeline:
  - it pairs the export's lines into (path, payload) records and cuts them into chunks for a
    worker pool;
  - it splits each payload into a DACL header, ACE strings and an audit (`S:`) segment;
  - it collects the domain SIDs (`S-1-5-21-…`) named by the ACE strings;
  - it sorts the looked-up SIDs into unresolved, users and groups, and resolves more SIDs
    against the domains' LDAP group maps;
  - it builds the source-to-target SID table, and rewrites every payload line by adding, after
    each ACE string whose SID has a pairing, a copy naming the target SID.
- **correlate.py**, the interactive matchers:
  - `users` matches source user accounts to target accounts by full name: containment first,
    then the first word, then a name typed by the operator;
  - `groups` turns the domains' group maps round, then matches source groups by name: equal
    with or without a common suffix, containing, sharing a word, or typed.
  - Both keep a list of unmatched records and end with a continue-or-abort question.

The modules follow the program:

| module | file | what it holds |
|---|---|---|
| `Common`, `Strings`, `Seqs`, `Dicts` | common.dfy, strings.dfy, seqs.dfy, dicts.dfy | Python exceptions as values; `split`, `in`, `join`, `str.split()`; filtering and subsequences; insertion-ordered dicts |
| `Chunking` | chunking.dfy | `chunkify`, `build_chunk` |
| `Payload` | payload.dfy | `process_chunk_lines`, `isolate_permissions` |
| `SidExtraction` | sid_extraction.dfy | `process_sids`, `find_unique_sids` |
| `Records`, `Resolution` | records.dfy, resolution.dfy | the positional records as datatypes; `identify_domains` to `separate_users_groups` |
| `Pairing` | pairing.dfy | `make_sid_pairs` |
| `Synthesis` | synthesis.dfy | `match_chunk_perms`, `match_perms` |
| `Operator`, `Correlation` | operator.dfy, correlation.dfy | the operator's answers, the final gate, and the loop both matchers share |
| `UserCorrelation`, `GroupCorrelation` | user_correlation.dfy, group_correlation.dfy | `users`, `groups` |

How the model is built:

- **Python behaviour.**
  - A Python exception is a `Failure(error)` or `Failed(error)` value: ValueError, TypeError,
    IndexError or KeyError, raised where the code raises it.
  - `pool.map` is a sequential map. It keeps the order of the chunks, and any chunk's exception
    is the map's.
  - A dict whose order matters is a sequence of key-value pairs with distinct keys. `d[k] = v`
    keeps an existing key's place; a comprehension lets a later pair overwrite an earlier one.
- **parse.py.** Its loop-and-accumulator functions are methods with loops. Each is proved equal
  to a specification function, and the properties are proved about that function.
- **correlate.py.** It works in place, and the model does too:
  - the records are an `array<Correlated>`, extended in place;
  - `domain_groups` is the field of a `GroupCatalog` object that `groups` rewrites;
  - the unmatched list holds positions into the array, so a record extended after it was listed
    is seen extended, as with Python's list references;
  - the final `not in` compares records by value, as Python's list equality does.
- **The operator.** Prompts read a script of answers, one per prompt:
  - `Pick(i)` for the i-th menu item, `Confirm(b)` for yes or no, `Typed(s)` for a typed line;
  - `sys.exit()` is the `Aborted` outcome;
  - a script that runs out, or gives the wrong kind of answer, gives `Stalled`: the program
    would still be waiting at that prompt.

Behaviours of the code worth noting:

- **Chunk count.** `build_chunk` makes chunks of `len // workers` records, so there are
  ceil(len / size) chunks. The remainder is not folded into the last chunk, and there can be
  more chunks than workers (`Chunking.MoreChunksThanWorkers`). With fewer records than
  workers, the size is 0 and `range` raises ValueError.
- **Odd line count.** An odd trailing line is paired with `None`, not an empty payload.
  `process_chunk_lines` then raises TypeError.
- **User tiers.** The first user tier is containment of the source full name, not equality.
  One candidate is taken without a prompt. The second tier compares the first words of the
  full names.
- **Second-pass resolution.** `second_pass_resolve` sets `unresolved = True` on both branches.
  Its second result is therefore always its whole input, and no SID is dropped from it.
- **Pairing collisions.** The pairing table is a plain dict update. A SID in both lists maps to
  the group's target SID.
- **Group declines.** A declined rough match ("None of these") is not final:
  - the group is listed as unmatched and the manual prompt still follows;
  - if the group is matched there, it is extended but stays excluded from the result;
  - if the manual step is declined too, it is listed twice.
- **Duplicate full names.** When two target users share a full name that contains the source
  full name, the menu shows that name twice. Either pick appends both pairs, so index 8 of the
  record, which `make_sid_pairs` reads as the target SID, holds a full name
  (`UserCorrelation.UserDuplicateFullNames`). The model keeps this behaviour as written.
- **Idempotence.** Synthesis adds nothing when it is run again on its own output, provided the
  target SIDs are domain SIDs without `;` and never themselves a source SID of the table
  (`Synthesis.AugmentIdempotent`). The last condition is needed: with `a -> b` and `b -> c`, the
  second run adds a copy for `c` (`Synthesis.AugmentChainGrows`). The domain-SID condition is
  needed too: only `S-1-5-21-` SIDs count as already named, so a copy naming, say, a builtin
  group `S-1-5-32-544` is added again on every run (`Synthesis.NonDomainTargetGrows`).

## Model

| member | source | states |
|---|---|---|
| Chunking.ChunkifyFlatten | parse.py:13-15 | for a positive chunk size, concatenating the chunks gives back the list |
| Chunking.ChunkifyCount | parse.py:13-15 | there are ceil(len / size) chunks |
| Chunking.ChunkifySizes | parse.py:13-15 | every chunk but the last has exactly `size` elements, the last between 1 and `size` |
| Chunking.PairLinesAt | parse.py:45 | there are ceil(n/2) records; record k pairs line 2k with line 2k+1, or with `None` when line 2k is the last |
| Chunking.PairLinesPadding | parse.py:45 | a record lacks a payload exactly when the line count is odd and it is the last record |
| Chunking.BuildChunkMeaning | parse.py:43-48 | `build_chunk` raises exactly when there are fewer records than workers; otherwise the size is records // workers and the chunks concatenate to the paired records |
| Chunking.MoreChunksThanWorkers | parse.py:46-47 | 5 records and 2 workers give chunk size 2 and 3 chunks |
| Payload.AuditSplit | parse.py:20-25 | the audit segment is empty exactly when the payload has no `S:`, and otherwise starts with `S:` |
| Payload.ProcessChunkLines | parse.py:17-32 | TypeError exactly when some pair lacks a payload; otherwise one record per pair, in order, each the parse of its pair |
| Payload.IsolatePermissions | parse.py:50-55 | TypeError when a pair lacks a payload, ValueError for chunk size 0; otherwise the parsed records of all chunks, flattened and cut again into chunks of the given size |
| Payload.SplitEntriesJoin | parse.py:26-29 | the DACL header followed by the ACE strings is the text they were split from |
| Payload.ParseRoundTrip | parse.py:17-32 | the path is kept, and with at most one `S:` the header, ACE strings and audit segment rebuild the payload exactly |
| Payload.ParseDropsAfterSecondMarker | parse.py:22-25 | with two or more `S:` markers the text from the second marker on is dropped |
| Payload.EntryShape | parse.py:26-29 | every ACE string starts with `(` and holds no other `(` |
| Payload.IsolateKeepsChunks | parse.py:43-55 | after `build_chunk`, re-chunking the parsed records gives chunk k as the parse of input chunk k |
| SidExtraction.ProcessSids | parse.py:34-41 | IndexError exactly when some ACE string lacks `;;;`; otherwise exactly the set of `split(';;;')[1][:-1]` values starting with `S-1-5-21-` |
| SidExtraction.FilesSidsAppend | parse.py:57-64 | the SIDs of two record lists together are the union of their SIDs |
| SidExtraction.FindUniqueSids | parse.py:57-64 | the union over chunks equals extraction over the flattened records, whatever the chunking; IndexError exactly when some ACE string lacks `;;;` |
| Resolution.IdentifyDomains | parse.py:66-72 | a domain is in the result exactly when some resolved record (one longer than 3 fields) carries it |
| Resolution.SeparateUnresolved | parse.py:74-83 | the first list is the records with a truthy name, the second all others, each in input order |
| Resolution.SeparateUnresolvedPartition | parse.py:74-83 | every record lands in exactly one list (multisets add up), and both lists keep the input order |
| Resolution.FirstDomainWith | parse.py:91-92 | the first domain in the dict's order whose group map has the SID; none earlier has it |
| Resolution.GroupLookupMeaning | parse.py:91-94 | no record exactly when no domain knows the SID; otherwise `[sid, binsid, group name, first such domain, 2]` |
| Resolution.LookupGroup | parse.py:91-96 | the inner loop's record is the first domain's lookup, none when no domain knows the SID |
| Resolution.SecondPassMeaning | parse.py:85-99 | at most one record per input, each of type 2 and the lookup of some input |
| Resolution.SecondPassResolve | parse.py:85-99 | the resolved list is the lookups in input order, and the second list always equals the input |
| Resolution.SeparateUsersGroups | parse.py:101-110 | users are the type-1 accounts, groups all others, each in order |
| Resolution.SeparateUsersGroupsPartition | parse.py:101-110 | every account lands in exactly one list, order is kept, and an account is a user exactly when its type is 1 |
| Pairing.ToMapMeaning | parse.py:114-115 | the comprehension holds exactly the given keys, each with the value given last |
| Pairing.MakeSidPairs | parse.py:112-116 | IndexError exactly when some user record has no index 8 or some group record no index 6 |
| Pairing.MakeSidPairsMeaning | parse.py:112-116 | the keys are exactly the source SIDs of the matched users and groups; a group's value wins a collision with a user's |
| Pairing.MakeSidPairsValues | parse.py:114-115 | each value is `user[8]` or `group[6]` of a record with that source SID |
| SidExtraction.CurrentSids | parse.py:123-127 | IndexError exactly when some ACE string lacks `;;;`; otherwise the record's domain SIDs |
| Synthesis.AugmentEntries | parse.py:128-135 | the ACE strings in order, each followed by its retargeted copy exactly when the pairing applies |
| Synthesis.MatchChunkPerms | parse.py:118-137 | IndexError exactly when some ACE string of the chunk lacks `;;;`; otherwise one `path\nheader+entries+audit\n` string per record, in order |
| Synthesis.MatchPerms | parse.py:139-142 | the chunk results, chunk by chunk, or IndexError when any chunk raises |
| Synthesis.AugmentKeepsOriginals | parse.py:128-135 | every original ACE string survives unchanged and in order, so the output is never shorter |
| Synthesis.AugmentMembers | parse.py:128-135 | the output holds exactly the originals and the retargeted copies of the ACE strings whose pairing applies |
| Synthesis.AugmentNoOp | parse.py:128-135 | when no pairing applies, the ACE strings come out unchanged |
| Synthesis.SynthesizeUnchanged | parse.py:121-136 | when no pairing applies, a record is written back as its path line and its rebuilt payload |
| Synthesis.SynthesizeNoOp | parse.py:118-137 | a record parsed from a payload with at most one `S:`, with no applicable pairing, is written back byte for byte |
| Synthesis.RetargetSid | parse.py:135 | the added ACE string is well formed and names the target SID |
| Synthesis.AugmentIdempotent | parse.py:123-135 | with target SIDs that are domain SIDs, free of `;`, and never themselves a source SID of the table, running synthesis again over its own output adds nothing; the first and last conditions are both needed |
| Synthesis.AugmentChainGrows | parse.py:123-135 | with a table `a -> b`, `b -> c`, a record naming only `a` comes out as the ACE and its copy for `b`; a second run over that output adds the copy for `c`, which was not there |
| Synthesis.NonDomainTargetGrows | parse.py:123-135 | with a table `a -> t` where `t` is no domain SID, a record naming only `a` comes out as the ACE and its copy for `t`, and a second run adds that copy once more |
| Synthesis.NotAppliesAgain | parse.py:132-134 | no string of the output triggers a new addition on a second run |
| Synthesis.SingleEntry | parse.py:121-136 | a record with one ACE string gets that string, then its retargeted copy exactly when its SID is a paired domain SID whose target it does not name |
| Synthesis.ScenarioSingleAce | parse.py:121-136 | `(A;OI;FA;;;S-1-5-21-1-1-1-500)` with that SID paired to `S-1-5-21-2-2-2-777` becomes itself followed by `(A;OI;FA;;;S-1-5-21-2-2-2-777)` |
| Dicts.FromPairsMeaning | correlate.py:24 | a dict comprehension holds exactly the given keys, each mapped to the value given last |
| Dicts.InvertMeaning | correlate.py:80 | the inverted map has a key exactly when it was a value, mapped to the last key that carried it |
| Operator.GateMeaning | correlate.py:63-76 | nothing unmatched returns the list untouched; "no" aborts; a missing answer waits; "yes" returns the filter of the records not among the unmatched, that is, in order, exactly those records |
| Correlation.FinishExcludesUnmatched | correlate.py:74 | a record in the unmatched list is never in the returned list, which is a subsequence of the records |
| Correlation.RunStays | correlate.py:26-61 | after an exception, later records are left as they were |
| Correlation.RunGrows | correlate.py:26-61 | when each decision only appends to a record, so does the whole loop |
| Correlation.RunUnmatchedUnchanged | correlate.py:26-61 | when an unmatched decision never touches a record, the unmatched records are as they came in |
| UserCorrelation.FullNameOf | correlate.py:19-22 | none exactly when no template account has the login name; otherwise the full name of the first that does |
| UserCorrelation.FindFullName | correlate.py:19-22 | the inner loop finds that full name |
| UserCorrelation.AddFullNames | correlate.py:18-22 | each record gains the full name of its first template account with the same login name, and only then |
| UserCorrelation.ExactMatches | correlate.py:27-30 | every first-tier pair's full name contains the source full name |
| UserCorrelation.ExactMatchesMembers | correlate.py:27-30 | a pair is a first-tier candidate exactly when it is a target account whose full name contains the source full name |
| UserCorrelation.CollectExact | correlate.py:27-30 | the loop collects exactly those pairs, in catalog order |
| UserCorrelation.RoughMatchesRaises | correlate.py:39-42 | the second tier raises IndexError exactly when some target full name is non-empty and either it or the source full name has no word |
| UserCorrelation.RoughMatchesMeaning | correlate.py:38-42 | otherwise its keys are exactly the full names whose first word is the source's, without repetition, each mapped to a login name of such an account |
| UserCorrelation.CollectRough | correlate.py:38-42 | the loop builds that dict or raises that IndexError |
| UserCorrelation.FirstTierShape | correlate.py:31-35 | the first tier never raises and never leaves a record unmatched; it appends whole target pairs |
| UserCorrelation.SecondTierShape | correlate.py:43-48 | the second tier never raises; the record is listed once, unchanged, exactly when the operator picks "None of these"; any other pick appends exactly `[selected, potential_matches[selected]]`, a pair of a target account |
| UserCorrelation.AllUsersLookup | correlate.py:24 | a full name is a key of `all_users` exactly when some target account has it, and its value is the login name of such an account |
| UserCorrelation.ManualUserShape | correlate.py:50-61 | the record is listed once, unchanged, exactly when the operator declines or types `None`; a typed target full name appends exactly `[typed, all_users[typed]]`, a pair of a target account; it raises KeyError exactly when the typed name is no target full name |
| UserCorrelation.UserDecisionShape | correlate.py:26-61 | a record is listed at most once and then left as it was; a matched record keeps its items and gains whole target pairs |
| UserCorrelation.UserSingleCandidate | correlate.py:31-32 | a single first-tier candidate is taken without a prompt: the record gains its pair and no answer is used |
| UserCorrelation.UserFirstTierWins | correlate.py:31-37 | with any first-tier candidate the later tiers do not run, and several candidates use exactly one answer |
| UserCorrelation.UserUnmatchedWhen | correlate.py:37-61 | a record is unmatched exactly after "None of these" among rough matches, or, with none, after declining or typing `None` |
| UserCorrelation.UserRaisedWhen | correlate.py:20-61 | a decision raises exactly for a record without a full name or a rough tier without words (IndexError), or a typed name that is no target full name (KeyError) |
| UserCorrelation.UserDuplicateFullNames | correlate.py:33-35 | two target users with the same containing full name: either pick appends both pairs, four items |
| UserCorrelation.DecideUserStep | correlate.py:26-61 | the loop body computes the specified decision |
| UserCorrelation.UsersKeepAccounts | correlate.py:16-76 | `users` never alters an account or drops an item, and returns, in order, a selection of the records as they end up |
| UserCorrelation.UsersUnmatchedUntouched | correlate.py:45-61 | an unmatched user is reported exactly as it came out of the first loop |
| UserCorrelation.DecideUsers | correlate.py:26-76 | the decision loop leaves the array holding the records of the specified run and returns its outcome after the gate |
| UserCorrelation.Users | correlate.py:16-76 | the records and the outcome are those of the specification: KeyError for a missing domain, then the decisions in order, then the gate |
| GroupCorrelation.InvertedAllMeaning | correlate.py:79-80 | after the inversion the same domains are there, and a group name is a key exactly when it was a value, mapped to the last SID that carried it |
| GroupCorrelation.GroupCatalog.InvertAll | correlate.py:79-80 | the catalog is inverted in place, domain by domain |
| GroupCorrelation.ExactFrom | correlate.py:86-87 | the first target name equal to the source name with the suffix or without it; none earlier is |
| GroupCorrelation.FindExactGroup | correlate.py:86-91 | the loop finds that first name |
| GroupCorrelation.GroupCandidatesMeaning | correlate.py:93-101 | candidates are target names in order; containment wins, and word overlap counts only when no name contains the source name |
| GroupCorrelation.CollectContaining | correlate.py:95-97 | the loop collects the names containing the source name |
| GroupCorrelation.ShareWord | correlate.py:100 | true exactly when some word of the target name is a word of the source name |
| GroupCorrelation.CollectSharing | correlate.py:98-101 | the loop collects the names sharing a word |
| GroupCorrelation.GroupExactTier | correlate.py:86-91 | an equal name is taken with no prompt: the record gains the first such name and its SID |
| GroupCorrelation.ManualGroupShape | correlate.py:114-125 | the manual step lists the record once more and leaves it as it was exactly when the operator declines or types `None`, or gains a group without listing it; it raises, with KeyError, exactly when the operator confirms and types a name that is neither `None` nor a group |
| GroupCorrelation.GroupDecisionShape | correlate.py:84-125 | the account never changes; a record is left as it was or gains exactly one group pair; it is listed at most twice, never when it gained a pair without "None of these", and twice only when it gained nothing |
| GroupCorrelation.GroupUnmatchedWhen | correlate.py:84-125 | a group record is listed exactly when no name equals the source name, and the operator picks "None of these" and then finishes the manual step without an error, or, with no rough candidate, declines or types `None` |
| GroupCorrelation.GroupNoneOfTheseThenManual | correlate.py:104-125 | "None of these" followed by a typed group: the record gains that group and is still listed once |
| GroupCorrelation.GroupNoneOfTheseTwice | correlate.py:107-125 | "None of these" followed by `None` or by declining lists the record twice |
| GroupCorrelation.DecideGroupStep | correlate.py:84-125 | the loop body computes the specified decision |
| GroupCorrelation.GroupsKeepAccounts | correlate.py:78-141 | `groups` never alters an account and only appends, and returns, in order, a selection of the records as they end up |
| GroupCorrelation.Groups | correlate.py:78-141 | the catalog ends up inverted, and the records and outcome are those of the specification: KeyError for a missing target domain, then the decisions in order, then the gate |

## Left out

- permissions.py is not part of this model. It reads and writes the UTF-16 export files, asks
  for credentials, creates and joins the worker pool, and calls the stages in order.
- w32.py and ldap.py are not part of this model; they are Win32 and LDAP calls. Looked-up SID
  records, user catalogs and group maps are inputs. The binary SID is carried as bytes and never
  inspected.
- Concurrency is left out. The worker pool is a sequential, order-keeping map.
- `print` output is left out, including the five-per-row listing of unmatched names.
- Fuzzy completion at the manual prompt is left out. Only the typed line matters, and it comes
  from the script of answers.
- The group suffix that `groups` reads with `input()` is a parameter.
- A prompt cancelled with Ctrl-C (questionary returning `None`) is not modelled.
- `Stalled` is an artefact of the script of answers. It stands for a prompt still waiting, and
  the program has no such outcome.
- Characters are Dafny characters. `str.split()` uses Python's white-space code points, but
  there is no Unicode normalisation or case folding; `ignore_case` affects only completion.
- Chunking.Chunkify requires a positive size. The ValueError for size 0 is modelled where the
  code reaches it, in `BuildChunk` and `IsolatePermissions`.
- Synthesis.AugmentEntries requires well-formed ACE strings. The code reaches that loop only
  after the `current_sids` loop, which raises IndexError otherwise (modelled in
  `SidExtraction.CurrentSids`).
