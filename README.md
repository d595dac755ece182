# Datafly k-anonymisation, modelled in Dafny

This project models the core of the Datafly anonymiser in `datafly.py`: the method `_Table.anonymize`, its violation measure `compute_count`, and the two row helpers of `CsvTable` that it calls.

Given a table whose first row is the header, a list of quasi-identifier (QI) attribute names, a level of anonymity k and one generalisation hierarchy per QI attribute, `anonymize` proceeds in four steps:

1. It builds a frequency dictionary. The dictionary maps each QI tuple occurring in the data rows to the indices of those rows and a count. Beside it, it fills one domain set per QI index and sets one generalisation level per QI index to 0.
2. It generalises while the rows in groups of fewer than k number more than k. Each round does four things:
   - It picks the QI index with the largest domain, the earliest on a tie.
   - It walks a snapshot of the dictionary's keys. For each key, it replaces the value at that index by its parent in the hierarchy, renaming the key or merging it into an existing one.
   - It sets the chosen domain to the old values it rewrote.
   - It raises that index's level by one.
3. It deletes the groups of fewer than k rows.
4. It reads the table again. It writes every data row that is still in a group, with its QI columns replaced by the group's tuple.

The modules follow those steps:
- `Table` (table.dfy): the header's attribute dictionary and the row helpers `_get_values` and `_set_values`.
- `Frequency` (frequency.dfy): the insertion-ordered dictionary and `compute_count`.
- `Build` (build.dfy): step 1.
- `Generalization` (generalization.dfy): one round of step 2.
- `Suppression` (suppression.dfy): step 3.
- `Publication` (publication.dfy): step 4.
- `Datafly` (datafly.dfy): the whole run, with the end-to-end guarantees.

Representation choices:
- **Dictionary.** A Python dictionary becomes a sequence of keys in iteration order plus a map. Storing under a present key keeps its place; storing under a new key appends it; `pop` and `del` remove the key from both. The order matters because a round walks a snapshot of the keys while it renames and merges them.
- **Row lists.** A row-index list becomes a set. The code only ever asks whether an index is in it, and a merge already turns the list into a set union.
- **Hierarchy.** The hierarchy is a function from attribute name, value and level to `Parent(v)`, `Root` (the hierarchy answers `None`) or `Unknown` (`KeyError`, including a QI name with no hierarchy).
- **Loops.** Two loops are not methods: the loops at datafly.py:103-104 and :109-110, which start every domain empty and every level at 0, are the sequence comprehensions of `Build.Initial`. Every other loop of the core is a method proved equal to a function: a recursive one (`Without`, through `Remainder`) or a comprehension (`AddValues`, `Doomed`). The properties are proved about those functions.

Behaviour of the code that the model keeps:
- **Lookup cache.** The cache of generalised values is looked up by value (datafly.py:162) but filled by attribute index (datafly.py:177), so it never hits. Every lookup is therefore a direct call of the hierarchy.
- **Unchanged value.** A hierarchy that answers a value with the value itself makes the merge branch double the group and then pop it, so the group is lost. `Generalization.StepOntoItselfDropsKey` shows this. The preservation lemmas assume `NoFixpoint`, that no hierarchy does this.
- **Empty domains.** When every domain is empty, no index is chosen (datafly.py:141-149) and the round runs with the index `None`. Resetting `domains[None]` succeeds (datafly.py:153). The first key then raises `TypeError` when it is indexed by `None` (datafly.py:162); with no keys at all, raising the level raises `KeyError(None)` (datafly.py:202). The model reports either as the error `NoAttributeToGeneralize`.
- **Hierarchy `KeyError`.** The run closes the output and returns with nothing written (outcome `Silent`).
- **Blank lines.** The base class ignores blank lines (datafly.py:293-295), but `CsvTable._get_values` discards that result (datafly.py:354). An empty line therefore parses to an empty row, and reading a QI column from it raises `IndexError` (`MissingColumn`). A line holding only spaces or tabs parses to a single field, so it is a row of width 1: reading column 0 succeeds and only a later column raises `IndexError`. The model takes rows as parsed, so both cases follow from the row's width.
- **Header.** The header row is never written back (datafly.py:222).

## Model

| member | source | states |
|---|---|---|
| Table.ReadHeader | datafly.py:348-350 | The loop filling the attribute dictionary yields the schema of the header. |
| Table.SchemaOfFacts | datafly.py:348-350 | The dictionary lists each header name once. It maps exactly the header names, each to the last column that carries it. |
| Table.SchemaOfFirstAppearance | datafly.py:348-350 | The attribute list keeps the header's names in the order each first appears: every occurrence of a later name comes after an occurrence of each earlier one. |
| Table.SchemaOfDistinctHeader | datafly.py:348-350 | With distinct header names, the attribute list is the header and each name maps to its own column. |
| Table.Extract | datafly.py:367-374 | Reading succeeds iff every attribute is a column name whose column exists in the row. Then the values are the row's fields at those columns, one per attribute, in order. |
| Table.ExtractRaisesFirstFailure | datafly.py:368-372 | The first failing attribute decides the exception. An unknown name raises KeyError with that name; a missing column raises IndexError. |
| Table.ExtractAllColumns | datafly.py:221 | Reading every attribute of a header-wide row under a distinct header gives back the row itself. |
| Table.GetValues | datafly.py:352-374 | Row 0 yields nothing. Any other row yields exactly what Extract reads or raises. |
| Table.Substitute | datafly.py:378-379 | Writing succeeds iff every attribute is a column name whose column exists. It keeps the row's length and leaves every other column unchanged. |
| Table.SetValues | datafly.py:376-385 | The write loop gives the row Substitute describes, or its exception. |
| Table.Overlay | datafly.py:378-379 | The reference row keeps the length and every non-QI field. With distinct columns, each QI column holds its value. |
| Table.SubstituteIsOverlay | datafly.py:376-379 | With distinct, present columns, the write loop yields exactly the overlaid row. |
| Frequency.Put | datafly.py:123-126 | Storing under a key keeps the dictionary well formed and maps the key to the new group. A present key keeps its place in the order; a new key goes last. |
| Frequency.Pop | datafly.py:192-196 | Popping keeps the dictionary well formed and removes exactly that key. The other keys keep their relative order. |
| Frequency.Kept | datafly.py:192-196 | The positions of the keys that survive a removal, strictly increasing, each holding the surviving key listed at that place. |
| Frequency.WithoutSubsequence | datafly.py:212-214 | Removing keys leaves the others in their old relative order. |
| Frequency.CountViolations | datafly.py:57-63 | compute_count returns the sum of the counts below k, over the keys in dictionary order. |
| Frequency.ViolationAtMostTotal | datafly.py:57-63 | The violation measure never exceeds the total count. |
| Frequency.ViolationZeroIff | datafly.py:57-63 | With non-empty groups, the measure is 0 iff every group has at least k occurrences. |
| Frequency.TotalIsRowCount | datafly.py:119-126 | When row sets are disjoint and counts match them, the total count is the number of rows. |
| Build.Initial | datafly.py:99-110 | The start state is well formed, with no groups and no rows, and an empty domain and level 0 per QI index. |
| Build.AddToDomains | datafly.py:128-129 | The loop adds each value of a new tuple to the domain of its index. |
| Build.Absorb | datafly.py:117-129 | One row of the pass keeps the state well formed and the levels unchanged, or raises. |
| Build.Built | datafly.py:116-129 | The pass over the first n rows keeps the state well formed with every level 0. |
| Build.Count | datafly.py:119-129 | The loop body for a data row is the Tally update. |
| Build.BuildFrequency | datafly.py:116-129 | The frequency-building loop yields exactly the pass over all rows, including its exception. |
| Build.BuiltErrSticks | datafly.py:116-117 | Once a row raises, the pass has raised that exception. |
| Build.TallyPartition | datafly.py:119-126 | Counting a new row keeps row sets disjoint and counts exact, and adds exactly that row. |
| Build.BuiltPartitionsRows | datafly.py:116-126 | After the pass, every data row is in exactly one group and the header row is in none. Counts equal row-set sizes and no group is empty. |
| Build.BuiltGroupsByValues | datafly.py:116-126 | Every row of a group is a data row whose QI values are the group's key. |
| Build.BuiltDomains | datafly.py:125-129 | After the pass, domain j is exactly the set of j-th components of the keys. |
| Build.BuildRaisesUnknownAttribute | datafly.py:117 | When the table has a data row and the columns of the QI names before it exist in row 1, a QI name missing from the header raises KeyError with that name on row 1. |
| Build.BuiltSucceeds | datafly.py:116-118 | With known QI names and rows wide enough, the pass raises nothing. |
| Generalization.Widest | datafly.py:141-149 | The chosen index has a non-empty domain of maximal size, and every earlier index is strictly smaller. Nothing is chosen iff all domains are empty. |
| Generalization.ChooseAttribute | datafly.py:141-149 | The strict-greater scan from cardinality 0 chooses exactly Widest. |
| Generalization.Step | datafly.py:184-196 | Rewriting one key keeps the dictionary well formed. Only the new key can appear, and every other key stays. |
| Generalization.StepOntoItselfDropsKey | datafly.py:185-192 | A parent equal to the value removes the key and its group. |
| Generalization.StepKeepsPartition | datafly.py:184-196 | With a different parent, a step keeps row sets disjoint and keeps the set of rows. |
| Generalization.StepKeepsCounts | datafly.py:185-189 | With a different parent, a merge sums the counts of two disjoint row sets, so counts stay exact and positive. |
| Generalization.RoundFrom | datafly.py:159-199 | The walk over the rest of a snapshot keeps the dictionary well formed with keys of unchanged width. |
| Generalization.Round | datafly.py:153-202 | A round keeps the state well formed. RoundGeneralizesKeys states the values it writes. |
| Generalization.StepDropsKey | datafly.py:185-196 | The rewritten key leaves the dictionary, by the merge branch's pop or the rename branch's pop. |
| Generalization.RoundFromSettles | datafly.py:159-196 | Every key the walk leaves is a visited root key, or a snapshot key with the hierarchy's answer written at the chosen index. |
| Generalization.RoundGeneralizesKeys | datafly.py:166-196 | After a round, each key is an old key whose value at the chosen index is a root, or an old key whose value there is replaced by the hierarchy's parent of it, every other value unchanged. |
| Generalization.GeneralizeRound | datafly.py:153-202 | The round's loops give exactly Round, with None for the hierarchy's KeyError. |
| Generalization.RoundFromSeen | datafly.py:174-199 | The walk adds to the domain exactly the old values of the keys it rewrites. |
| Generalization.RoundFromAborts | datafly.py:166-171 | The walk is abandoned iff the hierarchy raises for some snapshot key. |
| Generalization.RoundFromKeepsRows | datafly.py:184-196 | Without fixpoints, the walk keeps rows partitioned and counted and keeps their union. |
| Generalization.RoundFromTraced | datafly.py:179-182 | The walk moves each row to a key that differs from its old key only at the chosen index. |
| Generalization.RoundFromKeepsRoots | datafly.py:173-174 | A key the walk skips stays, with at least its rows. |
| Generalization.RoundUpdatesChosenAttribute | datafly.py:153-202 | A round raises only the chosen level, by exactly 1. It sets only the chosen domain, to the old values of the rewritten keys. |
| Generalization.RoundKeepsRoots | datafly.py:173-174 | A key whose value is a root survives the round with at least its rows. |
| Generalization.RoundTracesRows | datafly.py:179-196 | A round changes a row's key only at the chosen index. |
| Generalization.RoundKeepsRows | datafly.py:184-196 | Without fixpoints, a round keeps rows disjoint, counts exact, groups non-empty, the row union and the total count. |
| Generalization.RoundAborts | datafly.py:166-171 | A round is abandoned iff the hierarchy raises for the chosen value of some key. |
| Suppression.Suppressed | datafly.py:207-214 | After suppression, exactly the keys with count >= k remain, each with its group, in the old relative order. |
| Suppression.CollectDoomed | datafly.py:207-210 | The first loop collects exactly the keys whose count is below k. |
| Suppression.DeleteAll | datafly.py:212-214 | Deleting in any order removes exactly the collected keys. |
| Suppression.Suppress | datafly.py:207-214 | The two loops give exactly Suppressed. |
| Suppression.TotalSplits | datafly.py:207-214 | The total count is the violation measure plus the total of the surviving keys. |
| Suppression.SuppressionRemovesViolation | datafly.py:207-214 | Suppression removes exactly the count that compute_count reports. |
| Suppression.SuppressedRows | datafly.py:207-214 | With partitioned rows, exactly as many rows are dropped as the violation measure says. The rest stay partitioned. |
| Publication.EmitKey | datafly.py:226-228 | For one key, the loop body passes over a group that does not hold the row. Otherwise it rewrites the row in place and writes it, or stops with the rewrite's exception, exactly as EmitFor continues. |
| Publication.EmitRow | datafly.py:225-228 | The inner loop writes exactly what EmitFor describes, rewriting the row in place group after group. |
| Publication.Reconstruct | datafly.py:218-228 | The reconstruction loop writes exactly what PublishFrom describes, stopping at the first exception. |
| Publication.ColumnsDistinct | datafly.py:348-350 | Distinct QI names from the header have distinct columns. |
| Publication.EmitForSingle | datafly.py:225-228 | With disjoint groups, a row in no group writes nothing. A row in one group writes exactly its overlay with that group's key. |
| Publication.RowOutputIsOverlay | datafly.py:218-228 | For a data row as wide as a distinct header, with disjoint groups, reconstruction writes nothing when no group holds the row and exactly its overlay with the group's key when one does. |
| Publication.PublishFromIsPublished | datafly.py:218-228 | On a well-formed table with disjoint groups, reconstruction raises nothing. In row order, it writes each grouped data row with only its QI columns replaced by the key, and leaves out the header and suppressed rows. |
| Datafly.Generalize | datafly.py:137-202 | The loop ends with Done only when the violation measure is at most k, and at once when it already is. |
| Datafly.GeneralizeLoop | datafly.py:137-202 | The while loop, re-evaluating compute_count each round, gives exactly Generalize. |
| Datafly.Anonymize | datafly.py:116-228 | The whole method, with its build, generalisation, suppression and reconstruction loops, gives exactly Anonymization. |
| Datafly.GeneralizeKeepsRows | datafly.py:137-202 | Without fixpoints, generalisation keeps the rows partitioned and keeps their union. |
| Datafly.WellFormedPass | datafly.py:116-202 | On a well-formed table the pass succeeds. When generalisation ends, the data rows are partitioned among the groups. |
| Datafly.FinalIsKAnonymous | datafly.py:68-69 | For any table and at least one QI name, whenever generalisation ends: every published group has at least k rows, no row is in two groups, and at most k data rows are suppressed. |
| Datafly.AnonymizationWritesFinal | datafly.py:218-228 | On a well-formed table, the only possible exception is the empty-domains error. A finished run writes exactly the published lines of the final dictionary. |
| Datafly.AnonymizationRaisesUnknownAttribute | datafly.py:368-372 | When the table has a data row and the columns of the QI names before it exist in row 1, an unknown QI name raises KeyError with that name before anything is written. With no data row nothing raises; with an earlier column missing the read raises IndexError instead. |

## Left out

- **File handling.** Opening, seeking and closing the table and output files, and `__init__`/`__del__`/`_init_table`, are not modelled. The table is given as its sequence of parsed rows, and the written lines are returned. A table file without a header line (which makes `_init_table` raise) is excluded by `Anonymize`'s requirement of a non-empty table.
- **CSV text.** Parsing and writing with the `csv` module and `StringIO` are not modelled. A row is the list of fields a CSV reader yields, and a written line is the row list before CSV quoting.
- **Hierarchies.** They are taken as an abstract function. The `dgh` module, `CsvDGH` and `_add_dgh` are not part of this model.
- **Logging.** Logging, the `_DEBUG` flag and the command-line driver are output side effects and plumbing.
- **Exceptions.** Exceptions other than `KeyError`, `IndexError` and the empty-domains crash are not modelled (such as I/O errors).
- **Output after a crash.** The output file after an exception is represented only by the lines written before it.
- Datafly.Anonymize: the rounds of generalisation are bounded by a `fuel` parameter, because the code has no termination measure (levels rise without a bound it knows). The outcome `OutOfRounds` exists only in the model. Every other outcome agrees with the code whenever the code finishes within `fuel` rounds.
- Datafly.FinalIsKAnonymous: it is stated for at least one QI name, as the command line demands one or more; with none, every data row is skipped and nothing is published. It is also stated for a hierarchy that never answers a value with itself. With such an answer, a group and its rows vanish (see `Generalization.StepOntoItselfDropsKey`), so the row count is not preserved.
- Generalization.RoundKeepsRows: it assumes the same no-fixpoint condition, for the same reason.
- **Row lists as sets.** Row lists are sets, so the list order (append order, and the order after `list(set)`) is not represented. Only membership is ever read from it.
