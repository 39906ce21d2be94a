# laravel-auditing: audit presentation, restore suppression and pruning

This project models three parts of the laravel-auditing package in Dafny and proves properties of each.

- **Audit presentation.** This is the `Audit` trait (src/Audit.php).
  - `resolveData` flattens a stored audit row into one ordered PHP array. The array holds ten fixed metadata keys, then `user_<a>` for every arrayable attribute of a loaded user, then `new_<a>` and `old_<a>` for the audit's new and old values.
  - `resolveData` also records which keys are metadata and which are modified. It finds the modified keys with a positional `array_diff_key` over two key lists.
  - `getDataValue` reads values back. It formats them through the user model, or decodes and formats them through the audited model.
  - `decodeAttributeValue` undoes an attribute encoder.
  - `getMetadata` and `getModified` build the presented arrays. `getModified` regroups the modified keys as `attribute => [state => value]`.
  - `getTags` splits the tag column on commas.
- **Restore suppression.** This is the `AuditableObserver` (src/AuditableObserver.php). A static `restoring` flag is raised by `restoring` and lowered by `restored`. While it is up, `updated` does not audit. Every other handler except `restoring` audits once, under its own event name.
- **Retention pruning.** This is `Database::prune` (src/Drivers/Database.php). Given a model and a positive threshold, it deletes the model's audits after the `threshold` newest ones. It reports whether it deleted any row.

Files:

- `php_arrays.dfy` (module `PhpArrays`): PHP ordered arrays with string keys, as sequences of entries with distinct keys. It defines `$a[$k] = $v` and `array_diff_key` on lists.
- `php_strings.dfy` (module `PhpStrings`): `Str::startsWith`, `substr`, and `explode`/`implode` on commas. It also defines `preg_split('/,/', …, PREG_SPLIT_NO_EMPTY)`.
- `audit.dfy` (module `AuditTrait`): the `Audit` class with its `data`, `metadata` and `modified` fields; the pure reading functions; and the lemmas.
- `observer.dfy` (module `Observer`):
  - the `AuditableObserver` class: the static flag and the auditor's log;
  - a step function that specifies each handler;
  - a reference description of the log that a sequence of handler calls produces.
- `database.dfy` (module `DatabaseDriver`): the audits table as an `AuditStore` class, with `Prune` and the delete it issues.

Modelling choices:

- PHP arrays with string keys are `Dict<V>`: sequences of `(key, value)` pairs with no repeated key. Insertion order is kept, as in PHP. `$a[$k] = $v` keeps an existing key in place and appends a new one.
- `array_diff_key(array_keys($this->data), $this->metadata)` compares the two lists' positions, not their elements. The model defines it that way. A lemma then shows that it yields the real set difference, because the metadata keys are a prefix of the data keys.
- Two Eloquent operations are function-valued parameters with no body invented: `getFormattedValue($model, $key, $value)` (mutators, casts, dates) is `Model.format`, and `serializeDate` is a function-valued constant of the audit. A value counts as a date object (`DateTimeInterface`) when it is the `DateTime` constructor of `Value`.
- `substr($key, 4)` follows PHP 8: a start at or past the end gives "".
- A null `TAGS` column is handed to `preg_split` as "" and yields no tags.
- `Auditor::execute($model->setAuditEvent($e))` becomes appending `(model, e)` to the observer's `executed` log.
- The model's threshold (`getAuditThreshold()`) is a parameter of `Prune`.
- The audits table is a sequence of rows already in the newest-first order in which `latest()` reads them.

## Model

| member | source | states |
|---|---|---|
| PhpArrays.Put | src/Audit.php:89 | `$a[$k] = $v`: the key list is unchanged when `k` was present and gains `k` at the end otherwise; `k` then maps to `v`; every other key keeps its value |
| PhpArrays.IndexOf | src/Audit.php:147 | a present key is found at a position holding it, and at no earlier position |
| PhpArrays.GetAt | src/Audit.php:147 | for an array with distinct keys, looking up the key at position `i` finds position `i` and its value |
| PhpArrays.ArrayDiffKeyIsSuffix | src/Audit.php:104 | `array_diff_key` of two lists is the part of the first list past the length of the second |
| PhpArrays.ArrayDiffKeyOfPrefix | src/Audit.php:104 | when `b` is a prefix of a list `a` without repeats, `array_diff_key(a, b)` is what follows `b` in `a`: `b` followed by it is `a`, and an element is in it exactly when it is in `a` and not in `b` |
| PhpArrays.DistinctKeysConcat | src/Audit.php:93-102 | two arrays with no key in common concatenate to an array with distinct keys |
| PhpStrings.SubstrAfterPrefix | src/Audit.php:228-229 | for a key `p + a`, cutting it at the length of `p` gives back `a` as the tail and `p` as the head (`substr($key, 4)` of `new_<a>` with `p` = `new_`, `substr($key, 0, 3)` with `p` = `new`): the attribute and the state of a `new_`/`old_` key are recovered from it |
| PhpStrings.Explode | src/Audit.php:248 | splitting on commas gives at least one piece, and no piece contains a comma |
| PhpStrings.ImplodeExplode | src/Audit.php:248 | joining the pieces with commas gives the string back |
| PhpStrings.ExplodeImplode | src/Audit.php:248 | splitting a comma-join of one or more comma-free words gives the words back |
| PhpStrings.NonEmpty | src/Audit.php:248 | dropping the empty pieces keeps exactly the non-empty pieces of the input: a string is in the result if and only if it is a non-empty piece of the input |
| PhpStrings.NonEmptyConcat | src/Audit.php:248 | dropping the empty pieces keeps the order: the non-empty pieces of `a + b` are those of `a` followed by those of `b` |
| PhpStrings.PregSplitNoEmpty | src/Audit.php:248 | `preg_split` with `PREG_SPLIT_NO_EMPTY` returns only non-empty, comma-free pieces, and a string is among them if and only if it is a non-empty piece of `s` between commas |
| PhpStrings.PregSplitOfImplode | src/Audit.php:248 | splitting a comma-join of non-empty comma-free words gives exactly those words, in order; the empty list joins to "" and splits to none |
| AuditTrait.Audit.ResolveData | src/Audit.php:69-107 | the three loops and the two key assignments leave `data` equal to the ordered concatenation of the metadata block, the user block, the `new_` block and the `old_` block; `metadata` holds the keys before the new values; `modified` holds the `new_`/`old_` keys |
| AuditTrait.MetadataEntriesShape | src/Audit.php:74-91 | the metadata keys are distinct, the fixed block's keys are exactly the ten fixed keys in order, and every metadata key starts with `a`, `U` or `u` |
| AuditTrait.MetadataKeysAre | src/Audit.php:74-93 | `metadata` has `10 + |arrayable|` keys (10 without a user); its first ten are `audit_id` … `USER_MODEL`; `user_<a>` is in it exactly when a user is loaded and `a` is one of the user's arrayable attributes |
| AuditTrait.ResolvedDataDistinct | src/Audit.php:74-102 | no key is inserted twice: metadata, user, new and old keys never collide |
| AuditTrait.PutPrefixedAppends | src/Audit.php:96-101 | each `$this->data['new_'.$key] = $value` (or `old_`) appends a new entry, so the loop builds the prefixed block in order |
| AuditTrait.NewAndOldValuesStored | src/Audit.php:96-102 | for every key `k` of the new values, `data['new_'.k]` exists and is the new value of `k`; likewise `data['old_'.k]` for the old values |
| AuditTrait.MetadataModifiedPartition | src/Audit.php:93-104 | `modified` is exactly the `new_` keys then the `old_` keys, in insertion order; no metadata key is modified; every data key is one or the other |
| AuditTrait.ModifiedKeysOfResolved | src/Audit.php:104 | the positional `array_diff_key` over the resolved keys yields exactly the `new_` keys then the `old_` keys |
| AuditTrait.DecodeAttributeValue | src/Audit.php:177-192 | the value is passed through when the attribute has no modifier or a modifier that is not an encoder; otherwise the encoder's `decode` is applied |
| AuditTrait.GetDataValue | src/Audit.php:141-166 | null for a key absent from `data`; for a `user_` key with a loaded user, the user model's formatting of `substr($key, 5)` and the stored value; the raw value for a `user_` key with no user loaded, for a key with no `user_`, `new_` or `old_` prefix, and for a `new_`/`old_` key when no auditable is loaded |
| AuditTrait.DataValueOfUserAttribute | src/Audit.php:150-152 | on a resolved audit with a loaded user, `getDataValue('user_'.a)` for an arrayable attribute `a` of the user is the user model's formatting of `a` and the user's value of `a` |
| AuditTrait.DataValueOfNewValue | src/Audit.php:154-162 | on a resolved audit, `getDataValue('new_'.k)` is the stored new value, decoded then formatted by the auditable model when one is loaded, and raw otherwise |
| AuditTrait.DataValueOfOldValue | src/Audit.php:154-162 | the same for `old_<k>` and the old values |
| AuditTrait.EncodedNewValueReadsBack | src/Audit.php:185-188 | a new value stored encoded reads back as the formatted original, whenever the encoder's `decode` undoes its `encode` |
| AuditTrait.DataValueOfFixedMetadata | src/Audit.php:165 | each of the ten fixed metadata keys reads back as its stored column, unformatted |
| AuditTrait.ResolvedDataNonEmpty | src/Audit.php:199-201 | resolved data is never empty, so once resolved it is not resolved again |
| AuditTrait.Audit.GetMetadata | src/Audit.php:197-214 | data is resolved only while empty, and a resolved audit's state is unchanged, so repeated calls return the same array; the result's keys are exactly `metadata`, in order; each holds the presented `getDataValue` of its key, with date objects serialized |
| AuditTrait.Audit.GetModified | src/Audit.php:219-239 | data is resolved only while empty; the result is the modified keys regrouped by attribute; its attributes are those of the new and the old values; `[a]['new']` exists exactly when `a` has a new value and `[a]['old']` exactly when `a` has an old value; each holds the presented `getDataValue` of `new_<a>` or `old_<a>` |
| AuditTrait.PresentedModified | src/Audit.php:227-236 | the regrouping of a resolved audit's modified keys has the attribute set, the `new`/`old` presence and the values that `GetModified` promises |
| AuditTrait.PresentedModifiedEntries | src/Audit.php:227-231 | the modified keys paired with their presented values have distinct keys, exactly the modified keys in order |
| AuditTrait.AddModifiedShape | src/Audit.php:233 | `$modified[$attribute][$state] = $value` adds the attribute and the state under it, holding the value, and keeps every other attribute/state pair and its value |
| AuditTrait.GroupShape | src/Audit.php:227-236 | an attribute is a key of the regrouping exactly when some entry names it; a state is a key under it exactly when some entry names both |
| AuditTrait.GroupValues | src/Audit.php:227-236 | when no two entries name the same attribute and state, each entry's value is found under its attribute and state |
| AuditTrait.ModifiedShape | src/Audit.php:227-236 | regrouping the modified keys gives the attributes of the new and old values; `new` is under an attribute exactly when it has a new value, `old` exactly when it has an old value, and no other state occurs |
| AuditTrait.ModifiedValues | src/Audit.php:227-236 | under attribute `a`, `new` holds the entry of `new_<a>` and `old` the entry of `old_<a>` |
| AuditTrait.ModifiedNamesAttribute | src/Audit.php:228 | `substr($key, 4)` of some modified key is `a` exactly when `a` has a new or an old value |
| AuditTrait.ModifiedNamesPair | src/Audit.php:228-229 | some modified key names attribute `a` with state `s` exactly when `s` is `new` and `a` has a new value, or `s` is `old` and `a` has an old value |
| AuditTrait.GetTags | src/Audit.php:246-249 | every tag is non-empty and comma-free; a null column gives no tags; for a stored column, a string is a tag if and only if it is a non-empty piece of the column between commas |
| AuditTrait.TagsSkipEmptyPieces | src/Audit.php:248 | a column `a,,b,` with empty pieces between and after its tags reads back as exactly `a` then `b` |
| AuditTrait.TagsOfJoinedWords | src/Audit.php:248 | tags stored as a comma-join of non-empty comma-free words, as the test factory stores them, read back as those words in order |
| Observer.AuditableObserver.Retrieved | src/AuditableObserver.php:24-27 | audits once as `retrieved`, whatever the flag; the flag is unchanged |
| Observer.AuditableObserver.Created | src/AuditableObserver.php:36-39 | audits once as `created`, whatever the flag; the flag is unchanged |
| Observer.AuditableObserver.Updated | src/AuditableObserver.php:48-54 | audits once as `updated` when the flag is down and not at all when it is up; the flag is unchanged |
| Observer.AuditableObserver.Deleted | src/AuditableObserver.php:63-66 | audits once as `deleted`, whatever the flag; the flag is unchanged |
| Observer.AuditableObserver.Restoring | src/AuditableObserver.php:75-81 | raises the flag and audits nothing |
| Observer.AuditableObserver.Restored | src/AuditableObserver.php:90-97 | audits once as `restored`, then leaves the flag down |
| Observer.AlwaysAudited | src/AuditableObserver.php:24-97 | `retrieved`, `created`, `deleted` and `restored` each add exactly one audit with their own event name, whatever the flag |
| Observer.UpdatedAuditedIffNotRestoring | src/AuditableObserver.php:48-54 | `updated` adds an `updated` audit exactly when the flag is down, and leaves the flag as it was |
| Observer.FlagBeforeNext | src/AuditableObserver.php:75-97 | the flag after a call is up after `restoring`, down after `restored`, and unchanged after any other handler |
| Observer.RunPrefix | src/AuditableObserver.php:15-97 | after any prefix of a call sequence, the flag is up exactly as the reference description says (a `restoring` with no `restored` since, or up from the start with no `restored`), and the log grew by exactly the reference audits |
| Observer.RunLog | src/AuditableObserver.php:15-97 | a whole call sequence appends exactly the audits of the calls other than `restoring` and other than an `updated` that comes while the flag is up, in call order |
| Observer.RestoreCycle | src/AuditableObserver.php:75-97 | `restoring; updated; restored` on one model adds exactly one audit, `restored`, and ends with the flag down, whatever the flag was before |
| Observer.SuppressedUntilRestored | src/AuditableObserver.php:80-96 | once the flag is up, calls without a `restored` keep it up and add no `updated` audit, while the earlier log is kept |
| DatabaseDriver.AuditStore.Prune | src/Drivers/Database.php:25-42 | with a threshold of zero or less, nothing is deleted and the result is false; otherwise the rows are those left by deleting the model's audits past the `threshold` newest; the model keeps exactly its `min(count, threshold)` newest audits, in order; no other model's audits change; the result is true exactly when a row was deleted, which is exactly when the model had more than `threshold` audits |
| DatabaseDriver.AuditStore.DeleteWhereIn | src/Drivers/Database.php:35-37 | removes exactly the model's rows whose id is in the list, keeps the ids of the table distinct, and returns how many rows went |
| DatabaseDriver.PruneEffect | src/Drivers/Database.php:27-37 | with a positive threshold and distinct ids, the model keeps its `min(count, threshold)` newest audits in order; `count - min(count, threshold)` rows are deleted; the removal list is empty exactly when the model has at most `threshold` audits; other models' audits are unchanged; ids stay distinct |
| DatabaseDriver.WithoutSuffixIds | src/Drivers/Database.php:28-32 | removing the ids of every audit after the first `t`, from audits with distinct ids, keeps exactly the first `t` |
| DatabaseDriver.OwnAuditsAfterDelete | src/Drivers/Database.php:35-36 | after the delete, the model's audits are its former audits minus those whose id is in the list, in order |
| DatabaseDriver.DeleteCount | src/Drivers/Database.php:35-37 | the delete removes as many rows as the model's audits lose |
| DatabaseDriver.OthersUntouched | src/Drivers/Database.php:35-36 | the delete leaves the audits of every other model as they were |
| DatabaseDriver.RemainingMembers | src/Drivers/Database.php:35-36 | a row survives the delete exactly when it is not one of the model's rows with an id in the list |
| DatabaseDriver.AuditsOfMembers | src/Drivers/Database.php:28 | the model's audits are exactly the table rows that belong to it |
| DatabaseDriver.DeleteNothing | src/Drivers/Database.php:34-41 | an empty removal list deletes nothing |
| DatabaseDriver.RemainingDistinct | src/Drivers/Database.php:35-36 | the delete keeps the ids distinct |

## Left out

- The `$json` branch of `getMetadata` and `getModified`: `json_encode` is a foreign call. Only the array result is modelled.
- `getFormattedValue` and `serializeDate`: Eloquent mutators, casts and date handling. They are uninterpreted functions, so nothing is proved about what they return.
- The configuration lookups `audit.user.morph_prefix`, `audit.implementation` and `audit.drivers.database.table`. The morph columns `<prefix>_id` and `<prefix>_type` are fields of the stored row.
- The ORM plumbing: the `AUDITABLE()` and `user()` relations, `getConnectionName` and `getTable`. The relations are loaded-or-absent models.
- `Database::audit`, which creates a row. The SQL of `latest()` and `delete()` is left out too: the table is a sequence already in newest-first order, and the delete is a filter.
- `Auditor::execute` and the auditing pipeline behind it. The model records only that an execution of (model, event) was requested.
- Observer.AuditableObserver.Restored: an exception thrown by `Auditor::execute` is not modelled; every execution succeeds. In `restored` the flag is lowered only after `Auditor::execute` returns, so an exception there would leave the flag raised and every later `updated` unaudited, which the model does not capture.
- The `Auditable` trait, the attribute redactor and encoder classes, and the resolvers. Their code is not part of this model. An encoder is a pair of opaque functions, and a redactor is the non-encoder modifier.
- Concurrent use of the static restoring flag. The model has one sequential observer whose flag is shared by every model it observes.
- The PHP 7 behaviour of `substr` past the end of a string, which returned `false` and not "".
- PHP's conversion of numeric-string array keys to integers. Keys are plain strings throughout.
- Values are reduced to null, booleans, integers, strings and date objects. Arrays and objects as attribute values are not modelled.
- AuditTrait.Audit.GetModified: by calling the grouping step `AddModified`, the loop models `$modified[$attribute][$state] = …` as one update of an immutable value, not as PHP's nested in-place array write.
