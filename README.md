# Selective exposed filter — a Dafny model

This project models the core of the "selective" exposed filter handler of the
Views Selective Filters module (`src/Plugin/views/filter/Selective.php`). Such
a filter does not offer every value a field could take. It offers the
distinct values the field actually takes in the rows of the current view.

To find them, `getOids` does the following:

- It runs a copy of the view, restricted to the filter's display field.
- It folds the rows into a key => label array and sorts that array by the
  configured policy.
- It caches the result per filter signature for the rest of the request.

`getValueOptions` serves these options to the exposed form. It memoises them
and drops the `''` key. The copy is flagged with `selective_oids`, and
`getValueOptions` derives nothing inside a flagged view, so the copy never
derives options again (`GetValueOptions`). Separately, `query` keeps the
filter's own current selection from narrowing the copy run for its options
(`DerivationSkipsOwnFilter`).

Modules:

- `OptionTree` models option lists: plain options and named groups of options.
  It holds `filterOriginalOptions`, which narrows the original filter's option
  list to the derived keys, and `array_diff_key`, which removes the `''` key.
- `OptionMap` models an ordered PHP array as a sequence of key/label pairs:
  - `Put` is the assignment `$a[$k] = $v`.
  - The row fold into `$oids` is built from it.
  - The display-field choices of the settings form are built the same way.
- `Sorting` models the sort-policy switch of `getOids`.
- `Selective` models the rest of the handler:
  - the configuration, the signature and the recursion guard;
  - the relationship-coherence check and the derivation;
  - the per-signature cache, as a pure step function;
  - the classes `Request` (the static `$results` cache and the message queue
    of one request) and `SelectiveFilter` (the handler itself).

Modelling choices:

- **Keys.** Array keys are strings. PHP stores an integer key and its decimal
  string as the same key, so the string form stands for both.
- **Row keys.**
  - A NULL raw value becomes the key `''`.
  - A multi-valued raw value is replaced by its first element.
  - An empty multi-valued value gives `reset() === FALSE`, which PHP stores as
    the key `0`.
- **Views engine.** The views engine is a parameter (`Engine`). It supplies:
  - whether the stored view can be instantiated;
  - the field handlers of the display;
  - the rows a run of a copy yields;
  - the comparison PHP's `asort`, `arsort`, `ksort` and `krsort` apply to
    labels and keys.
- **Comparison.** The comparison is left abstract. PHP compares numeric
  strings as numbers (so the key `9` sorts before `10`) and other strings
  byte-wise. Sortedness is proved for every comparison that is total and
  transitive (`TotalPreorder`); permutation and the kept pairs hold for any
  comparison.
- **PHP version.** The code targets Drupal 8 (`drupal_set_message`,
  `SafeMarkup`), which runs on PHP 7. PHP 7 semantics are modelled: `strpos`
  with an empty needle yields FALSE, and `array_diff_key(NULL, …)` yields NULL
  with a warning.
- **Signature.** The signature is the tuple that `getSignature` hashes, not
  its SHA-256 digest. Two equal signatures therefore mean two equal contexts.
- **Original options.** The original filter's option list is a constructor
  parameter. In this version of the code `getOriginalOptions` always yields
  NULL (its body is commented out). Passing the empty list models that case:
  ORIG then yields no options, and `foreach` over NULL yields nothing either.

Behaviours of the code worth noting, which the model follows:

- **Relationship not in the signature.** The signature tuple does not contain
  the filter's relationship (`Selective.php:242-251`). Two filters that differ
  only in their relationship therefore share a signature. Lemma
  `SignatureIgnoresRelationship` states this.
- **Empty results are not cached.** The cache test is
  `empty(static::$results[$signature])` (`Selective.php:264`), so an empty
  stored result counts as a miss and the copy is run again. Lemma
  `EmptyResultRecomputed` states this.
- **Unavailable engine.** When the view cannot be instantiated, `getOids`
  returns NULL. `array_diff_key(NULL, …)` on line 80 yields NULL too, so
  `valueOptions` holds NULL; `isset` then fails and the next call recomputes.

## Model

| member | source | states |
|---|---|---|
| OptionTree.FilterOriginal | src/Plugin/views/filter/Selective.php:429-448 | the narrowed list never contains an empty group, at any depth, and is no longer than the original |
| OptionTree.FilterOriginalLeaves | src/Plugin/views/filter/Selective.php:432-445 | the plain options that survive are exactly the original ones whose key is in the set, in their original order |
| OptionTree.FilterOriginalEmbedded | src/Plugin/views/filter/Selective.php:432-445 | order and nesting of the original list are preserved: the result is the original with entries deleted and groups narrowed the same way |
| OptionTree.FilterOriginalFixpoint | src/Plugin/views/filter/Selective.php:429-448 | a list without empty groups whose options all have allowed keys is returned unchanged |
| OptionTree.FilterOriginalIdempotent | src/Plugin/views/filter/Selective.php:429-448 | narrowing twice by the same key set is the same as narrowing once |
| OptionTree.KeepKeys | src/Plugin/views/filter/Selective.php:442-444 | a key/label pair is kept iff it is in the input and its key is in the set |
| OptionTree.AsLeaves | src/Plugin/views/filter/Selective.php:373 | an array of key => label pairs becomes as many plain options, listing the same pairs in the same order |
| OptionTree.WithoutKey | src/Plugin/views/filter/Selective.php:80 | an entry survives iff it was there and its key differs from the removed key |
| OptionTree.WithoutKeyEmbedded | src/Plugin/views/filter/Selective.php:80 | removing a key keeps the other entries in their order |
| OptionMap.PutShape | src/Plugin/views/filter/Selective.php:373 | assigning to an existing key changes no key and no position; a new key is appended at the end |
| OptionMap.PutKeys | src/Plugin/views/filter/Selective.php:373 | assignment adds its key to the key set and no other key |
| OptionMap.PutPairs | src/Plugin/views/filter/Selective.php:373 | on an array with distinct keys, assignment keeps the keys distinct. The pairs afterwards are the assigned one and the old ones with another key |
| OptionMap.Put | src/Plugin/views/filter/Selective.php:373 | the assignment `$a[$k] = $v`; its properties are `PutShape`, `PutKeys` and `PutPairs` |
| OptionMap.KeyOf | src/Plugin/views/filter/Selective.php:369-370 | the raw value reduced to an array key: NULL gives `''`, a multi-value its first element, an empty one `0` |
| OptionMap.Fold | src/Plugin/views/filter/Selective.php:367-374 | the array after a sequence of assignments; its properties are `FoldDistinct`, `FoldKeys`, `FoldLastWins` and `FoldOrder` |
| OptionMap.Collected | src/Plugin/views/filter/Selective.php:367-374 | `$oids` after the foreach: the fold of the rows' assignments; `CollectOptions` computes it |
| OptionMap.Assignments | src/Plugin/views/filter/Selective.php:368-373 | one key => label assignment per row, in row order, keyed by the row's raw value reduced to a scalar |
| OptionMap.CollectOptions | src/Plugin/views/filter/Selective.php:367-374 | the foreach yields the fold of the row assignments. Its keys are distinct and are exactly the keys the rows assign |
| OptionMap.FoldDistinct | src/Plugin/views/filter/Selective.php:367-374 | the folded array never holds a key twice |
| OptionMap.FoldKeys | src/Plugin/views/filter/Selective.php:367-374 | the folded array holds exactly the keys assigned |
| OptionMap.FoldLastWins | src/Plugin/views/filter/Selective.php:367-374 | a pair is in the array iff it was the last assignment to its key |
| OptionMap.FoldOrder | src/Plugin/views/filter/Selective.php:367-374 | keys are listed in the order of their first assignment |
| Sorting.SortBySorted | src/Plugin/views/filter/Selective.php:378-404 | under a total, transitive comparison the sorted array is sorted by the chosen order |
| Sorting.Insert | src/Plugin/views/filter/Selective.php:378-404 | insertion adds exactly the one pair: the multiset grows by it and by nothing else |
| Sorting.InsertDistinct | src/Plugin/views/filter/Selective.php:378-404 | inserting a pair whose key is new keeps the keys distinct |
| Sorting.InsertSorted | src/Plugin/views/filter/Selective.php:378-404 | inserting into a sorted array keeps it sorted |
| Sorting.SortBy | src/Plugin/views/filter/Selective.php:378-404 | sorting yields a permutation of the array; `SortBySorted` proves it sorted |
| Sorting.SortOptions | src/Plugin/views/filter/Selective.php:377-404 | the policy switch; its properties are `SortOptionsPermutes`, `SortOptionsOrder`, `SortOptionsOriginal` and `UnknownPolicyIsAsc` |
| Sorting.SortByKeepsPairs | src/Plugin/views/filter/Selective.php:378-404 | sorting keeps the same key => label pairs and the distinctness of keys |
| Sorting.SortOptionsPermutes | src/Plugin/views/filter/Selective.php:377-404 | outside ORIG every policy yields the pairs as plain options, a permutation of the array; NONE keeps the array order |
| Sorting.SortOptionsOrder | src/Plugin/views/filter/Selective.php:377-404 | under a total, transitive comparison, ASC and unknown policies sort by label, DESC by label descending, KASC by key, KDESC by key descending |
| Sorting.SortOptionsOriginal | src/Plugin/views/filter/Selective.php:395-397 | ORIG yields the original list narrowed to the array's keys, without empty groups |
| Sorting.UnknownPolicyIsAsc | src/Plugin/views/filter/Selective.php:402-404 | a policy name outside the switch sorts exactly as ASC |
| Sorting.SortKeepsPairs | src/Plugin/views/filter/Selective.php:377-404 | outside ORIG, sorting changes only the order: the same pairs, still with distinct keys |
| Selective.StrposFrom | src/Plugin/views/filter/Selective.php:125 | the search strpos performs from an offset: the first offset at or after it at which the needle occurs, or none when it occurs nowhere |
| Selective.Strpos | src/Plugin/views/filter/Selective.php:125 | PHP 7 strpos: FALSE for an empty needle, otherwise the first offset at which the needle occurs, or FALSE when it occurs nowhere; `BaseFieldCompatible` states the consequence |
| Selective.BaseFieldCompatible | src/Plugin/views/filter/Selective.php:124-126 | two base fields are compatible iff the first is non-empty and a prefix of the second |
| Selective.CompatiblePairs | src/Plugin/views/filter/Selective.php:156-161 | the assignments of the handler loop, in handler order; `CompatiblePairsMembers` shows they are exactly the compatible handlers' id and label |
| Selective.CompatiblePairsMembers | src/Plugin/views/filter/Selective.php:156-161 | a pair is assigned iff it is the id and admin label of a handler whose field starts with the base field |
| Selective.CompatibleStep | src/Plugin/views/filter/Selective.php:156-161 | each handler adds one assignment when compatible and none otherwise |
| Selective.CompatibleOptions | src/Plugin/views/filter/Selective.php:156-161 | the folded choices have distinct ids, exactly the compatible handlers' ids, each with a compatible handler's label |
| Selective.DisplayFieldOptions | src/Plugin/views/filter/Selective.php:156-161 | the loop yields the fold of the compatible handlers' assignments. The choices have distinct ids, exactly the ids of the handlers whose field starts with the (non-empty) base field, each with such a handler's admin label, in the order of the first handler with each id |
| Selective.RelationshipsCoherent | src/Plugin/views/filter/Selective.php:316-320 | the coherence test; `RelationshipSpellings` states its properties |
| Selective.RelationshipSpellings | src/Plugin/views/filter/Selective.php:316-320 | the coherence test is symmetric, and unset, '', '0' and 'none' are interchangeable in it |
| Selective.DerivationSkipsOwnFilter | src/Plugin/views/filter/Selective.php:225-233 | in the copy run for a filter, a filter adds no condition iff its signature is that filter's, and the filter itself is one of them. The copy is flagged as a derivation pass |
| Selective.GetSignature | src/Plugin/views/filter/Selective.php:241-252 | the hashed tuple: view id, arguments, exposed input, and the filter's base field, real field, field, table and admin label; `SignatureIgnoresRelationship` and `DerivationSkipsOwnFilter` state its properties |
| Selective.DerivedView | src/Plugin/views/filter/Selective.php:270-281 | the copy run for a derivation: the same view id, arguments and input, flagged with the filter's signature and limited to the items limit; `DerivationSkipsOwnFilter` states its properties |
| Selective.SignatureIgnoresRelationship | src/Plugin/views/filter/Selective.php:241-252 | the filter's relationship does not enter the signature |
| Selective.FindField | src/Plugin/views/filter/Selective.php:293-308 | the handler found has the requested id; when none is found, no handler has it |
| Selective.LimitReached | src/Plugin/views/filter/Selective.php:407 | the warning's test: a non-zero limit met exactly |
| Selective.Derive | src/Plugin/views/filter/Selective.php:265-404 | the derivation after a miss; `DeriveFailures`, `DeriveSucceeds` and `DeriveOptions` state its properties |
| Selective.DeriveFailures | src/Plugin/views/filter/Selective.php:270-329 | an uninstantiable view, a missing display field and a relationship mismatch each end the derivation with their own error, checked in that order |
| Selective.DeriveSucceeds | src/Plugin/views/filter/Selective.php:270-329 | the copy is run iff the view can be instantiated, the display field exists and the relationships agree. The limit warning is raised iff the limit is non-zero and met exactly |
| Selective.DeriveOptions | src/Plugin/views/filter/Selective.php:367-404 | outside ORIG the options have distinct keys, exactly the row keys, each labelled by the last row with that key. Under NONE, keys follow their first row. Under ORIG the options are the original list narrowed to the row keys |
| Selective.OidsStep | src/Plugin/views/filter/Selective.php:264-415 | the cache step of a call; `CacheHit`, `RepeatedCallHits`, `EmptyResultRecomputed`, `ErrorPathsStoreNothing` and `LimitWarningLogged` state its properties |
| Selective.CacheHit | src/Plugin/views/filter/Selective.php:264 | a non-empty stored result is returned as it is, with no run and no new message |
| Selective.RepeatedCallHits | src/Plugin/views/filter/Selective.php:264-415 | after a call that returned non-empty options, a second call with the same signature returns them again without running the copy |
| Selective.EmptyResultRecomputed | src/Plugin/views/filter/Selective.php:264 | an empty stored result does not count as a hit: the copy runs again |
| Selective.ErrorPathsStoreNothing | src/Plugin/views/filter/Selective.php:271-329 | on a miss, the error paths store nothing and run nothing. A missing field or a relationship mismatch return no options and append exactly one error; an unavailable view returns NULL and logs nothing |
| Selective.LimitWarningLogged | src/Plugin/views/filter/Selective.php:406-415 | a miss that runs the copy stores and returns its options. A warning is appended iff the derivation reached the limit, otherwise no message is added |
| Selective.Request.constructor | src/Plugin/views/filter/Selective.php:33 | a request starts with an empty cache, no messages and no runs |
| Selective.SelectiveFilter.constructor | src/Plugin/views/filter/Selective.php:38-43 | a new handler has no value options and has added no condition |
| Selective.SelectiveFilter.Query | src/Plugin/views/filter/Selective.php:225-233 | the handler adds its IN condition on its table and real field unless the view carries the handler's own signature |
| Selective.SelectiveFilter.GetOids | src/Plugin/views/filter/Selective.php:257-416 | the returned options, cache, messages and run count are those of the cache step applied to the derivation of this filter's context |
| Selective.SelectiveFilter.DeriveOids | src/Plugin/views/filter/Selective.php:265-412 | on a cache miss, the cloning, validation, run, fold, sort, warning and store leave the cache, messages and run count as the cache step prescribes for this filter's derivation |
| Selective.SelectiveFilter.GetValueOptions | src/Plugin/views/filter/Selective.php:66-99 | a set value is returned unchanged. In a derivation pass or an uninitialised view the options are empty and nothing runs. Otherwise the result is the derived options without the '' key, and the view is flagged as using selective filters |

## Left out

- Form building (`buildOptionsForm` beyond the display-field choices, `buildExposeForm`, `valueForm`) is not modelled: it only fills form arrays.
- The rewrite of the copy's display options is not modelled: grouping, distinct, pager, style, row and cache plugins, and the removal of the exposed form. It changes how the external engine runs the copy; the engine's rows are a parameter here.
- `Views::executableFactory`, `setDisplay`, `execute` and `destroy` are not modelled. The engine decides whether the copy can be made and which rows it yields.
- The field handler's `getValue`, the style plugin's `getField` and `SafeMarkup::checkPlain` are not modelled: raw values and rendered labels arrive already computed in each row.
- Message texts, translation by `t()` and placeholder escaping are not modelled. A message is its kind and its substituted values (`Message`).
- `drupal_set_message` suppresses a message already queued in the request (`$repeat = FALSE`). The model does not: every error and warning is appended to the queue.
- SHA-256 and `serialize` are not modelled: equal signatures mean equal contexts, so hash collisions are ignored.
- Sorting.SortOptionsOrder: sortedness is proved only for a comparison that is total and transitive. PHP's comparison of mixed numeric and non-numeric strings need not be transitive, and for it only permutation is proved. The relative order of equal elements is not modelled: the model proves sortedness and permutation, not stability.
- `in_array` in `filterOriginalOptions` compares loosely in PHP; the model compares keys exactly.
- Float and boolean raw values as array keys are not modelled.
- `$this->view` is modelled as a value held by the handler, so aliasing between handlers of the same view object is not captured.
- `getOriginalOptions` is not modelled: its body is commented out and always yields NULL, so the original list is a constructor parameter.
- The InOperator condition's selected values and the parent `query()` are not modelled: `Query` records only which table and field the condition is on.
- The `valueForm` guard against a non-array `valueOptions` is not modelled: it only affects form building.
