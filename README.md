# Completion-parameter resolver and Excel row folding, in Dafny

This project models two small pieces of a chat/app-building tool and proves
properties of them.

1. **The model parameter modal** (`ModelParameterModal`, over the JavaScript
   value model in `JsValue`). The modal keeps a map from parameter name to value
   (`FormValue`). Each handler builds a new map and passes it to
   `onCompletionParamsChange`; the model returns that map, or `None` when the
   handler passes nothing. The handlers are:
   - setting one parameter (`handleParamChange`);
   - switching an optional parameter on or off (`handleSwitch`);
   - reconciling the map with the model's ordered parameter rules
     (`handleInitialParams`);
   - merging a preset tone (`handleSelectPresetParameter`).

   The model also covers the values the modal derives: the request key for the
   rules, the rule list with its empty default, the rendered rule list with the
   synthetic `stop` rule, the three availability gates, and the model-change
   lookup. `handleInitialParams` and `handleSwitch` mutate a copied map in the
   source, so they are methods proved against the functions `InitializeFrom`
   and `Switched`. The other handlers and derived values are spread or `find`
   expressions in the source, so they are functions.

2. **`ExcelLoader.load`** (`ExcelLoader`). A workbook is a sequence of sheets,
   a sheet a sequence of rows, a row a sequence of cells. `Load` keeps the
   source's nested loops over sheets and rows. Its loop variables `keys` and
   `data` are tied to a left fold (`FoldRows`) over the flattened rows. Lemmas
   relate the fold to a closed form: the first non-blank row of the whole
   workbook is the header, and each later non-blank row is one record. JSON
   encoding is a function parameter `encode`. A record is the Python dict,
   kept as (key, value) pairs in insertion order.

Three behaviours of the code are worth stating outright, because a reader might
expect otherwise:
- Re-initialization never removes a key that no rule names (`OrphanKeyIsKept`,
  `InitializeFromKeepsUnnamed`).
- For a key that a rule names, the code tests truthiness
  (`!newCompletionParams[name]`), not presence. A truthy value is kept; a stored
  `0`, `''` or `false` counts as missing and is replaced by the rule's default, or
  removed when that default is `null` or `undefined` (`InitializeFromWritesDefault`,
  `FalsyValueIsOverwritten`). Keys that no rule names keep whatever value they
  had, falsy or not.
- The code has no step that discards a stale rules response by comparing request
  keys; only the null-key guard on the fetch is modelled.

## Model

| member | source | states |
|---|---|---|
| ModelParameterModal.RulesRequestKey | web/app/components/header/account-setting/model-provider-page/model-parameter-modal/index.tsx:92 | A request key exists iff provider and model id are both non-empty; it is the fixed path prefix, then the provider, then the model id at the end |
| ModelParameterModal.RulesRequestKeyInjective | web/app/components/header/account-setting/model-provider-page/model-parameter-modal/index.tsx:92 | For provider names without '/', equal request keys imply equal (provider, modelId) pairs, so the key identifies the selection |
| ModelParameterModal.ParameterRules | web/app/components/header/account-setting/model-provider-page/model-parameter-modal/index.tsx:105-107 | With no response, or a response without a list, the rule list is empty; otherwise it is the fetched list unchanged |
| ModelParameterModal.RenderedRules | web/app/components/header/account-setting/model-provider-page/model-parameter-modal/index.tsx:253-256 | Nothing is rendered while loading or with no rules; otherwise the fetched rules in order, followed by the stop rule exactly when advanced mode is on |
| ModelParameterModal.ParamChanged | web/app/components/header/account-setting/model-provider-page/model-parameter-modal/index.tsx:109-114 | The key is set to the value (present before or not); every other key keeps its value; no other key appears |
| ModelParameterModal.Switched | web/app/components/header/account-setting/model-provider-page/model-parameter-modal/index.tsx:127-140 | Switching on equals setting the key to the assigned value; switching off removes exactly that key and keeps every other entry |
| ModelParameterModal.HandleSwitch | web/app/components/header/account-setting/model-provider-page/model-parameter-modal/index.tsx:127-140 | The copy-and-delete or spread the handler performs emits exactly the switched map |
| ModelParameterModal.SwitchOnThenOff | web/app/components/header/account-setting/model-provider-page/model-parameter-modal/index.tsx:127-140 | Switching on then off leaves no entry for the key and equals switching off directly |
| ModelParameterModal.SwitchOffThenOn | web/app/components/header/account-setting/model-provider-page/model-parameter-modal/index.tsx:127-140 | Switching off then on equals a direct parameter change |
| ModelParameterModal.KeyStep | web/app/components/header/account-setting/model-provider-page/model-parameter-modal/index.tsx:146-151 | A truthy current value is kept; otherwise the result is the rule's default when that default is neither null nor undefined, and no entry when it is |
| ModelParameterModal.ApplyRule | web/app/components/header/account-setting/model-provider-page/model-parameter-modal/index.tsx:145-152 | One rule changes only the entry under its own name, and that entry becomes KeyStep of the old one |
| ModelParameterModal.InitializeFrom | web/app/components/header/account-setting/model-provider-page/model-parameter-modal/index.tsx:143-152 | With no rules the map is unchanged; every key of the result was in the old map or is named by a rule |
| ModelParameterModal.InitialParams | web/app/components/header/account-setting/model-provider-page/model-parameter-modal/index.tsx:142-156 | Nothing is emitted exactly when the rule list is empty; otherwise the emitted map is the initialization |
| ModelParameterModal.HandleInitialParams | web/app/components/header/account-setting/model-provider-page/model-parameter-modal/index.tsx:142-156 | The loop emits nothing for an empty rule list and otherwise emits the rules applied in list order to a copy of the map |
| ModelParameterModal.InitializeFromPointwise | web/app/components/header/account-setting/model-provider-page/model-parameter-modal/index.tsx:143-152 | Each key of the result depends only on that key's old entry and the rules with that name, in order |
| ModelParameterModal.ResolveKeepsTruthy | web/app/components/header/account-setting/model-provider-page/model-parameter-modal/index.tsx:146 | A truthy value survives every rule |
| ModelParameterModal.ResolveUnnamed | web/app/components/header/account-setting/model-provider-page/model-parameter-modal/index.tsx:145-152 | An entry that no rule names is untouched |
| ModelParameterModal.ResolveForgetsFalsy | web/app/components/header/account-setting/model-provider-page/model-parameter-modal/index.tsx:146-151 | Once a rule names the key, which falsy or missing value was there makes no difference |
| ModelParameterModal.ResolveIdempotent | web/app/components/header/account-setting/model-provider-page/model-parameter-modal/index.tsx:145-152 | Resolving one key twice against the same rules equals resolving it once |
| ModelParameterModal.InitializeFromIdempotent | web/app/components/header/account-setting/model-provider-page/model-parameter-modal/index.tsx:142-156 | Re-initializing the result with the same rule list changes nothing |
| ModelParameterModal.InitializeFromKeepsUnnamed | web/app/components/header/account-setting/model-provider-page/model-parameter-modal/index.tsx:143-152 | Keys that no rule names keep their entries, present or absent; orphan keys are never removed |
| ModelParameterModal.InitializeFromKeepsTruthy | web/app/components/header/account-setting/model-provider-page/model-parameter-modal/index.tsx:146 | A truthy user value is never overwritten |
| ModelParameterModal.ResolveSingleRule | web/app/components/header/account-setting/model-provider-page/model-parameter-modal/index.tsx:145-151 | When exactly one rule names a key, the key resolves as that rule alone decides |
| ModelParameterModal.InitializeFromWritesDefault | web/app/components/header/account-setting/model-provider-page/model-parameter-modal/index.tsx:145-151 | For a key exactly one rule names: a truthy value is kept; otherwise the key takes the rule's default when it is neither null nor undefined, and is absent when it is |
| ModelParameterModal.ResolveValueOrigin | web/app/components/header/account-setting/model-provider-page/model-parameter-modal/index.tsx:145-151 | Any value a key resolves to is its old value or the default of a rule with that name |
| ModelParameterModal.InitializeFromValueOrigin | web/app/components/header/account-setting/model-provider-page/model-parameter-modal/index.tsx:145-151 | Every entry of the result was in the old map or is the default of a rule with that name |
| ModelParameterModal.FalsyValueIsOverwritten | web/app/components/header/account-setting/model-provider-page/model-parameter-modal/index.tsx:146-148 | A stored temperature of 0 is replaced by the rule default 0.7 |
| ModelParameterModal.DefaultsFillEmptyParams | web/app/components/header/account-setting/model-provider-page/model-parameter-modal/index.tsx:145-151 | An empty map gains the temperature default; top_p, which has no default, stays absent |
| ModelParameterModal.OrphanKeyIsKept | web/app/components/header/account-setting/model-provider-page/model-parameter-modal/index.tsx:143-155 | With rules that do not name max_tokens, an existing max_tokens entry stays and the truthy temperature is kept |
| ModelParameterModal.FindFirst | web/app/components/header/account-setting/model-provider-page/model-parameter-modal/index.tsx:163 | The result is None iff no element satisfies the predicate; otherwise it is the first satisfying position |
| ModelParameterModal.MergeConfig | web/app/components/header/account-setting/model-provider-page/model-parameter-modal/index.tsx:165-168 | The merged keys are the union; config keys take the config's values and the rest keep the old values |
| ModelParameterModal.SelectPresetParameter | web/app/components/header/account-setting/model-provider-page/model-parameter-modal/index.tsx:162-170 | Nothing is emitted iff no tone has the id; otherwise the emitted map is the old map overridden by the first matching tone's config |
| ModelParameterModal.PresetMergeExample | web/app/components/header/account-setting/model-provider-page/model-parameter-modal/index.tsx:162-170 | The preset {temperature 0.2, top_p 0.9} applied to {temperature 0.9, frequency_penalty 0.1} yields all three keys with the preset winning |
| ModelParameterModal.PresetsLastWriterWins | web/app/components/header/account-setting/model-provider-page/model-parameter-modal/index.tsx:165-168 | Across two presets applied in turn, the later one wins on its keys and the earlier one's other keys remain |
| ModelParameterModal.PresetIdempotent | web/app/components/header/account-setting/model-provider-page/model-parameter-modal/index.tsx:162-170 | Applying the same preset twice equals applying it once |
| ModelParameterModal.ComputeGates | web/app/components/header/account-setting/model-provider-page/model-parameter-modal/index.tsx:101-103 | hasDeprecated iff the provider or model entry is missing; modelDisabled iff the model is not present and active; the modal is enabled iff an API key is set and both entries are present and active |
| ModelParameterModal.TargetModel | web/app/components/header/account-setting/model-provider-page/model-parameter-modal/index.tsx:117-118 | A found entry has the model name, and is the first entry with that name in the first provider with the name; when no provider has the name nothing is found |
| ModelParameterModal.TargetModelNone | web/app/components/header/account-setting/model-provider-page/model-parameter-modal/index.tsx:117-118 | No entry is found iff no provider has the name, or the first provider with the name lists no model with that name |
| ModelParameterModal.ChangeModel | web/app/components/header/account-setting/model-provider-page/model-parameter-modal/index.tsx:116-125 | Provider and model pass through; mode and features come from the entry found, and degrade to undefined and the empty list when there is none |
| JsValue.Truthy | web/app/components/header/account-setting/model-provider-page/model-parameter-modal/index.tsx:146 | Arrays are always truthy; a truthy value is none of false, 0 and the empty string |
| JsValue.IsNullOrUndefined | web/app/components/header/account-setting/model-provider-page/model-parameter-modal/index.tsx:147 | null and undefined are both falsy |
| JsValue.Index | web/app/components/header/account-setting/model-provider-page/model-parameter-modal/index.tsx:146 | A missing key reads as undefined; a present key reads as its value |
| ExcelLoader.Truthy | api/core/data_loader/loader/excel.py:40 | A truthy cell is none of None, 0, the empty string and False |
| ExcelLoader.CellToString | api/core/data_loader/loader/excel.py:37 | `str(None)` is "None", and a text cell is its own text |
| ExcelLoader.IsBlank | api/core/data_loader/loader/excel.py:34 | An empty row counts as blank, since `all` of nothing is true |
| ExcelLoader.Header | api/core/data_loader/loader/excel.py:37 | The header has one name per cell, each the cell's string |
| ExcelLoader.Zip | api/core/data_loader/loader/excel.py:39 | The pairs stop at the shorter of header and row, and pair i is (header name i, cell i) |
| ExcelLoader.Insert | api/core/data_loader/loader/excel.py:39 | An existing key keeps its position and takes the new value; a new key is appended; afterwards the key maps to the new value and every other key is unchanged |
| ExcelLoader.DictFromPairs | api/core/data_loader/loader/excel.py:39 | The dict built from the zipped pairs has unique keys, and each key maps to the value of its last pair |
| ExcelLoader.DictFromPairsKeyOrder | api/core/data_loader/loader/excel.py:39 | The dict's keys are the header names in order of first occurrence, later repeats dropped |
| ExcelLoader.FirstOccurrences | api/core/data_loader/loader/excel.py:39 | Each name of the input appears exactly once in the result, and nothing else |
| ExcelLoader.DropFalsy | api/core/data_loader/loader/excel.py:40 | Every remaining pair is a pair of the input and its value is truthy; with unique keys, a key keeps its value exactly when that value is truthy; a single pair is kept exactly when its value is truthy |
| ExcelLoader.DropFalsyKeepsOrder | api/core/data_loader/loader/excel.py:40 | Filtering distributes over concatenation, so the kept pairs stay in their original order |
| ExcelLoader.RowRecord | api/core/data_loader/loader/excel.py:39-40 | A record has unique keys and no falsy value |
| ExcelLoader.RowRecordGet | api/core/data_loader/loader/excel.py:39-40 | A record maps a header name to the cell of the last column with that name within the zip range, and to nothing if that cell is falsy or there is no such column |
| ExcelLoader.RowRecordGetSome | api/core/data_loader/loader/excel.py:39-40 | A header name maps to a cell iff some column below min(header length, row length) pairs them, no later column in range repeats the name, and the cell is truthy |
| ExcelLoader.NonBlank | api/core/data_loader/loader/excel.py:34-35 | Every row kept is a non-blank row of the input, no more rows than the input; a single row is kept exactly when it is not blank |
| ExcelLoader.NonBlankComplete | api/core/data_loader/loader/excel.py:34-35 | Every non-blank row of the input is kept |
| ExcelLoader.NonBlankKeepsOrder | api/core/data_loader/loader/excel.py:34-35 | Skipping blank rows distributes over concatenation, so the kept rows stay in their original order |
| ExcelLoader.Step | api/core/data_loader/loader/excel.py:34-41 | A blank row changes nothing; a non-blank row sets the header when none is set and otherwise adds exactly one record; a set header never changes |
| ExcelLoader.FoldRowsNoHeader | api/core/data_loader/loader/excel.py:34-38 | The header stays unset exactly while every row so far is blank, and no record exists before it is set |
| ExcelLoader.FoldRowsIsExpected | api/core/data_loader/loader/excel.py:32-41 | The loop's state equals: header = first non-blank row stringified, records = one per later non-blank row; nothing when all rows are blank |
| ExcelLoader.LoadRecordsShape | api/core/data_loader/loader/excel.py:32-41 | The record count is the number of non-blank rows minus one (zero if none), and record i comes from non-blank row i+1 under the header |
| ExcelLoader.FoldRowsAfterHeader | api/core/data_loader/loader/excel.py:36-41 | Once the header is set it never changes, and each further non-blank row appends one record |
| ExcelLoader.HeaderNotResetPerSheet | api/core/data_loader/loader/excel.py:32-37 | A later sheet keeps the earlier header, and all of its non-blank rows, the first included, become records |
| ExcelLoader.Load | api/core/data_loader/loader/excel.py:27-43 | The nested loops return exactly one document, whose content is the encoded records of the fold joined with "\n\n" |
| ExcelLoader.StepEncoded | api/core/data_loader/loader/excel.py:34-41 | One loop iteration leaves `keys` and the encoded `data` exactly as one fold step over the row leaves them |
| ExcelLoader.Join | api/core/data_loader/loader/excel.py:43 | No parts give the empty string and one part gives itself; two parts give the first, the separator, then the second; the result starts with the first part and ends with the last |
| ExcelLoader.JoinConcat | api/core/data_loader/loader/excel.py:43 | Joining two non-empty runs of parts equals joining each and putting exactly one separator between them |
| ExcelLoader.NoDataRowsEmptyContent | api/core/data_loader/loader/excel.py:43 | A workbook with at most one non-blank row yields empty content |

## Left out

- The rules fetch itself, its caching, its loading flag and stale responses: these belong to the `useSWR` library, which is not part of this model. Only the request-key guard and the `data || []` default are modelled. `isLoading` is an input of `RenderedRules`.
- React's effect scheduling (lines 158-160): re-initialization is modelled as an explicit call to `HandleInitialParams` with the new rule list.
- All rendering (lines 172-288): the popup and its open state, translations, class names, the debug-mode toggle, and showing the preset picker only for `PROVIDER_WITH_PRESET_TONE`.
- The contents of `TONE_LIST`, the values of `ModelStatusEnum` beyond `active` (each is one `OtherStatus`, whose name is never `active`), and the hook that picks the current provider and model: these are not part of this model. They are inputs: a tone table, a model status, the current provider and model entries, and the catalog.
- `isNullOrUndefined` (from the modal's utils) is not part of this model. It is taken to be `v === null || v === undefined`.
- JavaScript values: NaN, -0 and plain objects are not modelled. Numbers are reals, and an absent rule default is `undefined`.
- JavaScript property lookup: a rule name that hits an inherited property (`constructor`, `__proto__`) is not modelled. A missing key reads as `undefined`.
- The key order of the JavaScript parameter object: `FormValue` is an unordered map.
- web/app/components/app/overview/show-recharge.tsx: a presentation modal with storage and window side effects, no logic.
- Opening the workbook with openpyxl, and file I/O: `Load` receives the rows already read.
- ExcelLoader.Load: cells are `None`, text, integers or booleans. Float and date cells, and Python's `str` of them, are not modelled. One consequence: openpyxl reads a date cell as a `datetime`, which is truthy, so a date in a data row is kept and `json.dumps` raises `TypeError` (excel.py:41). The real `load` then fails, while `Load` always returns a document.
- ExcelLoader.Load: `json.dumps` (with `ensure_ascii=False`) is the parameter `encode`. The langchain `Document` is reduced to its page content, and the loader's metadata and logger are left out.
