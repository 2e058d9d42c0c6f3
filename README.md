# hera_qm node metrics and nested-dict comparison, in Dafny

This project models two parts of hera_qm, the HERA radio telescope's
quality-metrics package, and proves properties of them.

**Node bucketing (`node_metrics.dfy`, module `NodeMetrics`).**
This models `hera_qm/node_metrics.py`.

- Every antenna number hangs off a node of the array.
- `get_nodes` lists the nodes of the given antennas. Each node appears once, in the order the scan first meets it.
- `calculate_correlation_matrix` returns `None` when the sum and diff observations start at different times. Otherwise it builds one nants-by-nants matrix per polarization ("pol").
- `get_internode_correlations` first creates an empty `inter` and `intra` list for every node and pol. It then walks every ordered pair of antenna indices (i, j) and skips pairs whose antenna numbers are equal.
  - If the two antennas are on the same node, the pair's value is appended twice to that node's `intra` list.
  - Otherwise it is appended once to each node's `inter` list.
  - Finally each list is reduced to its median.

The code is imperative, so the model is too: methods with loops over `seq`
and `map` state. Each method is proved against a function of its inputs
(`PolsF`, `VisitF`, `RowF`, `RowsF` for the pair loop). Lemmas then state
what those functions mean:

- **Contents.** Every bucket equals `Survey.Expected`, the ordered concatenation of each pair's share. Every value in a bucket belongs there, and every value that belongs there is there.
- **Counts.** Per pol p, the bucket sizes add up to 2·k·d, where k is how often p occurs in `pols` and d is the number of ordered pairs of distinct antenna numbers; that is 2·k·n(n−1) when the n antenna numbers are distinct.
- **Self-pairs.** What the matrix holds at self-pairs cannot change any bucket.

A pol listed twice in `pols` is visited twice, and the model repeats its appends accordingly.

The source uses three names it never defines. They are read as follows:

- `antnumsAll` (line 41) as `antnums`;
- `x` (line 98) as the antenna-to-node hookup lookup of lines 129-134, injected as the read-only function `nodeOf`;
- `data` (line 102) as `corr_matrix`.

**Dict comparison (`dict_compare.dfy`, module `DictCompare`).**
This models `recursive_compare_dicts` from `hera_qm/tests/__init__.py`. The
test suite uses it to decide whether a metrics mapping survived a round
trip through a file. It is modelled as a recursive predicate over a `Value`
datatype:

- Passing means the Python function returns normally; failing means it raises.
- `np.allclose` is an injected elementwise closeness `close`, combined with numpy's broadcasting of one-dimensional shapes.
- Python's `==` is written out as `PyEq`. It conflates ints, bools and floats, and NaN is never equal to anything.

`wrappers.dfy` holds the `Option` type used for Python's `None`.

## Model

| member | source | states |
|---|---|---|
| NodeMetrics.GetNodes | hera_qm/node_metrics.py:131-137 | the result has no repeats, holds exactly the nodes of the given antennas, is no longer than `antnums`, and lists nodes in order of first appearance in the scan |
| NodeMetrics.InitBuckets | hera_qm/node_metrics.py:80-91 | afterwards there is exactly one list per node, kind and requested pol, and every list is empty |
| NodeMetrics.FilePair | hera_qm/node_metrics.py:103-108 | appending to lists that exist adds no new key |
| NodeMetrics.FilePairBucket | hera_qm/node_metrics.py:101-108 | one pol's visit of a pair adds to each slot exactly that slot's share of the pair's value; slots of other pols are unchanged |
| NodeMetrics.FilePairCases | hera_qm/node_metrics.py:103-108 | same node: the value goes twice into that node's `intra` list and no `inter` list changes; different nodes: once into each node's `inter` list and no `intra` list changes |
| NodeMetrics.TotalAfterFilePair | hera_qm/node_metrics.py:103-108 | one visit raises the count held for its pol by how often n1 and n2 occur among the counted nodes, and leaves other pols' counts unchanged |
| NodeMetrics.DistinctPairsCount | hera_qm/node_metrics.py:92-96 | with n distinct antenna numbers, the pair loop files n(n−1) ordered pairs |
| NodeMetrics.ExpectedMembers | hera_qm/node_metrics.py:92-108 | every value in a slot is the correlation of an ordered pair of distinct antennas that belongs in that slot's node, kind and pol |
| NodeMetrics.ExpectedIncludes | hera_qm/node_metrics.py:92-108 | conversely, for a requested pol, every such pair's correlation is in each slot it belongs in |
| NodeMetrics.SelfPairsIgnored | hera_qm/node_metrics.py:96 | two matrices that agree everywhere except at self-pairs yield the same buckets |
| NodeMetrics.PolsBucket | hera_qm/node_metrics.py:101-108 | the pol loop of one pair adds one copy of the pair's share to a slot for every occurrence of that slot's pol in `pols` |
| NodeMetrics.PolsTotal | hera_qm/node_metrics.py:101-108 | the pol loop of one pair adds two values under pol p for each occurrence of p in `pols` |
| NodeMetrics.PairBucket | hera_qm/node_metrics.py:96-108 | visiting pair (i, j) adds that pair's share to a slot, and adds nothing for a self-pair |
| NodeMetrics.RowBucket | hera_qm/node_metrics.py:93-108 | after row i has visited columns 0..j−1, each slot has gained those pairs' shares in column order |
| NodeMetrics.RowsBucket | hera_qm/node_metrics.py:92-108 | after rows 0..i−1, each slot has gained those rows' shares in row order |
| NodeMetrics.FiledBuckets | hera_qm/node_metrics.py:92-108 | starting from empty lists, the pair loop leaves in every slot exactly its expected list |
| NodeMetrics.VisitTotal | hera_qm/node_metrics.py:96-108 | one visit adds 2·k values under a pol requested k times, or none for a self-pair |
| NodeMetrics.RowTotal | hera_qm/node_metrics.py:93-108 | after columns 0..j−1 of row i, the count under p has grown by 2·k for each distinct-number pair visited |
| NodeMetrics.RowsTotal | hera_qm/node_metrics.py:92-108 | after rows 0..i−1, the count under p has grown by 2·k for each distinct-number pair in those rows |
| NodeMetrics.FiledTotal | hera_qm/node_metrics.py:92-108 | from empty lists, the per-pol sum of bucket sizes over all nodes is 2·k·d, where d is the number of distinct-number pairs; that is 2·k·n(n−1) when the n antenna numbers are distinct |
| NodeMetrics.FileAcrossPols | hera_qm/node_metrics.py:101-108 | the pol loop of one pair yields `PolsF` of its inputs and adds no key |
| NodeMetrics.FileRow | hera_qm/node_metrics.py:93-108 | one row of the pair loop, self-pairs skipped, yields `RowF` of its inputs and adds no key |
| NodeMetrics.FilePairs | hera_qm/node_metrics.py:92-108 | the pair loop yields `RowsF` of its inputs and adds no key |
| NodeMetrics.NodeMedians | hera_qm/node_metrics.py:109-112 | one entry per node, kind and pol, each the median of that slot's list |
| NodeMetrics.GetInternodeCorrelations | hera_qm/node_metrics.py:53-113 | one entry per node of the antennas, kind and requested pol; each is the median of exactly the values of the ordered pairs that belong in that slot |
| NodeMetrics.CalculateCorrelationMatrix | hera_qm/node_metrics.py:30-50 | `None` exactly when the first time stamps differ; otherwise one nants-by-nants matrix per requested pol, whose cell (i, j) is the correlation of the antennas at positions i and j |
| DictCompare.CompareDicts | hera_qm/tests/__init__.py:24-66 | definition, no contract of its own: the key sets agree (line 31) and every key of d1 passes `CompareValue` (lines 32-66); its properties are the lemmas below |
| DictCompare.CompareValue | hera_qm/tests/__init__.py:33-66 | definition, no contract of its own: the test one key gets, chosen by d1's value type: list equality after `list(...)`, exact bytes-array equality, closeness for numeric arrays and floats, recursion for dicts, `==` otherwise |
| DictCompare.PyEq | hera_qm/tests/__init__.py:35-60 | definition, no contract of its own: Python's `==` at lines 35 and 60, numeric across int, bool and float, NaN equal to nothing, structural on lists and dicts, failing on ndarrays |
| DictCompare.AllClose | hera_qm/tests/__init__.py:47-57 | definition, no contract of its own: `np.allclose` at lines 47 and 57, with one-dimensional broadcasting and the injected closeness per element pair |
| DictCompare.CompareAtDepth | hera_qm/tests/__init__.py:31-55 | if the comparison passes, then wherever d1 has a nested dict, d2 has one at the same key path with the same key set, and the two compare |
| DictCompare.MismatchBelowFails | hera_qm/tests/__init__.py:31-55 | a key-set mismatch at any depth fails the whole comparison |
| DictCompare.PyEqReflexive | hera_qm/tests/__init__.py:35 | Python's `==` holds between a value and itself when it contains no NaN and no ndarray |
| DictCompare.CompareReflexive | hera_qm/tests/__init__.py:24-66 | when closeness is reflexive off NaN, a mapping with no NaN and no array inside a list compares equal to itself |
| DictCompare.CompareValueReflexive | hera_qm/tests/__init__.py:33-66 | the same per value, for each of the five type branches |
| DictCompare.NaNFails | hera_qm/tests/__init__.py:56-57 | a NaN float in d1 fails against anything except an empty array or list |
| DictCompare.FloatAgainstArray | hera_qm/tests/__init__.py:56-57 | a float passes against an array exactly when it is close to every element, so it passes against an empty array |
| DictCompare.CompareNotSymmetric | hera_qm/tests/__init__.py:33-35 | the rule depends on d1's type alone: a list of characters passes against its string, but the string fails against the list |
| DictCompare.IntExact | hera_qm/tests/__init__.py:58-60 | an int passes exactly against an int, bool or float of the same value, and against nothing else |
| DictCompare.BoolIntConflated | hera_qm/tests/__init__.py:58-60 | `True` passes against `1` and `1.0`, and `1` passes against `True` |
| DictCompare.StrExact | hera_qm/tests/__init__.py:58-60 | a string passes only against the same string |
| DictCompare.StrArrExact | hera_qm/tests/__init__.py:42-44 | two string arrays pass exactly when they are equal, whatever the closeness |
| DictCompare.StrArrAgainstList | hera_qm/tests/__init__.py:43-44 | a bytes-string array never passes against a list or a numeric array, even when both are empty: `np.asarray` makes a unicode or float array of them, and the elementwise comparison with bytes fails |
| DictCompare.CallAsWritten | hera_qm/tests/__init__.py:24-66 | the call returns exactly when the comparison passes, and what it returns is None |
| DictCompare.AssertedCallAlwaysFails | hera_qm/tests/test_metrics_io.py:238 | `assert` of the call as written fails for every input, even two empty mappings that compare equal |
| DictCompare.CallCorrected | hera_qm/tests/__init__.py:24-66 | with a `return True` on success, an asserted call passes exactly when the comparison passes, and raises otherwise |
| DictCompare.CorrectedSelfCallPasses | hera_qm/tests/test_metrics_io.py:238 | with the corrected return, an asserted comparison of a NaN-free mapping against itself passes |
| DictCompare.LooserDicts | hera_qm/tests/__init__.py:47 | a comparison that passes under one closeness passes under any looser one |
| DictCompare.LooserValue | hera_qm/tests/__init__.py:42-57 | the same per value: tolerances act only on floats and numeric arrays |

## Left out

- Complex correlation arithmetic (hera_qm/node_metrics.py lines 43-50). The normalisation and averaging are floating-point, so the model takes them as an injected `cell(pol, ant1, ant2)`. Correlation values are `real`s.
- UVData objects. Only `time_array` and `antenna_numbers` are modelled, as plain sequences. CalculateCorrelationMatrix requires non-empty time arrays, because the source indexes element 0 and raises on an empty array.
- The hookup query and its key strings (lines 97-100 and 129-134). They call another library, so the model injects `nodeOf`.
- np.nanmedian (lines 111-112), including its treatment of NaN and of an empty list. It is injected as `median`.
- The `print` at line 31.
- np.empty's unspecified initial contents (line 38). Every cell is written before it is read, so the model starts from zeros.
- Nested dicts as one map: the dicts are flattened to a map from (node, kind, pol) to a value. The skeleton entries `nodeMeans[node]['inter']` and `nodeMeans[node]['intra']` (lines 85-88) are not kept separately, so a node with no requested pol has no entry.
- Python dict insertion order: maps have no order. Nothing in the node metrics depends on order except bucket contents, which follow the loop order.
- Out-of-range matrix reads. The spec functions read a missing cell as 0.0. The methods require a covering matrix for every requested pol, as the docstring at lines 64-65 requires of callers.
- Time stamps are compared as exact reals, without floating-point rounding.
- DictCompare.Value: covers only dicts, lists, floats, one-dimensional string and numeric ndarrays, strings, ints and bools.
  - Tuples, None and other objects are not modelled.
  - Nor are multi-dimensional arrays, or lists nested inside lists that np.asarray would turn into them.
- Unicode string arrays (dtype `<U`): numpy does not count them under np.string_, so the source would send them to np.allclose. The model's string arrays are the np.string_ kind only.
- DictCompare.PyEq: ignores Python's identity shortcut in list and dict equality (an element that is the very same object compares equal, even a NaN).
  - Comparing an ndarray inside a list is modelled as failing. Python fails there too for arrays of more than one element; for arrays of one element or none, truth-testing the element-wise result is not modelled.
- DictCompare.ToList: treats `list(d)` of a dict as failing. Python would list the dict's keys in insertion order, which a map does not keep.
  - `list(...)` of a string array yields bytes, which no modelled value equals. So a list passes against a string array only when both are empty.
- DictCompare.AsStrs: a Python list of bytes strings is not a modelled value, so the case where such a list passes against an equal bytes array is not covered.
- DictCompare.CompareValue: the exact branch (lines 58-60) is modelled as failing when d2's value is an ndarray. numpy's element-wise `==` and the truth value of its result are not modelled.
- The diagnostic prints and the re-raise (lines 36-41, 48-53, 61-66), and which exception is raised on failure. They do not change whether the comparison passes.
- `np.allclose`'s tolerances. They are injected as `close`; `CloseLaw` states only that NaN is close to nothing and every other number is close to itself.
- The order of the key loop: failing at the first bad key and failing at any key are the same verdict.
- `noise`, `real_noise` and the matplotlib marker in hera_qm/tests/__init__.py: random numbers and environment checks.

## Findings

| source | as written | input that shows it | evidently intended | confidence | as-written member | corrected member |
|---|---|---|---|---|---|---|
| hera_qm/tests/__init__.py:24-66 | `recursive_compare_dicts` has no `return`, so a passing comparison returns None; callers such as hera_qm/tests/test_metrics_io.py:238 and hera_qm/tests/test_ant_metrics.py:297 write `assert recursive_compare_dicts(...)`, which then fails | d1 = d2 = {} (or any pair that compares equal): the call returns None and the caller's `assert None` raises | the function returns True when the comparison passes, so asserting callers pass exactly on a passing comparison | not executed | DictCompare.AssertedCallAlwaysFails | DictCompare.CallCorrected |
