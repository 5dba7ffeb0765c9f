# smoother, modelled in Dafny

`smoother` estimates a one-dimensional probability distribution on a grid of points. The
distribution is the grid `x` plus a density `f_x` stored at each grid point. Queries
(`pdf`, `cdf`, `ppf`, `sf`, `isf`, moments, the median) read the density by linear
interpolation between the two grid points that bracket the query.

This project models:

- the current `Distribution` class (module `Distributions`);
- the older standalone `Smoother` class (module `Smoothers`);
- the objective and the two constraints the optimiser adds up (module `Objectives`);
- the Bayesian-network nodes: the topological sort that orders their estimation, and
  the memoised sampling of node values (module `Nodes`).

Supporting modules:

- `Grid`: the grid arithmetic, namely sums, means, `linspace`, the bracketing weights
  and interpolation.
- `Sorting`: a stable sort by integer key, standing in for Python's `sorted`.
- `Wrappers`: an `Option` type.

## How each part is modelled

**Distributions.** The density setter divides the values by
`sum(f * span / n)`, so the stored density satisfies `mean(f) * span == 1`.

- The cumulative table `F_x` sums neighbouring pairs, accumulates them and divides by
  the last entry.
- `pdf` and `cdf` are functions of the grid and the stored values.
- `ppf` is the source's recursive halving search, written two ways:
  - `Search`, a function that specifies it;
  - `Bisect`, a method that runs it as a loop and is proved to compute `Search`.
- The class `Distribution` holds `x` and `fx`. Its methods assign them and call these
  functions.

**Smoothers.** The older `Smoother` reads the same two fields differently:

- `f_x` divides by the grid width;
- `F_x` is a plain running sum;
- `cdf` reads the table one index to the left;
- `ppf` has no shortcut at 0 or 1.

**Objectives.** Each callable becomes a function that returns the loss. Where the
source would divide by zero, the result is `None`.

**Nodes.** The node code changes state in place:

- `Node` is a class whose `frozen` and `added` fields its methods update.
- `sort_nodes` and its inner recursive `sort_nodes_` are methods over those fields.
- Acyclicity of the graph is a ghost ranking that decreases along every in-node edge.

## Model

| member | source | states |
|---|---|---|
| Grid.Linspace | smoother/__init__.py:29-31 | `np.linspace(lb, ub, num)`: `num` points, the first `lb`, the last `ub`, strictly increasing when `lb < ub` |
| Grid.Const | smoother/__init__.py:31 | `np.ones(num)` and `[value] * size`: `num` copies of the value |
| Grid.CumSumFirst | smoother/distribution.py:37 | `np.cumsum` starts with the first entry |
| Grid.CumSumStep | smoother/distribution.py:37 | each later entry of `np.cumsum` is the entry before plus the next input entry |
| Grid.CumSumLast | smoother/distribution.py:37-38 | `np.cumsum` ends with the total, which `F_x` divides by |
| Grid.CumSumSorted | smoother/__init__.py:39-40 | the running sum of nonnegative values is nondecreasing, from 0 up to the total |
| Grid.LowerIndex | smoother/distribution.py:160 | `np.where(x <= v)[0][-1]`: an index whose point is at or below `v`, with every later point above `v` |
| Grid.UpperIndex | smoother/distribution.py:160 | `np.where(x >= v)[0][0]`: an index whose point is at or above `v`, with every earlier point below `v` |
| Grid.GetWeights | smoother/distribution.py:146-165 | `_get_weights(v)`: `lb` is the last index with `x[lb] <= v` and `ub` the first with `x[ub] >= v`; the weights are in [0, 1] and sum to 1; both are 0.5 when the two points coincide; and they reproduce `v` from `x[lb]` and `x[ub]` |
| Grid.Interp | smoother/distribution.py:110-111 | `w_lb * f[lb] + w_ub * f[ub]`, as `pdf` and `cdf` evaluate it: between the two bracketing values |
| Grid.InterpAtGridPoint | smoother/distribution.py:110-111 | on a strictly increasing grid, interpolation at a grid point returns the value stored there |
| Grid.InterpMonotone | smoother/distribution.py:136-137 | interpolating a nondecreasing table on a sorted grid is nondecreasing in the query point |
| Grid.FirstMomentWithin | smoother/distribution.py:243-244 | the mean of `x * f` lies between `a * mean(f)` and `b * mean(f)` when every grid point lies in [a, b] and `f` is nonnegative |
| Distributions.DefaultGrid | smoother/distribution.py:10 | `np.linspace(0, 1)`: 50 strictly increasing points from 0 to 1 |
| Distributions.NormalizerIsMeanMass | smoother/distribution.py:19 | the setter's divisor `sum(f * span / n)` is the grid width times the mean density, and it is nonnegative for a nonnegative density on a grid that does not run backwards |
| Distributions.Normalize | smoother/distribution.py:17-20 | the `f_x` setter: the stored density has `mean(f) * span == 1`, and multiplying it back by the normaliser gives the input |
| Distributions.NormalizeIdempotent | smoother/distribution.py:17-20 | assigning an already normalised density stores it unchanged |
| Distributions.NormalizeTwice | smoother/distribution.py:17-20 | normalising twice is normalising once |
| Distributions.DefaultDensityIsUniform | smoother/distribution.py:9-11 | the default density, ones on the default grid, is already normalised and is stored as ones |
| Distributions.PairSums | smoother/distribution.py:36 | `np.insert(f[:-1] + f[1:], 0, 0)`: 0 first, then each entry plus its left neighbour |
| Distributions.Cumulative | smoother/distribution.py:22-38 | `F_x`: the table has one entry per grid point, starts at 0 and ends at 1 |
| Distributions.PairTotalIsSum | smoother/distribution.py:37-38 | the last running sum, which `F_x` divides by, is the total of the pair sums |
| Distributions.PairTotalPositive | smoother/distribution.py:37-38 | for a nonnegative density with positive mass on two or more points, the divisor of `F_x` is positive |
| Distributions.CumulativeMonotone | smoother/distribution.py:22-38 | for a nonnegative density the cumulative table is nondecreasing and within [0, 1] |
| Distributions.Pdf | smoother/distribution.py:107-111 | `pdf(v)` is 0 off the grid; on the grid it lies between the two bracketing densities; it is nonnegative for a nonnegative density |
| Distributions.PdfAtGridPoint | smoother/distribution.py:107-111 | `pdf` at a grid point is the density stored there |
| Distributions.Cdf | smoother/distribution.py:131-137 | `cdf(v)` is 0 at or left of the grid and 1 at or right of its end; it is in [0, 1] for a nonnegative density |
| Distributions.CdfBetweenNeighbours | smoother/distribution.py:136-137 | strictly inside the grid, `cdf` lies between the table entries at the two bracketing indices |
| Distributions.CdfMonotone | smoother/distribution.py:131-137 | for a nonnegative density, `cdf` is nondecreasing in `v` |
| Distributions.Sf | smoother/distribution.py:212 | `sf = 1 - cdf`: 1 at or left of the grid, 0 at or right of its end, within [0, 1] |
| Distributions.SfNonincreasing | smoother/distribution.py:212 | `sf` is nonincreasing in `v` |
| Distributions.PdfEach | smoother/distribution.py:113-118 | `pdf` of a list is `pdf` of each element, in order |
| Distributions.CdfEach | smoother/distribution.py:139-144 | `cdf` of a list is `cdf` of each element, in order |
| Distributions.StepClosedForm | smoother/distribution.py:184 | step `i` of the search is `span / 2 ** (i + 1)` |
| Distributions.StepsSpanGrid | smoother/distribution.py:184 | `2 ** (i + 1)` steps of size `i` span the grid exactly |
| Distributions.StepPositive | smoother/distribution.py:184 | on a grid of positive width every step is positive |
| Distributions.CdfSaturates | smoother/distribution.py:131-135 | `cdf` is 0 at or left of the grid and 1 at or right of its end, so the search never walks outward from an end |
| Distributions.SearchWithinSteps | smoother/distribution.py:180-186 | `get_ppf` (also the old `Smoother.ppf`, smoother/__init__.py:156-162) stops less than twice step `i` away from where it was at step `i`, because the steps halve |
| Distributions.SearchSteps | smoother/distribution.py:180-186 | the search stops either within the tolerance `1e-4` of `q` or after `max_iter + 1 = 101` steps |
| Distributions.SearchOnGrid | smoother/distribution.py:180-186 | from a point of the step lattice, a search for `q` in [0, 1] stays on the grid |
| Distributions.PpfValue | smoother/distribution.py:179-192 | `ppf(0)` is the first grid point and `ppf(1)` the last; otherwise it is the search from the midpoint; for `q` in [0, 1] it stays on the grid |
| Distributions.Bisect | smoother/distribution.py:180-186 | the loop computes exactly what the recursive `get_ppf` returns from the midpoint at step 0 |
| Distributions.PpfInvertsCdf | smoother/distribution.py:167-192 | `cdf(ppf(q)) == q` at 0 and 1; elsewhere `cdf(ppf(q))` is within `1e-4` of `q` unless the search used all its steps |
| Distributions.Moment | smoother/distribution.py:243-250 | `moment(degree, type_)` as written: the zeroth raw moment is `mean(f)`; even moments of a nonnegative density are nonnegative |
| Distributions.MomentIgnoresSpan | smoother/distribution.py:243-250 | the counterexample: the uniform density on [2, 4] is stored as 0.5 everywhere, and `moment(1)` as written returns 1.5 |
| Distributions.ExpectedPower | smoother/distribution.py:243-246 | the moment with the grid width restored; even moments of a nonnegative density are nonnegative |
| Distributions.Variance | smoother/distribution.py:70 | `var() = moment(2, 'central')` with the grid width restored, nonnegative for a nonnegative density |
| Distributions.ExpectedMassIsOne | smoother/distribution.py:17-20 | the zeroth moment of a normalised density, width restored, is 1 |
| Distributions.MeanWithinGrid | smoother/distribution.py:62 | `mean() = moment(1)`, width restored, of a normalised nonnegative density lies within the grid |
| Distributions.MeanWithin | smoother/distribution.py:62 | that mean lies in every interval [a, b] containing all grid points |
| Distributions.UnitMass | smoother/distribution.py:17-20 | a normalised density has `span * mean(f) == 1` |
| Distributions.RawExpectedPower | smoother/distribution.py:243-244 | the corrected raw moment is the as-written raw moment times the grid width |
| Distributions.Distribution.constructor | smoother/distribution.py:9-11 | `Distribution(x=None, f_x=None)`: the grid defaults to `linspace(0, 1)`, the density to ones of the grid's length, and the density goes through the setter |
| Distributions.Distribution.SetDensity | smoother/distribution.py:17-20 | assigning `f_x` stores the normalised density, which has unit mass, and leaves the grid alone |
| Distributions.Distribution.Load | smoother/distribution.py:265-282 | `load` builds a new distribution through the constructor, so the density is normalised again; an already normalised one comes back unchanged |
| Distributions.Distribution.Ppf | smoother/distribution.py:179-195 | `ppf(q)` for a number is `PpfValue` of the stored grid and density |
| Distributions.Distribution.PpfEach | smoother/distribution.py:196-199 | `ppf` of a list is `ppf` of each element, in order |
| Distributions.Distribution.Isf | smoother/distribution.py:225 | `isf(q) = ppf(1 - q)` |
| Distributions.Distribution.Median | smoother/distribution.py:86 | `median() = ppf(0.5)`, which lies on a grid of positive width |
| Smoothers.PublicDensity | smoother/__init__.py:33-35 | the `f_x` property has one entry per stored value |
| Smoothers.PublicDensityRescales | smoother/__init__.py:33-35 | the `f_x` property times the grid width is the stored values |
| Smoothers.CumTable | smoother/__init__.py:37-41 | `F_x`: the running sum divided by its last entry; it ends at 1 |
| Smoothers.CumTableFirst | smoother/__init__.py:37-41 | the table starts at `f[0] / total`, not at 0 |
| Smoothers.CumTableMonotone | smoother/__init__.py:37-41 | for nonnegative values the table is nondecreasing and within [0, 1] |
| Smoothers.Pdf | smoother/__init__.py:97-100 | `pdf(v)` is 0 off the grid; its value on the grid is stated by `Smoothers.PdfRescaled` (times the span, it is the current `pdf` of the stored values) and `Smoothers.PdfAtGridPoint` |
| Smoothers.PdfRescaled | smoother/__init__.py:97-100 | the old `pdf` times the grid width is the `pdf` of the stored values |
| Smoothers.PdfAtGridPoint | smoother/__init__.py:97-100 | at a grid point the old `pdf` is the stored value divided by the grid width |
| Smoothers.ShiftedLower | smoother/__init__.py:120 | `max(0, lb - 1)`: one index left of `lb`, never below 0 |
| Smoothers.ShiftedInterp | smoother/__init__.py:118-121 | the shifted reading lies between the two table entries it combines |
| Smoothers.Cdf | smoother/__init__.py:113-121 | `cdf(v)` is 0 at or left of the grid, 1 at or right of its end, and within [0, 1] for nonnegative values; strictly inside, `Smoothers.ShiftedInterp` bounds the reading it takes and `Smoothers.CdfDipsAtGridPoint` shows it is not monotone |
| Smoothers.CdfDipsAtGridPoint | smoother/__init__.py:120 | the counterexample: for four unit values on [0, 1, 2, 3], `cdf(1.9) = 0.7` but `cdf(2) = 0.625` |
| Smoothers.UnitTable | smoother/__init__.py:37-41 | the table of four unit values is [0.25, 0.5, 0.75, 1] |
| Smoothers.Sf | smoother/__init__.py:177 | `sf = 1 - cdf`: 1 at or left of the grid, 0 at or right of its end, within [0, 1] for nonnegative values |
| Smoothers.CdfSaturates | smoother/__init__.py:113-117 | the old `cdf` is 0 at or left of the grid and 1 at or right of its end |
| Smoothers.PpfValue | smoother/__init__.py:156-164 | `ppf(q)` is always the search from the midpoint; for `q` in [0, 1] on a grid of positive width it stays on the grid |
| Smoothers.PpfInvertsCdf | smoother/__init__.py:144-164 | the old `cdf(ppf(q))` is within `1e-4` of `q` unless the search used all its steps |
| Smoothers.OnesHaveUnitMean | smoother/__init__.py:29-31 | the constructor's ones have mean 1 |
| Smoothers.MeanWithinGrid | smoother/__init__.py:46-52 | `mean() = moment(1)` of nonnegative stored values with mean 1 lies within the grid |
| Smoothers.Smoother.constructor | smoother/__init__.py:28-31 | `Smoother(lb=0, ub=1, num=50)`: `num` evenly spaced points from `lb` to `ub`, with ones stored on them |
| Smoothers.Smoother.Load | smoother/__init__.py:293-309 | `load` makes a default smoother and then replaces both fields verbatim, with no renormalisation |
| Smoothers.Smoother.Ppf | smoother/__init__.py:144-164 | `ppf(q)` is `PpfValue` of the stored fields |
| Smoothers.Smoother.Isf | smoother/__init__.py:190 | `isf(q) = ppf(1 - q)` |
| Smoothers.Smoother.Median | smoother/__init__.py:70-76 | `median() = ppf(0.5)`, which lies on a grid of positive width |
| Objectives.Diff | build/lib/smoother/utils.py:35 | `np.diff`: one entry shorter, each entry the difference of neighbours |
| Objectives.DiffN | build/lib/smoother/utils.py:35 | `np.diff(f, n=d)` has `len(f) - d` entries, or none |
| Objectives.DiffNFlat | build/lib/smoother/utils.py:35 | every difference of order at least 1 of a constant sequence is zero |
| Objectives.NeighboursEqualIsFlat | build/lib/smoother/utils.py:35 | a sequence whose first differences all vanish is constant |
| Objectives.DefaultDerivativeWeight | build/lib/smoother/utils.py:33 | the default weight `1e-3 / d ** 2` is defined exactly when `d > 0`; it is positive and times `d ** 2` gives `1e-3` |
| Objectives.DerivativeWeight | build/lib/smoother/utils.py:33 | a given weight is used as it is; otherwise the default |
| Objectives.Derivative | build/lib/smoother/utils.py:34-35 | `np.diff(f, n=d) / delta ** d` with `delta = 1 / len(x)`: one entry per difference |
| Objectives.DerivativeZeroIff | build/lib/smoother/utils.py:34-35 | a derivative entry is zero exactly when the difference is |
| Objectives.MeanSquare | build/lib/smoother/utils.py:36 | `(deriv ** 2).mean()` is nonnegative |
| Objectives.MeanSquaresZeroIff | build/lib/smoother/utils.py:36 | the mean square is zero exactly when every entry is zero |
| Objectives.DerivativeObjective | build/lib/smoother/utils.py:33-36 | `DerivativeObjective(d, weight)(smoother)` has a value exactly when the weight is given or `d > 0`, and there are more than `d` stored values; with a nonnegative weight it is at most 0 |
| Objectives.FlatIsSmooth | build/lib/smoother/utils.py:33-36 | a constant density scores 0, the best value, for every `d >= 1` |
| Objectives.FirstDerivativeZeroIffFlat | build/lib/smoother/utils.py:33-36 | with a positive weight, the first-derivative objective is 0 exactly when the density is constant |
| Objectives.ZeroObjectiveIsFlat | build/lib/smoother/utils.py:33-36 | a zero first-derivative objective with a positive weight means a constant density |
| Objectives.FlatWhenDerivativeZero | build/lib/smoother/utils.py:35-36 | a zero mean square first derivative means a constant density |
| Objectives.SquarePenalty | build/lib/smoother/utils.py:77 | `weight * e ** 2` is nonnegative for a nonnegative weight, and zero exactly when `e` is, for a positive weight |
| Objectives.MassPenalty | build/lib/smoother/utils.py:75-77 | `MassConstraint` with the default weight 500: nonnegative, and zero exactly when `cdf(ub) - cdf(lb)` is the target mass |
| Objectives.DefaultMomentWeight | build/lib/smoother/utils.py:120-123 | the default weight `500 / span ** 2` exists exactly when the span is nonzero; it is positive and times `span ** 2` gives 500 |
| Objectives.MomentPenalty | build/lib/smoother/utils.py:120-125 | `MomentConstraint` has a value exactly when a weight is given or the span is nonzero; it is nonnegative, and zero exactly when `moment(degree, type_)` is the target value |
| Sorting.Items | smoother/node.py:41 | the items of the keyed entries, in order |
| Sorting.SortByKey | smoother/node.py:41 | `sorted(..., key=key)`: the keys come out in nondecreasing order and the entries are a permutation of the input |
| Sorting.SortItems | smoother/node.py:41 | the sorted items are a permutation of the input items |
| Sorting.SortStable | smoother/node.py:41 | `sorted` is stable: the entries with each key keep their input order |
| Sorting.SortSameItems | smoother/node.py:41 | an item is in the sorted result exactly when it is in the input |
| Nodes.Node.constructor | smoother/node.py:85-89 | `Node(in_nodes=[], distribution=None, name=None)` keeps its arguments, has nothing frozen and no `added` attribute |
| Nodes.Node.Rvs | smoother/node.py:107-118 | `rvs(size)`: a numeric distribution freezes `[value] * size`; a frozen sample is returned unchanged; otherwise the in-nodes are sampled first and a new sample drawn from their frozen values is frozen; other samples are kept, and only this node and its ancestors can change. Exactly the nodes of `Draws` change (computed from what was frozen before: nothing if the node was frozen and is not numeric, the node alone if it is numeric, else the node and the `Draws` of its in-nodes), and each of them then holds `[value] * size` if numeric, else `sample` of its in-nodes' frozen values |
| Nodes.Node.GivenRvs | smoother/node.py:132-133 | `given_rvs(size)`: one sample per in-node, in order, each the in-node's now-frozen `rvs(size)`; only this node's ancestors can change, and exactly the nodes of `DrawsOf` the in-nodes do, each then holding what `rvs` freezes for it |
| Nodes.Node.RvsOfInNode | smoother/node.py:133 | one element of `given_rvs`: the samples of the earlier in-nodes and the nodes they drew stay as they are, the in-node's `rvs(size)` is appended, and exactly its `Draws` are added, each holding what `rvs` freezes for it |
| Nodes.Node.ClearRvs | smoother/node.py:143-146 | `clear_rvs()` returns the node itself with nothing frozen; it only ever clears, and only this node and its ancestors; a node that had nothing frozen changes nothing; every node it clears has its in-nodes cleared too. Exactly the nodes of `Clears` are cleared: nothing if the node had no frozen sample, else the node and the `Clears` of its in-nodes, so the recursion stops at the first node without one |
| Nodes.FrozenOf | smoother/node.py:132-133 | the in-nodes' frozen samples, one per in-node, in order |
| Nodes.Pending | smoother/node.py:33 | `[node for node in nodes if not node.added]`: the nodes of the list not yet added, and every such node |
| Nodes.PendingIsFilter | smoother/node.py:33 | the comprehension keeps the order of the list: it reads the list at strictly increasing positions, and these are exactly the positions of the nodes not yet added |
| Nodes.PresortKey | smoother/node.py:37-40 | the presort key gives back the in-node count, negated with `reverse` |
| Nodes.Presort | smoother/node.py:32-42 | `presort_nodes` with the intended key: a permutation of the pending nodes of the list |
| Nodes.PresortOrdered | smoother/node.py:36-41 | with `presort`, nodes come out by in-node count, most first with `reverse`, fewest first without |
| Nodes.PresortStable | smoother/node.py:36-41 | the presort is stable: nodes with the same number of in-nodes keep their order in the list |
| Nodes.PresortAsWritten | smoother/node.py:36-41 | `presort_nodes` as written: when it returns, it agrees with the intended presort |
| Nodes.AscendingPresortFails | smoother/node.py:37-41 | the counterexample: with `presort=True, reverse=False` and two pending nodes, the code as written fails, while the intended presort orders them fewest first |
| Nodes.SortFrom | smoother/node.py:44-53 | `sort_nodes_(list)`: the result is exactly the nodes this call flags, each once; every node of the list ends up flagged; each node comes after its in-nodes unless those were flagged before the call |
| Nodes.Visit | smoother/node.py:48-52 | one iteration of the loop: the node ends up flagged after its not-yet-added in-nodes, which are sorted first |
| Nodes.Append | smoother/node.py:51-52 | flag the node and append it |
| Nodes.SortNodes | smoother/node.py:7-60 | `sort_nodes(nodes)`: a permutation of the input without duplicates, every in-node before the node that needs it, and the `added` attribute removed again from every node |
| Nodes.ResetFlags | smoother/node.py:55-56 | every node gets `added = False` |
| Nodes.DeleteFlags | smoother/node.py:58-59 | `del node.added` on every node |

## Left out

- Floating point is modelled as exact real arithmetic. NaN and infinity are not modelled. A division the source would turn into NaN or infinity becomes either a `requires` (a nonzero normaliser, a nonzero `F_x` total) or a `None` result (the objective weights).
- Distributions.Distribution.Ppf, Distributions.Distribution.Isf, Distributions.Distribution.PpfEach, Distributions.Distribution.Median, Smoothers.Smoother.Ppf, Smoothers.Smoother.Isf, Smoothers.Smoother.Median: these require the cumulative table's total to be nonzero, where the source would divide by zero and produce NaN.
- Distributions.Distribution.constructor, Distributions.Distribution.SetDensity, Distributions.Distribution.Load: these require a nonzero normaliser, where the source would divide by zero.
- Standardized moments, `norm=True`, `std()` and `entropy()` are not modelled. They need real powers, square roots and logarithms.
- `Smoother.fit`, `_loss` and the SciPy optimiser are not modelled. They are the numeric optimisation that calls the objectives. The same goes for smoother/conditional.py and the maximum-entropy code.
- `Distribution.rvs`, `random.shuffle` and the `shuffle` argument of `sort_nodes` are not modelled, because they draw random numbers. `Nodes.Node.Rvs` takes the distribution's sampler as a parameter `sample`.
- Nodes.Node.Rvs: the conditional distribution's `predict` and each conditional draw are folded into the `sample` parameter. This covers the transposition `.T` in `given_rvs`: `sample` receives one sequence per in-node.
- Nodes.Node.Rvs: requires every node of the graph to have a distribution or a frozen sample. The source asserts this only for the nodes it actually draws from.
- Nodes.Node.Rvs, Nodes.Node.ClearRvs, Nodes.SortNodes: these require the graph to be acyclic. On a cyclic graph the source recurses without end.
- `in_nodes` and `distribution` are `const`. The source never reassigns them after construction, and user code that reassigns them is not modelled. `name` is a debugging label that no operation reads.
- Nodes.SortNodes, Nodes.SortFrom: these use the intended presort key (`Nodes.Presort`). Where the source raises `TypeError` (`presort=True`, `reverse=False`, two or more pending nodes at any level of the recursion), the model returns the sorted order instead. `Nodes.PresortAsWritten` models the failure.
- Distributions.Moment: the degree is a natural number. The source accepts any integer, and a negative degree gives `x ** degree` with reciprocals (or a division by zero at a grid point 0), which is not modelled.
- JSON `dump` and `load` parsing is not modelled. Both `Load` methods take the decoded grid and density directly.
- The old `Smoother.moment`, `mean()` and `var()` compute the same formula as `Distributions.Moment`, which models them too. They are not defined a second time.

## Findings

| source | as written | input that shows it | evidently intended | confidence | as-written member | corrected member |
|---|---|---|---|---|---|---|
| smoother/__init__.py:120 | `cdf` reads the table at `max(0, lb - 1)` | four unit values on [0, 1, 2, 3]: `cdf(1.9) = 0.7` but `cdf(2) = 0.625` | a nondecreasing `cdf`, which interpolates the table at `lb` as `Distribution.cdf` does | high (not executed) | Smoothers.CdfDipsAtGridPoint | Distributions.CdfMonotone |
| smoother/distribution.py:243-250 | `moment` averages `x ** degree * f_x` without the grid width. A density that went through the setter has `mean(f_x) * span == 1`, so its moment is off by the factor `span`. The maximum-entropy fit (smoother/max_entropy.py:64) stores `_f_x` as `span * pdf`, with mean 1, and for that the formula is right | uniform density on the grid [2, 4], set through the `f_x` setter (stored as 0.5, 0.5): `moment(1) = 1.5`, outside the support | the moment times the grid width for setter-normalised densities, so that the mean of a density lies within the grid; the fix could equally be a setter that normalises to mean 1 | high (not executed) | Distributions.MomentIgnoresSpan | Distributions.MeanWithinGrid |
| smoother/node.py:37-41 | the conditional expression sits inside the first lambda, so with `reverse=False` the key returns a function and `sorted` compares functions | `sort_nodes([a, b], presort=True)` for two nodes: `TypeError` | `len(node.in_nodes)` as the key, fewest in-nodes first | high (not executed) | Nodes.AscendingPresortFails | Nodes.PresortOrdered |
