# Training planner: best-combination search and cool-down, in Dafny

The Trainingsplaner is a small Streamlit app for football training. It keeps a catalog of training units ("Einheiten"). Each unit has a name, a duration in hours (`dauer`), a freshness cost (`frischeverbrauch`) and a number of skill points (`skillpunkte`). Two functions hold the app's logic, and this project models both:

- `berechne_best_kombinationen` searches by brute force. For every length n from 1 to the catalog size, it evaluates every ordered n-tuple of units, with repetition, in the order `itertools.product` yields them. It keeps the tuples whose total hours fit the available time and whose total freshness cost fits the remaining freshness. It sorts the kept entries by points, highest first, with Python's stable sort, and returns the first `top_n`.
- `auslaufen` is the cool-down loop. Each cool-down hour adds 13 freshness, capped at the ceiling. The loop stops at the ceiling or when the hours run out, and returns the new freshness and the unused hours.

The click handler regenerates first and then searches the remaining hours for 10 results. It is modelled as `Planner.Plan`.

Files and modules:

- `units.dfy` (`Units`): the unit record `TrainingUnit`, the result record `Entry` (tuple, points, hours, freshness), the totals over a tuple, the freshness ceiling 100 and the default catalog.
- `product.dfy` (`Product`): `Tuples(xs, n)`, the length-n Cartesian power in `itertools.product` order, with its membership, count and order lemmas.
- `ranking.dfy` (`Ranking`): the reference stable descending sort `StableSort` and the in-place array insertion sort `SortByPoints`, proved equal to it. The module also proves that sortedness plus stability fixes the outcome uniquely.
- `regeneration.dfy` (`Regeneration`): `Regenerate`, the cool-down `while` loop.
- `planner.dfy` (`Planner`): the reference definition of the search, `BestCombinations`, the loop-and-sort method `ComputeBestCombinations` proved to compute it, the lemmas about its result, the click-handler glue `Plan`, and a worked example on two units of the default catalog.

The search enumerates ordered tuples, so (A,B) and (B,A) are separate results. It caps the tuple length at the catalog size, not at the time budget. It scores each tuple with one number, the sum of its skill points. It leaves ties in generation order: shorter tuples first, then product order.

## Model

| member | source | states |
|---|---|---|
| `Units.TotalAppend` | training_app_streamlit_extended.py:24-26 | each total (hours, freshness, points) of a concatenation is the sum of the totals of the parts |
| `Units.TotalPermutation` | training_app_streamlit_extended.py:23-26 | two tuples with the same units, counted with multiplicity, have the same totals, so the reorderings of one tuple, which the search lists separately, always tie |
| `Units.TotalAtLeast` | training_app_streamlit_extended.py:24-25 | if every unit of a tuple carries at least m of a quantity, the tuple's total is at least m times its length |
| `Product.TuplesMember` | training_app_streamlit_extended.py:23 | a sequence is among the length-n tuples exactly when it has length n and every element comes from the catalog (repetition allowed) |
| `Product.TuplesCount` | training_app_streamlit_extended.py:23 | there are `|units|^n` tuples of length n |
| `Product.TuplesAt` | training_app_streamlit_extended.py:23 | product order: position `i * |units|^n + j` among the length-(n+1) tuples holds unit i followed by the j-th length-n tuple, so the first position varies slowest |
| `Ranking.StableSortCorrect` | training_app_streamlit_extended.py:29 | the reference sort is non-increasing by points, is a permutation of its input, and keeps the input order of the entries of each point value |
| `Ranking.SortedUnique` | training_app_streamlit_extended.py:29 | two sequences that are both sorted by points and have the same entries of each point value in the same order are equal |
| `Ranking.StableSortCharacterized` | training_app_streamlit_extended.py:29 | any result of a stable descending sort by points (Python's `sort(key=..., reverse=True)`) equals `StableSort` of the input |
| `Ranking.InsertAt` | training_app_streamlit_extended.py:29 | moving `a[i]` left past the entries with fewer points turns `a[..i+1]` into the reference insertion of `a[i]` into `a[..i]` and leaves the rest of the array unchanged |
| `Ranking.SortByPoints` | training_app_streamlit_extended.py:29 | the in-place sort leaves the array equal to `StableSort` of its old contents |
| `Regeneration.Regenerate` | training_app_streamlit_extended.py:32-39 | terminates; returns the input unchanged when hours ≤ 0 or freshness ≥ ceiling; on exit freshness ≥ ceiling or hours ≤ 0; for hours ≥ 0 the hours left lie in [0, hours]; freshness never drops; from below the ceiling the result is min(ceiling, freshness + 13·hours spent); from at or below the ceiling it never exceeds the ceiling and equals min(ceiling, freshness + 13·max(0, hours)); no hour is spent after the ceiling is reached |
| `Planner.AppendFitting` | training_app_streamlit_extended.py:23-28 | the inner loop appends to the list exactly the entries, with their three totals, of the tuples that fit both budgets, in tuple order |
| `Planner.ComputeBestCombinations` | training_app_streamlit_extended.py:20-30 | the nested loops, the in-place sort and the slice return exactly `BestCombinations` |
| `Planner.CandidatesUpToMember` | training_app_streamlit_extended.py:22-23 | the candidates of lengths up to n are exactly the sequences of length 1 to n drawn from the catalog |
| `Planner.CandidatesMember` | training_app_streamlit_extended.py:22-23 | the search looks at exactly the tuples of length 1 to the catalog size drawn from the catalog; an empty catalog gives no candidates |
| `Planner.CandidatesByLength` | training_app_streamlit_extended.py:22-23 | in generation order, a tuple is never longer than a later one |
| `Planner.CandidatesCount` | training_app_streamlit_extended.py:22-23 | the search looks at `|units| + |units|^2 + ... + |units|^n` tuples |
| `Planner.KeepMember` | training_app_streamlit_extended.py:27-28 | an entry is kept exactly when it records the true totals of a scanned tuple that fits both budgets |
| `Planner.FeasibleMember` | training_app_streamlit_extended.py:22-28 | the list before sorting holds exactly the entries of the tuples of length 1 to the catalog size, drawn from the catalog, that fit both budgets, each with its true totals |
| `Planner.ResultSound` | training_app_streamlit_extended.py:24-30 | every returned entry fits both budgets, its points, hours and freshness are the sums over its tuple, and its tuple has length 1 to the catalog size with elements from the catalog |
| `Planner.ResultSorted` | training_app_streamlit_extended.py:29-30 | the result is non-increasing by points |
| `Planner.ResultStable` | training_app_streamlit_extended.py:22-30 | for each point value, the returned entries with that value are the first ones the search kept, in generation order |
| `Planner.ResultLength` | training_app_streamlit_extended.py:30 | for `top_n ≥ 0` the result has min(`top_n`, number of feasible tuples) entries |
| `Planner.ResultPrefix` | training_app_streamlit_extended.py:30 | for 0 ≤ k ≤ m, the result for `top_n = k` is a prefix of the result for `top_n = m` |
| `Planner.ResultComplete` | training_app_streamlit_extended.py:29-30 | when `top_n` is at least the number of feasible tuples, the result is a permutation of all of them |
| `Planner.NoBetterLeftOut` | training_app_streamlit_extended.py:27-30 | a feasible tuple whose entry is not returned scores no more than any returned entry |
| `Planner.NoBetterLeftOutAt` | training_app_streamlit_extended.py:27-30 | by position in the ranked list: every entry past the returned prefix is feasible and scores no more than any returned entry, also when the catalog holds identical units |
| `Planner.NothingFits` | training_app_streamlit_extended.py:27-28 | if every unit uses freshness and none is left, or every unit takes time and no time is left, the result is empty |
| `Planner.Plan` | training_app_streamlit_extended.py:66-75 | within the form's input ranges, the freshness used is min(100, rest + 13·cool-down hours), and the result is the search with that freshness, the hours minus the cool-down hours and 10 results |
| `Planner.ExampleTwoUnits` | training_app_streamlit_extended.py:11-12 | with "Passen" and "Jonglieren", 25 freshness and 2 hours, the result is (Passen, Jonglieren) and (Jonglieren, Passen), tied at 60 and in generation order, then (Jonglieren, Jonglieren), (Passen), (Jonglieren); (Passen, Passen) is over the freshness budget |

## Left out

- `main()` and every Streamlit call (lines 41-82) are user interface: widgets, buttons, messages and result rendering. From the form, only the input ranges of lines 66-68 appear, as the preconditions of `Plan`.
- The session-state catalog and its add and delete callbacks (lines 17-18 and 49-63) are mutable UI state. The search takes the catalog as a value.
- `itertools.product` is a lazy iterator. The model builds one length's tuples as a sequence value (`Tuples`) and then scans it. The order is the same, but the memory behaviour (tuples produced one at a time) is not modelled.
- Python's sort is Timsort. The model sorts by insertion. `StableSortCharacterized` shows that every stable descending sort by points gives the same result, so the choice of algorithm does not change the output.
- Units are immutable records. Python's result tuples hold references to the catalog dictionaries, and that aliasing is not modelled.
- Fields are modelled as mathematical integers. Python ints are unbounded too. Non-integer or missing fields, which Python would accept or reject at run time, are not modelled.
- A negative `top_n` is modelled as Python's slice `s[:n]`, which drops the last `-n` entries. The app always passes 10.
- No lemma evaluates the search on the full default catalog (8 units give about 19 million tuples); `ExampleTwoUnits` uses two of its units.
