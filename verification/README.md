# goodreads-API helpers: a Dafny model of the book filter and sort

The command-line tool loads a Goodreads books table (one row per ISBN, with
Title, Average Rating, Num Pages, Ratings Count and Text Reviews Count),
narrows it with `filter_books`, orders it with `sort_books` and prints a
few rows. The only logic the repository owns is in `src/mainhelpers.py`:

- `filter_books` applies up to three boolean masks, each guarded by the
  Python truthiness of its argument: the title contains the topic (with
  underscores turned into spaces) ignoring case, `Average Rating >
  min_rating`, `Ratings Count > min_count`.
- `sort_books` sorts the caller's table in place, descending, on the column
  `SORT_DICT` gives for the `-s` choice.

The model, module by module:

- `Wrappers` (`wrappers.dfy`): `Option`, standing for an argument left at `None`.
- `Sequences` (`sequences.dfy`): order-preserving subsequences and
  duplicate-freedom, generic.
- `Text` (`text.dfy`): Python's `str.split` and `str.join`, the topic rewrite,
  ASCII lower-casing and substring search.
- `Books` (`books.dfy`): the `Book` row, the table as a sequence of rows, the
  parsed `Args`, the five-way `SortKey` with the argparse choices and
  `SORT_DICT`, and the ISBN labels of a table.
- `Filter` (`filter.dfy`): `filter_books` as functions over the row sequence;
  each mask is an order-preserving filter.
- `Sorting` (`sorting.dfy`): `sort_books` as a method that sorts an
  `array<Book>` in place (a selection sort), with the column orders it uses.
- `Scenarios` (`scenarios.dfy`): worked examples on small tables.

`filter_books` rebinds its local `data` to new frames and never changes its
argument, so it is modelled by functions. `sort_books` mutates the caller's
frame (`inplace=True`), so it is modelled by a method with `modifies`.

## Model

| member | source | states |
|---|---|---|
| `Text.Split` | src/mainhelpers.py:100 | `topic.split("_")` yields at least one piece, no piece contains `_`, and the pieces plus one separator between each account for every character |
| `Text.JoinSplit` | src/mainhelpers.py:100 | joining the pieces of `s.split(sep)` with a one-character glue is `s` with every `sep` replaced by the glue |
| `Text.RewriteTopic` | src/mainhelpers.py:100 | `" ".join(topic.split("_"))` has the topic's length, turns every `_` into a space, keeps every other character, and leaves no `_` |
| `Text.Contains` | src/mainhelpers.py:101 | the substring search is true exactly when the topic occurs at some position of the title |
| `Books.ParseSortChoice` | src/mainhelpers.py:48 | `-s` accepts exactly the five listed choices, and each accepted choice selects the key whose choice it is |
| `Books.SortDictCoversChoices` | src/mainhelpers.py:6-12 | `SORT_DICT` is defined on exactly the argparse choices and maps each key's choice to that key's column, so the lookup in `sort_books` cannot fail |
| `Filter.Where` | src/mainhelpers.py:102 | `data[mask]` keeps exactly the rows the mask passes: an order-preserving subsequence, every kept row passes, every passing row is kept as often as it occurred |
| `Filter.Step` | src/mainhelpers.py:104-105 | a step guarded by `if arg:` applies its mask when the guard is truthy and keeps the table otherwise |
| `Filter.FilterBooks` | src/mainhelpers.py:88-110 | the result is an order-preserving subsequence of the input; every row in it passes every active step (soundness); every input row that passes them is in it, as often as in the input (completeness) |
| `Filter.FilterKeepsAdmitted` | src/mainhelpers.py:99-110 | when every row already passes every active step the table comes back unchanged |
| `Filter.FilterIdentity` | src/mainhelpers.py:99-110 | with no truthy topic, rating or count argument the input is returned unchanged |
| `Filter.FilterIdempotent` | src/mainhelpers.py:88-110 | filtering the result again with the same arguments gives the same result |
| `Filter.FilterKeepsLabels` | src/mainhelpers.py:101-108 | the result's ISBN labels are a subsequence of the input's, so a unique index stays unique |
| `Filter.FalsyArgumentsSkip` | src/mainhelpers.py:99-108 | a topic of `""`, a `min_rating` of `0` or a `min_count` of `0` filters exactly as if the flag were absent |
| `Filter.ZeroRatingKeepsUnrated` | src/mainhelpers.py:104-105 | so `-r 0` keeps a row whose average rating is 0 or below, one that `rating > 0` would reject |
| `Scenarios.RatingAndCountScenario` | src/mainhelpers.py:104-108 | `-r 4.0 -c 100` on Dune (4.2, 500 ratings) and Foundation (4.5, 50 ratings) keeps only Dune |
| `Scenarios.TopicScenarioMatch` | src/mainhelpers.py:99-102 | the topic `space_opera` is looked for as "space opera" in any case, so it matches "A Space Opera Saga" |
| `Scenarios.TopicScenarioMiss` | src/mainhelpers.py:99-102 | the topic `space_opera` does not match "Space: A History" |
| `Sorting.AtMostTotal` | src/mainhelpers.py:124 | any two rows are comparable on every sortable column, Title included (code-point lexicographic order) |
| `Sorting.IndexOfMax` | src/mainhelpers.py:124 | picks a row of the unsorted part whose cell in the sort column is at least every other row's there |
| `Sorting.SortBooks` | src/mainhelpers.py:113-125 | after the in-place sort the table is non-increasing in the column `SORT_DICT[args.sort]` and holds the same rows, each as often as before |
| `Sorting.SortKeepsLabels` | src/mainhelpers.py:124 | a reordering keeps the multiset of ISBN labels |
| `Sorting.SortedPermutationsAgree` | src/mainhelpers.py:124 | two descending arrangements of the same rows read the same in the sorted column, so sorting a sorted table again cannot change that column |

## Left out

- `parse_argumets` (src/mainhelpers.py:14-71): argparse plumbing. Only the `-s` choice list is modelled, as `Books.ParseSortChoice`; `-t`, `-r` and `-c` arrive as `Args` fields, with `None` as `Option.None`.
- `load_books` (src/mainhelpers.py:74-85): reading the CSV file is I/O; the model starts from a table in memory.
- `aggregate_books` (src/mainhelpers.py:128-139): one call to pandas `describe()`, floating-point statistics computed by pandas.
- Printing and the `-l` row limit: presentation outside the helpers.
- Regular expressions: the topic is spliced into a regex pattern; the model treats it as a literal substring, so topics with regex metacharacters are not modelled.
- Case folding: `re.IGNORECASE` folds Unicode case; the model lower-cases ASCII letters only.
- Floating point: ratings are `real`, so rounding, NaN and infinities are not modelled; neither are missing titles or ratings nor `na_position`.
- Columns other than the five the helpers read (authors, publisher and so on) are not part of `Book`.
- The sorting algorithm: pandas' default quicksort is not modelled; `Sorting.SortBooks` is a selection sort that promises only what `sort_values` promises, sorted order and the same rows.
- Tie order: `sort_values` uses an unstable sort by default, so the model promises nothing about the relative order of tied rows. A stable, tie-preserving sort would be a stronger promise than the code makes.
- `Sorting.SortedPermutationsAgree`: sorting twice is stated as giving the same sort column, not the same row order, because tied rows may be rearranged by a second unstable sort.
- `sort_books` also returns the frame it sorted; the method sorts the caller's array and returns nothing, since the returned value is the same object.
- Threshold zero: the code skips a step whose argument is falsy, so `-r 0` and `-c 0` switch the step off rather than filtering at zero. The model follows the code (`Filter.FalsyArgumentsSkip`), not the reading where only an absent flag skips.
- Error kinds: a non-numeric column cannot arise in the typed model, and an unknown sort key is excluded by the `SortKey` datatype, so neither error path exists in it.
