# Wine catalog: pluralisation and product grouping

A Dafny model of the logic inside the wine shop's page generator (`main.py`).
The script reads a spreadsheet of wines, turns every row into a product record,
groups the products by category, keeps only the three categories shown on the
page in a fixed order, and renders the page with a helper that picks the right
Russian word for "year" next to the winery's age.

The model has five modules:

- `Cells` (`cells.dfy`): a spreadsheet cell after missing values became `None`:
  `Absent`, `Str(s)` or `Num(n)`. It defines Python truthiness of a cell, and
  `str()` as an f-string uses it, with integers written in decimal.
- `Plural` (`plural.dfy`): `YearWord`, the agreement rule of `get_year_word`.
  It is proved to agree, for every non-negative number, with an independent
  statement of the same grammar, the Unicode CLDR plural categories for
  Russian; for negative numbers the two differ.
- `Products` (`products.dfy`): the `Row` and `Product` records and
  `MakeProduct`. This covers the `or ''` defaults, the `images/` prefix and the
  exact-match promotion flag.
- `Grouping` (`grouping.dfy`): the `defaultdict(list)` as a sequence of
  (category, bucket) pairs in insertion order; `Insert` is one `append`, and
  `Group` is the loop over the rows. `Bucket` is a reference definition of one
  category's products, written without any dictionary.
- `Ordering` (`ordering.dfy`): `Project`, the dictionary comprehension over
  the priority list `["Белые вина", "Красные вина", "Напитки"]`; `BuildCatalog`
  is the whole pipeline from rows to the ordered catalog.

Grouping and ordering are pure functions of the row sequence. So the same rows
always give the same catalog, order included, by construction. The failure path
of the spreadsheet read (an empty frame) is the empty row sequence.
`BuildCatalog` maps it to the empty catalog.

The model follows the code in three places where a reader might expect otherwise:

- Price and variety are not always strings. `row['Цена'] or ''` passes a truthy
  number through unchanged, so `Product.price` and `Product.variety` are cells.
- Negative numbers get the word the code computes. Python's floored `%` (which
  Dafny's Euclidean `%` matches for positive divisors) makes `-1` give "лет".
- The category is the raw cell, as in the code. An empty or numeric category
  gets its own bucket and is then dropped, because it is not on the list.

## Model

| member | source | states |
|---|---|---|
| Plural.YearWord | main.py:10-20 | the result is always one of "год", "года", "лет"; it is "лет" whenever `n % 100` is in 11..20; "год" exactly when `n % 10 == 1` outside those teens; "года" exactly when `n % 10` is 2..4 outside them; "лет" in every other case |
| Plural.YearWordMatchesCldr | main.py:10-20 | for every non-negative number the word equals the one the CLDR Russian plural category (one / few / many) selects, so widening the teen exception to 11..20 changes nothing |
| Plural.YearWordPeriodic | main.py:11-13 | the word depends only on the last two digits: adding any multiple of 100 keeps it |
| Plural.NegativeDivergesFromCldr | main.py:12-13 | for -1 the floored remainder gives "лет", where the CLDR rule on the absolute value would give "год" |
| Cells.Decimal | main.py:47 | a non-negative integer in the picture column renders as a non-empty run of decimal digits, with no leading zero except for "0"; the sign of a negative one is added by `Cells.Text` |
| Cells.DecimalRoundTrip | main.py:47 | reading the rendered digits back gives the number again |
| Cells.Text | main.py:47 | a text cell renders as itself; a number renders as a non-empty string that starts with '-' exactly when it is negative, and whose digits (after the sign, if any) read back as its magnitude, with no leading zero except in "0" |
| Products.OrEmptyNormalises | main.py:45-46 | `cell or ''` never yields the missing marker, keeps truthiness, and applying it twice changes nothing |
| Products.MakeProduct | main.py:43-49 | the name is copied; variety and price keep a truthy cell and become "" otherwise; the image path is empty exactly when the picture cell is falsy, and otherwise is "images/" followed by the cell's text; the promotion flag holds exactly when the cell is the text "Выгодное предложение" |
| Products.EmptyRowDefaults | main.py:44-48 | a row whose optional cells are empty gets variety "", price "", image "" and no promotion |
| Products.PicturePath | main.py:47 | the picture "bottle.png" gives "images/bottle.png" |
| Products.NumericPicturePath | main.py:47 | a numeric picture 42 gives "images/42" |
| Grouping.Lookup | main.py:55 | reading a category gives the bucket of its first entry, and an empty list when the category is absent |
| Grouping.Insert | main.py:50 | appending to a category adds the product at the end of that category's bucket only; a new category is added after the existing ones; the total count grows by one |
| Grouping.Bucket | main.py:40-50 | a category's reference bucket has no more products than there are rows, and each of them is the product of a row of that category |
| Grouping.FirstOccurrences | main.py:40-50 | the distinct categories, each once, holding exactly the elements of the column, and ordered so that each occurs in the column before the first occurrence of any later one: the key order of a dict filled row by row |
| Grouping.Group | main.py:40-50 | the keys are the categories in order of first occurrence; every category's bucket equals its reference bucket (its rows' products in row order); the bucket sizes add up to the number of rows |
| Grouping.GroupKeys | main.py:40-50 | the keys are distinct, and a category is a key exactly when some row has it |
| Grouping.RowInOwnBucket | main.py:41-50 | every row's product is in the bucket of its own category |
| Ordering.Project | main.py:52-56 | the output names keep the priority list's order; a name is present exactly when it is on the list and a key of the grouping; each bucket is the grouping's bucket for that name; names are distinct when the list is |
| Ordering.BuildCatalog | main.py:40-56 | the catalog's names are distinct and in priority order; a name appears exactly when it is on the list and some row has that category; each bucket is that category's full reference bucket; an empty row sequence gives an empty catalog |
| Ordering.ProjectSize | main.py:54-56 | projecting a grouping onto a list of distinct names keeps exactly as many products as there are rows whose category is on the list |
| Ordering.CatalogKeepsListedRows | main.py:40-56 | the catalog holds one product for every row of a listed category, so no such row is lost |
| Ordering.UnknownCategoryDropped | main.py:52-56 | rows of "Напитки", "Белые вина" and an unknown category give the names "Белые вина", "Напитки" in that order |
| Ordering.ProjectWhiteAndDrinks | main.py:52-56 | a grouping with white wines and drinks but no red wines projects to the names "Белые вина", "Напитки" in that order |

## Left out

- Reading the spreadsheet with pandas, the fail-open `try/except` that falls back to an empty frame, and the NaN-to-None step (main.py:32-38) are foreign library I/O. Rows are given already normalised, and the empty row sequence stands for the failure path.
- A sheet missing one of the six columns makes the row access raise `KeyError`; rows here always have every column.
- Floating-point cells are not modelled: a cell is text, a whole number or empty. So `0.0` falsiness and float formatting in the picture path are not covered.
- `load_dotenv` and the `DATA_PATH` lookup with default `wine3.xlsx` (main.py:28-30) are environment I/O.
- The winery's age `current_year - 1920` (main.py:24-26) reads the system clock; only `YearWord`, which the template applies to it, is modelled.
- The Jinja environment and template rendering, including the constant `assets/profitable.png` (main.py:58-71), are an opaque foreign library.
- Writing `index.html` and serving the directory on 0.0.0.0:8000 (main.py:73-78) are file and network I/O.
- Python's hash-based `dict`, `defaultdict` and `OrderedDict` are modelled only through their observable order, as sequences of (key, value) pairs.
