# Portfolio project filter

This is a model of the search-and-category filter on the Projects tab of a
personal portfolio page (app.py). The tab has two inputs. One is a search
box, whose text is lower-cased and stripped. The other is a category
multiselect, which yields a list of category names. A catalog record is kept
when both tests pass:

- The search text is empty, or it is a substring of the lower-cased string
  made by joining the record's title and its stack tags with single spaces.
- The selection is empty, or the record's category is one of the selected
  categories.

The kept records are listed in catalog order. When none is kept, the page
shows a "no matches" message instead.

The model has two modules:

- `Text` (text.dfy) models the Python string operations the filter uses:
  `str.lower()`, `str.strip()`, `" ".join(...)` and the substring test
  `q in hay`. It uses ASCII semantics. It also defines the query
  normalisation `raw.lower().strip()`.
- `Projects` (projects.dfy) models the project record, the `match`
  predicate, the filtering comprehension and the tab's two outcomes:
  `NoMatches` or `Cards(projects)`.

Everything is written as functions and lemmas, because the source is a
predicate plus a list comprehension. The local `ok` inside `match` is
reassigned in straight-line code. It is modelled as a `var` chain with the
same branches.

The catalog is a given `seq<Project>`. The search box text and the
multiselect's list are parameters.

The code indexes `p["title"]`, `p["stack"]` and `p["category"]` directly
(no `.get`), so the model's record always carries these fields. The
category selection is the list the multiselect returns, and membership is
tested with `in`.

## Model

| member | source | states |
|---|---|---|
| Text.IsSpace | app.py:104 | the whitespace `strip()` removes (definition: space, U+0009..U+000D, U+001C..U+001F); it is ASCII and never a letter |
| Text.LowerChar | app.py:104 | one character lower-cased has no upper-case letter, turns a capital into its own small letter, leaves every other character alone and keeps whitespace whitespace |
| Text.CapitalAndSmallLowerAlike | app.py:104 | a capital letter and its small letter lower-case to the same character |
| Text.Lower | app.py:104 | `lower()` keeps the length, lower-cases each position independently and leaves no upper-case letter |
| Text.LowerIdempotent | app.py:104 | lower-casing an already lower-cased string changes nothing |
| Text.LowerAppend | app.py:112 | lower-casing a concatenation is the concatenation of the lower-cased parts |
| Text.LeadingSpaces | app.py:104 | the count of leading characters `strip()` removes: all whitespace, and the next character is not |
| Text.TrailingSpaces | app.py:104 | the count of trailing characters `strip()` removes: all whitespace, and the one before is not |
| Text.Strip | app.py:104 | `strip()` returns a string with no whitespace at either end that the input pads with whitespace on both sides |
| Text.StripOfPadded | app.py:104 | uniqueness: any trimmed string padded with whitespace strips back to exactly itself |
| Text.StripIgnoresPadding | app.py:104 | extra whitespace around the input does not change the stripped result |
| Text.StripIdempotent | app.py:104 | stripping twice is stripping once |
| Text.Join | app.py:112 | `sep.join(parts)` is empty for no parts, the part itself for one part, has the parts' total length plus one `sep` per pair of neighbours, starts with the first part and contains every part |
| Text.JoinAppend | app.py:112 | joining two non-empty lists end to end is joining each with one `sep` between the results, so `sep` stands between neighbours and nowhere else |
| Text.SubstringIffOccurs | app.py:113 | the recursive `needle in hay` holds exactly when the needle occurs at some position of the hay (both directions) |
| Text.IsSubstring | app.py:113 | Python's `needle in hay` (recursive definition): the empty needle is in every string and a needle found is no longer than the hay; `SubstringIffOccurs` ties it to occurrence at a position |
| Text.SubstringTransitive | app.py:113 | a substring of a substring is a substring |
| Text.SubstringLower | app.py:112-113 | if `a in b` then `a.lower() in b.lower()` |
| Text.Normalize | app.py:104 | the normalised query has no upper-case letter, no whitespace at its ends, and is padded by whitespace in `raw.lower()` |
| Text.NormalizeIdempotent | app.py:104 | normalising a normalised query changes nothing |
| Text.NormalizeIgnoresCase | app.py:104 | `raw` and `raw.lower()` normalise to the same query |
| Text.NormalizeIgnoresPadding | app.py:104 | whitespace typed around the query does not change its normal form |
| Projects.Haystack | app.py:112 | the haystack `" ".join([title] + stack).lower()` has no upper-case letter and starts with the lower-cased title |
| Projects.SearchOk | app.py:111-113 | the search test holds exactly when the query is empty or occurs at some position of the haystack |
| Projects.CategoryOk | app.py:114-115 | the category test holds exactly when nothing is selected or some selected entry equals the record's category |
| Projects.Filter | app.py:117 | the comprehension keeps a record if and only if it is in the catalog and matches, and is no longer than the catalog |
| Projects.MatchingPositions | app.py:117 | the positions of the matching records, strictly increasing, holding a position exactly when the record there matches |
| Projects.FilterSelectsMatchingPositions | app.py:117 | the filtered list is the catalog read at the matching positions in increasing order, so it is an order-preserving subsequence of exactly the matching records |
| Projects.ProjectsTab | app.py:104-119 | the tab shows "no matches" exactly when no catalog record matches the normalised query and selection, and otherwise the non-empty filtered list |
| Projects.Match | app.py:109-116 | `match` (the `ok` chain, same branches as the source) holds exactly when the search test and the category test both hold |
| Projects.NoFiltersShowAll | app.py:110-117 | with empty search text and no category selected the result is the whole catalog, in order |
| Projects.FilterIdempotent | app.py:109-117 | filtering the filtered list again with the same inputs returns it unchanged |
| Projects.SearchThenCategory | app.py:111-117 | the combined result equals the category filter applied to the search-only result |
| Projects.CategoryThenSearch | app.py:111-117 | the combined result equals the search filter applied to the category-only result |
| Projects.CategorySelectionExact | app.py:114-117 | with a selection, every kept record has a selected category, and every catalog record with a selected category that passes the search is kept |
| Projects.UnlistedCategoryExcluded | app.py:106-115 | a record whose category is not one of the multiselect's options is never kept while a selection of those options is active |
| Projects.SearchHitsTitleOrTag | app.py:111-113 | a search text found in the lower-cased title or in one lower-cased tag passes the search test |
| Projects.SearchAcrossTitleAndTag | app.py:112-113 | a query made of a tail of the title, the joining space and a head of the first tag passes the search |
| Projects.SameNormalFormSameTab | app.py:104 | search texts with the same normal form give the same tab |
| Projects.QueryNormalisation | app.py:104 | whitespace around the search text and its case do not change the tab |
| Projects.ReactQueries | app.py:104 | "REACT", " react " and "react" give the same tab |
| Projects.EmptyCatalogNoMatches | app.py:117-119 | an empty catalog always shows "no matches", whatever the inputs |
| Projects.SingleRecordTab | app.py:117-119 | a one-record catalog shows that record exactly when it matches, and "no matches" otherwise |
| Projects.TagSearchAndCategoryMismatch | app.py:111-119 | a record tagged "MQTT" in category "EV Systems" is found by "mqtt" and is excluded once "Web / AI" is the selected category, leaving "no matches" |

## Left out

- A record missing a field raises KeyError wherever it is first read: title/stack at app.py:112 when the query is non-empty, category at app.py:115 when a selection is active and the search passed, any field at app.py:123-125 when the record is kept. Not modelled: the record always carries every field.
- The selection is the multiselect's list (app.py:106), modelled as `seq<string>` with `in`.
- Unicode case mapping and whitespace: `str.lower()` and `str.strip()` are modelled for ASCII only. Only 'A'..'Z' change case. Whitespace is space, U+0009..U+000D and U+001C..U+001F.
- Loading `projects.json` (app.py:107) is file I/O. The catalog is a parameter, and a malformed file or a missing key is not modelled.
- The search box and the multiselect widgets (app.py:104, 106) are user input and become parameters. The model does not require the selection to come from the five offered categories, because `match` does not either.
- The card rendering loop (app.py:121-133) is UI output only. `Cards(projects)` stands for it.
- The `year`, `highlights`, `github` and `link` fields are carried on the record but are only read by that rendering.
- The theme toggle (app.py:26-34), the animation download (app.py:52-59), the visit counter (app.py:66-72), the PDF embedding (app.py:160-166) and the rest of the page are rendering or network I/O with no computed result.
