# Wikipedia category scraper: a Dafny model of its corpus builder

The scraper builds a text corpus from Wikipedia. It walks a taxonomy that maps
each category label to a list of subcategories. It fetches the member pages of
every subcategory and keeps ordinary articles that are not list pages. For
each kept page it takes the summary and the text of all sections except a
fixed set of unwanted ones ("Literatur", "Weblinks", ...). It cuts that text
to a character window and stores one record per article title. Each category
accepts at most a fixed number of articles.

This project models the three pieces of logic behind that, each in its own
module:

- `Sections` (sections.dfy): the section tree and the recursive section
  filter `extracting_section`. The filter is a recursive function `Extract`
  over a `Section` datatype (title, text, subsections). Lemmas state what it
  keeps: pre-order concatenation when nothing is excluded, nothing from an
  excluded section or anything below it, and independence of siblings.
- `Articles` (articles.dfy): per-article extraction `get_article`. Python's
  slice `raw[min:max]` is modelled with Python's own index rules, negative
  indices included (`SliceIndex`, `Slice`). `GetArticle` returns an
  `Option<Record>`: `None` stands for the empty dict the source returns.
- `Corpus` (corpus.dfy): the crawl `generate_categories`. The specification is
  a chain of functions. `Picks` gives the (title, record) pairs a list of
  pages yields. `Accepted` cuts them at the quota. `AllAccepted` joins the
  categories in taxonomy order. `BuiltCorpus` writes all entries into a map in
  that order. The imperative loops are methods proved equal to that
  specification: `GenerateCategories` runs the loop over categories and
  `FillCategory` the two nested loops over subcategories and member pages,
  with the counter and both `break`s. `FillCategory` is the per-category body
  (wikiscraper.py:80-106) as a method of its own, with the same order of
  operations. Lemmas about the specification give
  well-formed records, eligible keys, the quota bound and last-writer-wins.

The encyclopedia client is replaced by data. A member page is a `Page` value
(title, namespace, existence flag, summary, section tree). The membership
listing of a subcategory is a function parameter `members: string -> seq<Page>`.
The taxonomy dict is a sequence of (label, subcategories) pairs in insertion
order.

Where the docstrings and the code disagree, the model follows the code. The
docstring of `generate_categories` (wikiscraper.py:50-52) speaks of a minimum
of 100 words and shortening beyond 2000. The CLI help calls the two bounds a
minimum and maximum size. The code applies the slice
`reduced_article[min_article_length:max_article_length]`
(wikiscraper.py:158). So `min_article_length` is a left-trim offset and
`max_article_length` a right cut-off, not length thresholds. `GetArticleWindow`,
`SliceFiveToEight` and `SliceNegativeStart` state exactly that behaviour.

## Model

| member | source | states |
|---|---|---|
| `Sections.Extract` | wikiscraper.py:13-39 | the kept text is never longer than all the texts of the section tree together |
| `Sections.ExtractNothingExcluded` | wikiscraper.py:32-39 | with an empty exclusion list the result is the text of every section in pre-order: a parent before its subsections, siblings in order |
| `Sections.ExcludedSubtreeIgnored` | wikiscraper.py:33-38 | replacing the section at any path that passes through an excluded section (new text, new subsections at any depth) leaves the result unchanged: neither an excluded section nor any of its descendants contributes text |
| `Sections.ExcludedSiblingDropped` | wikiscraper.py:33-38 | an excluded section drops out and the result is what its earlier and later siblings yield on their own |
| `Sections.ExtractAppend` | wikiscraper.py:33-39 | filtering two section lists one after the other gives the concatenation of their results |
| `Sections.ExtractSectionwise` | wikiscraper.py:33-39 | the result over a list is the result before section i, then section i alone, then the rest, in that order |
| `Articles.SliceIndex` | wikiscraper.py:158 | a slice bound is normalised as Python does: counted from the end when negative, then clamped to the string |
| `Articles.Slice` | wikiscraper.py:158 | the slice is empty exactly when the normalised bounds do not increase, otherwise it is the substring between them; it is never longer than the input |
| `Articles.SliceWindow` | wikiscraper.py:158 | for non-negative bounds the slice is the text from offset min up to min(max, length), or empty when min is not below that cut |
| `Articles.RawText` | wikiscraper.py:155-157 | the untrimmed article starts with the summary and is no longer than the summary plus all section texts |
| `Articles.GetArticle` | wikiscraper.py:151-165 | a missing page gives no record; a record is returned exactly when the page exists and the window is non-empty; its text is that window, its length the text's length (non-empty) and its category the argument |
| `Articles.GetArticleWindow` | wikiscraper.py:155-163 | for an existing page and non-negative bounds the record is exactly (category, raw[min..min(max, len(raw))], its length), and there is none exactly when min is not below that cut |
| `Articles.GetArticleHelloWorld` | wikiscraper.py:151-165 | summary "Hello " plus one kept section "World" with window [0:10000] gives text "Hello World" of length 11 |
| `Articles.SliceFiveToEight` | wikiscraper.py:158 | the window [5:8] of "0123456789" is "567" |
| `Articles.SliceNegativeStart` | wikiscraper.py:158 | a negative lower bound counts from the end: [-3:10000] of "0123456789" is "789" |
| `Corpus.ContainsIff` | wikiscraper.py:93-95 | the list-page test `x in title` holds exactly when x occurs at some offset of the title |
| `Corpus.Pick` | wikiscraper.py:93-104 | a page yields a record exactly when it is in namespace 0, its title has neither list marker, it exists and its window is non-empty; the record is well-formed, carries the category and its text is that window |
| `Corpus.GenerateCategories` | wikiscraper.py:42-110 | the returned dict is the specified corpus; every value is a well-formed record and no key contains a list marker; for each category the pages examined stop exactly when the quota is reached |
| `Corpus.FillCategory` | wikiscraper.py:80-106 | one category's loop writes exactly the category's accepted entries, in order, over the existing dict, and examines the shortest prefix of its pages that meets the quota (or all of them) |
| `Corpus.VisitStep` | wikiscraper.py:90-106 | examining one more page below the quota raises the counter and writes the record exactly when the page yields one, and keeps the scan state consistent |
| `Corpus.CategoryDone` | wikiscraper.py:82-91 | whether the subcategories run out or the quota stops the scan, what was written is the category's accepted entries and the scan stopped at the quota |
| `Corpus.PicksFrom` | wikiscraper.py:93-106 | every entry comes from a page of the list with that title that passes the filter and whose extraction gave that record |
| `Corpus.AcceptedFrom` | wikiscraper.py:93-106 | every entry a category accepts is a well-formed record of that category, extracted from an eligible member page with the same title |
| `Corpus.AllAcceptedFrom` | wikiscraper.py:79-106 | every entry of the run was accepted by one of the categories |
| `Corpus.InsertAllKeys` | wikiscraper.py:105 | the keys written are exactly the titles of the accepted entries |
| `Corpus.InsertAllLast` | wikiscraper.py:105 | a title holds the record of its last entry |
| `Corpus.InsertAllFrom` | wikiscraper.py:105 | every stored value was written by some entry with that title |
| `Corpus.CorpusEntries` | wikiscraper.py:93-106 | every key of the corpus is the title of a namespace-0 page of some category's subcategories without either list marker, and its value is the well-formed record get_article produced for that page under that category |
| `Corpus.CorpusQuota` | wikiscraper.py:80-106 | a category accepts at most max(max_articles, 0) entries, and the corpus holds at most that many records naming the category |
| `Corpus.CorpusLastWriterWins` | wikiscraper.py:104-106 | when a title is accepted again later in the run, the corpus keeps the later record |
| `Corpus.AcceptedQuotaExample` | wikiscraper.py:80-91 | with quota 2 and five candidates in one subcategory, exactly the first two are accepted |
| `Corpus.QuotaStopExample` | wikiscraper.py:82-91 | with quota 2 and five pages that would all be accepted, only the first two pages are examined |

## Left out

- `parse_arguments` and `main` (wikiscraper.py:168-279): argument parsing, logging setup, reading the taxonomy JSON file and writing JSON or CSV output are I/O.
- The `wikipediaapi` client: `page`, `categorymembers`, `exists()`, `summary` and `sections` are network calls. They become the `members` function and the fields of `Page`. A page is not re-fetched, so the client's behaviour between calls is not modelled.
- The `tqdm` progress bar and the per-category log banner (wikiscraper.py:87-89, 108-109) only report progress.
- Wall-clock timing and the runtime in minutes (wikiscraper.py:218, 259-260, 279) are clock reads and float arithmetic.
- The unused `level` argument of `extracting_section` is dropped.
- Concurrency and failures of the client (exceptions, hangs) are not modelled; the run is sequential.
- The insertion order of the `articles` dict (wikiscraper.py:77, 105) is not modelled: the corpus is an unordered `map`, so the order of its keys, and hence the row order of the JSON and CSV output (wikiscraper.py:265, 269), is not captured. Which record each title ends up holding is modelled (`CorpusLastWriterWins`).
- `Corpus.CorpusQuota` requires distinct category labels. A Python dict cannot hold the same key twice, but a sequence of pairs can.
