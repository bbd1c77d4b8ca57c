# Blog content pipeline: conversion and KV import

This project models the two scripts that publish the blog's articles:

- `scripts/convert-md-to-json.js` reads every Markdown file of the articles directory. It drops those without a `title` or `date`, and gives each remaining one a random six-digit id and default fields. It also builds a plain-text excerpt, projects each article to an index entry, and sorts both lists newest first. Finally it writes one flat import map: every article under its id, plus `SYSTEM_INDEX_LIST` (the index) and `SYSTEM_INDEX_NUM` (the largest id plus one).
- `scripts/import-to-kv.js` checks that the two Cloudflare credentials are set and that the import file exists. It then uploads every key of the import map once, in `Object.keys` order. It counts the uploads that `uploadToKV` classifies as successful, and finally purges the zone cache when it has a cache token and a zone id.

Modules:

- `Wrappers`: `Option`.
- `JsText`: the string built-ins the scripts use (`trim`, `substring`, `split`, `path.extname`).
- `Markup`: `stripHtml` and the excerpt.
- `Decimal`: `Number#toString` and `parseInt` on digit strings.
- `DateSort`: the stable descending `Array#sort` by date, with its properties.
- `Convert`: `parseMarkdownFiles` and `generateArticleId`.
- `JsObject`: plain objects with the key enumeration order of section 10.1.11.1 of ECMA-262.
- `Snapshot`: the counter and the import map of `saveResults`.
- `Publish`: `validateConfig`, `uploadToKV`, `purgeCache` and `main` of the importer.

The loops of `parseMarkdownFiles`, `saveResults` and the importer's `main` are methods with loop invariants. Each is proved against a specification function (`Assemble`, `AddArticles`, `CountSuccesses`/`Puts`), and the promised properties are proved about those functions. The classifiers `uploadToKV` and `purgeCache`, `stripHtml`, `generateArticleId`, the tag split and the `maxId` expression are pure functions.

Behaviour of the code worth knowing, which the model follows:

- Tags keep empty pieces (`"a,,b"` gives three tags, the middle one empty).
- The index entry drops `priority` and `changefreq` as well as `contentMD` and `contentHtml`.
- An upload with an ok status succeeds when the body does not parse as JSON (an empty body, say) or when it parses and its `success` is truthy. A parsed body without `success`, or JSON `null`, is a failed upload.

About key order: the import map is built by inserting the reserved keys first and the ids afterwards (scripts/convert-md-to-json.js:125-132). However, `Object.keys` lists array-index keys first, in ascending numeric order. Six-digit ids are array indices. So the importer uploads the distinct ids in ascending order, then `SYSTEM_INDEX_LIST`, then `SYSTEM_INDEX_NUM`. `JsObject.Assign` models that order, and `Snapshot.ImportDataKeys` proves it. `Publish.ImportToKv` is proved for any key list.

## Model

| member | source | states |
|---|---|---|
| JsText.Trim | scripts/convert-md-to-json.js:49 | `trim` gives a result no longer than its input that neither starts nor ends with whitespace |
| JsText.TrimIsSlice | scripts/convert-md-to-json.js:49 | `trim` keeps one contiguous run of its input, so it adds nothing and reorders nothing |
| JsText.TrimStartIsSuffix | scripts/convert-md-to-json.js:49 | the leading part `trim` drops is all whitespace and the rest is kept unchanged |
| JsText.TrimEndIsPrefix | scripts/convert-md-to-json.js:49 | the trailing part `trim` drops is all whitespace and the rest is kept unchanged |
| JsText.Prefix | scripts/convert-md-to-json.js:49 | `substring(0, n)` is the prefix of length min(n, length of the string) |
| JsText.LastIndexOf | scripts/convert-md-to-json.js:25 | the last position of the character, or -1 exactly when it does not occur |
| JsText.IndexOf | scripts/convert-md-to-json.js:59 | the first position of the character, or -1 exactly when it does not occur |
| JsText.ExtnameIsMd | scripts/convert-md-to-json.js:25 | `path.extname(name) === '.md'` holds exactly when the name ends in ".md" after a non-empty stem |
| JsText.ExtnameOfMdName | scripts/convert-md-to-json.js:25 | a name ending in ".md" after a non-empty stem has the extension ".md" |
| JsText.MdNameOfExtname | scripts/convert-md-to-json.js:25 | a name whose extension is ".md" ends in ".md" after a non-empty stem |
| JsText.Split | scripts/convert-md-to-json.js:59 | `split(',')` yields one piece per comma plus one, and no piece holds a comma |
| JsText.JoinSplit | scripts/convert-md-to-json.js:59 | joining the pieces of `split` with the separator gives back the input, so the pieces are in order and nothing is lost |
| JsText.SplitJoin | scripts/convert-md-to-json.js:59 | splitting the join of separator-free pieces gives the pieces back, so `split` is the only such decomposition |
| Markup.StripHtmlIsSubsequence | scripts/convert-md-to-json.js:103-105 | `stripHtml` only deletes characters: its output is a subsequence of its input |
| Markup.StripHtmlNoTag | scripts/convert-md-to-json.js:103-105 | no `<` in the output of `stripHtml` is followed anywhere later by `>` |
| Markup.StripHtmlKeepsPlainText | scripts/convert-md-to-json.js:103-105 | text with nothing tag-shaped in it is left unchanged |
| Markup.StripHtmlIdempotent | scripts/convert-md-to-json.js:103-105 | stripping twice equals stripping once |
| Markup.NoTagSlice | scripts/convert-md-to-json.js:49 | taking a substring of tag-free text keeps it tag-free |
| Markup.Excerpt | scripts/convert-md-to-json.js:49 | `contentText` has at most 150 characters, no leading or trailing whitespace, and nothing tag-shaped |
| Decimal.ToDecimal | scripts/convert-md-to-json.js:99 | `toString` of a non-negative integer is canonical decimal text, with no leading zero |
| Decimal.ValueOfToDecimal | scripts/convert-md-to-json.js:97-100 | `parseInt` of the printed id gives back the number drawn |
| Decimal.ToDecimalOfValue | scripts/convert-md-to-json.js:121 | printing a parsed canonical id gives back the text, so distinct ids have distinct numbers |
| Decimal.ValueBounds | scripts/convert-md-to-json.js:121 | a canonical string of k+1 digits denotes a number in [10^k, 10^(k+1)) |
| Decimal.ToDecimalLength | scripts/convert-md-to-json.js:97-100 | a number with k+1 digits prints as k+1 characters |
| DateSort.Apply | scripts/convert-md-to-json.js:67-79 | mapping keeps the length and maps each position |
| DateSort.ApplySnoc | scripts/convert-md-to-json.js:67-79 | pushing one article and its projection keeps the index list the projection of the article list |
| DateSort.InsertPermutes | scripts/convert-md-to-json.js:90-91 | one insertion step adds exactly the inserted element |
| DateSort.InsertDescending | scripts/convert-md-to-json.js:90-91 | one insertion step keeps a newest-first list newest first |
| DateSort.SortByDatePermutes | scripts/convert-md-to-json.js:90-91 | the sorted list is a permutation of the unsorted one |
| DateSort.SortByDateDescending | scripts/convert-md-to-json.js:90-91 | the sorted list is ordered by date, newest first |
| DateSort.InsertKeepsDatedAt | scripts/convert-md-to-json.js:90-91 | one insertion step keeps the relative order of equally dated elements |
| DateSort.SortByDateStable | scripts/convert-md-to-json.js:90-91 | the sort is stable: elements of one date keep their relative order |
| DateSort.InsertCommutes | scripts/convert-md-to-json.js:90-91 | one insertion step commutes with a date-preserving projection |
| DateSort.SortByDateCommutes | scripts/convert-md-to-json.js:90-91 | sorting the projections equals projecting the sorted articles, since both sorts use the same comparator |
| Convert.Tags | scripts/convert-md-to-json.js:59 | absent or empty tags give `[]`; otherwise one tag per comma plus one, each the trimmed comma-free piece at its place, empty pieces kept |
| Convert.TagsOfPieces | scripts/convert-md-to-json.js:59 | for any comma-free pieces that join with commas into the attribute, the tags are those pieces trimmed, in order |
| Convert.GenerateArticleId | scripts/convert-md-to-json.js:97-100 | for every draw in [0, 1) the id is six digits, with a numeric value in [100000, 999999] |
| Convert.Normalize | scripts/convert-md-to-json.js:40-65 | an accepted document gives a well-formed article: its title, date and body; the id `generateArticleId` draws; the slug of the title as link; `marked` of the body as HTML, and the excerpt of that HTML as text; the tags split and trimmed from the attribute; `img` and `category` from the attributes, or `''` when falsy; `priority` and `changefreq` from the attributes, or `'0.5'` and `'daily'` when falsy |
| Convert.Accepted | scripts/convert-md-to-json.js:24-37 | exactly the ".md" entries that parse and have a truthy title and a date are kept, each as many times as it occurs |
| Convert.NormalizeAll | scripts/convert-md-to-json.js:40-67 | one article per accepted document |
| Convert.NormalizeAllAt | scripts/convert-md-to-json.js:40-67 | the k-th article is the k-th accepted document normalised with the k-th random draw |
| Convert.AssembleIsAcceptedNormalized | scripts/convert-md-to-json.js:24-67 | the loop's article list is the accepted documents normalised in directory order, the k-th with the k-th random draw |
| Convert.AssembleCount | scripts/convert-md-to-json.js:25-37 | every ".md" entry gives exactly one article or one warning; other entries give neither |
| Convert.AssembleWellFormed | scripts/convert-md-to-json.js:40-67 | every collected article is well formed |
| Convert.ConvertEntry | scripts/convert-md-to-json.js:25-85 | one loop turn yields an article exactly when the entry is accepted, that article is its normalisation, and the warning is the entry's |
| Convert.CollectEntry | scripts/convert-md-to-json.js:24-87 | one loop turn extends the articles, the projected index list and the warnings by the entry's outcome |
| Convert.CollectArticles | scripts/convert-md-to-json.js:21-87 | after the loop the article list is `Assemble`, the index list is its projection position by position, and the warnings are in order |
| Convert.ParseMarkdownFiles | scripts/convert-md-to-json.js:19-94 | both lists are sorted newest first, the articles are a permutation of those collected, the i-th index entry is the i-th article without `contentMD`, `contentHtml`, `priority` and `changefreq`, and every article is well formed |
| JsObject.Empty | scripts/convert-md-to-json.js:125-128 | an empty object is well formed |
| JsObject.IndexValueInjective | scripts/convert-md-to-json.js:131 | two array-index keys with one numeric value are the same key |
| JsObject.InsertKey | scripts/convert-md-to-json.js:131 | creating a key adds exactly that key; a key that is not an array index goes last |
| JsObject.InsertKeyDistinct | scripts/convert-md-to-json.js:131 | creating a new key keeps the key list free of duplicates |
| JsObject.InsertKeyFrontOrdered | scripts/convert-md-to-json.js:131 | an array index smaller than every other index goes first and keeps enumeration order |
| JsObject.InsertKeyOrdered | scripts/convert-md-to-json.js:131 | creating a new key keeps the enumeration order: array indices first and ascending |
| JsObject.InsertKeyFirst | scripts/convert-md-to-json.js:131 | a new array index placed after the first key is numerically larger than it |
| JsObject.AssignValid | scripts/convert-md-to-json.js:131 | `o[k] = v` keeps an object well formed: its keys stay distinct, array indices first and ascending, and exactly the keys that have values |
| JsObject.InsertIndexKeepsTail | scripts/convert-md-to-json.js:131 | creating an array-index key leaves two trailing non-index keys last |
| Snapshot.ArticleIdRange | scripts/convert-md-to-json.js:121 | a six-digit id parses to [100000, 999999] and is an array index |
| Snapshot.MaxId | scripts/convert-md-to-json.js:121 | `Math.max` of the parsed ids bounds every id and is attained by one |
| Snapshot.NextIndexNum | scripts/convert-md-to-json.js:121-122 | the counter exceeds every id, is 100001 without articles, is some id plus one otherwise, and stays within [100001, 1000000] |
| Snapshot.Reserved | scripts/convert-md-to-json.js:125-128 | the literal holds exactly the two reserved keys in that order with the index and the counter |
| Snapshot.IdsMembers | scripts/convert-md-to-json.js:130-132 | the id set holds exactly the articles' ids |
| Snapshot.IdsValidPrefix | scripts/convert-md-to-json.js:130-132 | every prefix of a list of generated ids is one too |
| Snapshot.LastWithId | scripts/convert-md-to-json.js:130-132 | the last position holding an id, or -1 |
| Snapshot.ReservedKeysNotIds | scripts/convert-md-to-json.js:126-127 | neither reserved key is made of digits, so neither is an array index or can equal an id |
| Snapshot.AddArticlesKeys | scripts/convert-md-to-json.js:130-132 | the assignments keep the map well formed and add exactly the article ids as keys |
| Snapshot.AddArticlesTail | scripts/convert-md-to-json.js:125-132 | the ids are enumerated before the reserved keys, which stay last |
| Snapshot.AddArticlesValues | scripts/convert-md-to-json.js:130-132 | each id holds the last article with that id; every other key keeps its value |
| Snapshot.SaveResults | scripts/convert-md-to-json.js:121-132 | the counter is `maxId + 1` and the import map is the literal after one assignment per article in order |
| Snapshot.ImportDataKeys | scripts/convert-md-to-json.js:125-132 | the keys are the distinct ids in ascending numeric order, then `SYSTEM_INDEX_LIST`, then `SYSTEM_INDEX_NUM`, and nothing else |
| Snapshot.KeyListShape | scripts/convert-md-to-json.js:125-132 | an ordered duplicate-free key list ending with the reserved keys has the ids, ascending, before them |
| Snapshot.DistinctCount | scripts/convert-md-to-json.js:125-132 | a duplicate-free key list is as long as its key set |
| Snapshot.ImportDataValues | scripts/convert-md-to-json.js:125-132 | the reserved keys hold the index list and the counter; when ids collide, the article later in sorted order wins |
| Publish.UnsetNames | scripts/import-to-kv.js:37 | the filter keeps exactly the names whose variable is absent or empty |
| Publish.MissingConfig | scripts/import-to-kv.js:34-37 | `missing` holds exactly the required credentials that are unset |
| Publish.MissingConfigCases | scripts/import-to-kv.js:36-37 | `missing` keeps the order of `required` in all four cases |
| Publish.UploadToKV | scripts/import-to-kv.js:47-82 | an upload succeeds exactly when the fetch returned, the status is ok, and the body is not JSON or has a truthy `success` |
| Publish.PurgeCache | scripts/import-to-kv.js:85-116 | no request without both the token and the zone id; a JSON body with a truthy `success` purges and a falsy one rejects, whatever the status; every other case is a fault that does not escape |
| Publish.CountSuccessesBounds | scripts/import-to-kv.js:138-150 | the tally is between 0 and the number of keys, all exactly when every upload succeeded, 0 exactly when none did |
| Publish.Puts | scripts/import-to-kv.js:139-143 | the i-th upload request carries the i-th key; its body is the value itself when that is a string and the value serialised once otherwise (line 58) |
| Publish.ImportToKv | scripts/import-to-kv.js:119-160 | missing credentials or a missing or unreadable import file end the run before any request with exit status 1; otherwise the run finishes with exit status 0 whatever the uploads and the purge return, after one upload per key in key order, a tally equal to the successful uploads, and one purge request after the loop exactly when both cache credentials are set |

## Left out

- Files and directories: `readdir`, `readFile`, `writeJSON`, `readJSON`, `existsSync` and the output layout are not modelled. The converter receives its directory entries as values. The importer receives the import file as absent, unreadable or a parsed object. The JSON round trip between the two scripts is not modelled: the importer's values are strings or opaque serialisable values.
- HTTP: URLs, headers, methods and `response.text()` are not modelled. A reply is a value that threw or returned an `ok` flag and a body. The body is not JSON, JSON `null`, or JSON whose `success` is truthy or not.
- The 100 ms `setTimeout` between uploads takes no part in the outcome.
- `console` output is not modelled. The converter's skip warnings are modelled as a `Skip` list. `process.exit` is modelled as a `RunResult` value and `Publish.ExitCode`.
- `front-matter`, `marked` and `slugify` are libraries whose source is not part of this model. Front matter arrives parsed, or as None when it threw. `marked` and `slugify` are function parameters that never throw. The attributes are strings or a date.
- Non-string YAML values are not modelled, such as a numeric title or a list of tags. In the scripts they go different ways:
  - `tags` is split (scripts/convert-md-to-json.js:59). `split` on a non-string throws, and the catch at line 83 skips the file with an error message.
  - A falsy title such as 0 takes the missing-field warning at line 34. A truthy non-string title is passed to `slugify` (line 43), whose handling of it belongs to that library.
  - A non-string `img`, `category`, `priority` or `changefreq` is copied into the article as it is (lines 55, 58, 63-64). Nothing throws.
- `Math.random` is a stream of draws in [0, 1). The k-th accepted document takes the k-th draw.
- Dates: `new Date(...)` parsing is not modelled. `createDate` is an already-parsed integer timestamp, so unparseable dates (a NaN comparator) are not modelled either.
- `Array#sort` is modelled by its result: the stable sort by the comparator, as a stable insertion sort. Its in-place algorithm is the engine's, not the scripts'.
- The cache token and zone id are inputs. Scraping them from `../index.js` with a regular expression is not modelled. The environment is a map from names to strings.
- Characters are Dafny characters, not UTF-16 code units, so `substring(0, 150)` counts characters. The whitespace `trim` removes is the ECMAScript WhiteSpace and LineTerminator set.
- `Math.max(...ids)` throwing a RangeError for very many articles is not modelled.
- Convert.IsMarkdown: tests the last three characters of the entry name. `JsText.ExtnameIsMd` proves this equal to `path.extname(name) === '.md'`, and `Convert.ConvertEntry` uses `Extname` itself.
- Convert.GenerateArticleId: `100000 + r * 900000` is computed on exact reals, not IEEE-754 doubles. The double product rounds, so some draws give a neighbouring id in the scripts. For example, the double nearest 1/3 gives 400000 there and 399999 in the model. The set of possible ids and the range [100000, 999999] are the same either way.
- Publish.ImportToKv: the import file's top level is an object. An array or scalar top level is not modelled.
