# location-mapper: a verified model of the tree builder

The location mapper fetches the location forest of a real-estate site. That
forest holds districts, their councils and the councils' parishes. The mapper
turns it into two outputs:

- a three-level **location tree**, keyed by slugs, where each level keeps a
  display name and a list of aliases;
- a flat **alias index** from every alias to the slash-separated path
  `district/council/parish` of the place it names.

This project models the pure core of `main.js` and proves its properties:

- `normalize.dfy` (module `Normalize`): `stripDiacritics`, `norm` (the alias
  key) and `slugify` (the path segment). They are modelled as the chain of
  regular-expression replacements the source applies.
- `synonyms.dfy` (module `SynonymGenerator`): `synonymsFromName`.
  - `Synonyms` is the specification function.
  - `SynonymsFromName` is the loop-based method, proved equal to it.
  - `Synonyms` includes the recovery of the pre-merger parish names from
    "União das Freguesias de X e Y".
- `values.dfy` (module `JsValue`): the loosely typed fields of a location
  record, with JavaScript truthiness and `String(v)`.
- `tree.dfy` (module `LocationTree`): `traverse` and the loop over the roots.
  - `Visit`, `Walk`, `WalkChildren` and `WalkForest` specify one visit, one
    subtree, a run of siblings and the whole forest.
  - The class `Mapper` holds the tree and the index as fields. Its methods
    update both in place and are proved to follow those functions.
  - The lemmas prove three things. An entry is never replaced once it exists
    (first insert wins). The index changes only when a new parish is met.
    Every alias leads to a location that exists in the tree.

The last write to the index wins. When a new parish is met, the district's
aliases are written first, then the council's, then the parish's. Last come
the normalised path names: the district name, "district council" and
"district council parish". All three point to the full parish path. So the key
of the district's own name ends up pointing to the most recent parish of that
district. `LocationTree.DistrictNameToParish` states this behaviour, and
`LocationTree.VisitParishIndex` gives the complete picture.

## Model

| member | source | states |
|---|---|---|
| Normalize.IsAlnum | main.js:13 | defined as the class `[a-z0-9]` of both normalisers (also main.js:20): lower-case ASCII letters and decimal digits |
| Normalize.IsSpace | main.js:14-15 | defined as the JavaScript class `\s`, the same set `trim` strips: tab, line feed, vertical tab, form feed, carriage return, space, U+00A0, U+1680, U+2000-U+200A, U+2028, U+2029, U+202F, U+205F, U+3000 and U+FEFF (also the `\s+` of main.js:31) |
| Normalize.IsApostrophe | main.js:12 | defined as the class `[\u2019']`: the ASCII apostrophe and U+2019 |
| Normalize.IsDiacritic | main.js:7 | defined as the characters with the Unicode Diacritic property that the model covers: the ASCII and Latin-1 spacing accents and the combining marks U+0300-U+0362 |
| Normalize.BaseLetter | main.js:6-7 | defined as the base letter canonical decomposition leaves for a precomposed Latin-1 letter or the Kelvin or Angstrom sign; any other character is its own base |
| Normalize.StripDiacritics | main.js:6-7 | defined as each character replaced by its base letter, with the diacritics themselves removed |
| Normalize.LowerChar | main.js:11 | defined as `toLowerCase` on one character: A-Z and the Latin-1 capitals (except U+00D7) move up by 32 |
| Normalize.ToLower | main.js:11 | defined as LowerChar applied to every character (also main.js:19) |
| Normalize.RemoveApostrophes | main.js:12 | defined as the text with every ' and U+2019 deleted |
| Normalize.Lowered | main.js:10-11 | defined as stripDiacritics of the text followed by `toLowerCase`, the first two steps shared by norm and slugify (also main.js:18-19) |
| Normalize.KeySource | main.js:10-12 | defined as Lowered followed by the deletion of apostrophes: the text norm's run replacements start from |
| Normalize.ReplaceRuns | main.js:13-21 | defined as the text with every maximal run of one character class (`[^a-z0-9]`, `\s` or `-`) replaced by one given character |
| Normalize.Trim | main.js:15 | defined as `trim`: leading and trailing `\s` characters removed |
| Normalize.StripEdges | main.js:22 | defined as the replacement of `^-` and of `-$` by '': one separator dropped at each end |
| Normalize.Norm | main.js:9-15 | defined as the chain stripDiacritics, toLowerCase, apostrophe deletion, `[^a-z0-9]+` to a space, `\s+` to a space, trim |
| Normalize.Slugify | main.js:17-22 | defined as the chain stripDiacritics, toLowerCase, `[^a-z0-9]+` to a hyphen, `-+` to a hyphen, edge hyphens dropped |
| Normalize.LeadLen | main.js:13 | the leading run of [a-z0-9] ends at the first other character or at the end of the text |
| Normalize.Words | main.js:13 | the reference the normalisers are proved against: the maximal runs of [a-z0-9] of a text, in order; each is a non-empty word |
| Normalize.JoinWith | main.js:13-15 | words written with one separator between them; the result is empty exactly when there are no words |
| Normalize.JoinWithConcat | main.js:13-15 | joining two non-empty word lists puts exactly one separator between their joins |
| Normalize.WordsSplit | main.js:13 | a non-[a-z0-9] character ends a word: the words of x c y are the words of x followed by those of y |
| Normalize.WordsOfJoin | main.js:13-15 | round trip: the words of words joined by a non-[a-z0-9] separator are those words |
| Normalize.RunsWords | main.js:13-22 | replacing every `[^a-z0-9]+` run by one separator and dropping a separator at each end gives exactly the words of the text joined by single separators |
| Normalize.NormWords | main.js:9-15 | the key is the maximal [a-z0-9] runs of the lower-cased, apostrophe-free text joined by single spaces |
| Normalize.SlugifyWords | main.js:17-22 | the slug is the maximal [a-z0-9] runs of the lower-cased text joined by single hyphens |
| Normalize.NormSeparates | main.js:13-15 | a character whose key is one non-[a-z0-9] character splits the text: the key of a c b is key(a) + " " + key(b), or the one non-empty key, or "" |
| Normalize.SlugifySeparates | main.js:20-22 | the same for the slug, with one hyphen between the two slugs |
| Normalize.NormHyphenOrSpace | main.js:42 | "a-b" and "a b" have the same key, for all texts a and b |
| Normalize.SlugifyHyphenOrSpace | main.js:17-22 | "a-b" and "a b" have the same slug, for all texts a and b |
| Normalize.LoweredConcat | main.js:10-11 | diacritic stripping and lower-casing work character by character over concatenation |
| Normalize.NormCanonical | main.js:9-15 | the key is words of [a-z0-9] joined by single spaces, with no space at either end; its letters and digits are exactly those of the lower-cased, apostrophe-free input |
| Normalize.NormEmptyIff | main.js:9-15 | the key is empty exactly when the lower-cased, apostrophe-free input has no [a-z0-9] character |
| Normalize.NormFixed | main.js:9-15 | a canonical space-joined key is left unchanged by norm |
| Normalize.NormIdempotent | main.js:9-15 | norm(norm(s)) == norm(s) |
| Normalize.NormDropsApostrophe | main.js:12 | inserting ' or U+2019 anywhere does not change the key |
| Normalize.KeySourceConcat | main.js:10-12 | diacritic stripping, lower-casing and apostrophe removal work character by character: the result for a + b is the result for a followed by the result for b |
| Normalize.StripDiacriticsConcat | main.js:6-7 | stripDiacritics distributes over concatenation |
| Normalize.PlainUnchanged | main.js:6-12 | text made only of [a-z0-9], space and hyphen passes through stripDiacritics, toLowerCase and the apostrophe removal unchanged |
| Normalize.RunsShape | main.js:13 | replacing every run of non-[a-z0-9] characters by one separator gives words joined by single separators and keeps every letter and digit |
| Normalize.RunsFixed | main.js:14 | the second run replacement (`\s+` to a space, `-+` to a hyphen) changes nothing in text that is already single-separated |
| Normalize.HyphenateRuns | main.js:13-20 | the hyphen run replacement equals the space run replacement with spaces then turned into hyphens |
| Normalize.TrimJoined | main.js:15 | on single-separated text, trim removes exactly one leading and one trailing space |
| Normalize.EdgesCanonical | main.js:22 | dropping one leading and one trailing hyphen from single-separated text leaves no separator at either end and keeps every letter and digit |
| Normalize.SlugifyCanonical | main.js:17-22 | the slug is words of [a-z0-9] joined by single hyphens, with no hyphen at either end; its letters and digits are those of the lower-cased input |
| Normalize.CanonicalIffWords | main.js:20-22 | a non-empty canonical string is exactly one that matches ^[a-z0-9]+(sep[a-z0-9]+)*$, in both directions |
| Normalize.SlugifyMatchesPattern | main.js:17-22 | a slug is empty or matches ^[a-z0-9]+(-[a-z0-9]+)*$ |
| Normalize.SlugifyEmptyIff | main.js:17-22 | the slug is empty exactly when the lower-cased input has no [a-z0-9] character |
| Normalize.SlugifyFixed | main.js:17-22 | a canonical hyphen-joined slug is left unchanged by slugify |
| Normalize.SlugifyIdempotent | main.js:17-22 | slugify(slugify(s)) == slugify(s) |
| Normalize.SlugifyHyphenatesNorm | main.js:9-22 | for input without apostrophes, the slug is the key with its spaces turned into hyphens |
| SynonymGenerator.UnionPrefix | main.js:31 | defined as "uniao das freguesias ", the literal start of the regular expression, already in key form |
| SynonymGenerator.Articles | main.js:31 | defined as the alternatives de, da, do, das and dos of the group, in the order the regular expression tries them; the first one followed by white space wins, and ArticleEndUnique shows no other can match |
| SynonymGenerator.Conjunction | main.js:35-36 | defined as " e ", the text tested by `includes` and cut at by `split` |
| SynonymGenerator.Find | main.js:35 | `includes(' e ')`: a result is an occurrence of the pattern and no occurrence comes before it; None means there is no occurrence at all |
| SynonymGenerator.Split | main.js:36 | `split(' e ')`: at least one piece, the pieces joined by " e " give back the input, and no piece contains " e ". There is more than one piece exactly when " e " occurs, and then the first piece ends at its first occurrence. The same holds for every later piece: the text from piece i onwards has its first " e " right after piece i, so every cut is the leftmost one left to right |
| SynonymGenerator.ArticleEnd | main.js:31 | the group of the articles de, da, do, das and dos followed by `\s`: a match is one of the articles, followed by whitespace; no match means no article is followed by whitespace at the start of the text |
| SynonymGenerator.StripUnionPrefix | main.js:31 | defined as the removal of "uniao das freguesias ", an article and `\s+` at the start of the key: when the prefix and an article followed by whitespace start the key, they are removed with all the whitespace after them; otherwise the key is unchanged |
| SynonymGenerator.StripUnionPrefixOnly | main.js:31 | the converse of StripUnionPrefixOf: when the replacement changes a key, the key is "uniao das freguesias <article> rest" and the result is rest |
| SynonymGenerator.UnionPrefixParts | main.js:31 | a key the article group matches splits into the prefix, the article, one space and the rest, and the replacement leaves the rest |
| SynonymGenerator.Add | main.js:28 | defined as `Set.add` on an insertion-ordered list: the element is appended unless already present |
| SynonymGenerator.AddAll | main.js:36-39 | defined as Add applied to each element in turn |
| SynonymGenerator.PartKeys | main.js:36-39 | defined as the non-empty keys of the pieces, in order |
| SynonymGenerator.Cleaned | main.js:31 | defined as the key of the name with the merged-parish prefix removed |
| SynonymGenerator.Synonyms | main.js:25-45 | defined as Collected with "" filtered out, `[...syns].filter(Boolean)`: the key, then the cleaned key, then (when " e " occurs in the cleaned key) the non-empty keys of its pieces, without repeats and with "" filtered out |
| SynonymGenerator.RemoveEmpty | main.js:44 | `filter(Boolean)` keeps exactly the non-empty strings and keeps a non-empty first element first |
| SynonymGenerator.RemoveEmptySnoc | main.js:44 | filtering xs + [x] filters xs, then keeps x only when x is non-empty |
| SynonymGenerator.RemoveEmptyDistinct | main.js:44 | filtering keeps a list free of repeats |
| SynonymGenerator.AddFacts | main.js:28 | `Set.add`: membership grows by exactly the new element, the old order is a prefix, and distinctness is kept |
| SynonymGenerator.AddAllFacts | main.js:36-39 | adding many elements: membership is the union, the old order is a prefix, and distinctness is kept |
| SynonymGenerator.PartKeysContents | main.js:36-39 | the keys of the pieces are exactly the non-empty norms of some piece |
| SynonymGenerator.AddPartKeys | main.js:36-39 | the forEach loop over the pieces adds the non-empty piece keys in order, as the specification function does |
| SynonymGenerator.SynonymsFromName | main.js:25-45 | the method returns the specified alias list |
| SynonymGenerator.Collected | main.js:26-40 | defined as the contents of the set `[...syns]` before `filter(Boolean)`: the key, then the cleaned key, then the piece keys when " e " occurs, each added only when new |
| SynonymGenerator.CollectedFacts | main.js:26-40 | the set before filtering holds no repeats, starts with the key of the name, and holds exactly the key, the cleaned key and, when " e " occurs, the piece keys |
| SynonymGenerator.SynonymsDistinct | main.js:26-44 | the aliases hold no repeats and no empty string |
| SynonymGenerator.SynonymsFirst | main.js:27-28 | when the key of the name is non-empty, it is the first alias |
| SynonymGenerator.SynonymsMembers | main.js:25-45 | x is an alias exactly when x is non-empty and is the key, the cleaned key, or (when " e " occurs in it) the key of one of its pieces |
| SynonymGenerator.StripUnionPrefixCanonical | main.js:31 | removing the merged-parish prefix from a canonical key leaves a canonical key |
| SynonymGenerator.SynonymsAreKeys | main.js:25-45 | every alias is a canonical key that norm leaves unchanged |
| SynonymGenerator.StripUnionPrefixOf | main.js:31 | on "uniao das freguesias <article> rest", the prefix replacement leaves exactly rest, and rest is non-empty |
| SynonymGenerator.SynonymsUnionRemainder | main.js:30-32 | for a merged-parish name, the cleaned key is the text after the article, and it is an alias |
| SynonymGenerator.SplitPair | main.js:36 | when neither piece contains " e ", splitting "a e b" gives [a, b] |
| SynonymGenerator.SynonymsMergedPair | main.js:34-40 | for "uniao das freguesias <article> a e b", both a and b are non-empty aliases |
| SynonymGenerator.MergedParishExample | main.js:24-40 | for the key "uniao das freguesias de santo antonio dos cavaleiros e frielas", both "santo antonio dos cavaleiros" and "frielas" are aliases |
| JsValue.Truthy | main.js:49-50 | defined as JavaScript truthiness: undefined, null, "", 0 and false are falsy |
| JsValue.NatDigits | main.js:49 | the decimal text of a natural number is non-empty digits without a leading zero and reads back as the number |
| JsValue.ToStr | main.js:49 | `String(v)`: a string is its own text, and a truthy value has non-empty text |
| JsValue.JsString | main.js:10 | the text norm and slugify start from (`String` of the value or of ''): empty exactly when v is falsy, otherwise the text of v |
| JsValue.NumberText | main.js:49 | the text of an integer is an optional minus sign (present exactly for negatives) followed by digits, and reads back as the integer |
| LocationTree.PathString | main.js:74-76 | defined as the path's slugs joined by "/": the district slug alone, `${dSlug}/${cSlug}` or `${dSlug}/${cSlug}/${slug}` |
| LocationTree.NewEntry | main.js:57 | defined as `{_name: name, _synonyms: synonymsFromName(name)}` |
| LocationTree.Combos | main.js:80-84 | defined as the keys of the first path name, of the first two and of all three, joined by spaces |
| LocationTree.ParishIndex | main.js:73-85 | defined as the four write loops in order: district aliases to d, council aliases to d/c, parish aliases to d/c/p, non-empty path-name keys to d/c/p |
| LocationTree.Visit | main.js:55-87 | defined as the body of traverse before the descent: at depth 0, 1 or 2 the node is inserted under its parent when absent, and a new parish also writes the index |
| LocationTree.Walk | main.js:48-94 | defined as a visit followed by walking the children, one level deeper |
| LocationTree.WalkChildren | main.js:89-93 | defined as the first i children walked in order |
| LocationTree.WalkForest | main.js:129-131 | defined as the first i roots walked in order from the top |
| LocationTree.SlugOf | main.js:49 | the slug is the text of node.slug if truthy, else of node.id if truthy (both non-empty), else slugify of the name |
| LocationTree.NameOf | main.js:50 | the name is the text of node.name when truthy, otherwise the slug |
| LocationTree.DerivedSlug | main.js:49 | a slug derived from the name is empty or matches the slug pattern, is empty exactly when the diacritic-stripped, lower-cased name has no [a-z0-9] character, and is slugify of the node's name |
| LocationTree.WriteAll | main.js:75-77 | after writing v under every key of a list, the index holds the old keys plus the list, and the listed keys map to v while the others keep their values |
| LocationTree.WriteAllSnoc | main.js:75-77 | writing one more key is a single map update after the others |
| LocationTree.WriteNonEmptyStep | main.js:85 | the guarded write `if (s)` skips the empty key and otherwise updates that key |
| LocationTree.AddDistrict | main.js:57 | inserting a new district keeps every entry and adds exactly the one path |
| LocationTree.AddCouncil | main.js:62-64 | inserting a new council keeps every entry and adds exactly the one path |
| LocationTree.AddParish | main.js:70-71 | inserting a new parish keeps every entry and adds exactly the one path |
| LocationTree.VisitTree | main.js:55-72 | a visit keeps every existing entry. The only path it can add is parent + slug, and only at depth below three under an existing parent. When that path is new, its entry is the name with its aliases |
| LocationTree.VisitIndexQuiet | main.js:55-87 | a visit changes the index only when it inserts a new parish |
| LocationTree.ParishIndexFacts | main.js:73-85 | after the four write loops, each key points to its last writer: parish aliases and path names to d/c/p, then council aliases to d/c, then district aliases to d, otherwise the old value |
| LocationTree.VisitParishIndex | main.js:67-86 | the same last-write-wins description for a visit that inserts a new parish, with empty path names skipped |
| LocationTree.DistrictNameToParish | main.js:80-85 | after a new parish, the key of the district's name points to that parish's full path |
| LocationTree.VisitSound | main.js:55-86 | a visit keeps every alias pointing to a location present in the tree |
| LocationTree.VisitGrows | main.js:55-87 | a visit keeps every entry, and it keeps the index unless it adds a parish |
| LocationTree.VisitReady | main.js:52-72 | after a visit, the node's own path exists, so its children find their parents |
| LocationTree.WalkGrows | main.js:48-94 | walking a subtree keeps every existing entry unchanged (first insert wins) and leaves the index alone unless a parish is added |
| LocationTree.WalkChildrenGrows | main.js:89-93 | the same for the children, walked in order |
| LocationTree.DeepWalk | main.js:55-93 | below the parish level a walk changes nothing |
| LocationTree.WalkSound | main.js:48-94 | walking a subtree keeps every alias pointing to a location in the tree |
| LocationTree.WalkOwnEntry | main.js:48-94 | after walking a node at depth below three, its path exists and holds the earlier entry if one existed, otherwise its own name and aliases |
| LocationTree.ForestSound | main.js:125-131 | after the loop over the roots from empty outputs, every alias leads to a location present in the tree |
| LocationTree.Mapper.constructor | main.js:126-127 | the tree and the index start empty |
| LocationTree.Mapper.Assign | main.js:75-77 | the forEach write loop leaves the tree alone and sets the index to the specified writes |
| LocationTree.Mapper.AssignNonEmpty | main.js:85 | the guarded write loop sets the index to the writes of the non-empty keys |
| LocationTree.Mapper.AddParish | main.js:70-86 | the in-place parish insertion and its index writes produce the state of the specification visit |
| LocationTree.Mapper.VisitNode | main.js:49-87 | returns the node's slug and name and updates the state as the specification visit does |
| LocationTree.Mapper.Traverse | main.js:48-94 | the recursive method leaves the state the specification walk gives |
| LocationTree.Mapper.TraverseChildren | main.js:89-93 | the loop over the children leaves the state of walking them in order |
| LocationTree.Mapper.TraverseRoots | main.js:129-131 | the loop over the roots leaves the state of walking the forest |

## Left out

- `run()` is modelled only from its two empty outputs (main.js:126-127) and its loop over the roots (main.js:129-131), in `LocationTree.WalkForest` and `LocationTree.Mapper`. The rest of it is left out as I/O: the HTTP fetch, the key-value store, logging, the checks on the response shape (`locations`, `data` or a bare array, and the error for an empty list), the timestamp and writing the outputs. The model starts from the list of roots.
- Normalize.StripDiacritics covers canonical decomposition and `\p{Diacritic}` only for the precomposed Latin-1 letters, the Kelvin and Angstrom signs, the Latin-1 spacing accents and the combining marks U+0300-U+0362. The full Unicode tables are not modelled. Every other character passes through unchanged. For precomposed letters beyond Latin-1 the model and the source therefore differ. An example is U+0130 (capital I with dot above): the source decomposes it into "I" and a combining dot, keeping "i", while the model leaves it whole and it becomes a separator. The same holds for the letters of Latin Extended-A such as U+0101.
- Normalize.LowerChar lower-cases ASCII and Latin-1 only. Some other characters do lower-case into [a-z0-9] in JavaScript: U+212A (Kelvin sign) gives "k" and U+0130 gives "i" with a combining dot. In the source both are decomposed before `toLowerCase` runs, and after a full canonical decomposition no remaining character lower-cases into [a-z0-9]. The model decomposes U+212A but not U+0130, as the line above says.
- JsValue.Value models numbers as integers. Fractions, NaN, Infinity and exponent notation in `String(n)` are not modelled.
- JsValue.Value models a field of a node only: a missing, null or undefined field is `Missing`, and there are no object or array values. A null or undefined root or element of `children` makes `node.slug` throw a TypeError in the source (main.js:49); in the model every root and child is a node record. An object- or array-valued slug, id or name is turned into text by `toString()` or `String()` in the source, giving "[object Object]" or the elements joined by commas; in the model such fields are only strings, integers, booleans or missing.
- LocationTree.Node models a non-array `children` as the empty sequence, as the source's `Array.isArray` test does. The original `children` value is not kept.
- LocationTree.Entry keeps the name as its text. The source stores the raw value in `_name`, which may be a number.
- The tree's JavaScript objects share one key space with `_name` and `_synonyms`, and a slug such as `_name` or `constructor` would collide with them. This is not modelled: slugs are map keys of their own.
- LocationTree.Visit leaves the state unchanged when a parent is missing. The source throws a TypeError there. `LocationTree.Mapper.Traverse` requires that the parent path exists, which always holds on a walk from the roots (`LocationTree.VisitReady`).
- SynonymGenerator.Synonyms models the JavaScript `Set` as a list without repeats, in insertion order.
