# Drupal interface translations for Gatsby/Next: a Dafny model

This project models the data reshaping at the heart of the
`next-drupal-interface-i18n` plugin. The plugin fetches Drupal interface
translations and turns them into Gatsby `DrupalTranslation` nodes. It then
rebuilds, from those nodes, the resource table that i18next expects.

- `records.dfy` (`Records`): the `DrupalTranslation` record `{source, translation, langcode}`.
- `json.dfy` (`Json`): `JSON.stringify` of that record, following ECMAScript's string quoting. It also holds a reader for the text, and the round trip between the two is proved.
- `helpers.dfy` (`Helpers`): `processTranslationNodes`. It is an imperative method with the source's two `forEach` loops. The method is proved equal to a left fold (`Reshaped`): seed each configured locale, then write each record, last write wins. Lemmas state what the resulting table contains.
- `translations.dfy` (`Translations`): `processTranslation`, the node id seed, and the loop in `sourceNodes`. The loop is an imperative method that appends each created node to an output sequence. It is proved equal to `NodesFor(Flatten(data))`, and lemmas state that the flattening yields exactly one record per (langcode, source) pair. An end-to-end lemma connects the response body to the final i18next table.
- `wrappers.dfy` (`Wrappers`): `Option` and `Result`.

Inputs that the source obtains from elsewhere are parameters:
- the locale list, which the source loads with `require('./next-i18next.config')`;
- the HTTP response body, as ordered (key, value) entries in `Object.keys` order, or `None` when it is absent or falsy;
- Gatsby's `createNodeId` and `createContentDigest`, as total functions in `NodeHelpers`.

`createNode` is modelled as appending to the output sequence.

A record whose langcode is not a configured locale makes the source throw: `translations[node.langcode]` is `undefined` and reading its `translation` fails. The model returns `Failure(UnknownLocale(langcode))` for the first such record. A configured locale that no record names does not fail. It keeps its empty map, as the code at `src/helpers.ts:11-17` does.

## Model

| member | source | states |
|---|---|---|
| `Helpers.ProcessTranslationNodes` | src/helpers.ts:5-19 | The method with the seeding loop and the record loop returns exactly `Reshaped(locales, nodes)`. That is the failure for the first record with an unconfigured langcode, or otherwise the seeded table with every record written in order. |
| `Helpers.Assign` | src/helpers.ts:16 | Writing one record fails exactly when its langcode has no entry, and then reports that langcode. Otherwise the locale set is unchanged, every other locale is unchanged, and the record's key now holds its translation. The locale's other keys and values stay as they were, and its key set grows by the record's source only. |
| `Helpers.SeedSpec` | src/helpers.ts:11-13 | After seeding, the table's locales are exactly the configured locales, and each has an empty `translation` map. |
| `Helpers.ApplyKeys` | src/helpers.ts:15-17 | The record loop never adds or removes a locale. |
| `Helpers.ApplySucceedsIff` | src/helpers.ts:15-17 | The record loop succeeds if and only if every record's langcode has an entry. |
| `Helpers.ApplyFirstFailure` | src/helpers.ts:15-17 | The loop fails with the langcode of the first record whose langcode has no entry. |
| `Helpers.ApplySources` | src/helpers.ts:15-17 | A locale's keys afterwards are its keys before plus the sources of the records with that langcode. |
| `Helpers.ApplyLastWrite` | src/helpers.ts:15-17 | If no later record has the same langcode and source as record `i`, the table holds record `i`'s translation under that key. |
| `Helpers.ReshapedFailsIff` | src/helpers.ts:8-17 | Processing fails if and only if some record's langcode is not a configured locale. |
| `Helpers.ReshapedFirstFailure` | src/helpers.ts:15-17 | The error names the langcode of the first record whose langcode is not configured. |
| `Helpers.ReshapedLocales` | src/helpers.ts:9-17 | On success, the table's top-level keys are exactly the configured locales. |
| `Helpers.ReshapedSources` | src/helpers.ts:11-17 | On success, a configured locale's keys are exactly the sources of the records with that langcode. |
| `Helpers.ReshapedLastWrite` | src/helpers.ts:15-17 | Last write wins: each key holds the translation of the last record with that langcode and source. |
| `Helpers.ReshapedUnusedLocale` | src/helpers.ts:12 | A configured locale that no record names keeps an empty map. |
| `Helpers.ReshapedExample` | src/helpers.ts:5-19 | Locales `["en","fr"]` and the one record hello/bonjour/fr give `{en: {translation: {}}, fr: {translation: {hello: "bonjour"}}}`. |
| `Json.RoundTrip` | src/translations.js:120-127 | Reading back the serialised `{source, translation, langcode}` object gives exactly the three fields. |
| `Json.UnescapeEscape` | src/translations.js:127 | Reading an escaped string body, then its closing quotation mark, gives back the string and leaves the text that follows. |
| `Json.UnescapeEscapeChar` | src/translations.js:127 | Each character's JSON escape decodes to that character, whichever escape form it takes. |
| `Json.SerializeInjective` | src/translations.js:127 | Distinct records serialise to distinct node content. |
| `Translations.ProcessTranslation` | src/translations.js:118-140 | The node carries the three inputs as `source`, `translation` and `langcode`. `parent` is null and `children` is empty. `internal.type` is `DrupalTranslation` and `internal.mediaType` is `text/json`. There is no id and no digest yet. `internal.content` is `JSON.stringify` of `{source, translation, langcode}` (`Json.Serialize`), and it decodes to exactly the input triple. |
| `Translations.NodeFor` | src/translations.js:34-45 | The finished node for one pair keeps the three fields and the fixed metadata. Its content is `Json.Serialize` of the record. Its id is `createNodeId` of the id seed. Its content digest is `createContentDigest` of its own `internal.content` and of nothing else. |
| `Translations.NodesFor` | src/translations.js:32-47 | There is one node per record, in order. Each node carries that record's fields, content equal to `Json.Serialize` of the record, the id of its seed, and the digest of its own content. Its content decodes to the record. |
| `Translations.SourceNodes` | src/translations.js:28-51 | With no response body, no node is created. Otherwise the created nodes are exactly `NodesFor(Flatten(data))`: one finished node per (langcode, source) pair, in `Object.keys` order. |
| `Translations.IdSeedEqualIff` | src/translations.js:40-42 | Two id seeds are equal if and only if langcode followed by source is the same string, with no separator between the two. |
| `Translations.IdSeedInjectiveInLocale` | src/translations.js:40-42 | Within one language, distinct sources give distinct id seeds. |
| `Translations.IdSeedCollision` | src/translations.js:40-42 | Across languages, seeds can collide: ("en", "ab") and ("ena", "b") give the same seed. |
| `Translations.LocaleRecordsAt` | src/translations.js:32-38 | One language's pairs give one record per pair, in order, with that language's langcode. |
| `Translations.FlattenLength` | src/translations.js:31-48 | The loop creates exactly as many nodes as the response has (langcode, source) pairs. |
| `Translations.FlattenComplete` | src/translations.js:31-38 | Every pair of the response yields a record with translation `data[langcode][source]`. |
| `Translations.FlattenSound` | src/translations.js:31-38 | Every record comes from some pair of the response. |
| `Translations.FlattenDistinct` | src/translations.js:31-38 | In a response whose keys are unique at both levels, no two created records share a langcode and a source. |
| `Translations.AsMapSpec` | src/translations.js:37 | With distinct keys, a language's object maps each of its sources to its translation, and has no other keys. |
| `Translations.QueryCreated` | src/hooks/use-drupal-translations.ts:5-17 | Querying `source`, `translation` and `langcode` of the created nodes gives back the records they were made from. |
| `Translations.FlattenSources` | src/translations.js:31-38 | The sources that the records give a language are exactly the keys of that language's object. |
| `Translations.ReshapedFlattenEntry` | src/helpers.ts:15-17 | In a well-formed response, each source key of a language's object holds `data[langcode][source]` in the reshaped table. |
| `Translations.ReshapedFlatten` | src/helpers.ts:15-17 | Reshaping the records of a well-formed response whose languages are all configured succeeds. Each language of the response then holds exactly its own object. |
| `Translations.EndToEnd` | src/translations.js:28-51 | Take a well-formed response whose languages are all configured and whose pairs give pairwise distinct id seeds. Create the nodes, query them back and reshape them. Each response language then holds exactly its (source, translation) pairs, one entry per pair and no extras. The result holds only under distinct seeds: when two seeds collide, the node store keeps one node per id, and the entry-per-pair property fails (`CollidingResponse`). |
| `Translations.CollidingResponse` | src/translations.js:40-47 | The response `[("en", [("ab", "X")]), ("ena", [("b", "Y")])]` is well formed, yet its two pairs give the same id seed, and so their created nodes have the same id. `createNode` of the second node would replace the first. |

## Left out

- The HTTP requests (`axios.get` in `sourceNodes`, `axios.post` in `onPostBuild`) are network I/O. The response body is an input.
- `onPostBuild` is left out. It scans sources with i18next-scanner through vinyl-fs and gulp-sort, writes the resource file, reads and parses it, and posts its top-level keys. All of that is external libraries and file I/O.
- `Promise.all` and the `async` callbacks are treated as one sequential loop. The callbacks contain no `await`, so each language's nodes are created in one go, in `Object.keys` order.
- `createNode` is modelled as appending to the output sequence. Gatsby's node store, keyed by node id, is not modelled. A colliding id (see `IdSeedCollision` and `CollidingResponse`) would make a later node replace an earlier one there. `EndToEnd` therefore assumes pairwise distinct id seeds and says nothing about responses whose seeds collide.
- `createSchemaCustomization` and `createTypes` are a framework call. The schema they declare is the `Records.TranslationRecord` datatype.
- `src/context.tsx` (`TranslationsProvider`, `I18nProvider`, `i18n.addResources`) is React plumbing over a foreign library.
- `src/hooks/use-drupal-translations.ts` is a GraphQL static query. The model takes it as the projection `QueriedRecords`, and it returns nodes in creation order. With unique (langcode, source) pairs, the order does not change the table, but that is not proved.
- Loading `next-i18next.config` is left out. The locale list is a parameter.
- Logging (`reporter.info`, `console.log`, chalk) is left out.
- JavaScript object quirks are left out. Keys such as `__proto__` are treated as ordinary map keys. Integer-like keys, which `Object.keys` lists first, are not reordered: the response entries are taken in the order given.
- The response is typed as an object of objects of strings. A `null` language object, which makes `Object.keys` throw, non-string values, and a truthy non-object body are not modelled.
- `Json.Serialize` works on Dafny characters, which are Unicode scalar values, so lone surrogates and their `\uDXXX` escapes do not arise. `Json.Deserialize` reads only the key order and spacing that `JSON.stringify` writes for this record, not all of JSON: no whitespace, no other key order, no surrogate-pair escapes. Inside string literals, it also accepts escapes that `Serialize` never writes (`\/`, upper-case hex digits, `\uXXXX` for any non-surrogate character). So distinct texts can decode to the same record. The node contracts therefore state the content as `Json.Serialize` of the record, not only as text that decodes to it.
