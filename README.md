# XLIFF-to-JSON converter: the pairing step

The converter reads an XLIFF document, collects every `<source>` element and
every `<target>` element in document order, and writes a JSON array with one
`{source, target}` record per source element. The record at index `i` holds the
value (`nodeValue`) of the first child node of the `i`-th source and of the
`i`-th target, paired by position alone. This Dafny project models that
pairing step (`generateJSONContent` and `createTranslationEntity` in
`bin/run.js`) and proves what it does on every input, including the inputs
that make it throw.

- `wrappers.dfy`: module `Wrappers`, the `Option` and `Result` datatypes.
- `converter.dfy`: module `Converter`, which holds the data model and the operations:
  - `ChildNode` is a child node, reduced to its `nodeValue`. `None` stands for
    the DOM's `null`, which an element child gives.
  - `Element` is a `<source>` or `<target>` element, reduced to its child nodes.
  - `TranslationNodes` is the `{sourceNodes, targetNodes}` pair that the parse
    step returns.
  - `TranslationEntity` is one output record. Its fields are `Option<string>`,
    because a `nodeValue` can be `null`.
  - `ConversionError` is the `TypeError` that ends the conversion, in one of three
    forms. `SourceWithoutChild(i)`: `childNodes[0]` of source `i` is undefined.
    `TargetMissing(i)`: `targetNodes[i]` is undefined. `TargetWithoutChild(i)`:
    `childNodes[0]` of target `i` is undefined.
  - `EntityAt` is the map callback. It reads the source before the target,
    because JavaScript evaluates arguments left to right. `EntitiesFrom` is the
    map itself: it calls the callback in index order and stops at the first
    throw. `GenerateContent` is `generateJSONContent` up to serialisation.
  - The specification predicates are `PairableAt`, `Convertible` and `ExplainsFailure`.
- `converter_properties.dfy`: module `ConverterProperties`, the lemmas.

An element with no text content (`<source></source>` or `<source/>`) has no
child nodes. So `childNodes[0]` is `undefined`, and reading `.nodeValue` from it
throws the `TypeError` that `SourceWithoutChild` models (bin/run.js:95). It does
not give an empty field. The same holds for a target (bin/run.js:96,
`TargetWithoutChild`). A first child that is an element and not text does not
throw: it gives `null`, which is `None` here.

## Model

| member | source | states |
|---|---|---|
| `Converter.CreateTranslationEntity` | bin/run.js:108-110 | the record's `source` field is the first argument and its `target` field the second, and it has no other content |
| `Converter.EntityAt` | bin/run.js:93-97 | the callback for index `idx` succeeds exactly when source `idx` has a child, target `idx` exists and that target has a child. On success the record holds the two first-child values. On failure the error names `idx` and its one correct cause, checked in the order source child, then target presence, then target child |
| `Converter.EntitiesFrom` | bin/run.js:93-98 | mapping positions `i` onwards succeeds exactly when every one of them can be paired. It then returns one record per source from `i` on, record `k` built from source and target `i + k`. Otherwise it reports the first position from `i` that cannot be paired, with its cause |
| `Converter.GenerateContent` | bin/run.js:90-99 | the records exist exactly when every source position can be paired. There are as many records as sources, and record `i` holds the first-child values of source `i` and target `i`. Otherwise the error is the first unpairable position and its cause |
| `ConverterProperties.ExplainedIsUnpairable` | bin/run.js:95-96 | a position that an error explains really cannot be paired |
| `ConverterProperties.ExplanationUnique` | bin/run.js:95-96 | at most one error explains a position: the three `TypeError` causes exclude each other |
| `ConverterProperties.FailsAtFirstUnpairable` | bin/run.js:93-96 | if position `i` cannot be paired and every earlier one can, the conversion fails with an error at index `i` |
| `ConverterProperties.UnpairableFails` | bin/run.js:93-96 | any position that cannot be paired makes the conversion fail, at that index or an earlier one, so no partial output is produced |
| `ConverterProperties.ChildlessSourceFails` | bin/run.js:95 | a source element with no child nodes makes the conversion fail no later than its index. If the failure is at its index, the error is `SourceWithoutChild` |
| `ConverterProperties.ChildlessTargetFails` | bin/run.js:96 | a target element with no child nodes, at a position that has a source, makes the conversion fail no later than its index. If the failure is at its index and its source has a child, the error is `TargetWithoutChild` |
| `ConverterProperties.FewerTargetsFail` | bin/run.js:96 | fewer targets than sources always fails, no later than the first source without a target. If every source up to and including index `|targetNodes|`, and every target, has a child, the error is `TargetMissing` at the number of targets |
| `ConverterProperties.NoSourcesGiveNoRecords` | bin/run.js:93 | zero source elements give the empty record sequence, whatever the targets are |
| `ConverterProperties.TargetsBeyondSourcesIgnored` | bin/run.js:93-96 | two target lists that cover every source and agree on the positions that have a source give the same result |
| `ConverterProperties.ExtraTargetsIgnored` | bin/run.js:93-96 | appending targets to a list that already covers every source gives the same result |
| `ConverterProperties.ConvertibleCoversSources` | bin/run.js:96 | a successful conversion needs at least as many targets as sources |
| `ConverterProperties.PartsConvertible` | bin/run.js:93-96 | if a split source list converts, each part converts: the first against the same targets, the second against the targets after the first part |
| `ConverterProperties.SourcesConcat` | bin/run.js:93-98 | the records of a concatenated source list are the first part's records followed by the second part's records, so the map keeps the source order and drops nothing |
| `ConverterProperties.EarlierFailureWins` | bin/run.js:93-98 | a failure among the first sources is the failure of the whole list, whatever sources follow |
| `ConverterProperties.LaterFailureShifted` | bin/run.js:93-98 | if the first part of a split source list converts and the second part fails against the targets after the first part, the whole list fails with the same cause, at the second part's failing index shifted by the first part's length |
| `ConverterProperties.RoundTrip` | bin/run.js:93-110 | converting a document built with one single-child source and one single-child target per record gives back exactly those records, in order |

## Left out

- File read and write (bin/run.js:49-59, 65-73), with their callbacks and `throw err` paths: these are I/O.
- The command-line arguments and the coloured usage and success messages (bin/run.js:36-47, 71): these are process and console plumbing.
- The XML parse and the document-order collection by `getElementsByTagName` (bin/run.js:79-84): both happen in the `xmldom` library, whose code is not part of this model. The two element lists are taken as inputs. Only the `{sourceNodes, targetNodes}` shape of the result is kept, as `TranslationNodes`.
- Which DOM node kinds give text and which give `null` as `nodeValue`: this is decided by `xmldom`. The model takes each child's `nodeValue` as given.
- The `JSON.stringify` call (bin/run.js:100): it is a built-in whose escaping and formatting are not in the source. The model stops at the sequence of records.
- The exception itself: a thrown `TypeError` ends the process in the source. Here it is the `Failure` value of a `Result`.
