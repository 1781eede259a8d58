# License header scan — a Dafny model of `AbstractLicenseMojo`

This project models the core of the license-gradle-plugin's `AbstractLicenseMojo`, which
checks the source files of a project for license headers. The model covers three pieces:

- **`buildMapping`** (module `HeaderStyleCatalog`, `catalog.dfy`). It builds the table from
  file extension to header-type name: optionally seeded from the built-in defaults, then
  overwritten by the user's entries with lower-cased keys and upper-cased values. The
  build is rejected with `InvalidUserDataException` when a user value is not a `HeaderType`
  name. Finally the `unknown` → `UNKNOWN` sentinel is forced in.
- **`buildHeaderDefinitions`** (same module). It starts from the built-in header
  definitions, lays each additional definition map over them with `putAll` (later maps win),
  and forces in the `UNKNOWN` definition.
- **The per-file task and the submit/drain loop** (modules `DocumentClassifier`,
  `classifier.dfy`, and `LicenseScan`, `scanner.dfy`). Each file gets a fixed decision
  order: unsupported → warning; the header file itself → skipped; canonical header present
  → `onExistingHeader(document, h)`; else the first matching alternate header →
  `onExistingHeader(document, h)`, always with the canonical `h`; else `onHeaderNotFound(document, h)`.
  In `execute`, one task is submitted per file, and one completion is taken per submission.

The mycila `Document` is external. Its answers to `isNotSupported()`, `is(h)` and
`hasHeader(h, strict)` are uninterpreted values carried by a `Document` datatype. A call to
the callback object is recorded as an `Event` value. Each `hasHeader` call is recorded as the
header it was asked about (the `consulted` trace). This lets the contracts state which
callbacks fire and which comparisons are made, in which order.

The mycila built-ins are parameters (`LicenseScan.Builtins`): `DocumentType.defaultMapping()`,
the names of `HeaderType.values()`, `HeaderType.defaultDefinitions()` and the definition of
`HeaderType.UNKNOWN`. The sentinel extension `unknown` and type name `UNKNOWN` are constants whose values are assumed (see below).

The user mapping is the caller's map (`AbstractLicenseMojo.java:46`, `:69`), whose iteration
order this class does not fix. So `BuildMapping` visits the user entries in an
order it chooses freely. Its contract therefore holds for every order.
`ExtensionMappingUnique` shows the result is determined once no two user keys differ only by case.
The thread pool's completion order is modelled the same way: the drain loop of `Scan` may
take any pending task next. Its contract says the delivered events are, as a multiset,
exactly those of a single-threaded run in submission order.

Behaviour of the code worth noting:

- A user style name is checked only against the `HeaderType` names
  (`AbstractLicenseMojo.java:150-160`).
- A match against an alternate header passes the canonical header `h` to the callback
  (`AbstractLicenseMojo.java:113`).
- The header file itself fires no callback; it is only logged as skipped
  (`AbstractLicenseMojo.java:104-105`).
- The thread count is `(int)(availableProcessors() * concurrencyFactor)`, a truncating cast
  with no lower bound (`AbstractLicenseMojo.java:89`).

## Model

| member | source | states |
|---|---|---|
| `HeaderStyleCatalog.BuildMapping` | src/main/groovy/nl/javadude/gradle/plugins/license/maven/AbstractLicenseMojo.java:146-167 | Fails exactly when some user value, upper-cased, is not a valid header-type name, and the error names such an entry (upper-cased type, lower-cased extension). On success the keys are the defaults' (only when `useDefaultMappings`), the lower-cased user extensions and `unknown`. `unknown` maps to `UNKNOWN`. Every other user extension maps to the upper-cased value of a user entry for it, which is a valid, upper-case type name. Defaults the user did not mention are unchanged. |
| `HeaderStyleCatalog.ExtensionMappingUnique` | src/main/groovy/nl/javadude/gradle/plugins/license/maven/AbstractLicenseMojo.java:156-163 | When no two user keys lower-case to the same extension, any two results of `buildMapping` are equal, so the iteration order of the caller's map cannot change the table. |
| `HeaderStyleCatalog.ToUpperIdempotent` | src/main/groovy/nl/javadude/gradle/plugins/license/maven/AbstractLicenseMojo.java:157 | An upper-cased header-type name is already upper case, so the stored value is in upper case. |
| `HeaderStyleCatalog.LastDefining` | src/main/groovy/nl/javadude/gradle/plugins/license/maven/AbstractLicenseMojo.java:174-178 | Gives the index of a resource that defines the type and after which no resource does, or -1 when no resource defines it. |
| `HeaderStyleCatalog.OverlayLookup` | src/main/groovy/nl/javadude/gradle/plugins/license/maven/AbstractLicenseMojo.java:171-178 | After the `putAll` overlay, a type is defined iff a default or some resource defines it. Its definition is the one from the last resource that defines it, else the default. |
| `HeaderStyleCatalog.BuildHeaderDefinitions` | src/main/groovy/nl/javadude/gradle/plugins/license/maven/AbstractLicenseMojo.java:169-183 | The result is the ordered overlay with the `UNKNOWN` definition forced in under its type key, whatever the resources hold. Any other type is present iff a default or a resource defines it. It maps to the last defining resource's definition, else the default. |
| `DocumentClassifier.FirstMatch` | src/main/groovy/nl/javadude/gradle/plugins/license/maven/AbstractLicenseMojo.java:110-116 | Gives the position of the first alternate header the document carries: no earlier alternate matches, the one at that position does, or the position is the list length when none matches. |
| `DocumentClassifier.RunTask` | src/main/groovy/nl/javadude/gradle/plugins/license/maven/AbstractLicenseMojo.java:99-119 | The task body with its flag-and-break loop fires exactly the events of the decision order (`Dispatch`). It makes exactly the `hasHeader` calls `Consulted` lists, in that order. |
| `DocumentClassifier.UnsupportedOnlyWarns` | src/main/groovy/nl/javadude/gradle/plugins/license/maven/AbstractLicenseMojo.java:102-103 | An unsupported document draws only the unknown-extension warning. No callback fires and no header is compared. |
| `DocumentClassifier.HeaderFileSkipped` | src/main/groovy/nl/javadude/gradle/plugins/license/maven/AbstractLicenseMojo.java:104-105 | The header file itself is skipped with no event and no `hasHeader` call. This holds even if it would match its own header. |
| `DocumentClassifier.CanonicalMatchShortCircuits` | src/main/groovy/nl/javadude/gradle/plugins/license/maven/AbstractLicenseMojo.java:106-107 | When the canonical header matches, exactly `onExistingHeader(document, h)` fires. Only the canonical header is consulted. |
| `DocumentClassifier.FirstAlternateWins` | src/main/groovy/nl/javadude/gradle/plugins/license/maven/AbstractLicenseMojo.java:109-116 | When the first matching alternate is at position i, exactly `onExistingHeader(document, h)` fires, with the canonical `h`. The headers consulted are `h` and then the alternates 0..i in list order, and nothing after. |
| `DocumentClassifier.NotFoundIffNoMatch` | src/main/groovy/nl/javadude/gradle/plugins/license/maven/AbstractLicenseMojo.java:108-119 | A supported non-header document gets `onHeaderNotFound(document, h)` iff neither the canonical header nor any alternate matches. In that case every alternate was consulted. |
| `DocumentClassifier.NoAlternatesMeansNotFound` | src/main/groovy/nl/javadude/gradle/plugins/license/maven/AbstractLicenseMojo.java:109-118 | With an empty alternate list, a supported non-header document without the canonical header always gets `onHeaderNotFound`. |
| `DocumentClassifier.AtMostOneCallback` | src/main/groovy/nl/javadude/gradle/plugins/license/maven/AbstractLicenseMojo.java:102-119 | Each document draws at most one event, about its own file. Every event the document draws is a callback iff the document is supported, and any callback receives the canonical header. Only the header file draws nothing. |
| `LicenseScan.Scan` | src/main/groovy/nl/javadude/gradle/plugins/license/maven/AbstractLicenseMojo.java:96-127 | In whatever order tasks complete, the events delivered equal, as a multiset, those of a single-threaded run over the files in submission order. The drain loop takes exactly one completion per submitted file. |
| `LicenseScan.EventsPerFile` | src/main/groovy/nl/javadude/gradle/plugins/license/maven/AbstractLicenseMojo.java:96-122 | In the single-threaded run, an event occurs once per submission of its file when that file's task fires it, and never otherwise. |
| `LicenseScan.ScanDeliversEachEventOnce` | src/main/groovy/nl/javadude/gradle/plugins/license/maven/AbstractLicenseMojo.java:96-127 | When no file is submitted twice, every event a file's task fires is delivered exactly once by the scan. |
| `LicenseScan.Execute` | src/main/groovy/nl/javadude/gradle/plugins/license/maven/AbstractLicenseMojo.java:86-127 | Fails, before any file is scanned, exactly when the user mapping names an invalid header type, with the error naming such an entry as `buildMapping` does. Otherwise the document factory is built from a valid extension table and from the overlaid definitions. Every file is then scanned once, as `Scan` states. |

## Left out

- Thread pool and completion service (`Executors.newFixedThreadPool`, `ExecutorCompletionService`, `shutdownNow`): concurrency is replaced by a sequential drain loop that may take the pending tasks in any order.
- Worker failures: interrupt handling and the unwrapping and re-raising of `ExecutionException` causes are not modelled. `Document` answers are total, so no task fails. This is exception plumbing around foreign code.
- Thread count `(int)(availableProcessors() * concurrencyFactor)`: this is float arithmetic on a runtime value, and it does not affect which events fire. A count of zero, which makes `newFixedThreadPool` throw, is not modelled either.
- Building `Header` objects from the header URI and the valid-header files: this is I/O and foreign code. The model takes the canonical header and the alternates as given values. A `null` list of valid headers is the empty list.
- Behaviour of the plugin's own `DocumentFactory.createDocuments` (a class of the same package; `DocumentFactory` is not part of this model) and of mycila's `Document.isNotSupported`, `Document.is` and `Document.hasHeader`, including template and placeholder matching and strict and non-strict comparison: these are code outside this model. The model keeps them as uninterpreted answers and assumes each query gives the same answer every time it is asked.
- Parsing of additional header-definition resources (`XMLDoc.from`, `AdditionalHeaderDefinition`, `findResource`): this is XML parsing and resource lookup. Each resource is an already-parsed map. In this class `headerDefinitions` is never set from its empty default (`AbstractLicenseMojo.java:42`) and `findResource` always returns `null` (`AbstractLicenseMojo.java:186-188`), so the overlay loop either never runs or hands `null` to `XMLDoc.from`; the model describes the loop for any list of parsed resources.
- Logging (`logger.debug`, `logger.warn`): only the unknown-extension warning is kept, as an event. Relative-path display is not modelled.
- Constructor and field wiring, `dryRun`, `skipExistingHeaders`, `keywords`, `encoding`, `documentPropertiesLoader`: these do not take part in the decisions modelled here.
- HeaderStyleCatalog.ToUpper: models `String.toUpperCase` and `toLowerCase` on ASCII letters only. Locale-dependent and non-ASCII case mappings are not modelled.
- HeaderStyleCatalog.BuildMapping: when two user keys differ only by case, the contract says only that the entry of one of them wins. It does not say which, because that depends on the iteration order of the caller's map, which this class does not fix.
- Sentinel values: `DocumentType.UNKNOWN.getExtension()` and `getDefaultHeaderTypeName()` are foreign code; the model assumes they return `unknown` and `UNKNOWN` (`HeaderStyleCatalog.UnknownExtension`, `HeaderStyleCatalog.UnknownHeaderTypeName`).
- Exception message: the text `String.format` builds for `InvalidUserDataException` is not modelled; the error value carries the upper-cased type and lower-cased extension it is built from.
