# AnvilKit contract kernel and protocol doubles: a verified model

This project models the parts of the repository that every digest, signature and
integration test rests on, and proves what they are for.

* **Strict JSON and canonical text.** The hand-written parser with its moving index
  (`StrictJsonParser.Parser`) is proved equal to a functional reading
  (`StrictJson`), and that reading is proved to accept exactly the texts a grammar
  derives: concrete syntax trees with their rendering and meaning (`JsonGrammar`),
  admitted when no object repeats a decoded key and every limit is kept. Text is a
  sequence of UTF-16 code units. The canonical printer (`Canonical`) and the parser
  undo each other, over strings with surrogate pairs, nesting and sorted keys, and
  canonical text is a normal form; the same is carried to UTF-8 bytes (`Admission`)
  and to the identity pre-images (`Identity`).
* **Reference compilers.** The closed-reference search of the source lint, the schema
  interpreter with its `$ref` hops, the projection of digest-pinned references to
  local pointers, the flattening into `$defs`, and the bundle emitter with its
  closure, naming, rewriting and widening. What each does to a document is stated by
  following JSON pointers in it before and after.
* **The Pagix double.** The reservation ledger and the persistence store as classes
  that update their maps, each method proved equal to a step function; conservation,
  the reconciliation fence, revision chains, single redemption and replay are proved
  over all runs of those steps. A method holds its lock for its whole body, so a call
  is one step.
* **The worker double.** Fences, usage accounting in two modes, the artifact
  lifecycle and the event stream, in the same form.
* **Signatures.** DSSE pre-authentication encodings, base64url, the trust policy, and
  exactly which envelopes are accepted for an expected statement.
* **The latency gate.** The histogram quantile, over the reals.

Where the source loops over a text, an array or a map, the model is a method with a
loop proved against a function; where it updates an object's fields, the model is a
class. Functions and lemmas then say what the source promises.

What an operation answers is said a second time, without the function that computes
it: of the texts alone (`JsonAlphabet`, `ShortestText`, `IdentityText`,
`ReferenceSyntax`, `PinnedReferences`, `FlattenedReferences`, `BundleNames`,
`KeywordMeanings`, `ValidationReports`), of the calls made before (`LedgerAnswers`,
`PagixAnswers`, `WorkerAnswers`), or of bounds and counts (`QuantileAnswers`).

Things the code takes from outside are parameters: `Number(token)` and the printing
of a finite number (`Runtime`, with what is assumed of them in
`CanonicalTrees.Shown`, `CanonicalTrees.Ecma` and `Admission.ReadsIntegers`),
SHA-256, Ed25519, `Date.parse`, the URL constructor, regular expressions of schemas, and
`strconv.ParseFloat` in the load driver. Schema validation runs over values that list
their members in order (`LaidJson`), so that the texts of `JSON.stringify` it compares are
computed (`Stringify`) from that order and the printing of numbers. The `refuseUnsafe`
flag of a profile is always true in the source; the parser without that check appears
only in the proof that canonical text is injective on values admission refuses.

Where the code does not do what its name or its comments promise, there is an input
that shows it and the exact condition under which it does:

* `Reserve` takes over any observed amount: 10 micros over a bound of 1 break the bound
  at once, and -2 break it in three calls (`PagixLedger.BoundBreaks`). The bound is kept
  over every later run if and only if the amount lies between -1 and the bound
  (`PagixLedger.BoundKeptExactly`).
* Of several revocations of one key id only the first listed is looked at: one to come
  hides one in effect behind it (`SecurityProfile.RevocationOverlooked`). What is found
  is trusted if and only if no such pair is listed for a key in force
  (`SecurityProfile.TrustedExactly`, `SignedStatements.VerifiesGenuineExactly`).
* The bundle emitter reports a reference outside the closure for one inside it whose name
  is empty (`BundleWitnesses.EmptyNameRefused`), and publishes names that a pointer does
  not read back (`BundleWitnesses.SlashNameDangles`). Which references get such names is
  said of their text and the declarations (`BundleNaming.NameEmptyExactly`,
  `BundleNaming.NameEscapesExactly`), and `BundleEmitter.Emit` fails if and only if the
  description is one of `BundleEmitter.Refused`.
* Keys joined with NUL meet when the parts hold one: an effect of another workspace is
  looked up (`PagixKeys.EffectsCanMeet`), a new authorization conflicts
  (`Redemption.KeysCanCollide`). `JoinedKeys` says for each kind of join when a key
  belongs to its parts alone, and the properties per workspace, authorization, operation
  or reading hold exactly then.
* A failed cumulative reading leaves the worker unchanged if and only if it did not fail
  the overflow check (`WorkerModel.FailedCumulative`).
* Assigning a member named `__proto__` makes none. A reference to a definition of that
  name, which needs no escaping, is emitted and leads nowhere
  (`BundleWitnesses.ProtoNameDangles`); so does a flattened one
  (`FlatteningMeaning.LostNameDangles`). An emitted reference selects its schema if and
  only if the written name needs no escaping and is not lost in this way, said of the
  reference's text and the declarations (`BundleEmitter.EmittedSelectsExactly`); every
  flattened part is found if and only if names agree and none is `__proto__`
  (`Flattening.PartsFoundExactly`).
* A local reference that is an anchor is glued to its schema's key by the projection
  (`SpecNormalization.OwnSchemaExactly`), and then leads elsewhere or nowhere
  (`SpecNormalization.ProjectionCommutes`).
* The schema interpreter compares `const` and `enum` as texts: {y, x} fails the constant
  {x, y} (`SchemaValidation.OrderRejected`). A constant means equality on a value if and
  only if that value is not an equal one with its members in another order
  (`SchemaValidation.ConstAgreesExactly`).
* Two payload types share their signed encodings if and only if they agree once unpaired
  surrogates are U+FFFD (`Dsse.TypeScriptInjective`).
* The order in which a Go map is visited can decide the latency quantile: two series whose
  bounds are one number, visited in either order (`VisitingOrder.VisitingOrderMatters`).
  For the buckets of a scraped histogram no quantile depends on that order if and only if
  no two of one bound differ in their count (`VisitingOrder.OrderIsFreeExactly`).
* Canonical text of a number such as 1e20 is an integer token that strict admission
  refuses (`Admission.CanonicalNotAlwaysAdmitted`).

## Model

| member | source | states |
|---|---|---|
| `StrictJsonParser.Parser.Parse` | packages/contracts-codegen/strict-json.ts:106-115 | the parse of a whole text equals `StrictJson.Parse`: same value, same reason for refusal, and nothing may follow the value |
| `StrictJsonParser.Parser.ParseValue` | packages/contracts-codegen/strict-json.ts:117-140 | value dispatch with the depth and total-count limits; the index stays in the text and strictly advances |
| `StrictJsonParser.Parser.ParseObjectMembers` | packages/contracts-codegen/strict-json.ts:155-189 | the member loop with its key set: duplicates after decoding, item limit, separators |
| `StrictJsonParser.Parser.ParseArrayItems` | packages/contracts-codegen/strict-json.ts:200-218 | the item loop with its limit |
| `StrictJsonParser.Parser.ParseString` | packages/contracts-codegen/strict-json.ts:220-281 | escapes, surrogate pairs, control characters and the byte limit, accumulated in place |
| `StrictJsonParser.Parser.ReadUnicodeEscape` | packages/contracts-codegen/strict-json.ts:283-291 | exactly four hexadecimal digits, as their number |
| `StrictJsonParser.Parser.ParseNumber` | packages/contracts-codegen/strict-json.ts:293-339 | the longest number token and its range, negative-zero and safe-integer checks |
| `StrictJsonParser.Parser.ParseLiteral` | packages/contracts-codegen/strict-json.ts:341-347 | true, false and null |
| `StrictJsonParser.Parser.SkipWhitespace` | packages/contracts-codegen/strict-json.ts:349-354 | stops at the first unit that is not JSON whitespace |
| `JsonLexical.StringSound` | packages/contracts-codegen/strict-json.ts:220-281 | a string the parser reads is the rendering of well-formed pieces up to its closing quote, and their decoding is what it returns |
| `JsonLexical.TokenSound` | packages/contracts-codegen/strict-json.ts:293-321 | a number token the parser reads has the grammar's parts, and nothing follows that would lengthen it |
| `JsonAlphabet.ShortEscapesExactly` | packages/contracts-codegen/strict-json.ts:235-248 | the two-character escapes are those of RFC 8259, section 7, each for its character |
| `JsonAlphabet.HexDigitExactly` | packages/contracts-codegen/strict-json.ts:283-291 | a hexadecimal digit is worth its place among the sixteen, in either case |
| `JsonAlphabet.HexValueExactly` | packages/contracts-codegen/strict-json.ts:283-291 | four of them are one number to the base sixteen |
| `JsonAlphabet.SpaceExactly` | packages/contracts-codegen/strict-json.ts:349-354 | space, tab, line feed and carriage return are the whitespace |
| `JsonAcceptance.TreeRendered` | packages/contracts-codegen/strict-json.ts:117-339 | a rendered tree is read back as its meaning when it fits the limits, and refused otherwise |
| `JsonSoundness.TreeSound` | packages/contracts-codegen/strict-json.ts:117-339 | whatever is accepted is the rendering of a grammatical, fitting tree with that meaning |
| `JsonSoundness.ParseExact` | packages/contracts-codegen/strict-json.ts:106-377 | a text is accepted with a value if and only if it derives that value in the RFC 8259 grammar with distinct decoded keys, within all limits and with integer tokens in the safe range |
| `CodeUnits.AssertUnicodeScalarString` | packages/contracts-codegen/identity.ts:25-38 | the loop passes exactly the strings whose surrogates all stand in pairs |
| `CodeUnits.CodePointRoundTrip` | packages/contracts-codegen/strict-json.ts:250-261 | joining an escaped pair into a code point and taking it apart returns the two units |
| `CodeUnits.Utf8Injective` | packages/contracts-codegen/identity.ts:76-78 | distinct well-formed texts have distinct UTF-8 |
| `CodeUnits.Utf8HeadExactly` | packages/contracts-codegen/identity.ts:76-78 | a character is encoded as the one byte sequence of the syntax of RFC 3629, section 4, that stands for it |
| `Canonical.SortedAscending` | packages/contracts-codegen/identity.ts:64-67 | keys are emitted in strictly ascending code-unit order (RFC 8785, section 3.2.3) |
| `Canonical.SortedUnique` | packages/contracts-codegen/identity.ts:64-67 | the sorted key sequence depends only on the set of keys, not on insertion order |
| `CanonicalTrees.SerializeRenders` | packages/contracts-codegen/identity.ts:40-74 | the printer emits the rendering of the canonical tree of the value, which `ShortestText.NormalExactly` singles out |
| `CanonicalTrees.CanonDenotes` | packages/contracts-codegen/identity.ts:40-74 | and that tree means the value printed |
| `ShortestText.ShortestExactly` | packages/contracts-codegen/identity.ts:40-44 | of all renderings of a string the canonical one is the shortest, and the only one so short with its hexadecimal digits in lower case |
| `ShortestText.NormalExactly` | packages/contracts-codegen/identity.ts:40-74 | a grammatical tree is the canonical one of its value if and only if it has no gaps, keys in code-unit order, shortest strings and numbers as ECMAScript shows them |
| `ShortestText.SerializeExactly` | packages/contracts-codegen/identity.ts:40-74 | a text is what the printer prints if and only if it is the rendering of such a tree of the value |
| `CanonicalForm.CanonicalRoundTrip` | packages/contracts-codegen/identity.ts:40-74 | canonical text is parsed back to exactly its value if and only if the value fits the profile; it is refused otherwise |
| `CanonicalForm.CanonicalIdempotent` | packages/contracts-codegen/identity.ts:40-78 | canonicalizing an admitted canonical text changes nothing |
| `CanonicalForm.CanonicalInjective` | packages/contracts-codegen/identity.ts:40-78 | distinct values have distinct canonical texts, those admission refuses included |
| `CanonicalForm.AdmittedPrintable` | packages/contracts-codegen/identity.ts:40-78 | canonicalization never refuses a value that strict admission produced |
| `CanonicalForm.CanonicalNormalForm` | packages/contracts-codegen/identity.ts:57-78 | two admitted texts have one canonical text if and only if they hold the same value |
| `Admission.SerializeExact` | packages/contracts-codegen/identity.ts:40-74 | the printer throws exactly on unpaired surrogates, non-finite numbers and negative zero |
| `Admission.CanonicalBytesInjective` | packages/contracts-codegen/identity.ts:76-78 | equal canonical bytes come from equal values |
| `Admission.AdmitCanonical` | packages/contracts-codegen/strict-json.ts:379-421 | admitting canonical bytes returns exactly the value, if and only if value and bytes are within the limits |
| `Admission.AdmitExact` | packages/contracts-codegen/strict-json.ts:379-399 | bytes are admitted with a value if and only if they are within the byte limit, start with no BOM and are the UTF-8 of a text that derives it |
| `Admission.IntegerTokenAdmitted` | packages/contracts-codegen/strict-json.ts:323-338 | an integer token is accepted if and only if it is not minus zero and lies within plus or minus 2^53-1 |
| `Admission.CanonicalNotAlwaysAdmitted` | packages/contracts-codegen/identity.ts:52-55 | 1e20 is admitted as written, and its canonical text is refused |
| `Identity.BomWithoutDigest` | packages/contracts-codegen/identity.ts:122-134 | the copying loop removes the digest member and nothing else; the two refusals |
| `Identity.ComponentPreimageInjective` | packages/contracts-codegen/identity.ts:104-120 | equal component pre-images have equal purpose, media type and value |
| `IdentityText.PreimageExactly` | packages/contracts-codegen/identity.ts:104-120 | after the domain text the pre-image holds purpose, media type and canonical bytes in that order between zero bytes, and read back, nothing else |
| `IdentityText.BomPreimageText` | packages/contracts-codegen/identity.ts:136-147 | the BOM pre-image is its domain, its media type and the canonical bytes of all but the digest |
| `Identity.ComponentIdentityExactly` | packages/contracts-codegen/identity.ts:86-120 | a component has an identity if and only if purpose, media type and value pass the checks, and it is then the hash of the pre-image |
| `IdentityText.IdentityExactly` | packages/contracts-codegen/identity.ts:86-120 | which of the refusals a component gets, told from its texts in the order of the checks; else it gets the hash |
| `IdentityText.BomIdentityExactly` | packages/contracts-codegen/identity.ts:122-147 | a BOM is refused for being no object, for lacking a digest or for not being printable; else it is hashed without its digest |
| `Identity.ComponentIdentityPins` | packages/contracts-codegen/identity.ts:104-120 | components of one identity are equal in purpose, media type and value, unless the hash collides on their pre-images |
| `Identity.DomainsSeparated` | packages/contracts-codegen/identity.ts:112-146 | no component pre-image is a BOM pre-image |
| `Identity.BomPreimageExact` | packages/contracts-codegen/identity.ts:136-147 | BOM pre-images agree if and only if the documents agree outside their digests |
| `Identity.BomVerifies` | packages/contracts-codegen/identity.ts:140-155 | a document verifies if and only if its digest member is the identity of the rest |
| `IdentityText.VerifyExactly` | packages/contracts-codegen/identity.ts:140-155 | for every value: false without a digest in wire form, a throw when the rest cannot be printed, else whether the digest is the identity |
| `References.FindExternalRefs` | packages/contracts-codegen/source-lint.ts:419-436 | the walk pushes exactly the references of `References.ExternalRefs` |
| `References.ExternalRefsExact` | packages/contracts-codegen/source-lint.ts:419-436 | a reference is listed if and only if some object inside the schema holds it |
| `ClosedReferences.IndexRoots` | packages/contracts-codegen/source-lint.ts:442-457 | the index keeps the first document of a URI and reports the rest |
| `ClosedReferences.Resolver.VisitDocument` | packages/contracts-codegen/source-lint.ts:458-488 | the depth-bounded search appends its findings in order |
| `ClosedReferences.ResolveClosedReferences` | packages/contracts-codegen/source-lint.ts:438-493 | findings of the index, then of a search from every document; none if and only if the graph is closed |
| `ClosedReferences.SearchExact` | packages/contracts-codegen/source-lint.ts:458-491 | the searches find nothing if and only if all references are sound, no walk exceeds the depth and no walk meets a document twice |
| `ClosedReferences.ResolutionExact` | packages/contracts-codegen/source-lint.ts:438-493 | no findings if and only if URIs are well formed, self-consistent and unique, references are pinned to present documents, and the graph is acyclic and within the depth |
| `ReferenceSyntax.SyntaxFindingExactly` | packages/contracts-codegen/source-lint.ts:147-170 | the finding on a reference told from its text: local, relative, foreign, with a version word, without a digest, or put together from a name, a digest and a pointer |
| `ReferenceSyntax.ReferenceFaultExactly` | packages/contracts-codegen/source-lint.ts:463-480 | a reference to another document is faulty if and only if its syntax is, no document has its URI, or the document has another digest than it names |
| `JsonPointer.UnescapeEscape` | packages/contracts-codegen/source-validation.ts:31-33 | unescaping after escaping is the identity (RFC 6901, sections 3 and 4) |
| `JsonPointer.TokensOfPointer` | packages/contracts-codegen/source-validation.ts:60-61 | a pointer written from tokens splits into exactly those tokens |
| `JsonPointer.ReadAsItselfExactly` | packages/contracts-codegen/source-validation.ts:60-61 | a text put into a pointer unescaped is read as itself if and only if it holds no slash, no ~0 and no ~1 |
| `SchemaReferences.ResolveRef` | packages/contracts-codegen/source-validation.ts:57-68 | the loop over parts walks as `SchemaReferences.Walk` does, inherited properties included |
| `SchemaReferences.ResolvesTokens` | packages/contracts-codegen/source-validation.ts:57-68 | a reference written from tokens resolves to the object those tokens lead to |
| `SchemaReferences.ChainsStopExactly` | packages/contracts-codegen/source-validation.ts:77-80 | every chain of `$ref` hops ends if and only if no schema leads back to itself |
| `SchemaReferences.RankFalls` | packages/contracts-codegen/source-validation.ts:77-80 | each hop lowers the rank that, with the value, makes validation terminate |
| `SchemaSupport.AssertSupportedSchema` | packages/contracts-codegen/source-validation.ts:35-55 | the recursive check passes exactly when `SchemaSupport.Supported` holds |
| `SchemaSupport.SupportedExactly` | packages/contracts-codegen/source-validation.ts:35-55 | that is, when every position reached through properties and items, at any depth, is an object of supported keywords and formats |
| `SchemaSupport.NodeExactly` | packages/contracts-codegen/source-validation.ts:9-55 | a supported node is an object of the listed keywords whose format, if a string, is date-time or uri |
| `SchemaValidator.Validator.ValidateValue` | packages/contracts-codegen/source-validation.ts:70-80 | one call appends the errors of `SchemaValidation.CheckValue` to the shared array, or throws when it does |
| `SchemaValidator.Validator.ValidateObject` | packages/contracts-codegen/source-validation.ts:89-103 | required names and members, in two loops |
| `SchemaValidator.Validator.ValidateArray` | packages/contracts-codegen/source-validation.ts:104-113 | items by index |
| `SchemaValidator.Validator.ValidateString` | packages/contracts-codegen/source-validation.ts:114-132 | length, pattern and formats |
| `SchemaValidation.ValidateExact` | packages/contracts-codegen/source-validation.ts:70-143 | validation neither throws nor adds an error if and only if the value satisfies the meaning of the keywords, `const` and `enum` meaning an equal value with its members listed in the same order |
| `ValidationReports.ReportsExactly` | packages/contracts-codegen/source-validation.ts:70-143 | validation throws if and only if it meets a dangling reference, a schema that is none, names that cannot be iterated or a pattern that does not compile; else it lists the faults of the value, each at its place, and nothing else |
| `KeywordMeanings.BoundsExactly` | packages/contracts-codegen/source-validation.ts:138-139 | minimum and maximum bound a number, infinities and NaN included |
| `KeywordMeanings.LengthExactly` | packages/contracts-codegen/source-validation.ts:119-121 | minLength counts code units |
| `KeywordMeanings.PatternExactly` | packages/contracts-codegen/source-validation.ts:122-124 | a pattern that is a string compiles and matches |
| `KeywordMeanings.FormatExactly` | packages/contracts-codegen/source-validation.ts:125-130 | the formats date-time and uri ask for a date and a URI, and no other format asks for anything |
| `KeywordMeanings.TypeExactly` | packages/contracts-codegen/source-validation.ts:89-142 | the six type words and the checks they lead to |
| `KeywordMeanings.DeclaredExactly` | packages/contracts-codegen/source-validation.ts:94-99 | a name is declared by a member of the object properties, with that schema |
| `KeywordMeanings.ClosedExactly` | packages/contracts-codegen/source-validation.ts:100 | other members are refused if and only if additionalProperties is false |
| `KeywordMeanings.RequiredExactly` | packages/contracts-codegen/source-validation.ts:94-96 | the names required of an absent, null, array or string keyword |
| `KeywordMeanings.CodePointsExactly` | packages/contracts-codegen/source-validation.ts:94-96 | a string given for required is iterated by characters, no surrogate pair apart |
| `SchemaValidation.ConstAgreesExactly` | packages/contracts-codegen/source-validation.ts:81-83 | the code and JSON Schema agree on a constant and a value if and only if the value is not equal to the constant with its members in another order |
| `SchemaValidation.OrderRejected` | packages/contracts-codegen/source-validation.ts:81-83 | the value {y, x} gets an error against the constant {x, y}, its equal |
| `Stringify.WrittenAlikeExactly` | packages/contracts-codegen/source-validation.ts:81-88 | two values have one text if and only if they are equal, negative zero being zero and non-finite numbers null, and their objects list the same members in the same order |
| `Stringify.OrderTells` | packages/contracts-codegen/source-validation.ts:81-88 | one value, two texts: {x, y} and {y, x} |
| `ReferenceRewriting.Rewrite` | packages/contracts-codegen/spec-normalization.ts:72-86 | the copying walk, loops over items and keys, for any action on `$ref` strings and any members left out |
| `ReferenceRewriting.AcceptsExactly` | packages/contracts-codegen/spec-normalization.ts:59-86 | the walk throws if and only if some reference of the copied part is refused |
| `ReferenceRewriting.ReferencesOfCopy` | packages/contracts-codegen/spec-normalization.ts:72-86 | the references of the copy are exactly the images of the original's |
| `ReferenceRewriting.DerefExactly` | packages/contracts-codegen/spec-normalization.ts:72-86 | a pointer selects the copied value in the copy if and only if it passes no omitted member |
| `SpecNormalization.NormalizeDescription` | packages/contracts-codegen/spec-normalization.ts:88-95 | the projected description with every projected schema under its key; refused exactly as `PinnedReferences.NormalizedExactly` tells |
| `PinnedReferences.NormalizedExactly` | packages/contracts-codegen/spec-normalization.ts:64-95 | a description is normalized if and only if every reference held by what is copied of it and of each source starts with # or is the text anvilkit://schema/ key ?digest=sha256: digest fragment of a source with that key and that digest |
| `PinnedReferences.ParsePinnedExactly` | packages/contracts-codegen/spec-normalization.ts:17-67 | key, digest and fragment are read off exactly the texts put together from them |
| `PinnedReferences.RewrittenText` | packages/contracts-codegen/spec-normalization.ts:55-71 | an accepted reference becomes the pointer into the schema of its key, with its fragment |
| `SpecNormalization.LocalReferenceTokens` | packages/contracts-codegen/spec-normalization.ts:55-57 | a local reference is read as the resolved map, the key and the fragment's tokens, whatever units the key holds |
| `SpecNormalization.OwnSchemaExactly` | packages/contracts-codegen/spec-normalization.ts:59-62 | it leads into the schema of its key if and only if the fragment is a pointer and not an anchor |
| `SpecNormalization.ProjectionCommutes` | packages/contracts-codegen/spec-normalization.ts:59-95 | following a rewritten reference in the normalized document gives the projection of what the reference denoted, if and only if the pointer passes no omitted member; a pointer of the description into the resolved map selects the added schemas, and an anchor inside a schema leads to whatever stands under its key with the anchor glued to it |
| `SpecNormalization.NoReferenceLeaves` | packages/contracts-codegen/spec-normalization.ts:88-95 | every reference of the normalized document is local; no anvilkit scheme remains |
| `Flattening.GenerationDefinitions` | packages/contracts-codegen/spec-normalization.ts:131-144 | the two nested loops assign every source and every definition, the later one winning and a name `__proto__` making no member |
| `Flattening.PartsFoundExactly` | packages/contracts-codegen/spec-normalization.ts:131-144 | every part is found under its name if and only if no name is claimed for two different definitions, which distinct names ensure, and none is `__proto__` |
| `FlatteningMeaning.FlattensExactly` | packages/contracts-codegen/spec-normalization.ts:119-123 | a resolved reference is accepted if and only if it names a known schema or one of its definitions; anything deeper is refused |
| `FlattenedReferences.FlattenedText` | packages/contracts-codegen/spec-normalization.ts:119-123 | a reference to a schema becomes the bundle reference to its logical id, one to a definition to the logical id and the name together |
| `FlattenedReferences.FlattenedExactly` | packages/contracts-codegen/spec-normalization.ts:119-123 | other references are left alone, and refused if and only if they start like these and name no source |
| `FlatteningMeaning.FlatteningPreserves` | packages/contracts-codegen/spec-normalization.ts:114-168 | a flattened reference selects, in the bundle, the flattened image of what it selected before; one that selected an item of an array for `$defs` selects whatever has the name made of its index, if anything |
| `FlatteningMeaning.ItemsAreNoParts` | packages/contracts-codegen/spec-normalization.ts:138-142 | a schema with an array for `$defs` puts nothing but its root into the bundle |
| `FlatteningMeaning.LostNameDangles` | packages/contracts-codegen/spec-normalization.ts:137-140 | no bundle has a definition `__proto__`: a reference to one leads nowhere |
| `FlatteningMeaning.KeyWrittenExactly` | packages/contracts-codegen/spec-normalization.ts:55-57 | a key is the first part of the references written for it, which flattening looks it up by, if and only if it holds no tilde or slash |
| `JsonPointer.StandsExactly` | packages/contracts-codegen/spec-normalization.ts:123 | a logical id can stand unescaped before any definition name if and only if it holds no slash, no ~0 and no ~1 and does not end in a tilde |
| `FlatteningMeaning.OriginalMeaningKept` | packages/contracts-codegen/spec-normalization.ts:59-168 | from the sources to the bundle: a reference of a schema, projected and flattened, selects the flattened projection of what the original reference denoted |
| `FlatteningMeaning.BundleReferences` | packages/contracts-codegen/spec-normalization.ts:156-168 | a reference is in the bundle only if it is a property's or the flattening of one in a root or definition; if no name is claimed for two definitions, if and only if |
| `FlatteningMeaning.BundleIsClosed` | packages/contracts-codegen/spec-normalization.ts:156-168 | when nothing dangles before and no reference selects an item of an array for `$defs`, every reference of the bundle leads somewhere in it |
| `FlatteningMeaning.ContractSchemaBundle` | packages/contracts-codegen/spec-normalization.ts:156-168 | the bundle: header, one property for each source, the definitions |
| `FlattenedReferences.PropertiesExactly` | packages/contracts-codegen/spec-normalization.ts:156-168 | one property for each logical id, which refers to its definition |
| `FlattenedReferences.HeaderExactly` | packages/contracts-codegen/spec-normalization.ts:159-162 | the four members around them |
| `FlattenedReferences.BundleAround` | packages/contracts-codegen/spec-normalization.ts:156-168 | the bundle is a closed object schema of that title in the 2020-12 dialect, around properties and definitions |
| `BundleClosure.CollectRefs` | scripts/emit-pagix-openapi-bundle.ts:52-62 | adds to the set exactly `BundleClosure.Collected` |
| `BundleClosure.CollectsExactly` | scripts/emit-pagix-openapi-bundle.ts:52-62 | a reference is collected if and only if the value holds it and it is a resolved one |
| `BundleClosure.PointedExactly` | scripts/emit-pagix-openapi-bundle.ts:40-50 | a pointer leads to the object found by own members, for a last `__proto__` to an empty one, else nowhere |
| `BundleClosure.Reachable` | scripts/emit-pagix-openapi-bundle.ts:143-151 | the worklist ends with the least set holding the seeds and closed under references; it throws exactly when no closed set holds them |
| `BundleNaming.NameDeclared` | scripts/emit-pagix-openapi-bundle.ts:153-159 | the last bare declaration names its target |
| `BundleNames.DeclaredExactly` | scripts/emit-pagix-openapi-bundle.ts:153-159 | a reference is declared under a name if and only if some bare declaration of it has that name and no later one declares it |
| `BundleNaming.CountDefinitions` | scripts/emit-pagix-openapi-bundle.ts:161-165 | each count is the number of reachable references that end in that definition name |
| `BundleNaming.DefinitionNameExactly` | scripts/emit-pagix-openapi-bundle.ts:77-82 | a reference has a slug and a definition name if and only if /$defs/ divides its path exactly once |
| `BundleNames.PascalExactly` | scripts/emit-pagix-openapi-bundle.ts:64-72 | a made name is the letters and digits of its text, in order and no others, each raised where a word starts |
| `BundleNames.NameExactly` | scripts/emit-pagix-openapi-bundle.ts:74-84 | the declared name; else the definition name, after the words of its slug if another schema reached ends in it; else the words of the path |
| `BundleNaming.NameEmptyExactly` | scripts/emit-pagix-openapi-bundle.ts:74-84 | the name is empty if and only if nothing is declared for the reference, and its definition name is empty and its slug not used or without a letter or digit, or its path has neither |
| `BundleNaming.NameEscapesExactly` | scripts/emit-pagix-openapi-bundle.ts:74-84 | the name needs pointer escaping, or holds a slash, if and only if the declaration's name or the definition name taken over does |
| `BundleNaming.NameLostExactly` | scripts/emit-pagix-openapi-bundle.ts:74-84 | the name is `__proto__` if and only if it is the declared one, or nothing is declared and it is the definition name with no slug, or one without letters and digits, put before it |
| `BundleNaming.NameReachable` | scripts/emit-pagix-openapi-bundle.ts:167-175 | a successful naming is total and injective; it throws if and only if two reachable schemas claim a name |
| `BundleEmitter.RewriteStaysInside` | scripts/emit-pagix-openapi-bundle.ts:116-130 | with every collected reference named, rewriting throws if and only if it meets one whose name is empty, and never for leaving the closure |
| `BundleEmitter.Emit` | scripts/emit-pagix-openapi-bundle.ts:143-198 | each reachable schema is published under its name as its widened rewrite, except under `__proto__`, and nothing else is; it throws if and only if a reference reached leads nowhere, two schemas claim one name, or a reference gets none |
| `BundleEmitter.DocumentExactly` | scripts/emit-pagix-openapi-bundle.ts:184-199 | in the document the paths are at /paths, and at /components/schemas and a name the schema emitted under it |
| `BundleWitnesses.EmptyNameRefused` | scripts/emit-pagix-openapi-bundle.ts:122-123 | a reference that ends in /$defs/ is inside the closure, and the description is refused for it |
| `BundleEmitter.EmittedReference` | scripts/emit-pagix-openapi-bundle.ts:116-198 | every rewritten reference names an emitted schema that is the widened rewrite of its original target, or is named `__proto__` |
| `BundleEmitter.PointsAtNameExactly` | scripts/emit-pagix-openapi-bundle.ts:124 | read as a pointer, a component reference selects that name if and only if the name needs no escaping |
| `BundleEmitter.PublishedNameReadsExactly` | scripts/emit-pagix-openapi-bundle.ts:74-124 | for a published name: if and only if the declaration's name or the definition name it was taken from needs none |
| `BundleWitnesses.BelowNotRefused` | scripts/emit-pagix-openapi-bundle.ts:143-198 | a description with a reference below a definition is emitted |
| `BundleWitnesses.SlashNameDangles` | scripts/emit-pagix-openapi-bundle.ts:77-124 | and any emission of it holds a reference that, read as a pointer, leads nowhere |
| `BundleWitnesses.InheritsNotRefused` | scripts/emit-pagix-openapi-bundle.ts:143-198 | a description with a reference to a definition named `__proto__` is emitted |
| `BundleWitnesses.ProtoNameDangles` | scripts/emit-pagix-openapi-bundle.ts:184-187 | and any emission of it holds no schema, and a reference that needs no escaping and leads nowhere |
| `BundleEmitter.ComponentReferenceSelects` | scripts/emit-pagix-openapi-bundle.ts:184-199 | a reference to an emitted schema whose name needs no escaping selects it in the document |
| `BundleEmitter.SelectsItsSchemaExactly` | scripts/emit-pagix-openapi-bundle.ts:116-199 | the reference emitted for a schema reads as its place and a schema is there, if and only if the name needs no escaping and is not `__proto__`; it then selects the widened rewrite of the original target |
| `BundleEmitter.EmittedSelectsExactly` | scripts/emit-pagix-openapi-bundle.ts:74-199 | the same condition, said of the text of the reference, the declarations and the set reached |
| `Widening.WidenIntegers` | scripts/emit-pagix-openapi-bundle.ts:102-114 | the recursive copy equals `Widening.Widen` |
| `Widening.WidenedExactly` | scripts/emit-pagix-openapi-bundle.ts:102-114 | an object keeps its members widened, and gets the format int64 if and only if it is an integer schema without format whose bounds leave 32 bits |
| `Widening.WidenedAt` | scripts/emit-pagix-openapi-bundle.ts:102-114 | wherever a pointer leads in the original, it leads in the copy to the widened value |
| `Widening.WidenFits` | scripts/emit-pagix-openapi-bundle.ts:102-114 | afterwards every integer schema beyond 32 bits carries a format |
| `Widening.WidenOnce` | scripts/emit-pagix-openapi-bundle.ts:102-114 | widening twice is widening once; it leaves alone exactly the values with nothing to widen |
| `Widening.WidenKeepsReferences` | scripts/emit-pagix-openapi-bundle.ts:102-114 | it neither adds nor loses a reference |
| `FakePagix.Fake.Reserve` | mocks/fakepagix/fake.go:103-123 | new state and reply of one reservation call, in place |
| `FakePagix.Fake.Observe` | mocks/fakepagix/fake.go:124-148 | new state and reply of one usage observation, with int64 wrap-around |
| `FakePagix.Fake.Reconcile` | mocks/fakepagix/fake.go:149-161 | new state and reply of one reconciliation |
| `LedgerAnswers.ReserveExactly` | mocks/fakepagix/fake.go:103-123 | after any run: a key seen before is answered with its reservation, or a conflict for other bytes; a new one is taken if and only if its id is new |
| `LedgerAnswers.ObserveExactly` | mocks/fakepagix/fake.go:124-148 | after any run: a usage recorded before is accepted again and nothing changes if it is the same; a new one of a reservation taken before is accepted if and only if the bound has room for its cost, as long as bound less cost is an int64 |
| `LedgerAnswers.ReconcileExactly` | mocks/fakepagix/fake.go:149-160 | after any run: accepted if and only if the reservation was taken under that generation, is final as taken or by a usage, and the cost lies between what is observed and the bound; both are then that cost |
| `LedgerAnswers.RoomDecides` | mocks/fakepagix/fake.go:124-148 | on an account taken within its bound the room left decides, after any run |
| `PagixLedger.LedgerConserves` | mocks/fakepagix/fake.go:103-161 | over every run: the costs recorded are at most the observed amount, that at most the bound, that at most the first bound; observed is exactly their sum until a reconciliation and equals the bound after it |
| `PagixLedger.FenceShut` | mocks/fakepagix/fake.go:140-156 | over every run with a reconciliation of the reservation: afterwards only new usage of cost zero and the same final cost succeed |
| `PagixLedger.NoOverflow` | mocks/fakepagix/fake.go:140-143 | over every run: no int64 operation of an account taken within its bound wraps around |
| `PagixLedger.NegativeOverflows` | mocks/fakepagix/fake.go:103-148 | a reservation taken at -2 or below has a run that breaks its bound |
| `PagixLedger.BoundKeptExactly` | mocks/fakepagix/fake.go:103-161 | the bound is kept over all runs if and only if the observed amount taken over lies between -1 and the bound |
| `PagixLedger.BoundBreaks` | mocks/fakepagix/fake.go:103-148 | both failures: 10 observed over a bound of 1, and -2 observed |
| `PagixLedger.ReserveKeyExactly` | mocks/fakepagix/fake.go:109 | a reservation key belongs to one workspace and key if and only if the infix occurs nowhere else in it |
| `PagixLedger.RecordsAreOwnExactly` | mocks/fakepagix/fake.go:103-123 | over every run, a record under a workspace's key comes from its own call, if and only if the key is such |
| `PagixLedger.ReserveKeysCanMeet` | mocks/fakepagix/fake.go:109 | two workspaces and keys that share one reservation key |
| `FakePagix.Fake.Seed` | mocks/fakepagix/fake.go:68-72 | sets one revision |
| `FakePagix.Fake.Persist` | mocks/fakepagix/fake.go:162-208 | new state and reply of one command, over all seven fields it touches; which reply, `PagixAnswers` tells from the history |
| `PagixAnswers.AppliedExactly` | mocks/fakepagix/fake.go:189-206 | after any run, a command that takes effect is applied if and only if the revision it expects names the workspace's, which then advances by one; a conflict leaves it; answer and event name the revision left |
| `PagixAnswers.EffectExactly` | mocks/fakepagix/fake.go:162-188 | after any run, a command takes effect if and only if the context is open, it is well formed, and its key, authorization and bytes are new |
| `PagixAnswers.AnsweredExactly` | mocks/fakepagix/fake.go:162-188 | every refusal and replay, told from the commands that took effect before |
| `PagixAnswers.RevisionTold` | mocks/fakepagix/fake.go:189-200 | after any run the revision is the last seed and the number of commands applied since, as uint64 |
| `FakePagix.Fake.Effect` | mocks/fakepagix/fake.go:209-214 | in a reachable state, the result of the last event with the joined key; when the key belongs to its parts alone, of the workspace's operation's own last event |
| `PagixKeys.EffectKeyExactly` | mocks/fakepagix/fake.go:203 | that is, if and only if no NUL stands in it but the separator, one at the start or one at the end |
| `PagixKeys.EffectsAreOwnExactly` | mocks/fakepagix/fake.go:203-214 | over every run an operation's effect is its own last event's, if and only if so |
| `PagixKeys.EffectsCanMeet` | mocks/fakepagix/fake.go:203-214 | one command of workspace a-NUL-b gives workspace a an effect |
| `PagixKeys.RecordKeyExactly` | mocks/fakepagix/fake.go:171 | the idempotency key of a command belongs to one workspace and key if and only if the infix occurs nowhere else in it |
| `PagixKeys.RecordsAreOwnExactly` | mocks/fakepagix/fake.go:171-202 | over every run, an idempotency record under a workspace's key comes from its own command, if and only if the key is such |
| `FakePagix.Fake.Events` | mocks/fakepagix/fake.go:215-219 | the outbox in order |
| `PagixStore.EffectOrNothing` | mocks/fakepagix/fake.go:162-208 | a call either commits and appends one event, or changes nothing |
| `PagixStore.RunConsistent` | mocks/fakepagix/fake.go:162-208 | every run keeps the redemption maps inverse, the sizes equal and the effects the last-writer fold of the outbox |
| `PagixStore.ReachableConsistent` | mocks/fakepagix/fake.go:171-206 | in every reachable state no two events share an authorization identity or the bytes it was redeemed with |
| `PagixStore.RevisionsChain` | mocks/fakepagix/fake.go:189-200 | between seeds a workspace's events chain: an applied one carries the successor revision, a conflict the current one |
| `PagixStore.RevisionCounts` | mocks/fakepagix/fake.go:189-200 | its revision is the seed plus the number of its applied events, as uint64 |
| `PagixStore.ChainConsecutive` | mocks/fakepagix/fake.go:189-200 | the k-th applied event carries the k-th successor |
| `PagixStore.NoLostUpdate` | mocks/fakepagix/fake.go:189-200 | all applied events between seeds carry different revisions |
| `PagixStore.ReplayStable` | mocks/fakepagix/fake.go:171-177 | an accepted command sent again after any run gets its first result and changes nothing |
| `FakeWorker.Double.Restore` | mocks/fakeworker/worker.go:101-108 | the next fence, with nothing committed |
| `WorkerAnswers.ControlTold` | mocks/fakeworker/worker.go:94-111 | after any run: the fence is the one given, or after restores the last epoch restored, the generation raised by their number and lease 1; cancelled and draining if and only if so called |
| `FakeWorker.Double.Execute` | mocks/fakeworker/worker.go:123-145 | the status is the first fault of cancel, drain, capability, fence and input digest, in that order, and the output of an accepted execution the digest of its tagged input |
| `WorkerAnswers.ExecutionExactly` | mocks/fakeworker/worker.go:123-145 | after any run, the status told from the calls before, in that order |
| `FakeWorker.Double.AcceptResult` | mocks/fakeworker/worker.go:147-164 | new state and status of one result; which status, `WorkerAnswers.ResultExactly` tells from the history |
| `WorkerAnswers.ResultExactly` | mocks/fakeworker/worker.go:147-164 | after any run, a result is accepted if and only if nothing was cancelled, it is before the fence expires and the fence is the active one; the faults come in that order, and acceptance commits |
| `WorkerAnswers.InTimeAccepted` | mocks/fakeworker/worker.go:147-164 | where nothing was cancelled, a result under the active fence is accepted if and only if it comes before the expiry |
| `WorkerAnswers.CommittedExactly` | mocks/fakeworker/worker.go:101-164 | the worker is committed if and only if a result was accepted since the last restore |
| `FakeWorker.Double.ObserveUsage` | mocks/fakeworker/worker.go:174-190 | new state and status of one additive reading |
| `FakeWorker.Double.ObserveCumulativeUsage` | mocks/fakeworker/worker.go:191-213 | new state and status of one cumulative reading, the early record included |
| `WorkerAnswers.MarksTold` | mocks/fakeworker/worker.go:191-213 | the mark of an attempt is the highest reading accepted for it |
| `WorkerAnswers.ReadingExactly` | mocks/fakeworker/worker.go:174-190 | an additive reading is refused when incomplete or not fitting the total, then as a duplicate; else it is added and raises the mark |
| `WorkerAnswers.CumulativeExactly` | mocks/fakeworker/worker.go:191-213 | a cumulative reading adds its rise over the mark; a fall is refused, a rise that does not fit is refused and stays recorded |
| `FakeWorker.Double.PutArtifact` | mocks/fakeworker/worker.go:217-231 | new state and status of one artifact; a retry equals the artifact held as reflect.DeepEqual does, forms of an instant and nil slices told apart |
| `WorkerAnswers.PutExactly` | mocks/fakeworker/worker.go:217-231 | after any run, an artifact of a digest not put before is accepted if and only if it is pending and has a digest; of one held it is a retry if it is the same, else a conflict |
| `WorkerModel.RetryExactly` | mocks/fakeworker/worker.go:217-231 | after any run, an artifact put again is taken for a retry if and only if it is pending still and the same in everything |
| `FakeWorker.Double.TransitionArtifact` | mocks/fakeworker/worker.go:233-255 | new state and status of one transition |
| `WorkerAnswers.MoveExactly` | mocks/fakeworker/worker.go:233-255 | after any run, an artifact moves if and only if it is held, the lifecycle has that step and, for a promotion or deletion, the fence is the active one |
| `WorkerAnswers.EveryPathTaken` | mocks/fakeworker/worker.go:233-255 | every path of the lifecycle is gone through under the active fence |
| `FakeWorker.Double.ReadArtifact` | mocks/fakeworker/worker.go:257-265 | only an available artifact is read |
| `FakeWorker.Double.RecordRequest` | mocks/fakeworker/worker.go:267-284 | new state, status and outcome of one request |
| `WorkerAnswers.RequestExactly` | mocks/fakeworker/worker.go:267-284 | after any run, a new request is recorded with its outcome, one with the bytes recorded gets the first outcome, and one with others conflicts |
| `FakeWorker.Double.DeliverEvent` | mocks/fakeworker/worker.go:286-304 | new state and status of one event |
| `WorkerAnswers.EventExactly` | mocks/fakeworker/worker.go:286-304 | after any run, a new event is accepted if and only if it carries the next sequence and a trace; one delivered before is accepted again if bytes and sequence are the same, and else conflicts |
| `WorkerModel.SupersededRefused` | mocks/fakeworker/worker.go:101-164 | a fence superseded by a restore is never accepted again, for executions, results, promotions or deletions, until the generation wraps around |
| `WorkerModel.OneFencePerGeneration` | mocks/fakeworker/worker.go:101-164 | all results accepted between two restores carry one fence |
| `WorkerModel.NothingAfterCancel` | mocks/fakeworker/worker.go:110-152 | nothing is executed and no result is accepted after a cancel |
| `WorkerModel.UsageBounded` | mocks/fakeworker/worker.go:166-213 | high-water sum, total and sum over distinct records are ordered in every run; equalities in runs of one mode |
| `WorkerModel.UsageNoOverflow` | mocks/fakeworker/worker.go:174-213 | after every run, an accepted reading never wraps the total |
| `WorkerModel.FailedCumulative` | mocks/fakeworker/worker.go:191-209 | after every run, a failed cumulative reading changes nothing if and only if it did not overflow; otherwise its key stays recorded |
| `WorkerModel.FailedCumulativeRecords` | mocks/fakeworker/worker.go:205-209 | such a failure, in two readings |
| `WorkerModel.LifecycleMonotone` | mocks/fakeworker/worker.go:217-255 | over any run an artifact keeps its content, changes state only up in rank, and stays deleted |
| `WorkerModel.ReadableWasPromoted` | mocks/fakeworker/worker.go:233-265 | a readable artifact was scanned and later promoted under the fence active then |
| `WorkerModel.StreamGapFree` | mocks/fakeworker/worker.go:286-304 | accepted events carry sequences 1 to lastSequence, one each |
| `WorkerModel.RequestStable` | mocks/fakeworker/worker.go:267-284 | a recorded request keeps its first outcome; other bytes conflict |
| `WorkerKeys.RequestsAreOwnExactly` | mocks/fakeworker/worker.go:267-284 | over every run, a request never recorded is not answered for another's, if and only if neither operation nor key holds a NUL |
| `WorkerKeys.ReadingKeyExactly` | mocks/fakeworker/worker.go:166-213 | a reading is a duplicate of readings of its own source only, if and only if it names a provider request or no NUL stands inside its joined attempt and observation |
| `Dsse.GoEncoding` | packages/contracts-go/signature/ed25519.go:11-16 | the Go form gives the same bytes as the TypeScript forms |
| `Dsse.PreAuthExactly` | packages/contracts-go/signature/ed25519.go:11-16 | the encoding is DSSEv1, the decimal numerals of both lengths without leading zeros, the type and the payload, with spaces between |
| `Dsse.EncodingInjective` | packages/contracts-codegen/native-signature.ts:3-11 | the encoding determines payload type and payload through its decimal lengths |
| `Dsse.TypeScriptInjective` | packages/contracts-codegen/security-profile.ts:155-161 | for payload types given as strings: equal encodings if and only if equal payloads and equal types, unpaired surrogates counting as U+FFFD |
| `Dsse.DeterminedExactly` | packages/contracts-codegen/security-profile.ts:155-161 | no other type shares encodings with a given one if and only if it is well formed and holds no U+FFFD |
| `Base64Url.DecodesExactly` | packages/contracts-codegen/security-profile.ts:84-93 | a text is accepted as given bytes if and only if it is their one canonical encoding, and they are not empty |
| `SecurityProfile.FoundExactly` | packages/contracts-codegen/security-profile.ts:110-146 | a key is found if and only if it is the only one of its id, meant for this use, in force within the skew, under current snapshots, and the first revocation listed for it is still to come |
| `SecurityProfile.DeniedExactly` | packages/contracts-codegen/security-profile.ts:110-146 | which denial is given: the first fault of the snapshots, of the number of keys with the id, or of the key, in the order of the checks |
| `SecurityProfile.SkewExactly` | packages/contracts-codegen/security-profile.ts:112-116 | the skew is a whole number of seconds from 0 to 300, in milliseconds; any other is a policy fault |
| `SecurityProfile.NotRevokedExactly` | packages/contracts-codegen/security-profile.ts:141-144 | no revocation listed for a key id is in effect if and only if the first is not and hides none that is |
| `SecurityProfile.TrustedExactly` | packages/contracts-codegen/security-profile.ts:110-146 | a trusted key, of whose revocations none is in effect, is found; being found means being trusted if and only if the key is not one in force with such a hidden revocation |
| `SecurityProfile.RevocationOverlooked` | packages/contracts-codegen/security-profile.ts:141-144 | a key found although a revocation of it is in effect |
| `SecurityProfile.WindowExactly` | packages/contracts-codegen/security-profile.ts:148-153 | under a valid policy the time window is the half-open interval widened by the skew |
| `SignedStatements.PayloadPinned` | packages/contracts-codegen/security-profile.ts:163-192 | admission and both canonical comparisons hold if and only if the payload is the canonical form of the expected statement, within the limits |
| `SignedStatements.VerifiesExactly` | packages/contracts-codegen/security-profile.ts:179-196 | an envelope is accepted if and only if it carries the one canonical encoding of the expected statement, meant for here and now, whose DSSE encoding, written out with its lengths, the key found for it has signed; only that statement is returned |
| `SignedStatements.SignedBytesExactly` | packages/contracts-codegen/security-profile.ts:189-193 | what the signature is verified over: DSSEv1, the two lengths, the statement media type and the payload |
| `SignedStatements.FormExactly` | packages/contracts-codegen/security-profile.ts:163-178 | the fault of a statement's form, told from its members in the order of the checks |
| `SignedStatements.DeniedInOrder` | packages/contracts-codegen/security-profile.ts:179-196 | an envelope is refused for the first fault of the envelope, of the statement it carries, or of comparisons and signature |
| `SignedStatements.VerifiesGenuineExactly` | packages/contracts-codegen/security-profile.ts:125-196 | every envelope signed by a key without a revocation in effect is accepted, and acceptance means being such if and only if no hidden revocation is listed for its key |
| `SignedStatements.PayloadPinsStatement` | packages/contracts-codegen/security-profile.ts:179-196 | one payload is not accepted for two statements |
| `SignedStatements.SignedBytesPinStatement` | packages/contracts-codegen/security-profile.ts:189-193 | two statements never share the bytes that are signed |
| `Redemption.AuthorizationRedemptionSet.Redeem` | packages/contracts-codegen/security-profile.ts:227-236 | outcome and new map of one call |
| `Redemption.FirstBytesWin` | packages/contracts-codegen/security-profile.ts:224-237 | over any run a call is accepted if and only if it is the first with its key, and a later one is a retry if and only if it repeats the first one's bytes |
| `Redemption.OwnKeyExactly` | packages/contracts-codegen/security-profile.ts:228 | a joined key belongs to one authorization if and only if NUL is neither in its issuer nor in its id |
| `Redemption.AnsweredByOwnExactly` | packages/contracts-codegen/security-profile.ts:224-237 | over every run, a call for an authorization not redeemed before is accepted, if and only if its key is such |
| `Redemption.KeyInjective` | packages/contracts-codegen/security-profile.ts:228 | keys of different authorizations meet only where the longer issuer goes on from the shorter one with NUL |
| `Redemption.KeysCanCollide` | packages/contracts-codegen/security-profile.ts:228 | such a pair: the second authorization, although new, is a conflict |
| `Histogram.SortBuckets` | mocks/cmd/load-driver/main.go:273-282 | the buckets sorted in place: in order, and the same ones |
| `HistogramSeries.HistogramQuantile` | mocks/cmd/load-driver/main.go:249-302 | the series of the metric with a bound that parses are collected, and the result is the quantile of their buckets in order |
| `HistogramSeries.SeriesRead` | mocks/cmd/load-driver/main.go:255-269 | a series written for a bound is read as the bucket of that bound |
| `QuantileAnswers.BucketExactly` | mocks/cmd/load-driver/main.go:255-269 | a metric gives a bucket if and only if its text is the name and a bound that is +Inf or a number |
| `VisitingOrder.VisitingOrderIsFree` | mocks/cmd/load-driver/main.go:255-282 | whatever order the map is visited in, sorted buckets and quantile are the same, as long as no two series of one bound differ in their count |
| `VisitingOrder.SortedOneWayExactly` | mocks/cmd/load-driver/main.go:273-282 | collected buckets have one sorted order if and only if no two of one bound differ in their count |
| `VisitingOrder.OrderIsFreeExactly` | mocks/cmd/load-driver/main.go:255-301 | for buckets of a scraped histogram: all quantiles are the same for every order they are collected in and sorted to, if and only if no two of one bound differ in their count |
| `VisitingOrder.VisitingOrderMatters` | mocks/cmd/load-driver/main.go:255-301 | two series of bounds 1 and 1.0 counting 1 and 2: visited in one order the 0.75 quantile is 1, in the other 0.375 |
| `Histogram.SortedIsCumulative` | mocks/cmd/load-driver/main.go:255-282 | whatever order a cumulative histogram's buckets are collected in, the sorted ones rise in bound and count |
| `Histogram.QuantileBounded` | mocks/cmd/load-driver/main.go:270-301 | between zero and the largest finite bound; -1 if and only if there is no bucket or no observation |
| `Histogram.QuantileLands` | mocks/cmd/load-driver/main.go:287-301 | within the first finite bucket whose count reaches the target, or the largest finite bound when none does |
| `QuantileAnswers.QuantileExactly` | mocks/cmd/load-driver/main.go:283-301 | of any buckets in order: -1 without a count, else the bound, or the point of the line between bounds, where the first bucket that reaches q times the last count puts it |
| `Histogram.QuantileRises` | mocks/cmd/load-driver/main.go:287-301 | never smaller for a higher quantile |

## Left out

- The wall-clock limit of the parser, error messages, instance paths and byte offsets: diagnostics. The caller's validation hook and the check of the limits' own form are not modelled.
- Binary64: `Number(token)` and the printing of numbers are parameters with the assumptions named above; fractional and exponent tokens are read and checked, their rounding is not.
- SHA-256, Ed25519, key import and constant-time comparison are taken as given functions; injectivity is claimed of pre-images only, never of a hash.
- Insertion order of object members: schema validation keeps it (`LaidJson`), as the order the members are given in; everywhere else values hold their members in maps. Loops over `Object.entries` there, and over Go maps, run in code-unit order, or in any order where the result does not depend on it. Where the last of several equal names wins, the order of sources and declared components is a parameter, that of one schema's definitions is code-unit order.
- Members named `__proto__`: the parser and validator treat them as the code does, and assignments of the name make no member in the rewriters, the flattening and the bundle; what a changed prototype lets later property reads see is not modelled.
- SchemaValidation.ValidateExact: stated for documents without a cycle of pure `$ref` hops, since the code overflows the stack on one, and for documents as JSON.parse makes them, where no object lists a name twice and numbers are Numbers. Error texts are kinds with a path.
- ClosedReferences.ResolveClosedReferences: the order of the index keys is any order and the final sort of the findings is not modelled; findings carry their code and subject.
- FlatteningMeaning.FlatteningPreserves: for keys and logical ids that `FlatteningMeaning.KeyWrittenExactly` and `JsonPointer.StandsExactly` allow, and names as in `Flattening.PartsFoundExactly`. The lifting into OpenAPI components (`normalizeOpenApiForGeneration`, `normalizeJsonSchemaForGeneration`) uses the same walk and is not modelled.
- BundleEmitter.Emit: other component sections, info, servers and tags are copied unrewritten by the source and are not part of the model.
- SignedStatements.VerifiesExactly: a comparison of byte strings of different lengths throws another error in the source; here it is the same refusal. A key that cannot be imported counts as a failed verification.
- `verifyApplyAuthorizationJws`: the same checks as the envelope's without a canonical payload.
- `Snapshot`, `SeedSnapshot`, `Entitled`, `SetEntitlement`, `CommandCount`, `UsageTotal` and `Descriptor`: single reads, writes or constants. Mutexes: each call is one step.
- FakeWorker.Double.RecordRequest: the SHA-256 of the request bytes is an argument.
- The parsing of the scraped text into metrics in the load driver, infinite and NaN counts, and floating-point rounding there.
- The Go strict parser and canonicalizer: no agreement with the TypeScript ones is claimed; their depth counts start differently, and they rest on libraries that are not part of this model.
- Schema linting by regular expressions, registry sets, naming governance, code generation, hardening of generated Go, HTTP handlers, file walking, lock files, audits and release evidence.
