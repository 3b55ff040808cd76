# flowfact-xml in Dafny

A model of the core of flowfact-xml, a PHP helper that imports OpenImmo
real-estate exports produced by FlowFact and answers queries over them.

- **The ingestion pass** (`FlowFact::updateDataStorage`). This is `Ingestion`
  plus `FlowFactStore.FlowFact.UpdateDataStorage`.
  - The zip archives in the base directory are sorted by the token in their
    file names.
  - Each archive is extracted into a directory named after it, unless that
    directory already exists. Outside development mode the archive is then
    deleted.
  - An extraction without `openimmo.xml` is quarantined under `_BROKEN__<name>`.
  - An extraction with `openimmo.xml` replaces the directory named by its
    object id. A `DELETE` action discards it instead.
  - Finally the ids recorded in this run are written to
    `objectId2xmlDatafileUri.json`.
  - The extract directory is a `map<string, Dir>`, an archive is
    `Archive(name, token, content)`, and the base directory is the
    `DataStorage` class.
- **The FlowFact object** (`FlowFactStore.FlowFact`). It holds the index of
  objects keyed by id, the filters, and the texts map, with these operations:
  - `importImmosFromFilesystem`, `getItems` and `getItem`;
  - `getNextOf` and `getPrevOf`;
  - `getUniqueCategories` and `getLocations`;
  - the filter setters and texts-map setters.
- **`mapString`** (`TextMapping`), the label fallback chain.
- **ImmoObject** (`ImmoObjects`), the accessors over one object's XML:
  - the id and its slug form;
  - the marketing type (`vermarktungsart`) and the usage type (`nutzungsart`);
  - `convertData` together with `getPreise` and `getAusstattung`;
  - categories, images and the title image;
  - convincing facts, heating types and location.
- **The value formatters** (`ValueFormatters`): `formatTrimmed`, `formatSqm`,
  and `formatPrice` on digit strings.

Shared modules:

- `Php` holds the null/value and TypeError results and PHP string truthiness.
- `PhpArrays` models PHP ordered arrays as sequences of pairs. An assignment
  keeps a repeated key at its first position and takes the last value.
- `PhpStrings` holds the string builtins the code uses, including `(int)` casts.
- `Xml` is the SimpleXML view of an element: text, attributes, and named
  children.

Three kinds of code get three kinds of model:

- **Loops** (the ingestion loop, the import loop, and the loops of
  `getItems`, `convertData`, `getKategorien`, `getImagesGrouped`,
  `getUniqueCategories` and `getLocations`) are methods. Each is proved equal
  to a specification function, and the lemmas state what that function
  guarantees.
- **Single expressions** (`getId`, `mapString`, `getTitelbild`, the
  formatters) are functions.
- **State** lives in classes: the object's fields (`items`, `filters`,
  `textsMap`) and the files under the base directory.

Process-wide settings are parameters:

- `slugDefault` is `$SLUGIFY_IDENTIFIER_BY_DEFAULT`;
- `extractDir` is `$EXTRACT_DIR`;
- `dev` is `_isDev()`;
- the `fallback` of `Labels` is `$DEFAULT_TEXT_MAPPER`;
- `isNumeric` is `is_numeric`.

PHP TypeErrors that the code can raise are modelled as the `TypeError` case
of `Result`.

Details of the code the model keeps:

- each archive is unlinked right after it is extracted;
- the id file lists the ids applied in this run;
- `convertData` applies no value formatters.

## Model

| member | source | states |
|---|---|---|
| PhpArrays.Assign | src/FlowFact.php:153 | `$a[$k] = $v`: a new key goes to the end and an existing key keeps its position; `k` then maps to `v` and every other key is unchanged; distinct keys stay distinct |
| PhpArrays.FromPairsSpec | src/ImmoObject.php:126-148 | assigning pairs in turn keeps each key once, in order of first occurrence, holding the last value assigned to it |
| PhpArrays.GroupBySpec | src/ImmoObject.php:176-185 | `$a[$k][] = $x` in turn: keys in order of first occurrence, each listing exactly its values in order |
| PhpArrays.FilterValuesSpec | src/FlowFact.php:166-176 | the kept entries are exactly those whose value passes, with keys and order preserved |
| PhpArrays.FromPairsKeyed | src/FlowFact.php:212-214 | when every pair's key is computed from its value, every entry of the resulting array is keyed that way |
| PhpStrings.StrPos | src/traits/ValueFormatters.php:13 | `strpos` finds the first occurrence, or `false` exactly when the character is absent |
| PhpStrings.ReplaceChar | src/traits/ValueFormatters.php:12 | `str_replace` of one character by another, position by position |
| PhpStrings.IntCastDigits | src/ImmoObject.php:93 | `(int)` of a digit string is its decimal value, so a leading zero is lost |
| ValueFormatters.FormatTrimmed | src/traits/ValueFormatters.php:11-16 | the result is a prefix of the value, holds no '.', ',' or '#', and is followed in the value by one of them unless it is the whole value |
| ValueFormatters.FormatTrimmedAt | src/traits/ValueFormatters.php:11-16 | the result is exactly the part before the first '.', ',' or '#' (an original '#' cuts as well) |
| ValueFormatters.FormatTrimmedIdempotent | src/traits/ValueFormatters.php:13-14 | a value without '.', ',' or '#' comes back unchanged; trimming twice is trimming once |
| ValueFormatters.TrimEmpty | src/traits/ValueFormatters.php:19 | `trim($v) === ''` iff every character is one of " \t\n\r\0\x0B" |
| ValueFormatters.FormatSqm | src/traits/ValueFormatters.php:18-20 | null iff the value is blank for `trim`; otherwise the untrimmed value followed by " m²" |
| ValueFormatters.TrimmedSqmExample | src/traits/ValueFormatters.php:11-20 | "123,00" trims and formats to "123 m²" |
| ValueFormatters.TrimmedSqmBlankExample | src/traits/ValueFormatters.php:11-20 | ",5" trims to "" and formats to null |
| ValueFormatters.GroupThousandsSpec | src/traits/ValueFormatters.php:8 | grouping by '.' is well formed (1-3 digits, then '.' and three digits repeatedly) and removing the dots gives the digits back |
| ValueFormatters.FormatPrice | src/traits/ValueFormatters.php:7-9 | on up to 15 digits: a well-grouped integer part whose digits are the value without leading zeros, then ",00 €" |
| ValueFormatters.FormatPriceExample | src/traits/ValueFormatters.php:7-9 | "250000" gives "250.000,00 €" and "0" gives "0,00 €" |
| TextMapping.MappedEntryWins | src/FlowFact.php:310-311 | a truthy texts-map entry is the label, whatever the default |
| TextMapping.FalsyEntryIsAbsent | src/FlowFact.php:310 | an entry mapping to "" or "0" behaves exactly like a missing entry |
| TextMapping.CallableDefaultBeforeMapper | src/FlowFact.php:313-314 | without a usable entry, a callable default applied to the string decides, whatever the default text mapper |
| TextMapping.FalsyDefaultIsNoDefault | src/FlowFact.php:316-317 | a falsy string default counts as no default |
| TextMapping.UnconfiguredIsIdentity | src/FlowFact.php:319-322 | without entry, default or default mapper, the string maps to itself |
| ImmoObjects.SlugifyIdempotent | src/ImmoObject.php:79 | a slug is free of '#' and upper-case ASCII letters, and slugifying it again changes nothing |
| ImmoObjects.GetIdSpec | src/ImmoObject.php:76-82 | the id has the raw id's length; when slugifying is on (argument true, or null with the default set) it is lower-cased with '#' turned into '-', free of both, and a fixed point of slugifying; otherwise it is the raw id |
| ImmoObjects.FirstTrueIndex | src/ImmoObject.php:52-54 | the first attribute whose value is "true", or none iff no attribute is "true" |
| ImmoObjects.FirstTrueAttributeSpec | src/ImmoObject.php:51-59 | the selected key is an attribute that reads exactly "true" and carries its mapString label; the TypeError happens iff no attribute reads "true" |
| ImmoObjects.GetVermarktungsartSpec | src/ImmoObject.php:40-59 | the marketing type returned passes `isVermarktungsart`; the call fails iff no marketing type passes it |
| ImmoObjects.GetNutzungsartSpec | src/ImmoObject.php:63-74 | the usage type returned passes `isNutzungsart`; the call fails iff no usage type passes it |
| ImmoObjects.ConvertAttributes | src/ImmoObject.php:137-138 | the one-level conversion of an attribute array is the specification's, entry by entry |
| ImmoObjects.ConvertChild | src/ImmoObject.php:132-146 | the entry has `key == k` and `label == mapString(k)`; a child with attributes gets only an `attributes` array, with one entry per distinct attribute name in order of first occurrence, each built from that attribute's value; any other child gets its coerced text as `value` |
| ImmoObjects.ConvertAttributesSpecProps | src/ImmoObject.php:137-138 | the attribute array has one entry per distinct attribute name, in order of first occurrence, with `key`, `label == mapString(name)` and the coerced value |
| ImmoObjects.ConvertData | src/ImmoObject.php:121-149 | the loop computes exactly the specified conversion (null input gives []) |
| ImmoObjects.ConvertStep | src/ImmoObject.php:127-146 | one more child is either skipped (key in `$without`) or assigned its entry |
| ImmoObjects.EntryPairsKeys | src/ImmoObject.php:127-135 | the emitted keys are the non-excluded tag names in order, and each key's last pair is built from the last child of that name |
| ImmoObjects.ConvertDataSpec | src/ImmoObject.php:121-149 | one entry per distinct non-excluded tag name, in order of first occurrence; each is built from the last child of that name, with `key == k` and `label == mapString(k)`; null gives [] |
| ImmoObjects.GetPreise | src/ImmoObject.php:105-111 | the prices are the converted `preise` children, with " €" appended to numeric string values |
| ImmoObjects.MapEuroSpec | src/ImmoObject.php:106-109 | the euro suffix changes only string values that are numeric; keys, labels, order, booleans and attribute entries are unchanged |
| ImmoObjects.GetAusstattung | src/ImmoObject.php:113-115 | the equipment is the converted `ausstattung` children |
| ImmoObjects.MapDetail | src/ImmoObject.php:160-162 | every attribute value is replaced by its label and every name is kept, in order |
| ImmoObjects.GetKategorien | src/ImmoObject.php:154-166 | the loop computes exactly the specified categories, failing at the first category without attributes |
| ImmoObjects.KategorienSpecProps | src/ImmoObject.php:154-166 | fails iff some category element has no attributes; otherwise each category name occurs once, in order of first occurrence, built from the last element of that name |
| ImmoObjects.CategoryPairsProps | src/ImmoObject.php:156-163 | the category pairs follow the element names, and each name's last pair comes from its last element |
| ImmoObjects.ImagePairs | src/ImmoObject.php:177-183 | each attachment gives its `gruppe` and an image whose path is `ltrim(EXTRACT_DIR,'.')/getId()/pfad` |
| ImmoObjects.GetImagesGrouped | src/ImmoObject.php:175-186 | the loop computes exactly the grouping of the attachments' images |
| ImmoObjects.ImageStep | src/ImmoObject.php:180-183 | one more attachment pushes its image onto its group |
| ImmoObjects.ImagesGroupedSpec | src/ImmoObject.php:175-186 | groups in order of their first attachment, each listing exactly its attachments' images in document order |
| ImmoObjects.Titelbild | src/ImmoObject.php:168-170 | with a title image there is a result; without one the result is the default |
| ImmoObjects.TitelbildSpec | src/ImmoObject.php:168-173 | `hasTitelbild` iff some attachment is in group TITELBILD; the title image is the path of the first one, otherwise the default |
| ImmoObjects.GetTitelbildFails | src/ImmoObject.php:168-170 | as written, `getTitelbild` fails iff there is no title image and no default |
| ImmoObjects.NoAttachmentsTitelbildFails | src/ImmoObject.php:168-170 | with no attachments and no default, `getTitelbild` as written is a TypeError |
| ImmoObjects.ConvincingFactsSpec | src/ImmoObject.php:191-199 | the facts are a subsequence of Kamin, Sauna, Barrierefrei, Swimmingpool, Wintergarten; there are at most five; a fact is present iff its field reads exactly "true" |
| ImmoObjects.SelectFactsSpec | src/ImmoObject.php:192-198 | the same for any list of fields and facts |
| ImmoObjects.GetHeizungsart | src/ImmoObject.php:201-203 | one label per attribute of `heizungsart`, in order |
| ImmoObjects.HeizungsartIgnoresValues | src/ImmoObject.php:202 | only the attribute names count: "false" values are listed too |
| ImmoObjects.PlzLosesLeadingZero | src/ImmoObject.php:93 | a digit postal code becomes its decimal value, so "01067" and "1067" give the same `plz` |
| Ingestion.Unlink | src/FlowFact.php:94-95 | exactly the archives with another name remain |
| Ingestion.SortByTokenSpec | src/FlowFact.php:75-79 | the processing order is ascending by token, a permutation of the archives, and stable among equal tokens |
| Ingestion.StepSkips | src/FlowFact.php:89-90 | an archive whose directory exists changes nothing: no extraction, no unlink, no id |
| Ingestion.StepUnlinks | src/FlowFact.php:91-96 | any other archive is extracted and, outside development mode, deleted at once |
| Ingestion.StepQuarantines | src/FlowFact.php:99-102 | an extraction without openimmo.xml ends up as `_BROKEN__<name>`; no id is recorded and no other directory changes |
| Ingestion.StepApplies | src/FlowFact.php:107-129 | directory `id` is removed first; a DELETE then leaves neither `id` nor the extraction and records nothing; any other action moves the extraction to `id` and records `id` |
| Ingestion.EmptyIdWipesExtractDir | src/FlowFact.php:108-113 | an empty object id names the extract directory itself, so every extracted directory is removed |
| Ingestion.SelfNamedArchiveVanishes | src/FlowFact.php:108-129 | an archive named like its object id removes its own extraction before the rename, yet records the id |
| Ingestion.DevModeKeepsZips | src/FlowFact.php:94-95 | in development mode no archive is deleted |
| Ingestion.ApplyAllSpec | src/FlowFact.php:107-129 | applied in turn, an entry is decided by the last archive that lands on it: kept with its contents, or gone after a DELETE; untouched entries stay |
| Ingestion.RunIndependent | src/FlowFact.php:81-132 | for archives that do not collide, the pass applies each archive in turn and records exactly the ids of the non-broken, non-delete archives, in order, repeats included |
| Ingestion.RunUnlinksAll | src/FlowFact.php:94-95 | outside development mode, the archives left are exactly those named like none processed |
| Ingestion.NewestArchiveDecides | src/FlowFact.php:74-129 | in token order, the archive with the largest token for an id decides: a DELETE leaves nothing under the id, anything else leaves its contents; no archive's own directory remains |
| Ingestion.BrokenArchiveIsolated | src/FlowFact.php:99-102 | a broken archive's contents end up in its quarantine directory |
| Ingestion.NoIdsWithoutApplied | src/FlowFact.php:115-126 | broken archives and deletions record no id |
| FlowFactStore.FiltersAreAnded | src/FlowFact.php:260-268 | an item passes two filter lists iff it passes both |
| FlowFactStore.TwoFilters | src/FlowFact.php:168-173 | two filters select exactly what both accept |
| FlowFactStore.KaufAndMieteFilter | src/FlowFact.php:261-263 | with both the sale filter and the rent filter, only objects marketed both ways are selected |
| FlowFactStore.ImportStep | src/FlowFact.php:150-154 | one more listed directory assigns its object under its id |
| FlowFactStore.ImportLastWins | src/FlowFact.php:148-155 | the index holds each id once, in order of first appearance, with the object of the last directory listed for it, each keyed by its own id |
| FlowFactStore.ImportUnique | src/FlowFact.php:153 | the index never holds an id twice |
| FlowFactStore.NextPrevPositions | src/FlowFact.php:273-292 | on the key at position i, next and previous give the items at i+1 and i-1, and null past either end |
| FlowFactStore.NextPrevInverse | src/FlowFact.php:273-292 | away from the ends, next and previous undo each other |
| FlowFactStore.UnknownIdQuirk | src/FlowFact.php:275-276 | an unknown id counts as position 0: next gives the item at index 1, previous gives null |
| FlowFactStore.LocationsSpecProps | src/FlowFact.php:219-232 | keyed by a field: one location per key, in order of first appearance, the last with that key, each under its own key; otherwise every location in order under 0, 1, ... |
| FlowFactStore.LocationStep | src/FlowFact.php:225-229 | one more item assigns its location under its key, or appends it |
| FlowFactStore.UniqueCategoriesSpecProps | src/FlowFact.php:206-217 | fails iff some item's `getKategorien` fails; otherwise each category key once, in order of first appearance, with the category last seen, keyed by its own key |
| FlowFactStore.CategoryListFails | src/FlowFact.php:208-215 | the category list fails iff one item's fails, and otherwise pairs every category with its own key |
| FlowFactStore.CategoryListStops | src/FlowFact.php:212 | the first failing item decides the failure |
| FlowFactStore.CategoryStepPairs | src/FlowFact.php:212-214 | one inner assignment extends the category pairs by one |
| FlowFactStore.PassLeavesNoArchives | src/FlowFact.php:139-141 | outside development mode, a pass over every archive in any order leaves none, so `isUpToDate` holds, when the archives do not collide |
| FlowFactStore.SortedPassLeavesNoArchives | src/FlowFact.php:67-141 | the token order of `updateDataStorage` is such an order |
| FlowFactStore.FlowFact.constructor | src/FlowFact.php:50-61 | a new object has no filters and an empty texts map, and its index is the import exactly when importing is asked for |
| FlowFactStore.FlowFact.UpdateDataStorage | src/FlowFact.php:67-134 | the loop leaves the extract directory and the archives as the pass over the token-sorted archives does, and writes exactly that pass's recorded ids |
| FlowFactStore.FlowFact.ImportImmosFromFilesystem | src/FlowFact.php:148-155 | the index becomes the import of the listed directories, with distinct keys; filters and texts map unchanged |
| FlowFactStore.FlowFact.ImportAll | src/FlowFact.php:149-154 | the import loop computes exactly the specified index |
| FlowFactStore.FlowFact.GetItems | src/FlowFact.php:162-183 | imports only when there is no index and importing is asked for; returns exactly the items every filter accepts, keys and order kept; empties the filters iff `$resetFilters` |
| FlowFactStore.FlowFact.GetItem | src/FlowFact.php:190-197 | with an index, the indexed object or null; without one, the object of directory `id` iff it has an openimmo.xml, otherwise null |
| FlowFactStore.FlowFact.GetItemFinding | src/FlowFact.php:190-197 | as written, getItem fails exactly for a missing object without an index, and agrees with the intended result otherwise |
| FlowFactStore.FlowFact.NeighboursOfIndexedObject | src/FlowFact.php:278-279 | an indexed object's neighbours, looked up by the object itself, are the items next to it |
| FlowFactStore.FlowFact.NeighboursWithoutIndex | src/FlowFact.php:273-292 | without an index, a lookup by id or object is a TypeError; any other argument gives null |
| FlowFactStore.FlowFact.GetUniqueCategories | src/FlowFact.php:206-217 | the loop computes exactly the specified categories, stopping at the first failing item |
| FlowFactStore.FlowFact.GetLocations | src/FlowFact.php:219-232 | the loop computes exactly the specified locations |
| FlowFactStore.FlowFact.SetFilters | src/FlowFact.php:245-248 | the filters become the argument; nothing else changes |
| FlowFactStore.FlowFact.ClearFilters | src/FlowFact.php:255-258 | the filters become empty; nothing else changes |
| FlowFactStore.FlowFact.AddFilter | src/FlowFact.php:265-268 | the filter is appended, and an item passes the new list iff it passed the old list and passes the new filter |
| FlowFactStore.FlowFact.SetTextsMap | src/FlowFact.php:304-307 | the texts map becomes the argument; nothing else changes |

Some operations are plain reads or expressions and carry no contract of their own:

- `updateDataStorage`'s loop body is `Ingestion.Step` (src/FlowFact.php:85-129); the loop itself is `Ingestion.Run` (src/FlowFact.php:81-132).
- The `usort` by token is `Ingestion.SortByToken` (src/FlowFact.php:75-79).
- `getId` is `ImmoObjects.GetId` (src/ImmoObject.php:76-82).
- `getVermarktungsart` is `ImmoObjects.GetVermarktungsart` (src/ImmoObject.php:51-59).
- `getNutzungsart` is `ImmoObjects.GetNutzungsart` (src/ImmoObject.php:66-74).
- `getTitelbild` as written is `ImmoObjects.GetTitelbild` (src/ImmoObject.php:168-170).
- `getItem` as written is `FlowFact.GetItemAsWritten` (src/FlowFact.php:190-197).

- `getFilters` and `getTextsMap` are `FlowFact.GetFilters` and `FlowFact.GetTextsMap`.
- `isUpToDate` is `FlowFact.IsUpToDate`.
- `getNextOf` and `getPrevOf` are `FlowFact.GetNextOf` and `FlowFact.GetPrevOf`.
- `mapString` is `TextMapping.MapString`; the class reaches it through `FlowFact.TextLabels`.
- `hasTitelbild` is `ImmoObjects.HasTitelbild`.
- `getConvincingFacts` is `ImmoObjects.GetConvincingFacts`.
- `getLocation` is `ImmoObjects.GetLocation`.
- `isVermarktungsart`, `isKauf`, `isMiete` and `isNutzungsart` are predicates of the same names.

The lemmas in the table above state the properties of these operations.

## Left out

- All real I/O is left out: ZipArchive extraction, `glob`, `unlink`, `rename`, `exec("rm -rf …")` with its `PHP_OS` branch, `file_put_contents`/`json_encode`, and `simplexml_load_file`. Archives are already-parsed records, and the extract directory is a map from entry name to contents.
- `ZipArchive::open` failure is left out. `open` returns a truthy error code, so the model treats it as always succeeding.
- Directory names are flat. An object id containing '/' or '..', which would name a nested or outside path, is not modelled.
- A directory with an `openimmo.xml` that is malformed, or lacks `anbieter->immobilie`, is not modelled. It is treated like a directory without the file.
- `Ingestion.Rename`: on POSIX, `rename` of a directory onto an existing empty directory succeeds. The model treats every existing target as a failure.
- Ingestion.NewestArchiveDecides, Ingestion.RunIndependent, Ingestion.RunUnlinksAll, Ingestion.BrokenArchiveIsolated and FlowFactStore.PassLeavesNoArchives are stated only for archives that do not collide (`Ingestion.Independent`). That means:
  - distinct names that are not yet extracted;
  - no archive name equal to an object id or quarantine name;
  - no empty id;
  - unique quarantine names.

  Colliding archives are covered step by step by the `Step…` lemmas.
- Ingestion.SortByTokenSpec: tokens are natural numbers. PHP's `>` compares two digit strings numerically, but it compares other token strings as text. The `usort` comparator returns a bool, which PHP 8 turns into a stable ascending sort.
- The singleton and static configuration are left out: `getInstance`, `$AUTO_UPDATE`, the exception for an unset `$BASE_DIR`, the default `$EXTRACT_DIR`, and `mkdir` of the extract directory. Settings are parameters.
- FlowFactStore.FlowFact.ImportImmosFromFilesystem: which directories the glob lists, and in what order, is the parameter `listing`. The model requires only that each listed directory holds an object. It does not require that every such directory is listed.
- PHP turns array keys that are decimal integer strings into integers. An id such as "123" therefore becomes the integer key 123, and `array_search` compares loosely. The model keeps string keys and compares them exactly.
- FlowFactStore.LocationsSpecProps: `lat`/`lng` stay strings, and as keys they are truncated with `(int)` where PHP truncates a float. Exponent forms and float rounding are not modelled. A string key such as a numeric `ort` is not merged with an equal integer key.
- ValueFormatters.FormatPrice: only digit strings of at most 15 digits are modelled, where `number_format`'s float is exact. Fractions, signs and rounding are left out.
- `PhpStrings.IntCast`: PHP's `(int)` saturates at the 64-bit bounds. The model's integers are unbounded.
- `PhpStrings.IntCast` reads only the leading sign and digits. Since PHP 7.1, `(int)` of a numeric string with an exponent uses the whole number: `(int)"1e3"` is 1000 in PHP and 1 here. This affects `ImmoObjects.GetLocation`'s `plz` and the `lat`/`lng` location keys.
- `is_numeric` is the parameter `isNumeric` of `ImmoObjects.GetPreise`. Its grammar is not modelled.
- Strings are sequences of characters, and PHP works on bytes. '²' and '€' are single characters here. `strtolower` folds only ASCII letters, as PHP 8.2 and later do.
- `ImmoObject::getProvider` is left out: it calls an undefined method, and `FlowFact::getProvider` is private. `getNextImmo`/`getPrevImmo` only forward to `getNextOf`/`getPrevOf`.
- The magic `__get`/`__call` delegation is replaced by the explicit XML accessors of `Xml`.
- The filter classes FlowFactFilterKauf and FlowFactFilterMiete are the predicates `KaufFilter` and `MieteFilter`. A filter is any predicate on objects.

## Findings

| source | as written | input that shows it | evidently intended | confidence | as-written member | corrected member |
|---|---|---|---|---|---|---|
| src/ImmoObject.php:168-170 | `getTitelbild` is declared `: string`, but it returns `$default`, which is `null` by default, when there is no TITELBILD image (modelled by `ImmoObjects.GetTitelbild`) | an object without attachments and `getTitelbild()` called with no argument: a TypeError | return type `?string`: the first title-image path, otherwise the default | not executed | ImmoObjects.NoAttachmentsTitelbildFails | ImmoObjects.Titelbild |
| src/FlowFact.php:190-197 | without an index and without a directory for the id, `getItem` returns `false` from a function declared `: ?ImmoObject` (modelled by `FlowFactStore.FlowFact.GetItemAsWritten`) | `getItem("x")` before any import, with no directory `x`: a TypeError | `null` for a missing object | not executed | FlowFactStore.FlowFact.GetItemFinding | FlowFactStore.FlowFact.GetItem |
