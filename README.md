# Portrait resolution and SQL Server detection, modelled in Dafny

This project models two pieces of decision logic from EVE Market Monitor (EMMA).

**Character portraits** (`DatabaseClasses/Portaits.cs`). A portrait cache asks for an
image it does not hold, and a miss handler resolves that image by a fixed ladder:

1. It asks the EVE portrait web service.
2. If that succeeds, it writes the image back to the Portraits table and uses it.
3. Otherwise it uses the stored row, if the table holds exactly one row for the character.
4. Otherwise it uses the 256×256 name placeholder that the failed fetch already drew.

The model also covers the table lookup (`LoadPortraitFromDB`), the upsert keyed by
`charID` (`StorePortrait`) and the one-shot initialisation flag that attaches the handler.
The class's static state is the Dafny class `Portraits.PortraitCache`. It holds the flag,
the number of attached handlers, the table as a sequence of rows, and a ghost log of the
table calls made. That log is what lets the contracts say "the table was read" or "the
portrait was stored exactly once". Pure functions specify each method: `UniqueMatch`,
`Upsert`, `GetImageFromAPI` and `Resolve`. Lemmas prove the upsert and ladder properties
about those functions.

**SQL Server detection** (`Common/SQLExpressChecks.cs`). Three rules sit under the WMI calls:

- the instance name carried by a service name;
- the choice of WMI namespace from the child namespaces found under `root\Microsoft\sqlserver`;
- the classification of the reported major version into `SQLVersion`.

WMI's answers are inputs: the namespace names enumerated (with the message of a
`ManagementException` if one ended the enumeration), and the engines found with their
version text.

The version classification is stated as the code behaves. In the conditions at lines 44
and 48, `&&` binds tighter than `||`. So a major version above 10 is first set to `Later`
and then overwritten with `SQL2008` at line 48, and `Later` is never returned.
`GetSQLVersion` proves this (`ensures r != Ok(Later)`, through `ObservedVersion`).
The evident intention was to report `Later` for versions above 10. `IntendedVersion`
states that classification, and `PrecedenceQuirk` proves that the two part exactly above
10. `GetSQLVersion` keeps the behaviour as written, because it models what the program
returns; the corrected classification stands beside it (see "## Findings").

## Model

| member | source | states |
|---|---|---|
| `Portraits.Placeholder` | DatabaseClasses/Portaits.cs:179-194 | the placeholder is a 256×256 name plate carrying the caption it was drawn with |
| `Portraits.GetImageFromAPI` | DatabaseClasses/Portaits.cs:133-201 | success holds exactly when a response stream exists and decodes to an image, and the result is then that image; otherwise the result is the 256×256 name placeholder for the character, never null |
| `Portraits.FillByID` | DatabaseClasses/Portaits.cs:83-84 | the rows loaded for an id are exactly the table's rows with that id, and there are no more of them than rows in the table |
| `Portraits.OneRowLoaded` | DatabaseClasses/Portaits.cs:87 | one row is loaded for an id exactly when one position of the table holds a row with that id |
| `Portraits.UniqueMatch` | DatabaseClasses/Portaits.cs:78-93 | a row is returned exactly when one table row matches the id, and it is a table row with that id; no match or several matches give none |
| `Portraits.Upsert` | DatabaseClasses/Portaits.cs:100-126 | with a row for the id present, the table keeps its size; with none, the result is the table plus one new row holding the id and the bytes |
| `Portraits.UpsertLeavesOther` | DatabaseClasses/Portaits.cs:106-125 | the rows of any other id are the same, in the same order, after the upsert |
| `Portraits.UpsertLeavesOthers` | DatabaseClasses/Portaits.cs:106-125 | the same for every other id at once |
| `Portraits.UpsertRewritesFirst` | DatabaseClasses/Portaits.cs:108-123 | the rows for the id afterwards are the new row followed by the old rows for the id minus the first one: the first is overwritten, or a new row is added if there was none |
| `Portraits.UpsertThenLoad` | DatabaseClasses/Portaits.cs:100-126 | after storing into a table with at most one row for the id, LoadPortraitFromDB finds exactly the stored row |
| `Portraits.UpsertIdempotent` | DatabaseClasses/Portaits.cs:100-126 | storing the same bytes twice leaves the same table as storing them once |
| `Portraits.FirstRowIndex` | DatabaseClasses/Portaits.cs:108-111 | -1 exactly when no row has the id; otherwise the position of a row with the id, and no earlier row has it |
| `Portraits.UpsertInPlace` | DatabaseClasses/Portaits.cs:110-122 | overwriting the portrait of the first row for the id, in place, is the upsert |
| `Portraits.DecodeStored` | DatabaseClasses/Portaits.cs:62-64 | a stored row yields an image exactly when its bytes decode, and then that image; otherwise the decoding exception, naming the row's character |
| `Portraits.Resolve` | DatabaseClasses/Portaits.cs:46-72 | a successful fetch is the answer and is written back: the first row for the key becomes the JPEG bytes of the image, and every other id's rows are unchanged. A failed fetch writes nothing. It then gives the decoded unique stored row, or the fetch's placeholder when no unique row exists. An exception occurs only if decoding the unique stored row fails |
| `Portraits.FallbackServesWrittenBack` | DatabaseClasses/Portaits.cs:46-72 | after a successful resolution, a later miss with the service down writes nothing and yields the stored JPEG of that image |
| `Portraits.DuplicateRowsStayAmbiguous` | DatabaseClasses/Portaits.cs:46-72 | with two or more rows for the key, a successful write-back overwrites only the first, so a later miss with the service down writes nothing and still yields the placeholder |
| `Portraits.PortraitCache.constructor` | DatabaseClasses/Portaits.cs:14-17 | starts uninitialised with no handler attached, over the given table, with no table calls made |
| `Portraits.PortraitCache.Initialise` | DatabaseClasses/Portaits.cs:20-27 | afterwards the flag is set and one handler is attached; a second call attaches nothing |
| `Portraits.PortraitCache.LoadPortraitFromDB` | DatabaseClasses/Portaits.cs:78-93 | returns the unique row for the id (UniqueMatch), records one table read and leaves the table unchanged |
| `Portraits.PortraitCache.StorePortrait` | DatabaseClasses/Portaits.cs:100-126 | the table becomes the upsert of the JPEG bytes of the portrait, with one store recorded |
| `Portraits.PortraitCache.CacheDataUpdateNeeded` | DatabaseClasses/Portaits.cs:46-72 | result and new table are those of Resolve for the fetch outcome. On success it makes exactly one store call with (key, image) and no read; on failure it makes exactly one read and no store |
| `Portraits.PortraitCache.GetPortrait` | DatabaseClasses/Portaits.cs:34-39 | afterwards the flag is set and stays set, and the handler is not attached again; a cache hit returns the cached image and touches nothing; a miss behaves as the handler |
| `SqlExpressChecks.ToUpper` | Common/SQLExpressChecks.cs:103 | same length; no lower-case letter remains; each lower-case letter becomes its upper-case form and every other character is unchanged |
| `SqlExpressChecks.ToUpperIdempotent` | Common/SQLExpressChecks.cs:103 | upper-casing twice is the same as upper-casing once |
| `SqlExpressChecks.EqualsIgnoreCase` | Common/SQLExpressChecks.cs:140 | the comparison holds exactly when the lengths agree and at each position the characters are equal or are the two cases of one letter; equal strings always compare equal |
| `SqlExpressChecks.Contains` | Common/SQLExpressChecks.cs:103 | true exactly when the part occurs in the string at some position |
| `SqlExpressChecks.IndexOf` | Common/SQLExpressChecks.cs:146 | -1 exactly when the character does not occur; otherwise a position holding it with no earlier occurrence |
| `SqlExpressChecks.Substring` | Common/SQLExpressChecks.cs:146 | the substring has the requested length and holds, in order, the characters of the string from the start position |
| `SqlExpressChecks.GetInstanceNameFromServiceName` | Common/SQLExpressChecks.cs:136-153 | a null or empty name gives the empty string. MSSQLSERVER in any letter case is returned unchanged. Any other name gives the text after its first '$', or the whole name when it has no '$' |
| `SqlExpressChecks.DefaultInstanceAnyCase` | Common/SQLExpressChecks.cs:140-142 | "mssqlserver" is returned unchanged |
| `SqlExpressChecks.NamedInstance` | Common/SQLExpressChecks.cs:146 | for a name other than the default instance, the result is exactly the text after the first '$' |
| `SqlExpressChecks.NamedInstanceExample` | Common/SQLExpressChecks.cs:146 | "MSSQL$SQLEXPRESS" gives "SQLEXPRESS" |
| `SqlExpressChecks.ChooseNamespace` | Common/SQLExpressChecks.cs:108-128 | ComputerManagement10 wins over ComputerManagement. Neither present, or an empty list, gives the empty string. Any non-empty result is the root namespace, a backslash and a child that was found |
| `SqlExpressChecks.Rethrows` | Common/SQLExpressChecks.cs:101-106 | the namespace error is rethrown exactly when a ManagementException ended the enumeration and INVALID NAMESPACE occurs nowhere in its upper-cased message |
| `SqlExpressChecks.GetCorrectWmiNameSpace` | Common/SQLExpressChecks.cs:83-130 | a ManagementException whose upper-cased message lacks "INVALID NAMESPACE" is rethrown as an EMMAException; otherwise the result is the choice over the names collected before the enumeration ended |
| `SqlExpressChecks.IntendedVersion` | Common/SQLExpressChecks.cs:44-55 | the evidently intended classification: Later exactly above 10, SQL2008 exactly at 10, SQL2005 exactly at 9, none below 9 |
| `SqlExpressChecks.ObservedVersion` | Common/SQLExpressChecks.cs:44-55 | the classification as written agrees with the intended one up to 10; above 10 it is SQL2008 where Later was intended; it is never Later |
| `SqlExpressChecks.PrecedenceQuirk` | Common/SQLExpressChecks.cs:44-51 | the as-written and intended classifications differ exactly for a major version above 10, for example 11 |
| `SqlExpressChecks.GetSQLVersion` | Common/SQLExpressChecks.cs:26-78 | a namespace error propagates. An empty namespace or no engines gives None. Otherwise only the last engine's version counts: 9 gives SQL2005, 10 and above give SQL2008, anything else gives None, and unparsable text throws. Later is never returned |

## Findings

| source | as written | input that shows it | evidently intended | confidence | as-written member | corrected member |
|---|---|---|---|---|---|---|
| Common/SQLExpressChecks.cs:44-51 | `&&` binds tighter than `\|\|`, so the Later set for a major above 10 satisfies the second condition and is overwritten with SQL2008 | a last engine reporting version 11.0 | Later for a major version above 10 | not executed; the precedence rule of C# makes it certain | `SqlExpressChecks.ObservedVersion`, used by `SqlExpressChecks.GetSQLVersion`; `SqlExpressChecks.PrecedenceQuirk` exhibits major 11 | `SqlExpressChecks.IntendedVersion` |

`GetSQLVersion` models what the program returns, so it uses the as-written
classification; the corrected one is stated and proved on its own.

## Left out

- `Cache<long, Image>` (capacity 50, eviction, storing `args.Data`): its source is not part of this model. `GetPortrait` takes the cache's hit or miss as an input and runs the attached handler on a miss.
- HTTP request and response handling in `GetImageFromAPI`: network I/O. The outcome is an input: unreachable, no stream, or the stream's bytes.
- Image decoding, JPEG encoding and placeholder drawing: library calls with floating-point text centring. The codec is a pair of abstract functions. The placeholder is a 256×256 value carrying the caption.
- `Names.GetName`: not part of this model. The name is an input of the handler.
- The table adapter's SQL (`FillByID`, `Update`): modelled as a filter over a sequence of rows in table order, and as an upsert that replaces the first matching row. Failures of the database calls are not modelled.
- Thread safety of the static fields: the source has no concurrency logic.
- WMI querying (`ManagementObjectSearcher`, `ManagementClass`, `GetWmiPropertyValueForEngineService`): foreign system calls. The namespace names, the exception message and the engines with their version text are inputs. The `Count > 0` check and the enumeration are taken to see the same engines.
- `System.Version` parsing: a library call. The version text is its major number or unparsable. The initial empty version text counts as unparsable.
- Exceptions other than `ManagementException` during namespace enumeration are not modelled.
- `SqlExpressChecks.ToUpper`: upper-cases ASCII letters only. Culture-specific upper-casing and characters outside ASCII that `OrdinalIgnoreCase` folds onto ASCII letters are not modelled.
- `SqlExpressChecks.GetInstanceNameFromServiceName`: the same ASCII-only case folding applies to the MSSQLSERVER comparison.
