# Coffee price import and range query — a Dafny model

This project models the core of `cotacao-cafe-api`, a Spring service that
keeps monthly coffee prices published by CEPEA (the agricultural economics
centre of the University of São Paulo).

**The import.** `CotacaoService.importarDeJson` reads a JSON array of
`{mesAno, valor}` items and folds it over the `cotacao_cafe` table:
- an item without month or price is skipped;
- otherwise the `MM/yyyy` month is parsed to its first day;
- the row for (that date, "CEPEA") is looked up;
- a missing row is inserted as a new "Café Robusta" row, and an existing one
  gets the new price in place.

One audit row goes to `imp_historico` when the loop completes.

**The range query.** `GET /periodo` turns two `yyyy/MM` months into a date
window ending on the last day of the second month. It selects the rows dated
in the window, in ascending date order. Each price comes back rounded HALF_UP
to two decimals.

**Around these.** The model also covers:
- the database gateway (`insert` is `persist`, `update` is `merge`);
- the enum of WHERE operators;
- the two entities and their column constraints;
- the string, date and number helpers of `Utils`;
- the pure file-name functions of `FileUtils`.

Each Java class becomes one module in one file:

| file | module | models |
|---|---|---|
| `results.dfy` | `Results` | `null` as `Option`, exceptions as `Result` errors |
| `text.dfy` | `Text` | the `String` operations used: `trim`, `isBlank`, `replace`, `indexOf`, `lastIndexOf`, decimal digits |
| `seqs.dfy` | `Seqs` | filter and map over sequences |
| `dates.dfy` | `Dates` | `LocalDate` (proleptic Gregorian, ISO 8601), chronological and month order |
| `decimals.dfy` | `Decimals` | `BigDecimal` as (unscaled, scale): `setScale(…, HALF_UP)` and `new BigDecimal(String)` |
| `utils.dfy` | `Utils` | `validar`, `limpar`, `parseMesAno`, `parseAnoMes`, `parseIsoDate`, `isSameMonth`, `firstDayOfMonth`, `lastDayOfMonth`, `round`, `toBigDecimal` |
| `condicao.dfy` | `Condicoes` | the `Condicao` enum and `getOperador` |
| `entities.dfy` | `Entities` | `CotacaoCafeEntity`, `ImpHistoricoEntity`, the two DTOs, column constraints |
| `dao.dfy` | `Dao` | the two tables with their identity allocators; `insert` and `update` |
| `select.dfy` | `CotacaoSelect` | the point lookup and the range query, as filter, sort and projection |
| `service.dfy` | `CotacaoService` | `importarDeJson`, `salvar`, `historicoSave`, `buscarPorPeriodo` |
| `controller.dfy` | `CotacaoController` | the status codes and bodies of `importarDeJson` and `listarPorPeriodo` |
| `fileutils.dfy` | `FileUtils` | `filename`, `extension`, `basename`, the filter of `findFilesByExtension`, the names of `rotateFile` and `backupFile` |

**The store.** It is a sequence of rows per table, in insertion order, with
the next identity value of each table. `Valid` states what the database
guarantees at every commit:
- every row has an id below the allocator, and no two rows share one;
- every row satisfies its NOT NULL and length constraints.

`UmaCepeaPorMes` is the import's own invariant: at most one CEPEA row per
date.

**Error paths.** Every exception the code can throw is an `Err`:
- a `null` array element, which the loop dereferences;
- a month that does not parse;
- a lookup that matches twice;
- a constraint the database rejects;
- a path `Path.of` refuses;
- a root or all-separator path, whose `getFileName()` is null and is then dereferenced (`NullPointer`);
- a file that cannot be read or decoded (`ReadFailure`).

An exception in the middle of the loop keeps the writes made before it, as
the per-call transactions of `DAOController` do.

Some behaviours of the code are reproduced as written, and some lemmas state
them:
- The import parses months only as `MM/yyyy`.
- `limpar` removes `-`, so `parseIsoDate` can never succeed. Likewise a
  `yyyy-MM` month sent to `/periodo` answers 500.
- The 400 branch of `listarPorPeriodo` cannot fire, because `parseAnoMes`
  throws rather than returning `null`.
- `toBigDecimal` reads every `.` as a thousands separator, so "12.5" is 125.
- `limpar` only logs a bad length or slash position.
- `rotateFile` computes `keep - 1` and `i + 1` in 32-bit arithmetic, so
  `keep` of `Integer.MIN_VALUE` names its first target `base_-2147483648`.

## Model

| member | source | states |
|---|---|---|
| Condicoes.ValuesClosed | src/main/java/com/api/cotacao/db/Condicao.java:6-16 | every operator is one of the ten declared constants, and the ten are pairwise distinct |
| Condicoes.OperadorRoundTrip | src/main/java/com/api/cotacao/db/Condicao.java:7-26 | looking up a constant's `getOperador` symbol in an independent symbol table returns that constant |
| Condicoes.FromOperadorSound | src/main/java/com/api/cotacao/db/Condicao.java:7-26 | every symbol the table recognises is the `getOperador` symbol of the constant it names |
| Condicoes.OperadorInjective | src/main/java/com/api/cotacao/db/Condicao.java:7-16 | two operators with the same symbol are the same operator |
| Entities.NovaCotacao | src/main/java/com/api/cotacao/entity/CotacaoCafeEntity.java:96-97 | the no-arg entity has no id, date, type, price, variation or source, carries today as `criadoEm`, and could not be stored |
| Entities.CotacaoDe | src/main/java/com/api/cotacao/entity/CotacaoCafeEntity.java:99-105 | the four-argument entity copies its arguments, has source "CEPEA" and no id; it can be stored exactly when it has a calendar date and a price and its type fits 100 characters |
| Entities.SetDataReferencia | src/main/java/com/api/cotacao/entity/CotacaoCafeEntity.java:52-54 | sets the reference date and no other field |
| Entities.SetTipoCafe | src/main/java/com/api/cotacao/entity/CotacaoCafeEntity.java:60-62 | sets the coffee type and no other field |
| Entities.SetValor | src/main/java/com/api/cotacao/entity/CotacaoCafeEntity.java:68-70 | sets the price and no other field |
| Entities.SetVariacao | src/main/java/com/api/cotacao/entity/CotacaoCafeEntity.java:76-78 | sets the variation and no other field |
| Entities.SetOrigemDado | src/main/java/com/api/cotacao/entity/CotacaoCafeEntity.java:84-86 | sets the data source and no other field |
| Entities.SetCriadoEm | src/main/java/com/api/cotacao/entity/CotacaoCafeEntity.java:92-94 | sets the creation date and no other field |
| Entities.GetValor | src/main/java/com/api/cotacao/entity/CotacaoCafeEntity.java:64-66 | the price as a decimal when present; a missing price throws `NullPointerException` |
| Entities.NovoHistorico | src/main/java/com/api/cotacao/entity/ImpHistoricoEntity.java:36-37 | the no-arg audit record has no id and could not be stored |
| Entities.HistoricoDe | src/main/java/com/api/cotacao/entity/ImpHistoricoEntity.java:39-51 | the five-argument audit record copies each argument into its field and has no id |
| Entities.SetNomeArquivo | src/main/java/com/api/cotacao/entity/ImpHistoricoEntity.java:65-67 | sets the file name and no other field |
| Entities.SetOrigem | src/main/java/com/api/cotacao/entity/ImpHistoricoEntity.java:73-75 | sets the source and no other field |
| Entities.SetData | src/main/java/com/api/cotacao/entity/ImpHistoricoEntity.java:81-83 | sets the timestamp and no other field |
| Entities.SetTotalRegistro | src/main/java/com/api/cotacao/entity/ImpHistoricoEntity.java:89-91 | sets the record count and no other field |
| Entities.SetTempoExecucaoMs | src/main/java/com/api/cotacao/entity/ImpHistoricoEntity.java:97-99 | sets the elapsed time and no other field |
| Entities.SettersMatchConstructor | src/main/java/com/api/cotacao/service/CotacaoService.java:73-78 | filling a fresh audit record through its five setters gives the same record as the five-argument constructor |
| Dao.InsertCotacao | src/main/java/com/api/cotacao/db/DAOController.java:16-20 | `persist` of a price row: an entity with an id is rejected and so is one breaking a column constraint; otherwise exactly one row is appended under a fresh id, existing rows and the other table stay as they were, the returned entity is the one given now carrying its id, and validity is kept |
| Dao.InsertHistorico | src/main/java/com/api/cotacao/db/DAOController.java:16-20 | the same for an audit row |
| Dao.UpdateCotacao | src/main/java/com/api/cotacao/db/DAOController.java:22-25 | `merge`: without id it is an insert; with an unknown id it fails; with a stored id it succeeds exactly when the entity is storable, overwrites that row in place, keeps the row count and everything else, returns the merged entity, and keeps validity |
| Dates.LengthOfMonth | src/main/java/com/api/cotacao/utils/Utils.java:107-109 | `lengthOfMonth`: 28 to 31 days; 29 exactly for February of a Gregorian leap year, 28 for other Februaries, 30 exactly for April, June, September and November |
| Dates.DateLeTotalOrder | src/main/java/com/api/cotacao/select/CotacaoSelect.java:40-41 | the date order the range filter and sort rely on is reflexive, total, antisymmetric and transitive |
| Decimals.DivHalfUp | src/main/java/com/api/cotacao/utils/Utils.java:131 | division rounding HALF_UP: the quotient is within half a unit of the exact one, with ties away from zero |
| Decimals.HalfUpQuotientUnique | src/main/java/com/api/cotacao/utils/Utils.java:131 | the HALF_UP quotient is unique, so the rounding characterisation determines the result |
| Decimals.SetScaleHalfUp | src/main/java/com/api/cotacao/utils/Utils.java:131 | `setScale(n, HALF_UP)` gives scale n; it keeps the value when widening and rounds HALF_UP when narrowing |
| Decimals.PlainStringRoundTrip | src/main/java/com/api/cotacao/utils/Utils.java:124 | the plain decimal text of any decimal of non-negative `int` scale parses back to that decimal, scale included |
| Decimals.ParseExponent | src/main/java/com/api/cotacao/utils/Utils.java:124 | the exponent of `new BigDecimal(String)` is read exactly when it is an optional sign and digits whose signed value fits in an `int`, and it is that value |
| Decimals.ExponentOverflow | src/main/java/com/api/cotacao/utils/Utils.java:124 | exponents one past either end of `int` range are refused |
| Decimals.ExponentExtremes | src/main/java/com/api/cotacao/utils/Utils.java:124 | the extreme `int` exponents themselves are read |
| Decimals.RefusedExponent | src/main/java/com/api/cotacao/utils/Utils.java:124 | a refused exponent makes the whole number refused, whatever the significand, so "1e2147483648" throws `NumberFormatException` |
| Text.Trim | src/main/java/com/api/cotacao/utils/Utils.java:123 | `trim` returns a contiguous slice with only code points up to U+0020 cut from either end, and none left at its ends |
| Text.TrimNoOp | src/main/java/com/api/cotacao/utils/Utils.java:123 | text whose ends are not trimmable is unchanged by `trim` |
| Text.RemoveAllKeepsOthers | src/main/java/com/api/cotacao/utils/Utils.java:123 | `replace(".", "")` removes every `.` and keeps every other character the same number of times |
| Text.ReplaceAll | src/main/java/com/api/cotacao/utils/Utils.java:123 | `replace(",", ".")` keeps the length and changes exactly the commas |
| Text.LastIndexOf | src/main/java/com/api/cotacao/utils/FileUtils.java:71 | `lastIndexOf` is -1 exactly when the character is absent; otherwise that position holds it and nothing after it does |
| Text.IntToString | src/main/java/com/api/cotacao/utils/FileUtils.java:358-359 | string concatenation of an `int` renders it as `Integer.toString` does: a leading '-' exactly for a negative number, then its digits |
| Text.IntToStringInjective | src/main/java/com/api/cotacao/utils/FileUtils.java:358-359 | distinct numbers of either sign render differently |
| Utils.Validar | src/main/java/com/api/cotacao/utils/Utils.java:47-54 | `validar` passes exactly the non-null, non-blank texts; null and blank throw their two distinct exceptions |
| Utils.Limpar | src/main/java/com/api/cotacao/utils/Utils.java:56-73 | `limpar` keeps every digit and `/` of its input, as many times as they occur, and nothing else; it throws exactly when the input is null, blank or has no digit or slash |
| Utils.LimparAcceptsAnyShape | src/main/java/com/api/cotacao/utils/Utils.java:62-72 | any non-empty text of digits and slashes passes unchanged, whatever its length or slash position |
| Utils.LimparIdempotent | src/main/java/com/api/cotacao/utils/Utils.java:56-73 | cleaning cleaned text changes nothing |
| Utils.LimparNonBlank | src/main/java/com/api/cotacao/utils/Utils.java:56-60 | on non-blank text the result is the input filtered to digits and slashes, in input order, or the blank error when that is empty |
| Utils.LimparFollowsInputOrder | src/main/java/com/api/cotacao/utils/Utils.java:59 | cleaning a concatenation concatenates the cleaned parts in order |
| Utils.LimparDropsSeparator | src/main/java/com/api/cotacao/utils/Utils.java:59 | a separator other than a digit or slash between digit runs is dropped, so the runs merge |
| Utils.AtDayOne | src/main/java/com/api/cotacao/utils/Utils.java:79-80 | `YearMonth.atDay(1)` succeeds exactly for months 1 to 12 and a year of era of at least 1, giving day 1 of that month |
| Utils.ParseMesAno | src/main/java/com/api/cotacao/utils/Utils.java:78-81 | a successful `parseMesAno` is a calendar date on day 1 with a four-digit year |
| Utils.ParseAnoMes | src/main/java/com/api/cotacao/utils/Utils.java:83-87 | a successful `parseAnoMes` is a calendar date on day 1 with a four-digit year |
| Utils.ParseMesAnoRoundTrip | src/main/java/com/api/cotacao/utils/Utils.java:78-81 | the `MM/yyyy` text of any month of years 1 to 9999 parses to day 1 of that month |
| Utils.ParseAnoMesRoundTrip | src/main/java/com/api/cotacao/utils/Utils.java:83-87 | the `yyyy/MM` text of any month of years 1 to 9999 parses to day 1 of that month |
| Utils.ParseMesAnoOnlyCanonical | src/main/java/com/api/cotacao/utils/Utils.java:78-81 | whatever `parseMesAno` accepts cleans to exactly the `MM/yyyy` text of the month it returns |
| Utils.ParseAnoMesOnlyCanonical | src/main/java/com/api/cotacao/utils/Utils.java:83-87 | whatever `parseAnoMes` accepts cleans to exactly the `yyyy/MM` text of the month it returns |
| Utils.ParseMesAnoRejectsAnoMes | src/main/java/com/api/cotacao/utils/Utils.java:78-81 | the import's parser rejects every `yyyy/MM` text |
| Utils.ParseAnoMesRejectsIsoMonth | src/main/java/com/api/cotacao/utils/Utils.java:83-87 | `parseAnoMes` rejects every `yyyy-MM` text, because cleaning removes the hyphen |
| Utils.ParseIsoDate | src/main/java/com/api/cotacao/utils/Utils.java:90-92 | `parseIsoDate` never succeeds: cleaning removes the hyphens its pattern needs |
| Utils.IsSameMonth | src/main/java/com/api/cotacao/utils/Utils.java:99-101 | `isSameMonth` holds exactly when neither date's month comes after the other's |
| Utils.SameMonthByFirstDay | src/main/java/com/api/cotacao/utils/Utils.java:99-105 | two calendar dates are in the same month exactly when `firstDayOfMonth` maps them to the same date |
| Utils.FirstDayOfMonth | src/main/java/com/api/cotacao/utils/Utils.java:103-105 | a calendar date in the same month (`isSameMonth`), on day 1, not after any date of that month |
| Utils.LastDayOfMonth | src/main/java/com/api/cotacao/utils/Utils.java:107-109 | a calendar date in the same month, not before any date of that month; in February it is the 29th exactly in leap years |
| Utils.MonthWindow | src/main/java/com/api/cotacao/utils/Utils.java:99-109 | a date lies between the first day of one month and the last day of another exactly when its month lies between the two months |
| Utils.Round | src/main/java/com/api/cotacao/utils/Utils.java:127-132 | `round(null)` is null; otherwise the result has exactly the requested scale, keeps the value when widening and rounds HALF_UP when narrowing |
| Utils.RoundExamples | src/main/java/com/api/cotacao/utils/Utils.java:127-132 | 12.345 rounds to 12.35, 12.344 to 12.34, -12.345 to -12.35, and 5 widens to 5.00 |
| Utils.ToBigDecimal | src/main/java/com/api/cotacao/utils/Utils.java:119-125 | `toBigDecimal` is null exactly for null or blank text; otherwise it succeeds exactly when the trimmed text, with dots removed and commas turned into points, parses, and then returns that decimal; a text that does not parse, an exponent outside `int` range included, throws `NumberFormatException` |
| Utils.BrazilianNormalizesToPlain | src/main/java/com/api/cotacao/utils/Utils.java:123 | normalising the Brazilian rendering of a decimal (dot thousands separators, decimal comma) gives its plain rendering |
| Utils.BrazilianNotBlank | src/main/java/com/api/cotacao/utils/Utils.java:120 | the Brazilian rendering of a decimal is never blank, so `toBigDecimal` does not return null for it |
| Utils.BrazilianRoundTrip | src/main/java/com/api/cotacao/utils/Utils.java:119-125 | every decimal written in Brazilian notation is read back as that very decimal |
| Utils.ToBigDecimalGrouped | src/main/java/com/api/cotacao/utils/Utils.java:119-125 | "1.234,56" reads as 1234.56 |
| Utils.ToBigDecimalPointIsGrouping | src/main/java/com/api/cotacao/utils/Utils.java:123-124 | "12.5" reads as 125, because every point is taken as a thousands separator |
| CotacaoSelect.BuscarPorDataEOrigem | src/main/java/com/api/cotacao/select/CotacaoSelect.java:15-31 | the point lookup fails exactly when two rows match both date and source; with no match it returns the fresh entity without id rather than an error; otherwise it returns the matching row |
| CotacaoSelect.AchadosCardinalidade | src/main/java/com/api/cotacao/select/CotacaoSelect.java:19-23 | the conditions select nothing exactly when no row has both the date and the source, and at least two rows exactly when two distinct rows do |
| CotacaoSelect.Projecao | src/main/java/com/api/cotacao/select/CotacaoSelect.java:38 | the projection keeps the reference date and the price |
| CotacaoSelect.InserirOrdenado | src/main/java/com/api/cotacao/select/CotacaoSelect.java:41 | inserting into a date-sorted list keeps it sorted and adds exactly that row |
| CotacaoSelect.OrdenarPorData | src/main/java/com/api/cotacao/select/CotacaoSelect.java:41 | the sort is a permutation of its input in ascending date order |
| CotacaoSelect.NaoDepoisTotalPreorder | src/main/java/com/api/cotacao/select/CotacaoSelect.java:41 | "not later than" by reference date is total and transitive |
| CotacaoSelect.BuscarPorPeriodo | src/main/java/com/api/cotacao/select/CotacaoSelect.java:34-51 | the range answer is sorted ascending by date and is a permutation of the projections of the rows in the period; an empty match is the empty list |
| CotacaoSelect.BuscarPorPeriodoExato | src/main/java/com/api/cotacao/select/CotacaoSelect.java:37-42 | a row is in the answer exactly when it is the projection of a stored row dated from start to end, both inclusive; answer rows carry only date and price; there is one answer row per matching row |
| CotacaoService.Preparar | src/main/java/com/api/cotacao/service/CotacaoService.java:51-62 | a looked-up entity without id becomes the full new CEPEA "Café Robusta" row with no variation; one with an id keeps id, date, source, type and variation and gets the new price and today's date |
| CotacaoService.Salvar | src/main/java/com/api/cotacao/service/CotacaoService.java:108-115 | `salvar` succeeds for an entity without id exactly when it meets the column constraints, and then appends it under the next id; for an entity with id it succeeds exactly when that id is stored and the constraints hold, and then replaces that row; it never touches the audit table and keeps validity |
| CotacaoService.SalvarNovo | src/main/java/com/api/cotacao/service/CotacaoService.java:109-110 | saving a storable entity without id always succeeds and appends it under the next id |
| CotacaoService.ProcessarItem | src/main/java/com/api/cotacao/service/CotacaoService.java:42-64 | one loop pass: a `null` element throws `NullPointerException`; an item without month or price is skipped; a processed item has a parseable month, and its save leaves the audit table alone |
| CotacaoService.ItemNovo | src/main/java/com/api/cotacao/service/CotacaoService.java:51-57 | a month with no CEPEA row appends one new row under the next id: the parsed date, "Café Robusta", the input price, no variation, "CEPEA", today's date; nothing else changes |
| CotacaoService.ItemExistente | src/main/java/com/api/cotacao/service/CotacaoService.java:59-62 | a month whose single CEPEA row is at position i updates only that row's price and date stamp, in place, adding no row |
| CotacaoService.ItemClassificado | src/main/java/com/api/cotacao/service/CotacaoService.java:49-64 | under the invariant, a present and parseable item inserts when its month is uncovered and updates the one row of its month otherwise |
| CotacaoService.ItemPreserva | src/main/java/com/api/cotacao/service/CotacaoService.java:49-64 | a loop pass keeps validity and at most one CEPEA row per date, keeps every existing row's key in place, leaves its month covered, and adds no row when the month was covered |
| CotacaoService.ItemFalhaPorEntrada | src/main/java/com/api/cotacao/service/CotacaoService.java:42-64 | on a valid store with the invariant, a pass fails only on a `null` element or an unparseable month; the lookup and the save cannot fail |
| CotacaoService.Processar | src/main/java/com/api/cotacao/service/CotacaoService.java:40-67 | a completed loop counts exactly the items that have both month and price, inserts and updates alike; the loop never writes the audit table |
| CotacaoService.ProcessarAceita | src/main/java/com/api/cotacao/service/CotacaoService.java:42-67 | a completed loop saw no `null` element and no unparseable month |
| CotacaoService.ProcessarIgnora | src/main/java/com/api/cotacao/service/CotacaoService.java:43-45 | a skipped item changes neither the store nor the counter |
| CotacaoService.ProcessarConcatena | src/main/java/com/api/cotacao/service/CotacaoService.java:42-67 | the loop over a + b is the loop over a followed, if it completed, by the loop over b from a's store and count |
| CotacaoService.ProcessarFalha | src/main/java/com/api/cotacao/service/CotacaoService.java:42-67 | a failed loop stopped at some item k: the items before k completed, item k threw, and the store is the one those earlier items left |
| CotacaoService.ProcessarPreserva | src/main/java/com/api/cotacao/service/CotacaoService.java:42-67 | the loop, completed or not, keeps validity and at most one CEPEA row per date, even when the input repeats a month, and keeps every existing row's key in place |
| CotacaoService.ProcessarCobre | src/main/java/com/api/cotacao/service/CotacaoService.java:42-67 | after a completed loop every present item's month has a CEPEA row |
| CotacaoService.ProcessarCompleta | src/main/java/com/api/cotacao/service/CotacaoService.java:42-67 | on a valid store with at most one CEPEA row per date, a loop over items that are never `null` and whose present months parse always completes: the lookup and the save cannot throw there |
| CotacaoService.ProcessarSoAtualiza | src/main/java/com/api/cotacao/service/CotacaoService.java:49-66 | when every input month already has its row, the loop completes and adds no price row |
| CotacaoService.Historico | src/main/java/com/api/cotacao/service/CotacaoService.java:72-78 | the audit record carries the file name, "CEPEA", the timestamp, the count and the elapsed time; it can be stored exactly when the file name fits 255 characters |
| CotacaoService.ImportarDeJson | src/main/java/com/api/cotacao/service/CotacaoService.java:32-83 | a bad path or unreadable file fails before any write; the import succeeds exactly when the path and file are read, the loop completes and the file name fits its 255-character column; a failure after the loop started leaves exactly the loop's writes; a completed import appends exactly one audit row with the path's last component, "CEPEA", the timestamp, the number of present items and the elapsed time, after the loop's price writes; a failed import writes no audit row |
| CotacaoService.ImportarSucesso | src/main/java/com/api/cotacao/service/CotacaoService.java:32-83 | importing a decoded file into a valid store succeeds exactly when no item is `null`, every present month parses and the file name fits its 255-character column |
| CotacaoService.ImportarPreserva | src/main/java/com/api/cotacao/service/CotacaoService.java:32-83 | an import, successful or not, keeps validity and at most one CEPEA row per date |
| CotacaoService.ImportarFalha | src/main/java/com/api/cotacao/service/CotacaoService.java:47-80 | when an item throws, the import fails, writes no audit row, and keeps the price writes of the items before it |
| CotacaoService.ReimportarIdempotente | src/main/java/com/api/cotacao/service/CotacaoService.java:49-80 | importing the same file again succeeds, adds no price row and adds exactly one audit row |
| CotacaoService.ParaPeriodo | src/main/java/com/api/cotacao/service/CotacaoService.java:88-99 | the mapping fails with `NullPointerException` exactly when a row lacks its price; otherwise it has the same length and order, copies each date and rounds each price HALF_UP to two places |
| CotacaoService.BuscarPeriodo | src/main/java/com/api/cotacao/service/CotacaoService.java:85-100 | the service answer has one entry per row of the range query |
| CotacaoService.BuscarPeriodoValido | src/main/java/com/api/cotacao/service/CotacaoService.java:85-100 | on a valid store the range answer never fails; every entry has a calendar date in the inclusive period and a price with exactly two decimals, in ascending date order |
| CotacaoService.BuscarPeriodoCompleto | src/main/java/com/api/cotacao/service/CotacaoService.java:85-100 | every stored row dated in the period is answered, with its date and its price rounded HALF_UP to two places |
| CotacaoController.ImportarJson | src/main/java/com/api/cotacao/controller/CotacaoController.java:32-45 | the import answers 201 with the success message and the path exactly when it completes, and 500 with the fixed error message otherwise; the writes made before a failure stay |
| CotacaoController.ListarPorPeriodo | src/main/java/com/api/cotacao/controller/CotacaoController.java:52-76 | 200 with the service answer exactly when both months parse and the query for first day of `inicio` through last day of `fim` succeeds; otherwise 500 without body; never 400 |
| CotacaoController.ListarPorPeriodoMeses | src/main/java/com/api/cotacao/controller/CotacaoController.java:58-70 | on a valid store two `yyyy/MM` months answer 200; every answered date lies in a month from `inicio` through `fim`, and the dates ascend |
| CotacaoController.ListarPorPeriodoMesesCompleto | src/main/java/com/api/cotacao/controller/CotacaoController.java:58-70 | the answer is complete: every stored row dated in a month from `inicio` through `fim`, from the first day of the one to the last day of the other, is answered with its price rounded to two places |
| CotacaoController.ListarPorPeriodoRejeitaIso | src/main/java/com/api/cotacao/controller/CotacaoController.java:58-75 | a `yyyy-MM` start month answers 500 |
| FileUtils.FileName | src/main/java/com/api/cotacao/utils/FileUtils.java:61-67 | `getFileName().toString()`: a NUL is an invalid path; a path of only separators has no file name and throws; the empty path names itself; otherwise the result is the non-empty last component, with no separator |
| FileUtils.FileNameOfChild | src/main/java/com/api/cotacao/service/CotacaoService.java:35-36 | the file name of `dir/name` is `name` |
| FileUtils.Extension | src/main/java/com/api/cotacao/utils/FileUtils.java:69-73 | an extension never contains a dot and is shorter than the name |
| FileUtils.Basename | src/main/java/com/api/cotacao/utils/FileUtils.java:75-79 | the base name is a prefix of the name, empty only for the empty name |
| FileUtils.BasenameExtensionSplit | src/main/java/com/api/cotacao/utils/FileUtils.java:69-79 | when the last dot is past index 0, base name, dot and extension rebuild the name |
| FileUtils.NoInnerDot | src/main/java/com/api/cotacao/utils/FileUtils.java:69-79 | a name with no dot after index 0 has an empty extension and is its own base name |
| FileUtils.HiddenFileExample | src/main/java/com/api/cotacao/utils/FileUtils.java:69-79 | ".bashrc" has no extension and is its own base name; "dados.2024.json" splits at its last dot |
| FileUtils.NormalizeExtension | src/main/java/com/api/cotacao/utils/FileUtils.java:211 | exactly one leading dot is dropped from the requested extension |
| FileUtils.LeadingDotIgnored | src/main/java/com/api/cotacao/utils/FileUtils.java:210-212 | asking for ".ext" and for "ext" select the same files |
| FileUtils.DoubleDotMatchesNothing | src/main/java/com/api/cotacao/utils/FileUtils.java:210-212 | a request starting with two dots selects no file |
| FileUtils.CaseInsensitiveExample | src/main/java/com/api/cotacao/utils/FileUtils.java:210-212 | "cotacoes.JSON" is selected by ".json" |
| FileUtils.LastExtensionExample | src/main/java/com/api/cotacao/utils/FileUtils.java:210-212 | "cotacoes.json.bak" is not selected by "json" |
| FileUtils.RotationNameInjective | src/main/java/com/api/cotacao/utils/FileUtils.java:358-359 | distinct rotation slots, negative ones included, get distinct names |
| FileUtils.Wrap32 | src/main/java/com/api/cotacao/utils/FileUtils.java:357-359 | `int` arithmetic: the result is in `int` range, congruent to its argument modulo 2^32, and equal to it when that is in range |
| FileUtils.RotationMoves | src/main/java/com/api/cotacao/utils/FileUtils.java:357-363 | the rotation loop copies slot i onto slot i + 1, both 32-bit, from slot `keep - 1` down to 1; the target is i + 1 itself below `Integer.MAX_VALUE`; each slot is read before it is written |
| FileUtils.RotationMovesWrap | src/main/java/com/api/cotacao/utils/FileUtils.java:357-359 | `keep` of `Integer.MIN_VALUE` wraps round to 2147483647 moves, the first onto slot -2147483648; `keep` of 0 and 1 make none; 3 makes two |
| FileUtils.RotationCopies | src/main/java/com/api/cotacao/utils/FileUtils.java:357-363 | one named copy per slot move |
| FileUtils.RotationNameNegative | src/main/java/com/api/cotacao/utils/FileUtils.java:358-359 | a negative slot is named `base_-` followed by its magnitude, as `Integer.toString` renders it |
| FileUtils.RotationCopiesWrap | src/main/java/com/api/cotacao/utils/FileUtils.java:358-359 | with `keep` of `Integer.MIN_VALUE` the first copy goes to `base_-2147483648`, the slot rendered by `Integer.toString` |
| FileUtils.RotationReadsBeforeWrites | src/main/java/com/api/cotacao/utils/FileUtils.java:357-363 | no rotation file is overwritten before it has been copied on |
| FileUtils.FirstRotationName | src/main/java/com/api/cotacao/utils/FileUtils.java:364 | the live file is copied to `base_1`, with the extension only when there is one |
| FileUtils.BackupNameOfExtensionless | src/main/java/com/api/cotacao/utils/FileUtils.java:316 | the backup name of a file without extension ends in a bare dot |
| FileUtils.BackupNameKeepsExtension | src/main/java/com/api/cotacao/utils/FileUtils.java:316 | with a dot-free timestamp the backup keeps the original's extension, and its base name is the original's plus `_` and the timestamp |

## Left out

- `QueryBuilder` and the `EntityManager` are not part of this model. The two query use-sites are modelled by what they ask for: equality filters with `one()`, and an inclusive range filter with ascending order and a two-field projection. Query rendering is not modelled.
- `DAOController.select()` and `select(campos)` are left out for the same reason. Since every model function is pure, no query state can be shared anyway.
- JSON decoding through Jackson is a parameter. `dados` is either the decoded list, with `None` for a `null` element, or a read failure.
- Prices are exact decimals. The `Double` fields and the binary expansion `new BigDecimal(double)` produces in `getValor` are not modelled.
- `System.currentTimeMillis`, `LocalDate.now` and `LocalDateTime.now` are inputs in a `Clock`. The current date is read once per run, not once per item.
- Transactions and concurrency are not modelled. The model is sequential, each write applying completely or not at all, so the check-then-act race between two concurrent imports is out of scope.
- The unique-id assumption is the database's: `Valid` states it rather than an identity column deriving it.
- A `merge` of an id that is not stored is modelled as a failure (`UnknownEntity`). The Hibernate version, which decides this, is not part of this model.
- CotacaoService.Processar: the Java counter is an `int`. Wrap-around after 2147483647 items is not modelled.
- Utils.ToBigDecimal: reads only the ASCII digits 0-9. `new BigDecimal(String)` also accepts other Unicode decimal digits through `Character.digit`, for example Arabic-Indic ones; those depend on the JDK's Unicode tables and are refused here.
- FileUtils.MatchesExtension: `equalsIgnoreCase` is modelled for ASCII letters only. Unicode case folding is out of scope.
- Column lengths are counted in characters. The database's unit (characters or bytes) is not modelled.
- CotacaoSelect.BuscarPorPeriodo: rows with equal dates come back in insertion order. The database leaves that order open, so the contract states only sortedness and the permutation.
- The projection sets every field other than date and price to `None`, and nothing reads them.
- `formatIsoDate`, `formatLocalDate`, `ping` and logging are left out. They are formatting, a constant answer or side output.
- `normalize`, `slugify`, `uuid`, `safeInt`, `safeDouble` and the other unused string helpers are left out. They depend on Unicode tables, regular expressions or randomness.
- Every filesystem effect of `FileUtils` is left out: copies, moves, listing, deletion, zip, hashing and temporary files. Only the names `rotateFile` and `backupFile` compute, and the filter `findFilesByExtension` applies, are modelled.
- Path handling follows the Unix `java.nio.file` provider. Windows paths are not modelled.
- The backup timestamp is a parameter.
- HTTP response construction beyond status and body, `RequestLoggingInterceptor` and `DeveloperConfig` are left out as wiring.
