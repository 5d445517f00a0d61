# Area and Country resource services — a Dafny model

This project models the decision logic of a two-resource CRUD web backend
(Spring Boot): the **Area** and **Country** resource services, the merge rule
their updates apply (`stringColumnCheck`), the `Area` entity's getters and
setters, the `Response` envelope, and the two REST controllers that turn a
service outcome into an envelope.

The JPA repositories are replaced by an in-memory table, a Dafny `map` from
primary key to row (`map<int, Area>` for areas, `map<string, Country>` for
countries). `findById`, `findByid` and `findByCode` are key membership.
`save` is a map update under the entity's own key, `deleteById` removes a
key, and `findAll` lists the rows in an order the store chooses.

Structure, one module per source component:

- `wrappers.dfy` (`Wrappers`): `Option`, with `None` standing for Java `null`.
- `exceptions.dfy` (`Exceptions`): the two exception classes the services throw (`RuntimeException`, `IllegalStateException`). `Result` means "returned or threw". `Step` is a result together with the table after the call.
- `format.dfy` (`Format`): `String.format("%d", n)`, with a parser that proves every rendered id can be read back.
- `table.dfy` (`Table`): `findAll` over a map.
- `column.dfy` (`Column`): `stringColumnCheck` and the merge rule it implements.
- `area.dfy` (`AreaEntity`): the `Area` record and its getters and setters, indexed by column.
- `area_service.dfy` (`AreaService`), `country.dfy` (`CountryEntity`), `country_service.dfy` (`CountryService`): the two services.
- `response.dfy` (`Envelope`): the response envelope and its constructors.
- `handling.dfy` (`Handling`): a handler's reply (an envelope, or an exception escaping its `catch`) and the two `catch` clauses.
- `area_controller.dfy` (`AreaController`), `country_controller.dfy` (`CountryController`): the REST endpoints.

The `WellKeyed` predicate of each service says every row is stored under its
own key, as the primary-key mapping keeps it. All mutating operations
preserve it. It is the hypothesis under which "the key never changes on
update" holds.

The two `stringColumnCheck` methods are identical copies (AreaQueryServiseImplements.java lines 33-35
and CountryQueryServiceImplements.java lines 19-21). They are modelled once, as `Column.StringColumnCheck`.

Three facts about the code shape the contracts:

- `updateCountry` looks the row up by the incoming code (CountryQueryServiceImplements.java:83). So in a well-keyed table the code merge at line 94 compares equal strings, and the code never changes (`CountryService.UpdateCountry`).
- An absent key on delete or update throws `IllegalStateException`, the same class as a duplicate insert. Only the GET lookups throw a plain `RuntimeException`.
- `addNewCountry` returns the entity itself, not its code.

## Model

| member | source | states |
|---|---|---|
| `Column.MergeColumn` | src/main/java/org/example/service/areaqueryservice/AreaQueryServiseImplements.java:33-35 | the value a column ends up with under `stringColumnCheck` is the incoming string when it is non-empty, else the stored one. The check holds exactly when that value differs from the stored one. Merging again with the same input changes nothing. |
| `Format.Digits` | src/main/java/org/example/service/areaqueryservice/AreaQueryServiseImplements.java:51-53 | the decimal digits of a natural number are non-empty, all digits, and have no leading zero |
| `Format.DecimalRoundTrip` | src/main/java/org/example/service/areaqueryservice/AreaQueryServiseImplements.java:51-53 | parsing the `%d` rendering of any integer gives back that integer |
| `Format.DecimalInjective` | src/main/java/org/example/service/areaqueryservice/AreaQueryServiseImplements.java:51-53 | distinct integers have distinct `%d` renderings |
| `Table.FindAll` | src/main/java/org/example/service/areaqueryservice/AreaQueryServiseImplements.java:192-194 | `findAll` returns one row per key, each row being the one stored under its key, and every key exactly once |
| `AreaEntity.Get` | src/main/java/org/example/databaseaccess/area/Area.java:64-98 | each getter returns a value of its column's Java type (`int` for the id and the three codes, `String` for the other five) |
| `AreaEntity.Set` | src/main/java/org/example/databaseaccess/area/Area.java:100-134 | after a setter, its getter returns the value passed and every other column keeps its value |
| `AreaEntity.Extensionality` | src/main/java/org/example/databaseaccess/area/Area.java:13-40 | an Area is exactly its nine columns: two rows whose getters agree everywhere are equal |
| `AreaEntity.SetOwnValue` | src/main/java/org/example/databaseaccess/area/Area.java:64-102 | setting a column to its getter's value leaves the row unchanged (`setId(getId())` included) |
| `AreaEntity.SetLastWins` | src/main/java/org/example/databaseaccess/area/Area.java:100-134 | the last of two calls to the same setter determines the column |
| `AreaEntity.SettersCommute` | src/main/java/org/example/databaseaccess/area/Area.java:100-134 | setters of different columns commute |
| `AreaService.GetAreaById` | src/main/java/org/example/service/areaqueryservice/AreaQueryServiseImplements.java:43-56 | returns the stored row exactly when the id is present. Otherwise it throws a `RuntimeException` whose message embeds the id. |
| `AreaService.NotFoundMessageNamesId` | src/main/java/org/example/service/areaqueryservice/AreaQueryServiseImplements.java:49-55 | the not-found message determines the id it was raised for |
| `AreaService.AddNewItem` | src/main/java/org/example/service/areaqueryservice/AreaQueryServiseImplements.java:65-87 | fails with an `IllegalStateException` and leaves the table unchanged exactly when the id is already stored. Otherwise it adds the row under its id, returns `area.getId()`, keeps every other row, and grows the table by one. |
| `AreaService.ExistsMessageNamesId` | src/main/java/org/example/service/areaqueryservice/AreaQueryServiseImplements.java:77-79 | the duplicate-id message determines the id |
| `AreaService.DeleteAreaById` | src/main/java/org/example/service/areaqueryservice/AreaQueryServiseImplements.java:95-110 | fails, table unchanged, exactly when the id is absent. Otherwise it removes exactly that key, returns the id, leaves every other row untouched, and shrinks the table by one. |
| `AreaService.MissingMessageNamesId` | src/main/java/org/example/service/areaqueryservice/AreaQueryServiseImplements.java:100-104 | the absent-id message determines the id |
| `AreaService.ApplySetters` | src/main/java/org/example/service/areaqueryservice/AreaQueryServiseImplements.java:163-182 | the setter calls of the update compute the merge law. The id and the three integer codes are taken from the incoming row; each string column takes the incoming value if non-empty, else keeps the stored one. |
| `AreaService.SettersThroughAccessors` | src/main/java/org/example/service/areaqueryservice/AreaQueryServiseImplements.java:163-182 | the update's setter calls, written through Area's getters and setters (`AreaEntity.Get`/`Set`) with each string setter guarded by `stringColumnCheck` on the getter values, produce exactly `ApplySetters`, hence the merge law |
| `AreaService.UpdateAreaById` | src/main/java/org/example/service/areaqueryservice/AreaQueryServiseImplements.java:155-185 | fails, table unchanged, exactly when the incoming id is absent. Otherwise it returns the merged row with the incoming id and saves it under that id. The key set stays the same, every other row is untouched, and rows stay stored under their own id. |
| `AreaService.GetAllAreas` | src/main/java/org/example/service/areaqueryservice/AreaQueryServiseImplements.java:192-194 | lists exactly the stored rows, as many as there are ids; in a well-keyed table each listed row is the one stored under its id, and no row is listed twice |
| `AreaService.MergeAreaIdempotent` | src/main/java/org/example/service/areaqueryservice/AreaQueryServiseImplements.java:163-182 | merging the same incoming row twice equals merging it once |
| `AreaService.UpdateIdempotent` | src/main/java/org/example/service/areaqueryservice/AreaQueryServiseImplements.java:155-185 | applying the same update twice gives the same result and table as applying it once |
| `AreaService.AddThenGet` | src/main/java/org/example/service/areaqueryservice/AreaQueryServiseImplements.java:71-86 | a row just inserted is read back equal in every field |
| `AreaService.AddTwiceRefused` | src/main/java/org/example/service/areaqueryservice/AreaQueryServiseImplements.java:71-80 | inserting the same id twice: the second insert throws |
| `AreaService.DeleteThenGet` | src/main/java/org/example/service/areaqueryservice/AreaQueryServiseImplements.java:100-109 | after a delete, the id is not found |
| `AreaService.AddThenDelete` | src/main/java/org/example/service/areaqueryservice/AreaQueryServiseImplements.java:95-110 | deleting a freshly inserted row restores the table exactly |
| `AreaService.PartialUpdateScenario` | src/main/java/org/example/service/areaqueryservice/AreaQueryServiseImplements.java:168-173 | updating row 1 with an empty province name and city "B" keeps province "A" and applies city "B" |
| `CountryService.GetCountryByCode` | src/main/java/org/example/service/countryqueryservice/CountryQueryServiceImplements.java:29-38 | returns the stored row exactly when the code is present. Otherwise it throws a `RuntimeException` whose message embeds the code. |
| `CountryService.NotFoundMessageNamesCode` | src/main/java/org/example/service/countryqueryservice/CountryQueryServiceImplements.java:31-37 | the not-found message determines the code |
| `CountryService.AddNewCountry` | src/main/java/org/example/service/countryqueryservice/CountryQueryServiceImplements.java:42-60 | fails, table unchanged, exactly when the code is already stored. Otherwise it stores the entity under its code and returns the entity itself. Every other row is kept and the table grows by one. |
| `CountryService.DeleteCountryByCode` | src/main/java/org/example/service/countryqueryservice/CountryQueryServiceImplements.java:63-76 | fails, table unchanged, exactly when the code is absent. Otherwise it removes that key and returns the row read before the delete; every other row is untouched. |
| `CountryService.ApplySetters` | src/main/java/org/example/service/countryqueryservice/CountryQueryServiceImplements.java:94-128 | the setter calls compute the merge law. The seven string columns and the code take the incoming value if non-empty, else keep the stored one. The seven numeric columns always take the incoming value, null included. |
| `CountryService.UpdateCountry` | src/main/java/org/example/service/countryqueryservice/CountryQueryServiceImplements.java:80-133 | fails, table unchanged, exactly when the incoming code is absent. Otherwise the merged row is returned and saved under its code. In a well-keyed table the code never changes, the key set stays the same, and every other row is untouched. |
| `CountryService.GetAllCountries` | src/main/java/org/example/service/countryqueryservice/CountryQueryServiceImplements.java:136-138 | lists exactly the stored rows, as many as there are codes; in a well-keyed table each listed row is the one stored under its code, and no row is listed twice |
| `CountryService.MergeCountryIdempotent` | src/main/java/org/example/service/countryqueryservice/CountryQueryServiceImplements.java:94-128 | merging the same incoming row twice equals merging it once |
| `CountryService.UpdateIdempotent` | src/main/java/org/example/service/countryqueryservice/CountryQueryServiceImplements.java:80-133 | in a well-keyed table, applying the same update twice equals applying it once |
| `CountryService.NumericOverwriteUnguarded` | src/main/java/org/example/service/countryqueryservice/CountryQueryServiceImplements.java:107-112 | a zero or null incoming numeric value replaces the stored one |
| `CountryService.AddThenGet` | src/main/java/org/example/service/countryqueryservice/CountryQueryServiceImplements.java:44-59 | a country just inserted is read back unchanged |
| `CountryService.AddTwiceRefused` | src/main/java/org/example/service/countryqueryservice/CountryQueryServiceImplements.java:44-55 | inserting the same code twice: the second insert throws |
| `CountryService.AddThenDelete` | src/main/java/org/example/service/countryqueryservice/CountryQueryServiceImplements.java:63-76 | deleting a freshly inserted country returns it and restores the table |
| `Envelope.NewSuccess` | src/main/java/response/Response.java:14-23 | a well-formed success envelope with status OK, the given data and no info message |
| `Envelope.NewSuccessWithInfo` | src/main/java/response/Response.java:25-35 | the same, with the given info message |
| `Envelope.NewFailed` | src/main/java/response/Response.java:37-46 | a well-formed failure envelope with the given message and status, and no data |
| `Envelope.WellFormedIsConstructed` | src/main/java/response/Response.java:14-46 | every well-formed envelope is the output of one of the three constructors. So every success has status OK, and no failure carries data. |
| `Handling.CatchRuntimeException` | src/main/java/org/example/controller/areacontroller/AreaController.java:53-56 | catching `RuntimeException` handles every service exception as a BAD_REQUEST failure carrying its message |
| `Handling.CatchIllegalState` | src/main/java/org/example/controller/areacontroller/AreaController.java:92-97 | catching `IllegalStateException` handles exactly that class as a BAD_REQUEST failure; any other exception escapes unchanged |
| `AreaController.GetAreaById` | src/main/java/org/example/controller/areacontroller/AreaController.java:41-57 | GET succeeds exactly when the id is stored. The envelope carries that row and an info message with the id; otherwise it is a BAD_REQUEST failure with the service's message. Nothing escapes. |
| `AreaController.AddNewItem` | src/main/java/org/example/controller/areacontroller/AreaController.java:81-98 | POST succeeds exactly when the id is new, with data the inserted id. A duplicate gives a BAD_REQUEST failure and leaves the table unchanged. |
| `AreaController.DeleteAreaById` | src/main/java/org/example/controller/areacontroller/AreaController.java:112-130 | DELETE succeeds exactly when the id is stored, with data the deleted id; otherwise a BAD_REQUEST failure with the table unchanged |
| `AreaController.UpdateArea` | src/main/java/org/example/controller/areacontroller/AreaController.java:187-205 | PUT succeeds exactly when the id is stored. Its data is the incoming id and the table holds the merged row. Otherwise it is a BAD_REQUEST failure. |
| `AreaController.GetAllowMethod` | src/main/java/org/example/controller/areacontroller/AreaController.java:207-217 | OPTIONS replies status OK (200) with the fixed `Allow` header, and its body is "Allow " followed by the header value |
| `AreaController.PostTwiceRejected` | src/main/java/org/example/controller/areacontroller/AreaController.java:81-98 | a second POST of the same id is a BAD_REQUEST failure |
| `AreaController.FailuresAreBadRequest` | src/main/java/org/example/controller/areacontroller/AreaController.java:41-205 | every failure of the four Area endpoints has status BAD_REQUEST |
| `CountryController.GetCountryByCode` | src/main/java/org/example/controller/countrycontroller/CountryController.java:20-39 | GET succeeds exactly when the code is stored, with that row; otherwise a BAD_REQUEST failure with the service's message |
| `CountryController.AddNewCountry` | src/main/java/org/example/controller/countrycontroller/CountryController.java:41-62 | POST succeeds exactly when the code is new, with data the inserted country; a duplicate gives a BAD_REQUEST failure, table unchanged |
| `CountryController.UpdateCountry` | src/main/java/org/example/controller/countrycontroller/CountryController.java:64-85 | PUT succeeds exactly when the code is stored, with data the merged country; otherwise a BAD_REQUEST failure, table unchanged |
| `CountryController.DeleteCountryByCode` | src/main/java/org/example/controller/countrycontroller/CountryController.java:87-108 | DELETE succeeds exactly when the code is stored, with data the pre-deletion row; otherwise a BAD_REQUEST failure, table unchanged |
| `CountryController.PostTwiceRejected` | src/main/java/org/example/controller/countrycontroller/CountryController.java:41-62 | POSTing the same code twice: the second reply has `ifSuccess = false` and status 400 |

## Left out

- Persistence, transactions and wiring: the JPA repositories, the datasource, entity-manager and transaction-manager configuration, dependency injection and `@Transactional` are framework-provided. The model replaces them with a map per table. No service writes before its check, so a rollback never has anything to undo.
- Identity generation: `@GeneratedValue` for `Area.id` is not modelled. `save` stores the row under the id it carries.
- Concurrency: two concurrent inserts of the same key can both pass the existence check. That race is settled by the database's key constraint and is not modelled.
- Java `null` strings are modelled as the empty string. `StringUtils.hasLength` treats the two alike, so the merge rule is unaffected. A null *stored* string, where `oldStr.equals` would throw a `NullPointerException`, is not modelled; stored strings are assumed non-null. The mapping is sound for the merged columns only; for the country code, where null and "" behave differently, see the `CountryService.UpdateCountry` line below.
- `Country`: its entity file is not part of this model. Its columns are inferred from the getters and setters the service calls. Numeric columns are only copied, never computed, so they are carried as `Option<int>` or `Option<real>` and their Java types are not modelled.
- The Country controller's envelope class is not part of this model. It is assumed to have the same shape as `response.Response`.
- Integer width: ids are unbounded integers. No operation does arithmetic on them, so 32-bit wrap-around never arises.
- `Area.toString`, HTTP routing, JSON binding, the view controllers (constant view names handed to the template engine) and the browser script are not modelled.
- `CountryService.UpdateCountry` / `CountryService.AddNewCountry`: a null country code is not modelled; the key is a plain string. A body without a code makes `updateCountry` call `findById(null)`, which the repository rejects with an `IllegalArgumentException` that escapes the controller's `catch`; `addNewCountry` would reach the persistence layer with a null id and fail there. Both outcomes belong to the framework, so the model, and the `CountryController` contracts built on it, cover non-null codes only (an empty code is an ordinary key).
- `Envelope.HttpStatus`: only the two statuses the controllers use, 200 OK and 400 BAD_REQUEST, are modelled, although `newFailed` accepts any Spring `HttpStatus`.
- `GetAllAreas` / `GetAllCountries`: the order of `findAll` is the store's. The model promises the set of rows and their number, not an order.
