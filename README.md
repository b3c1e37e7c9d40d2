# Sklad warehouse ledger

Sklad is a small warehouse application. It keeps a catalogue of resources,
units of measurement and clients, and two kinds of documents:

- **Receipt documents** bring goods in.
- **Shipment documents** take goods out once they are signed.

Each document holds lines of (resource, unit, count). The warehouse itself is a
table of balances: one row per (resource, unit) pair, holding the count on hand.

This project models the application services that keep those tables in
step. It covers:

- receipt create, update and delete;
- shipment create, update, delete, sign and withdraw;
- the document number sequence and the document list filters;
- the balance query;
- the catalogue create, archive and delete paths, with their guards.

It then proves what the services promise:

- balances never go negative;
- a refused operation changes nothing;
- every pair's balance moves by exactly what the document lines say;
- signing and withdrawing undo each other;
- numbers and names stay unique;
- nothing removes a catalogue entry that a document still refers to.

Layout, one module per file:

- `domain.dfy` holds the records: balance rows, document lines, documents, catalogue entities, status codes and message keys.
- `wrappers.dfy` holds `Option`.
- `lines.dfy` covers document lines: lookup by pair, the per-pair sum, and which lines an update keeps and adds.
- `ledger.dfy` holds the balance table as a map from pair to count, and the three walks the services make over it:
  - credit a document's lines;
  - debit them with a guard;
  - put them back.
- `documents.dfy` covers number allocation (`max + 1`, or 1) and the list filter.
- `database.dfy` holds the whole store, its invariant, and the "in use" relations.
- There is one module per service. Each states one operation as a function from the old store to a reply and the new store, with lemmas beside it:
  - `receipt_service.dfy`
  - `shipment_service.dfy`
  - `storage_service.dfy`
  - `resource_service.dfy`
  - `unit_service.dfy`
  - `client_service.dfy`
  - `catalog_service.dfy`, the older catalogue service, which holds the only implementation of the generic create and archive.
- `warehouse.dfy` holds the `Warehouse` class. Its fields are the tables. Its methods do what the services do, changing the balance rows line by line in loops. Each method is proved to produce exactly the reply and store that the service function describes, and to keep the invariant.

A reply is a status code and a message key. `Delegated` stands for handing
off to the generic catalogue delete or update, whose bodies are not part of this model.

## Model

| member | source | states |
|---|---|---|
| Lines.Find | Sklad/Sklad.Application/Services/ReceiptService.cs:154 | The lookup of a request line by pair finds nothing exactly when no line has the pair. Otherwise it finds the first line with that pair. |
| Lines.FindDistinct | Sklad/Sklad.Application/Services/ShipmentService.cs:135 | When the request's pairs are distinct, looking up a line's pair finds that line. |
| Lines.SumDistinct | Sklad/Sklad.Application/Services/ShipmentService.cs:243-256 | With distinct pairs, the total a document holds for a line's pair is that line's count. |
| Lines.SumAppend | Sklad/Sklad.Application/Services/ReceiptService.cs:205-224 | Per-pair totals add up over concatenated line lists. |
| Lines.KeptMembers | Sklad/Sklad.Application/Services/ReceiptService.cs:152-203 | The lines an update keeps are exactly the request lines whose pair the document already had. |
| Lines.NewMembers | Sklad/Sklad.Application/Services/ReceiptService.cs:205 | The lines an update adds are exactly the request lines whose pair the document did not have. |
| Lines.KeptDistinct | Sklad/Sklad.Application/Services/ReceiptService.cs:152-203 | Kept lines have distinct pairs, all taken from the old document. |
| Lines.NewDistinct | Sklad/Sklad.Application/Services/ReceiptService.cs:205-224 | Added lines have distinct pairs. |
| Lines.ReconciledLines | Sklad/Sklad.Application/Services/ShipmentService.cs:133-154 | After an update the document's lines are exactly the request's lines, with no pair twice. |
| Ledger.Credit | Sklad/Sklad.Application/Services/ReceiptService.cs:91-108 | Crediting non-negative counts keeps every balance non-negative. |
| Ledger.CreditAt | Sklad/Sklad.Application/Services/ReceiptService.cs:91-108 | Each pair's balance grows by its lines' total count. The rows afterwards are the old rows plus one for every pair named, created at 0. |
| Ledger.TryDebit | Sklad/Sklad.Application/Services/ShipmentService.cs:243-256 | A successful guarded debit keeps balances non-negative and never adds or removes a row. |
| Ledger.TryDebitAt | Sklad/Sklad.Application/Services/ShipmentService.cs:243-256 | After a successful debit each row holds its old count minus its lines' total. |
| Ledger.TryDebitFailsFrom | Sklad/Sklad.Application/Services/ShipmentService.cs:247-254 | Once the debit fails on a prefix of the lines, it fails on the whole list: the first failure returns. |
| Ledger.TryDebitSucceeds | Sklad/Sklad.Application/Services/ShipmentService.cs:247 | With distinct pairs, the debit succeeds if and only if every line's pair has a row holding at least the line's count. |
| Ledger.Restore | Sklad/Sklad.Application/Services/ShipmentService.cs:303-311 | Putting counts back never creates a row, because pairs without a row are skipped. It keeps balances non-negative. |
| Ledger.RestoreAt | Sklad/Sklad.Application/Services/ShipmentService.cs:303-311 | Every existing row grows by its lines' total. |
| Ledger.DebitThenRestore | Sklad/Sklad.Application/Services/ShipmentService.cs:303-311 | Putting back what a successful debit took gives back the original table exactly. |
| Ledger.CreditThenDebit | Sklad/Sklad.Application/Services/ReceiptService.cs:261-278 | A debit of the lines just credited always succeeds. It returns every pair to its old count, and the newly created rows remain. |
| Documents.NextNumber | Sklad/Sklad.Application/Services/ReceiptService.cs:310-311 | The next number exceeds every existing number. It is 1 when there are none, and otherwise it is the maximum plus one. |
| Documents.QueryDocuments | Sklad/Sklad.Application/Services/ReceiptService.cs:41-63 | A document is listed if and only if it passes every filter given. Listed documents are unchanged. Without filters, every document is listed. |
| Database.Empty | Sklad/Sklad.Persistence/SkladDbContext.cs:28-46 | The empty database satisfies the store invariant, including unique names, unique numbers and catalogue tables that hold only entities of their own kind. |
| Database.WithTable | Sklad/Sklad.Application/Services/CatalogService.cs:335-340 | Writing one catalogue table back changes that table only. |
| ReceiptService.GetReceiptDocuments | Sklad/Sklad.Application/Services/ReceiptService.cs:41-63 | The filter keeps a receipt if and only if it passes every filter given: its number is in the list, some line has a listed resource and some line a listed unit, and its date is within the bounds. |
| ReceiptService.CreateSpec | Sklad/Sklad.Application/Services/ReceiptService.cs:72-108 | Create answers Created/Created and stores the receipt under a fresh id with the next number. Other receipts are unchanged. Each pair's balance grows by the request's count for it, a missing row is created, and untouched pairs keep their rows. The id counter moves to the new id, and shipments and the catalogue tables are unchanged. |
| ReceiptService.CreatePreserves | Sklad/Sklad.Application/Services/ReceiptService.cs:72-108 | Create keeps the store invariant: non-negative balances, unique numbers and fresh ids. |
| ReceiptService.ReconcileOld | Sklad/Sklad.Application/Services/ReceiptService.cs:152-203 | The first update loop never leaves a negative balance. |
| ReceiptService.ReconcileOldAt | Sklad/Sklad.Application/Services/ReceiptService.cs:152-203 | After the first loop each pair holds its old balance plus its kept count minus its old count. A row exists for each old row and each old line's pair. |
| ReceiptService.ReconcileOldFailsFrom | Sklad/Sklad.Application/Services/ReceiptService.cs:173-199 | A NotEnoughResource on some line ends the whole loop. |
| ReceiptService.ReconcileOldSucceeds | Sklad/Sklad.Application/Services/ReceiptService.cs:167-203 | The first loop succeeds if and only if, for every old line, balance + requested count − old count ≥ 0. The requested count is 0 for a dropped line. |
| ReceiptService.PlaceNewLines | Sklad/Sklad.Application/Services/ReceiptService.cs:205-217 | The second loop as written keeps balances non-negative. |
| ReceiptService.PlaceNewLinesAt | Sklad/Sklad.Application/Services/ReceiptService.cs:205-217 | As written, a new pair's balance is its request count only when it had no row. Every other pair keeps its balance. |
| ReceiptService.PlaceNewLinesIntended | Sklad/Sklad.Application/Services/ReceiptService.cs:205-217 | The corrected second loop credits every new line and keeps balances non-negative. |
| ReceiptService.UpdateTrivial | Sklad/Sklad.Application/Services/ReceiptService.cs:142-150 | An unknown id answers NotFound and an empty request answers OK/Updated. Neither changes anything. |
| ReceiptService.UpdateSpec | Sklad/Sklad.Application/Services/ReceiptService.cs:150-224 | Update is OK if and only if no old line's pair would go negative. Otherwise it answers BadRequest/NotEnoughResource and changes nothing. On OK: the receipt keeps its number and date, its lines are exactly the request's, and every old line's pair ends at balance + requested − old. A pair named by neither the old lines nor the request keeps its balance. Rows afterwards exist for exactly the old rows, the old lines' pairs and the request's pairs. The other receipts, the other tables and the id counter are unchanged. |
| ReceiptService.UpdateUntouchedPair | Sklad/Sklad.Application/Services/ReceiptService.cs:152-224 | After an OK update as written, a pair named by neither the old lines nor the request keeps its balance. A row exists afterwards exactly for the old rows, the old lines' pairs and the request's pairs. |
| ReceiptService.KeptOnePair | Sklad/Sklad.Application/Services/ReceiptService.cs:167-189 | With distinct old pairs, the kept lines hold for each old pair exactly the count the request gives it, or 0. |
| ReceiptService.UpdateNewPairAsWritten | Sklad/Sklad.Application/Services/ReceiptService.cs:205-217 | As written, after an OK update a pair new to the receipt holds its old balance if it had a row, and the request's count if it had none. |
| ReceiptService.NewPairNotCredited | Sklad/Sklad.Application/Services/ReceiptService.cs:205-217 | Counterexample: a row holding 5, with a new line of 3, stays 5 as written and becomes 8 when corrected. |
| ReceiptService.UpdateIntendedConserves | Sklad/Sklad.Application/Services/ReceiptService.cs:152-224 | After the corrected update, every pair's balance moves by exactly the change in the receipt's total for that pair. |
| ReceiptService.UpdateEmptyReceipt | Sklad/Sklad.Application/Services/ReceiptService.cs:205-224 | As written, updating a receipt with no lines to one line adds that line. A row is created for its pair with the line's count only if the pair had no row, and an existing row is left as it was. |
| ReceiptService.UpdateAsWrittenBreaksConservation | Sklad/Sklad.Application/Services/ReceiptService.cs:205-224 | As written, a receipt can gain 3 of a pair while that pair's balance does not move. |
| ReceiptService.UpdatePreserves | Sklad/Sklad.Application/Services/ReceiptService.cs:142-224 | Both the as-written and the corrected update keep the store invariant. |
| ReceiptService.DeleteSpec | Sklad/Sklad.Application/Services/ReceiptService.cs:257-297 | An unknown id answers NotFound with no change. Delete answers NoContent/Deleted if and only if every line's pair has a row holding at least its count, and otherwise BadRequest/NotEnoughResource with no change. On success the receipt is gone and each row loses its lines' total. The other tables and the id counter are unchanged. |
| ReceiptService.DeletePreserves | Sklad/Sklad.Application/Services/ReceiptService.cs:257-297 | Delete keeps the store invariant. |
| ReceiptService.CreateThenDelete | Sklad/Sklad.Application/Services/ReceiptService.cs:91-108 | Deleting a receipt just created succeeds, and every balance returns to its previous count. Rows the create added remain, at 0 more than before. |
| ShipmentService.GetShipmentDocuments | Sklad/Sklad.Application/Services/ShipmentService.cs:43-59 | It uses the same filter conjunction as receipts, over shipment lines. |
| ShipmentService.CreateSpec | Sklad/Sklad.Application/Services/ShipmentService.cs:65-94 | An empty line list answers BadRequest/NoResourcesProvided with no change. Otherwise the shipment is stored under a fresh id with the next number, as NotSigned, for the client, with its lines. No balance, receipt or catalogue table changes, and the id counter moves to the new id. |
| ShipmentService.CreatePreserves | Sklad/Sklad.Application/Services/ShipmentService.cs:65-94 | Create keeps the store invariant. |
| ShipmentService.UpdateSpec | Sklad/Sklad.Application/Services/ShipmentService.cs:123-156 | An unknown id is NotFound and an empty request is OK; neither changes anything. Otherwise the lines become exactly the request's, and balances, state, number and client are unchanged. The other shipments, receipts, catalogue tables and id counter are unchanged too. |
| ShipmentService.UpdatePreserves | Sklad/Sklad.Application/Services/ShipmentService.cs:123-156 | Update keeps the store invariant. |
| ShipmentService.DeleteSpec | Sklad/Sklad.Application/Services/ShipmentService.cs:185-205 | An unknown id is NotFound with no change. Otherwise the shipment is removed with NoContent/Deleted, even a Signed one. The other shipments keep their contents, and the balances, receipts, catalogue tables and id counter are unchanged. |
| ShipmentService.DeletePreserves | Sklad/Sklad.Application/Services/ShipmentService.cs:185-205 | Delete keeps the store invariant. |
| ShipmentService.SignSpec | Sklad/Sklad.Application/Services/ShipmentService.cs:235-258 | An unknown id is NotFound and a Signed shipment answers BadRequest/AlreadySigned, both with no change. Otherwise Sign is OK/Signed if and only if every line's pair has a row holding at least its count, and else NotEnoughResource with no change. On OK each row loses its lines' total and the state becomes Signed. Receipts, the catalogue tables and the id counter are unchanged. |
| ShipmentService.SignPreserves | Sklad/Sklad.Application/Services/ShipmentService.cs:243-256 | Sign keeps every balance non-negative, along with the rest of the invariant. |
| ShipmentService.WithdrawSpec | Sklad/Sklad.Application/Services/ShipmentService.cs:295-313 | An unknown id is NotFound and a NotSigned shipment answers BadRequest/AlreadyWithdrawn, both with no change. Otherwise every existing row grows by its lines' total, no row is created, and the state becomes NotSigned. Receipts, the catalogue tables and the id counter are unchanged. |
| ShipmentService.WithdrawPreserves | Sklad/Sklad.Application/Services/ShipmentService.cs:295-313 | Withdraw keeps the store invariant. |
| ShipmentService.SignThenWithdraw | Sklad/Sklad.Application/Services/ShipmentService.cs:303-312 | Withdrawing right after a successful Sign answers OK/Withdrawn and restores the whole store. Signing again then gives the same result as the first Sign. |
| ShipmentService.SignTwice | Sklad/Sklad.Application/Services/ShipmentService.cs:235-242 | A second Sign answers AlreadySigned and debits nothing more. |
| StorageService.StorageFilters | Sklad/Sklad.Application/Services/StorageService.cs:32-38 | With neither key, all rows are returned. With one key, exactly the rows with that id. With both keys, the intersection of the two single-key results. |
| StorageService.Rows | Sklad/Sklad.Application/Services/StorageService.cs:32-38 | The rows are exactly the ledger's entries. |
| StorageService.GetStorageBalance | Sklad/Sklad.Application/Services/StorageService.cs:32-38 | The result is a subset of the rows. A row is returned if and only if it matches each key that is given. |
| StorageService.StorageByPair | Sklad/Sklad.Application/Services/StorageService.cs:32-38 | With both keys, the result is the one row of that pair, or nothing if there is none. |
| ResourceService.DeleteSpec | Sklad/Sklad.Application/Services/ResourceService.cs:41-68 | An unknown id is NotFound, checked before use. A known id is Conflict/InUse if and only if some receipt or shipment line names it. Only an existing, unused resource is handed on. It is removed together with its balance rows, which the foreign key deletes on cascade (Migrations/20250804172906_Init.cs:106-111). Every other pair keeps its count. The guard paths change nothing. |
| ResourceService.DeletePreserves | Sklad/Sklad.Application/Services/ResourceService.cs:41-79 | Delete keeps the store invariant. |
| ResourceService.DeleteKeepsReferences | Sklad/Sklad.Application/Services/ResourceService.cs:54-67 | If every id a document names exists beforehand, that still holds after the delete. |
| UnitService.DeleteSpec | Sklad/Sklad.Application/Services/UnitService.cs:41-68 | NotFound comes first. Conflict/InUse holds if and only if some line names the unit. Only an existing, unused unit is handed on. It is removed together with its balance rows by the cascade (Migrations/20250804172906_Init.cs:112-117), and every other pair keeps its count. The guard paths change nothing. |
| UnitService.DeletePreserves | Sklad/Sklad.Application/Services/UnitService.cs:41-79 | Delete keeps the store invariant. |
| UnitService.DeleteKeepsReferences | Sklad/Sklad.Application/Services/UnitService.cs:54-67 | No unit a document names is removed. |
| ClientService.Validate | Sklad/Sklad.Application/Services/ClientService.cs:37-52 | A null or white-space Name answers BadRequest/NameRequired, checked first. Then a blank Address answers BadRequest/AddressRequired. Validation passes if and only if both are non-blank. |
| ClientService.NotBlankHasText | Sklad/Sklad.Application/Services/ClientService.cs:37-44 | A Name that passes the check is present and holds a character that is not white space. |
| ClientService.UpdateReply | Sklad/Sklad.Application/Services/ClientService.cs:57-76 | Update applies the same two checks in the same order, and hands on if and only if both pass. |
| ClientService.CreateSpec | Sklad/Sklad.Application/Services/ClientService.cs:35-55 | A create that fails the Name or Address check answers that check's reply. A create that passes is Conflict/AlreadyExists if and only if another client has the name, and Created otherwise. Every refusal changes nothing. A Created client is stored Active under the next id, its Name and Address are non-blank, and the other tables are unchanged. |
| ClientService.CreatePreserves | Sklad/Sklad.Application/Services/ClientService.cs:35-55 | Create keeps the store invariant. |
| ClientService.DeleteSpec | Sklad/Sklad.Application/Services/ClientService.cs:78-102 | An unknown id is NotFound. A known id is Conflict/InUse if and only if some shipment, in either state, is for it. Only an existing client with no shipments is handed on and removed. |
| ClientService.DeletePreserves | Sklad/Sklad.Application/Services/ClientService.cs:78-102 | Delete keeps the store invariant. |
| ClientService.DeleteKeepsReferences | Sklad/Sklad.Application/Services/ClientService.cs:91-101 | No client a shipment is for is removed. |
| CatalogService.FindByName | Sklad/Sklad.Application/Services/CatalogService.cs:380 | Lookup by name finds nothing exactly when no entity has the name. Otherwise it finds an entity with that name. |
| CatalogService.CreateMessage | Sklad/Sklad.Application/Services/CatalogService.cs:37-43 | Created, Conflict and InternalServerError map to their messages. Every other code maps to the empty message, and only those codes do. |
| CatalogService.ArchiveMessage | Sklad/Sklad.Application/Services/CatalogService.cs:123-129 | OK, NotFound and InternalServerError map to their messages. Every other code maps to the empty message. |
| CatalogService.MessagesDetermineStatus | Sklad/Sklad.Application/Services/CatalogService.cs:37-43 | A non-empty message determines the status code. |
| CatalogService.CreateSpec | Sklad/Sklad.Application/Services/CatalogService.cs:343-361 | The table is the one of the entity's kind, as the generic `TEntity` fixes it. Create answers Conflict, with no change, if and only if the name is taken in that table. Otherwise the entity is stored Active under the next id, which afterwards is the only id with that name. The other tables are unchanged. |
| CatalogService.CreatePreserves | Sklad/Sklad.Application/Services/CatalogService.cs:343-361 | Create keeps names unique, keeps each catalogue table to entities of its own kind, and keeps the rest of the invariant. |
| CatalogService.ArchiveSpec | Sklad/Sklad.Application/Services/CatalogService.cs:380-393 | Archive answers NotFound, with no change, if and only if no entity has the name. Otherwise it answers OK, and only that entity's state changes, to Archived. |
| CatalogService.ArchivePreserves | Sklad/Sklad.Application/Services/CatalogService.cs:380-393 | Archive keeps the store invariant. |
| CatalogService.ArchiveTwice | Sklad/Sklad.Application/Services/CatalogService.cs:380-388 | Archiving an archived entity answers OK again and changes nothing. |
| CatalogService.DeleteResourceSpec | Sklad/Sklad.Application/Services/CatalogService.cs:75-107 | References are checked first: Conflict if and only if some line names the id, even for an unknown id. Then OK/Deleted removes an existing resource together with its balance rows, by the database's cascade, and every other pair keeps its count. An absent resource is NotFound. |
| CatalogService.DeleteUnitSpec | Sklad/Sklad.Application/Services/CatalogService.cs:178-209 | Same order for units: Conflict if and only if some line names the unit, then Deleted or NotFound. Deleted removes the unit's balance rows by the cascade, and every other pair keeps its count. |
| CatalogService.DeleteClientSpec | Sklad/Sklad.Application/Services/CatalogService.cs:280-309 | Conflict if and only if some shipment is for the client. Otherwise Deleted if it exists, NotFound if not. |
| CatalogService.DeleteResourceKeepsReferences | Sklad/Sklad.Application/Services/CatalogService.cs:75-89 | No resource a document line names is removed. |
| CatalogService.DeleteUnitKeepsReferences | Sklad/Sklad.Application/Services/CatalogService.cs:178-192 | No unit a document line names is removed. |
| CatalogService.DeleteClientKeepsReferences | Sklad/Sklad.Application/Services/CatalogService.cs:280-292 | No client a shipment is for is removed. |
| Sklad.Warehouse.constructor | Sklad/Sklad.Persistence/SkladDbContext.cs:28-46 | A new warehouse is the empty store and valid. |
| Sklad.Warehouse.CreateReceipt | Sklad/Sklad.Application/Services/ReceiptService.cs:72-108 | The in-place credit loop ends in exactly the store and reply of the receipt create, and keeps the invariant. |
| Sklad.Warehouse.UpdateReceipt | Sklad/Sklad.Application/Services/ReceiptService.cs:142-224 | The reply and store are exactly those of the corrected receipt update, and the invariant is kept. |
| Sklad.Warehouse.ReconcileOld | Sklad/Sklad.Application/Services/ReceiptService.cs:152-203 | The first update loop with its early NotEnoughResource return computes the reconciled ledger and the kept lines. |
| Sklad.Warehouse.CreditNewLines | Sklad/Sklad.Application/Services/ReceiptService.cs:205-224 | The corrected second update loop computes the added lines and credits each of them to its pair. |
| Sklad.Warehouse.DeleteReceipt | Sklad/Sklad.Application/Services/ReceiptService.cs:257-297 | The result is exactly that of the receipt delete, and the invariant is kept. |
| Sklad.Warehouse.Debit | Sklad/Sklad.Application/Services/ShipmentService.cs:243-256 | The guarded loop returns the debited ledger, or nothing at the first line it cannot cover. |
| Sklad.Warehouse.CreateShipment | Sklad/Sklad.Application/Services/ShipmentService.cs:65-94 | The result is exactly that of the shipment create. |
| Sklad.Warehouse.UpdateShipment | Sklad/Sklad.Application/Services/ShipmentService.cs:123-156 | The two reconciling loops give exactly the shipment update. |
| Sklad.Warehouse.DeleteShipment | Sklad/Sklad.Application/Services/ShipmentService.cs:185-205 | The result is exactly that of the shipment delete. |
| Sklad.Warehouse.SignShipment | Sklad/Sklad.Application/Services/ShipmentService.cs:235-258 | The result is exactly that of Sign, and balances stay non-negative. |
| Sklad.Warehouse.WithdrawShipment | Sklad/Sklad.Application/Services/ShipmentService.cs:295-313 | The in-place restore loop gives exactly the result of Withdraw. |
| Sklad.Warehouse.CreateCatalogEntity | Sklad/Sklad.Application/Services/CatalogService.cs:343-361 | The result is exactly that of the generic create, into the table of the entity's kind. |
| Sklad.Warehouse.ArchiveCatalogEntity | Sklad/Sklad.Application/Services/CatalogService.cs:380-393 | The result is exactly that of the generic archive. |
| Sklad.Warehouse.CreateClient | Sklad/Sklad.Application/Services/ClientService.cs:35-55 | The checks, then the generic create, give exactly the client create. |
| Sklad.Warehouse.DeleteResource | Sklad/Sklad.Application/Services/ResourceService.cs:41-68 | The result is exactly that of the resource delete guards, including the cascade that drops the resource's balance rows. |
| Sklad.Warehouse.DeleteUnit | Sklad/Sklad.Application/Services/UnitService.cs:41-68 | The result is exactly that of the unit delete guards, including the cascade that drops the unit's balance rows. |
| Sklad.Warehouse.DeleteClient | Sklad/Sklad.Application/Services/ClientService.cs:78-102 | The result is exactly that of the client delete guards. |
| Sklad.Warehouse.CatalogDeleteResource | Sklad/Sklad.Application/Services/CatalogService.cs:71-107 | The result is exactly that of the older resource delete, including the cascade of its balance rows. |
| Sklad.Warehouse.CatalogDeleteUnit | Sklad/Sklad.Application/Services/CatalogService.cs:174-209 | The result is exactly that of the older unit delete, including the cascade of its balance rows. |
| Sklad.Warehouse.CatalogDeleteClient | Sklad/Sklad.Application/Services/CatalogService.cs:276-309 | The result is exactly that of the older client delete. |

## Left out

- HTTP controllers, dependency injection and the front end are plumbing and UI, so they are not modelled.
- Transactions, `SaveChangesAsync` and the `catch` branches that answer InternalServerError are not modelled. Every operation is atomic, and a refused operation leaves the store as it was. Database exceptions are outside the model.
- Concurrent requests and the unused `_locker` field are not modelled. The model is sequential.
- `DateTime.UtcNow` becomes the `date` parameter of the creates.
- Localized message text is not modelled. A reply carries a message key.
- The older catalogue service's per-kind message strings (`ResourceInUse`, `ResourceDeleted`, `ResourceNotFound`, ...) become the keys `InUse`, `Deleted` and `NotFound`.
- The older catalogue service reads the history tables `InboundResources`, `OutboundResources` and `GoodsIssueDocuments`. These are modelled as the current receipt lines, shipment lines and shipment documents.
- The rest of the older schema (Guid ids, `long` numbers) is not used by the current services and is not part of this model.
- The generic catalogue update, delete and list bodies are not visible. Where the services hand off to them, the reply is `Delegated`.
  - Resource, unit and client delete remove the row at that point. A resource or unit delete also removes that resource's or unit's balance rows. `Balance.ResourceId` and `Balance.UnitId` are required foreign keys (Balance.cs:13-16), and the database deletes them on cascade (Migrations/20250804172906_Init.cs:106-117). The delete guards look only at document lines, so these rows can hold a positive count when they go.
  - Client update stops at `Delegated`.
- Resource and unit Create, Update and Archive are one-line delegations to the generic catalogue members. They are modelled by `CatalogService.Create` and `CatalogService.Archive` with the matching table, with no extra member.
- Client Archive is likewise `CatalogService.Archive` over the client table.
- The multi-delete and multi-archive methods are only declared and have no bodies to model.
- Document numbers and ids are unbounded integers. The 32-bit `int` overflow of `max + 1` and of identity columns is not modelled.
- Counts are C# `decimal`, which is exact, and are modelled as integers. Fractional counts are not modelled.
- A null line list is folded into the empty list where the source guards against null:
  - shipment create and update (ShipmentService.cs:65 and :131);
  - receipt update (ReceiptService.cs:150);
  - the filter lists, read with `?.Any()`.
- Receipt create with a null line list is not modelled. `ReceiptService.Create` takes a list, and an empty one stores an empty receipt. The source calls `request.Resources.Any()` without a null guard (ReceiptService.cs:80). A null list throws there, and the `catch` answers InternalServerError/CreationFailed with nothing saved.
- Names are compared with exact string equality. This covers:
  - `CatalogService.NameTaken`, `CatalogService.FindByName` and the unique-name invariant;
  - the name lookups of create and archive (CatalogService.cs:343 and :380);
  - the unique index on Name.
  In the source these comparisons run in the database and follow its collation. SQL Server's default collation ignores case and trailing spaces, so "bolt" can clash with a stored "Bolt" there and not in the model.
- The `Warehouse` class carries the receipt update with its second loop corrected, not as written (see Findings). The loop as written is the function `ReceiptService.PlaceNewLines` behind `ReceiptService.Update`. The class has no method for it.
- The filter DTO names a `UnitOfMeasurementIds` field, but the services read `UnitIds`. The model follows the services.
- `CatalogService.Archive` requires unique names in its table, which the database's unique index on Name guarantees. Every archiving method runs under the store invariant, which contains it.
- Request lines must have distinct (resource, unit) pairs and non-negative counts. This is a precondition of the receipt and shipment creates and updates. No service or controller checks either, and the receipt form lets a repeated pair or a typed negative count through, so the model does not capture those requests.
  - Repeated pairs are excluded because the balance table is a map from pair to count. For a repeated new pair, receipt create looks up the row in the database and not among the rows it has just added (ReceiptService.cs:93-105), so it adds two Balance rows for one pair. A map cannot hold both.
  - Negative counts are excluded because a line's count is a quantity brought in or taken out. A negative one would turn a receipt into a debit that no guard checks.
- Document list queries return the matching documents keyed by id. The order of the list and the eager loading of related rows are not modelled.
- `ReceiptService.CreateThenDelete` and `ReceiptService.UpdateIntendedConserves` speak of one document at a time. Interleavings of several documents' updates follow from the per-call lemmas but are not stated as lemmas.

Where the code and its description differ, the model follows the code:

- Archiving an already archived entity answers OK; there is no "already archived" reply.
- Shipments have two states, NotSigned and Signed. Withdraw returns a Signed shipment to NotSigned.
- Resources and units get no blank-name check; only clients validate Name and Address.
- Deleting a Signed shipment does not return its counts to the balances.
- The older catalogue deletes check references before existence. The newer resource, unit and client services check existence first.

## Findings

| source | as written | input that shows it | evidently intended | confidence | as-written member | corrected member |
|---|---|---|---|---|---|---|
| Sklad/Sklad.Application/Services/ReceiptService.cs:205-217 | When a receipt update adds a line whose pair is new to the receipt, a balance row is created with the line's count only if none exists. An existing row is not incremented, so the receipt gains stock that the balance never records. | Balance (1,1) = 5, a receipt with no lines, updated to one line (1,1,3): the receipt then holds 3 of (1,1) and the balance stays 5. | Every new line is credited like a line of a new receipt, so the balance becomes 8, and every pair's balance moves by the change in the receipt's total for it. | not executed | ReceiptService.NewPairNotCredited | ReceiptService.UpdateIntendedConserves |

The loop as written is `ReceiptService.PlaceNewLines`, used by
`ReceiptService.Update`. Two lemmas show the discrepancy:
`ReceiptService.UpdateNewPairAsWritten` states it in general, and
`ReceiptService.UpdateAsWrittenBreaksConservation` shows it on a whole store.
The corrected loop is `ReceiptService.PlaceNewLinesIntended`, used by
`ReceiptService.UpdateIntended`. `Sklad.Warehouse.UpdateReceipt` is proved
against the corrected update.
