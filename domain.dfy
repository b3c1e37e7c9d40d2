/**
 * The entities of the warehouse database (Sklad.Domain/Models) and the
 * outcome of a service call (Sklad.Contracts/Responses/OperationResult.cs).
 * Row ids are the keys of the maps that hold the rows (see the Store module),
 * so they are not repeated inside the records.
 */
module Domain {

  /** The natural key of a balance row: the pair (ResourceId, UnitId). */
  datatype Pair = Pair(resourceId: int, unitId: int)

  /**
   * A document line (ReceiptResource and ShipmentResource have the same
   * columns; the owning document is the document that contains the line).
   * Counts are C# `decimal`, which is exact; here they are `int`.
   */
  datatype Line = Line(resourceId: int, unitId: int, count: int) {
    function Key(): Pair { Pair(resourceId, unitId) }
  }

  /** One row of the Balances table. */
  datatype Balance = Balance(resourceId: int, unitId: int, count: int)

  /** A receipt (inbound) document; `date` stands for the DateTime it was created at. */
  datatype ReceiptDocument = ReceiptDocument(number: int, date: int, lines: seq<Line>)

  /** DocumentStateEnum: a shipment is either not signed or signed. */
  datatype DocumentState = NotSigned | Signed

  /** A shipment (outbound) document. */
  datatype ShipmentDocument = ShipmentDocument(
    number: int, clientId: int, date: int, state: DocumentState, lines: seq<Line>)

  /** CatalogEntityStateEnum. */
  datatype CatalogState = Active | Archived

  /**
   * The three kinds of catalog entity (ICatalogEntity: Name and State;
   * a client also has an Address).
   */
  datatype CatalogEntity =
    | Resource(name: string, state: CatalogState)
    | Unit(name: string, state: CatalogState)
    | Client(name: string, address: string, state: CatalogState)

  /** The HTTP status codes the services return. */
  datatype Status = OK | Created | NoContent | BadRequest | NotFound | Conflict | InternalServerError

  /** MessageKeyEnum, plus `NoMessage` for the empty string. */
  datatype MessageKey =
    | Created | NameRequired | AddressRequired | CreationFailed | Updated | UpdateFailed
    | Deleted | DeletionFailed | NotFound | AlreadyExists | Archived | ArchiveFailed
    | AlreadyArchived | InUse | NoResourcesProvided | Signed | AlreadySigned | SigningFailed
    | Withdrawn | AlreadyWithdrawn | WithdrawalFailed | NotEnoughResource | NoMessage

  /**
   * What a service call answers: a status code with its message key, or
   * `Delegated` when the call was handed on to the generic catalog delete,
   * whose answer is not part of this model.
   */
  datatype Reply = Reply(status: Status, message: MessageKey) | Delegated
}
