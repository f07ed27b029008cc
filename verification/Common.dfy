/** Identifiers, options, and the error codes the services answer with. */
module Common {

  /** Database keys are opaque: only their equality matters. A row's key is its index in its table. */
  type Id = nat

  datatype Option<+T> = None | Some(value: T)

  /** A call either commits with a value or is refused with an error; `:-` propagates the refusal. */
  datatype Result<+T> = Ok(value: T) | Err(error: Error) {
    predicate IsFailure() { Err? }

    function PropagateFailure<U>(): Result<U>
      requires Err?
    {
      Err(error)
    }

    function Extract(): T
      requires Ok?
    {
      value
    }
  }

  datatype Error =
    // movements
    | MovementTypeNotSupported
    | MovementLinesRequired
    | QuantityInvalid
    | MovementSourceRequired
    | MovementTargetRequired
    | MovementSourceNotAllowed
    | MovementTargetNotAllowed
    | MovementSameWarehouse
    | RoomRequired
    | MovementReasonRequired
    | ProductNotFound
    | ProductInactive
    | QuantityNotWhole
    | LocationNotInWarehouse
    | TransferSameLocation
    | UnitCostRequired
    | StockInsufficient(product: Id, available: int, required: int)
    | MovementNotFound
    | MovementNotActive
    | MovementNotCancellable
    | MovementNotPending
    // counts
    | WarehouseNotFound
    | StocktakeOpenExists
    | StocktakeNotFound
    | StocktakeInvalidState
    | CountQuantityInvalid
    | StocktakeLinesUncounted
    | SelfApproval
    | StocktakeReasonMissing
    // tasks and rooms
    | TaskOpenExists
    | KitNotAvailable
    | TaskNotFound
    | TaskNotPending
    | TaskInvalidState
    | TaskUnassigned
    | CartRequired
    | ProductNotKittable
    | InsufficientPermissions
    | LaundryNotConfigured
    | InspectionNotPending
    | InspectionExists
    | ReasonRequired
    | RoomNotFound
    | RoomTransitionInvalid
    | AccessDenied
    // zones
    | ZoneNotFound
    | ZoneNotFloor
    | ZoneParentInvalid
    | ZoneInUse
    | RoomTypeNotFound
    // access log
    | AccessEventNotFound
    | CredentialInvalid
    | EmployeeMismatch
    | QrOrEmployeeRequired
    | EmployeeNotFound
    | SiteNotFound
    | InvalidDeviceTimestamp
    | EmployeeInactive
    | SiteInactive
    | DuplicateAccessEvent
    | EntryAlreadyOpen
    | ExitWithoutEntry
    // outbox
    | EmailLogNotFound
    | EmailAlreadySent
}
