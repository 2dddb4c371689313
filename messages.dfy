/**
 * The error catalogue (TechnicalMessage) and the domain limits (Constants): plain data that
 * the validators and the error handler read.
 */
module Messages {

  const BOOTCAMP_NAME_MAX_LENGTH: nat := 50
  const BOOTCAMP_DESCRIPTION_MAX_LENGTH: nat := 255
  const MIN_CAPACITIES: nat := 1
  const MAX_CAPACITIES: nat := 4
  const BOOTCAMP_CAPACITY_IDS: string := "capacityIds"

  /** Each message carries a code, a human-readable text and the name of the offending field. */
  datatype TechnicalMessage =
    | InternalError
    | InternalErrorInAdapters
    | InvalidRequest
    | InvalidParameters
    | UnsupportedOperation
    | BootcampCreated
    | BootcampAlreadyExists
    | BootcampNameRequired
    | BootcampDescriptionRequired
    | BootcampNameTooLong
    | BootcampDescriptionTooLong
    | AdapterResponseNotFound
    | BootcampMinCapacities
    | BootcampMaxCapacities
    | CapacityNotFound
  {
    function Code(): string {
      match this
      case InternalError => "500"
      case InternalErrorInAdapters => "PRC501"
      case InvalidRequest => "400"
      case InvalidParameters => "400"  // declared as INVALID_REQUEST.code
      case UnsupportedOperation => "501"
      case BootcampCreated => "201"
      case BootcampAlreadyExists => "400"
      case BootcampNameRequired => "400"
      case BootcampDescriptionRequired => "400"
      case BootcampNameTooLong => "400"
      case BootcampDescriptionTooLong => "400"
      case AdapterResponseNotFound => "404"
      case BootcampMinCapacities => "400"
      case BootcampMaxCapacities => "400"
      case CapacityNotFound => "404"
    }

    function Message(): string {
      match this
      case InternalError => "Something went wrong, please try again"
      case InternalErrorInAdapters => "Something went wrong in adapters, please try again"
      case InvalidRequest => "Bad Request, please verify data"
      case InvalidParameters => "Bad Parameters, please verify data"
      case UnsupportedOperation => "Method not supported, please try again"
      case BootcampCreated => "Bootcamp created successfully"
      case BootcampAlreadyExists => "Bootcamp name already exists"
      case BootcampNameRequired => "Bootcamp name is required"
      case BootcampDescriptionRequired => "Bootcamp description is required"
      case BootcampNameTooLong => "Bootcamp name max length is 50"
      case BootcampDescriptionTooLong => "Bootcamp description max length is 255"
      case AdapterResponseNotFound => "Bootcamp not found"
      case BootcampMinCapacities => "A bootcamp must have at least 1 capacity"
      case BootcampMaxCapacities => "A bootcamp must have at most 4 capacities"
      case CapacityNotFound => "Some capacity IDs do not exist"
    }

    function Param(): string {
      match this
      case BootcampAlreadyExists => "name"
      case BootcampNameRequired => "name"
      case BootcampNameTooLong => "name"
      case BootcampDescriptionRequired => "description"
      case BootcampDescriptionTooLong => "description"
      case AdapterResponseNotFound => "id"
      case BootcampMinCapacities => BOOTCAMP_CAPACITY_IDS
      case BootcampMaxCapacities => BOOTCAMP_CAPACITY_IDS
      case CapacityNotFound => BOOTCAMP_CAPACITY_IDS
      case _ => ""
    }
  }

  /** Every validation message the registration raises names a client error ("400"), except
      the referential one, whose own code is "404"; each names the field it is about. */
  lemma RegistrationMessageCodes(m: TechnicalMessage)
    requires m in {InvalidRequest, BootcampNameRequired, BootcampNameTooLong,
                   BootcampDescriptionRequired, BootcampDescriptionTooLong,
                   BootcampMinCapacities, BootcampMaxCapacities, InvalidParameters,
                   BootcampAlreadyExists, CapacityNotFound}
    ensures m.Code() == (if m == CapacityNotFound then "404" else "400")
    ensures m in {BootcampMinCapacities, BootcampMaxCapacities, CapacityNotFound}
            ==> m.Param() == "capacityIds"
  {
  }
}
