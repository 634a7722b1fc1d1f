/** The library objects the csrsv bookkeeping works on: status codes, the
    handle, the matrix descriptor and the matrix info record with its four
    triangular-analysis slots and its zero-pivot scalar. */
module Types {
  import opened DeviceInt

  /** rocsparse_status. The four statuses this core returns by itself are
      named; a status that only a collaborator (the analysis destructor, the
      HIP runtime) can report is Other. */
  datatype Status = Success | InvalidHandle | InvalidPointer | ZeroPivot | Other(code: nat)

  /** rocsparse_pointer_mode: where scalar results are delivered. */
  datatype PointerMode = HostMode | DeviceMode

  /** A rocsparse_trm_info pointer: null, or the address of an analysis
      record. Two slots alias when they hold the same address. */
  datatype Trm = Null | Trm(address: nat)

  /** The four csrsv analysis variants held by a matrix info record. */
  datatype Variant = Lower | LowerT | Upper | UpperT

  /** The order in which clear visits the slots. */
  const ClearOrder: seq<Variant> := [Lower, LowerT, Upper, UpperT]

  /** The values of the four slots: csrsv_lower_info, csrsvt_lower_info,
      csrsv_upper_info and csrsvt_upper_info. */
  datatype Slots = Slots(lower: Trm, lowerT: Trm, upper: Trm, upperT: Trm) {
    function At(v: Variant): Trm {
      match v
      case Lower => lower
      case LowerT => lowerT
      case Upper => upper
      case UpperT => upperT
    }
  }

  /** A record with no csrsv analysis attached. */
  const Unanalysed := Slots(Null, Null, Null, Null)

  /** rocsparse_handle: the context; only its pointer mode matters here. */
  class Handle {
    var pointerMode: PointerMode

    constructor (mode: PointerMode)
      ensures pointerMode == mode
    {
      pointerMode := mode;
    }
  }

  /** rocsparse_mat_descr: only checked for presence. */
  class MatDescr {
    constructor () { }
  }

  /** One rocsparse_int of host or device memory. */
  class IntCell {
    var bytes: IntImage

    constructor (x: int)
      requires IsInt(x)
      ensures bytes == Encode(x)
    {
      bytes := Encode(x);
    }
  }

  /** rocsparse_mat_info, restricted to the fields this core touches. */
  class MatInfo {
    var csrsvLower: Trm
    var csrsvtLower: Trm
    var csrsvUpper: Trm
    var csrsvtUpper: Trm
    /** info->zero_pivot: absent until an analysis allocates it. */
    var zeroPivot: IntCell?

    constructor ()
      ensures SlotValues() == Unanalysed && zeroPivot == null
    {
      csrsvLower, csrsvtLower, csrsvUpper, csrsvtUpper := Null, Null, Null, Null;
      zeroPivot := null;
    }

    function SlotValues(): Slots
      reads this
    {
      Slots(csrsvLower, csrsvtLower, csrsvUpper, csrsvtUpper)
    }
  }
}
