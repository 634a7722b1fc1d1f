/** rocsparse_csrsv_zero_pivot: report the first zero pivot the csrsv
    analysis or solve found. The record keeps it as one rocsparse_int,
    holding INT_MAX when there is none; the caller receives -1 with success
    in that case and the pivot's index with the zero_pivot status otherwise,
    written either through a host pointer or into device memory. */
module CsrsvZeroPivot {
  import opened DeviceInt
  import opened Types

  /** The status RETURN_IF_HIP_ERROR returns for a failing HIP runtime
      call: never success, never zero_pivot. */
  type RuntimeFailure = s: Status | s != Success && s != ZeroPivot witness Other(0)

  /** The answer of one HIP runtime call. */
  datatype HipAnswer = HipOk | HipFailed(status: RuntimeFailure)

  /** The answer of the k-th runtime call of one invocation; `hip` lists the
      answers in call order and every call beyond it succeeds. */
  function HipCall(hip: seq<HipAnswer>, k: nat): HipAnswer {
    if k < |hip| then hip[k] else HipOk
  }

  /** Every runtime call succeeds. */
  predicate RuntimeOk(hip: seq<HipAnswer>) {
    forall k :: 0 <= k < |hip| ==> hip[k] == HipOk
  }

  /** info->zero_pivot: no scalar (the analysis never allocated one, as
      when m or nnz is zero), or the memory image of the stored scalar. */
  datatype Scalar = Absent | Present(bytes: IntImage)

  /** What the caller's position receives: nothing, or a memory image. */
  datatype Delivery = Untouched | Delivered(bytes: IntImage)

  /** The status and the delivery of one call. */
  datatype Report = Report(status: Status, delivery: Delivery)

  /** The observable answer the library documents: the status and the
      value the caller reads at position. */
  datatype Pivot = Pivot(status: Status, position: int)

  /** The documented answer for a stored scalar: -1 with success when
      there is no scalar or it holds the INT_MAX sentinel, otherwise the
      stored index with the zero_pivot status. */
  function Documented(stored: Scalar): Pivot {
    match stored
    case Absent => Pivot(Success, -1)
    case Present(bs) =>
      if Decode(bs) == IntMax then Pivot(Success, -1) else Pivot(ZeroPivot, Decode(bs))
  }

  /** The report of rocsparse_csrsv_zero_pivot once its arguments are
      checked, for the handle's pointer mode, the stored scalar and the
      runtime's answers. */
  function ReportPivot(mode: PointerMode, stored: Scalar, hip: seq<HipAnswer>): Report {
    match stored
    case Absent =>
      if mode == HostMode then Report(Success, Delivered(Encode(-1)))
      else if HipCall(hip, 0).HipFailed? then Report(HipCall(hip, 0).status, Untouched)
      else Report(Success, Delivered(Fill(255)))
    case Present(bs) =>
      if mode == DeviceMode then
        if HipCall(hip, 0).HipFailed? then Report(HipCall(hip, 0).status, Untouched)
        else if HipCall(hip, 1).HipFailed? then Report(HipCall(hip, 1).status, Untouched)
        else if HipCall(hip, 2).HipFailed? then Report(HipCall(hip, 2).status, Untouched)
        else if Decode(bs) == IntMax then Report(Success, Delivered(Fill(255)))
        else Report(ZeroPivot, Delivered(bs))
      else
        if HipCall(hip, 0).HipFailed? then Report(HipCall(hip, 0).status, Untouched)
        else if Decode(bs) == IntMax then Report(Success, Delivered(Encode(-1)))
        else Report(ZeroPivot, Delivered(bs))
  }

  /** Whenever the report carries success or zero_pivot, the caller's
      position holds exactly the documented value, in either pointer mode. */
  lemma ReportDelivers(mode: PointerMode, stored: Scalar, hip: seq<HipAnswer>)
    ensures var r := ReportPivot(mode, stored, hip);
            r.status == Success || r.status == ZeroPivot ==>
              r.delivery.Delivered? && Pivot(r.status, Decode(r.delivery.bytes)) == Documented(stored)
  {
    FillAllOnesIsMinusOne();
  }

  /** A call either reports the documented answer or fails with the status
      of a failing runtime call, leaving position untouched; when the
      runtime does not fail, the call cannot fail. */
  lemma ReportFails(mode: PointerMode, stored: Scalar, hip: seq<HipAnswer>)
    ensures var r := ReportPivot(mode, stored, hip);
            && (r.delivery == Untouched <==> r.status != Success && r.status != ZeroPivot)
            && (r.delivery == Untouched ==> exists k :: 0 <= k < |hip| && hip[k] == HipFailed(r.status))
            && (RuntimeOk(hip) ==> r.delivery.Delivered?)
  {
  }

  /** The host and the device pointer modes deliver the same memory image
      with the same status, whenever the runtime does not fail. */
  lemma PointerModesAgree(stored: Scalar, hostHip: seq<HipAnswer>, deviceHip: seq<HipAnswer>)
    requires RuntimeOk(hostHip) && RuntimeOk(deviceHip)
    ensures ReportPivot(HostMode, stored, hostHip) == ReportPivot(DeviceMode, stored, deviceHip)
  {
    FillAllOnesIsMinusOne();
  }

  /** The scalar a matrix info record holds. */
  function StoredScalar(info: MatInfo): Scalar
    reads info, info.zeroPivot
  {
    if info.zeroPivot == null then Absent else Present(info.zeroPivot.bytes)
  }

  /** rocsparse_csrsv_zero_pivot. `hip` answers the runtime calls the
      invocation makes, in order; descr is never inspected. */
  method QueryZeroPivot(handle: Handle?, descr: MatDescr?, info: MatInfo?, position: IntCell?,
                        hip: seq<HipAnswer>)
    returns (status: Status)
    modifies position
    // argument checks, in the order handle, info, position; they write nothing
    ensures handle == null ==> status == InvalidHandle
    ensures handle != null && (info == null || position == null) ==> status == InvalidPointer
    ensures (handle == null || info == null) && position != null ==> position.bytes == old(position.bytes)
    // once the arguments are valid, the call does what its report says
    ensures handle != null && info != null && position != null ==>
              var r := ReportPivot(handle.pointerMode, old(StoredScalar(info)), hip);
              status == r.status &&
              position.bytes == (if r.delivery.Delivered? then r.delivery.bytes else old(position.bytes))
    // the stored scalar is only read, unless position is the stored scalar itself
    ensures info != null && info.zeroPivot != null && info.zeroPivot != position ==>
              info.zeroPivot.bytes == old(info.zeroPivot.bytes)
  {
    if handle == null {
      return InvalidHandle;
    } else if info == null {
      return InvalidPointer;
    }
    if position == null {
      return InvalidPointer;
    }

    // no analysis ran: report -1
    if info.zeroPivot == null {
      if handle.pointerMode == DeviceMode {
        var e := HipCall(hip, 0);
        if e.HipFailed? {
          return e.status;
        }
        position.bytes := Fill(255);
      } else {
        position.bytes := Encode(-1);
      }
      return Success;
    }

    if handle.pointerMode == DeviceMode {
      // copy the scalar to the host and wait for the copy
      var e := HipCall(hip, 0);
      if e.HipFailed? {
        return e.status;
      }
      var zeroPivot := info.zeroPivot.bytes;
      e := HipCall(hip, 1);
      if e.HipFailed? {
        return e.status;
      }
      e := HipCall(hip, 2);
      if Decode(zeroPivot) == IntMax {
        if e.HipFailed? {
          return e.status;
        }
        position.bytes := Fill(255);
      } else {
        if e.HipFailed? {
          return e.status;
        }
        position.bytes := info.zeroPivot.bytes;
        return ZeroPivot;
      }
    } else {
      var e := HipCall(hip, 0);
      if e.HipFailed? {
        return e.status;
      }
      position.bytes := info.zeroPivot.bytes;
      if Decode(position.bytes) == IntMax {
        position.bytes := Encode(-1);
      } else {
        return ZeroPivot;
      }
    }
    return Success;
  }
}
