# csrsv bookkeeping in rocSPARSE, modelled in Dafny

rocSPARSE's sparse triangular solve (csrsv) keeps its analysis in a
`rocsparse_mat_info` record. The record has four analysis slots: lower,
lower-transposed, upper and upper-transposed. It also has a nullable
zero-pivot scalar. This project models the two library entry points that
manage this state:

- `rocsparse_csrsv_clear` validates its arguments. It then visits the four
  slots in a fixed order and hands each one that the sharing check does not
  flag to the analysis destructor. It returns the first failure at once.
  Only after every release succeeds does it reset the four slots to null.
- `rocsparse_csrsv_zero_pivot` validates its arguments. It then reports the
  stored pivot through the caller's `position` pointer, as a host write or
  a device copy/fill depending on the handle's pointer mode:
  - a missing scalar reports -1 with success;
  - the `INT_MAX` sentinel reports -1 with success;
  - any other value is copied out with the `zero_pivot` status.

Files:

- `device_int.dfy` (module `DeviceInt`): a `rocsparse_int` as its memory
  image, four little-endian two's-complement bytes. It has encode/decode
  round trips and the fact that filling every byte with 255 stores -1.
- `types.dfy` (module `Types`): the statuses, pointer mode, analysis
  pointers (`Trm`), slot values, and the classes `Handle`, `MatDescr`,
  `MatInfo` and `IntCell`.
- `csrsv_clear.dfy` (module `CsrsvClear`):
  - the reference outcome `ClearOutcomeOf`;
  - the imperative `Clear`/`ReleaseAll`, which mutate the record and call
    the destructor;
  - lemmas on sharing, order, failure and double frees.
- `csrsv_zero_pivot.dfy` (module `CsrsvZeroPivot`):
  - the pure decision `ReportPivot`;
  - the documented answer `Documented`;
  - the imperative `QueryZeroPivot`, which performs the write;
  - lemmas that relate the two pointer modes and the error paths.

The collaborators are not modelled; their answers are parameters:
- `rocsparse_check_trm_shared` is a function `shared: Trm -> bool`, which
  answers for the record as it is on entry.
- `rocsparse_destroy_trm_info` is the `TrmStore` class. It records each
  pointer it is handed and returns the status `outcome` gives for that
  pointer.
- The HIP runtime calls of one `zero_pivot` invocation are answered, in
  call order, by `hip: seq<HipAnswer>`. A failing call is returned by
  `RETURN_IF_HIP_ERROR` as a status other than success or `zero_pivot`.

## Model

| member | source | states |
|---|---|---|
| DeviceInt.FillAllOnesIsMinusOne | library/src/level2/rocsparse_csrsv.cpp:406-413 | the device-mode byte fill with 255 stores -1, the same memory image as the host-mode write of -1 |
| DeviceInt.DecodeEncode | library/src/level2/rocsparse_csrsv.cpp:412 | writing an int and reading it back gives the same int, so the host write of -1 reads back as -1 |
| DeviceInt.EncodeDecode | library/src/level2/rocsparse_csrsv.cpp:424-425 | an int's memory image is determined by the value read from it, so a byte copy of the scalar carries exactly its value |
| CsrsvClear.TrmStore.Destroy | library/src/level2/rocsparse_csrsv.cpp:228 | the destructor is handed exactly one pointer per call and its status is returned |
| CsrsvClear.Release | library/src/level2/rocsparse_csrsv.cpp:226-229 | a slot reaches the destructor only when the sharing check does not flag it; a flagged slot is skipped with success |
| CsrsvClear.Pending | library/src/level2/rocsparse_csrsv.cpp:226-241 | a pointer is handed over on a full run exactly when some slot holds it and the sharing check does not flag it: every unflagged slot, nothing else |
| CsrsvClear.ThroughMembers | library/src/level2/rocsparse_csrsv.cpp:226-241 | after the first i slots, a pointer has been handed over exactly when one of those slots holds it and it is not shared |
| CsrsvClear.PendingBySlot | library/src/level2/rocsparse_csrsv.cpp:226-241 | the full run visits lower, lower-transposed, upper and upper-transposed, in that order |
| CsrsvClear.FirstFailure | library/src/level2/rocsparse_csrsv.cpp:228-240 | the position of the first destruction that fails: every earlier one succeeded |
| CsrsvClear.ClearOutcomeSpec | library/src/level2/rocsparse_csrsv.cpp:204-249 | see the list below the table |
| CsrsvClear.FailsAt | library/src/level2/rocsparse_csrsv.cpp:226-241 | when the destruction of slot i fails after the earlier ones succeeded: that status is returned, nothing after slot i is handed over, and nothing is reset |
| CsrsvClear.AllSucceed | library/src/level2/rocsparse_csrsv.cpp:226-248 | when every destruction succeeds: the status is success, every unshared slot is handed over, and the slots are reset |
| CsrsvClear.ReleaseAll | library/src/level2/rocsparse_csrsv.cpp:226-248 | releasing the slots in order mutates the record and the destructor log exactly as the reference outcome says, and leaves the zero-pivot scalar alone |
| CsrsvClear.Clear | library/src/level2/rocsparse_csrsv.cpp:204-249 | status, destroyed pointers and the new slot values of clear are those of the reference outcome, for every combination of null arguments |
| CsrsvClear.ThroughNoDuplicates | library/src/level2/rocsparse_csrsv.cpp:226-241 | if the sharing check flags every pointer two slots hold, the pointers handed over from any prefix of the slots are distinct |
| CsrsvClear.NoDoubleFree | library/src/level2/rocsparse_csrsv.cpp:226-241 | under that condition, clear never hands the same analysis record to the destructor twice |
| CsrsvClear.VisitingOrder | library/src/level2/rocsparse_csrsv.cpp:226-248 | with nothing shared and no failure, the destructor receives the four slots in the order lower, lower-transposed, upper, upper-transposed, and clear succeeds |
| CsrsvClear.ClearUnanalysed | library/src/level2/rocsparse_csrsv.cpp:226-248 | clearing a record with no analysis succeeds and hands only null pointers over, provided the destructor accepts null |
| CsrsvZeroPivot.ReportDelivers | library/src/level2/rocsparse_csrsv.cpp:402-462 | whenever the status is success or zero_pivot, position holds the documented value: -1 for a missing scalar or the INT_MAX sentinel, else the stored index with zero_pivot, in either pointer mode |
| CsrsvZeroPivot.ReportFails | library/src/level2/rocsparse_csrsv.cpp:404-449 | position is left untouched exactly when the status is neither success nor zero_pivot; that status is one a runtime call failed with; with no runtime failure, position is always written |
| CsrsvZeroPivot.PointerModesAgree | library/src/level2/rocsparse_csrsv.cpp:404-462 | with no runtime failure, host and device pointer modes deliver the same memory image and the same status |
| CsrsvZeroPivot.QueryZeroPivot | library/src/level2/rocsparse_csrsv.cpp:375-463 | see the list below the table |

What `CsrsvClear.ClearOutcomeSpec` states, for every sharing check and
destructor:
- the arguments are checked first, in the order handle, then descr and
  info, and a failed check touches nothing;
- the slots are reset exactly when the status is success;
- only pointers the slots hold are destroyed, and never a shared one;
- the destroyed pointers are a prefix of the visiting order, and all of it
  on success;
- a failure is the status of the last destruction, after every earlier one
  succeeded.

What `CsrsvZeroPivot.QueryZeroPivot` states:
- the arguments are checked in the order handle, info, position, and a
  failed check writes nothing;
- after that, the status and the new position are those of `ReportPivot`
  for the handle's pointer mode and the stored scalar;
- the stored scalar is unchanged unless position points at it.

## Left out

- The typed wrappers `rocsparse_{s,d,c,z}csrsv_buffer_size`, `_analysis`
  and `_solve` (library/src/level2/rocsparse_csrsv.cpp:36-202, 251-373).
  They only forward to templates in `rocsparse_csrsv.hpp`. That header is
  not part of this model, so the level scheduler, the substitution kernel
  and the buffer sizing are not modelled.
- `rocsparse_check_trm_shared` and `rocsparse_destroy_trm_info` are not
  part of this model. Their answers are parameters, as described above:
  - the destructor's status depends only on the pointer it is handed;
  - nothing is assumed about what the destructor does with a null pointer;
  - the sharing check answers for the record on entry, which clear does not
    change before its resets.
- CsrsvClear.NoDoubleFree: holds only under an assumed behaviour of
  `rocsparse_check_trm_shared`, namely that it flags every pointer two of
  the four slots hold. That function is not part of this model, so the
  assumption is stated as the condition `FlagsAliases`.
- Clearing an unanalysed record is not a plain no-op. The code hands each
  null slot that the sharing check does not flag to the destructor.
  CsrsvClear.ClearUnanalysed therefore assumes the destructor accepts a null
  pointer, and holds for every answer of the sharing check. The same
  assumption covers a second clear in a row, whose slots are all null.
  Idempotence is not claimed without it.
- HIP asynchrony, stream ordering and `hipStreamSynchronize` semantics are
  not modelled. Each runtime call either succeeds and takes effect at once,
  or fails and has no effect.
- A `hipMemcpy` that fails part-way could leave partial bytes in a host
  position. The model writes nothing on a failing call.
- The mapping from HIP error codes to rocsparse statuses
  (`get_rocsparse_status_for_hip_status`) is not modelled. A failing call's
  status is only known to be neither success nor `zero_pivot`.
- `log_trace` (lines 223 and 391) is logging only.
- `handle->stream` (line 400) only selects the stream for asynchronous
  calls.
- `rocsparse_int` is taken as 32 bits, stored little-endian. The 64-bit
  index build is not modelled.
- Floating-point and complex type dispatch are not modelled.
- clients/samples/example_csrmv.cpp is a benchmark driver outside the
  csrsv bookkeeping.
