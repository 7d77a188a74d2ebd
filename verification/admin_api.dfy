/**
 * The admin API: the admin-key check every endpoint depends on, the page
 * count of its listings, the existence guard of the moderation endpoints,
 * the counting of the batch endpoints and the status dispatch of the full
 * listing. The repository's moderation calls are not part of this model:
 * their outcomes are inputs.
 */
module AdminApi {
  import opened Wrappers
  import opened Lists
  import opened PyInt
  import opened Store
  import CheckIns

  const NoKeyDetail: string := "服务器未配置管理密钥，请设置 ADMIN_KEY 环境变量"
  const BadKeyDetail: string := "无效的管理密钥"
  const NotFoundDetail: string := "记录不存在"
  const FailedDetail: string := "操作失败"
  const NoIdsDetail: string := "请提供要操作的 ID 列表"

  /** An endpoint's answer: a success message or an `HTTPException`. */
  datatype Response = Ok(message: string) | Error(status: int, detail: string)

  /**
   * `require_admin_key`: an unset `ADMIN_KEY` (the empty string) fails with
   * 500 whatever the header; otherwise only a header equal to the key passes.
   */
  function RequireAdminKey(adminKey: string, header: Option<string>): (r: Option<Response>)
    ensures adminKey == [] ==> r == Some(Error(500, NoKeyDetail))
    ensures adminKey != [] ==> (r.None? <==> header == Some(adminKey))
    ensures adminKey != [] && r.Some? ==> r == Some(Error(401, BadKeyDetail))
  {
    if adminKey == [] then Some(Error(500, NoKeyDetail))
    else if header.None? || header.value == [] || header.value != adminKey then Some(Error(401, BadKeyDetail))
    else None
  }

  /**
   * `(total + limit - 1) // limit if total > 0 else 0`; `None` where Python
   * divides by zero.
   */
  function TotalPages(total: nat, limit: int): (r: Option<int>)
    ensures total == 0 ==> r == Some(0)
    ensures total > 0 ==> (r.None? <==> limit == 0)
    ensures total > 0 && limit > 0 ==> r.Some? && (r.value - 1) * limit < total <= r.value * limit
  {
    if total > 0 then
      if limit == 0 then None
      else
        CeilingPages(total, limit);
        Some(FloorDiv(total + limit - 1, limit))
    else Some(0)
  }

  /** The three single-record moderation endpoints. */
  datatype Action = Approve | Reject | Ban

  function SuccessMessage(action: Action, id: int): string {
    match action
    case Approve => "已通过审核 #" + IntToString(id)
    case Reject => "已拒绝并删除 #" + IntToString(id)
    case Ban => "已封禁 #" + IntToString(id)
  }

  /**
   * `approve_checkin`, `reject_checkin`, `ban_checkin`: after the key check,
   * a missing record is a 404; only then is the repository called, and
   * `succeeded` is what that call returns. The second component says whether
   * the repository was called.
   */
  function Moderate(adminKey: string, header: Option<string>, action: Action,
                    rows: seq<Row>, id: int, succeeded: bool): (r: (Response, bool))
    ensures RequireAdminKey(adminKey, header).Some? ==> r == (RequireAdminKey(adminKey, header).value, false)
    ensures RequireAdminKey(adminKey, header).None? && !HasId(rows, id) ==> r == (Error(404, NotFoundDetail), false)
    ensures r.1 <==> RequireAdminKey(adminKey, header).None? && HasId(rows, id)
    ensures r.1 ==> r.0 == (if succeeded then Ok(SuccessMessage(action, id)) else Error(500, FailedDetail))
  {
    match RequireAdminKey(adminKey, header)
    case Some(denied) => (denied, false)
    case None =>
      if CheckIns.GetById(rows, id).None? then (Error(404, NotFoundDetail), false)
      else if succeeded then (Ok(SuccessMessage(action, id)), true)
      else (Error(500, FailedDetail), true)
  }

  /** One repository call of a batch endpoint: the id and whether the call succeeded. */
  datatype Call = Call(id: int, succeeded: bool)

  predicate Succeeded(call: Call) {
    call.succeeded
  }

  /** `batch_approve` and `batch_reject` differ only in their message. */
  datatype Batch = BatchApprove | BatchReject

  function BatchMessage(batch: Batch, count: nat, total: nat): string {
    match batch
    case BatchApprove => "已通过 " + IntToString(count) + "/" + IntToString(total) + " 条记录"
    case BatchReject => "已拒绝 " + IntToString(count) + "/" + IntToString(total) + " 条记录"
  }

  /**
   * The batch endpoints: an empty id list is a 400; otherwise one repository
   * call per id, in order, and `count` is the number of calls that succeeded.
   */
  method BatchModerate(batch: Batch, calls: seq<Call>) returns (r: Response, count: nat)
    ensures calls == [] ==> r == Error(400, NoIdsDetail) && count == 0
    ensures calls != [] ==> count == |Filter(calls, Succeeded)| && r == Ok(BatchMessage(batch, count, |calls|))
    ensures count <= |calls|
    ensures count == |calls| <==> forall k :: 0 <= k < |calls| ==> calls[k].succeeded
  {
    if calls == [] {
      return Error(400, NoIdsDetail), 0;
    }
    count := 0;
    var k := 0;
    while k < |calls|
      invariant 0 <= k <= |calls|
      invariant count == |Filter(calls[..k], Succeeded)|
    {
      FilterStep(calls, k, Succeeded);
      if calls[k].succeeded {
        count := count + 1;
      }
      k := k + 1;
    }
    assert calls[..k] == calls;
    FilterKeepsAll(calls, Succeeded);
    r := Ok(BatchMessage(batch, count, |calls|));
  }

  /** The listing `get_all_checkins` asks the repository for. */
  datatype Listing = PendingList | ApprovedOnly | AllRecords

  /** `get_all_checkins`: `"pending"` and `"approved"` select, anything else (None included) lists all. */
  function StatusListing(status: Option<string>): (l: Listing)
    ensures l == PendingList <==> status == Some("pending")
    ensures l == ApprovedOnly <==> status == Some("approved")
    ensures l == AllRecords <==> status != Some("pending") && status != Some("approved")
  {
    if status == Some("pending") then PendingList
    else if status == Some("approved") then ApprovedOnly
    else AllRecords
  }
}
