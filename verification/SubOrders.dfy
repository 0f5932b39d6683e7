/** atomefin/payment/suborder_validate.go, auth.go, capture.go: the amount and
    sub-order rules an /auth and a /capture request must pass before sending. */
module SubOrders {
  import opened Wrappers
  import opened Int64

  datatype SubOrder = SubOrder(
    subOrderId: string,
    merchantId: string,
    merchantName: string,
    amount: Int64)

  datatype SkuInfo = SkuInfo(skuId: string, amount: Int64)

  datatype MainOrderExtendInfo = MainOrderExtendInfo(merchantId: string, skuInfos: seq<SkuInfo>)

  datatype OrderType = Transport | GrabFood | GrabMart | Unknown(text: string)

  datatype ExtendInfo = ExtendInfo(orderType: OrderType, mainOrderExtendInfos: seq<MainOrderExtendInfo>)

  /** The request fields the two validators read; `sessionid` counts for /auth
      only and `authOrderId` for /capture only. */
  datatype Request = Request(
    requestId: string,
    externalReferenceUid: string,
    totalAmount: Int64,
    periodType: Int64,
    subOrders: seq<SubOrder>,
    extendInfo: Option<ExtendInfo>,
    sessionid: string,
    authOrderId: string)

  /** The name of the offending field. */
  type Rejection = Option<string>

  function Check(ok: bool, field: string): Rejection {
    if ok then None else Some(field)
  }

  function Then(first: Rejection, second: Rejection): Rejection {
    if first.Some? then first else second
  }

  // ---------- Amounts ----------

  function Amounts(orders: seq<SubOrder>): seq<Int64> {
    seq(|orders|, i requires 0 <= i < |orders| => orders[i].amount)
  }

  function Total(orders: seq<SubOrder>): int {
    if orders == [] then 0 else Total(orders[..|orders| - 1]) + orders[|orders| - 1].amount
  }

  /** `sumSubOrderAmount`: the running int64 sum. */
  method SumSubOrderAmount(orders: seq<SubOrder>) returns (sum: Int64)
    ensures sum == Wrap(Total(orders))
  {
    sum := 0;
    var i := 0;
    assert Wrap(0) == 0;
    while i < |orders|
      invariant 0 <= i <= |orders|
      invariant sum == Wrap(Total(orders[..i]))
    {
      assert orders[..i + 1][..i] == orders[..i];
      WrapOfSum(Total(orders[..i]), orders[i].amount);
      sum := Wrap(sum + orders[i].amount);
      i := i + 1;
    }
    assert orders[..i] == orders;
  }

  predicate AllAtLeast(amounts: seq<Int64>, minimum: int) {
    forall i | 0 <= i < |amounts| :: amounts[i] >= minimum
  }

  function ValidateCheckoutAmounts(periodType: Int64, totalAmount: Int64, amounts: seq<Int64>): Rejection {
    var minimumTotal := if periodType == 3 then 20000 else 1;
    var minimumSubOrder := if periodType == 3 then 3 else 1;
    Then(Check(totalAmount >= minimumTotal, "totalAmount"),
         Check(AllAtLeast(amounts, minimumSubOrder), "subOrders[].amount"))
  }

  function ValidateCaptureReAuthAmounts(periodType: Int64, amounts: seq<Int64>): Rejection {
    Check(AllAtLeast(amounts, if periodType < 1 then 1 else periodType), "subOrders[].amount")
  }

  // ---------- Sub-orders ----------

  function ValidateFoodMartAuthSubOrder(so: SubOrder): Rejection {
    Then(Check(so.subOrderId != "", "subOrders[].subOrderId"),
         Then(Check(so.merchantId != "", "subOrders[].merchantId"),
              Check(so.amount > 0, "subOrders[].amount")))
  }

  function FirstRejected(orders: seq<SubOrder>): Rejection {
    if orders == [] then None
    else Then(ValidateFoodMartAuthSubOrder(orders[0]), FirstRejected(orders[1..]))
  }

  function ValidateAuthCaptureSubOrders(orderType: OrderType, orders: seq<SubOrder>): Rejection {
    match orderType
    case Transport =>
      if |orders| != 1 then Some("subOrders") else Check(orders[0].amount > 0, "subOrders[].amount")
    case GrabFood =>
      if |orders| != 1 then Some("subOrders") else ValidateFoodMartAuthSubOrder(orders[0])
    case GrabMart =>
      if |orders| == 0 then Some("subOrders") else FirstRejected(orders)
    case Unknown(_) => Check(|orders| != 0, "subOrders")
  }

  function ValidateCaptureSubOrders(orderType: OrderType, orders: seq<SubOrder>): Rejection {
    Then(ValidateAuthCaptureSubOrders(orderType, orders),
         Check((orderType.GrabFood? || orderType.GrabMart?) ==> MerchantsNamed(orders), "subOrders[].merchantName"))
  }

  predicate MerchantsNamed(orders: seq<SubOrder>) {
    forall i | 0 <= i < |orders| :: orders[i].merchantName != ""
  }

  function ValidateSKUs(skus: seq<SkuInfo>): Rejection {
    if skus == [] then None
    else if skus[0].skuId == "" then Some("extendInfo.mainOrderExtendInfos[].skuInfos[].skuId")
    else if skus[0].amount <= 0 then Some("extendInfo.mainOrderExtendInfos[].skuInfos[].amount")
    else ValidateSKUs(skus[1..])
  }

  function ValidateInfos(infos: seq<MainOrderExtendInfo>): Rejection {
    if infos == [] then None
    else if infos[0].merchantId == "" then Some("extendInfo.mainOrderExtendInfos[].merchantId")
    else if infos[0].skuInfos == [] then Some("extendInfo.mainOrderExtendInfos[].skuInfos")
    else Then(ValidateSKUs(infos[0].skuInfos), ValidateInfos(infos[1..]))
  }

  function ValidateMainOrderExtendInfos(orderType: OrderType, infos: seq<MainOrderExtendInfo>): Rejection {
    if orderType.GrabMart? || orderType.GrabFood? then
      if infos == [] then Some("extendInfo.mainOrderExtendInfos") else ValidateInfos(infos)
    else None
  }

  // ---------- The two validators ----------

  /** `validateAuthRequest`. */
  function ValidateAuthRequest(req: Request): Rejection {
    if req.requestId == "" || |req.requestId| > 64 then Some("requestId")
    else if req.externalReferenceUid == "" then Some("externalReferenceUid")
    else if req.totalAmount <= 0 then Some("totalAmount")
    else
      Then(ValidateCheckoutAmounts(req.periodType, req.totalAmount, Amounts(req.subOrders)),
           if req.extendInfo.None? then Some("extendInfo")
           else
             var info := req.extendInfo.value;
             if info.orderType.Unknown? then Some("extendInfo.orderType")
             else
               Then(ValidateAuthCaptureSubOrders(info.orderType, req.subOrders),
                    Then(Check(Wrap(Total(req.subOrders)) == req.totalAmount, "totalAmount"),
                         Then(ValidateMainOrderExtendInfos(info.orderType, info.mainOrderExtendInfos),
                              Check(req.sessionid != "" && |req.sessionid| <= 64, "sessionid")))))
  }

  /** `validateCaptureRequest`. */
  function ValidateCaptureRequest(req: Request): Rejection {
    if req.requestId == "" || |req.requestId| > 64 then Some("requestId")
    else if req.externalReferenceUid == "" then Some("externalReferenceUid")
    else if req.authOrderId == "" then Some("authOrderId")
    else if req.totalAmount <= 0 then Some("totalAmount")
    else
      Then(ValidateCaptureReAuthAmounts(req.periodType, Amounts(req.subOrders)),
           if req.extendInfo.None? then Some("extendInfo")
           else
             var info := req.extendInfo.value;
             if info.orderType.Unknown? then Some("extendInfo.orderType")
             else
               Then(ValidateCaptureSubOrders(info.orderType, req.subOrders),
                    Then(Check(Wrap(Total(req.subOrders)) == req.totalAmount, "totalAmount"),
                         ValidateMainOrderExtendInfos(info.orderType, info.mainOrderExtendInfos))))
  }

  // ---------- What acceptance means ----------

  predicate NeedsMerchants(t: OrderType) {
    t.GrabFood? || t.GrabMart?
  }

  predicate Identified(so: SubOrder) {
    so.subOrderId != "" && so.merchantId != ""
  }

  predicate Stocked(info: MainOrderExtendInfo) {
    info.merchantId != "" && info.skuInfos != []
    && forall i | 0 <= i < |info.skuInfos| :: info.skuInfos[i].skuId != "" && info.skuInfos[i].amount > 0
  }

  /** What both endpoints ask for, as one conjunction. */
  predicate CommonRules(req: Request) {
    && 1 <= |req.requestId| <= 64 && req.externalReferenceUid != ""
    && req.extendInfo.Some? && !req.extendInfo.value.orderType.Unknown?
    && var t, infos := req.extendInfo.value.orderType, req.extendInfo.value.mainOrderExtendInfos;
    && (if t.GrabMart? then |req.subOrders| >= 1 else |req.subOrders| == 1)
    && (NeedsMerchants(t) ==>
          && (forall i | 0 <= i < |req.subOrders| :: Identified(req.subOrders[i]))
          && infos != [] && forall i | 0 <= i < |infos| :: Stocked(infos[i]))
    && Wrap(Total(req.subOrders)) == req.totalAmount > 0
  }

  predicate AuthRules(req: Request) {
    && CommonRules(req) && 1 <= |req.sessionid| <= 64
    && (forall i | 0 <= i < |req.subOrders| :: req.subOrders[i].amount >= if req.periodType == 3 then 3 else 1)
    && (req.periodType == 3 ==> req.totalAmount >= 20000)
  }

  predicate CaptureRules(req: Request) {
    && CommonRules(req) && req.authOrderId != ""
    && (forall i | 0 <= i < |req.subOrders| :: req.subOrders[i].amount >= 1 && req.subOrders[i].amount >= req.periodType)
    && (NeedsMerchants(req.extendInfo.value.orderType) ==>
          forall i | 0 <= i < |req.subOrders| :: req.subOrders[i].merchantName != "")
  }

  lemma {:induction false} FirstRejectedNone(orders: seq<SubOrder>)
    ensures FirstRejected(orders).None?
       <==> forall i | 0 <= i < |orders| :: Identified(orders[i]) && orders[i].amount > 0
  {
    if orders != [] {
      FirstRejectedNone(orders[1..]);
      assert orders == [orders[0]] + orders[1..];
    }
  }

  lemma {:induction false} SKUsNone(skus: seq<SkuInfo>)
    ensures ValidateSKUs(skus).None? <==> forall i | 0 <= i < |skus| :: skus[i].skuId != "" && skus[i].amount > 0
  {
    if skus != [] {
      SKUsNone(skus[1..]);
      assert skus == [skus[0]] + skus[1..];
    }
  }

  lemma {:induction false} InfosNone(infos: seq<MainOrderExtendInfo>)
    ensures ValidateInfos(infos).None? <==> forall i | 0 <= i < |infos| :: Stocked(infos[i])
  {
    if infos != [] {
      SKUsNone(infos[0].skuInfos);
      InfosNone(infos[1..]);
      assert infos == [infos[0]] + infos[1..];
    }
  }

  lemma AmountsAtLeast(orders: seq<SubOrder>, minimum: int)
    ensures AllAtLeast(Amounts(orders), minimum) <==> forall i | 0 <= i < |orders| :: orders[i].amount >= minimum
  {
    assert forall i | 0 <= i < |orders| :: Amounts(orders)[i] == orders[i].amount;
  }

  /** /auth accepts exactly the requests that keep all its rules, whatever the
      order in which they are checked. */
  lemma AuthAcceptedIff(req: Request)
    ensures ValidateAuthRequest(req).None? <==> AuthRules(req)
  {
    hide Amounts, AllAtLeast, Total, Wrap, FirstRejected, ValidateInfos, Stocked;
    FirstRejectedNone(req.subOrders);
    AmountsAtLeast(req.subOrders, 1);
    AmountsAtLeast(req.subOrders, 3);
    AmountsAtLeast(req.subOrders, req.periodType);
    if req.extendInfo.Some? {
      InfosNone(req.extendInfo.value.mainOrderExtendInfos);
    }
  }

  /** /capture accepts exactly the requests that keep all its rules. */
  lemma CaptureAcceptedIff(req: Request)
    ensures ValidateCaptureRequest(req).None? <==> CaptureRules(req)
  {
    hide Amounts, AllAtLeast, Total, Wrap, FirstRejected, ValidateInfos, Stocked;
    FirstRejectedNone(req.subOrders);
    AmountsAtLeast(req.subOrders, 1);
    AmountsAtLeast(req.subOrders, 3);
    AmountsAtLeast(req.subOrders, req.periodType);
    if req.extendInfo.Some? {
      InfosNone(req.extendInfo.value.mainOrderExtendInfos);
    }
  }

  lemma {:induction false} PositiveTotal(orders: seq<SubOrder>)
    requires AllAtLeast(Amounts(orders), 1)
    ensures Total(orders) >= |orders|
  {
    if orders != [] {
      var front := orders[..|orders| - 1];
      assert forall i | 0 <= i < |front| :: Amounts(front)[i] == Amounts(orders)[i];
      PositiveTotal(front);
      assert Amounts(orders)[|orders| - 1] == orders[|orders| - 1].amount;
    }
  }

  /** An accepted /auth or /capture request has positive sub-order amounts whose
      sum is the total modulo 2^64, and is the total exactly when it fits int64. */
  lemma AcceptedSum(req: Request)
    requires ValidateAuthRequest(req).None? || ValidateCaptureRequest(req).None?
    ensures AllAtLeast(Amounts(req.subOrders), 1)
    ensures (req.totalAmount - Total(req.subOrders)) % TWO_64 == 0
    ensures Total(req.subOrders) == req.totalAmount <==> Total(req.subOrders) < TWO_63
  {
    WrapCongruent(Total(req.subOrders));
    PositiveTotal(req.subOrders);
  }

  /** The total of an accepted request need not be the sum of its sub-orders:
      the running sum can wrap. */
  lemma SumCanWrap(req: Request)
    requires req == Request("r", "u", 1, 1,
                            [Mart(TWO_63 - 1), Mart(TWO_63 - 1), Mart(3)],
                            Some(ExtendInfo(GrabMart, [MainOrderExtendInfo("m", [SkuInfo("k", 1)])])), "s", "")
    ensures ValidateAuthRequest(req).None? && Total(req.subOrders) == TWO_64 + 1 != req.totalAmount
  {
    var a, b, c := Mart(TWO_63 - 1), Mart(TWO_63 - 1), Mart(3);
    assert [a, b, c][..2] == [a, b] && [a, b][..1] == [a] && [a][..0] == [];
    assert Total([a]) == TWO_63 - 1;
    assert Total([a, b]) == 2 * TWO_63 - 2;
    assert [a, b, c][1..] == [b, c] && [b, c][1..] == [c] && [c][1..] == [];
    assert FirstRejected([c]).None?;
    assert FirstRejected([b, c]).None?;
    var infos := [MainOrderExtendInfo("m", [SkuInfo("k", 1)])];
    assert infos[1..] == [] && infos[0].skuInfos[1..] == [];
    assert ValidateSKUs(infos[0].skuInfos).None? && ValidateInfos(infos).None?;
  }

  function Mart(amount: Int64): SubOrder {
    SubOrder("o", "m", "n", amount)
  }

  /** The /capture request that mirrors an /auth request. */
  function Mirror(auth: Request, requestId: string, authOrderId: string): Request {
    auth.(requestId := requestId, authOrderId := authOrderId)
  }

  /** The mirror of an accepted /auth request passes the capture validator
      exactly when it names an authorization, carries merchant names where they
      are required, and every amount is at least the tenor. */
  lemma MirrorAcceptedIff(auth: Request, requestId: string, authOrderId: string)
    requires ValidateAuthRequest(auth).None?
    requires requestId != "" && |requestId| <= 64
    ensures ValidateCaptureRequest(Mirror(auth, requestId, authOrderId)).None?
       <==> authOrderId != ""
            && (auth.extendInfo.value.orderType.Transport?
                || forall i | 0 <= i < |auth.subOrders| :: auth.subOrders[i].merchantName != "")
            && forall i | 0 <= i < |auth.subOrders| :: auth.subOrders[i].amount >= auth.periodType
  {
    AuthAcceptedIff(auth);
    CaptureAcceptedIff(Mirror(auth, requestId, authOrderId));
  }

  /** For tenors 1 and 3 (and any non-positive one) the amounts never get in the
      way: /auth already asks for as much. */
  lemma ShortTenorsMirror(auth: Request, requestId: string, authOrderId: string)
    requires ValidateAuthRequest(auth).None? && (auth.periodType <= 1 || auth.periodType == 3)
    requires requestId != "" && |requestId| <= 64 && authOrderId != ""
    requires auth.extendInfo.value.orderType.Transport?
             || forall i | 0 <= i < |auth.subOrders| :: auth.subOrders[i].merchantName != ""
    ensures ValidateCaptureRequest(Mirror(auth, requestId, authOrderId)).None?
  {
    AuthAcceptedIff(auth);
    MirrorAcceptedIff(auth, requestId, authOrderId);
  }

  // ---------- Which rule a rejection names ----------

  /** The field a rejection names breaks a rule of its own. */
  ghost predicate Broken(req: Request, minimum: int, field: string) {
    || (field == "requestId" && !(1 <= |req.requestId| <= 64))
    || (field == "externalReferenceUid" && req.externalReferenceUid == "")
    || (field == "authOrderId" && req.authOrderId == "")
    || (field == "sessionid" && !(1 <= |req.sessionid| <= 64))
    || (field == "totalAmount" && (req.totalAmount <= 0 || (req.periodType == 3 && req.totalAmount < 20000)
                                   || Wrap(Total(req.subOrders)) != req.totalAmount))
    || (field == "extendInfo" && req.extendInfo.None?)
    || (field == "subOrders" && |req.subOrders| != 1)
    || (field == "subOrders[].amount" && exists i | 0 <= i < |req.subOrders| :: req.subOrders[i].amount < minimum)
    || (field == "subOrders[].subOrderId" && exists i | 0 <= i < |req.subOrders| :: req.subOrders[i].subOrderId == "")
    || (field == "subOrders[].merchantId" && exists i | 0 <= i < |req.subOrders| :: req.subOrders[i].merchantId == "")
    || (field == "subOrders[].merchantName" && exists i | 0 <= i < |req.subOrders| :: req.subOrders[i].merchantName == "")
    || (req.extendInfo.Some? && BrokenInfo(req.extendInfo.value, field))
  }

  ghost predicate BrokenInfo(info: ExtendInfo, field: string) {
    || (field == "extendInfo.orderType" && info.orderType.Unknown?)
    || (field == "extendInfo.mainOrderExtendInfos" && info.mainOrderExtendInfos == [])
    || exists i | 0 <= i < |info.mainOrderExtendInfos| :: BrokenStock(info.mainOrderExtendInfos[i], field)
  }

  ghost predicate BrokenStock(info: MainOrderExtendInfo, field: string) {
    || (field == "extendInfo.mainOrderExtendInfos[].merchantId" && info.merchantId == "")
    || (field == "extendInfo.mainOrderExtendInfos[].skuInfos" && info.skuInfos == [])
    || (field == "extendInfo.mainOrderExtendInfos[].skuInfos[].skuId"
        && exists i | 0 <= i < |info.skuInfos| :: info.skuInfos[i].skuId == "")
    || (field == "extendInfo.mainOrderExtendInfos[].skuInfos[].amount"
        && exists i | 0 <= i < |info.skuInfos| :: info.skuInfos[i].amount <= 0)
  }

  lemma {:induction false} OrderFault(orders: seq<SubOrder>) returns (i: nat)
    requires FirstRejected(orders).Some?
    ensures i < |orders| && ValidateFoodMartAuthSubOrder(orders[i]) == FirstRejected(orders)
  {
    i := 0;
    if ValidateFoodMartAuthSubOrder(orders[0]).None? {
      var j := OrderFault(orders[1..]);
      i := j + 1;
    }
  }

  lemma {:induction false} SkuFault(skus: seq<SkuInfo>) returns (i: nat)
    requires ValidateSKUs(skus).Some?
    ensures i < |skus|
    ensures if skus[i].skuId == "" then ValidateSKUs(skus) == Some("extendInfo.mainOrderExtendInfos[].skuInfos[].skuId")
            else skus[i].amount <= 0 && ValidateSKUs(skus) == Some("extendInfo.mainOrderExtendInfos[].skuInfos[].amount")
  {
    i := 0;
    if skus[0].skuId != "" && skus[0].amount > 0 {
      var j := SkuFault(skus[1..]);
      i := j + 1;
    }
  }

  lemma {:induction false} InfoFault(infos: seq<MainOrderExtendInfo>) returns (i: nat)
    requires ValidateInfos(infos).Some?
    ensures i < |infos| && BrokenStock(infos[i], ValidateInfos(infos).value)
  {
    var info := infos[0];
    if info.merchantId != "" && info.skuInfos != [] && ValidateSKUs(info.skuInfos).None? {
      var j := InfoFault(infos[1..]);
      i := j + 1;
    } else {
      i := 0;
      if info.merchantId != "" && info.skuInfos != [] {
        var k := SkuFault(info.skuInfos);
      }
    }
  }

  lemma SubOrdersFault(req: Request, orderType: OrderType, minimum: int)
    requires minimum >= 1 && !orderType.Unknown? && ValidateAuthCaptureSubOrders(orderType, req.subOrders).Some?
    ensures Broken(req, minimum, ValidateAuthCaptureSubOrders(orderType, req.subOrders).value)
  {
    var orders := req.subOrders;
    hide BrokenInfo, Wrap, Total, FirstRejected;
    if orderType.GrabMart? && orders != [] {
      var i := OrderFault(orders);
    }
  }

  lemma AmountFault(req: Request, minimum: int)
    requires !AllAtLeast(Amounts(req.subOrders), minimum)
    ensures exists i | 0 <= i < |req.subOrders| :: req.subOrders[i].amount < minimum
  {
    AmountsAtLeast(req.subOrders, minimum);
  }

  lemma InfosFault(info: ExtendInfo)
    requires ValidateMainOrderExtendInfos(info.orderType, info.mainOrderExtendInfos).Some?
    ensures BrokenInfo(info, ValidateMainOrderExtendInfos(info.orderType, info.mainOrderExtendInfos).value)
  {
    hide ValidateInfos, BrokenStock;
    if info.mainOrderExtendInfos != [] {
      var i := InfoFault(info.mainOrderExtendInfos);
    }
  }

  /** A rejected /auth request breaks a rule of the field the rejection names. */
  lemma AuthRejectionNames(req: Request)
    requires ValidateAuthRequest(req).Some?
    ensures Broken(req, if req.periodType == 3 then 3 else 1, ValidateAuthRequest(req).value)
  {
    var minimum := if req.periodType == 3 then 3 else 1;
    hide Amounts, AllAtLeast, Total, Wrap, BrokenInfo, ValidateAuthCaptureSubOrders, ValidateMainOrderExtendInfos;
    if !AllAtLeast(Amounts(req.subOrders), minimum) {
      AmountFault(req, minimum);
    }
    if req.extendInfo.Some? {
      var info := req.extendInfo.value;
      UnknownIsBroken(info);
      if !info.orderType.Unknown? && ValidateAuthCaptureSubOrders(info.orderType, req.subOrders).Some? {
        SubOrdersFault(req, info.orderType, minimum);
      }
      if ValidateMainOrderExtendInfos(info.orderType, info.mainOrderExtendInfos).Some? {
        InfosFault(info);
      }
    }
  }

  lemma UnknownIsBroken(info: ExtendInfo)
    ensures info.orderType.Unknown? ==> BrokenInfo(info, "extendInfo.orderType")
  {
  }

  /** And so does a rejected /capture request. */
  lemma CaptureRejectionNames(req: Request)
    requires ValidateCaptureRequest(req).Some?
    ensures Broken(req, if req.periodType < 1 then 1 else req.periodType, ValidateCaptureRequest(req).value)
  {
    var minimum := if req.periodType < 1 then 1 else req.periodType;
    hide Amounts, AllAtLeast, Total, Wrap, BrokenInfo, ValidateAuthCaptureSubOrders, ValidateMainOrderExtendInfos;
    if !AllAtLeast(Amounts(req.subOrders), minimum) {
      AmountFault(req, minimum);
    }
    if req.extendInfo.Some? {
      var info := req.extendInfo.value;
      UnknownIsBroken(info);
      if !info.orderType.Unknown? && ValidateAuthCaptureSubOrders(info.orderType, req.subOrders).Some? {
        SubOrdersFault(req, info.orderType, minimum);
      }
      if ValidateMainOrderExtendInfos(info.orderType, info.mainOrderExtendInfos).Some? {
        InfosFault(info);
      }
    }
  }
}
