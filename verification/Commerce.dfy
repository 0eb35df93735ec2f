/** Carts and orders: filling a cart, showing it, and turning it into an order.

  A `Store` holds the tables.  Every operation is one transaction: when it is refused the
  tables stay as they were.  Carts, orders and products are named by their position in
  their table, order lines and reservations by their order and place in it.
*/
module Commerce {
  import opened Wrappers
  import opened Sorting
  import CourseAccess

  const CURRENCY := "VND"
  const MAX_SAFE_INTEGER := 9_007_199_254_740_991
  const MAX_SELECTION := 20

  datatype ProductStatus = DraftProduct | ActiveProduct | ArchivedProduct

  datatype Product = Product(courseId: Option<nat>, seller: nat, status: ProductStatus)

  datatype CartLine = CartLine(id: nat, productId: nat, quantity: nat)

  datatype Cart = Cart(buyer: nat, active: bool, currency: string, lines: seq<CartLine>)

  datatype OrderLine = OrderLine(
    productId: nat, courseId: nat, seller: nat, title: string, listPrice: int, discount: int, finalPrice: int)

  datatype LineRef = LineRef(order: nat, line: nat)

  datatype Benefit = Benefit(ref: LineRef, voucherId: nat, sourceVersion: string, discount: int)

  datatype Reservation = Reservation(ref: LineRef, buyer: nat, voucherId: nat, consumed: bool)

  datatype Redemption = Redemption(voucherId: nat, userId: nat, courseId: nat, original: int, discount: int, final: int)

  datatype Order = Order(cart: nat, buyer: nat, subtotal: int, discount: int, payable: int, confirmed: bool, lines: seq<OrderLine>)

  datatype Application = Application(courseId: nat, code: string)

  /** What the request hash identifies: the selection and the vouchers, each in order of course. */
  datatype Request = Request(courses: Option<seq<nat>>, applications: seq<Application>)

  datatype Record = Record(request: Request, completed: bool, order: nat)

  datatype Store = Store(
    access: CourseAccess.Store, products: seq<Product>, carts: seq<Cart>, nextLine: nat,
    orders: seq<Order>, benefits: seq<Benefit>, reservations: seq<Reservation>, redemptions: seq<Redemption>,
    redeemed: map<nat, nat>, records: map<(nat, string), Record>)

  datatype Error =
    | InvalidKey | InvalidSelection | DuplicateTarget | DuplicatePromotion | KeyReused | RequestInProgress | EmptyCart
    | TargetNotInCart | EmptySelection | AlreadyOwned | VoucherTargetNotSelected | StaleCart | UnsupportedCurrency
    | VoucherRejected | CourseNotFound | CourseUnavailable | PaymentNotRequired

  // ----- What can be sold, to whom

  predicate Sellable(c: CourseAccess.Course) {
    !c.deleted && c.status.Published? && c.isPublic && c.moderationClear
  }

  predicate Payable(price: Option<int>) {
    price.Some? && 0 < price.value <= MAX_SAFE_INTEGER
  }

  predicate Owns(s: Store, buyer: nat, courseId: nat, now: int) {
    CourseAccess.IsAllowed(CourseAccess.Decide(
      s.access, Some(CourseAccess.User(buyer, {CourseAccess.Student})), courseId, CourseAccess.FullLearning, false, now))
  }

  function CourseIdOf(s: Store, line: CartLine): Option<nat> {
    if line.productId < |s.products| then s.products[line.productId].courseId else None
  }

  function CourseOf(s: Store, line: CartLine): Option<CourseAccess.Course> {
    var id := CourseIdOf(s, line);
    if id.Some? && id.value in s.access.courses then Some(s.access.courses[id.value]) else None
  }

  // ----- The cart

  function ActiveCart(carts: seq<Cart>, buyer: nat): (r: Option<nat>)
    ensures r.Some? ==> r.value < |carts| && carts[r.value].active && carts[r.value].buyer == buyer
    ensures r.None? ==> forall c <- carts :: !(c.active && c.buyer == buyer)
  {
    if carts == [] then None
    else
      var n := |carts| - 1;
      if carts[n].active && carts[n].buyer == buyer then Some(n)
      else
        assert forall c :: c in carts <==> c in carts[..n] || c == carts[n];
        ActiveCart(carts[..n], buyer)
  }

  function ProductOfCourse(products: seq<Product>, courseId: nat): (r: Option<nat>)
    ensures r.Some? ==> r.value < |products| && products[r.value].courseId == Some(courseId)
    ensures r.None? ==> forall p <- products :: p.courseId != Some(courseId)
  {
    if products == [] then None
    else
      var n := |products| - 1;
      if products[n].courseId == Some(courseId) then Some(n)
      else
        assert forall p :: p in products <==> p in products[..n] || p == products[n];
        ProductOfCourse(products[..n], courseId)
  }

  function PurchaseError(s: Store, courseId: nat): Option<Error> {
    if courseId !in s.access.courses || s.access.courses[courseId].deleted then Some(CourseNotFound)
    else
      var c := s.access.courses[courseId];
      if !Sellable(c) then Some(CourseUnavailable)
      else if !Payable(c.price) then Some(PaymentNotRequired)
      else if c.currency != CURRENCY then Some(UnsupportedCurrency)
      else None
  }

  /** `ensureActiveCourseProduct`: the course's product, created or taken out of draft if need be. */
  function EnsureProduct(s: Store, courseId: nat): (seq<Product>, Result<nat, Error>)
    requires courseId in s.access.courses
  {
    var k := ProductOfCourse(s.products, courseId);
    if k.None? then (s.products + [Product(Some(courseId), s.access.courses[courseId].instructor, ActiveProduct)], Success(|s.products|))
    else if s.products[k.value].status == ArchivedProduct then (s.products, Failure(CourseUnavailable))
    else (s.products[k.value := s.products[k.value].(status := ActiveProduct)], Success(k.value))
  }

  function HasProduct(lines: seq<CartLine>, productId: nat): bool {
    exists l <- lines :: l.productId == productId
  }

  /** `upsert`: a new line of quantity 1, or an existing line set to quantity 1. */
  function WithLine(lines: seq<CartLine>, id: nat, productId: nat): seq<CartLine> {
    if HasProduct(lines, productId) then SetToOne(lines, productId) else lines + [CartLine(id, productId, 1)]
  }

  function SetToOne(lines: seq<CartLine>, productId: nat): (r: seq<CartLine>)
    ensures |r| == |lines|
    ensures forall i :: 0 <= i < |r| ==> r[i] == if lines[i].productId == productId then lines[i].(quantity := 1) else lines[i]
  {
    seq(|lines|, i requires 0 <= i < |lines| => if lines[i].productId == productId then lines[i].(quantity := 1) else lines[i])
  }

  function AddCourse(s: Store, buyer: nat, courseId: nat, now: int): (Store, Result<nat, Error>) {
    var error := PurchaseError(s, courseId);
    if error.Some? then (s, Failure(error.value))
    else if Owns(s, buyer, courseId, now) then (s, Failure(AlreadyOwned))
    else
      var (products, product) := EnsureProduct(s, courseId);
      if product.Failure? then (s, Failure(product.error))
      else
        var k := ActiveCart(s.carts, buyer);
        var carts := if k.Some? then s.carts else s.carts + [Cart(buyer, true, CURRENCY, [])];
        var at := if k.Some? then k.value else |s.carts|;
        (s.(products := products, nextLine := s.nextLine + 1,
            carts := carts[at := carts[at].(lines := WithLine(carts[at].lines, s.nextLine, product.value))]), Success(product.value))
  }

  /** The line of the first product for the course, taken out. */
  function WithoutCourse(s: Store, lines: seq<CartLine>, courseId: nat): seq<CartLine> {
    if lines == [] then []
    else if CourseIdOf(s, lines[0]) == Some(courseId) then lines[1..]
    else [lines[0]] + WithoutCourse(s, lines[1..], courseId)
  }

  function RemoveCourse(s: Store, buyer: nat, courseId: nat): Store {
    var k := ActiveCart(s.carts, buyer);
    if k.None? then s
    else s.(carts := s.carts[k.value := s.carts[k.value].(lines := WithoutCourse(s, s.carts[k.value].lines, courseId))])
  }

  function ClearCart(s: Store, buyer: nat): Store {
    var k := ActiveCart(s.carts, buyer);
    if k.None? then s else s.(carts := s.carts[k.value := s.carts[k.value].(lines := [])])
  }

  // ----- Showing the cart

  datatype Availability = ItemOwned | ItemUnavailable | ItemFree | ItemForeign | ItemAvailable

  function ResolveAvailability(status: ProductStatus, course: Option<CourseAccess.Course>, owned: bool): Availability {
    if owned then ItemOwned
    else if status != ActiveProduct || course.None? || !Sellable(course.value) then ItemUnavailable
    else if !Payable(course.value.price) then ItemFree
    else if course.value.currency != CURRENCY then ItemForeign
    else ItemAvailable
  }

  datatype Item = Item(lineId: nat, productId: nat, price: int, availability: Availability)

  function ProjectLine(s: Store, buyer: nat, now: int, line: CartLine): Item {
    var course := CourseOf(s, line);
    var owned := course.Some? && Owns(s, buyer, CourseIdOf(s, line).value, now);
    var status := if line.productId < |s.products| then s.products[line.productId].status else ArchivedProduct;
    Item(line.id, line.productId, if course.Some? && course.value.price.Some? then course.value.price.value else 0,
         ResolveAvailability(status, course, owned))
  }

  function ProjectLines(s: Store, buyer: nat, now: int, lines: seq<CartLine>): (r: seq<Item>)
    ensures |r| == |lines|
  {
    if lines == [] then [] else [ProjectLine(s, buyer, now, lines[0])] + ProjectLines(s, buyer, now, lines[1..])
  }

  function AvailableTotal(items: seq<Item>): int {
    if items == [] then 0
    else (if items[0].availability == ItemAvailable then items[0].price else 0) + AvailableTotal(items[1..])
  }

  datatype CartView = CartView(items: seq<Item>, subtotal: int, canCheckout: bool)

  function ProjectCart(s: Store, buyer: nat, now: int): CartView {
    var k := ActiveCart(s.carts, buyer);
    if k.None? then CartView([], 0, false)
    else
      var items := ProjectLines(s, buyer, now, s.carts[k.value].lines);
      CartView(items, AvailableTotal(items), items != [] && forall i <- items :: i.availability == ItemAvailable)
  }

  // ----- Ordering: the request

  predicate KeyCharacter(c: char) {
    'A' <= c <= 'Z' || 'a' <= c <= 'z' || '0' <= c <= '9' || c in "._:-"
  }

  predicate ValidKey(key: string) {
    8 <= |key| <= 128 && forall c <- key :: KeyCharacter(c)
  }

  predicate AtMost(a: nat, b: nat) { a <= b }

  predicate ByCourse(a: Application, b: Application) { a.courseId <= b.courseId }

  predicate DistinctIds(ids: seq<nat>) {
    forall i, j :: 0 <= i < j < |ids| ==> ids[i] != ids[j]
  }

  predicate DistinctTargets(applications: seq<Application>) {
    forall i, j :: 0 <= i < j < |applications| ==> applications[i].courseId != applications[j].courseId
  }

  /** `normalizeCourseIds` and `normalizeApplications`; voucher codes are already trimmed and upper-cased. */
  function Normalize(courses: Option<seq<nat>>, applications: seq<Application>): Result<Request, Error> {
    if courses.Some? && (courses.value == [] || |courses.value| > MAX_SELECTION) then Failure(InvalidSelection)
    else if courses.Some? && !DistinctIds(courses.value) then Failure(DuplicateTarget)
    else if !DistinctTargets(applications) then Failure(DuplicatePromotion)
    else Success(Request(if courses.Some? then Some(Sort(courses.value, AtMost)) else None, Sort(applications, ByCourse)))
  }

  // ----- Ordering: prices

  datatype Voucher = Voucher(id: nat, sourceVersion: string, discount: int)

  /** What voucher evaluation answers for a course, a code and a price; nothing if it refuses the code. */
  type Evaluator = (nat, string, int) -> Option<Voucher>

  datatype PricedLine = PricedLine(
    productId: nat, courseId: nat, seller: nat, title: string, listPrice: int, discount: int, finalPrice: int, voucher: Option<Voucher>)

  /** The code applied to a course; a blank code is no code. */
  function CodeFor(applications: seq<Application>, courseId: nat): Option<string> {
    if applications == [] then None
    else if applications[|applications| - 1].courseId == courseId then
      (if applications[|applications| - 1].code == "" then None else Some(applications[|applications| - 1].code))
    else CodeFor(applications[..|applications| - 1], courseId)
  }

  function PriceLine(s: Store, currency: string, line: CartLine, applications: seq<Application>, evaluate: Evaluator): Result<PricedLine, Error> {
    var course := CourseOf(s, line);
    if line.productId >= |s.products| || s.products[line.productId].status != ActiveProduct || course.None? || !Sellable(course.value) then Failure(StaleCart)
    else if !Payable(course.value.price) then Failure(StaleCart)
    else if course.value.currency != CURRENCY || currency != CURRENCY then Failure(UnsupportedCurrency)
    else
      var courseId, price := CourseIdOf(s, line).value, course.value.price.value;
      var code := CodeFor(applications, courseId);
      var voucher := if code.Some? then evaluate(courseId, code.value, price) else None;
      if code.Some? && voucher.None? then Failure(VoucherRejected)
      else
        var discount := if voucher.Some? then voucher.value.discount else 0;
        Success(PricedLine(line.productId, courseId, s.products[line.productId].seller, course.value.title, price, discount, price - discount, voucher))
  }

  function PriceLines(s: Store, currency: string, lines: seq<CartLine>, applications: seq<Application>, evaluate: Evaluator): Result<seq<PricedLine>, Error> {
    if lines == [] then Success([])
    else
      var n := |lines| - 1;
      var before := PriceLines(s, currency, lines[..n], applications, evaluate);
      if before.Failure? then before
      else
        var last := PriceLine(s, currency, lines[n], applications, evaluate);
        if last.Failure? then Failure(last.error) else Success(before.value + [last.value])
  }

  function ListTotal(lines: seq<PricedLine>): int {
    if lines == [] then 0 else ListTotal(lines[..|lines| - 1]) + lines[|lines| - 1].listPrice
  }

  function DiscountTotal(lines: seq<PricedLine>): int {
    if lines == [] then 0 else DiscountTotal(lines[..|lines| - 1]) + lines[|lines| - 1].discount
  }

  // ----- Ordering: the rows written

  function OrderLinesOf(lines: seq<PricedLine>): (r: seq<OrderLine>)
    ensures |r| == |lines|
    ensures forall i :: 0 <= i < |r| ==> r[i] == OrderLine(lines[i].productId, lines[i].courseId, lines[i].seller, lines[i].title,
                                                           lines[i].listPrice, lines[i].discount, lines[i].finalPrice)
  {
    seq(|lines|, i requires 0 <= i < |lines| =>
      OrderLine(lines[i].productId, lines[i].courseId, lines[i].seller, lines[i].title, lines[i].listPrice, lines[i].discount, lines[i].finalPrice))
  }

  function BenefitsOf(order: nat, lines: seq<PricedLine>): seq<Benefit> {
    if lines == [] then []
    else
      var n := |lines| - 1;
      BenefitsOf(order, lines[..n])
      + if lines[n].voucher.Some? then [Benefit(LineRef(order, n), lines[n].voucher.value.id, lines[n].voucher.value.sourceVersion, lines[n].discount)] else []
  }

  function ReservationsOf(order: nat, buyer: nat, lines: seq<PricedLine>, consumed: bool): seq<Reservation> {
    if lines == [] then []
    else
      var n := |lines| - 1;
      ReservationsOf(order, buyer, lines[..n], consumed)
      + if lines[n].voucher.Some? then [Reservation(LineRef(order, n), buyer, lines[n].voucher.value.id, consumed)] else []
  }

  function HasVoucher(): PricedLine -> bool { (l: PricedLine) => l.voucher.Some? }

  /** One redemption for each line bought with a voucher. */
  function RedemptionsOf(buyer: nat, used: seq<PricedLine>): (r: seq<Redemption>)
    ensures |r| == |used|
    ensures forall i :: 0 <= i < |r| ==> r[i] == RedemptionOf(buyer, used[i])
  {
    if used == [] then [] else RedemptionsOf(buyer, used[..|used| - 1]) + [RedemptionOf(buyer, used[|used| - 1])]
  }

  function RedemptionOf(buyer: nat, l: PricedLine): Redemption {
    Redemption(if l.voucher.Some? then l.voucher.value.id else 0, buyer, l.courseId, l.listPrice, l.discount, l.finalPrice)
  }

  function CountOf(redeemed: map<nat, nat>, voucherId: nat): nat {
    if voucherId in redeemed then redeemed[voucherId] else 0
  }

  /** The redemption counters, each raised by one for each line bought with its voucher. */
  function Redeem(redeemed: map<nat, nat>, used: seq<PricedLine>): map<nat, nat> {
    if used == [] then redeemed
    else
      var n := |used| - 1;
      var before := Redeem(redeemed, used[..n]);
      if used[n].voucher.Some? then before[used[n].voucher.value.id := CountOf(before, used[n].voucher.value.id) + 1] else before
  }

  /** The retained lines, created anew in the next cart. */
  function Renumbered(lines: seq<CartLine>, first: nat): (r: seq<CartLine>)
    ensures |r| == |lines|
    ensures forall i :: 0 <= i < |r| ==> r[i] == CartLine(first + i, lines[i].productId, lines[i].quantity)
  {
    seq(|lines|, i requires 0 <= i < |lines| => CartLine(first + i, lines[i].productId, lines[i].quantity))
  }

  // ----- Ordering: the transaction

  function SelectedBy(s: Store, courses: Option<seq<nat>>): CartLine -> bool {
    (l: CartLine) => CourseIdOf(s, l).Some? && (courses.None? || CourseIdOf(s, l).value in courses.value)
  }

  function NotAmong(selected: seq<CartLine>): CartLine -> bool {
    (l: CartLine) => forall x <- selected :: x.id != l.id
  }

  predicate InCart(s: Store, lines: seq<CartLine>, courseId: nat) {
    exists l <- lines :: CourseIdOf(s, l) == Some(courseId)
  }

  /** What stands in the way of checking out these lines, before they are priced. */
  function CheckoutError(s: Store, buyer: nat, cart: Cart, request: Request, now: int): Option<Error> {
    var selected := Select(cart.lines, SelectedBy(s, request.courses));
    if cart.lines == [] then Some(EmptyCart)
    else if request.courses.Some? && exists c <- request.courses.value :: !InCart(s, cart.lines, c) then Some(TargetNotInCart)
    else if selected == [] then Some(EmptySelection)
    else if exists l <- selected :: CourseIdOf(s, l).Some? && Owns(s, buyer, CourseIdOf(s, l).value, now) then Some(AlreadyOwned)
    else if exists a <- request.applications :: !InCart(s, selected, a.courseId) then Some(VoucherTargetNotSelected)
    else None
  }

  function Place(s: Store, buyer: nat, key: string, request: Request, cart: nat, selected: seq<CartLine>, priced: seq<PricedLine>): Store
    requires cart < |s.carts|
  {
    var order := |s.orders|;
    var subtotal, discount := ListTotal(priced), DiscountTotal(priced);
    var free := subtotal - discount == 0;
    var used := Select(priced, HasVoucher());
    var kept := Select(s.carts[cart].lines, NotAmong(selected));
    var converted := s.carts[cart := s.carts[cart].(active := false, lines := Select(s.carts[cart].lines, AmongIds(selected)))];
    s.(carts := if kept == [] then converted else converted + [Cart(buyer, true, s.carts[cart].currency, Renumbered(kept, s.nextLine))],
       nextLine := s.nextLine + |kept|,
       orders := s.orders + [Order(cart, buyer, subtotal, discount, subtotal - discount, free, OrderLinesOf(priced))],
       benefits := s.benefits + BenefitsOf(order, priced),
       reservations := s.reservations + ReservationsOf(order, buyer, priced, free),
       redemptions := s.redemptions + (if free then RedemptionsOf(buyer, used) else []),
       redeemed := if free then Redeem(s.redeemed, used) else s.redeemed,
       records := s.records[(buyer, key) := Record(request, true, order)])
  }

  function AmongIds(selected: seq<CartLine>): CartLine -> bool {
    (l: CartLine) => !NotAmong(selected)(l)
  }

  /** `createOrder`: the order's number in the table, or why there is none. */
  function CreateOrder(s: Store, buyer: nat, key: string, courses: Option<seq<nat>>, applications: seq<Application>,
                       evaluate: Evaluator, now: int): (Store, Result<nat, Error>) {
    var request := Normalize(courses, applications);
    if !ValidKey(key) then (s, Failure(InvalidKey))
    else if request.Failure? then (s, Failure(request.error))
    else if (buyer, key) in s.records then
      var existing := s.records[(buyer, key)];
      (s, if existing.request != request.value then Failure(KeyReused)
          else if !existing.completed then Failure(RequestInProgress)
          else Success(existing.order))
    else
      var k := ActiveCart(s.carts, buyer);
      if k.None? then (s, Failure(EmptyCart))
      else
        var cart := s.carts[k.value];
        var error := CheckoutError(s, buyer, cart, request.value, now);
        if error.Some? then (s, Failure(error.value))
        else
          var selected := Select(cart.lines, SelectedBy(s, request.value.courses));
          var priced := PriceLines(s, cart.currency, selected, request.value.applications, evaluate);
          if priced.Failure? then (s, Failure(priced.error))
          else (Place(s, buyer, key, request.value, k.value, selected, priced.value), Success(|s.orders|))
  }

  // ----- Runs

  datatype Op =
    | AddCourseOp(buyer: nat, courseId: nat, now: int)
    | RemoveCourseOp(buyer: nat, courseId: nat)
    | ClearCartOp(buyer: nat)
    | CreateOrderOp(buyer: nat, key: string, courses: Option<seq<nat>>, applications: seq<Application>, evaluate: Evaluator, now: int)
    | AccessOp(access: CourseAccess.Store)
    | ProductOp(productId: nat, status: ProductStatus)

  function Step(s: Store, op: Op): Store {
    match op
    case AddCourseOp(buyer, courseId, now) => AddCourse(s, buyer, courseId, now).0
    case RemoveCourseOp(buyer, courseId) => RemoveCourse(s, buyer, courseId)
    case ClearCartOp(buyer) => ClearCart(s, buyer)
    case CreateOrderOp(buyer, key, courses, applications, evaluate, now) => CreateOrder(s, buyer, key, courses, applications, evaluate, now).0
    case AccessOp(access) => s.(access := access)
    case ProductOp(productId, status) =>
      if productId < |s.products| then s.(products := s.products[productId := s.products[productId].(status := status)]) else s
  }

  function Run(s: Store, ops: seq<Op>): Store
    decreases |ops|
  {
    if ops == [] then s else Run(Step(s, ops[0]), ops[1..])
  }

  function Empty(access: CourseAccess.Store): Store {
    Store(access, [], [], 0, [], [], [], [], map[], map[])
  }
}
