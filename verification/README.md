# Formal model of the learning platform's backend core

This project models the parts of the backend whose correctness rests on state that builds up over many requests, or on
arithmetic, and proves what they promise. `dafny verify dfyconfig.toml` checks all of it.

- **Metered entitlements** (`UsageWindows`, `Entitlements`, `EntitlementLaws`, `EntitlementViews`,
  `EntitlementOutcomes`): grants with validity windows and a monthly reset, quota shared through pools, an append-only
  usage log, idempotency by key.
- **Cart to order** (`Commerce`, `CommerceService`, `CommerceCarts`, `CommerceCheckout`, `CommerceOrders`,
  `CommercePromotions`, `CommerceReplays`, `CommerceOutcomes`, `OrderOutcomes`): dividing a cart, pricing, vouchers,
  zero-payable orders, replays, and the agreement between the cart shown and the order accepted.
- **Memberships** (`Calendar`, `MembershipTerms`, `MembershipCheckout`, `MembershipCheckoutLaws`,
  `MembershipOutcomes`, `MembershipFulfilment`, `FulfilmentLaws`, `FulfilmentOutcomes`, `MembershipContinuity`,
  `ContinuityLaws`, `GraceContinuity`, `CourseAccess`): calendar-month arithmetic after section 21.4.1 of ECMA-262,
  prices, checkouts, fulfilment of paid terms, grace for courses left out, and the one-row access lookup.
- **Learning** (`LearningPath`, `CourseProgress`, `LearningOutcomes`, `VideoProgress`, `CourseCompletion`): the gated
  path, two counts of the same progress, video progress, and the life of completions and certificates.
- **Mentor bookings** (`MentorBookings`, `MentorCalendars`, `MentorOutcomes`): the two-party protocol and the
  calendars it leads to.
- **Loops** (`TextChunker`, `RateLimit`, `RubricScoring`), over `Sorting` and `Wrappers`.

Tables are sequences and maps in a `Store`. Each transaction is specified by a pure function on the store, and a
method of a class does the same step by step on fields and is proved equal to it; what the services promise is then
proved of the functions, over arbitrary runs of operations (`Op`, `Step`, `Run`). The modules named `...Outcomes`, and
the lemmas named `...Told`, say of each operation when exactly it succeeds and what it writes, on the fields of rows
and requests and not through the functions that the operation is made of. Time is an integer number of milliseconds,
money an integer, hashes are injective: a request stands for its hash. Clock readings, fresh row ids, the local time
of an instant and the answers of services not modelled are parameters.

## Where the code differs from what one might expect

- `addCalendarMonths` is not monotone: 30 January 23:00 plus a month is 28 February 23:00, but the later 31 January
  01:00 gives 28 February 01:00. `AddMonthsMonotoneIff` says exactly when the order is kept.
- `Date.UTC` reads years 0 to 99 as 1900 to 1999, which puts instants of those years outside their usage window
  (`OwnWindow`) and makes February of year 0 end on the 28th (`ClampExact`).
- A blank code passed to `resolve` or `consume` drops the filter on codes (`ListAgreesWithResolve`).
- The rate limiter reads the clock twice, so a request that straddles the end of a window can restart a counter
  (`StraddlingReadAdmitsMore`). `AdmitsExactlyIff` says, for each limit, exactly when a window admits what it should.
- A video duration reported later takes completion away when it is 0 or too long for the time watched
  (`CompletedAfterIff`, with an instance in `LongerDurationLosesCompletion`).
- A membership checkout looks only at terms already started. A second renewal, paid before the first one's term has
  started, is sold the same term again and refused at fulfilment (`RenewalBehindSchedule`, `SecondRenewalRefused`), and
  an upgrade is sold from now on, over the term it replaces, so that it is refused until that term is cancelled
  (`UpgradeNeedsCancellation`). `OfferFitsIff` says exactly which offers can be fulfilled as things stand.
- `activateGraceGrants` has no caller outside its own specs. Grace is granted by the fulfilment of the order
  (src/modules/payments/commerce-fulfillment.service.ts:566-577), under a source id of its own; `GaplessContinuity` is
  about the former, `StartedCourseStaysOpen` about the latter.
- A student who is the mentor can propose a booking to themselves, but no one can accept it (`BothPartiesAgreed`).
- Evaluating a completed course again after its certificate was revoked issues a new one
  (`ReissuedAfterRevocation`), and a missing certificate template keeps the enrollment from completing at all
  (`CompletesIff`).

## Model

| member | source | states |
|---|---|---|
| `UsageWindows.OwnWindow` | src/modules/memberships/service-entitlement.rules.ts:25-40 | An instant inside a grant lies in its own usage window exactly when the grant does not reset monthly or the instant is outside years 0 to 99, which `Date.UTC` reads as 1900 to 1999 |
| `UsageWindows.MonthlyWindowsTile` | src/modules/memberships/service-entitlement.rules.ts:25-40 | The monthly windows of two instants of a grant stay inside the grant, are disjoint unless equal, and are equal exactly when the instants are read as the same UTC month |
| `Entitlements.EntitlementService.ConsumeQuota` | src/modules/memberships/service-entitlement.service.ts:92-143 | The scan over active grants, step by step, leaves the tables and gives the answer of the specification `Consume`: replay by key, refusal for a reused key, charge to the first grant that can pay, or refusal with nothing written |
| `Entitlements.EntitlementService.ListForUser` | src/modules/memberships/service-entitlement.service.ts:39-48 | The map filled in a loop lists, for the active grants in expiry order, one decision per code, an allowed one replacing a refused one |
| `Entitlements.EntitlementService.ProvisionFromPlanVersion` | src/modules/memberships/service-entitlement.service.ts:58-90 | Grants are inserted from the rows of a plan version, duplicates skipped, after the source and window have been checked |
| `Entitlements.EntitlementService.EnsureReceiptQuotaPool` | src/modules/memberships/receipt-quota-pool.ts:17-32 | The pool is inserted when absent and refused when the stored one differs in quota or window facts |
| `Entitlements.EntitlementService.GrantFromPool` | src/modules/memberships/receipt-quota-pool.ts:17-32 | A grant drawn on a pool gets the facts the pool was stored with |
| `EntitlementLaws.PoolMembersAgree` | src/modules/memberships/receipt-quota-pool.ts:17-32 | Two grants of one pool have the same facts, window, user and code, and are charged against the same usage |
| `EntitlementLaws.ConsumeKeepsValid` | src/modules/memberships/service-entitlement.service.ts:92-143 | Any consumption, accepted or not, keeps the quota, the remaining amounts and the rest of the invariant |
| `EntitlementLaws.StepKeepsValid` | src/modules/memberships/service-entitlement.service.ts:58-143 | Provisioning, pooled grants, consumption and revocation each keep the invariant |
| `EntitlementLaws.RunKeepsValid` | src/modules/memberships/service-entitlement.service.ts:58-143 | The invariant holds after every run |
| `EntitlementLaws.QuotaNeverExceeded` | src/modules/memberships/service-entitlement.service.ts:119-134 | After every run from empty tables, for every metered grant and every window, the usage charged to the grant, and to its whole pool with revoked grants included, is at most the quota |
| `EntitlementViews.ChargeableMeaning` | src/modules/memberships/service-entitlement.service.ts:186-205 | What it means that a grant can be charged: a flag that is on, an unlimited grant, or a metered one whose used amount in the current window plus the quantity is within the quota |
| `EntitlementOutcomes.ActiveGrantsInOrder` | src/modules/memberships/service-entitlement.service.ts:161-184 | The grants considered are exactly the active rows of the user that have started and not ended, of the code asked for, early-access rows only when pooled and let through; the end never falls along the list, rows without an end come last, and rows that end together go by creation and then by id |
| `EntitlementOutcomes.UsedIsSpent` | src/modules/memberships/service-entitlement.service.ts:195-202 | The amount used is the sum of the quantities recorded in the window for the grant itself or for any grant of its pool |
| `EntitlementOutcomes.ConsumeSucceedsIff` | src/modules/memberships/service-entitlement.service.ts:92-143 | A consumption succeeds exactly for a quantity from 1 to the largest 64-bit integer and a key of 8 to 128 of the characters allowed which either is on record with the same request, or is new while an open grant can bear the quantity; each refusal has its exact cause and writes nothing |
| `EntitlementOutcomes.ConsumeRecorded` | src/modules/memberships/service-entitlement.service.ts:105-117 | Under a key on record the answer repeats the quantity, the remainder and the window recorded, and nothing is written |
| `EntitlementOutcomes.ConsumeWrites` | src/modules/memberships/service-entitlement.service.ts:119-142 | Under a new key one row is added: for a grant that can bear the quantity and ends no later than any other that can, earlier created and smaller id first where they end together; with the request, the instant, the period of the grant, and what was left less the quantity, all of which the answer repeats |
| `EntitlementOutcomes.ResolveShows` | src/modules/memberships/service-entitlement.service.ts:50-56 | The single view is denied exactly when no open row has the code; otherwise it speaks of the first to end of the rows that can bear one unit, or else of all open rows, and gives its allowance, what is left of it and its period |
| `EntitlementOutcomes.ListedInOrder` | src/modules/memberships/service-entitlement.service.ts:39-48 | The list has each code of the active grants once, in the order in which the codes first come up |
| `EntitlementViews.ResolveIffConsumeOne` | src/modules/memberships/service-entitlement.service.ts:50-56 | `resolve` answers allowed exactly when consuming one unit under a new key would succeed |
| `EntitlementViews.ListAgreesWithResolve` | src/modules/memberships/service-entitlement.service.ts:39-56 | The listed entry of a code is the answer of `resolve` for it exactly when the code is not blank or the user has no active grant; a blank code drops the filter on codes |
| `EntitlementViews.ConsumeRecords` | src/modules/memberships/service-entitlement.service.ts:119-134 | A successful consumption leaves a usage row with its request and its answer under its key |
| `EntitlementViews.ReplayIsInert` | src/modules/memberships/service-entitlement.service.ts:105-117 | Whatever happens after a successful consumption, the same request under its key returns the original answer, marked as repeated, and writes nothing, and another request under that key is refused and writes nothing |
| `EntitlementViews.ReplaysAnywhere` | src/modules/memberships/service-entitlement.service.ts:105-117 | Replays inserted anywhere after a successful consumption leave the final state of the run unchanged |
| `EntitlementViews.LifetimeUse` | src/modules/memberships/service-entitlement.service.ts:186-205 | Over every run the total use of a monthly grant, its pool included, is at most its quota times the number of UTC months from its start to its last use, which is no later than its end when it has one |
| `EntitlementViews.ProvisionOnce` | src/modules/memberships/service-entitlement.service.ts:58-90 | Provisioning a plan version keeps every grant, adds only grants of its rows, leaves no row unprovided, and done again adds nothing |
| `EntitlementOutcomes.ProvisionWrites` | src/modules/memberships/service-entitlement.service.ts:58-90 | Provisioning succeeds exactly for a well-formed source type, source id and term and for rows whose facts fit their kind; grants that are there stay, each new one has the id, code and facts of a row and the user, source, term and time of the call, is active and unpooled, and for every row there is a grant with one of its keys |
| `EntitlementOutcomes.KeysStayUnique` | src/modules/memberships/service-entitlement.service.ts:58-90 | In every reachable table no two grants share an id, or a user, code, source type and source id |
| `EntitlementOutcomes.PooledWrites` | src/modules/memberships/receipt-quota-pool.ts:17-32 | A pooled grant is added exactly when source and facts are sound, the keys are free, and the pool of the line and code either is there with the same facts, user and term or is new under a free id; the grant names a pool with those facts |
| `CommerceService.CommerceServices.EnsureActiveCourseProduct` | src/modules/commerce/commerce.service.ts:196-226 | The product row is found or created in draft, refused when archived, and taken out of draft |
| `CommerceService.CommerceServices.AddCourseToCart` | src/modules/commerce/commerce.service.ts:67-114 | Adding a course leaves products, cart and line numbers as the specification `AddCourse` says, refusals in the order of the checks |
| `CommerceService.CommerceServices.RemoveCourseFromCart` | src/modules/commerce/commerce.service.ts:116-141 | The first line of the active cart for the course is taken out and nothing else changes |
| `CommerceService.CommerceServices.ClearActiveCart` | src/modules/commerce/commerce.service.ts:143-160 | The active cart loses all its lines and nothing else changes |
| `CommerceService.CommerceServices.PriceCartLines` | src/modules/commerce/commerce-order.service.ts:364-428 | The pricing loop prices every line in order or stops with the error of the first line that cannot be priced |
| `CommerceService.CommerceServices.WriteOrderLines` | src/modules/commerce/commerce-order.service.ts:237-293 | The loop over priced lines writes the order lines, with one reservation and one benefit for each line with a voucher, and sums the amounts |
| `CommerceService.CommerceServices.ConvertCart` | src/modules/commerce/commerce-order.service.ts:297-320 | The ordered lines stay in the converted cart; the others are created anew in a new active cart, if there are any |
| `CommerceService.CommerceServices.ConfirmZeroPayableOrder` | src/modules/commerce/commerce-order.service.ts:430-515 | The order is confirmed, each new reservation consumed, one redemption recorded and one counter raised for each voucher line, earlier rows untouched |
| `CommerceService.CommerceServices.CreateOrderTransaction` | src/modules/commerce/commerce-order.service.ts:80-362 | The whole transaction, step by step, gives the tables and the answer of the specification `CreateOrder`; a refusal writes nothing |
| `CommerceCarts.RunKeepsCarts` | src/modules/commerce/commerce.service.ts:67-160 | After any run each buyer has at most one active cart, every cart is in VND, and its lines are distinct, of quantity 1 and of products of courses, each course having one product |
| `CommerceCarts.NoCourseTwice` | src/modules/commerce/commerce.service.ts:87-97 | After any run from empty tables no two lines of a cart are for the same course |
| `CommerceCarts.RemovesTheCourse` | src/modules/commerce/commerce.service.ts:116-124 | Deleting the one line found removes every line for the course |
| `CommerceCheckout.PricedIff` | src/modules/commerce/commerce-order.service.ts:364-428 | Pricing succeeds exactly when it succeeds on every line |
| `CommerceCheckout.AddedOnce` | src/modules/commerce/commerce.service.ts:67-114 | Adding a course appends one line of quantity 1 for it to the active cart, or leaves the lines as they are when the course is there |
| `CommerceOutcomes.AddSucceedsIff` | src/modules/commerce/commerce.service.ts:67-114 | Adding succeeds exactly for a published, public course in good standing that is not deleted, priced from 1 to the largest safe integer, in VND, not opened to the buyer by any grant, and whose product is not archived; each refusal has its exact cause and writes nothing |
| `CommerceOutcomes.AddWrites` | src/modules/commerce/commerce.service.ts:67-114 | Afterwards the course has its one product on sale, sold by the instructor where it is new, and a line in an active cart of the buyer in VND; no other product or cart changes |
| `CommerceCheckout.RemovedExactly` | src/modules/commerce/commerce.service.ts:116-141 | Removing a course takes exactly the lines for it out of the active cart |
| `CommerceCheckout.RemoveUndoesAdd` | src/modules/commerce/commerce.service.ts:67-141 | Removing a course that was just added restores the lines of the cart |
| `CommerceCheckout.CheckoutConservesCart` | src/modules/commerce/commerce-order.service.ts:161-181 | A new order takes lines out of the active cart without losing or doubling any: the old lines are the ordered ones and those of the next active cart together; other carts and earlier orders are untouched |
| `CommerceCheckout.OrdersWhatWasNamed` | src/modules/commerce/commerce-order.service.ts:161-181 | When courses are named, the courses ordered are exactly those |
| `OrderOutcomes.OrderAcceptedIff` | src/modules/commerce/commerce-order.service.ts:80-362 | An order is accepted exactly for a usable key, 1 to 20 different courses if any are named and one code at most for a course, which either are on record as a completed request or are new while the active cart has every course named and some line asked for, every code is for a course asked for, none of these is held, all are for sale in VND, and every code is accepted for the price |
| `OrderOutcomes.OrderTakesWanted` | src/modules/commerce/commerce-order.service.ts:161-181 | The order has the products of the lines asked for and no others; when no courses are named it has all lines in order and leaves the active cart empty |
| `OrderOutcomes.OrderPrices` | src/modules/commerce/commerce-order.service.ts:364-428 | Each line of a new order has the seller, title and price of the catalogue; where the request applies a code that is not blank to its course, the evaluation of that code for that price accepted it, the discount is what it answered, the final price the difference, and benefit, reservation and, once confirmed, redemption name its voucher; every other line costs the list price and has no such rows |
| `CommerceCheckout.LineAgrees` | src/modules/commerce/commerce.service.ts:301-326 | A line is shown as available exactly when it is not owned and the order pricing accepts it, and then at the price shown |
| `CommerceOutcomes.LineShown` | src/modules/commerce/commerce.service.ts:301-326 | A line is shown as owned exactly when a grant opens its course to the buyer; else as unavailable, free or foreign exactly when product or course is not on sale, has no price or is not in VND; else as available at the price of the course |
| `CommerceOutcomes.CartShown` | src/modules/commerce/commerce.service.ts:247-299 | The subtotal shown is the sum of the prices of the lines that can be bought, and the cart is ready exactly when it has lines and all of them can be bought |
| `CommerceCheckout.CanCheckoutIffOrderAccepted` | src/modules/commerce/commerce.service.ts:247-299 | At any one moment the cart is shown as ready to check out exactly when ordering all of it under a new key without vouchers is accepted |
| `CommerceCheckout.OrderCostsWhatWasShown` | src/modules/commerce/commerce-order.service.ts:212-236 | The order placed for a cart shown as ready has the subtotal and payable amount that the cart showed |
| `CommerceOrders.PlacedAmounts` | src/modules/commerce/commerce-order.service.ts:212-236 | A placed order is the sum of its lines: subtotal, discount between 0 and subtotal, payable the difference and the sum of final prices, confirmed exactly when nothing is payable |
| `CommerceOrders.PlaceKeepsLinks` | src/modules/commerce/commerce-order.service.ts:297-320 | Orders and converted carts stay in one-to-one correspondence, line for line |
| `CommerceOrders.RunKeepsTables` | src/modules/commerce/commerce-order.service.ts:114-362 | After any run amounts are sound, orders and converted carts correspond, every idempotency record is completed and names an order of its buyer, and every order has exactly one record |
| `CommercePromotions.RedemptionsOfOrder` | src/modules/commerce/commerce-order.service.ts:484-514 | A confirmed order redeems each of its voucher lines once, an order awaiting payment none |
| `CommercePromotions.AddedOrderKeepsAllocations` | src/modules/commerce/commerce-order.service.ts:259-293 | The discounts allocated to the lines of each order sum to its discount |
| `CommercePromotions.RunKeepsVouchers` | src/modules/commerce/commerce-order.service.ts:237-293 | After any run benefits and reservations come in pairs, at most one pair for a line and one for each discounted line, the reservation consumed exactly when its order is confirmed; the redemptions are those of the consumed reservations; each counter is the number of its redemptions |
| `CommercePromotions.BenefitIffCode` | src/modules/commerce/commerce-order.service.ts:259-293 | From the placing of an order on, whatever happens, a line has a benefit and a reservation exactly when the request had a code for its course, worthless vouchers included |
| `CommercePromotions.ReachableStoresOk` | src/modules/commerce/commerce-order.service.ts:114-362 | All of this holds of every state reachable from empty tables |
| `CommerceReplays.SameRequestIff` | src/modules/commerce/commerce-order.service.ts:575-604 | Two accepted payloads are the same request exactly when their lists have the same members, in any order |
| `CommerceReplays.NormalizeIgnoresOrder` | src/modules/commerce/commerce-order.service.ts:575-604 | Reordering the lists of a payload changes neither its acceptance nor its canonical form |
| `CommerceReplays.ReplayIsInert` | src/modules/commerce/commerce-order.service.ts:517-535 | Whatever happens after an accepted order, the same payload in any list order under its key returns the same order and writes nothing; another payload under that key is refused |
| `CommerceReplays.ReplaysAnywhere` | src/modules/commerce/commerce-order.service.ts:123-132 | Replays inserted anywhere after an accepted order leave the final state of the run unchanged |
| `MembershipCheckout.MembershipCheckoutService.EnsureActiveMembershipProduct` | src/modules/commerce/commerce-product.service.ts:15-46 | The version's product is created in draft if absent, put on sale, or refused when archived |
| `MembershipCheckout.MembershipCheckoutService.CreateCheckout` | src/modules/memberships/membership-checkout.service.ts:153-256 | The transaction, step by step, gives the tables and the answer of the specification `Checkout`; a refusal writes nothing |
| `MembershipCheckoutLaws.CurrentIsLast` | src/modules/memberships/membership-checkout.service.ts:206-212 | The subscription looked up is started, active and expires no earlier than any other such subscription of the user, and is missing only when there is none |
| `MembershipCheckoutLaws.InEffectIff` | src/modules/memberships/membership-checkout.service.ts:206-213 | The membership counts as active exactly when some subscription covers the moment |
| `MembershipCheckoutLaws.TermsOffered` | src/modules/memberships/membership-checkout.service.ts:214-229 | When each action is chosen, and its term: it never starts before the payment, is never empty, and unless it is an upgrade starts only after every subscription already started has run out; subscriptions that start later are the matter of `OfferFitsIff` |
| `MembershipCheckoutLaws.AmountsOffered` | src/modules/memberships/membership-checkout.service.ts:238-241 | Payable is subtotal less a discount between 0 and the subtotal; a discounted duration costs the exact price rounded down |
| `MembershipCheckoutLaws.LatestIff` | src/modules/memberships/membership-checkout.service.ts:221-228 | With version numbers unique in a plan, a version passes as latest exactly when it is published and no published version of the plan is newer |
| `MembershipOutcomes.QuotedIff` | src/modules/memberships/membership-checkout.service.ts:196-241 | With ids and version numbers unique, an offer is made exactly for a published version of an active plan within its sales period, none newer being published, for one of its durations of at least a month with either a fixed price or a discount from 0 to 100, and with the change named where a membership of another plan is in effect |
| `MembershipOutcomes.CheckoutAcceptedIff` | src/modules/memberships/membership-checkout.service.ts:153-256 | A checkout is accepted exactly for a key of 8 to 128 printable characters and confirmed benefits which either are on record as a completed request or are new while no order of the user waits for payment, an offer is made and the product is not archived; a refusal writes nothing |
| `MembershipOutcomes.CheckoutWrites` | src/modules/memberships/membership-checkout.service.ts:214-247 | A new checkout adds one pending order and its intent and puts the product on sale: the action follows from the started subscription that expires last, the term begins at its end for a renewal or downgrade while it is in effect and now otherwise, lasts the months of the duration, and the amounts are those of the duration |
| `MembershipCheckoutLaws.RunKeepsValid` | src/modules/memberships/membership-checkout.service.ts:165-256 | After any run, payments and catalogue changes included, every order is sound, has its intent with a proper term and its one completed record, and each user has at most one pending checkout |
| `MembershipCheckoutLaws.AtMostOnePending` | src/modules/memberships/membership-checkout.service.ts:183-195 | Two pending intents never belong to one user |
| `MembershipCheckoutLaws.CheckoutRecordsRemovals` | src/modules/memberships/membership-checkout.service.ts:230-250 | An accepted checkout records under its own intent every started course with days of grace that the new version leaves out, with a grace starting when the current term ends |
| `MembershipCheckoutLaws.ReplayIsInert` | src/modules/memberships/membership-checkout.service.ts:170-177 | Whatever happens after an accepted checkout, its payment included, the same request under its key returns the same order and writes nothing; another request under that key is refused |
| `MembershipCheckoutLaws.ReplaysAnywhere` | src/modules/memberships/membership-checkout.service.ts:170-177 | Replays inserted anywhere after an accepted checkout leave the final state of the run unchanged |
| `MembershipFulfilment.MembershipFulfilmentService.FulfilConfirmedOrder` | src/modules/payments/commerce-fulfillment.service.ts:518-577 | Fulfilling a confirmed membership order, step by step, inserts its term unless it is there or another active term overlaps, then grants the included courses and the graces in turn, all or nothing, once |
| `FulfilmentLaws.RunKeepsOk` | src/modules/payments/commerce-fulfillment.service.ts:528-551 | After any run of checkouts, settlements, fulfilments, early access and cancellations, no two active terms of a user overlap, and each order has at most one term, the one its checkout recorded |
| `FulfilmentLaws.OfferFitsIff` | src/modules/memberships/membership-checkout.service.ts:206-229 | With the active terms disjoint, what a checkout offers fits among them exactly when it is no upgrade and ends before every term yet to start; the checkout itself looks only at terms already started |
| `FulfilmentLaws.RenewalBehindSchedule` | src/modules/payments/commerce-fulfillment.service.ts:532-541 | A renewal offered while one already bought is still to start begins together with it, and is refused |
| `FulfilmentLaws.SecondRenewalRefused` | src/modules/payments/commerce-fulfillment.service.ts:532-541 | An instance: one running term, its renewal bought, and a second renewal offered that overlaps the first |
| `FulfilmentLaws.UpgradeNeedsCancellation` | src/modules/payments/commerce-fulfillment.service.ts:532-551 | Whatever happens after an upgrade is checked out, its order is refused and unfulfilled for as long as the term it was to replace is active |
| `FulfilmentLaws.ContinuesLastIff` | src/modules/memberships/membership-checkout.service.ts:206-229 | A renewal continues the user's last term exactly when it is paid after that term has started |
| `FulfilmentLaws.RenewalsTile` | src/modules/memberships/membership-checkout.service.ts:206-229 | Renewals each paid after the term they continue has started are all accepted, each starting at the later of the previous end and its payment |
| `FulfilmentLaws.RenewalsEndNoLater` | src/modules/memberships/membership.rules.ts:38-73 | Renewals each paid within the term they continue end no later than one renewal for all the months would |
| `FulfilmentLaws.FulfilOpensCourses` | src/modules/payments/commerce-fulfillment.service.ts:554-565 | A first fulfilment gives the buyer, for every course of the version bought whose key is free, an active membership grant under the id of the order line, from the start to the end of the term, without grace |
| `FulfilmentOutcomes.FulfilOpensGraces` | src/modules/payments/commerce-fulfillment.service.ts:566-577 | It gives an active grace grant for every course recorded with a grace, from its start to its end, under the line id, a colon and the course id |
| `FulfilmentOutcomes.FulfilSucceedsIff` | src/modules/payments/commerce-fulfillment.service.ts:170-208 | Fulfilment succeeds exactly when the order exists and is fulfilled already, or is confirmed, has its term or overlaps no active term of the buyer, and its courses and graces can be granted; it is refused as unconfirmed exactly when it exists, is not fulfilled and not confirmed; a refusal or a repetition changes nothing |
| `FulfilmentOutcomes.FulfilWrites` | src/modules/payments/commerce-fulfillment.service.ts:518-577 | A first fulfilment is of a confirmed order, adds the active term of the intent unless the order has one, and otherwise only membership and grace grants of the order; no other table changes and no grant is taken away |
| `GraceContinuity.StartedCourseStaysOpen` | src/modules/payments/commerce-fulfillment.service.ts:566-577 | From checkout to fulfilment and after: a started course with days of grace that the new version leaves out stays open for learning at every instant from the start of the grant held to the end of the grace, whatever else runs that does not revoke it, and from then on neither grant opens it |
| `GraceContinuity.SomeStartedCourse` | src/modules/payments/commerce-fulfillment.service.ts:566-577 | Such a checkout, payment and fulfilment exist |
| `MembershipTerms.AddCalendarMonths` | src/modules/memberships/membership.rules.ts:38-51 | The method on a mutable date fails exactly for a bad start or duration, and otherwise gives the specified end, or an invalid date exactly when it leaves the range of `Date` on the way |
| `MembershipTerms.AddMonthsParts` | src/modules/memberships/membership.rules.ts:38-51 | The month index advances by exactly n, the time of day is kept, and the day is the smaller of the old one and the last day found for the target month |
| `MembershipTerms.ClampExact` | src/modules/memberships/membership.rules.ts:46-49 | The last day found is the real one exactly when the target is not February of year 0 with a day after the 28th |
| `MembershipTerms.AddMonthsMonotoneIff` | src/modules/memberships/membership.rules.ts:38-51 | A later start gives an end no earlier exactly when the two are not different days of one month both clamped to the target's last day, with the later day at an earlier time of day |
| `MembershipTerms.AddMonthsNotMonotone` | src/modules/memberships/membership.rules.ts:38-51 | Adding months is not monotone: 30 January 23:00 and 31 January 01:00 end in the opposite order |
| `MembershipTerms.AddMonthsSpan` | src/modules/memberships/membership.rules.ts:38-51 | The result lies between 28n and 31n days after the start |
| `MembershipTerms.AddMonthsCompose` | src/modules/memberships/membership.rules.ts:38-51 | Adding a and then b never ends later than adding a + b, with equality exactly when the month in between does not clamp below the final day, and always for days up to the 28th |
| `MembershipTerms.DiscountedPrice` | src/modules/memberships/membership.rules.ts:8-36 | A discounted price is the exact price rounded down, between 0 and the undiscounted price |
| `MembershipTerms.DiscountedPriceSplit` | src/modules/memberships/membership.rules.ts:30-35 | Splitting a duration in two never costs more and saves at most one unit |
| `MembershipTerms.DiscountedPriceMonotone` | src/modules/memberships/membership.rules.ts:30-35 | A longer duration or a smaller discount never costs less |
| `Calendar.YearStart` | src/modules/memberships/membership.rules.ts:38-51 | Counting days month by month agrees for every year with the closed form of section 21.4.1 of ECMA-262 |
| `CourseAccess.CourseAccessService.DecideAccess` | src/modules/access/course-access.service.ts:54-131 | The decision with its local flags gives the answer of the specification `Decide` |
| `CourseAccess.CourseAccessService.Ensure` | src/modules/access/course-access.service.ts:156-201 | Granting inserts the grant only when its key is new, and the enrollment and progress rows only when absent |
| `CourseAccess.CourseAccessService.Revoke` | src/modules/access/course-access.service.ts:203-219 | Revoking deactivates the one grant with the key and leaves every other row |
| `CourseAccess.LearningIff` | src/modules/access/course-access.service.ts:82-116 | Reading one grant row decides as reading them all: learning is allowed exactly when the user has the student role and a living account, the course is there, clear, and published or archived, and some active row of the user and course, not provisional, has started and has no end, or has not ended, or is within its grace |
| `CourseAccess.ContentIff` | src/modules/access/course-access.service.ts:139-147 | Content is open exactly to administrators and the owner, to public previews of a published course, and to those with such a grant; the answer is the manager's exactly for the first two |
| `CourseAccess.OnlyOpeningGrantsCount` | src/modules/access/course-access.service.ts:82-107 | A further grant that has not started, has run out with its grace, is revoked or provisional, or is of another user or course opens nothing |
| `CourseAccess.ManageAndPreviewIff` | src/modules/access/course-access.service.ts:54-131 | Managing is allowed exactly to administrators and the owner with a living account, a preview exactly for a preview resource of a published, public, clear course; the subject is missing exactly when the user given or the course is |
| `CourseAccess.EnsureGrantIdempotent` | src/modules/access/course-access.service.ts:156-201 | Granting twice is granting once, never touches rows that are there, keeps keys unique and leaves grant, enrollment and progress in place |
| `CourseAccess.EnsureTold` | src/modules/access/course-access.service.ts:156-201 | Granting succeeds exactly for a source id of 1 to 128 characters, an end after the start and a grace with an end that it reaches; it adds one active row with the dates given unless the key is taken, one enrollment and one progress row per lesson |
| `CourseAccess.RevokeTold` | src/modules/access/course-access.service.ts:203-219 | Revoking succeeds exactly for a reason that is not blank and has at most 120 characters; the row with the key becomes inactive and every other row stays |
| `MembershipContinuity.ActivateGraceGrants` | src/modules/memberships/membership-continuity.service.ts:115-134 | The loop grants every due snapshot in order of course, or, when one is refused, leaves everything as it was |
| `MembershipContinuity.EmergencyRevoke` | src/modules/memberships/membership-continuity.service.ts:157-209 | For a learner and a course that exist, exactly the learner's membership and grace grants for the course are deactivated, and the count is of those that were active; otherwise nothing changes |
| `ContinuityLaws.RemovedExactly` | src/modules/memberships/membership-continuity.service.ts:42-90 | The courses recorded as removed are exactly those of the current version that the target leaves out, with a grace exactly when started, with days of grace, in a running term |
| `ContinuityLaws.PersistRecords` | src/modules/memberships/membership-continuity.service.ts:92-113 | Each removed course ends up in one snapshot of the intent, and rows stay distinct when the ids drawn are new and distinct |
| `ContinuityLaws.GaplessContinuity` | src/modules/memberships/membership-continuity.service.ts:42-134 | After `activateGraceGrants` a started course with days of grace stays open for learning at every instant up to the end of the grace, whatever other operations run, and from then on neither the membership grant nor the grace grant opens it |
| `ContinuityLaws.SomeContinuity` | src/modules/memberships/membership-continuity.service.ts:42-134 | Such a change of version exists |
| `ContinuityLaws.EmergencyLeavesOtherSources` | src/modules/memberships/membership-continuity.service.ts:157-209 | After an emergency revocation learning is allowed exactly through open grants that are neither membership nor grace grants, and every row of another learner, course or source stays as it was |
| `ContinuityLaws.ActivationTold` | src/modules/memberships/membership-continuity.service.ts:115-134 | Activation succeeds exactly when every snapshot of the intent with a grace has a usable id and a grace that ends after it starts; then each such snapshot whose key is free has its active grant with those dates |
| `LearningPath.BuildLearningPathSteps` | src/modules/courses/learning-path.rules.ts:44-80 | The loop with its previous-step variable yields the steps of the specification `BuildSteps` |
| `LearningOutcomes.PathInOrder` | src/modules/courses/learning-path.rules.ts:47-53 | Every candidate becomes one step; positions never fall along the path, at one position lessons precede assignments and these quizzes, and among steps of one type and position ids never fall |
| `LearningOutcomes.StatusTold` | src/modules/courses/learning-path.rules.ts:58-69 | With distinct keys a step is completed exactly when its candidate is, locked exactly when it is not and some required open candidate has a smaller position, or the same and an earlier type, or both the same and a smaller id; otherwise it is in progress exactly when begun |
| `LearningOutcomes.ReasonTold` | src/modules/courses/learning-path.rules.ts:58-80 | The title quoted for a locked step is that of the required open candidate that lies ahead of all others |
| `LearningPath.LockedByFirst` | src/modules/courses/learning-path.rules.ts:58-74 | A locked step names the first blocking candidate |
| `LearningPath.PathIgnoresInputOrder` | src/modules/courses/learning-path.rules.ts:44-56 | With distinct keys the path does not depend on the order of the candidates |
| `LearningPath.CompletingNeverLocks` | src/modules/courses/learning-path.rules.ts:44-80 | Completing a step never locks another |
| `LearningPath.CurrentStepNoneIff` | src/modules/courses/learning-path.service.ts:362-377 | There is no current step exactly when every step is completed; otherwise it is an incomplete one |
| `LearningOutcomes.CurrentStepIs` | src/modules/courses/learning-path.service.ts:362-368 | The current step can be gone on with; it has been begun if any that can be gone on with has, and it lies ahead of all others like it |
| `LearningOutcomes.ProgressTold` | src/modules/courses/learning-path.rules.ts:82-98 | Progress counts the required candidates and the completed ones among them, gives the nearest percentage, halves up, and is complete exactly when there is a required candidate and all are completed |
| `LearningPath.FinishesInRounds` | src/modules/courses/learning-path.service.ts:362-377 | Completing the current step again and again finishes the path in at most as many rounds as it has incomplete steps |
| `CourseProgress.LessonPositions` | src/modules/courses/learning-path.service.ts:306-312 | The map built from the lessons gives each id the position of the last lesson with it, and the maximum is the greatest position |
| `CourseProgress.CollectCandidates` | src/modules/courses/learning-path.service.ts:306-360 | Pushing lessons, assignments and quizzes one by one, placed through the map, yields the candidates that the progress counts are compared on |
| `LearningOutcomes.CandidatesTold` | src/modules/courses/learning-path.service.ts:306-360 | With one row per lesson and per progress, the candidates are exactly those of the lessons of the course not deleted and of its published assignments and quizzes not deleted, each done and begun as the progress, submission and attempt rows say, a task placed with its lesson or right after the last one |
| `CourseProgress.NextAfter` | src/modules/courses/learning-path.service.ts:366-377 | The next step is the one after the first occurrence of the current step in the path |
| `CourseProgress.ProgressAgrees` | src/modules/courses/learning-path.service.ts:313-363 | On the same rows the learning path's completed and total steps and its completion equal the completion service's counts and policy |
| `VideoProgress.LearningProgress.UpdateLessonProgress` | src/modules/courses/learning-path.service.ts:134-210 | An update replaces the row with the values computed from the previous one |
| `VideoProgress.DurationTold` | src/modules/courses/learning-path.service.ts:438-446 | The duration is the one reported, rounded to the nearest second, or else the one on record, or else 60 seconds for each minute of the lesson, and never below 0 |
| `VideoProgress.VideoTold` | src/modules/courses/learning-path.service.ts:447-470 | The position asked for, brought into the range from 0 to the duration, is taken exactly when it lies at most 5 seconds past the furthest point; then the time watched is the greatest of the old one, the one reported and the position, up to the duration; otherwise both stay |
| `VideoProgress.PercentTold` | src/modules/courses/learning-path.service.ts:470-472 | The percentage is the time watched over the duration, rounded to the nearest, halves up, and at most 100; without a duration it stays |
| `VideoProgress.DocumentTold` | src/modules/courses/learning-path.service.ts:492-511 | A document keeps the greatest percentage reported, at most 100, and nothing else of its row changes |
| `VideoProgress.RunKeepsValid` | src/modules/courses/learning-path.service.ts:414-490 | Over every run the position never passes the furthest point watched, which never falls and rises at most 5 seconds an update; percentages stay in 0 to 100 |
| `VideoProgress.RunUnderFixedDuration` | src/modules/courses/learning-path.service.ts:414-490 | With a fixed positive duration neither time watched nor percentage falls |
| `VideoProgress.CompletionMark` | src/modules/courses/learning-path.service.ts:466-478 | Rounding half up puts completion at exactly 200 times the time watched reaching 179 times the duration |
| `VideoProgress.CompletionIsKept` | src/modules/courses/learning-path.service.ts:414-490 | With a fixed positive duration completion holds exactly from that mark and is never lost |
| `VideoProgress.CompletedAfterIff` | src/modules/courses/learning-path.service.ts:438-478 | From any row an update leaves the lesson completed exactly when the duration it leaves is positive and the time watched before, or the time it credibly claims, is 89.5 percent of it |
| `VideoProgress.CompletedInRunIff` | src/modules/courses/learning-path.service.ts:414-490 | Along a run the lesson is completed after each update exactly as that update decides |
| `VideoProgress.NeverLostIff` | src/modules/courses/learning-path.service.ts:414-490 | A completed lesson stays completed throughout a run exactly when every update says enough |
| `VideoProgress.LongerDurationLosesCompletion` | src/modules/courses/learning-path.service.ts:414-490 | A longer duration reported later takes completion away |
| `CourseCompletion.CompletionService.Evaluate` | src/modules/courses/course-completion.service.ts:37-150 | Lock, count, update and issue in sequence give the result of the specification `EvaluateAndSync`, all or nothing |
| `CourseCompletion.CompletionService.Issue` | src/modules/certificates/certificates.service.ts:163-183 | A certificate is issued for a completed course unless an active one is there |
| `CourseCompletion.CompletionService.IssueOnRequest` | src/modules/certificates/certificates.service.ts:119-161 | Issuing on request checks access, enrollment, completion and template in that order, and returns the active certificate if there is one |
| `CourseCompletion.CompletionService.Revoke` | src/modules/certificates/certificates.service.ts:185-215 | Revoking deactivates the one certificate, is refused when it is missing and changes nothing when it is already revoked |
| `CourseCompletion.RunKeepsValid` | src/modules/certificates/certificates.service.ts:119-215 | Over every run completed enrollments stay completed, revoked certificates stay revoked, each user has at most one active certificate per course, and only for a completed enrollment |
| `CourseCompletion.ReEvaluationIssuesNothing` | src/modules/courses/course-completion.service.ts:116-149 | Once completed, evaluating again changes and issues nothing, whatever happened in between, until that certificate is revoked |
| `CourseCompletion.IssuesAgainIff` | src/modules/courses/course-completion.service.ts:116-128 | Evaluating a completed enrollment, with course and template there, issues a certificate exactly when none is active |
| `CourseCompletion.ReissuedAfterRevocation` | src/modules/courses/course-completion.service.ts:116-128 | Once the certificate of a completion is revoked it stays revoked, and an evaluation issues another exactly when none has been issued meanwhile; straight after the revocation it does |
| `CourseCompletion.CompletesIff` | src/modules/courses/course-completion.service.ts:56-135 | An active enrollment becomes completed exactly when the learning path is completed and a certificate is held or can be issued |
| `CourseCompletion.EvaluateTold` | src/modules/courses/course-completion.service.ts:37-150 | An evaluation fails exactly without an enrollment, or when a certificate is due, none is held and course or template is missing, and then changes nothing; otherwise an active enrollment with every required item done, or a completed one, ends up completed with a certificate, added exactly when none was held, and every other stays |
| `CourseCompletion.IssueTold` | src/modules/certificates/certificates.service.ts:119-161 | A certificate is issued on request exactly with access, a completed enrollment and an existing template; one that is held is returned, otherwise one active certificate is added |
| `CourseCompletion.RevokeAndEnrollTold` | src/modules/certificates/certificates.service.ts:185-215 | Revoking succeeds exactly for a certificate that exists and makes only that one inactive; enrolling adds an active enrollment exactly where there is none |
| `MentorBookings.MentorBookingsService.CreateBooking` | src/modules/mentors/mentor-bookings.service.ts:22-30 | A proposal is stored when its time, mentor and availability pass, refused otherwise with nothing written |
| `MentorBookings.MentorBookingsService.AcceptBooking` | src/modules/mentors/mentor-bookings.service.ts:35-43 | The other party's proposal is accepted unless an accepted booking sharing mentor or student overlaps it |
| `MentorBookings.MentorBookingsService.RejectBooking` | src/modules/mentors/mentor-bookings.service.ts:45-74 | The other party's proposal is rejected, one's own is not |
| `MentorBookings.MentorBookingsService.CancelBooking` | src/modules/mentors/mentor-bookings.service.ts:49-55 | A proposal or accepted booking is cancelled by either party |
| `MentorBookings.MentorBookingsService.RescheduleBooking` | src/modules/mentors/mentor-bookings.service.ts:57-65 | An accepted booking goes back to a proposal at a new time, the old one kept in the history |
| `MentorBookings.MentorBookingsService.CompleteBooking` | src/modules/mentors/mentor-outcomes.service.ts:58-67 | An accepted booking is completed by its mentor after both have attended |
| `MentorCalendars.NoDoubleBooking` | src/modules/mentors/mentor-bookings.service.ts:82-85 | In every reachable state no two accepted bookings that share a mentor profile or a student overlap |
| `MentorCalendars.AcceptIff` | src/modules/mentors/mentor-bookings.service.ts:35-43 | A participant can accept exactly an open proposal of the other party that, accepted, leaves the calendars free of double bookings |
| `MentorCalendars.BothPartiesAgreed` | src/modules/mentors/mentor-bookings.service.ts:35-74 | Every accepted or completed booking was proposed by one party at its present time and accepted by the other, who is another person, and lasts 15 to 240 minutes |
| `MentorCalendars.RunOnlyAppends` | src/modules/mentors/mentor-bookings.service.ts:35-74 | Histories only grow, parties never change, and a rejected, cancelled or completed booking never changes again |
| `MentorCalendars.CompletedOnlyAttended` | src/modules/mentors/mentor-outcomes.service.ts:58-67 | Completion succeeds exactly for the mentor of an accepted booking after both, being two people, have joined and left |
| `MentorOutcomes.CreateTold` | src/modules/mentors/mentor-bookings.service.ts:22-30 | A booking is requested exactly for two readable instants, the first after now, 15 to 240 minutes apart, of a mentor who takes bookings, on one local day within one of the slots of that day; the row is a proposal of the student with its first history line |
| `MentorOutcomes.AcceptTold` | src/modules/mentors/mentor-bookings.service.ts:35-43 | A proposal is accepted exactly by the other party and while no other accepted booking of the profile or the student has an instant in common; only its status and one history line change |
| `MentorOutcomes.RejectTold` | src/modules/mentors/mentor-bookings.service.ts:45-74 | A proposal is rejected exactly by the other party; only its status and one history line change |
| `MentorOutcomes.CancelTold` | src/modules/mentors/mentor-bookings.service.ts:49-55 | Either party cancels exactly a booking not yet rejected, cancelled or completed; only its status and one history line change |
| `MentorOutcomes.RescheduleTold` | src/modules/mentors/mentor-bookings.service.ts:57-65 | Either party moves exactly an accepted booking, to a proper time within a slot; it becomes a proposal of that party, and the history keeps the time replaced |
| `MentorOutcomes.CompleteTold` | src/modules/mentors/mentor-outcomes.service.ts:58-67 | A session is completed exactly by its mentor, an instructor, when accepted and when student and mentor, two people, have both joined and left; only its status and one history line change |
| `MentorCalendars.CalendarBound` | src/modules/mentors/mentor-bookings.service.ts:82-92 | In every reachable state a mentor's accepted bookings inside a window of T minutes last at most T minutes together and number at most T / 15 |
| `TextChunker.SplitNormalized` | src/modules/ai/text-chunker.ts:19-22 | Collapsing white space, trimming and splitting yields exactly the maximal runs without white space |
| `TextChunker.WhiteSpaceIs` | src/modules/ai/text-chunker.ts:19-20 | White space is a fixed set of 25 code units, that of ECMA-262 |
| `TextChunker.SplitUndoesJoin` | src/modules/ai/text-chunker.ts:22-40 | Splitting a chunk at its spaces gives its words back |
| `TextChunker.TakeOverlap` | src/modules/ai/text-chunker.ts:42-52 | The loop from the end returns the longest suffix of the words that fits |
| `TextChunker.ChunkWords` | src/modules/ai/text-chunker.ts:22-40 | The loop produces a chain of word windows from the first word to the last: each fits unless one word is already too wide, could not take another word, and is followed by one starting with the longest fitting suffix |
| `TextChunker.ChunkText` | src/modules/ai/text-chunker.ts:9-40 | Bad limits are refused; otherwise the chunks spell such a chain over all the words of the text |
| `TextChunker.EndsIncrease` | src/modules/ai/text-chunker.ts:22-40 | Windows end strictly further and never start further back |
| `TextChunker.ChunkWidth` | src/modules/ai/text-chunker.ts:22-40 | No chunk is wider than the limit, or than the overlap, a space and the longest word |
| `TextChunker.ChunksReassemble` | src/modules/ai/text-chunker.ts:22-40 | Dropping the overlaps gives the word list back |
| `TextChunker.ChainUnique` | src/modules/ai/text-chunker.ts:9-52 | Only one chain of windows has the properties stated of `ChunkWords` |
| `TextChunker.ChunksDetermined` | src/modules/ai/text-chunker.ts:9-52 | So the words and the two limits determine the chunks |
| `RateLimit.AbuseRateLimitGuard.AssertLocalAllowed` | src/common/security/abuse-rate-limit.guard.ts:101-109 | The local counter is hit or restarted, and the request passes exactly while the count is within the limit |
| `RateLimit.AbuseRateLimitGuard.CanActivate` | src/common/security/abuse-rate-limit.guard.ts:36-80 | Policy override, identity, bucket key and counter decide the outcome; the one counter is raised by one while it lives, keeping its end, or else starts at one, to live for the window locally and a second longer in Redis; no other counter changes |
| `RateLimit.CountsExactIff` | src/common/security/abuse-rate-limit.guard.ts:101-109 | Every counter value is the number of requests so far exactly when no request finds the counter expired |
| `RateLimit.NeverExpiredIff` | src/common/security/abuse-rate-limit.guard.ts:101-109 | No request finds its counter expired exactly when all requests of the key are counted within one lifetime of the first |
| `RateLimit.AdmitsExactlyIff` | src/common/security/abuse-rate-limit.guard.ts:53-64 | For each limit a bucket never admits less than the smaller of limit and requests, and admits exactly that when and only when the limit is 0, the requests are within it, or all are counted within one lifetime of the first |
| `RateLimit.WindowAdmits` | src/common/security/abuse-rate-limit.guard.ts:53-64 | When counters are hit no later than their window ends, a bucket admits exactly the smaller of limit and requests |
| `RateLimit.StraddlingReadAdmitsMore` | src/common/security/abuse-rate-limit.guard.ts:53-109 | With the two clock readings on both sides of the end of a window, a limit of 1 admits 2 requests |
| `RateLimit.SlidingBound` | src/common/security/abuse-rate-limit.guard.ts:53-64 | For a policy and identity whose counters are hit on time, any half-open interval of k window lengths admits at most (k + 1) times the limit, whatever the others do |
| `RubricScoring.MatchesIff` | src/modules/assignments/assignments.service.ts:624-668 | Scores are accepted exactly when the criterion names are distinct, the score names are a permutation of them, and each score is within its criterion's bounds |
| `RubricScoring.TotalIgnoresOrder` | src/modules/assignments/assignments.service.ts:654-668 | The total does not depend on the order of the scores |
| `RubricScoring.MatchesIgnoresOrder` | src/modules/assignments/assignments.service.ts:624-668 | Nor does acceptance |
| `RubricScoring.TotalBounds` | src/modules/assignments/assignments.service.ts:654-668 | An accepted total lies between 0 and the sum of the criterion maxima |
| `RubricScoring.GradeWithinMaximum` | src/modules/assignments/assignments.service.ts:487-494 | An accepted grade is within the assignment's maximum; with a rubric it is the total of scores that match all its criteria |
| `RubricScoring.GradeIff` | src/modules/assignments/assignments.service.ts:487-494 | A grade is accepted exactly when it is within the maximum: the score entered without a rubric, else the sum of the scores of a well-shaped list that scores each criterion of a well-shaped rubric once and within its bounds |

## Left out

- ConsumeQuota: trimming and upper-casing of codes is not modelled; codes are taken in their final form. The same holds of voucher codes in order requests.
- ReachableStoresOk: voucher evaluation is a parameter that answers with a voucher or refuses; its own rules are not modelled, only the contract that a discount lies between zero and the price.
- CanCheckoutIffOrderAccepted: the optional revenue hook, which could refuse an order, is not modelled; nor is the check that commerce is configured.
- DecideAccess: the early-access branch for unverified receipts, behind an experiment flag, is not modelled; in entitlements it is a set of grants let through early.
- EmergencyRevoke: grants from unverified receipts, and the audit row, are not modelled.
- FulfilConfirmedOrder: service entitlement grants, effect rows, settlement checks, the conversion of early access and the processing states are not modelled; an order is fulfilled or not.
- IssueOnRequest: course access is an input, and an enrollment that is completed has a completion time.
- RunKeepsTables: for orders of courses, settling, cancelling and expiring is not modelled, so an order stays as confirmed as it was when placed.
- CreateCheckout: revenue synchronisation is not modelled, and the range of `Date` is modelled in `AddCalendarMonths` only, not in the terms offered.
- CreateBooking: time zones are not modelled; the local weekday and minute of a proposed time are inputs.
- CanActivate: the Redis script is one atomic step, and a window is a positive whole number of seconds.
- UpdateLessonProgress: the access check, the path returned and the completion evaluation of the same request are not part of it (they are modelled on their own), and floating-point error in percentages is not modelled; rounding is exact, half up. Rubric scores are exact reals.
- PathIgnoresInputOrder: ids are ordered as numbers where the source compares strings with `localeCompare`.
- Transactions are all-or-nothing and serial; retries after serialization failures are not modelled.
- Notifications, audit rows, lifecycle events, order numbers and timestamps other than those that decisions depend on.
- Controllers, configuration, storage, mail, language-model clients, library and moderation features: wiring, or foreign calls.
