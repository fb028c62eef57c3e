/** The booking dialog: a four-step wizard (service, date and time, client
    details, confirm and pay) over a draft held in component state.

    The pure part (catalog lookup, pricing, the Continue guards, the progress
    indicator and the effect of each user event) is written as functions; the
    component itself is the class BookingModal, whose methods are the handlers
    and change its fields in place. */
module Booking {

  datatype Option<T> = None | Some(value: T)

  // ---------------------------------------------------------------------------
  // Catalog

  datatype Service = Service(id: string, name: string, price: nat, durationMinutes: nat)

  /** The fixed service catalog, in display order. */
  const Services: seq<Service> := [
    Service("haircut", "Precision Haircut", 65, 60),
    Service("color", "Color Treatment", 120, 90),
    Service("highlights", "Highlights", 180, 120),
    Service("blowout", "Blowout & Style", 45, 45),
    Service("treatment", "Deep Conditioning", 85, 75)
  ]

  /** The half-hour slots offered by the time picker. */
  const TimeSlots: seq<string> := [
    "9:00 AM", "9:30 AM", "10:00 AM", "10:30 AM", "11:00 AM", "11:30 AM",
    "12:00 PM", "12:30 PM", "1:00 PM", "1:30 PM", "2:00 PM", "2:30 PM",
    "3:00 PM", "3:30 PM", "4:00 PM", "4:30 PM", "5:00 PM"
  ]

  predicate IsCatalogId(id: string) {
    exists k :: 0 <= k < |Services| && Services[k].id == id
  }

  lemma CatalogIdsDistinct()
    ensures forall i, j :: 0 <= i < j < |Services| ==> Services[i].id != Services[j].id
  {
  }

  /** The first entry of `catalog` whose id is `id`, as `Array.find` gives it. */
  function FindService(catalog: seq<Service>, id: string): (r: Option<Service>)
    ensures r.None? <==> forall k :: 0 <= k < |catalog| ==> catalog[k].id != id
    ensures r.Some? ==> exists k :: 0 <= k < |catalog| && catalog[k] == r.value && r.value.id == id &&
                                   forall j :: 0 <= j < k ==> catalog[j].id != id
  {
    if catalog == [] then None
    else if catalog[0].id == id then Some(catalog[0])
    else
      var r := FindService(catalog[1..], id);
      if r.Some? then
        var k :| 0 <= k < |catalog| - 1 && catalog[1..][k] == r.value && r.value.id == id &&
                 forall j :: 0 <= j < k ==> catalog[1..][j].id != id;
        assert catalog[k + 1] == r.value;
        r
      else r
  }

  // ---------------------------------------------------------------------------
  // Pricing

  /** Math.round(price * 0.3) for a whole-dollar price, in integers. */
  function RoundedDeposit(price: nat): (d: nat)
    ensures 20 * d <= 6 * price + 10 < 20 * d + 20  // d == floor(0.3 * price + 0.5)
    ensures d <= price
  {
    (3 * price + 5) / 10
  }

  /** Rounding half up is unique: any integer within half a dollar of 30% of
      the price, ties going up, is the deposit. */
  lemma RoundedDepositUnique(price: nat, d: int)
    requires 20 * d <= 6 * price + 10 < 20 * d + 20
    ensures d == RoundedDeposit(price)
  {
  }

  /** `services.find` on the selected id. */
  function SelectedServiceData(selected: string): (r: Option<Service>)
    ensures r.Some? <==> IsCatalogId(selected)
    ensures r.Some? ==> r.value in Services && r.value.id == selected
  {
    FindService(Services, selected)
  }

  function TotalAmount(selected: string): (r: nat)
    ensures r == 0 <==> !IsCatalogId(selected)
    ensures IsCatalogId(selected) ==> exists k :: 0 <= k < |Services| && Services[k].id == selected && r == Services[k].price
  {
    match SelectedServiceData(selected)
    case Some(s) => s.price
    case None => 0
  }

  function DepositAmount(selected: string): (r: nat)
    ensures r <= TotalAmount(selected)
  {
    match SelectedServiceData(selected)
    case Some(s) => RoundedDeposit(s.price)
    case None => 0
  }

  /** The balance shown as due at the appointment. */
  function RemainingAmount(selected: string): (r: int)
    ensures 0 <= r <= TotalAmount(selected)
    ensures r + DepositAmount(selected) == TotalAmount(selected)
  {
    TotalAmount(selected) - DepositAmount(selected)
  }

  /** Picking catalog entry k prices the booking from that entry. */
  lemma PricingFollowsCatalog(k: nat)
    requires k < |Services|
    ensures TotalAmount(Services[k].id) == Services[k].price
    ensures DepositAmount(Services[k].id) == RoundedDeposit(Services[k].price)
    ensures RemainingAmount(Services[k].id) == Services[k].price - RoundedDeposit(Services[k].price)
  {
    CatalogIdsDistinct();
    var r := FindService(Services, Services[k].id);
    assert r.Some?;
    var i :| 0 <= i < |Services| && Services[i] == r.value && r.value.id == Services[k].id &&
             forall j :: 0 <= j < i ==> Services[j].id != Services[k].id;
    assert i == k;
  }

  /** With no service, or an id outside the catalog, every amount is 0. */
  lemma PricingWithoutService(selected: string)
    requires !IsCatalogId(selected)
    ensures TotalAmount(selected) == 0 && DepositAmount(selected) == 0 && RemainingAmount(selected) == 0
  {
    assert SelectedServiceData(selected).None?;
  }

  /** The deposit each card displays. */
  lemma CatalogDeposits()
    ensures RoundedDeposit(Services[0].price) == 20
    ensures RoundedDeposit(Services[1].price) == 36
    ensures RoundedDeposit(Services[2].price) == 54
    ensures RoundedDeposit(Services[3].price) == 14
    ensures RoundedDeposit(Services[4].price) == 26
  {
  }

  /** Choosing "Precision Haircut" ($65) asks $20 now and $45 at the appointment. */
  lemma HaircutScenario()
    ensures TotalAmount("haircut") == 65 && DepositAmount("haircut") == 20 && RemainingAmount("haircut") == 45
  {
    PricingFollowsCatalog(0);
  }

  // ---------------------------------------------------------------------------
  // The draft and the Continue guards

  /** A calendar day picked in the date picker; only whether one is set matters here. */
  datatype CalendarDate = CalendarDate(year: int, month: int, day: int)

  datatype ClientInfo = ClientInfo(name: string, email: string, phone: string)

  datatype Draft = Draft(
    step: int,
    selectedService: string,
    selectedDate: Option<CalendarDate>,
    selectedTime: string,
    clientInfo: ClientInfo)

  /** The state on mount and after resetModal. */
  const Initial: Draft := Draft(1, "", None, "", ClientInfo("", "", ""))

  /** Whether the Continue button of the current step is enabled; step 4 has
      no Continue button. The step-3 guard checks non-emptiness only. */
  predicate ContinueEnabled(d: Draft)
    ensures ContinueEnabled(d) ==> 1 <= d.step <= 3
    // on a reachable draft the guard is exactly what moving on needs
    ensures Reachable(d) && 1 <= d.step <= 3 ==> (ContinueEnabled(d) <==> Reachable(Next(d)))
  {
    if d.step == 1 then d.selectedService != ""
    else if d.step == 2 then d.selectedDate.Some? && d.selectedTime != ""
    else if d.step == 3 then d.clientInfo.name != "" && d.clientInfo.email != "" && d.clientInfo.phone != ""
    else false
  }

  /** Any non-empty email and phone pass step 3: there is no format check. */
  lemma Step3AcceptsAnyNonEmptyText(d: Draft)
    requires d.step == 3 && d.clientInfo.name != "" && d.clientInfo.email != "" && d.clientInfo.phone != ""
    ensures ContinueEnabled(d)
    ensures ContinueEnabled(d.(clientInfo := ClientInfo("x", "not-an-email", "?")))
  {
  }

  /** handleNext */
  function Next(d: Draft): (r: Draft)
    ensures r == d.(step := r.step)
    ensures 1 <= d.step <= 4 ==> r.step == if d.step < 4 then d.step + 1 else 4
  {
    if d.step < 4 then d.(step := d.step + 1) else d
  }

  /** handleBack */
  function Back(d: Draft): (r: Draft)
    ensures r == d.(step := r.step)
    ensures 1 <= d.step <= 4 ==> r.step == if d.step > 1 then d.step - 1 else 1
  {
    if d.step > 1 then d.(step := d.step - 1) else d
  }

  lemma NextBackSteps(d: Draft)
    requires 1 <= d.step <= 4
    ensures Next(d).step == if d.step < 4 then d.step + 1 else 4
    ensures Back(d).step == if d.step > 1 then d.step - 1 else 1
    ensures 1 <= Next(d).step <= 4 && 1 <= Back(d).step <= 4
    ensures d.step < 4 ==> Back(Next(d)) == d
    ensures d.step > 1 ==> Next(Back(d)) == d
  {
  }

  /** What every draft reachable from the initial one satisfies: each step is
      entered only through an enabled Continue, and each field editor is only
      shown on its own step. */
  predicate Reachable(d: Draft) {
    && 1 <= d.step <= 4
    && (d.selectedService == "" || IsCatalogId(d.selectedService))
    && (d.selectedTime == "" || d.selectedTime in TimeSlots)
    && (d.step >= 2 ==> IsCatalogId(d.selectedService))
    && (d.step >= 3 ==> d.selectedDate.Some? && d.selectedTime != "")
    && (d.step == 4 ==> d.clientInfo.name != "" && d.clientInfo.email != "" && d.clientInfo.phone != "")
  }

  /** From step 2 on the summary prices a real catalog entry. */
  lemma ReachablePricing(d: Draft)
    requires Reachable(d) && d.step >= 2
    ensures TotalAmount(d.selectedService) > 0
    ensures 0 < DepositAmount(d.selectedService) < TotalAmount(d.selectedService)
  {
    var k :| 0 <= k < |Services| && Services[k].id == d.selectedService;
    PricingFollowsCatalog(k);
  }

  // ---------------------------------------------------------------------------
  // Progress indicator

  /** Circle i of the indicator; `connector` is the bar after it (none after the last). */
  datatype Mark = Mark(highlighted: bool, checked: bool, connector: Option<bool>)

  function Progress(step: int): (marks: seq<Mark>)
    ensures |marks| == 4
    ensures marks[3].connector == None
  {
    seq(4, i requires 0 <= i < 4 =>
      Mark(i + 1 <= step, i + 1 < step, if i + 1 < 4 then Some(i + 1 < step) else None))
  }

  function CountHighlighted(marks: seq<Mark>): nat {
    if marks == [] then 0 else (if marks[0].highlighted then 1 else 0) + CountHighlighted(marks[1..])
  }

  function CountChecked(marks: seq<Mark>): nat {
    if marks == [] then 0 else (if marks[0].checked then 1 else 0) + CountChecked(marks[1..])
  }

  /** On step s the first s circles are lit, the first s - 1 carry a check and
      the current one shows its number. */
  lemma ProgressShowsStep(step: int)
    requires 1 <= step <= 4
    ensures CountHighlighted(Progress(step)) == step
    ensures CountChecked(Progress(step)) == step - 1
    ensures Progress(step)[step - 1].highlighted && !Progress(step)[step - 1].checked
    ensures forall i :: 0 <= i < 4 ==> Progress(step)[i].highlighted == (i < step) && Progress(step)[i].checked == (i + 1 < step)
    ensures forall i :: 0 <= i < 3 ==> Progress(step)[i].connector == Some(i + 1 < step)
  {
    var p := Progress(step);
    var q := p[1..];
    assert q[1..][1..][1..] == [];
    assert CountHighlighted(q[1..][1..]) == (if 4 <= step then 1 else 0);
    assert CountChecked(q[1..][1..]) == 0;
    assert CountHighlighted(q) == (if 2 <= step then 1 else 0) + (if 3 <= step then 1 else 0) + (if 4 <= step then 1 else 0);
    assert CountChecked(q) == (if 2 < step then 1 else 0) + (if 3 < step then 1 else 0);
  }

  // ---------------------------------------------------------------------------
  // User events

  /** The dialog as the host page sees it: its open flag (held by the host,
      which passes its setter as onOpenChange) and the draft. */
  datatype Modal = Modal(open: bool, draft: Draft)

  datatype Event =
    | HostOpen                          // a trigger button on the host page
    | DialogOpenChange(open: bool)      // the dialog reports a change (close button, Escape, overlay)
    | ClickServiceCard(card: nat)       // the card at this position in the catalog
    | PickDate(date: Option<CalendarDate>)
    | PickTime(slot: nat)               // the time slot at this position
    | EditName(value: string)
    | EditEmail(value: string)
    | EditPhone(value: string)
    | ClickContinue
    | ClickBack
    | ClickPayDeposit

  /** The effect of one event. The dialog content exists only while the dialog
      is open; each control exists only on its own step; a disabled Continue
      does nothing. Pay Deposit hands `false` to the host's setter directly,
      so it closes the dialog without resetting the draft. */
  function Dispatch(m: Modal, e: Event): (r: Modal)
    ensures !m.open && !e.HostOpen? ==> r == m
    ensures e.HostOpen? ==> r == m.(open := true)
    ensures r.draft == Initial || m.draft.step - 1 <= r.draft.step <= m.draft.step + 1
  {
    var d := m.draft;
    if e.HostOpen? then m.(open := true)
    else if !m.open then m
    else match e
      case HostOpen => m
      case DialogOpenChange(o) => if o then m.(open := true) else Modal(false, Initial)
      case ClickServiceCard(k) =>
        if d.step == 1 && k < |Services| then m.(draft := d.(selectedService := Services[k].id)) else m
      case PickDate(date) =>
        if d.step == 2 then m.(draft := d.(selectedDate := date)) else m
      case PickTime(k) =>
        if d.step == 2 && k < |TimeSlots| then m.(draft := d.(selectedTime := TimeSlots[k])) else m
      case EditName(v) =>
        if d.step == 3 then m.(draft := d.(clientInfo := d.clientInfo.(name := v))) else m
      case EditEmail(v) =>
        if d.step == 3 then m.(draft := d.(clientInfo := d.clientInfo.(email := v))) else m
      case EditPhone(v) =>
        if d.step == 3 then m.(draft := d.(clientInfo := d.clientInfo.(phone := v))) else m
      case ClickContinue =>
        if ContinueEnabled(d) then m.(draft := Next(d)) else m
      case ClickBack =>
        if 2 <= d.step <= 4 then m.(draft := Back(d)) else m
      case ClickPayDeposit =>
        if d.step == 4 then m.(open := false) else m
  }

  function Run(m: Modal, events: seq<Event>): Modal
    decreases |events|
  {
    if events == [] then m else Run(Dispatch(m, events[0]), events[1..])
  }

  lemma DispatchPreservesReachable(m: Modal, e: Event)
    requires Reachable(m.draft)
    ensures Reachable(Dispatch(m, e).draft)
  {
    var d := m.draft;
    match e
    case ClickServiceCard(k) =>
      if m.open && d.step == 1 && k < |Services| {
        assert Services[k].id == Dispatch(m, e).draft.selectedService;
      }
    case PickTime(k) =>
      if m.open && d.step == 2 && k < |TimeSlots| {
        assert TimeSlots[k] in TimeSlots;
      }
    case _ =>
  }

  /** The draft invariant holds after any sequence of events from the mounted state. */
  lemma {:induction false} RunPreservesReachable(m: Modal, events: seq<Event>)
    requires Reachable(m.draft)
    ensures Reachable(Run(m, events).draft)
    decreases |events|
  {
    if events != [] {
      DispatchPreservesReachable(m, events[0]);
      RunPreservesReachable(Dispatch(m, events[0]), events[1..]);
    }
  }

  lemma EveryRunFromMountIsReachable(open: bool, events: seq<Event>)
    ensures Reachable(Run(Modal(open, Initial), events).draft)
  {
    RunPreservesReachable(Modal(open, Initial), events);
  }

  /** Continue moves forward exactly when the open dialog's guard holds, and by one step. */
  lemma ContinueMovesIffEnabled(m: Modal)
    ensures Dispatch(m, ClickContinue).draft.step == m.draft.step + 1 <==> m.open && ContinueEnabled(m.draft)
    ensures Dispatch(m, ClickContinue).draft.step != m.draft.step + 1 ==> Dispatch(m, ClickContinue) == m
  {
  }

  /** The step only rises through an enabled Continue, and then by exactly one. */
  lemma StepRisesOnlyByContinue(m: Modal, e: Event)
    requires Reachable(m.draft)
    requires Dispatch(m, e).draft.step > m.draft.step
    ensures e == ClickContinue && m.open && ContinueEnabled(m.draft)
    ensures Dispatch(m, e).draft.step == m.draft.step + 1
  {
  }

  /** Apart from a reset, each draft field changes only through its own editor,
      which is only shown on its own step of the open dialog. */
  lemma FieldsChangeOnlyOnTheirStep(m: Modal, e: Event)
    requires !e.DialogOpenChange?
    ensures var r := Dispatch(m, e).draft;
      && (r.selectedService != m.draft.selectedService ==> m.open && m.draft.step == 1 && e.ClickServiceCard?)
      && (r.selectedDate != m.draft.selectedDate ==> m.open && m.draft.step == 2 && e.PickDate?)
      && (r.selectedTime != m.draft.selectedTime ==> m.open && m.draft.step == 2 && e.PickTime?)
      && (r.clientInfo != m.draft.clientInfo ==> m.open && m.draft.step == 3)
  {
  }

  /** Whenever the dialog reports closing, the draft is back to its initial shape. */
  lemma DialogCloseResets(m: Modal)
    requires m.open
    ensures Dispatch(m, DialogOpenChange(false)) == Modal(false, Initial)
  {
  }

  /** Pay Deposit closes the dialog and leaves the draft as it was, so opening
      the dialog again resumes the confirmation step with the same details. */
  lemma PayThenReopenResumes(m: Modal)
    requires m.open && m.draft.step == 4
    ensures Dispatch(m, ClickPayDeposit) == Modal(false, m.draft)
    ensures Run(m, [ClickPayDeposit, HostOpen]) == m
  {
    assert Run(Modal(true, m.draft), []) == m;
  }

  /** A service card sets the selection to its own id and nothing else. */
  lemma ServiceCardSetsOnlyService(m: Modal, k: nat)
    requires m.open && m.draft.step == 1 && k < |Services|
    ensures Dispatch(m, ClickServiceCard(k)).draft == m.draft.(selectedService := Services[k].id)
    ensures Dispatch(m, ClickServiceCard(k)).draft.selectedService != ""
  {
  }

  // ---------------------------------------------------------------------------
  // The component

  /** The component's state and handlers. `Handle` is its only entry point:
      it delivers a user event to the handler wired to a control that is on
      screen and enabled, and it keeps `Valid()`. The handlers below are its
      building blocks, as the closures are in the component; called directly,
      outside that gating, they need not keep `Valid()`. */
  class BookingModal {
    var open: bool
    var step: int
    var selectedService: string
    var selectedDate: Option<CalendarDate>
    var selectedTime: string
    var clientInfo: ClientInfo

    function Current(): Draft
      reads this
    {
      Draft(step, selectedService, selectedDate, selectedTime, clientInfo)
    }

    function State(): Modal
      reads this
    {
      Modal(open, Current())
    }

    ghost predicate Valid()
      reads this
    {
      Reachable(Current())
    }

    constructor (open: bool)
      ensures State() == Modal(open, Initial) && Valid()
    {
      this.open := open;
      step, selectedService, selectedDate, selectedTime := 1, "", None, "";
      clientInfo := ClientInfo("", "", "");
    }

    method HandleNext()
      modifies this
      ensures Current() == Next(old(Current())) && open == old(open)
    {
      if step < 4 { step := step + 1; }
    }

    method HandleBack()
      modifies this
      ensures Current() == Back(old(Current())) && open == old(open)
    {
      if step > 1 { step := step - 1; }
    }

    /** Requests close through the host's setter; the payment alert is not modelled. */
    method HandleBooking()
      modifies this
      ensures !open && Current() == old(Current())
    {
      open := false;
    }

    method ResetModal()
      modifies this
      ensures Current() == Initial && open == old(open)
    {
      step := 1;
      selectedService := "";
      selectedDate := None;
      selectedTime := "";
      clientInfo := ClientInfo("", "", "");
    }

    /** The dialog's onOpenChange wrapper: forward to the host, reset on close. */
    method OnOpenChange(isOpen: bool)
      modifies this
      ensures open == isOpen
      ensures Current() == if isOpen then old(Current()) else Initial
    {
      open := isOpen;
      if !isOpen { ResetModal(); }
    }

    method SelectService(id: string)
      modifies this
      ensures State() == old(State()).(draft := old(Current()).(selectedService := id))
    {
      selectedService := id;
    }

    method SetSelectedDate(date: Option<CalendarDate>)
      modifies this
      ensures State() == old(State()).(draft := old(Current()).(selectedDate := date))
    {
      selectedDate := date;
    }

    method SetSelectedTime(time: string)
      modifies this
      ensures State() == old(State()).(draft := old(Current()).(selectedTime := time))
    {
      selectedTime := time;
    }

    method SetClientInfo(info: ClientInfo)
      modifies this
      ensures State() == old(State()).(draft := old(Current()).(clientInfo := info))
    {
      clientInfo := info;
    }

    /** Delivers one user event to the handler its control is wired to, if that
        control is present and enabled; keeps the draft invariant. */
    method Handle(e: Event)
      requires Valid()
      modifies this
      ensures State() == Dispatch(old(State()), e)
      ensures Valid()
    {
      DispatchPreservesReachable(State(), e);
      if e.HostOpen? {
        open := true;
      } else if open {
        match e
        case HostOpen =>
        case DialogOpenChange(o) => OnOpenChange(o);
        case ClickServiceCard(k) =>
          if step == 1 && k < |Services| { SelectService(Services[k].id); }
        case PickDate(date) =>
          if step == 2 { SetSelectedDate(date); }
        case PickTime(k) =>
          if step == 2 && k < |TimeSlots| { SetSelectedTime(TimeSlots[k]); }
        case EditName(v) =>
          if step == 3 { SetClientInfo(clientInfo.(name := v)); }
        case EditEmail(v) =>
          if step == 3 { SetClientInfo(clientInfo.(email := v)); }
        case EditPhone(v) =>
          if step == 3 { SetClientInfo(clientInfo.(phone := v)); }
        case ClickContinue =>
          if ContinueEnabled(Current()) { HandleNext(); }
        case ClickBack =>
          if 2 <= step <= 4 { HandleBack(); }
        case ClickPayDeposit =>
          if step == 4 { HandleBooking(); }
      }
    }
  }
}
