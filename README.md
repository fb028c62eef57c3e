# Salon booking landing page: the stateful parts, in Dafny

The landing page is mostly static markup. Three components hold logic, and
each gets its own module:

- `Booking` (`booking.dfy`) models the booking dialog. It is a four-step
  wizard: choose a service, pick a date and time, enter client details, then
  confirm and pay the deposit. The pure part covers:
  - the fixed five-entry catalog and the lookup that `Array.find` performs;
  - the deposit, which is 30% of the price rounded half up, the total and the
    remaining balance;
  - the Continue guard of each step and the progress indicator;
  - `Dispatch`, the effect of one user event on the dialog.

  `Dispatch` only lets an event through when its control is on screen: the
  dialog must be open, the control must belong to the current step, and a
  disabled Continue does nothing. The class `BookingModal` holds the
  component state as fields. Its methods are the handlers (`handleNext`,
  `handleBack`, `handleBooking`, `resetModal`, the dialog's `onOpenChange`
  wrapper and the field setters). `Handle` routes an event to them and is
  proved to match `Dispatch` and to keep the draft invariant `Reachable`.
- `Countdown` (`countdown.dfy`) models the countdown timer in the pricing
  section. It splits a positive millisecond distance into days, hours,
  minutes and seconds. `CountdownTimer.Tick(now)` stores that split only
  while the target is still in the future.
- `Contact` (`contact.dfy`) models the contact form. It has five fields that
  are updated one at a time by input name. Submitting has two phases: the
  first sets `isSubmitting`; once the delay is over, the second clears the
  form and drops the flag.

The booking dialog's open flag belongs to the host page. The host passes its
own setter as `onOpenChange` (`src/components/StickyBookingButton.tsx:37`,
`src/components/HeroSection.tsx:105`). The model therefore keeps the flag
next to the draft, in `Modal`.

## Behaviour as written

The dialog's own text promises more than its code does. It speaks of payment
processed securely through Stripe and a confirmation email
(`src/components/BookingModal.tsx:338`). The model follows the code:

- Step 3's Continue needs only non-empty name, email and phone. There is no
  email or phone format check (`Step3AcceptsAnyNonEmptyText`).
- The wizard has no in-flight submitting flag and no failure or retry path.
  "Pay Deposit" shows an alert and asks the host to close the dialog.
- "Pay Deposit" calls the host's setter directly, not the dialog's
  `onOpenChange` wrapper. So `resetModal` does not run. As long as the host
  keeps the dialog mounted, opening it again resumes at step 4 with the same
  details (`PayThenReopenResumes`).
  Only a close that the dialog reports itself resets the draft.
- The contact form's success toast title ends in the four characters
  U+00F0 U+0178 U+0161 U+20AC (`src/components/ContactSection.tsx:38`):
  the UTF-8 bytes of a rocket emoji read back as Windows-1252. The model's
  `SentNotice` keeps those four characters.

## Model

| member | source | states |
|---|---|---|
| `Booking.FindService` | src/components/BookingModal.tsx:67 | the result is the first catalog entry with the given id; there is none exactly when no entry has that id |
| `Booking.CatalogIdsDistinct` | src/components/BookingModal.tsx:42-48 | no two catalog entries share an id |
| `Booking.SelectedServiceData` | src/components/BookingModal.tsx:67 | a service is found exactly when the selected id is a catalog id, and it is the entry with that id |
| `Booking.TotalAmount` | src/components/BookingModal.tsx:69 | the total is 0 exactly when no catalog service is selected; otherwise it is the selected entry's price |
| `Booking.RoundedDeposit` | src/components/BookingModal.tsx:68 | the deposit is 30% of the price rounded half up (20d ≤ 6p + 10 < 20d + 20) and never exceeds the price |
| `Booking.RoundedDepositUnique` | src/components/BookingModal.tsx:150 | any integer that rounds 30% of the price half up is the deposit, so the per-card figure equals the summary figure |
| `Booking.DepositAmount` | src/components/BookingModal.tsx:68 | the deposit never exceeds the total |
| `Booking.RemainingAmount` | src/components/BookingModal.tsx:325 | the remaining balance lies between 0 and the total, and deposit plus remaining equals the total |
| `Booking.PricingFollowsCatalog` | src/components/BookingModal.tsx:67-69 | choosing catalog entry k makes the total its price, the deposit its rounded 30% and the remainder their difference |
| `Booking.PricingWithoutService` | src/components/BookingModal.tsx:68-69 | with no service selected, or an id outside the catalog, total, deposit and remainder are all 0 |
| `Booking.CatalogDeposits` | src/components/BookingModal.tsx:43-47 | the five cards show deposits of 20, 36, 54, 14 and 26 |
| `Booking.HaircutScenario` | src/components/BookingModal.tsx:43 | the $65 haircut asks $20 now and $45 at the appointment |
| `Booking.Step3AcceptsAnyNonEmptyText` | src/components/BookingModal.tsx:287 | step 3's Continue is enabled for any non-empty name, email and phone, malformed ones included |
| `Booking.ContinueEnabled` | src/components/BookingModal.tsx:158-292 | Continue exists only on steps 1 to 3 (guards at lines 160, 229 and 287); on a reachable draft it is enabled exactly when moving to the next step keeps the draft invariant |
| `Booking.Next` | src/components/BookingModal.tsx:71-73 | only the step changes: it rises by one below 4 and stays at 4 |
| `Booking.Back` | src/components/BookingModal.tsx:75-77 | only the step changes: it falls by one above 1 and stays at 1 |
| `Booking.NextBackSteps` | src/components/BookingModal.tsx:71-77 | Next raises the step by one below 4 and keeps it at 4; Back lowers it by one above 1 and keeps it at 1; the step stays in 1..4; Back undoes Next and Next undoes Back |
| `Booking.ReachablePricing` | src/components/BookingModal.tsx:303-326 | from step 2 on, the summary prices a real catalog entry: the total is positive and the deposit is strictly between 0 and the total |
| `Booking.Progress` | src/components/BookingModal.tsx:110-120 | the indicator has four circles and no connector after the last |
| `Booking.ProgressShowsStep` | src/components/BookingModal.tsx:110-120 | on step s circle i is highlighted iff i ≤ s and shows a check iff i < s, so the first s are lit and the first s − 1 checked; the current circle is lit without a check; connector i is filled iff i < s |
| `Booking.Dispatch` | src/components/BookingModal.tsx:93-352 | while the dialog is closed only the host's open button has an effect, and it only opens the dialog; every event either resets the draft or moves the step by at most one |
| `Booking.DispatchPreservesReachable` | src/components/BookingModal.tsx:127-295 | every user event keeps the draft invariant: step in 1..4; step ≥ 2 ⇒ a catalog service is chosen; step ≥ 3 ⇒ date and time are set; step 4 ⇒ name, email and phone are non-empty |
| `Booking.RunPreservesReachable` | src/components/BookingModal.tsx:127-295 | any sequence of user events keeps the draft invariant |
| `Booking.EveryRunFromMountIsReachable` | src/components/BookingModal.tsx:57-65 | every draft reachable from the mounted state satisfies the invariant |
| `Booking.ContinueMovesIffEnabled` | src/components/BookingModal.tsx:158-166 | Continue advances the step by one exactly when the dialog is open and that step's guard holds; otherwise nothing changes |
| `Booking.StepRisesOnlyByContinue` | src/components/BookingModal.tsx:71-73 | the step only rises through an enabled Continue, and then by exactly one |
| `Booking.FieldsChangeOnlyOnTheirStep` | src/components/BookingModal.tsx:127-295 | apart from a reset, the service changes only by a card click on step 1; date and time only on step 2; client details only on step 3; always with the dialog open |
| `Booking.DialogCloseResets` | src/components/BookingModal.tsx:94-97 | when the dialog reports closing, the dialog is closed and the draft is the initial one, whatever it was before |
| `Booking.PayThenReopenResumes` | src/components/BookingModal.tsx:79-83 | Pay Deposit closes the dialog and leaves the draft unchanged; reopening gives back the same state |
| `Booking.ServiceCardSetsOnlyService` | src/components/BookingModal.tsx:139 | a card click sets the selection to that card's id and changes nothing else |
| `Booking.BookingModal.constructor` | src/components/BookingModal.tsx:57-65 | the component starts on step 1 with no service, date or time and empty client details |
| `Booking.BookingModal.HandleNext` | src/components/BookingModal.tsx:71-73 | the new draft is `Next` of the old one; the open flag is unchanged |
| `Booking.BookingModal.HandleBack` | src/components/BookingModal.tsx:75-77 | the new draft is `Back` of the old one; the open flag is unchanged |
| `Booking.BookingModal.HandleBooking` | src/components/BookingModal.tsx:79-83 | the dialog is closed and the draft is left as it was |
| `Booking.BookingModal.ResetModal` | src/components/BookingModal.tsx:85-91 | the draft becomes the initial one; the open flag is unchanged |
| `Booking.BookingModal.OnOpenChange` | src/components/BookingModal.tsx:94-97 | the open flag takes the reported value; on close the draft becomes the initial one, otherwise it is kept |
| `Booking.BookingModal.SelectService` | src/components/BookingModal.tsx:139 | only the selected service changes |
| `Booking.BookingModal.SetSelectedDate` | src/components/BookingModal.tsx:196 | only the date changes |
| `Booking.BookingModal.SetSelectedTime` | src/components/BookingModal.tsx:208 | only the time changes |
| `Booking.BookingModal.SetClientInfo` | src/components/BookingModal.tsx:250-274 | only the client details change |
| `Booking.BookingModal.Handle` | src/components/BookingModal.tsx:93-352 | the new state is `Dispatch` of the old state and the event, and the draft invariant is kept |
| `Countdown.Decompose` | src/components/PricingSection.tsx:33-36 | days ≥ 0, hours < 24, minutes < 60 and seconds < 60, all non-negative; the reading is at most the distance and less than one second below it |
| `Countdown.DecomposeTruncates` | src/components/PricingSection.tsx:33-36 | the reading is the distance with its sub-second milliseconds dropped |
| `Countdown.DecomposeInverse` | src/components/PricingSection.tsx:33-36 | every in-range reading is what the decomposition gives for each distance within the second it stands for |
| `Countdown.DecomposeMonotone` | src/components/PricingSection.tsx:28-36 | a smaller distance never shows more time left |
| `Countdown.CountdownTimer.constructor` | src/components/PricingSection.tsx:15-20 | the timer starts at all zeros |
| `Countdown.CountdownTimer.Tick` | src/components/PricingSection.tsx:27-39 | the reading becomes the decomposition of target − now when that is positive and is otherwise unchanged, so every stored component stays in range |
| `Contact.With` | src/components/ContactSection.tsx:54-59 | the named field takes the new value and the other four keep theirs |
| `Contact.FormExtensional` | src/components/ContactSection.tsx:22-28 | two forms whose five fields agree are equal |
| `Contact.WithLaws` | src/components/ContactSection.tsx:54-59 | writing back a field's own value changes nothing, and the last write to a field wins |
| `Contact.WithCommutes` | src/components/ContactSection.tsx:54-59 | edits to different fields commute |
| `Contact.RequiredFilled` | src/components/ContactSection.tsx:154-205 | the form passes the required check exactly when every input marked `required` (name, email and business; lines 159, 173 and 188) is non-empty |
| `Contact.SubmitDisabled` | src/components/ContactSection.tsx:225 | a disabled button lets no submit through, and an enabled one lets every submit with name, email and business non-empty through (the browser's email-format check is not modelled) |
| `Contact.SubmitDisabledWhilePending` | src/components/ContactSection.tsx:30-51 | the button is disabled exactly while a submission is pending: an accepted submit disables it, the completion enables it, and edits or a refused submit leave it as it was |
| `Contact.Apply` | src/components/ContactSection.tsx:30-59 | only an accepted submit starts a submission; only its completion ends one, and that leaves the initial form; the fields change only through an input or that completion |
| `Contact.EditsKeepSubmitting` | src/components/ContactSection.tsx:54-59 | edits never start or end a submission |
| `Contact.SubmitCycleResets` | src/components/ContactSection.tsx:30-51 | once a submission starts, whatever is typed during the delay, its completion leaves the initial empty, idle form |
| `Contact.NoDoubleSubmit` | src/components/ContactSection.tsx:225 | while a submission is pending, a submit does nothing |
| `Contact.SubmitStartsOnlyWhenAccepted` | src/components/ContactSection.tsx:154-191 | a submission starts only from idle with name, email and business filled, and starting leaves the fields as they were |
| `Contact.ContactSection.constructor` | src/components/ContactSection.tsx:21-28 | five empty fields and not submitting |
| `Contact.ContactSection.HandleInputChange` | src/components/ContactSection.tsx:54-59 | the form becomes `With` of the old form; the submitting flag is unchanged |
| `Contact.ContactSection.Submit` | src/components/ContactSection.tsx:30-32 | it starts exactly when the button is enabled and name, email and business are non-empty (the browser's email-format check is not modelled), and then sets `isSubmitting` |
| `Contact.ContactSection.CompleteSubmit` | src/components/ContactSection.tsx:35-51 | it always shows the success notice (there is no failure branch), clears all five fields and drops `isSubmitting` |

## Left out

- Rendering, styling, icons and animations, and the static content of the other sections and the pricing plans: these hold no logic.
- Date formatting with `date-fns` and the calendar's rule that disables past dates: a picked date is an opaque `CalendarDate`, and any date may be picked.
- The wall clock: the countdown target (fourteen calendar days after mounting, set with `setDate`) and each tick's `now` are integer parameters.
- The timers (`setInterval`, `clearInterval`, `setTimeout`), `alert` and the toast display are effects, not logic. The contact submit is split into `Submit` and `CompleteSubmit`, and a tick is a call to `Tick`.
- The sticky booking button's scroll-position visibility: it depends on DOM events and a floating-point comparison.
- `Booking.RoundedDeposit`: computes `Math.round(price * 0.3)` with the integer formula `(3 * price + 5) / 10` instead of IEEE doubles. The two agree on the five catalog prices (`CatalogDeposits`).
- `Contact.SubmitDisabled`: its last clause lets every enabled submit with name, email and business non-empty through. The browser also blocks a submit whose email text is not email-shaped (`type="email"`, `src/components/ContactSection.tsx:170`). That check is not modelled, so the clause holds of the model but not of every real browser submit.
- `Contact.ContactSection.Submit`, `Contact.SubmitAccepted`, `Contact.RequiredFilled` and `Contact.SubmitStartsOnlyWhenAccepted`: model the browser's `required` check as non-emptiness only. The browser also rejects an email input whose text is not email-shaped; the model does not capture that check, so it allows some submissions the browser blocks.
- Unmounting the booking dialog is not modelled. The sticky button's host renders nothing once the page is scrolled back up (`src/components/StickyBookingButton.tsx:21`), which discards the draft, so the next open starts again at step 1.
- Closing or unmounting the contact section while a submission is pending is not modelled.
