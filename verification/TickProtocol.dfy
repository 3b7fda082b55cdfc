/** What the tick handler of tc_task.c is proved against: the debounced buttons, the double entry of a password, the
    combinations that enter a mode, what one tick does to the handler's state, and the runs of such ticks. */
module TickProtocol {
  import opened Passcode

  // Pin levels; a pressed button pulls its pin low.
  datatype Pins = Pins(pb1: bool, pb2: bool, pb3: bool, pb4: bool, enter: bool) {
    predicate AllHigh() { pb1 && pb2 && pb3 && pb4 && enter }

    // Exactly the buttons of an entry combination are held.
    predicate ProgrammingHeld() { !pb1 && pb2 && !pb3 && !pb4 && enter }

    predicate DeviceIdHeld() { pb1 && pb2 && pb3 && !pb4 && !enter }

    predicate UnlockHeld() { pb1 && !pb2 && pb3 && pb4 && !enter }

    // The first pressed button, in the order in which the handler looks.
    function FirstLow(): nat {
      if !pb1 then 0 else if !pb2 then 1 else if !pb3 then 2 else if !pb4 then 3
      else if !enter then ENTER_BUTTON else NO_BUTTON
    }
  }

  const ENTER_BUTTON: nat := 4
  const NO_BUTTON: nat := 255

  datatype EntryMode = NoMode | Programming | Normal

  datatype Buffer = Unset | TempPassword | TempPassword1

  const UNLOCK_PASSWORD: nat := 0
  const DEVICE_ID_CONFIRM: nat := 3

  // What normal mode is entered for.
  datatype Kind = NoKind | DeviceId | UnlockCryptx2

  // enter_button_status
  const READY_TO_TRIGGER: nat := 0
  const WAITING_FOR_FIRST_PRESS: nat := 1
  const FIRST_TIME_PRESSED: nat := 2
  const WAITING_FOR_SECOND_PRESS: nat := 3
  const SECOND_TIME_PRESSED: nat := 4
  const WAITING_FOR_USER_INPUT: nat := 5
  const THIRD_TIME_PRESSED: nat := 6

  // Whether the digest of a buffer is the stored one, in one tick.
  type Verdict = seq<bv32> -> bool

  // The symbol of a button.
  function AsPress(button: nat): (v: Press)
    requires button < 4
    ensures Number(v) == button
  {
    if button == 0 then 0 else if button == 1 then 1 else if button == 2 then 2 else 3
  }

  // ------------------------------------------------------------------ the protocol

  // How far the double entry of a password has come, with the symbols entered so far.
  datatype Phase =
    | Idle
    | First(a: seq<Press>)
    | FirstDone(a: seq<Press>)
    | Second(a: seq<Press>, b: seq<Press>)
    | SecondDone(a: seq<Press>, b: seq<Press>)
    | Accepted
    | Finished

  function Status(phase: Phase): nat {
    match phase
    case Idle => READY_TO_TRIGGER
    case First(_) => WAITING_FOR_FIRST_PRESS
    case FirstDone(_) => FIRST_TIME_PRESSED
    case Second(_, _) => WAITING_FOR_SECOND_PRESS
    case SecondDone(_, _) => SECOND_TIME_PRESSED
    case Accepted => WAITING_FOR_USER_INPUT
    case Finished => THIRD_TIME_PRESSED
  }

  // A tick first settles what the last press left to do: the second entry starts, or both are compared.
  function Settled(phase: Phase): Phase {
    match phase
    case Idle => First([])
    case FirstDone(a) => Second(a, [])
    case SecondDone(a, b) => if SamePass(a, b) then Accepted else Idle
    case _ => phase
  }

  // Then it takes the button, if one is registered; two of the four modes store symbols.
  function Pressed(phase: Phase, button: nat, stores: bool): Phase {
    if button == ENTER_BUTTON then
      match phase
      case First(a) => FirstDone(a)
      case Second(a, b) => SecondDone(a, b)
      case Accepted => Finished
      case _ => phase
    else if button < 4 && stores then
      match phase
      case First(a) => First(a + [AsPress(button)])
      case Second(a, b) => Second(a, b + [AsPress(button)])
      case _ => phase
    else phase
  }

  function Advance(phase: Phase, button: nat, stores: bool): Phase {
    Pressed(Settled(phase), button, stores)
  }

  predicate Stores(mode: nat) { mode == UNLOCK_PASSWORD || mode == DEVICE_ID_CONFIRM }

  // A phase that the last press left to be settled.
  predicate Unsettled(phase: Phase) {
    phase.FirstDone? || phase.SecondDone? || phase.Finished?
  }

  predicate Collecting(phase: Phase) {
    phase.First? || phase.FirstDone? || phase.Second? || phase.SecondDone?
  }

  // What the buffers hold during the double entry.
  ghost predicate Held(phase: Phase, passCode: Buffer, temp: seq<bv32>, temp1: seq<bv32>, index: nat)
    requires Collecting(phase)
  {
    if phase.First? || phase.FirstDone? then
      passCode == TempPassword && temp == Encode(phase.a) && temp1 == CLEARED && index == |phase.a| % 128
    else
      passCode == TempPassword1 && temp == Encode(phase.a + [TERMINATOR]) && temp1 == Encode(phase.b)
      && index == |phase.b| % 128
  }

  // The protocol over a run of ticks.
  function Run(phase: Phase, ticks: seq<nat>, stores: bool): Phase
    decreases ticks
  {
    if ticks == [] then phase else Run(Advance(phase, ticks[0], stores), ticks[1..], stores)
  }

  // The symbols among the registered buttons.
  function Symbols(ticks: seq<nat>, stores: bool): seq<Press> {
    if ticks == [] then []
    else (if stores && ticks[0] < 4 then [AsPress(ticks[0])] else []) + Symbols(ticks[1..], stores)
  }

  // The symbol of a button, if it has one.
  function SymbolOf(button: nat): seq<Press> {
    if button < 4 then [AsPress(button)] else []
  }

  // The buttons with symbols among the registered ones, in their order.
  function ButtonsOf(ticks: seq<nat>): seq<nat> {
    if ticks == [] then [] else (if ticks[0] < 4 then [ticks[0]] else []) + ButtonsOf(ticks[1..])
  }

  predicate NoEnter(ticks: seq<nat>) { forall i :: 0 <= i < |ticks| ==> ticks[i] != ENTER_BUTTON }

  ghost predicate Spaced(presses: seq<nat>) {
    forall i, j :: 0 <= i < |presses| && j == i + 1 < |presses| ==>
      presses[i] == NO_BUTTON || presses[j] == NO_BUTTON
  }

  // Whether all buttons have been released since the last press, after a run of ticks that look at them.
  function Released(released: bool, pins: seq<Pins>): bool {
    if pins == [] then released else pins[|pins| - 1].AllHigh()
  }

  // The presses that a run of pin levels amounts to: a button counts when it goes low after all were high.
  function Debounce(released: bool, pins: seq<Pins>): (presses: seq<nat>)
    ensures |presses| == |pins|
  {
    if pins == [] then []
    else
      var before := pins[..|pins| - 1];
      Debounce(released, before) + [Registered(Released(released, before), pins[|pins| - 1])]
  }

  function Registered(released: bool, pins: Pins): nat {
    if released then pins.FirstLow() else NO_BUTTON
  }

  lemma DebounceNone(released: bool)
    ensures Debounce(released, []) == [] && Released(released, []) == released
  {
  }

  lemma DebounceSnoc(released: bool, pins: seq<Pins>, next: Pins)
    ensures Debounce(released, pins + [next])
         == Debounce(released, pins) + [Registered(Released(released, pins), next)]
    ensures Released(released, pins + [next]) == next.AllHigh()
  {
    assert (pins + [next])[..|pins|] == pins;
  }

  // ------------------------------------------------------------------ entering a mode

  datatype Combination = ForProgramming | ForDeviceId | ForUnlock {
    predicate Holds(pins: Pins) {
      match this
      case ForProgramming => pins.ProgrammingHeld()
      case ForDeviceId => pins.DeviceIdHeld()
      case ForUnlock => pins.UnlockHeld()
    }

    // The value of the combination's counter that one more tick completes.
    function Limit(): nat { if ForProgramming? then 100 else 200 }

    // The last Limit() + 1 ticks all held the combination.
    predicate Completes(pins: seq<Pins>) {
      && |pins| > Limit()
      && forall i :: |pins| - Limit() - 1 <= i < |pins| ==> Holds(pins[i])
    }

    // The ticks at the end that all held the combination.
    function Trail(pins: seq<Pins>): nat {
      if pins == [] || !Holds(pins[|pins| - 1]) then 0 else Trail(pins[..|pins| - 1]) + 1
    }

    // A counter after one more tick: it counts held ticks and starts again when it has entered a mode.
    function Counted(counter: nat, pins: Pins): nat {
      if Holds(pins) && counter < Limit() then counter + 1 else 0
    }
  }

  // The mode that the last of some ticks without a mode enters.
  function ModeEntered(pins: seq<Pins>): EntryMode {
    if ForProgramming.Completes(pins) then Programming
    else if ForDeviceId.Completes(pins) || ForUnlock.Completes(pins) then Normal
    else NoMode
  }

  lemma {:induction false} TrailAtLeast(c: Combination, pins: seq<Pins>, n: nat)
    ensures c.Trail(pins) >= n <==> n <= |pins| && forall i :: |pins| - n <= i < |pins| ==> c.Holds(pins[i])
    decreases |pins|
  {
    hide Combination.Holds;
    if pins != [] && n != 0 && c.Holds(pins[|pins| - 1]) {
      var before := pins[..|pins| - 1];
      TrailAtLeast(c, before, n - 1);
      assert forall i :: 0 <= i < |before| ==> before[i] == pins[i];
    }
  }

  lemma CompletesIffTrail(c: Combination, pins: seq<Pins>)
    ensures c.Completes(pins) <==> c.Trail(pins) > c.Limit()
  {
    hide Combination.Holds, Combination.Trail;
    TrailAtLeast(c, pins, c.Limit() + 1);
  }

  // A counter that holds the trail completes its combination in the tick in which it stands at its limit.
  lemma TrailCounts(c: Combination, pins: seq<Pins>, next: Pins)
    requires c.Trail(pins) <= c.Limit()
    ensures c.Completes(pins + [next]) <==> c.Holds(next) && c.Trail(pins) == c.Limit()
    ensures !c.Completes(pins + [next]) ==> c.Trail(pins + [next]) == c.Counted(c.Trail(pins), next)
  {
    hide Combination.Holds, Combination.Completes;
    assert (pins + [next])[..|pins|] == pins;
    CompletesIffTrail(c, pins + [next]);
  }

  // ------------------------------------------------------------------ what has been typed

  // Whether the first buffer only takes more symbols: after acceptance, and when no password is being set, until
  // the device-id comparison mixes the salt into it.
  predicate Accumulates(mode: EntryMode, phase: Phase, entered: bool, kind: Kind) {
    && (phase.Accepted? || phase.Finished? || (phase.Idle? && mode != Programming))
    && (entered ==> kind != DeviceId)
  }

  // The buffer holds the symbols typed since it was last cleared.
  ghost predicate Typed(s: Store) {
    s.temp == Encode(s.typed) && s.index == |s.typed| % 128
  }

  // The symbols in the first buffer after a tick of programming mode.
  function TypedAfter(typed: seq<Press>, before: Phase, button: nat, chosen: nat): seq<Press> {
    match before
    case SecondDone(_, _) => []
    case Accepted => typed + if chosen == UNLOCK_PASSWORD then SymbolOf(button) else []
    case Finished => typed + if chosen == UNLOCK_PASSWORD then [TERMINATOR] else []
    case _ => typed
  }

  lemma TypedNone()
    ensures Typed(Store(CLEARED, 0, []))
  {
  }

  lemma TypedNext(s: Store, v: Press)
    requires Typed(s)
    ensures s.IsStore() && Typed(s.Push(v))
  {
    hide Stored;
    EncodeNext(s.typed, v);
  }

  // The comparison sees the symbols typed so far, with a terminator.
  lemma ComparedTyped(s: Store, button: nat)
    requires Typed(s)
    ensures s.IsStore()
    ensures s.Take(button).Push(TERMINATOR).temp == Encode(s.typed + SymbolOf(button) + [TERMINATOR])
  {
    hide Stored, Encode;
    var t := s.Take(button);
    if button < 4 {
      EncodeNext(s.typed, AsPress(button));
    } else {
      assert s.typed + SymbolOf(button) == s.typed;
    }
    EncodeNext(t.typed, TERMINATOR);
  }

  function XorWords(w: seq<bv32>, salt: seq<bv32>): (r: seq<bv32>)
    requires IsBuffer(w) && IsBuffer(salt)
    ensures IsBuffer(r)
  {
    seq(8, i requires 0 <= i < 8 => w[i] ^ salt[i])
  }

  // ------------------------------------------------------------------ one tick

  // The state of the handler that a tick is described by, in six parts.
  datatype View = View(entry: Entry, buttons: Buttons, counters: Counters, login: Login, store: Store, flags: Flags)

  datatype Entry = Entry(mode: EntryMode, selected: bool, chosen: nat, phase: Phase)

  datatype Buttons = Buttons(released: bool, pressed: nat, enterSeen: bool)

  datatype Counters = Counters(programming: nat, deviceId: nat, unlock: nat)

  datatype Login = Login(entered: bool, kind: Kind, unlocked: bool)

  datatype Flags = Flags(readOnly0: bool, readOnly1: bool)

  datatype Store = Store(temp: seq<bv32>, index: nat, typed: seq<Press>) {
    predicate IsStore() { IsBuffer(temp) && index < 128 }

    // After one more symbol.
    function Push(v: Press): (r: Store)
      requires IsStore()
      ensures r.IsStore()
    {
      Store(Stored(temp, index, v), (index + 1) % 128, typed + [v])
    }

    // After the symbol of a button.
    function Take(button: nat): (r: Store)
      requires IsStore()
      ensures r.IsStore()
    {
      if button < 4 then Push(AsPress(button)) else this
    }
  }

  const ZERO_COUNTERS: Counters := Counters(0, 0, 0)

  // The counters stay within their limits, and the one for programming runs alone.
  ghost predicate Sound(c: Counters) {
    && c.programming <= 100 && c.deviceId <= 200 && c.unlock <= 200
    && (c.programming > 0 ==> c.deviceId == c.unlock == 0)
  }

  // After a press, no other registers until all buttons have been seen released. The counters run only without a
  // mode. A password is entered in normal mode only.
  ghost predicate Steady(v: View) {
    && (v.buttons.pressed != NO_BUTTON ==> !v.buttons.released)
    && (v.entry.mode == Programming && Unsettled(v.entry.phase) ==> !v.buttons.released)
    && (v.entry.mode != NoMode ==> v.counters == ZERO_COUNTERS)
    && Sound(v.counters)
    && (v.login.entered ==> v.entry.mode == Normal)
  }

  // The phases that go with a mode.
  ghost predicate Ordered(e: Entry) {
    && (!e.phase.Idle? ==> e.selected)
    && (e.selected && e.mode != Programming ==> e.phase.Finished?)
    && (!e.phase.Idle? && !e.phase.Finished? ==> e.mode == Programming)
  }

  // All that is known of the state between ticks.
  ghost predicate Sane(v: View) {
    && Steady(v) && Ordered(v.entry) && v.store.IsStore()
    && (Accumulates(v.entry.mode, v.entry.phase, v.login.entered, v.login.kind) ==> Typed(v.store))
  }

  // The mode that a tick without a mode enters: the combination has been held long enough.
  function ModeAfter(c: Counters, pins: Pins): EntryMode {
    if pins.ProgrammingHeld() && c.programming == 100 then Programming
    else if (pins.DeviceIdHeld() && c.deviceId == 200) || (pins.UnlockHeld() && c.unlock == 200) then Normal
    else NoMode
  }

  function AllCounted(c: Counters, pins: Pins): Counters {
    Counters(ForProgramming.Counted(c.programming, pins), ForDeviceId.Counted(c.deviceId, pins),
             ForUnlock.Counted(c.unlock, pins))
  }

  // The start of a tick without a mode: the counters count, and a mode may be entered.
  function Entered(v: View, pins: Pins): View {
    var mode := ModeAfter(v.counters, pins);
    View(v.entry.(mode := mode), v.buttons.(released := v.buttons.released && mode == NoMode),
         AllCounted(v.counters, pins), v.login.(kind := KindAfter(mode, v.login.kind, pins)), v.store,
         v.flags)
  }

  function KindAfter(mode: EntryMode, kind: Kind, pins: Pins): Kind {
    if mode != Normal then kind else if pins.DeviceIdHeld() then DeviceId else UnlockCryptx2
  }

  // A mode's look at the buttons.
  function Looked(b: Buttons, pins: Pins): Buttons {
    var button := Registered(b.released, pins);
    Buttons(pins.AllHigh(), button, b.enterSeen || button == ENTER_BUTTON)
  }

  // A tick of programming mode with a button: the mode is selected, or the double entry goes on.
  function Programmed(e: Entry, button: nat): Entry {
    if e.selected then
      Entry(if e.phase.Finished? then NoMode else Programming, true, e.chosen,
            Advance(e.phase, button, Stores(e.chosen)))
    else if button < 4 then e.(selected := true, chosen := button)
    else e
  }

  // A tick of normal mode with a button: its symbol is stored, and once enter has been pressed, the buffer is
  // ended and compared; the comparison of device ids mixes the salt into it.
  function LoginAfter(login: Login, store: Store, button: nat, accept: Verdict): Login
    requires store.IsStore()
  {
    var entered := login.entered || button == ENTER_BUTTON;
    Login(entered, login.kind, login.unlocked || (entered && accept(store.Take(button).Push(TERMINATOR).temp)))
  }

  function StoreAfter(login: Login, store: Store, button: nat, salt: seq<bv32>): Store
    requires store.IsStore() && IsBuffer(salt)
  {
    if !login.entered && button != ENTER_BUTTON then store.Take(button)
    else
      var ended := store.Take(button).Push(TERMINATOR);
      if login.kind == DeviceId then ended.(temp := XorWords(ended.temp, salt)) else ended
  }

  // The middle of a tick, in the mode that is on.
  ghost predicate Processed(v: View, v': View, pins: Pins, accept: Verdict, salt: seq<bv32>)
    requires v.store.IsStore() && IsBuffer(salt)
  {
    var button := Registered(v.buttons.released, pins);
    match v.entry.mode
    case NoMode => v' == v
    case Programming =>
      && v' == View(Programmed(v.entry, button), Looked(v.buttons, pins), v.counters, v.login, v'.store, v.flags)
      && v'.store.typed == TypedAfter(v.store.typed, v.entry.phase, button, v.entry.chosen)
    case Normal =>
      v' == View(v.entry, Looked(v.buttons, pins), v.counters, LoginAfter(v.login, v.store, button, accept),
                 StoreAfter(v.login, v.store, button, salt), v.flags)
  }

  // The end of a tick: an unlocked device looks at the buttons once more, and two of them flip a flag each.
  function SecondLook(b: Buttons, unlocked: bool, pins: Pins): nat {
    if unlocked then Registered(b.released, pins) else NO_BUTTON
  }

  function ButtonsAfter(b: Buttons, unlocked: bool, pins: Pins): Buttons {
    var button := SecondLook(b, unlocked, pins);
    Buttons(if unlocked then pins.AllHigh() else b.released, if button == NO_BUTTON then b.pressed else button,
            b.enterSeen || button == ENTER_BUTTON)
  }

  function FlagsAfter(f: Flags, button: nat): Flags {
    Flags(f.readOnly0 != (button == 0), f.readOnly1 != (button == 1))
  }

  function Toggled(v: View, pins: Pins): View {
    v.(buttons := ButtonsAfter(v.buttons, v.login.unlocked, pins),
       flags := FlagsAfter(v.flags, SecondLook(v.buttons, v.login.unlocked, pins)))
  }

  /** A whole tick. In a mode, only that mode's part changes the state; without one, the counters advance, and a mode
      may be entered, which registers no button yet and leaves what has been typed to normal mode. */
  ghost predicate Ticked(v: View, v': View, pins: Pins, accept: Verdict, salt: seq<bv32>)
    requires v.store.IsStore() && IsBuffer(salt)
  {
    if v.entry.mode != NoMode then Processed(v, v', pins, accept, salt)
    else
      var u := Entered(v, pins);
      match u.entry.mode
      case NoMode => v' == Toggled(u.(buttons := v.buttons.(pressed := NO_BUTTON)), pins)
      case Normal => v' == u.(buttons := Buttons(false, NO_BUTTON, v.buttons.enterSeen))
      case Programming =>
        && v' == View(Programmed(u.entry, NO_BUTTON), Buttons(false, NO_BUTTON, v.buttons.enterSeen), u.counters,
                      u.login, v'.store, u.flags)
        && v'.store.typed == TypedAfter(v.store.typed, v.entry.phase, NO_BUTTON, v.entry.chosen)
  }

  lemma HeldNotHigh(c: Counters, pins: Pins)
    ensures ModeAfter(c, pins) != NoMode ==> !pins.AllHigh()
    ensures Registered(false, pins) == NO_BUTTON
  {
  }

  // The state before the middle of a tick.
  ghost function Started(v: View, pins: Pins): (u: View)
    ensures u.store == v.store
  {
    var idle := v.(buttons := v.buttons.(pressed := NO_BUTTON));
    if v.entry.mode == NoMode then Entered(idle, pins) else idle
  }

  // A registered press is settled before another can be.
  ghost predicate Ready(e: Entry, b: Buttons) {
    b.pressed == NO_BUTTON && (e.mode == Programming && Unsettled(e.phase) ==> !b.released)
  }

  lemma SteadyParts(v: View)
    requires Steady(v)
    ensures Sound(v.counters) && (v.entry.mode == NoMode ==> !v.login.entered)
  {
  }

  lemma StartedReady(v: View, pins: Pins)
    requires Steady(v)
    ensures Ready(Started(v, pins).entry, Started(v, pins).buttons)
  {
    hide Combination.Counted, Unsettled;
  }

  // The three parts of a tick make a whole one.
  lemma PartsTick(v: View, w: View, pins: Pins, accept: Verdict, salt: seq<bv32>)
    requires Sane(v) && IsBuffer(salt)
    requires Processed(Started(v, pins), w, pins, accept, salt)
    ensures Ticked(v, Toggled(w, pins), pins, accept, salt)
  {
    ButtonRange(pins);
    hide Pins.AllHigh, Pins.FirstLow, Combination.Counted, Programmed, TypedAfter, Store.Push, XorWords, ModeAfter;
    HeldNotHigh(v.counters, pins);
  }

  lemma StaysProgramming(v: View, v': View, pins: Pins, accept: Verdict, salt: seq<bv32>)
    requires Sane(v) && IsBuffer(salt) && Ticked(v, v', pins, accept, salt)
    ensures v.entry.mode == Programming && !v.entry.phase.Finished? ==> v'.entry.mode == Programming
  {
    hide Pins.FirstLow, TypedAfter, LoginAfter, StoreAfter, Advance, Pins.AllHigh, Stores;
  }

  // What a run of ticks needs to know of each.
  lemma TickInRun(v: View, v': View, pins: Pins, accept: Verdict, salt: seq<bv32>)
    requires Sane(v) && IsBuffer(salt)
    requires Ticked(v, v', pins, accept, salt)
    ensures v.buttons.pressed == NO_BUTTON || v'.buttons.pressed == NO_BUTTON
    ensures v.entry.mode != NoMode ==> v'.buttons == Looked(v.buttons, pins)
    ensures v.entry.selected ==>
      && v'.entry.selected && v'.entry.chosen == v.entry.chosen
      && v'.entry.phase == Advance(v.entry.phase, v'.buttons.pressed, Stores(v.entry.chosen))
    ensures v.entry.mode == Normal ==> v'.entry == v.entry
    ensures v.entry.mode == Programming && !v'.entry.phase.Finished? ==> v'.entry.mode == Programming
  {
    hide Pins.FirstLow, TypedAfter, LoginAfter, StoreAfter, Advance, Pins.AllHigh, ModeAfter, AllCounted, Stores;
    HeldNotHigh(v.counters, pins);
    RegisteredReleased(v.buttons.released, pins);
    FinishedStays(v.entry.phase, Stores(v.entry.chosen));
  }

  lemma RegisteredReleased(released: bool, pins: Pins)
    ensures Registered(released, pins) != NO_BUTTON <==> released && !pins.AllHigh()
  {
  }

  lemma SteadyNext(v: View, v': View, pins: Pins, accept: Verdict, salt: seq<bv32>)
    requires Sane(v) && IsBuffer(salt)
    requires Ticked(v, v', pins, accept, salt)
    ensures Steady(v')
  {
    hide Pins.FirstLow, TypedAfter, StoreAfter, Advance, Pins.AllHigh, ModeAfter, AllCounted, Stores, Sound;
    ButtonRange(pins);
    HeldNotHigh(v.counters, pins);
    Apart(v.counters, pins);
    UnsettledByEnter(v.entry.phase, Registered(v.buttons.released, pins), Stores(v.entry.chosen));
    UnsettledByEnter(v.entry.phase, NO_BUTTON, Stores(v.entry.chosen));
  }

  lemma UnsettledByEnter(phase: Phase, button: nat, stores: bool)
    ensures Unsettled(Advance(phase, button, stores)) ==> button == ENTER_BUTTON || phase.Finished?
  {
    hide SamePass;
  }

  // All counters are zero once a mode is entered.
  lemma Apart(c: Counters, pins: Pins)
    requires Sound(c)
    ensures Sound(AllCounted(c, pins))
    ensures ModeAfter(c, pins) != NoMode ==> AllCounted(c, pins) == ZERO_COUNTERS
    ensures ModeAfter(c, pins) == Programming ==> AllCounted(c, pins) == c.(programming := 0)
  {
  }

  // ------------------------------------------------------------------ runs of ticks

  // Every view but the last is followed by that of the next tick.
  ghost predicate Stepped(views: seq<View>, pins: seq<Pins>, accept: seq<Verdict>, salt: seq<bv32>)
    requires 0 < |views| <= |pins| + 1 && |accept| == |pins|
  {
    && IsBuffer(salt)
    && forall i :: 0 <= i < |views| - 1 ==> Sane(views[i]) && Ticked(views[i], views[i + 1], pins[i], accept[i], salt)
  }

  // What a run of ticks sees and does.
  datatype Trace = Trace(views: seq<View>, pins: seq<Pins>, accept: seq<Verdict>, salt: seq<bv32>) {
    ghost predicate Valid() {
      && |views| == |pins| + 1 && |accept| == |pins| && Sane(views[|pins|]) && Stepped(views, pins, accept, salt)
    }

    // The buttons registered in the first n ticks.
    ghost function Presses(n: nat): seq<nat>
      requires n < |views|
    {
      seq(n, i requires 0 <= i < n => views[i + 1].buttons.pressed)
    }

    // The presses that the pins of the first n ticks amount to.
    ghost function Buttons(n: nat): (presses: seq<nat>)
      requires 0 < |views| && n <= |pins|
      ensures |presses| == n
    {
      Debounce(views[0].buttons.released, pins[..n])
    }
  }

  lemma TraceStep(t: Trace, i: nat)
    requires t.Valid() && i < |t.pins|
    ensures Sane(t.views[i]) && Sane(t.views[i + 1]) && IsBuffer(t.salt)
    ensures Ticked(t.views[i], t.views[i + 1], t.pins[i], t.accept[i], t.salt)
  {
    hide Sane, Ticked;
  }

  lemma PressesSnoc(t: Trace, n: nat)
    requires 0 < n < |t.views|
    ensures t.Presses(n) == t.Presses(n - 1) + [t.views[n].buttons.pressed]
  {
  }

  lemma ButtonsSnoc(t: Trace, n: nat)
    requires t.Valid() && 0 < n <= |t.pins|
    ensures t.Buttons(n) == t.Buttons(n - 1)
              + [Registered(Released(t.views[0].buttons.released, t.pins[..n - 1]), t.pins[n - 1])]
    ensures Released(t.views[0].buttons.released, t.pins[..n]) == t.pins[n - 1].AllHigh()
  {
    hide Sane, Ticked, Debounce, Released;
    assert t.pins[..n] == t.pins[..n - 1] + [t.pins[n - 1]];
    DebounceSnoc(t.views[0].buttons.released, t.pins[..n - 1], t.pins[n - 1]);
  }

  // No two presses in consecutive ticks.
  lemma TraceSpaced(t: Trace)
    requires t.Valid()
    ensures Spaced([t.views[0].buttons.pressed] + t.Presses(|t.pins|))
  {
    hide Sane, Ticked;
    var all := [t.views[0].buttons.pressed] + t.Presses(|t.pins|);
    assert forall i :: 0 <= i < |all| ==> all[i] == t.views[i].buttons.pressed;
    forall i, j | 0 <= i < |all| && j == i + 1 < |all|
      ensures all[i] == NO_BUTTON || all[j] == NO_BUTTON
    {
      TraceStep(t, i);
      TickInRun(t.views[i], t.views[j], t.pins[i], t.accept[i], t.salt);
    }
  }

  // Once a mode has been selected, the protocol takes every press.
  lemma {:induction false} TraceRuns(t: Trace, n: nat)
    requires t.Valid() && n <= |t.pins| && t.views[0].entry.selected
    ensures t.views[n].entry.selected && t.views[n].entry.chosen == t.views[0].entry.chosen
    ensures t.views[n].entry.phase
         == Run(t.views[0].entry.phase, t.Presses(n), Stores(t.views[0].entry.chosen))
    decreases n
  {
    hide Sane, Ticked, Advance, Run, Stores, Stepped;
    var first := t.views[0].entry;
    if n == 0 {
      RunNone(first.phase, Stores(first.chosen));
      assert t.Presses(0) == [];
    } else {
      TraceRuns(t, n - 1);
      TraceStep(t, n - 1);
      TickInRun(t.views[n - 1], t.views[n], t.pins[n - 1], t.accept[n - 1], t.salt);
      PressesSnoc(t, n);
      RunSnoc(first.phase, t.Presses(n - 1), t.views[n].buttons.pressed, Stores(first.chosen));
    }
  }

  // In programming mode the presses are the debounced pins.
  lemma {:induction false} TraceProgramming(t: Trace, n: nat)
    requires t.Valid() && n <= |t.pins| && t.views[0].entry.selected && t.views[0].entry.mode == Programming
    ensures t.views[n].entry.selected && t.views[n].entry.chosen == t.views[0].entry.chosen
    ensures t.views[n].entry.phase == Run(t.views[0].entry.phase, t.Buttons(n), Stores(t.views[0].entry.chosen))
    ensures !t.views[n].entry.phase.Finished? ==>
      && t.views[n].entry.mode == Programming
      && t.views[n].buttons.released == Released(t.views[0].buttons.released, t.pins[..n])
    decreases n
  {
    hide Sane, Ticked, Advance, Run, Stores, Stepped, Debounce, Trace.Buttons, Released, Pins.AllHigh, Registered;
    var first := t.views[0];
    if n == 0 {
      RunNone(first.entry.phase, Stores(first.entry.chosen));
      ButtonsNone(t);
    } else {
      TraceProgramming(t, n - 1);
      TraceStep(t, n - 1);
      TickInRun(t.views[n - 1], t.views[n], t.pins[n - 1], t.accept[n - 1], t.salt);
      ButtonsSnoc(t, n);
      var button := Registered(Released(first.buttons.released, t.pins[..n - 1]), t.pins[n - 1]);
      RunSnoc(first.entry.phase, t.Buttons(n - 1), button, Stores(first.entry.chosen));
      FinishedStays(t.views[n - 1].entry.phase, Stores(first.entry.chosen));
      StaysProgramming(t.views[n - 1], t.views[n], t.pins[n - 1], t.accept[n - 1], t.salt);
    }
  }

  lemma ButtonsNone(t: Trace)
    requires t.Valid()
    ensures t.Buttons(0) == [] && Released(t.views[0].buttons.released, t.pins[..0]) == t.views[0].buttons.released
  {
    hide Sane, Ticked;
    assert t.pins[..0] == [];
    DebounceNone(t.views[0].buttons.released);
  }

  // Normal mode stays on, and its presses are the debounced pins.
  lemma {:induction false} TraceNormal(t: Trace, n: nat)
    requires t.Valid() && n <= |t.pins| && t.views[0].entry.mode == Normal
    ensures t.views[n].entry == t.views[0].entry && t.Presses(n) == t.Buttons(n)
    ensures t.views[n].buttons.released == Released(t.views[0].buttons.released, t.pins[..n])
    decreases n
  {
    hide Sane, Ticked, Stepped, Debounce, Trace.Buttons, Released, Pins.AllHigh, Registered;
    if n == 0 {
      ButtonsNone(t);
    } else {
      TraceNormal(t, n - 1);
      TraceStep(t, n - 1);
      TickInRun(t.views[n - 1], t.views[n], t.pins[n - 1], t.accept[n - 1], t.salt);
      ButtonsSnoc(t, n);
      PressesSnoc(t, n);
    }
  }

  // ------------------------------------------------------------------ runs that enter a mode

  ghost predicate Fresh(v: View) { v.entry.mode == NoMode && v.counters == ZERO_COUNTERS }

  // No tick before the last completes a combination.
  ghost predicate Undecided(pins: seq<Pins>) {
    forall k :: 0 <= k < |pins| ==> ModeEntered(pins[..k]) == NoMode
  }

  function Trails(pins: seq<Pins>): Counters {
    Counters(ForProgramming.Trail(pins), ForDeviceId.Trail(pins), ForUnlock.Trail(pins))
  }

  // Counters that hold the trails complete their combinations exactly when the ticks do.
  lemma TrailsCount(pins: seq<Pins>, next: Pins)
    requires Sound(Trails(pins))
    ensures ModeAfter(Trails(pins), next) == ModeEntered(pins + [next])
    ensures ModeEntered(pins + [next]) == NoMode ==> AllCounted(Trails(pins), next) == Trails(pins + [next])
  {
    hide Combination.Trail, Combination.Completes, Combination.Counted;
    hide Pins.ProgrammingHeld, Pins.DeviceIdHeld, Pins.UnlockHeld;
    TrailCounts(ForProgramming, pins, next);
    TrailCounts(ForDeviceId, pins, next);
    TrailCounts(ForUnlock, pins, next);
  }

  // A tick without a mode, for what the run decides.
  lemma TickWithout(v: View, v': View, pins: Pins, accept: Verdict, salt: seq<bv32>)
    requires Sane(v) && IsBuffer(salt) && v.entry.mode == NoMode
    requires Ticked(v, v', pins, accept, salt)
    ensures var mode := ModeAfter(v.counters, pins);
            && v'.counters == AllCounted(v.counters, pins)
            && v'.entry.mode == (if mode == Programming && v.entry.phase.Finished? then NoMode else mode)
            && v'.login == v.login.(kind := KindAfter(mode, v.login.kind, pins))
            && (mode != Programming ==> v'.store == v.store && v'.entry == v.entry.(mode := mode))
            && (mode != NoMode ==> v'.buttons == Buttons(false, NO_BUTTON, v.buttons.enterSeen))
  {
    hide Combination.Counted, Advance, TypedAfter, ModeAfter, KindAfter, Pins.AllHigh, Pins.FirstLow, Stores;
  }

  /** From a state without a mode and with its counters at zero, a mode is entered in the first tick that ends 101
      or 201 ticks in a row of its combination, and not before: the counters are exactly these rows. */
  lemma {:induction false} ModeEnteredFirst(t: Trace, n: nat)
    requires t.Valid() && n <= |t.pins| && Fresh(t.views[0]) && Undecided(t.pins[..n])
    ensures var mode, v := ModeEntered(t.pins[..n]), t.views[n];
            && v.entry.mode == (if mode == Programming && t.views[0].entry.phase.Finished? then NoMode else mode)
            && (mode == NoMode ==> v.counters == Trails(t.pins[..n]) && v.login.kind == t.views[0].login.kind)
            && (mode == Normal ==>
                  v.login.kind == if ForDeviceId.Completes(t.pins[..n]) then DeviceId else UnlockCryptx2)
            && (mode != Programming ==> v.store == t.views[0].store && v.entry == t.views[0].entry.(mode := mode))
            && (mode != NoMode ==> !v.buttons.released && v.buttons.pressed == NO_BUTTON)
            && v.login == t.views[0].login.(kind := v.login.kind)
    decreases n
  {
    hide Sane, Ticked, Stepped, ModeAfter, AllCounted, ModeEntered, Trails, Sound;
    if n == 0 {
      NoTrails(t.pins[..0]);
    } else {
      var before, next := t.pins[..n - 1], t.pins[n - 1];
      assert t.pins[..n] == before + [next] && t.pins[..n][..n - 1] == before;
      UndecidedBefore(t.pins[..n]);
      ModeEnteredFirst(t, n - 1);
      TraceStep(t, n - 1);
      SaneCounters(t.views[n - 1]);
      TickWithout(t.views[n - 1], t.views[n], next, t.accept[n - 1], t.salt);
      TrailsCount(before, next);
      KindOfRow(before, next, t.views[n - 1].login.kind);
    }
  }

  lemma NoTrails(pins: seq<Pins>)
    requires pins == []
    ensures ModeEntered(pins) == NoMode && Trails(pins) == ZERO_COUNTERS
  {
  }

  lemma UndecidedBefore(pins: seq<Pins>)
    requires pins != [] && Undecided(pins)
    ensures Undecided(pins[..|pins| - 1]) && ModeEntered(pins[..|pins| - 1]) == NoMode
  {
    hide ModeEntered;
    var before := pins[..|pins| - 1];
    forall k | 0 <= k < |before|
      ensures ModeEntered(before[..k]) == NoMode
    {
      assert before[..k] == pins[..k];
    }
  }

  lemma SaneCounters(v: View)
    requires Sane(v)
    ensures Sound(v.counters)
  {
  }

  lemma KindOfRow(before: seq<Pins>, next: Pins, kind: Kind)
    ensures ModeEntered(before + [next]) == Normal ==>
      KindAfter(Normal, kind, next) == if ForDeviceId.Completes(before + [next]) then DeviceId else UnlockCryptx2
  {
    var pins := before + [next];
    assert pins[|pins| - 1] == next;
  }

  // ------------------------------------------------------------------ runs that enter a password

  lemma {:induction false} SymbolsSnoc(ticks: seq<nat>, button: nat, stores: bool)
    ensures Symbols(ticks + [button], stores) == Symbols(ticks, stores) + if stores then SymbolOf(button) else []
    decreases ticks
  {
    if ticks == [] {
      assert [button][1..] == [];
    } else {
      SymbolsSnoc(ticks[1..], button, stores);
      assert (ticks + [button])[1..] == ticks[1..] + [button];
    }
  }

  lemma NoEnterSnoc(ticks: seq<nat>, button: nat)
    ensures NoEnter(ticks + [button]) <==> NoEnter(ticks) && button != ENTER_BUTTON
  {
    var all := ticks + [button];
    assert all[|ticks|] == button;
    assert forall i :: 0 <= i < |ticks| ==> all[i] == ticks[i];
  }

  // A tick of normal mode, in terms of what has been typed.
  lemma TickTyped(v: View, v': View, pins: Pins, accept: Verdict, salt: seq<bv32>)
    requires Sane(v) && Sane(v') && IsBuffer(salt) && Ticked(v, v', pins, accept, salt)
    requires v.entry.mode == Normal && (v.login.entered ==> v.login.kind != DeviceId)
    ensures var button := Registered(v.buttons.released, pins);
            var entered := v.login.entered || button == ENTER_BUTTON;
            && v'.store.typed == v.store.typed + SymbolOf(button) + (if entered then [TERMINATOR] else [])
            && v'.login == Login(entered, v.login.kind,
                                 v.login.unlocked
                                 || (entered && accept(Encode(v.store.typed + SymbolOf(button) + [TERMINATOR]))))
  {
    hide Pins.AllHigh, Pins.FirstLow, Encode, Stored, XorWords, Registered;
    ComparedTyped(v.store, Registered(v.buttons.released, pins));
  }

  // Before enter, the symbols pile up and nothing is compared.
  lemma {:induction false} TraceTyped(t: Trace, n: nat)
    requires t.Valid() && n <= |t.pins| && t.views[0].entry.mode == Normal && !t.views[0].login.entered
    requires NoEnter(t.Buttons(n))
    ensures t.views[n].entry == t.views[0].entry && t.views[n].login == t.views[0].login
    ensures t.views[n].store.typed == t.views[0].store.typed + Symbols(t.Buttons(n), true)
    decreases n
  {
    hide Sane, Ticked, Stepped, Debounce, Trace.Buttons, Released, Pins.AllHigh, Registered, NoEnter, Symbols;
    if n == 0 {
      ButtonsNone(t);
      NoSymbols(true);
    } else {
      var button := Registered(Released(t.views[0].buttons.released, t.pins[..n - 1]), t.pins[n - 1]);
      TraceNormal(t, n - 1);
      ButtonsSnoc(t, n);
      NoEnterSnoc(t.Buttons(n - 1), button);
      TraceTyped(t, n - 1);
      TraceStep(t, n - 1);
      TickTyped(t.views[n - 1], t.views[n], t.pins[n - 1], t.accept[n - 1], t.salt);
      TickInRun(t.views[n - 1], t.views[n], t.pins[n - 1], t.accept[n - 1], t.salt);
      SymbolsSnoc(t.Buttons(n - 1), button, true);
    }
  }

  lemma NoSymbols(stores: bool)
    ensures Symbols([], stores) == []
  {
  }

  /** The first comparison comes with the enter press, and sees what was typed before, the symbols pressed since and
      a terminator. */
  lemma FirstCheck(t: Trace, presses: seq<nat>)
    requires t.Valid() && t.views[0].entry.mode == Normal && !t.views[0].login.entered
    requires t.Buttons(|t.pins|) == presses + [ENTER_BUTTON] && NoEnter(presses)
    ensures var seen := t.views[0].store.typed + Symbols(presses, true) + [TERMINATOR];
            && t.views[|t.pins|].login == Login(true, t.views[0].login.kind,
                                                t.views[0].login.unlocked || t.accept[|t.pins| - 1](Encode(seen)))
            && t.views[|t.pins|].store.typed == seen
  {
    hide Sane, Ticked, Stepped, Debounce, Trace.Buttons, Released, Pins.AllHigh, Registered, NoEnter, Symbols, Encode;
    var n := |t.pins|;
    ButtonsSnoc(t, n);
    var button := Registered(Released(t.views[0].buttons.released, t.pins[..n - 1]), t.pins[n - 1]);
    LastApart(t.Buttons(n - 1), presses, button, ENTER_BUTTON);
    TraceTyped(t, n - 1);
    TraceNormal(t, n - 1);
    TraceStep(t, n - 1);
    TickTyped(t.views[n - 1], t.views[n], t.pins[n - 1], t.accept[n - 1], t.salt);
    assert t.views[n - 1].store.typed + SymbolOf(ENTER_BUTTON) == t.views[n - 1].store.typed;
  }

  lemma LastApart(s: seq<nat>, s': seq<nat>, x: nat, x': nat)
    requires s + [x] == s' + [x']
    ensures s == s' && x == x'
  {
    assert (s + [x])[..|s|] == s && (s' + [x'])[..|s'|] == s';
    assert (s + [x])[|s|] == x && (s' + [x'])[|s'|] == x';
  }

  // What is typed in ticks after the enter press: each adds its symbol, if any, and one more terminator.
  function Ended(presses: seq<nat>): seq<Press> {
    if presses == [] then []
    else Ended(presses[..|presses| - 1]) + SymbolOf(presses[|presses| - 1]) + [TERMINATOR]
  }

  lemma EndedSnoc(presses: seq<nat>, button: nat)
    ensures Ended(presses + [button]) == Ended(presses) + SymbolOf(button) + [TERMINATOR]
  {
    assert (presses + [button])[..|presses|] == presses;
  }

  // Tick i of a run after the enter press finds the password accepted.
  ghost predicate AcceptedIn(t: Trace, i: nat)
    requires t.Valid() && i < |t.pins|
  {
    t.accept[i](Encode(t.views[0].store.typed + Ended(t.Buttons(i + 1))))
  }

  /** After the enter press, every tick compares again, with one more terminator each time: the device is unlocked
      exactly if it was or if one of these buffers is accepted. */
  lemma {:induction false} LaterChecks(t: Trace, n: nat)
    requires t.Valid() && n <= |t.pins| && t.views[0].entry.mode == Normal
    requires t.views[0].login.entered && t.views[0].login.kind != DeviceId
    ensures t.views[n].store.typed == t.views[0].store.typed + Ended(t.Buttons(n))
    ensures t.views[n].login.entered && t.views[n].login.kind == t.views[0].login.kind
    ensures t.views[n].login.unlocked <==> t.views[0].login.unlocked || exists i :: 0 <= i < n && AcceptedIn(t, i)
    decreases n
  {
    hide Sane, Ticked, Stepped, Debounce, Trace.Buttons, Released, Pins.AllHigh, Registered, Encode, Ended, AcceptedIn;
    if n == 0 {
      ButtonsNone(t);
      NothingEnded();
    } else {
      LaterChecks(t, n - 1);
      TraceNormal(t, n - 1);
      TraceStep(t, n - 1);
      ButtonsSnoc(t, n);
      var button := Registered(Released(t.views[0].buttons.released, t.pins[..n - 1]), t.pins[n - 1]);
      EndedSnoc(t.Buttons(n - 1), button);
      TickTyped(t.views[n - 1], t.views[n], t.pins[n - 1], t.accept[n - 1], t.salt);
      var first := t.views[0].store.typed;
      assert first + Ended(t.Buttons(n - 1)) + SymbolOf(button) + [TERMINATOR] == first + Ended(t.Buttons(n));
      AcceptedMeans(t, n - 1);
    }
  }

  lemma NothingEnded()
    ensures Ended([]) == []
  {
  }

  lemma AcceptedMeans(t: Trace, i: nat)
    requires t.Valid() && i < |t.pins|
    ensures AcceptedIn(t, i) <==> t.accept[i](Encode(t.views[0].store.typed + Ended(t.Buttons(i + 1))))
  {
    hide Sane, Stepped, Encode, Ended, Trace.Buttons;
  }

  // ------------------------------------------------------------------ runs in a row

  // A run from tick m on.
  ghost function From(t: Trace, m: nat): Trace
    requires t.Valid() && m <= |t.pins|
  {
    Trace(t.views[m..], t.pins[m..], t.accept[m..], t.salt)
  }

  lemma FromValid(t: Trace, m: nat)
    requires t.Valid() && m <= |t.pins|
    ensures From(t, m).Valid()
  {
    hide Sane, Ticked;
  }

  lemma {:induction false} DebounceAppend(released: bool, before: seq<Pins>, after: seq<Pins>)
    ensures Debounce(released, before + after)
         == Debounce(released, before) + Debounce(Released(released, before), after)
    ensures Released(released, before + after) == Released(Released(released, before), after)
    decreases |after|
  {
    hide Pins.AllHigh, Registered, Debounce, Released;
    if after == [] {
      assert before + after == before;
      DebounceNone(Released(released, before));
    } else {
      var a, x := after[..|after| - 1], after[|after| - 1];
      DebounceAppend(released, before, a);
      assert before + after == before + a + [x] && after == a + [x];
      DebounceSnoc(released, before + a, x);
      DebounceSnoc(Released(released, before), a, x);
    }
  }

  // The presses of a run are those before tick m and those from there on, if the buttons were watched until then.
  lemma ButtonsFrom(t: Trace, m: nat)
    requires t.Valid() && m <= |t.pins|
    requires t.views[m].buttons.released == Released(t.views[0].buttons.released, t.pins[..m])
    ensures From(t, m).Valid()
    ensures t.Buttons(|t.pins|) == t.Buttons(m) + From(t, m).Buttons(|t.pins| - m)
  {
    hide Sane, Ticked, Debounce, Released;
    FromValid(t, m);
    DebounceAppend(t.views[0].buttons.released, t.pins[..m], t.pins[m..]);
    assert t.pins[..m] + t.pins[m..] == t.pins == t.pins[..|t.pins|];
    assert t.pins[m..][..|t.pins| - m] == t.pins[m..];
  }

  /** From a state without a mode: a row of m ticks enters normal mode, then the presses of a password and enter
      follow. The comparison made then sees what was typed before, the password and a terminator. After reset nothing
      was typed before; after a password has been set, what was typed while that ended still is. */
  lemma LogIn(t: Trace, m: nat, presses: seq<nat>)
    requires t.Valid() && m <= |t.pins| && Fresh(t.views[0])
    requires Undecided(t.pins[..m]) && ModeEntered(t.pins[..m]) == Normal
    requires Debounce(false, t.pins[m..]) == presses + [ENTER_BUTTON] && NoEnter(presses)
    ensures var seen := t.views[0].store.typed + Symbols(presses, true) + [TERMINATOR];
            && t.views[|t.pins|].login.unlocked
                 == (t.views[0].login.unlocked || t.accept[|t.pins| - 1](Encode(seen)))
            && t.views[|t.pins|].store.typed == seen
  {
    hide Sane, Ticked, Stepped, Debounce, NoEnter, Symbols, Encode, ModeEntered, Undecided;
    ModeEnteredFirst(t, m);
    TraceStep(t, 0);
    NotEntered(t.views[0]);
    FromValid(t, m);
    assert t.pins[m..][..|t.pins| - m] == t.pins[m..];
    FirstCheck(From(t, m), presses);
  }

  // A password is compared as the sequence that was pressed exactly if nothing was typed before it.
  lemma SeenAlone(before: seq<Press>, password: seq<Press>)
    requires |before + password| <= 127
    ensures Encode(before + password + [TERMINATOR]) == Encode(password + [TERMINATOR]) <==> before == []
  {
    hide Encode;
    SamePassIffEqual(before + password, password);
    assert before == [] ==> before + password == password;
  }

  lemma NotEntered(v: View)
    requires Fresh(v)
    ensures Sane(v) ==> !v.login.entered
  {
  }

  // ------------------------------------------------------------------ what setting a password leaves behind

  lemma TickRound(v: View, v': View, pins: Pins, accept: Verdict, salt: seq<bv32>)
    requires Sane(v) && IsBuffer(salt) && Ticked(v, v', pins, accept, salt)
    requires v.entry.mode == Programming && v.entry.selected
    ensures var button := Registered(v.buttons.released, pins);
            && v'.store.typed == TypedAfter(v.store.typed, v.entry.phase, button, v.entry.chosen)
            && v'.entry == Programmed(v.entry, button) && v'.counters == ZERO_COUNTERS
  {
    hide TypedAfter, Programmed, Pins.AllHigh, Pins.FirstLow;
  }

  lemma AcceptedStays(button: nat, stores: bool)
    requires button != ENTER_BUTTON
    ensures Advance(Accepted, button, stores) == Accepted
  {
  }

  // Between acceptance and the last enter press, the mode of the unlock password goes on storing symbols.
  lemma {:induction false} TraceAccepted(t: Trace, n: nat)
    requires t.Valid() && n <= |t.pins| && NoEnter(t.Buttons(n))
    requires t.views[0].entry.selected && t.views[0].entry.mode == Programming && t.views[0].entry.phase == Accepted
    ensures t.views[n].entry == t.views[0].entry
    ensures t.views[n].store.typed
         == t.views[0].store.typed + Symbols(t.Buttons(n), t.views[0].entry.chosen == UNLOCK_PASSWORD)
    decreases n
  {
    hide Sane, Ticked, Stepped, Debounce, Trace.Buttons, Released, Pins.AllHigh, Registered, NoEnter, Symbols, Stores;
    hide Run, Advance;
    var stores := t.views[0].entry.chosen == UNLOCK_PASSWORD;
    if n == 0 {
      ButtonsNone(t);
      NoSymbols(stores);
    } else {
      var button := Registered(Released(t.views[0].buttons.released, t.pins[..n - 1]), t.pins[n - 1]);
      ButtonsSnoc(t, n);
      NoEnterSnoc(t.Buttons(n - 1), button);
      TraceAccepted(t, n - 1);
      TraceProgramming(t, n - 1);
      TraceStep(t, n - 1);
      TickRound(t.views[n - 1], t.views[n], t.pins[n - 1], t.accept[n - 1], t.salt);
      AcceptedStays(button, Stores(t.views[0].entry.chosen));
      SymbolsSnoc(t.Buttons(n - 1), button, stores);
    }
  }

  // The last enter press ends the mode in the tick after it, which stores a terminator for the unlock password.
  lemma RoundEnds(t: Trace, presses: seq<nat>, last: nat)
    requires t.Valid() && t.Buttons(|t.pins|) == presses + [ENTER_BUTTON] + [last] && NoEnter(presses)
    requires t.views[0].entry.selected && t.views[0].entry.mode == Programming && t.views[0].entry.phase == Accepted
    ensures Fresh(t.views[|t.pins|]) && t.views[|t.pins|].entry.phase == Finished
    ensures var unlock, before := t.views[0].entry.chosen == UNLOCK_PASSWORD, t.views[0].store.typed;
            t.views[|t.pins|].store.typed == before + Symbols(presses, unlock) + if unlock then [TERMINATOR] else []
  {
    hide Sane, Ticked, Stepped, Debounce, Trace.Buttons, Released, Pins.AllHigh, Registered, NoEnter, Symbols, Stores;
    hide Run;
    var n := |t.pins|;
    var released := t.views[0].buttons.released;
    ButtonsSnoc(t, n);
    var button := Registered(Released(released, t.pins[..n - 1]), t.pins[n - 1]);
    LastApart(t.Buttons(n - 1), presses + [ENTER_BUTTON], button, last);
    ButtonsSnoc(t, n - 1);
    LastApart(t.Buttons(n - 2), presses, Registered(Released(released, t.pins[..n - 2]), t.pins[n - 2]), ENTER_BUTTON);
    TraceAccepted(t, n - 2);
    TraceProgramming(t, n - 2);
    TraceStep(t, n - 2);
    TraceStep(t, n - 1);
    TickRound(t.views[n - 2], t.views[n - 1], t.pins[n - 2], t.accept[n - 2], t.salt);
    TickRound(t.views[n - 1], t.views[n], t.pins[n - 1], t.accept[n - 1], t.salt);
    assert SymbolOf(ENTER_BUTTON) == [];
    assert t.views[n - 2].store.typed + [] == t.views[n - 2].store.typed;
  }

  /** A whole round of setting a password: two equal entries, then presses up to a last enter. What stays in the first
      buffer is not cleared when the mode ends: for the unlock password the last presses and a terminator. */
  lemma RoundLeaves(t: Trace, t1: seq<nat>, t2: seq<nat>, presses: seq<nat>, last: nat)
    requires t.Valid() && t.views[0].entry.selected && t.views[0].entry.mode == Programming
    requires t.views[0].entry.phase == Idle && NoEnter(t1) && NoEnter(t2) && NoEnter(presses)
    requires t.Buttons(|t.pins|)
          == t1 + [ENTER_BUTTON] + (t2 + [ENTER_BUTTON]) + [NO_BUTTON] + (presses + [ENTER_BUTTON] + [last])
    requires var stores := Stores(t.views[0].entry.chosen); SamePass(Symbols(t1, stores), Symbols(t2, stores))
    ensures Fresh(t.views[|t.pins|]) && t.views[|t.pins|].entry.phase == Finished
    ensures t.views[|t.pins|].store.typed
         == if t.views[0].entry.chosen == UNLOCK_PASSWORD then Symbols(presses, true) + [TERMINATOR] else []
  {
    hide Sane, Ticked, Stepped, Debounce, Trace.Buttons, Released, NoEnter, Symbols, Stores, SamePass, Run, Registered;
    var entries, rest := t1 + [ENTER_BUTTON] + (t2 + [ENTER_BUTTON]), presses + [ENTER_BUTTON] + [last];
    var m, stores := |entries| + 1, Stores(t.views[0].entry.chosen);
    TraceProgramming(t, m);
    TraceProgramming(t, m - 1);
    ButtonsPrefix(t, m);
    ButtonsPrefix(t, m - 1);
    assert (entries + [NO_BUTTON] + rest)[..m] == entries + [NO_BUTTON];
    assert (entries + [NO_BUTTON] + rest)[..m - 1] == entries;
    EntriesDone(t1, t2, stores);
    DoubleEntry(t1, t2, stores);
    TraceStep(t, m - 1);
    TickRound(t.views[m - 1], t.views[m], t.pins[m - 1], t.accept[m - 1], t.salt);
    ButtonsFrom(t, m);
    assert (entries + [NO_BUTTON] + rest)[m..] == rest;
    RoundEnds(From(t, m), presses, last);
    NoneStored(presses);
  }

  lemma ButtonsPrefix(t: Trace, k: nat)
    requires t.Valid() && k <= |t.pins|
    ensures t.Buttons(|t.pins|)[..k] == t.Buttons(k)
  {
    hide Sane, Ticked, Debounce, Released;
    DebounceAppend(t.views[0].buttons.released, t.pins[..k], t.pins[k..]);
    assert t.pins[..k] + t.pins[k..] == t.pins == t.pins[..|t.pins|];
  }

  lemma {:induction false} NoneStored(ticks: seq<nat>)
    ensures Symbols(ticks, false) == []
    decreases ticks
  {
    if ticks != [] {
      NoneStored(ticks[1..]);
    }
  }

  // ------------------------------------------------------------------ the protocol's lemmas

  lemma RunNone(phase: Phase, stores: bool)
    ensures Run(phase, [], stores) == phase
  {
  }

  lemma {:induction false} RunAppend(phase: Phase, s: seq<nat>, t: seq<nat>, stores: bool)
    ensures Run(phase, s + t, stores) == Run(Run(phase, s, stores), t, stores)
    decreases s
  {
    hide Advance;
    if s == [] {
      assert s + t == t;
    } else {
      assert (s + t)[1..] == s[1..] + t;
      RunAppend(Advance(phase, s[0], stores), s[1..], t, stores);
    }
  }

  lemma RunSnoc(phase: Phase, s: seq<nat>, button: nat, stores: bool)
    ensures Run(phase, s + [button], stores) == Advance(Run(phase, s, stores), button, stores)
  {
    hide Advance;
    RunAppend(phase, s, [button], stores);
    RunOne(Run(phase, s, stores), button, stores);
  }

  lemma RunOne(phase: Phase, button: nat, stores: bool)
    ensures Run(phase, [button], stores) == Advance(phase, button, stores)
  {
    hide Advance;
    assert [button][1..] == [];
  }

  lemma FinishedStays(phase: Phase, stores: bool)
    ensures phase.Finished? ==> forall button :: Advance(phase, button, stores) == phase
  {
  }

  // Symbols pile up while an entry is open.
  lemma {:induction false} RunFirst(a: seq<Press>, ticks: seq<nat>, stores: bool)
    requires NoEnter(ticks)
    ensures Run(First(a), ticks, stores) == First(a + Symbols(ticks, stores))
    decreases ticks
  {
    if ticks == [] {
      assert a + [] == a;
    } else {
      var a' := if stores && ticks[0] < 4 then a + [AsPress(ticks[0])] else a;
      RunFirst(a', ticks[1..], stores);
      assert a' + Symbols(ticks[1..], stores) == a + Symbols(ticks, stores);
    }
  }

  lemma {:induction false} RunSecond(a: seq<Press>, b: seq<Press>, ticks: seq<nat>, stores: bool)
    requires NoEnter(ticks)
    ensures Run(Second(a, b), ticks, stores) == Second(a, b + Symbols(ticks, stores))
    decreases ticks
  {
    if ticks == [] {
      assert b + [] == b;
    } else {
      var b' := if stores && ticks[0] < 4 then b + [AsPress(ticks[0])] else b;
      RunSecond(a, b', ticks[1..], stores);
      assert b' + Symbols(ticks[1..], stores) == b + Symbols(ticks, stores);
    }
  }

  // A settled phase runs on like the phase it settles.
  lemma RunSettled(phase: Phase, ticks: seq<nat>, stores: bool)
    requires ticks != [] && !phase.SecondDone?
    ensures Run(phase, ticks, stores) == Run(Settled(phase), ticks, stores)
  {
    hide SamePass;
    assert Settled(Settled(phase)) == Settled(phase);
  }

  /** The whole double entry: whatever ticks the two sequences take, the second enter press leads to acceptance
      exactly when both left the same buffers, and otherwise back to the start. */
  lemma DoubleEntry(t1: seq<nat>, t2: seq<nat>, stores: bool)
    requires NoEnter(t1) && NoEnter(t2)
    ensures Run(Idle, t1 + [ENTER_BUTTON] + (t2 + [ENTER_BUTTON]) + [NO_BUTTON], stores)
            == if SamePass(Symbols(t1, stores), Symbols(t2, stores)) then Accepted else Idle
  {
    hide Run, Symbols, SamePass, NoEnter;
    var a, b := Symbols(t1, stores), Symbols(t2, stores);
    EntriesDone(t1, t2, stores);
    RunAppend(Idle, t1 + [ENTER_BUTTON] + (t2 + [ENTER_BUTTON]), [NO_BUTTON], stores);
    RunOne(SecondDone(a, b), NO_BUTTON, stores);
  }

  lemma EntriesDone(t1: seq<nat>, t2: seq<nat>, stores: bool)
    requires NoEnter(t1) && NoEnter(t2)
    ensures Run(Idle, t1 + [ENTER_BUTTON] + (t2 + [ENTER_BUTTON]), stores)
         == SecondDone(Symbols(t1, stores), Symbols(t2, stores))
  {
    hide Run, Symbols, SamePass, NoEnter;
    var a, b := Symbols(t1, stores), Symbols(t2, stores);
    var e1, e2 := t1 + [ENTER_BUTTON], t2 + [ENTER_BUTTON];
    RunAppend(Idle, e1, e2, stores);
    RunSettled(Idle, e1, stores);
    RunSnoc(First([]), t1, ENTER_BUTTON, stores);
    RunFirst([], t1, stores);
    assert [] + a == a && [] + b == b;
    RunSettled(FirstDone(a), e2, stores);
    RunSnoc(Second(a, []), t2, ENTER_BUTTON, stores);
    RunSecond(a, [], t2, stores);
  }

  /** The symbols of some buttons are their numbers. */
  lemma {:induction false} SymbolsAreButtons(ticks: seq<nat>)
    ensures |Symbols(ticks, true)| == |ButtonsOf(ticks)|
    ensures forall i :: 0 <= i < |ButtonsOf(ticks)| ==> Number(Symbols(ticks, true)[i]) == ButtonsOf(ticks)[i]
    decreases ticks
  {
    hide AsPress, Number;
    if ticks != [] {
      SymbolsAreButtons(ticks[1..]);
    }
  }

  /** So that two runs of ticks store the same symbols exactly if the same buttons were pressed. */
  lemma SameSymbols(t1: seq<nat>, t2: seq<nat>)
    ensures Symbols(t1, true) == Symbols(t2, true) <==> ButtonsOf(t1) == ButtonsOf(t2)
  {
    hide Symbols, ButtonsOf, Number;
    SymbolsAreButtons(t1);
    SymbolsAreButtons(t2);
    var s1, s2, b1, b2 := Symbols(t1, true), Symbols(t2, true), ButtonsOf(t1), ButtonsOf(t2);
    if b1 == b2 {
      forall i | 0 <= i < |s1|
        ensures s1[i] == s2[i]
      {
        assert Number(s1[i]) == b1[i] && Number(s2[i]) == b2[i];
        SameNumber(s1[i], s2[i]);
      }
    }
    if s1 == s2 {
      forall i | 0 <= i < |b1|
        ensures b1[i] == b2[i]
      {
        assert Number(s1[i]) == b1[i] && Number(s2[i]) == b2[i];
      }
    }
  }

  /** A double entry is accepted exactly when the same buttons were pressed twice, up to 127 of them, or in a mode that
      stores none. */
  lemma AcceptedIffEqual(t1: seq<nat>, t2: seq<nat>, stores: bool)
    requires NoEnter(t1) && NoEnter(t2)
    requires stores ==> |ButtonsOf(t1)| <= 127 && |ButtonsOf(t2)| <= 127
    ensures Run(Idle, t1 + [ENTER_BUTTON] + (t2 + [ENTER_BUTTON]) + [NO_BUTTON], stores)
         == if !stores || ButtonsOf(t1) == ButtonsOf(t2) then Accepted else Idle
  {
    hide Run, Symbols, SamePass, ButtonsOf;
    DoubleEntry(t1, t2, stores);
    if stores {
      SymbolsAreButtons(t1);
      SymbolsAreButtons(t2);
      SameSymbols(t1, t2);
      SamePassIffEqual(Symbols(t1, true), Symbols(t2, true));
    } else {
      NoneStored(t1);
      NoneStored(t2);
      SamePassIffEqual([], []);
    }
  }

  // Of the four modes, the first and the last store symbols.
  lemma StoringModes(mode: nat)
    ensures Stores(mode) <==> mode == 0 || mode == 3
  {
  }

  // What normal mode compares after some presses are the numbers of their buttons.
  lemma PressesWritten(presses: seq<nat>)
    requires |ButtonsOf(presses)| <= 127
    ensures Writes(Encode(Symbols(presses, true) + [TERMINATOR]), ButtonsOf(presses))
    ensures forall w :: Writes(w, ButtonsOf(presses)) ==> w == Encode(Symbols(presses, true) + [TERMINATOR])
  {
    hide Encode, Symbols, ButtonsOf, Writes, Number;
    SymbolsAreButtons(presses);
    EncodeWrites(Symbols(presses, true), ButtonsOf(presses));
  }

  lemma ButtonRange(pins: Pins)
    ensures pins.FirstLow() < 4 || pins.FirstLow() == ENTER_BUTTON || pins.FirstLow() == NO_BUTTON
    ensures pins.FirstLow() == NO_BUTTON <==> pins.AllHigh()
  {
  }

  lemma EnterKeeps(phase: Phase, passCode: Buffer, temp: seq<bv32>, temp1: seq<bv32>, index: nat)
    requires Collecting(phase) && Held(phase, passCode, temp, temp1, index)
    ensures Collecting(phase)
    ensures forall stores :: var next := Pressed(phase, ENTER_BUTTON, stores);
              Collecting(next) && Held(next, passCode, temp, temp1, index)
  {
    hide Encode;
  }

  // Storing a symbol lengthens the sequence being entered.
  lemma StoredKeeps(phase: Phase, v: Press, passCode: Buffer, temp: seq<bv32>, temp1: seq<bv32>, index: nat)
    requires phase.First? || phase.Second?
    requires IsBuffer(temp) && IsBuffer(temp1) && index < 128 && Held(phase, passCode, temp, temp1, index)
    ensures passCode == if phase.First? then TempPassword else TempPassword1
    ensures phase.First? ==> Held(First(phase.a + [v]), passCode, Stored(temp, index, v), temp1, (index + 1) % 128)
    ensures phase.Second? ==>
      Held(Second(phase.a, phase.b + [v]), passCode, temp, Stored(temp1, index, v), (index + 1) % 128)
  {
    hide Stored, Encode;
    EncodeNext(if phase.First? then phase.a else phase.b, v);
  }

  lemma HeldNone()
    ensures Held(First([]), TempPassword, CLEARED, CLEARED, 0)
  {
  }

  lemma HeldFirst(phase: Phase, passCode: Buffer, temp: seq<bv32>, temp1: seq<bv32>, index: nat)
    requires phase.FirstDone? && Held(phase, passCode, temp, temp1, index)
    ensures passCode == TempPassword && IsBuffer(temp) && index < 128
    ensures Held(Second(phase.a, []), TempPassword1, Stored(temp, index, TERMINATOR), temp1, 0)
  {
    hide Stored;
    EncodeNext(phase.a, TERMINATOR);
  }

  // Comparing the buffers after the second terminator compares the sequences.
  lemma HeldSecond(phase: Phase, passCode: Buffer, temp: seq<bv32>, temp1: seq<bv32>, index: nat)
    requires phase.SecondDone? && Held(phase, passCode, temp, temp1, index)
    ensures passCode == TempPassword1 && IsBuffer(temp1) && index < 128
    ensures SamePass(phase.a, phase.b) <==> temp == Stored(temp1, index, TERMINATOR)
  {
    hide Stored, Encode;
    EncodeNext(phase.b, TERMINATOR);
  }

  lemma EncodeNext(s: seq<Press>, v: Press)
    ensures Encode(s + [v]) == Stored(Encode(s), |s| % 128, v)
    ensures (|s| % 128 + 1) % 128 == |s + [v]| % 128
  {
    hide Stored;
    EncodeSnoc(s, v);
    NextIndex(|s|);
  }

  lemma EncodeSnoc(s: seq<Press>, v: Press)
    ensures Encode(s + [v]) == Stored(Encode(s), |s| % 128, v)
  {
    hide Stored;
    var t := s + [v];
    assert t[..|t| - 1] == s;
  }

  lemma NextIndex(n: nat)
    ensures (n % 128 + 1) % 128 == (n + 1) % 128
  {
  }
}
