/** The 100 Hz tick handler of tc_task.c: debounced buttons, the programming mode that asks for a password
    twice, and the normal mode that asks for it once. Each tick reads one snapshot of the pins. */
module TickMachine {
  import opened Passcode
  import opened TickProtocol

  class Handler {
    var entryMode: EntryMode
    var modeSelected: bool
    var modeChosen: nat
    var enterStatus: nat
    var buttonReleased: bool
    var normalEntered: bool
    var normalChosen: Kind
    var tempPassword: seq<bv32>
    var tempPassword1: seq<bv32>
    var passCode: Buffer
    var byteIndex: nat
    var programmingCounter: nat
    var deviceIdCounter: nat
    var unlockCounter: nat
    var unlocked: bool
    var readOnly0: bool
    var readOnly1: bool
    var deviceUnlocked: bool

    ghost var phase: Phase
    ghost var pressed: nat  // the button registered in the last tick
    ghost var typed: seq<Press>  // the symbols in tempPassword while it accumulates

    ghost predicate Valid()
      reads this
    {
      Shapes() && Contents() && Typing() && Steady(AsView())
    }

    ghost predicate Shapes()
      reads `tempPassword, `tempPassword1, `byteIndex, `modeSelected, `modeChosen, `enterStatus, `phase,
            `entryMode
    {
      && IsBuffer(tempPassword) && IsBuffer(tempPassword1) && byteIndex < 128
      && (modeSelected ==> modeChosen < 4)
      && enterStatus == Status(phase) <= 6
      && (!phase.Idle? ==> modeSelected)
      && (modeSelected && entryMode != Programming ==> phase.Finished?)
      && (!phase.Idle? && !phase.Finished? ==> entryMode == Programming)
    }

    // The buffers hold the symbols of the phase, and the passcode pointer is set.
    ghost predicate Contents()
      reads `passCode, `tempPassword, `tempPassword1, `byteIndex, `phase, `entryMode
    {
      && (!phase.Idle? ==> passCode != Unset)
      && (entryMode == Normal ==> passCode == TempPassword)
      && (Collecting(phase) ==> Held(phase, passCode, tempPassword, tempPassword1, byteIndex))
    }

    // The buffer behind the passcode pointer holds what has been typed.
    ghost predicate Typing()
      reads `tempPassword, `byteIndex, `passCode, `typed, `entryMode, `phase, `normalEntered, `normalChosen
    {
      && (normalEntered ==> entryMode == Normal)
      && (phase.Accepted? || phase.Finished? ==> passCode == TempPassword)
      && (Accumulates(entryMode, phase, normalEntered, normalChosen) ==> Typed(AsStore()))
    }

    // The parts of the state that a tick is described by.
    ghost function AsView(): View
      reads this
    {
      View(AsEntry(), AsButtons(), AsCounters(), AsLogin(), AsStore(), Flags(readOnly0, readOnly1))
    }

    ghost function AsEntry(): Entry
      reads `entryMode, `modeSelected, `modeChosen, `phase
    {
      Entry(entryMode, modeSelected, modeChosen, phase)
    }

    ghost function AsButtons(): Buttons
      reads `buttonReleased, `pressed, `deviceUnlocked
    {
      Buttons(buttonReleased, pressed, deviceUnlocked)
    }

    ghost function AsCounters(): Counters
      reads `programmingCounter, `deviceIdCounter, `unlockCounter
    {
      Counters(programmingCounter, deviceIdCounter, unlockCounter)
    }

    ghost function AsLogin(): Login
      reads `normalEntered, `normalChosen, `unlocked
    {
      Login(normalEntered, normalChosen, unlocked)
    }

    ghost function AsStore(): Store
      reads `tempPassword, `byteIndex, `typed
    {
      Store(tempPassword, byteIndex, typed)
    }

    // The values after reset.
    constructor ()
      ensures Valid() && phase == Idle && entryMode == NoMode && !modeSelected && pressed == NO_BUTTON && !unlocked
      ensures typed == [] && programmingCounter == deviceIdCounter == unlockCounter == 0
      ensures buttonReleased && !normalEntered && !readOnly0 && !readOnly1 && !deviceUnlocked
    {
      entryMode, modeSelected, modeChosen, enterStatus := NoMode, false, 0xff, READY_TO_TRIGGER;
      buttonReleased, normalEntered, normalChosen := true, false, NoKind;
      tempPassword, tempPassword1, passCode, byteIndex := CLEARED, CLEARED, Unset, 0;
      programmingCounter, deviceIdCounter, unlockCounter := 0, 0, 0;
      unlocked, readOnly0, readOnly1, deviceUnlocked := false, false, false, false;
      phase, pressed, typed := Idle, NO_BUTTON, [];
    }

    // button_pressed with is_button_released and read_push_button
    method ButtonPressed(pins: Pins) returns (button: nat)
      modifies `buttonReleased, `deviceUnlocked
      ensures button == if old(buttonReleased) then pins.FirstLow() else NO_BUTTON
      ensures buttonReleased == pins.AllHigh()
      ensures deviceUnlocked == (old(deviceUnlocked) || button == ENTER_BUTTON)
    {
      if pins.pb1 && pins.pb2 && pins.pb3 && pins.pb4 && pins.enter && !buttonReleased {
        buttonReleased := true;
      }
      button := NO_BUTTON;
      if buttonReleased {
        if !pins.pb1 {
          buttonReleased, button := false, 0;
        } else if !pins.pb2 {
          buttonReleased, button := false, 1;
        } else if !pins.pb3 {
          buttonReleased, button := false, 2;
        } else if !pins.pb4 {
          buttonReleased, button := false, 3;
        } else if !pins.enter {
          buttonReleased, button, deviceUnlocked := false, ENTER_BUTTON, true;
        }
      }
    }

    // store_passcode
    method StorePasscode(value: Press)
      requires passCode != Unset && IsBuffer(tempPassword) && IsBuffer(tempPassword1) && byteIndex < 128
      modifies `tempPassword, `tempPassword1, `byteIndex
      ensures byteIndex == (old(byteIndex) + 1) % 128
      ensures tempPassword == if passCode == TempPassword then Stored(old(tempPassword), old(byteIndex), value)
                              else old(tempPassword)
      ensures tempPassword1 == if passCode == TempPassword1 then Stored(old(tempPassword1), old(byteIndex), value)
                               else old(tempPassword1)
    {
      hide Stored;
      if passCode == TempPassword {
        tempPassword := OrInto(tempPassword, byteIndex, value);
      } else {
        tempPassword1 := OrInto(tempPassword1, byteIndex, value);
      }
      byteIndex := byteIndex + 1;
      if byteIndex >= 128 {
        byteIndex := 0;
      }
    }

    // Read_button
    method ReadButton(pins: Pins)
      requires Shapes() && Contents() && Typing() && entryMode != NoMode
      requires entryMode == Programming && modeSelected && (phase.Idle? || Unsettled(phase)) ==> !buttonReleased
      modifies `buttonReleased, `deviceUnlocked, `enterStatus, `normalEntered, `modeChosen, `modeSelected,
               `tempPassword, `tempPassword1, `byteIndex, `phase, `pressed, `typed
      ensures Shapes() && Contents() && Typing()
      ensures AsButtons() == Looked(old(AsButtons()), pins)
      ensures entryMode == Programming && !old(modeSelected) ==> AsEntry() == Programmed(old(AsEntry()), pressed)
      ensures entryMode == Programming && old(modeSelected) ==>
        AsEntry() == old(AsEntry()).(phase := Pressed(old(phase), pressed, Stores(modeChosen)))
      ensures entryMode == Programming && !old(modeSelected) ==> typed == old(typed)
      ensures entryMode == Programming && old(modeSelected) ==>
        typed == old(typed) + if old(phase).Accepted? && modeChosen == UNLOCK_PASSWORD then SymbolOf(pressed) else []
      ensures entryMode == Normal ==> AsEntry() == old(AsEntry()) && AsStore() == old(AsStore()).Take(pressed)
      ensures normalEntered == (old(normalEntered) || (entryMode == Normal && pressed == ENTER_BUTTON))
    {
      hide Handler.Shapes, Handler.Contents, Handler.Typing, Pins.FirstLow, Pins.AllHigh, Store.Push, Stores;
      ButtonRange(pins);
      var button := ButtonPressed(pins);
      pressed := button;
      if button == ENTER_BUTTON {
        if entryMode == Programming {
          if modeSelected {
            EndEntry();
          }
        } else {
          PasswordEntered();
        }
      } else if button != NO_BUTTON {
        if entryMode == Programming {
          if modeSelected {
            TakeSymbol(button);
          } else {
            SelectMode(button);
          }
        } else {
          StoreTyped(AsPress(button));
        }
      }
    }

    // Enter in normal mode
    method PasswordEntered()
      requires Shapes() && Contents() && Typing() && entryMode == Normal
      modifies `normalEntered
      ensures Shapes() && Contents() && Typing() && normalEntered
    {
      hide Typed, Held;
      if !normalEntered {
        normalEntered := true;
      }
    }

    // The first button in programming mode selects what is set.
    method SelectMode(button: nat)
      requires Shapes() && Contents() && Typing() && entryMode == Programming && !modeSelected && button < 4
      modifies `modeChosen, `modeSelected
      ensures Shapes() && Contents() && Typing() && modeSelected && modeChosen == button
    {
      hide Typed, Held;
      modeChosen, modeSelected := button, true;
    }

    // Enter ends an entry, or the wait after acceptance.
    method EndEntry()
      requires Shapes() && Contents() && Typing() && entryMode == Programming
      requires phase.First? || phase.Second? || phase.Accepted?
      modifies `enterStatus, `phase
      ensures Shapes() && Contents() && Typing()
      ensures phase == Pressed(old(phase), ENTER_BUTTON, Stores(modeChosen))
    {
      hide Encode, Held, Typed;
      if Collecting(phase) {
        EnterKeeps(phase, passCode, tempPassword, tempPassword1, byteIndex);
      }
      phase := Pressed(phase, ENTER_BUTTON, Stores(modeChosen));
      enterStatus := enterStatus + 1;
    }

    // A symbol, in the modes that store it.
    method TakeSymbol(button: nat)
      requires Shapes() && Contents() && Typing() && entryMode == Programming && modeSelected && button < 4
      requires phase.First? || phase.Second? || phase.Accepted?
      modifies `tempPassword, `tempPassword1, `byteIndex, `phase, `typed
      ensures Shapes() && Contents() && Typing()
      ensures phase == Pressed(old(phase), button, Stores(modeChosen))
      ensures typed == old(typed) + if phase.Accepted? && modeChosen == UNLOCK_PASSWORD then SymbolOf(button) else []
    {
      hide Encode, Stored, Held, Typed;
      if modeChosen == UNLOCK_PASSWORD || (modeChosen == DEVICE_ID_CONFIRM && enterStatus != WAITING_FOR_USER_INPUT) {
        StoreSymbol(button);
      }
    }

    // A button's symbol joins the sequence being entered.
    method StoreSymbol(button: nat)
      requires Shapes() && Contents() && Typing() && button < 4 && entryMode == Programming
      requires phase.First? || phase.Second? || phase.Accepted?
      modifies `tempPassword, `tempPassword1, `byteIndex, `phase, `typed
      ensures Shapes() && Contents() && Typing()
      ensures phase == Pressed(old(phase), button, true)
      ensures typed == old(typed) + if phase.Accepted? then [AsPress(button)] else []
    {
      hide Stored, Held, Typed;
      if phase.Accepted? {
        TypedNext(AsStore(), AsPress(button));
        typed := typed + [AsPress(button)];
      } else {
        StoredKeeps(phase, AsPress(button), passCode, tempPassword, tempPassword1, byteIndex);
      }
      StorePasscode(AsPress(button));
      phase := Pressed(phase, button, true);
    }

    // store_passcode in normal mode
    method StoreTyped(value: Press)
      requires Shapes() && Contents() && Typing() && entryMode == Normal
      modifies `tempPassword, `tempPassword1, `byteIndex, `typed
      ensures Shapes() && Contents() && Typing()
      ensures AsStore() == old(AsStore()).Push(value)
    {
      hide Stored, Typed, Held, Encode;
      if Typed(AsStore()) {
        TypedNext(AsStore(), value);
      }
      StorePasscode(value);
      typed := typed + [value];
    }

    // process_selected_mode, up to its call of Read_button; done is the value SUCCESSFUL
    method SettleLastPress(salt: seq<bv32>) returns (done: bool)
      requires Shapes() && Contents() && Typing() && entryMode == Programming && modeSelected && IsBuffer(salt)
      modifies `enterStatus, `passCode, `byteIndex, `tempPassword, `tempPassword1, `phase, `typed
      ensures Shapes() && Contents() && Typing()
      ensures phase == Settled(old(phase)) && done == phase.Finished?
      ensures typed == TypedAfter(old(typed), old(phase), NO_BUTTON, modeChosen)
      ensures done ==> tempPassword1 == if modeChosen == DEVICE_ID_CONFIRM then XorWords(old(tempPassword1), salt)
                                        else old(tempPassword1)
    {
      hide Encode, SamePass, Held, Typed, XorWords;
      done := false;
      if enterStatus == READY_TO_TRIGGER {
        StartFirst();
      } else if enterStatus == FIRST_TIME_PRESSED {
        StartSecond();
      } else if enterStatus == SECOND_TIME_PRESSED {
        CompareEntries();
      } else if enterStatus == THIRD_TIME_PRESSED {
        FinishRound(salt);
        done := true;
      }
    }

    // process_selected_mode, READY_TO_TRIGGER
    method StartFirst()
      requires Shapes() && Contents() && Typing() && entryMode == Programming && modeSelected && phase.Idle?
      modifies `enterStatus, `passCode, `byteIndex, `tempPassword, `tempPassword1, `phase
      ensures Shapes() && Contents() && Typing() && phase == First([])
    {
      hide Encode, Held, Typed;
      HeldNone();
      tempPassword, tempPassword1 := CLEARED, CLEARED;
      passCode, byteIndex, enterStatus := TempPassword, 0, WAITING_FOR_FIRST_PRESS;
      phase := First([]);
    }

    // process_selected_mode, FIRST_TIME_PRESSED
    method StartSecond()
      requires Shapes() && Contents() && Typing() && entryMode == Programming && modeSelected && phase.FirstDone?
      modifies `enterStatus, `passCode, `byteIndex, `tempPassword, `tempPassword1, `phase
      ensures Shapes() && Contents() && Typing() && phase == Second(old(phase).a, [])
    {
      hide Encode, Stored, Held, Typed;
      HeldFirst(phase, passCode, tempPassword, tempPassword1, byteIndex);
      StorePasscode(TERMINATOR);
      passCode, byteIndex, enterStatus := TempPassword1, 0, WAITING_FOR_SECOND_PRESS;
      phase := Second(phase.a, []);
    }

    // process_selected_mode, SECOND_TIME_PRESSED
    method CompareEntries()
      requires Shapes() && Contents() && Typing() && entryMode == Programming && modeSelected && phase.SecondDone?
      modifies `enterStatus, `passCode, `byteIndex, `tempPassword, `tempPassword1, `phase, `typed
      ensures Shapes() && Contents() && Typing() && typed == []
      ensures phase == if SamePass(old(phase).a, old(phase).b) then Accepted else Idle
    {
      hide Encode, Stored, SamePass, Held, Typed;
      HeldSecond(phase, passCode, tempPassword, tempPassword1, byteIndex);
      StorePasscode(TERMINATOR);
      TypedNone();
      typed := [];
      var same := ComparePasswords(tempPassword, tempPassword1);
      if same {
        tempPassword, passCode, byteIndex := CLEARED, TempPassword, 0;
        phase, enterStatus := Accepted, WAITING_FOR_USER_INPUT;
      } else {
        phase, enterStatus := Idle, READY_TO_TRIGGER;
      }
    }

    // process_selected_mode, THIRD_TIME_PRESSED
    method FinishRound(salt: seq<bv32>)
      requires Shapes() && Contents() && Typing() && modeSelected && phase.Finished? && !normalEntered && IsBuffer(salt)
      modifies `byteIndex, `tempPassword, `tempPassword1, `typed
      ensures Shapes() && Contents() && Typing()
      ensures typed == old(typed) + if modeChosen == UNLOCK_PASSWORD then [TERMINATOR] else []
      ensures tempPassword1 == if modeChosen == DEVICE_ID_CONFIRM then XorWords(old(tempPassword1), salt)
                               else old(tempPassword1)
    {
      hide Encode, Stored, Held, XorWords, Typed;
      if modeChosen == UNLOCK_PASSWORD {
        TypedNext(AsStore(), TERMINATOR);
        StorePasscode(TERMINATOR);
        typed := typed + [TERMINATOR];
      } else if modeChosen == DEVICE_ID_CONFIRM {
        tempPassword1 := MixSalt(tempPassword1, salt);
      }
    }

    lemma PointerSet()
      requires Shapes() && Contents()
      ensures IsBuffer(tempPassword) && byteIndex < 128
    {
    }

    // read_password; accept says of a buffer whether its digest is the stored one
    method ReadPassword(pins: Pins, accept: Verdict, salt: seq<bv32>)
      requires Shapes() && Contents() && Typing() && entryMode == Normal && IsBuffer(salt)
      modifies `buttonReleased, `deviceUnlocked, `enterStatus, `normalEntered, `modeChosen, `modeSelected,
               `tempPassword, `tempPassword1, `byteIndex, `phase, `pressed, `unlocked, `typed
      ensures Shapes() && Contents() && Typing()
      ensures AsEntry() == old(AsEntry()) && AsButtons() == Looked(old(AsButtons()), pins)
      ensures AsLogin() == LoginAfter(old(AsLogin()), old(AsStore()), pressed, accept)
      ensures AsStore() == StoreAfter(old(AsLogin()), old(AsStore()), pressed, salt)
    {
      hide Stored, Encode, Held, Typed, XorWords, Store.Push, Store.Take, Looked, Registered;
      hide Handler.Shapes, Handler.Contents, Handler.Typing;
      PointerSet();
      ReadButton(pins);
      if normalEntered {
        TryPassword(accept, salt);
      }
    }

    // The rest of read_password, once the password has been entered.
    method TryPassword(accept: Verdict, salt: seq<bv32>)
      requires Shapes() && Contents() && Typing() && entryMode == Normal && normalEntered && IsBuffer(salt)
      modifies `tempPassword, `tempPassword1, `byteIndex, `unlocked, `typed
      ensures Shapes() && Contents() && Typing()
      ensures var ended := old(AsStore()).Push(TERMINATOR);
              && unlocked == (old(unlocked) || accept(ended.temp))
              && AsStore() == if normalChosen == DeviceId then ended.(temp := XorWords(ended.temp, salt)) else ended
    {
      hide Stored, Held, XorWords, Typed;
      StoreTyped(TERMINATOR);
      var same := accept(tempPassword);
      if normalChosen == DeviceId {
        tempPassword := MixSalt(tempPassword, salt);
      }
      if same {
        unlocked := true;
      }
    }

    // check_programming_mode_entry_sequence: buttons 1, 3 and 4 held for 101 ticks in a row
    method CheckProgrammingSequence(pins: Pins) returns (entered: bool)
      requires programmingCounter <= 100
      modifies `programmingCounter, `buttonReleased
      ensures entered == (pins.ProgrammingHeld() && old(programmingCounter) == 100)
      ensures programmingCounter == ForProgramming.Counted(old(programmingCounter), pins)
      ensures buttonReleased == (old(buttonReleased) && !entered)
    {
      entered := false;
      if !pins.pb1 && !pins.pb3 && !pins.pb4 && pins.pb2 && pins.enter {
        programmingCounter := programmingCounter + 1;
        if programmingCounter > 100 {
          programmingCounter, buttonReleased, entered := 0, false, true;
        }
      } else {
        programmingCounter := 0;
      }
    }

    // check_normal_mode_entry_sequence: enter held with button 4 or with button 2 for 201 ticks in a row
    method CheckNormalSequence(pins: Pins) returns (entered: bool)
      requires deviceIdCounter <= 200 && unlockCounter <= 200 && !normalEntered && Typing()
      modifies `deviceIdCounter, `unlockCounter, `buttonReleased, `normalChosen
      ensures Typing()
      ensures entered == ((pins.DeviceIdHeld() && old(deviceIdCounter) == 200)
                          || (pins.UnlockHeld() && old(unlockCounter) == 200))
      ensures normalChosen == if !entered then old(normalChosen)
                              else if pins.DeviceIdHeld() then DeviceId else UnlockCryptx2
      ensures deviceIdCounter == ForDeviceId.Counted(old(deviceIdCounter), pins)
      ensures unlockCounter == ForUnlock.Counted(old(unlockCounter), pins)
      ensures buttonReleased == (old(buttonReleased) && !entered)
    {
      hide Typed;
      entered := false;
      if !pins.enter && !pins.pb4 && pins.pb1 && pins.pb2 && pins.pb3 {
        unlockCounter, deviceIdCounter := 0, deviceIdCounter + 1;
        if deviceIdCounter > 200 {
          deviceIdCounter, buttonReleased, normalChosen, entered := 0, false, DeviceId, true;
        }
      } else if !pins.enter && !pins.pb2 && pins.pb1 && pins.pb3 && pins.pb4 {
        deviceIdCounter, unlockCounter := 0, unlockCounter + 1;
        if unlockCounter > 200 {
          unlockCounter, buttonReleased, normalChosen, entered := 0, false, UnlockCryptx2, true;
        }
      } else {
        deviceIdCounter, unlockCounter := 0, 0;
      }
    }

    // check_to_toggle_read_only_mode
    method CheckToToggle(pins: Pins)
      modifies `buttonReleased, `deviceUnlocked, `readOnly0, `readOnly1, `pressed
      ensures AsView() == Toggled(old(AsView()), pins)
    {
      hide Pins.AllHigh, Pins.FirstLow;
      if unlocked {
        var button := ButtonPressed(pins);
        if button == 0 {
          readOnly0 := !readOnly0;
        } else if button == 1 {
          readOnly1 := !readOnly1;
        }
        pressed := if button != NO_BUTTON then button else pressed;
      }
    }

    // The start of tc_irq: a held button combination enters a mode.
    method EnterMode(pins: Pins)
      requires Shapes() && Contents() && Typing() && Sound(AsCounters()) && entryMode == NoMode && !normalEntered
      modifies `programmingCounter, `deviceIdCounter, `unlockCounter, `buttonReleased, `normalChosen, `entryMode,
               `passCode
      ensures Shapes() && Contents() && Typing()
      ensures AsEntry() == old(AsEntry()).(mode := ModeAfter(old(AsCounters()), pins))
      ensures buttonReleased == (old(buttonReleased) && entryMode == NoMode)
      ensures AsCounters() == AllCounted(old(AsCounters()), pins)
      ensures normalChosen == KindAfter(entryMode, old(normalChosen), pins)
    {
      hide Handler.Shapes, Handler.Contents, Handler.Typing, Combination.Counted;
      hide Pins.ProgrammingHeld, Pins.DeviceIdHeld, Pins.UnlockHeld;
      Apart(AsCounters(), pins);
      var entered := CheckProgrammingSequence(pins);
      if entered {
        SetMode(Programming);
      } else {
        entered := CheckNormalSequence(pins);
        if entered {
          SetMode(Normal);
        }
      }
    }

    // A mode is entered; normal mode stores in the first buffer.
    method SetMode(mode: EntryMode)
      requires Shapes() && Contents() && Typing() && entryMode == NoMode && !normalEntered && mode != NoMode
      modifies `entryMode, `passCode
      ensures Shapes() && Contents() && Typing() && entryMode == mode
    {
      hide Held, Typed;
      entryMode := mode;
      if mode == Normal {
        passCode := TempPassword;
      }
    }

    // process_selected_mode
    method ProcessSelected(pins: Pins, salt: seq<bv32>) returns (done: bool)
      requires Shapes() && Contents() && Typing() && entryMode == Programming && modeSelected && IsBuffer(salt)
      requires Ready(AsEntry(), AsButtons())
      modifies `buttonReleased, `deviceUnlocked, `enterStatus, `normalEntered, `modeChosen, `modeSelected,
               `passCode, `tempPassword, `tempPassword1, `byteIndex, `phase, `pressed, `typed
      ensures Shapes() && Contents() && Typing() && done == old(phase).Finished?
      ensures AsEntry() == old(AsEntry()).(phase := Advance(old(phase), pressed, Stores(modeChosen)))
      ensures AsButtons() == Looked(old(AsButtons()), pins) && normalEntered == old(normalEntered)
      ensures typed == TypedAfter(old(typed), old(phase), pressed, modeChosen)
      ensures done ==> phase.Finished?
    {
      hide Handler.Shapes, Handler.Contents, Handler.Typing, SamePass, Pins.AllHigh, Pins.FirstLow, Stores;
      done := SettleLastPress(salt);
      ReadButton(pins);
    }

    // The mode is left.
    method LeaveMode()
      requires Shapes() && Contents() && Typing() && entryMode == Programming && phase.Finished? && modeSelected
      modifies `entryMode
      ensures Shapes() && Contents() && Typing() && entryMode == NoMode
    {
      hide Held, Typed;
      entryMode := NoMode;
    }

    // The middle of tc_irq: the mode that is on handles the buttons.
    method ProcessMode(pins: Pins, accept: Verdict, salt: seq<bv32>)
      requires Shapes() && Contents() && Typing() && IsBuffer(salt) && Ready(AsView().entry, AsView().buttons)
      modifies `entryMode, `buttonReleased, `deviceUnlocked, `enterStatus, `normalEntered, `modeChosen, `modeSelected,
               `passCode, `tempPassword, `tempPassword1, `byteIndex, `phase, `pressed, `unlocked, `typed
      ensures Shapes() && Contents() && Typing()
      ensures Processed(old(AsView()), AsView(), pins, accept, salt)
    {
      hide Handler.Shapes, Handler.Contents, Handler.Typing;
      hide Pins.AllHigh, Pins.FirstLow, LoginAfter, StoreAfter, Advance, Stores;
      ModeAndPhase();
      if entryMode == Programming {
        if !modeSelected {
          ReadButton(pins);
        } else {
          var done := ProcessSelected(pins, salt);
          if done {
            LeaveMode();
          }
        }
      } else if entryMode == Normal {
        ReadPassword(pins, accept, salt);
      }
    }

    lemma ModeAndPhase()
      requires Shapes()
      ensures Ordered(AsView().entry) && AsView().store.IsStore()
    {
    }

    // The first part of tc_irq
    method BeginTick(pins: Pins)
      requires Valid()
      modifies `programmingCounter, `deviceIdCounter, `unlockCounter, `buttonReleased, `normalChosen, `entryMode,
               `passCode, `pressed
      ensures Shapes() && Contents() && Typing()
      ensures AsView() == Started(old(AsView()), pins)
    {
      hide Handler.Shapes, Handler.Contents, Handler.Typing, Steady, Sound, ModeAfter, AllCounted, KindAfter;
      SteadyParts(AsView());
      pressed := NO_BUTTON;
      if entryMode == NoMode {
        EnterMode(pins);
      }
    }

    // tc_irq
    method Tick(pins: Pins, accept: Verdict, salt: seq<bv32>)
      requires Valid() && IsBuffer(salt)
      modifies this
      ensures Valid() && old(AsView()).store.IsStore()
      ensures Ticked(old(AsView()), AsView(), pins, accept, salt)
    {
      hide Handler.Shapes, Handler.Contents, Handler.Typing, Ticked, Processed, Toggled, Ready, Started, Steady;
      hide Ordered, Store.IsStore, Handler.AsView, Accumulates, Typed;
      ghost var v := AsView();
      SaneNow();
      StartedReady(v, pins);
      BeginTick(pins);
      ProcessMode(pins, accept, salt);
      ghost var w := AsView();
      CheckToToggle(pins);
      PartsTick(v, w, pins, accept, salt);
      SteadyNext(v, AsView(), pins, accept, salt);
    }

    /** Any run of ticks is a trace: it keeps the invariant, registers no two presses in consecutive ticks, takes the
        double entry of a selected mode through the protocol, and in a mode sees the debounced pins. */
    method HandleTicks(pins: seq<Pins>, accept: seq<Verdict>, salt: seq<bv32>) returns (ghost t: Trace)
      requires Valid() && IsBuffer(salt) && |accept| == |pins|
      modifies this
      ensures Valid() && t.Valid() && t.pins == pins && t.accept == accept && t.salt == salt
      ensures t.views[0] == old(AsView()) && t.views[|pins|] == AsView()
      ensures Spaced([old(pressed)] + t.Presses(|pins|))
      ensures old(modeSelected) ==> modeSelected && modeChosen == old(modeChosen)
      ensures old(modeSelected) ==> phase == Run(old(phase), t.Presses(|pins|), Stores(modeChosen))
      ensures old(entryMode) == Programming && old(modeSelected) ==>
        phase == Run(old(phase), Debounce(old(buttonReleased), pins), Stores(modeChosen))
      ensures old(entryMode) == Normal ==> t.Presses(|pins|) == Debounce(old(buttonReleased), pins)
      ensures Fresh(old(AsView())) && Undecided(pins) ==>
        entryMode == if ModeEntered(pins) == Programming && old(phase).Finished? then NoMode else ModeEntered(pins)
    {
      hide Handler.Shapes, Handler.Contents, Handler.Typing, Debounce, Run, Stores, Spaced, Trace.Presses, Ticked;
      hide Steady, Undecided, ModeEntered, Fresh;
      t := Trace([AsView()], pins, accept, salt);
      ghost var views := [AsView()];
      for i := 0 to |pins|
        invariant Valid() && |views| == i + 1 && views[0] == old(AsView()) && views[i] == AsView()
        invariant Stepped(views, pins, accept, salt)
      {
        SaneNow();
        Tick(pins[i], accept[i], salt);
        views := views + [AsView()];
      }
      SaneNow();
      t := Trace(views, pins, accept, salt);
      TraceSpaced(t);
      if old(modeSelected) {
        TraceRuns(t, |pins|);
      }
      assert pins[..|pins|] == pins;
      if old(entryMode) == Programming && old(modeSelected) {
        TraceProgramming(t, |pins|);
      }
      if old(entryMode) == Normal {
        TraceNormal(t, |pins|);
      }
      if Fresh(t.views[0]) && Undecided(pins) {
        ModeEnteredFirst(t, |pins|);
      }
    }

    // The double entry, from the pins: if the presses are two sequences, each ended by enter, and a tick follows,
    // the status shows acceptance exactly when the same buttons were pressed, or in one of the two modes that store
    // no symbols.
    method EnterTwice(pins: seq<Pins>, accept: seq<Verdict>, salt: seq<bv32>, ghost t1: seq<nat>, ghost t2: seq<nat>)
      requires Valid() && IsBuffer(salt) && |accept| == |pins|
      requires entryMode == Programming && modeSelected && enterStatus == READY_TO_TRIGGER
      requires Debounce(buttonReleased, pins) == t1 + [ENTER_BUTTON] + (t2 + [ENTER_BUTTON]) + [NO_BUTTON]
      requires NoEnter(t1) && NoEnter(t2)
      requires |ButtonsOf(t1)| <= 127 && |ButtonsOf(t2)| <= 127
      modifies this
      ensures Valid() && modeChosen == old(modeChosen)
      ensures enterStatus == if modeChosen == 1 || modeChosen == 2 || ButtonsOf(t1) == ButtonsOf(t2)
                             then WAITING_FOR_USER_INPUT else READY_TO_TRIGGER
    {
      hide Debounce, Handler.Contents, Handler.Typing, Run, ButtonsOf, Stores, NoEnter, Trace.Valid, Spaced;
      StoringModes(modeChosen);
      AcceptedIffEqual(t1, t2, Stores(modeChosen));
      ghost var t := HandleTicks(pins, accept, salt);
    }

    lemma SaneNow()
      requires Valid()
      ensures Sane(AsView())
    {
      hide Handler.Contents, Steady, Accumulates, Typed;
    }
  }

  // pass_code[index] = pass_code[index] | (value << ...), on the buffer that the pointer is set to
  method OrInto(w: seq<bv32>, i: nat, value: Press) returns (r: seq<bv32>)
    requires IsBuffer(w) && i < 128
    ensures r == Stored(w, i, value)
  {
    StoredWord(w, i, value);
    hide Stored, Shl;
    var index := i / 16;
    r := w[index := w[index] | Shl(value, i % 16 * 2)];
  }

  // xor_func of Salt.c, on a password buffer
  method MixSalt(w: seq<bv32>, salt: seq<bv32>) returns (r: seq<bv32>)
    requires IsBuffer(w) && IsBuffer(salt)
    ensures r == XorWords(w, salt)
  {
    r := [];
    var i := 0;
    while i < 8
      invariant 0 <= i == |r| <= 8
      invariant forall k :: 0 <= k < i ==> r[k] == w[k] ^ salt[k]
    {
      r := r + [w[i] ^ salt[i]];
      i := i + 1;
    }
  }

  /** After reset: a row of m ticks enters normal mode, and the presses of a password and enter follow. The device is
      unlocked exactly if the buffer that writes the buttons of the password is accepted in the last tick. */
  method LogInAfterReset(pins: seq<Pins>, accept: seq<Verdict>, salt: seq<bv32>, ghost m: nat,
                         ghost presses: seq<nat>)
    returns (handler: Handler)
    requires IsBuffer(salt) && |accept| == |pins| && m <= |pins|
    requires Undecided(pins[..m]) && ModeEntered(pins[..m]) == Normal
    requires Debounce(false, pins[m..]) == presses + [ENTER_BUTTON] && NoEnter(presses)
    ensures fresh(handler) && handler.Valid()
    ensures handler.unlocked <==> accept[|pins| - 1](Encode(Symbols(presses, true) + [TERMINATOR]))
    ensures |ButtonsOf(presses)| <= 127 ==>
      forall w :: Writes(w, ButtonsOf(presses)) ==> (handler.unlocked <==> accept[|pins| - 1](w))
  {
    hide Handler.Shapes, Handler.Contents, Handler.Typing, Debounce, Run, Encode, Undecided, ModeEntered, NoEnter;
    hide Trace.Valid, Sane, Steady, Spaced, Symbols, ButtonsOf, Writes;
    handler := new Handler();
    ghost var t := handler.HandleTicks(pins, accept, salt);
    LogIn(t, m, presses);
    if |ButtonsOf(presses)| <= 127 {
      PressesWritten(presses);
    }
    assert [] + Symbols(presses, true) == Symbols(presses, true);
  }
}
