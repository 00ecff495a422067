/** Push-button edge detection (Components/Button.cpp). Each Process call
    samples the pin; only a change of level fires a callback: onUp_ on a
    change to high, onDown_ on a change to low. */
module Buttons {
  /** Which callback a Process call invoked. */
  datatype ButtonCall = NoCall | OnUp | OnDown

  class Button {
    /** The GPIO pin the button samples. */
    const pin: nat
    /** Last sampled level, true for 1. It starts at 1 (the pin is pulled up):
        the member initialiser `status_ = 1` of Button.h:19, the header that
        declares the class Components/Button.cpp implements. */
    var status: bool
    /** Whether onDown_ / onUp_ hold a callable. */
    var hasOnDown: bool
    var hasOnUp: bool

    constructor (pin: nat, onDown: bool, onUp: bool)
      ensures this.pin == pin && status && hasOnDown == onDown && hasOnUp == onUp
    {
      this.pin := pin;
      status := true;
      hasOnDown := onDown;
      hasOnUp := onUp;
    }

    method SetOnUp(enabled: bool)
      modifies this
      ensures hasOnUp == enabled && hasOnDown == old(hasOnDown) && status == old(status)
    {
      hasOnUp := enabled;
    }

    method SetOnDown(enabled: bool)
      modifies this
      ensures hasOnDown == enabled && hasOnUp == old(hasOnUp) && status == old(status)
    {
      hasOnDown := enabled;
    }

    /** `level` is the sampled gpio_get(pin_). */
    method Process(level: bool) returns (fired: ButtonCall)
      modifies this
      ensures hasOnUp == old(hasOnUp) && hasOnDown == old(hasOnDown)
      ensures level == old(status) ==> fired == NoCall && status == old(status)
      ensures level != old(status) ==> status == level
      ensures fired == OnUp <==> level != old(status) && level && hasOnUp
      ensures fired == OnDown <==> level != old(status) && !level && hasOnDown
    {
      fired := NoCall;
      if level != status {
        status := level;
        if level {
          if hasOnUp {
            fired := OnUp;
          }
        } else {
          if hasOnDown {
            fired := OnDown;
          }
        }
      }
    }
  }
}
