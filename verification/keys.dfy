/**
 * The keys the editing widgets react to. The windowing layer's key codes
 * (`KB_KEY_LEFT` and so on) are named rather than numbered; every other
 * key is `Other`, which no widget acts on.
 */
module Keys {

  datatype Key =
    | Left | Right | Up | Down
    | Home | End | PageUp | PageDown
    | Backspace | Delete | Enter | Escape | Tab
    | Other(code: int)
}
