/**
 * The font-size accessibility toggle: a global flag `fonteAumentada` and the
 * inline `font-size` of the body flip together, and a `keydown` listener
 * calls the toggle on Ctrl with '+' or '=' (after `preventDefault`).
 *
 * The body's inline font size before the first toggle is a parameter. When
 * it is empty (as on a page that sets no inline size) flag and size always
 * agree; any other initial inline size is replaced on the first toggle and
 * not restored on the second.
 */
module FontAccessibility {

  const Enlarged: string := "1.15em"

  /** The flag and the body's inline `font-size`. */
  datatype FontState = FontState(fonteAumentada: bool, fontSize: string)

  /** The flag is set exactly when the body has the enlarged size, and the
      size is otherwise the empty string. */
  predicate Coupled(s: FontState) {
    s == FontState(false, "") || s == FontState(true, Enlarged)
  }

  /** `toggleTamanhoFonte()`. Whatever the state before, the flag flips and
      the size agrees with it afterwards. */
  function Toggle(s: FontState): (r: FontState)
    ensures r.fonteAumentada == !s.fonteAumentada
    ensures Coupled(r)
  {
    if !s.fonteAumentada then FontState(true, Enlarged) else FontState(false, "")
  }

  /** Toggling twice from a coupled state restores it. */
  lemma ToggleTwice(s: FontState)
    requires Coupled(s)
    ensures Toggle(Toggle(s)) == s
  {
  }

  /** An inline size other than the empty string is lost after two toggles. */
  lemma InitialInlineSizeLost(size: string)
    requires size != ""
    ensures Toggle(Toggle(FontState(false, size))) == FontState(false, "")
    ensures Toggle(Toggle(FontState(false, size))) != FontState(false, size)
  {
  }

  /** The parts of a `keydown` event the listener reads. */
  datatype KeyEvent = KeyEvent(ctrlKey: bool, key: string)

  /** The listener's guard: Ctrl with '+' or '='. */
  predicate IsFontShortcut(e: KeyEvent) {
    e.ctrlKey && (e.key == "+" || e.key == "=")
  }

  /** The state after the listener has seen `events` in order. The flag has
      flipped once per shortcut press, and the state is either untouched or
      coupled, whatever it was before. */
  function AfterKeys(s: FontState, events: seq<KeyEvent>): (r: FontState)
    ensures r.fonteAumentada <==> (s.fonteAumentada <==> ShortcutCount(events) % 2 == 0)
    ensures r == s || Coupled(r)
    decreases |events|
  {
    if events == [] then s
    else AfterKeys(if IsFontShortcut(events[0]) then Toggle(s) else s, events[1..])
  }

  /** The number of shortcut presses in `events`. */
  function ShortcutCount(events: seq<KeyEvent>): nat
    decreases |events|
  {
    if events == [] then 0
    else (if IsFontShortcut(events[0]) then 1 else 0) + ShortcutCount(events[1..])
  }

  /** From a coupled state, a sequence of key presses leaves the state as it
      was if it holds an even number of shortcuts and toggled once otherwise;
      other keys never change it. */
  lemma {:induction false} AfterKeysParity(s: FontState, events: seq<KeyEvent>)
    requires Coupled(s)
    ensures AfterKeys(s, events) == if ShortcutCount(events) % 2 == 0 then s else Toggle(s)
    decreases |events|
  {
    if events != [] {
      var s1 := if IsFontShortcut(events[0]) then Toggle(s) else s;
      AfterKeysParity(s1, events[1..]);
      if IsFontShortcut(events[0]) {
        ToggleTwice(s);
      }
    }
  }

  /** The page's font state. */
  class FontToggle {
    var fonteAumentada: bool
    var fontSize: string

    function State(): FontState
      reads this
    {
      FontState(fonteAumentada, fontSize)
    }

    /** Script start: the flag is false; the body keeps its inline size. */
    constructor (initialFontSize: string)
      ensures fonteAumentada == false && fontSize == initialFontSize
    {
      fonteAumentada := false;
      fontSize := initialFontSize;
    }

    method ToggleTamanhoFonte()
      modifies this
      ensures fonteAumentada == !old(fonteAumentada)
      ensures fontSize == if fonteAumentada then Enlarged else ""
      ensures State() == Toggle(old(State()))
    {
      if !fonteAumentada {
        fontSize := Enlarged;
        fonteAumentada := true;
      } else {
        fontSize := "";
        fonteAumentada := false;
      }
    }

    /** The `keydown` listener: `preventDefault` reports that the browser's
        own handling of the key was cancelled. */
    method OnKeyDown(e: KeyEvent) returns (preventDefault: bool)
      modifies this
      ensures preventDefault <==> IsFontShortcut(e)
      ensures State() == if preventDefault then Toggle(old(State())) else old(State())
      ensures State() == AfterKeys(old(State()), [e])
    {
      preventDefault := false;
      if e.ctrlKey && (e.key == "+" || e.key == "=") {
        preventDefault := true;
        ToggleTamanhoFonte();
      }
    }
  }
}
