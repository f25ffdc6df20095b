/** Foreground-only mode (`handle_SIGTSTP`, a3.c:61-75): a two-state switch
    on the global `is_background`, where true means `&` is honoured. The
    handler runs asynchronously in the source; here it is an ordinary call. */
module ForegroundMode {

  const EnterMessage := "Entering foreground-only mode (& is now ignored)\n"
  const ExitMessage := "Exiting foreground-only mode (& is now allowed)\n"
  const Prompt := ": "

  /** The text one toggle prints when the mode before it is `allowed`. */
  function ToggleText(allowed: bool): string {
    (if allowed then EnterMessage else ExitMessage) + Prompt
  }

  class ModeSwitch {
    /** `is_background == 1`: background requests are honoured. */
    var isBackground: bool

    /** `int is_background = 1;` (a3.c:35). */
    constructor ()
      ensures isBackground
    {
      isBackground := true;
    }

    /** One SIGTSTP: flip the mode and announce the mode just entered,
        followed by a fresh prompt. */
    method HandleSIGTSTP() returns (text: string)
      modifies this
      ensures isBackground == !old(isBackground)
      ensures text == (if isBackground then ExitMessage else EnterMessage) + Prompt
    {
      if isBackground {
        isBackground := false;
        text := EnterMessage + Prompt;
      } else {
        isBackground := true;
        text := ExitMessage + Prompt;
      }
    }
  }

  /** The mode after `n` toggles starting from `allowed`. */
  function Toggled(allowed: bool, n: nat): bool {
    if n == 0 then allowed else !Toggled(allowed, n - 1)
  }

  /** The mode depends only on the parity of the number of toggles; in
      particular two toggles restore it. */
  lemma {:induction false} ToggleParity(allowed: bool, n: nat)
    ensures Toggled(allowed, n) == (if n % 2 == 0 then allowed else !allowed)
  {
    if n > 0 {
      ToggleParity(allowed, n - 1);
    }
  }

  /** Everything `n` toggles print, starting from `allowed`. */
  function ToggleTexts(allowed: bool, n: nat): string {
    if n == 0 then "" else ToggleTexts(allowed, n - 1) + ToggleText(Toggled(allowed, n - 1))
  }

  /** Toggles announce the two modes alternately: a run of toggles prints
      the enter and exit messages in turn, each followed by the prompt. */
  lemma {:induction false} ToggleTextsAlternate(allowed: bool, n: nat)
    ensures ToggleTexts(allowed, 2 * n) ==
              if n == 0 then ""
              else ToggleTexts(allowed, 2 * n - 2) + ToggleText(allowed) + ToggleText(!allowed)
  {
    if n > 0 {
      var m := 2 * n - 2;
      ToggleParity(allowed, m);
      assert m % 2 == 0;
      assert Toggled(allowed, m) == allowed;
      assert Toggled(allowed, m + 1) == !allowed;
      assert ToggleTexts(allowed, m + 2) == ToggleTexts(allowed, m) + ToggleText(allowed) + ToggleText(!allowed);
    }
  }
}
