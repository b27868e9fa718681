/**
  The two ends of the toggle channel together: what the hotkey process sends
  is what the GUI process's server accepts as a toggle.
 */
module ToggleChannel {
  import opened HotkeyHandler
  import WaylandClipboard

  /** When the connection succeeds, the bytes `toggle_gui` sends make the
      server schedule exactly one visibility flip. */
  lemma ClientSendTogglesServer(parentDir: string, venvExists: bool)
    ensures var a := ToggleGui(Connected, parentDir, venvExists);
      a.SendBytes? && WaylandClipboard.ToggleRequested(WaylandClipboard.Received(a.payload))
  {
    WaylandClipboard.ReceivedToggle(ToggleBytes);
  }

  /** Every outcome of a toggle attempt is one of: one command the server
      accepts, one launch of the GUI in hidden mode, or an escaping error. */
  lemma ToggleAttemptOutcomes(outcome: ConnectOutcome, parentDir: string, venvExists: bool)
    ensures var a := ToggleGui(outcome, parentDir, venvExists);
      || (a.SendBytes? && WaylandClipboard.ToggleRequested(WaylandClipboard.Received(a.payload)))
      || (a.Launch? && a.argv[|a.argv| - 1] == HiddenFlag && a.argv[1] == PathJoin(parentDir, GuiFileName))
      || (a.Raise? && outcome == OtherSocketError)
  {
    if outcome == Connected {
      ClientSendTogglesServer(parentDir, venvExists);
    }
  }
}
