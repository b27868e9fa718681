/**
  The hotkey process (HotkeyHandler/HotkeyHandler_Wayland.py): the hotkey
  configuration with its built-in default, the resolution of key names to
  key codes, the set of held keys driven by evdev key events, the combo
  test run after every key event, and the client side of the toggle
  channel, which sends the command or launches the GUI process.

  Devices, `select`, the socket and `Popen` are not called: events arrive as
  batches (one batch per `dev.read()`), and the socket connect outcome, the
  naming tables and the existence of the virtual environment are parameters.
 */
module HotkeyHandler {
  import opened Options

  /** evdev constants: the event type of key events and the key states. */
  const EvKey: int := 1
  const KeyUp: int := 0
  const KeyDown: int := 1
  const KeyHold: int := 2
  /** evdev codes of the default combo's keys. */
  const KeyLeftAltCode: int := 56
  const KeyVCode: int := 47

  /** The `hotkey` object of the configuration; a member the file lacks is
      `None`. */
  datatype Hotkey = Hotkey(modifiers: Option<seq<string>>, key: Option<string>)
  /** A configuration object; `hotkey` is `None` when the object lacks it. */
  datatype Config = Config(hotkey: Option<Hotkey>)
  /** What reading `keyconfig.json` gave. */
  datatype ConfigFile = FileMissing | BadJson | Parsed(config: Config)

  /** The built-in default: Left Alt + V. */
  const DefaultConfig: Config := Config(Some(Hotkey(Some(["KEY_LEFTALT"]), Some("KEY_V"))))

  /** The configuration `load_config` settles on. */
  function ConfigOf(file: ConfigFile): (c: Config)
    ensures file.Parsed? ==> c == file.config
    ensures !file.Parsed? ==> c.hotkey == Some(Hotkey(Some(["KEY_LEFTALT"]), Some("KEY_V")))
  {
    if file.Parsed? then file.config else DefaultConfig
  }

  class KeyConfig {
    var config: Config

    constructor (file: ConfigFile)
      ensures config == ConfigOf(file)
    {
      config := DefaultConfig;
      new;
      LoadConfig(file);
    }

    /** `load_config`: a missing or undecodable file gives the default, which
        is not written back. */
    method LoadConfig(file: ConfigFile)
      modifies this
      ensures config == ConfigOf(file)
    {
      match file {
        case Parsed(c) =>
          config := c;
        case FileMissing =>
          config := DefaultConfig;
        case BadJson =>
          config := DefaultConfig;
      }
    }
  }

  // ---------------------------------------------------------------------
  // Key-name resolution

  /** The configured combo as key codes. */
  datatype Combo = Combo(modifiers: set<int>, main: int)

  /** `{ecodes.ecodes[key] for key in names}`: fails when some name is not
      in the naming table, and otherwise gives the codes of all names. */
  function ResolveNames(names: seq<string>, table: map<string, int>): (r: Option<set<int>>)
    ensures r.Some? <==> forall i :: 0 <= i < |names| ==> names[i] in table
    ensures r.Some? ==> forall i :: 0 <= i < |names| ==> table[names[i]] in r.value
    ensures r.Some? ==> forall c :: c in r.value ==> exists i :: 0 <= i < |names| && table[names[i]] == c
    decreases |names|
  {
    if names == [] then Some({})
    else if names[0] !in table then None
    else match ResolveNames(names[1..], table)
      case None => None
      case Some(rest) => Some({table[names[0]]} + rest)
  }

  /** The key-code lookups at the start of `listen`; `None` where a lookup
      raises `KeyError` and `listen` returns. */
  function ResolveCombo(config: Config, table: map<string, int>): (r: Option<Combo>)
    ensures r.Some? <==>
      && config.hotkey.Some?
      && config.hotkey.value.modifiers.Some?
      && config.hotkey.value.key.Some?
      && (forall i :: 0 <= i < |config.hotkey.value.modifiers.value| ==>
            config.hotkey.value.modifiers.value[i] in table)
      && config.hotkey.value.key.value in table
    ensures r.Some? ==>
      && r.value.main == table[config.hotkey.value.key.value]
      && Some(r.value.modifiers) == ResolveNames(config.hotkey.value.modifiers.value, table)
  {
    match config.hotkey
    case None => None
    case Some(h) =>
      if h.modifiers.None? then None
      else match ResolveNames(h.modifiers.value, table)
        case None => None
        case Some(mods) =>
          if h.key.None? || h.key.value !in table then None
          else Some(Combo(mods, table[h.key.value]))
  }

  /** A missing or malformed configuration file gives the Left Alt + V
      combo. */
  lemma DefaultComboIsAltV(file: ConfigFile, table: map<string, int>)
    requires !file.Parsed?
    requires "KEY_LEFTALT" in table && table["KEY_LEFTALT"] == KeyLeftAltCode
    requires "KEY_V" in table && table["KEY_V"] == KeyVCode
    ensures ResolveCombo(ConfigOf(file), table) == Some(Combo({KeyLeftAltCode}, KeyVCode))
  {
    var mods := ResolveNames(["KEY_LEFTALT"], table);
    assert mods.Some?;
    assert mods.value == {KeyLeftAltCode} by {
      assert ["KEY_LEFTALT"][1..] == [];
    }
  }

  // ---------------------------------------------------------------------
  // Held keys and the combo test

  /** One input event `(type, code, value)`. */
  datatype Event = Event(kind: int, code: int, state: int)

  /** The held-key set after one event: a key-down adds its code, a key-up
      discards it, anything else leaves the set alone. */
  function Apply(pressed: set<int>, ev: Event): (r: set<int>)
    ensures ev.kind == EvKey && ev.state == KeyDown ==> ev.code in r
    ensures ev.kind == EvKey && ev.state == KeyUp ==> ev.code !in r
    ensures ev.kind != EvKey || (ev.state != KeyDown && ev.state != KeyUp) ==> r == pressed
    ensures forall c :: c != ev.code ==> (c in r <==> c in pressed)
  {
    if ev.kind != EvKey then pressed
    else if ev.state == KeyDown then pressed + {ev.code}
    else if ev.state == KeyUp then pressed - {ev.code}
    else pressed
  }

  /** The held-key set after a series of events. */
  function Replay(pressed: set<int>, events: seq<Event>): set<int>
    decreases |events|
  {
    if events == [] then pressed
    else Apply(Replay(pressed, events[..|events| - 1]), events[|events| - 1])
  }

  /** All modifiers and the main key are held. */
  predicate ComboHeld(combo: Combo, pressed: set<int>): (b: bool)
    ensures b <==> combo.modifiers <= pressed && combo.main in pressed
  {
    combo.modifiers + {combo.main} <= pressed
  }

  /** Handling event `i` of a batch calls `toggle_gui`: it is a key event and
      the combo is held once the event has been applied. */
  predicate FiresAt(combo: Combo, pressed: set<int>, batch: seq<Event>, i: nat)
    requires i < |batch|
  {
    batch[i].kind == EvKey && ComboHeld(combo, Replay(pressed, batch[..i + 1]))
  }

  /** A key event whose code has no name in `ecodes.KEY`: looking the name up
      raises, and the rest of its batch is dropped. */
  predicate Unnamed(ev: Event, named: set<int>) {
    ev.kind == EvKey && ev.code !in named
  }

  /** How many events of a batch are handled: those before the first key
      event with an unnamed code. */
  function Handled(batch: seq<Event>, named: set<int>): (n: nat)
    ensures n <= |batch|
    ensures forall i :: 0 <= i < n ==> !Unnamed(batch[i], named)
    ensures n < |batch| ==> Unnamed(batch[n], named)
    decreases |batch|
  {
    if batch == [] || Unnamed(batch[0], named) then 0
    else 1 + Handled(batch[1..], named)
  }

  /** The held-key set after a series of batches. */
  function ReplayBatches(pressed: set<int>, batches: seq<seq<Event>>, named: set<int>): set<int>
    decreases |batches|
  {
    if batches == [] then pressed
    else
      var last := batches[|batches| - 1];
      Replay(ReplayBatches(pressed, batches[..|batches| - 1], named), last[..Handled(last, named)])
  }

  /** A key stays as it was when no key-down or key-up event names it. */
  lemma {:induction false} ReplayFrame(pressed: set<int>, events: seq<Event>, c: int)
    requires forall i :: 0 <= i < |events| ==> events[i].code != c
    ensures c in Replay(pressed, events) <==> c in pressed
    decreases |events|
  {
    if events != [] {
      ReplayFrame(pressed, events[..|events| - 1], c);
    }
  }

  /** The held set changes only through key events: a key becomes held
      only by a key-down of it, and stops being held only by a key-up of it. */
  lemma {:induction false} ReplayChangesOnlyByEvents(pressed: set<int>, events: seq<Event>, c: int)
    ensures c in Replay(pressed, events) && c !in pressed ==>
              exists k :: 0 <= k < |events| && events[k] == Event(EvKey, c, KeyDown)
    ensures c in pressed && c !in Replay(pressed, events) ==>
              exists k :: 0 <= k < |events| && events[k] == Event(EvKey, c, KeyUp)
    decreases |events|
  {
    if events != [] {
      var n := |events| - 1;
      var init := events[..n];
      ReplayChangesOnlyByEvents(pressed, init, c);
      var before := Replay(pressed, init);
      if c in Replay(pressed, events) && c !in pressed {
        if c in before {
          var k :| 0 <= k < |init| && init[k] == Event(EvKey, c, KeyDown);
          assert events[k] == init[k];
        } else {
          assert events[n] == Event(EvKey, c, KeyDown);
        }
      }
      if c in pressed && c !in Replay(pressed, events) {
        if c !in before {
          var k :| 0 <= k < |init| && init[k] == Event(EvKey, c, KeyUp);
          assert events[k] == init[k];
        } else {
          assert events[n] == Event(EvKey, c, KeyUp);
        }
      }
    }
  }

  /** A key is held after a series of events when its last key-down comes
      after its last key-up. */
  lemma {:induction false} ReplayHeldAfterDown(pressed: set<int>, events: seq<Event>, k: nat)
    requires k < |events|
    requires events[k].kind == EvKey && events[k].state == KeyDown
    requires forall j :: k < j < |events| ==>
               !(events[j].kind == EvKey && events[j].state == KeyUp && events[j].code == events[k].code)
    ensures events[k].code in Replay(pressed, events)
    decreases |events|
  {
    if k < |events| - 1 {
      ReplayHeldAfterDown(pressed, events[..|events| - 1], k);
    }
  }

  /** A key is not held after a series of events when its last key-up comes
      after its last key-down. */
  lemma {:induction false} ReplayReleasedAfterUp(pressed: set<int>, events: seq<Event>, k: nat)
    requires k < |events|
    requires events[k].kind == EvKey && events[k].state == KeyUp
    requires forall j :: k < j < |events| ==>
               !(events[j].kind == EvKey && events[j].state == KeyDown && events[j].code == events[k].code)
    ensures events[k].code !in Replay(pressed, events)
    decreases |events|
  {
    if k < |events| - 1 {
      ReplayReleasedAfterUp(pressed, events[..|events| - 1], k);
    }
  }

  /** A key-repeat (hold) event, or the release of a key outside the combo,
      while the combo is held fires again: the trigger is level-based, not
      edge-based. */
  lemma HeldComboRetriggers(combo: Combo, pressed: set<int>, ev: Event)
    requires ComboHeld(combo, pressed) && ev.kind == EvKey
    requires ev.state == KeyHold || (ev.state == KeyUp && ev.code != combo.main && ev.code !in combo.modifiers)
    ensures FiresAt(combo, pressed, [ev], 0)
  {
    assert [ev][..1][..0] == [];
  }

  /** Releasing any key of the combo stops it from firing until it is held
      again. */
  lemma ReleaseStopsFiring(combo: Combo, pressed: set<int>, ev: Event)
    requires ev.kind == EvKey && ev.state == KeyUp
    requires ev.code == combo.main || ev.code in combo.modifiers
    ensures !FiresAt(combo, pressed, [ev], 0)
  {
    assert [ev][..1][..0] == [];
  }

  /** Events of other types never fire and never change the held keys. */
  lemma OtherEventsIgnored(combo: Combo, pressed: set<int>, ev: Event)
    requires ev.kind != EvKey
    ensures !FiresAt(combo, pressed, [ev], 0)
    ensures Replay(pressed, [ev]) == pressed
  {
    assert [ev][..1][..0] == [];
  }

  // ---------------------------------------------------------------------
  // The client side of the toggle channel

  /** What connecting to the GUI's socket gave. */
  datatype ConnectOutcome = Connected | Refused | SocketMissing | OtherSocketError

  /** What `toggle_gui` does: send bytes on the socket, launch the GUI with
      an argument list, or let the exception escape. */
  datatype ClientAction = SendBytes(payload: seq<bv8>) | Launch(argv: seq<string>) | Raise

  /** `b"toggle"`. */
  const ToggleBytes: seq<bv8> := [0x74, 0x6f, 0x67, 0x67, 0x6c, 0x65]
  const GuiFileName: string := "WaylandClipboard.py"
  const VenvDirName: string := "ClipboardVenv"
  const HiddenFlag: string := "--hidden"

  /** `os.path.join(a, b)` for a relative `b`: one '/' between them unless
      `a` is empty or already ends with one. */
  function PathJoin(a: string, b: string): (r: string)
    ensures |r| >= |a| + |b|
    ensures r[..|a|] == a && r[|r| - |b|..] == b
    ensures a == [] || a[|a| - 1] == '/' ==> |r| == |a| + |b|
    ensures a != [] && a[|a| - 1] != '/' ==> |r| == |a| + |b| + 1 && r[|a|] == '/'
  {
    if a == [] || a[|a| - 1] == '/' then a + b else a + "/" + b
  }

  /** The interpreter `launch_gui` uses: the virtual environment's when its
      directory exists, otherwise `python3` from the search path. */
  function Interpreter(parentDir: string, venvExists: bool): (path: string)
    ensures !venvExists ==> path == "python3"
    ensures venvExists ==>
      && |path| >= |parentDir| + |VenvDirName| + |"bin"| + |"python3"|
      && path[..|parentDir|] == parentDir && path[|path| - |"python3"|..] == "python3"
  {
    if venvExists then PathJoin(PathJoin(PathJoin(parentDir, VenvDirName), "bin"), "python3")
    else "python3"
  }

  /** The argument list `launch_gui` passes to `Popen`. */
  function LaunchArgs(parentDir: string, venvExists: bool): (argv: seq<string>)
    ensures |argv| == 3
    ensures argv[0] == Interpreter(parentDir, venvExists)
    ensures argv[1] == PathJoin(parentDir, GuiFileName)
    ensures argv[2] == HiddenFlag
  {
    [Interpreter(parentDir, venvExists), PathJoin(parentDir, GuiFileName), HiddenFlag]
  }

  /** With the virtual environment present, the interpreter is
      `<parent>/ClipboardVenv/bin/python3`. */
  lemma VenvInterpreterPath(parentDir: string)
    requires parentDir != []
    ensures Interpreter(parentDir, true) ==
            (if parentDir[|parentDir| - 1] == '/' then parentDir else parentDir + "/")
            + "ClipboardVenv/bin/python3"
  {
    var venv := PathJoin(parentDir, VenvDirName);
    var bin := PathJoin(venv, "bin");
    var dir := if parentDir[|parentDir| - 1] == '/' then parentDir else parentDir + "/";
    assert venv == dir + "ClipboardVenv";
    assert bin == dir + "ClipboardVenv/bin";
    assert PathJoin(bin, "python3") == dir + "ClipboardVenv/bin/python3";
  }

  /** `toggle_gui`: on a connection send exactly the command; when nothing
      listens (refused, or no socket file) launch the GUI once; any other
      socket error escapes. */
  function ToggleGui(outcome: ConnectOutcome, parentDir: string, venvExists: bool): (a: ClientAction)
    ensures a.SendBytes? <==> outcome == Connected
    ensures a.SendBytes? ==> a.payload == ToggleBytes
    ensures a.Launch? <==> outcome == Refused || outcome == SocketMissing
    ensures a.Launch? ==> a.argv == LaunchArgs(parentDir, venvExists)
  {
    match outcome
    case Connected => SendBytes(ToggleBytes)
    case Refused => Launch(LaunchArgs(parentDir, venvExists))
    case SocketMissing => Launch(LaunchArgs(parentDir, venvExists))
    case OtherSocketError => Raise
  }

  /** `fired` lists the positions at which handling `batch`, from the held
      set `pressed`, calls `toggle_gui`: exactly the handled events at which
      the rule fires, each once and in event order. */
  predicate BatchFired(fired: seq<nat>, combo: Combo, pressed: set<int>, batch: seq<Event>, named: set<int>) {
    && (forall j :: 0 <= j < |fired| ==> fired[j] < Handled(batch, named))
    && (forall j, k :: 0 <= j < k < |fired| ==> fired[j] < fired[k])
    && (forall i :: 0 <= i < Handled(batch, named) ==> (i in fired <==> FiresAt(combo, pressed, batch, i)))
  }

  /** `all` records, batch by batch, where handling the first `|all|`
      batches called `toggle_gui`, each batch starting from the held set
      the earlier ones left. */
  predicate AllFired(all: seq<seq<nat>>, combo: Combo, start: set<int>, batches: seq<seq<Event>>, named: set<int>) {
    && |all| <= |batches|
    && forall c :: 0 <= c < |all| ==>
         BatchFired(all[c], combo, ReplayBatches(start, batches[..c], named), batches[c], named)
  }

  lemma AllFiredExtend(all: seq<seq<nat>>, f: seq<nat>, combo: Combo, start: set<int>,
                       batches: seq<seq<Event>>, named: set<int>)
    requires AllFired(all, combo, start, batches, named) && |all| < |batches|
    requires BatchFired(f, combo, ReplayBatches(start, batches[..|all|], named), batches[|all|], named)
    ensures AllFired(all + [f], combo, start, batches, named)
  {
    forall c | 0 <= c < |all| + 1
      ensures BatchFired((all + [f])[c], combo, ReplayBatches(start, batches[..c], named), batches[c], named)
    {
      if c < |all| {
        assert (all + [f])[c] == all[c];
      }
    }
  }

  // ---------------------------------------------------------------------
  // The listener

  class HotkeyListener {
    var pressedKeys: set<int>

    constructor ()
      ensures pressedKeys == {}
    {
      pressedKeys := {};
    }

    /** The body of `for event in dev.read()`: handles one batch in order,
        updating the held keys and recording the positions at which
        `toggle_gui` is called. */
    method HandleBatch(batch: seq<Event>, combo: Combo, named: set<int>) returns (fired: seq<nat>)
      modifies this
      ensures pressedKeys == Replay(old(pressedKeys), batch[..Handled(batch, named)])
      ensures BatchFired(fired, combo, old(pressedKeys), batch, named)
    {
      fired := [];
      var i := 0;
      while i < |batch|
        invariant 0 <= i <= Handled(batch, named)
        invariant pressedKeys == Replay(old(pressedKeys), batch[..i])
        invariant forall j :: 0 <= j < |fired| ==> fired[j] < i && FiresAt(combo, old(pressedKeys), batch, fired[j])
        invariant forall k :: 0 <= k < i && FiresAt(combo, old(pressedKeys), batch, k) ==> k in fired
        invariant forall j, k :: 0 <= j < k < |fired| ==> fired[j] < fired[k]
      {
        var ev := batch[i];
        assert batch[..i + 1][..i] == batch[..i];
        if ev.kind == EvKey {
          if ev.code !in named {
            break;
          }
          if ev.state == KeyDown {
            pressedKeys := pressedKeys + {ev.code};
          } else if ev.state == KeyUp {
            pressedKeys := pressedKeys - {ev.code};
          }
          if combo.modifiers <= pressedKeys && combo.main in pressedKeys {
            fired := fired + [i];
          }
        }
        i := i + 1;
      }
    }

    /** `listen` over a finite series of batches: returns before handling any
        event when a key name does not resolve; otherwise handles every batch
        in order and reports, per batch, where `toggle_gui` was called. */
    method Listen(config: Config, table: map<string, int>, named: set<int>, batches: seq<seq<Event>>)
      returns (fired: Option<seq<seq<nat>>>)
      modifies this
      ensures ResolveCombo(config, table).None? ==> fired.None? && pressedKeys == old(pressedKeys)
      ensures ResolveCombo(config, table).Some? ==>
        && fired.Some? && |fired.value| == |batches|
        && pressedKeys == ReplayBatches(old(pressedKeys), batches, named)
        && forall b :: 0 <= b < |batches| ==>
             BatchFired(fired.value[b], ResolveCombo(config, table).value,
                        ReplayBatches(old(pressedKeys), batches[..b], named), batches[b], named)
    {
      var combo := ResolveCombo(config, table);
      if combo.None? {
        return None;
      }
      var all := HandleBatches(combo.value, named, batches);
      return Some(all);
    }

    /** The event loop of `listen`: every batch in turn, each starting from
        the held set the earlier ones left. */
    method HandleBatches(combo: Combo, named: set<int>, batches: seq<seq<Event>>) returns (all: seq<seq<nat>>)
      modifies this
      ensures |all| == |batches|
      ensures pressedKeys == ReplayBatches(old(pressedKeys), batches, named)
      ensures forall b :: 0 <= b < |batches| ==>
        BatchFired(all[b], combo, ReplayBatches(old(pressedKeys), batches[..b], named), batches[b], named)
    {
      all := [];
      for b := 0 to |batches|
        invariant |all| == b
        invariant pressedKeys == ReplayBatches(old(pressedKeys), batches[..b], named)
        invariant AllFired(all, combo, old(pressedKeys), batches, named)
      {
        assert batches[..b + 1][..b] == batches[..b];
        var f := HandleBatch(batches[b], combo, named);
        AllFiredExtend(all, f, combo, old(pressedKeys), batches, named);
        all := all + [f];
      }
      assert batches[..|batches|] == batches;
    }
  }
}
