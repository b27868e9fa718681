# Clipboard history with a global hotkey — a Dafny model

This project models the decision logic of a small two-process clipboard tool for Wayland.

- The **GUI process** (`WaylandClipboard.py`) polls the clipboard once a second. It reads it with `wl-paste` and keeps a de-duplicated history of text entries. The history is saved to a JSON file after every append.
- The GUI process also shows the history in a window. Rows can be copied back to the clipboard, and the whole history can be cleared.
- The window is shown or hidden when the GUI process receives the command `toggle` on a Unix socket.
- The **hotkey process** (`HotkeyHandler/HotkeyHandler_Wayland.py`) reads raw key events from evdev and tracks the set of held keys. After every key event it checks the configured combo (Left Alt + V by default). While the combo is held it sends `toggle` to the GUI process. If nothing listens, it launches the GUI process in hidden mode.

Modules:

- `Options` and `PyText` (`pytext.dfy`) hold Python's `str.isspace`, `strip`, `split('\n')` and one-character `replace`, together with their properties.
- `WaylandClipboard` (`clipboard.dfy`) holds the following:
  - the type classifier, which is a loop method proved against a specification function;
  - the deduplication rule of a tick, written as the function `Ingest`, together with its lemmas;
  - the preview and display rows;
  - the IPC payload test;
  - the class `ClipboardHistoryApp`, whose fields are `history`, `lastContent`, `isConfiguring`, `programmaticCopy`, `isVisible` and the display `store`. A ghost field `saved` stands for the contents of the history file.
- `HotkeyHandler` (`hotkey.dfy`) holds the configuration and its default, key-name resolution, the held-key update and the combo test, the classes `KeyConfig` and `HotkeyListener`, and `toggle_gui`/`launch_gui` as functions that return what the process would do.
- `ToggleChannel` (`toggle_channel.dfy`) shows that the bytes the hotkey process sends are exactly what the GUI's server accepts as a toggle.

The operations never call external programs. Their results are passed in as parameters:

- each run of `wl-paste` is a `Run` (not found, or an exit code with its output);
- the success of `wl-copy` is a boolean;
- how a save of the history file ends is a `SaveOutcome`: written in full, not opened, or truncated and then not fully written;
- whether truncating the history file succeeds is a boolean;
- the socket connect outcome is a parameter;
- the evdev name tables (`ecodes.ecodes`, `ecodes.KEY`) are parameters;
- whether the virtual-environment directory exists is a boolean.

GLib timers and `idle_add` callbacks are separate events that the caller invokes: `ResetConfiguring`, `ResetProgrammaticCopy`, `UpdateClipboardDisplay` and `ToggleVisibility`.

Four behaviours of the code are worth knowing, because a reader might expect otherwise. The model follows the code in each:

- A hotkey press is not counted once per transition to "combo held". The code checks the combo after every key event, including key-repeat (hold) events and releases of unrelated keys, so it fires again while the combo stays held (`HeldComboRetriggers`).
- Clearing does not clear the file atomically with the in-memory history. The file is truncated after the history is cleared, so a failure to open it leaves the file unchanged (`OnClearClicked`).
- Saving is not atomic either. `save_history_to_file` opens the file for writing, which truncates it, before it writes the JSON. A write that fails after that leaves a file that loads as the empty history (`FileAfterSave`).
- Nothing checks that the main key of the combo is not also one of its modifiers.

## Model

| member | source | states |
|---|---|---|
| PyText.Strip | WaylandClipboard.py:166-172 | `str.strip()`: the result is `s` with a blank prefix and a blank suffix cut off; it is empty exactly when the text is all white space, and otherwise its first and last characters are not white space |
| PyText.StripIdempotent | WaylandClipboard.py:195 | stripping an already stripped text changes nothing |
| PyText.IsSpaceAscii | WaylandClipboard.py:166 | `IsSpace` is Python's `str.isspace`; among ASCII characters exactly space, tab, line feed, carriage return, vertical tab, form feed and the separators 0x1C-0x1F are white space |
| PyText.Split | WaylandClipboard.py:166 | `split('\n')` always gives at least one piece, and no piece contains the separator |
| PyText.JoinSplit | WaylandClipboard.py:166 | joining the pieces of `split('\n')` with '\n' gives back the text |
| PyText.SplitJoin | WaylandClipboard.py:166 | splitting a '\n'-join of newline-free pieces gives back the pieces, so `split` and `join` are inverse |
| PyText.Replace | WaylandClipboard.py:278 | `replace('\n', ' ')` keeps the length and swaps exactly the newline characters |
| WaylandClipboard.FindTarget | WaylandClipboard.py:171-173 | the early-return loop over the targets answers true exactly when some target passes the test (used with "trimmed target is one of `text/plain`, `UTF8_STRING`, `TEXT`, `STRING`") |
| WaylandClipboard.ClipboardTypeOf | WaylandClipboard.py:155-177 | the only type ever reported is `text/plain` |
| WaylandClipboard.GetClipboardType | WaylandClipboard.py:155-177 | returns `text/plain` iff not configuring, `wl-paste --list-types` ran with exit code 0, its output is not all white space, and some trimmed line is a text type; otherwise None |
| WaylandClipboard.ReadingOf | WaylandClipboard.py:179-199 | content is present iff the type is text and `wl-paste --no-newline` exited with 0; it is then the trimmed output, tagged `'text'`; content and type are None together |
| WaylandClipboard.GetClipboardContent | WaylandClipboard.py:179-199 | the method computes the reading `ReadingOf` specifies |
| WaylandClipboard.Ingest | WaylandClipboard.py:209-214 | an unsuppressed tick keeps the history as a prefix and adds at most one record, `(last_content, 'text')`, exactly when it reports an append; fresh content becomes `last_content`; a reading that is missing, empty or equal to `last_content` changes nothing |
| WaylandClipboard.IngestAppendsAtMostOne | WaylandClipboard.py:209-214 | an unsuppressed tick keeps every earlier record and appends at most one record. An appended record is `(content, 'text')` whose content is non-empty, differs from `last_content`, comes from a text reading, and differs from the previous last record |
| WaylandClipboard.IngestAppendsFreshText | WaylandClipboard.py:209-214 | conversely, fresh text content that differs from the last record is always appended at the end |
| WaylandClipboard.IngestTracksLastContent | WaylandClipboard.py:209-210 | `last_content` becomes the clipboard content whenever that is non-empty and differs from it, whether or not a record is appended |
| WaylandClipboard.IngestSkipsLastRecord | WaylandClipboard.py:211-213 | content equal to the last record is never appended again, whatever `last_content` is (the copy-from-history round trip) |
| WaylandClipboard.CopyBackAddsNothing | WaylandClipboard.py:195-213 | copying the newest record (stripped text) back to the clipboard and reading it again never appends it a second time |
| WaylandClipboard.IngestIdempotent | WaylandClipboard.py:209-213 | a second tick with the same clipboard reading changes neither history nor `last_content` |
| WaylandClipboard.IngestKeepsNoAdjacentDuplicates | WaylandClipboard.py:211-214 | a tick never creates two adjacent records with equal content |
| WaylandClipboard.IngestAllPreserves | WaylandClipboard.py:201-220 | over any series of ticks the earlier records stay as they were, history grows by at most one per tick, and no adjacent duplicates appear |
| WaylandClipboard.IngestSameReadingOnce | WaylandClipboard.py:209-210 | any number of further ticks on an unchanged clipboard add nothing |
| WaylandClipboard.HelloWorldExample | WaylandClipboard.py:209-217 | with history `[("hello","text")]`, a clipboard reading "world" gives `[("hello","text"),("world","text")]` and two display rows |
| WaylandClipboard.Preview | WaylandClipboard.py:277-278 | the preview has no '\n' and at most 53 characters. Content of at most 50 characters is shown whole, with newlines as spaces. Longer content shows its first 50 characters (newlines as spaces) followed by "..." |
| WaylandClipboard.DisplayRows | WaylandClipboard.py:272-279 | there are no more rows than records, and every row's preview is newline-free and at most 53 characters |
| WaylandClipboard.DisplayRowsFromText | WaylandClipboard.py:275-279 | every row's full content is the content of a `'text'` record of the history |
| WaylandClipboard.DisplayRowsAllText | WaylandClipboard.py:275-279 | for an all-text history, row i is exactly (preview, content) of record i, so the rows keep history order |
| WaylandClipboard.DisplayRowsAppend | WaylandClipboard.py:275-279 | appending a text record adds exactly its row at the end; a record of another kind adds no row |
| WaylandClipboard.TextRecords | WaylandClipboard.py:276 | the records kept by the `content_type == 'text'` filter are text records of the history, never more than it has |
| WaylandClipboard.TextRecordsKeepsAllText | WaylandClipboard.py:276 | every text record of the history is kept by the filter |
| WaylandClipboard.DisplayRowsAreTextRecords | WaylandClipboard.py:275-279 | for any history, the rows are exactly the text records, one row each and in history order; records of other kinds get no row |
| WaylandClipboard.Received | WaylandClipboard.py:132 | one `recv(1024)` yields a prefix of the sent bytes, at most 1024 long |
| WaylandClipboard.ReceivedToggle | WaylandClipboard.py:132-134 | the server schedules a toggle iff the client sent exactly `toggle`; longer or different payloads never toggle |
| WaylandClipboard.ToggleRequested | WaylandClipboard.py:133 | a received chunk is a toggle request iff it is six bytes whose values are the code points of "toggle", i.e. it decodes to that text |
| WaylandClipboard.ClipboardHistoryApp.constructor | WaylandClipboard.py:18-74 | initial visibility is `not start_hidden`; the flags are clear; history and file are the loaded history; rows are built from it; `last_content` is "" |
| WaylandClipboard.ClipboardHistoryApp.CheckClipboardChanges | WaylandClipboard.py:201-220 | always continues. A tick while `programmatic_copy` or `is_configuring` is set leaves history, `last_content` and the file unchanged. Otherwise the new state is `Ingest` of the reading, and after an append the file is what that save leaves (`FileAfterSave`) |
| WaylandClipboard.ClipboardHistoryApp.RecordReading | WaylandClipboard.py:209-217 | the decision under the lock: the new history and `last_content` are exactly `Ingest` of the old ones and the reading; after an append the file is what the save leaves (`FileAfterSave`), otherwise it is unchanged |
| WaylandClipboard.FileAfterSave | clipboardStorage.py:19-26 | after a save the file loads as the history, as before, or as empty; a completed save always gives the history, a failed open leaves the previous file, and a file that is neither the history nor the previous file comes only from a write that failed after the truncating open |
| WaylandClipboard.ClipboardHistoryApp.OnClearClicked | WaylandClipboard.py:222-231 | if `wl-copy --clear` fails, nothing changes. Otherwise history, `last_content` and rows are emptied, and the file is emptied unless truncating it fails |
| WaylandClipboard.ClipboardHistoryApp.CopyToClipboard | WaylandClipboard.py:242-249 | hands the content to `wl-copy`, raises `programmatic_copy` and asks for its reset after 500 ms; a missing `wl-copy` lowers the flag again, copies nothing and schedules no reset |
| WaylandClipboard.ClipboardHistoryApp.OnCopyClicked | WaylandClipboard.py:233-249 | gated by both flags and by a selection; copies the full content of the selected row and asks for the 500 ms reset when `wl-copy` ran |
| WaylandClipboard.ClipboardHistoryApp.OnRowActivated | WaylandClipboard.py:251-266 | gated by both flags; copies the full content of the activated row and asks for the 500 ms reset when `wl-copy` ran; a path naming no row changes nothing |
| WaylandClipboard.ClipboardHistoryApp.ResetProgrammaticCopy | WaylandClipboard.py:268-270 | clears `programmatic_copy` and does not repeat |
| WaylandClipboard.ClipboardHistoryApp.OnConfigureEvent | WaylandClipboard.py:93-97 | sets `is_configuring`, asks for a reset after 300 ms, and lets the event propagate |
| WaylandClipboard.ClipboardHistoryApp.OnFocusEvent | WaylandClipboard.py:99-103 | sets `is_configuring`, asks for a reset after 200 ms, and lets the event propagate |
| WaylandClipboard.ClipboardHistoryApp.ResetConfiguring | WaylandClipboard.py:105-108 | clears `is_configuring` and does not repeat |
| WaylandClipboard.ClipboardHistoryApp.ToggleVisibility | WaylandClipboard.py:142-153 | negates `is_visible`, so two toggles restore it |
| WaylandClipboard.ClipboardHistoryApp.ServeConnections | WaylandClipboard.py:128-135 | after a series of connections the window is flipped once per exact `toggle` payload, so visibility changes iff that count is odd |
| WaylandClipboard.CountTogglesAppend | WaylandClipboard.py:128-135 | toggle counts add up over consecutive series of connections |
| WaylandClipboard.ClipboardHistoryApp.OnDeleteEvent | WaylandClipboard.py:284-291 | closing the window saves the full history; the file is then what that save leaves (`FileAfterSave`), which is the full history when the save completes; the close goes on |
| WaylandClipboard.ClipboardHistoryApp.UpdateClipboardDisplay | WaylandClipboard.py:272-282 | the rows become `DisplayRows(history)` |
| HotkeyHandler.ConfigOf | HotkeyHandler/HotkeyHandler_Wayland.py:23-38 | a parsed file is used as is; a missing or malformed file gives modifiers `['KEY_LEFTALT']` and key `'KEY_V'` |
| HotkeyHandler.KeyConfig.constructor | HotkeyHandler/HotkeyHandler_Wayland.py:20-30 | the configuration is the one `load_config` settles on |
| HotkeyHandler.KeyConfig.LoadConfig | HotkeyHandler/HotkeyHandler_Wayland.py:32-38 | sets `config` to the parsed file or, when the file is missing or malformed, to the default |
| HotkeyHandler.ResolveNames | HotkeyHandler/HotkeyHandler_Wayland.py:109-110 | succeeds iff every modifier name is in the naming table; the code set is then exactly the codes of the names |
| HotkeyHandler.ResolveCombo | HotkeyHandler/HotkeyHandler_Wayland.py:108-116 | succeeds iff the `hotkey`, `modifiers` and `key` members exist and every name resolves; the main key is then the key's code and the modifiers are the resolved set |
| HotkeyHandler.DefaultComboIsAltV | HotkeyHandler/HotkeyHandler_Wayland.py:23-38 | a missing or malformed file resolves to the combo {KEY_LEFTALT=56} + KEY_V=47 |
| HotkeyHandler.Apply | HotkeyHandler/HotkeyHandler_Wayland.py:124-134 | a key-down adds its code and a key-up removes it (absent is no error). A repeat/hold or a non-key event leaves the set unchanged, and no other code's membership changes |
| HotkeyHandler.ReplayChangesOnlyByEvents | HotkeyHandler/HotkeyHandler_Wayland.py:124-134 | `Replay` (the held set after a series of events) gains a key only through a key-down of it and loses one only through a key-up of it |
| HotkeyHandler.ComboHeld | HotkeyHandler/HotkeyHandler_Wayland.py:142-143 | the combo is held iff the modifier set is a subset of the held keys and the main key is held |
| HotkeyHandler.Handled | HotkeyHandler/HotkeyHandler_Wayland.py:122-147 | a batch is handled up to, and not including, its first key event whose code has no name |
| HotkeyHandler.ReplayFrame | HotkeyHandler/HotkeyHandler_Wayland.py:129-134 | a key that no event names keeps its held state |
| HotkeyHandler.ReplayHeldAfterDown | HotkeyHandler/HotkeyHandler_Wayland.py:129-134 | a key is held when a key-down of it is followed by no key-up of it |
| HotkeyHandler.ReplayReleasedAfterUp | HotkeyHandler/HotkeyHandler_Wayland.py:129-134 | a key is not held when a key-up of it is followed by no key-down of it |
| HotkeyHandler.HeldComboRetriggers | HotkeyHandler/HotkeyHandler_Wayland.py:141-145 | while the combo is held, a key-repeat event, or the release of a key outside the combo, fires again |
| HotkeyHandler.ReleaseStopsFiring | HotkeyHandler/HotkeyHandler_Wayland.py:141-145 | releasing any key of the combo does not fire |
| HotkeyHandler.OtherEventsIgnored | HotkeyHandler/HotkeyHandler_Wayland.py:124 | a non-key event neither fires nor changes the held keys |
| HotkeyHandler.HotkeyListener.constructor | HotkeyHandler/HotkeyHandler_Wayland.py:47 | starts with no key held |
| HotkeyHandler.HotkeyListener.HandleBatch | HotkeyHandler/HotkeyHandler_Wayland.py:121-147 | the held set becomes the replay of the handled events. The recorded positions are exactly the handled events that are key events with the combo held after applying them, each once and in order |
| HotkeyHandler.HotkeyListener.Listen | HotkeyHandler/HotkeyHandler_Wayland.py:106-149 | an unresolvable name makes it return before any event is handled. Otherwise every batch is handled in order, each from the held set the earlier batches left, and each batch's positions are exactly its firing events, inside its handled prefix, once each and in order |
| HotkeyHandler.HotkeyListener.HandleBatches | HotkeyHandler/HotkeyHandler_Wayland.py:118-149 | the event loop: after the batches the held set is their replay, and each batch's firing positions are exactly as `HandleBatch` states, from the held set the earlier batches left |
| HotkeyHandler.PathJoin | HotkeyHandler/HotkeyHandler_Wayland.py:79 | for a relative second part, as every call here has, `os.path.join` keeps both parts, with exactly one '/' between them unless the first part is empty or ends with '/' |
| HotkeyHandler.LaunchArgs | HotkeyHandler/HotkeyHandler_Wayland.py:77-98 | the argument list is `[interpreter, <parent>/WaylandClipboard.py, '--hidden']` |
| HotkeyHandler.Interpreter | HotkeyHandler/HotkeyHandler_Wayland.py:87-91 | without the venv directory the interpreter is `python3`; with it, a path that starts with the parent directory and ends with `python3` |
| HotkeyHandler.VenvInterpreterPath | HotkeyHandler/HotkeyHandler_Wayland.py:87-91 | with the venv directory present the interpreter is `<parent>/ClipboardVenv/bin/python3` |
| HotkeyHandler.ToggleGui | HotkeyHandler/HotkeyHandler_Wayland.py:61-72 | sends exactly `b"toggle"` iff the connect succeeds. Launches the GUI, with `LaunchArgs`, iff the connection is refused or the socket file is missing. Any other socket error escapes |
| ToggleChannel.ClientSendTogglesServer | HotkeyHandler/HotkeyHandler_Wayland.py:64-69 | the bytes the client sends on a successful connect make the GUI server schedule a toggle |
| ToggleChannel.ToggleAttemptOutcomes | HotkeyHandler/HotkeyHandler_Wayland.py:61-72 | a toggle attempt either delivers an accepted command, launches the GUI hidden, or raises on another socket error |

## Left out

- GTK: widget construction, rendering, `show_all`/`hide`/`present` and `Gtk.main` are not modelled. Visibility is the boolean `isVisible`.
- ToggleVisibility: an exception raised by GTK's `hide`/`show_all` would leave `is_visible` unchanged. The model assumes GTK does not raise.
- Socket setup and teardown are not modelled: removing a stale socket file, `bind`/`listen`, `on_destroy`'s cleanup, and the accept loop's retry sleep after an error.
- Received: the model assumes the client's bytes arrive in one `recv`, which holds for six bytes on a local socket. The server's test is stated on bytes. A payload that fails to decode as UTF-8 raises, is logged, and does not toggle; the connection object is then left unclosed, which the model does not represent.
- The server thread hands `toggle_visibility` to the GUI context through `idle_add`. `ServeConnections` applies the flips in order, as that hand-off would.
- `threading.Lock` is not modelled. Every handler runs on the one GUI context, so the lock has no effect in this sequential model.
- GLib timers are not modelled. The delays of 300, 200 and 500 ms appear only as returned values or constants, and resets happen when the caller invokes the reset events.
- `wl-paste`/`wl-copy` are outcomes, not processes. Output that is not valid text, for which Python raises `UnicodeDecodeError`, is not modelled. The tick would log it and change nothing.
- The history file is represented by the ghost field `saved`, which holds what loading the file would give. JSON encoding and decoding and `load_history_from_file` are not modelled; the initial history is a parameter. Loaded records are assumed to be `(content, kind)` pairs; other JSON shapes would make `update_clipboard_display` raise part-way.
- WaylandClipboard.FileAfterSave: a write error is assumed to leave the file short of its closing bracket, so that it loads as empty. An error raised by `close` after every byte reached the disk would leave a complete file, and that case is not distinguished.
- Configuration files are modelled only as JSON objects with the expected member types. Other shapes either raise `TypeError`, which escapes `listen`, or `KeyError`, which makes `listen` return as for an unknown name (a string given as `modifiers` is read one character at a time, and a `key` that is `null` or a number names no key); an object given as `modifiers` is read through its keys. Read errors other than a missing file or bad JSON (permission errors, for example) escape `KeyConfig.__init__`.
- HotkeyHandler.HotkeyListener.HandleBatch: the rest of a batch is not dropped when `toggle_gui` raises on a socket error other than refused or missing. `ToggleGui` returns `Raise` for that case, but the listener goes on with the batch.
- `sock.send` sending only part of the command is not modelled.
- Device enumeration (`list_devices`, the keyboard filter), `select` and `categorize` are not modelled. With no keyboard device the real loop blocks forever. The model receives events as batches, one per `dev.read()`, and `listen`'s endless loop becomes a finite series of batches.
- `launch_gui`'s call to `Popen` is not modelled. A failure there is logged and swallowed; the model returns the argument list it would use. The initial hidden launch in `main`, logging and `checkRequiredComponents` are also not modelled.
- Python strings may hold lone surrogate code points, but Dafny's `char` cannot, so such strings are not modelled.
